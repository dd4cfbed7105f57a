/**
 * Where `main` puts every node of the graph and which edges it draws.
 *
 * Traces form one square below the root, customers another, and each
 * customer's sites a small square below that customer. The distance between
 * neighbouring customers must exceed the width of a site square, or two
 * customers' sites can land on the same point; `main` derives it from the
 * largest site count (see CustomerSpacingAsWritten and CustomerSpacing).
 */
module Scene {
  import opened Wrappers
  import opened Arith
  import opened Layout
  import opened Lexicographic
  import opened Connections
  import opened Styling

  // The defaults at the top of `main`.
  const RootPos: Position := Position(0, 0, 0)
  const ZSpaceCustomer: int := 4
  const ZSpaceSite: int := 6
  const ZSpaceTrace: int := 20
  const TraceSquareSpacing: int := 4
  const SiteSquareSpacing: int := 2
  const CustomerSquareSpacing: int := 8

  // Depth steps: customers below the root, sites below their customer, traces below the root.
  const CustomerZSpace: int := RootPos.z + ZSpaceCustomer
  const SiteZSpace: int := CustomerZSpace + ZSpaceSite
  const TraceZSpace: int := SiteZSpace + ZSpaceTrace

  function Max(a: int, b: int): int
  {
    if a < b then b else a
  }

  /**
   * The customer spacing as `main` computes it from the largest site count:
   * ceil(sqrt(population)) + 1 + the site spacing, at least the default 8.
   * This does not grow with the site spacing times the site square's
   * half-width, so it can be smaller than a site square is wide.
   */
  function CustomerSpacingAsWritten(population: nat): (c: int)
    ensures c >= CustomerSquareSpacing
    ensures c >= CeilSqrt(population) + 1 + SiteSquareSpacing
    ensures c == CustomerSquareSpacing || c == CeilSqrt(population) + 1 + SiteSquareSpacing
  {
    Max(CeilSqrt(population) + 1 + SiteSquareSpacing, CustomerSquareSpacing)
  }

  /**
   * The customer spacing that keeps site squares apart: one site spacing
   * more than the full width 2 * h * siteSpacing of the widest site square,
   * at least the default 8.
   */
  function CustomerSpacing(population: nat): (c: int)
    ensures c >= CustomerSquareSpacing
    ensures c > 2 * (SiteSquareSpacing * HalfSide(population))
  {
    Max(SiteSquareSpacing * (2 * HalfSide(population) + 1), CustomerSquareSpacing)
  }

  /** The node positions: traces, customers and, per customer, its sites, all in the script's order. */
  datatype Placement = Placement(traces: seq<Position>, customers: seq<Position>, sites: seq<seq<Position>>)

  /** The customer square: one point per customer, spacing apart, below the root. */
  function CustomerPositions(config: Config, spacing: int): (r: seq<Position>)
    requires spacing > 0
    ensures |r| == |config| && Distinct(r) && AtDepth(r, RootPos.z - CustomerZSpace)
  {
    Place(config, RootPos, CustomerZSpace, spacing)
  }

  /** Each customer's site square, around that customer's point. */
  function SitePositions(config: Config, customers: seq<Position>): (r: seq<seq<Position>>)
    requires |customers| == |config|
    ensures |r| == |config|
    ensures forall c :: 0 <= c < |config| ==>
              |r[c]| == |config[c].sites| && Distinct(r[c]) && AtDepth(r[c], customers[c].z - SiteZSpace)
  {
    seq(|config|, c requires 0 <= c < |config| =>
      Place(config[c].sites, customers[c], SiteZSpace, SiteSquareSpacing))
  }

  /**
   * The placement `main` builds with the given customer spacing. Whatever
   * the spacing, every node has a position, the three kinds lie on three
   * depths, and traces, customers and the sites of one customer are each
   * pairwise apart. Sites of different customers are kept apart only by a
   * wide enough spacing (SitesApart).
   */
  function PlaceWith(config: Config, spacing: int): (p: Placement)
    requires spacing > 0
    ensures |p.traces| == |MasterTraceList(config)|
    ensures Distinct(p.traces) && AtDepth(p.traces, RootPos.z - TraceZSpace)
    ensures |p.customers| == |config| && Distinct(p.customers) && AtDepth(p.customers, RootPos.z - CustomerZSpace)
    ensures |p.sites| == |config|
    ensures forall c :: 0 <= c < |config| ==> |p.sites[c]| == |config[c].sites| && Distinct(p.sites[c])
    ensures SitesAtDepth(p.sites, RootPos.z - CustomerZSpace - SiteZSpace)
  {
    var customers := CustomerPositions(config, spacing);
    var sites := SitePositions(config, customers);
    assert SitesAtDepth(sites, RootPos.z - CustomerZSpace - SiteZSpace) by {
      forall c | 0 <= c < |sites|
        ensures AtDepth(sites[c], RootPos.z - CustomerZSpace - SiteZSpace)
      {
        assert customers[c].z == RootPos.z - CustomerZSpace;
      }
    }
    Placement(
      Place(MasterTraceList(config), RootPos, TraceZSpace, TraceSquareSpacing),
      customers,
      sites)
  }

  /**
   * The placement exactly as `main` computes it: every guarantee of
   * PlaceWith holds, but sites of different customers may meet
   * (AsWrittenCollision).
   */
  function PlaceNodesAsWritten(config: Config): (p: Placement)
    ensures |p.traces| == |MasterTraceList(config)|
    ensures Distinct(p.traces) && AtDepth(p.traces, RootPos.z - TraceZSpace)
    ensures |p.customers| == |config| && Distinct(p.customers) && AtDepth(p.customers, RootPos.z - CustomerZSpace)
    ensures |p.sites| == |config|
    ensures forall c :: 0 <= c < |config| ==> |p.sites[c]| == |config[c].sites| && Distinct(p.sites[c])
    ensures SitesAtDepth(p.sites, RootPos.z - CustomerZSpace - SiteZSpace)
  {
    PlaceWith(config, CustomerSpacingAsWritten(MaxNumSites(config)))
  }

  /** Sites of different customers, placed with a spacing wider than any site square, never share a point. */
  lemma {:induction false} SitesApart(config: Config, spacing: int, c1: int, k1: int, c2: int, k2: int)
    requires spacing > 2 * (SiteSquareSpacing * HalfSide(MaxNumSites(config)))
    requires 0 <= c1 < |config| && 0 <= c2 < |config| && c1 != c2
    requires 0 <= k1 < |config[c1].sites| && 0 <= k2 < |config[c2].sites|
    ensures var customers := CustomerPositions(config, spacing);
            SitePositions(config, customers)[c1][k1] != SitePositions(config, customers)[c2][k2]
  {
    var customers := CustomerPositions(config, spacing);
    var sites := SitePositions(config, customers);
    var bound := HalfSide(MaxNumSites(config));
    PlaceOnLattice(config, RootPos, CustomerZSpace, spacing, c1);
    PlaceOnLattice(config, RootPos, CustomerZSpace, spacing, c2);
    PlaceOnLattice(config[c1].sites, customers[c1], SiteZSpace, SiteSquareSpacing, k1);
    PlaceOnLattice(config[c2].sites, customers[c2], SiteZSpace, SiteSquareSpacing, k2);
    LatticeApart(customers[c1], customers[c2], RootPos, CustomerZSpace, spacing, HalfSide(|config|));
    HalfSideMonotone(|config[c1].sites|, MaxNumSites(config));
    HalfSideMonotone(|config[c2].sites|, MaxNumSites(config));
    NearRoot(sites[c1][k1], customers[c1], SiteZSpace, SiteSquareSpacing, HalfSide(|config[c1].sites|), bound);
    NearRoot(sites[c2][k2], customers[c2], SiteZSpace, SiteSquareSpacing, HalfSide(|config[c2].sites|), bound);
  }

  /** (c1, k1) and (c2, k2) index two different sites. */
  ghost predicate SitePair(sites: seq<seq<Position>>, c1: int, k1: int, c2: int, k2: int)
  {
    0 <= c1 < |sites| && 0 <= k1 < |sites[c1]| && 0 <= c2 < |sites| && 0 <= k2 < |sites[c2]|
    && (c1 != c2 || k1 != k2)
  }

  /** No two sites, of one customer or of two, share a point. */
  ghost predicate SitesDistinct(sites: seq<seq<Position>>)
  {
    forall c1, k1, c2, k2 ::
      0 <= c1 < |sites| && 0 <= k1 < |sites[c1]| && 0 <= c2 < |sites| && 0 <= k2 < |sites[c2]|
      && (c1 != c2 || k1 != k2)
      ==> sites[c1][k1] != sites[c2][k2]
  }

  /** One instance of SitesDistinct: site k1 of customer c1 and site k2 of customer c2 differ. */
  lemma SitesDistinctAt(sites: seq<seq<Position>>, c1: int, k1: int, c2: int, k2: int)
    requires SitesDistinct(sites)
    requires 0 <= c1 < |sites| && 0 <= k1 < |sites[c1]| && 0 <= c2 < |sites| && 0 <= k2 < |sites[c2]|
    requires c1 != c2 || k1 != k2
    ensures sites[c1][k1] != sites[c2][k2]
  {
  }

  /** Every customer's sites lie at depth z. */
  ghost predicate SitesAtDepth(sites: seq<seq<Position>>, z: int)
  {
    forall c :: 0 <= c < |sites| ==> AtDepth(sites[c], z)
  }

  /** With a spacing wider than any site square, all sites of all customers are pairwise apart. */
  lemma {:induction false} AllSitesApart(config: Config, spacing: int)
    requires spacing > 2 * (SiteSquareSpacing * HalfSide(MaxNumSites(config)))
    ensures var customers := CustomerPositions(config, spacing);
            SitesDistinct(SitePositions(config, customers))
            && SitesAtDepth(SitePositions(config, customers), RootPos.z - CustomerZSpace - SiteZSpace)
  {
    SitesPairwiseApart(config, spacing);
    SitesOnOneDepth(config, spacing);
  }

  /** The distinctness half of AllSitesApart: within a customer by Place, across customers by SitesApart. */
  lemma SitesPairwiseApart(config: Config, spacing: int)
    requires spacing > 2 * (SiteSquareSpacing * HalfSide(MaxNumSites(config)))
    ensures SitesDistinct(SitePositions(config, CustomerPositions(config, spacing)))
  {
    var sites := SitePositions(config, CustomerPositions(config, spacing));
    forall c1, k1, c2, k2 | SitePair(sites, c1, k1, c2, k2)
      ensures SiteAt(sites, c1, k1) != SiteAt(sites, c2, k2)
    {
      SitePairApart(config, spacing, c1, k1, c2, k2);
    }
    PairsApartDistinct(sites);
  }

  /** Site k of customer c, or the root for indices out of range. */
  function SiteAt(sites: seq<seq<Position>>, c: int, k: int): Position
  {
    if 0 <= c < |sites| && 0 <= k < |sites[c]| then sites[c][k] else RootPos
  }

  /** SitesDistinct, read pair by pair. */
  lemma PairsApartDistinct(sites: seq<seq<Position>>)
    requires forall c1, k1, c2, k2 :: SitePair(sites, c1, k1, c2, k2) ==> SiteAt(sites, c1, k1) != SiteAt(sites, c2, k2)
    ensures SitesDistinct(sites)
  {
    forall c1, k1, c2, k2 |
      0 <= c1 < |sites| && 0 <= k1 < |sites[c1]| && 0 <= c2 < |sites| && 0 <= k2 < |sites[c2]|
      && (c1 != c2 || k1 != k2)
      ensures sites[c1][k1] != sites[c2][k2]
    {
      assert SitePair(sites, c1, k1, c2, k2);
    }
  }

  /** Two different sites differ: by Place within one customer, by SitesApart across two. */
  lemma SitePairApart(config: Config, spacing: int, c1: int, k1: int, c2: int, k2: int)
    requires spacing > 2 * (SiteSquareSpacing * HalfSide(MaxNumSites(config)))
    requires SitePair(SitePositions(config, CustomerPositions(config, spacing)), c1, k1, c2, k2)
    ensures var sites := SitePositions(config, CustomerPositions(config, spacing));
            SiteAt(sites, c1, k1) != SiteAt(sites, c2, k2)
  {
    if c1 != c2 {
      SitesApart(config, spacing, c1, k1, c2, k2);
    } else {
      DistinctAt(SitePositions(config, CustomerPositions(config, spacing))[c1], k1, k2);
    }
  }

  /** The depth half of AllSitesApart: every customer sits one level down, its sites one more. */
  lemma SitesOnOneDepth(config: Config, spacing: int)
    requires spacing > 0
    ensures SitesAtDepth(SitePositions(config, CustomerPositions(config, spacing)), RootPos.z - CustomerZSpace - SiteZSpace)
  {
    var customers := CustomerPositions(config, spacing);
    var sites := SitePositions(config, customers);
    forall c | 0 <= c < |sites|
      ensures AtDepth(sites[c], RootPos.z - CustomerZSpace - SiteZSpace)
    {
      assert customers[c].z == RootPos.z - CustomerZSpace;
    }
  }

  /**
   * The corrected placement: the script's placement with CustomerSpacing.
   * Every node gets its own point: traces, customers and sites lie on three
   * different depths below the root, and within each depth no two nodes
   * coincide.
   */
  function PlaceNodes(config: Config): (p: Placement)
    ensures |p.traces| == |MasterTraceList(config)|
    ensures |p.customers| == |config| && |p.sites| == |config|
    ensures forall c :: 0 <= c < |config| ==> |p.sites[c]| == |config[c].sites|
    ensures AtDepth(p.traces, RootPos.z - TraceZSpace) && Distinct(p.traces)
    ensures AtDepth(p.customers, RootPos.z - CustomerZSpace) && Distinct(p.customers)
    ensures SitesAtDepth(p.sites, RootPos.z - CustomerZSpace - SiteZSpace) && SitesDistinct(p.sites)
  {
    var spacing := CustomerSpacing(MaxNumSites(config));
    AllSitesApart(config, spacing);
    PlaceWith(config, spacing)
  }

  /** The name of the i-th site of the example below: the one-letter string a, b, c, ... */
  function SiteName(i: nat): (name: string)
    requires i < 26
    ensures |name| == 1 && name[0] as int == 'a' as int + i
  {
    [('a' as int + i) as char]
  }

  /**
   * The five-customer configuration that shows the overlap: the first
   * customer has 13 sites, the last 5, the three between none.
   */
  function OverlapConfig(): Config
  {
    var many := seq(13, i requires 0 <= i < 13 => Site(SiteName(i), []));
    var some := seq(5, i requires 0 <= i < 5 => Site(SiteName(13 + i), []));
    [Customer("c0", many), Customer("c1", []), Customer("c2", []), Customer("c3", []), Customer("c4", some)]
  }

  /**
   * The example is an input the script can receive: the five customers have
   * different names and no two sites, of one customer or of two, share a
   * name, so JSON keeps every key and networkx gives every site its own node.
   */
  lemma OverlapNamesDistinct()
    ensures forall c1, c2 :: 0 <= c1 < c2 < |OverlapConfig()| ==> OverlapConfig()[c1].name != OverlapConfig()[c2].name
    ensures forall c1, k1, c2, k2 ::
              0 <= c1 < |OverlapConfig()| && 0 <= k1 < |OverlapConfig()[c1].sites|
              && 0 <= c2 < |OverlapConfig()| && 0 <= k2 < |OverlapConfig()[c2].sites|
              && (c1 != c2 || k1 != k2)
              ==> OverlapConfig()[c1].sites[k1].name != OverlapConfig()[c2].sites[k2].name
  {
    var config := OverlapConfig();
    assert forall c :: 0 <= c < |config| ==> config[c].name == ['c', "01234"[c]];
    forall c1, k1, c2, k2 |
      0 <= c1 < |config| && 0 <= k1 < |config[c1].sites| && 0 <= c2 < |config| && 0 <= k2 < |config[c2].sites|
      && (c1 != c2 || k1 != k2)
      ensures config[c1].sites[k1].name != config[c2].sites[k2].name
    {
      OverlapSiteLetter(c1, k1);
      OverlapSiteLetter(c2, k2);
    }
  }

  /**
   * Only the first and the last customer of the example have sites, and
   * site k of them is named by letter k, or by letter 13 + k.
   */
  lemma OverlapSiteLetter(c: int, k: int)
    requires 0 <= c < |OverlapConfig()| && 0 <= k < |OverlapConfig()[c].sites|
    ensures c == 0 || c == 4
    ensures |OverlapConfig()[c].sites[k].name| == 1
    ensures OverlapConfig()[c].sites[k].name[0] as int == 'a' as int + (if c == 0 then k else 13 + k)
  {
    var config := OverlapConfig();
    assert forall m :: 0 < m < 4 ==> |config[m].sites| == 0;
    if c == 0 {
      assert config[0].sites[k].name == SiteName(k);
    } else {
      assert config[4].sites[k].name == SiteName(13 + k);
    }
  }

  /** The sizes behind the overlap: 13 sites at most, so h = 2 for both site squares and a spacing of 8. */
  lemma OverlapSizes()
    ensures |OverlapConfig()| == 5
    ensures |OverlapConfig()[0].sites| == 13 && |OverlapConfig()[4].sites| == 5
    ensures MaxNumSites(OverlapConfig()) == 13
  {
    var config := OverlapConfig();
    assert |config[0].sites| == 13 && |config[4].sites| == 5;
  }

  /** Groups of 5 to 16 elements get h = 2: a 4 x 4 square. */
  lemma HalfSideTwo(n: nat)
    requires 5 <= n <= 16
    ensures HalfSide(n) == 2
  {
    CeilSqrtLeast(n, 4);
    SquareMonotone(CeilSqrt(n), 2);
  }

  /**
   * In a 4 x 4 square around center with step s, element k = 4i + j sits at
   * lattice cell (i, j): dx and dy steps of s away from center.
   */
  lemma SquareAt<T>(elements: seq<T>, center: Position, zSpace: int, s: int, i: int, j: int, k: int, dx: int, dy: int)
    requires 5 <= |elements| <= 16 && s > 0
    requires 0 <= i < 4 && 0 <= j < 4 && k == 4 * i + j && k < |elements|
    requires dx == Lattice(2, i) && dy == Lattice(2, j)
    ensures Place(elements, center, zSpace, s)[k] == Position(center.x + s * dx, center.y + s * dy, center.z - zSpace)
  {
    HalfSideTwo(|elements|);
    PlaceAt(elements, center, zSpace, s, 2, i, j, k);
  }

  /** In a 4 x 4 square around center with step s, element 0 (row 0, column 0) sits at (-2s, -2s) from center. */
  lemma SquareCorner<T>(elements: seq<T>, center: Position, zSpace: int, s: int)
    requires 5 <= |elements| <= 16 && s > 0
    ensures Place(elements, center, zSpace, s)[0] == Position(center.x - 2 * s, center.y - 2 * s, center.z - zSpace)
  {
    SquareAt(elements, center, zSpace, s, 0, 0, 0, -2, -2);
  }

  /** In a 4 x 4 square around center with step s, element 4 (row 1, column 0) sits at (-s, -2s) from center. */
  lemma SquareSecondRow<T>(elements: seq<T>, center: Position, zSpace: int, s: int)
    requires 5 <= |elements| <= 16 && s > 0
    ensures Place(elements, center, zSpace, s)[4] == Position(center.x - s, center.y - 2 * s, center.z - zSpace)
  {
    SquareAt(elements, center, zSpace, s, 1, 0, 4, -1, -2);
  }

  /** In a 4 x 4 square around center with step s, element 12 (row 3, column 0) sits at (2s, -2s) from center. */
  lemma SquareLastRow<T>(elements: seq<T>, center: Position, zSpace: int, s: int)
    requires 13 <= |elements| <= 16 && s > 0
    ensures Place(elements, center, zSpace, s)[12] == Position(center.x + 2 * s, center.y - 2 * s, center.z - zSpace)
  {
    SquareAt(elements, center, zSpace, s, 3, 0, 12, 2, -2);
  }

  /** Five customers 8 apart: the first sits at (-16, -16, -4) and the fifth at (-8, -16, -4). */
  lemma FiveCustomersEightApart(config: Config)
    requires |config| == 5
    ensures CustomerPositions(config, 8)[0] == Position(-16, -16, -4)
    ensures CustomerPositions(config, 8)[4] == Position(-8, -16, -4)
  {
    SquareCorner(config, RootPos, CustomerZSpace, 8);
    SquareSecondRow(config, RootPos, CustomerZSpace, 8);
  }

  /** Site squares of 13 and of 5 sites around customers 8 apart reach the same point. */
  lemma NeighbourSquaresMeet(config: Config, customers: seq<Position>)
    requires |config| == 5 && |customers| == 5
    requires |config[0].sites| == 13 && |config[4].sites| == 5
    requires customers[0] == Position(-16, -16, -4) && customers[4] == Position(-8, -16, -4)
    ensures |SitePositions(config, customers)[0]| == 13 && |SitePositions(config, customers)[4]| == 5
    ensures SitePositions(config, customers)[0][12] == Position(-12, -20, -14)
    ensures SitePositions(config, customers)[4][0] == Position(-12, -20, -14)
  {
    var sites := SitePositions(config, customers);
    assert sites[0] == Place(config[0].sites, customers[0], SiteZSpace, SiteSquareSpacing);
    assert sites[4] == Place(config[4].sites, customers[4], SiteZSpace, SiteSquareSpacing);
    SquareLastRow(config[0].sites, customers[0], SiteZSpace, SiteSquareSpacing);
    SquareCorner(config[4].sites, customers[4], SiteZSpace, SiteSquareSpacing);
  }

  /**
   * Any five customers of which the first has 13 sites, the fifth 5 and
   * none more than 13: with the spacing as written, site 12 of the first
   * and site 0 of the fifth both land on (-12, -20, -14).
   */
  lemma AsWrittenCollision(config: Config)
    requires |config| == 5 && |config[0].sites| == 13 && |config[4].sites| == 5
    requires MaxNumSites(config) == 13
    ensures |PlaceNodesAsWritten(config).sites| == 5
    ensures |PlaceNodesAsWritten(config).sites[0]| == 13 && |PlaceNodesAsWritten(config).sites[4]| == 5
    ensures PlaceNodesAsWritten(config).sites[0][12] == Position(-12, -20, -14)
    ensures PlaceNodesAsWritten(config).sites[4][0] == Position(-12, -20, -14)
  {
    assert CustomerSpacingAsWritten(13) == 8 by {
      CeilSqrtIs(13, 4);
    }
    var customers := CustomerPositions(config, 8);
    assert PlaceNodesAsWritten(config).sites == SitePositions(config, customers);
    FiveCustomersEightApart(config);
    NeighbourSquaresMeet(config, customers);
  }

  /**
   * The configuration above is one such: with the spacing as written, two
   * sites of different customers share the point (-12, -20, -14).
   */
  lemma AsWrittenSitesCollide()
    ensures |PlaceNodesAsWritten(OverlapConfig()).sites| == 5
    ensures |PlaceNodesAsWritten(OverlapConfig()).sites[0]| == 13
    ensures |PlaceNodesAsWritten(OverlapConfig()).sites[4]| == 5
    ensures PlaceNodesAsWritten(OverlapConfig()).sites[0][12] == Position(-12, -20, -14)
    ensures PlaceNodesAsWritten(OverlapConfig()).sites[4][0] == Position(-12, -20, -14)
    ensures OverlapConfig()[0].sites[12].name != OverlapConfig()[4].sites[0].name
  {
    OverlapSizes();
    OverlapNamesDistinct();
    AsWrittenCollision(OverlapConfig());
  }

  /**
   * The same kind of configuration under the corrected spacing: customers
   * 10 apart, and the two sites that met above are apart.
   */
  lemma CorrectedApart(config: Config)
    requires |config| == 5 && |config[0].sites| == 13 && |config[4].sites| == 5
    requires MaxNumSites(config) == 13
    ensures CustomerSpacing(MaxNumSites(config)) == 10
    ensures |PlaceNodes(config).sites[0]| == 13 && |PlaceNodes(config).sites[4]| == 5
    ensures PlaceNodes(config).sites[0][12] != PlaceNodes(config).sites[4][0]
  {
    CorrectedSpacingTen(MaxNumSites(config));
    var sites := PlaceNodes(config).sites;
    assert |sites[0]| == 13 && |sites[4]| == 5;
    SitesDistinctAt(sites, 0, 12, 4, 0);
  }

  /** Groups of 5 to 16 sites at most get the corrected customer spacing 10: a site square 8 wide, plus one step. */
  lemma CorrectedSpacingTen(n: nat)
    requires 5 <= n <= 16
    ensures CustomerSpacing(n) == 10
  {
    HalfSideTwo(n);
    assert SiteSquareSpacing * (2 * HalfSide(n) + 1) == 10;
  }

  /** The overlapping configuration itself under the corrected spacing. */
  lemma CorrectedNoCollision()
    ensures CustomerSpacing(MaxNumSites(OverlapConfig())) == 10
    ensures |PlaceNodes(OverlapConfig()).sites[0]| == 13 && |PlaceNodes(OverlapConfig()).sites[4]| == 5
    ensures PlaceNodes(OverlapConfig()).sites[0][12] != PlaceNodes(OverlapConfig()).sites[4][0]
    ensures OverlapConfig()[0].sites[12].name != OverlapConfig()[4].sites[0].name
  {
    OverlapSizes();
    OverlapNamesDistinct();
    CorrectedApart(OverlapConfig());
  }

  // ---------------------------------------------------------------------
  // Edges
  // ---------------------------------------------------------------------

  /** One edge of the graph, with the colour it is drawn in. */
  datatype Edge = Edge(src: string, dst: string, color: Color)

  /** The line width of an edge. */
  function Width(e: Edge): nat
  {
    EdgeWidth(Hex(e.color))
  }

  /**
   * The loop over the master trace list for one site of one customer: an
   * edge from the site to each trace the site lists, coloured by whether the
   * trace has data; a missing customer or site in the data table stops the
   * script with a KeyError as soon as a listed trace is reached.
   */
  function TraceEdges(master: seq<string>, customer: string, site: Site, data: DataTable)
    : (r: Result<seq<Edge>, LookupError>)
    ensures r.Ok? ==> forall k :: 0 <= k < |r.value| ==>
              r.value[k].src == site.name && r.value[k].dst in master && r.value[k].dst in site.traces
    ensures r.Ok? && |r.value| > 0 ==> customer in data && site.name in data[customer]
    ensures r.Ok? && |r.value| > 0 ==> forall k :: 0 <= k < |r.value| ==>
              r.value[k].color == (if r.value[k].dst in data[customer][site.name] then Green else Red)
  {
    if |master| == 0 then Ok([])
    else
      assert forall u :: u in master[1..] ==> u in master;
      match TraceEdgeColor(site.traces, data, customer, site.name, master[0])
      case Err(e) => Err(e)
      case Ok(None) => TraceEdges(master[1..], customer, site, data)
      case Ok(Some(c)) =>
        match TraceEdges(master[1..], customer, site, data)
        case Err(e) => Err(e)
        case Ok(edges) =>
          var r := [Edge(site.name, master[0], c)] + edges;
          assert forall k :: 1 <= k < |r| ==> r[k] == edges[k - 1];
          Ok(r)
  }

  /** The loop fails exactly when the site lists a trace of the master list and its data entry is missing. */
  lemma {:induction false} TraceEdgesFail(master: seq<string>, customer: string, site: Site, data: DataTable)
    ensures TraceEdges(master, customer, site, data).Err? <==>
              (exists t :: t in master && t in site.traces)
              && (customer !in data || site.name !in data[customer])
  {
    if |master| > 0 {
      TraceEdgesFail(master[1..], customer, site, data);
      assert forall u :: u in master <==> u == master[0] || u in master[1..];
    }
  }

  /** Every trace of the master list that the site lists gets an edge. */
  lemma {:induction false} TraceEdgesComplete(master: seq<string>, customer: string, site: Site, data: DataTable, t: string)
    requires TraceEdges(master, customer, site, data).Ok?
    requires t in master && t in site.traces
    ensures exists k :: 0 <= k < |TraceEdges(master, customer, site, data).value|
              && TraceEdges(master, customer, site, data).value[k].dst == t
  {
    var edges := TraceEdges(master, customer, site, data).value;
    TraceEdgesStep(master, customer, site, data);
    var rest := TraceEdges(master[1..], customer, site, data).value;
    if t != master[0] {
      assert t in master[1..] by { assert master == [master[0]] + master[1..]; }
      TraceEdgesComplete(master[1..], customer, site, data, t);
      var k :| 0 <= k < |rest| && rest[k].dst == t;
      if master[0] !in site.traces {
        assert edges[k] == rest[k];
      } else {
        assert edges[k + 1] == rest[k];
      }
    } else {
      assert edges[0].dst == t;
    }
  }

  /** One step of TraceEdges: the first master trace adds an edge in front exactly when the site lists it. */
  lemma TraceEdgesStep(master: seq<string>, customer: string, site: Site, data: DataTable)
    requires |master| > 0 && TraceEdges(master, customer, site, data).Ok?
    ensures TraceEdges(master[1..], customer, site, data).Ok?
    ensures var edges, rest := TraceEdges(master, customer, site, data).value, TraceEdges(master[1..], customer, site, data).value;
            if master[0] in site.traces then |edges| == |rest| + 1 && edges[0].dst == master[0] && edges[1..] == rest
            else edges == rest
  {
    var rest := TraceEdges(master[1..], customer, site, data);
    var color := TraceEdgeColor(site.traces, data, customer, site.name, master[0]);
    if master[0] in site.traces {
      assert color.Ok? && color.value.Some?;
      assert rest.Ok?;
    }
  }


  /** Over an ascending master list the edges come in ascending order of trace, so no trace gets two. */
  lemma {:induction false} TraceEdgesAscending(master: seq<string>, customer: string, site: Site, data: DataTable)
    requires StrictlyAscending(master) && TraceEdges(master, customer, site, data).Ok?
    ensures var edges := TraceEdges(master, customer, site, data).value;
            forall a, b :: 0 <= a < b < |edges| ==> Below(edges[a].dst, edges[b].dst)
  {
    if |master| > 0 {
      TraceEdgesAscending(master[1..], customer, site, data);
      assert forall u :: u in master[1..] ==> Below(master[0], u);
    }
  }

  /** A site-to-trace edge is drawn wide exactly when the trace's data is missing. */
  lemma TraceEdgeWidth(master: seq<string>, customer: string, site: Site, data: DataTable, k: int)
    requires TraceEdges(master, customer, site, data).Ok?
    requires 0 <= k < |TraceEdges(master, customer, site, data).value|
    ensures customer in data && site.name in data[customer]
    ensures var e := TraceEdges(master, customer, site, data).value[k];
            (Width(e) == FlaggedSize) <==> e.dst !in data[customer][site.name]
  {
    FlaggedColors(TraceEdges(master, customer, site, data).value[k].color);
  }

  /**
   * Over the master trace list of the whole configuration, every trace a
   * site lists gets exactly one edge from that site: the master list holds
   * every listed trace, and holds each once.
   */
  lemma {:induction false} OneEdgePerTrace(config: Config, c: int, s: int, data: DataTable, t: string)
    requires 0 <= c < |config| && 0 <= s < |config[c].sites|
    requires TraceEdges(MasterTraceList(config), config[c].name, config[c].sites[s], data).Ok?
    requires t in config[c].sites[s].traces
    ensures var edges := TraceEdges(MasterTraceList(config), config[c].name, config[c].sites[s], data).value;
            exists k :: 0 <= k < |edges| && edges[k].dst == t
              && forall k' :: 0 <= k' < |edges| && edges[k'].dst == t ==> k' == k
  {
    var master := MasterTraceList(config);
    var edges := TraceEdges(master, config[c].name, config[c].sites[s], data).value;
    assert Mentions(config, t);
    TraceEdgesComplete(master, config[c].name, config[c].sites[s], data, t);
    TraceEdgesAscending(master, config[c].name, config[c].sites[s], data);
    var k :| 0 <= k < |edges| && edges[k].dst == t;
    forall a, b | 0 <= a < |edges| && 0 <= b < |edges| && a != b
      ensures edges[a].dst != edges[b].dst
    {
      if a < b {
        assert Below(edges[a].dst, edges[b].dst);
      } else {
        assert Below(edges[b].dst, edges[a].dst);
      }
      BelowIrreflexive(edges[a].dst);
    }
  }

  /** The trace loop of the site succeeds and every edge it adds is among edges. */
  ghost predicate TraceEdgesIn(master: seq<string>, customer: string, site: Site, data: DataTable, edges: seq<Edge>)
  {
    TraceEdges(master, customer, site, data).Ok?
    && forall e :: e in TraceEdges(master, customer, site, data).value ==> e in edges
  }

  /**
   * The edges `main` adds for one customer, in order: root to customer in
   * black, then for each site the customer-to-site edge followed by the
   * site's trace edges. The first failed lookup ends the script.
   */
  function CustomerEdges(master: seq<string>, customer: Customer, status: StatusTable, data: DataTable)
    : (r: Result<seq<Edge>, LookupError>)
    ensures r.Ok? ==> |r.value| > 0 && r.value[0] == Edge("root", customer.name, Black)
    ensures r.Ok? ==> forall s :: 0 <= s < |customer.sites| ==>
              SiteEdgeColor(status, customer.name, customer.sites[s].name).Ok?
              && Edge(customer.name, customer.sites[s].name, SiteEdgeColor(status, customer.name, customer.sites[s].name).value)
                 in r.value
    ensures |customer.sites| > 0 && customer.name !in status ==> r == Err(KeyError(customer.name))
  {
    match SiteEdges(master, customer.name, customer.sites, status, data)
    case Err(e) => Err(e)
    case Ok(edges) =>
      var r := [Edge("root", customer.name, Black)] + edges;
      assert forall e :: e in edges ==> e in r;
      Ok(r)
  }

  /**
   * All edges `main` adds, customer by customer over the master trace list.
   * Each customer hangs from the root by a black edge; GraphEdgesCover and
   * GraphEdgesBlack below say what else the list holds.
   */
  function GraphEdges(master: seq<string>, config: Config, status: StatusTable, data: DataTable)
    : (r: Result<seq<Edge>, LookupError>)
    ensures r.Ok? ==> forall c :: 0 <= c < |config| ==> Edge("root", config[c].name, Black) in r.value
    decreases |config|
  {
    if |config| == 0 then Ok([])
    else
      match CustomerEdges(master, config[0], status, data)
      case Err(e) => Err(e)
      case Ok(edges) =>
        match GraphEdges(master, config[1..], status, data)
        case Err(e) => Err(e)
        case Ok(rest) =>
          var r := edges + rest;
          assert forall c :: 1 <= c < |config| ==> config[c] == config[1..][c - 1];
          assert forall e :: e in edges || e in rest ==> e in r;
          Ok(r)
  }

  /** The site loop of one customer. */
  function SiteEdges(master: seq<string>, customer: string, sites: seq<Site>, status: StatusTable, data: DataTable)
    : (r: Result<seq<Edge>, LookupError>)
    ensures r.Ok? ==> forall s :: 0 <= s < |sites| ==>
              SiteEdgeColor(status, customer, sites[s].name).Ok?
              && Edge(customer, sites[s].name, SiteEdgeColor(status, customer, sites[s].name).value) in r.value
    ensures |sites| > 0 && customer !in status ==> r == Err(KeyError(customer))
  {
    if |sites| == 0 then Ok([])
    else
      match SiteEdgeColor(status, customer, sites[0].name)
      case Err(e) => Err(e)
      case Ok(color) =>
        match TraceEdges(master, customer, sites[0], data)
        case Err(e) => Err(e)
        case Ok(traceEdges) =>
          match SiteEdges(master, customer, sites[1..], status, data)
          case Err(e) => Err(e)
          case Ok(rest) =>
            var r := [Edge(customer, sites[0].name, color)] + traceEdges + rest;
            assert forall s :: 1 <= s < |sites| ==> sites[s] == sites[1..][s - 1];
            assert forall e :: e in traceEdges || e in rest ==> e in r;
            Ok(r)
  }

  /** Every trace edge of every site of the customer is among the customer's edges. */
  lemma {:induction false} SiteEdgesCover(master: seq<string>, customer: string, sites: seq<Site>,
                                          status: StatusTable, data: DataTable, s: int)
    requires SiteEdges(master, customer, sites, status, data).Ok?
    requires 0 <= s < |sites|
    ensures TraceEdgesIn(master, customer, sites[s], data, SiteEdges(master, customer, sites, status, data).value)
  {
    var r := SiteEdges(master, customer, sites, status, data).value;
    var traceEdges := TraceEdges(master, customer, sites[0], data).value;
    var rest := SiteEdges(master, customer, sites[1..], status, data).value;
    assert r == [r[0]] + traceEdges + rest;
    if s > 0 {
      SiteEdgesCover(master, customer, sites[1..], status, data, s - 1);
      assert sites[s] == sites[1..][s - 1];
    }
  }

  /**
   * When the whole loop of `main` succeeds, every site of every customer got
   * its status-coloured edge and all of its trace edges.
   */
  lemma {:induction false} GraphEdgesCover(master: seq<string>, config: Config, status: StatusTable, data: DataTable,
                                           c: int, s: int)
    requires GraphEdges(master, config, status, data).Ok?
    requires 0 <= c < |config| && 0 <= s < |config[c].sites|
    ensures var r := GraphEdges(master, config, status, data).value;
            var color := SiteEdgeColor(status, config[c].name, config[c].sites[s].name);
            color.Ok? && Edge(config[c].name, config[c].sites[s].name, color.value) in r
            && TraceEdgesIn(master, config[c].name, config[c].sites[s], data, r)
  {
    var r := GraphEdges(master, config, status, data).value;
    var edges := CustomerEdges(master, config[0], status, data).value;
    var rest := GraphEdges(master, config[1..], status, data).value;
    assert r == edges + rest;
    if c > 0 {
      GraphEdgesCover(master, config[1..], status, data, c - 1, s);
      assert config[c] == config[1..][c - 1];
    } else {
      var siteEdges := SiteEdges(master, config[0].name, config[0].sites, status, data).value;
      assert edges == [edges[0]] + siteEdges;
      SiteEdgesCover(master, config[0].name, config[0].sites, status, data, s);
    }
  }

  /** Site and trace edges are never black: black is kept for the root's edges. */
  lemma {:induction false} SiteEdgesNotBlack(master: seq<string>, customer: string, sites: seq<Site>,
                                             status: StatusTable, data: DataTable, k: int)
    requires SiteEdges(master, customer, sites, status, data).Ok?
    requires 0 <= k < |SiteEdges(master, customer, sites, status, data).value|
    ensures SiteEdges(master, customer, sites, status, data).value[k].color != Black
  {
    var r := SiteEdges(master, customer, sites, status, data).value;
    var traceEdges := TraceEdges(master, customer, sites[0], data).value;
    var rest := SiteEdges(master, customer, sites[1..], status, data).value;
    assert r == [r[0]] + traceEdges + rest;
    if k > |traceEdges| {
      SiteEdgesNotBlack(master, customer, sites[1..], status, data, k - 1 - |traceEdges|);
      assert r[k] == rest[k - 1 - |traceEdges|];
    } else if k > 0 {
      assert r[k] == traceEdges[k - 1];
    }
  }

  /** The only black edge `main` adds for a customer is its first, the one from the root. */
  lemma CustomerEdgesBlack(master: seq<string>, customer: Customer, status: StatusTable, data: DataTable, k: int)
    requires CustomerEdges(master, customer, status, data).Ok?
    requires 0 <= k < |CustomerEdges(master, customer, status, data).value|
    requires CustomerEdges(master, customer, status, data).value[k].color == Black
    ensures k == 0
  {
    if k > 0 {
      var r := CustomerEdges(master, customer, status, data).value;
      var edges := SiteEdges(master, customer.name, customer.sites, status, data).value;
      assert r == [r[0]] + edges;
      assert r[k] == edges[k - 1];
      SiteEdgesNotBlack(master, customer.name, customer.sites, status, data, k - 1);
    }
  }

  /** Every black edge in the whole graph runs from the root to one of the customers. */
  lemma {:induction false} GraphEdgesBlack(master: seq<string>, config: Config, status: StatusTable, data: DataTable, k: int)
    requires GraphEdges(master, config, status, data).Ok?
    requires 0 <= k < |GraphEdges(master, config, status, data).value|
    requires GraphEdges(master, config, status, data).value[k].color == Black
    ensures GraphEdges(master, config, status, data).value[k].src == "root"
    ensures exists c :: 0 <= c < |config| && GraphEdges(master, config, status, data).value[k].dst == config[c].name
  {
    var r := GraphEdges(master, config, status, data).value;
    var edges := CustomerEdges(master, config[0], status, data).value;
    var rest := GraphEdges(master, config[1..], status, data).value;
    assert r == edges + rest;
    if k < |edges| {
      assert r[k] == edges[k];
      CustomerEdgesBlack(master, config[0], status, data, k);
    } else {
      assert r[k] == rest[k - |edges|];
      GraphEdgesBlack(master, config[1..], status, data, k - |edges|);
      var c :| 0 <= c < |config[1..]| && r[k].dst == config[1..][c].name;
      assert r[k].dst == config[c + 1].name;
    }
  }

  /** e is an edge the site loop adds for site: the site's status edge or one of its trace edges. */
  ghost predicate FromSite(master: seq<string>, customer: string, site: Site, status: StatusTable, data: DataTable, e: Edge)
  {
    (SiteEdgeColor(status, customer, site.name).Ok?
     && e == Edge(customer, site.name, SiteEdgeColor(status, customer, site.name).value))
    || (TraceEdges(master, customer, site, data).Ok? && e in TraceEdges(master, customer, site, data).value)
  }

  /** The site loop adds nothing else: every edge is some site's status edge or one of its trace edges. */
  lemma {:induction false} SiteEdgesOnly(master: seq<string>, customer: string, sites: seq<Site>,
                                         status: StatusTable, data: DataTable, k: int)
    requires SiteEdges(master, customer, sites, status, data).Ok?
    requires 0 <= k < |SiteEdges(master, customer, sites, status, data).value|
    ensures exists s :: 0 <= s < |sites|
              && FromSite(master, customer, sites[s], status, data, SiteEdges(master, customer, sites, status, data).value[k])
  {
    var r := SiteEdges(master, customer, sites, status, data).value;
    var traceEdges := TraceEdges(master, customer, sites[0], data).value;
    var rest := SiteEdges(master, customer, sites[1..], status, data).value;
    assert r == [r[0]] + traceEdges + rest;
    if k == 0 {
      assert FromSite(master, customer, sites[0], status, data, r[k]);
    } else if k <= |traceEdges| {
      assert r[k] == traceEdges[k - 1];
      assert FromSite(master, customer, sites[0], status, data, r[k]);
    } else {
      assert r[k] == rest[k - 1 - |traceEdges|];
      SiteEdgesOnly(master, customer, sites[1..], status, data, k - 1 - |traceEdges|);
      var s :| 0 <= s < |sites[1..]| && FromSite(master, customer, sites[1..][s], status, data, r[k]);
      assert sites[1..][s] == sites[s + 1];
    }
  }

  /** After the root edge, a customer's edges are its sites' status and trace edges and nothing else. */
  lemma CustomerEdgesOnly(master: seq<string>, customer: Customer, status: StatusTable, data: DataTable, k: int)
    requires CustomerEdges(master, customer, status, data).Ok?
    requires 0 < k < |CustomerEdges(master, customer, status, data).value|
    ensures exists s :: 0 <= s < |customer.sites|
              && FromSite(master, customer.name, customer.sites[s], status, data, CustomerEdges(master, customer, status, data).value[k])
  {
    var r := CustomerEdges(master, customer, status, data).value;
    var edges := SiteEdges(master, customer.name, customer.sites, status, data).value;
    assert r == [r[0]] + edges;
    assert r[k] == edges[k - 1];
    SiteEdgesOnly(master, customer.name, customer.sites, status, data, k - 1);
  }

  /** e is an edge `main` adds: some customer's root edge, or a status or trace edge of one of its sites. */
  ghost predicate InGraph(master: seq<string>, config: Config, status: StatusTable, data: DataTable, e: Edge)
  {
    exists c :: 0 <= c < |config|
      && (e == Edge("root", config[c].name, Black)
          || exists s :: 0 <= s < |config[c].sites| && FromSite(master, config[c].name, config[c].sites[s], status, data, e))
  }

  /** The whole edge list holds nothing but root edges and the sites' status and trace edges. */
  lemma {:induction false} GraphEdgesOnly(master: seq<string>, config: Config, status: StatusTable, data: DataTable, k: int)
    requires GraphEdges(master, config, status, data).Ok?
    requires 0 <= k < |GraphEdges(master, config, status, data).value|
    ensures InGraph(master, config, status, data, GraphEdges(master, config, status, data).value[k])
  {
    var r := GraphEdges(master, config, status, data).value;
    var edges := CustomerEdges(master, config[0], status, data).value;
    var rest := GraphEdges(master, config[1..], status, data).value;
    assert r == edges + rest;
    if k == 0 {
      assert r[k] == edges[0];
    } else if k < |edges| {
      assert r[k] == edges[k];
      CustomerEdgesOnly(master, config[0], status, data, k);
    } else {
      assert r[k] == rest[k - |edges|];
      GraphEdgesOnly(master, config[1..], status, data, k - |edges|);
      var c :| 0 <= c < |config[1..]|
        && (r[k] == Edge("root", config[1..][c].name, Black)
            || exists s :: 0 <= s < |config[1..][c].sites| && FromSite(master, config[1..][c].name, config[1..][c].sites[s], status, data, r[k]));
      assert config[1..][c] == config[c + 1];
    }
  }
}
