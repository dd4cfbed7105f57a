/**
 * How the script colours and sizes the graph's edges.
 *
 * A root-to-customer edge is black. A customer-to-site edge is green when
 * the site is listed as finished ("BCU"), purple when it is "In Progress"
 * and red otherwise. A site-to-trace edge exists for every trace the site
 * lists and is red when the trace's data is missing, green when present.
 * Black and green edges are drawn at the normal width, the rest at the
 * flagged width.
 *
 * The status and data-present JSON objects become maps; a lookup of a
 * missing key, a KeyError in the script, becomes an error result.
 */
module Styling {
  import opened Wrappers

  /** The edge colours the script uses. */
  datatype Color = Black | Red | Purple | Green

  const BlackHex: string := "#332C39"
  const RedHex: string := "#DC0000"
  const PurpleHex: string := "#A555EC"
  const GreenHex: string := "#16FF00"

  const NormalSize: nat := 1
  const FlaggedSize: nat := 4

  /** The colour string the script attaches to an edge. */
  function Hex(c: Color): (h: string)
    ensures |h| == 7 && h[0] == '#'
  {
    match c
    case Black => BlackHex
    case Red => RedHex
    case Purple => PurpleHex
    case Green => GreenHex
  }

  /** Different colours have different colour strings, so a colour can be read back from its edge. */
  lemma HexInjective(a: Color, b: Color)
    ensures Hex(a) == Hex(b) <==> a == b
  {
  }

  /** A dictionary lookup that raised KeyError for the missing key. */
  datatype LookupError = KeyError(key: string)

  /** The per-customer status lists: siteStatus[customer]["BCU"] and siteStatus[customer]["In Progress"]. */
  type StatusTable = map<string, map<string, seq<string>>>

  /** The traces with data: dataPresent[customer][site]. */
  type DataTable = map<string, map<string, seq<string>>>

  /**
   * The colour of the edge from customer to site. The "BCU" list is looked
   * up first and decides alone when it lists the site; only otherwise is the
   * "In Progress" list looked up.
   */
  function SiteEdgeColor(status: StatusTable, customer: string, site: string): (r: Result<Color, LookupError>)
    ensures customer !in status ==> r == Err(KeyError(customer))
    ensures customer in status && "BCU" !in status[customer] ==> r == Err(KeyError("BCU"))
    ensures r == Ok(Green) <==>
              customer in status && "BCU" in status[customer] && site in status[customer]["BCU"]
    ensures r == Ok(Purple) <==>
              customer in status && "BCU" in status[customer] && site !in status[customer]["BCU"]
              && "In Progress" in status[customer] && site in status[customer]["In Progress"]
    ensures r == Ok(Red) <==>
              customer in status && "BCU" in status[customer] && site !in status[customer]["BCU"]
              && "In Progress" in status[customer] && site !in status[customer]["In Progress"]
    ensures r.Ok? ==> r.value != Black
  {
    if customer !in status then Err(KeyError(customer))
    else
      var lists := status[customer];
      if "BCU" !in lists then Err(KeyError("BCU"))
      else if site in lists["BCU"] then Ok(Green)
      else if "In Progress" !in lists then Err(KeyError("In Progress"))
      else if site in lists["In Progress"] then Ok(Purple)
      else Ok(Red)
  }

  /**
   * The edge from site to trace: none when the site does not list the trace,
   * otherwise red when dataPresent[customer][site] lacks the trace and green
   * when it has it. The data table is consulted only for listed traces.
   */
  function TraceEdgeColor(siteTraces: seq<string>, data: DataTable, customer: string, site: string, trace: string)
    : (r: Result<Option<Color>, LookupError>)
    ensures trace !in siteTraces ==> r == Ok(None)
    ensures trace in siteTraces && customer !in data ==> r == Err(KeyError(customer))
    ensures trace in siteTraces && customer in data && site !in data[customer] ==> r == Err(KeyError(site))
    ensures r == Ok(Some(Red)) <==>
              trace in siteTraces && customer in data && site in data[customer] && trace !in data[customer][site]
    ensures r == Ok(Some(Green)) <==>
              trace in siteTraces && customer in data && site in data[customer] && trace in data[customer][site]
    ensures r.Ok? && r.value.Some? ==> r.value.value == Red || r.value.value == Green
  {
    if trace !in siteTraces then Ok(None)
    else if customer !in data then Err(KeyError(customer))
    else if site !in data[customer] then Err(KeyError(site))
    else if trace !in data[customer][site] then Ok(Some(Red))
    else Ok(Some(Green))
  }

  /** The line width for an edge of the given colour string. */
  function EdgeWidth(color: string): (w: nat)
    ensures w == NormalSize || w == FlaggedSize
  {
    if color !in [BlackHex, GreenHex] then FlaggedSize else NormalSize
  }

  /** An edge is drawn wide exactly when its colour is red or purple. */
  lemma {:induction false} FlaggedColors(c: Color)
    ensures EdgeWidth(Hex(c)) == FlaggedSize <==> c == Red || c == Purple
    ensures EdgeWidth(Hex(c)) == NormalSize <==> c == Black || c == Green
  {
    match c
    case Black =>
    case Red => assert RedHex != BlackHex && RedHex != GreenHex;
    case Purple => assert PurpleHex != BlackHex && PurpleHex != GreenHex;
    case Green =>
  }

  /** The edge from the root to a customer is never flagged. */
  lemma RootEdgeNormal()
    ensures EdgeWidth(Hex(Black)) == NormalSize
  {
    FlaggedColors(Black);
  }

  /** A customer-to-site edge is drawn wide exactly when the "BCU" list does not name the site. */
  lemma SiteEdgeFlagged(status: StatusTable, customer: string, site: string)
    requires SiteEdgeColor(status, customer, site).Ok?
    ensures (EdgeWidth(Hex(SiteEdgeColor(status, customer, site).value)) == FlaggedSize) <==>
              site !in status[customer]["BCU"]
  {
    FlaggedColors(SiteEdgeColor(status, customer, site).value);
  }

  /** A site-to-trace edge is drawn wide exactly when the trace's data is missing. */
  lemma TraceEdgeFlagged(siteTraces: seq<string>, data: DataTable, customer: string, site: string, trace: string)
    requires TraceEdgeColor(siteTraces, data, customer, site, trace).Ok?
    requires TraceEdgeColor(siteTraces, data, customer, site, trace).value.Some?
    ensures (EdgeWidth(Hex(TraceEdgeColor(siteTraces, data, customer, site, trace).value.value)) == FlaggedSize) <==>
              trace !in data[customer][site]
  {
    FlaggedColors(TraceEdgeColor(siteTraces, data, customer, site, trace).value.value);
  }

  /** Once "BCU" names the site, the "In Progress" list, present or not, has no effect. */
  lemma BcuDecides(status: StatusTable, customer: string, site: string, inProgress: seq<string>)
    requires customer in status && "BCU" in status[customer] && site in status[customer]["BCU"]
    ensures SiteEdgeColor(status, customer, site) == Ok(Green)
    ensures SiteEdgeColor(status[customer := status[customer]["In Progress" := inProgress]], customer, site) == Ok(Green)
    ensures SiteEdgeColor(status[customer := status[customer] - {"In Progress"}], customer, site) == Ok(Green)
  {
  }
}
