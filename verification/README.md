# A Dafny model of the network-layout script `data_viz_tool.py`

The script reads three JSON files and draws a 3-D network. The files are a
connection map (customer → site → traces), a site-status map (customer →
"BCU" / "In Progress" → sites) and a data-present map (customer → site →
traces). The root node sits at the top. Below it are a square of customers,
a small square of sites under each customer, and one square of all traces.

Each customer hangs from the root by a black edge. Each site hangs from its
customer by an edge coloured by the site's status. Each trace a site lists
is joined to the site by a green or red edge, depending on whether the
trace's data is present. Red and purple edges are drawn wide.

The model covers the script's pure logic:

- `get_square_area_positions`, the integer lattice layout (module `Layout`);
- `get_master_trace_list` and `get_max_num_sites` (module `Connections`),
  with `np.unique` on strings modelled as sort-and-deduplicate (module
  `Lexicographic`);
- the colour and width rules inside `main` (module `Styling`);
- the node placement and edge list that `main` builds from them (module
  `Scene`). This includes the customer spacing formula and the edge loops.

`Arith` holds small arithmetic lemmas and `Wrappers` holds `Option` and
`Result`.

Modelling choices:

- JSON objects become sequences of records in insertion order, which is the
  order Python iterates them in. The status and data-present objects become
  maps.
- A lookup that raises `KeyError` in the script becomes an `Err` result
  naming the missing key.
- `math.ceil(math.sqrt(n))` becomes `CeilSqrt`, the least `d` with
  `d * d >= n`. `math.ceil(0.5 * dim)` becomes `(dim + 1) / 2`.
- `get_square_area_positions(None, ...)` returns `None`. The function is
  modelled on `Option` inputs to keep that case.

For five elements the code computes h = 2, keeps four offsets per axis and
returns 16 positions. In general it returns (2h)² positions, with
h = ⌈⌈√n⌉/2⌉, and callers use only the first n.
`Layout.SquareAreaPositions` returns all (2h)² positions; `Layout.Place`
takes the first n, as the callers do.

## Model

| member | source | states |
|---|---|---|
| Layout.CeilSqrt | data_viz_tool.py:54 | The result d is the integer ceiling of √n: n ≤ d², and (d−1)² < n whenever d > 0. |
| Layout.CeilSqrtLeast | data_viz_tool.py:54 | CeilSqrt(n) is at most any d with n ≤ d², so it is the least such d. |
| Layout.CeilSqrtIs | data_viz_tool.py:54 | Any d with (d−1)² < n ≤ d² is CeilSqrt(n). This pins down concrete values. |
| Layout.CeilSqrtMonotone | data_viz_tool.py:54 | More elements never give a smaller square side. |
| Layout.HalfUp | data_viz_tool.py:55 | ⌈dim/2⌉: twice the result is dim or dim+1. |
| Layout.HalfSideCovers | data_viz_tool.py:54-55 | h = ⌈⌈√n⌉/2⌉: the side 2h is ⌈√n⌉ or one more, and a non-empty group gets h > 0. |
| Layout.SideCovers | data_viz_tool.py:54-62 | The side 2h of the square is enough for n elements: n ≤ (2h)², and the side is positive for n > 0. This makes the indexing at lines 121, 148 and 165 safe. |
| Layout.HalfSideMonotone | data_viz_tool.py:54-55 | A larger group never gets a smaller half-side h. |
| Layout.Range | data_viz_tool.py:58-61 | Python's `range(lo, hi, step)` for step > 0: entry k is lo + k·step, every entry is below hi, and the next value would reach hi. |
| Layout.RangeCons | data_viz_tool.py:58-61 | lo followed by the range from lo+step is the range from lo. |
| Layout.IndexOf | data_viz_tool.py:62 | `list.index(v)`: None exactly when v is absent; otherwise the first position holding v. |
| Layout.PlanePositions | data_viz_tool.py:58-61 | The axis line `range(-p·h, p·h+1, p)` is never empty and starts at −p·h. |
| Layout.RangeCount | data_viz_tool.py:58-61 | A range from lo to lo + c·step + 1 has c+1 entries. |
| Layout.AxisLine | data_viz_tool.py:58-61 | `range(-p·h, p·h+1, p)` has 2h+1 entries, and entry k is p·(k−h). |
| Layout.AxisPoint | data_viz_tool.py:58-61 | Entry k of the axis line is p·(k−h). |
| Layout.AxisLineSigns | data_viz_tool.py:58-62 | The axis line is 0 at its middle entry h and nonzero everywhere else. |
| Layout.ZeroAtMiddle | data_viz_tool.py:62 | `index(0)` on the axis line finds the middle entry h, so the `pop` never raises. |
| Layout.PopMiddle | data_viz_tool.py:62 | Removing the middle entry leaves entry k equal to p·Lattice(h, k): −h..−1 then 1..h times p. |
| Layout.AxisPop | data_viz_tool.py:58-62 | The axis line with its 0 popped has 2h entries, each a nonzero multiple of p. |
| Layout.AxisOffsets | data_viz_tool.py:58-62 | The offsets are 2h values, entry k being p·Lattice(h, k). |
| Layout.Grid | data_viz_tool.py:64-68 | The nested loop over two offset lists yields \|xs\|·\|ys\| positions. |
| Layout.Row | data_viz_tool.py:66-68 | The inner loop for one x offset: one position per y offset, all on x = root.x+dx at depth root.z − zSpace, and different y offsets give different positions. |
| Layout.GridIndex | data_viz_tool.py:64-68 | Row-major order: entry i·\|ys\|+j is (root.x+xs[i], root.y+ys[j], root.z−zSpace). |
| Layout.GridAt | data_viz_tool.py:64-68 | Every entry of the grid is some (i, j) pair, at index i·\|ys\|+j. |
| Layout.GridDistinct | data_viz_tool.py:64-68 | Strictly increasing offset lists give a grid without repeated positions. |
| Layout.NonzeroOffset | data_viz_tool.py:58-62 | Every offset left after the pop is nonzero. |
| Layout.AxisOffsetsIsAxis | data_viz_tool.py:58-62 | The popped axis line is the lattice axis: 2h entries, p·Lattice(h, k) at k. |
| Layout.LatticeCell | data_viz_tool.py:64-68 | Entry i·2h+j of the square is lattice point (i, j) around the root. |
| Layout.LatticeGridOnLattice | data_viz_tool.py:64-68 | Every entry of the square is a lattice point around the root. |
| Layout.LatticeGridDistinct | data_viz_tool.py:58-68 | No two entries of the square coincide. |
| Layout.OffAxes | data_viz_tool.py:62-68 | A lattice point lies at depth root.z − zSpace, and neither its x nor its y equals the root's. |
| Layout.SquareAreaPositions | data_viz_tool.py:44-69 | None in, None out. Otherwise (2h)² ≥ n positions, [] for no elements, all at depth root.z − zSpace, none on the root's x or y line, and pairwise distinct. |
| Layout.SquareAreaOnLattice | data_viz_tool.py:44-69 | Every returned position is a lattice point around the root. |
| Layout.Place | data_viz_tool.py:110-121 | The positions callers read for n elements: n of them, pairwise distinct, at depth root.z − zSpace, and off the root's x and y lines. |
| Layout.PrefixKeeps | data_viz_tool.py:116-121 | The first n of the square's positions, the ones callers read, keep distinctness, depth and the off-axis property. |
| Layout.PlaceOnLattice | data_viz_tool.py:137-148 | Element k of a group is placed on the group's lattice. |
| Layout.PlaceAt | data_viz_tool.py:154-165 | Element i·2h+j of a group is placed at lattice point (i, j). |
| Layout.PlaceIsGrid | data_viz_tool.py:154-165 | Element k of a group gets entry k of the full square. |
| Layout.LatticeBound | data_viz_tool.py:58-62 | Lattice indices are the multiples −h..h of the step, without 0. |
| Layout.NearRoot | data_viz_tool.py:58-68 | A lattice point lies within step·bound of its root along x and y, for any bound ≥ h. |
| Layout.LatticeApart | data_viz_tool.py:58-68 | Two different lattice points are at least one step apart along x or y. |
| Lexicographic.BelowIrreflexive | data_viz_tool.py:29 | No string sorts before itself. |
| Lexicographic.BelowAsymmetric | data_viz_tool.py:29 | Two strings are never each before the other. |
| Lexicographic.BelowTransitive | data_viz_tool.py:29 | The string order is transitive. |
| Lexicographic.BelowTotal | data_viz_tool.py:29 | Any two different strings are ordered one way or the other. |
| Lexicographic.Insert | data_viz_tool.py:28-29 | Inserting into a sorted, repeat-free list keeps it so and adds exactly the new string. |
| Lexicographic.Unique | data_viz_tool.py:29 | `np.unique(...).tolist()`: sorted, no repeats, and exactly the input's strings. |
| Lexicographic.HeadLeast | data_viz_tool.py:29 | A sorted, repeat-free list starts with its least element. |
| Lexicographic.AscendingUnique | data_viz_tool.py:29 | Two sorted, repeat-free lists with the same elements are equal, so np.unique's result is determined by the set of inputs. |
| Lexicographic.UniqueOfAscending | data_viz_tool.py:29 | np.unique leaves a sorted, repeat-free list unchanged. |
| Lexicographic.UniqueSameElements | data_viz_tool.py:29 | np.unique depends only on which strings occur, not on their order or repetition. |
| Connections.AddSites | data_viz_tool.py:25-29 | The inner loop: the accumulator gains exactly the traces of the sites, and is sorted and repeat-free after any site. |
| Connections.AddCustomers | data_viz_tool.py:23-29 | The outer loop: the accumulator gains exactly the traces of the customers' sites, and sortedness is kept. |
| Connections.MasterTraceList | data_viz_tool.py:19-30 | The result is strictly ascending and holds exactly the traces some site of some customer lists. |
| Connections.SiteTracesMention | data_viz_tool.py:25-27 | The flattened traces of some sites are exactly the traces those sites list. |
| Connections.AllTracesMention | data_viz_tool.py:23-27 | The flattened traces of a configuration are exactly the traces its sites list. |
| Connections.MasterTraceListIsUnique | data_viz_tool.py:19-30 | Deduplicating after each site equals one np.unique over all traces at once. |
| Connections.MasterTraceListEmpty | data_viz_tool.py:19-30 | An empty configuration, or one without sites, gives []. |
| Connections.MasterTraceListExample | data_viz_tool.py:19-30 | One site listing t2, t1, t2 gives ["t1", "t2"]. |
| Connections.MaxSitesFrom | data_viz_tool.py:38-40 | The loop from a running maximum is at least it, bounds every customer's site count, and is either the start value or some customer's count. |
| Connections.MaxNumSites | data_viz_tool.py:33-41 | The result bounds every customer's site count. It is 0 for no customers and otherwise some customer's count. |
| Connections.MaxNumSitesLeast | data_viz_tool.py:33-41 | The result is at most any bound on all site counts, so it is the least bound. |
| Styling.Hex | data_viz_tool.py:8-11 | Each colour's string is a seven-character `#` hex code. |
| Styling.HexInjective | data_viz_tool.py:8-11 | Different colours have different codes, so the width rule can tell them apart. |
| Styling.SiteEdgeColor | data_viz_tool.py:167-172 | Green exactly when "BCU" lists the site. Purple exactly when "BCU" does not and "In Progress" does. Red exactly when neither does. Never black. A missing customer or "BCU" key is an error. |
| Styling.TraceEdgeColor | data_viz_tool.py:174-179 | No edge when the site does not list the trace. Otherwise red exactly when the trace's data is missing and green exactly when present. A missing customer or site in the data table is an error. |
| Styling.EdgeWidth | data_viz_tool.py:198-201 | Every width is the normal or the flagged size. |
| Styling.FlaggedColors | data_viz_tool.py:198-201 | Flagged width exactly for red and purple; normal width exactly for black and green. |
| Styling.RootEdgeNormal | data_viz_tool.py:150 | The black root-to-customer edge is drawn at normal width. |
| Styling.SiteEdgeFlagged | data_viz_tool.py:167-201 | A customer-to-site edge is wide exactly when "BCU" does not list the site. |
| Styling.TraceEdgeFlagged | data_viz_tool.py:174-201 | A site-to-trace edge is wide exactly when the trace's data is missing. |
| Styling.BcuDecides | data_viz_tool.py:167-169 | Once "BCU" lists the site, the "In Progress" list has no effect, whether present, changed or absent. |
| Scene.CustomerSpacingAsWritten | data_viz_tool.py:134-136 | The spacing is at least the default 8 and at least ⌈√population⌉+1+siteSpacing, and is one of the two. |
| Scene.CustomerSpacing | data_viz_tool.py:134-136 | The corrected spacing is at least 8 and wider than the widest site square, 2·siteSpacing·h. |
| Scene.CustomerPositions | data_viz_tool.py:137-148 | One position per customer, pairwise distinct, at the customers' depth. |
| Scene.SitePositions | data_viz_tool.py:153-165 | For each customer: one position per site, pairwise distinct, at depth customer.z − siteZSpace. |
| Scene.PlaceWith | data_viz_tool.py:110-165 | For any positive customer spacing: one trace position per master-list entry, one customer position per customer and one site position per site of each customer. Traces, customers and the sites of one customer are each pairwise distinct, and the three kinds lie on three depths. |
| Scene.PlaceNodesAsWritten | data_viz_tool.py:110-165 | The placement with the spacing as written: the same counts, the three depths, distinct traces, distinct customers, and distinct sites within each customer. Nothing is promised across customers; see Findings. |
| Scene.SitesApart | data_viz_tool.py:134-165 | If the customer spacing exceeds the widest site square, sites of different customers never share a point. |
| Scene.SitePairApart | data_viz_tool.py:153-165 | With such a spacing, any two different sites, of one customer or of two, have different positions. |
| Scene.SitesPairwiseApart | data_viz_tool.py:134-165 | With such a spacing, no two sites of any customers share a point. |
| Scene.SitesOnOneDepth | data_viz_tool.py:153-165 | Every customer's sites lie at depth root.z − customerZSpace − siteZSpace. |
| Scene.AllSitesApart | data_viz_tool.py:134-165 | With such a spacing, all sites of all customers are pairwise apart and at one depth. |
| Scene.PlaceNodes | data_viz_tool.py:110-165 | The corrected placement. Traces, customers and sites have the right counts and lie on three depths. Within each depth no two nodes coincide, across customers too. |
| Scene.OverlapNamesDistinct | data_viz_tool.py:143-165 | The example is a valid input: its five customer names differ, and no two of its sites, within one customer or across two, share a name, so every node is its own networkx node. |
| Scene.OverlapSizes | data_viz_tool.py:33-41 | The example configuration has five customers, 13 and 5 sites at the ends, and a maximum of 13. |
| Scene.HalfSideTwo | data_viz_tool.py:54-55 | 5 to 16 elements give h = 2, a 4 × 4 square. |
| Scene.SquareAt | data_viz_tool.py:58-68 | In a 4 × 4 square, element 4i+j sits Lattice(2, i) and Lattice(2, j) steps from the centre. |
| Scene.SquareCorner | data_viz_tool.py:58-68 | In a 4 × 4 square, element 0 sits at (−2s, −2s) from the centre. |
| Scene.SquareSecondRow | data_viz_tool.py:58-68 | In a 4 × 4 square, element 4 sits at (−s, −2s) from the centre. |
| Scene.SquareLastRow | data_viz_tool.py:58-68 | In a 4 × 4 square, element 12 sits at (2s, −2s) from the centre. |
| Scene.FiveCustomersEightApart | data_viz_tool.py:137-148 | Five customers 8 apart: the first at (−16, −16, −4), the fifth at (−8, −16, −4). |
| Scene.NeighbourSquaresMeet | data_viz_tool.py:153-165 | Site squares of 13 and 5 sites around those two customers both reach (−12, −20, −14). |
| Scene.AsWrittenCollision | data_viz_tool.py:134-165 | With the spacing as written, any such configuration puts two sites of different customers on (−12, −20, −14). |
| Scene.AsWrittenSitesCollide | data_viz_tool.py:134-165 | The concrete five-customer configuration shows the collision: two sites with different names, site 12 of the first customer and site 0 of the fifth, are both placed on (−12, −20, −14). |
| Scene.CorrectedSpacingTen | data_viz_tool.py:134-136 | For groups of 5 to 16 sites at most, the corrected customer spacing is 10. |
| Scene.CorrectedApart | data_viz_tool.py:134-165 | The corrected spacing for such a configuration is 10, and the two colliding sites are apart. |
| Scene.CorrectedNoCollision | data_viz_tool.py:134-165 | Under the corrected spacing, 10 for this configuration, the same two differently named sites get different positions. |
| Scene.TraceEdges | data_viz_tool.py:174-179 | The trace loop of one site. Each edge runs from the site to a trace that is in the master list and listed by the site. Each edge is green exactly when the trace's data is present. |
| Scene.TraceEdgesFail | data_viz_tool.py:174-179 | The trace loop fails exactly when the site lists a master trace and the data table lacks the customer or the site. |
| Scene.TraceEdgesStep | data_viz_tool.py:174-179 | One step of the trace loop: the first master trace adds an edge in front exactly when the site lists it, and the rest is the loop over the remaining traces. |
| Scene.TraceEdgesComplete | data_viz_tool.py:174-179 | Every master trace the site lists gets an edge. |
| Scene.TraceEdgesAscending | data_viz_tool.py:174-179 | Over an ascending master list, the edges come in ascending trace order. |
| Scene.TraceEdgeWidth | data_viz_tool.py:174-201 | A trace edge is wide exactly when the trace's data is missing. |
| Scene.OneEdgePerTrace | data_viz_tool.py:102-179 | Over the master list, every trace a site lists gets exactly one edge from that site. |
| Scene.CustomerEdges | data_viz_tool.py:150-179 | One customer's edges. The first is the black root edge. Every site gets its status-coloured edge. A missing status entry is KeyError(customer). The converse, that the remaining edges all come from the sites, is `Scene.CustomerEdgesOnly`. |
| Scene.GraphEdges | data_viz_tool.py:143-179 | Every customer gets its black edge from the root. |
| Scene.SiteEdges | data_viz_tool.py:160-179 | Every site gets its status-coloured edge; a missing status entry is KeyError(customer). The converse, that the loop adds nothing else, is `Scene.SiteEdgesOnly`. |
| Scene.SiteEdgesCover | data_viz_tool.py:160-179 | Every trace edge of every site is among the customer's edges. |
| Scene.GraphEdgesCover | data_viz_tool.py:143-179 | On success, every site of every customer has its status edge and all its trace edges in the graph. |
| Scene.SiteEdgesOnly | data_viz_tool.py:160-179 | Conversely, every edge of the site loop is some site's status edge or one of that site's trace edges. |
| Scene.CustomerEdgesOnly | data_viz_tool.py:150-179 | Every edge of a customer after the root edge is a status or trace edge of one of its sites. |
| Scene.GraphEdgesOnly | data_viz_tool.py:143-179 | Every edge of the graph is a customer's root edge or a status or trace edge of one of its sites; there are no other edges. |
| Scene.SiteEdgesNotBlack | data_viz_tool.py:167-179 | Site and trace edges are never black. |
| Scene.CustomerEdgesBlack | data_viz_tool.py:150-179 | A customer's only black edge is the first, the root edge. |
| Scene.GraphEdgesBlack | data_viz_tool.py:143-179 | Every black edge runs from the root to some customer. |

## Left out

- Reading the three JSON files (lines 92-99) and writing the HTML page (lines 270-274) are I/O. The model takes the parsed contents as parameters.
- The networkx `MultiGraph` and the plotly figure (lines 107-269) are foreign-library calls. The model keeps the node positions and the edge list with colours. It leaves out the node attributes, the per-edge `Scatter3d` coordinates, the node marker trace and the figure layout. It also leaves out the order in which networkx reports edges.
- networkx identifies nodes by name. Two customers that list a site of the same name share one site node, and its position is the one written last. A site, customer or trace named like another node, or named "root", merges with it the same way. The model keeps positions per role and per customer and does not model that merging; its guarantees hold for inputs whose node names are all different, as in `Scene.OverlapConfig`.
- A customer's sites form a JSON object, so their names are distinct. `Config` holds them in a sequence, which can repeat a name; the model does not exclude such inputs, and for them it lists one position and one edge per entry where the script would keep one node.
- `math.sqrt` and `math.ceil` on floats are replaced by the exact integer `CeilSqrt`. Float rounding for very large counts is not modelled.
- `planarSpace <= 0`: `main` always passes a positive spacing, so `Layout.SquareAreaPositions` requires `planarSpace > 0`. The script with 0 would raise ValueError inside `range`.
- The `rootPos: int = 0` and `elements: list = None` defaults of `get_square_area_positions`: the model always passes a three-coordinate root. With the default root, indexing `rootPos[0]` would fail for any non-empty group.
- `np.unique` on non-string or mixed values: traces are strings compared by code point.
- Lexicographic.Unique: numpy stores the strings in a fixed-width unicode array, which drops trailing NUL characters, so "t\0" and "t" would come back as one "t". The model assumes trace ids contain no NUL character and does not model that stripping.
- Connections.MasterTraceList: assumes trace ids hold no trailing NUL, as above, and no lone surrogate. A Python `str` can hold a lone surrogate code point but a Dafny `char` cannot.
- Scene.GraphEdges: its own contract names only the root edges. `Scene.GraphEdgesCover` adds every site's status and trace edges. `Scene.GraphEdgesOnly` states that there are no other edges. `Scene.GraphEdgesBlack` states that every black edge is a root edge. Edge multiplicity and order are not stated.
- `Scene.TraceEdges`: the data table is consulted only when an edge exists. Its contract states the colours for a non-empty result; `Scene.TraceEdgesFail` states when the loop fails.

## Findings

| source | as written | input that shows it | evidently intended | confidence | as-written member | corrected member |
|---|---|---|---|---|---|---|
| data_viz_tool.py:135 | `cDist = ceil(sqrt(population)) + 1 + siteSquareSpacing`, at least 8 | Five customers named c0 to c4: the first with 13 sites named a to m, the fifth with 5 sites named n to r, the others none. All names differ, so each site is its own node. The spacing stays 8, so the first customer sits at (−16, −16) and the fifth at (−8, −16). Site 12 of the first customer and site 0 of the fifth both land on (−12, −20, −14). | The customer spacing should exceed the width of the widest site square, 2·siteSquareSpacing·h. siteSquareSpacing·(2h+1), at least 8, keeps every site of every customer apart. | medium; not executed | Scene.AsWrittenSitesCollide | Scene.PlaceNodes |
