/**
 * The square-grid layout of `get_square_area_positions`.
 *
 * For n elements the layout takes dim = ceil(sqrt n) and h = ceil(dim / 2),
 * builds the axis offsets -p*h, -p*h + p, ..., p*h (p the planar spacing),
 * drops the offset 0 so that no slot lies on the root's own row or column,
 * and returns the row-major product of the remaining 2h offsets with itself,
 * one depth step below the root.
 */
module Layout {
  import opened Wrappers
  import opened Arith

  /** A node position: the `[x, y, z]` list the script attaches to a node. */
  datatype Position = Position(x: int, y: int, z: int)

  // ---------------------------------------------------------------------
  // Integer stand-ins for math.ceil(math.sqrt(n)) and math.ceil(0.5 * dim)
  // ---------------------------------------------------------------------

  /** The least d with n <= d * d, i.e. the ceiling of the square root of n. */
  function CeilSqrt(n: nat): (d: nat)
    ensures n <= d * d
    ensures d == 0 || (d - 1) * (d - 1) < n
  {
    if n == 0 then 0
    else
      var r := CeilSqrt(n - 1);
      SquareSucc(r);
      if n <= r * r then r else r + 1
  }

  /** Every d whose square covers n is at least CeilSqrt(n). */
  lemma CeilSqrtLeast(n: nat, d: nat)
    requires n <= d * d
    ensures CeilSqrt(n) <= d
  {
    var c := CeilSqrt(n);
    SquareMonotone(d, c as int - 1);
  }

  /** The two bounds of CeilSqrt's contract determine it. */
  lemma CeilSqrtIs(n: nat, d: nat)
    requires n <= d * d
    requires d == 0 || (d - 1) * (d - 1) < n
    ensures CeilSqrt(n) == d
  {
    var c := CeilSqrt(n);
    CeilSqrtLeast(n, d);
    SquareMonotone(c, d as int - 1);
  }

  lemma CeilSqrtMonotone(m: nat, n: nat)
    requires m <= n
    ensures CeilSqrt(m) <= CeilSqrt(n)
  {
    CeilSqrtLeast(m, CeilSqrt(n));
  }

  /** ceil(dim / 2): the least h with dim <= 2 * h. */
  function HalfUp(dim: nat): (h: nat)
    ensures dim <= 2 * h <= dim + 1
  {
    (dim + 1) / 2
  }

  /** h for a group of n elements: the number of lattice steps on each side of the root. */
  function HalfSide(n: nat): nat
  {
    HalfUp(CeilSqrt(n))
  }

  /** 2h covers the side ceil(sqrt(n)) with at most one spare step, and a non-empty group gets h > 0. */
  lemma HalfSideCovers(n: nat)
    ensures CeilSqrt(n) <= 2 * HalfSide(n) <= CeilSqrt(n) + 1
    ensures n > 0 ==> HalfSide(n) > 0
  {
  }

  /** The number of slots per axis, 2h, once the zero offset is removed. */
  function Side(n: nat): nat
  {
    2 * HalfSide(n)
  }

  /** The (2h) x (2h) lattice has room for every one of the n elements. */
  lemma {:induction false} SideCovers(n: nat)
    ensures n <= Side(n) * Side(n)
    ensures n > 0 ==> Side(n) > 0
  {
    var d := CeilSqrt(n);
    SquareMonotone(d, Side(n));
  }

  lemma HalfSideMonotone(m: nat, n: nat)
    requires m <= n
    ensures HalfSide(m) <= HalfSide(n)
  {
    CeilSqrtMonotone(m, n);
  }

  // ---------------------------------------------------------------------
  // The axis offsets: range(-p*h, p*h + 1, p) with 0 popped
  // ---------------------------------------------------------------------

  /** Python's range(lo, hi, step) for a positive step. */
  function Range(lo: int, hi: int, step: int): (r: seq<int>)
    requires step > 0
    ensures forall k :: 0 <= k < |r| ==> r[k] == lo + k * step < hi
    ensures hi <= lo + |r| * step
    decreases hi - lo
  {
    if hi <= lo then []
    else
      var rest := Range(lo + step, hi, step);
      RangeCons(lo, hi, step, rest);
      [lo] + rest
  }

  /** The step of Range: lo followed by the range from lo + step is the range from lo. */
  lemma RangeCons(lo: int, hi: int, step: int, rest: seq<int>)
    requires step > 0 && lo < hi
    requires forall k :: 0 <= k < |rest| ==> rest[k] == lo + step + k * step < hi
    requires hi <= lo + step + |rest| * step
    ensures forall k :: 0 <= k < |[lo] + rest| ==> ([lo] + rest)[k] == lo + k * step < hi
    ensures hi <= lo + |[lo] + rest| * step
  {
    var r := [lo] + rest;
    forall k | 1 <= k < |r|
      ensures r[k] == lo + k * step < hi
    {
      assert r[k] == rest[k - 1];
      MulSucc(k - 1, step);
    }
    var n := |rest|;
    assert |r| == n + 1;
    MulSucc(n, step);
  }

  /** list.index(v): the first index holding v, or None where Python raises ValueError. */
  function IndexOf<T(==)>(s: seq<T>, v: T): (r: Option<nat>)
    ensures r.None? <==> v !in s
    ensures r.Some? ==> r.value < |s| && s[r.value] == v && v !in s[..r.value]
  {
    if |s| == 0 then None
    else if s[0] == v then Some(0)
    else match IndexOf(s[1..], v)
      case None => None
      case Some(i) =>
        assert s[..i + 1] == [s[0]] + s[1..][..i];
        Some(i + 1)
  }

  /** The multiple of the step at axis index i once 0 is removed: -h, ..., -1, 1, ..., h. */
  function Lattice(half: nat, i: int): int
  {
    if i < half then i - half else i - half + 1
  }

  /** The planar offset at axis index i: step * Lattice(half, i). */
  function Offset(step: int, half: nat, i: int): int
  {
    step * Lattice(half, i)
  }

  /** A range whose end lies one past lo + c * step has exactly c + 1 values. */
  lemma {:induction false} RangeCount(lo: int, hi: int, step: int, c: nat)
    requires step > 0 && hi == lo + c * step + 1
    ensures |Range(lo, hi, step)| == c + 1
  {
    var r := Range(lo, hi, step);
    var n := |r|;
    assert n > 0;
    assert r[n - 1] == lo + (n - 1) * step;
    MulLeft(step, n, c);
    MulStrict(step, c, n - 1);
    assert n * step == step * n && c * step == step * c && (n - 1) * step == step * (n - 1);
  }

  /** `planePositions` before the pop: range(-p*h, h*p + 1, p). */
  function PlanePositions(step: int, half: nat): (r: seq<int>)
    requires step > 0
    ensures |r| > 0 && r[0] == -step * half
  {
    var lo, hi := -step * half, half * step + 1;
    assert lo < hi by {
      MulLeft(step, 0, half);
      assert step * half == half * step;
    }
    Range(lo, hi, step)
  }

  /** The list range(-p*h, p*h + 1, p) holds exactly the 2h + 1 multiples p*(k - h). */
  lemma {:induction false} AxisLine(step: int, half: nat)
    requires step > 0
    ensures |PlanePositions(step, half)| == 2 * half + 1
    ensures forall k :: 0 <= k < 2 * half + 1 ==> PlanePositions(step, half)[k] == step * (k - half)
  {
    ShiftedMultiple(step, half, 2 * half);
    RangeCount(-step * half, half * step + 1, step, 2 * half);
    forall k | 0 <= k < 2 * half + 1 {
      AxisPoint(step, half, k);
    }
  }

  /** Value k of range(-p*h, p*h + 1, p) is p*(k - h). */
  lemma AxisPoint(step: int, half: nat, k: int)
    requires step > 0 && 0 <= k < |PlanePositions(step, half)|
    ensures PlanePositions(step, half)[k] == step * (k - half)
  {
    ShiftedMultiple(step, half, k);
  }

  /** In range(-p*h, p*h + 1, p) the values below index h are negative, the value at h is 0, the rest positive. */
  lemma {:induction false} AxisLineSigns(step: int, half: nat)
    requires step > 0
    ensures |PlanePositions(step, half)| == 2 * half + 1
    ensures PlanePositions(step, half)[half] == 0
    ensures forall k :: 0 <= k < |PlanePositions(step, half)| && k != half ==> PlanePositions(step, half)[k] != 0
  {
    AxisLine(step, half);
    var line := PlanePositions(step, half);
    forall k | 0 <= k < |line| && k != half
      ensures line[k] != 0
    {
      NonzeroMultiple(step, k - half);
    }
  }

  /** `planePositions.index(0)` is h: the zero sits in the middle of the axis. */
  lemma {:induction false} ZeroAtMiddle(step: int, half: nat)
    requires step > 0
    ensures IndexOf(PlanePositions(step, half), 0) == Some(half)
  {
    AxisLineSigns(step, half);
  }

  /** Removing the middle value p*0 from the 2h + 1 multiples leaves p * Lattice(h, k) at index k. */
  lemma {:induction false} PopMiddle(line: seq<int>, step: int, half: nat)
    requires |line| == 2 * half + 1
    requires forall k :: 0 <= k < |line| ==> line[k] == step * (k - half)
    ensures forall k :: 0 <= k < 2 * half ==>
              (line[..half] + line[half + 1..])[k] == step * Lattice(half, k)
  {
    var offs := line[..half] + line[half + 1..];
    forall k | 0 <= k < 2 * half
      ensures offs[k] == step * Lattice(half, k)
    {
      if k < half {
        assert offs[k] == line[k];
      } else {
        assert offs[k] == line[k + 1];
      }
    }
  }

  /** `planePositions.index(0)` finds the middle value, and popping it leaves p * Lattice(h, k). */
  lemma {:induction false} AxisPop(step: int, half: nat)
    requires step > 0
    ensures IndexOf(PlanePositions(step, half), 0) == Some(half)
    ensures |PlanePositions(step, half)| == 2 * half + 1
    ensures forall k :: 0 <= k < 2 * half ==>
              (PlanePositions(step, half)[..half] + PlanePositions(step, half)[half + 1..])[k] == step * Lattice(half, k)
  {
    ZeroAtMiddle(step, half);
    AxisLine(step, half);
    PopMiddle(PlanePositions(step, half), step, half);
  }

  /** The axis offsets after `planePositions.pop(planePositions.index(0))`. */
  function AxisOffsets(step: int, half: nat): (offs: seq<int>)
    requires step > 0
    ensures |offs| == 2 * half
    ensures forall k :: 0 <= k < |offs| ==> offs[k] == Offset(step, half, k)
  {
    AxisPop(step, half);
    var line := PlanePositions(step, half);
    match IndexOf(line, 0)
    case Some(i) => line[..i] + line[i + 1..]
    case None => assert false; []
  }

  // ---------------------------------------------------------------------
  // The nested loop: row-major product of the offsets
  // ---------------------------------------------------------------------

  /** The inner loop for one outer offset dx. */
  function Row(root: Position, dx: int, ys: seq<int>, zSpace: int): (r: seq<Position>)
    ensures |r| == |ys|
    ensures forall j :: 0 <= j < |r| ==> r[j].x == root.x + dx && r[j].z == root.z - zSpace
    ensures forall a, b :: 0 <= a < |r| && 0 <= b < |r| && ys[a] != ys[b] ==> r[a] != r[b]
  {
    seq(|ys|, j requires 0 <= j < |ys| => Position(root.x + dx, root.y + ys[j], root.z - zSpace))
  }

  /** Both loops: one row per outer offset, in the order of xs. */
  function Grid(root: Position, xs: seq<int>, ys: seq<int>, zSpace: int): (r: seq<Position>)
    ensures |r| == |xs| * |ys|
  {
    if |xs| == 0 then []
    else
      MulSucc(|xs| - 1, |ys|);
      Row(root, xs[0], ys, zSpace) + Grid(root, xs[1..], ys, zSpace)
  }

  /** Row-major order: entry i * m + j, m = |ys| the row width, pairs the outer offset xs[i] with the inner offset ys[j]. */
  lemma {:induction false} GridIndex(root: Position, xs: seq<int>, ys: seq<int>, zSpace: int, m: int, i: int, j: int)
    requires m == |ys| && 0 <= i < |xs| && 0 <= j < m
    ensures 0 <= i * m + j < |Grid(root, xs, ys, zSpace)|
    ensures Grid(root, xs, ys, zSpace)[i * m + j] == Position(root.x + xs[i], root.y + ys[j], root.z - zSpace)
  {
    BlockIndex(i, j, m, |xs|);
    var row, rest := Row(root, xs[0], ys, zSpace), Grid(root, xs[1..], ys, zSpace);
    assert Grid(root, xs, ys, zSpace) == row + rest;
    if i == 0 {
      assert (row + rest)[j] == row[j];
    } else {
      GridIndex(root, xs[1..], ys, zSpace, m, i - 1, j);
      MulSucc(i - 1, m);
      assert (row + rest)[i * m + j] == rest[(i - 1) * m + j];
    }
  }

  ghost predicate StrictlyIncreasing(s: seq<int>)
  {
    forall i, j :: 0 <= i < j < |s| ==> s[i] < s[j]
  }

  /** Every entry of the grid is the pair of some outer and some inner offset. */
  lemma GridAt(root: Position, xs: seq<int>, ys: seq<int>, zSpace: int, k: int) returns (i: int, j: int)
    requires 0 <= k < |Grid(root, xs, ys, zSpace)|
    ensures 0 <= i < |xs| && 0 <= j < |ys| && k == i * |ys| + j
    ensures Grid(root, xs, ys, zSpace)[k] == Position(root.x + xs[i], root.y + ys[j], root.z - zSpace)
  {
    var m := |ys|;
    MulLeft(|xs|, m, 0);
    assert |xs| * m == m * |xs|;
    i, j := Split(k, m, |xs|);
    GridIndex(root, xs, ys, zSpace, m, i, j);
  }

  /** Strictly increasing offsets give pairwise distinct grid positions. */
  lemma {:induction false} GridDistinct(root: Position, xs: seq<int>, ys: seq<int>, zSpace: int)
    requires StrictlyIncreasing(xs) && StrictlyIncreasing(ys)
    ensures forall a, b :: 0 <= a < b < |Grid(root, xs, ys, zSpace)| ==>
              Grid(root, xs, ys, zSpace)[a] != Grid(root, xs, ys, zSpace)[b]
  {
    var g := Grid(root, xs, ys, zSpace);
    forall a, b | 0 <= a < b < |g|
      ensures g[a] != g[b]
    {
      var ia, ja := GridAt(root, xs, ys, zSpace, a);
      var ib, jb := GridAt(root, xs, ys, zSpace, b);
      if ia != ib {
        assert xs[ia] != xs[ib];
      } else {
        assert ys[ja] != ys[jb];
      }
    }
  }

  // ---------------------------------------------------------------------
  // get_square_area_positions
  // ---------------------------------------------------------------------

  /** The lattice point in row i and column j of the (2h) x (2h) grid around root. */
  function LatticePoint(root: Position, zSpace: int, step: int, half: nat, i: int, j: int): Position
  {
    Position(root.x + Offset(step, half, i), root.y + Offset(step, half, j), root.z - zSpace)
  }

  /** pos is one of the (2h)^2 lattice points around root. */
  ghost predicate OnLattice(pos: Position, root: Position, zSpace: int, step: int, half: nat)
  {
    exists i, j :: 0 <= i < 2 * half && 0 <= j < 2 * half && pos == LatticePoint(root, zSpace, step, half, i, j)
  }

  /** No lattice offset is 0: the root's own row and column stay empty. */
  lemma NonzeroOffset(step: int, half: nat, i: int)
    requires step > 0 && 0 <= i < 2 * half
    ensures step * Lattice(half, i) != 0
  {
    NonzeroMultiple(step, Lattice(half, i));
  }

  /** offs holds the 2h axis offsets Offset(step, half, k), in order. */
  ghost predicate IsAxis(offs: seq<int>, step: int, half: nat)
  {
    |offs| == 2 * half && forall k :: 0 <= k < |offs| ==> offs[k] == Offset(step, half, k)
  }

  lemma AxisOffsetsIsAxis(step: int, half: nat)
    requires step > 0
    ensures IsAxis(AxisOffsets(step, half), step, half)
  {
  }

  /** Slot i * 2h + j of the grid over the axis offsets is lattice point (i, j): row-major order. */
  lemma LatticeCell(root: Position, zSpace: int, step: int, half: nat, offs: seq<int>, i: int, j: int)
    requires IsAxis(offs, step, half) && 0 <= i < 2 * half && 0 <= j < 2 * half
    ensures 0 <= i * (2 * half) + j < |Grid(root, offs, offs, zSpace)|
    ensures Grid(root, offs, offs, zSpace)[i * (2 * half) + j] == LatticePoint(root, zSpace, step, half, i, j)
  {
    GridIndex(root, offs, offs, zSpace, 2 * half, i, j);
  }

  /** Every slot of the grid over the axis offsets is a lattice point. */
  lemma {:induction false} LatticeGridOnLattice(root: Position, zSpace: int, step: int, half: nat, offs: seq<int>)
    requires IsAxis(offs, step, half)
    ensures forall k :: 0 <= k < |Grid(root, offs, offs, zSpace)| ==>
              OnLattice(Grid(root, offs, offs, zSpace)[k], root, zSpace, step, half)
  {
    var g := Grid(root, offs, offs, zSpace);
    forall k | 0 <= k < |g|
      ensures OnLattice(g[k], root, zSpace, step, half)
    {
      var i, j := GridAt(root, offs, offs, zSpace, k);
      assert g[k] == LatticePoint(root, zSpace, step, half, i, j);
    }
  }

  /** The axis offsets are strictly increasing, so the grid over them has no repeated slot. */
  lemma {:induction false} LatticeGridDistinct(root: Position, zSpace: int, step: int, half: nat, offs: seq<int>)
    requires step > 0 && IsAxis(offs, step, half)
    ensures forall a, b :: 0 <= a < b < |Grid(root, offs, offs, zSpace)| ==>
              Grid(root, offs, offs, zSpace)[a] != Grid(root, offs, offs, zSpace)[b]
  {
    assert StrictlyIncreasing(offs) by {
      forall i, j | 0 <= i < j < |offs|
        ensures offs[i] < offs[j]
      {
        MulStrict(step, Lattice(half, i), Lattice(half, j));
      }
    }
    GridDistinct(root, offs, offs, zSpace);
  }

  /** A lattice point lies one depth step below the root, off the root's row and column. */
  lemma OffAxes(pos: Position, root: Position, zSpace: int, step: int, half: nat)
    requires step > 0 && OnLattice(pos, root, zSpace, step, half)
    ensures pos.z == root.z - zSpace && pos.x != root.x && pos.y != root.y
  {
    var i, j :| 0 <= i < 2 * half && 0 <= j < 2 * half && pos == LatticePoint(root, zSpace, step, half, i, j);
    NonzeroOffset(step, half, i);
    NonzeroOffset(step, half, j);
  }

  /**
   * The model of `get_square_area_positions(elements, rootPos, zSpace, planarSpace)`.
   * A missing element list gives None; otherwise the result has (2h)^2 >= n
   * slots, in row-major order over the lattice, pairwise distinct, all one
   * depth step below the root and none on the root's row or column.
   */
  function SquareAreaPositions<T>(elements: Option<seq<T>>, root: Position, zSpace: int, planarSpace: int)
    : (r: Option<seq<Position>>)
    requires planarSpace > 0
    ensures r.None? <==> elements.None?
    ensures r.Some? ==> |r.value| == Side(|elements.value|) * Side(|elements.value|)
    ensures r.Some? ==> |elements.value| <= |r.value|
    ensures r.Some? && |elements.value| == 0 ==> r.value == []
    ensures r.Some? ==> forall k :: 0 <= k < |r.value| ==>
              r.value[k].z == root.z - zSpace && r.value[k].x != root.x && r.value[k].y != root.y
    ensures r.Some? ==> forall a, b :: 0 <= a < b < |r.value| ==> r.value[a] != r.value[b]
  {
    match elements
    case None => None
    case Some(es) =>
      var half := HalfSide(|es|);
      var offs := AxisOffsets(planarSpace, half);
      var pos := Grid(root, offs, offs, zSpace);
      SideCovers(|es|);
      assert |pos| == |offs| * |offs|;
      AxisOffsetsIsAxis(planarSpace, half);
      LatticeGridOnLattice(root, zSpace, planarSpace, half, offs);
      LatticeGridDistinct(root, zSpace, planarSpace, half, offs);
      forall k | 0 <= k < |pos|
        ensures pos[k].z == root.z - zSpace && pos[k].x != root.x && pos[k].y != root.y
      {
        OffAxes(pos[k], root, zSpace, planarSpace, half);
      }
      Some(pos)
  }

  /**
   * Every slot of `get_square_area_positions` is one of the (2h)^2 lattice
   * points around the root: root + (p * a, p * b) one depth step down, with
   * a and b among -h, ..., -1, 1, ..., h.
   */
  lemma SquareAreaOnLattice<T>(elements: seq<T>, root: Position, zSpace: int, planarSpace: int)
    requires planarSpace > 0
    ensures var r := SquareAreaPositions(Some(elements), root, zSpace, planarSpace).value;
            forall k :: 0 <= k < |r| ==> OnLattice(r[k], root, zSpace, planarSpace, HalfSide(|elements|))
  {
    var half := HalfSide(|elements|);
    var offs := AxisOffsets(planarSpace, half);
    AxisOffsetsIsAxis(planarSpace, half);
    LatticeGridOnLattice(root, zSpace, planarSpace, half, offs);
  }

  /** No position occurs twice. */
  ghost predicate Distinct(s: seq<Position>)
  {
    forall a, b :: 0 <= a < b < |s| ==> s[a] != s[b]
  }

  /** Distinct in either order: two different indices of a distinct sequence hold different positions. */
  lemma DistinctAt(s: seq<Position>, a: int, b: int)
    requires Distinct(s) && 0 <= a < |s| && 0 <= b < |s| && a != b
    ensures s[a] != s[b]
  {
    if b < a {
      assert s[b] != s[a];
    }
  }

  /** Every position lies at depth z. */
  ghost predicate AtDepth(s: seq<Position>, z: int)
  {
    forall k :: 0 <= k < |s| ==> s[k].z == z
  }

  /**
   * The position the script gives element idx of a group: `pos[idx]` for
   * every idx < n, as in the enumerate loops that place traces, customers
   * and sites. One position per element, no two alike, each on the lattice.
   */
  function Place<T>(elements: seq<T>, root: Position, zSpace: int, planarSpace: int): (r: seq<Position>)
    requires planarSpace > 0
    ensures |r| == |elements|
    ensures Distinct(r)
    ensures AtDepth(r, root.z - zSpace)
    ensures forall i :: 0 <= i < |r| ==> r[i].x != root.x && r[i].y != root.y
  {
    var all := SquareAreaPositions(Some(elements), root, zSpace, planarSpace).value;
    PrefixKeeps(all, |elements|, root, zSpace);
    all[..|elements|]
  }

  /** The first n of some distinct, off-axis positions at one depth keep all three properties. */
  lemma PrefixKeeps(all: seq<Position>, n: nat, root: Position, zSpace: int)
    requires n <= |all|
    requires forall k :: 0 <= k < |all| ==> all[k].z == root.z - zSpace && all[k].x != root.x && all[k].y != root.y
    requires forall a, b :: 0 <= a < b < |all| ==> all[a] != all[b]
    ensures |all[..n]| == n && Distinct(all[..n]) && AtDepth(all[..n], root.z - zSpace)
    ensures forall i :: 0 <= i < |all[..n]| ==> all[..n][i].x != root.x && all[..n][i].y != root.y
  {
  }

  /** Every element of a group is placed on the group's (2h) x (2h) lattice. */
  lemma PlaceOnLattice<T>(elements: seq<T>, root: Position, zSpace: int, planarSpace: int, k: int)
    requires planarSpace > 0 && 0 <= k < |elements|
    ensures OnLattice(Place(elements, root, zSpace, planarSpace)[k], root, zSpace, planarSpace, HalfSide(|elements|))
  {
    SquareAreaOnLattice(elements, root, zSpace, planarSpace);
  }

  /** Element k = i * 2h + j of a group is placed at lattice point (i, j). */
  lemma PlaceAt<T>(elements: seq<T>, root: Position, zSpace: int, planarSpace: int, half: nat, i: int, j: int, k: int)
    requires planarSpace > 0 && half == HalfSide(|elements|)
    requires 0 <= i < 2 * half && 0 <= j < 2 * half
    requires 0 <= k < |elements| && k == i * (2 * half) + j
    ensures Place(elements, root, zSpace, planarSpace)[k] == LatticePoint(root, zSpace, planarSpace, half, i, j)
  {
    var offs := AxisOffsets(planarSpace, half);
    var g := Grid(root, offs, offs, zSpace);
    assert g[k] == LatticePoint(root, zSpace, planarSpace, half, i, j) by {
      AxisOffsetsIsAxis(planarSpace, half);
      LatticeCell(root, zSpace, planarSpace, half, offs, i, j);
    }
    PlaceIsGrid(elements, root, zSpace, planarSpace, k);
  }

  /** Element k of a group is placed at slot k of the grid over the axis offsets. */
  lemma PlaceIsGrid<T>(elements: seq<T>, root: Position, zSpace: int, planarSpace: int, k: int)
    requires planarSpace > 0 && 0 <= k < |elements|
    ensures var offs := AxisOffsets(planarSpace, HalfSide(|elements|));
            k < |Grid(root, offs, offs, zSpace)|
            && Place(elements, root, zSpace, planarSpace)[k] == Grid(root, offs, offs, zSpace)[k]
  {
    var offs := AxisOffsets(planarSpace, HalfSide(|elements|));
    assert SquareAreaPositions(Some(elements), root, zSpace, planarSpace).value == Grid(root, offs, offs, zSpace);
  }

  /** A lattice index picks one of the multiples -h, ..., -1, 1, ..., h of the step. */
  lemma LatticeBound(half: nat, i: int)
    requires 0 <= i < 2 * half
    ensures -(half as int) <= Lattice(half, i) <= half && Lattice(half, i) != 0
  {
  }

  /** A lattice point lies within step * bound of its root along x and y, for any bound >= h. */
  lemma NearRoot(pos: Position, root: Position, zSpace: int, step: int, half: nat, bound: int)
    requires step > 0 && half <= bound && OnLattice(pos, root, zSpace, step, half)
    ensures root.x - step * bound <= pos.x <= root.x + step * bound
    ensures root.y - step * bound <= pos.y <= root.y + step * bound
  {
    var i, j :| 0 <= i < 2 * half && 0 <= j < 2 * half && pos == LatticePoint(root, zSpace, step, half, i, j);
    LatticeBound(half, i);
    LatticeBound(half, j);
    MulLeft(step, Lattice(half, i), bound);
    MulLeft(step, -bound, Lattice(half, i));
    MulLeft(step, Lattice(half, j), bound);
    MulLeft(step, -bound, Lattice(half, j));
    assert step * -bound == -(step * bound);
  }

  /** Two different points of one lattice are at least a step apart along x or along y. */
  lemma LatticeApart(p: Position, q: Position, root: Position, zSpace: int, step: int, half: nat)
    requires step > 0 && p != q
    requires OnLattice(p, root, zSpace, step, half) && OnLattice(q, root, zSpace, step, half)
    ensures p.x - q.x >= step || q.x - p.x >= step || p.y - q.y >= step || q.y - p.y >= step
  {
    var i, j :| 0 <= i < 2 * half && 0 <= j < 2 * half && p == LatticePoint(root, zSpace, step, half, i, j);
    var i', j' :| 0 <= i' < 2 * half && 0 <= j' < 2 * half && q == LatticePoint(root, zSpace, step, half, i', j');
    if Lattice(half, i) != Lattice(half, i') {
      MultiplesApart(step, Lattice(half, i), Lattice(half, i'));
    } else {
      MultiplesApart(step, Lattice(half, j), Lattice(half, j'));
    }
  }
}
