// The integer part of Cells (lib_ops/gentexture/generators.cpp:299-424): cell centres in
// 14-bit fixed point on a torus, a per-row insertion sort of the centres by their squared
// y distance to the row, and a branch-and-bound search for the nearest and second nearest
// centre at each pixel, which carries its state from one pixel of a row to the next.
// The output is the index of the centre each pixel takes its colour from; the gradient
// lookup through the square root of the distances is not modelled.
module Cells {
  import opened Helpers

  const ScaleF: nat := 14
  const Scale: int := 0x4000
  /** sSquare(scale): larger than every squared distance. */
  const BestInit: int := 0x1000_0000

  /** A cell centre in fixed point, its squared y distance to the current row and the index of
      the centre it stands for. */
  datatype CellPoint = CellPoint(x: int, y: int, distY: int, node: int)

  /** The centre count Cells asserts: at least one in inner mode (bit 0 of mode clear), at
      least two in outer mode. */
  predicate CountOk(n: int, mode: int) {
    if mode % 2 == 0 then n >= 1 else n >= 2
  }

  // ---------------------------------------------------------------------
  // Distances on the torus (generators.cpp:339-340, 372-376, 385-387)

  /** min(d', 2^14 - d') for d' = d mod 2^14: the distance of d from the nearest multiple of
      2^14. */
  function Toroidal(d: int): (r: int)
    ensures 0 <= r <= Scale / 2
  {
    var m := d % Scale;
    if m < Scale - m then m else Scale - m
  }

  /** Toroidal is the distance to the nearest multiple of 2^14: no multiple is nearer. */
  lemma ToroidalNearest(d: int, k: int)
    ensures Toroidal(d) <= if d - k * Scale >= 0 then d - k * Scale else k * Scale - d
  {
    var q, m := d / Scale, d % Scale;
    assert d == q * Scale + m;
    assert d - k * Scale == (q - k) * Scale + m;
    if q - k >= 1 {
      assert (q - k) * Scale >= Scale;
    } else if q - k <= -1 {
      assert (q - k) * Scale <= -Scale;
    }
  }

  /** ... and one multiple is that near, so the distance is symmetric. */
  lemma ToroidalSymmetric(d: int)
    ensures Toroidal(-d) == Toroidal(d)
  {
    var q, m := d / Scale, d % Scale;
    if m == 0 {
      DivModUnique(-d, Scale, -q, 0);
    } else {
      DivModUnique(-d, Scale, -q - 1, Scale - m);
    }
  }

  lemma SquareBound(t: int)
    requires 0 <= t <= Scale / 2
    ensures 0 <= t * t <= 0x400_0000
  {
    MulMonotone(t, t, Scale / 2);
    MulMonotone(Scale / 2, t, Scale / 2);
  }

  /** The squared toroidal distance of two coordinates along one axis, at most 2^26. */
  function AxisDist(c: int, p: int): (r: int)
    ensures 0 <= r <= 0x400_0000
  {
    var t := Toroidal(c - p);
    SquareBound(t);
    t * t
  }

  /** The same computed as the source does: `sSquare(min(d, scale - d))` with
      `d = (c - p) & (scale - 1)`. */
  function MaskedAxisDist(c: int, p: int): (r: int)
    ensures r == AxisDist(c, p)
  {
    Mask14(c - p);
    var d := And32(c - p, Scale - 1);
    var t := if d < Scale - d then d else Scale - d;
    t * t
  }

  lemma Mask14(d: int)
    ensures And32(d, Scale - 1) == d % Scale
  {
    assert Pow2(ScaleF) == Scale by {
      Pow2Values();
    }
    And32Mask(d, ScaleF);
  }

  /** The squared toroidal distance of a centre from a pixel, at most 2^27, so below the
      initial best of 2^28. */
  function CentreDist(px: int, py: int, xc: int, yc: int): (r: int)
    ensures 0 <= r <= 0x800_0000 < BestInit
  {
    AxisDist(xc, px) + AxisDist(yc, py)
  }

  /** The distance a point is scored by in the search: x distance plus the stored distY. */
  function PointDist(p: CellPoint, xc: int): int {
    AxisDist(xc, p.x) + p.distY
  }

  // ---------------------------------------------------------------------
  // The centres as points (generators.cpp:318-324)

  /** Centre i, its fixed-point coordinates masked to 14 bits. */
  function InitialPoints(cx: seq<int>, cy: seq<int>): (r: seq<CellPoint>)
    requires |cx| == |cy|
    ensures |r| == |cx|
  {
    seq(|cx|, i requires 0 <= i < |cx| => CellPoint(cx[i] % Scale, cy[i] % Scale, -1, i))
  }

  method InitPoints(points: array<CellPoint>, cx: seq<int>, cy: seq<int>)
    requires |cx| == |cy| == points.Length
    modifies points
    ensures points[..] == InitialPoints(cx, cy)
  {
    var i := 0;
    while i < points.Length
      invariant 0 <= i <= points.Length
      invariant points[..i] == InitialPoints(cx, cy)[..i]
    {
      Mask14(cx[i]);
      Mask14(cy[i]);
      points[i] := CellPoint(And32(cx[i], Scale - 1), And32(cy[i], Scale - 1), -1, i);
      i := i + 1;
    }
  }

  /** A point with its distY forgotten: what stays the same across rows. */
  function Site(p: CellPoint): CellPoint {
    p.(distY := 0)
  }

  function Sites(s: seq<CellPoint>): (r: seq<CellPoint>)
    ensures |r| == |s|
  {
    seq(|s|, i requires 0 <= i < |s| => Site(s[i]))
  }

  /** Centre c as a site. */
  function CentreSite(cx: seq<int>, cy: seq<int>, c: int): CellPoint
    requires |cx| == |cy| && 0 <= c < |cx|
  {
    CellPoint(cx[c] % Scale, cy[c] % Scale, 0, c)
  }

  /** The points are the centres, in some order: each centre is the site of some point, and
      each point is the site of the centre it names. */
  predicate HoldsCentres(s: seq<CellPoint>, cx: seq<int>, cy: seq<int>)
    requires |cx| == |cy|
  {
    (forall c :: 0 <= c < |cx| ==> CentreSite(cx, cy, c) in Sites(s)) &&
    (forall k :: 0 <= k < |s| ==> 0 <= s[k].node < |cx| && Site(s[k]) == CentreSite(cx, cy, s[k].node))
  }

  lemma InitialHoldsCentres(cx: seq<int>, cy: seq<int>)
    requires |cx| == |cy|
    ensures HoldsCentres(InitialPoints(cx, cy), cx, cy)
  {
    var p0 := InitialPoints(cx, cy);
    forall c | 0 <= c < |cx|
      ensures CentreSite(cx, cy, c) in Sites(p0)
    {
      assert Sites(p0)[c] == CentreSite(cx, cy, c);
    }
  }

  /** Permuting the points keeps them the centres. */
  lemma CentresPermutation(s: seq<CellPoint>, t: seq<CellPoint>, cx: seq<int>, cy: seq<int>)
    requires |cx| == |cy| && multiset(s) == multiset(t) && HoldsCentres(s, cx, cy)
    ensures HoldsCentres(t, cx, cy)
  {
    forall c | 0 <= c < |cx|
      ensures CentreSite(cx, cy, c) in Sites(t)
    {
      assert CentreSite(cx, cy, c) in Sites(s);
      var k :| 0 <= k < |s| && Sites(s)[k] == CentreSite(cx, cy, c);
      assert s[k] in multiset(t);
      var m :| 0 <= m < |t| && t[m] == s[k];
      assert Sites(t)[m] == CentreSite(cx, cy, c);
    }
    forall m | 0 <= m < |t|
      ensures 0 <= t[m].node < |cx| && Site(t[m]) == CentreSite(cx, cy, t[m].node)
    {
      assert t[m] in multiset(s);
      var k :| 0 <= k < |s| && s[k] == t[m];
    }
  }

  /** So does changing only their distY. */
  lemma CentresSameSites(s: seq<CellPoint>, t: seq<CellPoint>, cx: seq<int>, cy: seq<int>)
    requires |cx| == |cy| && Sites(s) == Sites(t) && HoldsCentres(s, cx, cy)
    ensures HoldsCentres(t, cx, cy)
  {
    forall m | 0 <= m < |t|
      ensures 0 <= t[m].node < |cx| && Site(t[m]) == CentreSite(cx, cy, t[m].node)
    {
      assert Sites(s)[m] == Sites(t)[m];
    }
  }

  // ---------------------------------------------------------------------
  // Row distances and the per-row sort (generators.cpp:336-356)

  /** Every point of s carries its squared toroidal y distance to row centre yc. */
  predicate DistYAt(s: seq<CellPoint>, yc: int) {
    forall i :: 0 <= i < |s| ==> s[i].distY == AxisDist(yc, s[i].y)
  }

  /** The first loop of a row: stores each point's squared y distance to the row. */
  method RowDistances(points: array<CellPoint>, yc: int)
    modifies points
    ensures DistYAt(points[..], yc) && Sites(points[..]) == Sites(old(points[..]))
  {
    var i := 0;
    while i < points.Length
      invariant 0 <= i <= points.Length
      invariant DistYAt(points[..i], yc)
      invariant Sites(points[..]) == Sites(old(points[..]))
    {
      points[i] := points[i].(distY := MaskedAxisDist(yc, points[i].y));
      i := i + 1;
    }
    assert points[..] == points[..i];
  }

  /** Row distances survive a permutation of the points. */
  lemma DistYPermutation(s: seq<CellPoint>, t: seq<CellPoint>, yc: int)
    requires multiset(s) == multiset(t) && DistYAt(s, yc)
    ensures DistYAt(t, yc)
  {
    forall k | 0 <= k < |t|
      ensures t[k].distY == AxisDist(yc, t[k].y)
    {
      assert t[k] in multiset(s);
      var m :| 0 <= m < |s| && s[m] == t[k];
    }
  }

  predicate SortedPrefix(s: seq<CellPoint>, n: int)
    requires n <= |s|
  {
    forall a, b :: 0 <= a < b < n ==> s[a].distY <= s[b].distY
  }

  predicate SortedByDistY(s: seq<CellPoint>) {
    SortedPrefix(s, |s|)
  }

  /** The insertion sort by distY: a permutation of the points in non-decreasing distY order. */
  method SortRow(points: array<CellPoint>)
    requires points.Length >= 1
    modifies points
    ensures multiset(points[..]) == multiset(old(points[..]))
    ensures SortedByDistY(points[..])
  {
    var i := 1;
    while i < points.Length
      invariant 1 <= i <= points.Length
      invariant multiset(points[..]) == multiset(old(points[..]))
      invariant SortedPrefix(points[..], i)
    {
      InsertPoint(points, i);
      i := i + 1;
    }
  }

  /** One pass of the sort: v = points[i] moves down by shifting greater entries up. */
  method InsertPoint(points: array<CellPoint>, i: int)
    requires 1 <= i < points.Length && SortedPrefix(points[..], i)
    modifies points
    ensures multiset(points[..]) == multiset(old(points[..]))
    ensures SortedPrefix(points[..], i + 1)
  {
    var v := points[i];
    var j := i;
    ShiftStart(points[..], i);
    while j > 0 && points[j - 1].distY > v.distY
      invariant 0 <= j <= i
      invariant multiset(points[..][j := v]) == multiset(old(points[..]))
      invariant Shifting(points[..], v, i, j)
    {
      ShiftStep(points[..], v, i, j);
      points[j] := points[j - 1];
      j := j - 1;
    }
    ShiftDone(points[..], v, i, j);
    points[j] := v;
  }

  /** While v moves down its slot is j: the rest of s[..i + 1] is in order and everything
      above j has a larger distY than v. */
  predicate Shifting(s: seq<CellPoint>, v: CellPoint, i: int, j: int)
    requires 0 <= j <= i < |s|
  {
    (forall a, b :: 0 <= a < b <= i && a != j && b != j ==> s[a].distY <= s[b].distY) &&
    (forall b :: j < b <= i ==> v.distY < s[b].distY)
  }

  lemma ShiftStart(s: seq<CellPoint>, i: int)
    requires 0 <= i < |s| && SortedPrefix(s, i)
    ensures Shifting(s, s[i], i, i) && s[i := s[i]] == s
  {
  }

  lemma ShiftStep(s: seq<CellPoint>, v: CellPoint, i: int, j: int)
    requires 0 < j <= i < |s| && Shifting(s, v, i, j) && s[j - 1].distY > v.distY
    ensures Shifting(s[j := s[j - 1]], v, i, j - 1)
    ensures multiset(s[j := s[j - 1]][j - 1 := v]) == multiset(s[j := v])
  {
    var t := s[j := v];
    assert s[j := s[j - 1]][j - 1 := v] == t[j - 1 := t[j]][j := t[j - 1]];
  }

  lemma ShiftDone(s: seq<CellPoint>, v: CellPoint, i: int, j: int)
    requires 0 <= j <= i < |s| && Shifting(s, v, i, j)
    requires j == 0 || s[j - 1].distY <= v.distY
    ensures SortedPrefix(s[j := v], i + 1)
  {
  }

  // ---------------------------------------------------------------------
  // The search at one pixel (generators.cpp:358-404)

  /** best, best2 and their indices into the sorted points, -1 for none. */
  datatype Search = Search(best: int, best2: int, besti: int, best2i: int)

  /** The state at the start of each row. */
  const Start: Search := Search(BestInit, BestInit, -1, -1)

  predicate Indices(st: Search, n: int) {
    -1 <= st.besti < n && -1 <= st.best2i < n
  }

  /** One turn of the search loop: a strictly nearer point becomes best and the old best
      second; a point strictly between best and best2 becomes second. */
  function Visit(s: seq<CellPoint>, xc: int, st: Search, i: int): Search
    requires 0 <= i < |s|
  {
    var dist := PointDist(s[i], xc);
    if dist < st.best then Search(dist, st.best, i, st.besti)
    else if dist > st.best && dist < st.best2 then Search(st.best, dist, st.besti, i)
    else st
  }

  /** The search loop from point i on: it goes on while best2 exceeds the next point's
      distY. */
  function ScanFrom(s: seq<CellPoint>, xc: int, st: Search, i: int): Search
    requires 0 <= i <= |s|
    decreases |s| - i
  {
    if i < |s| && st.best2 > s[i].distY then ScanFrom(s, xc, Visit(s, xc, st, i), i + 1) else st
  }

  /** The distances of the two remembered points at the new pixel, swapped into order. */
  function Rescore(s: seq<CellPoint>, xc: int, bi: int, b2i: int, b2: int): Search
    requires 0 <= bi < |s|
  {
    var b := PointDist(s[bi], xc);
    if b2 < b then Search(b2, b, b2i, bi) else Search(b, b2, bi, b2i)
  }

  /** The update block as written: the remembered points are rescored only when both exist. */
  function RefreshAsWritten(s: seq<CellPoint>, xc: int, st: Search): Search
    requires Indices(st, |s|)
  {
    if st.besti != -1 && st.best2i != -1 then
      Rescore(s, xc, st.besti, st.best2i, PointDist(s[st.best2i], xc))
    else
      st
  }

  /** The search at one pixel as written. */
  function SearchAsWritten(s: seq<CellPoint>, xc: int, st: Search): Search
    requires Indices(st, |s|)
  {
    ScanFrom(s, xc, RefreshAsWritten(s, xc, st), 0)
  }

  /** The update block corrected: the best point is rescored whenever it exists, and a
      missing second point counts as 2^28. */
  function Refresh(s: seq<CellPoint>, xc: int, st: Search): Search
    requires Indices(st, |s|)
  {
    if st.besti != -1 then
      Rescore(s, xc, st.besti, st.best2i, if st.best2i != -1 then PointDist(s[st.best2i], xc) else BestInit)
    else
      st
  }

  function SearchStep(s: seq<CellPoint>, xc: int, st: Search): Search
    requires Indices(st, |s|)
  {
    ScanFrom(s, xc, Refresh(s, xc, st), 0)
  }

  /** The correction changes nothing when both remembered points exist. */
  lemma SearchAgrees(s: seq<CellPoint>, xc: int, st: Search)
    requires Indices(st, |s|) && st.besti != -1 && st.best2i != -1
    ensures SearchAsWritten(s, xc, st) == SearchStep(s, xc, st)
  {
  }

  /** What the search knows after looking at points 0 .. i - 1: best <= best2, best is the
      distance of point besti (or 2^28 with no point yet) and no visited point is nearer. */
  predicate Scanned(s: seq<CellPoint>, xc: int, st: Search, i: int)
    requires 0 <= i <= |s|
  {
    Indices(st, |s|) && st.best <= st.best2 &&
    (st.besti == -1 ==> st.best == BestInit) &&
    (st.besti != -1 ==> st.best == PointDist(s[st.besti], xc)) &&
    forall k :: 0 <= k < i ==> st.best <= PointDist(s[k], xc)
  }

  /** A row's sorted points: distY in order and equal to the true y distances. */
  predicate RowReady(s: seq<CellPoint>, yc: int) {
    |s| >= 1 && SortedByDistY(s) && DistYAt(s, yc)
  }

  /** The branch-and-bound search finds the nearest point: when it stops, every point not
      visited has a distY, and so a distance, of at least best2 >= best. */
  lemma {:induction false} ScanFinds(s: seq<CellPoint>, xc: int, yc: int, st: Search, i: int)
    requires RowReady(s, yc) && 0 <= i <= |s| && Scanned(s, xc, st, i)
    ensures var r := ScanFrom(s, xc, st, i);
      Scanned(s, xc, r, |s|) && r.besti != -1
    decreases |s| - i
  {
    if i < |s| && st.best2 > s[i].distY {
      ScanFinds(s, xc, yc, Visit(s, xc, st, i), i + 1);
    } else {
      forall k | i <= k < |s|
        ensures st.best <= PointDist(s[k], xc)
      {
        assert s[i].distY <= s[k].distY;
      }
      assert PointDist(s[0], xc) == CentreDist(s[0].x, s[0].y, xc, yc);
    }
  }

  /** The state carried from the previous pixel of a row, or the row's start state. */
  predicate Carried(st: Search, n: int) {
    st == Start || (0 <= st.besti < n && -1 <= st.best2i < n)
  }

  /** With the corrected update, every pixel finds a nearest point. */
  lemma SearchFinds(s: seq<CellPoint>, xc: int, yc: int, st: Search)
    requires RowReady(s, yc) && Carried(st, |s|)
    ensures var r := SearchStep(s, xc, st);
      Scanned(s, xc, r, |s|) && r.besti != -1 && Carried(r, |s|)
  {
    ScanFinds(s, xc, yc, Refresh(s, xc, st), 0);
  }

  /** As written, the update is skipped when there is no second point, so best keeps the
      previous pixel's distance. With one centre at x = 0 and a 4-pixel-wide texture, pixel 0
      (xc = 2048) finds best = 2048^2 with no second point; at pixel 1 (xc = 6144) the centre
      is 6144^2 away, yet best stays 2048^2. */
  lemma SearchAsWrittenStale()
    ensures var s := [CellPoint(0, 0, 0, 0)];
      var r := SearchAsWritten(s, 6144, SearchAsWritten(s, 2048, Start));
      r.best == 2048 * 2048 && PointDist(s[0], 6144) == 6144 * 6144
  {
    var s := [CellPoint(0, 0, 0, 0)];
    assert AxisDist(2048, 0) == 2048 * 2048;
    assert AxisDist(6144, 0) == 6144 * 6144;
    var r1 := SearchAsWritten(s, 2048, Start);
    assert r1 == ScanFrom(s, 2048, Search(2048 * 2048, BestInit, 0, -1), 1);
    assert r1 == Search(2048 * 2048, BestInit, 0, -1);
    var r2 := SearchAsWritten(s, 6144, r1);
    assert r2 == ScanFrom(s, 6144, Search(2048 * 2048, 6144 * 6144, 0, 0), 1);
  }

  /** The scan never loses a best point it holds and never leaves the index range. */
  lemma {:induction false} ScanKeepsBest(s: seq<CellPoint>, xc: int, st: Search, i: int)
    requires 0 <= i <= |s| && Indices(st, |s|)
    ensures var r := ScanFrom(s, xc, st, i);
      Indices(r, |s|) && (st.besti != -1 ==> r.besti != -1)
    decreases |s| - i
  {
    if i < |s| && st.best2 > s[i].distY {
      ScanKeepsBest(s, xc, Visit(s, xc, st, i), i + 1);
    }
  }

  /** Even as written, the search ends every pixel holding a best point, so reading the
      centre of `points[besti]` stays in bounds: pixel 0 scans from the start state, and a
      later pixel keeps the best point it carries. */
  lemma SearchAsWrittenHasBest(s: seq<CellPoint>, xc: int, yc: int, st: Search)
    requires RowReady(s, yc) && Carried(st, |s|)
    ensures var r := SearchAsWritten(s, xc, st);
      0 <= r.besti < |s| && Carried(r, |s|)
  {
    var st1 := RefreshAsWritten(s, xc, st);
    ScanKeepsBest(s, xc, st1, 0);
    if st == Start {
      ScanFinds(s, xc, yc, st1, 0);
    }
  }

  /** As written, two centres at the same distance from pixel 0 leave no second point (a tie
      neither replaces best nor becomes best2), so pixel 1 keeps the first centre even though
      the other is nearer: with centres at x = 0 and x = 4096 and a 4-pixel-wide texture,
      pixel 0 (xc = 2048) ties at 2048^2, and pixel 1 (xc = 6144) is labelled with the centre
      6144^2 away instead of the one 2048^2 away. */
  lemma SearchAsWrittenWrongCell()
    ensures var s := [CellPoint(0, 0, 0, 0), CellPoint(4096, 0, 0, 1)];
      var r := SearchAsWritten(s, 6144, SearchAsWritten(s, 2048, Start));
      r.besti == 0 && PointDist(s[1], 6144) < PointDist(s[0], 6144)
  {
    var s := [CellPoint(0, 0, 0, 0), CellPoint(4096, 0, 0, 1)];
    assert AxisDist(2048, 0) == 2048 * 2048;
    assert AxisDist(2048, 4096) == 2048 * 2048;
    assert AxisDist(6144, 0) == 6144 * 6144;
    assert AxisDist(6144, 4096) == 2048 * 2048;
    var r1 := SearchAsWritten(s, 2048, Start);
    assert r1 == ScanFrom(s, 2048, Search(2048 * 2048, BestInit, 0, -1), 1);
    assert r1 == Search(2048 * 2048, BestInit, 0, -1);
    var r2 := SearchAsWritten(s, 6144, r1);
    assert r2 == ScanFrom(s, 6144, Search(2048 * 2048, 6144 * 6144, 0, 0), 1);
    assert r2 == Search(2048 * 2048, 6144 * 6144, 0, 0);
  }

  /** The search loop, proved to compute ScanFrom. */
  method Scan(points: array<CellPoint>, xc: int, st: Search) returns (r: Search)
    requires Indices(st, points.Length)
    ensures r == ScanFrom(points[..], xc, st, 0)
  {
    var best, best2, besti, best2i := st.best, st.best2, st.besti, st.best2i;
    var i := 0;
    while i < points.Length && best2 > points[i].distY
      invariant 0 <= i <= points.Length
      invariant ScanFrom(points[..], xc, Search(best, best2, besti, best2i), i) == ScanFrom(points[..], xc, st, 0)
    {
      var dist := MaskedAxisDist(xc, points[i].x) + points[i].distY;
      if dist < best {
        best2, best2i := best, besti;
        best, besti := dist, i;
      } else if dist > best && dist < best2 {
        best2, best2i := dist, i;
      }
      i := i + 1;
    }
    r := Search(best, best2, besti, best2i);
  }

  /** The search at one pixel: the corrected update block, then the search loop. */
  method SearchPixel(points: array<CellPoint>, xc: int, st: Search) returns (r: Search)
    requires Indices(st, points.Length)
    ensures r == SearchStep(points[..], xc, st)
  {
    var cur := st;
    if st.besti != -1 {
      var best := MaskedAxisDist(xc, points[st.besti].x) + points[st.besti].distY;
      var best2 := BestInit;
      if st.best2i != -1 {
        best2 := MaskedAxisDist(xc, points[st.best2i].x) + points[st.best2i].distY;
      }
      if best2 < best {
        cur := Search(best2, best, st.best2i, st.besti);
      } else {
        cur := Search(best, best2, st.besti, st.best2i);
      }
    }
    r := Scan(points, xc, cur);
  }

  // ---------------------------------------------------------------------
  // Cells (generators.cpp:299-424)

  /** The centre of pixel x along an axis of 2^shift pixels in the 2^14 scale of the cell
      centres (not the 8.24 scale of Textures.Centre): half a step, plus x steps of
      2^(14 - shift). */
  function ScaledCentre(x: int, shift: nat): int
    requires shift <= ScaleF
  {
    Pow2(ScaleF - shift) / 2 + x * Pow2(ScaleF - shift)
  }

  lemma ScaledCentreNext(x: int, shift: nat)
    requires shift <= ScaleF
    ensures ScaledCentre(x + 1, shift) == ScaledCentre(x, shift) + Pow2(ScaleF - shift)
  {
    var step := Pow2(ScaleF - shift);
    assert (x + 1) * step == x * step + step;
  }

  /** c is a centre at least as near (on the torus) to (xc, yc) as every other centre. */
  predicate Nearest(cx: seq<int>, cy: seq<int>, c: int, xc: int, yc: int)
    requires |cx| == |cy|
  {
    0 <= c < |cx| &&
    forall c' :: 0 <= c' < |cx| ==>
      CentreDist(cx[c] % Scale, cy[c] % Scale, xc, yc) <= CentreDist(cx[c'] % Scale, cy[c'] % Scale, xc, yc)
  }

  /** A search result over a row's points names a nearest centre, since the points are the
      centres in some order. */
  lemma NearestFromSearch(s: seq<CellPoint>, cx: seq<int>, cy: seq<int>, xc: int, yc: int, r: Search)
    requires |cx| == |cy| && HoldsCentres(s, cx, cy)
    requires DistYAt(s, yc) && 0 <= r.besti < |s| && Scanned(s, xc, r, |s|)
    ensures Nearest(cx, cy, s[r.besti].node, xc, yc)
  {
    var b := s[r.besti];
    var c := b.node;
    assert Site(b) == CentreSite(cx, cy, c);
    forall c' | 0 <= c' < |cx|
      ensures CentreDist(cx[c] % Scale, cy[c] % Scale, xc, yc) <= CentreDist(cx[c'] % Scale, cy[c'] % Scale, xc, yc)
    {
      var k :| 0 <= k < |s| && Sites(s)[k] == CentreSite(cx, cy, c');
      assert s[k].x == cx[c'] % Scale && s[k].y == cy[c'] % Scale;
      assert r.best <= PointDist(s[k], xc);
    }
  }

  /** One pixel: the search, then the index of the nearest centre written to out[k]. */
  method CellsPixel(out: array<int>, points: array<CellPoint>, cx: seq<int>, cy: seq<int>,
                    k: int, xc: int, yc: int, st: Search) returns (r: Search)
    requires |cx| == |cy| == points.Length && 0 <= k < out.Length
    requires RowReady(points[..], yc) && Carried(st, points.Length)
    requires HoldsCentres(points[..], cx, cy)
    modifies out
    ensures Carried(r, points.Length) && Nearest(cx, cy, out[k], xc, yc)
    ensures forall j :: 0 <= j < out.Length && j != k ==> out[j] == old(out[j])
  {
    r := SearchPixel(points, xc, st);
    SearchFinds(points[..], xc, yc, st);
    NearestFromSearch(points[..], cx, cy, xc, yc, r);
    out[k] := points[r.besti].node;
  }

  /** One row: the search at each pixel, writing the index of the nearest centre to
      out[base + x]. */
  method CellsRow(out: array<int>, points: array<CellPoint>, cx: seq<int>, cy: seq<int>,
                  X: int, shiftX: nat, base: int, yc: int)
    requires |cx| == |cy| == points.Length && shiftX <= ScaleF
    requires RowReady(points[..], yc)
    requires HoldsCentres(points[..], cx, cy)
    requires 0 <= base && 0 <= X && base + X <= out.Length
    modifies out
    ensures forall x :: 0 <= x < X ==> Nearest(cx, cy, out[base + x], ScaledCentre(x, shiftX), yc)
    ensures forall k :: 0 <= k < out.Length && !(base <= k < base + X) ==> out[k] == old(out[k])
  {
    var stepX := Pow2(ScaleF - shiftX);
    var xc := stepX / 2;
    var st := Start;
    var x := 0;
    while x < X
      invariant 0 <= x <= X
      invariant xc == ScaledCentre(x, shiftX) && Carried(st, points.Length)
      invariant forall x' :: 0 <= x' < x ==> Nearest(cx, cy, out[base + x'], ScaledCentre(x', shiftX), yc)
      invariant forall k :: 0 <= k < out.Length && !(base <= k < base + X) ==> out[k] == old(out[k])
    {
      st := CellsPixel(out, points, cx, cy, base + x, xc, yc, st);
      ScaledCentreNext(x, shiftX);
      xc := xc + stepX;
      x := x + 1;
    }
  }

  /** Rows 0 .. y - 1 of a grid of width X hold, at each pixel, a centre nearest to it. */
  predicate RowsDone(a: seq<int>, cx: seq<int>, cy: seq<int>, X: int, y: int, shiftX: nat, shiftY: nat)
    requires |cx| == |cy| && shiftX <= ScaleF && shiftY <= ScaleF
  {
    forall y', x :: 0 <= y' < y && 0 <= x < X ==> PixelDone(a, cx, cy, X, y', x, shiftX, shiftY)
  }

  /** Pixel (x, y) of a grid of width X holds a centre nearest to it. */
  predicate PixelDone(a: seq<int>, cx: seq<int>, cy: seq<int>, X: int, y: int, x: int, shiftX: nat, shiftY: nat)
    requires |cx| == |cy| && shiftX <= ScaleF && shiftY <= ScaleF
  {
    0 <= y * X + x < |a| && Nearest(cx, cy, a[y * X + x], ScaledCentre(x, shiftX), ScaledCentre(y, shiftY))
  }

  /** Cells: for every pixel, the index of a centre nearest to the pixel's centre on the
      torus. */
  method Cells(out: array<int>, cx: seq<int>, cy: seq<int>, X: int, Y: int, shiftX: nat, shiftY: nat,
               mode: int)
    requires |cx| == |cy| && CountOk(|cx|, mode)
    requires shiftX <= ScaleF && shiftY <= ScaleF && X == Pow2(shiftX) && Y == Pow2(shiftY)
    requires out.Length == X * Y
    modifies out
    ensures RowsDone(out[..], cx, cy, X, Y, shiftX, shiftY)
  {
    var points := NewPoints(cx, cy);
    var stepY := Pow2(ScaleF - shiftY);
    var yc: int := stepY / 2;
    var y := 0;
    while y < Y
      invariant 0 <= y <= Y && yc == ScaledCentre(y, shiftY)
      invariant HoldsCentres(points[..], cx, cy)
      invariant RowsDone(out[..], cx, cy, X, y, shiftX, shiftY)
    {
      CellsStep(out, points, cx, cy, X, Y, shiftX, shiftY, y, yc);
      ScaledCentreNext(y, shiftY);
      yc := yc + stepY;
      y := y + 1;
    }
  }

  /** The points array of Cells, filled from the centres. */
  method NewPoints(cx: seq<int>, cy: seq<int>) returns (points: array<CellPoint>)
    requires |cx| == |cy|
    ensures fresh(points) && points.Length == |cx| && HoldsCentres(points[..], cx, cy)
  {
    points := new CellPoint[|cx|];
    InitPoints(points, cx, cy);
    InitialHoldsCentres(cx, cy);
  }

  /** One pass of the row loop of Cells: prepare the points for row y, then write it. */
  method CellsStep(out: array<int>, points: array<CellPoint>, cx: seq<int>, cy: seq<int>, X: int, Y: int,
                   shiftX: nat, shiftY: nat, y: int, yc: int)
    requires |cx| == |cy| == points.Length && points.Length >= 1
    requires shiftX <= ScaleF && shiftY <= ScaleF && X == Pow2(shiftX) && out.Length == X * Y
    requires 0 <= y < Y && yc == ScaledCentre(y, shiftY)
    requires HoldsCentres(points[..], cx, cy) && RowsDone(out[..], cx, cy, X, y, shiftX, shiftY)
    modifies out, points
    ensures HoldsCentres(points[..], cx, cy) && RowsDone(out[..], cx, cy, X, y + 1, shiftX, shiftY)
  {
    PrepareRow(points, cx, cy, yc);
    RowBounds(y, X, Y);
    ghost var prev := out[..];
    CellsRow(out, points, cx, cy, X, shiftX, y * X, yc);
    RowsKept(out[..], prev, cx, cy, X, y, shiftX, shiftY);
  }

  /** The start of a row: the y distances, then the sort. */
  method PrepareRow(points: array<CellPoint>, cx: seq<int>, cy: seq<int>, yc: int)
    requires |cx| == |cy| == points.Length && points.Length >= 1 && HoldsCentres(points[..], cx, cy)
    modifies points
    ensures HoldsCentres(points[..], cx, cy) && RowReady(points[..], yc)
  {
    ghost var before := points[..];
    RowDistances(points, yc);
    CentresSameSites(before, points[..], cx, cy);
    ghost var unsorted := points[..];
    SortRow(points);
    CentresPermutation(unsorted, points[..], cx, cy);
    DistYPermutation(unsorted, points[..], yc);
  }

  /** Rows before y keep what they held when row y is written. */
  lemma RowsKept(a: seq<int>, a0: seq<int>, cx: seq<int>, cy: seq<int>, X: int, y: int, shiftX: nat, shiftY: nat)
    requires |cx| == |cy| && |a| == |a0| && shiftX <= ScaleF && shiftY <= ScaleF && 0 <= y
    requires 0 <= y * X && y * X + X <= |a|
    requires forall k :: 0 <= k < |a| && !(y * X <= k < y * X + X) ==> a[k] == a0[k]
    requires RowsDone(a0, cx, cy, X, y, shiftX, shiftY)
    requires forall x :: 0 <= x < X ==> Nearest(cx, cy, a[y * X + x], ScaledCentre(x, shiftX), ScaledCentre(y, shiftY))
    ensures RowsDone(a, cx, cy, X, y + 1, shiftX, shiftY)
  {
    forall y', x | 0 <= y' < y + 1 && 0 <= x < X
      ensures PixelDone(a, cx, cy, X, y', x, shiftX, shiftY)
    {
      if y' < y {
        assert PixelDone(a0, cx, cy, X, y', x, shiftX, shiftY);
        EarlierRow(y', y, x, X);
      }
    }
  }
}
