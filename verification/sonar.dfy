/** The sonar image kernels: an n-by-n picture of byte intensities stored in the top-left
    corner of a MAX-by-MAX array is rotated a quarter turn clockwise in place, then smoothed
    in place with a 3-by-3 box filter. A matrix is a sequence of rows; the kernels return
    the array as it stands when they finish. */
module Sonar {

  /** `MAX`: the side of the storage array. */
  const MAX: nat := 10

  type Matrix = seq<seq<int>>

  /** The storage array: MAX rows of MAX cells. */
  predicate Grid(m: Matrix) {
    |m| == MAX && forall i :: 0 <= i < |m| ==> |m[i]| == MAX
  }

  /** Every cell holds an `unsigned char`. */
  predicate Bytes(m: Matrix)
    requires Grid(m)
  {
    forall i, j :: 0 <= i < MAX && 0 <= j < MAX ==> 0 <= m[i][j] < 256
  }

  /** m with cell (i, j) set to v. */
  function Set(m: Matrix, i: nat, j: nat, v: int): (r: Matrix)
    requires Grid(m) && i < MAX && j < MAX
    ensures Grid(r)
    ensures forall a, b :: 0 <= a < MAX && 0 <= b < MAX ==> r[a][b] == (if a == i && b == j then v else m[a][b])
  {
    m[i := m[i][j := v]]
  }

  // ---------------------------------------------------------------------------
  // Rotation
  // ---------------------------------------------------------------------------

  /** The quarter turn clockwise of the n-by-n corner: cell (i, j) takes the value of cell
      (n-1-j, i); cells outside the corner keep theirs. */
  function Rotated(m: Matrix, n: nat): (r: Matrix)
    requires Grid(m) && n <= MAX
    ensures Grid(r)
  {
    seq(MAX, i requires 0 <= i < MAX => seq(MAX, j requires 0 <= j < MAX =>
      if i < n && j < n then m[n - 1 - j][i] else m[i][j]))
  }

  /** Cell (i, j) lies outside the square of rows and columns L .. n-1-L: on one of the
      rings before ring L. */
  predicate OutsideSquare(i: int, j: int, n: int, L: int) {
    i < L || i > n - 1 - L || j < L || j > n - 1 - L
  }

  /** Cell (i, j) lies on the border of that square: on ring L. */
  predicate OnRing(i: int, j: int, n: int, L: int) {
    !OutsideSquare(i, j, n, L) && (i == L || i == n - 1 - L || j == L || j == n - 1 - L)
  }

  /** On ring L (first index f = L, last index l = n-1-L), the value of the loop index for
      which the swap moves cell (i, j): the top row (f, c), the right column (c, l), the
      bottom row (l, l-(c-f)) and the left column (l-(c-f), f). */
  function Orbit(i: int, j: int, n: int, L: int): int {
    var f := L;
    var l := n - 1 - L;
    if i == f && j < l then j
    else if j == l && i < l then i
    else if i == l && j > f then f + l - j
    else f + l - i
  }

  /** The cells the loops have already rotated: every ring before L, and on ring L the
      cells of the swaps for loop indexes below c. */
  predicate Moved(i: int, j: int, n: int, L: int, c: int) {
    0 <= i < n && 0 <= j < n && (OutsideSquare(i, j, n, L) || (OnRing(i, j, n, L) && Orbit(i, j, n, L) < c))
  }

  /** The loop state: moved cells hold their rotated value, the others their original one. */
  predicate Progress(m: Matrix, m0: Matrix, n: nat, L: int, c: int)
    requires Grid(m) && Grid(m0) && n <= MAX
  {
    forall i, j :: 0 <= i < MAX && 0 <= j < MAX ==>
      m[i][j] == (if Moved(i, j, n, L, c) then m0[n - 1 - j][i] else m0[i][j])
  }

  /** The value of cell (a, b) after the swap for loop index c on ring L. */
  function SwapValue(m: Matrix, n: nat, L: nat, c: nat, a: nat, b: nat): int
    requires Grid(m) && n <= MAX && L <= c < n - 1 - L && a < MAX && b < MAX
  {
    if a == L && b == c then m[n - 1 - c][L]
    else if a == n - 1 - c && b == L then m[n - 1 - L][n - 1 - c]
    else if a == n - 1 - L && b == n - 1 - c then m[c][n - 1 - L]
    else if a == c && b == n - 1 - L then m[L][c]
    else m[a][b]
  }

  /** The four-way swap for loop index c on ring L: the top cell takes the left cell's
      value, the left the bottom's, the bottom the right's and the right the top's. */
  function Swap4(m: Matrix, n: nat, L: nat, c: nat): (r: Matrix)
    requires Grid(m) && n <= MAX && L <= c < n - 1 - L
    ensures Grid(r)
    ensures forall a, b :: 0 <= a < MAX && 0 <= b < MAX ==> r[a][b] == SwapValue(m, n, L, c, a, b)
  {
    var f := L;
    var l := n - 1 - L;
    var o := c - f;
    var top := m[f][c];
    var m1 := Set(m, f, c, m[l - o][f]);
    var m2 := Set(m1, l - o, f, m1[l][l - o]);
    var m3 := Set(m2, l, l - o, m2[c][l]);
    Set(m3, c, l, top)
  }

  /** One cell across the swap for loop index c. */
  lemma SwapCell(m: Matrix, m0: Matrix, n: nat, L: nat, c: nat, i: nat, j: nat)
    requires Grid(m) && Grid(m0) && n <= MAX && L <= c < n - 1 - L && i < MAX && j < MAX
    requires Progress(m, m0, n, L, c)
    ensures Swap4(m, n, L, c)[i][j] == (if Moved(i, j, n, L, c + 1) then m0[n - 1 - j][i] else m0[i][j])
  {
    if (i, j) in {(L, c), (n - 1 - c, L), (n - 1 - L, n - 1 - c), (c, n - 1 - L)} {
      SwapMovedCell(m, m0, n, L, c, i, j);
    } else {
      assert Swap4(m, n, L, c)[i][j] == m[i][j];
      assert m[i][j] == (if Moved(i, j, n, L, c) then m0[n - 1 - j][i] else m0[i][j]);
      OtherCell(n, L, c, i, j);
    }
  }

  /** The four cells of the swap take their rotated values. */
  lemma SwapMovedCell(m: Matrix, m0: Matrix, n: nat, L: nat, c: nat, i: nat, j: nat)
    requires Grid(m) && Grid(m0) && n <= MAX && L <= c < n - 1 - L && i < MAX && j < MAX
    requires Progress(m, m0, n, L, c)
    requires (i, j) in {(L, c), (n - 1 - c, L), (n - 1 - L, n - 1 - c), (c, n - 1 - L)}
    ensures Moved(i, j, n, L, c + 1) && Swap4(m, n, L, c)[i][j] == m0[n - 1 - j][i]
  {
    var r := Swap4(m, n, L, c);
    var f := L;
    var l := n - 1 - L;
    var o := c - f;
    assert OnRing(i, j, n, L) && Orbit(i, j, n, L) == c;
    if i == f && j == c {
      SwapSource(m, m0, n, L, c, l - o, f);
      assert r[i][j] == m0[l - o][f];
    } else if i == l - o && j == f {
      SwapSource(m, m0, n, L, c, l, l - o);
      assert r[i][j] == m0[l][l - o];
    } else if i == l && j == l - o {
      SwapSource(m, m0, n, L, c, c, l);
      assert r[i][j] == m0[c][l];
    } else {
      SwapSource(m, m0, n, L, c, f, c);
      assert r[i][j] == m0[f][c];
    }
  }

  /** The four cells the swap reads are not moved yet. */
  lemma SwapSource(m: Matrix, m0: Matrix, n: nat, L: nat, c: nat, i: nat, j: nat)
    requires Grid(m) && Grid(m0) && n <= MAX && L <= c < n - 1 - L && i < MAX && j < MAX
    requires Progress(m, m0, n, L, c)
    requires (i, j) in {(L, c), (n - 1 - c, L), (n - 1 - L, n - 1 - c), (c, n - 1 - L)}
    ensures m[i][j] == m0[i][j]
  {
    assert OnRing(i, j, n, L) && Orbit(i, j, n, L) == c;
    assert !Moved(i, j, n, L, c);
  }

  /** A cell that is none of the four keeps its moved status. */
  lemma OtherCell(n: nat, L: nat, c: nat, i: nat, j: nat)
    requires n <= MAX && L <= c < n - 1 - L
    requires (i, j) !in {(L, c), (n - 1 - c, L), (n - 1 - L, n - 1 - c), (c, n - 1 - L)}
    ensures Moved(i, j, n, L, c + 1) == Moved(i, j, n, L, c)
  {
    if 0 <= i < n && 0 <= j < n && OnRing(i, j, n, L) {
      assert Orbit(i, j, n, L) != c;
    }
  }

  lemma SwapStep(m: Matrix, m0: Matrix, n: nat, L: nat, c: nat)
    requires Grid(m) && Grid(m0) && n <= MAX && L <= c < n - 1 - L
    requires Progress(m, m0, n, L, c)
    ensures Progress(Swap4(m, n, L, c), m0, n, L, c + 1)
  {
    forall i, j | 0 <= i < MAX && 0 <= j < MAX
      ensures Swap4(m, n, L, c)[i][j] == (if Moved(i, j, n, L, c + 1) then m0[n - 1 - j][i] else m0[i][j])
    {
      SwapCell(m, m0, n, L, c, i, j);
    }
  }

  /** Ring L is finished once the loop index reaches its last index. */
  lemma RingDone(m: Matrix, m0: Matrix, n: nat, L: nat)
    requires Grid(m) && Grid(m0) && n <= MAX && L < n - 1 - L
    requires Progress(m, m0, n, L, n - 1 - L)
    ensures Progress(m, m0, n, L + 1, L + 1)
  {
    forall i, j | 0 <= i < MAX && 0 <= j < MAX
      ensures m[i][j] == (if Moved(i, j, n, L + 1, L + 1) then m0[n - 1 - j][i] else m0[i][j])
    {
      assert m[i][j] == (if Moved(i, j, n, L, n - 1 - L) then m0[n - 1 - j][i] else m0[i][j]);
      if OnRing(i, j, n, L) {
        assert L <= Orbit(i, j, n, L) < n - 1 - L;
      }
      if OnRing(i, j, n, L + 1) {
        assert Orbit(i, j, n, L + 1) >= L + 1;
      }
    }
  }

  /** Once every ring before n/2 is done, the corner is rotated: what is left is at most the
      centre cell of an odd n, which the rotation maps onto itself. */
  lemma AllRingsDone(m: Matrix, m0: Matrix, n: nat)
    requires Grid(m) && Grid(m0) && n <= MAX
    requires Progress(m, m0, n, n / 2, n / 2)
    ensures m == Rotated(m0, n)
  {
    var r := Rotated(m0, n);
    forall i | 0 <= i < MAX
      ensures m[i] == r[i]
    {
      forall j | 0 <= j < MAX
        ensures m[i][j] == r[i][j]
      {
        if i < n && j < n && !OutsideSquare(i, j, n, n / 2) {
          assert i == j == n - 1 - j;
        }
      }
    }
  }

  /** `rotateMatrixClockwise`: ring by ring from the outside in, each loop index moves the
      left cell to the top, the bottom to the left, the right to the bottom and the top to
      the right. */
  method RotateClockwise(m: Matrix, n: nat) returns (r: Matrix)
    requires Grid(m) && n <= MAX
    ensures Grid(r)
    ensures forall i, j :: 0 <= i < n && 0 <= j < n ==> r[i][j] == m[n - 1 - j][i]
    ensures forall i, j :: 0 <= i < MAX && 0 <= j < MAX && (i >= n || j >= n) ==> r[i][j] == m[i][j]
  {
    r := m;
    var layer := 0;
    while layer < n / 2
      invariant 0 <= layer <= n / 2
      invariant Grid(r) && Progress(r, m, n, layer, layer)
    {
      var first := layer;
      var last := n - 1 - layer;
      var current := first;
      while current < last
        invariant first <= current <= last
        invariant Grid(r) && Progress(r, m, n, layer, current)
      {
        SwapStep(r, m, n, layer, current);
        r := Swap4(r, n, layer, current);
        current := current + 1;
      }
      RingDone(r, m, n, layer);
      layer := layer + 1;
    }
    AllRingsDone(r, m, n);
  }

  /** The rotation moves every cell of the corner somewhere: cell (a, b) ends up at
      (b, n-1-a), so the corner is permuted. */
  lemma RotationPermutes(m: Matrix, n: nat)
    requires Grid(m) && n <= MAX
    ensures forall a, b :: 0 <= a < n && 0 <= b < n ==> Rotated(m, n)[b][n - 1 - a] == m[a][b]
  {
  }

  /** Rotating keeps every cell a byte. */
  lemma RotationKeepsBytes(m: Matrix, n: nat)
    requires Grid(m) && Bytes(m) && n <= MAX
    ensures Bytes(Rotated(m, n))
  {
  }

  /** Four quarter turns give back the original matrix. */
  lemma {:induction false} FourTurns(m: Matrix, n: nat)
    requires Grid(m) && n <= MAX
    ensures Rotated(Rotated(Rotated(Rotated(m, n), n), n), n) == m
  {
    var r4 := Rotated(Rotated(Rotated(Rotated(m, n), n), n), n);
    forall i | 0 <= i < MAX
      ensures r4[i] == m[i]
    {
      forall j | 0 <= j < MAX
        ensures r4[i][j] == m[i][j]
      {
        FourTurnsCell(m, n, i, j);
      }
    }
  }

  lemma FourTurnsCell(m: Matrix, n: nat, i: nat, j: nat)
    requires Grid(m) && n <= MAX && i < MAX && j < MAX
    ensures Rotated(Rotated(Rotated(Rotated(m, n), n), n), n)[i][j] == m[i][j]
  {
    var r1 := Rotated(m, n);
    var r2 := Rotated(r1, n);
    var r3 := Rotated(r2, n);
    if i < n && j < n {
      assert Rotated(r3, n)[i][j] == r3[n - 1 - j][i];
      assert r3[n - 1 - j][i] == r2[n - 1 - i][n - 1 - j];
      assert r2[n - 1 - i][n - 1 - j] == r1[j][n - 1 - i];
    }
  }

  // ---------------------------------------------------------------------------
  // Smoothing
  // ---------------------------------------------------------------------------

  /** The sum of the values, added from the left. */
  function Sum(s: seq<int>): int {
    if s == [] then 0 else Sum(s[..|s| - 1]) + s[|s| - 1]
  }

  lemma {:induction false} SumAppend(s: seq<int>, t: seq<int>)
    ensures Sum(s + t) == Sum(s) + Sum(t)
  {
    if t != [] {
      SumAppend(s, t[..|t| - 1]);
      assert (s + t)[..|s + t| - 1] == s + t[..|t| - 1];
      assert (s + t)[|s + t| - 1] == t[|t| - 1];
    } else {
      assert s + t == s;
    }
  }

  /** Cell (a, b) as a one-element list when it lies in the corner, otherwise nothing. */
  function Pick(m: Matrix, n: nat, a: int, b: int): seq<int>
    requires Grid(m) && n <= MAX
  {
    if 0 <= a < n && 0 <= b < n then [m[a][b]] else []
  }

  /** Of row a, the corner cells among the columns from j-1 up to (not including) e. */
  function Band(m: Matrix, n: nat, a: int, j: int, e: int): seq<int>
    requires Grid(m) && n <= MAX && j - 1 <= e <= j + 2
    decreases e - j
  {
    if e == j - 1 then [] else Band(m, n, a, j, e - 1) + Pick(m, n, a, e - 1)
  }

  /** Of the rows from i-1 up to (not including) e, the corner cells among columns j-1, j
      and j+1. */
  function Rows(m: Matrix, n: nat, i: int, j: int, e: int): seq<int>
    requires Grid(m) && n <= MAX && i - 1 <= e <= i + 2
    decreases e - i
  {
    if e == i - 1 then [] else Rows(m, n, i, j, e - 1) + Band(m, n, e - 1, j, j + 2)
  }

  /** The 3-by-3 neighbourhood of (i, j) cut to the corner, in row-major order. */
  function Window(m: Matrix, n: nat, i: int, j: int): seq<int>
    requires Grid(m) && n <= MAX
  {
    Rows(m, n, i, j, i + 2)
  }

  /** The floor of the mean; an empty list averages to 0. */
  function Average(s: seq<int>): int {
    if s == [] then 0 else Sum(s) / |s|
  }

  /** The box filter of the corner, every cell computed from the matrix before smoothing;
      cells outside the corner keep their value. */
  function Smoothed(m: Matrix, n: nat): (r: Matrix)
    requires Grid(m) && n <= MAX
    ensures Grid(r)
  {
    seq(MAX, a requires 0 <= a < MAX => seq(MAX, b requires 0 <= b < MAX =>
      if a < n && b < n then Average(Window(m, n, a, b)) else m[a][b]))
  }

  lemma {:induction false} BandMembers(m: Matrix, n: nat, a: int, j: int, e: int)
    requires Grid(m) && n <= MAX && j - 1 <= e <= j + 2
    ensures forall x :: x in Band(m, n, a, j, e) <==>
      exists b :: j - 1 <= b < e && 0 <= a < n && 0 <= b < n && x == m[a][b]
    decreases e - j
  {
    if e > j - 1 {
      BandMembers(m, n, a, j, e - 1);
    }
  }

  lemma {:induction false} RowsMembers(m: Matrix, n: nat, i: int, j: int, e: int)
    requires Grid(m) && n <= MAX && i - 1 <= e <= i + 2
    ensures forall x :: x in Rows(m, n, i, j, e) <==>
      exists a, b :: i - 1 <= a < e && j - 1 <= b <= j + 1 && 0 <= a < n && 0 <= b < n && x == m[a][b]
    decreases e - i
  {
    if e > i - 1 {
      RowsMembers(m, n, i, j, e - 1);
      BandMembers(m, n, e - 1, j, j + 2);
    }
  }

  /** The neighbourhood holds exactly the values of the corner cells at most one row and one
      column away; a cell of the corner is in its own neighbourhood, so it is never empty. */
  lemma NeighbourhoodContents(m: Matrix, n: nat, i: int, j: int)
    requires Grid(m) && n <= MAX
    ensures forall x :: x in Window(m, n, i, j) <==>
      exists a, b :: i - 1 <= a <= i + 1 && j - 1 <= b <= j + 1 && 0 <= a < n && 0 <= b < n && x == m[a][b]
    ensures 0 <= i < n && 0 <= j < n ==> m[i][j] in Window(m, n, i, j)
  {
    RowsMembers(m, n, i, j, i + 2);
  }

  lemma {:induction false} SumBounds(s: seq<int>, lo: int, hi: int)
    requires forall k :: 0 <= k < |s| ==> lo <= s[k] <= hi
    ensures |s| * lo <= Sum(s) <= |s| * hi
  {
    if s != [] {
      var k := |s| - 1;
      SumBounds(s[..k], lo, hi);
      assert |s| * lo == k * lo + lo && |s| * hi == k * hi + hi;
    }
  }

  lemma {:induction false} MulMono(a: int, b: int, k: nat)
    requires a <= b
    ensures a * k <= b * k
  {
    if k > 0 {
      MulMono(a, b, k - 1);
      assert a * k == a * (k - 1) + a && b * k == b * (k - 1) + b;
    }
  }

  lemma LessOfMul(a: int, b: int, k: nat)
    requires a * k < b * k
    ensures a < b
  {
    if b <= a {
      MulMono(b, a, k);
    }
  }

  lemma DivBounds(t: int, k: nat, lo: int, hi: int)
    requires k > 0 && k * lo <= t <= k * hi
    ensures lo <= t / k <= hi
  {
    var q := t / k;
    assert t == q * k + t % k && 0 <= t % k < k;
    assert (q + 1) * k == q * k + k;
    LessOfMul(lo, q + 1, k);
    LessOfMul(q, hi + 1, k);
  }

  /** A non-empty list averages to a value between its smallest and its largest element. */
  lemma AverageBetween(s: seq<int>, lo: int, hi: int)
    requires s != []
    requires forall k :: 0 <= k < |s| ==> lo <= s[k] <= hi
    ensures lo <= Average(s) <= hi
  {
    SumBounds(s, lo, hi);
    DivBounds(Sum(s), |s|, lo, hi);
  }

  /** Every smoothed cell lies between the smallest and the largest value of its
      neighbourhood in the matrix before smoothing, so it fits an `unsigned char` again. */
  lemma SmoothedWithinNeighbourhood(m: Matrix, n: nat, i: nat, j: nat, lo: int, hi: int)
    requires Grid(m) && n <= MAX && i < n && j < n
    requires forall a, b :: i - 1 <= a <= i + 1 && j - 1 <= b <= j + 1 && 0 <= a < n && 0 <= b < n ==> lo <= m[a][b] <= hi
    ensures lo <= Smoothed(m, n)[i][j] <= hi
  {
    var w := Window(m, n, i, j);
    NeighbourhoodContents(m, n, i, j);
    forall k | 0 <= k < |w|
      ensures lo <= w[k] <= hi
    {
      assert w[k] in w;
    }
    AverageBetween(w, lo, hi);
  }

  lemma SmoothingKeepsBytes(m: Matrix, n: nat)
    requires Grid(m) && Bytes(m) && n <= MAX
    ensures Bytes(Smoothed(m, n))
  {
    forall i, j | 0 <= i < n && 0 <= j < n
      ensures 0 <= Smoothed(m, n)[i][j] < 256
    {
      SmoothedWithinNeighbourhood(m, n, i, j, 0, 255);
    }
  }

  /** A flat picture stays flat. */
  lemma FlatStaysFlat(m: Matrix, n: nat, v: int)
    requires Grid(m) && n <= MAX
    requires forall a, b :: 0 <= a < n && 0 <= b < n ==> m[a][b] == v
    ensures forall i, j :: 0 <= i < n && 0 <= j < n ==> Smoothed(m, n)[i][j] == v
  {
    forall i, j | 0 <= i < n && 0 <= j < n
      ensures Smoothed(m, n)[i][j] == v
    {
      SmoothedWithinNeighbourhood(m, n, i, j, v, v);
    }
  }

  lemma {:induction false} BandOutside(m: Matrix, n: nat, a: int, j: int, e: int)
    requires Grid(m) && n <= MAX && j - 1 <= e <= j + 2 && (a < 0 || a >= n)
    ensures Band(m, n, a, j, e) == []
    decreases e - j
  {
    if e > j - 1 {
      BandOutside(m, n, a, j, e - 1);
    }
  }

  /** Of row a, the sum and the count of the corner cells among the columns from j-1 up
      to (not including) e. */
  function BandTotals(m: Matrix, n: nat, a: int, j: int, e: int): (int, int)
    requires Grid(m) && n <= MAX && j - 1 <= e <= j + 2
    decreases e - j
  {
    if e == j - 1 then (0, 0)
    else
      var t := BandTotals(m, n, a, j, e - 1);
      if 0 <= a < n && 0 <= e - 1 < n then (t.0 + m[a][e - 1], t.1 + 1) else t
  }

  /** Of the rows from i-1 up to (not including) e, the sum and the count of the corner
      cells among columns j-1, j and j+1. */
  function RowsTotals(m: Matrix, n: nat, i: int, j: int, e: int): (int, int)
    requires Grid(m) && n <= MAX && i - 1 <= e <= i + 2
    decreases e - i
  {
    if e == i - 1 then (0, 0)
    else
      var t := RowsTotals(m, n, i, j, e - 1);
      var b := BandTotals(m, n, e - 1, j, j + 2);
      (t.0 + b.0, t.1 + b.1)
  }

  lemma {:induction false} BandTotalsAre(m: Matrix, n: nat, a: int, j: int, e: int)
    requires Grid(m) && n <= MAX && j - 1 <= e <= j + 2
    ensures BandTotals(m, n, a, j, e) == (Sum(Band(m, n, a, j, e)), |Band(m, n, a, j, e)|)
    decreases e - j
  {
    if e > j - 1 {
      BandTotalsAre(m, n, a, j, e - 1);
      SumAppend(Band(m, n, a, j, e - 1), Pick(m, n, a, e - 1));
    }
  }

  lemma {:induction false} RowsTotalsAre(m: Matrix, n: nat, i: int, j: int, e: int)
    requires Grid(m) && n <= MAX && i - 1 <= e <= i + 2
    ensures RowsTotals(m, n, i, j, e) == (Sum(Rows(m, n, i, j, e)), |Rows(m, n, i, j, e)|)
    decreases e - i
  {
    if e > i - 1 {
      RowsTotalsAre(m, n, i, j, e - 1);
      BandTotalsAre(m, n, e - 1, j, j + 2);
      SumAppend(Rows(m, n, i, j, e - 1), Band(m, n, e - 1, j, j + 2));
    }
  }

  /** The sum and the count of the in-corner cells of row a among columns j-1, j, j+1,
      visited with the column offsets -1, 0, 1, skipping the cells outside. */
  method BandStats(m: Matrix, n: nat, a: int, j: int) returns (sum: int, count: int)
    requires Grid(m) && n <= MAX && 0 <= a < n
    ensures (sum, count) == BandTotals(m, n, a, j, j + 2)
  {
    sum := 0;
    count := 0;
    var columnOffset := -1;
    while columnOffset <= 1
      invariant -1 <= columnOffset <= 2
      invariant (sum, count) == BandTotals(m, n, a, j, j + columnOffset)
    {
      var column := j + columnOffset;
      if column < 0 || column >= n {
        columnOffset := columnOffset + 1;
        continue;
      }
      sum := sum + m[a][column];
      count := count + 1;
      columnOffset := columnOffset + 1;
    }
  }

  /** `applySmoothingFilter`'s neighbourhood loops: the sum and the count of the in-corner
      neighbours of (i, j), visited with the row offsets -1, 0, 1, skipping the rows
      outside, and inside with the column offsets. */
  method NeighbourStats(m: Matrix, n: nat, i: nat, j: nat) returns (sum: int, count: int)
    requires Grid(m) && n <= MAX
    ensures sum == Sum(Window(m, n, i, j)) && count == |Window(m, n, i, j)|
  {
    sum := 0;
    count := 0;
    var rowOffset := -1;
    while rowOffset <= 1
      invariant -1 <= rowOffset <= 2
      invariant (sum, count) == RowsTotals(m, n, i, j, i + rowOffset)
    {
      var row := i + rowOffset;
      if row < 0 || row >= n {
        BandOutside(m, n, row, j, j + 2);
        BandTotalsAre(m, n, row, j, j + 2);
        assert RowsTotals(m, n, i, j, row + 1) == RowsTotals(m, n, i, j, row);
        rowOffset := rowOffset + 1;
        continue;
      }
      var bandSum, bandCount := BandStats(m, n, row, j);
      assert RowsTotals(m, n, i, j, row + 1) == (sum + bandSum, count + bandCount);
      sum := sum + bandSum;
      count := count + bandCount;
      rowOffset := rowOffset + 1;
    }
    RowsTotalsAre(m, n, i, j, i + 2);
  }

  /** The averages of row r, each computed from m. */
  method RowAverages(m: Matrix, n: nat, r: nat) returns (avg: seq<int>)
    requires Grid(m) && n <= MAX
    ensures |avg| == MAX
    ensures forall c :: 0 <= c < n ==> avg[c] == Average(Window(m, n, r, c))
  {
    avg := seq(MAX, c => 0);
    var c := 0;
    while c < n
      invariant 0 <= c <= n && |avg| == MAX
      invariant forall k :: 0 <= k < c ==> avg[k] == Average(Window(m, n, r, k))
    {
      var sum, count := NeighbourStats(m, n, r, c);
      if count == 0 {
        avg := avg[c := 0];
      } else {
        avg := avg[c := sum / count];
      }
      c := c + 1;
    }
  }

  /** The first n cells of row a replaced by those of buf. */
  function WriteRow(m: Matrix, a: nat, buf: seq<int>, n: nat): (r: Matrix)
    requires Grid(m) && a < MAX && |buf| == MAX && n <= MAX
    ensures Grid(r)
    ensures forall i, j :: 0 <= i < MAX && 0 <= j < MAX ==>
      r[i][j] == (if i == a && j < n then buf[j] else m[i][j])
  {
    m[a := seq(MAX, j requires 0 <= j < MAX => if j < n then buf[j] else m[a][j])]
  }

  lemma {:induction false} BandsAgree(m: Matrix, m0: Matrix, n: nat, a: int, j: int, e: int)
    requires Grid(m) && Grid(m0) && n <= MAX && j - 1 <= e <= j + 2
    requires 0 <= a < MAX ==> forall b :: 0 <= b < MAX ==> m[a][b] == m0[a][b]
    ensures Band(m, n, a, j, e) == Band(m0, n, a, j, e)
    decreases e - j
  {
    if e > j - 1 {
      BandsAgree(m, m0, n, a, j, e - 1);
    }
  }

  lemma {:induction false} RowsAgree(m: Matrix, m0: Matrix, n: nat, i: int, j: int, e: int)
    requires Grid(m) && Grid(m0) && n <= MAX && i - 1 <= e <= i + 2
    requires forall a, b :: i - 1 <= a < e && 0 <= a < MAX && 0 <= b < MAX ==> m[a][b] == m0[a][b]
    ensures Rows(m, n, i, j, e) == Rows(m0, n, i, j, e)
    decreases e - i
  {
    if e > i - 1 {
      RowsAgree(m, m0, n, i, j, e - 1);
      BandsAgree(m, m0, n, e - 1, j, j + 2);
    }
  }

  /** The state of the smoothing loop before row `row`: the rows before row-1 are smoothed,
      the others still hold the matrix before smoothing. */
  predicate SmoothedBefore(r: Matrix, m: Matrix, s: Matrix, row: int)
    requires Grid(r) && Grid(m) && Grid(s)
  {
    forall a, b :: 0 <= a < MAX && 0 <= b < MAX ==> r[a][b] == (if a < row - 1 then s[a][b] else m[a][b])
  }

  /** Writing the buffered averages into row a finishes that row. */
  lemma RowFinished(r: Matrix, m: Matrix, n: nat, a: nat, buf: seq<int>)
    requires Grid(r) && Grid(m) && n <= MAX && a < n && |buf| == MAX
    requires SmoothedBefore(r, m, Smoothed(m, n), a + 1)
    requires forall b :: 0 <= b < n ==> buf[b] == Smoothed(m, n)[a][b]
    ensures SmoothedBefore(WriteRow(r, a, buf, n), m, Smoothed(m, n), a + 2)
  {
  }

  /** `applySmoothingFilter`: row by row, the averages of the current row are computed into
      one buffer; only then is the previous row overwritten from the other buffer, which
      then takes the current averages; the last row is written after the loop. The rows an
      average reads are still unchanged when it is computed, so the result is the box
      filter of the matrix before smoothing. */
  method ApplySmoothing(m: Matrix, n: nat) returns (r: Matrix)
    requires Grid(m) && n <= MAX
    ensures r == Smoothed(m, n)
  {
    ghost var s := Smoothed(m, n);
    r := m;
    var previous := seq(MAX, c => 0);
    var row := 0;
    while row < n
      invariant 0 <= row <= n && Grid(r) && |previous| == MAX
      invariant SmoothedBefore(r, m, s, row)
      invariant row > 0 ==> forall b :: 0 <= b < n ==> previous[b] == s[row - 1][b]
    {
      WindowsStillOriginal(r, m, n, row);
      var current := RowAverages(r, n, row);
      if row > 0 {
        RowFinished(r, m, n, row - 1, previous);
        r := WriteRow(r, row - 1, previous, n);
      }
      previous := current;
      row := row + 1;
    }
    if n > 0 {
      RowFinished(r, m, n, n - 1, previous);
      r := WriteRow(r, n - 1, previous, n);
    }
    AllRowsFinished(r, m, n);
  }

  /** Before row `row` is averaged, the rows it reads still hold the matrix before
      smoothing. */
  lemma WindowsStillOriginal(r: Matrix, m: Matrix, n: nat, row: nat)
    requires Grid(r) && Grid(m) && n <= MAX
    requires SmoothedBefore(r, m, Smoothed(m, n), row)
    ensures forall c :: 0 <= c < n ==> Window(r, n, row, c) == Window(m, n, row, c)
  {
    forall c | 0 <= c < n
      ensures Window(r, n, row, c) == Window(m, n, row, c)
    {
      RowsAgree(r, m, n, row, c, row + 2);
    }
  }

  lemma AllRowsFinished(r: Matrix, m: Matrix, n: nat)
    requires Grid(r) && Grid(m) && n <= MAX
    requires SmoothedBefore(r, m, Smoothed(m, n), n + 1)
    ensures r == Smoothed(m, n)
  {
    var s := Smoothed(m, n);
    forall a | 0 <= a < MAX
      ensures r[a] == s[a]
    {
      assert forall b :: 0 <= b < MAX ==> r[a][b] == s[a][b];
    }
  }
}
