/** Trace helpers: locating a time point in a time list (`time_to_index`) and
    resampling the sparser of two (x, y) traces onto the denser one's x-values by
    piecewise linear fits (`interpolate_traces`). */
module Traces {
  import opened Outcomes

  /** `ix` is the first position holding exactly `t`, everything before it being smaller. */
  ghost predicate ExactHit(T: seq<real>, t: real, ix: int) {
    0 <= ix < |T| && T[ix] == t && forall k :: 0 <= k < ix ==> T[k] < t
  }

  /** Everything up to `ix` is smaller than `t` and the next entry is larger:
      `ix` is the position just before `t` (`-1` when the first entry is already larger). */
  ghost predicate JustBefore(T: seq<real>, t: real, ix: int) {
    -1 <= ix && ix + 1 < |T| && T[ix + 1] > t && forall k :: 0 <= k <= ix ==> T[k] < t
  }

  /** `time_to_index`: scans for the first entry not below `t`; answers its
      position when it is `t` itself and the position before it otherwise. When
      every entry is below `t` the scan runs off the end of the list, which the
      Python code reports as an `IndexError`; that is `None` here. */
  method TimeToIndex(T: seq<real>, t: real) returns (r: Option<int>)
    ensures r.None? <==> forall k :: 0 <= k < |T| ==> T[k] < t
    ensures r.Some? ==> ExactHit(T, t, r.value) || JustBefore(T, t, r.value)
    ensures r.Some? ==> (r.value == -1 <==> T[0] > t)
    ensures |T| > 0 && T[0] <= t <= T[|T| - 1] ==> r.Some? && 0 <= r.value < |T| && T[r.value] <= t
  {
    var i := 0;
    while i < |T|
      invariant 0 <= i <= |T|
      invariant forall k :: 0 <= k < i ==> T[k] < t
    {
      if T[i] >= t {
        break;
      }
      i := i + 1;
    }
    if i == |T| {
      return None;
    }
    if T[i] == t {
      r := Some(i);
    } else {
      r := Some(i - 1);
    }
  }

  /** The hit and the position just before are mutually exclusive, so the answer is determined. */
  lemma TimeToIndexUnique(T: seq<real>, t: real, a: int, b: int)
    requires ExactHit(T, t, a) || JustBefore(T, t, a)
    requires ExactHit(T, t, b) || JustBefore(T, t, b)
    ensures a == b
  {
  }

  function Abs(x: real): (y: real)
    ensures y >= 0.0 && (y == x || y == -x)
  {
    if x < 0.0 then -x else x
  }

  /** The value at `x` of the straight line through `(a, b)` and `(c, d)`, computed
      as slope and intercept the way the Python code does; when `a == c` the
      slope is taken to be zero. */
  function Chord(a: real, b: real, c: real, d: real, x: real): (y: real)
    ensures a == c ==> y == b
    ensures x == a ==> y == b
  {
    var slope := if a - c == 0.0 then 0.0 else (b - d) / (a - c);
    var intercept := b - slope * a;
    slope * x + intercept
  }

  /** Through two distinct abscissas the chord is the two-point form of the line:
      the weights of `b` and `d` are the distances of `x` to the other end. */
  lemma ChordTwoPoint(a: real, b: real, c: real, d: real, x: real)
    requires a != c
    ensures Chord(a, b, c, d, x) * (c - a) == b * (c - x) + d * (x - a)
    ensures x == c ==> Chord(a, b, c, d, x) == d
  {
    var slope := (b - d) / (a - c);
    assert slope * (a - c) == b - d;
    var y := Chord(a, b, c, d, x);
    assert y == b + slope * (x - a);
    assert y * (c - a) == b * (c - a) + slope * (x - a) * (c - a);
    assert slope * (x - a) * (c - a) == -(slope * (a - c)) * (x - a);
    assert y * (c - a) == b * (c - a) - (b - d) * (x - a);
  }

  /** Between its two points the chord stays between their values. */
  lemma ChordBetween(a: real, b: real, c: real, d: real, x: real)
    requires a < c && a <= x <= c
    ensures b <= d ==> b <= Chord(a, b, c, d, x) <= d
    ensures d <= b ==> d <= Chord(a, b, c, d, x) <= b
  {
    ChordTwoPoint(a, b, c, d, x);
    var y := Chord(a, b, c, d, x);
    if b <= d {
      Weighted(b, d, c - x, x - a, y * (c - a));
      CancelPositive(b, y, c - a);
      CancelPositive(y, d, c - a);
    } else {
      Weighted(d, b, x - a, c - x, y * (c - a));
      CancelPositive(d, y, c - a);
      CancelPositive(y, b, c - a);
    }
  }

  /** A combination of `p <= q` with non-negative weights lies between `p` and `q` times the total weight. */
  lemma Weighted(p: real, q: real, u: real, v: real, s: real)
    requires p <= q && u >= 0.0 && v >= 0.0 && s == p * u + q * v
    ensures p * (u + v) <= s <= q * (u + v)
  {
    ScaleLe(p, q, v);
    ScaleLe(p, q, u);
    assert p * (u + v) == p * u + p * v;
    assert q * (u + v) == q * u + q * v;
  }

  lemma ScaleLe(p: real, q: real, w: real)
    requires p <= q && w >= 0.0
    ensures p * w <= q * w
  {
    assert q * w - p * w == (q - p) * w;
  }

  lemma CancelPositive(p: real, q: real, w: real)
    requires w > 0.0 && p * w <= q * w
    ensures p <= q
  {
    assert (q - p) * w == q * w - p * w;
    assert (q - p) * w >= 0.0;
  }

  /** Positions `m < n` of `X` hold strictly increasing values. */
  ghost predicate Below(X: seq<real>, m: int, n: int) {
    0 <= m < n < |X| && X[m] < X[n]
  }

  /** Positions `m < n` of `X` hold non-decreasing values. */
  ghost predicate NotAbove(X: seq<real>, m: int, n: int) {
    0 <= m < n < |X| && X[m] <= X[n]
  }

  ghost predicate StrictlyIncreasing(X: seq<real>) {
    forall m, n :: 0 <= m < n < |X| ==> Below(X, m, n)
  }

  ghost predicate NonDecreasing(X: seq<real>) {
    forall m, n :: 0 <= m < n < |X| ==> NotAbove(X, m, n)
  }

  /** `v` is the value at `x` of the chord over the neighbouring points `k` and `k + 1` of the trace `(X, Y)`. */
  ghost predicate ChordAt(X: seq<real>, Y: seq<real>, k: int, x: real, v: real)
    requires |Y| == |X|
  {
    0 <= k < |X| - 1 && v == Chord(X[k], Y[k], X[k + 1], Y[k + 1], x)
  }

  /** `v` is the value at `x` of the chord over some pair of neighbouring points of the trace `(X, Y)`. */
  ghost predicate OnChord(X: seq<real>, Y: seq<real>, x: real, v: real)
    requires |Y| == |X|
  {
    exists k :: ChordAt(X, Y, k, x, v)
  }

  /** `x` lies between the neighbouring grid points `k` and `k + 1`. */
  ghost predicate Encloses(X: seq<real>, k: int, x: real) {
    0 <= k < |X| - 1 && X[k] <= x <= X[k + 1]
  }

  /** As `OnChord`, with the pair of neighbouring points enclosing `x`: `v` is interpolated, not extrapolated. */
  ghost predicate WithinChord(X: seq<real>, Y: seq<real>, x: real, v: real)
    requires |Y| == |X|
  {
    exists k :: Encloses(X, k, x) && ChordAt(X, Y, k, x, v)
  }

  /** The grid point after `m` is strictly closer to `x` than `X[m]`. */
  ghost predicate Closer(X: seq<real>, x: real, m: int) {
    0 <= m < |X| - 1 && Abs(x - X[m + 1]) < Abs(x - X[m])
  }

  /** The inner loop of `interpolate_traces`: from position `j`, move right while
      the next grid point is strictly closer to `x`, never past the last pair. */
  function Walk(X: seq<real>, j: nat, x: real): (k: nat)
    requires |X| >= 2 && j <= |X| - 2
    ensures j <= k <= |X| - 2
    ensures forall m :: j <= m < k ==> Closer(X, x, m)
    ensures k == |X| - 2 || Abs(x - X[k + 1]) >= Abs(x - X[k])
    decreases |X| - j
  {
    if j < |X| - 2 && Abs(x - X[j + 1]) < Abs(x - X[j]) then Walk(X, j + 1, x) else j
  }

  /** The inner loop as written, with its running distance `xDiff`: the distance
      from `x` to the current grid point, lowered to the next point's distance
      at every step. */
  method WalkLoop(X: seq<real>, j0: nat, x: real) returns (j: nat)
    requires |X| >= 2 && j0 <= |X| - 2
    ensures j == Walk(X, j0, x)
  {
    j := j0;
    var xDiff := Abs(x - X[j]);
    while j < |X| - 2 && Abs(x - X[j + 1]) < xDiff
      invariant j0 <= j <= |X| - 2
      invariant xDiff == Abs(x - X[j])
      invariant Walk(X, j, x) == Walk(X, j0, x)
      decreases |X| - j
    {
      xDiff := if xDiff <= Abs(x - X[j + 1]) then xDiff else Abs(x - X[j + 1]);
      j := j + 1;
    }
  }

  /** The pair used at `x` once the walk stopped at `j`, as the program picks it:
      the pair to the left when `x` lies before `X[j]` and `j > 1`, the pair to
      the right otherwise. At `j == 1` it keeps the pair to the right even when
      `x` lies before `X[1]`, where the corrected rule steps left. */
  function BracketAsWritten(X: seq<real>, j: nat, x: real): (k: nat)
    requires |X| >= 2 && j <= |X| - 2
    ensures k + 1 < |X| && (k == j || k + 1 == j)
    ensures k != BracketCorrected(X, j, x) <==> j == 1 && x < X[1]
  {
    if x < X[j] && j > 1 then j - 1 else j
  }

  /** The evidently intended pair: the pair to the left whenever `x` lies before
      `X[j]` and there is one, the pair to the right otherwise. */
  function BracketCorrected(X: seq<real>, j: nat, x: real): (k: nat)
    requires |X| >= 2 && j <= |X| - 2
    ensures k + 1 < |X| && (k == j || k + 1 == j)
  {
    if x < X[j] && j > 0 then j - 1 else j
  }

  /** The rule that picks the pair of grid points: the program's, or the corrected one. */
  datatype PairRule = AsWritten | Corrected

  function Pick(rule: PairRule, X: seq<real>, j: nat, x: real): (k: nat)
    requires |X| >= 2 && j <= |X| - 2
    ensures k + 1 < |X| && (k == j || k + 1 == j)
  {
    match rule
    case AsWritten => BracketAsWritten(X, j, x)
    case Corrected => BracketCorrected(X, j, x)
  }

  /** On the grid `[0, 1, 2]` the walk for `x = 0.9` stops at 1; the pair the program
      uses there is `[1, 2]`, which does not enclose 0.9, and with values
      `[0, 1, 0]` it extrapolates 1.1 where the enclosing pair `[0, 1]` gives 0.9. */
  lemma AsWrittenExtrapolates()
    ensures var X, Y, x := [0.0, 1.0, 2.0], [0.0, 1.0, 0.0], 0.9;
      var j := Walk(X, 0, x);
      var k := BracketAsWritten(X, j, x);
      && j == 1 && k == 1 && !(X[k] <= x)
      && Chord(X[k], Y[k], X[k + 1], Y[k + 1], x) == 1.1
      && BracketCorrected(X, j, x) == 0
      && Chord(X[0], Y[0], X[1], Y[1], x) == 0.9
  {
    var X, x := [0.0, 1.0, 2.0], 0.9;
    assert Abs(x - X[1]) < Abs(x - X[0]);
    assert Walk(X, 1, x) == 1;
  }

  /** The walk only moves right past a point `x` lies beyond. */
  lemma WalkStaysRight(X: seq<real>, j: nat, x: real)
    requires |X| >= 2 && j <= |X| - 2 && StrictlyIncreasing(X)
    requires j == 0 || X[j - 1] < x
    ensures var k := Walk(X, j, x); k == 0 || X[k - 1] < x
  {
    var k := Walk(X, j, x);
    if k > j {
      assert Closer(X, x, k - 1);
      assert Below(X, k - 1, k);
    }
  }

  /** With a strictly increasing grid and `x` inside it, the corrected pair encloses `x`. */
  lemma BracketEncloses(X: seq<real>, j: nat, x: real)
    requires |X| >= 2 && j <= |X| - 2 && StrictlyIncreasing(X)
    requires j == 0 || X[j - 1] < x
    requires X[0] <= x <= X[|X| - 1]
    ensures var k := BracketCorrected(X, Walk(X, j, x), x); X[k] <= x <= X[k + 1]
  {
    var w := Walk(X, j, x);
    WalkStaysRight(X, j, x);
    if x < X[w] && w > 0 {
      assert BracketCorrected(X, w, x) == w - 1 && X[w - 1] < x;
    } else if w < |X| - 2 {
      assert BracketCorrected(X, w, x) == w && X[w] <= x;
      assert Below(X, w, w + 1);
      assert Abs(x - X[w + 1]) >= Abs(x - X[w]);
    } else {
      assert BracketCorrected(X, w, x) == w && X[w] <= x && w + 1 == |X| - 1;
    }
  }

  /** On its own grid the walk from any earlier position lands on `x`'s position
      (or on the last pair when `x` is the last point). */
  lemma {:induction false} WalkOnGrid(X: seq<real>, j: nat, i: nat)
    requires |X| >= 2 && StrictlyIncreasing(X) && i < |X|
    requires j <= |X| - 2 && j <= i
    ensures Walk(X, j, X[i]) == if i <= |X| - 2 then i else |X| - 2
    decreases |X| - j
  {
    if j < |X| - 2 && j < i {
      assert Below(X, j, j + 1);
      if j + 1 < i {
        assert Below(X, j + 1, i);
      }
      assert Abs(X[i] - X[j + 1]) < Abs(X[i] - X[j]);
      WalkOnGrid(X, j + 1, i);
    } else if j < |X| - 2 {
      assert j == i && Below(X, i, i + 1);
    }
  }

  /** Where the walk stands after the first `n` basis points of `X1` were placed
      on the grid `X2`, starting from the first pair. */
  function Position(X1: seq<real>, X2: seq<real>, n: nat): (k: nat)
    requires |X2| >= 2 && n <= |X1|
    ensures k <= |X2| - 2
  {
    if n == 0 then 0 else Walk(X2, Position(X1, X2, n - 1), X1[n - 1])
  }

  /** Reference definition of the resampled value at the basis point `X1[n]`: the
      chord over the pair `rule` picks once the walk has passed that point. */
  function ResampledAt(rule: PairRule, X1: seq<real>, X2: seq<real>, Y2: seq<real>, n: nat): real
    requires |X2| >= 2 && |Y2| == |X2| && n < |X1|
  {
    var k := Pick(rule, X2, Position(X1, X2, n + 1), X1[n]);
    Chord(X2[k], Y2[k], X2[k + 1], Y2[k + 1], X1[n])
  }

  /** The walk for basis point `i` starts where the walk for the previous one stopped. */
  lemma ResampledStep(rule: PairRule, X1: seq<real>, X2: seq<real>, Y2: seq<real>, i: nat)
    requires |X2| >= 2 && |Y2| == |X2| && i < |X1|
    ensures var j := Walk(X2, Position(X1, X2, i), X1[i]);
      var k := Pick(rule, X2, j, X1[i]);
      && j == Position(X1, X2, i + 1)
      && Chord(X2[k], Y2[k], X2[k + 1], Y2[k + 1], X1[i]) == ResampledAt(rule, X1, X2, Y2, i)
  {
  }

  /** The resampled values at every basis point. */
  function ResampledSeq(rule: PairRule, X1: seq<real>, X2: seq<real>, Y2: seq<real>): (R: seq<real>)
    requires |X2| >= 2 && |Y2| == |X2|
    ensures |R| == |X1| && forall n :: 0 <= n < |X1| ==> R[n] == ResampledAt(rule, X1, X2, Y2, n)
  {
    seq(|X1|, n requires 0 <= n < |X1| => ResampledAt(rule, X1, X2, Y2, n))
  }

  lemma ResampledSeqOf(rule: PairRule, X1: seq<real>, X2: seq<real>, Y2: seq<real>, R: seq<real>)
    requires |X2| >= 2 && |Y2| == |X2| && |R| == |X1|
    requires forall n :: 0 <= n < |X1| ==> R[n] == ResampledAt(rule, X1, X2, Y2, n)
    ensures R == ResampledSeq(rule, X1, X2, Y2)
  {
  }

  /** Under either rule every resampled value lies on a chord of the sparser trace. */
  lemma ResampledOnChord(rule: PairRule, X1: seq<real>, X2: seq<real>, Y2: seq<real>, n: nat)
    requires |X2| >= 2 && |Y2| == |X2| && n < |X1|
    ensures OnChord(X2, Y2, X1[n], ResampledAt(rule, X1, X2, Y2, n))
  {
    var k := Pick(rule, X2, Position(X1, X2, n + 1), X1[n]);
    assert ChordAt(X2, Y2, k, X1[n], ResampledAt(rule, X1, X2, Y2, n));
  }

  /** `WalkStaysRight`, for the next point `y` of a non-decreasing basis. */
  lemma StepStaysRight(X: seq<real>, j: nat, x: real, y: real)
    requires |X| >= 2 && j <= |X| - 2 && StrictlyIncreasing(X)
    requires (j == 0 || X[j - 1] < x) && x <= y
    ensures var k := Walk(X, j, x); k == 0 || X[k - 1] < y
  {
    WalkStaysRight(X, j, x);
  }

  /** With a non-decreasing basis and a strictly increasing grid, the walk never
      passes a grid point that the next basis point does not lie beyond. */
  lemma {:induction false} PositionStaysRight(X1: seq<real>, X2: seq<real>, n: nat)
    requires |X2| >= 2 && n < |X1| && NonDecreasing(X1) && StrictlyIncreasing(X2)
    ensures var k := Position(X1, X2, n); k == 0 || X2[k - 1] < X1[n]
  {
    if n > 0 {
      var j := Position(X1, X2, n - 1);
      assert j == 0 || X2[j - 1] < X1[n - 1] by {
        PositionStaysRight(X1, X2, n - 1);
      }
      assert NotAbove(X1, n - 1, n);
      StepStaysRight(X2, j, X1[n - 1], X1[n]);
    }
  }

  /** The two rules give different values at a basis point only where the walk
      stopped at 1 with the point lying before `X2[1]`. */
  lemma RulesDifferOnlyAtOne(X1: seq<real>, X2: seq<real>, Y2: seq<real>, n: nat)
    requires |X2| >= 2 && |Y2| == |X2| && n < |X1|
    ensures ResampledAt(AsWritten, X1, X2, Y2, n) != ResampledAt(Corrected, X1, X2, Y2, n) ==>
      Position(X1, X2, n + 1) == 1 && X1[n] < X2[1]
  {
  }

  /** The corrected rule: with a non-decreasing basis and a strictly increasing
      grid, a basis point inside the grid's range gets an interpolated value, its
      chord enclosing it. */
  lemma ResampledWithin(X1: seq<real>, X2: seq<real>, Y2: seq<real>, n: nat)
    requires |X2| >= 2 && |Y2| == |X2| && n < |X1|
    requires NonDecreasing(X1) && StrictlyIncreasing(X2)
    requires X2[0] <= X1[n] <= X2[|X2| - 1]
    ensures WithinChord(X2, Y2, X1[n], ResampledAt(Corrected, X1, X2, Y2, n))
  {
    PositionStaysRight(X1, X2, n);
    BracketEncloses(X2, Position(X1, X2, n), X1[n]);
    var k := BracketCorrected(X2, Position(X1, X2, n + 1), X1[n]);
    assert Encloses(X2, k, X1[n]) && ChordAt(X2, Y2, k, X1[n], ResampledAt(Corrected, X1, X2, Y2, n));
  }

  /** The program's rule interpolates as well, except at a basis point where the
      walk stopped at 1 and the point lies before `X2[1]`. */
  lemma ResampledWithinAsWritten(X1: seq<real>, X2: seq<real>, Y2: seq<real>, n: nat)
    requires |X2| >= 2 && |Y2| == |X2| && n < |X1|
    requires NonDecreasing(X1) && StrictlyIncreasing(X2)
    requires X2[0] <= X1[n] <= X2[|X2| - 1]
    requires !(Position(X1, X2, n + 1) == 1 && X1[n] < X2[1])
    ensures WithinChord(X2, Y2, X1[n], ResampledAt(AsWritten, X1, X2, Y2, n))
  {
    ResampledWithin(X1, X2, Y2, n);
    RulesDifferOnlyAtOne(X1, X2, Y2, n);
  }

  /** On its own grid the walk always stands at the previous point (or the last pair). */
  lemma {:induction false} PositionOnOwnGrid(X2: seq<real>, n: nat)
    requires |X2| >= 2 && StrictlyIncreasing(X2) && 0 < n <= |X2|
    ensures Position(X2, X2, n) == if n - 1 <= |X2| - 2 then n - 1 else |X2| - 2
  {
    if n == 1 {
      WalkOnGrid(X2, 0, 0);
    } else {
      PositionOnOwnGrid(X2, n - 1);
      WalkOnGrid(X2, n - 2, n - 1);
    }
  }

  /** Under either rule, resampling a trace onto its own strictly increasing grid
      gives back its values: no grid point lies before the point the walk stands on. */
  lemma ResampledOnOwnGrid(rule: PairRule, X2: seq<real>, Y2: seq<real>, n: nat)
    requires |X2| >= 2 && |Y2| == |X2| && StrictlyIncreasing(X2) && n < |X2|
    ensures ResampledAt(rule, X2, X2, Y2, n) == Y2[n]
  {
    PositionOnOwnGrid(X2, n + 1);
    var k := Pick(rule, X2, Position(X2, X2, n + 1), X2[n]);
    if n <= |X2| - 2 {
      assert k == n;
    } else {
      assert Below(X2, n - 1, n);
      assert k == n - 1;
      ChordTwoPoint(X2[k], Y2[k], X2[k + 1], Y2[k + 1], X2[n]);
    }
  }

  /** The loop of `interpolate_traces` over the basis `X1`: the value at each `X1[i]`
      of the chord of `(X2, Y2)` over the pair the program picks around the walk's
      position. A sparser trace with fewer than two points makes the Python code
      fail on its first basis point. */
  method Resample(X1: seq<real>, X2: seq<real>, Y2: seq<real>) returns (r: Option<seq<real>>)
    requires |Y2| == |X2|
    ensures r.None? <==> |X1| > 0 && |X2| < 2
    ensures r.Some? ==> |r.value| == |X1|
    ensures r.Some? && |X2| >= 2 ==> r.value == ResampledSeq(AsWritten, X1, X2, Y2)
  {
    var interpolated: seq<real> := [];
    var j: nat := 0;
    var i := 0;
    while i < |X1|
      invariant 0 <= i <= |X1| && |interpolated| == i
      invariant i > 0 ==> |X2| >= 2
      invariant |X2| >= 2 ==> j == Position(X1, X2, i)
      invariant |X2| >= 2 ==> forall n :: 0 <= n < i ==> interpolated[n] == ResampledAt(AsWritten, X1, X2, Y2, n)
    {
      if |X2| < 2 {
        return None;
      }
      var x1 := X1[i];
      ResampledStep(AsWritten, X1, X2, Y2, i);
      j := WalkLoop(X2, j, x1);
      var k := BracketAsWritten(X2, j, x1);
      var v := Chord(X2[k], Y2[k], X2[k + 1], Y2[k + 1], x1);
      interpolated := interpolated + [v];
      i := i + 1;
    }
    if |X2| >= 2 {
      ResampledSeqOf(AsWritten, X1, X2, Y2, interpolated);
    }
    r := Some(interpolated);
  }

  /** The program extrapolates on sorted traces: resampling grid `[0, 1, 2]` with
      values `[0, 1, 0]` onto the basis `[0, 0.9, 1.5, 2]` gives 1.1 at 0.9, where
      the corrected rule gives 0.9. */
  lemma ResampleExtrapolates()
    ensures var X1, X2, Y2 := [0.0, 0.9, 1.5, 2.0], [0.0, 1.0, 2.0], [0.0, 1.0, 0.0];
      && ResampledSeq(AsWritten, X1, X2, Y2)[1] == 1.1
      && ResampledSeq(Corrected, X1, X2, Y2)[1] == 0.9
  {
    var X1, X2 := [0.0, 0.9, 1.5, 2.0], [0.0, 1.0, 2.0];
    assert Walk(X2, 0, 0.0) == 0;
    assert Position(X1, X2, 1) == 0;
    assert Abs(0.9 - X2[1]) < Abs(0.9 - X2[0]);
    assert Walk(X2, 1, 0.9) == 1;
    assert Position(X1, X2, 2) == 1;
  }

  /** Under either rule every value of a resampling lies on a chord of the sparser trace. */
  lemma ResampleOnChord(rule: PairRule, X1: seq<real>, X2: seq<real>, Y2: seq<real>)
    requires |X2| >= 2 && |Y2| == |X2|
    ensures var R := ResampledSeq(rule, X1, X2, Y2); forall n :: 0 <= n < |X1| ==> OnChord(X2, Y2, X1[n], R[n])
  {
    var R := ResampledSeq(rule, X1, X2, Y2);
    forall n | 0 <= n < |X1| ensures OnChord(X2, Y2, X1[n], R[n]) {
      ResampledOnChord(rule, X1, X2, Y2, n);
    }
  }

  /** The corrected rule: for sorted traces, every value of a resampling inside
      the grid's range is interpolated. */
  lemma ResampleWithin(X1: seq<real>, X2: seq<real>, Y2: seq<real>)
    requires |X2| >= 2 && |Y2| == |X2|
    requires NonDecreasing(X1) && StrictlyIncreasing(X2)
    ensures var R := ResampledSeq(Corrected, X1, X2, Y2);
      forall n :: 0 <= n < |X1| && X2[0] <= X1[n] <= X2[|X2| - 1] ==> WithinChord(X2, Y2, X1[n], R[n])
  {
    var R := ResampledSeq(Corrected, X1, X2, Y2);
    forall n | 0 <= n < |X1| && X2[0] <= X1[n] <= X2[|X2| - 1] ensures WithinChord(X2, Y2, X1[n], R[n]) {
      ResampledWithin(X1, X2, Y2, n);
    }
  }

  /** The program's rule: for sorted traces, every value inside the grid's range
      is interpolated except where the walk stopped at 1 before `X2[1]`. */
  lemma ResampleWithinAsWritten(X1: seq<real>, X2: seq<real>, Y2: seq<real>)
    requires |X2| >= 2 && |Y2| == |X2|
    requires NonDecreasing(X1) && StrictlyIncreasing(X2)
    ensures var R := ResampledSeq(AsWritten, X1, X2, Y2);
      forall n :: 0 <= n < |X1| && X2[0] <= X1[n] <= X2[|X2| - 1] && !(Position(X1, X2, n + 1) == 1 && X1[n] < X2[1]) ==>
        WithinChord(X2, Y2, X1[n], R[n])
  {
    var R := ResampledSeq(AsWritten, X1, X2, Y2);
    forall n | 0 <= n < |X1| && X2[0] <= X1[n] <= X2[|X2| - 1] && !(Position(X1, X2, n + 1) == 1 && X1[n] < X2[1])
      ensures WithinChord(X2, Y2, X1[n], R[n])
    {
      ResampledWithinAsWritten(X1, X2, Y2, n);
    }
  }

  /** Under either rule, resampling onto the trace's own strictly increasing grid gives back its values. */
  lemma ResampleOwnGrid(rule: PairRule, X2: seq<real>, Y2: seq<real>)
    requires |X2| >= 2 && |Y2| == |X2| && StrictlyIncreasing(X2)
    ensures ResampledSeq(rule, X2, X2, Y2) == Y2
  {
    var R := ResampledSeq(rule, X2, X2, Y2);
    forall n | 0 <= n < |X2| ensures R[n] == Y2[n] {
      ResampledOnOwnGrid(rule, X2, Y2, n);
    }
  }

  /** The four lists `interpolate_traces` returns: both traces over the basis x-values. */
  datatype Matched = Matched(x1: seq<real>, y1: seq<real>, x2: seq<real>, y2: seq<real>)

  /** The second trace is the basis unless the first has strictly more points. */
  predicate SecondIsBasis(iX1: seq<real>, iX2: seq<real>) {
    !(|iX1| > |iX2|)
  }

  /** `interpolate_traces`: the denser trace (the second on a tie) is the basis;
      the other trace is resampled onto its x-values; both traces are returned
      over the basis, each in the caller's order. */
  method InterpolateTraces(iX1: seq<real>, iY1: seq<real>, iX2: seq<real>, iY2: seq<real>) returns (r: Option<Matched>)
    requires |iY1| == |iX1| && |iY2| == |iX2|
    ensures SecondIsBasis(iX1, iX2) ==> (r.None? <==> |iX2| > 0 && |iX1| < 2)
    ensures !SecondIsBasis(iX1, iX2) ==> (r.None? <==> |iX2| < 2)
    ensures r.Some? && SecondIsBasis(iX1, iX2) ==>
      && r.value.x1 == iX2 && r.value.x2 == iX2 && r.value.y2 == iY2
      && r.value.y1 == (if |iX1| >= 2 then ResampledSeq(AsWritten, iX2, iX1, iY1) else [])
    ensures r.Some? && !SecondIsBasis(iX1, iX2) ==>
      && r.value.x1 == iX1 && r.value.x2 == iX1 && r.value.y1 == iY1
      && r.value.y2 == ResampledSeq(AsWritten, iX1, iX2, iY2)
    ensures iX1 == iX2 && |iX1| >= 2 && StrictlyIncreasing(iX1) ==> r == Some(Matched(iX1, iY1, iX1, iY2))
  {
    var swap := SecondIsBasis(iX1, iX2);
    var X1, Y1, X2, Y2 := iX2, iY2, iX1, iY1;
    if !swap {
      X1, Y1, X2, Y2 := iX1, iY1, iX2, iY2;
    }
    var interpolated := Resample(X1, X2, Y2);
    if interpolated.None? {
      return None;
    }
    if X1 == X2 && |X2| >= 2 && StrictlyIncreasing(X2) {
      ResampleOwnGrid(AsWritten, X2, Y2);
    }
    if swap {
      r := Some(Matched(X1, interpolated.value, X1, Y1));
    } else {
      r := Some(Matched(X1, Y1, X1, interpolated.value));
    }
  }
}
