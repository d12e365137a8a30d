/** The 0/1 program that the time-slot optimizer hands to its solver, as pure
    values: the preference matrix, the per-slot score, the starts that cover a
    slot, the constraints and what they mean for a 0/1 assignment, the readout
    of a solution, and the splitting of every slot into two. */
module TimeSlots {

  /** One row per person, one column per time slot. */
  type Matrix = seq<seq<real>>

  // ---------------------------------------------------------------------------
  // Shape of the matrix
  // ---------------------------------------------------------------------------

  /** Every row has `width` entries. */
  predicate Rectangular(m: Matrix, width: nat) {
    forall i :: 0 <= i < |m| ==> |m[i]| == width
  }

  /** A matrix with a two-dimensional shape: at least one person, rows of equal length. */
  predicate WellShaped(m: Matrix) {
    |m| >= 1 && Rectangular(m, |m[0]|)
  }

  /** Every row reaches column `j`. */
  predicate HasColumn(m: Matrix, j: nat) {
    forall i :: 0 <= i < |m| ==> j < |m[i]|
  }

  /** The matrix with the single cell (r, c) overwritten by `v`. */
  function SetEntry(m: Matrix, r: nat, c: nat, v: real): (e: Matrix)
    requires r < |m| && c < |m[r]|
    ensures |e| == |m| && forall i :: 0 <= i < |m| ==> |e[i]| == |m[i]|
    ensures e[r][c] == v
    ensures forall i, j :: 0 <= i < |m| && 0 <= j < |m[i]| && (i, j) != (r, c) ==> e[i][j] == m[i][j]
  {
    m[r := m[r][c := v]]
  }

  // ---------------------------------------------------------------------------
  // Per-slot score
  // ---------------------------------------------------------------------------

  /** The coverage weight 1 - 1/n. */
  function CoverageWeight(people: nat): (w: real)
    requires people >= 1
    ensures 0.0 <= w < 1.0
  {
    1.0 - 1.0 / (people as real)
  }

  /** The preference weight; with the coverage weight it splits 1 between them. */
  function PreferenceWeight(people: nat): (w: real)
    requires people >= 1
    ensures 0.0 < w <= 1.0
    ensures 0.0 <= CoverageWeight(people) < 1.0
    ensures CoverageWeight(people) + w == 1.0
  {
    1.0 / (people as real)
  }

  /** 1 when an entry counts the person as able to attend. */
  function Attends(x: real): (a: nat)
    ensures a <= 1 && (a == 1 <==> x > 0.0)
  {
    if x > 0.0 then 1 else 0
  }

  /** Number of the first `n` people whose entry for slot `j` is strictly positive. */
  function Attending(m: Matrix, j: nat, n: nat): (a: nat)
    requires HasColumn(m, j) && n <= |m|
    ensures a <= n
  {
    if n == 0 then 0 else Attending(m, j, n - 1) + Attends(m[n - 1][j])
  }

  /** Sum of the entries of the first `n` people for slot `j`. */
  function PrefSum(m: Matrix, j: nat, n: nat): (p: real)
    requires HasColumn(m, j) && n <= |m|
    ensures (forall i :: 0 <= i < n ==> 0.0 <= m[i][j]) ==> 0.0 <= p
  {
    if n == 0 then 0.0 else PrefSum(m, j, n - 1) + m[n - 1][j]
  }

  /** The objective coefficient of slot `j`. */
  function Score(m: Matrix, j: nat): real
    requires |m| >= 1 && HasColumn(m, j)
  {
    Blend(|m|, Attending(m, j, |m|) as real, PrefSum(m, j, |m|))
  }

  /** The coverage-weighted count `a` plus the preference-weighted sum `p`. */
  function Blend(people: nat, a: real, p: real): real
    requires people >= 1
  {
    CoverageWeight(people) * a + PreferenceWeight(people) * p
  }

  lemma {:induction false} AttendingCountsPositive(m: Matrix, j: nat, n: nat)
    requires HasColumn(m, j) && n <= |m|
    ensures Attending(m, j, n) == |set i | 0 <= i < n && m[i][j] > 0.0|
    ensures 0 <= Attending(m, j, n) <= n
  {
    if n > 0 {
      AttendingCountsPositive(m, j, n - 1);
      var before := set i | 0 <= i < n - 1 && m[i][j] > 0.0;
      var after := set i | 0 <= i < n && m[i][j] > 0.0;
      if m[n - 1][j] > 0.0 {
        assert after == before + {n - 1};
      } else {
        assert after == before;
      }
    }
  }

  lemma {:induction false} PrefSumBounds(m: Matrix, j: nat, n: nat)
    requires HasColumn(m, j) && n <= |m|
    requires forall i :: 0 <= i < |m| ==> 0.0 <= m[i][j]
    ensures 0.0 <= PrefSum(m, j, n)
    ensures forall i :: 0 <= i < n ==> m[i][j] <= PrefSum(m, j, n)
    ensures (forall i :: 0 <= i < |m| ==> m[i][j] <= 1.0) ==> PrefSum(m, j, n) <= n as real
  {
    if n > 0 {
      PrefSumBounds(m, j, n - 1);
    }
  }

  /** With entries in [0, 1], a slot scores between 0 and the number of people. */
  lemma ScoreBounds(m: Matrix, j: nat)
    requires |m| >= 1 && HasColumn(m, j)
    requires forall i :: 0 <= i < |m| ==> 0.0 <= m[i][j] <= 1.0
    ensures 0.0 <= Score(m, j) <= |m| as real
  {
    AttendingCountsPositive(m, j, |m|);
    PrefSumBounds(m, j, |m|);
    BlendBounds(|m|, Attending(m, j, |m|) as real, PrefSum(m, j, |m|));
  }

  lemma MulMonotone(x: real, y: real, z: real)
    requires 0.0 <= x && y <= z
    ensures x * y <= x * z
  {
  }

  /** The weighted sum grows with both of its parts. */
  lemma BlendMonotone(people: nat, a: real, p: real, a': real, p': real)
    requires people >= 1 && a <= a' && p <= p'
    ensures Blend(people, a, p) <= Blend(people, a', p')
  {
    MulMonotone(CoverageWeight(people), a, a');
    MulMonotone(PreferenceWeight(people), p, p');
  }

  /** Parts between 0 and the number of people give a weighted sum in the same range. */
  lemma BlendBounds(people: nat, a: real, p: real)
    requires people >= 1
    requires 0.0 <= a <= people as real && 0.0 <= p <= people as real
    ensures 0.0 <= Blend(people, a, p) <= people as real
  {
    var n := people as real;
    BlendMonotone(people, 0.0, 0.0, a, p);
    BlendMonotone(people, a, p, n, n);
    assert Blend(people, n, n) == (CoverageWeight(people) + PreferenceWeight(people)) * n;
  }

  /** A positive preference sum makes the weighted sum positive. */
  lemma BlendPositive(people: nat, a: real, p: real)
    requires people >= 1 && 0.0 <= a && 0.0 < p
    ensures 0.0 < Blend(people, a, p)
  {
    MulMonotone(CoverageWeight(people), 0.0, a);
    assert 0.0 < PreferenceWeight(people) * p;
  }

  /** A slot that someone rates positively, and nobody negatively, scores above 0. */
  lemma ScorePositive(m: Matrix, j: nat, r: nat)
    requires |m| >= 1 && HasColumn(m, j) && r < |m|
    requires forall i :: 0 <= i < |m| ==> 0.0 <= m[i][j]
    requires m[r][j] > 0.0
    ensures Score(m, j) > 0.0
  {
    PrefSumBounds(m, j, |m|);
    assert 0.0 < m[r][j] <= PrefSum(m, j, |m|);
    BlendPositive(|m|, Attending(m, j, |m|) as real, PrefSum(m, j, |m|));
  }

  lemma {:induction false} ChangeEntryColumn(m: Matrix, r: nat, c: nat, v: real, j: nat, n: nat)
    requires r < |m| && c < |m[r]| && HasColumn(m, j) && n <= |m|
    ensures HasColumn(SetEntry(m, r, c, v), j)
    ensures j != c || n <= r ==>
      Attending(SetEntry(m, r, c, v), j, n) == Attending(m, j, n) &&
      PrefSum(SetEntry(m, r, c, v), j, n) == PrefSum(m, j, n)
    ensures j == c && r < n ==>
      Attending(SetEntry(m, r, c, v), j, n) == Attending(m, j, n) - Attends(m[r][c]) + Attends(v) &&
      PrefSum(SetEntry(m, r, c, v), j, n) == PrefSum(m, j, n) - m[r][c] + v
  {
    if n > 0 {
      ChangeEntryColumn(m, r, c, v, j, n - 1);
    }
  }

  /** Overwriting cell (r, c) leaves the score of every other slot as it was. */
  lemma ChangeEntryOtherSlots(m: Matrix, r: nat, c: nat, v: real)
    requires WellShaped(m) && r < |m| && c < |m[0]|
    ensures WellShaped(SetEntry(m, r, c, v)) && |SetEntry(m, r, c, v)[0]| == |m[0]|
    ensures forall j :: 0 <= j < |m[0]| && j != c ==> Score(SetEntry(m, r, c, v), j) == Score(m, j)
  {
    forall j | 0 <= j < |m[0]| && j != c
      ensures HasColumn(SetEntry(m, r, c, v), j) && Score(SetEntry(m, r, c, v), j) == Score(m, j)
    {
      ChangeEntryColumn(m, r, c, v, j, |m|);
    }
  }

  /** Overwriting cell (r, c) moves the score of slot c in the same direction as the cell's value. */
  lemma ChangeEntryScore(m: Matrix, r: nat, c: nat, v: real)
    requires WellShaped(m) && r < |m| && c < |m[0]|
    ensures HasColumn(SetEntry(m, r, c, v), c)
    ensures m[r][c] <= v ==> Score(m, c) <= Score(SetEntry(m, r, c, v), c)
    ensures v <= m[r][c] ==> Score(SetEntry(m, r, c, v), c) <= Score(m, c)
  {
    var m' := SetEntry(m, r, c, v);
    ChangeEntryColumn(m, r, c, v, c, |m|);
    if m[r][c] <= v {
      assert Attends(m[r][c]) <= Attends(v);
      ScoreMonotone(m, c, m', c);
    }
    if v <= m[r][c] {
      assert Attends(v) <= Attends(m[r][c]);
      ScoreMonotone(m', c, m, c);
    }
  }

  /** A slot whose count of attending people and sum of preferences both do not
      decrease does not score less. */
  lemma ScoreMonotone(m: Matrix, j: nat, m': Matrix, j': nat)
    requires |m| >= 1 && |m'| == |m| && HasColumn(m, j) && HasColumn(m', j')
    requires Attending(m, j, |m|) <= Attending(m', j', |m'|) && PrefSum(m, j, |m|) <= PrefSum(m', j', |m'|)
    ensures Score(m, j) <= Score(m', j')
  {
    BlendMonotone(|m|, Attending(m, j, |m|) as real, PrefSum(m, j, |m|), Attending(m', j', |m'|) as real, PrefSum(m', j', |m'|));
  }

  // ---------------------------------------------------------------------------
  // Resolution doubling
  // ---------------------------------------------------------------------------

  /** A row in which every entry is repeated twice in place. */
  function SplitRow(row: seq<real>): (r: seq<real>)
    ensures |r| == 2 * |row|
  {
    if row == [] then [] else SplitRow(row[..|row| - 1]) + [row[|row| - 1], row[|row| - 1]]
  }

  /** Output column p carries input column p / 2, so columns 2j and 2j+1 both carry column j. */
  lemma {:induction false} SplitRowAt(row: seq<real>)
    ensures forall p :: 0 <= p < |SplitRow(row)| ==> SplitRow(row)[p] == row[p / 2]
  {
    if row != [] {
      var init := row[..|row| - 1];
      SplitRowAt(init);
      forall p | 0 <= p < |SplitRow(row)|
        ensures SplitRow(row)[p] == row[p / 2]
      {
        if p < 2 * |init| {
          assert SplitRow(row)[p] == SplitRow(init)[p];
        }
      }
    }
  }

  /** Every row of the matrix split. */
  function Split(m: Matrix): (r: Matrix)
    ensures |r| == |m|
    ensures forall i :: 0 <= i < |m| ==> r[i] == SplitRow(m[i])
  {
    if m == [] then [] else Split(m[..|m| - 1]) + [SplitRow(m[|m| - 1])]
  }

  lemma SplitShape(m: Matrix)
    requires WellShaped(m)
    ensures WellShaped(Split(m)) && |Split(m)| == |m| && |Split(m)[0]| == 2 * |m[0]|
  {
  }

  lemma SplitCellAt(m: Matrix, i: nat, p: nat)
    requires WellShaped(m) && i < |m| && p < 2 * |m[0]|
    ensures p < |Split(m)[i]| && Split(m)[i][p] == m[i][p / 2]
  {
    SplitRowAt(m[i]);
  }

  /** Splitting keeps the people, doubles the slots and duplicates every column. */
  lemma SplitCells(m: Matrix)
    requires WellShaped(m)
    ensures forall i, p :: 0 <= i < |m| && 0 <= p < 2 * |m[0]| ==>
      p < |Split(m)[i]| && Split(m)[i][p] == m[i][p / 2]
  {
    SplitShape(m);
    forall i, p | 0 <= i < |m| && 0 <= p < 2 * |m[0]|
      ensures p < |Split(m)[i]| && Split(m)[i][p] == m[i][p / 2]
    {
      SplitCellAt(m, i, p);
    }
  }

  /** Splitting twice keeps the people, quadruples the slots and repeats every column four times. */
  lemma SplitTwice(m: Matrix)
    requires WellShaped(m)
    ensures WellShaped(Split(Split(m))) && |Split(Split(m))| == |m|
    ensures |Split(Split(m))[0]| == 4 * |m[0]|
    ensures forall i, p :: 0 <= i < |m| && 0 <= p < 4 * |m[0]| ==> Split(Split(m))[i][p] == m[i][p / 4]
  {
    var once := Split(m);
    SplitShape(m);
    SplitShape(once);
    forall i, p | 0 <= i < |m| && 0 <= p < 4 * |m[0]|
      ensures Split(once)[i][p] == m[i][p / 4]
    {
      SplitCellAt(once, i, p);
      SplitCellAt(m, i, p / 2);
      assert p / 2 / 2 == p / 4;
    }
  }

  lemma {:induction false} SplitColumn(m: Matrix, p: nat, n: nat)
    requires WellShaped(m) && p < 2 * |m[0]| && n <= |m|
    ensures HasColumn(Split(m), p) && HasColumn(m, p / 2)
    ensures Attending(Split(m), p, n) == Attending(m, p / 2, n)
    ensures PrefSum(Split(m), p, n) == PrefSum(m, p / 2, n)
  {
    SplitCells(m);
    if n > 0 {
      SplitColumn(m, p, n - 1);
    }
  }

  /** Each of the two halves of a split slot scores what the whole slot scored. */
  lemma SplitScore(m: Matrix, p: nat)
    requires WellShaped(m) && p < 2 * |m[0]|
    ensures HasColumn(Split(m), p) && Score(Split(m), p) == Score(m, p / 2)
  {
    SplitColumn(m, p, |m|);
    ScoreMonotone(Split(m), p, m, p / 2);
    ScoreMonotone(m, p / 2, Split(m), p);
  }

  // ---------------------------------------------------------------------------
  // Starts and the constraints of the program
  // ---------------------------------------------------------------------------

  predicate StrictlyIncreasing(r: seq<int>) {
    forall a, b :: 0 <= a < b < |r| ==> r[a] < r[b]
  }

  lemma AppendIncreasing(r: seq<int>, x: int)
    requires StrictlyIncreasing(r)
    requires forall t :: t in r ==> t < x
    ensures StrictlyIncreasing(r + [x])
  {
    forall a, b | 0 <= a < b < |r| + 1
      ensures (r + [x])[a] < (r + [x])[b]
    {
      assert r[a] in r;
    }
  }

  function NonNeg(x: int): nat {
    if x > 0 then x else 0
  }

  function Max(a: int, b: int): int { if a < b then b else a }

  function Min(a: int, b: int): int { if a < b then a else b }

  /** The number of start variables, range(slots - k + 1), empty when that bound is not positive. */
  function StartCount(slots: nat, k: nat): nat {
    NonNeg(slots - k + 1)
  }

  /** There is no start exactly when the block is longer than the slots; otherwise
      the last start, slots - k, leaves its block ending at the last slot. */
  lemma StartCountEmpty(slots: nat, k: nat)
    ensures StartCount(slots, k) == 0 <==> slots < k
    ensures k <= slots ==> StartCount(slots, k) + k == slots + 1
  {
  }

  /** The starts among 0 .. n-1 whose block [start, start + k) holds slot j, in increasing order. */
  function CoveringStarts(j: nat, k: nat, n: nat): (r: seq<nat>)
    ensures forall t :: t in r <==> 0 <= t < n && t <= j < t + k
    ensures StrictlyIncreasing(r)
  {
    if n == 0 then []
    else
      var before := CoveringStarts(j, k, n - 1);
      if n - 1 <= j < n - 1 + k then AppendIncreasing(before, n - 1); before + [n - 1] else before
  }

  /** The covering starts of slot j are the interval [max(0, j-k+1), min(j, slots-k)],
      which is never empty when 1 <= k <= slots. */
  lemma CoveringStartsInterval(slots: nat, k: nat, j: nat)
    requires 1 <= k && j < slots
    ensures forall t :: t in CoveringStarts(j, k, StartCount(slots, k)) <==> Max(0, j - k + 1) <= t <= Min(j, slots - k)
    ensures k <= slots ==> CoveringStarts(j, k, StartCount(slots, k)) != []
  {
    if k <= slots {
      assert Max(0, j - k + 1) in CoveringStarts(j, k, StartCount(slots, k));
    }
  }

  datatype Constraint =
    | ChooseStart(count: int)            // the start variables s[0 .. count) sum to 1
    | Link(slot: nat, starts: seq<nat>)  // y[slot] is at most the sum of the listed start variables
    | ZeroOut(slot: nat)                 // y[slot] is 0

  /** The constraint the program adds for slot j. */
  function SlotConstraint(j: nat, slots: nat, k: nat): (c: Constraint)
    ensures !c.ChooseStart? && c.slot == j
    ensures c.Link? ==> c.starts != []
  {
    var covering := CoveringStarts(j, k, StartCount(slots, k));
    if covering != [] then Link(j, covering) else ZeroOut(j)
  }

  /** The constraints for slots 0 .. n-1, in slot order. */
  function SlotConstraints(slots: nat, k: nat, n: nat): (r: seq<Constraint>)
    ensures |r| == n
    ensures forall j :: 0 <= j < n ==> r[j] == SlotConstraint(j, slots, k)
  {
    if n == 0 then [] else SlotConstraints(slots, k, n - 1) + [SlotConstraint(n - 1, slots, k)]
  }

  /** All constraints of the program, in the order they are added. */
  function ModelConstraints(slots: nat, k: nat): seq<Constraint> {
    [ChooseStart(slots - k + 1)] + SlotConstraints(slots, k, slots)
  }

  /** The definition of ModelConstraints read by position: the start
      constraint first, then one constraint per slot, in slot order. */
  lemma ModelConstraintsLayout(slots: nat, k: nat)
    ensures |ModelConstraints(slots, k)| == slots + 1
    ensures ModelConstraints(slots, k)[0] == ChooseStart(slots - k + 1)
    ensures forall j :: 0 <= j < slots ==> ModelConstraints(slots, k)[1 + j] == SlotConstraint(j, slots, k)
  {
  }

  /** A slot is forced to 0 exactly when the program has no start at all. */
  lemma ZeroOutIffNoStarts(slots: nat, k: nat, j: nat)
    requires 1 <= k && j < slots
    ensures SlotConstraint(j, slots, k).ZeroOut? <==> StartCount(slots, k) == 0
  {
    CoveringStartsInterval(slots, k, j);
  }

  // ---------------------------------------------------------------------------
  // Meaning of the constraints over 0/1 assignments
  // ---------------------------------------------------------------------------

  predicate IsBinary(v: seq<int>) {
    forall i :: 0 <= i < |v| ==> v[i] == 0 || v[i] == 1
  }

  function Sum(v: seq<int>): int {
    if v == [] then 0 else Sum(v[..|v| - 1]) + v[|v| - 1]
  }

  /** Sum of the variables of `s` at the listed positions. */
  function SumOver(s: seq<int>, starts: seq<nat>): int
    requires forall q :: 0 <= q < |starts| ==> starts[q] < |s|
  {
    if starts == [] then 0 else s[starts[0]] + SumOver(s, starts[1..])
  }

  /** A 0/1 vector sums to at least 1 over the listed positions only when one of them is 1. */
  lemma {:induction false} SumOverPositive(s: seq<int>, starts: seq<nat>)
    requires forall q :: 0 <= q < |starts| ==> starts[q] < |s|
    ensures IsBinary(s) && SumOver(s, starts) >= 1 ==> exists q :: 0 <= q < |starts| && s[starts[q]] == 1
  {
    if starts != [] && IsBinary(s) && SumOver(s, starts) >= 1 && s[starts[0]] != 1 {
      SumOverPositive(s, starts[1..]);
      var q :| 0 <= q < |starts[1..]| && s[starts[1..][q]] == 1;
      assert s[starts[q + 1]] == 1;
    }
  }

  /** What one constraint demands of an assignment. */
  predicate Holds(c: Constraint, y: seq<int>, s: seq<int>) {
    match c
    case ChooseStart(count) => |s| == NonNeg(count) && Sum(s) == 1
    case Link(j, starts) => j < |y| && (forall q :: 0 <= q < |starts| ==> starts[q] < |s|) && y[j] <= SumOver(s, starts)
    case ZeroOut(j) => j < |y| && y[j] == 0
  }

  /** Under a link that holds, a selected slot has one of its listed starts chosen. */
  lemma LinkNeedsStart(j: nat, starts: seq<nat>, y: seq<int>, s: seq<int>)
    requires Holds(Link(j, starts), y, s) && IsBinary(s) && y[j] == 1
    ensures exists q :: 0 <= q < |starts| && s[starts[q]] == 1
  {
    SumOverPositive(s, starts);
  }

  /** Every constraint of the list holds. */
  predicate Satisfies(cs: seq<Constraint>, y: seq<int>, s: seq<int>)
  {
    forall c :: c in cs ==> Holds(c, y, s)
  }

  /** The 0/1 vector of length n with a single 1, at position i (all 0 when i >= n). */
  function Indicator(n: nat, i: nat): (r: seq<int>)
    ensures |r| == n && IsBinary(r)
  {
    seq(n, t => if t == i then 1 else 0)
  }

  /** Every selected slot lies in the block [i, i + k). */
  predicate InWindow(y: seq<int>, i: int, k: nat) {
    forall j :: 0 <= j < |y| && y[j] == 1 ==> i <= j < i + k
  }

  /** Every listed slot lies in the block [i, i + k). */
  predicate WithinBlock(r: seq<nat>, i: int, k: nat) {
    forall j :: j in r ==> i <= j < i + k
  }

  /** The 0/1 vector of length n that selects the whole block [i, i + k). */
  function Window(n: nat, i: nat, k: nat): (w: seq<int>)
    ensures |w| == n && IsBinary(w) && InWindow(w, i, k)
  {
    seq(n, j => if i <= j < i + k then 1 else 0)
  }

  lemma {:induction false} SumIndicator(n: nat, i: nat)
    ensures Sum(Indicator(n, i)) == if i < n then 1 else 0
  {
    if n > 0 {
      SumIndicator(n - 1, i);
      assert Indicator(n, i)[..n - 1] == Indicator(n - 1, i);
    }
  }

  lemma {:induction false} BinarySum(v: seq<int>)
    requires IsBinary(v)
    ensures 0 <= Sum(v) <= |v|
    ensures Sum(v) == 0 ==> forall t :: 0 <= t < |v| ==> v[t] == 0
  {
    if v != [] {
      BinarySum(v[..|v| - 1]);
    }
  }

  lemma {:induction false} OneHot(s: seq<int>) returns (i: nat)
    requires IsBinary(s) && Sum(s) == 1
    ensures i < |s| && s == Indicator(|s|, i)
  {
    var n := |s|;
    var init := s[..n - 1];
    assert s == init + [s[n - 1]];
    BinarySum(init);
    if s[n - 1] == 1 {
      i := n - 1;
    } else {
      i := OneHot(init);
      assert init == Indicator(n - 1, i);
    }
    assert forall t :: 0 <= t < n ==> s[t] == Indicator(n, i)[t];
  }

  /** A 0/1 vector sums to 1 exactly when it has a single 1. */
  lemma ExactlyOneStart(s: seq<int>)
    requires IsBinary(s)
    ensures Sum(s) == 1 <==> exists i :: 0 <= i < |s| && s == Indicator(|s|, i)
  {
    if Sum(s) == 1 {
      var i := OneHot(s);
    }
    if exists i :: 0 <= i < |s| && s == Indicator(|s|, i) {
      var i :| 0 <= i < |s| && s == Indicator(|s|, i);
      SumIndicator(|s|, i);
    }
  }

  lemma {:induction false} SumOverIndicator(n: nat, i: nat, starts: seq<nat>)
    requires forall q :: 0 <= q < |starts| ==> starts[q] < n
    requires StrictlyIncreasing(starts)
    ensures SumOver(Indicator(n, i), starts) == if i in starts then 1 else 0
  {
    if starts != [] {
      var rest := starts[1..];
      SumOverIndicator(n, i, rest);
      assert starts == [starts[0]] + rest;
      if i in rest {
        var q :| 0 <= q < |rest| && rest[q] == i;
        assert starts[0] < starts[q + 1];
      }
    }
  }

  /** With the single start i chosen, the constraint of slot j holds exactly when
      selecting slot j keeps it inside [i, i + k). */
  lemma SlotConstraintWithStart(slots: nat, k: nat, i: nat, j: nat, y: seq<int>)
    requires 1 <= k && |y| == slots && IsBinary(y) && i < StartCount(slots, k) && j < slots
    ensures Holds(SlotConstraint(j, slots, k), y, Indicator(StartCount(slots, k), i))
      <==> (y[j] == 1 ==> i <= j < i + k)
  {
    var n := StartCount(slots, k);
    var covering := CoveringStarts(j, k, n);
    CoveringStartsInterval(slots, k, j);
    forall q | 0 <= q < |covering|
      ensures covering[q] < n
    {
      assert covering[q] in covering;
    }
    SumOverIndicator(n, i, covering);
  }

  /** A feasible 0/1 assignment chooses one start and keeps to its block. */
  lemma FeasibleIsInWindow(slots: nat, k: nat, y: seq<int>, s: seq<int>) returns (i: nat)
    requires 1 <= k && |y| == slots && |s| == StartCount(slots, k) && IsBinary(y) && IsBinary(s)
    requires Satisfies(ModelConstraints(slots, k), y, s)
    ensures i < |s| && s == Indicator(|s|, i) && InWindow(y, i, k)
  {
    ConstraintsOfFeasible(slots, k, y, s);
    i := OneHot(s);
    forall j | 0 <= j < slots && y[j] == 1
      ensures i <= j < i + k
    {
      SlotConstraintWithStart(slots, k, i, j, y);
    }
  }

  lemma ConstraintsOfFeasible(slots: nat, k: nat, y: seq<int>, s: seq<int>)
    requires Satisfies(ModelConstraints(slots, k), y, s)
    ensures Sum(s) == 1
    ensures forall j :: 0 <= j < slots ==> Holds(SlotConstraint(j, slots, k), y, s)
  {
    var cs := ModelConstraints(slots, k);
    assert Holds(cs[0], y, s);
    forall j | 0 <= j < slots
      ensures Holds(SlotConstraint(j, slots, k), y, s)
    {
      assert cs[1 + j] == SlotConstraint(j, slots, k);
      assert cs[1 + j] in cs;
    }
  }

  /** An assignment that chooses one start and keeps to its block is feasible. */
  lemma InWindowIsFeasible(slots: nat, k: nat, y: seq<int>, s: seq<int>, i: nat)
    requires 1 <= k && |y| == slots && |s| == StartCount(slots, k) && IsBinary(y)
    requires i < |s| && s == Indicator(|s|, i) && InWindow(y, i, k)
    ensures Satisfies(ModelConstraints(slots, k), y, s)
  {
    var cs := ModelConstraints(slots, k);
    assert s == Indicator(StartCount(slots, k), i);
    forall q | 0 <= q < |cs|
      ensures Holds(cs[q], y, s)
    {
      if q == 0 {
        SumIndicator(|s|, i);
      } else {
        SlotHoldsInWindow(slots, k, i, q - 1, y);
        assert cs[q] == SlotConstraints(slots, k, slots)[q - 1];
      }
    }
    SatisfiesByIndex(cs, y, s);
  }

  lemma SlotHoldsInWindow(slots: nat, k: nat, i: nat, j: nat, y: seq<int>)
    requires 1 <= k && |y| == slots && IsBinary(y) && i < StartCount(slots, k) && j < slots
    requires InWindow(y, i, k)
    ensures Holds(SlotConstraint(j, slots, k), y, Indicator(StartCount(slots, k), i))
  {
    SlotConstraintWithStart(slots, k, i, j, y);
  }

  /** The definition of Satisfies read by index. */
  lemma SatisfiesByIndex(cs: seq<Constraint>, y: seq<int>, s: seq<int>)
    requires forall q :: 0 <= q < |cs| ==> Holds(cs[q], y, s)
    ensures Satisfies(cs, y, s)
  {
  }

  /** The constraints hold for a 0/1 assignment exactly when one start i is chosen
      and every selected slot lies in [i, i + k). With no start at all
      (slots - k + 1 <= 0) nothing satisfies them. */
  lemma FeasibleIffInWindow(slots: nat, k: nat, y: seq<int>, s: seq<int>)
    requires 1 <= k && |y| == slots && |s| == StartCount(slots, k) && IsBinary(y) && IsBinary(s)
    ensures Satisfies(ModelConstraints(slots, k), y, s)
      <==> exists i :: 0 <= i < |s| && s == Indicator(|s|, i) && InWindow(y, i, k)
  {
    if Satisfies(ModelConstraints(slots, k), y, s) {
      var i := FeasibleIsInWindow(slots, k, y, s);
    }
    if exists i :: 0 <= i < |s| && s == Indicator(|s|, i) && InWindow(y, i, k) {
      var i :| 0 <= i < |s| && s == Indicator(|s|, i) && InWindow(y, i, k);
      InWindowIsFeasible(slots, k, y, s, i);
    }
  }

  /** When k exceeds the number of slots there are no starts and no assignment is feasible. */
  lemma NoStartsInfeasible(slots: nat, k: nat, y: seq<int>, s: seq<int>)
    requires 1 <= k && slots < k
    requires |y| == slots && |s| == StartCount(slots, k) && IsBinary(y) && IsBinary(s)
    ensures !Satisfies(ModelConstraints(slots, k), y, s)
  {
    FeasibleIffInWindow(slots, k, y, s);
  }

  /** Every block [i, i + k) with its start chosen is feasible. */
  lemma WindowFeasible(slots: nat, k: nat, i: nat)
    requires 1 <= k && i < StartCount(slots, k)
    ensures Satisfies(ModelConstraints(slots, k), Window(slots, i, k), Indicator(StartCount(slots, k), i))
  {
    var s := Indicator(StartCount(slots, k), i);
    FeasibleIffInWindow(slots, k, Window(slots, i, k), s);
    assert 0 <= i < |s| && s == Indicator(|s|, i) && InWindow(Window(slots, i, k), i, k);
  }

  // ---------------------------------------------------------------------------
  // Objective
  // ---------------------------------------------------------------------------

  /** The objective, sum of c[j] * y[j], over slots 0 .. n-1. */
  function Objective(c: seq<real>, y: seq<int>, n: nat): (r: real)
    requires n <= |c| && n <= |y|
    ensures IsBinary(y) && (forall j :: 0 <= j < n ==> 0.0 <= c[j]) ==> 0.0 <= r
  {
    if n == 0 then 0.0 else Objective(c, y, n - 1) + c[n - 1] * (y[n - 1] as real)
  }

  lemma {:induction false} WindowBoundsPrefix(c: seq<real>, y: seq<int>, i: nat, k: nat, n: nat)
    requires |c| == |y| && n <= |y| && IsBinary(y) && InWindow(y, i, k)
    requires forall j :: 0 <= j < |y| && i <= j < i + k ==> c[j] >= 0.0
    ensures Objective(c, y, n) <= Objective(c, Window(|y|, i, k), n)
    ensures (forall j :: 0 <= j < |y| && i <= j < i + k ==> c[j] > 0.0) &&
            Objective(c, y, n) == Objective(c, Window(|y|, i, k), n)
            ==> y[..n] == Window(|y|, i, k)[..n]
  {
    if n > 0 {
      var w := Window(|y|, i, k);
      WindowBoundsPrefix(c, y, i, k, n - 1);
      var j := n - 1;
      if i <= j < i + k {
        assert c[j] * (y[j] as real) <= c[j] * (w[j] as real);
      } else {
        assert y[j] == 0 && w[j] == 0;
      }
      if (forall j :: 0 <= j < |y| && i <= j < i + k ==> c[j] > 0.0) && Objective(c, y, n) == Objective(c, w, n) {
        assert c[j] * (y[j] as real) == c[j] * (w[j] as real);
        assert y[j] == w[j];
        assert y[..n] == y[..n - 1] + [y[j]];
        assert w[..n] == w[..n - 1] + [w[j]];
      }
    }
  }

  /** Among the assignments that keep to the block of the chosen start, selecting
      the whole block scores at least as much when the block's scores are not
      negative; when they are all positive it is the only one that scores that much. */
  lemma FullWindowIsBest(c: seq<real>, y: seq<int>, i: nat, k: nat)
    requires |c| == |y| && IsBinary(y) && InWindow(y, i, k)
    requires forall j :: 0 <= j < |y| && i <= j < i + k ==> c[j] >= 0.0
    ensures Objective(c, y, |y|) <= Objective(c, Window(|y|, i, k), |y|)
    ensures (forall j :: 0 <= j < |y| && i <= j < i + k ==> c[j] > 0.0) &&
            Objective(c, y, |y|) == Objective(c, Window(|y|, i, k), |y|)
            ==> y == Window(|y|, i, k)
  {
    WindowBoundsPrefix(c, y, i, k, |y|);
    assert y[..|y|] == y;
    assert Window(|y|, i, k)[..|y|] == Window(|y|, i, k);
  }

  lemma {:induction false} ObjectiveIgnoresZeroScore(c: seq<real>, y: seq<int>, j0: nat, n: nat)
    requires |c| == |y| && j0 < |y| && c[j0] == 0.0 && n <= |y|
    ensures Objective(c, y[j0 := 0], n) == Objective(c, y, n)
  {
    if n > 0 {
      ObjectiveIgnoresZeroScore(c, y, j0, n - 1);
    }
  }

  /** A slot of score 0 inside the chosen block may be left out: the assignment
      without it is feasible too and reaches the same objective, so the solver
      is free to return either. */
  lemma ZeroScoreSlotMayBeDropped(slots: nat, k: nat, i: nat, c: seq<real>, j0: nat)
    requires 1 <= k && i < StartCount(slots, k) && |c| == slots
    requires i <= j0 < i + k && j0 < slots && c[j0] == 0.0
    ensures Satisfies(ModelConstraints(slots, k), Window(slots, i, k)[j0 := 0], Indicator(StartCount(slots, k), i))
    ensures Objective(c, Window(slots, i, k)[j0 := 0], slots) == Objective(c, Window(slots, i, k), slots)
    ensures Window(slots, i, k)[j0 := 0] != Window(slots, i, k)
  {
    var w := Window(slots, i, k);
    var y := w[j0 := 0];
    var s := Indicator(StartCount(slots, k), i);
    assert w[j0] == 1;
    FeasibleIffInWindow(slots, k, y, s);
    assert IsBinary(y) && InWindow(y, i, k);
    assert 0 <= i < |s| && s == Indicator(|s|, i) && InWindow(y, i, k);
    ObjectiveIgnoresZeroScore(c, w, j0, slots);
    assert y[j0] != w[j0];
  }

  // ---------------------------------------------------------------------------
  // Readout of a solution
  // ---------------------------------------------------------------------------

  /** The slots among 0 .. n-1 whose solution value exceeds 0.5, in increasing order. */
  function SlotsAbove(v: seq<real>, n: nat): (r: seq<nat>)
    requires n <= |v|
    ensures StrictlyIncreasing(r)
    ensures forall j :: j in r <==> 0 <= j < n && v[j] > 0.5
  {
    if n == 0 then []
    else
      var before := SlotsAbove(v, n - 1);
      if v[n - 1] > 0.5 then AppendIncreasing(before, n - 1); before + [n - 1] else before
  }

  /** A 0/1 assignment as the real values a solver reports. */
  function AsReals(y: seq<int>): (v: seq<real>)
    ensures |v| == |y|
  {
    seq(|y|, j requires 0 <= j < |y| => y[j] as real)
  }

  /** The integers a, a+1, ..., b-1. */
  function Range(a: int, b: int): (r: seq<int>)
    requires a <= b
    ensures |r| == b - a
  {
    seq(b - a, t => a + t)
  }

  /** Reading out a feasible assignment gives exactly its selected slots, all
      inside the block of its one chosen start. */
  lemma ReadoutOfFeasible(slots: nat, k: nat, y: seq<int>, s: seq<int>)
    requires 1 <= k && |y| == slots && |s| == StartCount(slots, k) && IsBinary(y) && IsBinary(s)
    requires Satisfies(ModelConstraints(slots, k), y, s)
    ensures forall j :: j in SlotsAbove(AsReals(y), slots) <==> 0 <= j < slots && y[j] == 1
    ensures exists i ::
      && 0 <= i < |s| && s == Indicator(|s|, i)
      && (forall j :: j in SlotsAbove(AsReals(y), slots) ==> i <= j < i + k)
  {
    var i := FeasibleIsInWindow(slots, k, y, s);
    ReadoutOfBinary(y);
    assert forall j :: j in SlotsAbove(AsReals(y), slots) ==> i <= j < i + k;
  }

  lemma ReadoutOfBinary(y: seq<int>)
    requires IsBinary(y)
    ensures forall j :: j in SlotsAbove(AsReals(y), |y|) <==> 0 <= j < |y| && y[j] == 1
  {
    forall j | 0 <= j < |y|
      ensures AsReals(y)[j] > 0.5 <==> y[j] == 1
    {
    }
  }

  lemma {:induction false} WindowReadoutPrefix(slots: nat, i: nat, k: nat, n: nat)
    requires i + k <= slots && n <= slots
    ensures SlotsAbove(AsReals(Window(slots, i, k)), n) == Range(i, Max(i, Min(n, i + k)))
  {
    if n > 0 {
      var v := AsReals(Window(slots, i, k));
      WindowReadoutPrefix(slots, i, k, n - 1);
      if i < n <= i + k {
        assert Max(i, Min(n - 1, i + k)) == n - 1 && Max(i, Min(n, i + k)) == n;
        assert v[n - 1] == 1.0;
        assert Range(i, n) == Range(i, n - 1) + [n - 1];
      } else {
        assert Max(i, Min(n - 1, i + k)) == Max(i, Min(n, i + k));
        assert v[n - 1] == 0.0;
      }
    }
  }

  /** Reading out a whole block [i, i + k) gives the k consecutive slots i .. i+k-1. */
  lemma ReadoutOfWindow(slots: nat, i: nat, k: nat)
    requires i + k <= slots
    ensures SlotsAbove(AsReals(Window(slots, i, k)), slots) == Range(i, i + k)
  {
    WindowReadoutPrefix(slots, i, k, slots);
  }

  // ---------------------------------------------------------------------------
  // Optimal solutions
  // ---------------------------------------------------------------------------

  /** A 0/1 solution that a solver may report as optimal for objective `c`: it
      satisfies the constraints and no feasible assignment scores more. */
  ghost predicate IsOptimal(c: seq<real>, slots: nat, k: nat, y: seq<int>, s: seq<int>) {
    && |c| == slots && |y| == slots && |s| == StartCount(slots, k) && IsBinary(y) && IsBinary(s)
    && Satisfies(ModelConstraints(slots, k), y, s)
    && forall y': seq<int>, s': seq<int> ::
         (&& |y'| == slots && |s'| == StartCount(slots, k) && IsBinary(y') && IsBinary(s')
          && Satisfies(ModelConstraints(slots, k), y', s'))
         ==> Objective(c, y', slots) <= Objective(c, y, slots)
  }

  /** Sum of the scores c[a], ..., c[b-1]. */
  function SumScores(c: seq<real>, a: nat, b: nat): real
    requires b <= |c|
  {
    if b <= a then 0.0 else SumScores(c, a, b - 1) + c[b - 1]
  }

  /** The sum of the scores of the block [i, i + k). */
  function BlockScore(c: seq<real>, i: nat, k: nat): real
    requires i + k <= |c|
  {
    SumScores(c, i, i + k)
  }

  /** Over the first n slots, the whole block [i, i + k) scores the sum of its
      slots' scores below n. */
  lemma {:induction false} WindowObjective(c: seq<real>, i: nat, k: nat, n: nat)
    requires n <= |c|
    ensures Objective(c, Window(|c|, i, k), n) == SumScores(c, i, Min(n, i + k))
  {
    if n > 0 {
      WindowObjective(c, i, k, n - 1);
      var w := Window(|c|, i, k);
      if i <= n - 1 < i + k {
        assert w[n - 1] == 1;
      } else {
        assert w[n - 1] == 0;
      }
    }
  }

  /** An optimal solution chooses one start i with its block inside the slots
      (so k <= slots), keeps to that block and scores at least every whole
      block. When every slot scores above 0 it is the whole block, and reading
      it out gives the k consecutive slots i, ..., i + k - 1. */
  lemma OptimalSolution(c: seq<real>, slots: nat, k: nat, y: seq<int>, s: seq<int>) returns (i: nat)
    requires 1 <= k && IsOptimal(c, slots, k, y, s)
    ensures k <= slots && i + k <= slots && s == Indicator(|s|, i) && InWindow(y, i, k)
    ensures forall i' :: 0 <= i' && i' + k <= slots ==>
      Objective(c, Window(slots, i', k), slots) <= Objective(c, y, slots)
    ensures (forall j :: 0 <= j < slots ==> c[j] > 0.0) ==>
      y == Window(slots, i, k) && SlotsAbove(AsReals(y), slots) == Range(i, i + k)
  {
    i := FeasibleIsInWindow(slots, k, y, s);
    forall i' | 0 <= i' && i' + k <= slots
      ensures Objective(c, Window(slots, i', k), slots) <= Objective(c, y, slots)
    {
      WindowFeasible(slots, k, i');
    }
    if forall j :: 0 <= j < slots ==> c[j] > 0.0 {
      FullWindowIsBest(c, y, i, k);
      ReadoutOfWindow(slots, i, k);
    }
  }

  /** When every slot scores above 0, an optimal solution reads out as k
      consecutive slots i, ..., i + k - 1, its objective is the sum of their
      scores, and no other block of k slots sums to more. */
  lemma OptimalBlock(c: seq<real>, k: nat, y: seq<int>, s: seq<int>) returns (i: nat)
    requires 1 <= k && IsOptimal(c, |c|, k, y, s) && forall j :: 0 <= j < |c| ==> c[j] > 0.0
    ensures i + k <= |c| && SlotsAbove(AsReals(y), |c|) == Range(i, i + k)
    ensures Objective(c, y, |c|) == BlockScore(c, i, k)
    ensures forall i' :: 0 <= i' && i' + k <= |c| ==> BlockScore(c, i', k) <= BlockScore(c, i, k)
  {
    i := OptimalSolution(c, |c|, k, y, s);
    BlockObjectives(c, k);
  }

  /** With every slot scoring above 0, when no block of k slots scores more than
      m and some block scores m exactly, every optimal solution scores m and
      selects a block scoring m. */
  lemma OptimalBlockValue(c: seq<real>, k: nat, y: seq<int>, s: seq<int>, i0: nat, m: real) returns (i: nat)
    requires 1 <= k && IsOptimal(c, |c|, k, y, s) && forall j :: 0 <= j < |c| ==> c[j] > 0.0
    requires i0 + k <= |c| && BlockScore(c, i0, k) == m
    requires forall j :: 0 <= j && j + k <= |c| ==> BlockScore(c, j, k) <= m
    ensures i + k <= |c| && BlockScore(c, i, k) == m
    ensures Objective(c, y, |c|) == m && SlotsAbove(AsReals(y), |c|) == Range(i, i + k)
  {
    i := OptimalBlock(c, k, y, s);
  }

  lemma RangeOfOne(i: nat)
    ensures Range(i, i + 1) == [i]
  {
  }

  lemma RangeOfTwo(i: nat)
    ensures Range(i, i + 2) == [i, i + 1]
  {
  }

  /** What reading out an optimal solution gives: slots inside one block of k,
      a score no block beats, and exactly k slots when every slot scores above 0. */
  lemma OptimalReadout(c: seq<real>, slots: nat, k: nat, y: seq<int>, s: seq<int>) returns (i: nat)
    requires 1 <= k && IsOptimal(c, slots, k, y, s)
    ensures k <= slots && i + k <= slots && WithinBlock(SlotsAbove(AsReals(y), slots), i, k)
    ensures forall i' :: 0 <= i' && i' + k <= slots ==> BlockScore(c, i', k) <= Objective(c, y, slots)
    ensures (forall j :: 0 <= j < slots ==> c[j] > 0.0) ==> |SlotsAbove(AsReals(y), slots)| == k
  {
    i := OptimalSolution(c, slots, k, y, s);
    ReadoutOfBinary(y);
    BlockObjectives(c, k);
  }

  /** The real values and objective value a solver reports for an optimal 0/1
      solution: k fits, the selected slots lie in one block, no block scores more
      than the reported value, and exactly k slots are selected when every slot
      scores above 0. */
  ghost predicate ReportsOptimum(c: seq<real>, slots: nat, k: nat, v: seq<real>, value: real)
    requires |c| == slots
  {
    exists y: seq<int>, s: seq<int> ::
      IsOptimal(c, slots, k, y, s) && v == AsReals(y) && value == Objective(c, y, slots)
  }

  lemma ReportedOptimum(c: seq<real>, slots: nat, k: nat, v: seq<real>, value: real)
    requires 1 <= k && |c| == slots && ReportsOptimum(c, slots, k, v, value)
    ensures k <= slots && |v| == slots
    ensures exists i: nat :: i + k <= slots && WithinBlock(SlotsAbove(v, slots), i, k)
    ensures forall i :: 0 <= i && i + k <= slots ==> BlockScore(c, i, k) <= value
    ensures (forall j :: 0 <= j < slots ==> c[j] > 0.0) ==> |SlotsAbove(v, slots)| == k
  {
    var y: seq<int>, s: seq<int> :| IsOptimal(c, slots, k, y, s) && v == AsReals(y) && value == Objective(c, y, slots);
    var i := OptimalReadout(c, slots, k, y, s);
  }

  lemma BlockOfOne(c: seq<real>, i: nat)
    requires i < |c|
    ensures BlockScore(c, i, 1) == c[i]
  {
    assert SumScores(c, i, i) == 0.0;
  }

  lemma BlockOfTwo(c: seq<real>, i: nat)
    requires i + 2 <= |c|
    ensures BlockScore(c, i, 2) == c[i] + c[i + 1]
  {
    assert SumScores(c, i, i) == 0.0;
    assert SumScores(c, i, i + 1) == c[i];
  }

  lemma BlockObjectives(c: seq<real>, k: nat)
    ensures forall i :: 0 <= i && i + k <= |c| ==> Objective(c, Window(|c|, i, k), |c|) == BlockScore(c, i, k)
  {
    forall i | 0 <= i && i + k <= |c|
      ensures Objective(c, Window(|c|, i, k), |c|) == BlockScore(c, i, k)
    {
      WindowObjective(c, i, k, |c|);
    }
  }

  // ---------------------------------------------------------------------------
  // The example matrix of the source
  // ---------------------------------------------------------------------------

  const ExampleMatrix: Matrix := [
    [0.6, 1.0, 1.0, 0.6],
    [1.0, 1.0, 1.0, 1.0],
    [1.0, 1.0, 1.0, 1.0],
    [1.0, 1.0, 1.0, 1.0]]

  /** The four slots of the example score 3.9, 4, 4 and 3.9. */
  lemma ExampleScores()
    ensures WellShaped(ExampleMatrix) && |ExampleMatrix[0]| == 4
    ensures Score(ExampleMatrix, 0) == 3.9 && Score(ExampleMatrix, 1) == 4.0
    ensures Score(ExampleMatrix, 2) == 4.0 && Score(ExampleMatrix, 3) == 3.9
  {
  }

  /** With k = 1 every optimal solution for the example matrix scores 4 and
      selects slot 1 or slot 2 alone. */
  lemma ExampleBestSingleSlot(c: seq<real>, y: seq<int>, s: seq<int>)
    requires |c| == |ExampleMatrix[0]| && forall j :: 0 <= j < |c| ==> c[j] == Score(ExampleMatrix, j)
    requires IsOptimal(c, |c|, 1, y, s)
    ensures Objective(c, y, |c|) == 4.0
    ensures SlotsAbove(AsReals(y), |c|) == [1] || SlotsAbove(AsReals(y), |c|) == [2]
  {
    ExampleCoefficients(c);
    var i := OptimalBlockValue(c, 1, y, s, 1, 4.0);
    RangeOfOne(i);
  }

  lemma ExampleCoefficients(c: seq<real>)
    requires |c| == |ExampleMatrix[0]| && forall j :: 0 <= j < |c| ==> c[j] == Score(ExampleMatrix, j)
    ensures forall j :: 0 <= j < |c| ==> 0.0 < c[j]
    ensures BlockScore(c, 1, 1) == 4.0
    ensures forall j :: 0 <= j && j + 1 <= |c| ==> BlockScore(c, j, 1) <= 4.0
    ensures forall j :: 0 <= j && j + 1 <= |c| ==> (BlockScore(c, j, 1) == 4.0 <==> j == 1 || j == 2)
  {
    ExampleScores();
    forall j | 0 <= j && j + 1 <= |c|
      ensures BlockScore(c, j, 1) == c[j]
    {
      BlockOfOne(c, j);
    }
  }

  /** After splitting the example, its eight slots score 3.9, 3.9, 4, 4, 4, 4, 3.9, 3.9. */
  lemma ExampleSplitScores()
    ensures WellShaped(Split(ExampleMatrix)) && |Split(ExampleMatrix)[0]| == 8
    ensures forall p :: 0 <= p < 8 ==>
      Score(Split(ExampleMatrix), p) == [3.9, 3.9, 4.0, 4.0, 4.0, 4.0, 3.9, 3.9][p]
  {
    ExampleScores();
    SplitCells(ExampleMatrix);
    forall p | 0 <= p < 8
      ensures Score(Split(ExampleMatrix), p) == [3.9, 3.9, 4.0, 4.0, 4.0, 4.0, 3.9, 3.9][p]
    {
      SplitScore(ExampleMatrix, p);
    }
  }

  /** After one split (k = 2, eight slots) every optimal solution for the
      example scores 8 and selects slots {2, 3}, {3, 4} or {4, 5}. */
  lemma ExampleSplitOptimum(c: seq<real>, y: seq<int>, s: seq<int>)
    requires |c| == |Split(ExampleMatrix)[0]| && forall j :: 0 <= j < |c| ==> c[j] == Score(Split(ExampleMatrix), j)
    requires IsOptimal(c, |c|, 2, y, s)
    ensures Objective(c, y, |c|) == 8.0
    ensures SlotsAbove(AsReals(y), |c|) in {[2, 3], [3, 4], [4, 5]}
  {
    ExampleSplitCoefficients(c);
    var i := OptimalBlockValue(c, 2, y, s, 2, 8.0);
    ExampleSplitBestBlocks(c, i);
  }

  lemma ExampleSplitBestBlocks(c: seq<real>, i: nat)
    requires |c| == |Split(ExampleMatrix)[0]| && forall j :: 0 <= j < |c| ==> c[j] == Score(Split(ExampleMatrix), j)
    requires i + 2 <= |c| && BlockScore(c, i, 2) == 8.0
    ensures Range(i, i + 2) in {[2, 3], [3, 4], [4, 5]}
  {
    ExampleSplitCoefficients(c);
    RangeOfTwo(i);
  }

  lemma ExampleSplitCoefficients(c: seq<real>)
    requires |c| == |Split(ExampleMatrix)[0]| && forall j :: 0 <= j < |c| ==> c[j] == Score(Split(ExampleMatrix), j)
    ensures forall j :: 0 <= j < |c| ==> 0.0 < c[j]
    ensures BlockScore(c, 2, 2) == 8.0
    ensures forall j :: 0 <= j && j + 2 <= |c| ==> BlockScore(c, j, 2) <= 8.0
    ensures forall j :: 0 <= j && j + 2 <= |c| ==> (BlockScore(c, j, 2) == 8.0 <==> 2 <= j <= 4)
  {
    ExampleSplitScores();
    assert c == [3.9, 3.9, 4.0, 4.0, 4.0, 4.0, 3.9, 3.9];
    forall j | 0 <= j && j + 2 <= |c|
      ensures BlockScore(c, j, 2) == c[j] + c[j + 1]
    {
      BlockOfTwo(c, j);
    }
  }
}
