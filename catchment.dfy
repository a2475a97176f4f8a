/**
 * The catchment ("Sprengel") bonus and the progress tracker of
 * `backend/optimierung_wrapper.py`: a student earns a fixed number of points
 * for every classmate-sharing catchment code, and every evaluation of a
 * partition during the search is counted, remembered and reported every
 * 500 calls.
 *
 * The base score of the search and the points per student come from code
 * outside this model; they are parameters here. Scores are reals.
 */
module Catchment {
  import opened Wrappers
  import opened Text
  import opened Students

  // ---------------------------------------------------------------------
  // Catchment codes of a class
  // ---------------------------------------------------------------------

  /** The trimmed catchment code of a student; missing and blank cells have none. */
  function Code(st: Student): (c: Option<string>)
    ensures c.Some? ==> c.value != [] && IsTrimmed(c.value)
    ensures c.None? <==> st.catchment.None? || Trim(st.catchment.value) == []
    ensures c.Some? ==> c.value == Trim(st.catchment.value)
  {
    match st.catchment
    case None => None
    case Some(v) =>
      var t := Trim(v);
      if t == [] then None else Some(t)
  }

  /** The codes of the students of a class, in class order, skipping students without one. */
  function ClassCodes(roster: Roster, klasse: seq<int>): (codes: seq<string>)
    requires Placed(roster, klasse)
    ensures |codes| <= |klasse|
  {
    if klasse == [] then []
    else
      var n := |klasse| - 1;
      ClassCodes(roster, klasse[..n]) + (match Code(roster[klasse[n]]) case None => [] case Some(c) => [c])
  }

  /** The positions of `codes` whose code `m` holds at least twice. */
  function PartneredIn(codes: seq<string>, m: multiset<string>): (n: nat)
    ensures n <= |codes|
  {
    if codes == [] then 0
    else PartneredIn(codes[..|codes| - 1], m) + (if m[codes[|codes| - 1]] >= 2 then 1 else 0)
  }

  /** The number of students whose code occurs at least twice in their class. */
  function Partnered(codes: seq<string>): nat {
    PartneredIn(codes, multiset(codes))
  }

  /** The partnered students of the first `n` classes together. */
  function PartneredUpTo(p: Partition, roster: Roster, n: nat): nat
    requires n <= |p| && forall k :: 0 <= k < |p| ==> Placed(roster, p[k])
  {
    if n == 0 then 0 else PartneredUpTo(p, roster, n - 1) + Partnered(ClassCodes(roster, p[n - 1]))
  }

  /** The partnered students of all classes together. */
  function TotalPartnered(p: Partition, roster: Roster): nat
    requires forall k :: 0 <= k < |p| ==> Placed(roster, p[k])
  {
    PartneredUpTo(p, roster, |p|)
  }

  /** `n` awards of `points`, as `bonus += punkte_pro_schueler` adds them up. */
  function Scaled(points: real, n: nat): real {
    if n == 0 then 0.0 else Scaled(points, n - 1) + points
  }

  /** `_sprengel_bonus`: nothing without a catchment column, else the points per partnered student. */
  function Bonus(p: Partition, roster: Roster, hasColumn: bool, points: real): real
    requires forall k :: 0 <= k < |p| ==> Placed(roster, p[k])
  {
    if hasColumn then Scaled(points, TotalPartnered(p, roster)) else 0.0
  }

  // ---------------------------------------------------------------------
  // Properties of the bonus
  // ---------------------------------------------------------------------

  /** `PartneredIn` adds up over concatenation. */
  lemma {:induction false} PartneredInAppend(a: seq<string>, b: seq<string>, m: multiset<string>)
    ensures PartneredIn(a + b, m) == PartneredIn(a, m) + PartneredIn(b, m)
    decreases |b|
  {
    if b == [] {
      assert a + b == a;
    } else {
      var n := |b| - 1;
      assert (a + b)[..|a + b| - 1] == a + b[..n];
      assert (a + b)[|a + b| - 1] == b[n];
      PartneredInAppend(a, b[..n], m);
    }
  }

  /** The count depends only on which codes occur how often, not on their order. */
  lemma {:induction false} PartneredInPermutation(a: seq<string>, b: seq<string>, m: multiset<string>)
    requires multiset(a) == multiset(b)
    ensures PartneredIn(a, m) == PartneredIn(b, m)
    decreases |a|
  {
    if a != [] {
      var n := |a| - 1;
      var x := a[n];
      assert a == a[..n] + [x];
      assert x in multiset(b);
      var i :| 0 <= i < |b| && b[i] == x;
      assert b == b[..i] + [x] + b[i + 1..];
      var rest := b[..i] + b[i + 1..];
      RemoveAt(b, i);
      DropLast(a);
      PartneredInPermutation(a[..n], rest, m);
      PartneredInAppend(a[..n], [x], m);
      PartneredInAppend(b[..i] + [x], b[i + 1..], m);
      PartneredInAppend(b[..i], [x], m);
      PartneredInAppend(b[..i], b[i + 1..], m);
    }
  }

  /** A code at position `i` occurs twice exactly when another position holds it too. */
  lemma OccursTwice(codes: seq<string>, i: int)
    requires 0 <= i < |codes|
    ensures multiset(codes)[codes[i]] >= 2 <==> exists j :: 0 <= j < |codes| && j != i && codes[j] == codes[i]
  {
    var x := codes[i];
    var before, after := codes[..i], codes[i + 1..];
    assert codes == before + [x] + after;
    assert multiset(codes)[x] == multiset(before)[x] + 1 + multiset(after)[x];
    if multiset(codes)[x] >= 2 {
      if x in before {
        var j :| 0 <= j < |before| && before[j] == x;
        assert codes[j] == x;
      } else {
        assert x in multiset(after);
        var j :| 0 <= j < |after| && after[j] == x;
        assert codes[i + 1 + j] == x;
      }
    } else {
      forall j | 0 <= j < |codes| && j != i
        ensures codes[j] != x
      {
        if j < i {
          assert before[j] == codes[j];
          assert multiset(before)[x] == 0;
        } else {
          assert after[j - i - 1] == codes[j];
          assert multiset(after)[x] == 0;
        }
      }
    }
  }

  /** `PartneredIn` is 0 exactly when no position holds a code `m` has twice. */
  lemma {:induction false} PartneredInZero(codes: seq<string>, m: multiset<string>)
    ensures PartneredIn(codes, m) == 0 <==> forall i :: 0 <= i < |codes| ==> m[codes[i]] < 2
  {
    if codes != [] {
      var n := |codes| - 1;
      PartneredInZero(codes[..n], m);
      assert forall i :: 0 <= i < n ==> codes[..n][i] == codes[i];
    }
  }

  /** A class earns no bonus exactly when all its codes are different. */
  lemma NoPartnersIffDistinct(codes: seq<string>)
    ensures Partnered(codes) == 0 <==> forall i, j :: 0 <= i < j < |codes| ==> codes[i] != codes[j]
  {
    PartneredInZero(codes, multiset(codes));
    forall i | 0 <= i < |codes|
      ensures multiset(codes)[codes[i]] >= 2 <==> exists j :: 0 <= j < |codes| && j != i && codes[j] == codes[i]
    {
      OccursTwice(codes, i);
    }
  }

  /** A class whose at least two codes are all the same earns the bonus for each of them. */
  lemma {:induction false} AllSharePartnered(codes: seq<string>, m: multiset<string>, c: string)
    requires forall i :: 0 <= i < |codes| ==> codes[i] == c
    requires m[c] >= 2
    ensures PartneredIn(codes, m) == |codes|
  {
    if codes != [] {
      AllSharePartnered(codes[..|codes| - 1], m, c);
    }
  }

  /** The codes of a concatenation of students are the concatenated codes. */
  lemma {:induction false} ClassCodesAppend(roster: Roster, a: seq<int>, b: seq<int>)
    requires Placed(roster, a) && Placed(roster, b)
    ensures Placed(roster, a + b)
    ensures ClassCodes(roster, a + b) == ClassCodes(roster, a) + ClassCodes(roster, b)
    decreases |b|
  {
    if b == [] {
      assert a + b == a;
    } else {
      var n := |b| - 1;
      assert (a + b)[..|a + b| - 1] == a + b[..n];
      assert (a + b)[|a + b| - 1] == b[n];
      ClassCodesAppend(roster, a, b[..n]);
    }
  }

  /** Reordering the students of a class reorders their codes. */
  lemma {:induction false} ClassCodesPermutation(roster: Roster, a: seq<int>, b: seq<int>)
    requires Placed(roster, a) && Placed(roster, b) && multiset(a) == multiset(b)
    ensures multiset(ClassCodes(roster, a)) == multiset(ClassCodes(roster, b))
    decreases |a|
  {
    if a != [] {
      var n := |a| - 1;
      assert a[n] in multiset(b);
      var i :| 0 <= i < |b| && b[i] == a[n];
      RemoveAt(b, i);
      DropLast(a);
      ClassCodesPermutation(roster, a[..n], b[..i] + b[i + 1..]);
      ClassCodesRemove(roster, b, i);
      ClassCodesRemove(roster, a, n);
    }
  }

  /** Taking one student out of a class takes their code out. */
  lemma ClassCodesRemove(roster: Roster, b: seq<int>, i: int)
    requires Placed(roster, b) && 0 <= i < |b|
    ensures Placed(roster, b[..i] + b[i + 1..])
    ensures multiset(ClassCodes(roster, b))
            == multiset(ClassCodes(roster, b[..i] + b[i + 1..])) + multiset(ClassCodes(roster, [b[i]]))
  {
    var pre, post := b[..i], b[i + 1..];
    assert b == pre + [b[i]] + post;
    ClassCodesAppend(roster, pre, [b[i]]);
    ClassCodesAppend(roster, pre + [b[i]], post);
    ClassCodesAppend(roster, pre, post);
  }

  /** The order of the students inside a class does not change its bonus. */
  lemma ClassOrderIrrelevant(roster: Roster, a: seq<int>, b: seq<int>)
    requires Placed(roster, a) && Placed(roster, b) && multiset(a) == multiset(b)
    ensures Partnered(ClassCodes(roster, a)) == Partnered(ClassCodes(roster, b))
  {
    ClassCodesPermutation(roster, a, b);
    PartneredInPermutation(ClassCodes(roster, a), ClassCodes(roster, b), multiset(ClassCodes(roster, a)));
  }

  /** No more students earn the bonus than are placed. */
  lemma TotalPartneredBounded(p: Partition, roster: Roster)
    requires forall k :: 0 <= k < |p| ==> Placed(roster, p[k])
    ensures TotalPartnered(p, roster) <= |Flatten(p)|
  {
    UpToBounded(p, roster, |p|);
    assert p[..|p|] == p;
  }

  /** The bonus is nothing without the column, and with non-negative points at most the points of every placed student. */
  lemma BonusBounds(p: Partition, roster: Roster, hasColumn: bool, points: real)
    requires forall k :: 0 <= k < |p| ==> Placed(roster, p[k])
    requires points >= 0.0
    ensures !hasColumn ==> Bonus(p, roster, hasColumn, points) == 0.0
    ensures var placed := |Flatten(p)|; 0.0 <= Bonus(p, roster, hasColumn, points) <= points * placed as real
  {
    var n, m := TotalPartnered(p, roster), |Flatten(p)|;
    TotalPartneredBounded(p, roster);
    ScaledMonotone(points, n, m);
    ScaledIsProduct(points, m);
    var bound := Scaled(points, m);
    assert Bonus(p, roster, hasColumn, points) == if hasColumn then Scaled(points, n) else 0.0;
    assert 0.0 <= Bonus(p, roster, hasColumn, points) <= bound;
    assert bound == points * m as real;
  }

  /** With non-negative points, more awards are worth more, and none is worth nothing. */
  lemma {:induction false} ScaledMonotone(points: real, n: nat, m: nat)
    requires points >= 0.0 && n <= m
    ensures 0.0 <= Scaled(points, n) <= Scaled(points, m)
    decreases m
  {
    if n < m {
      ScaledMonotone(points, n, m - 1);
    } else if n > 0 {
      ScaledMonotone(points, n - 1, n - 1);
    }
  }

  /** Every class of `cs` lies in the roster. */
  predicate AllPlaced(roster: Roster, cs: seq<seq<int>>) {
    forall k :: 0 <= k < |cs| ==> Placed(roster, cs[k])
  }

  /** The partnered students of the classes `cs`, class after class. */
  function ClassesPartnered(roster: Roster, cs: seq<seq<int>>): nat
    requires AllPlaced(roster, cs)
  {
    if cs == [] then 0
    else ClassesPartnered(roster, cs[..|cs| - 1]) + Partnered(ClassCodes(roster, cs[|cs| - 1]))
  }

  /** `PartneredUpTo` counts the first `n` classes. */
  lemma {:induction false} UpToIsPrefix(p: Partition, roster: Roster, n: nat)
    requires n <= |p| && AllPlaced(roster, p)
    ensures PartneredUpTo(p, roster, n) == ClassesPartnered(roster, p[..n])
  {
    if n > 0 {
      UpToIsPrefix(p, roster, n - 1);
      assert p[..n][..n - 1] == p[..n - 1];
    }
  }

  /** `ClassesPartnered` adds up over concatenation. */
  lemma {:induction false} ClassesPartneredAppend(roster: Roster, a: seq<seq<int>>, b: seq<seq<int>>)
    requires AllPlaced(roster, a) && AllPlaced(roster, b)
    ensures AllPlaced(roster, a + b)
    ensures ClassesPartnered(roster, a + b) == ClassesPartnered(roster, a) + ClassesPartnered(roster, b)
    decreases |b|
  {
    if b == [] {
      assert a + b == a;
    } else {
      var n := |b| - 1;
      assert (a + b)[..|a + b| - 1] == a + b[..n];
      ClassesPartneredAppend(roster, a, b[..n]);
    }
  }

  /** Taking class `i` out takes its count out. */
  lemma ClassesPartneredRemove(roster: Roster, b: seq<seq<int>>, i: int)
    requires AllPlaced(roster, b) && 0 <= i < |b|
    ensures AllPlaced(roster, b[..i] + b[i + 1..])
    ensures ClassesPartnered(roster, b)
            == ClassesPartnered(roster, b[..i] + b[i + 1..]) + Partnered(ClassCodes(roster, b[i]))
  {
    var pre, post := b[..i], b[i + 1..];
    assert b == pre + [b[i]] + post;
    assert [b[i]][..0] == [];
    ClassesPartneredAppend(roster, pre, [b[i]]);
    ClassesPartneredAppend(roster, pre + [b[i]], post);
    ClassesPartneredAppend(roster, pre, post);
  }

  /** The count over classes depends only on which classes there are, not on their order. */
  lemma {:induction false} ClassesPartneredPermutation(roster: Roster, a: seq<seq<int>>, b: seq<seq<int>>)
    requires AllPlaced(roster, a) && AllPlaced(roster, b) && multiset(a) == multiset(b)
    ensures ClassesPartnered(roster, a) == ClassesPartnered(roster, b)
    decreases |a|
  {
    if a != [] {
      var n := |a| - 1;
      assert a[n] in multiset(b);
      var i :| 0 <= i < |b| && b[i] == a[n];
      RemoveAt(b, i);
      DropLast(a);
      ClassesPartneredRemove(roster, b, i);
      ClassesPartneredPermutation(roster, a[..n], b[..i] + b[i + 1..]);
    }
  }

  /** Listing the classes in another order does not change the bonus. */
  lemma ClassOrderOfPartition(p: Partition, q: Partition, roster: Roster, hasColumn: bool, points: real)
    requires forall k :: 0 <= k < |p| ==> Placed(roster, p[k])
    requires forall k :: 0 <= k < |q| ==> Placed(roster, q[k])
    requires multiset(p) == multiset(q)
    ensures Bonus(p, roster, hasColumn, points) == Bonus(q, roster, hasColumn, points)
  {
    UpToIsPrefix(p, roster, |p|);
    UpToIsPrefix(q, roster, |q|);
    assert p[..|p|] == p && q[..|q|] == q;
    ClassesPartneredPermutation(roster, p, q);
  }

  lemma {:induction false} UpToBounded(p: Partition, roster: Roster, n: nat)
    requires n <= |p| && forall k :: 0 <= k < |p| ==> Placed(roster, p[k])
    ensures PartneredUpTo(p, roster, n) <= |Flatten(p[..n])|
  {
    if n > 0 {
      UpToBounded(p, roster, n - 1);
      assert p[..n][..n - 1] == p[..n - 1];
      assert p[..n][n - 1] == p[n - 1];
    }
  }

  /** Without any catchment code in the roster there is no bonus. */
  lemma {:induction false} NoCodesNoBonus(p: Partition, roster: Roster, hasColumn: bool, points: real)
    requires forall k :: 0 <= k < |p| ==> Placed(roster, p[k])
    requires forall sid :: sid in roster ==> Code(roster[sid]) == None
    ensures Bonus(p, roster, hasColumn, points) == 0.0
  {
    NoCodesNoPartners(p, roster);
  }

  lemma {:induction false} NoCodesNoPartners(p: Partition, roster: Roster)
    requires forall k :: 0 <= k < |p| ==> Placed(roster, p[k])
    requires forall sid :: sid in roster ==> Code(roster[sid]) == None
    ensures TotalPartnered(p, roster) == 0
  {
    forall n | 0 <= n <= |p|
      ensures PartneredUpTo(p, roster, n) == 0
    {
      NoCodesUpTo(p, roster, n);
    }
  }

  lemma {:induction false} NoCodesUpTo(p: Partition, roster: Roster, n: nat)
    requires n <= |p| && forall k :: 0 <= k < |p| ==> Placed(roster, p[k])
    requires forall sid :: sid in roster ==> Code(roster[sid]) == None
    ensures PartneredUpTo(p, roster, n) == 0
  {
    if n > 0 {
      NoCodesUpTo(p, roster, n - 1);
      NoCodesEmpty(roster, p[n - 1]);
    }
  }

  lemma {:induction false} NoCodesEmpty(roster: Roster, klasse: seq<int>)
    requires Placed(roster, klasse)
    requires forall sid :: sid in roster ==> Code(roster[sid]) == None
    ensures ClassCodes(roster, klasse) == []
  {
    if klasse != [] {
      NoCodesEmpty(roster, klasse[..|klasse| - 1]);
    }
  }

  // ---------------------------------------------------------------------
  // The bonus as the program computes it
  // ---------------------------------------------------------------------

  /** The non-blank trimmed codes of a class. */
  method CollectCodes(roster: Roster, klasse: seq<int>) returns (codes: seq<string>)
    requires Placed(roster, klasse)
    ensures codes == ClassCodes(roster, klasse)
  {
    codes := [];
    for i := 0 to |klasse|
      invariant codes == ClassCodes(roster, klasse[..i])
    {
      assert klasse[..i + 1][..i] == klasse[..i];
      var v := roster[klasse[i]].catchment;
      if v.Some? {
        var t := Trim(v.value);
        if t != [] {
          codes := codes + [t];
        }
      }
    }
    assert klasse[..|klasse|] == klasse;
  }

  /** The points earned by the codes of one class: a `Counter` of them, then one award per partnered student. */
  method CodesBonus(codes: seq<string>, points: real) returns (bonus: real)
    ensures bonus == Scaled(points, Partnered(codes))
  {
    var counter := multiset(codes);
    bonus := 0.0;
    for i := 0 to |codes|
      invariant bonus == Scaled(points, PartneredIn(codes[..i], counter))
    {
      assert codes[..i + 1][..i] == codes[..i];
      if counter[codes[i]] >= 2 {
        ScaledAdd(points, PartneredIn(codes[..i], counter), 1);
        bonus := bonus + points;
      }
    }
    assert codes[..|codes|] == codes;
  }

  /** The points earned by the students of one class. */
  method ClassBonus(roster: Roster, klasse: seq<int>, points: real) returns (bonus: real)
    requires Placed(roster, klasse)
    ensures bonus == Scaled(points, Partnered(ClassCodes(roster, klasse)))
  {
    var codes := CollectCodes(roster, klasse);
    bonus := CodesBonus(codes, points);
  }

  /** `_sprengel_bonus`. */
  method CatchmentBonus(p: Partition, roster: Roster, hasColumn: bool, points: real) returns (bonus: real)
    requires forall k :: 0 <= k < |p| ==> Placed(roster, p[k])
    ensures bonus == Bonus(p, roster, hasColumn, points)
  {
    if !hasColumn {
      return 0.0;
    }
    bonus := 0.0;
    for k := 0 to |p|
      invariant bonus == Scaled(points, PartneredUpTo(p, roster, k))
    {
      var b := ClassBonus(roster, p[k], points);
      UpToStep(p, roster, k, points);
      bonus := bonus + b;
    }
  }

  /** Awards add up. */
  lemma {:induction false} ScaledAdd(points: real, a: nat, b: nat)
    ensures Scaled(points, a + b) == Scaled(points, a) + Scaled(points, b)
    decreases b
  {
    if b > 0 {
      ScaledAdd(points, a, b - 1);
    }
  }

  /**
   * `ScaledAdd` for a sum given as a single number: it keeps the unfolding of
   * the sum apart from the unfolding of `Scaled`.
   */
  lemma ScaledSum(points: real, a: nat, c: nat, n: nat)
    requires n == a + c
    ensures Scaled(points, n) == Scaled(points, a) + Scaled(points, c)
  {
    ScaledAdd(points, a, c);
  }

  /** The awards of the first `k + 1` classes are those of the first `k` plus those of class `k`. */
  lemma UpToStep(p: Partition, roster: Roster, k: nat, points: real)
    requires k < |p| && forall j :: 0 <= j < |p| ==> Placed(roster, p[j])
    ensures Scaled(points, PartneredUpTo(p, roster, k + 1))
            == Scaled(points, PartneredUpTo(p, roster, k)) + Scaled(points, Partnered(ClassCodes(roster, p[k])))
  {
    var a, c := PartneredUpTo(p, roster, k), Partnered(ClassCodes(roster, p[k]));
    ScaledSum(points, a, c, PartneredUpTo(p, roster, k + 1));
  }

  /** The repeated addition is the product of the points and the number of partnered students. */
  lemma {:induction false} ScaledIsProduct(points: real, n: nat)
    ensures Scaled(points, n) == points * n as real
  {
    if n > 0 {
      ScaledIsProduct(points, n - 1);
    }
  }

  // ---------------------------------------------------------------------
  // The evaluation counter of the search (`bewertung_mit_fortschritt`)
  // ---------------------------------------------------------------------

  /** `FORTSCHRITT_INTERVALL`. */
  const ProgressInterval: nat := 500

  /** After the `calls`-th evaluation a progress report is due (the first call precedes the search loop). */
  predicate ProgressDue(calls: nat) {
    calls > 1 && (calls - 1) % ProgressInterval == 0
  }

  /** Reports fall exactly every 500 evaluations: never in between, always 500 later. */
  lemma ProgressCadence(c: nat, d: nat)
    requires ProgressDue(c)
    ensures 0 < d < ProgressInterval ==> !ProgressDue(c + d)
    ensures ProgressDue(c + ProgressInterval)
  {
  }

  /** The first report comes after the 501st evaluation, i.e. after 500 iterations. */
  lemma FirstProgress(c: nat)
    requires ProgressDue(c)
    ensures c >= ProgressInterval + 1
  {
  }

  /** `hat_sprengel`: the column exists and some student has a value in it (possibly a blank one). */
  predicate HasCatchment(hasColumn: bool, roster: Roster) {
    hasColumn && exists sid :: sid in roster && roster[sid].catchment.Some?
  }

  /** A progress report: the iteration, the current score and the best score so far. */
  datatype Progress = Progress(iteration: nat, score: real, best: real)

  /**
   * The closure state of `bewertung_mit_fortschritt`: the table it scores
   * (the search passes back the table it was given), the call counter, the
   * last score and the best score (None standing for minus infinity), and
   * the reports handed to the callback.
   */
  class ProgressTracker {
    const roster: Roster
    const hasColumn: bool
    const hasCatchment: bool
    const points: real
    const reporting: bool
    var calls: nat
    var lastScore: real
    var best: Option<real>
    var reports: seq<Progress>
    ghost var scores: seq<real>

    /** `best` is the largest score returned so far and `lastScore` the latest one. */
    ghost predicate Valid()
      reads this
    {
      && calls == |scores|
      && lastScore == (if scores == [] then 0.0 else scores[|scores| - 1])
      && (best.None? <==> scores == [])
      && (best.Some? ==> (forall i :: 0 <= i < |scores| ==> scores[i] <= best.value)
                         && exists i :: 0 <= i < |scores| && scores[i] == best.value)
    }

    constructor (hasColumn: bool, roster: Roster, points: real, reporting: bool)
      ensures Valid()
      ensures this.roster == roster && this.hasColumn == hasColumn
      ensures hasCatchment == HasCatchment(hasColumn, roster)
      ensures this.points == points && this.reporting == reporting
      ensures calls == 0 && best == None && reports == [] && scores == []
    {
      this.roster := roster;
      this.hasColumn := hasColumn;
      hasCatchment := hasColumn && exists sid :: sid in roster && roster[sid].catchment.Some?;
      this.points := points;
      this.reporting := reporting;
      calls := 0;
      lastScore := 0.0;
      best := None;
      reports := [];
      scores := [];
    }

    /** One evaluation of partition `p` whose base score is `base`. */
    method Evaluate(p: Partition, base: real) returns (score: real)
      requires Valid()
      requires forall k :: 0 <= k < |p| ==> Placed(roster, p[k])
      modifies this
      ensures Valid()
      ensures score == (if hasCatchment then base + Bonus(p, roster, hasColumn, points) else base)
      ensures calls == old(calls) + 1 && scores == old(scores) + [score] && lastScore == score
      ensures best == Some(if old(best).Some? && score <= old(best).value then old(best).value else score)
      ensures old(best).Some? ==> old(best).value <= best.value
      ensures reports == old(reports) + (if reporting && ProgressDue(calls) then [Progress(calls - 1, score, best.value)] else [])
    {
      if hasCatchment {
        var bonus := CatchmentBonus(p, roster, hasColumn, points);
        score := base + bonus;
      } else {
        score := base;
      }
      calls := calls + 1;
      lastScore := score;
      scores := scores + [score];
      if best.None? || score > best.value {
        best := Some(score);
        assert scores[|scores| - 1] == score;
      } else {
        ghost var i :| 0 <= i < |old(scores)| && old(scores)[i] == best.value;
        assert scores[i] == best.value;
      }
      var iteration := calls - 1;
      if reporting && iteration > 0 && iteration % ProgressInterval == 0 {
        reports := reports + [Progress(iteration, score, best.value)];
      }
    }
  }
}
