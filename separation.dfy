/**
 * Separation constraints as `backend/api/routes.py` handles them: the
 * unordered separation pairs of a roster, their collapse to one partner per
 * student for the search, the bounded repair that moves students apart
 * after the search, and the check of a partition submitted by hand.
 *
 * Where the program iterates over a Python `set` of pairs, the order is not
 * specified; the methods below pick the next pair with `:|`, so every
 * contract holds for every iteration order.
 */
module Separation {
  import opened Wrappers
  import opened Students

  /** An unordered pair of students, stored with the smaller id first (`sorted(paar)`). */
  datatype Pair = Pair(lo: int, hi: int)

  /** Every pair has two different members, the smaller one first. */
  predicate WellFormed(pairs: set<Pair>) {
    forall p :: p in pairs ==> p.lo < p.hi
  }

  /** `frozenset({x, y})` for two different ids. */
  function MkPair(x: int, y: int): Pair {
    if x < y then Pair(x, y) else Pair(y, x)
  }

  predicate Involves(p: Pair, s: int) {
    p.lo == s || p.hi == s
  }

  /** `(paar - {s}).pop()`. */
  function Other(p: Pair, s: int): int {
    if p.lo == s then p.hi else p.lo
  }

  /** The students that occur in some pair. */
  function Members(pairs: set<Pair>): set<int> {
    (set p | p in pairs :: p.lo) + (set p | p in pairs :: p.hi)
  }

  // ---------------------------------------------------------------------
  // `_alle_trennungspaare`
  // ---------------------------------------------------------------------

  /** The pairs contributed by the first `n` separation cells of student `sid`. */
  function RowPairs(roster: Roster, sid: int, n: nat): set<Pair>
    requires sid in roster && n <= |roster[sid].separations|
  {
    var cells := roster[sid].separations;
    set j | 0 <= j < n && IsValidRef(roster, sid, cells[j]) :: MkPair(sid, CellValue(cells[j]))
  }

  /** The pairs contributed by the students in `ids`. */
  function PairsOf(roster: Roster, ids: set<int>): set<Pair> {
    set sid, j | sid in ids && sid in roster && 0 <= j < |roster[sid].separations|
                 && IsValidRef(roster, sid, roster[sid].separations[j])
      :: MkPair(sid, CellValue(roster[sid].separations[j]))
  }

  /** All separation pairs of the roster. */
  function SeparationPairs(roster: Roster): set<Pair> {
    PairsOf(roster, roster.Keys)
  }

  /**
   * A pair is a separation pair exactly when its members differ and one of
   * them, a roster student, validly lists the other in a separation cell.
   */
  lemma SeparationPairsExact(roster: Roster, p: Pair)
    ensures p in SeparationPairs(roster)
        <==> p.lo < p.hi
             && ((p.lo in roster && p.hi in ValidRefs(roster, p.lo, roster[p.lo].separations))
                 || (p.hi in roster && p.lo in ValidRefs(roster, p.hi, roster[p.hi].separations)))
  {
    if p.lo in roster {
      ValidRefsMembers(roster, p.lo, roster[p.lo].separations, p.hi);
    }
    if p.hi in roster {
      ValidRefsMembers(roster, p.hi, roster[p.hi].separations, p.lo);
    }
    if p in SeparationPairs(roster) {
      var sid, j :| sid in roster && 0 <= j < |roster[sid].separations|
                    && IsValidRef(roster, sid, roster[sid].separations[j])
                    && p == MkPair(sid, CellValue(roster[sid].separations[j]));
      assert sid == p.lo || sid == p.hi;
    }
  }

  /** Every separation pair is well formed and made of roster students. */
  lemma SeparationPairsWellFormed(roster: Roster)
    ensures WellFormed(SeparationPairs(roster))
    ensures Members(SeparationPairs(roster)) <= roster.Keys
  {
  }

  /** One more separation cell adds at most its own pair. */
  lemma RowPairsStep(roster: Roster, sid: int, j: nat)
    requires sid in roster && j < |roster[sid].separations|
    ensures RowPairs(roster, sid, j + 1)
            == RowPairs(roster, sid, j)
               + (if IsValidRef(roster, sid, roster[sid].separations[j])
                  then {MkPair(sid, CellValue(roster[sid].separations[j]))} else {})
  {
  }

  /** The pairs of one more student are those of its row. */
  lemma PairsOfAdd(roster: Roster, ids: set<int>, sid: int)
    ensures PairsOf(roster, ids + {sid})
            == PairsOf(roster, ids) + (if sid in roster then RowPairs(roster, sid, |roster[sid].separations|) else {})
  {
  }

  /** The extraction loop: every row, every separation cell. */
  method CollectSeparationPairs(roster: Roster) returns (pairs: set<Pair>)
    ensures pairs == SeparationPairs(roster)
  {
    pairs := {};
    var todo := roster.Keys;
    while todo != {}
      invariant todo <= roster.Keys
      invariant pairs == PairsOf(roster, roster.Keys - todo)
      decreases |todo|
    {
      HasMember(todo);
      var sid :| sid in todo;
      ghost var done := roster.Keys - todo;
      var cells := roster[sid].separations;
      var j := 0;
      while j < |cells|
        invariant 0 <= j <= |cells|
        invariant pairs == PairsOf(roster, done) + RowPairs(roster, sid, j)
      {
        if IsValidRef(roster, sid, cells[j]) {
          pairs := pairs + {MkPair(sid, CellValue(cells[j]))};
        }
        RowPairsStep(roster, sid, j);
        j := j + 1;
      }
      todo := todo - {sid};
      assert roster.Keys - todo == done + {sid};
      PairsOfAdd(roster, done, sid);
    }
  }

  // ---------------------------------------------------------------------
  // `_df_fuer_submodul`
  // ---------------------------------------------------------------------

  /** The members of one more pair. */
  lemma MembersAdd(pairs: set<Pair>, p: Pair)
    ensures Members(pairs + {p}) == Members(pairs) + {p.lo, p.hi}
  {
  }

  /** Every student's partner is different from it and forms one of the pairs with it. */
  predicate PartnersIn(partner: map<int, int>, pairs: set<Pair>) {
    forall s :: s in partner ==> partner[s] != s && MkPair(s, partner[s]) in pairs
  }

  /** Giving the members of a pair each other as partner, where they have none, keeps the partners real. */
  lemma PartnerStep(before: map<int, int>, pairs: set<Pair>, p: Pair, after: map<int, int>)
    requires PartnersIn(before, pairs) && p in pairs && p.lo < p.hi
    requires var mid := if p.lo !in before then before[p.lo := p.hi] else before;
             after == if p.hi !in mid then mid[p.hi := p.lo] else mid
    ensures PartnersIn(after, pairs)
    ensures after.Keys == before.Keys + {p.lo, p.hi}
  {
    assert MkPair(p.lo, p.hi) == p && MkPair(p.hi, p.lo) == p;
  }

  /**
   * The partner map: going through the pairs, each member that has no
   * partner yet gets the other member of the current pair.
   */
  method ConsolidatePartners(pairs: set<Pair>) returns (partner: map<int, int>)
    requires WellFormed(pairs)
    ensures partner.Keys == Members(pairs)
    ensures PartnersIn(partner, pairs)
  {
    partner := map[];
    var todo := pairs;
    while todo != {}
      invariant todo <= pairs
      invariant partner.Keys == Members(pairs - todo)
      invariant PartnersIn(partner, pairs)
      decreases |todo|
    {
      var p :| p in todo;
      ghost var done := pairs - todo;
      ghost var before := partner;
      if p.lo !in partner {
        partner := partner[p.lo := p.hi];
      }
      if p.hi !in partner {
        partner := partner[p.hi := p.lo];
      }
      PartnerStep(before, pairs, p, partner);
      todo := todo - {p};
      assert pairs - todo == done + {p};
      MembersAdd(done, p);
    }
  }

  /** A row with at most one separation cell contributes at most one pair. */
  lemma RowPairsAtMostOne(roster: Roster, sid: int)
    requires sid in roster && |roster[sid].separations| <= 1
    ensures |RowPairs(roster, sid, |roster[sid].separations|)| <= 1
  {
    assert RowPairs(roster, sid, 0) == {};
    if |roster[sid].separations| == 1 {
      RowPairsStep(roster, sid, 0);
    }
  }

  /** A roster whose rows have at most one separation cell has at most one pair per student. */
  lemma {:induction false} SingleCellPairsBound(roster: Roster, ids: set<int>)
    requires forall sid :: sid in roster ==> |roster[sid].separations| <= 1
    ensures |PairsOf(roster, ids)| <= |ids|
    decreases |ids|
  {
    if ids != {} {
      HasMember(ids);
      var sid :| sid in ids;
      var rest := ids - {sid};
      SingleCellPairsBound(roster, rest);
      PairsOfAdd(roster, rest, sid);
      assert rest + {sid} == ids;
      if sid in roster {
        RowPairsAtMostOne(roster, sid);
      }
    }
  }

  /** The roster with each row's separation cells replaced by one cell naming its partner, or 0. */
  function WithPartners(roster: Roster, partner: map<int, int>): Roster {
    map sid | sid in roster
      :: roster[sid].(separations := [Some(if sid in partner then partner[sid] else 0)])
  }

  /**
   * Every pair of the single-partner roster is a pair of the original one,
   * and there is at most one per student.
   */
  lemma WithPartnersPairs(roster: Roster, partner: map<int, int>)
    requires forall s :: s in partner ==> MkPair(s, partner[s]) in SeparationPairs(roster)
    ensures SeparationPairs(WithPartners(roster, partner)) <= SeparationPairs(roster)
    ensures |SeparationPairs(WithPartners(roster, partner))| <= |roster|
  {
    var r := WithPartners(roster, partner);
    forall p | p in SeparationPairs(r)
      ensures p in SeparationPairs(roster)
    {
      var sid, j :| sid in r && 0 <= j < |r[sid].separations|
                    && IsValidRef(r, sid, r[sid].separations[j])
                    && p == MkPair(sid, CellValue(r[sid].separations[j]));
      assert sid in partner;
    }
    SingleCellPairsBound(r, r.Keys);
    assert r.Keys == roster.Keys;
  }

  /**
   * The roster handed to the search: the separation columns replaced by one
   * column holding, per student, its partner from ConsolidatePartners, or 0.
   *
   * The search therefore sees only part of the separation pairs: every pair
   * it sees is a real one, but it sees at most one pair per student, while
   * repair and assessment work on all of them.
   */
  method PrepareForSearch(roster: Roster) returns (r: Roster)
    ensures r.Keys == roster.Keys
    ensures forall sid :: sid in r ==>
              && r[sid] == roster[sid].(separations := r[sid].separations)
              && |r[sid].separations| == 1 && r[sid].separations[0].Some?
              && (sid in Members(SeparationPairs(roster))
                  ==> MkPair(sid, CellValue(r[sid].separations[0])) in SeparationPairs(roster))
              && (sid !in Members(SeparationPairs(roster)) ==> r[sid].separations == [Some(0)])
    ensures SeparationPairs(r) <= SeparationPairs(roster)
    ensures |SeparationPairs(r)| <= |roster|
  {
    var pairs := CollectSeparationPairs(roster);
    SeparationPairsWellFormed(roster);
    var partner := ConsolidatePartners(pairs);
    r := map sid | sid in roster
           :: roster[sid].(separations := [Some(if sid in partner then partner[sid] else 0)]);
    assert r == WithPartners(roster, partner);
    WithPartnersPairs(roster, partner);
  }

  // ---------------------------------------------------------------------
  // `_erzwinge_trennungen`
  // ---------------------------------------------------------------------

  /** `max_durchlaeufe`. */
  const MaxPasses: nat := 100

  /**
   * A log entry: the student moved, the 1-based classes it left and joined,
   * and the member of the violated pair it was separated from.
   */
  datatype Move = Move(student: int, fromClass: nat, toClass: nat, partner: int)

  /** The repair stops with an error when the fallback has no other class to choose. */
  datatype RepairError = NoOtherClass

  /** `list.remove`: drop the first occurrence of `x`. */
  function RemoveFirst(s: seq<int>, x: int): (r: seq<int>)
    requires x in s
    ensures |r| == |s| - 1
    ensures multiset(r) + multiset{x} == multiset(s)
  {
    assert s == [s[0]] + s[1..];
    if s[0] == x then s[1..] else [s[0]] + RemoveFirst(s[1..], x)
  }

  /** `r` is `s` without its element at `i`, the first place `x` occurs. */
  predicate RemovedAt(s: seq<int>, x: int, i: int, r: seq<int>) {
    0 <= i < |s| && s[i] == x && x !in s[..i] && r == s[..i] + s[i + 1..]
  }

  /** Putting an element other than `x` in front shifts the removed place by one. */
  lemma ConsRemovedAt(a: int, t: seq<int>, x: int, i: int, r: seq<int>)
    requires a != x && RemovedAt(t, x, i, r)
    ensures RemovedAt([a] + t, x, i + 1, [a] + r)
  {
    var s := [a] + t;
    assert s[..i + 1] == [a] + t[..i];
    assert s[i + 2..] == t[i + 1..];
  }

  /** `list.remove(x)` takes out the first occurrence of `x` and keeps the rest in order. */
  lemma {:induction false} RemoveFirstAt(s: seq<int>, x: int)
    requires x in s
    ensures exists i :: RemovedAt(s, x, i, RemoveFirst(s, x))
  {
    if s[0] == x {
      assert s[..0] + s[1..] == s[1..];
      assert RemovedAt(s, x, 0, RemoveFirst(s, x));
    } else {
      var t := s[1..];
      assert s == [s[0]] + t;
      assert x in t;
      RemoveFirstAt(t, x);
      var i :| RemovedAt(t, x, i, RemoveFirst(t, x));
      ConsRemovedAt(s[0], t, x, i, RemoveFirst(t, x));
    }
  }

  /** The pairs whose members are both placed, in the same class. */
  function Violated(z: map<int, nat>, pairs: set<Pair>): set<Pair> {
    set p | p in pairs && p.lo in z && p.hi in z && z[p.lo] == z[p.hi]
  }

  /** The pairs that would be violated anew if `s` joined `klasse`. */
  function ConflictPairs(pairs: set<Pair>, s: int, klasse: seq<int>): set<Pair> {
    set p | p in pairs && Involves(p, s) && Other(p, s) in klasse
  }

  /** Moving `s` to class `t` puts it with none of its partners, and `t` is not its class `src`. */
  predicate IsCandidate(classes: Partition, pairs: set<Pair>, src: int, s: int, t: int) {
    0 <= t < |classes| && t != src && ConflictPairs(pairs, s, classes[t]) == {}
  }

  /** The position of (s, t) in the scan: every class for `a` first, then every class for the other student. */
  function ScanRank(a: int, k: int, s: int, t: int): int {
    if s == a then t else k + t
  }

  /** Some class is a candidate for a or b. */
  ghost predicate HasCandidate(classes: Partition, pairs: set<Pair>, src: int, a: int, b: int) {
    exists s, t :: (s == a || s == b) && IsCandidate(classes, pairs, src, s, t)
  }

  /**
   * Moving `s0` to `dst` is a candidate, `dst` is one of the smallest
   * candidate classes, and no candidate earlier in scan order is as small.
   */
  ghost predicate BestCandidate(classes: Partition, pairs: set<Pair>, src: int, a: int, b: int, s0: int, dst: int) {
    var k := |classes|;
    && (s0 == a || s0 == b) && IsCandidate(classes, pairs, src, s0, dst)
    && forall s, t :: (s == a || s == b) && IsCandidate(classes, pairs, src, s, t) ==>
         && |classes[dst]| <= |classes[t]|
         && (ScanRank(a, k, s, t) < ScanRank(a, k, s0, dst) ==> |classes[dst]| < |classes[t]|)
  }

  /** `dst` is the first of the smallest classes other than `src`. */
  predicate SmallestOtherClass(classes: Partition, src: int, dst: int) {
    && 0 <= dst < |classes| && dst != src
    && forall t :: 0 <= t < |classes| && t != src ==>
         |classes[dst]| <= |classes[t]| && (t < dst ==> |classes[dst]| < |classes[t]|)
  }

  /** `next` is `classes` with `x` taken out of class `src` and appended to class `dst`. */
  predicate Relocates(classes: Partition, next: Partition, x: int, src: int, dst: int) {
    && 0 <= src < |classes| && 0 <= dst < |classes| && x in classes[src]
    && next == classes[src := RemoveFirst(classes[src], x)][dst := classes[dst] + [x]]
  }

  /**
   * What one pass does once it has picked the violated pair {a, b} and found
   * the class `src` they share: it moves `m.student` out of `src` into
   * another class. If some conflict-free class exists for a or b, the move
   * goes to one of the smallest such classes, the first one in scan order;
   * otherwise b moves to the first of the smallest other classes.
   */
  ghost predicate IsRepairMove(classes: Partition, pairs: set<Pair>, next: Partition, m: Move) {
    var z := Assignment(classes);
    var k := |classes|;
    var a := if m.student < m.partner then m.student else m.partner;
    var b := if m.student < m.partner then m.partner else m.student;
    && Pair(a, b) in Violated(z, pairs)
    && 1 <= m.fromClass <= k && 1 <= m.toClass <= k && m.fromClass != m.toClass
    && m.fromClass - 1 == z[a]
    && Relocates(classes, next, m.student, m.fromClass - 1, m.toClass - 1)
    && if HasCandidate(classes, pairs, m.fromClass - 1, a, b) then
         BestCandidate(classes, pairs, m.fromClass - 1, a, b, m.student, m.toClass - 1)
       else
         m.student == b && SmallestOtherClass(classes, m.fromClass - 1, m.toClass - 1)
  }

  /** Moving `x` from class `src` to class `dst` keeps the number of classes and the placed ids. */
  lemma MovePreserves(classes: Partition, src: nat, dst: nat, x: int, next: Partition)
    requires src < |classes| && dst < |classes| && src != dst && x in classes[src]
    requires next == classes[src := RemoveFirst(classes[src], x)][dst := classes[dst] + [x]]
    ensures |next| == |classes|
    ensures multiset(Flatten(next)) == multiset(Flatten(classes))
  {
    var removed := RemoveFirst(classes[src], x);
    var mid := classes[src := removed];
    FlattenUpdate(classes, src, removed);
    // multiset(Flatten(mid)) + multiset(removed) + {x} == multiset(Flatten(classes)) + multiset(removed)
    Cancel(multiset(Flatten(mid)) + multiset{x}, multiset(Flatten(classes)), multiset(removed));
    FlattenUpdate(mid, dst, classes[dst] + [x]);
    assert mid[dst] == classes[dst];
    assert multiset(classes[dst] + [x]) == multiset(classes[dst]) + multiset{x};
    Cancel(multiset(Flatten(next)), multiset(Flatten(mid)) + multiset{x}, multiset(classes[dst]));
  }

  /** Multiset addition cancels. */
  lemma Cancel(a: multiset<int>, b: multiset<int>, c: multiset<int>)
    requires a + c == b + c
    ensures a == b
  {
    assert forall e :: a[e] == (a + c)[e] - c[e];
  }

  /** A repair move names two different classes in range and keeps the number of classes and the placed ids. */
  lemma RepairMovePreserves(classes: Partition, pairs: set<Pair>, next: Partition, m: Move)
    requires IsRepairMove(classes, pairs, next, m)
    ensures 1 <= m.fromClass <= |classes| && 1 <= m.toClass <= |classes| && m.fromClass != m.toClass
    ensures |next| == |classes|
    ensures multiset(Flatten(next)) == multiset(Flatten(classes))
  {
    MovePreserves(classes, m.fromClass - 1, m.toClass - 1, m.student, next);
  }

  /** The inner loop over all pairs (`neue_verletzungen`). */
  method CountConflicts(pairs: set<Pair>, s: int, klasse: seq<int>) returns (n: nat)
    ensures n == |ConflictPairs(pairs, s, klasse)|
  {
    n := 0;
    var todo := pairs;
    while todo != {}
      invariant todo <= pairs
      invariant n == |ConflictPairs(pairs - todo, s, klasse)|
      decreases |todo|
    {
      var p :| p in todo;
      ghost var done := pairs - todo;
      if Involves(p, s) && Other(p, s) in klasse {
        n := n + 1;
        assert ConflictPairs(done + {p}, s, klasse) == ConflictPairs(done, s, klasse) + {p};
      } else {
        assert ConflictPairs(done + {p}, s, klasse) == ConflictPairs(done, s, klasse);
      }
      todo := todo - {p};
      assert pairs - todo == done + {p};
    }
    assert pairs - todo == pairs;
  }

  /** One more pair is violated exactly when its members share a class. */
  lemma ViolatedAdd(z: map<int, nat>, done: set<Pair>, p: Pair)
    ensures Violated(z, done + {p})
            == Violated(z, done) + (if p.lo in z && p.hi in z && z[p.lo] == z[p.hi] then {p} else {})
  {
  }

  /** The loop that lists the violated pairs (`verletzt`). */
  method CollectViolated(z: map<int, nat>, pairs: set<Pair>) returns (violated: set<Pair>)
    ensures violated == Violated(z, pairs)
  {
    violated := {};
    var todo := pairs;
    while todo != {}
      invariant todo <= pairs
      invariant violated == Violated(z, pairs - todo)
      decreases |todo|
    {
      var p :| p in todo;
      ghost var done := pairs - todo;
      if p.lo in z && p.hi in z && z[p.lo] == z[p.hi] {
        violated := violated + {p};
      }
      ViolatedAdd(z, done, p);
      todo := todo - {p};
      assert pairs - todo == done + {p};
    }
    assert pairs - todo == pairs;
  }

  /**
   * After the scan has covered every position of rank below `upTo`, `best`
   * is the first of the smallest candidates seen, or None when none was seen.
   */
  ghost predicate BestSoFar(classes: Partition, pairs: set<Pair>, src: int, a: int, b: int,
                            best: Option<(int, int)>, upTo: int)
  {
    var k := |classes|;
    && (best.None? ==>
          forall s, t :: (s == a || s == b) && IsCandidate(classes, pairs, src, s, t)
                         ==> ScanRank(a, k, s, t) >= upTo)
    && (best.Some? ==>
          var bs, bt := best.value.0, best.value.1;
          && (bs == a || bs == b) && IsCandidate(classes, pairs, src, bs, bt)
          && ScanRank(a, k, bs, bt) < upTo
          && forall s, t :: (s == a || s == b) && IsCandidate(classes, pairs, src, s, t)
                            && ScanRank(a, k, s, t) < upTo ==>
               && |classes[bt]| <= |classes[t]|
               && (ScanRank(a, k, s, t) < ScanRank(a, k, bs, bt) ==> |classes[bt]| < |classes[t]|))
  }

  /** One round of the scan: every class as a destination for student `s`. */
  method ScanTargets(classes: Partition, pairs: set<Pair>, src: int, a: int, b: int, s: int,
                     best0: Option<(int, int)>, bestSize0: nat)
    returns (best: Option<(int, int)>, bestSize: nat)
    requires a < b && (s == a || s == b)
    requires BestSoFar(classes, pairs, src, a, b, best0, ScanRank(a, |classes|, s, 0))
    requires best0.Some? ==> 0 <= best0.value.1 < |classes| && bestSize0 == |classes[best0.value.1]|
    ensures BestSoFar(classes, pairs, src, a, b, best, ScanRank(a, |classes|, s, |classes|))
    ensures best.Some? ==> 0 <= best.value.1 < |classes| && bestSize == |classes[best.value.1]|
  {
    best, bestSize := best0, bestSize0;
    var k := |classes|;
    var t := 0;
    while t < k
      invariant 0 <= t <= k
      invariant BestSoFar(classes, pairs, src, a, b, best, ScanRank(a, k, s, t))
      invariant best.Some? ==> 0 <= best.value.1 < k && bestSize == |classes[best.value.1]|
    {
      if t != src {
        var n := CountConflicts(pairs, s, classes[t]);
        if n == 0 && (best.None? || |classes[t]| < bestSize) {
          best, bestSize := Some((s, t)), |classes[t]|;
        }
      }
      t := t + 1;
    }
  }

  /** `min(range without src, key=len)`: the first of the smallest other classes. */
  method SmallestOther(classes: Partition, src: int) returns (dst: int)
    requires |classes| >= 2
    ensures SmallestOtherClass(classes, src, dst)
  {
    dst := if src == 0 then 1 else 0;
    var t := dst + 1;
    while t < |classes|
      invariant dst < t <= |classes| && 0 <= dst && dst != src
      invariant forall u :: 0 <= u < t && u != src ==>
                  |classes[dst]| <= |classes[u]| && (u < dst ==> |classes[dst]| < |classes[u]|)
    {
      if t != src && |classes[t]| < |classes[dst]| {
        dst := t;
      }
      t := t + 1;
    }
  }

  /** Once both rounds are over, the scan's result is the best candidate, or there is none. */
  lemma ScanComplete(classes: Partition, pairs: set<Pair>, a: int, b: int, src: int, best: Option<(int, int)>)
    requires a < b
    requires BestSoFar(classes, pairs, src, a, b, best, ScanRank(a, |classes|, b, |classes|))
    ensures best.None? <==> !HasCandidate(classes, pairs, src, a, b)
    ensures best.Some? ==> BestCandidate(classes, pairs, src, a, b, best.value.0, best.value.1)
  {
    var k := |classes|;
    assert forall s, t ::
      (s == a || s == b) && IsCandidate(classes, pairs, src, s, t) ==> ScanRank(a, k, s, t) < ScanRank(a, k, b, k);
  }

  /**
   * The move a pass makes after both scan rounds: the best candidate found,
   * or, when there is none, b to the first of the smallest other classes,
   * is a repair move.
   */
  lemma ScanMove(classes: Partition, pairs: set<Pair>, a: int, b: int, src: int, student: int, dst: int, next: Partition)
    requires a < b && Pair(a, b) in Violated(Assignment(classes), pairs)
    requires src == Assignment(classes)[a]
    requires HasCandidate(classes, pairs, src, a, b) ==> BestCandidate(classes, pairs, src, a, b, student, dst)
    requires !HasCandidate(classes, pairs, src, a, b) ==> student == b && SmallestOtherClass(classes, src, dst)
    requires Relocates(classes, next, student, src, dst)
    ensures IsRepairMove(classes, pairs, next, Move(student, src + 1, dst + 1, if student == b then a else b))
  {
    var m := Move(student, src + 1, dst + 1, if student == b then a else b);
    assert m.fromClass - 1 == src && m.toClass - 1 == dst;
    assert student == a || student == b;
  }

  /** What one pass of the repair loop ends in. */
  datatype PassOutcome = Settled | Moved(next: Partition, entry: Move) | Stuck

  /** One pass of the repair loop. */
  method RepairPass(classes: Partition, pairs: set<Pair>) returns (outcome: PassOutcome)
    requires WellFormed(pairs)
    ensures outcome.Settled? <==> Violated(Assignment(classes), pairs) == {}
    ensures outcome.Stuck? <==> Violated(Assignment(classes), pairs) != {} && |classes| < 2
    ensures outcome.Moved? ==> IsRepairMove(classes, pairs, outcome.next, outcome.entry)
  {
    var z := BuildAssignment(classes);
    var violated := CollectViolated(z, pairs);
    if violated == {} {
      return Settled;
    }
    var pair :| pair in violated;
    var a, b := pair.lo, pair.hi;
    assert a < b && a in z && b in z && z[a] == z[b];
    var src := z[a];
    AssignmentLast(classes, a);
    AssignmentLast(classes, b);
    var k := |classes|;

    var best: Option<(int, int)>, bestSize: nat := None, 0;
    best, bestSize := ScanTargets(classes, pairs, src, a, b, a, best, bestSize);
    best, bestSize := ScanTargets(classes, pairs, src, a, b, b, best, bestSize);

    var student, dst;
    if best.Some? {
      student, dst := best.value.0, best.value.1;
    } else {
      if k < 2 {
        return Stuck;
      }
      student := b;
      dst := SmallestOther(classes, src);
    }
    var next := classes[src := RemoveFirst(classes[src], student)];
    next := next[dst := classes[dst] + [student]];
    assert Relocates(classes, next, student, src, dst);
    ScanComplete(classes, pairs, a, b, src, best);
    ScanMove(classes, pairs, a, b, src, student, dst, next);
    outcome := Moved(next, Move(student, src + 1, dst + 1, if student == b then a else b));
  }

  /**
   * `log` is a sequence of repair moves, the i-th leading from `states[i]`
   * to `states[i + 1]`.
   */
  ghost predicate IsRepairRun(states: seq<Partition>, pairs: set<Pair>, log: seq<Move>) {
    && |states| == |log| + 1
    && forall i :: 0 <= i < |log| ==> IsRepairMove(states[i], pairs, states[i + 1], log[i])
  }

  /** One more repair move extends a run. */
  lemma RunExtend(states: seq<Partition>, pairs: set<Pair>, log: seq<Move>, next: Partition, m: Move)
    requires IsRepairRun(states, pairs, log)
    requires IsRepairMove(states[|log|], pairs, next, m)
    ensures IsRepairRun(states + [next], pairs, log + [m])
  {
    var s2, l2 := states + [next], log + [m];
    forall i | 0 <= i < |l2|
      ensures IsRepairMove(s2[i], pairs, s2[i + 1], l2[i])
    {
      if i < |log| {
        assert s2[i] == states[i] && s2[i + 1] == states[i + 1] && l2[i] == log[i];
      }
    }
  }

  /** The first `n` moves of a run keep the number of classes and the placed ids. */
  lemma {:induction false} RunPrefix(states: seq<Partition>, pairs: set<Pair>, log: seq<Move>, n: nat)
    requires IsRepairRun(states, pairs, log) && n <= |log|
    ensures |states[n]| == |states[0]|
    ensures multiset(Flatten(states[n])) == multiset(Flatten(states[0]))
  {
    if n > 0 {
      RunPrefix(states, pairs, log, n - 1);
      RepairMovePreserves(states[n - 1], pairs, states[n], log[n - 1]);
    }
  }

  /**
   * A run keeps the number of classes and the placed ids, and every log
   * entry names two different classes in range.
   */
  lemma RunFacts(states: seq<Partition>, pairs: set<Pair>, log: seq<Move>)
    requires IsRepairRun(states, pairs, log)
    ensures |states[|log|]| == |states[0]|
    ensures multiset(Flatten(states[|log|])) == multiset(Flatten(states[0]))
    ensures forall i :: 0 <= i < |log| ==>
              1 <= log[i].fromClass <= |states[0]| && 1 <= log[i].toClass <= |states[0]|
              && log[i].fromClass != log[i].toClass
  {
    RunPrefix(states, pairs, log, |log|);
    forall i | 0 <= i < |log|
      ensures 1 <= log[i].fromClass <= |states[0]| && 1 <= log[i].toClass <= |states[0]|
              && log[i].fromClass != log[i].toClass
    {
      RunPrefix(states, pairs, log, i);
      RepairMovePreserves(states[i], pairs, states[i + 1], log[i]);
    }
  }

  /**
   * `_erzwinge_trennungen`: at most MaxPasses passes, each either stopping
   * because no pair is violated or performing one move and logging it. The
   * ghost `states` are the partitions between the moves.
   */
  method RepairSeparations(partition: Partition, roster: Roster)
    returns (result: Result<(Partition, seq<Move>), RepairError>, ghost states: seq<Partition>)
    ensures SeparationPairs(roster) == {} ==> result == Success((partition, []))
    ensures result.Failure? <==>
              |partition| == 1 && Violated(Assignment(partition), SeparationPairs(roster)) != {}
    ensures result.Success? ==>
              var (classes, log) := result.value;
              && |classes| == |partition|
              && multiset(Flatten(classes)) == multiset(Flatten(partition))
              && |log| <= MaxPasses
              && (forall i :: 0 <= i < |log| ==>
                    1 <= log[i].fromClass <= |partition| && 1 <= log[i].toClass <= |partition|
                    && log[i].fromClass != log[i].toClass)
              && (|log| < MaxPasses ==> Violated(Assignment(classes), SeparationPairs(roster)) == {})
    ensures result.Success? ==>
              var (classes, log) := result.value;
              && |states| == |log| + 1 && states[0] == partition && states[|log|] == classes
              && IsRepairRun(states, SeparationPairs(roster), log)
  {
    var pairs := CollectSeparationPairs(roster);
    SeparationPairsWellFormed(roster);
    states := [partition];
    if pairs == {} {
      return Success((partition, [])), states;
    }
    var classes := partition;
    var log: seq<Move> := [];
    var pass := 0;
    while pass < MaxPasses
      invariant 0 <= pass <= MaxPasses && |log| == pass
      invariant IsRepairRun(states, pairs, log)
      invariant states[0] == partition && states[|log|] == classes
      invariant |classes| == |partition|
      invariant |partition| < 2 ==> pass == 0
    {
      var outcome := RepairPass(classes, pairs);
      match outcome
      case Settled =>
        RunFacts(states, pairs, log);
        return Success((classes, log)), states;
      case Stuck =>
        return Failure(NoOtherClass), states;
      case Moved(next, m) =>
        RepairMovePreserves(classes, pairs, next, m);
        RunExtend(states, pairs, log, next, m);
        classes := next;
        log := log + [m];
        states := states + [next];
      pass := pass + 1;
    }
    RunFacts(states, pairs, log);
    result := Success((classes, log));
  }

  // ---------------------------------------------------------------------
  // The partition check of `verschiebe_schueler`
  // ---------------------------------------------------------------------

  /** Why a partition submitted by hand is refused (HTTP 400 in the program). */
  datatype PartitionError =
    | UnknownStudent(id: int)
    | DuplicateStudent(id: int)
    | CountMismatch(placed: nat, expected: nat)

  /** A separation pair placed in one class, with that class's 1-based number. */
  datatype Violation = Violation(a: int, b: int, classNumber: nat)

  predicate NoDuplicates(f: seq<int>) {
    forall i, j :: 0 <= i < j < |f| ==> f[i] != f[j]
  }

  /** Every placed id is in the roster, none is placed twice, and as many are placed as the roster holds. */
  predicate IsRosterPartition(p: Partition, roster: Roster) {
    var f := Flatten(p);
    && (forall i :: 0 <= i < |f| ==> f[i] in roster)
    && NoDuplicates(f)
    && |f| == |roster|
  }

  /** Position `i` is the first one, in class order, holding an unknown or repeated id. */
  ghost predicate FirstBadPosition(f: seq<int>, roster: Roster, i: int) {
    && 0 <= i < |f|
    && (forall j :: 0 <= j < i ==> f[j] in roster && f[j] !in f[..j])
    && (f[i] !in roster || f[i] in f[..i])
  }

  /** The violated pairs of an assignment, each with its class's 1-based number. */
  function Report(z: map<int, nat>, pairs: set<Pair>): set<Violation> {
    set q | q in Violated(z, pairs) :: Violation(q.lo, q.hi, z[q.lo] + 1)
  }

  /** A sequence without repetitions has as many distinct elements as positions. */
  lemma {:induction false} DistinctCount(f: seq<int>)
    requires NoDuplicates(f)
    ensures |set x | x in f| == |f|
  {
    if f != [] {
      var front := f[..|f| - 1];
      DistinctCount(front);
      assert (set x | x in f) == (set x | x in front) + {f[|f| - 1]};
      assert f[|f| - 1] !in front;
    }
  }

  /** An accepted partition places exactly the roster students. */
  lemma RosterPartitionCovers(p: Partition, roster: Roster)
    requires IsRosterPartition(p, roster)
    ensures (set x | x in Flatten(p)) == roster.Keys
  {
    var f := Flatten(p);
    DistinctCount(f);
    var placed := set x | x in f;
    assert placed <= roster.Keys;
    SubsetSameSize(placed, roster.Keys);
  }

  /** In an accepted partition every roster student sits in exactly one class, the one Assignment gives. */
  lemma RosterPartitionAssigns(p: Partition, roster: Roster, x: int)
    requires IsRosterPartition(p, roster) && x in roster
    ensures x in Assignment(p)
    ensures forall i :: 0 <= i < |p| && x in p[i] ==> i == Assignment(p)[x]
  {
    RosterPartitionCovers(p, roster);
    assert x in set y | y in Flatten(p);
    AssignmentDomain(p, x);
    AssignmentLast(p, x);
    var k := Assignment(p)[x];
    forall i | 0 <= i < |p| && x in p[i]
      ensures i == k
    {
      if i != k {
        assert i < k;
        OnceInFlatten(p, x, i, k);
      }
    }
  }

  /** An id held by two different classes occurs twice in the flattened partition. */
  lemma {:induction false} OnceInFlatten(p: Partition, x: int, i: int, k: int)
    requires 0 <= i < k < |p| && x in p[i] && x in p[k]
    ensures !NoDuplicates(Flatten(p))
  {
    var n := |p| - 1;
    var front := Flatten(p[..n]);
    assert Flatten(p) == front + p[n];
    if k < n {
      assert p[..n][i] == p[i] && p[..n][k] == p[k];
      OnceInFlatten(p[..n], x, i, k);
      var u, v :| 0 <= u < v < |front| && front[u] == front[v];
      assert Flatten(p)[u] == Flatten(p)[v];
    } else {
      FlattenMembers(p[..n], x);
      assert p[..n][i] == p[i];
      var u :| 0 <= u < |front| && front[u] == x;
      var v :| 0 <= v < |p[n]| && p[n][v] == x;
      assert Flatten(p)[u] == x && Flatten(p)[|front| + v] == x;
    }
  }

  /** The scan over the placed ids: the first unknown or repeated one, if any. */
  method FindBadId(f: seq<int>, roster: Roster) returns (bad: Option<int>)
    ensures bad.None? <==> (forall i :: 0 <= i < |f| ==> f[i] in roster) && NoDuplicates(f)
    ensures bad.Some? ==> exists i :: FirstBadPosition(f, roster, i) && f[i] == bad.value
  {
    var seen: set<int> := {};
    var i := 0;
    while i < |f|
      invariant 0 <= i <= |f|
      invariant seen == set x | x in f[..i]
      invariant forall j :: 0 <= j < i ==> f[j] in roster && f[j] !in f[..j]
    {
      var sid := f[i];
      if sid !in roster || sid in seen {
        assert FirstBadPosition(f, roster, i);
        if sid in seen {
          var j :| 0 <= j < i && f[j] == sid;
          assert !NoDuplicates(f);
        }
        return Some(sid);
      }
      assert f[..i + 1] == f[..i] + [sid];
      seen := seen + {sid};
      i := i + 1;
    }
    forall u, v | 0 <= u < v < |f|
      ensures f[u] != f[v]
    {
      assert f[u] in f[..v];
    }
    bad := None;
  }

  /** One more pair adds its report exactly when its members share a class. */
  lemma ReportAdd(z: map<int, nat>, done: set<Pair>, q: Pair)
    ensures Report(z, done + {q})
            == Report(z, done)
               + (if q.lo in z && q.hi in z && z[q.lo] == z[q.hi] then {Violation(q.lo, q.hi, z[q.lo] + 1)} else {})
  {
    ViolatedAdd(z, done, q);
  }

  /** The loop that reports the same-class pairs. */
  method CollectReport(z: map<int, nat>, pairs: set<Pair>) returns (violations: set<Violation>)
    ensures violations == Report(z, pairs)
  {
    violations := {};
    var todo := pairs;
    while todo != {}
      invariant todo <= pairs
      invariant violations == Report(z, pairs - todo)
      decreases |todo|
    {
      var q :| q in todo;
      ghost var done := pairs - todo;
      if q.lo in z && q.hi in z && z[q.lo] == z[q.hi] {
        violations := violations + {Violation(q.lo, q.hi, z[q.lo] + 1)};
      }
      ReportAdd(z, done, q);
      todo := todo - {q};
      assert pairs - todo == done + {q};
    }
    assert pairs - todo == pairs;
  }

  /**
   * The check of `verschiebe_schueler`: refuse unknown and repeated ids
   * (reporting the first in class order) and a wrong count; otherwise report
   * every separation pair whose members share a class.
   */
  method CheckManualPartition(p: Partition, roster: Roster) returns (r: Result<set<Violation>, PartitionError>)
    ensures r.Success? <==> IsRosterPartition(p, roster)
    ensures r.Failure? && r.error.UnknownStudent? ==>
              exists i :: FirstBadPosition(Flatten(p), roster, i) && Flatten(p)[i] == r.error.id
                          && r.error.id !in roster
    ensures r.Failure? && r.error.DuplicateStudent? ==>
              exists i :: FirstBadPosition(Flatten(p), roster, i) && Flatten(p)[i] == r.error.id
                          && r.error.id in roster && r.error.id in Flatten(p)[..i]
    ensures r.Failure? && r.error.CountMismatch? ==>
              r.error.placed == |Flatten(p)| && r.error.expected == |roster| && r.error.placed != r.error.expected
    ensures r.Success? ==> r.value == Report(Assignment(p), SeparationPairs(roster))
  {
    // The nested loop over classes and ids visits the ids in the order of Flatten(p).
    var f := Flatten(p);
    var bad := FindBadId(f, roster);
    if bad.Some? {
      if bad.value !in roster {
        return Failure(UnknownStudent(bad.value));
      }
      return Failure(DuplicateStudent(bad.value));
    }
    // With no id repeated, the set of placed ids is as large as the list.
    DistinctCount(f);
    var placed := |set x | x in f|;
    if placed != |roster| {
      return Failure(CountMismatch(placed, |roster|));
    }
    var pairs := CollectSeparationPairs(roster);
    var z := BuildAssignment(p);
    var violations := CollectReport(z, pairs);
    r := Success(violations);
  }
}
