/**
 * The quality assessment of `backend/pruefungen/qualitaet.py`: per class,
 * counts of genders, disruption scores, migration background, wishes and
 * separations, each rated by a traffic light; an overall rating that is the
 * worst of them all together with the class-size rating; and a summary.
 *
 * Percentages are reals and are not rounded (the program rounds them to one
 * or two decimals before rating some of them).
 */
module Quality {
  import opened Wrappers
  import opened Students

  // ---------------------------------------------------------------------
  // Traffic lights (`_ampel`, `SCHWELLEN`)
  // ---------------------------------------------------------------------

  /** `gruen`, `orange`, `rot`. */
  datatype Rating = Green | Orange | Red

  function Severity(r: Rating): nat {
    match r
    case Green => 0
    case Orange => 1
    case Red => 2
  }

  /** A green and an orange bound of `SCHWELLEN`. */
  datatype Bounds = Bounds(green: real, orange: real)

  const GenderBounds := Bounds(2.0, 4.0)
  const ScoreBounds := Bounds(10.0, 25.0)
  const MigrationBounds := Bounds(5.0, 10.0)
  const BoysBounds := Bounds(1.0, 3.0)
  const WishBounds := Bounds(75.0, 50.0)
  const SeparationBounds := Bounds(0.0, 0.0)
  const SizeBounds := Bounds(1.0, 2.0)

  /** `_ampel`: rate `value` against the bounds, where lower or higher is better. */
  function Ampel(value: real, b: Bounds, lowerIsBetter: bool): Rating {
    if lowerIsBetter then
      if value <= b.green then Green else if value <= b.orange then Orange else Red
    else
      if value >= b.green then Green else if value >= b.orange then Orange else Red
  }

  /**
   * Each rating holds exactly on its band: with lower better, green up to the
   * green bound, orange up to the orange bound, red above both; with higher
   * better, the same from above.
   */
  lemma AmpelBands(value: real, b: Bounds, lowerIsBetter: bool)
    ensures lowerIsBetter ==>
              && (Ampel(value, b, lowerIsBetter) == Green <==> value <= b.green)
              && (Ampel(value, b, lowerIsBetter) == Orange <==> b.green < value <= b.orange)
              && (Ampel(value, b, lowerIsBetter) == Red <==> b.green < value && b.orange < value)
    ensures !lowerIsBetter ==>
              && (Ampel(value, b, lowerIsBetter) == Green <==> value >= b.green)
              && (Ampel(value, b, lowerIsBetter) == Orange <==> b.orange <= value < b.green)
              && (Ampel(value, b, lowerIsBetter) == Red <==> value < b.green && value < b.orange)
  {
  }

  /** The worse of two ratings. */
  function Worse(a: Rating, b: Rating): Rating {
    if Severity(a) >= Severity(b) then a else b
  }

  /** The worst rating of a list; green for none. */
  function WorstOf(rs: seq<Rating>): (w: Rating)
    ensures forall i :: 0 <= i < |rs| ==> Severity(rs[i]) <= Severity(w)
    ensures rs == [] ==> w == Green
    ensures rs != [] ==> w in rs
  {
    if rs == [] then Green else Worse(WorstOf(rs[..|rs| - 1]), rs[|rs| - 1])
  }

  /**
   * The overall rating as the program decides it, by membership: red if any
   * rating is red, else orange if any is orange, else green; it is the worst.
   */
  lemma {:induction false} WorstOfByMembership(rs: seq<Rating>)
    ensures WorstOf(rs) == (if Red in rs then Red else if Orange in rs then Orange else Green)
  {
    var w := WorstOf(rs);
    if Red in rs {
      var i :| 0 <= i < |rs| && rs[i] == Red;
      assert Severity(rs[i]) <= Severity(w);
    } else if Orange in rs {
      var i :| 0 <= i < |rs| && rs[i] == Orange;
      assert Severity(rs[i]) <= Severity(w);
    } else if rs != [] {
      assert w in rs;
    }
  }

  /** Any separation violation alone makes its rating red, as both bounds are 0. */
  lemma SeparationViolationIsRed(violated: nat)
    ensures Ampel(violated as real, SeparationBounds, true) == Red <==> violated > 0
  {
  }

  // ---------------------------------------------------------------------
  // Class names (`_get_class_name`, `_baue_schueler_klasse_map`)
  // ---------------------------------------------------------------------

  predicate AllLetters(s: string) {
    forall i :: 0 <= i < |s| ==> 'A' <= s[i] <= 'Z'
  }

  /** The value of a letter in bijective base 26: A is 1, Z is 26. */
  function Digit(c: char): int {
    c as int - 'A' as int + 1
  }

  function Pow26(n: nat): nat {
    if n == 0 then 1 else 26 * Pow26(n - 1)
  }

  /** The number a letter string denotes in bijective base 26 ("A" = 1, "Z" = 26, "AA" = 27). */
  function Numeral(s: string): int {
    if s == [] then 0 else 26 * Numeral(s[..|s| - 1]) + Digit(s[|s| - 1])
  }

  /** `name` is the name of the class with 0-based index `i`. */
  predicate IsNameOf(name: string, i: int) {
    AllLetters(name) && Numeral(name) == i + 1
  }

  /** A letter string denotes 0 exactly when it is empty. */
  lemma {:induction false} NumeralZero(s: string)
    requires AllLetters(s)
    ensures Numeral(s) >= 0
    ensures Numeral(s) == 0 <==> s == []
  {
    if s != [] {
      NumeralZero(s[..|s| - 1]);
    }
  }

  /** Putting a letter in front adds its value at the highest place. */
  lemma {:induction false} NumeralPrepend(c: char, s: string)
    ensures Numeral([c] + s) == Digit(c) * Pow26(|s|) + Numeral(s)
  {
    if s != [] {
      var n := |s| - 1;
      var t := [c] + s;
      assert t[..|t| - 1] == [c] + s[..n] && t[|t| - 1] == s[n];
      NumeralPrepend(c, s[..n]);
      var d, p := Digit(c), Pow26(n);
      assert Pow26(|s|) == 26 * p;
      assert 26 * (d * p) == d * (26 * p);
    }
  }

  /** A bijective base-26 number splits uniquely into its last digit and the rest. */
  lemma LastDigit(a: int, da: int, b: int, db: int)
    requires 1 <= da <= 26 && 1 <= db <= 26 && 26 * a + da == 26 * b + db
    ensures a == b && da == db
  {
  }

  /** Different letter strings denote different numbers: class names never clash. */
  lemma {:induction false} NumeralInjective(s: string, t: string)
    requires AllLetters(s) && AllLetters(t) && Numeral(s) == Numeral(t)
    ensures s == t
  {
    NumeralZero(s);
    NumeralZero(t);
    if s != [] {
      var s', t' := s[..|s| - 1], t[..|t| - 1];
      var ds, dt := Digit(s[|s| - 1]), Digit(t[|t| - 1]);
      NumeralZero(s');
      NumeralZero(t');
      LastDigit(Numeral(s'), ds, Numeral(t'), dt);
      NumeralInjective(s', t');
      assert s == s' + [s[|s| - 1]] && t == t' + [t[|t| - 1]];
    }
  }

  /** The names of two classes are equal only for equal indices. */
  lemma ClassNamesDistinct(name1: string, i: int, name2: string, j: int)
    requires IsNameOf(name1, i) && IsNameOf(name2, j)
    ensures name1 == name2 <==> i == j
  {
    if i == j {
      NumeralInjective(name1, name2);
    }
  }

  /** The arithmetic of one turn: `i + 1` is `26 * (i / 26) + (i % 26 + 1)`. */
  lemma Regroup(i: int, p: int)
    requires i >= 0
    ensures (i / 26 - 1 + 1) * (26 * p) + (i % 26 + 1) * p == (i + 1) * p
  {
    var q, r := i / 26, i % 26;
    assert i + 1 == 26 * q + (r + 1);
    calc {
      (i + 1) * p;
      (26 * q + (r + 1)) * p;
      26 * q * p + (r + 1) * p;
      q * (26 * p) + (r + 1) * p;
    }
  }

  /** One turn of the name loop: the letter for `i % 26` goes in front and `i` becomes `i / 26 - 1`. */
  lemma ClassNameStep(i: int, name: string, index: int)
    requires i >= 0 && (i + 1) * Pow26(|name|) + Numeral(name) == index + 1
    ensures var c := (('A' as int) + i % 26) as char;
            (i / 26 - 1 + 1) * Pow26(|[c] + name|) + Numeral([c] + name) == index + 1
  {
    var c := (('A' as int) + i % 26) as char;
    NumeralPrepend(c, name);
    assert |[c] + name| == |name| + 1;
    Regroup(i, Pow26(|name|));
  }

  /** `_get_class_name`: index 0 is "A", 25 is "Z", 26 is "AA", 701 is "ZZ", 702 is "AAA". */
  method ClassName(index: nat) returns (name: string)
    ensures name != []
    ensures IsNameOf(name, index)
  {
    name := "";
    var i: int := index;
    while i >= 0
      invariant i >= -1
      invariant AllLetters(name)
      invariant (i + 1) * Pow26(|name|) + Numeral(name) == index + 1
      invariant i < index ==> name != []
      decreases i + 1
    {
      var c := (('A' as int) + i % 26) as char;
      ClassNameStep(i, name, index);
      name := [c] + name;
      i := i / 26 - 1;
    }
  }

  /** The assignment of one more class: its ids now point to it. */
  lemma AssignmentPrefix(p: Partition, k: int)
    requires 0 <= k < |p|
    ensures Assignment(p[..k + 1]) == Assignment(p[..k]) + map x | x in p[k] :: k
  {
    assert p[..k + 1][..k] == p[..k];
  }

  /** Naming the ids of one more class keeps the names consistent with the assignment. */
  lemma NamesClassesExtend(m: map<int, (nat, string)>, z: map<int, nat>, klasse: seq<int>, k: nat, name: string)
    requires NamesClasses(m, z) && IsNameOf(name, k)
    ensures NamesClasses(m + map x | x in klasse :: (k, name), z + map x | x in klasse :: k)
  {
  }

  /** `_baue_schueler_klasse_map`: each placed id with the index and name of its (last) class. */
  method BuildClassMap(p: Partition) returns (m: map<int, (nat, string)>)
    ensures NamesClasses(m, Assignment(p))
  {
    m := map[];
    var ki := 0;
    while ki < |p|
      invariant 0 <= ki <= |p|
      invariant NamesClasses(m, Assignment(p[..ki]))
    {
      var name := ClassName(ki);
      var klasse := p[ki];
      ghost var before := m;
      var j := 0;
      while j < |klasse|
        invariant 0 <= j <= |klasse|
        invariant m == before + map x | x in klasse[..j] :: (ki, name)
      {
        assert klasse[..j + 1] == klasse[..j] + [klasse[j]];
        m := m[klasse[j] := (ki, name)];
        j := j + 1;
      }
      assert klasse[..j] == klasse;
      AssignmentPrefix(p, ki);
      NamesClassesExtend(before, Assignment(p[..ki]), klasse, ki, name);
      ki := ki + 1;
    }
    assert p[..ki] == p;
  }

  // ---------------------------------------------------------------------
  // Per-class counts (`pruefe_einteilung`, sections 1 to 6)
  // ---------------------------------------------------------------------

  /** `set(klasse_ids)`. */
  function ClassSet(ids: seq<int>): set<int> {
    set x | x in ids
  }

  /** The students of `ids` (with repetitions) whose gender cell is `g`. */
  function CountGender(roster: Roster, ids: seq<int>, g: string): nat
    requires Placed(roster, ids)
  {
    if ids == [] then 0
    else
      var n := |ids| - 1;
      CountGender(roster, ids[..n], g) + (if roster[ids[n]].gender == g then 1 else 0)
  }

  /** `pd.to_numeric(errors="coerce").fillna(0)`: a missing or non-numeric score counts as 0. */
  function ScoreValue(c: ScoreCell): real {
    if c.Numeric? then c.value else 0.0
  }

  function ScoreSum(roster: Roster, ids: seq<int>): real
    requires Placed(roster, ids)
  {
    if ids == [] then 0.0
    else
      var n := |ids| - 1;
      ScoreSum(roster, ids[..n]) + ScoreValue(roster[ids[n]].score)
  }

  /** The students of `ids` whose migration cell is exactly "Ja". */
  function CountJa(roster: Roster, ids: seq<int>): nat
    requires Placed(roster, ids)
  {
    if ids == [] then 0
    else
      var n := |ids| - 1;
      CountJa(roster, ids[..n]) + (if roster[ids[n]].migration == Some("Ja") then 1 else 0)
  }

  /** Boys and girls together are at most the class size, and so is the "Ja" count. */
  lemma {:induction false} CountsBounded(roster: Roster, ids: seq<int>)
    requires Placed(roster, ids)
    ensures CountGender(roster, ids, "m") + CountGender(roster, ids, "w") <= |ids|
    ensures CountJa(roster, ids) <= |ids|
  {
    if ids != [] {
      CountsBounded(roster, ids[..|ids| - 1]);
    }
  }

  /** One pass over the class for the column-wise pandas counts. */
  method CountClass(roster: Roster, klasse: seq<int>)
    returns (male: nat, female: nat, migration: nat, scoreSum: real)
    requires Placed(roster, klasse)
    ensures male == CountGender(roster, klasse, "m")
    ensures female == CountGender(roster, klasse, "w")
    ensures migration == CountJa(roster, klasse)
    ensures scoreSum == ScoreSum(roster, klasse)
  {
    male, female, migration, scoreSum := 0, 0, 0, 0.0;
    var j := 0;
    while j < |klasse|
      invariant 0 <= j <= |klasse|
      invariant Placed(roster, klasse[..j])
      invariant male == CountGender(roster, klasse[..j], "m")
      invariant female == CountGender(roster, klasse[..j], "w")
      invariant migration == CountJa(roster, klasse[..j])
      invariant scoreSum == ScoreSum(roster, klasse[..j])
    {
      var st := roster[klasse[j]];
      assert klasse[..j + 1][..j] == klasse[..j];
      if st.gender == "m" {
        male := male + 1;
      }
      if st.gender == "w" {
        female := female + 1;
      }
      if st.migration == Some("Ja") {
        migration := migration + 1;
      }
      scoreSum := scoreSum + ScoreValue(st.score);
      j := j + 1;
    }
    assert klasse[..j] == klasse;
  }

  /** The wish ids a student's cells name: present, not the student, not 0 (deduplicated). */
  function WishCandidates(sid: int, cells: seq<Option<int>>): set<int> {
    set j | 0 <= j < |cells| && cells[j].Some? && cells[j].value != sid && cells[j].value != 0
      :: cells[j].value
  }

  /** The wishes that count: candidates that are roster students. */
  function WishTargets(roster: Roster, sid: int): set<int>
    requires sid in roster
  {
    WishCandidates(sid, roster[sid].wishes) * roster.Keys
  }

  function WishesTotal(roster: Roster, ids: seq<int>): nat
    requires Placed(roster, ids)
  {
    if ids == [] then 0
    else
      var n := |ids| - 1;
      WishesTotal(roster, ids[..n]) + |WishTargets(roster, ids[n])|
  }

  function WishesFulfilled(roster: Roster, ids: seq<int>, members: set<int>): nat
    requires Placed(roster, ids)
  {
    if ids == [] then 0
    else
      var n := |ids| - 1;
      WishesFulfilled(roster, ids[..n], members) + |WishTargets(roster, ids[n]) * members|
  }

  function WishesMissed(roster: Roster, ids: seq<int>, members: set<int>): nat
    requires Placed(roster, ids)
  {
    if ids == [] then 0
    else
      var n := |ids| - 1;
      WishesMissed(roster, ids[..n], members) + |WishTargets(roster, ids[n]) - members|
  }

  /** Every counted wish is either fulfilled or not: total = fulfilled + unfulfilled. */
  lemma {:induction false} WishesSplit(roster: Roster, ids: seq<int>, members: set<int>)
    requires Placed(roster, ids)
    ensures WishesTotal(roster, ids) == WishesFulfilled(roster, ids, members) + WishesMissed(roster, ids, members)
  {
    if ids != [] {
      var n := |ids| - 1;
      WishesSplit(roster, ids[..n], members);
      var a := WishTargets(roster, ids[n]);
      assert a == (a * members) + (a - members);
      assert (a * members) * (a - members) == {};
    }
  }

  /** A wish a student of class `klasse` does not get, with the class the wished student is in. */
  datatype MissedWish = MissedWish(student: int, klasse: string, wish: int, wishClass: Option<string>)

  /**
   * `e` reports a wish of a student of the class that is not fulfilled,
   * with the name of the class `z` places the wished student in, or None
   * (shown as "?") when it is not placed.
   */
  predicate IsMissedWish(roster: Roster, klasse: seq<int>, name: string, z: map<int, nat>, e: MissedWish) {
    && e.student in klasse && e.student in roster && e.klasse == name
    && e.wish in WishTargets(roster, e.student) && e.wish !in klasse
    && (if e.wish in z then e.wishClass.Some? && IsNameOf(e.wishClass.value, z[e.wish])
        else e.wishClass == None)
  }

  /** `classMap` holds, for every id `z` places, its class index and that class's name. */
  predicate NamesClasses(classMap: map<int, (nat, string)>, z: map<int, nat>) {
    && classMap.Keys == z.Keys
    && forall sid :: sid in classMap ==> classMap[sid].0 == z[sid] && IsNameOf(classMap[sid].1, z[sid])
  }

  /** The candidate loop of one student. */
  method CollectWishCandidates(sid: int, cells: seq<Option<int>>) returns (ids: set<int>)
    ensures ids == WishCandidates(sid, cells)
  {
    ids := {};
    var j := 0;
    while j < |cells|
      invariant 0 <= j <= |cells|
      invariant ids == WishCandidates(sid, cells[..j])
    {
      var c := cells[j];
      if c.Some? && c.value != sid && c.value != 0 {
        ids := ids + {c.value};
      }
      assert WishCandidates(sid, cells[..j + 1])
          == WishCandidates(sid, cells[..j])
             + (if c.Some? && c.value != sid && c.value != 0 then {c.value} else {});
      j := j + 1;
    }
    assert cells[..j] == cells;
  }

  /** The entry reporting that `sid` of class `name` misses wish `w`. */
  function MissedEntry(sid: int, name: string, w: int, classMap: map<int, (nat, string)>): MissedWish {
    MissedWish(sid, name, w, if w in classMap then Some(classMap[w].1) else None)
  }

  /**
   * The loop over one student's wish set: skip the ids outside `known`
   * (the roster), count the others, and list those outside `members`.
   */
  method TallyWishes(sid: int, cands: set<int>, known: set<int>, members: set<int>, name: string,
                     classMap: map<int, (nat, string)>)
    returns (total: nat, fulfilled: nat, missed: nat, entries: seq<MissedWish>)
    ensures total == |cands * known|
    ensures fulfilled == |cands * known * members|
    ensures missed == |cands * known - members|
    ensures |entries| == missed
    ensures forall e :: e in entries ==> exists w :: w in cands * known - members && e == MissedEntry(sid, name, w, classMap)
    ensures forall w :: w in cands * known - members ==> MissedEntry(sid, name, w, classMap) in entries
  {
    total, fulfilled, missed, entries := 0, 0, 0, [];
    // The wishes looked at so far that count, that are fulfilled, and that are missed.
    ghost var counted: set<int>, gotten: set<int>, lost: set<int> := {}, {}, {};
    var todo := cands;
    while todo != {}
      invariant todo <= cands
      invariant forall x :: x in counted <==> x in cands && x !in todo && x in known
      invariant forall x :: x in gotten <==> x in counted && x in members
      invariant forall x :: x in lost <==> x in counted && x !in members
      invariant total == |counted| && fulfilled == |gotten| && missed == |lost|
      invariant |entries| == missed
      invariant forall e :: e in entries ==> exists w :: w in lost && e == MissedEntry(sid, name, w, classMap)
      invariant forall w :: w in lost ==> MissedEntry(sid, name, w, classMap) in entries
      decreases |todo|
    {
      HasMember(todo);
      var w :| w in todo;
      todo := todo - {w};
      if w in known {
        counted := counted + {w};
        total := total + 1;
        if w in members {
          gotten := gotten + {w};
          fulfilled := fulfilled + 1;
        } else {
          lost := lost + {w};
          missed := missed + 1;
          entries := entries + [MissedEntry(sid, name, w, classMap)];
        }
      }
    }
    assert forall x :: x in counted <==> x in cands * known;
    assert counted == cands * known;
    assert forall x :: x in gotten <==> x in counted * members;
    assert gotten == counted * members;
    assert forall x :: x in lost <==> x in counted - members;
    assert lost == counted - members;
  }

  /** The wishes of one student of the class: counted, fulfilled, missed, and the missed ones listed. */
  method StudentWishes(roster: Roster, klasse: seq<int>, sid: int, name: string,
                       classMap: map<int, (nat, string)>, ghost z: map<int, nat>)
    returns (total: nat, fulfilled: nat, missed: nat, entries: seq<MissedWish>)
    requires Placed(roster, klasse) && sid in klasse && sid in roster && NamesClasses(classMap, z)
    ensures total == |WishTargets(roster, sid)|
    ensures fulfilled == |WishTargets(roster, sid) * ClassSet(klasse)|
    ensures missed == |WishTargets(roster, sid) - ClassSet(klasse)|
    ensures |entries| == missed
    ensures forall e :: e in entries ==> e.student == sid && IsMissedWish(roster, klasse, name, z, e)
    ensures forall w :: w in WishTargets(roster, sid) - ClassSet(klasse) ==>
              exists e :: e in entries && e.wish == w
  {
    var members := ClassSet(klasse);
    var cands := CollectWishCandidates(sid, roster[sid].wishes);
    total, fulfilled, missed, entries := TallyWishes(sid, cands, roster.Keys, members, name, classMap);
    forall w | w in WishTargets(roster, sid) - members
      ensures exists e :: e in entries && e.wish == w
    {
      assert MissedEntry(sid, name, w, classMap) in entries;
    }
  }

  /** Every missed wish of the first `i` students has an entry. */
  predicate MissedCovered(roster: Roster, klasse: seq<int>, members: set<int>, i: int, entries: seq<MissedWish>)
    requires Placed(roster, klasse) && 0 <= i <= |klasse|
  {
    forall k, w :: 0 <= k < i && w in WishTargets(roster, klasse[k]) - members ==>
      exists e :: e in entries && e.student == klasse[k] && e.wish == w
  }

  /** The entries of one more student cover its missed wishes. */
  lemma MissedCoverStep(roster: Roster, klasse: seq<int>, members: set<int>, i: int,
                        entries: seq<MissedWish>, es: seq<MissedWish>)
    requires Placed(roster, klasse) && 0 <= i < |klasse| && MissedCovered(roster, klasse, members, i, entries)
    requires forall e :: e in es ==> e.student == klasse[i]
    requires forall w :: w in WishTargets(roster, klasse[i]) - members ==> exists e :: e in es && e.wish == w
    ensures MissedCovered(roster, klasse, members, i + 1, entries + es)
  {
    forall k, w | 0 <= k < i + 1 && w in WishTargets(roster, klasse[k]) - members
      ensures exists e :: e in entries + es && e.student == klasse[k] && e.wish == w
    {
      if k < i {
        var e :| e in entries && e.student == klasse[k] && e.wish == w;
        assert e in entries + es;
      } else {
        var e :| e in es && e.wish == w;
        assert e in entries + es;
      }
    }
  }

  /** The wish loop over the students of one class. */
  method ClassWishes(roster: Roster, klasse: seq<int>, name: string,
                     classMap: map<int, (nat, string)>, ghost z: map<int, nat>)
    returns (total: nat, fulfilled: nat, missed: nat, entries: seq<MissedWish>)
    requires Placed(roster, klasse) && NamesClasses(classMap, z)
    ensures total == WishesTotal(roster, klasse)
    ensures fulfilled == WishesFulfilled(roster, klasse, ClassSet(klasse))
    ensures missed == WishesMissed(roster, klasse, ClassSet(klasse))
    ensures |entries| == missed
    ensures forall e :: e in entries ==> IsMissedWish(roster, klasse, name, z, e)
    ensures MissedCovered(roster, klasse, ClassSet(klasse), |klasse|, entries)
  {
    var members := ClassSet(klasse);
    total, fulfilled, missed, entries := 0, 0, 0, [];
    var i := 0;
    while i < |klasse|
      invariant 0 <= i <= |klasse|
      invariant total == WishesTotal(roster, klasse[..i])
      invariant fulfilled == WishesFulfilled(roster, klasse[..i], members)
      invariant missed == WishesMissed(roster, klasse[..i], members)
      invariant |entries| == missed
      invariant forall e :: e in entries ==> IsMissedWish(roster, klasse, name, z, e)
      invariant MissedCovered(roster, klasse, members, i, entries)
    {
      var sid := klasse[i];
      var t, f, m, es := StudentWishes(roster, klasse, sid, name, classMap, z);
      assert klasse[..i + 1][..i] == klasse[..i];
      total, fulfilled, missed := total + t, fulfilled + f, missed + m;
      MissedCoverStep(roster, klasse, members, i, entries, es);
      entries := entries + es;
      i := i + 1;
    }
    assert klasse[..i] == klasse;
  }

  /** The separation entries of one row: present and positive (self entries included). */
  function SepCount(cells: seq<Option<int>>): nat {
    if cells == [] then 0
    else
      var c := cells[|cells| - 1];
      SepCount(cells[..|cells| - 1]) + (if c.Some? && c.value > 0 then 1 else 0)
  }

  /** The entries of one row that name a student of the same class. */
  function SepHits(cells: seq<Option<int>>, members: set<int>): nat {
    if cells == [] then 0
    else
      var c := cells[|cells| - 1];
      SepHits(cells[..|cells| - 1], members) + (if c.Some? && c.value > 0 && c.value in members then 1 else 0)
  }

  function SepTotal(roster: Roster, ids: seq<int>): nat
    requires Placed(roster, ids)
  {
    if ids == [] then 0
    else
      var n := |ids| - 1;
      SepTotal(roster, ids[..n]) + SepCount(roster[ids[n]].separations)
  }

  function SepViolated(roster: Roster, ids: seq<int>, members: set<int>): nat
    requires Placed(roster, ids)
  {
    if ids == [] then 0
    else
      var n := |ids| - 1;
      SepViolated(roster, ids[..n], members) + SepHits(roster[ids[n]].separations, members)
  }

  lemma {:induction false} SepHitsBounded(cells: seq<Option<int>>, members: set<int>)
    ensures SepHits(cells, members) <= SepCount(cells)
  {
    if cells != [] {
      SepHitsBounded(cells[..|cells| - 1], members);
    }
  }

  /** A class never has more violated separation entries than entries. */
  lemma {:induction false} SepViolatedBounded(roster: Roster, ids: seq<int>, members: set<int>)
    requires Placed(roster, ids)
    ensures SepViolated(roster, ids, members) <= SepTotal(roster, ids)
  {
    if ids != [] {
      var n := |ids| - 1;
      SepViolatedBounded(roster, ids[..n], members);
      SepHitsBounded(roster[ids[n]].separations, members);
    }
  }

  /** A student who lists a classmate (or, as written, itself) as a separation gives a violation. */
  lemma {:induction false} SepHitsPositive(cells: seq<Option<int>>, members: set<int>, j: int)
    requires 0 <= j < |cells| && cells[j].Some? && cells[j].value > 0 && cells[j].value in members
    ensures SepHits(cells, members) > 0
  {
    var n := |cells| - 1;
    if j < n {
      assert cells[..n][j] == cells[j];
      SepHitsPositive(cells[..n], members, j);
    }
  }

  /** The separation loop over the students of one class. */
  method ClassSeparations(roster: Roster, klasse: seq<int>) returns (total: nat, violated: nat)
    requires Placed(roster, klasse)
    ensures total == SepTotal(roster, klasse)
    ensures violated == SepViolated(roster, klasse, ClassSet(klasse))
  {
    var members := ClassSet(klasse);
    total, violated := 0, 0;
    var i := 0;
    while i < |klasse|
      invariant 0 <= i <= |klasse|
      invariant Placed(roster, klasse[..i])
      invariant total == SepTotal(roster, klasse[..i])
      invariant violated == SepViolated(roster, klasse[..i], members)
    {
      var cells := roster[klasse[i]].separations;
      ghost var t0, v0 := total, violated;
      var j := 0;
      while j < |cells|
        invariant 0 <= j <= |cells|
        invariant total == t0 + SepCount(cells[..j])
        invariant violated == v0 + SepHits(cells[..j], members)
      {
        assert cells[..j + 1][..j] == cells[..j];
        var c := cells[j];
        if c.Some? && c.value > 0 {
          total := total + 1;
          if c.value in members {
            violated := violated + 1;
          }
        }
        j := j + 1;
      }
      assert cells[..j] == cells;
      assert klasse[..i + 1][..i] == klasse[..i];
      i := i + 1;
    }
    assert klasse[..i] == klasse;
  }

  // ---------------------------------------------------------------------
  // Roster-wide figures
  // ---------------------------------------------------------------------

  /** `abs(x - y)`. */
  function Distance(x: real, y: real): real {
    if x < y then y - x else x - y
  }

  /** A non-empty set of ids has a least element. */
  lemma {:induction false} HasLeast(s: set<int>)
    requires s != {}
    ensures exists x :: x in s && forall y :: y in s ==> x <= y
    decreases |s|
  {
    HasMember(s);
    var z :| z in s;
    if s - {z} != {} {
      HasLeast(s - {z});
      var m :| m in s - {z} && forall y :: y in s - {z} ==> m <= y;
      var least := if z < m then z else m;
      forall y | y in s
        ensures least <= y
      {
        if y != z {
          assert y in s - {z};
        }
      }
      assert least in s;
    } else {
      assert forall y :: y in s ==> y in s - {z} || y == z;
    }
  }

  /** The scores of the students `ids`, added up from the smallest id upwards. */
  ghost function ScoreOver(roster: Roster, ids: set<int>): real
    requires ids <= roster.Keys
    decreases |ids|
  {
    if ids == {} then 0.0
    else
      HasLeast(ids);
      var x :| x in ids && forall y :: y in ids ==> x <= y;
      ScoreValue(roster[x].score) + ScoreOver(roster, ids - {x})
  }

  function RosterBoys(roster: Roster): set<int> {
    set sid | sid in roster && roster[sid].gender == "m"
  }

  function RosterJa(roster: Roster): set<int> {
    set sid | sid in roster && roster[sid].migration == Some("Ja")
  }

  /** The figures every class is compared with. */
  datatype Totals = Totals(students: nat, classes: nat, migrationStagePct: real,
                           idealScore: real, idealBoys: real, idealSize: real)

  ghost function TotalsOf(roster: Roster, k: nat): Totals
    requires k > 0
  {
    var n := |roster|;
    Totals(n, k,
           if n > 0 then |RosterJa(roster)| as real / n as real * 100.0 else 0.0,
           ScoreOver(roster, roster.Keys) / k as real,
           |RosterBoys(roster)| as real / k as real,
           n as real / k as real)
  }

  /** The least id of `ids` is the one `ScoreOver` adds first. */
  lemma ScoreOverLeast(roster: Roster, ids: set<int>, x: int)
    requires ids <= roster.Keys && x in ids && forall y :: y in ids ==> x <= y
    ensures ScoreOver(roster, ids) == ScoreValue(roster[x].score) + ScoreOver(roster, ids - {x})
  {
    HasLeast(ids);
    var x' :| x' in ids && forall y :: y in ids ==> x' <= y;
    assert x' == x;
  }

  /** The number of boys and of students with migration background "Ja" in the roster. */
  method RosterCounts(roster: Roster) returns (boys: nat, ja: nat)
    ensures boys == |RosterBoys(roster)| && ja == |RosterJa(roster)|
  {
    boys, ja := 0, 0;
    ghost var seenBoys: set<int>, seenJa: set<int> := {}, {};
    var todo := roster.Keys;
    while todo != {}
      invariant todo <= roster.Keys
      invariant forall x :: x in seenBoys <==> x in roster && x !in todo && roster[x].gender == "m"
      invariant forall x :: x in seenJa <==> x in roster && x !in todo && roster[x].migration == Some("Ja")
      invariant boys == |seenBoys| && ja == |seenJa|
      decreases |todo|
    {
      HasMember(todo);
      var x :| x in todo;
      if roster[x].gender == "m" {
        boys := boys + 1;
        seenBoys := seenBoys + {x};
      }
      if roster[x].migration == Some("Ja") {
        ja := ja + 1;
        seenJa := seenJa + {x};
      }
      todo := todo - {x};
    }
    assert forall x :: x in seenBoys <==> x in RosterBoys(roster);
    assert seenBoys == RosterBoys(roster);
    assert forall x :: x in seenJa <==> x in RosterJa(roster);
    assert seenJa == RosterJa(roster);
  }

  /** The sum of the disruption scores of the roster; non-numeric cells count as 0. */
  method RosterScore(roster: Roster) returns (score: real)
    ensures score == ScoreOver(roster, roster.Keys)
  {
    score := 0.0;
    var todo := roster.Keys;
    while todo != {}
      invariant todo <= roster.Keys
      invariant score + ScoreOver(roster, todo) == ScoreOver(roster, roster.Keys)
      decreases |todo|
    {
      HasLeast(todo);
      var x :| x in todo && forall y :: y in todo ==> x <= y;
      ScoreOverLeast(roster, todo, x);
      score := score + ScoreValue(roster[x].score);
      todo := todo - {x};
    }
  }

  /** The roster-wide figures for `k` classes. */
  method ComputeTotals(roster: Roster, k: nat) returns (t: Totals)
    requires k > 0
    ensures t == TotalsOf(roster, k)
  {
    var boys, ja := RosterCounts(roster);
    var score := RosterScore(roster);
    var n := |roster|;
    t := Totals(n, k,
                if n > 0 then ja as real / n as real * 100.0 else 0.0,
                score / k as real,
                boys as real / k as real,
                n as real / k as real);
  }

  // ---------------------------------------------------------------------
  // Class reports and the whole assessment
  // ---------------------------------------------------------------------

  /** `part / whole * 100`, and 0 when there is nothing to divide by. */
  function Percent(part: real, whole: real): real {
    if whole > 0.0 then part / whole * 100.0 else 0.0
  }

  /** The share of fulfilled wishes in percent; 100 when there are no wishes. */
  function WishQuote(fulfilled: nat, total: nat): (q: real)
    ensures fulfilled <= total ==> 0.0 <= q <= 100.0
    ensures total > 0 && fulfilled == total ==> q == 100.0
    ensures total == 0 ==> q == 100.0
  {
    if total > 0 then ShareBound(fulfilled, total); fulfilled as real / total as real * 100.0 else 100.0
  }

  /** A part of a positive whole is between none and all of it. */
  lemma ShareBound(part: nat, whole: nat)
    requires whole > 0
    ensures part <= whole ==> 0.0 <= part as real / whole as real * 100.0 <= 100.0
  {
    var r := part as real / whole as real;
    assert r * whole as real == part as real;
    if part <= whole {
      assert r <= 1.0 by {
        if r > 1.0 {
          assert r * whole as real > whole as real;
        }
      }
    }
  }

  /** `KlassenPruefung`, without the rounding of the displayed averages. */
  datatype ClassReport = ClassReport(
    name: string, size: nat,
    male: nat, female: nat, genderDiff: nat, genderRating: Rating,
    scoreSum: real, scoreDeviationPct: real, scoreRating: Rating,
    migrationCount: nat, migrationSharePct: real, migrationDeviation: real, migrationRating: Rating,
    boysDeviation: real, boysRating: Rating,
    wishesTotal: nat, wishesFulfilled: nat, wishesMissed: nat, wishQuotePct: real, wishRating: Rating,
    missed: seq<MissedWish>,
    separationsTotal: nat, separationsViolated: nat, separationRating: Rating)

  /** The six ratings of a class, in the order the program collects them. */
  function ReportRatings(r: ClassReport): seq<Rating> {
    [r.genderRating, r.scoreRating, r.migrationRating, r.boysRating, r.wishRating, r.separationRating]
  }

  /** What the report of class `i` holds, given the roster-wide figures `t` and the placement `z`. */
  ghost predicate IsClassReport(roster: Roster, t: Totals, z: map<int, nat>, i: int, klasse: seq<int>, r: ClassReport)
    requires Placed(roster, klasse)
  {
    var members := ClassSet(klasse);
    && IsNameOf(r.name, i) && r.size == |klasse|
    // 1. gender
    && r.male == CountGender(roster, klasse, "m") && r.female == CountGender(roster, klasse, "w")
    && r.genderDiff as int == (if r.male >= r.female then r.male - r.female else r.female - r.male)
    && r.genderRating == Ampel(r.genderDiff as real, GenderBounds, true)
    // 2. disruption score
    && r.scoreSum == ScoreSum(roster, klasse)
    && r.scoreDeviationPct == Percent(Distance(r.scoreSum, t.idealScore), t.idealScore)
    && r.scoreRating == Ampel(r.scoreDeviationPct, ScoreBounds, true)
    // 3. migration background
    && r.migrationCount == CountJa(roster, klasse)
    && r.migrationSharePct == Percent(r.migrationCount as real, |klasse| as real)
    && r.migrationDeviation == Distance(r.migrationSharePct, t.migrationStagePct)
    && r.migrationRating == Ampel(r.migrationDeviation, MigrationBounds, true)
    // 4. boys
    && r.boysDeviation == Distance(r.male as real, t.idealBoys)
    && r.boysRating == Ampel(r.boysDeviation, BoysBounds, true)
    // 5. wishes
    && r.wishesTotal == WishesTotal(roster, klasse)
    && r.wishesFulfilled == WishesFulfilled(roster, klasse, members)
    && r.wishesMissed == WishesMissed(roster, klasse, members)
    && r.wishQuotePct == WishQuote(r.wishesFulfilled, r.wishesTotal)
    && r.wishRating == Ampel(r.wishQuotePct, WishBounds, false)
    && |r.missed| == r.wishesMissed
    && (forall e :: e in r.missed ==> IsMissedWish(roster, klasse, r.name, z, e))
    && MissedCovered(roster, klasse, members, |klasse|, r.missed)
    // 6. separations
    && r.separationsTotal == SepTotal(roster, klasse)
    && r.separationsViolated == SepViolated(roster, klasse, members)
    && r.separationRating == Ampel(r.separationsViolated as real, SeparationBounds, true)
  }

  /** The report of one class. */
  method AssessClass(roster: Roster, t: Totals, classMap: map<int, (nat, string)>, ghost z: map<int, nat>,
                     i: nat, klasse: seq<int>)
    returns (r: ClassReport)
    requires Placed(roster, klasse) && NamesClasses(classMap, z)
    ensures IsClassReport(roster, t, z, i, klasse, r)
  {
    var name := ClassName(i);
    var size := |klasse|;
    var male, female, migration, scoreSum := CountClass(roster, klasse);
    var genderDiff: nat := if male >= female then male - female else female - male;
    var scoreDev := Percent(Distance(scoreSum, t.idealScore), t.idealScore);
    var share := Percent(migration as real, size as real);
    var migrationDev := Distance(share, t.migrationStagePct);
    var boysDev := Distance(male as real, t.idealBoys);
    var wTotal, wFulfilled, wMissed, missed := ClassWishes(roster, klasse, name, classMap, z);
    var quote := WishQuote(wFulfilled, wTotal);
    var sTotal, sViolated := ClassSeparations(roster, klasse);
    r := ClassReport(
      name, size,
      male, female, genderDiff, Ampel(genderDiff as real, GenderBounds, true),
      scoreSum, scoreDev, Ampel(scoreDev, ScoreBounds, true),
      migration, share, migrationDev, Ampel(migrationDev, MigrationBounds, true),
      boysDev, Ampel(boysDev, BoysBounds, true),
      wTotal, wFulfilled, wMissed, quote, Ampel(quote, WishBounds, false),
      missed,
      sTotal, sViolated, Ampel(sViolated as real, SeparationBounds, true));
  }

  /** Every rating of every class, class after class. */
  function AllRatings(reports: seq<ClassReport>): seq<Rating> {
    if reports == [] then []
    else AllRatings(reports[..|reports| - 1]) + ReportRatings(reports[|reports| - 1])
  }

  function SumWishes(reports: seq<ClassReport>): nat {
    if reports == [] then 0 else SumWishes(reports[..|reports| - 1]) + reports[|reports| - 1].wishesTotal
  }

  function SumFulfilled(reports: seq<ClassReport>): nat {
    if reports == [] then 0 else SumFulfilled(reports[..|reports| - 1]) + reports[|reports| - 1].wishesFulfilled
  }

  function SumViolated(reports: seq<ClassReport>): nat {
    if reports == [] then 0 else SumViolated(reports[..|reports| - 1]) + reports[|reports| - 1].separationsViolated
  }

  /** `zusammenfassung`. */
  datatype Summary = Summary(
    classCount: nat, studentCount: nat, minSize: nat, maxSize: nat, idealSize: real, sizeRating: Rating,
    wishesTotal: nat, wishesFulfilled: nat, wishQuotePct: real, separationsViolated: nat)

  /** `GesamtPruefung`. */
  datatype Assessment = Assessment(classes: seq<ClassReport>, overall: Rating, summary: Summary)

  /** `pruefe_einteilung`. */
  method AssessPartition(p: Partition, roster: Roster) returns (a: Assessment)
    requires |p| > 0
    requires forall i :: 0 <= i < |p| ==> Placed(roster, p[i])
    ensures |a.classes| == |p|
    ensures forall i :: 0 <= i < |p| ==>
              IsClassReport(roster, TotalsOf(roster, |p|), Assignment(p), i, p[i], a.classes[i])
    ensures a.overall == WorstOf(AllRatings(a.classes) + [a.summary.sizeRating])
    ensures a.summary.classCount == |p| && a.summary.studentCount == |roster|
    ensures a.summary.idealSize == |roster| as real / |p| as real
    ensures IsSmallest(p, a.summary.minSize) && IsLargest(p, a.summary.maxSize)
    ensures a.summary.sizeRating == Ampel(MaxDeviation(p, a.summary.idealSize), SizeBounds, true)
    ensures a.summary.wishesTotal == SumWishes(a.classes)
    ensures a.summary.wishesFulfilled == SumFulfilled(a.classes)
    ensures a.summary.wishQuotePct == WishQuote(a.summary.wishesFulfilled, a.summary.wishesTotal)
    ensures a.summary.separationsViolated == SumViolated(a.classes)
  {
    var k := |p|;
    var t := ComputeTotals(roster, k);
    var classMap := BuildClassMap(p);
    ghost var z := Assignment(p);
    var reports := ClassReports(p, roster, t, classMap, z);
    var minSize, maxSize, maxDev := SizeFigures(p, t.idealSize);
    var sizeRating := Ampel(maxDev, SizeBounds, true);
    var overall := OverallRating(AllRatings(reports), sizeRating);
    var wishes, fulfilled := SumWishes(reports), SumFulfilled(reports);
    var quote := WishQuote(fulfilled, wishes);
    a := Assessment(reports, overall,
                    Summary(k, |roster|, minSize, maxSize, t.idealSize, sizeRating,
                            wishes, fulfilled, quote, SumViolated(reports)));
  }

  /** The reports of all classes, in class order. */
  method ClassReports(p: Partition, roster: Roster, t: Totals, classMap: map<int, (nat, string)>,
                      ghost z: map<int, nat>)
    returns (reports: seq<ClassReport>)
    requires forall i :: 0 <= i < |p| ==> Placed(roster, p[i])
    requires NamesClasses(classMap, z)
    ensures |reports| == |p|
    ensures forall i :: 0 <= i < |p| ==> IsClassReport(roster, t, z, i, p[i], reports[i])
  {
    reports := [];
    for i := 0 to |p|
      invariant |reports| == i
      invariant forall j :: 0 <= j < i ==> IsClassReport(roster, t, z, j, p[j], reports[j])
    {
      var r := AssessClass(roster, t, classMap, z, i, p[i]);
      reports := reports + [r];
    }
  }

  /** `m` is the size of a smallest class of `p`. */
  ghost predicate IsSmallest(p: Partition, m: nat) {
    && (forall i :: 0 <= i < |p| ==> m <= |p[i]|)
    && exists i :: 0 <= i < |p| && m == |p[i]|
  }

  /** `m` is the size of a largest class of `p`. */
  ghost predicate IsLargest(p: Partition, m: nat) {
    && (forall i :: 0 <= i < |p| ==> |p[i]| <= m)
    && exists i :: 0 <= i < |p| && m == |p[i]|
  }

  /** The largest distance of a class size from `ideal`. */
  function MaxDeviation(p: Partition, ideal: real): (d: real)
    requires |p| > 0
    ensures forall i :: 0 <= i < |p| ==> Distance(|p[i]| as real, ideal) <= d
    ensures exists i :: 0 <= i < |p| && d == Distance(|p[i]| as real, ideal)
  {
    var last := Distance(|p[|p| - 1]| as real, ideal);
    if |p| == 1 then last
    else
      var rest := MaxDeviation(p[..|p| - 1], ideal);
      if last > rest then last else rest
  }

  /** The smallest and largest class and the largest deviation from the ideal size. */
  method SizeFigures(p: Partition, ideal: real) returns (minSize: nat, maxSize: nat, maxDev: real)
    requires |p| > 0
    ensures IsSmallest(p, minSize) && IsLargest(p, maxSize)
    ensures maxDev == MaxDeviation(p, ideal)
  {
    minSize, maxSize := |p[0]|, |p[0]|;
    maxDev := Distance(|p[0]| as real, ideal);
    ghost var lo, hi, far := 0, 0, 0;
    for i := 1 to |p|
      invariant 0 <= lo < |p| && minSize == |p[lo]|
      invariant 0 <= hi < |p| && maxSize == |p[hi]|
      invariant 0 <= far < |p| && maxDev == Distance(|p[far]| as real, ideal)
      invariant forall j :: 0 <= j < i ==> minSize <= |p[j]| <= maxSize
      invariant forall j :: 0 <= j < i ==> Distance(|p[j]| as real, ideal) <= maxDev
    {
      if |p[i]| < minSize {
        minSize, lo := |p[i]|, i;
      }
      if |p[i]| > maxSize {
        maxSize, hi := |p[i]|, i;
      }
      var dev := Distance(|p[i]| as real, ideal);
      if dev > maxDev {
        maxDev, far := dev, i;
      }
    }
    DeviationUnique(p, ideal, maxDev);
  }

  /** The largest deviation is determined by being an upper bound that is attained. */
  lemma DeviationUnique(p: Partition, ideal: real, d: real)
    requires |p| > 0
    requires forall i :: 0 <= i < |p| ==> Distance(|p[i]| as real, ideal) <= d
    requires exists i :: 0 <= i < |p| && d == Distance(|p[i]| as real, ideal)
    ensures d == MaxDeviation(p, ideal)
  {
    var m := MaxDeviation(p, ideal);
    var i :| 0 <= i < |p| && d == Distance(|p[i]| as real, ideal);
    var j :| 0 <= j < |p| && m == Distance(|p[j]| as real, ideal);
  }

  /**
   * The overall rating: red if any class rating is red, else orange if any
   * is orange, else green; then the class-size rating can only make it worse.
   */
  method OverallRating(ratings: seq<Rating>, sizeRating: Rating) returns (overall: Rating)
    ensures overall == WorstOf(ratings + [sizeRating])
  {
    overall := if Red in ratings then Red else if Orange in ratings then Orange else Green;
    WorstOfByMembership(ratings);
    if sizeRating == Red {
      overall := Red;
    } else if sizeRating == Orange && overall == Green {
      overall := Orange;
    }
    assert (ratings + [sizeRating])[..|ratings|] == ratings;
  }

  /** A class with a violated separation entry makes the overall rating red. */
  lemma {:induction false} ViolationMakesRed(reports: seq<ClassReport>, size: Rating, i: int)
    requires 0 <= i < |reports|
    requires reports[i].separationRating == Ampel(reports[i].separationsViolated as real, SeparationBounds, true)
    requires reports[i].separationsViolated > 0
    ensures WorstOf(AllRatings(reports) + [size]) == Red
  {
    RatingsInAll(reports, i);
    assert reports[i].separationRating in AllRatings(reports) + [size];
    WorstOfByMembership(AllRatings(reports) + [size]);
  }

  /** Every rating of class `i` occurs in the collected ratings. */
  lemma {:induction false} RatingsInAll(reports: seq<ClassReport>, i: int)
    requires 0 <= i < |reports|
    ensures forall r :: r in ReportRatings(reports[i]) ==> r in AllRatings(reports)
  {
    var n := |reports| - 1;
    if i < n {
      assert reports[..n][i] == reports[i];
      RatingsInAll(reports[..n], i);
    }
  }

  /** The overall rating is green exactly when every rating, the class-size one included, is green. */
  lemma {:induction false} GreenOnlyIfAllGreen(rs: seq<Rating>)
    ensures WorstOf(rs) == Green <==> forall i :: 0 <= i < |rs| ==> rs[i] == Green
  {
    WorstOfByMembership(rs);
    if WorstOf(rs) != Green {
      assert Red in rs || Orange in rs;
    }
  }

  /** Over all classes, no more wishes are fulfilled than counted. */
  lemma {:induction false} SummaryWishesBounded(reports: seq<ClassReport>)
    requires forall i :: 0 <= i < |reports| ==> reports[i].wishesFulfilled <= reports[i].wishesTotal
    ensures SumFulfilled(reports) <= SumWishes(reports)
  {
    if reports != [] {
      SummaryWishesBounded(reports[..|reports| - 1]);
    }
  }
}
