/**
 * The roster and the partition every other component reads.
 *
 * A roster maps a student id (the DataFrame index) to the student's row.
 * Wish and separation cells are kept in column order as already parsed
 * optional integers: `None` is an empty or non-numeric cell, which the
 * program's `_safe_int` reads as 0. A partition lists, per class, the ids
 * placed in it.
 */
module Students {
  import opened Wrappers

  /** The disruption-score cell: empty, text that is not a number, or a number. */
  datatype ScoreCell = Missing | NonNumeric(text: string) | Numeric(value: real)

  /** One roster row. */
  datatype Student = Student(
    gender: string,                 // "Geschlecht", already converted to text
    score: ScoreCell,               // "Auffaelligkeit_Score"
    migration: Option<string>,      // "Migrationshintergrund / 2. Staatsangehörigkeit"
    catchment: Option<string>,      // "Sprengel"
    wishes: seq<Option<int>>,       // the Wunsch_i cells
    separations: seq<Option<int>>   // the Trennen_Von cells
  )

  type Roster = map<int, Student>

  /** One sequence of student ids per class. */
  type Partition = seq<seq<int>>

  /** `_safe_int`: an empty cell reads as 0. */
  function CellValue(c: Option<int>): int {
    if c.Some? then c.value else 0
  }

  /** A cell refers to another student of the roster: positive, known and not `sid` itself. */
  predicate IsValidRef(roster: Roster, sid: int, c: Option<int>) {
    var v := CellValue(c);
    v > 0 && v in roster && v != sid
  }

  /** The ids the cells of student `sid` validly refer to, in column order. */
  function ValidRefs(roster: Roster, sid: int, cells: seq<Option<int>>): (r: seq<int>)
    ensures |r| <= |cells|
    ensures forall x :: x in r ==> x > 0 && x in roster && x != sid
  {
    if cells == [] then []
    else
      var last := cells[|cells| - 1];
      ValidRefs(roster, sid, cells[..|cells| - 1]) + (if IsValidRef(roster, sid, last) then [CellValue(last)] else [])
  }

  /** An id occurs among the valid references exactly when some cell validly names it. */
  lemma {:induction false} ValidRefsMembers(roster: Roster, sid: int, cells: seq<Option<int>>, x: int)
    ensures x in ValidRefs(roster, sid, cells)
        <==> exists j :: 0 <= j < |cells| && IsValidRef(roster, sid, cells[j]) && CellValue(cells[j]) == x
  {
    if cells != [] {
      var front := cells[..|cells| - 1];
      ValidRefsMembers(roster, sid, front, x);
      if exists j :: 0 <= j < |front| && IsValidRef(roster, sid, front[j]) && CellValue(front[j]) == x {
        var j :| 0 <= j < |front| && IsValidRef(roster, sid, front[j]) && CellValue(front[j]) == x;
        assert cells[j] == front[j];
      }
      if exists j :: 0 <= j < |cells| && IsValidRef(roster, sid, cells[j]) && CellValue(cells[j]) == x {
        var j :| 0 <= j < |cells| && IsValidRef(roster, sid, cells[j]) && CellValue(cells[j]) == x;
        if j < |front| {
          assert front[j] == cells[j];
        }
      }
    }
  }

  /**
   * The cells `wuensche_einfuegen` leaves in a row of `width` columns: the
   * listed ids first, then the default 0.
   */
  function PaddedCells(ids: seq<int>, width: nat): (r: seq<Option<int>>)
    requires |ids| <= width
    ensures |r| == width
    ensures forall i :: 0 <= i < |ids| ==> r[i] == Some(ids[i])
    ensures forall i :: |ids| <= i < width ==> r[i] == Some(0)
  {
    seq(width, i requires 0 <= i < width => if i < |ids| then Some(ids[i]) else Some(0))
  }

  /** All cells but the last hold the ids that fit, padded to one cell less. */
  lemma PaddedFront(ids: seq<int>, width: nat)
    requires 0 < width && |ids| <= width
    ensures PaddedCells(ids, width)[..width - 1]
            == PaddedCells(if |ids| < width then ids else ids[..width - 1], width - 1)
  {
  }

  /**
   * When every written id is a valid reference, reading the references of a
   * padded row back gives the written ids in the order they were written.
   */
  lemma {:induction false} ValidRefsOfPadded(roster: Roster, sid: int, ids: seq<int>, width: nat)
    requires |ids| <= width
    requires forall i :: 0 <= i < |ids| ==> IsValidRef(roster, sid, Some(ids[i]))
    ensures ValidRefs(roster, sid, PaddedCells(ids, width)) == ids
  {
    if width > 0 {
      var cells := PaddedCells(ids, width);
      var n := width - 1;
      if |ids| < width {
        PaddedFront(ids, width);
        ValidRefsOfPadded(roster, sid, ids, n);
        assert cells[n] == Some(0);
      } else {
        var shorter := ids[..n];
        PaddedFront(ids, width);
        ValidRefsOfPadded(roster, sid, shorter, n);
        assert cells[n] == Some(ids[n]);
        assert ids == shorter + [ids[n]];
      }
    }
  }

  /**
   * The loop shared by the student list for the API and by the extraction
   * of existing wishes: keep each cell whose value is positive, in the
   * roster and not the student.
   */
  method CollectRefs(roster: Roster, sid: int, cells: seq<Option<int>>) returns (refs: seq<int>)
    ensures refs == ValidRefs(roster, sid, cells)
  {
    refs := [];
    var j := 0;
    while j < |cells|
      invariant 0 <= j <= |cells|
      invariant refs == ValidRefs(roster, sid, cells[..j])
    {
      var v := CellValue(cells[j]);
      assert cells[..j + 1][..j] == cells[..j];
      if v > 0 && v in roster && v != sid {
        refs := refs + [v];
      }
      j := j + 1;
    }
    assert cells[..j] == cells;
  }

  /** A non-empty set of ids has a member to pick. */
  lemma HasMember(s: set<int>)
    requires s != {}
    ensures exists x :: x in s
  {
    if forall x :: x !in s {
      assert false;
    }
  }

  /** A subset as large as its superset is the whole superset. */
  lemma {:induction false} SubsetSameSize(a: set<int>, b: set<int>)
    requires a <= b && |a| == |b|
    ensures a == b
    decreases |a|
  {
    if a != {} {
      HasMember(a);
      var x :| x in a;
      SubsetSameSize(a - {x}, b - {x});
      assert a == (a - {x}) + {x};
      assert b == (b - {x}) + {x};
    }
  }

  /** Removing position `i` removes one occurrence of its element. */
  lemma RemoveAt<T>(b: seq<T>, i: int)
    requires 0 <= i < |b|
    ensures multiset(b[..i] + b[i + 1..]) == multiset(b) - multiset{b[i]}
  {
    assert b == b[..i] + [b[i]] + b[i + 1..];
    assert multiset(b) == multiset(b[..i]) + multiset{b[i]} + multiset(b[i + 1..]);
  }

  /** Dropping the last element removes one occurrence of it. */
  lemma DropLast<T>(a: seq<T>)
    requires a != []
    ensures multiset(a[..|a| - 1]) == multiset(a) - multiset{a[|a| - 1]}
  {
    assert a == a[..|a| - 1] + [a[|a| - 1]];
  }

  /** Every id of the class is a roster student (`df.loc[klasse_ids]` raises otherwise). */
  predicate Placed(roster: Roster, ids: seq<int>) {
    forall i :: 0 <= i < |ids| ==> ids[i] in roster
  }

  /** All ids of a partition, class after class. */
  function Flatten(p: Partition): (r: seq<int>)
    ensures |p| == 0 ==> r == []
  {
    if p == [] then [] else Flatten(p[..|p| - 1]) + p[|p| - 1]
  }

  /** An id occurs in the flattened partition exactly when some class holds it. */
  lemma {:induction false} FlattenMembers(p: Partition, x: int)
    ensures x in Flatten(p) <==> exists i :: 0 <= i < |p| && x in p[i]
  {
    if p != [] {
      var front := p[..|p| - 1];
      FlattenMembers(front, x);
      if exists i :: 0 <= i < |front| && x in front[i] {
        var i :| 0 <= i < |front| && x in front[i];
        assert p[i] == front[i];
      }
      if exists i :: 0 <= i < |p| && x in p[i] {
        var i :| 0 <= i < |p| && x in p[i];
        if i < |front| {
          assert front[i] == p[i];
        }
      }
    }
  }

  /** Replacing class `i` by `c` trades the ids of the old class for those of `c`. */
  lemma {:induction false} FlattenUpdate(p: Partition, i: nat, c: seq<int>)
    requires i < |p|
    ensures multiset(Flatten(p[i := c])) + multiset(p[i]) == multiset(Flatten(p)) + multiset(c)
  {
    var n := |p| - 1;
    var q := p[i := c];
    assert Flatten(q) == Flatten(q[..n]) + q[n];
    assert Flatten(p) == Flatten(p[..n]) + p[n];
    if i == n {
      assert q[..n] == p[..n];
    } else {
      assert q[..n] == p[..n][i := c];
      assert q[n] == p[n] && p[..n][i] == p[i];
      FlattenUpdate(p[..n], i, c);
      var fq, fp := multiset(Flatten(q[..n])), multiset(Flatten(p[..n]));
      var mi, mn, mc := multiset(p[i]), multiset(p[n]), multiset(c);
      assert multiset(Flatten(q)) == fq + mn;
      assert multiset(Flatten(p)) == fp + mn;
      assert fq + mi == fp + mc;
      assert fq + mi + mn == fq + mn + mi && fp + mc + mn == fp + mn + mc;
    }
  }

  /**
   * The student-to-class map the program builds by enumerating the classes
   * in order and writing `z[sid] = ki`: an id placed twice ends up mapped to
   * the last class that holds it (see AssignmentDomain and AssignmentLast).
   */
  function Assignment(p: Partition): map<int, nat>
  {
    if p == [] then map[]
    else
      var k := |p| - 1;
      var last := p[k];
      Assignment(p[..k]) + map x | x in last :: k
  }

  /** Exactly the placed ids are assigned. */
  lemma {:induction false} AssignmentDomain(p: Partition, x: int)
    ensures x in Assignment(p) <==> x in Flatten(p)
  {
    if p != [] {
      AssignmentDomain(p[..|p| - 1], x);
    }
  }

  /** An assigned id sits in its class, and no later class holds it. */
  lemma {:induction false} AssignmentLast(p: Partition, x: int)
    requires x in Assignment(p)
    ensures Assignment(p)[x] < |p| && x in p[Assignment(p)[x]]
    ensures forall i :: Assignment(p)[x] < i < |p| ==> x !in p[i]
  {
    var n := |p| - 1;
    if x !in p[n] {
      AssignmentLast(p[..n], x);
      var k := Assignment(p[..n])[x];
      assert p[..n][k] == p[k];
      forall i | k < i < |p|
        ensures x !in p[i]
      {
        if i < n {
          assert p[..n][i] == p[i];
        }
      }
    }
  }

  /** The assignment loop itself (`baue_zuordnung` and its copy in the manual-move check). */
  method BuildAssignment(p: Partition) returns (z: map<int, nat>)
    ensures z == Assignment(p)
  {
    z := map[];
    var ki := 0;
    while ki < |p|
      invariant 0 <= ki <= |p|
      invariant z == Assignment(p[..ki])
    {
      var klasse := p[ki];
      ghost var before := z;
      var j := 0;
      while j < |klasse|
        invariant 0 <= j <= |klasse|
        invariant z == before + map x | x in klasse[..j] :: ki
      {
        assert klasse[..j + 1] == klasse[..j] + [klasse[j]];
        z := z[klasse[j] := ki];
        j := j + 1;
      }
      assert klasse[..j] == klasse;
      assert p[..ki + 1][..ki] == p[..ki];
      ki := ki + 1;
    }
    assert p[..ki] == p;
  }
}
