/**
 * The column recognition and roster checks of `backend/spaltenmapping.py`:
 * matching the headers of an uploaded sheet to the expected columns (exact
 * name, then alias, then substring), reading wishes and separations out of
 * the old sheet format, flagging invalid cell values, and writing wishes
 * and separations back as numbered columns.
 */
module ColumnMapping {
  import opened Wrappers
  import opened Text
  import opened Students

  // ---------------------------------------------------------------------
  // Normalisation (`_normalisiere`)
  // ---------------------------------------------------------------------

  /** The characters `_normalisiere` spells out: ä, ö, ü and ß. */
  predicate IsUmlaut(c: char) {
    c == '\U{E4}' || c == '\U{F6}' || c == '\U{FC}' || c == '\U{DF}'
  }

  /** The replacement of one character: ä to "ae", ö to "oe", ü to "ue", ß to "ss". */
  function FoldChar(c: char): (r: string)
    ensures r != []
    ensures forall i :: 0 <= i < |r| ==> !IsUmlaut(r[i])
    ensures !IsUpper(c) ==> forall i :: 0 <= i < |r| ==> !IsUpper(r[i])
    ensures IsSpace(r[0]) <==> IsSpace(c)
    ensures IsSpace(r[|r| - 1]) <==> IsSpace(c)
    ensures !IsUmlaut(c) ==> r == [c]
  {
    if c == '\U{E4}' then "ae"
    else if c == '\U{F6}' then "oe"
    else if c == '\U{FC}' then "ue"
    else if c == '\U{DF}' then "ss"
    else [c]
  }

  predicate NoUmlauts(s: string) {
    forall i :: 0 <= i < |s| ==> !IsUmlaut(s[i])
  }

  predicate NoUppers(s: string) {
    forall i :: 0 <= i < |s| ==> !IsUpper(s[i])
  }

  /** The four `replace` calls; as no replacement contains a replaced character, one pass does them all. */
  function Fold(s: string): (r: string)
    ensures s == [] <==> r == []
  {
    if s == [] then [] else Fold(s[..|s| - 1]) + FoldChar(s[|s| - 1])
  }

  /** Folding works character by character: it distributes over concatenation. */
  lemma {:induction false} FoldAppend(a: string, b: string)
    ensures Fold(a + b) == Fold(a) + Fold(b)
    decreases |b|
  {
    if b != [] {
      var n := |b| - 1;
      assert (a + b)[..|a + b| - 1] == a + b[..n];
      FoldAppend(a, b[..n]);
    } else {
      assert a + b == a;
    }
  }

  /** After folding no umlaut is left. */
  lemma {:induction false} FoldNoUmlauts(s: string)
    ensures NoUmlauts(Fold(s))
  {
    if s != [] {
      var n := |s| - 1;
      FoldNoUmlauts(s[..n]);
      var front, last := Fold(s[..n]), FoldChar(s[n]);
      forall i | 0 <= i < |front + last|
        ensures !IsUmlaut((front + last)[i])
      {
        if i >= |front| {
          assert (front + last)[i] == last[i - |front|];
        } else {
          assert (front + last)[i] == front[i];
        }
      }
    }
  }

  /** Folding introduces no upper-case letter. */
  lemma {:induction false} FoldNoUppers(s: string)
    requires NoUppers(s)
    ensures NoUppers(Fold(s))
  {
    if s != [] {
      var n := |s| - 1;
      assert s[n] in s;
      assert NoUppers(s[..n]) by {
        forall i | 0 <= i < n
          ensures !IsUpper(s[..n][i])
        {
          assert s[..n][i] == s[i];
        }
      }
      FoldNoUppers(s[..n]);
      var front, last := Fold(s[..n]), FoldChar(s[n]);
      forall i | 0 <= i < |front + last|
        ensures !IsUpper((front + last)[i])
      {
        if i >= |front| {
          assert (front + last)[i] == last[i - |front|];
        } else {
          assert (front + last)[i] == front[i];
        }
      }
    }
  }

  /** A string without umlauts folds to itself. */
  lemma {:induction false} FoldIdentity(s: string)
    requires NoUmlauts(s)
    ensures Fold(s) == s
  {
    if s != [] {
      var n := |s| - 1;
      assert NoUmlauts(s[..n]) by {
        forall i | 0 <= i < n
          ensures !IsUmlaut(s[..n][i])
        {
          assert s[..n][i] == s[i];
        }
      }
      FoldIdentity(s[..n]);
      assert s == s[..n] + [s[n]];
    }
  }

  /** Folding keeps whitespace, or its absence, at both ends. */
  lemma {:induction false} FoldEnds(s: string)
    requires s != []
    ensures IsSpace(Fold(s)[0]) <==> IsSpace(s[0])
    ensures IsSpace(Fold(s)[|Fold(s)| - 1]) <==> IsSpace(s[|s| - 1])
  {
    var n := |s| - 1;
    var front, last := Fold(s[..n]), FoldChar(s[n]);
    assert Fold(s) == front + last;
    if n > 0 {
      FoldEnds(s[..n]);
      assert s[..n][0] == s[0];
      assert Fold(s)[0] == front[0];
    }
    assert Fold(s)[|Fold(s)| - 1] == last[|last| - 1];
  }

  /** Lower-casing then trimming leaves no upper-case letter. */
  lemma TrimLowerNoUppers(s: string)
    ensures NoUppers(Trim(Lower(s)))
  {
    var l := Lower(s);
    var t := Trim(l);
    TrimChars(l);
    forall i | 0 <= i < |t|
      ensures !IsUpper(t[i])
    {
      assert t[i] in l;
    }
  }

  /** `_normalisiere`: lower-case, trimmed, umlauts spelt out. */
  function Normalize(s: string): (r: string)
    ensures NoUppers(r) && NoUmlauts(r)
    ensures IsTrimmed(r)
  {
    var t := Trim(Lower(s));
    TrimLowerNoUppers(s);
    FoldNoUmlauts(t);
    FoldNoUppers(t);
    if t != [] then FoldEnds(t); Fold(t) else Fold(t)
  }

  /** A name that is already lower-case, trimmed and free of umlauts is its own normal form. */
  lemma NormalizeFixes(s: string)
    requires NoUppers(s) && NoUmlauts(s) && IsTrimmed(s)
    ensures Normalize(s) == s
  {
    LowerOfLower(s);
    TrimTrimmed(s);
    FoldIdentity(s);
  }

  /** Normalising twice is normalising once. */
  lemma NormalizeIdempotent(s: string)
    ensures Normalize(Normalize(s)) == Normalize(s)
  {
    NormalizeFixes(Normalize(s));
  }

  /** The header " Größe" normalises to "groesse": trimmed, lower-case, umlaut and ß spelt out. */
  lemma NormalizeSpellsOut()
    ensures Normalize(" Gr\U{F6}\U{DF}e") == "groesse"
  {
    LowerTrimExample();
    FoldExample();
  }

  /** Lower-casing and stripping " Größe" gives "größe". */
  lemma LowerTrimExample()
    ensures Trim(Lower(" Gr\U{F6}\U{DF}e")) == "gr\U{F6}\U{DF}e"
  {
    LowerExample();
    TrimExample();
  }

  /** `lower()` changes only the capital G of " Größe". */
  lemma LowerExample()
    ensures Lower(" Gr\U{F6}\U{DF}e") == " gr\U{F6}\U{DF}e"
  {
    var l := Lower(" Gr\U{F6}\U{DF}e");
    assert LowerChar('G') == 'g';
    assert l[0] == ' ' && l[1] == 'g' && l[2] == 'r' && l[3] == '\U{F6}' && l[4] == '\U{DF}' && l[5] == 'e';
  }

  /** `strip()` removes only the leading blank of " größe". */
  lemma TrimExample()
    ensures Trim(" gr\U{F6}\U{DF}e") == "gr\U{F6}\U{DF}e"
  {
    var l := " gr\U{F6}\U{DF}e";
    var w := "gr\U{F6}\U{DF}e";
    assert l[1..] == w && IsSpace(l[0]);
    assert !IsSpace(w[0]) && !IsSpace(w[|w| - 1]);
    assert TrimStart(l) == w;
  }

  /** The replacements spell ö as "oe" and ß as "ss". */
  lemma FoldExample()
    ensures Fold("gr\U{F6}\U{DF}e") == "groesse"
  {
    var w := "gr\U{F6}\U{DF}e";
    assert w[..4][..3][..2][..1][..0] == [];
    assert Fold(w[..1]) == "g";
    assert Fold(w[..2]) == "gr";
    assert w[..3][..2] == w[..2] && w[..4][..3] == w[..3];
    assert FoldChar('\U{F6}') == "oe" && FoldChar('\U{DF}') == "ss";
    assert Fold(w[..3]) == "groe";
    assert Fold(w[..4]) == "groess";
  }

  // ---------------------------------------------------------------------
  // The expected columns (`ERWARTETE_SPALTEN`, `OPTIONALE_SPALTEN`)
  // ---------------------------------------------------------------------

  /** A column the program looks for, with its aliases and whether it is required. */
  datatype Target = Target(name: string, aliases: seq<string>, required: bool)

  const MigrationColumn := "Migrationshintergrund / 2. Staatsangeh\U{F6}rigkeit"

  /** The required columns, then the optional ones, in the order they are searched. */
  const Targets: seq<Target> := [
    Target("Vorname", ["vorname", "first name", "firstname", "vname", "given name", "rufname"], true),
    Target("Name", ["name", "nachname", "familienname", "last name", "lastname",
                    "surname", "family name", "lname", "familename"], true),
    Target("Geschlecht", ["geschlecht", "gender", "sex", "m/w", "m/f", "geschl"], true),
    Target("Auffaelligkeit_Score", ["auffaelligkeit_score", "auff\U{E4}lligkeit_score",
                                    "auffaelligkeit", "auff\U{E4}lligkeit", "score",
                                    "auff\U{E4}lligkeitsscore", "auffaelligkeitsscore",
                                    "besonderheiten", "auff\U{E4}llig", "auffaellig",
                                    "foerderbedarf", "f\U{F6}rderbedarf", "auffaelligkeit score",
                                    "auff\U{E4}lligkeit score"], true),
    Target(MigrationColumn, ["migrationshintergrund / 2. staatsangeh\U{F6}rigkeit",
                             "migrationshintergrund / 2. staatsangehoerigkeit",
                             "migrationshintergrund", "migration",
                             "staatsangeh\U{F6}rigkeit", "staatsangehoerigkeit",
                             "2. staatsangeh\U{F6}rigkeit", "herkunft",
                             "migrationshintergrund / staatsangeh\U{F6}rigkeit"], true),
    Target("Wunsch_1", ["wunsch_1", "wunsch 1", "wunschpartner_1", "wunschpartner 1", "1. wunsch"], false),
    Target("Wunsch_2", ["wunsch_2", "wunsch 2", "wunschpartner_2", "wunschpartner 2", "2. wunsch"], false),
    Target("Wunsch_3", ["wunsch_3", "wunsch 3", "wunschpartner_3", "wunschpartner 3", "3. wunsch"], false),
    Target("Wunsch_4", ["wunsch_4", "wunsch 4", "wunschpartner_4", "wunschpartner 4", "4. wunsch"], false),
    Target("Trennen_Von", ["trennen_von", "trennen von", "trennung", "nicht zusammen", "getrennt von",
                           "trennungswunsch", "trennen_von_1", "trennung_1"], false),
    Target("Trennen_Von_2", ["trennen_von_2", "trennung_2", "2. trennung"], false),
    Target("Trennen_Von_3", ["trennen_von_3", "trennung_3", "3. trennung"], false),
    Target("Trennen_Von_4", ["trennen_von_4", "trennung_4", "4. trennung"], false),
    Target("Sch\U{FC}ler-ID", ["sch\U{FC}ler-id", "schueler-id", "sch\U{FC}lerid", "schuelerid",
                              "id", "nr", "nummer", "sch\U{FC}lernummer", "schuelernummer"], false)
  ]

  /** No two expected columns share a name. */
  lemma TargetNamesDistinct()
    ensures forall i, j :: 0 <= i < j < |Targets| ==> Targets[i].name != Targets[j].name
  {
  }

  // ---------------------------------------------------------------------
  // The normalised headers (`norm_gefunden`)
  // ---------------------------------------------------------------------

  /** A table from normalised header to original header, in insertion order. */
  type Table = seq<(string, string)>

  /** `k in d` on a dict kept as its entries in insertion order. */
  predicate HasKey<K(==), V>(t: seq<(K, V)>, k: K) {
    exists i | 0 <= i < |t| :: t[i].0 == k
  }

  predicate DistinctKeys<K(==), V>(t: seq<(K, V)>) {
    forall i, j :: 0 <= i < j < |t| ==> t[i].0 != t[j].0
  }

  /** The keys of a non-empty table: its first key and the keys of the rest. */
  lemma HasKeyCons<K, V>(h: (K, V), t: seq<(K, V)>, x: K)
    ensures HasKey([h] + t, x) <==> h.0 == x || HasKey(t, x)
  {
    var r := [h] + t;
    if HasKey(t, x) {
      var i :| 0 <= i < |t| && t[i].0 == x;
      assert r[i + 1].0 == x;
    }
    if HasKey(r, x) && h.0 != x {
      var i :| 0 <= i < |r| && r[i].0 == x;
      assert t[i - 1].0 == x;
    }
    assert r[0].0 == h.0;
  }

  /** A non-empty table has distinct keys when its rest has and lacks the first key. */
  lemma DistinctCons<K, V>(h: (K, V), t: seq<(K, V)>)
    ensures DistinctKeys([h] + t) <==> DistinctKeys(t) && !HasKey(t, h.0)
  {
    var r := [h] + t;
    assert forall i :: 0 <= i < |t| ==> r[i + 1] == t[i];
    if HasKey(t, h.0) {
      var i :| 0 <= i < |t| && t[i].0 == h.0;
      assert r[0].0 == r[i + 1].0;
    }
  }

  /** `d[k] = v` on a dict: an existing key keeps its place and takes the new value; a new key goes last. */
  function Put<K(==), V>(t: seq<(K, V)>, k: K, v: V): seq<(K, V)> {
    if t == [] then [(k, v)]
    else if t[0].0 == k then [(k, v)] + t[1..]
    else [t[0]] + Put(t[1..], k, v)
  }

  /** After `d[k] = v` the keys are the old ones and `k`. */
  lemma {:induction false} PutKeys<K, V>(t: seq<(K, V)>, k: K, v: V, x: K)
    ensures HasKey(Put(t, k, v), x) <==> HasKey(t, x) || x == k
  {
    var r := Put(t, k, v);
    if t == [] {
      assert r == [(k, v)] + [];
      HasKeyCons((k, v), [], x);
    } else {
      assert t == [t[0]] + t[1..];
      HasKeyCons(t[0], t[1..], x);
      if t[0].0 == k {
        HasKeyCons((k, v), t[1..], x);
      } else {
        PutKeys(t[1..], k, v, x);
        HasKeyCons(t[0], Put(t[1..], k, v), x);
      }
    }
  }

  /** `d[k] = v` keeps the keys distinct. */
  lemma {:induction false} PutDistinct<K, V>(t: seq<(K, V)>, k: K, v: V)
    requires DistinctKeys(t)
    ensures DistinctKeys(Put(t, k, v))
  {
    if t != [] {
      assert t == [t[0]] + t[1..];
      DistinctCons(t[0], t[1..]);
      if t[0].0 == k {
        DistinctCons((k, v), t[1..]);
      } else {
        PutDistinct(t[1..], k, v);
        PutKeys(t[1..], k, v, t[0].0);
        DistinctCons(t[0], Put(t[1..], k, v));
      }
    }
  }

  /** After `d[k] = v` every entry is an old one or `(k, v)`. */
  lemma {:induction false} PutEntries<K, V>(t: seq<(K, V)>, k: K, v: V)
    ensures forall i :: 0 <= i < |Put(t, k, v)| ==> Put(t, k, v)[i] == (k, v) || Put(t, k, v)[i] in t
  {
    if t != [] && t[0].0 != k {
      var rest := Put(t[1..], k, v);
      var r := [t[0]] + rest;
      PutEntries(t[1..], k, v);
      forall i | 0 <= i < |r|
        ensures r[i] == (k, v) || r[i] in t
      {
        if i > 0 {
          assert r[i] == rest[i - 1];
          assert rest[i - 1] in t[1..] ==> rest[i - 1] in t;
        }
      }
    } else if t != [] {
      assert forall i :: 1 <= i < |t| ==> Put(t, k, v)[i] == t[i];
    }
  }

  /** Each header in turn stored under its key, a later header replacing an earlier one with the same key. */
  function Index<K(==), V>(columns: seq<V>, keys: seq<K>): (t: seq<(K, V)>)
    requires |keys| == |columns|
    ensures DistinctKeys(t)
    ensures forall i :: 0 <= i < |t| ==> exists j :: 0 <= j < |columns| && t[i] == (keys[j], columns[j])
    ensures forall j :: 0 <= j < |columns| ==> HasKey(t, keys[j])
  {
    if columns == [] then []
    else
      var n := |columns| - 1;
      var front := Index(columns[..n], keys[..n]);
      var t := Put(front, keys[n], columns[n]);
      PutDistinct(front, keys[n], columns[n]);
      PutEntries(front, keys[n], columns[n]);
      forall i | 0 <= i < |t|
        ensures exists j :: 0 <= j < |columns| && t[i] == (keys[j], columns[j])
      {
        if t[i] != (keys[n], columns[n]) {
          var l :| 0 <= l < |front| && front[l] == t[i];
          var j :| 0 <= j < n && front[l] == (keys[..n][j], columns[..n][j]);
          assert t[i] == (keys[j], columns[j]);
        }
      }
      forall j | 0 <= j < |columns|
        ensures HasKey(t, keys[j])
      {
        PutKeys(front, keys[n], columns[n], keys[j]);
        if j < n {
          assert keys[..n][j] == keys[j];
        }
      }
      t
  }

  /** The keys of a table, in table order. */
  function KeysOf<K, V>(t: seq<(K, V)>): (r: seq<K>)
    ensures |r| == |t| && forall i :: 0 <= i < |t| ==> r[i] == t[i].0
  {
    seq(|t|, i requires 0 <= i < |t| => t[i].0)
  }

  /** The distinct elements of `keys` in the order of their first occurrence. */
  function FirstOccurrences<K(==)>(keys: seq<K>): seq<K> {
    if keys == [] then []
    else
      var d := FirstOccurrences(keys[..|keys| - 1]);
      if keys[|keys| - 1] in d then d else d + [keys[|keys| - 1]]
  }

  /** Storing a key keeps the key order; a new key goes last. */
  lemma {:induction false} PutOrder<K, V>(t: seq<(K, V)>, k: K, v: V)
    ensures KeysOf(Put(t, k, v)) == if HasKey(t, k) then KeysOf(t) else KeysOf(t) + [k]
  {
    if t != [] && t[0].0 != k {
      PutOrder(t[1..], k, v);
      HasKeyCons(t[0], t[1..], k);
      assert [t[0]] + t[1..] == t;
      var rest := Put(t[1..], k, v);
      assert Put(t, k, v) == [t[0]] + rest;
      assert KeysOf([t[0]] + rest) == [t[0].0] + KeysOf(rest);
      assert KeysOf(t) == [t[0].0] + KeysOf(t[1..]);
    } else if t != [] {
      assert HasKey(t, k);
    }
  }

  /**
   * The keys of the dict comprehension are the keys in the order in which
   * they first occur: a later header with the same key keeps the key's place.
   */
  lemma {:induction false} IndexOrder<K, V>(columns: seq<V>, keys: seq<K>)
    requires |keys| == |columns|
    ensures KeysOf(Index(columns, keys)) == FirstOccurrences(keys)
  {
    if columns != [] {
      var n := |columns| - 1;
      var front := Index(columns[..n], keys[..n]);
      IndexOrder(columns[..n], keys[..n]);
      PutOrder(front, keys[n], columns[n]);
      assert HasKey(front, keys[n]) <==> keys[n] in KeysOf(front) by {
        if keys[n] in KeysOf(front) {
          var i :| 0 <= i < |KeysOf(front)| && KeysOf(front)[i] == keys[n];
          assert front[i].0 == keys[n];
        }
      }
      assert keys[..|keys| - 1] == keys[..n];
    }
  }

  /** After `d[k] = v` the dict holds `(k, v)`, and an old entry under another key stays. */
  lemma {:induction false} PutKeeps<K, V>(t: seq<(K, V)>, k: K, v: V, e: (K, V))
    requires e == (k, v) || (e in t && e.0 != k)
    ensures e in Put(t, k, v)
  {
    if t != [] {
      assert t == [t[0]] + t[1..];
      if t[0].0 != k {
        if e != t[0] {
          PutKeeps(t[1..], k, v, e);
        }
        assert Put(t, k, v) == [t[0]] + Put(t[1..], k, v);
      } else {
        assert Put(t, k, v) == [(k, v)] + t[1..];
      }
    }
  }

  /**
   * When headers share a key, the dict comprehension keeps the last of them:
   * a header whose key does not occur again later is what its key maps to.
   */
  lemma {:induction false} IndexKeepsLast<K, V>(columns: seq<V>, keys: seq<K>, j: int)
    requires |keys| == |columns|
    requires 0 <= j < |keys| && keys[j] !in keys[j + 1..]
    ensures (keys[j], columns[j]) in Index(columns, keys)
  {
    var n := |columns| - 1;
    var front := Index(columns[..n], keys[..n]);
    assert Index(columns, keys) == Put(front, keys[n], columns[n]);
    if j < n {
      assert keys[j + 1..][n - j - 1] == keys[n];
      assert keys[..n][j] == keys[j] && columns[..n][j] == columns[j];
      forall m | j + 1 <= m < n
        ensures keys[..n][m] != keys[j]
      {
        assert keys[j + 1..][m - j - 1] == keys[m];
      }
      IndexKeepsLast(columns[..n], keys[..n], j);
    }
    PutKeeps(front, keys[n], columns[n], (keys[j], columns[j]));
  }

  /** `{_normalisiere(s): s for s in gefundene_spalten}`. */
  function NormTable(columns: seq<string>): Table {
    Index(columns, NormalizeAll(columns))
  }

  /**
   * The table of normalised headers has one entry per distinct normalised
   * header, each entry keeps a header of the sheet under its normalised name,
   * and every header's normalised name is a key.
   */
  lemma NormTableEntries(columns: seq<string>)
    ensures DistinctKeys(NormTable(columns))
    ensures forall i :: 0 <= i < |NormTable(columns)| ==>
              NormTable(columns)[i].1 in columns && Normalize(NormTable(columns)[i].1) == NormTable(columns)[i].0
    ensures forall c :: c in columns ==> HasKey(NormTable(columns), Normalize(c))
  {
    var keys := NormalizeAll(columns);
    var t := Index(columns, keys);
    forall i | 0 <= i < |t|
      ensures t[i].1 in columns && Normalize(t[i].1) == t[i].0
    {
      var j :| 0 <= j < |columns| && t[i] == (keys[j], columns[j]);
      assert keys[j] == Normalize(columns[j]);
    }
    forall c | c in columns
      ensures HasKey(t, Normalize(c))
    {
      var j :| 0 <= j < |columns| && columns[j] == c;
      assert HasKey(t, keys[j]);
    }
  }

  /** `d[k]`. */
  function Original<K(==), V>(t: seq<(K, V)>, k: K): (o: V)
    requires HasKey(t, k)
    ensures exists i :: 0 <= i < |t| && t[i] == (k, o)
  {
    if t[0].0 == k then t[0].1
    else
      assert HasKey(t[1..], k) by {
        var i :| 0 <= i < |t| && t[i].0 == k;
        assert t[1..][i - 1] == t[i];
      }
      var o := Original(t[1..], k);
      assert forall i :: 1 <= i < |t| ==> t[1..][i - 1] == t[i];
      o
  }

  // ---------------------------------------------------------------------
  // The best match for one target (`_finde_beste_uebereinstimmung`)
  // ---------------------------------------------------------------------

  /** `sicher` and `vorschlag`. */
  datatype Confidence = Sure | Suggestion

  /** `x in y` on strings. */
  predicate IsSubstring(x: string, y: string) {
    x <= y || (y != [] && IsSubstring(x, y[1..]))
  }

  /** The substring test of the third step, which only a name of at least three characters may start. */
  predicate Related(name: string, header: string) {
    |name| >= 3 && (IsSubstring(name, header) || IsSubstring(header, name))
  }

  /** A header is still free when its normalised name has not been taken. */
  predicate Free(t: Table, i: int, taken: set<string>)
    requires 0 <= i < |t|
  {
    t[i].0 !in taken
  }

  /** Alias `a` names a header of the table whose normalised name is still free. */
  predicate NamesFree(t: Table, taken: set<string>, a: string) {
    HasKey(t, Normalize(a)) && Normalize(a) !in taken
  }

  /** Alias `k` is the first in list order that names a free header. */
  predicate FirstFreeAlias(aliases: seq<string>, t: Table, taken: set<string>, k: int) {
    0 <= k < |aliases| && NamesFree(t, taken, aliases[k])
    && forall l :: 0 <= l < k ==> !NamesFree(t, taken, aliases[l])
  }

  /** Step 2: the first alias, in list order, that names a free header. */
  function AliasMatch(aliases: seq<string>, t: Table, taken: set<string>): Option<string> {
    if aliases == [] then None
    else
      var an := Normalize(aliases[0]);
      if HasKey(t, an) && an !in taken then Some(Original(t, an))
      else AliasMatch(aliases[1..], t, taken)
  }

  /**
   * Step 2 finds a free header named by one of the aliases, and finds none
   * exactly when no alias names a free header.
   */
  lemma {:induction false} AliasMatchSpec(aliases: seq<string>, t: Table, taken: set<string>)
    ensures var r := AliasMatch(aliases, t, taken);
            r.Some? ==> exists i :: 0 <= i < |t| && Free(t, i, taken) && t[i].1 == r.value
                                    && exists a :: a in aliases && Normalize(a) == t[i].0
    ensures AliasMatch(aliases, t, taken).None?
            <==> forall a :: a in aliases ==> !HasKey(t, Normalize(a)) || Normalize(a) in taken
  {
    if aliases != [] {
      var an := Normalize(aliases[0]);
      assert aliases[0] in aliases;
      if HasKey(t, an) && an !in taken {
        var o := Original(t, an);
        var i :| 0 <= i < |t| && t[i] == (an, o);
      } else {
        AliasMatchSpec(aliases[1..], t, taken);
        assert forall a :: a in aliases ==> a == aliases[0] || a in aliases[1..];
        assert forall a :: a in aliases[1..] ==> a in aliases;
      }
    }
  }

  /** A header found in step 2 is the one named by the first alias that names a free header. */
  lemma {:induction false} AliasMatchFirst(aliases: seq<string>, t: Table, taken: set<string>)
    ensures var r := AliasMatch(aliases, t, taken);
            r.Some? ==> exists k :: FirstFreeAlias(aliases, t, taken, k)
                                    && r.value == Original(t, Normalize(aliases[k]))
  {
    if aliases != [] {
      if NamesFree(t, taken, aliases[0]) {
        assert FirstFreeAlias(aliases, t, taken, 0);
      } else if AliasMatch(aliases, t, taken).Some? {
        AliasMatchFirst(aliases[1..], t, taken);
        var k :| FirstFreeAlias(aliases[1..], t, taken, k)
                 && AliasMatch(aliases[1..], t, taken).value == Original(t, Normalize(aliases[1..][k]));
        assert FirstFreeAlias(aliases, t, taken, k + 1);
      }
    }
  }

  /** A header the third step accepts for a target with normalised name `zn` and normalised aliases `ans`. */
  predicate SubstringHit(zn: string, ans: seq<string>, header: string) {
    Related(zn, header) || exists a :: a in ans && Related(a, header)
  }

  /** Step 3: the first free header, in table order, related to the target or one of its aliases. */
  function SubstringMatch(zn: string, ans: seq<string>, t: Table, taken: set<string>): (r: Option<string>)
    ensures r.Some? ==> exists i :: 0 <= i < |t| && Free(t, i, taken) && t[i].1 == r.value
                                    && SubstringHit(zn, ans, t[i].0)
                                    && forall j :: 0 <= j < i ==> !Free(t, j, taken) || !SubstringHit(zn, ans, t[j].0)
    ensures r.None? <==> forall i :: 0 <= i < |t| ==> !Free(t, i, taken) || !SubstringHit(zn, ans, t[i].0)
  {
    if t == [] then None
    else if t[0].0 !in taken && SubstringHit(zn, ans, t[0].0) then Some(t[0].1)
    else
      var r := SubstringMatch(zn, ans, t[1..], taken);
      assert forall i :: 1 <= i < |t| ==> t[1..][i - 1] == t[i];
      r
  }

  /** The normalised aliases. */
  function NormalizeAll(aliases: seq<string>): (r: seq<string>)
    ensures |r| == |aliases| && forall i :: 0 <= i < |r| ==> r[i] == Normalize(aliases[i])
  {
    seq(|aliases|, i requires 0 <= i < |aliases| => Normalize(aliases[i]))
  }

  /** `_finde_beste_uebereinstimmung`: exact name first, then an alias (both sure), then a substring (a suggestion). */
  function FindBestMatch(name: string, aliases: seq<string>, t: Table, taken: set<string>)
    : (r: Option<(string, Confidence)>)
    ensures r.Some? ==> exists i :: 0 <= i < |t| && Free(t, i, taken) && t[i].1 == r.value.0
    ensures HasKey(t, Normalize(name)) && Normalize(name) !in taken
            ==> r == Some((Original(t, Normalize(name)), Sure))
    ensures (r.Some? && r.value.1 == Sure)
            <==> (|| (HasKey(t, Normalize(name)) && Normalize(name) !in taken)
                  || exists a :: a in aliases && HasKey(t, Normalize(a)) && Normalize(a) !in taken)
    ensures r.None? <==> (&& (!HasKey(t, Normalize(name)) || Normalize(name) in taken)
                          && (forall a :: a in aliases ==> !HasKey(t, Normalize(a)) || Normalize(a) in taken)
                          && forall i :: 0 <= i < |t| ==>
                               !Free(t, i, taken) || !SubstringHit(Normalize(name), NormalizeAll(aliases), t[i].0))
    ensures !NamesFree(t, taken, name) && r.Some? && r.value.1 == Sure
            ==> exists k :: FirstFreeAlias(aliases, t, taken, k) && r.value.0 == Original(t, Normalize(aliases[k]))
    ensures r.Some? && r.value.1 == Suggestion
            ==> exists i :: && 0 <= i < |t| && Free(t, i, taken) && t[i].1 == r.value.0
                            && SubstringHit(Normalize(name), NormalizeAll(aliases), t[i].0)
                            && forall j :: 0 <= j < i ==>
                                 !Free(t, j, taken) || !SubstringHit(Normalize(name), NormalizeAll(aliases), t[j].0)
  {
    var zn := Normalize(name);
    AliasMatchSpec(aliases, t, taken);
    AliasMatchFirst(aliases, t, taken);
    if HasKey(t, zn) && zn !in taken then Some((Original(t, zn), Sure))
    else
      match AliasMatch(aliases, t, taken)
      case Some(o) => Some((o, Sure))
      case None =>
        match SubstringMatch(zn, NormalizeAll(aliases), t, taken)
        case Some(o) => Some((o, Suggestion))
        case None => None
  }

  // ---------------------------------------------------------------------
  // The whole mapping (`finde_spalten_mapping`)
  // ---------------------------------------------------------------------

  /** One entry of `mapping`: the header chosen and how sure, or `nicht_gefunden`. */
  datatype Choice = Found(column: string, confidence: Confidence) | NotFound

  /** The answer of `finde_spalten_mapping`. */
  datatype MappingResult = MappingResult(
    mapping: map<string, Choice>, allColumns: seq<string>, unassigned: seq<string>, allRequiredSure: bool)

  /** The normalised names of the chosen headers (`zugeordnet`). */
  function ChosenNorms(m: map<string, Choice>): set<string> {
    set n | n in m && m[n].Found? :: Normalize(m[n].column)
  }

  /** The headers, in input order, whose normalised name is not in `norms`. */
  function Unassigned(columns: seq<string>, norms: set<string>): (r: seq<string>)
    ensures forall c :: c in r <==> c in columns && Normalize(c) !in norms
  {
    if columns == [] then []
    else
      var n := |columns| - 1;
      var r := Unassigned(columns[..n], norms) + (if Normalize(columns[n]) !in norms then [columns[n]] else []);
      assert forall c :: c in columns <==> c in columns[..n] || c == columns[n];
      r
  }

  /** No two targets got headers with the same normalised name. */
  predicate Injective(m: map<string, Choice>) {
    forall n1, n2 :: n1 in m && n2 in m && n1 != n2 && m[n1].Found? && m[n2].Found? ==>
      Normalize(m[n1].column) != Normalize(m[n2].column)
  }

  /** Every entry belongs to one of the first `k` targets, and only a required one can be `nicht_gefunden`. */
  predicate FromTargets(k: int, m: map<string, Choice>)
    requires 0 <= k <= |Targets|
  {
    forall n :: n in m ==>
      exists j :: 0 <= j < k && Targets[j].name == n && (m[n].NotFound? ==> Targets[j].required)
  }

  /** Every required one of the first `k` targets has an entry. */
  predicate CoversRequired(k: int, m: map<string, Choice>)
    requires 0 <= k <= |Targets|
  {
    forall j :: 0 <= j < k && Targets[j].required ==> Targets[j].name in m
  }

  /** Every chosen header is one of the file's headers. */
  predicate ChosenExist(columns: seq<string>, m: map<string, Choice>) {
    forall n :: n in m && m[n].Found? ==> m[n].column in columns
  }

  /** What the loop over the targets builds: the mapping and the assigned normalised names. */
  predicate MappingInvariant(columns: seq<string>, k: int, mapping: map<string, Choice>)
    requires 0 <= k <= |Targets|
  {
    FromTargets(k, mapping) && CoversRequired(k, mapping) && ChosenExist(columns, mapping) && Injective(mapping)
  }

  /** A new entry whose header's normalised name is not yet chosen keeps the choices distinct. */
  lemma InjectivePut(mapping: map<string, Choice>, name: string, choice: Choice)
    requires name !in mapping && Injective(mapping)
    requires choice.Found? ==> Normalize(choice.column) !in ChosenNorms(mapping)
    ensures Injective(mapping[name := choice])
  {
    var m := mapping[name := choice];
    forall n1, n2 | n1 in m && n2 in m && n1 != n2 && m[n1].Found? && m[n2].Found?
      ensures Normalize(m[n1].column) != Normalize(m[n2].column)
    {
      if n1 == name {
        assert Normalize(mapping[n2].column) in ChosenNorms(mapping);
      } else if n2 == name {
        assert Normalize(mapping[n1].column) in ChosenNorms(mapping);
      } else {
        assert m[n1] == mapping[n1] && m[n2] == mapping[n2];
      }
    }
  }

  /** Every entry after step `k` belongs to one of the first `k` targets. */
  lemma ProvenancePut(k: int, mapping: map<string, Choice>, choice: Choice)
    requires 0 < k <= |Targets| && FromTargets(k - 1, mapping)
    requires choice.NotFound? ==> Targets[k - 1].required
    ensures FromTargets(k, mapping[Targets[k - 1].name := choice])
  {
    var name := Targets[k - 1].name;
    var m := mapping[name := choice];
    forall n | n in m
      ensures exists j :: 0 <= j < k && Targets[j].name == n && (m[n].NotFound? ==> Targets[j].required)
    {
      if n == name {
        assert Targets[k - 1].name == n;
      } else {
        var j :| 0 <= j < k - 1 && Targets[j].name == n && (mapping[n].NotFound? ==> Targets[j].required);
        assert m[n] == mapping[n];
      }
    }
  }

  /** Adding the choice for target `k` keeps the invariant. */
  lemma MappingStep(columns: seq<string>, k: int, mapping: map<string, Choice>, choice: Choice)
    requires 0 < k <= |Targets| && MappingInvariant(columns, k - 1, mapping)
    requires Targets[k - 1].name !in mapping
    requires choice.Found? ==> choice.column in columns && Normalize(choice.column) !in ChosenNorms(mapping)
    requires choice.NotFound? ==> Targets[k - 1].required
    ensures MappingInvariant(columns, k, mapping[Targets[k - 1].name := choice])
  {
    ProvenancePut(k, mapping, choice);
    InjectivePut(mapping, Targets[k - 1].name, choice);
  }

  /** An optional target without a match leaves the mapping as it is. */
  lemma MappingSkip(columns: seq<string>, k: int, mapping: map<string, Choice>)
    requires 0 < k <= |Targets| && MappingInvariant(columns, k - 1, mapping)
    requires !Targets[k - 1].required
    ensures MappingInvariant(columns, k, mapping)
  {
  }

  /** The target searched in step `k` has no entry yet. */
  lemma NotYetMapped(columns: seq<string>, k: int, mapping: map<string, Choice>)
    requires 0 <= k < |Targets| && MappingInvariant(columns, k, mapping)
    ensures Targets[k].name !in mapping
  {
    TargetNamesDistinct();
  }

  /** The chosen names after one more entry. */
  lemma ChosenNormsPut(mapping: map<string, Choice>, name: string, choice: Choice)
    requires name !in mapping
    ensures ChosenNorms(mapping[name := choice])
            == ChosenNorms(mapping) + (if choice.Found? then {Normalize(choice.column)} else {})
  {
    var m := mapping[name := choice];
    var extra: set<string> := if choice.Found? then {Normalize(choice.column)} else {};
    forall x | x in ChosenNorms(m)
      ensures x in ChosenNorms(mapping) + extra
    {
      var n :| n in m && m[n].Found? && x == Normalize(m[n].column);
      if n != name {
        assert n in mapping && mapping[n].Found?;
      }
    }
    forall x | x in ChosenNorms(mapping) + extra
      ensures x in ChosenNorms(m)
    {
      if x in ChosenNorms(mapping) {
        var n :| n in mapping && mapping[n].Found? && x == Normalize(mapping[n].column);
        assert n in m && m[n] == mapping[n];
      } else {
        assert name in m && m[name].Found?;
      }
    }
  }

  /** One turn of the loop: `target` takes its best free header, or `nicht_gefunden` when it is required. */
  function AssignStep(t: Table, target: Target, mapping: map<string, Choice>, taken: set<string>)
    : (map<string, Choice>, set<string>)
  {
    match FindBestMatch(target.name, target.aliases, t, taken)
    case Some((original, confidence)) =>
      (mapping[target.name := Found(original, confidence)], taken + {Normalize(original)})
    case None =>
      if target.required then (mapping[target.name := NotFound], taken) else (mapping, taken)
  }

  /** The mapping and the taken names after the first `k` targets have been searched, in order. */
  function AssignUpTo(t: Table, k: int): (map<string, Choice>, set<string>)
    requires 0 <= k <= |Targets|
  {
    if k == 0 then (map[], {})
    else
      var acc := AssignUpTo(t, k - 1);
      AssignStep(t, Targets[k - 1], acc.0, acc.1)
  }

  /** A header found for a target is one of the file's headers, and its normalised name is not taken. */
  lemma HitIsFreeColumn(columns: seq<string>, target: Target, taken: set<string>)
    requires FindBestMatch(target.name, target.aliases, NormTable(columns), taken).Some?
    ensures var o := FindBestMatch(target.name, target.aliases, NormTable(columns), taken).value.0;
            o in columns && Normalize(o) !in taken
  {
    var t := NormTable(columns);
    NormTableEntries(columns);
    var o := FindBestMatch(target.name, target.aliases, t, taken).value.0;
    var i :| 0 <= i < |t| && Free(t, i, taken) && t[i].1 == o;
  }

  /** One turn, the `k`-th, keeps the invariant. */
  lemma AssignStepKeeps(columns: seq<string>, k: int, mapping: map<string, Choice>, taken: set<string>)
    requires 0 < k <= |Targets| && MappingInvariant(columns, k - 1, mapping) && taken == ChosenNorms(mapping)
    ensures MappingInvariant(columns, k, AssignStep(NormTable(columns), Targets[k - 1], mapping, taken).0)
    ensures AssignStep(NormTable(columns), Targets[k - 1], mapping, taken).1
            == ChosenNorms(AssignStep(NormTable(columns), Targets[k - 1], mapping, taken).0)
  {
    var t := NormTable(columns);
    var target := Targets[k - 1];
    NotYetMapped(columns, k - 1, mapping);
    var hit := FindBestMatch(target.name, target.aliases, t, taken);
    if hit.Some? {
      var (original, confidence) := hit.value;
      HitIsFreeColumn(columns, target, taken);
      MappingStep(columns, k, mapping, Found(original, confidence));
      ChosenNormsPut(mapping, target.name, Found(original, confidence));
    } else if target.required {
      MappingStep(columns, k, mapping, NotFound);
      ChosenNormsPut(mapping, target.name, NotFound);
    } else {
      MappingSkip(columns, k, mapping);
    }
  }

  /** The search keeps the invariant: every entry is a target's, every required target has one,
      chosen headers exist and are pairwise distinct once normalised, and `zugeordnet` is their set. */
  lemma {:induction false} AssignInvariant(columns: seq<string>, k: int)
    requires 0 <= k <= |Targets|
    ensures MappingInvariant(columns, k, AssignUpTo(NormTable(columns), k).0)
    ensures AssignUpTo(NormTable(columns), k).1 == ChosenNorms(AssignUpTo(NormTable(columns), k).0)
  {
    if k > 0 {
      AssignInvariant(columns, k - 1);
      var t := NormTable(columns);
      var acc := AssignUpTo(t, k - 1);
      AssignStepKeeps(columns, k, acc.0, acc.1);
      assert AssignUpTo(t, k) == AssignStep(t, Targets[k - 1], acc.0, acc.1);
    }
  }

  /** The loop of `finde_spalten_mapping`: each target in turn takes its best free header. */
  method AssignTargets(columns: seq<string>) returns (mapping: map<string, Choice>, taken: set<string>)
    ensures (mapping, taken) == AssignUpTo(NormTable(columns), |Targets|)
  {
    var t := NormTable(columns);
    taken := {};
    mapping := map[];
    for k := 0 to |Targets|
      invariant (mapping, taken) == AssignUpTo(t, k)
    {
      var target := Targets[k];
      var hit := FindBestMatch(target.name, target.aliases, t, taken);
      if hit.Some? {
        var (original, confidence) := hit.value;
        mapping := mapping[target.name := Found(original, confidence)];
        taken := taken + {Normalize(original)};
      } else if target.required {
        mapping := mapping[target.name := NotFound];
      }
      assert (mapping, taken) == AssignStep(t, target, AssignUpTo(t, k).0, AssignUpTo(t, k).1);
    }
  }

  /** `alle_pflicht_sicher`. */
  method AllRequiredSure(mapping: map<string, Choice>) returns (allSure: bool)
    requires forall k :: 0 <= k < |Targets| && Targets[k].required ==> Targets[k].name in mapping
    ensures allSure <==>
              forall k :: 0 <= k < |Targets| && Targets[k].required ==>
                mapping[Targets[k].name].Found? && mapping[Targets[k].name].confidence == Sure
  {
    allSure := true;
    for k := 0 to |Targets|
      invariant allSure <==>
                  forall j :: 0 <= j < k && Targets[j].required ==>
                    mapping[Targets[j].name].Found? && mapping[Targets[j].name].confidence == Sure
    {
      if Targets[k].required {
        var choice := mapping[Targets[k].name];
        if !(choice.Found? && choice.confidence == Sure) {
          allSure := false;
        }
      }
    }
  }

  /** `nicht_zugeordnet`. */
  method CollectUnassigned(columns: seq<string>, taken: set<string>) returns (unassigned: seq<string>)
    ensures unassigned == Unassigned(columns, taken)
  {
    unassigned := [];
    for i := 0 to |columns|
      invariant unassigned == Unassigned(columns[..i], taken)
    {
      assert columns[..i + 1][..i] == columns[..i];
      if Normalize(columns[i]) !in taken {
        unassigned := unassigned + [columns[i]];
      }
    }
    assert columns[..|columns|] == columns;
  }

  /** `finde_spalten_mapping`. */
  method FindColumnMapping(columns: seq<string>) returns (res: MappingResult)
    ensures res.allColumns == columns
    ensures res.mapping == AssignUpTo(NormTable(columns), |Targets|).0
    ensures MappingInvariant(columns, |Targets|, res.mapping)
    ensures res.allRequiredSure <==>
              forall k :: 0 <= k < |Targets| && Targets[k].required ==>
                res.mapping[Targets[k].name].Found? && res.mapping[Targets[k].name].confidence == Sure
    ensures res.unassigned == Unassigned(columns, ChosenNorms(res.mapping))
  {
    var mapping, taken := AssignTargets(columns);
    AssignInvariant(columns, |Targets|);
    var allSure := AllRequiredSure(mapping);
    var unassigned := CollectUnassigned(columns, taken);
    res := MappingResult(mapping, columns, unassigned, allSure);
  }

  // ---------------------------------------------------------------------
  // Wishes and separations of the old sheet format (`extrahiere_bestehende_wuensche`)
  // ---------------------------------------------------------------------

  /** One element of `zuordnungen`: a student with the ids it wishes and the ids to keep apart from. */
  datatype Entry = Entry(student: int, wishes: seq<int>, separations: seq<int>)

  /** Every id an entry lists is a valid reference for its student. */
  predicate RefersValidly(roster: Roster, e: Entry) {
    && (forall x :: x in e.wishes ==> x > 0 && x in roster && x != e.student)
    && (forall x :: x in e.separations ==> x > 0 && x in roster && x != e.student)
  }

  /** The entry read from the row of student `sid`: its valid references, in column order. */
  function EntryOf(roster: Roster, sid: int): (e: Entry)
    requires sid in roster
    ensures e.student == sid && RefersValidly(roster, e)
  {
    Entry(sid, ValidRefs(roster, sid, roster[sid].wishes), ValidRefs(roster, sid, roster[sid].separations))
  }

  /** No student has two entries. */
  predicate DistinctStudents(entries: seq<Entry>) {
    forall i, j :: 0 <= i < j < |entries| ==> entries[i].student != entries[j].student
  }

  /** Appending an entry for a new student keeps the students distinct. */
  lemma AppendDistinct(entries: seq<Entry>, e: Entry)
    requires DistinctStudents(entries)
    requires forall i :: 0 <= i < |entries| ==> entries[i].student != e.student
    ensures DistinctStudents(entries + [e])
  {
    var r := entries + [e];
    forall i, j | 0 <= i < j < |r|
      ensures r[i].student != r[j].student
    {
      assert r[i] == entries[i];
      if j < |entries| {
        assert r[j] == entries[j];
      }
    }
  }

  /** What extraction returns: one entry per roster student, as read from its row. */
  predicate IsExtraction(roster: Roster, entries: seq<Entry>) {
    && DistinctStudents(entries)
    && (forall i :: 0 <= i < |entries| ==> entries[i].student in roster && entries[i] == EntryOf(roster, entries[i].student))
    && (forall sid :: sid in roster ==> exists i :: 0 <= i < |entries| && entries[i].student == sid)
  }

  /** Part way through extraction: the rows done are exactly those not in `todo`, each read once. */
  predicate Extracting(roster: Roster, entries: seq<Entry>, todo: set<int>) {
    && todo <= roster.Keys
    && DistinctStudents(entries)
    && (forall i :: 0 <= i < |entries| ==>
          entries[i].student in roster && entries[i].student !in todo
          && entries[i] == EntryOf(roster, entries[i].student))
    && (forall sid :: sid in roster && sid !in todo ==>
          exists i :: 0 <= i < |entries| && entries[i].student == sid)
  }

  /** Reading one more row keeps extraction on track. */
  lemma ExtractStep(roster: Roster, entries: seq<Entry>, todo: set<int>, sid: int)
    requires Extracting(roster, entries, todo) && sid in todo
    ensures Extracting(roster, entries + [EntryOf(roster, sid)], todo - {sid})
  {
    var e := EntryOf(roster, sid);
    var r := entries + [e];
    AppendDistinct(entries, e);
    forall i | 0 <= i < |r|
      ensures r[i].student in roster && r[i].student !in todo - {sid} && r[i] == EntryOf(roster, r[i].student)
    {
      if i < |entries| {
        assert r[i] == entries[i];
      }
    }
    forall s | s in roster && s !in todo - {sid}
      ensures exists i :: 0 <= i < |r| && r[i].student == s
    {
      if s == sid {
        assert r[|entries|].student == s;
      } else {
        var i :| 0 <= i < |entries| && entries[i].student == s;
        assert r[i] == entries[i];
      }
    }
  }

  /** `extrahiere_bestehende_wuensche`: the rows in some order, each giving its entry. */
  method ExtractExisting(roster: Roster) returns (entries: seq<Entry>)
    ensures IsExtraction(roster, entries)
  {
    entries := [];
    var todo := roster.Keys;
    while todo != {}
      invariant Extracting(roster, entries, todo)
      decreases |todo|
    {
      HasMember(todo);
      var sid :| sid in todo;
      var wishes := CollectRefs(roster, sid, roster[sid].wishes);
      var separations := CollectRefs(roster, sid, roster[sid].separations);
      var e := Entry(sid, wishes, separations);
      ExtractStep(roster, entries, todo, sid);
      entries := entries + [e];
      todo := todo - {sid};
    }
  }

  // ---------------------------------------------------------------------
  // Checking cell values (`validiere_dataframe`)
  // ---------------------------------------------------------------------

  /** `ERLAUBTE_AUFFAELLIGKEIT`, `ERLAUBTE_GESCHLECHT` and `ERLAUBTE_MIGRATION` of `backend/vorlage.py`. */
  const AllowedScores: seq<int> := [1, 2, 3, 5, 8, 13]
  const AllowedGenders: seq<string> := ["m", "w"]
  const AllowedMigration: seq<string> := ["Ja", "Nein"]

  /** One element of `hinweise`: the student, the column and the offending value. */
  datatype Hint =
    | BadGender(student: int, value: string)
    | ScoreNotNumber(student: int, text: string)
    | ScoreNotAllowed(student: int, score: int)
    | BadMigration(student: int, value: string)

  /** `int(x)` on a float: the integer part, rounded toward zero. */
  function Truncate(x: real): (n: int)
    ensures 0.0 <= x ==> 0 <= n && n as real <= x < n as real + 1.0
    ensures x < 0.0 ==> n <= 0 && n as real - 1.0 < x <= n as real
  {
    if x >= 0.0 then x.Floor else -((-x).Floor)
  }

  /** The hint for the gender cell, if any: the trimmed text is neither empty nor `m` or `w`. */
  function GenderHint(sid: int, gender: string): (h: Option<Hint>)
    ensures h.None? <==> Trim(gender) == [] || Trim(gender) in AllowedGenders
    ensures h.Some? ==> h.value.BadGender? && h.value.student == sid
    ensures h.Some? && h.value.BadGender? ==>
              h.value.value == Trim(gender) && h.value.value != [] && h.value.value !in AllowedGenders
  {
    var g := Trim(gender);
    if g != [] && g !in AllowedGenders then Some(BadGender(sid, g)) else None
  }

  /** The hint for the score cell, if any: text that is no number, or a number whose integer part is neither 0 nor allowed. */
  function ScoreHint(sid: int, c: ScoreCell): (h: Option<Hint>)
    ensures h.Some? ==> h.value.student == sid && (h.value.ScoreNotNumber? || h.value.ScoreNotAllowed?)
    ensures h.Some? && h.value.ScoreNotNumber? ==> c == NonNumeric(h.value.text)
    ensures h.Some? && h.value.ScoreNotAllowed? ==>
              c.Numeric? && h.value.score == Truncate(c.value) && h.value.score !in AllowedScores && h.value.score != 0
    ensures c.NonNumeric? ==> h == Some(ScoreNotNumber(sid, c.text))
    ensures c.Missing? ==> h.None?
  {
    match c
    case Missing => None
    case NonNumeric(text) => Some(ScoreNotNumber(sid, text))
    case Numeric(v) =>
      var n := Truncate(v);
      if n !in AllowedScores && n != 0 then Some(ScoreNotAllowed(sid, n)) else None
  }

  /** The hint for the migration cell, if any: a filled cell whose trimmed text is neither empty nor `Ja` or `Nein`. */
  function MigrationHint(sid: int, migration: Option<string>): (h: Option<Hint>)
    ensures h.None? <==> migration.None? || Trim(migration.value) == [] || Trim(migration.value) in AllowedMigration
    ensures h.Some? ==> migration.Some? && h.value.BadMigration? && h.value.student == sid
    ensures h.Some? && h.value.BadMigration? ==>
              h.value.value == Trim(migration.value) && h.value.value != [] && h.value.value !in AllowedMigration
  {
    if migration.None? then None
    else
      var m := Trim(migration.value);
      if m != [] && m !in AllowedMigration then Some(BadMigration(sid, m)) else None
  }

  function Present(h: Option<Hint>): (r: seq<Hint>)
    ensures forall x :: x in r <==> h == Some(x)
    ensures |r| <= 1
  {
    if h.Some? then [h.value] else []
  }

  /** The hints for one row, in the order the checks run: gender, score, migration. */
  function HintsFor(sid: int, st: Student): (r: seq<Hint>)
    ensures |r| <= 3
    ensures forall h :: h in r <==>
              GenderHint(sid, st.gender) == Some(h) || ScoreHint(sid, st.score) == Some(h)
              || MigrationHint(sid, st.migration) == Some(h)
    ensures forall h :: h in r ==> h.student == sid
  {
    var g, c, m := GenderHint(sid, st.gender), ScoreHint(sid, st.score), MigrationHint(sid, st.migration);
    var r := Present(g) + Present(c) + Present(m);
    assert forall h :: h in r <==> g == Some(h) || c == Some(h) || m == Some(h);
    r
  }

  /** A row's hints repeat none: at most one of each kind. */
  lemma HintsForDistinct(sid: int, st: Student)
    ensures DistinctHints(HintsFor(sid, st))
  {
    ThreeKinds(GenderHint(sid, st.gender), ScoreHint(sid, st.score), MigrationHint(sid, st.migration));
  }

  /** A gender, a score and a migration hint are different hints, so listing them repeats none. */
  lemma ThreeKinds(g: Option<Hint>, c: Option<Hint>, m: Option<Hint>)
    requires g.Some? ==> g.value.BadGender?
    requires c.Some? ==> c.value.ScoreNotNumber? || c.value.ScoreNotAllowed?
    requires m.Some? ==> m.value.BadMigration?
    ensures DistinctHints(Present(g) + Present(c) + Present(m))
  {
    var r := Present(g) + Present(c) + Present(m);
    forall i, j | 0 <= i < j < |r|
      ensures r[i] != r[j]
    {
      assert r[i] in r && r[j] in r;
    }
  }

  /** No hint occurs twice. */
  predicate DistinctHints(hs: seq<Hint>) {
    forall i, j :: 0 <= i < j < |hs| ==> hs[i] != hs[j]
  }

  /** A score the check accepts: empty, or a number within one of 0 or in `[a, a + 1)` for an allowed `a`. */
  predicate AcceptedScore(c: ScoreCell) {
    || c.Missing?
    || (c.Numeric? && (-1.0 < c.value < 1.0 || exists a :: a in AllowedScores && a as real <= c.value < a as real + 1.0))
  }

  /** A row gets no score hint exactly when its score is accepted: the check truncates toward zero. */
  lemma ScoreHintIffRejected(sid: int, c: ScoreCell)
    ensures ScoreHint(sid, c).None? <==> AcceptedScore(c)
  {
    if c.Numeric? {
      var n := Truncate(c.value);
      if n in AllowedScores {
        assert n as real <= c.value < n as real + 1.0;
      }
      if exists a :: a in AllowedScores && a as real <= c.value < a as real + 1.0 {
        var a :| a in AllowedScores && a as real <= c.value < a as real + 1.0;
        assert n == a;
      }
    }
  }

  /** A row the check accepts: gender blank or allowed, score accepted, migration empty, blank or allowed. */
  predicate AcceptedRow(st: Student) {
    && (Trim(st.gender) == [] || Trim(st.gender) in AllowedGenders)
    && AcceptedScore(st.score)
    && (st.migration.None? || Trim(st.migration.value) == [] || Trim(st.migration.value) in AllowedMigration)
  }

  /** A row gets no hint exactly when it is accepted. */
  lemma NoHintsIffAccepted(sid: int, st: Student)
    ensures HintsFor(sid, st) == [] <==> AcceptedRow(st)
  {
    ScoreHintIffRejected(sid, st.score);
    var r := HintsFor(sid, st);
    if r != [] {
      assert r[0] in r;
    }
  }

  /** A row whose cells hold only values the template offers gets no hint. */
  lemma TemplateValuesPass(sid: int, st: Student)
    requires Trim(st.gender) in AllowedGenders
    requires st.score.Missing? || (st.score.Numeric? && exists a :: a in AllowedScores && st.score.value == a as real)
    requires st.migration.None? || Trim(st.migration.value) in AllowedMigration
    ensures HintsFor(sid, st) == []
  {
    if st.score.Numeric? {
      var a :| a in AllowedScores && st.score.value == a as real;
      assert Truncate(st.score.value) == a;
    }
  }

  /** `validiere_dataframe`: the hints of every row. */
  method ValidateRoster(roster: Roster) returns (hints: seq<Hint>)
    ensures forall h :: h in hints <==> h.student in roster && h in HintsFor(h.student, roster[h.student])
    ensures DistinctHints(hints)
  {
    hints := [];
    var todo := roster.Keys;
    while todo != {}
      invariant todo <= roster.Keys
      invariant forall h :: h in hints <==> h.student in roster - todo && h in HintsFor(h.student, roster[h.student])
      invariant DistinctHints(hints)
      decreases |todo|
    {
      HasMember(todo);
      var sid :| sid in todo;
      var found := HintsFor(sid, roster[sid]);
      HintsForDistinct(sid, roster[sid]);
      AppendDistinctHints(hints, found);
      hints := hints + found;
      todo := todo - {sid};
    }
  }

  /** Appending hints none of which is already listed keeps the hints distinct. */
  lemma AppendDistinctHints(hs: seq<Hint>, more: seq<Hint>)
    requires DistinctHints(hs) && DistinctHints(more)
    requires forall h :: h in more ==> h !in hs
    ensures DistinctHints(hs + more)
  {
    forall i, j | 0 <= i < j < |hs + more|
      ensures (hs + more)[i] != (hs + more)[j]
    {
      if i < |hs| && |hs| <= j {
        assert (hs + more)[j] == more[j - |hs|];
        assert more[j - |hs|] in more;
      }
    }
  }

  // ---------------------------------------------------------------------
  // Writing wishes and separations back (`wuensche_einfuegen`)
  // ---------------------------------------------------------------------

  /** `max(len(...) for ...)` with `default=0`. */
  function Longest(lists: seq<seq<int>>): (m: nat)
    ensures forall i :: 0 <= i < |lists| ==> |lists[i]| <= m
    ensures lists != [] ==> exists i :: 0 <= i < |lists| && |lists[i]| == m
    ensures lists == [] ==> m == 0
  {
    if lists == [] then 0
    else
      var n := |lists| - 1;
      var m := Longest(lists[..n]);
      assert forall i :: 0 <= i < n ==> lists[..n][i] == lists[i];
      if |lists[n]| > m then |lists[n]| else m
  }

  /** The number of columns written: the longest list, but at least one. */
  function ColumnCount(lists: seq<seq<int>>): (w: nat)
    ensures w >= 1
    ensures forall i :: 0 <= i < |lists| ==> |lists[i]| <= w
    ensures w == 1 || exists i :: 0 <= i < |lists| && |lists[i]| == w
  {
    var m := Longest(lists);
    if m == 0 then 1 else m
  }

  function WishLists(entries: seq<Entry>): (r: seq<seq<int>>)
    ensures |r| == |entries| && forall i :: 0 <= i < |r| ==> r[i] == entries[i].wishes
  {
    seq(|entries|, i requires 0 <= i < |entries| => entries[i].wishes)
  }

  function SeparationLists(entries: seq<Entry>): (r: seq<seq<int>>)
    ensures |r| == |entries| && forall i :: 0 <= i < |r| ==> r[i] == entries[i].separations
  {
    seq(|entries|, i requires 0 <= i < |entries| => entries[i].separations)
  }

  /** The row after the old columns are dropped and `width` new ones set to 0. */
  function ClearedRow(st: Student, wishWidth: nat, sepWidth: nat): Student {
    st.(wishes := PaddedCells([], wishWidth), separations := PaddedCells([], sepWidth))
  }

  /** `df.at[sid, f"..._{i + 1}"] = int(x)` for each listed id: the ids replace the first cells. */
  function Overlay(cells: seq<Option<int>>, ids: seq<int>): (r: seq<Option<int>>)
    requires |ids| <= |cells|
    ensures |r| == |cells|
    ensures forall i :: 0 <= i < |ids| ==> r[i] == Some(ids[i])
    ensures forall i :: |ids| <= i < |cells| ==> r[i] == cells[i]
  {
    seq(|cells|, i requires 0 <= i < |cells| => if i < |ids| then Some(ids[i]) else cells[i])
  }

  /** Rows whose cells all have the given widths. */
  predicate HasWidths(roster: Roster, wishWidth: nat, sepWidth: nat) {
    forall sid :: sid in roster ==> |roster[sid].wishes| == wishWidth && |roster[sid].separations| == sepWidth
  }

  /** Entries whose lists fit into the given widths. */
  predicate Fits(entries: seq<Entry>, wishWidth: nat, sepWidth: nat) {
    forall i :: 0 <= i < |entries| ==> |entries[i].wishes| <= wishWidth && |entries[i].separations| <= sepWidth
  }

  /** The roster after the entries have been written in order; an entry for an unknown id is skipped. */
  function Written(roster: Roster, entries: seq<Entry>, wishWidth: nat, sepWidth: nat): (r: Roster)
    requires HasWidths(roster, wishWidth, sepWidth) && Fits(entries, wishWidth, sepWidth)
    ensures r.Keys == roster.Keys && HasWidths(r, wishWidth, sepWidth)
  {
    if entries == [] then roster
    else
      var n := |entries| - 1;
      var r := Written(roster, entries[..n], wishWidth, sepWidth);
      var e := entries[n];
      if e.student in r then
        var st := r[e.student];
        r[e.student := st.(wishes := Overlay(st.wishes, e.wishes), separations := Overlay(st.separations, e.separations))]
      else r
  }

  /** `wuensche_einfuegen` as a value: clear every row, then write the entries. */
  function Inserted(roster: Roster, entries: seq<Entry>): Roster {
    var ww, sw := ColumnCount(WishLists(entries)), ColumnCount(SeparationLists(entries));
    var cleared := map sid | sid in roster :: ClearedRow(roster[sid], ww, sw);
    Written(cleared, entries, ww, sw)
  }

  /** One entry's ids written over the first cells, one cell at a time. */
  method OverlayCells(cells: seq<Option<int>>, ids: seq<int>) returns (r: seq<Option<int>>)
    requires |ids| <= |cells|
    ensures r == Overlay(cells, ids)
  {
    r := cells;
    for i := 0 to |ids|
      invariant |r| == |cells|
      invariant forall j :: 0 <= j < i ==> r[j] == Some(ids[j])
      invariant forall j :: i <= j < |cells| ==> r[j] == cells[j]
    {
      r := r[i := Some(ids[i])];
    }
  }

  /** `wuensche_einfuegen`. */
  method InsertWishes(roster: Roster, entries: seq<Entry>) returns (result: Roster)
    ensures result == Inserted(roster, entries)
  {
    var ww, sw := ColumnCount(WishLists(entries)), ColumnCount(SeparationLists(entries));
    var cleared := map sid | sid in roster :: ClearedRow(roster[sid], ww, sw);
    result := cleared;
    for k := 0 to |entries|
      invariant result == Written(cleared, entries[..k], ww, sw)
    {
      assert entries[..k + 1][..k] == entries[..k];
      var e := entries[k];
      if e.student in result {
        var st := result[e.student];
        var wishes := OverlayCells(st.wishes, e.wishes);
        var separations := OverlayCells(st.separations, e.separations);
        result := result[e.student := st.(wishes := wishes, separations := separations)];
      }
    }
    assert entries[..|entries|] == entries;
  }

  /** With one entry per student, each listed student's row holds its ids padded with 0, and every other row only 0. */
  lemma {:induction false} WrittenRows(roster: Roster, entries: seq<Entry>, wishWidth: nat, sepWidth: nat, sid: int)
    requires sid in roster && DistinctStudents(entries)
    requires Fits(entries, wishWidth, sepWidth)
    requires forall s :: s in roster ==>
               roster[s].wishes == PaddedCells([], wishWidth) && roster[s].separations == PaddedCells([], sepWidth)
    ensures HasWidths(roster, wishWidth, sepWidth)
    ensures forall i :: 0 <= i < |entries| && entries[i].student == sid ==>
              (&& Written(roster, entries, wishWidth, sepWidth)[sid].wishes == PaddedCells(entries[i].wishes, wishWidth)
               && Written(roster, entries, wishWidth, sepWidth)[sid].separations == PaddedCells(entries[i].separations, sepWidth))
    ensures (forall i :: 0 <= i < |entries| ==> entries[i].student != sid) ==>
              Written(roster, entries, wishWidth, sepWidth)[sid] == roster[sid]
  {
    if entries != [] {
      var n := |entries| - 1;
      var front := entries[..n];
      assert forall i :: 0 <= i < n ==> front[i] == entries[i];
      WrittenRows(roster, front, wishWidth, sepWidth, sid);
      var e := entries[n];
      if e.student == sid {
        var st := Written(roster, front, wishWidth, sepWidth)[sid];
        assert st == roster[sid];
        assert Overlay(st.wishes, e.wishes) == PaddedCells(e.wishes, wishWidth);
        assert Overlay(st.separations, e.separations) == PaddedCells(e.separations, sepWidth);
      }
    }
  }

  /** A row holding an entry's ids, padded with 0, reads back as that entry. */
  lemma ReadRow(r: Roster, e: Entry, wishWidth: nat, sepWidth: nat)
    requires e.student in r && RefersValidly(r, e)
    requires |e.wishes| <= wishWidth && |e.separations| <= sepWidth
    requires r[e.student].wishes == PaddedCells(e.wishes, wishWidth)
    requires r[e.student].separations == PaddedCells(e.separations, sepWidth)
    ensures EntryOf(r, e.student) == e
  {
    assert forall i :: 0 <= i < |e.wishes| ==> e.wishes[i] in e.wishes;
    assert forall i :: 0 <= i < |e.separations| ==> e.separations[i] in e.separations;
    ValidRefsOfPadded(r, e.student, e.wishes, wishWidth);
    ValidRefsOfPadded(r, e.student, e.separations, sepWidth);
  }

  /** The row of `sid` after insertion: its entry's ids padded to the common widths, or only 0. */
  lemma InsertedRow(roster: Roster, entries: seq<Entry>, sid: int)
    requires sid in roster && DistinctStudents(entries)
    ensures Inserted(roster, entries).Keys == roster.Keys
    ensures Fits(entries, ColumnCount(WishLists(entries)), ColumnCount(SeparationLists(entries)))
    ensures forall i :: 0 <= i < |entries| && entries[i].student == sid ==>
              (&& Inserted(roster, entries)[sid].wishes == PaddedCells(entries[i].wishes, ColumnCount(WishLists(entries)))
               && Inserted(roster, entries)[sid].separations
                  == PaddedCells(entries[i].separations, ColumnCount(SeparationLists(entries))))
    ensures (forall i :: 0 <= i < |entries| ==> entries[i].student != sid) ==>
              (&& Inserted(roster, entries)[sid].wishes == PaddedCells([], ColumnCount(WishLists(entries)))
               && Inserted(roster, entries)[sid].separations == PaddedCells([], ColumnCount(SeparationLists(entries))))
  {
    var ww, sw := ColumnCount(WishLists(entries)), ColumnCount(SeparationLists(entries));
    var cleared := map s | s in roster :: ClearedRow(roster[s], ww, sw);
    WrittenRows(cleared, entries, ww, sw, sid);
  }

  /**
   * Reading back what was written: with one entry per student, only valid
   * references in it and at most nine ids per list, each row yields its entry
   * again and a row without an entry yields nothing. The program reads the
   * columns in string order of their names, which agrees with the numeric
   * order only up to nine columns.
   */
  lemma ReadBack(roster: Roster, entries: seq<Entry>, sid: int)
    requires sid in roster && DistinctStudents(entries)
    requires Fits(entries, 9, 9)
    requires forall i :: 0 <= i < |entries| ==> RefersValidly(roster, entries[i])
    ensures Inserted(roster, entries).Keys == roster.Keys
    ensures forall i :: 0 <= i < |entries| && entries[i].student == sid ==> EntryOf(Inserted(roster, entries), sid) == entries[i]
    ensures (forall i :: 0 <= i < |entries| ==> entries[i].student != sid) ==>
              EntryOf(Inserted(roster, entries), sid) == Entry(sid, [], [])
  {
    var ww, sw := ColumnCount(WishLists(entries)), ColumnCount(SeparationLists(entries));
    InsertedRow(roster, entries, sid);
    var r := Inserted(roster, entries);
    forall i | 0 <= i < |entries| && entries[i].student == sid
      ensures EntryOf(r, sid) == entries[i]
    {
      ReadRow(r, entries[i], ww, sw);
    }
    if forall i :: 0 <= i < |entries| ==> entries[i].student != sid {
      ReadRow(r, Entry(sid, [], []), ww, sw);
    }
  }

  /** Extraction lists only valid references. */
  lemma ExtractionRefersValidly(roster: Roster, entries: seq<Entry>)
    requires IsExtraction(roster, entries)
    ensures forall i :: 0 <= i < |entries| ==> RefersValidly(roster, entries[i])
  {
    forall i | 0 <= i < |entries|
      ensures RefersValidly(roster, entries[i])
    {
      assert entries[i] == EntryOf(roster, entries[i].student);
    }
  }

  /** One student's row survives writing back what extraction read. */
  lemma RoundTripRow(roster: Roster, entries: seq<Entry>, sid: int)
    requires IsExtraction(roster, entries) && sid in roster
    requires Fits(entries, 9, 9)
    ensures EntryOf(Inserted(roster, entries), sid) == EntryOf(roster, sid)
  {
    ExtractionRefersValidly(roster, entries);
    ReadBack(roster, entries, sid);
    var i :| 0 <= i < |entries| && entries[i].student == sid;
  }

  /**
   * Writing back what extraction read changes nothing that extraction reads:
   * the old sheet format survives a round trip. Extraction reads the columns
   * sorted by name, which is their numeric order only up to nine columns.
   */
  lemma RoundTrip(roster: Roster, entries: seq<Entry>)
    requires IsExtraction(roster, entries)
    requires Fits(entries, 9, 9)
    ensures Inserted(roster, entries).Keys == roster.Keys
    ensures forall sid :: sid in roster ==> EntryOf(Inserted(roster, entries), sid) == EntryOf(roster, sid)
  {
    forall sid | sid in roster
      ensures EntryOf(Inserted(roster, entries), sid) == EntryOf(roster, sid)
    {
      RoundTripRow(roster, entries, sid);
    }
  }
}
