/** What the derived texts mean: the extension is the text after the last dot,
    paths of different uploads differ and never hit the index, and the semester
    label follows the table, with the prototype quirks of a plain object. */
module DeriveProps {
  import opened Optional
  import opened Text
  import opened Json
  import opened Derive

  /** A name without a dot is its own extension. */
  lemma ExtensionWholeName(fileName: string)
    requires fileName != [] && '.' !in fileName
    ensures Extension(fileName) == fileName
  {
    var last := LastPiece(fileName, '.');
    assert |last| == |fileName|;
    assert last == fileName[0..];
  }

  /** Otherwise it is the non-empty run after the last dot. */
  lemma ExtensionAfterLastDot(p: string, e: string)
    requires e != [] && '.' !in e
    ensures Extension(p + "." + e) == e
  {
    var s := p + "." + e;
    var r := LastPiece(s, '.');
    assert s[|p|] == '.';
    assert |r| < |s|;
    assert |r| == |e|;
    assert r == s[|s| - |e|..];
    assert s[|s| - |e|..] == e;
  }

  /** A dot before the end, with nothing after it, gives the default. */
  lemma ExtensionTrailingDot(p: string)
    ensures Extension(p + ".") == DefaultExtension
  {
    var s := p + ".";
    assert s[|s| - 1] == '.';
  }

  /** Splitting at the first occurrence of a character that neither prefix contains. */
  lemma FirstSeparator(a: string, b: string, a': string, b': string, c: char)
    requires c !in a && c !in a'
    requires a + [c] + b == a' + [c] + b'
    ensures a == a' && b == b'
  {
    var s := a + [c] + b;
    IndexOfSplit(a, c, b);
    IndexOfSplit(a', c, b');
    assert a == s[..|a|] == a';
    assert b == s[|a| + 1..] == b';
  }

  /** The position of the first `c` in `s`. */
  function IndexOf(s: string, c: char): nat
    requires c in s
  {
    if s[0] == c then 0 else 1 + IndexOf(s[1..], c)
  }

  lemma {:induction false} IndexOfSplit(a: string, c: char, b: string)
    requires c !in a
    ensures c in a + [c] + b && IndexOf(a + [c] + b, c) == |a|
    decreases |a|
  {
    var s := a + [c] + b;
    assert s[|a|] == c;
    if |a| > 0 {
      assert s[1..] == a[1..] + [c] + b;
      IndexOfSplit(a[1..], c, b);
    }
  }

  lemma NoDotInStamp(t: nat)
    ensures '.' !in UploadDir + Decimal(t)
  {
    var d := Decimal(t);
    var s := UploadDir + d;
    forall i | 0 <= i < |s| ensures s[i] != '.' {
      if i >= |UploadDir| {
        assert s[i] == d[i - |UploadDir|];
      }
    }
  }

  /** Uploads stamped at different times, or with different extensions, go to different paths. */
  lemma UploadPathInjective(t1: nat, e1: string, t2: nat, e2: string)
    ensures UploadPath(t1, e1) == UploadPath(t2, e2) <==> t1 == t2 && e1 == e2
  {
    if UploadPath(t1, e1) == UploadPath(t2, e2) {
      var a1, a2 := UploadDir + Decimal(t1), UploadDir + Decimal(t2);
      NoDotInStamp(t1);
      NoDotInStamp(t2);
      assert UploadPath(t1, e1) == a1 + ['.'] + e1;
      assert UploadPath(t2, e2) == a2 + ['.'] + e2;
      FirstSeparator(a1, e1, a2, e2, '.');
      assert Decimal(t1) == a1[|UploadDir|..] == a2[|UploadDir|..] == Decimal(t2);
      DecimalInjective(t1, t2);
    }
  }

  /** No upload overwrites the index. */
  lemma UploadPathNotIndex(t: nat, e: string)
    ensures UploadPath(t, e) != IndexPath
  {
    var path := UploadPath(t, e);
    assert path[18] == UploadDir[18] == '/';
    assert IndexPath[18] == '.';
  }

  /** The four labels of the table. */
  const Labels: map<string, string> := map[
    "mid1" := "Giữa HK1", "final1" := "Cuối HK1",
    "mid2" := "Giữa HK2", "final2" := "Cuối HK2"
  ]

  /** For a string semester: its label when the table has one, itself when the key
      names nothing, and the prototype quirks for the names a plain object inherits. */
  lemma SemesterTextOfString(s: string)
    ensures SemesterText(JStr(s)) ==
      if s in Labels then Some(JStr(Labels[s]))
      else if s == "__proto__" then Some(JObj([]))
      else if s in PrototypeMethods then None
      else Some(JStr(s))
  {
    ListedIn(PrototypeMethods, s);
    assert !("__proto__" in PrototypeMethods);
    if s in Labels {
      assert s == "mid1" || s == "final1" || s == "mid2" || s == "final2";
    } else {
      assert s != "mid1" && s != "final1" && s != "mid2" && s != "final2";
    }
  }

  /** `String(["mid1"])` is `"mid1"`: a one-element list names the same member as its element. */
  lemma SemesterTextOfSingleton(s: string)
    ensures LabelOf(JArr([JStr(s)])) == LabelOf(JStr(s))
  {
    assert KeyText(JArr([JStr(s)]), false) == KeyText(JStr(s), true) == Some(s);
  }

  /** A semester that is a number, or an object without an own `toString`, is never a
      key of the table and is kept as it is. */
  lemma SemesterTextKept(v: Json)
    requires v.JNum? || (v.JObj? && !HasKey(v.fields, "toString"))
    ensures !KeyThrows(v) && SemesterText(v) == Some(v)
  {
    assert KeyText(v, false).None?;
  }

  /** In an object with distinct keys, each member is found under its own key. */
  lemma LookupDistinct(fields: seq<Field>, i: nat)
    requires DistinctKeys(fields) && i < |fields|
    ensures Lookup(fields, fields[i].key) == Some(fields[i].value)
  {
    var k := KeyIndex(fields, fields[i].key);
    assert HasKey(fields, fields[i].key);
    assert k.value == i;
  }

  /** The entry's members, looked up by name, are the values it was built from. */
  lemma EntryFieldsMembers(id: string, year: Json, semester: Json, named: Option<Json>, fileName: string, url: string, at: string)
    ensures var fs := EntryFields(id, year, semester, named, fileName, url, at);
      Lookup(fs, "id") == Some(JStr(id))
      && Lookup(fs, "year") == Some(year)
      && Lookup(fs, "semester") == Some(semester)
      && Lookup(fs, "semesterText") == named
      && Lookup(fs, "fileName") == Some(JStr(fileName))
      && Lookup(fs, "url") == Some(JStr(url))
      && Lookup(fs, "uploadedAt") == Some(JStr(at))
  {
    var fs := EntryFields(id, year, semester, named, fileName, url, at);
    EntryFieldsDistinct(id, year, semester, named, fileName, url, at);
    if named.Some? {
      assert |fs| == 7;
      LookupDistinct(fs, 0);
      LookupDistinct(fs, 1);
      LookupDistinct(fs, 2);
      LookupDistinct(fs, 3);
      LookupDistinct(fs, 4);
      LookupDistinct(fs, 5);
      LookupDistinct(fs, 6);
    } else {
      assert |fs| == 6;
      LookupDistinct(fs, 0);
      LookupDistinct(fs, 1);
      LookupDistinct(fs, 2);
      LookupDistinct(fs, 3);
      LookupDistinct(fs, 4);
      LookupDistinct(fs, 5);
      forall i | 0 <= i < |fs| ensures fs[i].key != "semesterText" {
        assert |fs[i].key| != 12;
      }
    }
  }

  /** No two members of an entry share a name. */
  lemma EntryFieldsDistinct(id: string, year: Json, semester: Json, named: Option<Json>, fileName: string, url: string, at: string)
    ensures DistinctKeys(EntryFields(id, year, semester, named, fileName, url, at))
  {
  }

  /** The entry, read as an object: `id` is the decimal stamp, `semesterText` is the
      semester's label (absent when that is a function), and the other members are
      the values given. */
  lemma EntryMembers(ts: nat, year: Json, semester: Json, fileName: string, url: string, at: string)
    ensures var e := Entry(ts, year, semester, fileName, url, at);
      e.JObj?
      && Lookup(e.fields, "id") == Some(JStr(Decimal(ts)))
      && Lookup(e.fields, "year") == Some(year)
      && Lookup(e.fields, "semester") == Some(semester)
      && Lookup(e.fields, "semesterText") == SemesterText(semester)
      && Lookup(e.fields, "fileName") == Some(JStr(fileName))
      && Lookup(e.fields, "url") == Some(JStr(url))
      && Lookup(e.fields, "uploadedAt") == Some(JStr(at))
  {
    EntryFieldsMembers(Decimal(ts), year, semester, SemesterText(semester), fileName, url, at);
  }

  /** The entry's keys are distinct and its values well formed. */
  lemma EntryFieldsWellFormed(id: string, year: Json, semester: Json, named: Option<Json>, fileName: string, url: string, at: string)
    requires WellFormed(year) && WellFormed(semester) && (named.Some? ==> WellFormed(named.value))
    ensures WellFormed(JObj(EntryFields(id, year, semester, named, fileName, url, at)))
  {
  }

  /** The entry survives printing: distinct keys and well-formed values. */
  lemma EntryWellFormed(ts: nat, year: Json, semester: Json, fileName: string, url: string, at: string)
    requires WellFormed(year) && WellFormed(semester)
    ensures WellFormed(Entry(ts, year, semester, fileName, url, at))
  {
    EntryFieldsWellFormed(Decimal(ts), year, semester, SemesterText(semester), fileName, url, at);
  }
}
