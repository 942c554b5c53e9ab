/**
 When the two manifest cross-checks agree. For every section table there is a manifest the Go
 checks accept: it describes the last external section under each name id. The Rust checks
 accept it only if the table is uniform. So a table is judged alike, whatever the manifest, if
 and only if it is uniform.
 */
module CrossChecks {
  import opened Bytes
  import opened Cbor
  import opened CborBijection
  import opened CborOrder
  import opened CborFields
  import opened Container
  import opened ManifestText
  import opened Manifest
  import opened GoManifest

  /** What a decoder returns: canonical, and within the depth cap. */
  ghost predicate Decodable(v: Value) {
    WellFormed(v) && Canonical(v) && Fits(v, 0)
  }

  /** What can stand at the top level of a manifest. */
  predicate Encodes(x: Value) {
    WellFormed(x) && Fits(x, 1) && NoDuplicates(x)
  }

  // ----- keys -----

  predicate Plain(s: string) {
    |s| < 0x80 && forall i :: 0 <= i < |s| ==> s[i] as int < 0x80
  }

  function Keys(ss: seq<string>): (names: seq<Name>)
    ensures |names| == |ss| && forall k :: 0 <= k < |ss| ==> names[k] == Ascii(ss[k])
  {
    seq(|ss|, k requires 0 <= k < |ss| => Ascii(ss[k]))
  }

  lemma PlainText(s: string)
    requires Plain(s)
    ensures Utf8(Ascii(s)) && |Ascii(s)| < 0x80
  {
    AsciiIsUtf8(Ascii(s));
  }

  lemma PlainDiffer(s: string, t: string)
    requires Plain(s) && Plain(t) && s != t
    ensures Ascii(s) != Ascii(t)
  {
    if |s| == |t| {
      var i :| 0 <= i < |s| && s[i] != t[i];
      assert Ascii(s)[i] != Ascii(t)[i];
    }
  }

  lemma PlainNames(ss: seq<string>)
    requires forall k :: 0 <= k < |ss| ==> Plain(ss[k])
    requires forall i, j :: 0 <= i < j < |ss| ==> ss[i] != ss[j]
    ensures Names(Keys(ss))
  {
    var names := Keys(ss);
    forall k | 0 <= k < |ss|
      ensures Utf8(names[k]) && |names[k]| < U64_RANGE
    {
      PlainText(ss[k]);
    }
    forall i, j | 0 <= i < j < |ss|
      ensures names[i] != names[j]
    {
      PlainDiffer(ss[i], ss[j]);
    }
  }

  // ----- a name for every name id -----

  /** Four letters from `a` to `p`. */
  function NameOf(i: nat): (n: Name)
    requires i < MAX_NAMES
    ensures |n| == 4 && forall k :: 0 <= k < 4 ==> 0x61 <= n[k] <= 0x70
  {
    var (x, y, z) := (i / 0x10, i / 0x10 / 0x10, i / 0x10 / 0x10 / 0x10);
    [0x61 + z, 0x61 + y % 0x10, 0x61 + x % 0x10, 0x61 + i % 0x10]
  }

  lemma NameOfInjective(i: nat, j: nat)
    requires i < MAX_NAMES && j < MAX_NAMES && NameOf(i) == NameOf(j)
    ensures i == j
  {
    var (a, b) := (NameOf(i), NameOf(j));
    assert a[0] == b[0] && a[1] == b[1] && a[2] == b[2] && a[3] == b[3];
  }

  lemma NameOfIsGood(i: nat)
    requires i < MAX_NAMES
    ensures GoodName(NameOf(i)) && Utf8(NameOf(i))
  {
    AsciiIsUtf8(NameOf(i));
  }

  function AllNames(): (xs: seq<Value>)
    ensures |xs| == MAX_NAMES && forall i :: 0 <= i < |xs| ==> xs[i] == Text(NameOf(i))
  {
    seq(MAX_NAMES, i requires 0 <= i < MAX_NAMES => Text(NameOf(i)))
  }

  lemma AllNamesAreTable()
    ensures NameTable(AllNames())
  {
    var xs := AllNames();
    forall i | 0 <= i < |xs|
      ensures NameEntry(xs[i])
    {
      NameOfIsGood(i);
    }
    forall i, j | 0 <= i < j < |xs|
      ensures xs[i] != xs[j]
    {
      if NameOf(i) == NameOf(j) {
        NameOfInjective(i, j);
      }
    }
  }

  /** A list of texts is its own canonical form. */
  lemma TextsEncode(xs: seq<Value>, depth: nat)
    requires |xs| < U64_RANGE && depth < MAX_DEPTH && forall x :: x in xs ==> x.Text? && WellFormed(x)
    ensures var a := Array(xs); WellFormed(a) && NoDuplicates(a) && Canon(a) == a && Fits(a, depth)
  {
    assert CanonItems(xs) == xs;
  }

  /** A name table that every name id indexes. */
  lemma FullTable() returns (names: seq<Value>)
    ensures |names| == MAX_NAMES && NameTable(names) && Encodes(Array(names)) && Canon(Array(names)) == Array(names)
  {
    names := AllNames();
    forall x | x in names
      ensures x.Text? && WellFormed(x)
    {
      var i :| 0 <= i < |names| && names[i] == x;
      NameOfIsGood(i);
    }
    TextsEncode(names, 1);
    AllNamesAreTable();
  }

  // ----- what is said of a payload -----

  const WHERE: seq<string> := ["root", "size", "mirrors"]

  function WhereFields(r: Record): seq<Field> {
    [Some(Bytes(r.root)), Some(Uint(r.lenPlain)), Some(Array([Text(Ascii("m"))]))]
  }

  function WhereRaw(r: Record): Value {
    Map(FieldEntries(Keys(WHERE), WhereFields(r)))
  }

  lemma WhereNames()
    ensures Names(Keys(WHERE))
  {
    assert "root"[0] == 'r' && "size"[0] == 's';
    PlainNames(WHERE);
  }

  lemma OneMirror()
    ensures var x := Array([Text(Ascii("m"))]); WellFormed(x) && NoDuplicates(x) && Canon(x) == x && Fits(x, 3)
  {
    PlainText("m");
    TextsEncode([Text(Ascii("m"))], 3);
  }

  lemma WhereEncodes(r: Record)
    ensures WellFormed(WhereRaw(r)) && Fits(WhereRaw(r), 2) && NoDuplicates(WhereRaw(r))
  {
    WhereNames();
    OneMirror();
    FieldsEncode(Keys(WHERE), WhereFields(r), 2, 3);
  }

  lemma WhereDescribes(r: Record)
    ensures Whereabouts(Canon(WhereRaw(r))) && Describes(Canon(WhereRaw(r)), r)
  {
    WhereNames();
    OneMirror();
    var (names, fields) := (Keys(WHERE), WhereFields(r));
    var es := CanonMapHolds(names, fields);
    assert Get(es, names[0]) == CanonField(fields[0]);
    assert Get(es, names[1]) == CanonField(fields[1]);
    assert Get(es, names[2]) == CanonField(fields[2]);
  }

  // ----- the entries, one for each external section -----

  function Described(m: map<u16, Record>, n: nat): seq<Entry>
    requires n <= 0x1_0000
  {
    if n == 0 then []
    else
      var id := n - 1;
      Described(m, id) + if id in m then [Entry(Uint(id), WhereRaw(m[id]))] else []
  }

  lemma {:induction false} DescribedHas(m: map<u16, Record>, n: nat, e: Entry)
    requires n <= 0x1_0000
    ensures e in Described(m, n) <==> exists id: u16 :: id < n && id in m && e == Entry(Uint(id), WhereRaw(m[id]))
  {
    if n > 0 {
      var last: u16 := n - 1;
      DescribedHas(m, last, e);
      if last in m && e == Entry(Uint(last), WhereRaw(m[last])) {
        assert e in Described(m, n);
      }
    }
  }

  /** In increasing order, so no id twice. */
  lemma {:induction false} DescribedInOrder(m: map<u16, Record>, n: nat)
    requires n <= 0x1_0000
    ensures var es := Described(m, n);
      && |es| <= n && (forall i :: 0 <= i < |es| ==> es[i].key.Uint? && es[i].key.n < n)
      && forall i, j :: 0 <= i < j < |es| ==> es[i].key.n < es[j].key.n
  {
    if n > 0 {
      DescribedInOrder(m, n - 1);
    }
  }

  lemma NumbersDiffer(a: u64, b: u64)
    requires a != b
    ensures Enc(Uint(a)) != Enc(Uint(b))
  {
    if Enc(Uint(a)) == Enc(Uint(b)) {
      PrefixFree(Uint(a), Uint(b));
    }
  }

  lemma CanonNumbered(id: u64, x: Value)
    ensures CanonEntry(Entry(Uint(id), x)) == Entry(Uint(id), Canon(x))
  {
  }

  lemma NumberedDistinct(es: seq<Entry>)
    requires forall i :: 0 <= i < |es| ==> es[i].key.Uint?
    requires forall i, j :: 0 <= i < j < |es| ==> es[i].key.n < es[j].key.n
    ensures DistinctKeys(es)
  {
    forall i, j | 0 <= i < j < |es|
      ensures Enc(es[i].key) != Enc(es[j].key)
    {
      NumbersDiffer(es[i].key.n, es[j].key.n);
    }
  }

  lemma DescribedDistinct(m: map<u16, Record>, n: nat)
    requires n <= 0x1_0000
    ensures DistinctKeys(CanonEntries(Described(m, n)))
  {
    var es := Described(m, n);
    var canon := CanonEntries(es);
    DescribedInOrder(m, n);
    forall i | 0 <= i < |es|
      ensures canon[i].key == es[i].key
    {
      CanonNumbered(es[i].key.n, es[i].val);
    }
    NumberedDistinct(canon);
  }

  lemma DescribedEncodes(m: map<u16, Record>, n: nat)
    requires n <= 0x1_0000
    ensures var x := Map(Described(m, n)); WellFormed(x) && Fits(x, 1) && NoDuplicates(x)
  {
    var es := Described(m, n);
    DescribedInOrder(m, n);
    DescribedDistinct(m, n);
    forall e | e in es
      ensures WellFormedEntry(e) && FitsEntry(e, 2) && NoDuplicatesEntry(e)
    {
      DescribedHas(m, n, e);
      var id: u16 :| id < n && id in m && e == Entry(Uint(id), WhereRaw(m[id]));
      WhereEncodes(m[id]);
    }
  }

  /** In canonical form, the entries are those of the sections. */
  lemma DescribedCanon(m: map<u16, Record>) returns (es: seq<Entry>)
    ensures Canon(Map(Described(m, 0x1_0000))) == Map(es)
    ensures forall e :: e in es <==> exists id: u16 :: id in m && e == Entry(Uint(id), Canon(WhereRaw(m[id])))
  {
    var raw := Described(m, 0x1_0000);
    es := Sort(CanonEntries(raw));
    SortEntries(CanonEntries(raw));
    forall e
      ensures e in es <==> exists id: u16 :: id in m && e == Entry(Uint(id), Canon(WhereRaw(m[id])))
    {
      if e in es {
        var i :| 0 <= i < |raw| && CanonEntries(raw)[i] == e;
        DescribedHas(m, 0x1_0000, raw[i]);
        var id: u16 :| id in m && raw[i] == Entry(Uint(id), WhereRaw(m[id]));
        CanonNumbered(id, WhereRaw(m[id]));
      }
      if id: u16 :| id in m && e == Entry(Uint(id), Canon(WhereRaw(m[id]))) {
        var d := Entry(Uint(id), WhereRaw(m[id]));
        DescribedHas(m, 0x1_0000, d);
        CanonNumbered(id, WhereRaw(m[id]));
        var i :| 0 <= i < |raw| && raw[i] == d;
        assert CanonEntries(raw)[i] == e;
      }
    }
  }

  // ----- the manifest -----

  const TOP: seq<string> := ["id", "name", "spec", "names", "external"]

  function TopFields(id: Value, names: Value, external: Value): seq<Field> {
    [Some(id), Some(id), Some(Uint(1)), Some(names), Some(external)]
  }

  lemma TopNames()
    ensures Names(Keys(TOP))
  {
    assert "name"[0] == 'n' && "spec"[0] == 's';
    PlainNames(TOP);
  }

  /** The canonical map of the fields is what a decoder can return, and holds them. */
  lemma TopHolds(id: Value, names: Value, external: Value) returns (v: Value)
    requires Encodes(id) && Encodes(names) && Encodes(external) && Canon(id) == id && Canon(names) == names
    ensures v.Map? && KnownKeys(v.entries, Keys(TOP)) && Decodable(v)
    ensures Lookup(v, "id") == Lookup(v, "name") == Some(id) && Lookup(v, "spec") == Some(Uint(1))
    ensures Lookup(v, "names") == Some(names) && Lookup(v, "external") == Some(Canon(external))
  {
    TopNames();
    var (keys, fields) := (Keys(TOP), TopFields(id, names, external));
    var raw := Map(FieldEntries(keys, fields));
    FieldsEncode(keys, fields, 0, 1);
    CanonAdmissible(raw, 0);
    var es := CanonMapHolds(keys, fields);
    v := Map(es);
    assert Get(es, keys[0]) == CanonField(fields[0]);
    assert Get(es, keys[1]) == CanonField(fields[1]);
    assert Get(es, keys[2]) == CanonField(fields[2]);
    assert Get(es, keys[3]) == CanonField(fields[3]);
    assert Get(es, keys[4]) == CanonField(fields[4]);
  }

  predicate Other(key: string) {
    Plain(key) && forall k :: 0 <= k < |TOP| ==> key != TOP[k]
  }

  lemma TopIsPlain()
    ensures forall k :: 0 <= k < |TOP| ==> Plain(TOP[k])
  {
  }

  /** No key but those. */
  lemma NoOtherKey(v: Value, key: string)
    requires v.Map? && KnownKeys(v.entries, Keys(TOP)) && Other(key)
    ensures Lookup(v, key).None?
  {
    TopIsPlain();
    GetIsEntry(v.entries, Ascii(key));
    if Lookup(v, key).Some? {
      var k :| 0 <= k < |TOP| && Keys(TOP)[k] == Ascii(key);
      PlainDiffer(key, TOP[k]);
    }
  }

  /** By their lengths or first letters. */
  lemma OthersShort()
    ensures Other("crit") && Other("paths")
  {
    assert "crit"[0] == 'c' && "paths"[0] == 'p' && "name"[0] == 'n' && "spec"[0] == 's' && "names"[0] == 'n';
  }

  lemma OthersLong()
    ensures Other("category") && Other("description") && Other("version")
  {
    assert "category"[0] == 'c' && "external"[0] == 'e';
  }

  lemma OptionalAbsent(v: Value)
    requires v.Map? && KnownKeys(v.entries, Keys(TOP))
    ensures Lookup(v, "crit").None? && Lookup(v, "category").None? && Lookup(v, "description").None?
    ensures Lookup(v, "version").None? && Lookup(v, "paths").None?
  {
    OthersShort();
    OthersLong();
    NoOtherKey(v, "crit");
    NoOtherKey(v, "category");
    NoOtherKey(v, "description");
    NoOtherKey(v, "version");
    NoOtherKey(v, "paths");
  }

  lemma IdIsGood()
    ensures GoodId(Ascii("a")) && Encodes(Text(Ascii("a")))
  {
    assert Ascii("a")[0] == 0x61;
    PlainText("a");
  }

  /** Its entries agree with the sections they describe. */
  lemma DescribedAgrees(m: map<u16, Record>, es: seq<Entry>)
    requires forall e :: e in es <==> exists id: u16 :: id in m && e == Entry(Uint(id), Canon(WhereRaw(m[id])))
    ensures EntriesAgree(es, m) && forall e :: e in es ==> ExternalEntry(e)
  {
    forall e | e in es
      ensures ExternalEntry(e) && EntryAgrees(e, m)
    {
      var id: u16 :| id in m && e == Entry(Uint(id), Canon(WhereRaw(m[id])));
      WhereDescribes(m[id]);
    }
    forall id | id in m
      ensures Declared(es, id)
    {
      assert Entry(Uint(id), Canon(WhereRaw(m[id]))) in es;
    }
  }

  /** The entry for `external`, before and after it is put in canonical form. */
  lemma ExternalMap(m: map<u16, Record>) returns (raw: seq<Entry>, es: seq<Entry>)
    ensures Encodes(Map(raw)) && Canon(Map(raw)) == Map(es)
    ensures EntriesAgree(es, m) && forall e :: e in es ==> ExternalEntry(e)
  {
    raw := Described(m, 0x1_0000);
    DescribedEncodes(m, 0x1_0000);
    es := DescribedCanon(m);
    DescribedAgrees(m, es);
  }

  /** A value with those fields and no others keeps the schema. */
  lemma TopIsLocal(v: Value, id: Name, names: seq<Value>, es: seq<Entry>)
    requires v.Map? && KnownKeys(v.entries, Keys(TOP))
    requires Lookup(v, "id") == Lookup(v, "name") == Some(Text(id)) && Lookup(v, "spec") == Some(Uint(1))
    requires Lookup(v, "names") == Some(Array(names)) && Lookup(v, "external") == Some(Map(es))
    requires GoodId(id) && |names| <= MAX_NAMES && NameTable(names) && forall e :: e in es ==> ExternalEntry(e)
    ensures LocalRules(v) && Lookup(v, "paths").None?
  {
    OptionalAbsent(v);
  }

  /** For every table there is a manifest the Go checks accept. */
  lemma GoAcceptsSome(records: seq<Record>) returns (v: Value)
    ensures Decodable(v) && LocalRules(v) && GoTableRules(v, records)
  {
    var m := ExternalSections(records);
    IdIsGood();
    var names := FullTable();
    var raw, es := ExternalMap(m);
    v := TopWith(Ascii("a"), names, raw, es, m, records);
  }

  lemma TopWith(id: Name, names: seq<Value>, raw: seq<Entry>, es: seq<Entry>, m: map<u16, Record>, records: seq<Record>)
    returns (v: Value)
    requires GoodId(id) && Encodes(Text(id)) && Encodes(Array(names)) && Canon(Array(names)) == Array(names)
    requires |names| == MAX_NAMES && NameTable(names) && Encodes(Map(raw)) && Canon(Map(raw)) == Map(es)
    requires m == ExternalSections(records) && EntriesAgree(es, m) && forall e :: e in es ==> ExternalEntry(e)
    ensures Decodable(v) && LocalRules(v) && GoTableRules(v, records)
  {
    v := TopHolds(Text(id), Array(names), Map(raw));
    TopIsLocal(v, id, names, es);
  }

  // ----- exactly when -----

  /** The two implementations judge every manifest alike for this table. */
  ghost predicate JudgedAlike(records: seq<Record>) {
    forall v :: Decodable(v) && LocalRules(v) ==> (GoTableRules(v, records) <==> TableRules(v, records))
  }

  /** They do if and only if the table is uniform. */
  lemma JudgedAlikeIff(records: seq<Record>)
    ensures JudgedAlike(records) <==> Uniform(records)
  {
    forall v | Decodable(v) && LocalRules(v)
      ensures TableRules(v, records) <==> GoTableRules(v, records) && Uniform(records)
    {
      TableRulesExact(v, records);
    }
    var v := GoAcceptsSome(records);
  }

  /** A manifest only Go accepts: of two external sections under one id, the later hides the earlier. */
  lemma HiddenSection(r: Record, s: Record) returns (v: Value)
    requires External(r.flags) && External(s.flags) && r.nameId == s.nameId && (r.lenPlain != s.lenPlain || r.root != s.root)
    ensures Decodable(v) && LocalRules(v) && GoTableRules(v, [r, s]) && !TableRules(v, [r, s])
  {
    v := GoAcceptsSome([r, s]);
    TableRulesExact(v, [r, s]);
    assert r in [r, s] && s in [r, s] && !SameClaim(r, s);
  }

  /** And one where the section beside an external one is in the file, in either order. */
  lemma InlineBeside(r: Record, s: Record, records: seq<Record>) returns (v: Value)
    requires External(r.flags) && !External(s.flags) && r.nameId == s.nameId && (records == [r, s] || records == [s, r])
    ensures Decodable(v) && LocalRules(v) && GoTableRules(v, records) && !TableRules(v, records)
  {
    v := GoAcceptsSome(records);
    TableRulesExact(v, records);
    assert r in records && s in records && !SameClaim(s, r);
  }
}
