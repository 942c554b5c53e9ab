/**
 The independent Go manifest checks (`manifest.go`): the top level goes into an index, names
 and paths into sets of what has been seen, and the cross-checks scan. The Rust checks accept
 what these do on uniform tables and nothing on others; a table whose names are distinct, which
 both readers check before, is uniform.
 */
module GoManifest {
  import opened Bytes
  import opened Cbor
  import opened CborFields
  import CborGo
  import opened Container
  import opened Layout
  import opened ManifestText
  import opened Manifest

  // ----- the index of the top level -----

  predicate GoKnownKey(k: Name) {
    || k == Ascii("spec") || k == Ascii("id") || k == Ascii("name") || k == Ascii("names") || k == Ascii("paths")
    || k == Ascii("version") || k == Ascii("category") || k == Ascii("description") || k == Ascii("crit")
    || k == Ascii("external") || k == Ascii("flag") || k == Ascii("generate") || k == Ascii("runtime")
    || k == Ascii("sealed") || k == Ascii("verify") || k == Ascii("platform")
  }

  lemma SameKnownKeys(k: Name)
    ensures GoKnownKey(k) <==> KnownKey(k)
  {
    var s := KNOWN_KEYS;
    assert s[0] == "category" && s[1] == "crit" && s[2] == "description" && s[3] == "external" && s[4] == "flag";
    assert s[5] == "generate" && s[6] == "id" && s[7] == "name" && s[8] == "names" && s[9] == "paths";
    assert s[10] == "platform" && s[11] == "runtime" && s[12] == "sealed" && s[13] == "spec";
    assert s[14] == "verify" && s[15] == "version";
  }

  lemma {:induction false} GetNext(front: seq<Entry>, e: Entry, name: Name)
    ensures Get(front + [e], name)
      == if Get(front, name).Some? then Get(front, name) else if e.key == Text(name) then Some(e.val) else None
  {
    if front == [] {
      assert front + [e] == [e];
    } else {
      assert (front + [e])[1..] == front[1..] + [e];
      GetNext(front[1..], e, name);
    }
  }

  /** Looking at entries in order, the last with a key is the only one. */
  lemma GetLast(es: seq<Entry>, i: nat, name: Name)
    requires Canonical(Map(es)) && i < |es|
    ensures Get(es[..i + 1], name) == if es[i].key == Text(name) then Some(es[i].val) else Get(es[..i], name)
  {
    var (front, e) := (es[..i], es[i]);
    assert es[..i + 1] == front + [e];
    GetNext(front, e, name);
    GetIsEntry(front, name);
    if e.key == Text(name) && Get(front, name).Some? {
      var j :| 0 <= j < i && front[j] == Entry(Text(name), Get(front, name).value);
      CanonicalOnce(es, j, i);
    }
  }

  /** The index has what a lookup would find. */
  ghost predicate Indexed(idx: map<Name, Value>, es: seq<Entry>) {
    forall name :: Get(es, name) == if name in idx then Some(idx[name]) else None
  }

  lemma IndexedNext(idx: map<Name, Value>, es: seq<Entry>, i: nat, next: nat)
    requires Canonical(Map(es)) && i < |es| && next == i + 1 && es[i].key.Text? && Indexed(idx, es[..i])
    ensures Indexed(idx[es[i].key.t := es[i].val], es[..next])
  {
    forall name
      ensures Get(es[..next], name) == if name == es[i].key.t then Some(es[i].val) else if name in idx then Some(idx[name]) else None
    {
      GetLast(es, i, name);
    }
  }

  /** `index`. */
  method Index(es: seq<Entry>) returns (idx: map<Name, Value>)
    requires Canonical(Map(es)) && KeysAreText(Map(es))
    ensures Indexed(idx, es)
  {
    idx := map[];
    for i := 0 to |es|
      invariant Indexed(idx, es[..i])
    {
      IndexedNext(idx, es, i, i + 1);
      idx := idx[es[i].key.t := es[i].val];
    }
    assert es[..|es|] == es;
  }

  /** The index consulted for one key. */
  function At(idx: map<Name, Value>, key: string): Option<Value> {
    if Ascii(key) in idx then Some(idx[Ascii(key)]) else None
  }

  ghost predicate IndexOf(idx: map<Name, Value>, v: Value) {
    v.Map? && Indexed(idx, v.entries)
  }

  lemma AtIsLookup(idx: map<Name, Value>, v: Value, key: string)
    requires IndexOf(idx, v)
    ensures At(idx, key) == Lookup(v, key)
  {
    assert Get(v.entries, Ascii(key)) == At(idx, key);
  }

  // ----- validateLocal -----

  method ValidateCrit(v: Value, idx: map<Name, Value>) returns (ok: bool)
    requires IndexOf(idx, v)
    ensures ok <==> CritRule(v)
  {
    AtIsLookup(idx, v, "crit");
    var crit := At(idx, "crit");
    if crit.Some? {
      if !crit.value.Array? {
        return false;
      }
      var list := crit.value.items;
      for i := 0 to |list|
        invariant forall j :: 0 <= j < i ==> CritEntry(v, list[j])
      {
        var e := list[i];
        assert e in list;
        if !e.Text? {
          return false;
        }
        SameKnownKeys(e.t);
        assert Get(v.entries, e.t).Some? <==> e.t in idx;
        if !GoKnownKey(e.t) || e.t !in idx {
          return false;
        }
      }
    }
    return true;
  }

  method ValidateScalars(v: Value, idx: map<Name, Value>) returns (ok: bool)
    requires IndexOf(idx, v)
    ensures ok <==> SpecRule(v) && ScalarRules(v)
  {
    AtIsLookup(idx, v, "spec");
    AtIsLookup(idx, v, "id");
    AtIsLookup(idx, v, "name");
    AtIsLookup(idx, v, "category");
    AtIsLookup(idx, v, "description");
    AtIsLookup(idx, v, "version");
    var spec := At(idx, "spec");
    if spec.None? || !spec.value.Uint? || spec.value.n == 0 {
      return false;
    }
    var id := At(idx, "id");
    if id.None? || !id.value.Text? {
      return false;
    }
    ok := ValidChallengeId(id.value.t);
    if !ok {
      return false;
    }
    var name := At(idx, "name");
    if name.None? || !name.value.Text? {
      return false;
    }
    if !TextOrAbsent(At(idx, "category")) || !TextOrAbsent(At(idx, "description")) {
      return false;
    }
    var version := At(idx, "version");
    return version.None? || version.value.Uint?;
  }

  /** The first `i` values are different texts, and these are they. */
  ghost predicate Seen(seen: set<Name>, xs: seq<Value>, i: nat)
    requires i <= |xs|
  {
    && (forall j :: 0 <= j < i ==> xs[j].Text? && xs[j].t in seen)
    && (forall t :: t in seen ==> exists j :: 0 <= j < i && xs[j] == Text(t))
    && forall j, k :: 0 <= j < k < i ==> xs[j] != xs[k]
  }

  lemma SeenNext(seen: set<Name>, xs: seq<Value>, i: nat, t: Name, next: nat)
    requires i < |xs| && Seen(seen, xs, i) && xs[i] == Text(t) && next == i + 1
    ensures t !in seen ==> Seen(seen + {t}, xs, next)
    ensures t in seen ==> exists j :: 0 <= j < i && xs[j] == xs[i]
  {
    if t !in seen {
      forall u | u in seen + {t}
        ensures exists j :: 0 <= j < next && xs[j] == Text(u)
      {
        if u == t {
          assert xs[i] == Text(u);
        }
      }
    }
  }

  /** The loop over the name table, with the set of names seen so far. */
  method ValidateNameTable(names: seq<Value>) returns (ok: bool)
    ensures ok <==> NameTable(names)
  {
    var seen: set<Name> := {};
    for i := 0 to |names|
      invariant Seen(seen, names, i) && forall j :: 0 <= j < i ==> NameEntry(names[j])
    {
      if !names[i].Text? {
        return false;
      }
      var t := names[i].t;
      ok := ValidName(t);
      SeenNext(seen, names, i, t, i + 1);
      if !ok || t in seen {
        return false;
      }
      seen := seen + {t};
    }
    return true;
  }

  method ValidateNames(v: Value, idx: map<Name, Value>) returns (ok: bool)
    requires IndexOf(idx, v)
    ensures ok <==> NamesRule(v)
  {
    AtIsLookup(idx, v, "names");
    var names := At(idx, "names");
    if names.None? || !names.value.Array? || |names.value.items| > MAX_NAMES {
      return false;
    }
    ok := ValidateNameTable(names.value.items);
  }

  /** The loop that finds the three fields of an entry. */
  method FindFields(es: seq<Entry>) returns (size: Option<Value>, root: Option<Value>, mirrors: Option<Value>)
    requires Canonical(Map(es))
    ensures size == Lookup(Map(es), "size") && root == Lookup(Map(es), "root") && mirrors == Lookup(Map(es), "mirrors")
  {
    size, root, mirrors := None, None, None;
    assert Ascii("size")[0] == 0x73 && Ascii("root")[0] == 0x72;
    for j := 0 to |es|
      invariant size == Get(es[..j], Ascii("size")) && root == Get(es[..j], Ascii("root"))
      invariant mirrors == Get(es[..j], Ascii("mirrors"))
    {
      GetLast(es, j, Ascii("size"));
      GetLast(es, j, Ascii("root"));
      GetLast(es, j, Ascii("mirrors"));
      if es[j].key == Text(Ascii("size")) {
        size := Some(es[j].val);
      } else if es[j].key == Text(Ascii("root")) {
        root := Some(es[j].val);
      } else if es[j].key == Text(Ascii("mirrors")) {
        mirrors := Some(es[j].val);
      }
    }
    assert es[..|es|] == es;
  }

  method ValidateWhereabouts(x: Value) returns (ok: bool)
    requires Canonical(x)
    ensures ok <==> Whereabouts(x)
  {
    if !x.Map? {
      return false;
    }
    var size, root, mirrors := FindFields(x.entries);
    if size.None? || root.None? || mirrors.None? {
      return false;
    }
    if !size.value.Uint? || !root.value.Bytes? || |root.value.b| != DIGEST_LEN {
      return false;
    }
    if !mirrors.value.Array? || |mirrors.value.items| == 0 {
      return false;
    }
    var list := mirrors.value.items;
    for j := 0 to |list|
      invariant forall k :: 0 <= k < j ==> Mirror(list[k])
    {
      if !list[j].Text? || |list[j].t| < 1 || |list[j].t| > MAX_MIRROR_LEN {
        return false;
      }
    }
    return true;
  }

  /** `validateExternal`. */
  method ValidateExternal(v: Value, idx: map<Name, Value>) returns (ok: bool)
    requires IndexOf(idx, v) && Canonical(v)
    ensures ok <==> ExternalRule(v)
  {
    AtIsLookup(idx, v, "external");
    var ext := At(idx, "external");
    if ext.None? {
      return true;
    }
    if !ext.value.Map? {
      return false;
    }
    LookupCanonical(v, "external");
    var es := ext.value.entries;
    for i := 0 to |es|
      invariant forall j :: 0 <= j < i ==> ExternalEntry(es[j])
    {
      var p := es[i];
      if !p.key.Uint? || p.key.n > 0xffff {
        return false;
      }
      assert p in es && CanonicalEntry(p);
      ok := ValidateWhereabouts(p.val);
      if !ok {
        return false;
      }
    }
    return true;
  }

  function Values(es: seq<Entry>): (xs: seq<Value>)
    ensures |xs| == |es| && forall i :: 0 <= i < |es| ==> xs[i] == es[i].val
  {
    seq(|es|, i requires 0 <= i < |es| => es[i].val)
  }

  /** The loop over the path table, with the set of paths seen so far. */
  method ValidatePathTable(es: seq<Entry>) returns (ok: bool)
    requires forall i :: 0 <= i < |es| ==> WellFormed(es[i].val)
    ensures ok <==> PathTable(es)
  {
    var seen: set<Name> := {};
    ghost var xs := Values(es);
    for i := 0 to |es|
      invariant Seen(seen, xs, i) && forall j :: 0 <= j < i ==> PathEntry(es[j])
    {
      var Entry(k, p) := es[i];
      if !k.Uint? || k.n > 0xffff || !p.Text? {
        return false;
      }
      assert WellFormed(es[i].val);
      ok := ValidRelativePath(p.t);
      SeenNext(seen, xs, i, p.t, i + 1);
      if !ok || p.t in seen {
        return false;
      }
      seen := seen + {p.t};
    }
    return true;
  }

  /** `validatePaths`. */
  method ValidatePaths(v: Value, idx: map<Name, Value>) returns (ok: bool)
    requires IndexOf(idx, v) && WellFormed(v)
    ensures ok <==> PathsRule(v)
  {
    AtIsLookup(idx, v, "paths");
    var paths := At(idx, "paths");
    if paths.None? {
      return true;
    }
    if !paths.value.Map? {
      return false;
    }
    LookupWellFormed(v, "paths");
    var es := paths.value.entries;
    forall i | 0 <= i < |es|
      ensures WellFormed(es[i].val)
    {
      assert es[i] in es && WellFormedEntry(es[i]);
    }
    ok := ValidatePathTable(es);
  }

  lemma LookupWellFormed(v: Value, key: string)
    requires WellFormed(v) && Lookup(v, key).Some?
    ensures WellFormed(Lookup(v, key).value)
  {
    GetIsEntry(v.entries, Ascii(key));
    var e := Entry(Text(Ascii(key)), Lookup(v, key).value);
    assert e in v.entries && WellFormedEntry(e);
  }

  /** `validateLocal`. */
  method ValidateLocal(v: Value) returns (ok: bool)
    requires KeysAreText(v) && Canonical(v) && WellFormed(v)
    ensures ok <==> LocalRules(v)
  {
    var idx := Index(v.entries);
    ok := ValidateCrit(v, idx);
    if !ok {
      return false;
    }
    ok := ValidateScalars(v, idx);
    if !ok {
      return false;
    }
    ok := ValidateNames(v, idx);
    if !ok {
      return false;
    }
    ok := ValidateExternal(v, idx);
    if !ok {
      return false;
    }
    ok := ValidatePaths(v, idx);
  }

  // ----- ValidateAgainst -----

  /** The external sections by name id. Of two under one id, the later hides the earlier. */
  function ExternalSections(records: seq<Record>): map<u16, Record> {
    if records == [] then map[]
    else
      var (front, r) := (ExternalSections(records[..|records| - 1]), records[|records| - 1]);
      if External(r.flags) then front[r.nameId := r] else front
  }

  method CollectExternal(records: seq<Record>) returns (m: map<u16, Record>)
    ensures m == ExternalSections(records)
  {
    m := map[];
    for i := 0 to |records|
      invariant m == ExternalSections(records[..i])
    {
      assert records[..i + 1][..i] == records[..i];
      if External(records[i].flags) {
        m := m[records[i].nameId := records[i]];
      }
    }
    assert records[..|records|] == records;
  }

  /** The fields a Go value has whatever its kind is; the numeric one serves three kinds. */
  function UintOf(f: Option<Value>): u64 {
    match f
    case Some(Uint(n)) => n
    case Some(Nint(n)) => n
    case Some(Bool(v)) => if v then 1 else 0
    case _ => 0
  }

  function BytesOf(f: Option<Value>): seq<byte> {
    if f.Some? && f.value.Bytes? then f.value.b else []
  }

  function TextOf(k: Value): Name {
    if k.Text? then k.t else []
  }

  /**
   The loop that reads an entry's size and root. Unlike the one before it, it looks at no kind: a
   key that is not text has the empty text, and a value of another kind gives whatever its field
   holds. On what the local checks let through that makes no difference.
   */
  method SizeAndRoot(x: Value) returns (size: u64, root: seq<byte>)
    requires Whereabouts(x) && Canonical(x)
    ensures Lookup(x, "size") == Some(Uint(size)) && Lookup(x, "root") == Some(Bytes(root))
  {
    var es := x.entries;
    size, root := 0, [];
    assert Ascii("size")[0] == 0x73 && Ascii("root")[0] == 0x72;
    for j := 0 to |es|
      invariant size == UintOf(Get(es[..j], Ascii("size"))) && root == BytesOf(Get(es[..j], Ascii("root")))
    {
      GetLast(es, j, Ascii("size"));
      GetLast(es, j, Ascii("root"));
      if TextOf(es[j].key) == Ascii("size") {
        size := UintOf(Some(es[j].val));
      } else if TextOf(es[j].key) == Ascii("root") {
        root := BytesOf(Some(es[j].val));
      }
    }
    assert es[..|es|] == es;
  }

  /** An entry names an external section and says of it what its record does. */
  predicate EntryAgrees(e: Entry, m: map<u16, Record>) {
    exists id :: id in m && e.key == Uint(id) && Describes(e.val, m[id])
  }

  predicate Declared(es: seq<Entry>, nid: u16) {
    exists e :: e in es && e.key == Uint(nid)
  }

  /** Every entry agrees, and every external section has one. */
  predicate EntriesAgree(es: seq<Entry>, m: map<u16, Record>) {
    (forall e :: e in es ==> EntryAgrees(e, m)) && forall id :: id in m ==> Declared(es, id)
  }

  /** What the Go cross-checks accept. */
  predicate GoTableRules(v: Value, records: seq<Record>)
    requires NamesRule(v)
  {
    && (forall r :: r in records ==> r.nameId < |Lookup(v, "names").value.items|)
    && EntriesAgree(EntriesOf(Lookup(v, "external")), ExternalSections(records))
    && forall e :: e in EntriesOf(Lookup(v, "paths")) ==> IsNamed(e, records)
  }

  /** The loop over the `external` map. */
  method CheckEntries(es: seq<Entry>, m: map<u16, Record>) returns (ok: bool)
    requires Canonical(Map(es)) && forall e :: e in es ==> ExternalEntry(e)
    ensures ok <==> forall e :: e in es ==> EntryAgrees(e, m)
  {
    for i := 0 to |es|
      invariant forall j :: 0 <= j < i ==> EntryAgrees(es[j], m)
    {
      var p := es[i];
      assert p in es && CanonicalEntry(p);
      var nid: u16 := p.key.n % 0x1_0000;
      if nid !in m {
        return false;
      }
      var size, root := SizeAndRoot(p.val);
      var rec := m[nid];
      if size != rec.lenPlain || root != rec.root {
        return false;
      }
    }
    return true;
  }

  /** The search for a section's entry. */
  method HasEntry(es: seq<Entry>, nid: u16) returns (found: bool)
    requires forall e :: e in es ==> ExternalEntry(e)
    ensures found <==> Declared(es, nid)
  {
    for i := 0 to |es|
      invariant forall j :: 0 <= j < i ==> es[j].key != Uint(nid)
    {
      assert es[i] in es;
      if es[i].key.n % 0x1_0000 == nid {
        return true;
      }
    }
    return false;
  }

  /** The loop over the external sections, in whatever order the map gives them. */
  method CheckSections(es: seq<Entry>, m: map<u16, Record>) returns (ok: bool)
    requires forall e :: e in es ==> ExternalEntry(e)
    ensures ok <==> forall id :: id in m ==> Declared(es, id)
  {
    var todo := m.Keys;
    while todo != {}
      invariant todo <= m.Keys && forall id :: id in m && id !in todo ==> Declared(es, id)
      decreases |todo|
    {
      var nid :| nid in todo;
      ok := HasEntry(es, nid);
      if !ok {
        return false;
      }
      todo := todo - {nid};
    }
    return true;
  }

  /** Both loops. */
  method CheckExternals(es: seq<Entry>, records: seq<Record>) returns (ok: bool)
    requires Canonical(Map(es)) && forall e :: e in es ==> ExternalEntry(e)
    ensures ok <==> EntriesAgree(es, ExternalSections(records))
  {
    var m := CollectExternal(records);
    ok := CheckEntries(es, m);
    if !ok {
      return false;
    }
    ok := CheckSections(es, m);
  }

  method NamesReach(names: seq<Value>, records: seq<Record>) returns (ok: bool)
    ensures ok <==> forall r :: r in records ==> r.nameId < |names|
  {
    for i := 0 to |records|
      invariant forall j :: 0 <= j < i ==> records[j].nameId < |names|
    {
      assert records[i] in records;
      if records[i].nameId >= |names| {
        return false;
      }
    }
    return true;
  }

  /** The scan of the table for a path's section. */
  method HasSection(records: seq<Record>, nid: u16) returns (found: bool)
    ensures found <==> exists r :: r in records && r.nameId == nid
  {
    for i := 0 to |records|
      invariant forall j :: 0 <= j < i ==> records[j].nameId != nid
    {
      if records[i].nameId == nid {
        return true;
      }
    }
    return false;
  }

  method CheckPathSections(es: seq<Entry>, records: seq<Record>) returns (ok: bool)
    requires forall e :: e in es ==> NameIdKey(e.key)
    ensures ok <==> forall e :: e in es ==> IsNamed(e, records)
  {
    for i := 0 to |es|
      invariant forall j :: 0 <= j < i ==> IsNamed(es[j], records)
    {
      assert es[i] in es;
      ok := HasSection(records, es[i].key.n % 0x1_0000);
      if !ok {
        return false;
      }
    }
    return true;
  }

  /** `ValidateAgainst`. */
  method ValidateAgainst(v: Value, records: seq<Record>) returns (ok: bool)
    requires LocalRules(v) && Canonical(v)
    ensures ok <==> GoTableRules(v, records)
  {
    var idx := Index(v.entries);
    AtIsLookup(idx, v, "names");
    AtIsLookup(idx, v, "external");
    AtIsLookup(idx, v, "paths");
    ok := NamesReach(At(idx, "names").value.items, records);
    if !ok {
      return false;
    }
    var es := EntriesOf(At(idx, "external"));
    ExternalEntries(v, es);
    ok := CheckExternals(es, records);
    if !ok {
      return false;
    }
    ok := CheckPathSections(EntriesOf(At(idx, "paths")), records);
  }

  // ----- the same cross-checks -----

  lemma {:induction false} FromExternal(records: seq<Record>, id: u16)
    requires id in ExternalSections(records)
    ensures var r := ExternalSections(records)[id]; r in records && External(r.flags) && r.nameId == id
  {
    var (front, r) := (records[..|records| - 1], records[|records| - 1]);
    if !(External(r.flags) && r.nameId == id) {
      FromExternal(front, id);
    }
  }

  lemma {:induction false} InExternal(records: seq<Record>, r: Record)
    requires r in records && External(r.flags)
    ensures r.nameId in ExternalSections(records)
  {
    var (front, last) := (records[..|records| - 1], records[|records| - 1]);
    assert records == front + [last];
    if r in front {
      InExternal(front, r);
    }
  }

  /** Two records say the same of a payload that is elsewhere. */
  predicate SameClaim(r: Record, s: Record) {
    External(r.flags) && r.lenPlain == s.lenPlain && r.root == s.root
  }

  /** Whatever shares its name id with an external section is external too, and says the same. */
  predicate Uniform(records: seq<Record>) {
    forall r, s :: r in records && s in records && External(s.flags) && r.nameId == s.nameId ==> SameClaim(r, s)
  }

  lemma DistinctIsUniform(records: seq<Record>)
    requires DistinctNames(records)
    ensures Uniform(records)
  {
  }

  lemma SameUnderId(records: seq<Record>, r: Record, s: Record)
    requires Uniform(records) && r in records && s in records && External(s.flags) && r.nameId == s.nameId
    ensures SameClaim(r, s)
  {
  }

  /** On a uniform table, what the later of several records is checked for holds of all of them. */
  lemma FromEntries(es: seq<Entry>, m: map<u16, Record>, records: seq<Record>, r: Record)
    requires Uniform(records) && m == ExternalSections(records) && r in records && EntriesAgree(es, m)
    ensures RecordAgrees(es, r)
  {
    if External(r.flags) {
      InExternal(records, r);
      FromExternal(records, r.nameId);
      SameUnderId(records, r, m[r.nameId]);
      assert Declared(es, r.nameId);
      var e :| e in es && e.key == Uint(r.nameId);
      assert EntryAgrees(e, m);
    } else {
      forall e | e in es
        ensures e.key != Uint(r.nameId)
      {
        var id :| id in m && e.key == Uint(id) && Describes(e.val, m[id]);
        FromExternal(records, id);
        if id == r.nameId {
          SameUnderId(records, r, m[id]);
        }
      }
    }
  }

  /** The one entry of an external section describes it. */
  lemma EntryDescribes(es: seq<Entry>, records: seq<Record>, e: Entry, r: Record)
    requires Canonical(Map(es)) && e in es && RecordAgrees(es, r) && e.key == Uint(r.nameId)
    ensures External(r.flags) && Describes(e.val, r)
  {
    if External(r.flags) {
      var d :| d in es && d.key == Uint(r.nameId) && Describes(d.val, r);
      var i :| 0 <= i < |es| && es[i] == e;
      var j :| 0 <= j < |es| && es[j] == d;
      CanonicalOnce(es, i, j);
    }
  }

  lemma FromRecords(es: seq<Entry>, m: map<u16, Record>, records: seq<Record>, e: Entry)
    requires Canonical(Map(es)) && e in es && NamesExternal(e, records)
    requires m == ExternalSections(records) && forall r :: r in records ==> RecordAgrees(es, r)
    ensures EntryAgrees(e, m)
  {
    var r :| r in records && External(r.flags) && e.key == Uint(r.nameId);
    InExternal(records, r);
    FromExternal(records, r.nameId);
    EntryDescribes(es, records, e, m[r.nameId]);
  }

  /** Records that all agree with one manifest agree with each other. */
  lemma AgreeingIsUniform(es: seq<Entry>, records: seq<Record>)
    requires Canonical(Map(es)) && forall r :: r in records ==> RecordAgrees(es, r)
    ensures Uniform(records)
  {
    forall r, s | r in records && s in records && External(s.flags) && r.nameId == s.nameId
      ensures SameClaim(r, s)
    {
      assert RecordAgrees(es, s) && RecordAgrees(es, r);
      var e :| e in es && e.key == Uint(s.nameId) && Describes(e.val, s);
      EntryDescribes(es, records, e, r);
    }
  }

  /** The entries' view of the agreement is the records' view. */
  lemma FromAllEntries(es: seq<Entry>, m: map<u16, Record>, records: seq<Record>)
    requires Uniform(records) && m == ExternalSections(records) && EntriesAgree(es, m)
    ensures RecordsAgree(es, records)
  {
    forall r | r in records
      ensures RecordAgrees(es, r)
    {
      FromEntries(es, m, records, r);
    }
    forall e | e in es
      ensures NamesExternal(e, records)
    {
      var id :| id in m && e.key == Uint(id) && Describes(e.val, m[id]);
      FromExternal(records, id);
    }
  }

  lemma FromAllRecords(es: seq<Entry>, m: map<u16, Record>, records: seq<Record>)
    requires Canonical(Map(es)) && m == ExternalSections(records) && RecordsAgree(es, records)
    ensures EntriesAgree(es, m) && Uniform(records)
  {
    AgreeingIsUniform(es, records);
    forall e | e in es
      ensures EntryAgrees(e, m)
    {
      FromRecords(es, m, records, e);
    }
    forall id | id in m
      ensures Declared(es, id)
    {
      FromExternal(records, id);
      assert RecordAgrees(es, m[id]);
    }
  }

  /** What Rust accepts is what Go accepts, on uniform tables only. */
  lemma TableRulesExact(v: Value, records: seq<Record>)
    requires LocalRules(v) && Canonical(v)
    ensures TableRules(v, records) <==> GoTableRules(v, records) && Uniform(records)
  {
    var es := EntriesOf(Lookup(v, "external"));
    var m := ExternalSections(records);
    ExternalEntries(v, es);
    if RecordsAgree(es, records) {
      FromAllRecords(es, m, records);
    }
    if EntriesAgree(es, m) && Uniform(records) {
      FromAllEntries(es, m, records);
    }
  }

  /** So on a table whose names are distinct, both implementations accept the same manifests. */
  lemma TableRulesAgree(v: Value, records: seq<Record>)
    requires LocalRules(v) && Canonical(v) && DistinctNames(records)
    ensures GoTableRules(v, records) <==> TableRules(v, records)
  {
    DistinctIsUniform(records);
    TableRulesExact(v, records);
  }

  /** `DecodeManifest`, re-encoding included, then the cross-checks. */
  method CheckManifest(m: seq<byte>, records: seq<Record>) returns (ok: bool)
    requires |m| < U64_RANGE
    ensures ManifestOk(m, records) <==> ok && Uniform(records)
  {
    var v := CborGo.DecodeCbor(m);
    if v.Err? {
      return false;
    }
    DecodedOnce(m, v.value);
    var again := CborGo.EncodeValue(v.value);
    if again.Err? || again.value != m {
      return false;
    }
    if !v.value.Map? || exists i :: 0 <= i < |v.value.entries| && !v.value.entries[i].key.Text? {
      return false;
    }
    ok := ValidateLocal(v.value);
    if !ok {
      return false;
    }
    TableRulesExact(v.value, records);
    ok := ValidateAgainst(v.value, records);
  }
}
