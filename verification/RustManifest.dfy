/**
 The Rust manifest checks (`manifest.rs`): names and paths are collected, sorted and compared
 with their neighbours, and the cross-checks look the table up in sets and a map.
 */
module RustManifest {
  import opened Bytes
  import opened Cbor
  import opened CborOrder
  import opened CborFields
  import CborRust
  import opened Container
  import opened Sorting
  import opened ManifestText
  import opened Manifest

  // ----- duplicates -----

  predicate TextLeq(a: seq<byte>, b: seq<byte>) { !Less(b, a) }
  predicate TextsDiffer(a: seq<byte>, b: seq<byte>) { a != b }

  lemma TextOrder()
    ensures Total(TextLeq) && Transitive(TextLeq)
    ensures forall a, b :: TextLeq(a, b) && TextLeq(b, a) ==> a == b
  {
    forall a: seq<byte>, b: seq<byte>
      ensures TextLeq(a, b) || TextLeq(b, a)
      ensures TextLeq(a, b) && TextLeq(b, a) ==> a == b
    {
      LessTotal(a, b);
      if Less(a, b) {
        LessAsymmetric(a, b);
      }
    }
    forall a: seq<byte>, b: seq<byte>, c: seq<byte> | TextLeq(a, b) && TextLeq(b, c)
      ensures TextLeq(a, c)
    {
      TextLeqTransitive(a, b, c);
    }
  }

  lemma TextLeqTransitive(a: seq<byte>, b: seq<byte>, c: seq<byte>)
    requires TextLeq(a, b) && TextLeq(b, c)
    ensures TextLeq(a, c)
  {
    if Less(c, a) {
      LessTotal(a, b);
      LessTotal(b, c);
      if a != b && b != c {
        LessTransitive(a, b, c);
        LessAsymmetric(a, c);
      }
    }
  }

  /** `sort_unstable_by` and `windows(2)`. */
  method AllDifferent(texts: seq<seq<byte>>) returns (ok: bool)
    ensures ok <==> forall i, j :: 0 <= i < j < |texts| ==> texts[i] != texts[j]
  {
    var sorted := SortBy(TextLeq, texts);
    TextOrder();
    NeighboursDistinct(TextLeq, TextsDiffer, texts, sorted);
    assert AllPairs(TextsDiffer, texts) <==> forall i, j :: 0 <= i < j < |texts| ==> texts[i] != texts[j];
    return !exists i :: 0 < i < |sorted| && sorted[i - 1] == sorted[i];
  }

  // ----- decode -----

  method CheckCrit(v: Value) returns (ok: bool)
    requires v.Map?
    ensures ok <==> CritRule(v)
  {
    var f := Lookup(v, "crit");
    if f.Some? {
      if !f.value.Array? {
        return false;
      }
      var list := f.value.items;
      for i := 0 to |list|
        invariant forall j :: 0 <= j < i ==> CritEntry(v, list[j])
      {
        assert list[i] in list;
        if !list[i].Text? || !KnownKey(list[i].t) || Get(v.entries, list[i].t).None? {
          return false;
        }
      }
    }
    return true;
  }

  /** `check_id`. */
  predicate CheckId(id: seq<byte>) {
    !(id == [] || |id| > MAX_ID_LEN || id[0] == HYPHEN || id[|id| - 1] == HYPHEN
      || !forall i :: 0 <= i < |id| ==> IdByte(id[i]))
  }

  method CheckScalars(v: Value) returns (ok: bool)
    ensures ok <==> ScalarRules(v)
  {
    var id := Lookup(v, "id");
    if id.None? || !id.value.Text? || !CheckId(id.value.t) {
      return false;
    }
    var name := Lookup(v, "name");
    if name.None? || !name.value.Text? {
      return false;
    }
    if !TextOrAbsent(Lookup(v, "category")) || !TextOrAbsent(Lookup(v, "description")) {
      return false;
    }
    var version := Lookup(v, "version");
    return version.None? || version.value.Uint?;
  }

  /** The loop over the name table. */
  method CheckNameTable(names: seq<Value>) returns (ok: bool)
    ensures ok <==> NameTable(names)
  {
    var seen: seq<seq<byte>> := [];
    for i := 0 to |names|
      invariant |seen| == i && forall j :: 0 <= j < i ==> NameEntry(names[j]) && names[j] == Text(seen[j])
    {
      if !names[i].Text? {
        return false;
      }
      ok := CheckName(names[i].t);
      if !ok {
        return false;
      }
      seen := seen + [names[i].t];
    }
    ok := AllDifferent(seen);
  }

  method CheckNames(v: Value) returns (ok: bool)
    ensures ok <==> NamesRule(v)
  {
    var names := Lookup(v, "names");
    if names.None? || !names.value.Array? || |names.value.items| > MAX_NAMES {
      return false;
    }
    ok := CheckNameTable(names.value.items);
  }

  /** The loop over the path table. */
  method CheckPathTable(entries: seq<Entry>) returns (ok: bool)
    ensures ok <==> PathTable(entries)
  {
    var seen: seq<seq<byte>> := [];
    for i := 0 to |entries|
      invariant |seen| == i && forall j :: 0 <= j < i ==> PathEntry(entries[j]) && entries[j].val == Text(seen[j])
    {
      var Entry(k, p) := entries[i];
      if !k.Uint? || k.n >= 0x1_0000 || !p.Text? {
        return false;
      }
      ok := CheckPath(p.t);
      if !ok {
        return false;
      }
      seen := seen + [p.t];
    }
    ok := AllDifferent(seen);
  }

  method CheckPaths(v: Value) returns (ok: bool)
    ensures ok <==> PathsRule(v)
  {
    var paths := Lookup(v, "paths");
    if paths.None? {
      return true;
    }
    if !paths.value.Map? {
      return false;
    }
    ok := CheckPathTable(paths.value.entries);
  }

  /** `parse_external`. */
  method ParseExternal(x: Value) returns (r: Option<(u64, Digest)>)
    ensures r.Some? <==> Whereabouts(x)
    ensures r.Some? ==> Lookup(x, "size") == Some(Uint(r.value.0)) && Lookup(x, "root") == Some(Bytes(r.value.1))
  {
    var size := Lookup(x, "size");
    if size.None? || !size.value.Uint? {
      return None;
    }
    var root := Lookup(x, "root");
    if root.None? || !root.value.Bytes? || |root.value.b| != DIGEST_LEN {
      return None;
    }
    var list := Lookup(x, "mirrors");
    if list.None? || !list.value.Array? || list.value.items == [] {
      return None;
    }
    var mirrors := list.value.items;
    for i := 0 to |mirrors|
      invariant forall j :: 0 <= j < i ==> Mirror(mirrors[j])
    {
      if !mirrors[i].Text? || mirrors[i].t == [] || |mirrors[i].t| > MAX_MIRROR_LEN {
        return None;
      }
    }
    return Some((size.value.n, root.value.b));
  }

  method CheckExternal(v: Value) returns (ok: bool)
    ensures ok <==> ExternalRule(v)
  {
    var f := Lookup(v, "external");
    if f.None? {
      return true;
    }
    if !f.value.Map? {
      return false;
    }
    var entries := f.value.entries;
    for i := 0 to |entries|
      invariant forall j :: 0 <= j < i ==> ExternalEntry(entries[j])
    {
      var Entry(k, x) := entries[i];
      if !k.Uint? || k.n >= 0x1_0000 {
        return false;
      }
      var ext := ParseExternal(x);
      if ext.None? {
        return false;
      }
    }
    return true;
  }

  method CheckKeys(entries: seq<Entry>) returns (ok: bool)
    ensures ok <==> KeysAreText(Map(entries))
  {
    for i := 0 to |entries|
      invariant forall j :: 0 <= j < i ==> entries[j].key.Text?
    {
      if !entries[i].key.Text? {
        return false;
      }
    }
    return true;
  }

  /** `Manifest::decode`, on the value. */
  method CheckLocal(v: Value) returns (ok: bool)
    ensures ok <==> LocalRules(v)
  {
    if !v.Map? {
      return false;
    }
    ok := CheckKeys(v.entries);
    if !ok {
      return false;
    }
    var spec := Lookup(v, "spec");
    if spec.None? || !spec.value.Uint? || spec.value.n == 0 {
      return false;
    }
    ok := CheckCrit(v);
    if !ok {
      return false;
    }
    ok := CheckScalars(v);
    if !ok {
      return false;
    }
    ok := CheckNames(v);
    if !ok {
      return false;
    }
    ok := CheckPaths(v);
    if !ok {
      return false;
    }
    ok := CheckExternal(v);
  }

  // ----- validate_against -----

  function NameIds(records: seq<Record>): (ids: set<u64>)
    ensures forall id: u64 :: id in ids <==> exists r :: r in records && id == r.nameId
  {
    set r | r in records :: r.nameId
  }

  function ExternalIds(records: seq<Record>): (ids: set<u64>)
    ensures forall id: u64 :: id in ids <==> exists r :: r in records && External(r.flags) && id == r.nameId
  {
    set r | r in records && External(r.flags) :: r.nameId
  }

  /** The set of section ids, and the first of the cross-checks. */
  method SectionIds(names: seq<Value>, records: seq<Record>) returns (ok: bool, ids: set<u64>)
    ensures ok <==> forall r :: r in records ==> r.nameId < |names|
    ensures ok ==> ids == NameIds(records)
  {
    ids := {};
    for i := 0 to |records|
      invariant forall j :: 0 <= j < i ==> records[j].nameId < |names|
      invariant ids == NameIds(records[..i])
    {
      ids := ids + {records[i].nameId};
      assert records[..i + 1] == records[..i] + [records[i]];
      if records[i].nameId >= |names| {
        assert records[i] in records;
        return false, ids;
      }
    }
    assert records[..|records|] == records;
    return true, ids;
  }

  method PathsNamed(entries: seq<Entry>, records: seq<Record>, ids: set<u64>) returns (ok: bool)
    requires ids == NameIds(records) && forall e :: e in entries ==> e.key.Uint?
    ensures ok <==> forall e :: e in entries ==> IsNamed(e, records)
  {
    for i := 0 to |entries|
      invariant forall j :: 0 <= j < i ==> IsNamed(entries[j], records)
    {
      assert entries[i] in entries;
      if entries[i].key.n !in ids {
        return false;
      }
    }
    return true;
  }

  /** The map holds exactly the entries. */
  ghost predicate Collected(declared: map<u64, Value>, entries: seq<Entry>) {
    && (forall e :: e in entries ==> e.key.Uint? && e.key.n in declared && declared[e.key.n] == e.val)
    && forall id :: id in declared ==> Entry(Uint(id), declared[id]) in entries
  }

  lemma CollectNext(declared: map<u64, Value>, entries: seq<Entry>, i: nat, next: nat, e: Entry)
    requires Canonical(Map(entries)) && i < |entries| && next == i + 1 && e == entries[i] && e.key.Uint?
    requires Collected(declared, entries[..i])
    ensures Collected(declared[e.key.n := e.val], entries[..next])
  {
    var (front, more) := (entries[..i], declared[e.key.n := e.val]);
    assert entries[..next] == front + [e];
    forall d | d in front
      ensures d.key != e.key
    {
      var j :| 0 <= j < i && front[j] == d;
      if d.key == e.key {
        CanonicalOnce(entries, j, i);
      }
    }
  }

  method Collect(entries: seq<Entry>) returns (declared: map<u64, Value>)
    requires Canonical(Map(entries)) && forall e :: e in entries ==> e.key.Uint?
    ensures Collected(declared, entries)
  {
    declared := map[];
    for i := 0 to |entries|
      invariant Collected(declared, entries[..i])
    {
      var e := entries[i];
      assert e in entries;
      CollectNext(declared, entries, i, i + 1, e);
      declared := declared[e.key.n := e.val];
    }
    assert entries[..|entries|] == entries;
  }

  ghost predicate AllPlaced(entries: seq<Entry>) {
    forall e :: e in entries ==> Whereabouts(e.val)
  }

  /** The match on what a record is and whether it is declared. */
  method CheckRecord(entries: seq<Entry>, declared: map<u64, Value>, r: Record) returns (ok: bool)
    requires Collected(declared, entries) && AllPlaced(entries)
    ensures ok <==> RecordAgrees(entries, r)
  {
    var id: u64 := r.nameId;
    if !External(r.flags) {
      return id !in declared;
    }
    if id !in declared {
      return false;
    }
    var ext := ParseExternal(declared[id]);
    if ext.None? {
      return false;
    }
    return ext.value.0 == r.lenPlain && ext.value.1 == r.root;
  }

  method ExternalsNamed(entries: seq<Entry>, records: seq<Record>) returns (ok: bool)
    requires forall e :: e in entries ==> e.key.Uint?
    ensures ok <==> forall e :: e in entries ==> NamesExternal(e, records)
  {
    var ids := ExternalIds(records);
    for i := 0 to |entries|
      invariant forall j :: 0 <= j < i ==> NamesExternal(entries[j], records)
    {
      assert entries[i] in entries;
      if entries[i].key.n !in ids {
        return false;
      }
    }
    return true;
  }

  /** The loop over the records. */
  method CheckRecords(entries: seq<Entry>, declared: map<u64, Value>, records: seq<Record>) returns (ok: bool)
    requires Collected(declared, entries) && AllPlaced(entries)
    ensures ok <==> forall r :: r in records ==> RecordAgrees(entries, r)
  {
    for i := 0 to |records|
      invariant forall j :: 0 <= j < i ==> RecordAgrees(entries, records[j])
    {
      assert records[i] in records;
      ok := CheckRecord(entries, declared, records[i]);
      if !ok {
        return false;
      }
    }
    return true;
  }

  /** The half of the cross-checks about `external`. */
  method CheckExternals(entries: seq<Entry>, records: seq<Record>) returns (ok: bool)
    requires Canonical(Map(entries)) && AllPlaced(entries) && forall e :: e in entries ==> e.key.Uint?
    ensures ok <==> RecordsAgree(entries, records)
  {
    var declared := Collect(entries);
    ok := CheckRecords(entries, declared, records);
    if !ok {
      return false;
    }
    ok := ExternalsNamed(entries, records);
  }

  /** `validate_against`. */
  method ValidateAgainst(v: Value, records: seq<Record>) returns (ok: bool)
    requires LocalRules(v) && Canonical(v)
    ensures ok <==> TableRules(v, records)
  {
    var inTable, ids := SectionIds(Lookup(v, "names").value.items, records);
    if !inTable {
      return false;
    }
    ok := PathsNamed(EntriesOf(Lookup(v, "paths")), records, ids);
    if !ok {
      return false;
    }
    var entries := EntriesOf(Lookup(v, "external"));
    ExternalEntries(v, entries);
    ok := CheckExternals(entries, records);
  }

  /** `Manifest::decode`, then the cross-checks. */
  method CheckManifest(m: seq<byte>, records: seq<Record>) returns (ok: bool)
    requires |m| < U64_RANGE
    ensures ok <==> ManifestOk(m, records)
  {
    var v := CborRust.DecodeValue(m);
    if v.Err? {
      return false;
    }
    ok := CheckLocal(v.value);
    if !ok {
      return false;
    }
    DecodedOnce(m, v.value);
    ok := ValidateAgainst(v.value, records);
  }
}
