/**
 What a manifest has to be: canonical CBOR that keeps the schema's own rules and agrees with
 the section table. Two independent checkers, one over sets and maps and one that scans,
 accept exactly this; they are in RustManifest and GoManifest.
 */
module Manifest {
  import opened Bytes
  import opened Cbor
  import opened CborBijection
  import opened CborOrder
  import opened CborFields
  import opened Container
  import opened ManifestText

  const MAX_MIRROR_LEN: nat := 2048
  const MAX_NAMES: nat := 65536

  const KNOWN_KEYS: seq<string> :=
    ["category", "crit", "description", "external", "flag", "generate", "id", "name", "names", "paths",
     "platform", "runtime", "sealed", "spec", "verify", "version"]

  predicate KnownKey(name: Name) {
    exists i :: 0 <= i < |KNOWN_KEYS| && name == Ascii(KNOWN_KEYS[i])
  }

  /** `Value::get`. */
  function Lookup(v: Value, name: string): Option<Value> {
    if v.Map? then Get(v.entries, Ascii(name)) else None
  }

  function EntriesOf(f: Option<Value>): seq<Entry> {
    if f.Some? && f.value.Map? then f.value.entries else []
  }

  // ----- the manifest by itself -----

  predicate TextOrAbsent(f: Option<Value>) {
    f.None? || f.value.Text?
  }

  /** M4 and M5. */
  predicate SpecRule(v: Value) {
    Lookup(v, "spec").Some? && Lookup(v, "spec").value.Uint? && Lookup(v, "spec").value.n != 0
  }

  /** M6 to M8: a critical key is a text, known, and there. */
  predicate CritEntry(v: Value, x: Value)
    requires v.Map?
  {
    x.Text? && KnownKey(x.t) && Get(v.entries, x.t).Some?
  }

  predicate CritRule(v: Value)
    requires v.Map?
  {
    match Lookup(v, "crit")
    case None => true
    case Some(crit) => crit.Array? && forall x :: x in crit.items ==> CritEntry(v, x)
  }

  /** M9 to M12. */
  predicate ScalarRules(v: Value) {
    && Lookup(v, "id").Some? && Lookup(v, "id").value.Text? && GoodId(Lookup(v, "id").value.t)
    && Lookup(v, "name").Some? && Lookup(v, "name").value.Text?
    && TextOrAbsent(Lookup(v, "category")) && TextOrAbsent(Lookup(v, "description"))
    && (Lookup(v, "version").None? || Lookup(v, "version").value.Uint?)
  }

  /** M13 to M16: the name table. */
  predicate NameEntry(x: Value) {
    x.Text? && GoodName(x.t)
  }

  predicate NameTable(xs: seq<Value>) {
    && (forall i :: 0 <= i < |xs| ==> NameEntry(xs[i]))
    && forall i, j :: 0 <= i < j < |xs| ==> xs[i] != xs[j]
  }

  predicate NamesRule(v: Value) {
    match Lookup(v, "names")
    case None => false
    case Some(names) => names.Array? && |names.items| <= MAX_NAMES && NameTable(names.items)
  }

  predicate NameIdKey(key: Value) {
    key.Uint? && key.n < 0x1_0000
  }

  /** M22 to M24: no two sections at one path. */
  ghost predicate PathEntry(e: Entry) {
    NameIdKey(e.key) && e.val.Text? && GoodPath(e.val.t)
  }

  ghost predicate PathTable(es: seq<Entry>) {
    && (forall i :: 0 <= i < |es| ==> PathEntry(es[i]))
    && forall i, j :: 0 <= i < j < |es| ==> es[i].val != es[j].val
  }

  ghost predicate PathsRule(v: Value) {
    match Lookup(v, "paths")
    case None => true
    case Some(paths) => paths.Map? && PathTable(paths.entries)
  }

  predicate Mirror(x: Value) {
    x.Text? && 1 <= |x.t| <= MAX_MIRROR_LEN
  }

  /** M18: where a payload outside the file is to be found, and what it is. */
  predicate Whereabouts(x: Value) {
    var (size, root, mirrors) := (Lookup(x, "size"), Lookup(x, "root"), Lookup(x, "mirrors"));
    && size.Some? && size.value.Uint?
    && root.Some? && root.value.Bytes? && |root.value.b| == DIGEST_LEN
    && mirrors.Some? && mirrors.value.Array? && mirrors.value.items != []
    && forall i :: 0 <= i < |mirrors.value.items| ==> Mirror(mirrors.value.items[i])
  }

  /** M17. */
  predicate ExternalEntry(e: Entry) {
    NameIdKey(e.key) && Whereabouts(e.val)
  }

  predicate ExternalRule(v: Value) {
    match Lookup(v, "external")
    case None => true
    case Some(external) =>
      external.Map? && forall i :: 0 <= i < |external.entries| ==> ExternalEntry(external.entries[i])
  }

  predicate KeysAreText(v: Value) {
    v.Map? && forall i :: 0 <= i < |v.entries| ==> v.entries[i].key.Text?
  }

  ghost predicate LocalRules(v: Value) {
    && KeysAreText(v) && SpecRule(v) && CritRule(v) && ScalarRules(v)
    && NamesRule(v) && PathsRule(v) && ExternalRule(v)
  }

  // ----- the manifest and the table -----

  /** The manifest says of the payload what the record does. */
  predicate Describes(x: Value, r: Record) {
    Lookup(x, "size") == Some(Uint(r.lenPlain)) && Lookup(x, "root") == Some(Bytes(r.root))
  }

  predicate IsNamed(e: Entry, records: seq<Record>) {
    exists r :: r in records && e.key == Uint(r.nameId)
  }

  predicate NamesExternal(e: Entry, records: seq<Record>) {
    exists r :: r in records && External(r.flags) && e.key == Uint(r.nameId)
  }

  /** A section whose payload is elsewhere is described, any other is not. */
  predicate RecordAgrees(external: seq<Entry>, r: Record) {
    if External(r.flags) then exists e :: e in external && e.key == Uint(r.nameId) && Describes(e.val, r)
    else forall e :: e in external ==> e.key != Uint(r.nameId)
  }

  /** Every description is of an external section, and every section is as described. */
  predicate RecordsAgree(external: seq<Entry>, records: seq<Record>) {
    && (forall e :: e in external ==> NamesExternal(e, records))
    && forall r :: r in records ==> RecordAgrees(external, r)
  }

  /** M19 to M21 and M25. */
  predicate TableRules(v: Value, records: seq<Record>)
    requires NamesRule(v)
  {
    && (forall r :: r in records ==> r.nameId < |Lookup(v, "names").value.items|)
    && (forall e :: e in EntriesOf(Lookup(v, "paths")) ==> IsNamed(e, records))
    && RecordsAgree(EntriesOf(Lookup(v, "external")), records)
  }

  /** A manifest both readers accept for this table. */
  ghost predicate ManifestOk(m: seq<byte>, records: seq<Record>) {
    match Decode(m)
    case Err => false
    case Ok(v) => LocalRules(v) && TableRules(v, records)
  }

  // ----- no key twice -----

  lemma DecodedOnce(m: seq<byte>, v: Value)
    requires |m| < U64_RANGE && Decode(m) == Ok(v)
    ensures Canonical(v) && Spells(v, 0, m)
  {
    DecodeIff(m, v);
  }

  lemma CanonicalOnce(es: seq<Entry>, i: nat, j: nat)
    requires Canonical(Map(es)) && i < |es| && j < |es| && es[i].key == es[j].key
    ensures i == j
  {
    IncreasingDistinct([], es);
  }

  lemma {:induction false} GetIsEntry(es: seq<Entry>, name: Name)
    ensures Get(es, name).Some? ==> Entry(Text(name), Get(es, name).value) in es
  {
    if es != [] && es[0].key != Text(name) {
      GetIsEntry(es[1..], name);
    }
  }

  lemma LookupCanonical(v: Value, name: string)
    requires Canonical(v) && Lookup(v, name).Some?
    ensures Canonical(Lookup(v, name).value)
  {
    GetIsEntry(v.entries, Ascii(name));
    var e := Entry(Text(Ascii(name)), Lookup(v, name).value);
    assert e in v.entries && CanonicalEntry(e);
  }

  /** What the cross-checks rely on. */
  lemma ExternalEntries(v: Value, entries: seq<Entry>)
    requires ExternalRule(v) && Canonical(v) && entries == EntriesOf(Lookup(v, "external"))
    ensures Canonical(Map(entries)) && forall e :: e in entries ==> ExternalEntry(e)
  {
    if Lookup(v, "external").Some? {
      LookupCanonical(v, "external");
    }
  }
}
