/**
 Entitlement chains as bytes: reading a record back from a map, and the theorem that a
 chain's accepted spelling is its own encoding and no other.
 */
module EntitlementCodec {
  import opened Bytes
  import opened Cbor
  import opened CborBijection
  import opened CborOrder
  import opened CborFields
  import opened EntitlementRecord
  import opened Signatures

  // ----- typed lookups -----

  function AsU32(f: Field): Option<u32> {
    if f.Some? && f.value.Uint? && f.value.n < U32_RANGE then Some(f.value.n) else None
  }

  function AsText(f: Field): Option<seq<byte>> {
    if f.Some? && f.value.Text? then Some(f.value.t) else None
  }

  function AsBytes(f: Field): Option<seq<byte>> {
    if f.Some? && f.value.Bytes? then Some(f.value.b) else None
  }

  /** A byte string of exactly 32 bytes. */
  function AsDigest(f: Field): Option<Digest> {
    if f.Some? && f.value.Bytes? && |f.value.b| == 32 then Some(f.value.b) else None
  }

  /** `Timestamp::from_value`. */
  function AsTime(f: Field): Option<Timestamp> {
    if f.Some? && f.value.Uint? then Some(At(f.value.n))
    else if f.Some? && f.value.Nint? then Some(Before(f.value.n))
    else None
  }

  /** `parse_signature`. */
  function ParseSignature(v: Value): Option<Signature> {
    if !v.Map? then None
    else if exists e :: e in v.entries && !(e.key.Text? && e.key.t in SigNames()) then None
    else
      var classical := AsBytes(Get(v.entries, Ascii("classical")));
      var pq := AsBytes(Get(v.entries, Ascii("pq")));
      if classical.None? || pq.None? then None else Some(Signature(classical.value, pq.value))
  }

  /** An optional field: absent, well-typed, or a rejection. */
  datatype Maybe<T> = Absent | Present(value: T) | Bad

  function Optionally<T>(f: Field, read: Field -> Option<T>): Maybe<T> {
    if f.None? then Absent
    else if read(f).Some? then Present(read(f).value)
    else Bad
  }

  function AsOption<T>(m: Maybe<T>): Option<T>
    requires !m.Bad?
  {
    if m.Present? then Some(m.value) else None
  }

  function ReadSig(f: Field): Option<Signature> {
    if f.Some? then ParseSignature(f.value) else None
  }

  /** `check`: a platform signature always, a holder's exactly on a transfer. */
  predicate Check(r: Record) {
    r.sigPlatform.Some? && (r.kind == Transfer <==> r.sigHolder.Some?)
  }

  function LookUp(es: seq<Entry>): (fields: seq<Field>)
    ensures |fields| == 11 && forall k :: 0 <= k < 11 ==> fields[k] == Get(es, RecordNames()[k])
  {
    seq(11, k requires 0 <= k < 11 => Get(es, RecordNames()[k]))
  }

  function AsKind(f: Field): Option<Kind> {
    if f.Some? && f.value.Text? then KindFromName(f.value.t) else None
  }

  /** `from_value`, after the keys have been found to be known ones and the kind read. */
  function FromFields(f: seq<Field>, kind: Option<Kind>): Option<Record>
    requires |f| == 11
  {
    var (number, challenge, subject) := (AsU32(f[0]), AsText(f[2]), AsText(f[3]));
    var (holder, prev) := (AsDigest(f[4]), AsDigest(f[5]));
    var (root, timestamp, payload) := (Optionally(f[6], AsDigest), Optionally(f[7], AsTime), Optionally(f[8], AsBytes));
    var (sigHolder, sigPlatform) := (Optionally(f[9], ReadSig), Optionally(f[10], ReadSig));
    if number.None? || kind.None? || challenge.None? || subject.None? then None
    else if holder.None? || prev.None? || root.Bad? || timestamp.Bad? || payload.Bad? then None
    else if sigHolder.Bad? || sigPlatform.Bad? then None
    else Some(Record(number.value, kind.value, challenge.value, subject.value,
                     holder.value, prev.value, AsOption(root), AsOption(timestamp), AsOption(payload),
                     AsOption(sigHolder), AsOption(sigPlatform)))
  }

  function FromValue(v: Value): Option<Record> {
    if !v.Map? then None
    else if exists e :: e in v.entries && !(e.key.Text? && e.key.t in RecordNames()) then None
    else
      var f := LookUp(v.entries);
      var r := FromFields(f, AsKind(f[1]));
      if r.Some? && Check(r.value) then r else None
  }

  // ----- what the lookups have to be -----

  /** A looked-up signature is this one. */
  predicate SigIs(f: Field, s: Option<Signature>) {
    if s.None? then f.None? else f.Some? && ParseSignature(f.value) == s
  }

  /** The lookups of a map that reads as `r`, whose kind is spelled like this. */
  predicate FieldsAre(f: seq<Field>, r: Record, kind: Name)
    requires |f| == 11
  {
    && (forall k :: 0 <= k < 9 ==> f[k] == FieldsWith(r, kind, false)[k])
    && SigIs(f[9], r.sigHolder) && SigIs(f[10], r.sigPlatform)
  }

  lemma FieldsSound(f: seq<Field>, kind: Kind, name: Name)
    requires |f| == 11 && f[1] == Some(Text(name)) && FromFields(f, Some(kind)).Some?
    ensures FromFields(f, Some(kind)).value.kind == kind
    ensures FieldsAre(f, FromFields(f, Some(kind)).value, name)
  {
    var g := FieldsWith(FromFields(f, Some(kind)).value, name, false);
    assert f[0] == g[0] && f[1] == g[1] && f[2] == g[2] && f[3] == g[3] && f[4] == g[4] && f[5] == g[5];
    assert f[6] == g[6] && f[7] == g[7] && f[8] == g[8];
  }

  lemma FieldsComplete(f: seq<Field>, r: Record, name: Name)
    requires |f| == 11 && FieldsAre(f, r, name)
    ensures f[1] == Some(Text(name)) && FromFields(f, Some(r.kind)) == Some(r)
  {
    var g := FieldsWith(r, name, false);
    assert f[0] == g[0] && f[1] == g[1] && f[2] == g[2] && f[3] == g[3] && f[4] == g[4] && f[5] == g[5];
    assert f[6] == g[6] && f[7] == g[7] && f[8] == g[8];
  }

  lemma KindField(f: Field, kind: Kind)
    ensures AsKind(f) == Some(kind) <==> f == Some(Text(KindName(kind)))
  {
    if f.Some? && f.value.Text? {
      KindNames(kind, f.value.t);
    }
  }

  // ----- signatures -----

  lemma SigParts(es: seq<Entry>, s: Signature)
    ensures ParseSignature(Map(es)) == Some(s) <==> KnownKeys(es, SigNames()) && Holds(es, SigNames(), SigFields(s))
  {
    var (names, fields) := (SigNames(), SigFields(s));
    assert names[0] == Ascii("classical") && names[1] == Ascii("pq");
    assert Holds(es, names, fields) <==> Get(es, names[0]) == fields[0] && Get(es, names[1]) == fields[1];
  }

  /** A canonical value reads as a signature exactly when it is that signature's own map. */
  lemma SigCodec(v: Value, s: Signature)
    requires Canonical(v)
    ensures ParseSignature(v) == Some(s) <==> v == Canon(SigValue(s))
  {
    SigNamesDiffer();
    assert CanonFields(SigFields(s)) == SigFields(s);
    if v.Map? {
      SigParts(v.entries, s);
      CanonMapIff(SigNames(), SigFields(s), v.entries);
    }
  }

  // ----- records -----

  /** What `Get` returns from canonical entries is canonical. */
  lemma {:induction false} GetCanonical(es: seq<Entry>, name: Name)
    requires forall e :: e in es ==> CanonicalEntry(e)
    ensures Get(es, name).Some? ==> Canonical(Get(es, name).value)
  {
    if es != [] {
      assert es[0] in es;
      GetCanonical(es[1..], name);
    }
  }

  lemma SigIsField(f: Field, s: Option<Signature>)
    requires f.Some? ==> Canonical(f.value)
    ensures SigIs(f, s) <==> f == CanonField(SigField(s))
  {
    if s.Some? && f.Some? {
      SigCodec(f.value, s.value);
    }
  }

  lemma LookupsHold(es: seq<Entry>, r: Record, kind: Name)
    requires forall e :: e in es ==> CanonicalEntry(e)
    ensures FieldsAre(LookUp(es), r, kind) <==> Holds(es, RecordNames(), CanonFields(FieldsWith(r, kind, true)))
  {
    var (f, g, h) := (LookUp(es), CanonFields(FieldsWith(r, kind, true)), FieldsWith(r, kind, false));
    PlainFields(r, kind);
    forall k | 0 <= k < 9
      ensures g[k] == h[k]
    {
      assert FieldsWith(r, kind, true)[k] == h[k] && CanonFields(h)[k] == h[k];
    }
    GetCanonical(es, RecordNames()[9]);
    GetCanonical(es, RecordNames()[10]);
    SigIsField(f[9], r.sigHolder);
    SigIsField(f[10], r.sigPlatform);
    assert g[9] == CanonField(SigField(r.sigHolder)) && g[10] == CanonField(SigField(r.sigPlatform));
    if FieldsAre(f, r, kind) {
      forall k | 0 <= k < 11
        ensures Get(es, RecordNames()[k]) == g[k]
      {
        assert f[k] == Get(es, RecordNames()[k]);
      }
    }
    if Holds(es, RecordNames(), g) {
      forall k | 0 <= k < 9
        ensures f[k] == h[k]
      {
        assert Get(es, RecordNames()[k]) == g[k];
      }
      assert Get(es, RecordNames()[9]) == g[9] && Get(es, RecordNames()[10]) == g[10];
    }
  }

  lemma FromValueIff(es: seq<Entry>, r: Record)
    ensures FromValue(Map(es)) == Some(r)
      <==> KnownKeys(es, RecordNames()) && FieldsAre(LookUp(es), r, KindName(r.kind)) && Check(r)
  {
    var f := LookUp(es);
    KindField(f[1], r.kind);
    if FromFields(f, AsKind(f[1])) == Some(r) {
      KindField(f[1], AsKind(f[1]).value);
      FieldsSound(f, AsKind(f[1]).value, KindName(AsKind(f[1]).value));
    }
    if FieldsAre(f, r, KindName(r.kind)) {
      FieldsComplete(f, r, KindName(r.kind));
    }
  }

  /** A canonical value reads as a record exactly when it is that record's own map. */
  lemma RecordCodec(v: Value, r: Record)
    requires Canonical(v)
    ensures FromValue(v) == Some(r) <==> Check(r) && v == Canon(RecordValue(r, true))
  {
    RecordNamesDiffer();
    if v.Map? {
      FromValueIff(v.entries, r);
      LookupsHold(v.entries, r, KindName(r.kind));
      CanonMapIff(RecordNames(), Fields(r, true), v.entries);
    }
  }

  // ----- what is read is well formed -----

  lemma {:induction false} GetWellFormed(es: seq<Entry>, name: Name)
    requires forall e :: e in es ==> WellFormedEntry(e)
    ensures Get(es, name).Some? ==> WellFormed(Get(es, name).value)
  {
    if es != [] {
      assert es[0] in es;
      GetWellFormed(es[1..], name);
    }
  }

  lemma SigWellFormed(v: Value, s: Signature)
    requires WellFormed(v) && ParseSignature(v) == Some(s)
    ensures WellFormedSig(Some(s))
  {
    GetWellFormed(v.entries, Ascii("classical"));
    GetWellFormed(v.entries, Ascii("pq"));
  }

  /** Fields of well-formed values make a well-formed record. */
  lemma FieldsWellFormed(f: seq<Field>, r: Record, kind: Name)
    requires |f| == 11 && FieldsAre(f, r, kind) && forall k :: 0 <= k < 11 && f[k].Some? ==> WellFormed(f[k].value)
    ensures WellFormedRecord(r)
  {
    var g := FieldsWith(r, kind, false);
    assert f[2] == g[2] && f[3] == g[3] && f[8] == g[8];
    if r.sigHolder.Some? {
      SigWellFormed(f[9].value, r.sigHolder.value);
    }
    if r.sigPlatform.Some? {
      SigWellFormed(f[10].value, r.sigPlatform.value);
    }
  }

  lemma ReadWellFormed(v: Value, r: Record)
    requires WellFormed(v) && FromValue(v) == Some(r)
    ensures WellFormedRecord(r)
  {
    var f := LookUp(v.entries);
    FromValueIff(v.entries, r);
    forall k | 0 <= k < 11
      ensures f[k].Some? ==> WellFormed(f[k].value)
    {
      GetWellFormed(v.entries, RecordNames()[k]);
    }
    FieldsWellFormed(f, r, KindName(r.kind));
  }

  // ----- chains -----

  function RecordValues(records: seq<Record>): (vs: seq<Value>)
    ensures |vs| == |records| && forall i :: 0 <= i < |records| ==> vs[i] == RecordValue(records[i], true)
  {
    seq(|records|, i requires 0 <= i < |records| => RecordValue(records[i], true))
  }

  function ChainValue(records: seq<Record>): Value {
    Array(RecordValues(records))
  }

  lemma ChainEncodes(records: seq<Record>)
    requires |records| < U64_RANGE && forall i :: 0 <= i < |records| ==> WellFormedRecord(records[i])
    ensures WellFormed(ChainValue(records)) && Encode(ChainValue(records)) == Ok(Enc(Canon(ChainValue(records))))
  {
    forall i | 0 <= i < |records|
      ensures WellFormed(RecordValues(records)[i]) && Fits(RecordValues(records)[i], 1) && NoDuplicates(RecordValues(records)[i])
    {
      RecordEncodes(records[i], true, 1);
    }
  }

  /** The items read as the records exactly when the array is the records' canonical one. */
  lemma ItemsCodec(items: seq<Value>, records: seq<Record>)
    requires Canonical(Array(items)) && |items| == |records|
    ensures (forall i :: 0 <= i < |items| ==> FromValue(items[i]) == Some(records[i]))
      <==> (forall i :: 0 <= i < |items| ==> Check(records[i])) && Array(items) == Canon(ChainValue(records))
  {
    var canon := CanonItems(RecordValues(records));
    forall i | 0 <= i < |items|
      ensures FromValue(items[i]) == Some(records[i]) <==> Check(records[i]) && items[i] == canon[i]
    {
      assert items[i] in items;
      RecordCodec(items[i], records[i]);
    }
    if forall i :: 0 <= i < |items| ==> items[i] == canon[i] {
      assert items == canon;
    }
  }

  /** The loop of `from_bytes`, stopping at the first item that does not read. */
  method ReadItems<S, T>(items: seq<S>, read: S -> Option<T>) returns (r: Option<seq<T>>)
    ensures r.Some? ==> |r.value| == |items| && forall i :: 0 <= i < |items| ==> read(items[i]) == Some(r.value[i])
    ensures r.None? ==> exists i :: 0 <= i < |items| && read(items[i]).None?
  {
    var records: seq<T> := [];
    for i := 0 to |items|
      invariant |records| == i && forall k :: 0 <= k < i ==> read(items[k]) == Some(records[k])
    {
      var record := read(items[i]);
      if record.None? {
        return None;
      }
      records := records + [record.value];
    }
    return Some(records);
  }

  /** `records` are well-formed records, checked one by one, spelled by `b`. */
  ghost predicate Spells(records: seq<Record>, b: seq<byte>) {
    && (forall i :: 0 <= i < |records| ==> WellFormedRecord(records[i]) && Check(records[i]))
    && b == Enc(Canon(ChainValue(records)))
  }

  /** A byte string reads as some records exactly when it is their encoding. */
  lemma ReadIff(b: seq<byte>, items: seq<Value>, records: seq<Record>)
    requires |b| < U64_RANGE && Decode(b) == Ok(Array(items)) && |items| == |records|
    ensures (forall i :: 0 <= i < |items| ==> FromValue(items[i]) == Some(records[i])) <==> Spells(records, b)
  {
    DecodeIff(b, Array(items));
    ItemsCodec(items, records);
    if forall i :: 0 <= i < |items| ==> FromValue(items[i]) == Some(records[i]) {
      forall i | 0 <= i < |items|
        ensures WellFormedRecord(records[i])
      {
        assert items[i] in items;
        ReadWellFormed(items[i], records[i]);
      }
    }
    if Spells(records, b) {
      SpellsDecodes(records, b);
    }
  }

  lemma SpellsDecodes(records: seq<Record>, b: seq<byte>)
    requires |b| < U64_RANGE && Spells(records, b)
    ensures Decode(b) == Ok(Canon(ChainValue(records)))
  {
    CountInBytes(records);
    ChainEncodes(records);
    DecodeOfEncode(ChainValue(records));
  }

  /** A list is no longer than its encoding. */
  lemma CountInBytes(records: seq<Record>)
    ensures |records| <= |Enc(Canon(ChainValue(records)))|
  {
    ItemsInBytes(CanonItems(RecordValues(records)));
  }

  lemma {:induction false} ItemsInBytes(items: seq<Value>)
    ensures |items| <= |EncItems(items)|
  {
    if items != [] {
      ItemsInBytes(items[1..]);
    }
  }
}
