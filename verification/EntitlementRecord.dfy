/**
 Entitlement records (`entitlement.rs`): their fields as a canonical map, the id a record
 has with its signatures left out, and reading a record back from a map.
 */
module EntitlementRecord {
  import opened Bytes
  import opened Blake3Tree
  import opened Cbor
  import opened CborOrder
  import opened CborFields
  import opened Signatures

  datatype Kind = Grant | Transfer | Revoke | Progress

  /** `Before(n)` is the integer -1 - n, as it is encoded. */
  datatype Timestamp = At(n: u64) | Before(n: u64)

  datatype Record = Record(
    number: u32, kind: Kind, challenge: seq<byte>, subject: seq<byte>, holder: Digest, prev: Digest,
    root: Option<Digest>, timestamp: Option<Timestamp>, payload: Option<seq<byte>>,
    sigHolder: Option<Signature>, sigPlatform: Option<Signature>)

  // ----- names -----

  function KindText(kind: Kind): string {
    match kind
    case Grant => "grant"
    case Transfer => "transfer"
    case Revoke => "revoke"
    case Progress => "progress"
  }

  function KindName(kind: Kind): Name {
    Ascii(KindText(kind))
  }

  /** `RecordType::from_name`. */
  function KindFromName(name: Name): Option<Kind> {
    if name == KindName(Grant) then Some(Grant)
    else if name == KindName(Transfer) then Some(Transfer)
    else if name == KindName(Revoke) then Some(Revoke)
    else if name == KindName(Progress) then Some(Progress)
    else None
  }

  /** Length and first letter tell the kinds apart. */
  function KindNumber(len: nat, first: int): nat {
    if len == 5 then 0 else if len == 6 then 2 else if first == 't' as int then 1 else 3
  }

  lemma KindTextNumber(kind: Kind)
    ensures var t := KindText(kind);
      && 1 <= |t| < 0x80 && (forall i :: 0 <= i < |t| ==> t[i] as int < 0x80)
      && KindNumber(|t|, t[0] as int) == match kind case Grant => 0 case Transfer => 1 case Revoke => 2 case Progress => 3
  {
    match kind
    case Grant =>
    case Transfer =>
    case Revoke =>
    case Progress =>
  }

  lemma KindNameNumber(kind: Kind)
    ensures Utf8(KindName(kind)) && 1 <= |KindName(kind)| < 0x80
    ensures KindNumber(|KindName(kind)|, KindName(kind)[0])
      == match kind case Grant => 0 case Transfer => 1 case Revoke => 2 case Progress => 3
  {
    KindTextNumber(kind);
    AsciiName(KindText(kind));
  }

  lemma KindNames(kind: Kind, name: Name)
    ensures KindFromName(name) == Some(kind) <==> name == KindName(kind)
    ensures Utf8(KindName(kind)) && |KindName(kind)| < U64_RANGE
  {
    KindNameNumber(kind);
    KindNamesDiffer(Grant, kind);
    KindNamesDiffer(Transfer, kind);
    KindNamesDiffer(Revoke, kind);
    KindNamesDiffer(Progress, kind);
  }

  lemma KindNamesDiffer(kind: Kind, kind': Kind)
    ensures KindName(kind) == KindName(kind') ==> kind == kind'
  {
    KindNameNumber(kind);
    KindNameNumber(kind');
  }

  function RecordName(k: nat): string
    requires k < 11
  {
    match k
    case 0 => "seq"
    case 1 => "type"
    case 2 => "challenge"
    case 3 => "subject"
    case 4 => "holder"
    case 5 => "prev"
    case 6 => "root"
    case 7 => "timestamp"
    case 8 => "payload"
    case 9 => "sig_holder"
    case _ => "sig_platform"
  }

  /** The field names a record map may carry. */
  function RecordNames(): (names: seq<Name>)
    ensures |names| == 11 && forall k :: 0 <= k < 11 ==> names[k] == Ascii(RecordName(k))
  {
    seq(11, k requires 0 <= k < 11 => Ascii(RecordName(k)))
  }

  /** And those of a signature map. */
  function SigNames(): (names: seq<Name>)
    ensures names == [Ascii("classical"), Ascii("pq")]
  {
    [Ascii("classical"), Ascii("pq")]
  }

  /** Length and first letter tell the names apart. */
  function NameNumber(len: nat, first: int): nat {
    if len == 3 then 0
    else if len == 4 then (if first == 't' as int then 1 else if first == 'p' as int then 5 else 6)
    else if len == 6 then 4
    else if len == 7 then (if first == 's' as int then 3 else 8)
    else if len == 9 then (if first == 'c' as int then 2 else 7)
    else if len == 10 then 9
    else 10
  }

  lemma RecordNameNumber(k: nat)
    requires k < 11
    ensures |RecordName(k)| >= 1 && NameNumber(|RecordName(k)|, RecordName(k)[0] as int) == k
    ensures forall i :: 0 <= i < |RecordName(k)| ==> RecordName(k)[i] as int < 0x80
    ensures |RecordName(k)| < 0x80
  {
    match k
    case 0 => case 1 => case 2 => case 3 => case 4 => case 5 =>
    case 6 => case 7 => case 8 => case 9 => case _ =>
  }

  lemma AsciiName(s: string)
    requires (forall i :: 0 <= i < |s| ==> s[i] as int < 0x80) && 1 <= |s| < 0x80
    ensures Utf8(Ascii(s)) && |Ascii(s)| == |s| && Ascii(s)[0] == s[0] as int
  {
    AsciiIsUtf8(Ascii(s));
  }

  lemma RecordNamesDiffer()
    ensures Names(RecordNames())
  {
    var names := RecordNames();
    forall k | 0 <= k < 11
      ensures Utf8(names[k]) && 1 <= |names[k]| < 0x80 && NameNumber(|names[k]|, names[k][0]) == k
    {
      RecordNameNumber(k);
      AsciiName(RecordName(k));
    }
  }

  lemma SigNamesDiffer()
    ensures Names(SigNames())
  {
    AsciiName("classical");
    AsciiName("pq");
  }

  // ----- fields -----

  function BytesField(b: Option<seq<byte>>): Field {
    if b.Some? then Some(Bytes(b.value)) else None
  }

  function TimeValue(t: Timestamp): Value {
    match t
    case At(n) => Uint(n)
    case Before(n) => Nint(n)
  }

  function TimeField(t: Option<Timestamp>): Field {
    if t.Some? then Some(TimeValue(t.value)) else None
  }

  function SigFields(s: Signature): (fields: seq<Field>)
    ensures |fields| == 2
  {
    [Some(Bytes(s.classical)), Some(Bytes(s.pq))]
  }

  /** `signature_value`. */
  function SigValue(s: Signature): Value {
    Map(FieldEntries(SigNames(), SigFields(s)))
  }

  function SigField(s: Option<Signature>): Field {
    if s.Some? then Some(SigValue(s.value)) else None
  }

  /** The fields of a record in the order they are listed, with or without its signatures. */
  function Fields(r: Record, signatures: bool): (fields: seq<Field>)
    ensures |fields| == 11
  {
    FieldsWith(r, KindName(r.kind), signatures)
  }

  function FieldsWith(r: Record, kind: Name, signatures: bool): (fields: seq<Field>)
    ensures |fields| == 11
  {
    [Some(Uint(r.number)), Some(Text(kind)), Some(Text(r.challenge)), Some(Text(r.subject)),
     Some(Bytes(r.holder)), Some(Bytes(r.prev)), BytesField(r.root), TimeField(r.timestamp), BytesField(r.payload),
     if signatures then SigField(r.sigHolder) else None, if signatures then SigField(r.sigPlatform) else None]
  }

  function RecordValue(r: Record, signatures: bool): Value {
    Map(FieldEntries(RecordNames(), Fields(r, signatures)))
  }

  // ----- the maps spelled out -----

  predicate Says(e: Entry, name: string, v: Value) {
    e == Entry(Text(Ascii(name)), v)
  }

  /** The field under name `k` is there and is this entry. */
  predicate FieldSays(e: Entry, r: Record, signatures: bool, k: nat)
    requires k < 11
  {
    Fields(r, signatures)[k].Some? && Says(e, RecordName(k), Fields(r, signatures)[k].value)
  }

  lemma EntryOfField(r: Record, signatures: bool, e: Entry)
    ensures e in RecordValue(r, signatures).entries <==> exists k :: 0 <= k < 11 && FieldSays(e, r, signatures, k)
  {
    var (names, fields) := (RecordNames(), Fields(r, signatures));
    EntryIsField(names, fields, e);
    if k :| 0 <= k < 11 && e.key == Text(names[k]) && fields[k] == Some(e.val) {
      assert FieldSays(e, r, signatures, k);
    }
    if k :| 0 <= k < 11 && FieldSays(e, r, signatures, k) {
      assert e.key == Text(names[k]) && fields[k] == Some(e.val);
    }
  }

  lemma OneOfEleven(so: nat -> bool)
    ensures (exists k :: 0 <= k < 11 && so(k))
      <==> so(0) || so(1) || so(2) || so(3) || so(4) || so(5) || so(6) || so(7) || so(8) || so(9) || so(10)
  {
  }

  // The entries of a record's map: what it is about, where it stands, its signatures if they are included.

  ghost predicate AboutEntry(e: Entry, r: Record) {
    || Says(e, "seq", Uint(r.number))
    || (r.kind == Grant && Says(e, "type", Text(Ascii("grant"))))
    || (r.kind == Transfer && Says(e, "type", Text(Ascii("transfer"))))
    || (r.kind == Revoke && Says(e, "type", Text(Ascii("revoke"))))
    || (r.kind == Progress && Says(e, "type", Text(Ascii("progress"))))
    || Says(e, "challenge", Text(r.challenge)) || Says(e, "subject", Text(r.subject))
  }

  ghost predicate LinkEntry(e: Entry, r: Record) {
    || Says(e, "holder", Bytes(r.holder)) || Says(e, "prev", Bytes(r.prev))
    || (r.root.Some? && Says(e, "root", Bytes(r.root.value)))
    || (r.timestamp.Some? && r.timestamp.value.At? && Says(e, "timestamp", Uint(r.timestamp.value.n)))
    || (r.timestamp.Some? && r.timestamp.value.Before? && Says(e, "timestamp", Nint(r.timestamp.value.n)))
    || (r.payload.Some? && Says(e, "payload", Bytes(r.payload.value)))
  }

  ghost predicate SigEntry(e: Entry, r: Record) {
    || (r.sigHolder.Some? && Says(e, "sig_holder", SigValue(r.sigHolder.value)))
    || (r.sigPlatform.Some? && Says(e, "sig_platform", SigValue(r.sigPlatform.value)))
  }

  lemma RecordEntries(r: Record, signatures: bool, e: Entry)
    ensures e in RecordValue(r, signatures).entries
      <==> AboutEntry(e, r) || LinkEntry(e, r) || (signatures && SigEntry(e, r))
  {
    EntryOfField(r, signatures, e);
    var so := (k: nat) => if k < 11 then FieldSays(e, r, signatures, k) else false;
    OneOfEleven(so);
    if k :| 0 <= k < 11 && FieldSays(e, r, signatures, k) {
      assert so(k);
    }
    if k: nat :| k < 11 && so(k) {
      assert FieldSays(e, r, signatures, k);
    }
    AboutSays(e, r, signatures);
    LinkSays(e, r, signatures);
    SigSays(e, r, signatures);
  }

  lemma AboutSays(e: Entry, r: Record, signatures: bool)
    ensures AboutEntry(e, r) <==>
      FieldSays(e, r, signatures, 0) || FieldSays(e, r, signatures, 1) || FieldSays(e, r, signatures, 2) || FieldSays(e, r, signatures, 3)
  {
    var f := Fields(r, signatures);
    assert f[0] == Some(Uint(r.number)) && f[1] == Some(Text(KindName(r.kind)));
    assert f[2] == Some(Text(r.challenge)) && f[3] == Some(Text(r.subject));
  }

  lemma LinkSays(e: Entry, r: Record, signatures: bool)
    ensures LinkEntry(e, r) <==>
      || FieldSays(e, r, signatures, 4) || FieldSays(e, r, signatures, 5) || FieldSays(e, r, signatures, 6)
      || FieldSays(e, r, signatures, 7) || FieldSays(e, r, signatures, 8)
  {
    var f := Fields(r, signatures);
    assert f[4] == Some(Bytes(r.holder)) && f[5] == Some(Bytes(r.prev));
    assert f[6] == BytesField(r.root) && f[7] == TimeField(r.timestamp) && f[8] == BytesField(r.payload);
  }

  lemma SigSays(e: Entry, r: Record, signatures: bool)
    ensures signatures && SigEntry(e, r) <==> FieldSays(e, r, signatures, 9) || FieldSays(e, r, signatures, 10)
  {
    var f := Fields(r, signatures);
    assert signatures ==> f[9] == SigField(r.sigHolder) && f[10] == SigField(r.sigPlatform);
  }

  /** And of a signature's. */
  lemma SigEntries(s: Signature, e: Entry)
    ensures e in SigValue(s).entries <==> Says(e, "classical", Bytes(s.classical)) || Says(e, "pq", Bytes(s.pq))
  {
    var (names, fields) := (SigNames(), SigFields(s));
    EntryIsField(names, fields, e);
    assert names[0] == Ascii("classical") && names[1] == Ascii("pq");
    if e.key == Text(names[0]) && fields[0] == Some(e.val) {
    } else if e.key == Text(names[1]) && fields[1] == Some(e.val) {
    }
  }

  /** What the types of the implementation guarantee. */
  predicate WellFormedSig(s: Option<Signature>) {
    s.Some? ==> |s.value.classical| < U64_RANGE && |s.value.pq| < U64_RANGE
  }

  predicate WellFormedRecord(r: Record) {
    && Utf8(r.challenge) && |r.challenge| < U64_RANGE && Utf8(r.subject) && |r.subject| < U64_RANGE
    && (r.payload.Some? ==> |r.payload.value| < U64_RANGE)
    && WellFormedSig(r.sigHolder) && WellFormedSig(r.sigPlatform)
  }

  lemma SigEncodes(s: Signature)
    requires |s.classical| < U64_RANGE && |s.pq| < U64_RANGE
    ensures WellFormed(SigValue(s)) && Fits(SigValue(s), 2) && NoDuplicates(SigValue(s))
  {
    SigNamesDiffer();
    FieldsEncode(SigNames(), SigFields(s), 2, 3);
  }

  /** A value with nothing inside encodes at any admissible depth. */
  lemma ScalarEncodes(f: Field)
    requires f.Some? ==> match f.value
                         case Uint(_) => true
                         case Nint(_) => true
                         case Bytes(b) => |b| < U64_RANGE
                         case _ => false
    ensures EncodableField(f, 2)
  {
  }

  lemma SigFieldEncodes(s: Option<Signature>)
    requires WellFormedSig(s)
    ensures EncodableField(SigField(s), 2)
  {
    if s.Some? {
      SigEncodes(s.value);
    }
  }

  lemma TextFieldEncodes(f: Field, t: seq<byte>)
    requires f == Some(Text(t)) && |t| < U64_RANGE && Utf8(t)
    ensures EncodableField(f, 2)
  {
  }

  lemma NamedFieldsEncode(r: Record, kind: Name, f: seq<Field>, signatures: bool)
    requires WellFormedRecord(r) && Utf8(kind) && |kind| < U64_RANGE && f == FieldsWith(r, kind, signatures)
    ensures EncodableField(f[0], 2) && EncodableField(f[1], 2)
  {
    ScalarEncodes(Some(Uint(r.number)));
    TextFieldEncodes(f[1], kind);
  }

  lemma ChallengeEncodes(r: Record, kind: Name, f: seq<Field>, signatures: bool)
    requires WellFormedRecord(r) && f == FieldsWith(r, kind, signatures)
    ensures EncodableField(f[2], 2)
  {
    TextFieldEncodes(f[2], r.challenge);
  }

  lemma LinkedFieldsEncode(r: Record, kind: Name, f: seq<Field>, signatures: bool)
    requires WellFormedRecord(r) && f == FieldsWith(r, kind, signatures)
    ensures EncodableField(f[3], 2) && EncodableField(f[4], 2) && EncodableField(f[5], 2)
  {
    TextFieldEncodes(f[3], r.subject);
    ScalarEncodes(Some(Bytes(r.holder)));
    ScalarEncodes(Some(Bytes(r.prev)));
  }

  lemma OptionalFieldsEncode(r: Record, kind: Name, f: seq<Field>, signatures: bool)
    requires WellFormedRecord(r) && f == FieldsWith(r, kind, signatures)
    ensures EncodableField(f[6], 2) && EncodableField(f[7], 2) && EncodableField(f[8], 2)
    ensures EncodableField(f[9], 2) && EncodableField(f[10], 2)
  {
    assert r.root.Some? ==> |r.root.value| == 32;
    ScalarEncodes(BytesField(r.root));
    ScalarEncodes(TimeField(r.timestamp));
    ScalarEncodes(BytesField(r.payload));
    SigFieldEncodes(r.sigHolder);
    SigFieldEncodes(r.sigPlatform);
  }

  lemma FieldsEncodable(r: Record, kind: Name, f: seq<Field>, signatures: bool)
    requires WellFormedRecord(r) && Utf8(kind) && |kind| < U64_RANGE && f == FieldsWith(r, kind, signatures)
    ensures Encodable(f, 2)
  {
    NamedFieldsEncode(r, kind, f, signatures);
    ChallengeEncodes(r, kind, f, signatures);
    LinkedFieldsEncode(r, kind, f, signatures);
    OptionalFieldsEncode(r, kind, f, signatures);
    EncodableEleven(f);
  }

  lemma EncodableEleven(f: seq<Field>)
    requires |f| == 11 && EncodableField(f[0], 2) && EncodableField(f[1], 2) && EncodableField(f[2], 2)
    requires EncodableField(f[3], 2) && EncodableField(f[4], 2) && EncodableField(f[5], 2) && EncodableField(f[6], 2)
    requires EncodableField(f[7], 2) && EncodableField(f[8], 2) && EncodableField(f[9], 2) && EncodableField(f[10], 2)
    ensures Encodable(f, 2)
  {
  }

  lemma RecordEncodes(r: Record, signatures: bool, depth: nat)
    requires WellFormedRecord(r) && depth <= 1
    ensures var v := RecordValue(r, signatures); WellFormed(v) && Fits(v, depth) && NoDuplicates(v)
  {
    RecordNamesDiffer();
    KindNameNumber(r.kind);
    FieldsEncodable(r, KindName(r.kind), Fields(r, signatures), signatures);
    FieldsEncode(RecordNames(), Fields(r, signatures), 1, 2);
    FitsAbove(RecordValue(r, signatures), 1, depth);
  }

  // ----- ids -----

  const RECORD_LABEL: string := "ctf/entitlement/record/v1"

  /** What a record id hashes: the canonical record without its signatures. */
  function Preimage(r: Record): seq<byte> {
    Ascii(RECORD_LABEL) + Enc(Canon(RecordValue(r, false)))
  }

  function RecordId(c: Compression, r: Record): Digest {
    Blake3(c, Preimage(r))
  }

  /** `record_id`: the encoding it hashes never fails. */
  method ComputeRecordId(c: Compression, r: Record) returns (id: Result<Digest>)
    requires WellFormedRecord(r)
    ensures id == Ok(RecordId(c, r))
    ensures Encode(RecordValue(r, false)).Ok?
    ensures id == Ok(Blake3(c, Ascii("ctf/entitlement/record/v1") + Encode(RecordValue(r, false)).value))
  {
    RecordEncodes(r, false, 0);
    var cbor := Encode(RecordValue(r, false));
    if cbor.Err? {
      return Err;
    }
    return Ok(Blake3(c, Ascii(RECORD_LABEL) + cbor.value));
  }

  /** A record without its signatures. */
  function Bare(r: Record): Record {
    r.(sigHolder := None, sigPlatform := None)
  }

  /** Signing or re-signing never moves an id. */
  lemma SignaturesLeaveId(c: Compression, r: Record, s: Record)
    requires Bare(r) == Bare(s)
    ensures RecordId(c, r) == RecordId(c, s)
  {
    assert Fields(r, false) == Fields(s, false);
  }

  /** Values with no map inside are their own canonical form. */
  lemma PlainFields(r: Record, kind: Name)
    ensures CanonFields(FieldsWith(r, kind, false)) == FieldsWith(r, kind, false)
  {
  }

  /** The fields determine the record, signatures apart. */
  lemma FieldsDetermine(r: Record, s: Record, kind: Name, kind': Name)
    requires FieldsWith(r, kind, false) == FieldsWith(s, kind', false)
    ensures kind == kind' && Bare(r).(kind := s.kind) == Bare(s)
  {
    var (a, b) := (FieldsWith(r, kind, false), FieldsWith(s, kind', false));
    assert a[0] == b[0] && a[1] == b[1] && a[2] == b[2] && a[3] == b[3] && a[4] == b[4] && a[5] == b[5];
    assert a[6] == b[6] && a[7] == b[7] && a[8] == b[8];
  }

  /** Records with one id are the same record, signatures apart. */
  lemma IdDetermines(c: Compression, s: set<Node>, r: Record, r': Record)
    requires WellFormedRecord(r) && WellFormedRecord(r') && RecordId(c, r) == RecordId(c, r')
    requires NoCollisions(c, s) && HashCalls(c, Preimage(r)) <= s && HashCalls(c, Preimage(r')) <= s
    ensures Bare(r) == Bare(r')
  {
    HashInjective(c, s, Preimage(r), Preimage(r'));
    var n := |Ascii(RECORD_LABEL)|;
    assert Preimage(r)[n..] == Enc(Canon(RecordValue(r, false)));
    assert Preimage(r')[n..] == Enc(Canon(RecordValue(r', false)));
    RecordEncodes(r, false, 0);
    RecordEncodes(r', false, 0);
    EncodeInjective(RecordValue(r, false), RecordValue(r', false));
    RecordNamesDiffer();
    FieldsInjective(RecordNames(), Fields(r, false), Fields(r', false));
    PlainFields(r, KindName(r.kind));
    PlainFields(r', KindName(r'.kind));
    FieldsDetermine(r, r', KindName(r.kind), KindName(r'.kind));
    KindNamesDiffer(r.kind, r'.kind);
  }
}
