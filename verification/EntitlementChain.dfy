/**
 The entitlement chain (`entitlement.rs`): an append-only, hash-chained log. Every chain
 reachable from the empty one validates, signing moves no id, and the id of the last
 record fixes every record before it.
 */
module EntitlementChain {
  import opened Bytes
  import opened Blake3Tree
  import opened Bundle
  import opened Cbor
  import opened CborOrder
  import opened CborWire
  import opened EntitlementRecord
  import opened EntitlementCodec
  import opened FooterFormat
  import opened Signatures

  // ----- transcripts -----

  const ENTITLEMENT_LABEL: string := "ctf/entitlement-sig/v1"

  /** `sig_input`: every element after the label has a fixed width. */
  function RecordTranscript(number: u32, id: Digest, suite: u16): (v: seq<byte>)
    ensures |v| == 60
  {
    Ascii(ENTITLEMENT_LABEL) + LE(suite, 2) + LE(number, 4) + id
  }

  /** Byte for byte: the label, then suite and number little-endian, then the id. */
  lemma TranscriptAt(number: u32, id: Digest, suite: u16)
    ensures var v := RecordTranscript(number, id, suite);
      && |v| == 60 && v[..22] == Ascii("ctf/entitlement-sig/v1")
      && U16At(v, 22) == suite && U32At(v, 24) == number && v[28..] == id
  {
    var v := RecordTranscript(number, id, suite);
    assert v[22..24] == LE(suite, 2) && v[24..28] == LE(number, 4);
    Widths();
    FromLEOfLE(suite, 2);
    FromLEOfLE(number, 4);
  }

  /** A transcript fixes the suite, the position and the record. */
  lemma TranscriptInjective(number: u32, id: Digest, suite: u16, number': u32, id': Digest, suite': u16)
    requires RecordTranscript(number, id, suite) == RecordTranscript(number', id', suite')
    ensures number == number' && id == id' && suite == suite'
  {
    TranscriptAt(number, id, suite);
    TranscriptAt(number', id', suite');
  }

  /** No footer signature is a signature of a record: the transcripts are never equal. */
  lemma NoCrossReplay(number: u32, id: Digest, suite: u16, suite': u16, cls: u32, pq: u32, root: Digest, totalLen: u64)
    ensures RecordTranscript(number, id, suite) != SigInput(suite', cls, pq, root, totalLen)
  {
    assert |RecordTranscript(number, id, suite)| == 60 && |SigInput(suite', cls, pq, root, totalLen)| == 67;
  }

  // ----- signing a record -----

  datatype Signing = Signing(suite: u16, platform: Signer, holder: Option<Signer>)

  datatype Signed = Signed(ok: bool, record: Record)

  /** `sign`. The platform signature is stored before a missing or failing holder is noticed. */
  function SignRecordWith(c: Compression, r: Record, s: Signing): Signed {
    var transcript := RecordTranscript(r.number, RecordId(c, r), s.suite);
    if !KnownSuite(s.suite) || s.platform(transcript).None? then Signed(false, r)
    else
      var signed := r.(sigPlatform := s.platform(transcript));
      if r.kind != Transfer then Signed(true, signed.(sigHolder := None))
      else if s.holder.None? || s.holder.value(transcript).None? then Signed(false, signed)
      else Signed(true, signed.(sigHolder := s.holder.value(transcript)))
  }

  /** Only the two signatures move. */
  lemma SigningMovesSignatures(c: Compression, r: Record, s: Signing)
    ensures Bare(SignRecordWith(c, r, s).record) == Bare(r)
    ensures Check(r) ==> Check(SignRecordWith(c, r, s).record)
    ensures SignRecordWith(c, r, s).ok ==> Check(SignRecordWith(c, r, s).record)
  {
  }

  // ----- validity -----

  function ZeroDigest(): Digest {
    Zeros(32)
  }

  function IdIn(c: Compression): Record -> Digest {
    (r: Record) => RecordId(c, r)
  }

  /** E3 and E5-E8 at position `n`; an id is only ever compared. */
  predicate Linked(id: Record -> Digest, records: seq<Record>, n: nat)
    requires n < |records|
  {
    var r := records[n];
    && Check(r) && r.number == n
    && if n == 0 then r.kind == Grant && r.root.Some? && r.prev == ZeroDigest()
       else r.root.None? && r.prev == id(records[n - 1])
  }

  predicate LinkOk(c: Compression, records: seq<Record>, n: nat)
    requires n < |records|
  {
    Linked(IdIn(c), records, n)
  }

  predicate ValidChain(c: Compression, records: seq<Record>) {
    records != [] && forall n :: 0 <= n < |records| ==> LinkOk(c, records, n)
  }

  method ValidateLinks(id: Record -> Digest, records: seq<Record>) returns (ok: bool)
    ensures ok <==> records != [] && forall n :: 0 <= n < |records| ==> Linked(id, records, n)
  {
    if records == [] {
      return false;
    }
    for n := 0 to |records|
      invariant forall k :: 0 <= k < n ==> Linked(id, records, k)
    {
      var r := records[n];
      if !Check(r) {
        assert !Linked(id, records, n);
        return false;
      }
      if n >= U32_RANGE || r.number != n {
        assert !Linked(id, records, n);
        return false;
      }
      if n == 0 {
        if r.kind != Grant || r.root.None? || r.prev != ZeroDigest() {
          assert !Linked(id, records, n);
          return false;
        }
      } else {
        if r.root.Some? || r.prev != id(records[n - 1]) {
          assert !Linked(id, records, n);
          return false;
        }
      }
    }
    return true;
  }

  /**
   Record `n` spelled out: numbered `n`, signed by the platform, by a holder exactly if it is a
   transfer; a grant of a root after 32 zeros at the start, and after the record before elsewhere.
   */
  ghost predicate Follows(c: Compression, records: seq<Record>, n: nat)
    requires n < |records|
  {
    && records[n].number == n && records[n].sigPlatform.Some? && (records[n].sigHolder.Some? <==> records[n].kind == Transfer)
    && (n == 0 ==> records[n].kind == Grant && records[n].root.Some? && forall i :: 0 <= i < 32 ==> records[n].prev[i] == 0)
    && (n > 0 ==> records[n].root.None? && records[n].prev == RecordId(c, records[n - 1]))
  }

  lemma LinkFollows(c: Compression, records: seq<Record>, n: nat)
    requires n < |records|
    ensures LinkOk(c, records, n) <==> Follows(c, records, n)
  {
    var prev := records[n].prev;
    if forall i :: 0 <= i < 32 ==> prev[i] == 0 {
      assert prev == ZeroDigest();
    }
  }

  /** `validate`. */
  method Validate(c: Compression, records: seq<Record>) returns (ok: bool)
    ensures ok <==> ValidChain(c, records)
    ensures ok <==> records != [] && forall n :: 0 <= n < |records| ==> Follows(c, records, n)
  {
    ok := ValidateLinks(IdIn(c), records);
    forall n | 0 <= n < |records|
      ensures LinkOk(c, records, n) <==> Linked(IdIn(c), records, n)
      ensures LinkOk(c, records, n) <==> Follows(c, records, n)
    {
      LinkFollows(c, records, n);
    }
  }

  // ----- the operations -----

  datatype Op =
    | AppendGrant(challenge: seq<byte>, subject: seq<byte>, holder: Digest, root: Digest, time: Option<Timestamp>, s: Signing)
    | AppendTransfer(challenge: seq<byte>, subject: seq<byte>, newHolder: Digest, time: Option<Timestamp>,
                     payload: Option<seq<byte>>, s: Signing)
    | SignRecord(n: nat, s: Signing)

  datatype Outcome = Outcome(ok: bool, records: seq<Record>)

  function Genesis(challenge: seq<byte>, subject: seq<byte>, holder: Digest, root: Digest, time: Option<Timestamp>): Record {
    Record(0, Grant, challenge, subject, holder, ZeroDigest(), Some(root), time, None, None, None)
  }

  function Handover(number: u32, prev: Digest, challenge: seq<byte>, subject: seq<byte>, holder: Digest,
                    time: Option<Timestamp>, payload: Option<seq<byte>>): Record {
    Record(number, Transfer, challenge, subject, holder, prev, None, time, payload, None, None)
  }

  /** Append what was signed, or nothing. */
  function Appended(records: seq<Record>, signed: Signed): Outcome {
    if signed.ok then Outcome(true, records + [signed.record]) else Outcome(false, records)
  }

  /** What an operation makes of a chain, failing or not. */
  function Apply(c: Compression, records: seq<Record>, op: Op): Outcome {
    match op
    case AppendGrant(challenge, subject, holder, root, time, s) =>
      if records != [] then Outcome(false, records)
      else Appended(records, SignRecordWith(c, Genesis(challenge, subject, holder, root, time), s))
    case AppendTransfer(challenge, subject, holder, time, payload, s) =>
      if records == [] || |records| >= U32_RANGE then Outcome(false, records)
      else
        var prev := RecordId(c, records[|records| - 1]);
        Appended(records, SignRecordWith(c, Handover(|records|, prev, challenge, subject, holder, time, payload), s))
    case SignRecord(n, s) =>
      if n >= |records| then Outcome(false, records)
      else
        var signed := SignRecordWith(c, records[n], s);
        Outcome(signed.ok, records[n := signed.record])
  }

  /** What a record is about, and for whom. */
  predicate Names(r: Record, challenge: seq<byte>, subject: seq<byte>, holder: Digest, time: Option<Timestamp>) {
    r.challenge == challenge && r.subject == subject && r.holder == holder && r.timestamp == time
  }

  /** Both signatures are over the transcript of the record as it stands, each in its own slot. */
  ghost predicate SignedWith(c: Compression, r: Record, s: Signing, holder: Option<Signer>) {
    var t := RecordTranscript(r.number, RecordId(c, r), s.suite);
    && 1 <= s.suite <= 3 && r.sigPlatform.Some? && r.sigPlatform == s.platform(t)
    && if holder.None? then r.sigHolder.None? else r.sigHolder.Some? && r.sigHolder == holder.value(t)
  }

  /** Why signing fails: an unknown suite, or a key that is missing or does not sign something. */
  ghost predicate Unsigns(s: Signing, transfer: bool) {
    || !(1 <= s.suite <= 3) || (exists t :: s.platform(t).None?)
    || (transfer && (s.holder.None? || exists t :: s.holder.value(t).None?))
  }

  /** A transfer, number `n`, linked to the record before it, carrying this payload and no root. */
  ghost predicate HandsOver(c: Compression, r: Record, n: nat, before: Record, payload: Option<seq<byte>>) {
    r.kind == Transfer && r.number == n && r.prev == RecordId(c, before) && r.root.None? && r.payload == payload
  }

  lemma SignedInPlace(c: Compression, r: Record, s: Signing)
    requires SignRecordWith(c, r, s).ok
    ensures SignedWith(c, SignRecordWith(c, r, s).record, s, if r.kind == Transfer then s.holder else None)
    ensures r.kind == Transfer ==> s.holder.Some?
  {
    SigningMovesSignatures(c, r, s);
    SignaturesLeaveId(c, SignRecordWith(c, r, s).record, r);
  }

  lemma TransferSigned(c: Compression, r: Record, s: Signing, before: Record, challenge: seq<byte>, subject: seq<byte>,
                       holder: Digest, time: Option<Timestamp>, payload: Option<seq<byte>>)
    requires HandsOver(c, r, r.number, before, payload) && Names(r, challenge, subject, holder, time)
    ensures var signed := SignRecordWith(c, r, s).record;
      && HandsOver(c, signed, r.number, before, payload) && Names(signed, challenge, subject, holder, time)
  {
  }

  /** The chain of a bundle being built, updated in place. */
  class Chain {
    const c: Compression
    var records: seq<Record>

    constructor (c: Compression)
      ensures this.c == c && records == []
    {
      this.c := c;
      records := [];
    }

    /** Empty, or a chain `validate` accepts. */
    ghost predicate Sound()
      reads this
    {
      records == [] || ValidChain(c, records)
    }

    /** `append_grant`. */
    method AppendGrant(challenge: seq<byte>, subject: seq<byte>, holder: Digest, root: Digest, time: Option<Timestamp>, s: Signing)
      returns (ok: bool)
      modifies this
      ensures Outcome(ok, records) == Apply(c, old(records), Op.AppendGrant(challenge, subject, holder, root, time, s))
      ensures old(Sound()) ==> Sound()
      ensures !ok ==> records == old(records)
      ensures !ok ==> records != [] || Unsigns(s, false)
      ensures ok ==> old(records) == [] && |records| == 1 && records[0].kind == Grant && records[0].root == Some(root)
      ensures ok ==> records[0].number == 0 && records[0].prev == Zeros(32) && records[0].payload.None?
      ensures ok ==> Names(records[0], challenge, subject, holder, time)
      ensures ok ==> SignedWith(c, records[0], s, None)
    {
      StepKeeps(c, records, Op.AppendGrant(challenge, subject, holder, root, time, s));
      if records != [] {
        return false;
      }
      var record := Record(0, Grant, challenge, subject, holder, Zeros(32), Some(root), time, None, None, None);
      var signed := Sign(c, record, s);
      if !signed.ok {
        return false;
      }
      SignedInPlace(c, record, s);
      records := records + [signed.record];
      return true;
    }

    /** `append_transfer`: the number and the link come from the chain itself. */
    method AppendTransfer(challenge: seq<byte>, subject: seq<byte>, newHolder: Digest, time: Option<Timestamp>,
                          payload: Option<seq<byte>>, s: Signing) returns (ok: bool)
      modifies this
      ensures Outcome(ok, records) == Apply(c, old(records), Op.AppendTransfer(challenge, subject, newHolder, time, payload, s))
      ensures old(Sound()) ==> Sound()
      ensures !ok ==> records == old(records)
      ensures !ok ==> records == [] || |records| >= 0x1_0000_0000 || Unsigns(s, true)
      ensures ok ==> |records| == |old(records)| + 1 >= 2 && records[..|old(records)|] == old(records)
      ensures ok ==> s.holder.Some? && SignedWith(c, records[|old(records)|], s, s.holder)
      ensures ok ==> Names(records[|old(records)|], challenge, subject, newHolder, time)
      ensures ok ==> HandsOver(c, records[|old(records)|], |old(records)|, records[|old(records)| - 1], payload)
    {
      if records == [] {
        return false;
      }
      ghost var before := records[|records| - 1];
      var prev := RecordId(c, records[|records| - 1]);
      if |records| >= U32_RANGE {
        return false;
      }
      var record := Record(|records|, Transfer, challenge, subject, newHolder, prev, None, time, payload, None, None);
      var signed := Sign(c, record, s);
      if !signed.ok {
        return false;
      }
      SignedInPlace(c, record, s);
      TransferSigned(c, record, s, before, challenge, subject, newHolder, time, payload);
      StepKeeps(c, records, Op.AppendTransfer(challenge, subject, newHolder, time, payload, s));
      records := records + [signed.record];
      return true;
    }

    /** `sign_record`: in place, and what a failing call already stored stays. */
    method SignRecord(n: nat, s: Signing) returns (ok: bool)
      modifies this
      ensures Outcome(ok, records) == Apply(c, old(records), Op.SignRecord(n, s))
      ensures old(Sound()) ==> Sound()
      ensures |records| == |old(records)|
      ensures forall k :: 0 <= k < |records| ==> RecordId(c, records[k]) == RecordId(c, old(records)[k])
      ensures forall k :: 0 <= k < |records| ==> Bare(records[k]) == Bare(old(records)[k]) && (k != n ==> records[k] == old(records)[k])
      ensures !ok ==> n >= |records| || Unsigns(s, records[n].kind == Transfer)
      ensures ok ==> n < |records| && SignedWith(c, records[n], s, if records[n].kind == Transfer then s.holder else None)
    {
      StepKeeps(c, records, Op.SignRecord(n, s));
      SigningKeepsIds(c, records, n, s);
      if n >= |records| {
        return false;
      }
      var signed := Sign(c, records[n], s);
      if signed.ok {
        SignedInPlace(c, records[n], s);
      }
      records := records[n := signed.record];
      return signed.ok;
    }
  }

  /** `EntitlementRecord::sign`. */
  method Sign(c: Compression, r: Record, s: Signing) returns (signed: Signed)
    ensures signed == SignRecordWith(c, r, s)
    ensures var t := RecordTranscript(r.number, RecordId(c, r), s.suite);
      && (signed.ok <==> 1 <= s.suite <= 3 && s.platform(t).Some?
                         && (r.kind == Transfer ==> s.holder.Some? && s.holder.value(t).Some?))
      && signed.record ==
           if signed.ok then r.(sigPlatform := s.platform(t), sigHolder := if r.kind == Transfer then s.holder.value(t) else None)
           else if 1 <= s.suite <= 3 && s.platform(t).Some? then r.(sigPlatform := s.platform(t))
           else r
  {
    var record := r;
    if !KnownSuite(s.suite) {
      return Signed(false, record);
    }
    var transcript := RecordTranscript(record.number, RecordId(c, record), s.suite);
    var platform := s.platform(transcript);
    if platform.None? {
      return Signed(false, record);
    }
    record := record.(sigPlatform := platform);
    if record.kind == Transfer {
      if s.holder.None? {
        return Signed(false, record);
      }
      var holder := s.holder.value(transcript);
      if holder.None? {
        return Signed(false, record);
      }
      record := record.(sigHolder := holder);
    } else {
      record := record.(sigHolder := None);
    }
    return Signed(true, record);
  }

  // ----- every reachable chain is valid -----

  lemma AppendKeeps(c: Compression, records: seq<Record>, r: Record)
    requires records == [] || ValidChain(c, records)
    requires Check(r) && r.number == |records|
    requires if records == [] then r.kind == Grant && r.root.Some? && r.prev == ZeroDigest()
             else r.root.None? && r.prev == RecordId(c, records[|records| - 1])
    ensures ValidChain(c, records + [r])
  {
    var all := records + [r];
    forall n | 0 <= n < |all|
      ensures LinkOk(c, all, n)
    {
      if n < |records| {
        assert LinkOk(c, records, n);
      }
    }
  }

  lemma SigningKeepsIds(c: Compression, records: seq<Record>, n: nat, s: Signing)
    ensures var after := Apply(c, records, Op.SignRecord(n, s)).records;
      && |after| == |records|
      && (forall k :: 0 <= k < |records| ==> RecordId(c, after[k]) == RecordId(c, records[k]))
      && (forall k :: 0 <= k < |records| ==> Bare(after[k]) == Bare(records[k]))
  {
    if n < |records| {
      SigningMovesSignatures(c, records[n], s);
      SignaturesLeaveId(c, SignRecordWith(c, records[n], s).record, records[n]);
    }
  }

  lemma SigningKeepsChain(c: Compression, records: seq<Record>, n: nat, s: Signing)
    requires ValidChain(c, records) && n < |records|
    ensures ValidChain(c, Apply(c, records, Op.SignRecord(n, s)).records)
  {
    var after := Apply(c, records, Op.SignRecord(n, s)).records;
    SigningKeepsIds(c, records, n, s);
    SigningMovesSignatures(c, records[n], s);
    forall k | 0 <= k < |after|
      ensures LinkOk(c, after, k)
    {
      assert LinkOk(c, records, k) && Bare(after[k]) == Bare(records[k]);
      assert k > 0 ==> RecordId(c, after[k - 1]) == RecordId(c, records[k - 1]);
    }
  }

  /** No operation, failing or not, takes a good chain to a bad one. */
  lemma StepKeeps(c: Compression, records: seq<Record>, op: Op)
    ensures records == [] || ValidChain(c, records) ==>
      var after := Apply(c, records, op).records; after == [] || ValidChain(c, after)
  {
    if records == [] || ValidChain(c, records) {
      match op
      case AppendGrant(challenge, subject, holder, root, time, s) =>
        var signed := SignRecordWith(c, Genesis(challenge, subject, holder, root, time), s);
        SigningMovesSignatures(c, Genesis(challenge, subject, holder, root, time), s);
        if records == [] && signed.ok {
          AppendKeeps(c, records, signed.record);
        }
      case AppendTransfer(challenge, subject, holder, time, payload, s) =>
        if records != [] && |records| < U32_RANGE {
          var prev := RecordId(c, records[|records| - 1]);
          var handover := Handover(|records|, prev, challenge, subject, holder, time, payload);
          var signed := SignRecordWith(c, handover, s);
          SigningMovesSignatures(c, handover, s);
          if signed.ok {
            AppendKeeps(c, records, signed.record);
          }
        }
      case SignRecord(n, s) =>
        if n < |records| {
          SigningKeepsChain(c, records, n, s);
        }
    }
  }

  /** A run from the empty chain. */
  function Run(c: Compression, ops: seq<Op>): seq<Record> {
    if ops == [] then [] else Apply(c, Run(c, ops[..|ops| - 1]), ops[|ops| - 1]).records
  }

  lemma {:induction false} ReachableIsValid(c: Compression, ops: seq<Op>)
    ensures Run(c, ops) == [] || ValidChain(c, Run(c, ops))
  {
    if ops != [] {
      ReachableIsValid(c, ops[..|ops| - 1]);
      StepKeeps(c, Run(c, ops[..|ops| - 1]), ops[|ops| - 1]);
    }
  }

  // ----- tamper evidence -----

  /** The records are well formed, and these are the calls behind their ids. */
  ghost predicate HashedIn(c: Compression, records: seq<Record>, s: set<Node>) {
    forall n :: 0 <= n < |records| ==> HashedAt(c, records, n, s)
  }

  ghost predicate HashedAt(c: Compression, records: seq<Record>, n: nat, s: set<Node>)
    requires n < |records|
  {
    WellFormedRecord(records[n]) && HashCalls(c, Preimage(records[n])) <= s
  }

  /** Records that agree link to the same id. */
  lemma SameLink(c: Compression, a: seq<Record>, b: seq<Record>, n: nat, before: nat)
    requires ValidChain(c, a) && ValidChain(c, b) && n < |a| && n < |b| && n == before + 1
    requires Bare(a[n]) == Bare(b[n])
    ensures RecordId(c, a[before]) == RecordId(c, b[before])
  {
    assert LinkOk(c, a, n) && LinkOk(c, b, n);
  }

  /** One id at one position, one history up to it. */
  lemma {:induction false} HistoryFixed(c: Compression, s: set<Node>, a: seq<Record>, b: seq<Record>, n: nat, k: nat)
    requires ValidChain(c, a) && ValidChain(c, b) && k <= n < |a| && n < |b|
    requires NoCollisions(c, s) && HashedIn(c, a, s) && HashedIn(c, b, s)
    requires RecordId(c, a[n]) == RecordId(c, b[n])
    ensures Bare(a[k]) == Bare(b[k])
    decreases n
  {
    assert HashedAt(c, a, n, s) && HashedAt(c, b, n, s);
    IdDetermines(c, s, a[n], b[n]);
    if k < n {
      var before := n - 1;
      SameLink(c, a, b, n, before);
      HistoryFixed(c, s, a, b, before, k);
    }
  }

  /** Two valid chains whose last records share an id are the same chain, signatures apart. */
  lemma LastIdFixesChain(c: Compression, s: set<Node>, a: seq<Record>, b: seq<Record>)
    requires ValidChain(c, a) && ValidChain(c, b)
    requires NoCollisions(c, s) && HashedIn(c, a, s) && HashedIn(c, b, s)
    requires RecordId(c, a[|a| - 1]) == RecordId(c, b[|b| - 1])
    ensures |a| == |b| && forall n :: 0 <= n < |a| ==> Bare(a[n]) == Bare(b[n])
  {
    var (i, j) := (|a| - 1, |b| - 1);
    assert HashedAt(c, a, i, s) && HashedAt(c, b, j, s) && LinkOk(c, a, i) && LinkOk(c, b, j);
    IdDetermines(c, s, a[i], b[j]);
    forall n | 0 <= n < |a|
      ensures Bare(a[n]) == Bare(b[n])
    {
      HistoryFixed(c, s, a, b, i, n);
    }
  }

  // ----- authenticity -----

  /** The trusted key of a holder, if any. */
  type HolderKeys = Digest -> Option<Verifier>

  /** What is signed for each record. */
  function TranscriptOf(c: Compression, suite: u16): Record -> seq<byte> {
    (r: Record) => RecordTranscript(r.number, RecordId(c, r), suite)
  }

  /** E9 at one record: the platform always, the predecessor's holder on a transfer. */
  predicate Authentic(transcript: Record -> seq<byte>, records: seq<Record>, n: nat, platform: Verifier, holders: HolderKeys)
    requires n < |records|
  {
    var r := records[n];
    && r.sigPlatform.Some? && platform(transcript(r), r.sigPlatform.value)
    && (r.kind == Transfer ==>
          && n > 0 && holders(records[n - 1].holder).Some? && r.sigHolder.Some?
          && holders(records[n - 1].holder).value(transcript(r), r.sigHolder.value))
  }

  predicate AllAuthentic(c: Compression, suite: u16, records: seq<Record>, platform: Verifier, holders: HolderKeys) {
    forall n :: 0 <= n < |records| ==> Authentic(TranscriptOf(c, suite), records, n, platform, holders)
  }

  // ----- what is signed verifies -----

  /** A signing key and a public key that go together. */
  ghost predicate Pair(key: Signer, public: Verifier) {
    forall t, sig :: key(t) == Some(sig) ==> public(t, sig)
  }

  /**
   The keys that sign record `n` are the ones its signatures are checked against: the platform's,
   and that of the holder named by the record before.
   */
  ghost predicate Matching(s: Signing, suite: u16, records: seq<Record>, n: nat, platform: Verifier, holders: HolderKeys)
    requires n <= |records|
  {
    && s.suite == suite && Pair(s.platform, platform)
    && (n > 0 && s.holder.Some? ==> holders(records[n - 1].holder).Some? && Pair(s.holder.value, holders(records[n - 1].holder).value))
  }

  /** Signed with matching keys, a record is authentic. */
  lemma SignedVerifies(c: Compression, suite: u16, records: seq<Record>, n: nat, r: Record, s: Signing,
                       platform: Verifier, holders: HolderKeys)
    requires n < |records| && Matching(s, suite, records, n, platform, holders) && (n == 0 ==> r.kind != Transfer)
    requires SignRecordWith(c, r, s) == Signed(true, records[n])
    ensures Authentic(TranscriptOf(c, suite), records, n, platform, holders)
  {
    SigningMovesSignatures(c, r, s);
    SignaturesLeaveId(c, records[n], r);
    assert TranscriptOf(c, suite)(records[n]) == RecordTranscript(r.number, RecordId(c, r), suite);
  }

  /** And so it stays if signing it again fails half way. */
  lemma FailedStays(c: Compression, suite: u16, records: seq<Record>, after: seq<Record>, n: nat, s: Signing,
                    platform: Verifier, holders: HolderKeys)
    requires n < |records| == |after| && Matching(s, suite, records, n, platform, holders)
    requires SignRecordWith(c, records[n], s) == Signed(false, after[n]) && after == records[n := after[n]]
    requires Authentic(TranscriptOf(c, suite), records, n, platform, holders)
    ensures Authentic(TranscriptOf(c, suite), after, n, platform, holders)
  {
    var r := records[n];
    SigningMovesSignatures(c, r, s);
    SignaturesLeaveId(c, after[n], r);
    assert TranscriptOf(c, suite)(after[n]) == TranscriptOf(c, suite)(r) == RecordTranscript(r.number, RecordId(c, r), suite);
  }

  /** Other records are checked against what signing leaves alone. */
  lemma OthersStay(c: Compression, suite: u16, records: seq<Record>, after: seq<Record>, k: nat, platform: Verifier, holders: HolderKeys)
    requires k < |records| <= |after| && after[k] == records[k] && (k > 0 ==> after[k - 1].holder == records[k - 1].holder)
    ensures Authentic(TranscriptOf(c, suite), after, k, platform, holders)
      <==> Authentic(TranscriptOf(c, suite), records, k, platform, holders)
  {
  }

  /** The keys an operation signs with, for the record it signs. */
  ghost predicate MatchingOp(records: seq<Record>, op: Op, suite: u16, platform: Verifier, holders: HolderKeys) {
    match op
    case AppendGrant(_, _, _, _, _, s) => Matching(s, suite, records, |records|, platform, holders)
    case AppendTransfer(_, _, _, _, _, s) => Matching(s, suite, records, |records|, platform, holders)
    case SignRecord(n, s) => n < |records| ==> Matching(s, suite, records, n, platform, holders)
  }

  lemma AppendVerifies(c: Compression, suite: u16, records: seq<Record>, r: Record, s: Signing, platform: Verifier, holders: HolderKeys)
    requires AllAuthentic(c, suite, records, platform, holders) && Matching(s, suite, records, |records|, platform, holders)
    requires records == [] ==> r.kind != Transfer
    ensures AllAuthentic(c, suite, Appended(records, SignRecordWith(c, r, s)).records, platform, holders)
  {
    var signed := SignRecordWith(c, r, s);
    if signed.ok {
      var (n, after) := (|records|, records + [signed.record]);
      forall k | 0 <= k < |after|
        ensures Authentic(TranscriptOf(c, suite), after, k, platform, holders)
      {
        if k < n {
          OthersStay(c, suite, records, after, k, platform, holders);
        } else {
          assert k > 0 ==> after[k - 1] == records[k - 1];
          SignedVerifies(c, suite, after, n, r, s, platform, holders);
        }
      }
    }
  }

  lemma SigningVerifies(c: Compression, suite: u16, records: seq<Record>, n: nat, s: Signing, platform: Verifier, holders: HolderKeys)
    requires AllAuthentic(c, suite, records, platform, holders) && n < |records| && Matching(s, suite, records, n, platform, holders)
    ensures AllAuthentic(c, suite, records[n := SignRecordWith(c, records[n], s).record], platform, holders)
  {
    var signed := SignRecordWith(c, records[n], s);
    var after := records[n := signed.record];
    SigningMovesSignatures(c, records[n], s);
    forall k | 0 <= k < |after|
      ensures Authentic(TranscriptOf(c, suite), after, k, platform, holders)
    {
      assert Authentic(TranscriptOf(c, suite), records, k, platform, holders);
      if k == n && signed.ok {
        SignedVerifies(c, suite, after, n, records[n], s, platform, holders);
      } else if k == n {
        FailedStays(c, suite, records, after, n, s, platform, holders);
      } else {
        OthersStay(c, suite, records, after, k, platform, holders);
      }
    }
  }

  /** No operation with matching keys, failing or not, takes an authentic chain to another. */
  lemma StepVerifies(c: Compression, suite: u16, records: seq<Record>, op: Op, platform: Verifier, holders: HolderKeys)
    requires AllAuthentic(c, suite, records, platform, holders) && MatchingOp(records, op, suite, platform, holders)
    ensures AllAuthentic(c, suite, Apply(c, records, op).records, platform, holders)
  {
    match op
    case AppendGrant(challenge, subject, holder, root, time, s) =>
      AppendVerifies(c, suite, records, Genesis(challenge, subject, holder, root, time), s, platform, holders);
    case AppendTransfer(challenge, subject, holder, time, payload, s) =>
      if records != [] && |records| < U32_RANGE {
        var prev := RecordId(c, records[|records| - 1]);
        AppendVerifies(c, suite, records, Handover(|records|, prev, challenge, subject, holder, time, payload), s, platform, holders);
      }
    case SignRecord(n, s) =>
      if n < |records| {
        SigningVerifies(c, suite, records, n, s, platform, holders);
      }
  }

  /** Every operation of a run signs with matching keys, under one suite. */
  ghost predicate MatchingRun(c: Compression, ops: seq<Op>, suite: u16, platform: Verifier, holders: HolderKeys) {
    ops == [] || (MatchingRun(c, ops[..|ops| - 1], suite, platform, holders)
                  && MatchingOp(Run(c, ops[..|ops| - 1]), ops[|ops| - 1], suite, platform, holders))
  }

  /** So whatever was appended and signed again in a run verifies. */
  lemma {:induction false} ReachableVerifies(c: Compression, ops: seq<Op>, suite: u16, platform: Verifier, holders: HolderKeys)
    requires MatchingRun(c, ops, suite, platform, holders)
    ensures AllAuthentic(c, suite, Run(c, ops), platform, holders)
  {
    if ops != [] {
      var front := ops[..|ops| - 1];
      ReachableVerifies(c, front, suite, platform, holders);
      StepVerifies(c, suite, Run(c, front), ops[|ops| - 1], platform, holders);
    }
  }

  /**
   Record `n` spelled out: the platform's key accepts its signature over the record's transcript,
   and on a transfer the key of the holder named by the record before accepts that holder's.
   */
  ghost predicate Vouched(c: Compression, suite: u16, records: seq<Record>, n: nat, platform: Verifier, holders: HolderKeys)
    requires n < |records|
  {
    var (r, t) := (records[n], RecordTranscript(records[n].number, RecordId(c, records[n]), suite));
    && r.sigPlatform.Some? && platform(t, r.sigPlatform.value)
    && (r.kind == Transfer ==>
          && n > 0 && r.sigHolder.Some? && holders(records[n - 1].holder).Some?
          && holders(records[n - 1].holder).value(t, r.sigHolder.value))
  }

  /** `verify_signatures`. */
  method VerifySignatures(c: Compression, records: seq<Record>, suite: u16, platform: Verifier, holders: HolderKeys)
    returns (ok: bool)
    ensures ok <==> KnownSuite(suite) && AllAuthentic(c, suite, records, platform, holders)
    ensures ok <==> 1 <= suite <= 3 && forall n :: 0 <= n < |records| ==> Vouched(c, suite, records, n, platform, holders)
  {
    if !KnownSuite(suite) {
      return false;
    }
    ok := VerifyRecords(TranscriptOf(c, suite), records, platform, holders);
    forall n | 0 <= n < |records|
      ensures Authentic(TranscriptOf(c, suite), records, n, platform, holders) <==> Vouched(c, suite, records, n, platform, holders)
    {
    }
  }

  /** Its loop. */
  method VerifyRecords(transcript: Record -> seq<byte>, records: seq<Record>, platform: Verifier, holders: HolderKeys)
    returns (ok: bool)
    ensures ok <==> forall n :: 0 <= n < |records| ==> Authentic(transcript, records, n, platform, holders)
  {
    var n := 0;
    while n < |records|
      invariant n <= |records| && forall k :: 0 <= k < n ==> Authentic(transcript, records, k, platform, holders)
    {
      var one := VerifyRecord(transcript, records, n, platform, holders);
      if !one {
        return false;
      }
      n := n + 1;
    }
    return true;
  }

  method VerifyRecord(transcript: Record -> seq<byte>, records: seq<Record>, n: nat, platform: Verifier, holders: HolderKeys)
    returns (ok: bool)
    requires n < |records|
    ensures ok <==> Authentic(transcript, records, n, platform, holders)
  {
    var r := records[n];
    var t := transcript(r);
    if r.sigPlatform.None? {
      return false;
    }
    if !platform(t, r.sigPlatform.value) {
      return false;
    }
    if r.kind == Transfer {
      if n == 0 {
        return false;
      }
      var key := holders(records[n - 1].holder);
      if key.None? || r.sigHolder.None? {
        return false;
      }
      return key.value(t, r.sigHolder.value);
    }
    return true;
  }

  // ----- bytes -----

  /** `encode`: refuses what `validate` does. */
  method EncodeChain(c: Compression, records: seq<Record>) returns (r: Result<seq<byte>>)
    requires |records| < U64_RANGE && forall i :: 0 <= i < |records| ==> WellFormedRecord(records[i])
    ensures r == if ValidChain(c, records) then Ok(Enc(Canon(ChainValue(records)))) else Err
    ensures r.Ok? ==> Orders(ChainValue(records), r.value)
  {
    var valid := Validate(c, records);
    if !valid {
      return Err;
    }
    ChainEncodes(records);
    EncodeMeans(ChainValue(records));
    return Encode(ChainValue(records));
  }

  /** The chain `b` is the bytes of: valid, well formed, and encoded as `encode` does. */
  ghost predicate ChainIn(c: Compression, records: seq<Record>, b: seq<byte>) {
    && ValidChain(c, records) && (forall i :: 0 <= i < |records| ==> WellFormedRecord(records[i]))
    && b == Enc(Canon(ChainValue(records)))
  }

  lemma ChainInSpells(c: Compression, records: seq<Record>, b: seq<byte>)
    ensures ChainIn(c, records, b) <==> ValidChain(c, records) && Spells(records, b)
  {
    if ValidChain(c, records) {
      forall i | 0 <= i < |records|
        ensures Check(records[i])
      {
        assert LinkOk(c, records, i);
      }
    }
  }

  /**
   `from_bytes`: the chains read from bytes are the chains encoded to them. So an accepted
   string is reproduced by encoding, and a valid chain comes back from its encoding.
   */
  method FromBytes(c: Compression, b: seq<byte>) returns (r: Result<seq<Record>>)
    requires |b| < U64_RANGE
    ensures forall records :: r == Ok(records) <==> ChainIn(c, records, b)
  {
    forall records
      ensures ChainIn(c, records, b) <==> ValidChain(c, records) && Spells(records, b)
    {
      ChainInSpells(c, records, b);
    }
    forall records | Spells(records, b)
      ensures Decode(b) == Ok(Canon(ChainValue(records)))
    {
      SpellsDecodes(records, b);
    }
    var value := Decode(b);
    if value.Err? || !value.value.Array? {
      return Err;
    }
    var items := value.value.items;
    forall records | |records| == |items|
      ensures (forall i :: 0 <= i < |items| ==> FromValue(items[i]) == Some(records[i])) <==> Spells(records, b)
    {
      ReadIff(b, items, records);
    }
    r := FinishReading(c, items, b);
  }

  method FinishReading(c: Compression, items: seq<Value>, b: seq<byte>) returns (r: Result<seq<Record>>)
    requires forall records :: Spells(records, b) ==> |records| == |items|
    requires forall records :: |records| == |items| ==>
      ((forall i :: 0 <= i < |items| ==> FromValue(items[i]) == Some(records[i])) <==> Spells(records, b))
    ensures forall records :: r == Ok(records) <==> ValidChain(c, records) && Spells(records, b)
  {
    var records := ReadItems(items, FromValue);
    if records.None? {
      return Err;
    }
    assert Spells(records.value, b);
    forall other | Spells(other, b)
      ensures other == records.value
    {
      forall i | 0 <= i < |items|
        ensures other[i] == records.value[i]
      {
        assert FromValue(items[i]) == Some(other[i]);
      }
    }
    var valid := Validate(c, records.value);
    if !valid {
      return Err;
    }
    return Ok(records.value);
  }
}
