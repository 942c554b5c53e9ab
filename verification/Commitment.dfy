/**
 Verifying what a parsed bundle contains, and what the commitment root then fixes: with
 every inline section plain and verified, and every chunk index reduced to its root, two
 files with one commitment root are the same bytes up to the footer.
 */
module Commitment {
  import opened Bytes
  import opened Blake3Tree
  import opened ChunkTree
  import opened ChunkIndex
  import opened ChunkAcceptance
  import opened Container
  import opened FooterFormat
  import opened Layout
  import opened Bundle

  // ----- verifying the inline sections -----

  const MAX_DECOMPRESSED_SECTION: nat := 0x10_0000_0000
  const MAX_DECOMPRESSION_RATIO: nat := 0x1_0000

  /** `check_caps`; the multiplication saturates, above any length the first cap admits. */
  predicate WithinCaps(lenPlain: nat, lenStored: nat) {
    lenPlain <= MAX_DECOMPRESSED_SECTION && lenPlain <= Min(lenStored * MAX_DECOMPRESSION_RATIO, U64_RANGE - 1)
  }

  datatype Verdict = IsExternal | Unverifiable | Verified | Mismatch | Abort

  /** The plaintext a section's root is checked against. */
  function Plaintext(d: Decompressor, file: seq<byte>, r: Record): Option<seq<byte>> {
    if r.comp == 0 then Some(Stored(file, r)) else d(Stored(file, r), r.lenPlain)
  }

  /** What the pass decides about one section. */
  function Judge(c: Compression, d: Decompressor, file: seq<byte>, r: Record): Verdict {
    if External(r.flags) then IsExternal
    else if r.comp != 0 && !WithinCaps(r.lenPlain, r.lenStored) then Abort
    else if r.enc != 0 then Unverifiable
    else if r.kind > MAX_KNOWN_KIND && r.comp != 0 then Unverifiable
    else
      match Plaintext(d, file, r)
      case None => Abort
      case Some(plain) => if Blake3(c, plain) == r.root then Verified else Mismatch
  }

  datatype Report = Report(verified: nat, external: nat, unverifiable: nat, indices: nat, mismatches: seq<u16>)

  const EMPTY_REPORT: Report := Report(0, 0, 0, 0, [])

  function Add(report: Report, r: Record, v: Verdict): Report {
    var report := report.(indices := report.indices + if r.indexOff != 0 then 1 else 0);
    match v
    case IsExternal => report.(external := report.external + 1)
    case Unverifiable => report.(unverifiable := report.unverifiable + 1)
    case Verified => report.(verified := report.verified + 1)
    case Mismatch => report.(mismatches := report.mismatches + [r.nameId])
    case Abort => report
  }

  function Tally(c: Compression, d: Decompressor, file: seq<byte>, records: seq<Record>): Report {
    if records == [] then EMPTY_REPORT
    else
      var (front, r) := (records[..|records| - 1], records[|records| - 1]);
      Add(Tally(c, d, file, front), r, Judge(c, d, file, r))
  }

  // What the report says of the file, without the verdicts. Bit 2 of the flags is the external one.

  /** The plaintext of an inline section that can be had without a key: as stored, or expanded if the kind is known. */
  ghost predicate Reads(d: Decompressor, file: seq<byte>, x: Record, plain: seq<byte>) {
    && x.flags / 4 % 2 == 0 && x.enc == 0
    && if x.comp == 0 then plain == Stored(file, x) else x.kind <= 8 && d(Stored(file, x), x.lenPlain) == Some(plain)
  }

  ghost predicate Hashes(c: Compression, d: Decompressor, file: seq<byte>, x: Record) {
    exists plain :: Reads(d, file, x, plain) && Blake3(c, plain) == x.root
  }

  ghost predicate Differs(c: Compression, d: Decompressor, file: seq<byte>, x: Record) {
    exists plain :: Reads(d, file, x, plain) && Blake3(c, plain) != x.root
  }

  /** Left alone: encrypted, or compressed by a later version. */
  predicate OutOfReach(x: Record) {
    x.flags / 4 % 2 == 0 && (x.enc != 0 || (x.comp != 0 && x.kind > 8))
  }

  /** Over the caps, encrypted or not: 2^36 bytes, or 65536 times what is stored. */
  predicate OverCaps(x: Record) {
    x.flags / 4 % 2 == 0 && x.comp != 0 && (x.lenPlain > 0x10_0000_0000 || x.lenPlain > 0x1_0000 * x.lenStored)
  }

  /** Within reach, and the decompressor fails. */
  predicate Corrupt(d: Decompressor, file: seq<byte>, x: Record) {
    x.flags / 4 % 2 == 0 && x.enc == 0 && x.comp != 0 && x.kind <= 8 && d(Stored(file, x), x.lenPlain).None?
  }

  /** `names` are those of the sections whose root differs, in the order of the table. */
  ghost predicate Lists(c: Compression, d: Decompressor, file: seq<byte>, records: seq<Record>, names: seq<u16>, at: seq<nat>) {
    && |at| == |names| && (forall j, k :: 0 <= j < k < |at| ==> at[j] < at[k])
    && (forall k :: 0 <= k < |at| ==>
          at[k] < |records| && Differs(c, d, file, records[at[k]]) && names[k] == records[at[k]].nameId)
    && forall i :: 0 <= i < |records| && Differs(c, d, file, records[i]) ==> i in at
  }

  /** The positions of the sections that are so. */
  ghost function Where(records: seq<Record>, so: Record -> bool): set<nat> {
    set i: nat | i < |records| && so(records[i])
  }

  ghost predicate Counts(c: Compression, d: Decompressor, file: seq<byte>, records: seq<Record>, t: Report) {
    && t.verified == |Where(records, (x: Record) => Hashes(c, d, file, x))|
    && t.unverifiable == |Where(records, (x: Record) => OutOfReach(x))|
    && t.external == |Where(records, (x: Record) => x.flags / 4 % 2 == 1)|
    && t.indices == |Where(records, (x: Record) => x.indexOff != 0)|
  }

  /** The verdict on one section says which of them it is. */
  lemma VerdictMeans(c: Compression, d: Decompressor, file: seq<byte>, x: Record)
    ensures Judge(c, d, file, x) == Abort <==> OverCaps(x) || Corrupt(d, file, x)
    ensures Judge(c, d, file, x) != Abort ==>
      && (Judge(c, d, file, x) == Verified <==> Hashes(c, d, file, x))
      && (Judge(c, d, file, x) == Mismatch <==> Differs(c, d, file, x))
      && (Judge(c, d, file, x) == Unverifiable <==> OutOfReach(x))
      && (Judge(c, d, file, x) == IsExternal <==> x.flags / 4 % 2 == 1)
  {
    var plain := if x.comp == 0 then Some(Stored(file, x)) else d(Stored(file, x), x.lenPlain);
    if plain.Some? && !OutOfReach(x) && !External(x.flags) {
      assert Reads(d, file, x, plain.value);
    }
  }

  lemma {:induction false} TallyCounts(c: Compression, d: Decompressor, file: seq<byte>, records: seq<Record>)
    requires forall x :: x in records ==> Judge(c, d, file, x) != Abort
    ensures Counts(c, d, file, records, Tally(c, d, file, records))
  {
    if records != [] {
      var n := |records| - 1;
      var (front, r) := (records[..n], records[n]);
      assert r in records;
      TallyCounts(c, d, file, front);
      VerdictMeans(c, d, file, r);
      CountsNext(c, d, file, front, r, Tally(c, d, file, front), Judge(c, d, file, r));
      assert records == front + [r];
    }
  }

  lemma WhereNext(front: seq<Record>, r: Record, so: Record -> bool)
    ensures |Where(front + [r], so)| == |Where(front, so)| + if so(r) then 1 else 0
  {
    var n := |front|;
    assert Where(front + [r], so) == Where(front, so) + if so(r) then {n} else {};
  }

  lemma CountsNext(c: Compression, d: Decompressor, file: seq<byte>, front: seq<Record>, r: Record, t: Report, v: Verdict)
    requires Counts(c, d, file, front, t)
    requires (v == Verified <==> Hashes(c, d, file, r)) && (v == Unverifiable <==> OutOfReach(r))
    requires v == IsExternal <==> r.flags / 4 % 2 == 1
    ensures Counts(c, d, file, front + [r], Add(t, r, v))
  {
    WhereNext(front, r, (x: Record) => Hashes(c, d, file, x));
    WhereNext(front, r, (x: Record) => OutOfReach(x));
    WhereNext(front, r, (x: Record) => x.flags / 4 % 2 == 1);
    WhereNext(front, r, (x: Record) => x.indexOff != 0);
  }

  lemma {:induction false} TallyLists(c: Compression, d: Decompressor, file: seq<byte>, records: seq<Record>) returns (at: seq<nat>)
    requires forall x :: x in records ==> Judge(c, d, file, x) != Abort
    ensures Lists(c, d, file, records, Tally(c, d, file, records).mismatches, at)
  {
    if records == [] {
      return [];
    }
    var n := |records| - 1;
    var (front, r) := (records[..n], records[n]);
    assert r in records;
    VerdictMeans(c, d, file, r);
    at := TallyLists(c, d, file, front);
    var names := Tally(c, d, file, front).mismatches;
    assert records == front + [r];
    if Differs(c, d, file, r) {
      ListsOne(c, d, file, front, r, names, at);
      return at + [n];
    }
    ListsSame(c, d, file, front, r, names, at);
  }

  lemma ListsOne(c: Compression, d: Decompressor, file: seq<byte>, front: seq<Record>, r: Record, names: seq<u16>, at: seq<nat>)
    requires Lists(c, d, file, front, names, at) && Differs(c, d, file, r)
    ensures Lists(c, d, file, front + [r], names + [r.nameId], at + [|front|])
  {
    var (all, n, more) := (front + [r], |front|, at + [|front|]);
    assert all[n] == r && more[|at|] == n;
    forall i | 0 <= i < n && Differs(c, d, file, all[i])
      ensures i in more
    {
      assert all[i] == front[i];
      assert i in at;
    }
  }

  lemma ListsSame(c: Compression, d: Decompressor, file: seq<byte>, front: seq<Record>, r: Record, names: seq<u16>, at: seq<nat>)
    requires Lists(c, d, file, front, names, at) && !Differs(c, d, file, r)
    ensures Lists(c, d, file, front + [r], names, at)
  {
    var all := front + [r];
    forall i | 0 <= i < |all| && Differs(c, d, file, all[i])
      ensures i in at
    {
      assert i < |front| && all[i] == front[i];
    }
  }

  lemma FirstListed(c: Compression, d: Decompressor, file: seq<byte>, records: seq<Record>, names: seq<u16>, at: seq<nat>)
    requires Lists(c, d, file, records, names, at)
    ensures names != [] ==> exists i :: 0 <= i < |records| && Differs(c, d, file, records[i])
  {
    if names != [] {
      assert Differs(c, d, file, records[at[0]]);
    }
  }

  lemma TallyClean(c: Compression, d: Decompressor, file: seq<byte>, records: seq<Record>, t: Report, at: seq<nat>)
    requires Counts(c, d, file, records, t) && Lists(c, d, file, records, t.mismatches, at)
    requires forall x :: x in records ==> External(x.flags) || OutOfReach(x) || Hashes(c, d, file, x) || Differs(c, d, file, x)
    ensures t.unverifiable == 0 && t.mismatches == []
      <==> forall x :: x in records ==> x.flags / 4 % 2 == 1 || Hashes(c, d, file, x)
  {
    FirstListed(c, d, file, records, t.mismatches, at);
    var opaques := Where(records, (x: Record) => OutOfReach(x));
    if t.unverifiable == 0 && t.mismatches == [] {
      forall x | x in records
        ensures x.flags / 4 % 2 == 1 || Hashes(c, d, file, x)
      {
        var i :| 0 <= i < |records| && records[i] == x;
        assert i !in opaques;
      }
    }
    if forall x :: x in records ==> x.flags / 4 % 2 == 1 || Hashes(c, d, file, x) {
      forall i | 0 <= i < |records|
        ensures i !in opaques && !Differs(c, d, file, records[i])
      {
        assert records[i] in records;
        if Hashes(c, d, file, records[i]) {
          OnePlaintext(c, d, file, records[i]);
        }
      }
      assert opaques == {};
    }
  }

  lemma OnePlaintext(c: Compression, d: Decompressor, file: seq<byte>, x: Record)
    requires Hashes(c, d, file, x)
    ensures !Differs(c, d, file, x) && !OutOfReach(x)
  {
  }

  lemma SectionsClassified(c: Compression, d: Decompressor, file: seq<byte>, records: seq<Record>)
    requires forall x :: x in records ==> Judge(c, d, file, x) != Abort
    ensures forall x :: x in records ==> External(x.flags) || OutOfReach(x) || Hashes(c, d, file, x) || Differs(c, d, file, x)
  {
    forall x | x in records
      ensures External(x.flags) || OutOfReach(x) || Hashes(c, d, file, x) || Differs(c, d, file, x)
    {
      VerdictMeans(c, d, file, x);
    }
  }

  /** `verify_inline_sections`: a mismatch is a finding, anything else that fails stops the pass. */
  method VerifyInline(c: Compression, d: Decompressor, file: seq<byte>, records: seq<Record>)
    returns (r: Result<Report>)
    ensures r.Err? <==> exists x :: x in records && (OverCaps(x) || Corrupt(d, file, x))
    ensures r.Ok? ==> Counts(c, d, file, records, r.value) && exists at :: Lists(c, d, file, records, r.value.mismatches, at)
    ensures r.Ok? ==> (r.value.unverifiable == 0 && r.value.mismatches == []
                       <==> forall x :: x in records ==> x.flags / 4 % 2 == 1 || Hashes(c, d, file, x))
    ensures r.Ok? ==> r.value.verified + r.value.external + r.value.unverifiable + |r.value.mismatches| == |records|
  {
    var report := EMPTY_REPORT;
    for i := 0 to |records|
      invariant forall j :: 0 <= j < i ==> Judge(c, d, file, records[j]) != Abort
      invariant report == Tally(c, d, file, records[..i])
    {
      var next := VerifySection(c, d, file, records[i], report);
      if next.Err? {
        VerdictMeans(c, d, file, records[i]);
        assert records[i] in records;
        return Err;
      }
      report := next.value;
      assert records[..i + 1][..i] == records[..i];
    }
    assert records[..|records|] == records;
    CleanReport(c, d, file, records);
    return Ok(report);
  }

  /** One turn of that loop. */
  method VerifySection(c: Compression, d: Decompressor, file: seq<byte>, x: Record, before: Report)
    returns (r: Result<Report>)
    ensures r == if Judge(c, d, file, x) == Abort then Err else Ok(Add(before, x, Judge(c, d, file, x)))
  {
    var report := before;
    if x.indexOff != 0 {
      report := report.(indices := report.indices + 1);
    }
    if External(x.flags) {
      return Ok(report.(external := report.external + 1));
    }
    if x.comp != 0 && !WithinCaps(x.lenPlain, x.lenStored) {
      return Err;
    }
    if x.enc != 0 {
      return Ok(report.(unverifiable := report.unverifiable + 1));
    }
    if x.kind > MAX_KNOWN_KIND && x.comp != 0 {
      return Ok(report.(unverifiable := report.unverifiable + 1));
    }
    match Plaintext(d, file, x) {
      case None => return Err;
      case Some(plain) =>
        if Blake3(c, plain) == x.root {
          return Ok(report.(verified := report.verified + 1));
        }
        return Ok(report.(mismatches := report.mismatches + [x.nameId]));
    }
  }

  /** Every section is counted exactly once. */
  lemma {:induction false} ReportCountsAll(c: Compression, d: Decompressor, file: seq<byte>, records: seq<Record>)
    requires forall r :: r in records ==> Judge(c, d, file, r) != Abort
    ensures var t := Tally(c, d, file, records);
      t.verified + t.external + t.unverifiable + |t.mismatches| == |records|
  {
    if records != [] {
      assert records[|records| - 1] in records;
      ReportCountsAll(c, d, file, records[..|records| - 1]);
    }
  }

  /** What the report means, when nothing stops the pass. */
  lemma CleanReport(c: Compression, d: Decompressor, file: seq<byte>, records: seq<Record>)
    requires forall x :: x in records ==> Judge(c, d, file, x) != Abort
    ensures var t := Tally(c, d, file, records);
      && Counts(c, d, file, records, t) && (exists at :: Lists(c, d, file, records, t.mismatches, at))
      && (t.unverifiable == 0 && t.mismatches == []
          <==> forall x :: x in records ==> x.flags / 4 % 2 == 1 || Hashes(c, d, file, x))
      && t.verified + t.external + t.unverifiable + |t.mismatches| == |records|
    ensures forall x :: x in records ==> !OverCaps(x) && !Corrupt(d, file, x)
  {
    var at := TallyLists(c, d, file, records);
    TallyCounts(c, d, file, records);
    SectionsClassified(c, d, file, records);
    TallyClean(c, d, file, records, Tally(c, d, file, records), at);
    ReportCountsAll(c, d, file, records);
    forall x | x in records
      ensures !OverCaps(x) && !Corrupt(d, file, x)
    {
      VerdictMeans(c, d, file, x);
    }
  }

  // ----- chunk indices on use -----

  /** The entries of an index as it lies in the file. */
  function Entries(b: seq<byte>): (cvs: seq<Digest>)
    ensures |cvs| == |b| / 32
    ensures forall i :: 0 <= i < |cvs| ==> cvs[i] == b[32 * i..32 * i + 32]
  {
    seq(|b| / 32, i requires 0 <= i < |b| / 32 => b[32 * i..32 * i + 32])
  }

  lemma EntriesOfBytes(cvs: seq<Digest>)
    ensures Entries(IndexBytes(cvs)) == cvs
  {
    forall i | 0 <= i < |cvs|
      ensures Entries(IndexBytes(cvs))[i] == cvs[i]
    {
      EntryAt(cvs, i);
    }
  }

  function IndexEntries(file: seq<byte>, r: Record): seq<Digest>
    requires HasIndex(r)
  {
    Entries(Slice(file, IndexRange(r)))
  }

  predicate IndexVerified(c: Compression, file: seq<byte>, r: Record)
    requires HasIndex(r)
  {
    VerifyRoot(c, IndexEntries(file, r), r.root, r.chunkSize)
  }

  /** `owned`: the caller's record must be the one the table holds under its name. */
  method Owned(records: seq<Record>, record: Record) returns (ok: bool)
    requires DistinctNames(records)
    ensures ok <==> record in records
  {
    for i := 0 to |records|
      invariant forall j :: 0 <= j < i ==> records[j].nameId != record.nameId
    {
      if records[i].nameId == record.nameId {
        if records[i] == record {
          return true;
        }
        return false;
      }
    }
    return false;
  }

  lemma RecordInside(c: Compression, ok: ManifestCheck, file: seq<byte>, b: Parsed, r: Record)
    requires IsBundle(c, ok, file, b) && r in b.sections
    ensures EndsBy(r, b.header.footerOff) && RecordRules(r) && b.header.footerOff <= |file|
  {
  }

  lemma IndexIsEntries(file: seq<byte>, r: Record, footerOff: nat)
    requires HasIndex(r) && EndsBy(r, footerOff) && RecordRules(r) && footerOff <= |file|
    ensures IndexRange(r).end <= footerOff
    ensures |Slice(file, IndexRange(r))| == 32 * ChunkCount(r.lenPlain, r.chunkSize)
    ensures |IndexEntries(file, r)| == ChunkCount(r.lenPlain, r.chunkSize) >= 2
  {
    var n := ChunkCount(r.lenPlain, r.chunkSize);
    assert IndexLen(r) == 32 * n;
  }

  lemma IndexInside(c: Compression, ok: ManifestCheck, file: seq<byte>, b: Parsed, r: Record)
    requires IsBundle(c, ok, file, b) && r in b.sections && HasIndex(r)
    ensures IndexRange(r).end <= b.header.footerOff <= |file|
    ensures |Slice(file, IndexRange(r))| == 32 * ChunkCount(r.lenPlain, r.chunkSize)
    ensures |IndexEntries(file, r)| == ChunkCount(r.lenPlain, r.chunkSize) >= 2
  {
    RecordInside(c, ok, file, b, r);
    IndexIsEntries(file, r, b.header.footerOff);
  }

  /** `chunk_index`: refused where the section itself would be, and handed out only verified. */
  method ChunkIndexOf(c: Compression, ghost ok: ManifestCheck, file: seq<byte>, b: Parsed, record: Record)
    returns (r: Result<Option<seq<Digest>>>)
    requires IsBundle(c, ok, file, b)
    ensures r.Ok? <==> record in b.sections && record.kind <= MAX_KNOWN_KIND && !Sealed(record.flags)
                       && (HasIndex(record) ==> IndexVerified(c, file, record))
    ensures r.Ok? ==> r.value == if HasIndex(record) then Some(IndexEntries(file, record)) else None
  {
    var owned := Owned(b.sections, record);
    if !owned {
      return Err;
    }
    if record.kind > MAX_KNOWN_KIND {
      return Err;
    }
    if Sealed(record.flags) {
      return Err;
    }
    assert RecordRules(record);
    if record.indexOff == 0 {
      return Ok(None);
    }
    IndexInside(c, ok, file, b, record);
    var bytes := Slice(file, IndexRange(record));
    var index := Parse(bytes, ChunkCount(record.lenPlain, record.chunkSize));
    EntriesOfBytes(index.value);
    if !VerifyRoot(c, index.value, record.root, record.chunkSize) {
      return Err;
    }
    return Ok(Some(index.value));
  }

  // ----- what an index that is handed out accepts -----

  /**
   Handed out for a section whose root is a plaintext's, an index accepts exactly its chunks if
   and only if the length its record declares makes as many chunks as the plaintext has.
   */
  lemma HandedOutAcceptsExactly(c: Compression, s: set<Node>, ok: ManifestCheck, file: seq<byte>, b: Parsed, r: Record,
                                plain: seq<byte>)
    requires IsBundle(c, ok, file, b) && r in b.sections && HasIndex(r) && IndexVerified(c, file, r)
    requires |plain| < U64_RANGE && r.root == Blake3(c, plain)
    requires NoCollisions(c, s) && IndexCalls(c, IndexEntries(file, r)) <= s && HashCalls(c, plain) <= s
    requires ChunkCallsIn(c, plain, r.chunkSize, s)
    ensures AcceptsExactly(c, s, plain, r.chunkSize, IndexEntries(file, r))
      <==> ChunkCount(r.lenPlain, r.chunkSize) == ChunkCount(|plain|, r.chunkSize)
  {
    IndexInside(c, ok, file, b, r);
    AcceptsExactlyIff(c, s, plain, r.chunkSize, IndexEntries(file, r));
  }

  /**
   A plain section in the file that verifies cannot lie: its record says how many bytes are
   stored, so the index handed out for it accepts exactly their chunks.
   */
  lemma PlainSectionAcceptsExactly(c: Compression, s: set<Node>, ok: ManifestCheck, file: seq<byte>, b: Parsed, r: Record)
    requires IsBundle(c, ok, file, b) && r in b.sections && HasIndex(r) && IndexVerified(c, file, r)
    requires !External(r.flags) && r.enc == 0 && r.comp == 0 && Blake3(c, Stored(file, r)) == r.root
    requires NoCollisions(c, s) && RecordCallsIn(c, file, r, s) && ChunkCallsIn(c, Stored(file, r), r.chunkSize, s)
    ensures |Stored(file, r)| == r.lenPlain
    ensures AcceptsExactly(c, s, Stored(file, r), r.chunkSize, IndexEntries(file, r))
  {
    RecordInside(c, ok, file, b, r);
    IndexInside(c, ok, file, b, r);
    HandedOutAcceptsExactly(c, s, ok, file, b, r, Stored(file, r));
  }

  /** `r` declares twice the length of `plain`, in chunks of `2 * half`, and carries the index of half-size ones. */
  predicate Lies(c: Compression, file: seq<byte>, r: Record, plain: seq<byte>, half: nat)
    requires LegalChunkSize(half)
  {
    && r.chunkSize == 2 * half && r.lenPlain == 2 * |plain| && r.root == Blake3(c, plain)
    && HasIndex(r) && IndexEntries(file, r) == ChunkCvs(c, plain, half)
  }

  /** Such a record's index is handed out, and accepts half a chunk for the first one. */
  lemma LyingRecord(c: Compression, ok: ManifestCheck, file: seq<byte>, b: Parsed, r: Record, plain: seq<byte>, half: nat)
    requires IsBundle(c, ok, file, b) && r in b.sections
    requires LegalChunkSize(half) && 2 * half < |plain| < U64_RANGE && Lies(c, file, r, plain, half)
    ensures IndexVerified(c, file, r) && VerifyChunk(c, IndexEntries(file, r), r.chunkSize, 0, plain[..half])
    ensures plain[..half] != Chunk(plain, r.chunkSize, 0)
  {
    assert RecordRules(r);
    LyingLength(c, plain, half, r.lenPlain);
  }

  // ----- the root determines the file -----

  /** Every inline section is plain and hashes to its root, and every index reduces to it. */
  ghost predicate PlainAndVerified(c: Compression, file: seq<byte>, records: seq<Record>) {
    forall r :: r in records ==>
      && (External(r.flags) || (r.enc == 0 && r.comp == 0 && Blake3(c, Stored(file, r)) == r.root))
      && (HasIndex(r) ==> IndexVerified(c, file, r))
  }

  /** Every compression call made in verifying the file that way. */
  ghost predicate CallsIn(c: Compression, file: seq<byte>, b: Parsed, s: set<Node>) {
    && |file| >= 64 && HashCalls(c, Committed(file[..64], Slice(file, Table(b.header)))) <= s
    && forall r :: r in b.sections ==> RecordCallsIn(c, file, r, s)
  }

  ghost predicate RecordCallsIn(c: Compression, file: seq<byte>, r: Record, s: set<Node>) {
    && (!External(r.flags) ==> HashCalls(c, Stored(file, r)) <= s)
    && (HasIndex(r) && |IndexEntries(file, r)| >= 2 ==> IndexCalls(c, IndexEntries(file, r)) <= s)
  }

  /** One root, one header and one table. */
  lemma SameHeaderAndTable(c: Compression, s: set<Node>, ok: ManifestCheck,
                           file: seq<byte>, b: Parsed, file': seq<byte>, b': Parsed)
    requires IsBundle(c, ok, file, b) && IsBundle(c, ok, file', b') && b.footer.root == b'.footer.root
    requires NoCollisions(c, s) && CallsIn(c, file, b, s) && CallsIn(c, file', b', s)
    ensures b.header == b'.header && b.sections == b'.sections
    ensures file[..64] == file'[..64] && Slice(file, Table(b.header)) == Slice(file', Table(b.header))
  {
    var (h, t) := (file[..64], Slice(file, Table(b.header)));
    var (h', t') := (file'[..64], Slice(file', Table(b'.header)));
    HashInjective(c, s, Committed(h, t), Committed(h', t'));
    CommittedInjective(h, t, h', t');
    HeaderIff(h, b.header);
    HeaderIff(h, b'.header);
    assert h[..64] == h;
    TableUnique(t, b.sections, b'.sections);
  }

  lemma SamePayload(c: Compression, s: set<Node>, file: seq<byte>, file': seq<byte>, r: Record)
    requires Blake3(c, Stored(file, r)) == r.root && Blake3(c, Stored(file', r)) == r.root && !External(r.flags)
    requires NoCollisions(c, s) && RecordCallsIn(c, file, r, s) && RecordCallsIn(c, file', r, s)
    ensures Stored(file, r) == Stored(file', r)
  {
    HashInjective(c, s, Stored(file, r), Stored(file', r));
  }

  lemma SameIndex(c: Compression, s: set<Node>, file: seq<byte>, file': seq<byte>, r: Record)
    requires HasIndex(r) && IndexVerified(c, file, r) && IndexVerified(c, file', r)
    requires |Slice(file, IndexRange(r))| == |Slice(file', IndexRange(r))| == 32 * |IndexEntries(file, r)|
    requires NoCollisions(c, s) && RecordCallsIn(c, file, r, s) && RecordCallsIn(c, file', r, s)
    ensures Slice(file, IndexRange(r)) == Slice(file', IndexRange(r))
  {
    var (a, z) := (Slice(file, IndexRange(r)), Slice(file', IndexRange(r)));
    RootInjective(c, s, Entries(a), Entries(z));
    forall i | 0 <= i < |a|
      ensures a[i] == z[i]
    {
      var k := i / 32;
      assert Entries(a)[k] == Entries(z)[k];
      assert a[i] == a[32 * k..32 * k + 32][i - 32 * k] && z[i] == z[32 * k..32 * k + 32][i - 32 * k];
    }
  }

  /** Every claimed region is some record's payload or index. */
  lemma {:induction false} ClaimOwner(records: seq<Record>, g: Region) returns (r: Record)
    requires g in Claims(records)
    ensures r in records
    ensures (!External(r.flags) && g == StoredRange(r)) || (HasIndex(r) && g == IndexRange(r))
  {
    var (front, last) := (records[..|records| - 1], records[|records| - 1]);
    if g in Claims(front) {
      r := ClaimOwner(front, g);
    } else {
      assert g in PayloadClaim(last) + IndexClaim(last);
      r := last;
    }
  }

  lemma SameSlice(file: seq<byte>, file': seq<byte>, g: Region, o: nat)
    requires g.start <= o < g.end <= |file| && g.end <= |file'| && Slice(file, g) == Slice(file', g)
    ensures file[o] == file'[o]
  {
    assert file[o] == Slice(file, g)[o - g.start] && file'[o] == Slice(file', g)[o - g.start];
  }

  /** Two verified bundles with one table agree wherever a record claims bytes. */
  lemma SameClaimed(c: Compression, s: set<Node>, ok: ManifestCheck,
                    file: seq<byte>, b: Parsed, file': seq<byte>, b': Parsed, g: Region, o: nat)
    requires IsBundle(c, ok, file, b) && IsBundle(c, ok, file', b')
    requires b.header == b'.header && b.sections == b'.sections
    requires PlainAndVerified(c, file, b.sections) && PlainAndVerified(c, file', b'.sections)
    requires NoCollisions(c, s) && CallsIn(c, file, b, s) && CallsIn(c, file', b', s)
    requires g in Claims(b.sections) && Within(o, g)
    ensures o < |file| && o < |file'| && file[o] == file'[o]
  {
    var r := ClaimOwner(b.sections, g);
    assert EndsBy(r, b.header.footerOff) && RecordCallsIn(c, file, r, s) && RecordCallsIn(c, file', r, s);
    if !External(r.flags) && g == StoredRange(r) {
      SamePayload(c, s, file, file', r);
    } else {
      IndexInside(c, ok, file, b, r);
      IndexInside(c, ok, file', b', r);
      SameIndex(c, s, file, file', r);
    }
    SameSlice(file, file', g, o);
  }

  lemma SameByte(c: Compression, s: set<Node>, ok: ManifestCheck,
                 file: seq<byte>, b: Parsed, file': seq<byte>, b': Parsed, o: nat)
    requires IsBundle(c, ok, file, b) && IsBundle(c, ok, file', b') && b.footer.root == b'.footer.root
    requires PlainAndVerified(c, file, b.sections) && PlainAndVerified(c, file', b'.sections)
    requires NoCollisions(c, s) && CallsIn(c, file, b, s) && CallsIn(c, file', b', s)
    requires o < b.header.footerOff
    ensures o < |file| && o < |file'| && file[o] == file'[o]
  {
    SameHeaderAndTable(c, s, ok, file, b, file', b');
    var regions := Regions(b.sections, b.header);
    if o < 64 {
      assert file[o] == file[..64][o] && file'[o] == file'[..64][o];
    } else if Unclaimed(regions, o) {
    } else {
      var g :| g in regions && Within(o, g);
      if g == Table(b.header) {
        SameSlice(file, file', g, o);
      } else {
        SameClaimed(c, s, ok, file, b, file', b', g, o);
      }
    }
  }

  lemma SameFront(c: Compression, s: set<Node>, ok: ManifestCheck,
                  file: seq<byte>, b: Parsed, file': seq<byte>, b': Parsed, n: nat)
    requires IsBundle(c, ok, file, b) && IsBundle(c, ok, file', b') && b.footer.root == b'.footer.root
    requires PlainAndVerified(c, file, b.sections) && PlainAndVerified(c, file', b'.sections)
    requires NoCollisions(c, s) && CallsIn(c, file, b, s) && CallsIn(c, file', b', s)
    requires n == b.header.footerOff
    ensures n <= |file| && n <= |file'| && file[..n] == file'[..n]
  {
    SameHeaderAndTable(c, s, ok, file, b, file', b');
    forall o: nat | o < n
      ensures o < |file| && o < |file'| && file[o] == file'[o]
    {
      SameByte(c, s, ok, file, b, file', b', o);
    }
  }

  /** The one manifest of a table is read from where its record says. */
  lemma SameManifest(c: Compression, ok: ManifestCheck, file: seq<byte>, m: seq<byte>,
                     file': seq<byte>, m': seq<byte>, sections: seq<Record>, n: nat)
    requires ManifestStep(c, ok, file, sections, m) && ManifestStep(c, ok, file', sections, m')
    requires OneManifest(sections) && (forall r :: r in sections ==> RecordRules(r) && EndsBy(r, n))
    requires n <= |file| && n <= |file'| && file[..n] == file'[..n]
    ensures m == m'
  {
    var i :| IsManifest(sections, i) && m == Stored(file, sections[i]);
    var g := StoredRange(sections[i]);
    assert sections[i] in sections;
    assert Slice(file, g) == file[..n][g.start..g.end] && Slice(file', g) == file'[..n][g.start..g.end];
  }

  /** The commitment root determines the file up to its footer. */
  lemma RootDeterminesFile(c: Compression, s: set<Node>, ok: ManifestCheck,
                           file: seq<byte>, b: Parsed, file': seq<byte>, b': Parsed)
    requires IsBundle(c, ok, file, b) && IsBundle(c, ok, file', b') && b.footer.root == b'.footer.root
    requires PlainAndVerified(c, file, b.sections) && PlainAndVerified(c, file', b'.sections)
    requires NoCollisions(c, s) && CallsIn(c, file, b, s) && CallsIn(c, file', b', s)
    ensures b.header == b'.header && b.sections == b'.sections && b.manifest == b'.manifest
    ensures b.header.footerOff <= |file| && b.header.footerOff <= |file'|
    ensures file[..b.header.footerOff] == file'[..b.header.footerOff]
  {
    var n := b.header.footerOff;
    SameHeaderAndTable(c, s, ok, file, b, file', b');
    SameFront(c, s, ok, file, b, file', b', n);
    SameManifest(c, ok, file, b.manifest, file', b'.manifest, b.sections, n);
  }
}
