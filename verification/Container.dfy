/** The 64-byte header and the 128-byte section record (`header.rs`, `section.rs`, `record.go`). */
module Container {
  import opened Bytes
  import opened Fields
  import opened Blake3Tree
  import opened ChunkIndex

  const HEADER_LEN: nat := 64
  const RECORD_LEN: nat := 128
  const PAYLOAD_ALIGN: nat := 4096
  const TABLE_ALIGN: nat := 8
  const MAX_SECTIONS: nat := 4096

  /** 89 "CTF" 0d 0a 1a 0a */
  const MAGIC: seq<byte> := [0x89, 0x43, 0x54, 0x46, 0x0d, 0x0a, 0x1a, 0x0a]

  // ----- the header -----

  datatype Header = Header(
    major: u16, minor: u16, suite: u16, flags: u16, count: u32,
    tableOff: u64, footerOff: u64, incompat: u32, roCompat: u32)

  function TableEnd(h: Header): nat {
    h.tableOff + h.count * 128
  }

  /** Bit 0 of `feat_ro_compat`. */
  predicate ContainerV1(h: Header) {
    h.roCompat % 2 == 1
  }

  /** No `feat_ro_compat` bit but bit 0: the file may be rewritten. */
  predicate MayRewrite(h: Header) {
    h.roCompat < 2
  }

  /** What a header has to satisfy on its own. No incompatible feature or flag is known. */
  predicate HeaderRules(h: Header) {
    && h.major == 0 && h.incompat == 0 && h.flags == 0
    && h.count <= MAX_SECTIONS
    && h.tableOff >= HEADER_LEN && h.tableOff % TABLE_ALIGN == 0
    && TableEnd(h) <= h.footerOff
  }

  /** `Header::parse`. */
  function ParseHeader(b: seq<byte>): Result<Header> {
    if |b| < HEADER_LEN then Err
    else if b[0..8] != MAGIC then Err
    else if U16At(b, 8) != 0 then Err
    else if U32At(b, 12) != HEADER_LEN then Err
    else if U32At(b, 40) != 0 then Err
    else if !AllZero(b[48..48 + 16]) then Err
    else if U16At(b, 18) != 0 then Err
    else if U32At(b, 20) > MAX_SECTIONS then Err
    else if U64At(b, 24) < HEADER_LEN then Err
    else if U64At(b, 24) % TABLE_ALIGN != 0 then Err
    else
      var tableEnd := U64At(b, 24) + U32At(b, 20) * 128;
      if tableEnd >= U64_RANGE then Err
      else if U64At(b, 32) < tableEnd then Err
      else Ok(Header(U16At(b, 8), U16At(b, 10), U16At(b, 16), U16At(b, 18), U32At(b, 20),
                     U64At(b, 24), U64At(b, 32), U32At(b, 40), U32At(b, 44)))
  }

  /** The bytes of a header, field after field. */
  function HeaderBytes(h: Header): (b: seq<byte>)
    ensures |b| == 64
  {
    MAGIC + LE(h.major, 2) + LE(h.minor, 2) + LE(HEADER_LEN, 4) + LE(h.suite, 2) + LE(h.flags, 2) + LE(h.count, 4)
    + LE(h.tableOff, 8) + LE(h.footerOff, 8) + LE(h.incompat, 4) + LE(h.roCompat, 4) + Zeros(16)
  }

  /** `b` has every field of `h` in its place. */
  ghost predicate HeaderAt(b: seq<byte>, h: Header) {
    && At(b, 0, MAGIC) && At(b, 8, LE(h.major, 2)) && At(b, 10, LE(h.minor, 2)) && At(b, 12, LE(HEADER_LEN, 4))
    && At(b, 16, LE(h.suite, 2)) && At(b, 18, LE(h.flags, 2)) && At(b, 20, LE(h.count, 4))
    && At(b, 24, LE(h.tableOff, 8)) && At(b, 32, LE(h.footerOff, 8))
    && At(b, 40, LE(h.incompat, 4)) && At(b, 44, LE(h.roCompat, 4)) && At(b, 48, Zeros(16))
  }

  lemma HeaderFields(b: seq<byte>, h: Header)
    requires |b| >= 64
    ensures HeaderAt(b, h) <==> At(b, 0, HeaderBytes(h))
  {
    var p1 := MAGIC;
    var p2 := p1 + LE(h.major, 2);
    var p3 := p2 + LE(h.minor, 2);
    var p4 := p3 + LE(HEADER_LEN, 4);
    var p5 := p4 + LE(h.suite, 2);
    var p6 := p5 + LE(h.flags, 2);
    var p7 := p6 + LE(h.count, 4);
    var p8 := p7 + LE(h.tableOff, 8);
    var p9 := p8 + LE(h.footerOff, 8);
    var p10 := p9 + LE(h.incompat, 4);
    var p11 := p10 + LE(h.roCompat, 4);
    AtCat(b, p1, 8, LE(h.major, 2));
    AtCat(b, p2, 10, LE(h.minor, 2));
    AtCat(b, p3, 12, LE(HEADER_LEN, 4));
    AtCat(b, p4, 16, LE(h.suite, 2));
    AtCat(b, p5, 18, LE(h.flags, 2));
    AtCat(b, p6, 20, LE(h.count, 4));
    AtCat(b, p7, 24, LE(h.tableOff, 8));
    AtCat(b, p8, 32, LE(h.footerOff, 8));
    AtCat(b, p9, 40, LE(h.incompat, 4));
    AtCat(b, p10, 44, LE(h.roCompat, 4));
    AtCat(b, p11, 48, Zeros(16));
  }

  /** The fields of a 64-byte prefix, as read. */
  function ReadHeader(b: seq<byte>): Header
    requires |b| >= 64
  {
    Header(U16At(b, 8), U16At(b, 10), U16At(b, 16), U16At(b, 18), U32At(b, 20),
           U64At(b, 24), U64At(b, 32), U32At(b, 40), U32At(b, 44))
  }

  lemma ReadHeaderAt(b: seq<byte>, h: Header)
    requires |b| >= 64
    ensures HeaderAt(b, h) <==> ReadHeader(b) == h && b[0..8] == MAGIC && U32At(b, 12) == 64 && AllZero(b[48..64])
  {
    U16Field(b, 8, h.major);
    U16Field(b, 10, h.minor);
    U32Field(b, 12, 64);
    U16Field(b, 16, h.suite);
    U16Field(b, 18, h.flags);
    U32Field(b, 20, h.count);
    U64Field(b, 24, h.tableOff);
    U64Field(b, 32, h.footerOff);
    U32Field(b, 40, h.incompat);
    U32Field(b, 44, h.roCompat);
    ZeroField(b, 48, 16);
  }

  /** A header parses from exactly the strings that start with its bytes, if it keeps the rules. */
  lemma HeaderIff(b: seq<byte>, h: Header)
    ensures ParseHeader(b) == Ok(h) <==> HeaderRules(h) && |b| >= 64 && b[..64] == HeaderBytes(h)
  {
    if |b| >= 64 {
      HeaderFields(b, h);
      ReadHeaderAt(b, h);
      assert b[0..64] == b[..64];
      if ParseHeader(b).Ok? {
        assert ParseHeader(b) == Ok(ReadHeader(b));
      }
    }
  }

  /** `Header::to_bytes`. */
  method HeaderToBytes(h: Header) returns (out: seq<byte>)
    ensures out == HeaderBytes(h)
  {
    var b := new byte[64](_ => 0);
    ghost var front: seq<byte> := [];
    assert b[..] == Filled(front, 64);
    front := Put(b, 0, MAGIC, front);
    front := Put(b, 8, LE(h.major, 2), front);
    front := Put(b, 10, LE(h.minor, 2), front);
    front := Put(b, 12, LE(HEADER_LEN, 4), front);
    front := Put(b, 16, LE(h.suite, 2), front);
    front := Put(b, 18, LE(h.flags, 2), front);
    front := Put(b, 20, LE(h.count, 4), front);
    front := Put(b, 24, LE(h.tableOff, 8), front);
    front := Put(b, 32, LE(h.footerOff, 8), front);
    front := Put(b, 40, LE(h.incompat, 4), front);
    front := Put(b, 44, LE(h.roCompat, 4), front);
    assert [] + MAGIC == MAGIC;
    out := b[..];
  }

  /** `Header::check_file_len`. */
  predicate CheckFileLen(h: Header, fileLen: nat) {
    TableEnd(h) <= fileLen && h.footerOff <= fileLen
  }

  /** Go's `ParseHeader`: all fields first, the file length among the rules. */
  function GoParseHeader(b: seq<byte>): Result<Header> {
    if |b| < HEADER_LEN then Err
    else if b[0..8] != MAGIC then Err
    else
      var h := ReadHeader(b);
      if h.major != 0 then Err
      else if U32At(b, 12) != HEADER_LEN then Err
      else if h.incompat != 0 then Err
      else if exists i :: 48 <= i < 64 && b[i] != 0 then Err
      else if h.flags != 0 then Err
      else if h.count > MAX_SECTIONS then Err
      else if h.tableOff < HEADER_LEN then Err
      else if h.tableOff % TABLE_ALIGN != 0 then Err
      else if TableEnd(h) >= U64_RANGE then Err
      else if h.footerOff < TableEnd(h) then Err
      else if TableEnd(h) > |b| then Err
      else if h.footerOff > |b| then Err
      else Ok(h)
  }

  /** Both implementations read the same headers. */
  lemma GoHeaderAgrees(b: seq<byte>, h: Header)
    ensures GoParseHeader(b) == Ok(h) <==> ParseHeader(b) == Ok(h) && CheckFileLen(h, |b|)
  {
    if |b| >= 64 {
      assert AllZero(b[48..64]) <==> !exists i :: 48 <= i < 64 && b[i] != 0 by {
        forall i | 48 <= i < 64
          ensures b[i] == b[48..64][i - 48]
        {
        }
      }
    }
  }

  // ----- the section record -----

  const MANIFEST: u16 := 1
  const SOLVER: u16 := 4
  const WRITEUP: u16 := 5
  const PROGRESS: u16 := 8
  const MAX_KNOWN_KIND: u16 := 8

  /** A record; a kind above 8 is one of a later version, `enc` and `comp` are 0 or 1. */
  datatype Record = Record(
    kind: u16, nameId: u16, flags: u16, enc: byte, comp: byte,
    offset: u64, lenStored: u64, lenPlain: u64, chunkSize: u32, indexOff: u64, root: Digest)

  predicate Sealed(flags: u16) { flags % 2 == 1 }
  predicate PlayerVisible(flags: u16) { flags / 2 % 2 == 1 }
  predicate External(flags: u16) { flags / 4 % 2 == 1 }
  predicate Optional(flags: u16) { flags / 8 % 2 == 1 }

  /** R3-R9 and R18: what a section may claim to be. */
  predicate KindRules(kind: u16, flags: u16) {
    && flags < 16
    && !(Sealed(flags) && PlayerVisible(flags))
    && kind != 0 && (kind > MAX_KNOWN_KIND ==> Optional(flags))
    && (kind == SOLVER || kind == WRITEUP || kind == PROGRESS ==> Sealed(flags))
    && (kind == MANIFEST ==> !Sealed(flags) && !PlayerVisible(flags) && !External(flags))
  }

  /** R10 and R20-R22: which transforms a section may carry. */
  predicate CodecRules(r: Record) {
    && r.enc <= 1 && r.comp <= 1
    && (r.kind == MANIFEST || External(r.flags) ==> r.enc == 0 && r.comp == 0)
    && (Sealed(r.flags) ==> r.enc != 0)
  }

  /** R11-R13: where the stored bytes are, and how many. */
  predicate PayloadRules(r: Record) {
    && (External(r.flags) ==> r.offset == 0 && r.lenStored == 0)
    && (!External(r.flags) ==> r.offset >= HEADER_LEN && r.offset % PAYLOAD_ALIGN == 0
                               && r.offset + r.lenStored < U64_RANGE)
    && (!External(r.flags) && r.enc == 0 && r.comp == 0 ==> r.lenStored == r.lenPlain)
  }

  /** R14-R17 and R19: chunking and the index. */
  predicate ChunkRules(r: Record) {
    && (r.chunkSize != 0 ==> LegalChunkSize(r.chunkSize))
    && (r.enc == 1 ==> r.chunkSize != 0)
    && (r.indexOff != 0 ==>
          && r.chunkSize != 0
          && r.indexOff >= HEADER_LEN && r.indexOff % TABLE_ALIGN == 0
          && ChunkCount(r.lenPlain, r.chunkSize) >= 2)
  }

  /** Every per-record rule. */
  predicate RecordRules(r: Record) {
    KindRules(r.kind, r.flags) && CodecRules(r) && PayloadRules(r) && ChunkRules(r)
  }

  /** The fields of 128 bytes, as read. */
  function ReadRecord(b: seq<byte>): Record
    requires |b| >= 128
  {
    Record(U16At(b, 0), U16At(b, 2), U16At(b, 4), b[6], b[7], U64At(b, 8), U64At(b, 16), U64At(b, 24),
           U32At(b, 32), U64At(b, 40), b[48..80])
  }

  /** `SectionRecord::parse`: the checks in the order the reader makes them. */
  function ParseRecord(b: seq<byte>): Result<Record> {
    if |b| < RECORD_LEN then Err
    else if !AllZero(b[36..36 + 4]) || !AllZero(b[80..80 + 48]) then Err
    else
      var r := ReadRecord(b);
      if r.flags >= 16 then Err
      else if Sealed(r.flags) && PlayerVisible(r.flags) then Err
      else if r.kind == 0 || (r.kind > MAX_KNOWN_KIND && !Optional(r.flags)) then Err
      else if (r.kind == SOLVER || r.kind == WRITEUP || r.kind == PROGRESS) && !Sealed(r.flags) then Err
      else if r.kind == MANIFEST && (Sealed(r.flags) || PlayerVisible(r.flags) || External(r.flags)) then Err
      else if r.enc > 1 || r.comp > 1 then Err
      else if r.kind == MANIFEST && (r.enc != 0 || r.comp != 0) then Err
      else if Sealed(r.flags) && r.enc == 0 then Err
      else if External(r.flags) && (r.offset != 0 || r.lenStored != 0) then Err
      else if !External(r.flags) && (r.offset < HEADER_LEN || r.offset % PAYLOAD_ALIGN != 0) then Err
      else if !External(r.flags) && r.offset + r.lenStored >= U64_RANGE then Err
      else if External(r.flags) && (r.enc != 0 || r.comp != 0) then Err
      else if r.enc == 0 && r.comp == 0 && !External(r.flags) && r.lenStored != r.lenPlain then Err
      else if r.chunkSize != 0 && !LegalChunkSize(r.chunkSize) then Err
      else if r.enc == 1 && r.chunkSize == 0 then Err
      else if r.indexOff != 0 && r.chunkSize == 0 then Err
      else if r.indexOff != 0 && (r.indexOff < HEADER_LEN || r.indexOff % TABLE_ALIGN != 0) then Err
      else if r.indexOff != 0 && ChunkCount(r.lenPlain, r.chunkSize) < 2 then Err
      else Ok(r)
  }

  /** The bytes of a record, field after field. */
  function RecordBytes(r: Record): (b: seq<byte>)
    ensures |b| == 128
  {
    LE(r.kind, 2) + LE(r.nameId, 2) + LE(r.flags, 2) + [r.enc] + [r.comp] + LE(r.offset, 8) + LE(r.lenStored, 8)
    + LE(r.lenPlain, 8) + LE(r.chunkSize, 4) + Zeros(4) + LE(r.indexOff, 8) + r.root + Zeros(48)
  }

  /** `b` has every field of `r` in its place. */
  ghost predicate RecordAt(b: seq<byte>, r: Record) {
    && At(b, 0, LE(r.kind, 2)) && At(b, 2, LE(r.nameId, 2)) && At(b, 4, LE(r.flags, 2))
    && At(b, 6, [r.enc]) && At(b, 7, [r.comp])
    && At(b, 8, LE(r.offset, 8)) && At(b, 16, LE(r.lenStored, 8)) && At(b, 24, LE(r.lenPlain, 8))
    && At(b, 32, LE(r.chunkSize, 4)) && At(b, 36, Zeros(4)) && At(b, 40, LE(r.indexOff, 8))
    && At(b, 48, r.root) && At(b, 80, Zeros(48))
  }

  lemma RecordFields(b: seq<byte>, r: Record)
    requires |b| >= 128
    ensures RecordAt(b, r) <==> At(b, 0, RecordBytes(r))
  {
    var p1 := LE(r.kind, 2);
    var p2 := p1 + LE(r.nameId, 2);
    var p3 := p2 + LE(r.flags, 2);
    var p4 := p3 + [r.enc];
    var p5 := p4 + [r.comp];
    var p6 := p5 + LE(r.offset, 8);
    var p7 := p6 + LE(r.lenStored, 8);
    var p8 := p7 + LE(r.lenPlain, 8);
    var p9 := p8 + LE(r.chunkSize, 4);
    var p10 := p9 + Zeros(4);
    var p11 := p10 + LE(r.indexOff, 8);
    var p12 := p11 + r.root;
    AtCat(b, p1, 2, LE(r.nameId, 2));
    AtCat(b, p2, 4, LE(r.flags, 2));
    AtCat(b, p3, 6, [r.enc]);
    AtCat(b, p4, 7, [r.comp]);
    AtCat(b, p5, 8, LE(r.offset, 8));
    AtCat(b, p6, 16, LE(r.lenStored, 8));
    AtCat(b, p7, 24, LE(r.lenPlain, 8));
    AtCat(b, p8, 32, LE(r.chunkSize, 4));
    AtCat(b, p9, 36, Zeros(4));
    AtCat(b, p10, 40, LE(r.indexOff, 8));
    AtCat(b, p11, 48, r.root);
    AtCat(b, p12, 80, Zeros(48));
  }

  lemma ReadRecordAt(b: seq<byte>, r: Record)
    requires |b| >= 128
    ensures RecordAt(b, r) <==> ReadRecord(b) == r && AllZero(b[36..40]) && AllZero(b[80..128])
  {
    U16Field(b, 0, r.kind);
    U16Field(b, 2, r.nameId);
    U16Field(b, 4, r.flags);
    assert b[6..7] == [b[6]] && b[7..8] == [b[7]];
    U64Field(b, 8, r.offset);
    U64Field(b, 16, r.lenStored);
    U64Field(b, 24, r.lenPlain);
    U32Field(b, 32, r.chunkSize);
    ZeroField(b, 36, 4);
    U64Field(b, 40, r.indexOff);
    ZeroField(b, 80, 48);
  }

  /** The reader's checks are the rules. */
  lemma ParsedByRules(b: seq<byte>)
    requires |b| >= 128
    ensures ParseRecord(b) == if AllZero(b[36..40]) && AllZero(b[80..128]) && RecordRules(ReadRecord(b))
                              then Ok(ReadRecord(b)) else Err
  {
  }

  /** A record parses from exactly the strings that start with its bytes, if it keeps the rules. */
  lemma RecordIff(b: seq<byte>, r: Record)
    ensures ParseRecord(b) == Ok(r) <==> RecordRules(r) && |b| >= 128 && b[..128] == RecordBytes(r)
  {
    if |b| >= 128 {
      ParsedByRules(b);
      RecordFields(b, r);
      ReadRecordAt(b, r);
      assert b[0..128] == b[..128];
    }
  }

  /** `SectionRecord::to_bytes`. */
  method RecordToBytes(r: Record) returns (out: seq<byte>)
    ensures out == RecordBytes(r)
  {
    var b := new byte[128](_ => 0);
    ghost var front: seq<byte> := [];
    assert b[..] == Filled(front, 128);
    front := Put(b, 0, LE(r.kind, 2), front);
    assert front == LE(r.kind, 2);
    front := Put(b, 2, LE(r.nameId, 2), front);
    front := Put(b, 4, LE(r.flags, 2), front);
    front := Put(b, 6, [r.enc], front);
    front := Put(b, 7, [r.comp], front);
    front := Put(b, 8, LE(r.offset, 8), front);
    front := Put(b, 16, LE(r.lenStored, 8), front);
    front := Put(b, 24, LE(r.lenPlain, 8), front);
    front := Put(b, 32, LE(r.chunkSize, 4), front);
    Skip(front, 4, 128);
    front := front + Zeros(4);
    front := Put(b, 40, LE(r.indexOff, 8), front);
    front := Put(b, 48, r.root, front);
    out := b[..];
  }

  /** Go's `parseRecord`: every field first, then the rules in another order. */
  function GoParseRecord(b: seq<byte>): Result<Record> {
    if |b| < RECORD_LEN then Err
    else if exists i :: 36 <= i < 40 && b[i] != 0 then Err
    else if exists i :: 80 <= i < 128 && b[i] != 0 then Err
    else
      var r := ReadRecord(b);
      if r.flags >= 16 then Err
      else if r.kind == 0 then Err
      else if r.kind > 8 && !Optional(r.flags) then Err
      else if Sealed(r.flags) && PlayerVisible(r.flags) then Err
      else if (r.kind == SOLVER || r.kind == WRITEUP || r.kind == PROGRESS) && !Sealed(r.flags) then Err
      else if r.kind == MANIFEST && (Sealed(r.flags) || PlayerVisible(r.flags) || External(r.flags)) then Err
      else if r.kind == MANIFEST && (r.enc != 0 || r.comp != 0) then Err
      else if Sealed(r.flags) && r.enc == 0 then Err
      else if External(r.flags) && (r.enc != 0 || r.comp != 0) then Err
      else if r.enc > 1 then Err
      else if r.comp > 1 then Err
      else if External(r.flags) && (r.offset != 0 || r.lenStored != 0) then Err
      else if !External(r.flags) && (r.offset < HEADER_LEN || r.offset % PAYLOAD_ALIGN != 0) then Err
      else if !External(r.flags) && r.offset + r.lenStored >= U64_RANGE then Err
      else if !External(r.flags) && r.enc == 0 && r.comp == 0 && r.lenStored != r.lenPlain then Err
      else if r.chunkSize != 0 && (r.chunkSize < MIN_CHUNK_SIZE || r.chunkSize > MAX_CHUNK_SIZE || !IsPow2(r.chunkSize)) then Err
      else if r.enc == 1 && r.chunkSize == 0 then Err
      else if r.indexOff != 0 && r.chunkSize == 0 then Err
      else if r.indexOff != 0 && (r.indexOff < HEADER_LEN || r.indexOff % TABLE_ALIGN != 0) then Err
      else if r.indexOff != 0 && ChunkCount(r.lenPlain, r.chunkSize) < 2 then Err
      else Ok(r)
  }

  lemma ZeroRange(b: seq<byte>, from: nat, to: nat)
    requires from <= to <= |b|
    ensures AllZero(b[from..to]) <==> !exists i :: from <= i < to && b[i] != 0
  {
    forall i | from <= i < to
      ensures b[i] == b[from..to][i - from]
    {
    }
  }

  /** Both implementations read the same records. */
  lemma GoRecordAgrees(b: seq<byte>)
    ensures GoParseRecord(b) == ParseRecord(b)
  {
    if |b| >= 128 {
      ParsedByRules(b);
      ZeroRange(b, 36, 40);
      ZeroRange(b, 80, 128);
    }
  }

  // ----- the table -----

  function TableBytes(records: seq<Record>): (b: seq<byte>)
    ensures |b| == 128 * |records|
  {
    if records == [] then [] else TableBytes(records[..|records| - 1]) + RecordBytes(records[|records| - 1])
  }

  /** `b` starts with the records of a table, every one keeping the rules. */
  ghost predicate TableAt(b: seq<byte>, records: seq<Record>) {
    && 128 * |records| <= |b| && b[..128 * |records|] == TableBytes(records)
    && forall r :: r in records ==> RecordRules(r)
  }

  /** One more record. */
  lemma TableNext(b: seq<byte>, front: seq<Record>, r: Record, n: nat, next: nat)
    requires n == 128 * |front| && next == n + 128 <= |b|
    ensures TableAt(b, front + [r]) <==> TableAt(b, front) && ParseRecord(b[n..next]) == Ok(r)
  {
    var records := front + [r];
    assert records[..|front|] == front;
    RecordIff(b[n..next], r);
    assert b[n..next][..128] == b[n..next];
    assert b[..next] == b[..n] + b[n..next];
    assert forall x :: x in records <==> x in front || x == r;
  }

  lemma {:induction false} TablePrefix(b: seq<byte>, records: seq<Record>, i: nat)
    requires TableAt(b, records) && i <= |records|
    ensures TableAt(b, records[..i])
    decreases |records| - i
  {
    if i < |records| {
      var (next, start, end) := (i + 1, 128 * i, 128 * i + 128);
      TablePrefix(b, records, next);
      assert records[..next] == records[..i] + [records[i]];
      TableNext(b, records[..i], records[i], start, end);
    } else {
      assert records[..i] == records;
    }
  }

  /** At most one table of a given size starts at the front of `b`. */
  lemma TableUnique(b: seq<byte>, a: seq<Record>, z: seq<Record>)
    requires TableAt(b, a) && TableAt(b, z) && |a| == |z|
    ensures a == z
  {
    forall i | 0 <= i < |a|
      ensures a[i] == z[i]
    {
      RecordInTable(b, a, i);
      RecordInTable(b, z, i);
    }
  }

  lemma RecordInTable(b: seq<byte>, records: seq<Record>, i: nat)
    requires TableAt(b, records) && i < |records|
    ensures 128 * i + 128 <= |b| && ParseRecord(b[128 * i..128 * i + 128]) == Ok(records[i])
  {
    var (next, start, end) := (i + 1, 128 * i, 128 * i + 128);
    TablePrefix(b, records, next);
    assert records[..next] == records[..i] + [records[i]];
    TableNext(b, records[..i], records[i], start, end);
  }

  /** `parse_table`: the table at the front of `b`, if there is one of this size. */
  method ParseTable(b: seq<byte>, count: nat) returns (r: Result<seq<Record>>)
    ensures r.Ok? ==> |r.value| == count && TableAt(b, r.value)
    ensures r.Err? ==> forall records :: |records| == count ==> !TableAt(b, records)
  {
    var need := count * 128;
    if |b| < need {
      return Err;
    }
    var out: seq<Record> := [];
    for i := 0 to count
      invariant |out| == i && TableAt(b, out)
    {
      var start := i * 128;
      var rec := ParseRecord(b[start..start + 128]);
      if rec.Err? {
        forall records | |records| == count && TableAt(b, records)
          ensures false
        {
          RecordInTable(b, records, i);
        }
        return Err;
      }
      TableNext(b, out, rec.value, start, start + 128);
      out := out + [rec.value];
    }
    return Ok(out);
  }
}
