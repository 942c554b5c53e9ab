/**
 What a bundle is, byte offset by byte offset: the header, the records of the table, who owns
 which bytes, the footer and what it commits to. Files of this description are exactly the
 files that parse.
 */
module WireFormat {
  import opened Bytes
  import opened Blake3Tree
  import opened ChunkIndex
  import opened Container
  import opened FooterFormat
  import opened Layout
  import opened Bundle

  // ----- chunk sizes -----

  lemma {:induction false} PowerGap(a: nat, b: nat)
    requires IsPow2(a) && IsPow2(b) && a < b
    ensures 2 * a <= b
  {
    if a > 1 {
      var (x, y) := (a / 2, b / 2);
      PowerGap(x, y);
    }
  }

  lemma Doubled(a: nat, b: nat)
    requires IsPow2(a) && b == 2 * a
    ensures IsPow2(b)
  {
  }

  /** One of the powers of two from `low` on is either `low` or one of those from twice that on. */
  lemma FromPower(low: nat, next: nat, cs: nat)
    requires IsPow2(low) && next == 2 * low
    ensures IsPow2(next) && (IsPow2(cs) && cs >= low ==> cs == low || cs >= next)
  {
    Doubled(low, next);
    if IsPow2(cs) && cs > low {
      PowerGap(low, cs);
    }
  }

  predicate IsChunkSize(cs: nat) {
    || cs == 0x1000 || cs == 0x2000 || cs == 0x4000 || cs == 0x8000 || cs == 0x1_0000 || cs == 0x2_0000 || cs == 0x4_0000 || cs == 0x8_0000
    || cs == 0x10_0000 || cs == 0x20_0000 || cs == 0x40_0000 || cs == 0x80_0000 || cs == 0x100_0000 || cs == 0x200_0000 || cs == 0x400_0000
  }

  /** The chunk sizes, from 4 KiB to 64 MiB. */
  lemma ChunkSizes(cs: nat)
    ensures LegalChunkSize(cs) <==> IsChunkSize(cs)
  {
    PowersTo4096();
    FromPower(0x1000, 0x2000, cs);
    FromPower(0x2000, 0x4000, cs);
    FromPower(0x4000, 0x8000, cs);
    FromPower(0x8000, 0x1_0000, cs);
    FromPower(0x1_0000, 0x2_0000, cs);
    FromPower(0x2_0000, 0x4_0000, cs);
    FromPower(0x4_0000, 0x8_0000, cs);
    FromPower(0x8_0000, 0x10_0000, cs);
    FromPower(0x10_0000, 0x20_0000, cs);
    FromPower(0x20_0000, 0x40_0000, cs);
    FromPower(0x40_0000, 0x80_0000, cs);
    FromPower(0x80_0000, 0x100_0000, cs);
    FromPower(0x100_0000, 0x200_0000, cs);
    FromPower(0x200_0000, 0x400_0000, cs);
  }

  lemma PowersTo4096()
    ensures IsPow2(0x1000)
  {
    assert IsPow2(1);
    Doubled(1, 2);
    Doubled(2, 4);
    Doubled(4, 8);
    Doubled(8, 0x10);
    Doubled(0x10, 0x20);
    Doubled(0x20, 0x40);
    Doubled(0x40, 0x80);
    Doubled(0x80, 0x100);
    Doubled(0x100, 0x200);
    Doubled(0x200, 0x400);
    Doubled(0x400, 0x800);
    Doubled(0x800, 0x1000);
  }

  // ----- the header -----

  /** 89 "CTF" 0d 0a 1a 0a */
  predicate IsMagic(b: seq<byte>) {
    |b| == 8 && b[0] == 0x89 && b[1] == 0x43 && b[2] == 0x54 && b[3] == 0x46 && b[4] == 0x0d && b[5] == 0x0a && b[6] == 0x1a && b[7] == 0x0a
  }

  ghost predicate IsHeader(file: seq<byte>, h: Header) {
    && |file| >= 64 && IsMagic(file[0..8]) && U32At(file, 12) == 64 && (forall i :: 48 <= i < 64 ==> file[i] == 0)
    && U16At(file, 8) == h.major == 0 && U16At(file, 10) == h.minor && U16At(file, 16) == h.suite && U16At(file, 18) == h.flags == 0
    && U32At(file, 20) == h.count <= 4096 && U64At(file, 24) == h.tableOff && U64At(file, 32) == h.footerOff
    && U32At(file, 40) == h.incompat == 0 && U32At(file, 44) == h.roCompat && h.roCompat % 2 == 1
    && 64 <= h.tableOff && h.tableOff % 8 == 0 && h.tableOff + 128 * h.count <= h.footerOff <= |file|
  }

  lemma HeaderOnDisk(file: seq<byte>, h: Header)
    ensures HeaderStep(file, h) <==> IsHeader(file, h)
  {
    if |file| >= 64 {
      HeaderFields(file, h);
      ReadHeaderAt(file, h);
      assert file[..64] == file[0..64];
      assert IsMagic(file[0..8]) <==> file[0..8] == MAGIC;
      assert AllZero(file[48..64]) <==> forall i :: 48 <= i < 64 ==> file[i] == 0 by {
        forall i | 48 <= i < 64
          ensures file[i] == file[48..64][i - 48]
        {
        }
      }
    }
  }

  // ----- records -----

  /** The 128 bytes of a record. */
  ghost predicate IsRecord(b: seq<byte>, r: Record) {
    && |b| == 128 && U16At(b, 0) == r.kind && U16At(b, 2) == r.nameId && U16At(b, 4) == r.flags && b[6] == r.enc && b[7] == r.comp
    && U64At(b, 8) == r.offset && U64At(b, 16) == r.lenStored && U64At(b, 24) == r.lenPlain && U32At(b, 32) == r.chunkSize
    && (forall i :: 36 <= i < 40 ==> b[i] == 0) && U64At(b, 40) == r.indexOff && b[48..80] == r.root
    && forall i :: 80 <= i < 128 ==> b[i] == 0
  }

  // Flag bits: 0 sealed, 1 player-visible, 2 external, 3 optional. Kinds: 1 manifest, 4 solver, 5 write-up, 8 progress.

  predicate LegalKind(r: Record) {
    && r.kind != 0 && (r.kind > 8 ==> r.flags / 8 % 2 == 1) && r.flags < 16
    && !(r.flags % 2 == 1 && r.flags / 2 % 2 == 1)
    && (r.kind == 4 || r.kind == 5 || r.kind == 8 ==> r.flags % 2 == 1)
    && (r.kind == 1 ==> r.flags % 2 == 0 && r.flags / 2 % 2 == 0 && r.flags / 4 % 2 == 0)
  }

  predicate LegalCodec(r: Record) {
    && r.enc <= 1 && r.comp <= 1 && (r.flags % 2 == 1 ==> r.enc == 1)
    && (r.kind == 1 || r.flags / 4 % 2 == 1 ==> r.enc == 0 && r.comp == 0)
  }

  predicate LegalPlace(r: Record) {
    if r.flags / 4 % 2 == 1 then r.offset == 0 && r.lenStored == 0
    else
      && r.offset >= 64 && r.offset % 4096 == 0 && r.offset + r.lenStored < 0x1_0000_0000_0000_0000
      && (r.enc == 0 && r.comp == 0 ==> r.lenStored == r.lenPlain)
  }

  predicate LegalChunking(r: Record) {
    && (r.chunkSize != 0 ==> IsChunkSize(r.chunkSize)) && (r.enc == 1 ==> r.chunkSize != 0)
    && (r.indexOff != 0 ==> r.chunkSize != 0 && r.indexOff >= 64 && r.indexOff % 8 == 0 && r.lenPlain > r.chunkSize)
  }

  predicate LegalRecord(r: Record) {
    LegalKind(r) && LegalCodec(r) && LegalPlace(r) && LegalChunking(r)
  }

  lemma LegalFlags(r: Record)
    ensures KindRules(r.kind, r.flags) <==> LegalKind(r)
  {
  }

  lemma LegalTransforms(r: Record)
    ensures CodecRules(r) <==> LegalCodec(r)
  {
  }

  lemma LegalRange(r: Record)
    ensures PayloadRules(r) <==> LegalPlace(r)
  {
  }

  lemma LegalChunks(r: Record)
    ensures ChunkRules(r) <==> LegalChunking(r)
  {
    ChunkSizes(r.chunkSize);
    if r.chunkSize != 0 {
      TwoChunks(r.lenPlain, r.chunkSize);
    }
  }

  lemma LegalIff(r: Record)
    ensures RecordRules(r) <==> LegalRecord(r)
  {
    LegalFlags(r);
    LegalTransforms(r);
    LegalRange(r);
    LegalChunks(r);
  }

  lemma RecordOnDisk(b: seq<byte>, r: Record)
    requires |b| == 128
    ensures ParseRecord(b) == Ok(r) <==> IsRecord(b, r) && LegalRecord(r)
  {
    RecordIff(b, r);
    RecordFields(b, r);
    ReadRecordAt(b, r);
    LegalIff(r);
    assert b[..128] == b[0..128];
    forall i | 36 <= i < 40
      ensures b[i] == b[36..40][i - 36]
    {
    }
    forall i | 80 <= i < 128
      ensures b[i] == b[80..128][i - 80]
    {
    }
  }

  /** Record after record from the table's offset on. */
  ghost predicate IsTable(file: seq<byte>, h: Header, sections: seq<Record>) {
    && |sections| == h.count && h.tableOff + 128 * h.count <= |file|
    && forall i :: 0 <= i < |sections| ==> RecordAtSlot(file, h, i, sections[i])
  }

  ghost predicate RecordAtSlot(file: seq<byte>, h: Header, i: nat, r: Record) {
    && h.tableOff + 128 * i + 128 <= |file|
    && IsRecord(file[h.tableOff + 128 * i..h.tableOff + 128 * i + 128], r) && LegalRecord(r)
  }

  lemma SlotOnDisk(file: seq<byte>, h: Header, table: seq<byte>, i: nat, from: nat, to: nat, r: Record)
    requires h.tableOff + |table| <= |file| && table == file[h.tableOff..h.tableOff + |table|]
    requires from == 128 * i && to == from + 128 <= |table|
    ensures ParseRecord(table[from..to]) == Ok(r) <==> RecordAtSlot(file, h, i, r)
  {
    var (end, lo, hi) := (h.tableOff + |table|, h.tableOff + from, h.tableOff + to);
    assert lo == h.tableOff + 128 * i && hi == h.tableOff + 128 * i + 128;
    SliceOfSlice(file, h.tableOff, end, from, to, lo, hi);
    RecordOnDisk(table[from..to], r);
  }

  /** A table is what parses record by record. */
  lemma {:induction false} TableOf(b: seq<byte>, records: seq<Record>)
    requires 128 * |records| <= |b|
    requires forall i :: 0 <= i < |records| ==> ParseRecord(b[128 * i..128 * i + 128]) == Ok(records[i])
    ensures TableAt(b, records)
  {
    if records != [] {
      var n := |records| - 1;
      var (front, from, to) := (records[..n], 128 * n, 128 * n + 128);
      TableOf(b, front);
      assert records == front + [records[n]];
      TableNext(b, front, records[n], from, to);
    }
  }

  lemma TableOnDisk(file: seq<byte>, h: Header, sections: seq<Record>)
    requires IsHeader(file, h)
    ensures |sections| == h.count && TableAt(Slice(file, Table(h)), sections) <==> IsTable(file, h, sections)
  {
    var table := Slice(file, Table(h));
    if |sections| == h.count {
      forall i | 0 <= i < |sections|
        ensures ParseRecord(table[128 * i..128 * i + 128]) == Ok(sections[i]) <==> RecordAtSlot(file, h, i, sections[i])
      {
        var (from, to) := (128 * i, 128 * i + 128);
        SlotOnDisk(file, h, table, i, from, to, sections[i]);
      }
      if TableAt(table, sections) {
        forall i | 0 <= i < |sections|
          ensures RecordAtSlot(file, h, i, sections[i])
        {
          RecordInTable(table, sections, i);
        }
      }
      if IsTable(file, h, sections) {
        TableOf(table, sections);
      }
    }
  }

  // ----- the footer -----

  /** What the root commits to is the label, the header's 64 bytes and the table's. */
  ghost predicate IsFooter(c: Compression, file: seq<byte>, h: Header, f: Footer) {
    && 64 <= h.footerOff && h.footerOff + 56 <= |file| && h.tableOff + 128 * h.count <= h.footerOff
    && 1 <= h.suite <= 3 && f.root == Blake3(c, Ascii("ctf/root/v1") + file[..64] + file[h.tableOff..h.tableOff + 128 * h.count])
    && IsFooterBytes(file[h.footerOff..], h.suite, f, |file|)
  }

  /** The root, two lengths, the slots, the length of the whole file, and the magic again. */
  ghost predicate IsFooterBytes(b: seq<byte>, suite: u16, f: Footer, fileLen: nat)
    requires |b| >= 56
  {
    var (cls, pq) := (|f.sigClassical|, |f.sigPq|);
    && |b| == 56 + cls + pq && b[0..32] == f.root && U32At(b, 32) == cls && U32At(b, 36) == pq
    && b[40..40 + cls] == f.sigClassical && b[40 + cls..40 + cls + pq] == f.sigPq
    && U64At(b, 40 + cls + pq) == f.totalLen == fileLen && IsMagic(b[48 + cls + pq..])
    && ((cls == 0 && pq == 0) || (cls == 64 && pq == if suite == 3 then 11165 else 3309))
  }

  lemma FooterOnDisk(c: Compression, file: seq<byte>, h: Header, f: Footer)
    requires IsHeader(file, h)
    ensures FooterStep(c, file, h, f) <==> IsFooter(c, file, h, f)
  {
    if h.footerOff + 56 <= |file| {
      SlotsOnDisk(file[h.footerOff..], h.suite, f, |file|);
      RootOnDisk(c, file, h);
    }
  }

  lemma RootOnDisk(c: Compression, file: seq<byte>, h: Header)
    requires |file| >= 64 && h.tableOff + 128 * h.count <= |file|
    ensures CommitmentRoot(c, file[..64], Slice(file, Table(h)))
      == Blake3(c, Ascii("ctf/root/v1") + file[..64] + file[h.tableOff..h.tableOff + 128 * h.count])
  {
    assert Table(h) == Region(h.tableOff, h.tableOff + 128 * h.count);
  }

  lemma SlotsOnDisk(b: seq<byte>, suite: u16, f: Footer, fileLen: nat)
    requires |b| >= 56
    ensures KnownSuite(suite) ==>
      (SlotRules(f) && f.totalLen == fileLen && b == FooterBytes(f) && SlotLengths(suite, f) <==> IsFooterBytes(b, suite, f, fileLen))
  {
    var (cls, pq) := (|f.sigClassical|, |f.sigPq|);
    if SlotRules(f) && |b| == 56 + cls + pq {
      FooterBytesOnDisk(b, f, cls, pq, 40 + cls + pq);
    }
  }

  lemma FooterBytesOnDisk(b: seq<byte>, f: Footer, cls: nat, pq: nat, trailer: nat)
    requires SlotRules(f) && cls == |f.sigClassical| && pq == |f.sigPq| && trailer == 40 + cls + pq && |b| == trailer + 16
    ensures b == FooterBytes(f) <==>
      && b[0..32] == f.root && U32At(b, 32) == cls && U32At(b, 36) == pq && b[40..40 + cls] == f.sigClassical
      && b[40 + cls..trailer] == f.sigPq && U64At(b, trailer) == f.totalLen && IsMagic(b[trailer + 8..])
  {
    var pqOff := 40 + cls;
    FooterFields(b, f, pqOff, trailer);
    FooterRead(b, f, cls, pq, trailer);
    assert b[0..|b|] == b && b[trailer + 8..trailer + 16] == b[trailer + 8..];
    assert IsMagic(b[trailer + 8..]) <==> b[trailer + 8..] == MAGIC;
  }

  // ----- who owns which bytes -----

  /** Whatever may own bytes between the header and the footer. */
  datatype Owner = TheTable | PayloadOf(i: nat) | IndexOf(i: nat)

  /** A record's payload or index lies here. An index has 32 bytes for every chunk begun. */
  predicate PayloadHere(r: Record, o: int) {
    r.flags / 4 % 2 == 0 && r.offset <= o < r.offset + r.lenStored
  }

  predicate IndexHere(r: Record, o: int) {
    r.indexOff != 0 && r.chunkSize != 0 && r.indexOff <= o < r.indexOff + 32 * ((r.lenPlain + r.chunkSize - 1) / r.chunkSize)
  }

  predicate Owns(h: Header, sections: seq<Record>, x: Owner, o: int) {
    match x
    case TheTable => h.tableOff <= o < h.tableOff + 128 * h.count
    case PayloadOf(i) => i < |sections| && PayloadHere(sections[i], o)
    case IndexOf(i) => i < |sections| && IndexHere(sections[i], o)
  }

  /** One manifest, distinct names, everything before the footer, one owner a byte, zeros where there is none. */
  ghost predicate IsLaidOut(file: seq<byte>, h: Header, sections: seq<Record>) {
    && (exists i :: 0 <= i < |sections| && sections[i].kind == 1 && forall j :: 0 <= j < |sections| && sections[j].kind == 1 ==> j == i)
    && (forall i, j :: 0 <= i < j < |sections| ==> sections[i].nameId != sections[j].nameId)
    && (forall i :: 0 <= i < |sections| ==> EndsBefore(sections[i], h.footerOff))
    && (forall o, x, y :: Owns(h, sections, x, o) && Owns(h, sections, y, o) ==> x == y)
    && forall o :: 64 <= o < h.footerOff && o < |file| && (forall x :: !Owns(h, sections, x, o)) ==> file[o] == 0
  }

  predicate EndsBefore(r: Record, n: nat) {
    && (r.flags / 4 % 2 == 0 ==> r.offset + r.lenStored <= n)
    && (r.indexOff != 0 && r.chunkSize != 0 ==> r.indexOff + 32 * ((r.lenPlain + r.chunkSize - 1) / r.chunkSize) <= n)
  }

  ghost predicate Claimed(gs: seq<Region>, o: int) {
    exists g :: g in gs && Within(o, g)
  }

  lemma ClaimedBoth(a: seq<Region>, b: seq<Region>, o: int)
    ensures Claimed(a + b, o) <==> Claimed(a, o) || Claimed(b, o)
  {
    if Claimed(a, o) {
      var g :| g in a && Within(o, g);
      assert g in a + b;
    }
    if Claimed(b, o) {
      var g :| g in b && Within(o, g);
      assert g in a + b;
    }
  }

  /** Two lists have one owner an offset if each has and they claim nothing together. */
  lemma OneOwnerBoth(a: seq<Region>, b: seq<Region>)
    ensures OneOwner(a + b) <==> OneOwner(a) && OneOwner(b) && forall o :: !(Claimed(a, o) && Claimed(b, o))
  {
    var s := a + b;
    if OneOwner(s) {
      forall i, j, o | 0 <= i < j < |b| && Within(o, b[i])
        ensures !Within(o, b[j])
      {
        assert s[|a| + i] == b[i] && s[|a| + j] == b[j];
      }
      forall i, j, o | 0 <= i < j < |a| && Within(o, a[i])
        ensures !Within(o, a[j])
      {
        assert s[i] == a[i] && s[j] == a[j];
      }
      forall o | Claimed(a, o)
        ensures !Claimed(b, o)
      {
        NotBoth(a, b, o);
      }
    }
    if OneOwner(a) && OneOwner(b) && forall o :: !(Claimed(a, o) && Claimed(b, o)) {
      forall i, j, o | 0 <= i < j < |s| && Within(o, s[i])
        ensures !Within(o, s[j])
      {
        if i < |a| <= j {
          assert s[i] in a && s[j] in b;
          assert Claimed(a, o);
        } else if j < |a| {
          assert s[i] == a[i] && s[j] == a[j];
        } else {
          assert s[i] == b[i - |a|] && s[j] == b[j - |a|];
        }
      }
    }
  }

  lemma NotBoth(a: seq<Region>, b: seq<Region>, o: int)
    requires OneOwner(a + b) && Claimed(a, o)
    ensures !Claimed(b, o)
  {
    var g :| g in a && Within(o, g);
    var i :| 0 <= i < |a| && a[i] == g;
    forall k | k in b
      ensures !Within(o, k)
    {
      var j :| 0 <= j < |b| && b[j] == k;
      assert (a + b)[i] == g && (a + b)[|a| + j] == k;
    }
  }

  predicate RecordHere(r: Record, o: int) {
    PayloadHere(r, o) || IndexHere(r, o)
  }

  lemma OneClaim(g: Region, o: int)
    ensures Claimed([g], o) <==> Within(o, g)
    ensures OneOwner([g]) && OneOwner([]) && !Claimed([], o)
  {
    if Within(o, g) {
      assert g in [g];
    }
  }

  /** What one record claims. */
  lemma RecordClaims(r: Record, o: int)
    ensures Claimed(PayloadClaim(r) + IndexClaim(r), o) <==> RecordHere(r, o)
    ensures Claimed(PayloadClaim(r), o) <==> PayloadHere(r, o)
    ensures Claimed(IndexClaim(r), o) <==> IndexHere(r, o)
    ensures OneOwner(PayloadClaim(r)) && OneOwner(IndexClaim(r))
  {
    ClaimedBoth(PayloadClaim(r), IndexClaim(r), o);
    OneClaim(StoredRange(r), o);
    if HasIndex(r) {
      OneClaim(IndexRange(r), o);
    }
  }

  /** Some record of the list lies here. */
  ghost predicate AnyHere(records: seq<Record>, o: int) {
    exists i :: 0 <= i < |records| && RecordHere(records[i], o)
  }

  lemma AnyNext(front: seq<Record>, r: Record, o: int)
    ensures AnyHere(front + [r], o) <==> AnyHere(front, o) || RecordHere(r, o)
  {
    var all := front + [r];
    assert all[|front|] == r;
    if i :| 0 <= i < |front| && RecordHere(front[i], o) {
      assert RecordHere(all[i], o);
    }
    if i :| 0 <= i < |all| && RecordHere(all[i], o) {
      assert i < |front| ==> RecordHere(front[i], o);
    }
  }

  lemma {:induction false} ClaimsHere(records: seq<Record>, o: int)
    ensures Claimed(Claims(records), o) <==> AnyHere(records, o)
  {
    if records != [] {
      var n := |records| - 1;
      var (front, r) := (records[..n], records[n]);
      assert records == front + [r];
      ClaimsHere(front, o);
      RecordClaims(r, o);
      ClaimedBoth(Claims(front), PayloadClaim(r) + IndexClaim(r), o);
      AnyNext(front, r, o);
    }
  }

  /** No record overlaps itself or one before it. */
  ghost predicate RecordsApart(records: seq<Record>) {
    && (forall i, o :: 0 <= i < |records| ==> !(PayloadHere(records[i], o) && IndexHere(records[i], o)))
    && forall i, j, o :: 0 <= i < j < |records| ==> !(RecordHere(records[i], o) && RecordHere(records[j], o))
  }

  lemma {:induction false} ClaimsApart(records: seq<Record>)
    ensures OneOwner(Claims(records)) <==> RecordsApart(records)
  {
    if records != [] {
      var n := |records| - 1;
      var (front, r) := (records[..n], records[n]);
      ClaimsApart(front);
      assert records == front + [r];
      ClaimsNext(front, r, records);
    }
  }

  lemma ClaimsNext(front: seq<Record>, r: Record, all: seq<Record>)
    requires (OneOwner(Claims(front)) <==> RecordsApart(front)) && all == front + [r]
    ensures OneOwner(Claims(all)) <==> RecordsApart(all)
  {
    assert all[..|all| - 1] == front;
    var (gs, claim) := (Claims(front), PayloadClaim(r) + IndexClaim(r));
    OneOwnerBoth(gs, claim);
    OneOwnerBoth(PayloadClaim(r), IndexClaim(r));
    forall o
      ensures Claimed(gs, o) <==> AnyHere(front, o)
      ensures Claimed(claim, o) <==> RecordHere(r, o)
      ensures Claimed(PayloadClaim(r), o) && Claimed(IndexClaim(r), o) <==> PayloadHere(r, o) && IndexHere(r, o)
    {
      ClaimsHere(front, o);
      RecordClaims(r, o);
    }
    RecordClaims(r, 0);
    ApartNext(front, r, gs, claim);
  }

  lemma ApartNext(front: seq<Record>, r: Record, gs: seq<Region>, claim: seq<Region>)
    requires forall o :: Claimed(gs, o) <==> AnyHere(front, o)
    requires forall o :: Claimed(claim, o) <==> RecordHere(r, o)
    ensures RecordsApart(front + [r]) <==>
      && RecordsApart(front) && (forall o :: !(PayloadHere(r, o) && IndexHere(r, o)))
      && forall o :: !(Claimed(gs, o) && Claimed(claim, o))
  {
    var all := front + [r];
    assert forall i :: 0 <= i < |front| ==> all[i] == front[i];
    assert all[|front|] == r;
    if RecordsApart(all) {
      forall o | Claimed(gs, o)
        ensures !Claimed(claim, o)
      {
        var i :| 0 <= i < |front| && RecordHere(front[i], o);
        assert RecordHere(all[i], o);
      }
    }
  }

  // ----- the layout -----

  lemma RegionsHere(h: Header, sections: seq<Record>, o: int)
    ensures Claimed(Regions(sections, h), o) <==> exists x :: Owns(h, sections, x, o)
  {
    ClaimsHere(sections, o);
    OneClaim(Table(h), o);
    ClaimedBoth(Claims(sections), [Table(h)], o);
    if i :| 0 <= i < |sections| && RecordHere(sections[i], o) {
      assert Owns(h, sections, PayloadOf(i), o) || Owns(h, sections, IndexOf(i), o);
    }
    if Within(o, Table(h)) {
      assert Owns(h, sections, TheTable, o);
    }
    if x :| Owns(h, sections, x, o) {
      assert x.PayloadOf? || x.IndexOf? ==> RecordHere(sections[x.i], o);
    }
  }

  /** Each byte has one owner at most. */
  ghost predicate OneOwnerEach(h: Header, sections: seq<Record>) {
    forall o, x, y :: Owns(h, sections, x, o) && Owns(h, sections, y, o) ==> x == y
  }

  lemma ApartIsOwned(h: Header, sections: seq<Record>)
    ensures OneOwnerEach(h, sections) <==>
      RecordsApart(sections) && forall i, o :: 0 <= i < |sections| && RecordHere(sections[i], o) ==> !Within(o, Table(h))
  {
    if OneOwnerEach(h, sections) {
      OwnedIsApart(h, sections);
    }
    if RecordsApart(sections) && forall i, o :: 0 <= i < |sections| && RecordHere(sections[i], o) ==> !Within(o, Table(h)) {
      forall o, x, y | Owns(h, sections, x, o) && Owns(h, sections, y, o)
        ensures x == y
      {
        SameOwner(h, sections, x, y, o);
      }
    }
  }

  lemma SameOwner(h: Header, sections: seq<Record>, x: Owner, y: Owner, o: int)
    requires RecordsApart(sections) && forall i, o :: 0 <= i < |sections| && RecordHere(sections[i], o) ==> !Within(o, Table(h))
    requires Owns(h, sections, x, o) && Owns(h, sections, y, o)
    ensures x == y
  {
    assert Owns(h, sections, TheTable, o) == Within(o, Table(h));
    if !x.TheTable? {
      RecordOwner(h, sections, x, o);
    }
    if !y.TheTable? {
      RecordOwner(h, sections, y, o);
    }
    if !x.TheTable? && !y.TheTable? {
      assert x.i == y.i && !(PayloadHere(sections[x.i], o) && IndexHere(sections[x.i], o));
    }
  }

  lemma RecordOwner(h: Header, sections: seq<Record>, x: Owner, o: int)
    requires !x.TheTable? && Owns(h, sections, x, o)
    requires forall i, o :: 0 <= i < |sections| && RecordHere(sections[i], o) ==> !Within(o, Table(h))
    ensures x.i < |sections| && RecordHere(sections[x.i], o) && !Within(o, Table(h))
  {
  }

  lemma OwnedIsApart(h: Header, sections: seq<Record>)
    requires OneOwnerEach(h, sections)
    ensures RecordsApart(sections)
    ensures forall i, o :: 0 <= i < |sections| && RecordHere(sections[i], o) ==> !Within(o, Table(h))
  {
    forall i, o | 0 <= i < |sections| && RecordHere(sections[i], o)
      ensures !Within(o, Table(h))
    {
      OwnersOf(h, sections, i, o);
      assert Owns(h, sections, TheTable, o) == Within(o, Table(h));
    }
    forall i, o | 0 <= i < |sections|
      ensures !(PayloadHere(sections[i], o) && IndexHere(sections[i], o))
    {
      OwnersOf(h, sections, i, o);
    }
    forall i, j, o | 0 <= i < j < |sections|
      ensures !(RecordHere(sections[i], o) && RecordHere(sections[j], o))
    {
      OwnersOf(h, sections, i, o);
      OwnersOf(h, sections, j, o);
    }
  }

  lemma OwnersOf(h: Header, sections: seq<Record>, i: nat, o: int)
    requires i < |sections|
    ensures Owns(h, sections, PayloadOf(i), o) == PayloadHere(sections[i], o)
    ensures Owns(h, sections, IndexOf(i), o) == IndexHere(sections[i], o)
  {
  }

  lemma OwnersOnDisk(h: Header, sections: seq<Record>)
    ensures OneOwner(Regions(sections, h)) <==> OneOwnerEach(h, sections)
  {
    ClaimsApart(sections);
    OneOwnerBoth(Claims(sections), [Table(h)]);
    OneClaim(Table(h), 0);
    forall o
      ensures Claimed([Table(h)], o) <==> Within(o, Table(h))
      ensures Claimed(Claims(sections), o) <==> AnyHere(sections, o)
    {
      OneClaim(Table(h), o);
      ClaimsHere(sections, o);
    }
    ApartIsOwned(h, sections);
  }

  lemma GapsOnDisk(file: seq<byte>, h: Header, sections: seq<Record>)
    requires h.footerOff <= |file|
    ensures GapsZero(file, Regions(sections, h), h.footerOff) <==>
      forall o :: 64 <= o < h.footerOff && o < |file| && (forall x :: !Owns(h, sections, x, o)) ==> file[o] == 0
  {
    forall o
      ensures Unclaimed(Regions(sections, h), o) <==> forall x :: !Owns(h, sections, x, o)
    {
      RegionsHere(h, sections, o);
      assert Unclaimed(Regions(sections, h), o) <==> !Claimed(Regions(sections, h), o);
    }
  }

  lemma EndsOnDisk(sections: seq<Record>, n: nat)
    ensures (forall r :: r in sections ==> EndsBy(r, n)) <==> forall i :: 0 <= i < |sections| ==> EndsBefore(sections[i], n)
  {
    forall i | 0 <= i < |sections|
      ensures sections[i] in sections && (EndsBy(sections[i], n) <==> EndsBefore(sections[i], n))
    {
    }
  }

  lemma LayoutOnDisk(file: seq<byte>, h: Header, sections: seq<Record>)
    requires IsHeader(file, h)
    ensures LayoutOk(sections, h, file) <==> IsLaidOut(file, h, sections)
  {
    EndsOnDisk(sections, h.footerOff);
    OwnersOnDisk(h, sections);
    GapsOnDisk(file, h, sections);
  }

  // ----- the file -----

  /** The manifest is the payload of the one section of kind 1, and hashes to that section's root. */
  ghost predicate HasManifest(c: Compression, ok: ManifestCheck, file: seq<byte>, sections: seq<Record>, m: seq<byte>) {
    && ok(m, sections)
    && exists i :: 0 <= i < |sections| && sections[i].kind == 1 && sections[i].offset + sections[i].lenStored <= |file|
                   && m == file[sections[i].offset..sections[i].offset + sections[i].lenStored] && Blake3(c, m) == sections[i].root
  }

  /** Everything a bundle is. */
  ghost predicate OnDisk(c: Compression, ok: ManifestCheck, file: seq<byte>, b: Parsed) {
    && IsHeader(file, b.header) && IsTable(file, b.header, b.sections) && IsLaidOut(file, b.header, b.sections)
    && IsFooter(c, file, b.header, b.footer) && HasManifest(c, ok, file, b.sections, b.manifest)
  }

  lemma ManifestOnDisk(c: Compression, ok: ManifestCheck, file: seq<byte>, sections: seq<Record>, m: seq<byte>, n: nat)
    requires n <= |file| && forall i :: 0 <= i < |sections| ==> EndsBefore(sections[i], n) && LegalRecord(sections[i])
    ensures ManifestStep(c, ok, file, sections, m) <==> HasManifest(c, ok, file, sections, m)
  {
    forall i | IsManifest(sections, i)
      ensures sections[i].offset + sections[i].lenStored <= |file|
      ensures Stored(file, sections[i]) == file[sections[i].offset..sections[i].offset + sections[i].lenStored]
    {
      assert EndsBefore(sections[i], n) && LegalRecord(sections[i]);
    }
    if HasManifest(c, ok, file, sections, m) {
      var i :| 0 <= i < |sections| && sections[i].kind == 1 && sections[i].offset + sections[i].lenStored <= |file|
               && m == file[sections[i].offset..sections[i].offset + sections[i].lenStored] && Blake3(c, m) == sections[i].root;
      assert IsManifest(sections, i);
    }
  }

  /** A file is a bundle exactly when it is this on disk. */
  lemma BundleOnDisk(c: Compression, ok: ManifestCheck, file: seq<byte>, b: Parsed)
    ensures IsBundle(c, ok, file, b) <==> OnDisk(c, ok, file, b)
  {
    HeaderOnDisk(file, b.header);
    if IsHeader(file, b.header) {
      TableOnDisk(file, b.header, b.sections);
      LayoutOnDisk(file, b.header, b.sections);
      FooterOnDisk(c, file, b.header, b.footer);
      if IsTable(file, b.header, b.sections) && IsLaidOut(file, b.header, b.sections) {
        ManifestOnDisk(c, ok, file, b.sections, b.manifest, b.header.footerOff);
      }
    }
  }
}
