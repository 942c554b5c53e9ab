/**
 Signing a bundle (`sign_bundle`): the footer grows two signatures, nothing before it
 changes, and the result parses to the same header, table, root and manifest.
 */
module Signing {
  import opened Bytes
  import opened Blake3Tree
  import opened Container
  import opened FooterFormat
  import opened Layout
  import opened Bundle
  import opened Signatures

  const CLASSICAL_LEN: nat := 64

  function PqLen(suite: u16): nat {
    if suite == 3 then 11165 else 3309
  }

  /** The length of the file once it is signed. */
  function SignedLen(h: Header): nat {
    h.footerOff + 56 + CLASSICAL_LEN + PqLen(h.suite)
  }

  predicate Room(h: Header) {
    SignedLen(h) < U64_RANGE
  }

  /** The widths of the suite's signature role. */
  predicate SuiteWidths(h: Header, s: Signature) {
    |s.classical| == CLASSICAL_LEN && |s.pq| == PqLen(h.suite)
  }

  /** The footer a signature makes. */
  function SignedFooter(h: Header, root: Digest, s: Signature): Footer
    requires Room(h)
  {
    Footer(root, s.classical, s.pq, SignedLen(h))
  }

  /** The transcript is fixed by the lengths before there is anything to sign. */
  function Transcript(h: Header, root: Digest): seq<byte>
    requires Room(h)
  {
    SigInput(h.suite, CLASSICAL_LEN, PqLen(h.suite), root, SignedLen(h))
  }

  // ----- another footer on the same front -----

  lemma SameFrontSlice(file: seq<byte>, out: seq<byte>, n: nat, g: Region)
    requires n <= |file| && n <= |out| && file[..n] == out[..n] && g.end <= n
    ensures Slice(file, g) == Slice(out, g)
  {
    if g.start <= g.end {
      assert file[g.start..g.end] == file[..n][g.start..g.end] && out[g.start..g.end] == out[..n][g.start..g.end];
    }
  }

  lemma SameFrontLayout(records: seq<Record>, h: Header, file: seq<byte>, out: seq<byte>)
    requires LayoutOk(records, h, file) && h.footerOff <= |out| && file[..h.footerOff] == out[..h.footerOff]
    requires TableEnd(h) <= h.footerOff
    ensures LayoutOk(records, h, out)
  {
    forall o | HEADER_LEN <= o < h.footerOff && Unclaimed(Regions(records, h), o)
      ensures out[o] == 0
    {
      assert file[o] == file[..h.footerOff][o] && out[o] == out[..h.footerOff][o];
    }
  }

  lemma SameFrontManifest(c: Compression, ok: ManifestCheck, sections: seq<Record>, m: seq<byte>,
                          file: seq<byte>, out: seq<byte>, n: nat)
    requires ManifestStep(c, ok, file, sections, m) && n <= |file| && n <= |out| && file[..n] == out[..n]
    requires forall r :: r in sections ==> RecordRules(r) && EndsBy(r, n)
    ensures ManifestStep(c, ok, out, sections, m)
  {
    var i :| IsManifest(sections, i) && m == Stored(file, sections[i]) && Blake3(c, m) == sections[i].root;
    assert sections[i] in sections;
    SameFrontSlice(file, out, n, StoredRange(sections[i]));
  }

  /** A file with the same front and a footer of its own length is the same bundle, but for the footer. */
  lemma OtherFooter(c: Compression, ok: ManifestCheck, file: seq<byte>, b: Parsed, out: seq<byte>, f: Footer)
    requires IsBundle(c, ok, file, b)
    requires SlotRules(f) && SlotLengths(b.header.suite, f) && f.root == b.footer.root
    requires out == file[..b.header.footerOff] + FooterBytes(f) && f.totalLen == |out|
    ensures IsBundle(c, ok, out, b.(footer := f))
  {
    var (h, n) := (b.header, b.header.footerOff);
    assert out[..n] == file[..n] && out[n..] == FooterBytes(f);
    assert out[..64] == file[..64];
    SameFrontSlice(file, out, n, Table(h));
    SameFrontLayout(b.sections, h, file, out);
    assert HeaderStep(out, h) && TableStep(out, h, b.sections);
    assert FooterStep(c, out, h, f);
    SameFrontManifest(c, ok, b.sections, b.manifest, file, out, n);
  }

  // ----- sign_bundle -----

  /** What signing has to start from. */
  ghost predicate Signable(c: Compression, ok: ManifestCheck, file: seq<byte>, b: Parsed) {
    IsBundle(c, ok, file, b) && MayRewrite(b.header) && Unsigned(b.footer) && Room(b.header)
  }

  /** A signature of the suite's widths that its public key accepts. */
  predicate Accepted(h: Header, root: Digest, verify: Verifier, s: Signature)
    requires Room(h)
  {
    SuiteWidths(h, s) && verify(Transcript(h, root), s)
  }

  /** `out` is the bundle `b` of `file` with this signature: the same front, a longer footer. */
  ghost predicate IsSigned(c: Compression, ok: ManifestCheck, file: seq<byte>, b: Parsed, s: Signature, out: seq<byte>) {
    && Room(b.header) && b.header.footerOff <= |file| && b.header.footerOff <= |out|
    && out[..b.header.footerOff] == file[..b.header.footerOff]
    && IsBundle(c, ok, out, b.(footer := SignedFooter(b.header, b.footer.root, s)))
  }

  /** The file of a signature of the suite's widths is the same bundle with a longer footer. */
  lemma SignedIsBundle(c: Compression, ok: ManifestCheck, file: seq<byte>, b: Parsed, s: Signature, f: Footer, out: seq<byte>)
    requires Signable(c, ok, file, b) && SuiteWidths(b.header, s) && f == SignedFooter(b.header, b.footer.root, s)
    requires SlotRules(f) && out == file[..b.header.footerOff] + FooterBytes(f)
    ensures IsSigned(c, ok, file, b, s, out)
  {
    OtherFooter(c, ok, file, b, out, f);
    assert out[..b.header.footerOff] == file[..b.header.footerOff];
  }

  /** Only a signature of the suite's widths reads back, and it reads back as it was written. */
  lemma ReadBackSigned(c: Compression, ok: ManifestCheck, file: seq<byte>, p: Parsed, f: Footer, out: seq<byte>, signed: Parsed)
    requires Signable(c, ok, file, p) && SlotRules(f) && IsBundle(c, ok, out, signed)
    requires out == file[..p.header.footerOff] + FooterBytes(f) && f.root == p.footer.root
    requires f.totalLen == SignedLen(p.header)
    ensures signed.header == p.header && signed.footer == f
    ensures SuiteWidths(p.header, Signature(f.sigClassical, f.sigPq))
  {
    var n := p.header.footerOff;
    assert out[..64] == file[..64] && out[n..] == FooterBytes(f);
    SameHeader(file, p.header, out, signed.header);
    SameFooter(c, out, p.header, f, signed.footer);
  }

  lemma SameFooter(c: Compression, out: seq<byte>, h: Header, f: Footer, g: Footer)
    requires FooterStep(c, out, h, g) && SlotRules(f) && out[h.footerOff..] == FooterBytes(f)
    requires f.totalLen == SignedLen(h)
    ensures g == f && SuiteWidths(h, Signature(f.sigClassical, f.sigPq))
  {
    FooterBytesInjective(g, f);
  }

  lemma SameHeader(file: seq<byte>, h: Header, out: seq<byte>, h': Header)
    requires HeaderStep(file, h) && HeaderStep(out, h') && file[..64] == out[..64]
    ensures h == h'
  {
    HeaderIff(file, h);
    HeaderIff(file, h');
  }

  /** What was signed: the suite, the lengths of the two signatures, the root, and the length of the signed file. */
  lemma SignedSays(c: Compression, ok: ManifestCheck, file: seq<byte>, b: Parsed, s: Signature, out: seq<byte>)
    requires IsSigned(c, ok, file, b, s, out) && SuiteWidths(b.header, s)
    ensures var v := Transcript(b.header, b.footer.root);
      && |v| == 67 && v[..17] == Ascii("ctf/footer-sig/v2") && U16At(v, 17) == b.header.suite
      && U32At(v, 19) == |s.classical| == 64 && U32At(v, 23) == |s.pq| == (if b.header.suite == 3 then 11165 else 3309)
      && v[27..59] == b.footer.root && U64At(v, 59) == |out|
  {
    SigInputAt(b.header.suite, 64, |s.pq|, b.footer.root, |out|);
  }

  /** And where the signatures are: behind the root and their two lengths. */
  lemma SignedHolds(c: Compression, ok: ManifestCheck, file: seq<byte>, b: Parsed, s: Signature, out: seq<byte>)
    requires IsSigned(c, ok, file, b, s, out) && SuiteWidths(b.header, s)
    ensures var n := b.header.footerOff;
      && |out| == n + 120 + |s.pq| && out[n..][0..32] == b.footer.root
      && out[n..][40..104] == s.classical && out[n..][104..104 + |s.pq|] == s.pq
  {
    var f := SignedFooter(b.header, b.footer.root, s);
    FooterReads(f, out[b.header.footerOff..], 64, |s.pq|);
  }

  /** Signing an accepted transcript: write the footer, read the file back, verify. */
  method SignWith(c: Compression, ok: ManifestCheck, file: seq<byte>, p: Parsed, s: Signature, verify: Verifier)
    returns (r: Result<seq<byte>>)
    requires Signable(c, ok, file, p)
    ensures r.Ok? <==> Accepted(p.header, p.footer.root, verify, s)
    ensures r.Ok? ==> IsSigned(c, ok, file, p, s, r.value)
  {
    var footer := SignedFooter(p.header, p.footer.root, s);
    var bytes := FooterToBytes(footer);
    if bytes.Err? {
      return Err;
    }
    var out := file[..p.header.footerOff] + bytes.value;
    var signed := ParseBundle(c, ok, out);
    if SuiteWidths(p.header, s) {
      SignedIsBundle(c, ok, file, p, s, footer, out);
    }
    if signed.Err? {
      return Err;
    }
    ReadBackSigned(c, ok, file, p, footer, out, signed.value);
    var (h, f) := (signed.value.header, signed.value.footer);
    if !verify(SigInput(h.suite, |f.sigClassical|, |f.sigPq|, f.root, f.totalLen), Signature(f.sigClassical, f.sigPq)) {
      return Err;
    }
    return Ok(out);
  }

  lemma OneSignable(c: Compression, ok: ManifestCheck, file: seq<byte>, p: Parsed)
    requires IsBundle(c, ok, file, p)
    ensures forall x :: Signable(c, ok, file, x) ==> x == p
  {
    forall x | Signable(c, ok, file, x)
      ensures x == p
    {
      BundleUnique(c, ok, file, x, p);
    }
  }

  /** `b` is a bundle to sign, and the signer's answer to its transcript verifies. */
  ghost predicate Signs(c: Compression, ok: ManifestCheck, file: seq<byte>, sign: Signer, verify: Verifier, b: Parsed) {
    && Signable(c, ok, file, b)
    && sign(Transcript(b.header, b.footer.root)).Some?
    && Accepted(b.header, b.footer.root, verify, sign(Transcript(b.header, b.footer.root)).value)
  }

  /**
   Spelled out: an unsigned bundle with no feature but the base one, room for the signatures, and
   a signature of the suite's widths that verifies over the transcript.
   */
  ghost predicate SignsAs(c: Compression, ok: ManifestCheck, file: seq<byte>, sign: Signer, verify: Verifier, b: Parsed,
                          pq: nat, len: nat) {
    && IsBundle(c, ok, file, b) && b.header.roCompat == 1 && b.footer.sigClassical == [] && b.footer.sigPq == []
    && pq == (if b.header.suite == 3 then 11165 else 3309) && len == b.header.footerOff + 120 + pq && len < 0x1_0000_0000_0000_0000
    && var t := SigInput(b.header.suite, 64, pq, b.footer.root, len);
       && sign(t).Some? && |sign(t).value.classical| == 64 && |sign(t).value.pq| == pq && verify(t, sign(t).value)
  }

  lemma SignsIff(c: Compression, ok: ManifestCheck, file: seq<byte>, sign: Signer, verify: Verifier, b: Parsed)
    ensures Signs(c, ok, file, sign, verify, b) <==> exists pq, len :: SignsAs(c, ok, file, sign, verify, b, pq, len)
  {
    if Signs(c, ok, file, sign, verify, b) {
      SignsSpelled(c, ok, file, sign, verify, b);
    }
    if pq, len :| SignsAs(c, ok, file, sign, verify, b, pq, len) {
      SpelledSigns(c, ok, file, sign, verify, b, pq, len);
    }
  }

  lemma SignsSpelled(c: Compression, ok: ManifestCheck, file: seq<byte>, sign: Signer, verify: Verifier, b: Parsed)
    requires Signs(c, ok, file, sign, verify, b)
    ensures SignsAs(c, ok, file, sign, verify, b, PqLen(b.header.suite), SignedLen(b.header))
  {
    OnlyBase(file, b.header);
  }

  lemma OnlyBase(file: seq<byte>, h: Header)
    requires HeaderStep(file, h)
    ensures MayRewrite(h) <==> h.roCompat == 1
  {
  }

  lemma SpelledSigns(c: Compression, ok: ManifestCheck, file: seq<byte>, sign: Signer, verify: Verifier, b: Parsed, pq: nat, len: nat)
    requires SignsAs(c, ok, file, sign, verify, b, pq, len)
    ensures Signs(c, ok, file, sign, verify, b)
  {
    OnlyBase(file, b.header);
    TranscriptIs(b.header, b.footer.root, pq, len);
  }

  lemma TranscriptIs(h: Header, root: Digest, pq: nat, len: nat)
    requires pq == (if h.suite == 3 then 11165 else 3309) && len == h.footerOff + 120 + pq && len < U64_RANGE
    ensures Room(h) && pq == PqLen(h.suite) && Transcript(h, root) == SigInput(h.suite, 64, pq, root, len)
  {
  }

  /**
   `sign_bundle`. It succeeds exactly on an unsigned bundle it may rewrite, with a signature
   of the suite's widths that verifies; and then it changes nothing before the footer.
   */
  method SignBundle(c: Compression, ok: ManifestCheck, file: seq<byte>, sign: Signer, verify: Verifier)
    returns (r: Result<seq<byte>>)
    ensures r.Ok? <==> exists b :: Signs(c, ok, file, sign, verify, b)
    ensures r.Ok? ==> forall b :: Signs(c, ok, file, sign, verify, b) ==>
      IsSigned(c, ok, file, b, sign(Transcript(b.header, b.footer.root)).value, r.value)
  {
    var parsed := ParseBundle(c, ok, file);
    if parsed.Err? {
      return Err;
    }
    var p := parsed.value;
    OneSignable(c, ok, file, p);
    if !MayRewrite(p.header) {
      return Err;
    }
    if !Unsigned(p.footer) {
      return Err;
    }
    if SignedLen(p.header) >= U64_RANGE {
      return Err;
    }
    var signature := sign(Transcript(p.header, p.footer.root));
    if signature.None? {
      return Err;
    }
    r := SignWith(c, ok, file, p, signature.value, verify);
    assert Signs(c, ok, file, sign, verify, p) == r.Ok?;
  }
}
