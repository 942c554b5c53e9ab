/** The footer: its bytes, the commitment root and the signature transcript (`footer.rs`). */
module FooterFormat {
  import opened Bytes
  import opened Fields
  import opened Blake3Tree
  import opened Container

  const MIN_FOOTER_LEN: nat := 56
  const MAX_SIG_LEN: nat := 65536

  datatype Footer = Footer(root: Digest, sigClassical: seq<byte>, sigPq: seq<byte>, totalLen: u64)

  predicate Unsigned(f: Footer) {
    f.sigClassical == []
  }

  /** F3 and F4: neither slot too long, and both or neither filled. */
  predicate SlotRules(f: Footer) {
    |f.sigClassical| <= MAX_SIG_LEN && |f.sigPq| <= MAX_SIG_LEN && (f.sigClassical == [] <==> f.sigPq == [])
  }

  /** The slots without the trailer. */
  function FooterFront(f: Footer): seq<byte>
    requires SlotRules(f)
  {
    f.root + LE(|f.sigClassical|, 4) + LE(|f.sigPq|, 4) + f.sigClassical + f.sigPq
  }

  function FooterBytes(f: Footer): (b: seq<byte>)
    requires SlotRules(f)
    ensures |b| == 56 + |f.sigClassical| + |f.sigPq|
  {
    FooterFront(f) + LE(f.totalLen, 8) + MAGIC
  }

  /** `Footer::parse`, on the whole file. */
  function ParseFooter(file: seq<byte>, footerOff: nat): Result<Footer> {
    if footerOff < HEADER_LEN then Err
    else if |file| < footerOff then Err
    else if |file| - footerOff < MIN_FOOTER_LEN then Err
    else
      var b := file[footerOff..];
      var (cls, pq) := (U32At(b, 32), U32At(b, 36));
      if cls > MAX_SIG_LEN || pq > MAX_SIG_LEN then Err
      else if (cls == 0) != (pq == 0) then Err
      else if |b| != MIN_FOOTER_LEN + cls + pq then Err
      else
        var trailer := |b| - 16;
        if b[trailer + 8..trailer + 16] != MAGIC then Err
        else if U64At(b, trailer) != |file| then Err
        else Ok(Footer(b[0..32], b[40..40 + cls], b[40 + cls..40 + cls + pq], U64At(b, trailer)))
  }

  /** `Footer::to_bytes`: refuses what the reader would. */
  method FooterToBytes(f: Footer) returns (r: Result<seq<byte>>)
    ensures r == if SlotRules(f) then Ok(FooterBytes(f)) else Err
  {
    if |f.sigClassical| > MAX_SIG_LEN || |f.sigPq| > MAX_SIG_LEN {
      return Err;
    }
    if (f.sigClassical == []) != (f.sigPq == []) {
      return Err;
    }
    var b: seq<byte> := [];
    b := b + f.root;
    assert b == f.root;
    b := b + LE(|f.sigClassical|, 4);
    b := b + LE(|f.sigPq|, 4);
    b := b + f.sigClassical;
    b := b + f.sigPq;
    b := b + LE(f.totalLen, 8);
    b := b + MAGIC;
    return Ok(b);
  }

  /** `b` has every field of `f` in its place; the slot lengths locate the rest. */
  ghost predicate FooterAt(b: seq<byte>, f: Footer)
    requires SlotRules(f)
  {
    var (cls, pq) := (|f.sigClassical|, |f.sigPq|);
    && At(b, 0, f.root) && At(b, 32, LE(cls, 4)) && At(b, 36, LE(pq, 4))
    && At(b, 40, f.sigClassical) && At(b, 40 + cls, f.sigPq)
    && At(b, 40 + cls + pq, LE(f.totalLen, 8)) && At(b, 48 + cls + pq, MAGIC)
  }

  lemma FooterFields(b: seq<byte>, f: Footer, pqOff: nat, trailer: nat)
    requires SlotRules(f) && pqOff == 40 + |f.sigClassical| && trailer == pqOff + |f.sigPq|
    ensures FooterAt(b, f) <==> At(b, 0, FooterBytes(f))
  {
    var p1: seq<byte> := f.root;
    var p2 := p1 + LE(|f.sigClassical|, 4);
    var p3 := p2 + LE(|f.sigPq|, 4);
    var p4 := p3 + f.sigClassical;
    var p5 := p4 + f.sigPq;
    var p6 := p5 + LE(f.totalLen, 8);
    AtCat(b, p1, 32, LE(|f.sigClassical|, 4));
    AtCat(b, p2, 36, LE(|f.sigPq|, 4));
    AtCat(b, p3, 40, f.sigClassical);
    AtCat(b, p4, pqOff, f.sigPq);
    AtCat(b, p5, trailer, LE(f.totalLen, 8));
    AtCat(b, p6, trailer + 8, MAGIC);
  }

  /** Reading the footer back, given where its slots are. */
  lemma FooterRead(b: seq<byte>, f: Footer, cls: nat, pq: nat, trailer: nat)
    requires SlotRules(f) && cls == |f.sigClassical| && pq == |f.sigPq| && trailer == 40 + cls + pq
    requires |b| == trailer + 16
    ensures FooterAt(b, f) <==>
      && U32At(b, 32) == cls && U32At(b, 36) == pq && b[trailer + 8..trailer + 16] == MAGIC
      && f == Footer(b[0..32], b[40..40 + cls], b[40 + cls..trailer], U64At(b, trailer))
  {
    U32Field(b, 32, cls);
    U32Field(b, 36, pq);
    var pqOff := 40 + cls;
    BytesField(b, 0, 32, f.root);
    BytesField(b, 40, pqOff, f.sigClassical);
    BytesField(b, pqOff, trailer, f.sigPq);
    TrailerRead(b, f, trailer);
  }

  /** The length and the magic at the end. */
  lemma TrailerRead(b: seq<byte>, f: Footer, trailer: nat)
    requires |b| == trailer + 16
    ensures At(b, trailer, LE(f.totalLen, 8)) <==> U64At(b, trailer) == f.totalLen
    ensures At(b, trailer + 8, MAGIC) <==> b[trailer + 8..trailer + 16] == MAGIC
  {
    U64Field(b, trailer, f.totalLen);
    var (magicOff, end) := (trailer + 8, trailer + 16);
    BytesField(b, magicOff, end, MAGIC);
  }

  lemma FooterReads(f: Footer, b: seq<byte>, cls: nat, pq: nat)
    requires SlotRules(f) && b == FooterBytes(f) && cls == |f.sigClassical| && pq == |f.sigPq|
    ensures U32At(b, 32) == cls && U32At(b, 36) == pq && |b| == 56 + cls + pq
    ensures f == Footer(b[0..32], b[40..40 + cls], b[40 + cls..40 + cls + pq], U64At(b, 40 + cls + pq))
    ensures b[48 + cls + pq..56 + cls + pq] == MAGIC
  {
    var trailer := 40 + cls + pq;
    assert b[0..|b|] == b;
    FooterFields(b, f, 40 + cls, trailer);
    FooterRead(b, f, cls, pq, trailer);
  }

  /** A footer parses exactly when the file ends with its bytes and it says how long the file is. */
  lemma FooterIff(file: seq<byte>, footerOff: nat, f: Footer)
    ensures ParseFooter(file, footerOff) == Ok(f) <==>
      && HEADER_LEN <= footerOff <= |file| && SlotRules(f) && f.totalLen == |file|
      && file[footerOff..] == FooterBytes(f)
  {
    if HEADER_LEN <= footerOff <= |file| && |file| - footerOff >= MIN_FOOTER_LEN {
      var b := file[footerOff..];
      if ParseFooter(file, footerOff) == Ok(f) {
        ParsedFooter(file, footerOff, b, f, U32At(b, 32), U32At(b, 36));
      }
      if SlotRules(f) && f.totalLen == |file| && b == FooterBytes(f) {
        FooterParses(file, footerOff, b, f, |f.sigClassical|, |f.sigPq|);
      }
    }
  }

  lemma FooterParses(file: seq<byte>, footerOff: nat, b: seq<byte>, f: Footer, cls: nat, pq: nat)
    requires HEADER_LEN <= footerOff <= |file| && b == file[footerOff..] && SlotRules(f) && f.totalLen == |file|
    requires b == FooterBytes(f) && cls == |f.sigClassical| && pq == |f.sigPq|
    ensures ParseFooter(file, footerOff) == Ok(f)
  {
    FooterReads(f, b, cls, pq);
    var trailer := |b| - 16;
    assert trailer == 40 + cls + pq && b[trailer + 8..trailer + 16] == MAGIC;
  }

  lemma ParsedFooter(file: seq<byte>, footerOff: nat, b: seq<byte>, f: Footer, cls: nat, pq: nat)
    requires ParseFooter(file, footerOff) == Ok(f) && footerOff <= |file| && b == file[footerOff..]
    requires |b| >= 56 && cls == U32At(b, 32) && pq == U32At(b, 36)
    ensures SlotRules(f) && f.totalLen == |file| && b == FooterBytes(f)
  {
    var trailer := 40 + cls + pq;
    FooterFields(b, f, 40 + cls, trailer);
    FooterRead(b, f, cls, pq, trailer);
    assert b[0..|b|] == b;
  }

  /** A footer's bytes say where its slots are, so they determine it. */
  lemma FooterBytesInjective(f: Footer, g: Footer)
    requires SlotRules(f) && SlotRules(g) && FooterBytes(f) == FooterBytes(g)
    ensures f == g
  {
    var b := FooterBytes(f);
    FooterReads(f, b, |f.sigClassical|, |f.sigPq|);
    FooterReads(g, b, |g.sigClassical|, |g.sigPq|);
  }

  // ----- what the footer commits to and signs -----

  const ROOT_LABEL: string := "ctf/root/v1"
  const SIG_LABEL: string := "ctf/footer-sig/v2"

  /** What the commitment root hashes. */
  function Committed(header: seq<byte>, table: seq<byte>): seq<byte> {
    Ascii(ROOT_LABEL) + header + table
  }

  function CommitmentRoot(c: Compression, header: seq<byte>, table: seq<byte>): Digest {
    Blake3(c, Committed(header, table))
  }

  /** The label, the 64 bytes of the header and the table, in that order: that is what the root hashes. */
  lemma CommittedAt(c: Compression, v: seq<byte>)
    requires |v| >= 75 && v[..11] == Ascii("ctf/root/v1")
    ensures CommitmentRoot(c, v[11..75], v[75..]) == Blake3(c, v)
  {
    assert Committed(v[11..75], v[75..]) == v;
  }

  /** The header has a fixed width, so the concatenation can be taken apart. */
  lemma CommittedInjective(h: seq<byte>, t: seq<byte>, h': seq<byte>, t': seq<byte>)
    requires |h| == |h'| && Committed(h, t) == Committed(h', t')
    ensures h == h' && t == t'
  {
    var n := |Ascii(ROOT_LABEL)|;
    assert h == Committed(h, t)[n..n + |h|] && h' == Committed(h', t')[n..n + |h|];
    assert t == Committed(h, t)[n + |h|..] && t' == Committed(h', t')[n + |h|..];
  }

  /** `sig_input`: every element after the label has a fixed width. */
  function SigInput(suite: u16, cls: u32, pq: u32, root: Digest, totalLen: u64): (v: seq<byte>)
    ensures |v| == 67
  {
    Ascii(SIG_LABEL) + LE(suite, 2) + LE(cls, 4) + LE(pq, 4) + root + LE(totalLen, 8)
  }

  lemma SigInputAt(suite: u16, cls: u32, pq: u32, root: Digest, totalLen: u64)
    ensures var v := SigInput(suite, cls, pq, root, totalLen);
      && |v| == 67 && v[..17] == Ascii("ctf/footer-sig/v2") && U16At(v, 17) == suite && U32At(v, 19) == cls && U32At(v, 23) == pq
      && v[27..59] == root && U64At(v, 59) == totalLen
  {
    var v := SigInput(suite, cls, pq, root, totalLen);
    var p1 := Ascii(SIG_LABEL);
    var p2 := p1 + LE(suite, 2);
    var p3 := p2 + LE(cls, 4);
    var p4 := p3 + LE(pq, 4);
    var p5 := p4 + root;
    assert v[0..67] == v && v[..17] == p1;
    AtCat(v, p1, 17, LE(suite, 2));
    AtCat(v, p2, 19, LE(cls, 4));
    AtCat(v, p3, 23, LE(pq, 4));
    AtCat(v, p4, 27, root);
    AtCat(v, p5, 59, LE(totalLen, 8));
    U16Field(v, 17, suite);
    U32Field(v, 19, cls);
    U32Field(v, 23, pq);
    U64Field(v, 59, totalLen);
  }

  /** A signed transcript fixes the suite, the slot split, the root and the length. */
  lemma SigInputInjective(suite: u16, cls: u32, pq: u32, root: Digest, totalLen: u64,
                          suite': u16, cls': u32, pq': u32, root': Digest, totalLen': u64)
    requires SigInput(suite, cls, pq, root, totalLen) == SigInput(suite', cls', pq', root', totalLen')
    ensures suite == suite' && cls == cls' && pq == pq' && root == root' && totalLen == totalLen'
  {
    SigInputAt(suite, cls, pq, root, totalLen);
    SigInputAt(suite', cls', pq', root', totalLen');
  }
}
