/**
 The manifest's schema in the terms of its map: which entries it has, what their texts are as
 Unicode scalar values, and how they match the section records. A manifest is accepted for a
 table exactly when it decodes to a map of this kind.
 */
module ManifestSchema {
  import opened Bytes
  import opened Utf8Text
  import opened Cbor
  import opened CborBijection
  import opened CborOrder
  import opened CborWire
  import opened CborFields
  import opened Container
  import opened ManifestText
  import opened Manifest

  // ----- names and paths -----

  /** No control, no slash or backslash, no U+202A-U+202E, no U+2066-U+2069. */
  predicate NameScalar(c: nat) {
    c >= 0x20 && c != 0x7f && c != 0x2f && c != 0x5c && !(0x202a <= c <= 0x202e) && !(0x2066 <= c <= 0x2069)
  }

  predicate NameScalars(cs: seq<nat>) {
    forall i :: 0 <= i < |cs| ==> NameScalar(cs[i])
  }

  /** One to 255 bytes of such characters, neither "." nor "..". */
  ghost predicate IsName(t: seq<byte>) {
    1 <= |t| <= 255 && t != [0x2e] && t != [0x2e, 0x2e] && exists cs :: Scalars(cs) && t == Spelled(cs) && NameScalars(cs)
  }

  /** The parts with a slash between each two. */
  function Joined(parts: seq<seq<byte>>): seq<byte> {
    if parts == [] then [] else if |parts| == 1 then parts[0] else parts[0] + [0x2f] + Joined(parts[1..])
  }

  /** One to 4096 bytes, names with slashes between them. */
  ghost predicate IsPath(p: seq<byte>) {
    1 <= |p| <= 4096 && exists parts :: parts != [] && p == Joined(parts) && forall i :: 0 <= i < |parts| ==> IsName(parts[i])
  }

  /** One to 64 lower-case letters, digits and hyphens, no hyphen at either end. */
  predicate IsId(s: seq<byte>) {
    && 1 <= |s| <= 64 && s[0] != 0x2d && s[|s| - 1] != 0x2d
    && forall i :: 0 <= i < |s| ==> 'a' as int <= s[i] <= 'z' as int || '0' as int <= s[i] <= '9' as int || s[i] == '-' as int
  }

  // ----- the map -----

  /** The map has this value under this key. */
  ghost predicate Field(v: Value, key: seq<byte>, x: Value) {
    v.Map? && Entry(Text(key), x) in v.entries
  }

  /** The keys of the schema. */
  function SchemaKey(i: nat): string
    requires i < 16
  {
    match i
    case 0 => "category"
    case 1 => "crit"
    case 2 => "description"
    case 3 => "external"
    case 4 => "flag"
    case 5 => "generate"
    case 6 => "id"
    case 7 => "name"
    case 8 => "names"
    case 9 => "paths"
    case 10 => "platform"
    case 11 => "runtime"
    case 12 => "sealed"
    case 13 => "spec"
    case 14 => "verify"
    case _ => "version"
  }

  predicate IsKnownKey(t: seq<byte>) {
    exists i :: 0 <= i < 16 && t == Ascii(SchemaKey(i))
  }

  /** A version of the schema other than 0, and every key named critical known and there. */
  ghost predicate SpecAndCrit(v: Value) {
    && (exists n :: n != 0 && Field(v, Ascii("spec"), Uint(n)))
    && forall x :: Field(v, Ascii("crit"), x) ==>
         x.Array? && forall y :: y in x.items ==> y.Text? && IsKnownKey(y.t) && exists z :: Field(v, y.t, z)
  }

  /** An id and a display name; category and description are texts, and the version a number, if they are there. */
  ghost predicate Identity(v: Value) {
    && (exists id :: Field(v, Ascii("id"), Text(id)) && IsId(id))
    && (exists t :: Field(v, Ascii("name"), Text(t)))
    && (forall x :: Field(v, Ascii("category"), x) ==> x.Text?) && (forall x :: Field(v, Ascii("description"), x) ==> x.Text?)
    && forall x :: Field(v, Ascii("version"), x) ==> x.Uint?
  }

  /** At most 65536 names, all different. */
  ghost predicate AreNames(names: seq<Value>) {
    && |names| <= 0x1_0000 && (forall i :: 0 <= i < |names| ==> names[i].Text? && IsName(names[i].t))
    && forall i, j :: 0 <= i < j < |names| ==> names[i] != names[j]
  }

  predicate IsNameId(key: Value) {
    key.Uint? && key.n <= 0xffff
  }

  ghost predicate IsPathEntry(e: Entry) {
    IsNameId(e.key) && e.val.Text? && IsPath(e.val.t)
  }

  /** Paths by name id, all different. */
  ghost predicate ArePaths(x: Value) {
    && x.Map? && (forall e :: e in x.entries ==> IsPathEntry(e))
    && forall i, j :: 0 <= i < j < |x.entries| ==> x.entries[i].val != x.entries[j].val
  }

  /** A size, a 32-byte root, and at least one mirror of 1 to 2048 bytes. */
  ghost predicate IsElsewhere(x: Value) {
    && (exists n :: Field(x, Ascii("size"), Uint(n)))
    && (exists root :: Field(x, Ascii("root"), Bytes(root)) && |root| == 32)
    && exists ms :: Field(x, Ascii("mirrors"), Array(ms)) && AreMirrors(ms)
  }

  predicate AreMirrors(ms: seq<Value>) {
    ms != [] && forall i :: 0 <= i < |ms| ==> ms[i].Text? && 1 <= |ms[i].t| <= 2048
  }

  ghost predicate AreElsewhere(x: Value) {
    x.Map? && forall e :: e in x.entries ==> IsNameId(e.key) && IsElsewhere(e.val)
  }

  /** The manifest by itself. */
  ghost predicate Schema(v: Value) {
    && v.Map? && (forall e :: e in v.entries ==> e.key.Text?) && SpecAndCrit(v) && Identity(v)
    && (exists names :: Field(v, Ascii("names"), Array(names)) && AreNames(names))
    && (forall x :: Field(v, Ascii("paths"), x) ==> ArePaths(x))
    && forall x :: Field(v, Ascii("external"), x) ==> AreElsewhere(x)
  }

  /** The map under a key has this entry. */
  ghost predicate InMap(v: Value, key: seq<byte>, e: Entry) {
    exists es :: Field(v, key, Map(es)) && e in es
  }

  /** The manifest describes an external payload under this name id. */
  ghost predicate Listed(v: Value, e: Entry) {
    InMap(v, Ascii("external"), e)
  }

  ghost predicate ListedAs(v: Value, e: Entry, r: Record) {
    && Listed(v, e) && e.key == Uint(r.nameId)
    && Field(e.val, Ascii("size"), Uint(r.lenPlain)) && Field(e.val, Ascii("root"), Bytes(r.root))
  }

  /** Every section is named; paths belong to sections; the external sections are those described, as described. */
  ghost predicate Agrees(v: Value, records: seq<Record>) {
    && (forall names, r :: Field(v, Ascii("names"), Array(names)) && r in records ==> r.nameId < |names|)
    && (forall e :: InMap(v, Ascii("paths"), e) ==> exists r :: r in records && e.key == Uint(r.nameId))
    && (forall e :: Listed(v, e) ==> exists r :: r in records && r.flags / 4 % 2 == 1 && e.key == Uint(r.nameId))
    && forall r :: r in records ==>
         if r.flags / 4 % 2 == 1 then exists e :: ListedAs(v, e, r) else forall e :: Listed(v, e) ==> e.key != Uint(r.nameId)
  }

  // ----- the texts -----

  /** Six bits at a time. */
  lemma Sextets(c: nat)
    ensures c == c / 0x40 * 0x40 + c % 0x40
    ensures c / 0x40 == c / 0x1000 * 0x40 + c / 0x40 % 0x40
    ensures c / 0x1000 == c / 0x4_0000 * 0x40 + c / 0x1000 % 0x40
  {
  }

  lemma RuneOfSpelling(c: nat, rest: seq<byte>)
    requires Scalar(c)
    ensures CharLen(Spelling(c) + rest) == |Spelling(c)| && Rune(Spelling(c) + rest) == c
  {
    var s := Spelling(c) + rest;
    SpellingIsChar(c, rest);
    Sextets(c);
    assert forall k :: 0 <= k < |Spelling(c)| ==> s[k] == Spelling(c)[k];
    RuneDigits(c, s);
  }

  lemma RuneDigits(c: nat, s: seq<byte>)
    requires Scalar(c) && CharLen(s) == |Spelling(c)| && forall k :: 0 <= k < |Spelling(c)| ==> s[k] == Spelling(c)[k]
    requires c == c / 0x40 * 0x40 + c % 0x40 && c / 0x40 == c / 0x1000 * 0x40 + c / 0x40 % 0x40
    requires c / 0x1000 == c / 0x4_0000 * 0x40 + c / 0x1000 % 0x40
    ensures Rune(s) == c
  {
    var t := Spelling(c);
    if c < 0x80 {
      assert s[0] == t[0];
    } else if c < 0x800 {
      assert s[0] == t[0] && s[1] == t[1];
    } else if c < 0x1_0000 {
      assert s[0] == t[0] && s[1] == t[1] && s[2] == t[2];
    } else {
      assert s[0] == t[0] && s[1] == t[1] && s[2] == t[2] && s[3] == t[3];
    }
  }

  /** No byte and no three bytes that a name must not have. */
  ghost predicate CleanBytes(t: seq<byte>) {
    (forall i :: 0 <= i < |t| ==> NameByte(t[i])) && forall i :: 0 <= i < |t| ==> !BidiAt(t, i)
  }

  lemma FirstScalar(c: nat, rest: seq<byte>, t: seq<byte>)
    requires Scalar(c) && t == Spelling(c) + rest
    ensures CleanBytes(t) <==> NameScalar(c) && CleanBytes(rest)
  {
    var n := |Spelling(c)|;
    RuneOfSpelling(c, rest);
    BidiRune(t);
    forall k | 0 < k < n
      ensures !BidiAt(t, k)
    {
      InsideRune(t, k);
    }
    forall k | 0 <= k < |rest|
      ensures t[n + k] == rest[k] && (BidiAt(t, n + k) <==> BidiAt(rest, k))
    {
    }
    FirstBytes(c, n);
    forall k | 0 <= k < n
      ensures t[k] == Spelling(c)[k]
    {
    }
    CleanParts(c, rest, t, n);
  }

  /** Only a single byte can be one of those a name must not have. */
  lemma FirstBytes(c: nat, n: nat)
    requires Scalar(c) && n == |Spelling(c)|
    ensures (forall k :: 0 <= k < n ==> NameByte(Spelling(c)[k])) <==> c >= 0x20 && c != 0x7f && c != 0x2f && c != 0x5c
  {
    if c < 0x80 {
      assert Spelling(c)[0] == c;
    } else {
      assert forall k :: 0 <= k < n ==> Spelling(c)[k] >= 0x80;
    }
  }

  lemma CleanParts(c: nat, rest: seq<byte>, t: seq<byte>, n: nat)
    requires Scalar(c) && t == Spelling(c) + rest && n == |Spelling(c)| && (IsBidiControl(c) <==> BidiAt(t, 0))
    requires forall k :: 0 < k < n ==> !BidiAt(t, k)
    requires forall k :: 0 <= k < |rest| ==> t[n + k] == rest[k] && (BidiAt(t, n + k) <==> BidiAt(rest, k))
    requires (forall k :: 0 <= k < n ==> NameByte(t[k])) <==> c >= 0x20 && c != 0x7f && c != 0x2f && c != 0x5c
    ensures CleanBytes(t) <==> NameScalar(c) && CleanBytes(rest)
  {
    if CleanBytes(t) {
      forall k | 0 <= k < |rest|
        ensures NameByte(rest[k]) && !BidiAt(rest, k)
      {
        assert NameByte(t[n + k]) && !BidiAt(t, n + k);
      }
    }
    if NameScalar(c) && CleanBytes(rest) {
      forall k | 0 <= k < |t|
        ensures NameByte(t[k]) && !BidiAt(t, k)
      {
        if k >= n {
          assert t[n + (k - n)] == rest[k - n];
        }
      }
    }
  }

  lemma {:induction false} CleanScalars(cs: seq<nat>)
    requires Scalars(cs)
    ensures CleanBytes(Spelled(cs)) <==> NameScalars(cs)
  {
    if cs != [] {
      CleanScalars(cs[1..]);
      FirstScalar(cs[0], Spelled(cs[1..]), Spelled(cs));
      assert cs == [cs[0]] + cs[1..];
    }
  }

  /** The names both readers accept, as lists of characters. */
  lemma NameIff(t: seq<byte>)
    requires Utf8(t)
    ensures GoodName(t) <==> IsName(t)
  {
    assert Ascii(".") == [0x2e] && Ascii("..") == [0x2e, 0x2e];
    var cs := Utf8IsSpelled(t);
    CleanScalars(cs);
    if IsName(t) {
      var other :| Scalars(other) && t == Spelled(other) && NameScalars(other);
      CleanScalars(other);
    }
  }

  lemma IdIff(s: seq<byte>)
    ensures GoodId(s) <==> IsId(s)
  {
  }

  // ----- paths -----

  /** An ASCII byte of a text is a character of its own: what stands before and behind it are texts. */
  lemma {:induction false} Utf8Cut(t: seq<byte>, i: nat, next: nat)
    requires Utf8(t) && i < |t| && t[i] <= 0x7f && next == i + 1
    ensures Utf8(t[..i]) && Utf8(t[next..])
    decreases |t|
  {
    var n := CharLen(t);
    if i == 0 {
      assert t[..0] == [];
    } else {
      var (rest, j, k) := (t[n..], i - n, next - n);
      assert 0 < i < n ==> Tail(t[i]);
      Utf8Cut(rest, j, k);
      assert rest[k..] == t[next..] && rest[..j] == t[n..i];
      SameChar(t, t[..i], n);
      assert t[..i][n..] == t[n..i];
    }
  }

  lemma SameChar(t: seq<byte>, front: seq<byte>, n: nat)
    requires n == CharLen(t) > 0 && n <= |front| && front <= t
    ensures CharLen(front) == n
  {
  }

  predicate NoSlash(part: seq<byte>) {
    forall i :: 0 <= i < |part| ==> part[i] != 0x2f
  }

  lemma JoinedNext(part: seq<byte>, rest: seq<seq<byte>>)
    requires rest != []
    ensures Joined([part] + rest) == part + [0x2f] + Joined(rest)
  {
    assert ([part] + rest)[1..] == rest;
  }

  /** Splitting a path and joining the pieces gives it back. */
  lemma {:induction false} SplitJoins(p: seq<byte>, from: nat)
    requires from <= |p|
    ensures Split(p, from) != [] && Joined(Split(p, from)) == p[from..]
    decreases |p| - from
  {
    var n := NextSlash(p, from);
    var next := n + 1;
    SplitStep(p, from, n, next);
    if n < |p| {
      SplitJoins(p, next);
      JoinedNext(p[from..n], Split(p, next));
      assert p[from..] == p[from..n] + [0x2f] + p[next..];
    }
  }

  lemma {:induction false} FindsSlash(p: seq<byte>, from: nat, n: nat)
    requires from <= n <= |p| && (n < |p| ==> p[n] == 0x2f) && forall i :: from <= i < n ==> p[i] != 0x2f
    ensures NextSlash(p, from) == n
    decreases n - from
  {
    if from < n {
      FindsSlash(p, from + 1, n);
    }
  }

  lemma SplitStep(p: seq<byte>, from: nat, n: nat, next: nat)
    requires from <= |p| && n == NextSlash(p, from) && next == n + 1
    ensures Split(p, from) == if n == |p| then [p[from..n]] else [p[from..n]] + Split(p, next)
  {
  }

  /** The first part of what is joined ends at the first slash. */
  lemma FirstPart(p: seq<byte>, from: nat, part: seq<byte>, tail: seq<byte>, n: nat)
    requires from <= |p| && p[from..] == part + tail && NoSlash(part) && (tail != [] ==> tail[0] == 0x2f) && n == from + |part|
    ensures NextSlash(p, from) == n <= |p| && p[from..n] == part && p[n..] == tail
  {
    assert p[from..][..|part|] == part && p[from..][|part|..] == tail;
    assert forall i :: from <= i < n ==> p[i] == part[i - from];
    assert n < |p| ==> p[n] == tail[0];
    FindsSlash(p, from, n);
  }

  /** And joining parts without slashes and splitting gives the parts. */
  lemma {:induction false} JoinedSplits(p: seq<byte>, from: nat, parts: seq<seq<byte>>)
    requires from <= |p| && parts != [] && p[from..] == Joined(parts) && forall i :: 0 <= i < |parts| ==> NoSlash(parts[i])
    ensures Split(p, from) == parts
    decreases |parts|
  {
    var (part, rest, n) := (parts[0], parts[1..], from + |parts[0]|);
    var next := n + 1;
    assert parts == [part] + rest && NoSlash(part);
    if rest == [] {
      assert part + [] == part;
      FirstPart(p, from, part, [], n);
    } else {
      JoinedNext(part, rest);
      var tail := [0x2f] + Joined(rest);
      Associate(part, [0x2f], Joined(rest));
      FirstPart(p, from, part, tail, n);
      assert p[next..] == p[n..][1..] == Joined(rest);
      JoinedSplits(p, next, rest);
    }
    SplitStep(p, from, n, next);
  }

  lemma NameHasNoSlash(t: seq<byte>)
    requires IsName(t)
    ensures Utf8(t) && GoodName(t) && NoSlash(t)
  {
    var cs :| Scalars(cs) && t == Spelled(cs) && NameScalars(cs);
    SpelledIsUtf8(cs);
    NameIff(t);
  }

  /** The pieces of a text are texts. */
  lemma {:induction false} PiecesAreTexts(p: seq<byte>, from: nat, k: nat, piece: seq<byte>)
    requires from <= |p| && Utf8(p[from..]) && k < |Split(p, from)| && piece == Split(p, from)[k]
    ensures Utf8(piece)
    decreases |p| - from
  {
    var n := NextSlash(p, from);
    var next := n + 1;
    SplitStep(p, from, n, next);
    FirstPiece(p, from, n, next);
    if n < |p| && k > 0 {
      var before := k - 1;
      assert Split(p, next)[before] == piece;
      PiecesAreTexts(p, next, before, piece);
    }
  }

  lemma FirstPiece(p: seq<byte>, from: nat, n: nat, next: nat)
    requires from <= |p| && Utf8(p[from..]) && n == NextSlash(p, from) && next == n + 1
    ensures Utf8(p[from..n]) && (n < |p| ==> Utf8(p[next..]))
  {
    if n == |p| {
      assert p[from..n] == p[from..];
    } else {
      CutAt(p, from, n, next);
    }
  }

  lemma CutAt(p: seq<byte>, from: nat, n: nat, next: nat)
    requires from <= n < |p| && p[n] == 0x2f && next == n + 1 && Utf8(p[from..])
    ensures Utf8(p[from..n]) && Utf8(p[next..])
  {
    var (rest, i, j) := (p[from..], n - from, n - from + 1);
    Utf8Cut(rest, i, j);
    assert rest[..i] == p[from..n] && rest[j..] == p[next..];
  }

  /** The paths both readers accept, as names with slashes between them. */
  lemma PathIff(p: seq<byte>)
    requires Utf8(p)
    ensures GoodPath(p) <==> IsPath(p)
  {
    assert p[0..] == p;
    if GoodPath(p) {
      var parts := Split(p, 0);
      SplitJoins(p, 0);
      forall i | 0 <= i < |parts|
        ensures IsName(parts[i])
      {
        var a, z := PieceIsComponent(p, 0, i);
        PiecesAreTexts(p, 0, i, parts[i]);
        NameIff(parts[i]);
      }
    }
    if IsPath(p) {
      JoinedIsGood(p);
    }
  }

  lemma JoinedIsGood(p: seq<byte>)
    requires IsPath(p)
    ensures GoodPath(p)
  {
    var parts :| parts != [] && p == Joined(parts) && forall i :: 0 <= i < |parts| ==> IsName(parts[i]);
    forall i | 0 <= i < |parts|
      ensures GoodName(parts[i]) && NoSlash(parts[i])
    {
      NameHasNoSlash(parts[i]);
    }
    assert p[0..] == p;
    JoinedSplits(p, 0, parts);
    forall a: nat, z: nat | Component(p, a, z)
      ensures GoodName(p[a..z])
    {
      var k := ComponentIsPiece(p, 0, a, z);
    }
  }

  // ----- looking up -----

  /** In a decoded map, looking a key up finds the one entry under it. */
  lemma LookupIs(v: Value, key: string, x: Value)
    requires Canonical(v)
    ensures Lookup(v, key) == Some(x) <==> Field(v, Ascii(key), x)
  {
    if v.Map? {
      IncreasingDistinct([], v.entries);
      GetFinds(v.entries, Ascii(key), x);
    }
  }

  lemma LookupAll(v: Value, key: string)
    requires Canonical(v)
    ensures forall x :: Lookup(v, key) == Some(x) <==> Field(v, Ascii(key), x)
    ensures Lookup(v, key).Some? ==> Canonical(Lookup(v, key).value)
    ensures WellFormed(v) && Lookup(v, key).Some? ==> WellFormed(Lookup(v, key).value)
  {
    forall x
      ensures Lookup(v, key) == Some(x) <==> Field(v, Ascii(key), x)
    {
      LookupIs(v, key, x);
    }
    if Lookup(v, key).Some? {
      LookupCanonical(v, key);
      var e := Entry(Text(Ascii(key)), Lookup(v, key).value);
      assert Field(v, Ascii(key), Lookup(v, key).value) && e in v.entries;
      assert WellFormed(v) ==> WellFormedEntry(e);
    }
  }

  // ----- the rules are the schema -----

  /** A value as decoding gives it. */
  ghost predicate Read(v: Value) {
    WellFormed(v) && Canonical(v)
  }

  lemma SameKey(i: nat)
    requires i < 16
    ensures |KNOWN_KEYS| == 16 && KNOWN_KEYS[i] == SchemaKey(i)
  {
  }

  lemma KnownIff(t: seq<byte>)
    ensures KnownKey(t) <==> IsKnownKey(t)
  {
    SameKey(0);
    if i :| 0 <= i < |KNOWN_KEYS| && t == Ascii(KNOWN_KEYS[i]) {
      SameKey(i);
      assert t == Ascii(SchemaKey(i));
    }
    if i :| 0 <= i < 16 && t == Ascii(SchemaKey(i)) {
      SameKey(i);
      assert t == Ascii(KNOWN_KEYS[i]);
    }
  }

  lemma CritEntryIff(v: Value, y: Value)
    requires v.Map? && Read(v)
    ensures CritEntry(v, y) <==> y.Text? && IsKnownKey(y.t) && exists z :: Field(v, y.t, z)
  {
    if y.Text? {
      KnownIff(y.t);
      IncreasingDistinct([], v.entries);
      if Get(v.entries, y.t).Some? {
        GetFinds(v.entries, y.t, Get(v.entries, y.t).value);
        assert Field(v, y.t, Get(v.entries, y.t).value);
      }
      if z :| Field(v, y.t, z) {
        GetFinds(v.entries, y.t, z);
      }
    }
  }

  lemma CritIff(v: Value)
    requires v.Map? && Read(v)
    ensures CritRule(v) <==> forall x :: Field(v, Ascii("crit"), x) ==>
      x.Array? && forall y :: y in x.items ==> y.Text? && IsKnownKey(y.t) && exists z :: Field(v, y.t, z)
  {
    LookupAll(v, "crit");
    forall y
      ensures CritEntry(v, y) <==> y.Text? && IsKnownKey(y.t) && exists z :: Field(v, y.t, z)
    {
      CritEntryIff(v, y);
    }
  }

  lemma SpecIff(v: Value)
    requires v.Map? && Read(v)
    ensures SpecRule(v) <==> exists n :: n != 0 && Field(v, Ascii("spec"), Uint(n))
  {
    LookupAll(v, "spec");
    if SpecRule(v) {
      assert Field(v, Ascii("spec"), Uint(Lookup(v, "spec").value.n));
    }
  }

  /** An entry that may be there. */
  lemma Optional(v: Value, key: string, so: Value -> bool)
    requires v.Map? && Read(v)
    ensures Lookup(v, key).None? || so(Lookup(v, key).value) <==> forall x :: Field(v, Ascii(key), x) ==> so(x)
  {
    LookupAll(v, key);
    if Lookup(v, key).Some? {
      assert Field(v, Ascii(key), Lookup(v, key).value);
    }
  }

  lemma IdentityIff(v: Value)
    requires v.Map? && Read(v)
    ensures ScalarRules(v) <==> Identity(v)
  {
    IdField(v);
    NameField(v);
    Optional(v, "category", (x: Value) => x.Text?);
    Optional(v, "description", (x: Value) => x.Text?);
    Optional(v, "version", (x: Value) => x.Uint?);
  }

  lemma IdField(v: Value)
    requires v.Map? && Read(v)
    ensures Lookup(v, "id").Some? && Lookup(v, "id").value.Text? && GoodId(Lookup(v, "id").value.t)
      <==> exists id :: Field(v, Ascii("id"), Text(id)) && IsId(id)
  {
    LookupAll(v, "id");
    if Lookup(v, "id").Some? && Lookup(v, "id").value.Text? {
      IdIff(Lookup(v, "id").value.t);
      assert Field(v, Ascii("id"), Text(Lookup(v, "id").value.t));
    }
  }

  lemma NameField(v: Value)
    requires v.Map? && Read(v)
    ensures Lookup(v, "name").Some? && Lookup(v, "name").value.Text? <==> exists t :: Field(v, Ascii("name"), Text(t))
  {
    LookupAll(v, "name");
    if Lookup(v, "name").Some? && Lookup(v, "name").value.Text? {
      assert Field(v, Ascii("name"), Text(Lookup(v, "name").value.t));
    }
  }

  lemma NamesIff(v: Value)
    requires v.Map? && Read(v)
    ensures NamesRule(v) <==> exists names :: Field(v, Ascii("names"), Array(names)) && AreNames(names)
  {
    LookupAll(v, "names");
    if Lookup(v, "names").Some? && Lookup(v, "names").value.Array? {
      var names := Lookup(v, "names").value.items;
      assert Field(v, Ascii("names"), Array(names));
      forall i | 0 <= i < |names|
        ensures NameEntry(names[i]) <==> names[i].Text? && IsName(names[i].t)
      {
        assert names[i] in names && WellFormed(names[i]);
        if names[i].Text? {
          NameIff(names[i].t);
        }
      }
    }
  }

  lemma PathsIff(v: Value)
    requires v.Map? && Read(v)
    ensures PathsRule(v) <==> forall x :: Field(v, Ascii("paths"), x) ==> ArePaths(x)
  {
    LookupAll(v, "paths");
    if Lookup(v, "paths").Some? {
      var x := Lookup(v, "paths").value;
      assert Field(v, Ascii("paths"), x);
      if x.Map? {
        PathEntriesIff(x);
      }
    }
  }

  lemma PathEntryIff(e: Entry)
    requires WellFormedEntry(e)
    ensures PathEntry(e) <==> IsPathEntry(e)
  {
    if e.val.Text? {
      PathIff(e.val.t);
    }
  }

  lemma PathEntriesIff(x: Value)
    requires x.Map? && Read(x)
    ensures PathTable(x.entries) <==> ArePaths(x)
  {
    forall i | 0 <= i < |x.entries|
      ensures x.entries[i] in x.entries && (PathEntry(x.entries[i]) <==> IsPathEntry(x.entries[i]))
    {
      assert x.entries[i] in x.entries;
      PathEntryIff(x.entries[i]);
    }
  }

  lemma MirrorsIff(x: Value)
    requires x.Map? && Read(x)
    ensures Lookup(x, "mirrors").Some? && Lookup(x, "mirrors").value.Array? && Lookup(x, "mirrors").value.items != []
            && (forall i :: 0 <= i < |Lookup(x, "mirrors").value.items| ==> Mirror(Lookup(x, "mirrors").value.items[i]))
      <==> exists ms :: Field(x, Ascii("mirrors"), Array(ms)) && AreMirrors(ms)
  {
    LookupAll(x, "mirrors");
    if Lookup(x, "mirrors").Some? && Lookup(x, "mirrors").value.Array? {
      var ms := Lookup(x, "mirrors").value.items;
      assert Field(x, Ascii("mirrors"), Array(ms));
      assert forall i :: 0 <= i < |ms| ==> (Mirror(ms[i]) <==> ms[i].Text? && 1 <= |ms[i].t| <= 2048);
    }
  }

  lemma SizeAndRootIff(x: Value)
    requires x.Map? && Read(x)
    ensures Lookup(x, "size").Some? && Lookup(x, "size").value.Uint? <==> exists n :: Field(x, Ascii("size"), Uint(n))
    ensures Lookup(x, "root").Some? && Lookup(x, "root").value.Bytes? && |Lookup(x, "root").value.b| == 32
      <==> exists root :: Field(x, Ascii("root"), Bytes(root)) && |root| == 32
  {
    LookupAll(x, "size");
    LookupAll(x, "root");
    if Lookup(x, "size").Some? && Lookup(x, "size").value.Uint? {
      assert Field(x, Ascii("size"), Uint(Lookup(x, "size").value.n));
    }
    if Lookup(x, "root").Some? && Lookup(x, "root").value.Bytes? {
      assert Field(x, Ascii("root"), Bytes(Lookup(x, "root").value.b));
    }
  }

  lemma ElsewhereIff(x: Value)
    requires Read(x)
    ensures Whereabouts(x) <==> IsElsewhere(x)
  {
    if x.Map? {
      SizeAndRootIff(x);
      MirrorsIff(x);
    }
  }

  lemma ExternalIff(v: Value)
    requires v.Map? && Read(v)
    ensures ExternalRule(v) <==> forall x :: Field(v, Ascii("external"), x) ==> AreElsewhere(x)
  {
    LookupAll(v, "external");
    if Lookup(v, "external").Some? {
      var x := Lookup(v, "external").value;
      assert Field(v, Ascii("external"), x);
      if x.Map? {
        forall i | 0 <= i < |x.entries|
          ensures x.entries[i] in x.entries
          ensures ExternalEntry(x.entries[i]) <==> IsNameId(x.entries[i].key) && IsElsewhere(x.entries[i].val)
        {
          assert x.entries[i] in x.entries && WellFormedEntry(x.entries[i]) && CanonicalEntry(x.entries[i]);
          ElsewhereIff(x.entries[i].val);
        }
      }
    }
  }

  lemma SchemaIff(v: Value)
    requires Read(v)
    ensures LocalRules(v) <==> Schema(v)
  {
    if v.Map? {
      SpecIff(v);
      CritIff(v);
      IdentityIff(v);
      NamesIff(v);
      PathsIff(v);
      ExternalIff(v);
      forall i | 0 <= i < |v.entries|
        ensures v.entries[i] in v.entries
      {
      }
    }
  }

  // ----- the table -----

  lemma InMapIff(v: Value, key: string, e: Entry)
    requires Read(v)
    ensures e in EntriesOf(Lookup(v, key)) <==> InMap(v, Ascii(key), e)
  {
    LookupAll(v, key);
    if e in EntriesOf(Lookup(v, key)) {
      assert Field(v, Ascii(key), Map(Lookup(v, key).value.entries));
    }
  }

  lemma ListedIff(v: Value, e: Entry)
    requires Read(v)
    ensures e in EntriesOf(Lookup(v, "external")) <==> Listed(v, e)
  {
    InMapIff(v, "external", e);
  }

  lemma ListedAsIff(v: Value, e: Entry, r: Record)
    requires Read(v) && ExternalRule(v)
    ensures e in EntriesOf(Lookup(v, "external")) && e.key == Uint(r.nameId) && Describes(e.val, r) <==> ListedAs(v, e, r)
  {
    ListedIff(v, e);
    if e in EntriesOf(Lookup(v, "external")) {
      LookupCanonical(v, "external");
      assert CanonicalEntry(e);
      LookupIs(e.val, "size", Uint(r.lenPlain));
      LookupIs(e.val, "root", Bytes(r.root));
    }
  }

  lemma RecordsAgreeIff(v: Value, records: seq<Record>)
    requires Read(v) && ExternalRule(v)
    ensures RecordsAgree(EntriesOf(Lookup(v, "external")), records) <==>
      && (forall e :: Listed(v, e) ==> exists r :: r in records && r.flags / 4 % 2 == 1 && e.key == Uint(r.nameId))
      && forall r :: r in records ==>
           if r.flags / 4 % 2 == 1 then exists e :: ListedAs(v, e, r) else forall e :: Listed(v, e) ==> e.key != Uint(r.nameId)
  {
    var external := EntriesOf(Lookup(v, "external"));
    forall e
      ensures e in external <==> Listed(v, e)
      ensures NamesExternal(e, records) <==> exists r :: r in records && r.flags / 4 % 2 == 1 && e.key == Uint(r.nameId)
    {
      ListedIff(v, e);
    }
    forall r | r in records
      ensures RecordAgrees(external, r) <==>
        if r.flags / 4 % 2 == 1 then exists e :: ListedAs(v, e, r) else forall e :: Listed(v, e) ==> e.key != Uint(r.nameId)
    {
      RecordAgreesIff(v, r);
    }
  }

  lemma RecordAgreesIff(v: Value, r: Record)
    requires Read(v) && ExternalRule(v)
    ensures RecordAgrees(EntriesOf(Lookup(v, "external")), r) <==>
      if r.flags / 4 % 2 == 1 then exists e :: ListedAs(v, e, r) else forall e :: Listed(v, e) ==> e.key != Uint(r.nameId)
  {
    var external := EntriesOf(Lookup(v, "external"));
    forall e
      ensures e in external <==> Listed(v, e)
      ensures e in external && e.key == Uint(r.nameId) && Describes(e.val, r) <==> ListedAs(v, e, r)
    {
      ListedIff(v, e);
      ListedAsIff(v, e, r);
    }
  }

  lemma NamedIff(v: Value, records: seq<Record>)
    requires Read(v) && NamesRule(v)
    ensures (forall r :: r in records ==> r.nameId < |Lookup(v, "names").value.items|)
      <==> forall names, r :: Field(v, Ascii("names"), Array(names)) && r in records ==> r.nameId < |names|
  {
    LookupAll(v, "names");
    assert Field(v, Ascii("names"), Array(Lookup(v, "names").value.items));
  }

  lemma PathsNamedIff(v: Value, records: seq<Record>)
    requires Read(v)
    ensures (forall e :: e in EntriesOf(Lookup(v, "paths")) ==> IsNamed(e, records))
      <==> forall e :: InMap(v, Ascii("paths"), e) ==> exists r :: r in records && e.key == Uint(r.nameId)
  {
    forall e
      ensures e in EntriesOf(Lookup(v, "paths")) <==> InMap(v, Ascii("paths"), e)
    {
      InMapIff(v, "paths", e);
    }
  }

  lemma AgreesIff(v: Value, records: seq<Record>)
    requires Read(v) && LocalRules(v)
    ensures TableRules(v, records) <==> Agrees(v, records)
  {
    NamedIff(v, records);
    PathsNamedIff(v, records);
    RecordsAgreeIff(v, records);
  }

  /** A manifest that keeps the schema and agrees with the table. */
  ghost predicate SchemaOk(m: seq<byte>, records: seq<Record>) {
    exists v :: Means(m, v) && Nesting(v) <= 16 && Schema(v) && Agrees(v, records)
  }

  /** The manifests accepted for a table are those whose bytes are a map of the schema that agrees with it. */
  lemma ManifestIff(m: seq<byte>, records: seq<Record>)
    requires |m| < U64_RANGE
    ensures ManifestOk(m, records) <==> SchemaOk(m, records)
  {
    DecodeMeans(m);
    if Decode(m).Ok? {
      var v := Decode(m).value;
      DecodeIff(m, v);
      SchemaIff(v);
      if LocalRules(v) {
        AgreesIff(v, records);
      }
    }
  }
}
