/**
 The shapes of the texts in a manifest: challenge ids, section names and relative paths. Both
 implementations walk a name a character at a time to look for the characters that reorder
 the text around them; that finds one exactly where its three bytes stand. One splits a path
 and checks the pieces, the other scans it once: both check every component.
 */
module ManifestText {
  import opened Bytes
  import opened Cbor

  const MAX_NAME_LEN: nat := 255
  const MAX_PATH_LEN: nat := 4096
  const MAX_ID_LEN: nat := 64

  const SLASH: byte := 0x2f
  const BACKSLASH: byte := 0x5c
  const HYPHEN: byte := 0x2d
  const DELETE: byte := 0x7f

  // ----- bidirectional controls -----

  /** One of U+202A-U+202E and U+2066-U+2069 stands at `i`. */
  predicate BidiAt(s: seq<byte>, i: nat) {
    && i + 2 < |s| && s[i] == 0xe2
    && ((s[i + 1] == 0x80 && 0xaa <= s[i + 2] <= 0xae) || (s[i + 1] == 0x81 && 0xa6 <= s[i + 2] <= 0xa9))
  }

  predicate IsBidiControl(rune: nat) {
    0x202a <= rune <= 0x202e || 0x2066 <= rune <= 0x2069
  }

  /** The character `s` starts with; a byte that starts none stands for itself, as U+FFFD. */
  function Rune(s: seq<byte>): nat {
    match CharLen(s)
    case 1 => s[0] as int
    case 2 => (s[0] as int - 0xc0) * 0x40 + (s[1] as int - 0x80)
    case 3 => (s[0] as int - 0xe0) * 0x1000 + (s[1] as int - 0x80) * 0x40 + (s[2] as int - 0x80)
    case 4 => (s[0] as int - 0xf0) * 0x4_0000 + (s[1] as int - 0x80) * 0x1000 + (s[2] as int - 0x80) * 0x40 + (s[3] as int - 0x80)
    case _ => 0xfffd
  }

  function RuneLen(s: seq<byte>): (n: nat)
    requires s != []
    ensures 1 <= n <= |s|
  {
    if CharLen(s) == 0 then 1 else CharLen(s)
  }

  lemma BidiRune(s: seq<byte>)
    ensures IsBidiControl(Rune(s)) <==> BidiAt(s, 0)
  {
  }

  /** No character starts inside another. */
  lemma InsideRune(s: seq<byte>, k: nat)
    requires s != [] && 0 < k < RuneLen(s)
    ensures !BidiAt(s, k)
  {
    assert Tail(s[k]);
  }

  /** The walk over a name's characters. */
  method AnyBidi(s: seq<byte>) returns (found: bool)
    ensures found <==> exists i :: 0 <= i < |s| && BidiAt(s, i)
  {
    var pos := 0;
    while pos < |s|
      invariant pos <= |s| && forall i :: 0 <= i < pos ==> !BidiAt(s, i)
    {
      var rest := s[pos..];
      BidiRune(rest);
      if IsBidiControl(Rune(rest)) {
        assert BidiAt(s, pos);
        return true;
      }
      var n := RuneLen(rest);
      forall i | pos <= i < pos + n
        ensures !BidiAt(s, i)
      {
        var k := i - pos;
        if k > 0 {
          InsideRune(rest, k);
        }
        assert BidiAt(s, i) <==> BidiAt(rest, k);
      }
      pos := pos + n;
    }
    return false;
  }

  // ----- names -----

  predicate NameByte(c: byte) {
    c >= 0x20 && c != DELETE && c != SLASH && c != BACKSLASH
  }

  /** A section's name: M15. */
  predicate GoodName(n: seq<byte>) {
    && 1 <= |n| <= MAX_NAME_LEN && n != Ascii(".") && n != Ascii("..")
    && (forall i :: 0 <= i < |n| ==> NameByte(n[i]))
    && forall i :: 0 <= i < |n| ==> !BidiAt(n, i)
  }

  /** `check_name`. */
  method CheckName(n: seq<byte>) returns (ok: bool)
    ensures ok <==> GoodName(n)
  {
    if n == [] || |n| > MAX_NAME_LEN || n == Ascii(".") || n == Ascii("..") {
      return false;
    }
    if exists i :: 0 <= i < |n| && (n[i] == SLASH || n[i] == BACKSLASH || n[i] < 0x20 || n[i] == DELETE) {
      return false;
    }
    var bidi := AnyBidi(n);
    return !bidi;
  }

  /** `validName`. */
  method ValidName(s: seq<byte>) returns (ok: bool)
    ensures ok <==> GoodName(s)
  {
    if |s| < 1 || |s| > MAX_NAME_LEN {
      return false;
    }
    if s == Ascii(".") || s == Ascii("..") {
      return false;
    }
    for i := 0 to |s|
      invariant forall j :: 0 <= j < i ==> NameByte(s[j])
    {
      var c := s[i];
      if c < 0x20 || c == DELETE || c == SLASH || c == BACKSLASH {
        return false;
      }
    }
    var bidi := AnyBidi(s);
    return !bidi;
  }

  // ----- paths -----

  /** `p[a..z]` is all there is between two slashes, or a slash and an end. */
  predicate Component(p: seq<byte>, a: nat, z: nat) {
    && a <= z <= |p| && (a == 0 || p[a - 1] == SLASH) && (z == |p| || p[z] == SLASH)
    && forall i :: a <= i < z ==> p[i] != SLASH
  }

  /** A section's path: M23. */
  ghost predicate GoodPath(p: seq<byte>) {
    1 <= |p| <= MAX_PATH_LEN && forall a: nat, z: nat :: Component(p, a, z) ==> GoodName(p[a..z])
  }

  function NextSlash(p: seq<byte>, from: nat): (n: nat)
    requires from <= |p|
    ensures from <= n <= |p| && (n < |p| ==> p[n] == SLASH) && forall i :: from <= i < n ==> p[i] != SLASH
    decreases |p| - from
  {
    if from == |p| || p[from] == SLASH then from else NextSlash(p, from + 1)
  }

  /** What splitting at slashes returns, from a component's start on. */
  function Split(p: seq<byte>, from: nat): seq<seq<byte>>
    requires from <= |p|
    decreases |p| - from
  {
    var n := NextSlash(p, from);
    if n == |p| then [p[from..n]]
    else
      var next := n + 1;
      [p[from..n]] + Split(p, next)
  }

  /** The pieces are the components. */
  lemma {:induction false} PieceIsComponent(p: seq<byte>, from: nat, k: nat) returns (a: nat, z: nat)
    requires from <= |p| && (from == 0 || p[from - 1] == SLASH) && k < |Split(p, from)|
    ensures Component(p, a, z) && Split(p, from)[k] == p[a..z]
    decreases |p| - from
  {
    var n := NextSlash(p, from);
    if k == 0 {
      a, z := from, n;
    } else {
      var (next, j) := (n + 1, k - 1);
      a, z := PieceIsComponent(p, next, j);
    }
  }

  lemma {:induction false} ComponentIsPiece(p: seq<byte>, from: nat, a: nat, z: nat) returns (k: nat)
    requires from <= a && Component(p, a, z) && (from == 0 || p[from - 1] == SLASH)
    ensures k < |Split(p, from)| && Split(p, from)[k] == p[a..z]
    decreases |p| - from
  {
    var n := NextSlash(p, from);
    if a == from {
      k := 0;
    } else {
      assert p[a - 1] == SLASH;
      var next := n + 1;
      var j := ComponentIsPiece(p, next, a, z);
      k := j + 1;
    }
  }

  /** `check_path`: the pieces between slashes, each a name. */
  method CheckPath(p: seq<byte>) returns (ok: bool)
    ensures ok <==> GoodPath(p)
  {
    if p == [] || |p| > MAX_PATH_LEN {
      return false;
    }
    var pieces := Split(p, 0);
    for i := 0 to |pieces|
      invariant forall j :: 0 <= j < i ==> GoodName(pieces[j])
    {
      ok := CheckName(pieces[i]);
      if !ok {
        ghost var a, z := PieceIsComponent(p, 0, i);
        assert Component(p, a, z);
        return false;
      }
    }
    forall a: nat, z: nat | Component(p, a, z)
      ensures GoodName(p[a..z])
    {
      var k := ComponentIsPiece(p, 0, a, z);
    }
    return true;
  }

  /** The scan stands at `i`, in the component that starts at `start`; all before it are names. */
  ghost predicate Scanning(s: seq<byte>, start: nat, i: nat) {
    if i > |s| then forall a: nat, z: nat :: Component(s, a, z) ==> GoodName(s[a..z])
    else
      && start <= i && (start == 0 || s[start - 1] == SLASH) && (forall j :: start <= j < i ==> s[j] != SLASH)
      && forall a: nat, z: nat :: Component(s, a, z) && z < start ==> GoodName(s[a..z])
  }

  lemma ScanOn(s: seq<byte>, start: nat, i: nat, next: nat)
    requires Scanning(s, start, i) && i < |s| && s[i] != SLASH && next == i + 1
    ensures Scanning(s, start, next)
  {
  }

  lemma ScanOver(s: seq<byte>, start: nat, i: nat, next: nat)
    requires Scanning(s, start, i) && i <= |s| && (i == |s| || s[i] == SLASH) && next == i + 1
    ensures Component(s, start, i)
    ensures GoodName(s[start..i]) ==> Scanning(s, next, next)
  {
    if GoodName(s[start..i]) {
      forall a: nat, z: nat | Component(s, a, z) && z <= i
        ensures GoodName(s[a..z])
      {
        if z >= start {
          assert z == i && a == start;
        }
      }
    }
  }

  /** `validRelativePath`: one scan, checking a component at every slash and at the end. */
  method ValidRelativePath(s: seq<byte>) returns (ok: bool)
    ensures ok <==> GoodPath(s) && Utf8(s)
  {
    if |s| < 1 || |s| > MAX_PATH_LEN || !Utf8(s) {
      return false;
    }
    var start, i := 0, 0;
    while i <= |s|
      invariant i <= |s| + 1 && Scanning(s, start, i)
    {
      ghost var next := i + 1;
      if i == |s| || s[i] == SLASH {
        ScanOver(s, start, i, next);
        var comp := ValidName(s[start..i]);
        if !comp {
          return false;
        }
        start := i + 1;
      } else {
        ScanOn(s, start, i, next);
      }
      i := i + 1;
    }
    return true;
  }

  // ----- ids -----

  predicate IdByte(c: byte) {
    0x61 <= c <= 0x7a || 0x30 <= c <= 0x39 || c == HYPHEN
  }

  /** A challenge's id: M9. */
  predicate GoodId(s: seq<byte>) {
    && 1 <= |s| <= MAX_ID_LEN && s[0] != HYPHEN && s[|s| - 1] != HYPHEN
    && forall i :: 0 <= i < |s| ==> IdByte(s[i])
  }

  /** `validChallengeID`. */
  method ValidChallengeId(s: seq<byte>) returns (ok: bool)
    ensures ok <==> GoodId(s)
  {
    if |s| < 1 || |s| > MAX_ID_LEN {
      return false;
    }
    for i := 0 to |s|
      invariant forall j :: 0 <= j < i ==> IdByte(s[j])
    {
      var c := s[i];
      if !(0x61 <= c <= 0x7a) && !(0x30 <= c <= 0x39) && c != HYPHEN {
        return false;
      }
    }
    return s[0] != HYPHEN && s[|s| - 1] != HYPHEN;
  }
}
