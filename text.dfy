/**
 Text and byte helpers the sync engine relies on: the byte view of file
 contents, the whitespace trimming and lower-casing applied to a pointer file,
 lower-case hex digests, and the path tests (suffix, extension, join).

 Go strings are byte strings. A pointer file is read here one character per
 byte, so lengths are byte lengths, as `len` counts them in Go. Whitespace and
 case are the ASCII ones.
 */
module Text {

  newtype byte = x: int | 0 <= x < 256
  type Bytes = seq<byte>

  /** The text of a byte string, one character per byte (Go's `string(b)`). */
  function Chars(b: Bytes): (s: string)
    ensures |s| == |b|
    ensures forall i :: 0 <= i < |b| ==> s[i] as int == b[i] as int
  {
    seq(|b|, i requires 0 <= i < |b| => b[i] as int as char)
  }

  predicate IsByteText(s: string) {
    forall i :: 0 <= i < |s| ==> s[i] as int < 256
  }

  /** The bytes of a text whose characters all fit in a byte (Go's `[]byte(s)`). */
  function BytesOf(s: string): (b: Bytes)
    requires IsByteText(s)
    ensures |b| == |s|
    ensures forall i :: 0 <= i < |s| ==> b[i] as int == s[i] as int
  {
    seq(|s|, i requires 0 <= i < |s| => s[i] as int as byte)
  }

  /** Writing a text out as bytes and reading it back gives the same text. */
  lemma CharsOfBytesOf(s: string)
    requires IsByteText(s)
    ensures Chars(BytesOf(s)) == s
  {
    var t := Chars(BytesOf(s));
    assert |t| == |s|;
    forall i | 0 <= i < |s| ensures t[i] == s[i] {
      assert t[i] as int == s[i] as int;
    }
  }

  // ---------------------------------------------------------------------------
  // Whitespace trimming (strings.TrimSpace)

  /** ASCII white space: tab, line feed, vertical tab, form feed, carriage return, space. */
  predicate IsSpace(c: char) {
    c == ' ' || '\t' <= c <= '\r'
  }

  predicate AllSpace(s: string) {
    forall i :: 0 <= i < |s| ==> IsSpace(s[i])
  }

  /** True when `s` neither starts nor ends with white space. */
  predicate Trimmed(s: string) {
    s == [] || (!IsSpace(s[0]) && !IsSpace(s[|s| - 1]))
  }

  /** Drops the leading white space: the result is the longest suffix starting with a non-space. */
  function TrimLeft(s: string): (r: string)
    ensures |r| <= |s| && r == s[|s| - |r|..]
    ensures AllSpace(s[..|s| - |r|])
    ensures r == [] || !IsSpace(r[0])
  {
    if s != [] && IsSpace(s[0]) then TrimLeft(s[1..]) else s
  }

  /** Drops the trailing white space: the result is the longest prefix ending with a non-space. */
  function TrimRight(s: string): (r: string)
    ensures |r| <= |s| && r == s[..|r|]
    ensures AllSpace(s[|r|..])
    ensures r == [] || !IsSpace(r[|r| - 1])
  {
    if s != [] && IsSpace(s[|s| - 1]) then TrimRight(s[..|s| - 1]) else s
  }

  /** strings.TrimSpace: a slice of `s` with no white space at either end. */
  function TrimSpace(s: string): (r: string)
    ensures Trimmed(r)
    ensures |r| <= |s|
  {
    TrimLeft(TrimRight(s))
  }

  lemma {:induction false} TrimLeftPadded(pre: string, x: string)
    requires AllSpace(pre)
    requires x == [] || !IsSpace(x[0])
    ensures TrimLeft(pre + x) == x
  {
    if pre != [] {
      assert (pre + x)[1..] == pre[1..] + x;
      TrimLeftPadded(pre[1..], x);
    }
  }

  lemma {:induction false} TrimRightPadded(x: string, post: string)
    requires AllSpace(post)
    requires x == [] || !IsSpace(x[|x| - 1])
    ensures TrimRight(x + post) == x
  {
    if post != [] {
      assert (x + post)[..|x + post| - 1] == x + post[..|post| - 1];
      TrimRightPadded(x, post[..|post| - 1]);
    }
  }

  /** TrimSpace removes exactly the white space around a text that has none at its ends. */
  lemma TrimSpacePadded(pre: string, x: string, post: string)
    requires AllSpace(pre) && AllSpace(post)
    requires Trimmed(x)
    ensures TrimSpace(pre + x + post) == x
  {
    if x == [] {
      assert pre + x + post == pre + post;
      TrimRightPadded(x, pre + post);
      assert TrimRight(pre + post) == [];
    } else {
      assert pre + x + post == pre + (x + post);
      TrimRightPadded(pre + x, post);
      assert TrimRight(pre + x + post) == pre + x;
      TrimLeftPadded(pre, x);
    }
  }

  // ---------------------------------------------------------------------------
  // Lower-casing (strings.ToLower)

  function LowerChar(c: char): char {
    if 'A' <= c <= 'Z' then (c as int + 32) as char else c
  }

  /** strings.ToLower on ASCII: every upper-case letter becomes its lower-case letter. */
  function ToLower(s: string): (r: string)
    ensures |r| == |s|
  {
    seq(|s|, i requires 0 <= i < |s| => LowerChar(s[i]))
  }

  predicate HasNoUpper(s: string) {
    forall i :: 0 <= i < |s| ==> !('A' <= s[i] <= 'Z')
  }

  /** Lower-casing leaves no upper-case letter and keeps a text without one unchanged. */
  lemma ToLowerNormalises(s: string)
    ensures HasNoUpper(ToLower(s))
    ensures HasNoUpper(s) ==> ToLower(s) == s
  {
  }

  /** The normal form of a pointer file's text: trimmed, then lower-cased. */
  function NormalizePointer(s: string): (r: string)
    ensures |r| <= |s|
    ensures HasNoUpper(r)
  {
    ToLowerNormalises(TrimSpace(s));
    ToLower(TrimSpace(s))
  }

  // ---------------------------------------------------------------------------
  // Hex digests

  predicate IsLowerHex(c: char) {
    '0' <= c <= '9' || 'a' <= c <= 'f'
  }

  predicate IsHex(c: char) {
    IsLowerHex(c) || 'A' <= c <= 'F'
  }

  /** A SHA-1 digest as calcSha1 prints it: 40 lower-case hex digits. */
  predicate IsDigest(s: string) {
    |s| == 40 && forall i :: 0 <= i < |s| ==> IsLowerHex(s[i])
  }

  /** A digest is already in normal form, so it survives the pointer normalisation. */
  lemma NormalizeDigest(h: string)
    requires IsDigest(h)
    ensures NormalizePointer(h) == h
  {
    assert [] + h + [] == h;
    TrimSpacePadded([], h, []);
    assert TrimSpace(h) == h;
    ToLowerNormalises(h);
  }

  /** A pointer holding 40 hex digits of either case, padded with white space,
      normalises to those digits in lower case, and to a digest. */
  lemma NormalizePaddedPointer(pre: string, h: string, post: string)
    requires AllSpace(pre) && AllSpace(post)
    requires |h| == 40 && forall i :: 0 <= i < |h| ==> IsHex(h[i])
    ensures NormalizePointer(pre + h + post) == ToLower(h)
    ensures IsDigest(NormalizePointer(pre + h + post))
  {
    TrimSpacePadded(pre, h, post);
  }

  /** A digest is made of bytes only. */
  lemma DigestIsByteText(h: string)
    requires IsDigest(h)
    ensures IsByteText(h)
  {
  }

  // ---------------------------------------------------------------------------
  // Paths

  predicate HasSuffix(s: string, suffix: string) {
    |suffix| <= |s| && s[|s| - |suffix|..] == suffix
  }

  /** strings.TrimSuffix: drops one copy of `suffix` when `s` ends with it. */
  function TrimSuffix(s: string, suffix: string): (r: string)
    ensures HasSuffix(s, suffix) ==> r + suffix == s
    ensures !HasSuffix(s, suffix) ==> r == s
  {
    if HasSuffix(s, suffix) then s[..|s| - |suffix|] else s
  }

  /** filepath.Ext: the text from the last dot of the last path element on, or "". */
  function Ext(path: string): (e: string)
    ensures e == [] || (e[0] == '.' && HasSuffix(path, e))
    ensures forall i :: 1 <= i < |e| ==> e[i] != '.' && e[i] != '/'
  {
    if path == [] || path[|path| - 1] == '/' then []
    else if path[|path| - 1] == '.' then ['.']
    else
      var e := Ext(path[..|path| - 1]);
      if e == [] then [] else e + [path[|path| - 1]]
  }

  const PointerSuffix: string := ".sha1"

  /** filepath.Ext selects ".sha1" exactly for the paths that strings.TrimSuffix
      would shorten, so every file the directory walk hands to Get passes Get's
      suffix check, and no other file does. */
  lemma ExtIsPointerSuffix(path: string)
    ensures Ext(path) == PointerSuffix <==> HasSuffix(path, PointerSuffix)
  {
    if HasSuffix(path, PointerSuffix) {
      var q := path[..|path| - 5];
      assert path == q + ['.'] + ['s'] + ['h'] + ['a'] + ['1'];
      ExtAfterDot(q);
      ExtAfterChar(q + ['.'], 's');
      ExtAfterChar(q + ['.'] + ['s'], 'h');
      ExtAfterChar(q + ['.'] + ['s'] + ['h'], 'a');
      ExtAfterChar(q + ['.'] + ['s'] + ['h'] + ['a'], '1');
    }
  }

  lemma ExtAfterDot(p: string)
    ensures Ext(p + ['.']) == "."
  {
    assert (p + ['.'])[|p + ['.']| - 1] == '.';
  }

  lemma ExtAfterChar(p: string, c: char)
    requires c != '.' && c != '/'
    ensures Ext(p + [c]) == if Ext(p) == [] then [] else Ext(p) + [c]
  {
    assert (p + [c])[..|p + [c]| - 1] == p;
  }

  /** filepath.Join of a directory and one of its entry names. */
  function Join(dir: string, name: string): (p: string)
    ensures HasSuffix(p, name) && |p| > |name|
  {
    dir + "/" + name
  }
}
