/** The textual form of a digest: "%02x" for each byte, so 128 lowercase
    hexadecimal characters for a Whirlpool digest, and what the check's
    case-insensitive comparison of that text with a recorded digest means. */
module Hex {
  import opened Wrappers
  import opened CStrings
  import opened Whirlpool

  /** The "%x" digit of a value below 16: '0' to '9', then 'a' to 'f'. */
  function HexDigit(v: nat): char
    requires v < 16
  {
    if v < 10 then ('0' as int + v) as char else ('a' as int + v - 10) as char
  }

  predicate IsLowerHexDigit(c: char) {
    '0' <= c <= '9' || 'a' <= c <= 'f'
  }

  /** sprintf(p, "%02x", b): the high nibble, then the low one. */
  function HexByte(b: byte): string {
    [HexDigit(b as int / 16), HexDigit(b as int % 16)]
  }

  /** The bytes of d rendered one after the other. */
  function HexOf(d: seq<byte>): (h: string)
    ensures |h| == 2 * |d|
  {
    if d == [] then [] else HexOf(d[..|d| - 1]) + HexByte(d[|d| - 1])
  }

  /** Byte i of d is rendered at positions 2i and 2i + 1. */
  lemma {:induction false} HexOfAt(d: seq<byte>, i: nat)
    requires i < |d|
    ensures HexOf(d)[2 * i..2 * i + 2] == HexByte(d[i])
  {
    if i < |d| - 1 {
      var init := d[..|d| - 1];
      HexOfAt(init, i);
      assert init[i] == d[i];
      assert HexOf(d)[2 * i..2 * i + 2] == HexOf(init)[2 * i..2 * i + 2];
    }
  }

  /** Every character of the rendering is a lowercase hex digit. */
  lemma {:induction false} HexOfDigits(d: seq<byte>)
    ensures forall k :: 0 <= k < |HexOf(d)| ==> IsLowerHexDigit(HexOf(d)[k])
  {
    if d != [] {
      HexOfDigits(d[..|d| - 1]);
      var b := d[|d| - 1];
      assert IsLowerHexDigit(HexByte(b)[0]) && IsLowerHexDigit(HexByte(b)[1]);
    }
  }

  /** The value of a hex digit, of either case. */
  function Nibble(c: char): (v: Option<nat>)
    ensures v.Some? ==> v.value < 16
  {
    if '0' <= c <= '9' then Some(c as int - '0' as int)
    else if 'a' <= c <= 'f' then Some(c as int - 'a' as int + 10)
    else if 'A' <= c <= 'F' then Some(c as int - 'A' as int + 10)
    else None
  }

  /** Hex text back to bytes, either case accepted; None when the text is
      not an even number of hex digits. The inverse of HexOf. */
  function Unhex(h: string): Option<seq<byte>>
    decreases |h|
  {
    if h == [] then Some([])
    else if |h| == 1 then None
    else
      var init, hi, lo := Unhex(h[..|h| - 2]), Nibble(h[|h| - 2]), Nibble(h[|h| - 1]);
      if init.Some? && hi.Some? && lo.Some? then Some(init.value + [(hi.value * 16 + lo.value) as byte])
      else None
  }

  lemma NibbleOfDigit(v: nat)
    requires v < 16
    ensures Nibble(HexDigit(v)) == Some(v)
  {
  }

  lemma NibbleLower(c: char, v: nat)
    requires Nibble(c) == Some(v)
    ensures v < 16 && HexDigit(v) == ToLower(c)
  {
  }

  /** A byte is its two nibbles put back together. */
  lemma ByteOfNibbles(b: byte)
    ensures (b as int / 16 * 16 + b as int % 16) as byte == b
  {
    assert b as int / 16 * 16 + b as int % 16 == b as int;
  }

  /** The nibbles of a byte put together from two. */
  lemma NibblesOfByte(hi: nat, lo: nat)
    requires hi < 16 && lo < 16
    ensures ((hi * 16 + lo) as byte) as int / 16 == hi
    ensures ((hi * 16 + lo) as byte) as int % 16 == lo
  {
    assert ((hi * 16 + lo) as byte) as int == hi * 16 + lo;
  }

  /** Decoding the rendering gives the digest back. */
  lemma {:induction false} UnhexHexOf(d: seq<byte>)
    ensures Unhex(HexOf(d)) == Some(d)
    decreases |d|
  {
    if d != [] {
      var init, b := d[..|d| - 1], d[|d| - 1];
      var h := HexOf(d);
      UnhexHexOf(init);
      assert h[..|h| - 2] == HexOf(init);
      var hi, lo := b as int / 16, b as int % 16;
      assert h[|h| - 2] == HexDigit(hi) && h[|h| - 1] == HexDigit(lo);
      NibbleOfDigit(hi);
      NibbleOfDigit(lo);
      ByteOfNibbles(b);
      assert Unhex(h) == Some(init + [(hi * 16 + lo) as byte]);
      assert init + [b] == d;
    }
  }

  /** Text that decodes to d is the rendering of d up to case. */
  lemma {:induction false} LowerOfUnhex(h: string, d: seq<byte>)
    requires Unhex(h) == Some(d)
    ensures LowerStr(h) == HexOf(d)
    decreases |h|
  {
    if h != [] {
      var init := Unhex(h[..|h| - 2]).value;
      var hi, lo := Nibble(h[|h| - 2]).value, Nibble(h[|h| - 1]).value;
      LowerOfUnhex(h[..|h| - 2], init);
      NibbleLower(h[|h| - 2], hi);
      NibbleLower(h[|h| - 1], lo);
      var b := (hi * 16 + lo) as byte;
      assert d == init + [b];
      assert d[..|d| - 1] == init;
      NibblesOfByte(hi, lo);
      assert LowerStr(h) == LowerStr(h[..|h| - 2]) + [ToLower(h[|h| - 2]), ToLower(h[|h| - 1])];
    }
  }

  /** Lower-casing the rendering leaves it as it is. */
  lemma LowerOfHexOf(d: seq<byte>)
    ensures LowerStr(HexOf(d)) == HexOf(d)
  {
    HexOfDigits(d);
    var h := HexOf(d);
    forall k | 0 <= k < |h| ensures LowerStr(h)[k] == h[k] {
      assert IsLowerHexDigit(h[k]);
    }
  }

  /** The check's strcasecmp of the rendered digest with a recorded text
      succeeds exactly when the recorded text decodes, in either case, to the
      same bytes: textual comparison is byte-wise comparison of digests. */
  lemma MatchMeansSameBytes(d: seq<byte>, recorded: string)
    ensures StrCaseEq(HexOf(d), recorded) <==> Unhex(recorded) == Some(d)
  {
    StrCaseEqIff(HexOf(d), recorded);
    LowerOfHexOf(d);
    if Unhex(recorded) == Some(d) {
      LowerOfUnhex(recorded, d);
    }
    if LowerStr(recorded) == HexOf(d) {
      UnhexLower(recorded);
      UnhexHexOf(d);
    }
  }

  /** Decoding does not depend on case. */
  lemma {:induction false} UnhexLower(h: string)
    ensures Unhex(LowerStr(h)) == Unhex(h)
    decreases |h|
  {
    if |h| >= 2 {
      var l := LowerStr(h);
      assert l[..|l| - 2] == LowerStr(h[..|h| - 2]);
      UnhexLower(h[..|h| - 2]);
      NibbleToLower(h[|h| - 2]);
      NibbleToLower(h[|h| - 1]);
      assert l[|l| - 2] == ToLower(h[|h| - 2]) && l[|l| - 1] == ToLower(h[|h| - 1]);
    }
  }

  lemma NibbleToLower(c: char)
    ensures Nibble(ToLower(c)) == Nibble(c)
  {
  }

  /** A digest recorded in uppercase still matches. */
  lemma UppercaseMatches(d: seq<byte>)
    ensures StrCaseEq(HexOf(d), UpperStr(HexOf(d)))
  {
    var h := HexOf(d);
    StrCaseEqIff(h, UpperStr(h));
    forall k | 0 <= k < |h| ensures LowerStr(UpperStr(h))[k] == LowerStr(h)[k] {
      LowerOfUpper(h[k]);
    }
  }

  lemma LowerOfUpper(c: char)
    ensures ToLower(ToUpper(c)) == ToLower(c)
  {
  }

  /** The rendering loop of the check (whirlpoolsum.c:280-285): at
      digest_ptr, sprintf writes the two digits of each byte and a NUL, and
      digest_ptr moves on by the two characters written. The buffer ends up
      holding the C string of the 128-character rendering. */
  method RenderHex(digest: Digest, buf: array<char>)
    requires buf.Length == 2 * DIGESTBYTES + 1
    modifies buf
    ensures buf[..2 * DIGESTBYTES] == HexOf(digest)
    ensures buf[2 * DIGESTBYTES] == NUL
    ensures CStr(buf[..]) == HexOf(digest)
  {
    var p := 0;
    for i := 0 to DIGESTBYTES
      invariant p == 2 * i
      invariant buf[..p] == HexOf(digest[..i])
      invariant i > 0 ==> buf[p] == NUL
    {
      var h := HexByte(digest[i]);
      assert digest[..i + 1][..i] == digest[..i];
      buf[p] := h[0];
      buf[p + 1] := h[1];
      buf[p + 2] := NUL;
      p := p + 2;
    }
    assert digest[..DIGESTBYTES] == digest;
    HexTerminated(buf[..], digest);
  }

  /** A buffer holding a rendering followed by a NUL holds it as a C string. */
  lemma HexTerminated(s: string, d: seq<byte>)
    requires 2 * |d| < |s| && s[..2 * |d|] == HexOf(d) && s[2 * |d|] == NUL
    ensures CStr(s) == HexOf(d)
  {
    var hex := HexOf(d);
    HexOfDigits(d);
    forall k | 0 <= k < |hex| ensures hex[k] != NUL {
      assert IsLowerHexDigit(hex[k]);
    }
    CStrTerminated(s, hex);
  }
}
