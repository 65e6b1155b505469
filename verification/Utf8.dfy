/** Well-formed UTF-8 (the byte sequences of section 4 of RFC 3629) and the character
    boundaries at which a `str` may be sliced. */
module Utf8 {
  import opened Bytes

  predicate IsContinuation(b: byte) {
    0x80 <= b < 0xC0
  }

  /** The length of the well-formed character `s` begins with, 0 when there is none. */
  function CharWidth(s: seq<byte>): (w: nat)
    ensures w <= |s|
    ensures forall i :: 0 < i < w ==> IsContinuation(s[i])
    ensures w > 0 ==> !IsContinuation(s[0])
  {
    if s == [] then 0
    else if s[0] < 0x80 then 1
    else if 0xC2 <= s[0] <= 0xDF && |s| >= 2 && IsContinuation(s[1]) then 2
    else if |s| >= 3 && IsContinuation(s[1]) && IsContinuation(s[2])
            && (   (s[0] == 0xE0 && 0xA0 <= s[1])
                || (0xE1 <= s[0] <= 0xEC)
                || (s[0] == 0xED && s[1] <= 0x9F)
                || (0xEE <= s[0] <= 0xEF)) then 3
    else if |s| >= 4 && IsContinuation(s[1]) && IsContinuation(s[2]) && IsContinuation(s[3])
            && (   (s[0] == 0xF0 && 0x90 <= s[1])
                || (0xF1 <= s[0] <= 0xF3)
                || (s[0] == 0xF4 && s[1] <= 0x8F)) then 4
    else 0
  }

  predicate ValidUtf8(s: seq<byte>)
    decreases |s|
  {
    s == [] || (CharWidth(s) > 0 && ValidUtf8(s[CharWidth(s)..]))
  }

  /** `str::is_char_boundary`: slicing a `str` anywhere else panics. */
  predicate Boundary(s: seq<byte>, k: nat) {
    k <= |s| && (k == 0 || k == |s| || !IsContinuation(s[k]))
  }

  /** `&s[lo..hi]` on a `str`; the precondition is the source's panic condition. */
  function Slice(s: seq<byte>, lo: nat, hi: nat): seq<byte>
    requires lo <= hi <= |s|
    requires Boundary(s, lo) && Boundary(s, hi)
  {
    s[lo..hi]
  }

  /** In valid text an ASCII byte is a whole character, so text may be cut on both sides of it. */
  lemma {:induction false} AsciiBoundaries(s: seq<byte>, k: nat)
    requires ValidUtf8(s)
    requires k < |s| && s[k] < 0x80
    ensures Boundary(s, k) && Boundary(s, k + 1)
    decreases |s|
  {
    var w := CharWidth(s);
    if k == 0 {
      assert w == 1;
      if |s| > 1 {
        assert CharWidth(s[1..]) > 0 && s[1..][0] == s[1];
      }
    } else {
      assert w <= k;
      AsciiBoundaries(s[w..], k - w);
    }
  }

  lemma {:induction false} AsciiIsValid(s: seq<byte>)
    requires IsAscii(s)
    ensures ValidUtf8(s)
    decreases |s|
  {
    if s != [] {
      AsciiIsValid(s[1..]);
    }
  }

  /** The first character does not depend on what follows it. */
  lemma WidthByPrefix(a: seq<byte>, b: seq<byte>)
    requires CharWidth(a) > 0 || 0 < CharWidth(a + b) <= |a|
    ensures CharWidth(a + b) == CharWidth(a)
  {
    assert forall i :: 0 <= i < |a| ==> (a + b)[i] == a[i];
  }

  lemma {:induction false} ConcatIsValid(a: seq<byte>, b: seq<byte>)
    requires ValidUtf8(a) && ValidUtf8(b)
    ensures ValidUtf8(a + b)
    decreases |a|
  {
    if a == [] {
      assert a + b == b;
    } else {
      var w := CharWidth(a);
      WidthByPrefix(a, b);
      hide CharWidth;
      assert (a + b)[w..] == a[w..] + b;
      ConcatIsValid(a[w..], b);
    }
  }

  /** Cutting valid text at a boundary leaves two valid texts. */
  lemma {:induction false} SplitIsValid(s: seq<byte>, k: nat)
    requires ValidUtf8(s) && Boundary(s, k)
    ensures ValidUtf8(s[..k]) && ValidUtf8(s[k..])
    decreases |s|
  {
    if k == 0 {
      assert s[k..] == s;
    } else {
      var w := CharWidth(s);
      assert w <= k;
      assert s[..k] + s[k..] == s;
      WidthByPrefix(s[..k], s[k..]);
      assert Boundary(s[w..], k - w);
      hide CharWidth;
      SplitIsValid(s[w..], k - w);
      assert s[w..][k - w..] == s[k..];
      assert s[..k][w..] == s[w..][..k - w];
    }
  }

  lemma SliceIsValid(s: seq<byte>, lo: nat, hi: nat)
    requires ValidUtf8(s)
    requires lo <= hi <= |s| && Boundary(s, lo) && Boundary(s, hi)
    ensures ValidUtf8(Slice(s, lo, hi))
  {
    SplitIsValid(s, hi);
    assert Boundary(s[..hi], lo);
    SplitIsValid(s[..hi], lo);
    assert s[..hi][lo..] == s[lo..hi];
  }

  /** The boundaries are the places where valid text can be cut into two valid texts. */
  lemma BoundaryExactly(s: seq<byte>, k: nat)
    requires ValidUtf8(s) && k <= |s|
    ensures Boundary(s, k) <==> ValidUtf8(s[..k]) && ValidUtf8(s[k..])
  {
    if Boundary(s, k) {
      SplitIsValid(s, k);
    } else {
      assert s[k..][0] == s[k];
    }
  }

  // ---------------------------------------------------------------------------------------------
  // Characters by number
  // ---------------------------------------------------------------------------------------------

  /** Every code point but the surrogates. */
  predicate IsScalar(c: int) {
    0 <= c < 0xD800 || 0xE000 <= c < 0x11_0000
  }

  /** The bytes of a character, six bits to each byte after the first. */
  function EncodeScalar(c: int): (s: seq<byte>)
    requires IsScalar(c)
    ensures s != []
  {
    if c < 0x80 then [c]
    else if c < 0x800 then [0xC0 + c / 64, 0x80 + c % 64]
    else if c < 0x1_0000 then [0xE0 + c / 4096, 0x80 + c / 64 % 64, 0x80 + c % 64]
    else [0xF0 + c / 262144, 0x80 + c / 4096 % 64, 0x80 + c / 64 % 64, 0x80 + c % 64]
  }

  /** The table accepts the bytes of every character, whatever follows. */
  lemma ScalarHasWidth(c: int, rest: seq<byte>)
    requires IsScalar(c)
    ensures CharWidth(EncodeScalar(c) + rest) == |EncodeScalar(c)|
  {
    if c < 0x800 {
      var s := EncodeScalar(c) + rest;
      assert s[0] == EncodeScalar(c)[0];
    } else if c < 0x1_0000 {
      ThreeHaveWidth(c, rest);
    } else {
      FourHaveWidth(c, rest);
    }
  }

  lemma ThreeHaveWidth(c: int, rest: seq<byte>)
    requires IsScalar(c) && 0x800 <= c < 0x1_0000
    ensures CharWidth(EncodeScalar(c) + rest) == 3
  {
    var s, a, b := EncodeScalar(c) + rest, c / 4096, c / 64 % 64;
    assert s[0] == 0xE0 + a && s[1] == 0x80 + b && s[2] == 0x80 + c % 64;
    assert a < 16 && (a == 0 ==> b >= 32) && (a == 13 ==> b < 32);
    hide EncodeScalar, IsScalar;
  }

  lemma FourHaveWidth(c: int, rest: seq<byte>)
    requires IsScalar(c) && c >= 0x1_0000
    ensures CharWidth(EncodeScalar(c) + rest) == 4
  {
    var s, a, b := EncodeScalar(c) + rest, c / 262144, c / 4096 % 64;
    assert s[0] == 0xF0 + a && s[1] == 0x80 + b && s[2] == 0x80 + c / 64 % 64 && s[3] == 0x80 + c % 64;
    assert a < 5 && (a == 0 ==> b >= 16) && (a == 4 ==> b < 16);
    hide EncodeScalar, IsScalar;
  }

  lemma SixBits(a: nat, b: nat)
    requires b < 64
    ensures (64 * a + b) / 64 == a && (64 * a + b) % 64 == b
  {
  }

  lemma ThreeByteScalar(a: nat, b: nat, d: nat)
    requires a < 16 && b < 64 && d < 64 && (a > 0 || b >= 32) && (a == 13 ==> b < 32)
    ensures var c := 4096 * a + 64 * b + d;
            IsScalar(c) && EncodeScalar(c) == [0xE0 + a, 0x80 + b, 0x80 + d]
  {
    var c := 4096 * a + 64 * b + d;
    SixBits(64 * a + b, d);
    SixBits(a, b);
    assert c / 64 == 64 * a + b && c / 4096 == a;
  }

  lemma FourByteScalar(a: nat, b: nat, d: nat, e: nat)
    requires a < 5 && b < 64 && d < 64 && e < 64 && (a > 0 || b >= 16) && (a == 4 ==> b < 16)
    ensures var c := 262144 * a + 4096 * b + 64 * d + e;
            IsScalar(c) && EncodeScalar(c) == [0xF0 + a, 0x80 + b, 0x80 + d, 0x80 + e]
  {
    var c := 262144 * a + 4096 * b + 64 * d + e;
    SixBits(4096 * a + 64 * b + d, e);
    SixBits(64 * a + b, d);
    SixBits(a, b);
    assert c / 64 == 4096 * a + 64 * b + d && c / 4096 == 64 * a + b && c / 262144 == a;
  }

  /** And nothing else. */
  lemma WidthHasScalar(s: seq<byte>) returns (c: int)
    requires CharWidth(s) > 0
    ensures IsScalar(c) && EncodeScalar(c) == s[..CharWidth(s)]
  {
    var w := CharWidth(s);
    if w == 1 {
      c := s[0];
    } else if w == 2 {
      var a, b := s[0] as int - 0xC0, s[1] as int - 0x80;
      c := 64 * a + b;
      SixBits(a, b);
      assert s[..2] == [0xC0 + a, 0x80 + b];
    } else if w == 3 {
      var a, b, d := s[0] as int - 0xE0, s[1] as int - 0x80, s[2] as int - 0x80;
      c := 4096 * a + 64 * b + d;
      ThreeByteScalar(a, b, d);
      assert s[..3] == [0xE0 + a, 0x80 + b, 0x80 + d];
    } else {
      var a, b, d, e := s[0] as int - 0xF0, s[1] as int - 0x80, s[2] as int - 0x80, s[3] as int - 0x80;
      c := 262144 * a + 4096 * b + 64 * d + e;
      FourByteScalar(a, b, d, e);
      assert s[..4] == [0xF0 + a, 0x80 + b, 0x80 + d, 0x80 + e];
    }
  }

  function EncodeText(text: seq<int>): seq<byte>
    requires forall c :: c in text ==> IsScalar(c)
  {
    if text == [] then [] else EncodeScalar(text[0]) + EncodeText(text[1..])
  }

  lemma {:induction false} TextIsValid(text: seq<int>)
    requires forall c :: c in text ==> IsScalar(c)
    ensures ValidUtf8(EncodeText(text))
  {
    if text != [] {
      var rest := EncodeText(text[1..]);
      TextIsValid(text[1..]);
      ScalarHasWidth(text[0], rest);
      assert (EncodeScalar(text[0]) + rest)[|EncodeScalar(text[0])|..] == rest;
      hide CharWidth;
    }
  }

  lemma EncodeOneMore(c: int, text: seq<int>)
    requires IsScalar(c) && forall d :: d in text ==> IsScalar(d)
    ensures forall d :: d in [c] + text ==> IsScalar(d)
    ensures EncodeText([c] + text) == EncodeScalar(c) + EncodeText(text)
  {
    hide IsScalar, EncodeScalar;
    assert ([c] + text)[1..] == text;
  }

  lemma ValidRest(s: seq<byte>)
    requires ValidUtf8(s) && s != []
    ensures 0 < CharWidth(s) <= |s| && ValidUtf8(s[CharWidth(s)..])
  {
    hide CharWidth;
  }

  lemma Rejoin(s: seq<byte>, w: nat)
    requires w <= |s|
    ensures s[..w] + s[w..] == s
  {
  }

  lemma {:induction false} ValidHasText(s: seq<byte>) returns (text: seq<int>)
    requires ValidUtf8(s)
    ensures (forall c :: c in text ==> IsScalar(c)) && EncodeText(text) == s
    decreases |s|
  {
    if s == [] {
      text := [];
    } else {
      hide CharWidth, IsScalar, EncodeScalar, ValidUtf8, EncodeText;
      ValidRest(s);
      Rejoin(s, CharWidth(s));
      var c := WidthHasScalar(s);
      var rest := ValidHasText(s[CharWidth(s)..]);
      text := [c] + rest;
      EncodeOneMore(c, rest);
    }
  }

  /** Valid text is a sequence of characters. */
  lemma ValidIsText(s: seq<byte>)
    ensures ValidUtf8(s) <==> exists text: seq<int> :: (forall c :: c in text ==> IsScalar(c)) && EncodeText(text) == s
  {
    hide CharWidth, EncodeScalar, IsScalar, EncodeText, ValidUtf8;
    if text: seq<int> :| (forall c :: c in text ==> IsScalar(c)) && EncodeText(text) == s {
      TextIsValid(text);
    }
    if ValidUtf8(s) {
      var text := ValidHasText(s);
    }
  }
}
