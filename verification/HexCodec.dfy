/** The two hex codecs: the strict lowercase one for namespace ids in URLs, and the one retention
    uses for the author segment of a fix key, which also reads uppercase. */
module HexCodec {
  import opened Bytes
  import opened Ids

  predicate IsNibble(n: int) {
    0 <= n < 16
  }

  /** One character of `{:02x}`. */
  function HexChar(n: int): (c: byte)
    requires IsNibble(n)
  {
    if n < 10 then '0' as int + n else 'a' as int + n - 10
  }

  /** `{b:02x}` for every byte. */
  function Encode(bytes: seq<byte>): (s: seq<byte>)
    ensures |s| == 2 * |bytes|
  {
    if bytes == [] then [] else Encode(bytes[..|bytes| - 1]) + EncodeByte(bytes[|bytes| - 1])
  }

  function EncodeByte(b: byte): (s: seq<byte>)
    ensures |s| == 2
  {
    [HexChar(b / 16), HexChar(b % 16)]
  }

  /** `(hi << 4) | lo` on two nibbles prints as the two characters of the nibbles. */
  lemma EncodePair(front: seq<byte>, hi: int, lo: int)
    requires IsNibble(hi) && IsNibble(lo)
    ensures 0 <= hi * 16 + lo < 256
    ensures Encode(front + [hi * 16 + lo]) == Encode(front) + [HexChar(hi), HexChar(lo)]
  {
  }

  /** Each byte has its own two characters. */
  lemma {:induction false} EncodeAt(bytes: seq<byte>, i: nat)
    requires i < |bytes|
    ensures Encode(bytes)[2 * i..2 * i + 2] == EncodeByte(bytes[i])
  {
    var n := |bytes| - 1;
    if i < n {
      EncodeAt(bytes[..n], i);
      assert Encode(bytes)[2 * i..2 * i + 2] == Encode(bytes[..n])[2 * i..2 * i + 2];
    }
  }

  /** A nibble prints as the character at its place in the text. */
  lemma DigitText(n: int)
    requires IsNibble(n)
    ensures HexChar(n) == "0123456789abcdef"[n] as int
  {
    assert n == 0 || n == 1 || n == 2 || n == 3 || n == 4 || n == 5 || n == 6 || n == 7
        || n == 8 || n == 9 || n == 10 || n == 11 || n == 12 || n == 13 || n == 14 || n == 15;
  }

  lemma PrintedPair(bytes: seq<byte>, i: nat)
    requires i < |bytes|
    ensures Encode(bytes)[2 * i] == "0123456789abcdef"[bytes[i] / 16] as int
    ensures Encode(bytes)[2 * i + 1] == "0123456789abcdef"[bytes[i] % 16] as int
  {
    hide Encode, HexChar;
    EncodeAt(bytes, i);
    var pair := Encode(bytes)[2 * i..2 * i + 2];
    assert pair[0] == Encode(bytes)[2 * i] && pair[1] == Encode(bytes)[2 * i + 1];
    DigitText(bytes[i] / 16);
    DigitText(bytes[i] % 16);
  }

  /** Every byte prints as its high digit, then its low digit. */
  lemma PrintedDigits(bytes: seq<byte>)
    ensures forall i :: 0 <= i < |bytes| ==>
      && Encode(bytes)[2 * i] == "0123456789abcdef"[bytes[i] / 16] as int
      && Encode(bytes)[2 * i + 1] == "0123456789abcdef"[bytes[i] % 16] as int
  {
    hide Encode;
    forall i | 0 <= i < |bytes|
      ensures Encode(bytes)[2 * i] == "0123456789abcdef"[bytes[i] / 16] as int
      ensures Encode(bytes)[2 * i + 1] == "0123456789abcdef"[bytes[i] % 16] as int
    {
      PrintedPair(bytes, i);
    }
  }

  /** `lower_hex_val`: rejects uppercase. */
  function LowerHexVal(b: byte): (v: Option<int>)
    ensures v.Some? ==> IsNibble(v.value) && HexChar(v.value) == b
    ensures v.None? <==> !(IsDigit(b) || 'a' as int <= b <= 'f' as int)
  {
    if IsDigit(b) then Some(b - '0' as int)
    else if 'a' as int <= b <= 'f' as int then Some(b - 'a' as int + 10)
    else None
  }

  lemma LowerHexText(b: byte)
    ensures LowerHexVal(b).Some? <==> b as char in "0123456789abcdef"
  {
  }

  /** `char::to_digit(16)`: accepts both cases. */
  function ToDigit16(b: byte): (v: Option<int>)
    ensures v.Some? <==> IsHexDigit(b)
    ensures v.Some? ==> IsNibble(v.value) && HexChar(v.value) == ToLower(b)
  {
    if IsDigit(b) then Some(b - '0' as int)
    else if 'a' as int <= b <= 'f' as int then Some(b - 'a' as int + 10)
    else if 'A' as int <= b <= 'F' as int then Some(b - 'A' as int + 10)
    else None
  }

  lemma HexDigitText(b: byte)
    ensures IsHexDigit(b) <==> b as char in "0123456789abcdefABCDEF"
  {
  }

  /** The two cases of one digit. */
  lemma CaseText(b: byte, n: int)
    requires IsNibble(n) && ToLower(b) == HexChar(n)
    ensures b == "0123456789abcdef"[n] as int || b == "0123456789ABCDEF"[n] as int
  {
    DigitText(n);
    assert n == 0 || n == 1 || n == 2 || n == 3 || n == 4 || n == 5 || n == 6 || n == 7
        || n == 8 || n == 9 || n == 10 || n == 11 || n == 12 || n == 13 || n == 14 || n == 15;
  }

  /** Every printed character is a lowercase hex digit. */
  lemma {:induction false} EncodeIsLowerHex(bytes: seq<byte>)
    ensures forall i :: 0 <= i < |Encode(bytes)| ==>
      IsHexDigit(Encode(bytes)[i]) && ToLower(Encode(bytes)[i]) == Encode(bytes)[i]
  {
    if bytes != [] {
      EncodeIsLowerHex(bytes[..|bytes| - 1]);
    }
  }

  lemma {:induction false} EncodeInjective(a: seq<byte>, b: seq<byte>)
    requires Encode(a) == Encode(b)
    ensures a == b
  {
    assert |a| == |b|;
    forall i | 0 <= i < |a| ensures a[i] == b[i] {
      EncodeAt(a, i);
      EncodeAt(b, i);
      assert EncodeByte(a[i])[0] == EncodeByte(b[i])[0] && EncodeByte(a[i])[1] == EncodeByte(b[i])[1];
    }
  }

  // ---------------------------------------------------------------------------------------------
  // Namespace ids
  // ---------------------------------------------------------------------------------------------

  /** `namespace_hex` */
  method NamespaceHex(ns: NamespaceId) returns (s: seq<byte>)
    ensures s == Encode(ns.id) && |s| == 2 * |ns.id|
    ensures forall i :: 0 <= i < |ns.id| ==>
      && s[2 * i] == "0123456789abcdef"[ns.id[i] / 16] as int
      && s[2 * i + 1] == "0123456789abcdef"[ns.id[i] % 16] as int
  {
    PrintedDigits(ns.id);
    s := [];
    for i := 0 to |ns.id|
      invariant s == Encode(ns.id[..i])
    {
      assert ns.id[..i + 1][..i] == ns.id[..i];
      s := s + EncodeByte(ns.id[i]);
    }
    assert ns.id[..|ns.id|] == ns.id;
  }

  lemma OneMorePair(s: seq<byte>, i: nat, done: seq<byte>, hi: int, lo: int)
    requires 2 * i + 2 <= |s| && Encode(done) == s[..2 * i]
    requires IsNibble(hi) && IsNibble(lo) && HexChar(hi) == s[2 * i] && HexChar(lo) == s[2 * i + 1]
    ensures 0 <= hi * 16 + lo < 256
    ensures Encode(done + [hi * 16 + lo]) == s[..2 * (i + 1)]
  {
  }

  /** A text with a character that is not lowercase hex is no printed id. */
  lemma NotPrinted(s: seq<byte>, i: nat)
    requires |s| == 64 && i < 32
    requires LowerHexVal(s[2 * i]).None? || LowerHexVal(s[2 * i + 1]).None?
    ensures forall id: seq<byte> :: |id| == 32 ==> Encode(id) != s
  {
    forall id: seq<byte> | |id| == 32 ensures Encode(id) != s {
      EncodeAt(id, i);
      var pair := EncodeByte(id[i]);
      assert Encode(id)[2 * i] == pair[0] && Encode(id)[2 * i + 1] == pair[1];
      assert LowerHexVal(pair[0]).Some? && LowerHexVal(pair[1]).Some?;
    }
  }

  lemma NotLowerHex(s: seq<byte>, i: nat, j: nat)
    requires i < |s| && j < |s| && (LowerHexVal(s[i]).None? || LowerHexVal(s[j]).None?)
    ensures !(forall k :: 0 <= k < |s| ==> s[k] as char in "0123456789abcdef")
  {
    LowerHexText(s[i]);
    LowerHexText(s[j]);
  }

  lemma PrintedIsLowerHex(bytes: seq<byte>)
    ensures forall k :: 0 <= k < |Encode(bytes)| ==> Encode(bytes)[k] as char in "0123456789abcdef"
  {
    EncodeIsLowerHex(bytes);
    var s := Encode(bytes);
    hide Encode;
    forall k | 0 <= k < |s| ensures s[k] as char in "0123456789abcdef" {
      LowerHexText(s[k]);
      assert LowerHexVal(s[k]).Some?;
    }
  }

  /** `parse_namespace_hex`: it accepts exactly the 64-character lower-case texts, which are the printed
      forms of the 32-byte ids, and returns the id whose bytes the pairs of digits name. */
  method ParseNamespaceHex(s: seq<byte>) returns (r: Option<NamespaceId>)
    ensures r.Some? ==> |r.value.id| == 32 && Encode(r.value.id) == s
    ensures r.None? ==> forall id: seq<byte> :: |id| == 32 ==> Encode(id) != s
    ensures r.Some? <==> |s| == 64 && forall j :: 0 <= j < 64 ==> s[j] as char in "0123456789abcdef"
    ensures r.Some? ==> forall i :: 0 <= i < 32 ==>
      && s[2 * i] == "0123456789abcdef"[r.value.id[i] / 16] as int
      && s[2 * i + 1] == "0123456789abcdef"[r.value.id[i] % 16] as int
  {
    hide Encode;
    if |s| != 64 {
      return None;
    }
    var out := new byte[32](_ => 0);
    for i := 0 to 32
      invariant Encode(out[..i]) == s[..2 * i]
    {
      var hi := LowerHexVal(s[2 * i]);
      var lo := LowerHexVal(s[2 * i + 1]);
      if hi.None? || lo.None? {
        NotPrinted(s, i);
        NotLowerHex(s, 2 * i, 2 * i + 1);
        return None;
      }
      ghost var done := out[..i];
      OneMorePair(s, i, done, hi.value, lo.value);
      var b: byte := hi.value * 16 + lo.value;
      out[i] := b;
      assert out[..i + 1] == done + [b];
    }
    assert s[..64] == s && out[..32] == out[..];
    PrintedDigits(out[..]);
    PrintedIsLowerHex(out[..]);
    r := Some(NamespaceId(out[..]));
  }

  /** Print then parse returns the same id; parse then print returns the same text. */
  method NamespaceHexRoundTrip(ns: NamespaceId, s: seq<byte>) returns (parsed: Option<NamespaceId>, printed: Option<seq<byte>>)
    requires |ns.id| == 32
    ensures parsed == Some(ns)
    ensures printed.Some? <==> exists id: seq<byte> :: |id| == 32 && Encode(id) == s
    ensures printed.Some? ==> printed.value == s
  {
    var text := NamespaceHex(ns);
    parsed := ParseNamespaceHex(text);
    if parsed.Some? {
      EncodeInjective(parsed.value.id, ns.id);
    }
    var other := ParseNamespaceHex(s);
    if other.Some? {
      var again := NamespaceHex(other.value);
      printed := Some(again);
    } else {
      printed := None;
    }
  }

  // ---------------------------------------------------------------------------------------------
  // Author bytes
  // ---------------------------------------------------------------------------------------------

  predicate AllHexDigits(s: seq<byte>) {
    forall i :: 0 <= i < |s| ==> IsHexDigit(s[i])
  }

  /** The author bytes a hex text stands for, in either case. */
  function Decode(s: seq<byte>): Option<seq<byte>>
  {
    if |s| % 2 != 0 then None
    else if s == [] then Some([])
    else
      var n := |s| - 2;
      var front, hi, lo := Decode(s[..n]), ToDigit16(s[n]), ToDigit16(s[n + 1]);
      if front.None? || hi.None? || lo.None? then None
      else Some(front.value + [hi.value * 16 + lo.value])
  }

  /** Decoding succeeds on exactly the even-length hex texts, and printing the result gives the text
      back with its letters in lower case. */
  lemma {:induction false} DecodeMeaning(s: seq<byte>)
    ensures Decode(s).Some? <==> |s| % 2 == 0 && AllHexDigits(s)
    ensures Decode(s).Some? ==> Encode(Decode(s).value) == Lowercase(s)
  {
    if |s| % 2 == 0 && s != [] {
      var n := |s| - 2;
      DecodeMeaning(s[..n]);
      DecodeStep(s, n);
    }
  }

  lemma DecodeStep(s: seq<byte>, n: nat)
    requires |s| == n + 2 && n % 2 == 0
    requires Decode(s[..n]).Some? <==> AllHexDigits(s[..n])
    requires Decode(s[..n]).Some? ==> Encode(Decode(s[..n]).value) == Lowercase(s[..n])
    ensures Decode(s).Some? <==> AllHexDigits(s)
    ensures Decode(s).Some? ==> Encode(Decode(s).value) == Lowercase(s)
  {
    hide Decode, Encode, AllHexDigits, Lowercase, IsHexDigit, ToDigit16, HexChar, ToLower;
    var front, hi, lo := s[..n], s[n], s[n + 1];
    assert s == front + [hi, lo];
    AllHexAppend(front, hi, lo);
    LowercaseAppend(front, hi, lo);
    DecodeLast(s, n);
    if Decode(s).Some? {
      EncodePair(Decode(front).value, ToDigit16(hi).value, ToDigit16(lo).value);
    }
  }

  lemma DecodeLast(s: seq<byte>, n: nat)
    requires |s| == n + 2 && n % 2 == 0
    ensures Decode(s) == if Decode(s[..n]).None? || ToDigit16(s[n]).None? || ToDigit16(s[n + 1]).None? then None
                         else Some(Decode(s[..n]).value + [ToDigit16(s[n]).value * 16 + ToDigit16(s[n + 1]).value])
  {
  }

  lemma LowercaseAppend(s: seq<byte>, hi: byte, lo: byte)
    ensures Lowercase(s + [hi, lo]) == Lowercase(s) + [ToLower(hi), ToLower(lo)]
  {
  }

  lemma AllHexAppend(s: seq<byte>, hi: byte, lo: byte)
    ensures AllHexDigits(s + [hi, lo]) <==> AllHexDigits(s) && IsHexDigit(hi) && IsHexDigit(lo)
  {
    var t := s + [hi, lo];
    assert t[|s|] == hi && t[|s| + 1] == lo;
    assert forall i :: 0 <= i < |s| ==> t[i] == s[i];
  }

  lemma DecodedPair(s: seq<byte>, v: seq<byte>, i: nat)
    requires Encode(v) == Lowercase(s) && i < |v|
    ensures |s| == 2 * |v|
    ensures s[2 * i] == "0123456789abcdef"[v[i] / 16] as int || s[2 * i] == "0123456789ABCDEF"[v[i] / 16] as int
    ensures s[2 * i + 1] == "0123456789abcdef"[v[i] % 16] as int || s[2 * i + 1] == "0123456789ABCDEF"[v[i] % 16] as int
  {
    hide Encode, HexChar, ToLower, Lowercase;
    LowercaseLength(s);
    LowercaseAt(s, 2 * i);
    LowercaseAt(s, 2 * i + 1);
    EncodeAt(v, i);
    var pair := Encode(v)[2 * i..2 * i + 2];
    assert pair[0] == Encode(v)[2 * i] && pair[1] == Encode(v)[2 * i + 1];
    CaseText(s[2 * i], v[i] / 16);
    CaseText(s[2 * i + 1], v[i] % 16);
  }

  /** What a hex text of either case decodes to, digit by digit. */
  lemma DecodedDigits(s: seq<byte>)
    ensures Decode(s).Some? <==> |s| % 2 == 0 && forall j :: 0 <= j < |s| ==> s[j] as char in "0123456789abcdefABCDEF"
    ensures Decode(s).Some? ==> |s| == 2 * |Decode(s).value|
    ensures Decode(s).Some? ==> forall i :: 0 <= i < |Decode(s).value| ==>
      var b := Decode(s).value[i];
      && (s[2 * i] == "0123456789abcdef"[b / 16] as int || s[2 * i] == "0123456789ABCDEF"[b / 16] as int)
      && (s[2 * i + 1] == "0123456789abcdef"[b % 16] as int || s[2 * i + 1] == "0123456789ABCDEF"[b % 16] as int)
  {
    DecodeMeaning(s);
    hide Decode, IsHexDigit, Encode, Lowercase;
    forall j | 0 <= j < |s| ensures IsHexDigit(s[j]) <==> s[j] as char in "0123456789abcdefABCDEF" {
      HexDigitText(s[j]);
    }
    if Decode(s).Some? {
      var v := Decode(s).value;
      LowercaseLength(s);
      forall i | 0 <= i < |v|
        ensures s[2 * i] == "0123456789abcdef"[v[i] / 16] as int || s[2 * i] == "0123456789ABCDEF"[v[i] / 16] as int
        ensures s[2 * i + 1] == "0123456789abcdef"[v[i] % 16] as int || s[2 * i + 1] == "0123456789ABCDEF"[v[i] % 16] as int
      {
        DecodedPair(s, v, i);
      }
    }
  }

  /** The other way round: text whose digits name the bytes prints back in lower case. */
  lemma NamedDigits(s: seq<byte>, v: seq<byte>)
    requires |s| == 2 * |v|
    requires forall i :: 0 <= i < |v| ==>
      && (s[2 * i] == "0123456789abcdef"[v[i] / 16] as int || s[2 * i] == "0123456789ABCDEF"[v[i] / 16] as int)
      && (s[2 * i + 1] == "0123456789abcdef"[v[i] % 16] as int || s[2 * i + 1] == "0123456789ABCDEF"[v[i] % 16] as int)
    ensures Encode(v) == Lowercase(s)
  {
    hide Encode, Lowercase, ToLower;
    LowercaseLength(s);
    forall j | 0 <= j < |s| ensures Encode(v)[j] == Lowercase(s)[j] {
      LowercaseAt(s, j);
      PrintedPair(v, j / 2);
      if j % 2 == 0 {
        assert j == 2 * (j / 2);
        LowerOfDigit(s[j], v[j / 2] / 16);
      } else {
        assert j == 2 * (j / 2) + 1;
        LowerOfDigit(s[j], v[j / 2] % 16);
      }
    }
  }

  lemma LowerOfDigit(b: byte, n: int)
    requires IsNibble(n) && (b == "0123456789abcdef"[n] as int || b == "0123456789ABCDEF"[n] as int)
    ensures ToLower(b) == "0123456789abcdef"[n] as int
  {
    assert n == 0 || n == 1 || n == 2 || n == 3 || n == 4 || n == 5 || n == 6 || n == 7
        || n == 8 || n == 9 || n == 10 || n == 11 || n == 12 || n == 13 || n == 14 || n == 15;
  }

  lemma LowercaseAt(s: seq<byte>, i: nat)
    requires i < |s| == |Lowercase(s)|
    ensures Lowercase(s)[i] == ToLower(s[i])
  {
  }

  lemma LowercaseLength(s: seq<byte>)
    ensures |Lowercase(s)| == |s|
  {
  }

  /** `hex_decode`: accepts exactly the even-length hex texts of either case, and returns the bytes the
      pairs of digits name. */
  method HexDecode(s: seq<byte>) returns (r: Option<seq<byte>>)
    ensures r == Decode(s)
    ensures r.Some? <==> |s| % 2 == 0 && forall j :: 0 <= j < |s| ==> s[j] as char in "0123456789abcdefABCDEF"
    ensures r.Some? ==> |s| == 2 * |r.value|
    ensures r.Some? ==> forall i :: 0 <= i < |r.value| ==>
      var b := r.value[i];
      && (s[2 * i] == "0123456789abcdef"[b / 16] as int || s[2 * i] == "0123456789ABCDEF"[b / 16] as int)
      && (s[2 * i + 1] == "0123456789abcdef"[b % 16] as int || s[2 * i + 1] == "0123456789ABCDEF"[b % 16] as int)
  {
    hide Encode, IsHexDigit, ToDigit16;
    if |s| % 2 != 0 {
      DecodedDigits(s);
      return None;
    }
    var out: seq<byte> := [];
    var i := 0;
    while i < |s|
      invariant 0 <= i <= |s| && i % 2 == 0
      invariant Decode(s[..i]) == Some(out)
    {
      var hi := ToDigit16(s[i]);
      var lo := ToDigit16(s[i + 1]);
      if hi.None? || lo.None? {
        DecodeMeaning(s);
        DecodedDigits(s);
        return None;
      }
      assert s[..i + 2][..i] == s[..i];
      out := out + [hi.value * 16 + lo.value];
      i := i + 2;
    }
    assert s[..i] == s;
    DecodedDigits(s);
    r := Some(out);
  }

  lemma DecodeEncode(bytes: seq<byte>)
    ensures Decode(Encode(bytes)) == Some(bytes)
  {
    var s := Encode(bytes);
    EncodeIsLowerHex(bytes);
    assert Lowercase(s) == s;
    DecodeMeaning(s);
    EncodeInjective(Decode(s).value, bytes);
  }
}
