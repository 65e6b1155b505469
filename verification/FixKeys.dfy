/** Location-fix keys, `hex(author)/{seq:020}`. */
module FixKeys {
  import opened Bytes
  import opened Utf8
  import opened HexCodec

  datatype FixKey = FixKey(author: seq<byte>, fixSeq: nat)

  const KEY_SEP: byte := '/' as int
  const SEQ_WIDTH := 20
  const U64_LIMIT := 0x1_0000_0000_0000_0000

  // ---------------------------------------------------------------------------------------------
  // Decimal numbers
  // ---------------------------------------------------------------------------------------------

  predicate AllDigits(s: seq<byte>) {
    forall i :: 0 <= i < |s| ==> IsDigit(s[i])
  }

  /** `str::parse` on digits, before its range check. */
  function Decimal(s: seq<byte>): nat
    requires AllDigits(s)
  {
    if s == [] then 0 else Decimal(s[..|s| - 1]) * 10 + (s[|s| - 1] - '0' as int)
  }

  /** `{n:0width$}` for a number of at most `width` digits. */
  function ZeroPadded(n: nat, width: nat): (s: seq<byte>)
    ensures |s| == width && AllDigits(s)
  {
    if width == 0 then [] else ZeroPadded(n / 10, width - 1) + ['0' as int + n % 10]
  }

  function Pow10(k: nat): nat {
    if k == 0 then 1 else 10 * Pow10(k - 1)
  }

  lemma {:induction false} DecimalOfPadded(n: nat, width: nat)
    requires n < Pow10(width)
    ensures Decimal(ZeroPadded(n, width)) == n
  {
    if width > 0 {
      DecimalOfPadded(n / 10, width - 1);
      var s := ZeroPadded(n, width);
      assert s[..width - 1] == ZeroPadded(n / 10, width - 1);
    }
  }

  lemma {:induction false} PaddedDecimal(s: seq<byte>)
    requires AllDigits(s)
    ensures ZeroPadded(Decimal(s), |s|) == s
  {
    if s != [] {
      var front, d := s[..|s| - 1], s[|s| - 1] - '0' as int;
      PaddedDecimal(front);
      assert Decimal(s) / 10 == Decimal(front) && Decimal(s) % 10 == d;
      assert s == front + ['0' as int + d];
    }
  }

  // ---------------------------------------------------------------------------------------------
  // Keys
  // ---------------------------------------------------------------------------------------------

  /** `position` of the separator; the length when there is none. */
  function SepIndex(key: seq<byte>): (pos: nat)
    ensures pos <= |key|
    ensures forall i :: 0 <= i < pos ==> key[i] != KEY_SEP
    ensures pos < |key| ==> key[pos] == KEY_SEP
  {
    if key == [] || key[0] == KEY_SEP then 0 else 1 + SepIndex(key[1..])
  }

  lemma {:induction false} SepIndexUnique(key: seq<byte>, pos: nat)
    requires pos < |key| && key[pos] == KEY_SEP
    requires forall i :: 0 <= i < pos ==> key[i] != KEY_SEP
    ensures SepIndex(key) == pos
  {
  }

  /** `decode_fix_key` */
  function DecodeFixKey(key: seq<byte>): Option<FixKey> {
    var pos := SepIndex(key);
    if pos == |key| then None
    else if !ValidUtf8(key[..pos]) then None
    else
      var authorHex, seqBytes := key[..pos], key[pos + 1..];
      if authorHex == [] || |seqBytes| != SEQ_WIDTH || !AllDigits(seqBytes) then None
      else
        var author := Decode(authorHex);
        if author.None? || author.value == [] then None
        else if Decimal(seqBytes) >= U64_LIMIT then None
        else Some(FixKey(author.value, Decimal(seqBytes)))
  }

  /** `fix_key` of the test module: the printer the app side uses. */
  function PrintFixKey(fix: FixKey): seq<byte> {
    Encode(fix.author) + [KEY_SEP] + ZeroPadded(fix.fixSeq, SEQ_WIDTH)
  }

  lemma PrintedShape(fix: FixKey)
    ensures var key, pos := PrintFixKey(fix), 2 * |fix.author|;
            && SepIndex(key) == pos < |key|
            && key[..pos] == Encode(fix.author)
            && key[pos + 1..] == ZeroPadded(fix.fixSeq, SEQ_WIDTH)
  {
    var key, pos := PrintFixKey(fix), 2 * |fix.author|;
    EncodeIsLowerHex(fix.author);
    assert forall i :: 0 <= i < pos ==> key[i] == Encode(fix.author)[i];
    SepIndexUnique(key, pos);
  }

  /** Printing any fix and decoding it returns that fix. */
  lemma PrintThenDecode(fix: FixKey)
    requires fix.author != [] && fix.fixSeq < U64_LIMIT
    ensures DecodeFixKey(PrintFixKey(fix)) == Some(fix)
  {
    var hex, digits := Encode(fix.author), ZeroPadded(fix.fixSeq, SEQ_WIDTH);
    PrintedShape(fix);
    EncodeIsLowerHex(fix.author);
    PaddedInRange(fix.fixSeq);
    DecodeEncode(fix.author);
    PartsDecode(PrintFixKey(fix), |hex|, digits);
  }

  /** Printing a decoded key returns the key with its hex digits in lower case. */
  lemma DecodeThenPrint(key: seq<byte>)
    requires DecodeFixKey(key).Some?
    ensures var fix := DecodeFixKey(key).value;
            && fix.author != [] && fix.fixSeq < U64_LIMIT
            && PrintFixKey(fix) == Lowercase(key)
  {
    var pos := SepIndex(key);
    var hex, digits := key[..pos], key[pos + 1..];
    DecodeMeaning(hex);
    PaddedDecimal(digits);
    LowercaseOfParts(key, pos);
  }

  lemma LowercaseOfParts(key: seq<byte>, pos: nat)
    requires pos < |key| && key[pos] == KEY_SEP
    ensures Lowercase(key) == Lowercase(key[..pos]) + [KEY_SEP] + Lowercase(key[pos + 1..])
    ensures AllDigits(key[pos + 1..]) ==> Lowercase(key[pos + 1..]) == key[pos + 1..]
  {
  }

  /** A key is a fix exactly when its lower-case form is the printed form of some fix: the reader
      accepts nothing else, and the UTF-8 check never decides the outcome. */
  lemma DecodesExactlyPrintedKeys(key: seq<byte>, fix: FixKey)
    ensures DecodeFixKey(key) == Some(fix) <==>
            fix.author != [] && fix.fixSeq < U64_LIMIT && PrintFixKey(fix) == Lowercase(key)
  {
    if DecodeFixKey(key).Some? {
      DecodeThenPrint(key);
    }
    if fix.author != [] && fix.fixSeq < U64_LIMIT && PrintFixKey(fix) == Lowercase(key) {
      LowercaseOfPrintedDecodes(key, fix);
      if DecodeFixKey(key) != Some(fix) {
        PrintThenDecode(fix);
        PrintThenDecode(DecodeFixKey(key).value);
      }
    }
  }

  lemma LowercaseOfPrintedDecodes(key: seq<byte>, fix: FixKey)
    requires fix.author != [] && fix.fixSeq < U64_LIMIT && PrintFixKey(fix) == Lowercase(key)
    ensures DecodeFixKey(key).Some?
  {
    var hex, digits := Encode(fix.author), ZeroPadded(fix.fixSeq, SEQ_WIDTH);
    EncodeIsLowerHex(fix.author);
    PaddedInRange(fix.fixSeq);
    assert Lowercase(key) == hex + [KEY_SEP] + digits;
    AnyCaseDecodes(key, hex, digits);
  }

  lemma AnyCaseDecodes(key: seq<byte>, hex: seq<byte>, digits: seq<byte>)
    requires Lowercase(key) == hex + [KEY_SEP] + digits
    requires AllHexDigits(hex) && |hex| % 2 == 0 && hex != []
    requires |digits| == SEQ_WIDTH && AllDigits(digits) && Decimal(digits) < U64_LIMIT
    ensures DecodeFixKey(key).Some?
  {
    PartsOfLowercase(key, hex, digits);
    PartsDecode(key, |hex|, digits);
  }

  lemma PartsDecode(key: seq<byte>, pos: nat, digits: seq<byte>)
    requires 0 < pos < |key| && SepIndex(key) == pos && pos % 2 == 0 && AllHexDigits(key[..pos])
    requires key[pos + 1..] == digits && |digits| == SEQ_WIDTH && AllDigits(digits)
    requires Decimal(digits) < U64_LIMIT
    ensures Decode(key[..pos]).Some?
    ensures DecodeFixKey(key) == Some(FixKey(Decode(key[..pos]).value, Decimal(digits)))
  {
    var hex := key[..pos];
    AsciiIsValid(hex);
    DecodeMeaning(hex);
    assert |Lowercase(hex)| == 2 * |Decode(hex).value|;
  }

  lemma PartsOfLowercase(key: seq<byte>, hex: seq<byte>, digits: seq<byte>)
    requires Lowercase(key) == hex + [KEY_SEP] + digits
    requires AllHexDigits(hex) && AllDigits(digits)
    ensures SepIndex(key) == |hex| && AllHexDigits(key[..|hex|]) && key[|hex| + 1..] == digits
  {
    var low := Lowercase(key);
    assert |key| == |low|;
    forall i | 0 <= i < |key|
      ensures i < |hex| ==> IsHexDigit(key[i])
      ensures i == |hex| ==> key[i] == KEY_SEP
      ensures i > |hex| ==> key[i] == digits[i - |hex| - 1]
    {
      assert low[i] == ToLower(key[i]);
    }
    SepIndexUnique(key, |hex|);
  }

  /** Twenty digits are enough for every 64-bit number. */
  lemma PaddedInRange(n: nat)
    requires n < U64_LIMIT
    ensures n < Pow10(SEQ_WIDTH)
    ensures Decimal(ZeroPadded(n, SEQ_WIDTH)) == n
  {
    assert Pow10(10) == 10_000_000_000;
    assert Pow10(20) == 100_000_000_000_000_000_000;
    DecimalOfPadded(n, SEQ_WIDTH);
  }

  /** Control keys, `ctl/` and anything after it, are never read as fixes. */
  lemma ControlKeysAreNotFixes(key: seq<byte>)
    requires |key| >= 4 && key[0] == 'c' as int && key[1] == 't' as int && key[2] == 'l' as int && key[3] == '/' as int
    ensures DecodeFixKey(key).None?
  {
    SepIndexUnique(key, 3);
    assert |key[..3]| == 3;
    DecodeMeaning(key[..3]);
  }

  // ---------------------------------------------------------------------------------------------
  // Keys, character by character
  // ---------------------------------------------------------------------------------------------

  /** `v` holds the numbers read off so far, from left to right: each digit adds its place in the text
      to ten times what was there. */
  ghost predicate Reads(d: seq<byte>, v: seq<nat>) {
    && |v| == |d| + 1 && v[0] == 0
    && forall k :: 0 <= k < |d| ==> NextDigit(d[k], v[k], v[k + 1])
  }

  predicate NextDigit(c: byte, before: nat, after: nat) {
    0 <= after - 10 * before < 10 && c == "0123456789"[after - 10 * before] as int
  }

  lemma {:induction false} ValuesOfDigits(d: seq<byte>, v: seq<nat>)
    requires Reads(d, v)
    ensures AllDigits(d) && Decimal(d) == v[|d|]
  {
    if d != [] {
      var n := |d| - 1;
      ReadsPrefix(d, v);
      ValuesOfDigits(d[..n], v[..n + 1]);
      TenText(v[n + 1] - 10 * v[n]);
      DecimalSnoc(d);
    }
  }

  lemma ReadsPrefix(d: seq<byte>, v: seq<nat>)
    requires Reads(d, v) && d != []
    ensures Reads(d[..|d| - 1], v[..|d|])
  {
    var front, w := d[..|d| - 1], v[..|d|];
    hide NextDigit;
    forall k | 0 <= k < |front| ensures NextDigit(front[k], w[k], w[k + 1]) {
      assert w[k] == v[k] && w[k + 1] == v[k + 1] && front[k] == d[k];
    }
  }

  lemma DecimalSnoc(d: seq<byte>)
    requires d != [] && AllDigits(d[..|d| - 1]) && IsDigit(d[|d| - 1])
    ensures AllDigits(d) && Decimal(d) == Decimal(d[..|d| - 1]) * 10 + (d[|d| - 1] - '0' as int)
  {
    assert forall i :: 0 <= i < |d| - 1 ==> d[i] == d[..|d| - 1][i];
  }

  lemma TenText(n: int)
    requires 0 <= n < 10
    ensures "0123456789"[n] as int == '0' as int + n
  {
  }

  lemma ReadsSnoc(d: seq<byte>, v: seq<nat>, c: byte)
    requires Reads(d, v) && IsDigit(c)
    ensures Reads(d + [c], v + [10 * v[|d|] + (c - '0' as int)])
  {
    var all, w := d + [c], v + [10 * v[|d|] + (c - '0' as int)];
    TenText(c - '0' as int);
    assert NextDigit(c, v[|d|], w[|d| + 1]);
    hide NextDigit;
    forall k | 0 <= k < |all| ensures NextDigit(all[k], w[k], w[k + 1]) {
      if k < |d| {
        assert w[k] == v[k] && w[k + 1] == v[k + 1] && all[k] == d[k];
      }
    }
  }

  lemma {:induction false} DigitsHaveValues(d: seq<byte>) returns (v: seq<nat>)
    requires AllDigits(d)
    ensures Reads(d, v) && v[|d|] == Decimal(d)
  {
    if d == [] {
      v := [0];
    } else {
      var n := |d| - 1;
      var front := DigitsHaveValues(d[..n]);
      hide NextDigit;
      v := front + [10 * front[n] + (d[n] - '0' as int)];
      ReadsSnoc(d[..n], front, d[n]);
      assert d[..n] + [d[n]] == d;
      assert v[n + 1] == Decimal(d);
    }
  }

  /** Each pair of characters names a byte. */
  ghost predicate PairsName(t: seq<byte>, bytes: seq<byte>) {
    && |t| == 2 * |bytes|
    && forall i :: 0 <= i < |bytes| ==>
         && (t[2 * i] == "0123456789abcdef"[bytes[i] / 16] as int || t[2 * i] == "0123456789ABCDEF"[bytes[i] / 16] as int)
         && (t[2 * i + 1] == "0123456789abcdef"[bytes[i] % 16] as int || t[2 * i + 1] == "0123456789ABCDEF"[bytes[i] % 16] as int)
  }

  lemma PairsNameExactly(t: seq<byte>, bytes: seq<byte>)
    ensures PairsName(t, bytes) <==> Lowercase(t) == Encode(bytes)
  {
    hide Lowercase, Encode;
    if PairsName(t, bytes) {
      NamedDigits(t, bytes);
    }
    if Lowercase(t) == Encode(bytes) {
      LowercaseLength(t);
      forall i | 0 <= i < |bytes|
        ensures t[2 * i] == "0123456789abcdef"[bytes[i] / 16] as int || t[2 * i] == "0123456789ABCDEF"[bytes[i] / 16] as int
        ensures t[2 * i + 1] == "0123456789abcdef"[bytes[i] % 16] as int || t[2 * i + 1] == "0123456789ABCDEF"[bytes[i] % 16] as int
      {
        DecodedPair(t, bytes, i);
      }
    }
  }

  lemma DigitsNameExactly(d: seq<byte>, n: nat)
    requires |d| == SEQ_WIDTH && n < U64_LIMIT
    ensures (exists v: seq<nat> :: Reads(d, v) && v[|d|] == n) <==> d == ZeroPadded(n, SEQ_WIDTH)
  {
    hide ZeroPadded, Decimal;
    if v: seq<nat> :| Reads(d, v) && v[|d|] == n {
      ValuesOfDigits(d, v);
      PaddedDecimal(d);
    }
    if d == ZeroPadded(n, SEQ_WIDTH) {
      PaddedInRange(n);
      var v := DigitsHaveValues(d);
      assert Reads(d, v);
    }
  }

  lemma PrintedParts(key: seq<byte>, fix: FixKey)
    ensures PrintFixKey(fix) == Lowercase(key) <==> (
      && |key| == 2 * |fix.author| + 1 + SEQ_WIDTH && key[2 * |fix.author|] == KEY_SEP
      && Lowercase(key[..2 * |fix.author|]) == Encode(fix.author)
      && key[2 * |fix.author| + 1..] == ZeroPadded(fix.fixSeq, SEQ_WIDTH))
  {
    hide Encode, ZeroPadded;
    var pos := 2 * |fix.author|;
    if PrintFixKey(fix) == Lowercase(key) {
      LowercaseLength(key);
      LowercaseAt(key, pos);
      LowercaseOfParts(key, pos);
      var low, tail := Lowercase(key), ZeroPadded(fix.fixSeq, SEQ_WIDTH);
      assert low[..pos] == Encode(fix.author);
      assert low[..pos] == Lowercase(key[..pos]);
      forall k | 0 <= k < SEQ_WIDTH ensures key[pos + 1 + k] == tail[k] {
        LowercaseAt(key, pos + 1 + k);
        assert low[pos + 1 + k] == tail[k];
      }
      assert key[pos + 1..] == tail;
    }
    if |key| == pos + 1 + SEQ_WIDTH && key[pos] == KEY_SEP && key[pos + 1..] == ZeroPadded(fix.fixSeq, SEQ_WIDTH) {
      LowercaseOfParts(key, pos);
    }
  }

  /** Which keys are fixes, and of what: a pair of hex digits of either case for each author byte, a
      slash, and twenty decimal digits. Read from left to right, each digit adds its place in the text
      to ten times the number before it, and the last number is below 2 to the 64th. */
  lemma FixKeyText(key: seq<byte>, fix: FixKey)
    ensures DecodeFixKey(key) == Some(fix) <==> (
      && fix.author != [] && |key| == 2 * |fix.author| + 21 && key[2 * |fix.author|] == '/' as int
      && (forall i :: 0 <= i < |fix.author| ==>
            var b := fix.author[i];
            && (key[2 * i] == "0123456789abcdef"[b / 16] as int || key[2 * i] == "0123456789ABCDEF"[b / 16] as int)
            && (key[2 * i + 1] == "0123456789abcdef"[b % 16] as int || key[2 * i + 1] == "0123456789ABCDEF"[b % 16] as int))
      && fix.fixSeq < 18_446_744_073_709_551_616
      && exists v: seq<nat> :: |v| == 21 && v[0] == 0 && v[20] == fix.fixSeq && forall k :: 0 <= k < 20 ==>
           && 0 <= v[k + 1] - 10 * v[k] < 10
           && key[2 * |fix.author| + 1 + k] == "0123456789"[v[k + 1] - 10 * v[k]] as int)
  {
    hide DecodeFixKey, PrintFixKey, Lowercase, Encode, ZeroPadded, AllDigits, Decimal;
    DecodesExactlyPrintedKeys(key, fix);
    PrintedParts(key, fix);
    var pos := 2 * |fix.author|;
    if fix.fixSeq < U64_LIMIT && |key| == pos + 1 + SEQ_WIDTH {
      var hex, d := key[..pos], key[pos + 1..];
      PairsNameExactly(hex, fix.author);
      DigitsNameExactly(d, fix.fixSeq);
      assert forall i :: 0 <= i < pos ==> hex[i] == key[i];
      assert forall k :: 0 <= k < SEQ_WIDTH ==> d[k] == key[pos + 1 + k];
      forall v: seq<nat> | |v| == 21
        ensures Reads(d, v) <==> v[0] == 0 && forall k :: 0 <= k < 20 ==>
          0 <= v[k + 1] - 10 * v[k] < 10 && key[pos + 1 + k] == "0123456789"[v[k + 1] - 10 * v[k]] as int
      {
      }
    }
  }

  // ---------------------------------------------------------------------------------------------
  // Key order
  // ---------------------------------------------------------------------------------------------

  /** Byte-wise lexicographic order. */
  predicate Before(a: seq<byte>, b: seq<byte>) {
    b != [] && (a == [] || a[0] < b[0] || (a[0] == b[0] && Before(a[1..], b[1..])))
  }

  lemma {:induction false} BeforeSharedPrefix(p: seq<byte>, a: seq<byte>, b: seq<byte>)
    ensures Before(p + a, p + b) <==> Before(a, b)
    decreases |p|
  {
    if p == [] {
      assert p + a == a && p + b == b;
    } else {
      BeforeSharedPrefix(p[1..], a, b);
      assert (p + a)[1..] == p[1..] + a && (p + b)[1..] == p[1..] + b;
    }
  }

  lemma {:induction false} BeforeAppend(a: seq<byte>, x: byte, b: seq<byte>, y: byte)
    requires |a| == |b|
    ensures Before(a + [x], b + [y]) <==> Before(a, b) || (a == b && x < y)
    decreases |a|
  {
    if a == [] {
      assert (a + [x])[1..] == [] && (b + [y])[1..] == [];
    } else {
      BeforeAppend(a[1..], x, b[1..], y);
      assert (a + [x])[1..] == a[1..] + [x] && (b + [y])[1..] == b[1..] + [y];
      assert a == b <==> a[0] == b[0] && a[1..] == b[1..] by {
        assert a == [a[0]] + a[1..] && b == [b[0]] + b[1..];
      }
    }
  }

  lemma {:induction false} PaddedOrder(m: nat, n: nat, width: nat)
    requires m < Pow10(width) && n < Pow10(width)
    ensures Before(ZeroPadded(m, width), ZeroPadded(n, width)) <==> m < n
  {
    if width > 0 {
      PaddedOrder(m / 10, n / 10, width - 1);
      var a, b := ZeroPadded(m / 10, width - 1), ZeroPadded(n / 10, width - 1);
      BeforeAppend(a, '0' as int + m % 10, b, '0' as int + n % 10);
      if a == b {
        DecimalOfPadded(m / 10, width - 1);
        DecimalOfPadded(n / 10, width - 1);
      }
    }
  }

  /** For one author, the byte order of printed keys is the numeric order of sequences. */
  lemma KeyOrderIsSequenceOrder(author: seq<byte>, m: nat, n: nat)
    requires m < U64_LIMIT && n < U64_LIMIT
    ensures Before(PrintFixKey(FixKey(author, m)), PrintFixKey(FixKey(author, n))) <==> m < n
  {
    var prefix := Encode(author) + [KEY_SEP];
    BeforeSharedPrefix(prefix, ZeroPadded(m, SEQ_WIDTH), ZeroPadded(n, SEQ_WIDTH));
    PaddedInRange(m);
    PaddedInRange(n);
    PaddedOrder(m, n, SEQ_WIDTH);
  }
}
