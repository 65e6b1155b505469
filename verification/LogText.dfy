/** The redactor in plain text: which characters it looks at, what it cuts, and what it writes. */
module LogText {
  import opened Bytes
  import opened Redaction
  import opened Redactor

  // ---------------------------------------------------------------------------------------------
  // The characters
  // ---------------------------------------------------------------------------------------------

  lemma CharacterClasses(b: byte)
    ensures IsNetworkChar(b) <==> b as char in "0123456789abcdefABCDEF.:"
    ensures IsOpaqueChar(b) <==>
      || b as char in "0123456789" || b as char in "abcdefghijklmnopqrstuvwxyz"
      || b as char in "ABCDEFGHIJKLMNOPQRSTUVWXYZ" || b as char in "_-+/="
    ensures IsDigit(b) <==> b as char in "0123456789"
    ensures IsHexDigit(b) <==> b as char in "0123456789abcdefABCDEF"
  {
    WordText(b);
    LettersText(b);
    HexText(b);
  }

  lemma WordText(b: byte)
    ensures IsOpaqueChar(b) <==>
      || b as char in "0123456789" || b as char in "abcdefghijklmnopqrstuvwxyz"
      || b as char in "ABCDEFGHIJKLMNOPQRSTUVWXYZ" || b as char in "_-+/="
  {
    LettersText(b);
  }

  lemma LettersText(b: byte)
    ensures 'a' as int <= b <= 'z' as int <==> b as char in "abcdefghijklmnopqrstuvwxyz"
    ensures 'A' as int <= b <= 'Z' as int <==> b as char in "ABCDEFGHIJKLMNOPQRSTUVWXYZ"
    ensures IsDigit(b) <==> b as char in "0123456789"
    ensures b == '_' as int || b == '-' as int || b == '+' as int || b == '/' as int || b == '=' as int
            <==> b as char in "_-+/="
  {
  }

  lemma HexText(b: byte)
    ensures IsHexDigit(b) <==> b as char in "0123456789abcdefABCDEF"
    ensures IsNetworkChar(b) <==> b as char in "0123456789abcdefABCDEF.:"
  {
  }

  lemma NetworkStretch(s: seq<byte>, lo: nat, hi: nat)
    ensures Maximal(s, IsNetworkChar, lo, hi) <==>
      && lo < hi <= |s|
      && (forall i :: lo <= i < hi ==> s[i] as char in "0123456789abcdefABCDEF.:")
      && (lo == 0 || s[lo - 1] as char !in "0123456789abcdefABCDEF.:")
      && (hi == |s| || s[hi] as char !in "0123456789abcdefABCDEF.:")
  {
    forall i | 0 <= i < |s| ensures IsNetworkChar(s[i]) <==> s[i] as char in "0123456789abcdefABCDEF.:" {
      CharacterClasses(s[i]);
    }
    hide IsNetworkChar;
  }

  lemma OpaqueStretch(s: seq<byte>, lo: nat, hi: nat)
    ensures var word := (b: byte) =>
              || b as char in "0123456789" || b as char in "abcdefghijklmnopqrstuvwxyz"
              || b as char in "ABCDEFGHIJKLMNOPQRSTUVWXYZ" || b as char in "_-+/=";
            Maximal(s, IsOpaqueChar, lo, hi) <==>
            && lo < hi <= |s| && (forall i :: lo <= i < hi ==> word(s[i]))
            && (lo == 0 || !word(s[lo - 1])) && (hi == |s| || !word(s[hi]))
  {
    var word := (b: byte) =>
      || b as char in "0123456789" || b as char in "abcdefghijklmnopqrstuvwxyz"
      || b as char in "ABCDEFGHIJKLMNOPQRSTUVWXYZ" || b as char in "_-+/=";
    forall i | 0 <= i < |s| ensures IsOpaqueChar(s[i]) <==> word(s[i]) {
      WordText(s[i]);
    }
    hide IsOpaqueChar;
  }

  lemma IdentifyingStretch(s: seq<byte>, lo: nat, hi: nat)
    requires lo <= hi <= |s|
    ensures Identifying(s[lo..hi]) <==>
      && hi - lo >= 32
      && (|| (exists i :: lo <= i < hi && s[i] as char in "0123456789")
          || (forall i :: lo <= i < hi ==> s[i] as char in "0123456789abcdefABCDEF"))
  {
    var t := s[lo..hi];
    forall i | lo <= i < hi
      ensures IsDigit(t[i - lo]) <==> s[i] as char in "0123456789"
      ensures IsHexDigit(t[i - lo]) <==> s[i] as char in "0123456789abcdefABCDEF"
    {
      CharacterClasses(s[i]);
    }
    hide IsDigit, IsHexDigit;
    if i :| lo <= i < hi && s[i] as char in "0123456789" {
      assert IsDigit(t[i - lo]);
    }
    if AnyDigit(t) {
      var i :| 0 <= i < |t| && IsDigit(t[i]);
      assert s[lo + i] as char in "0123456789";
    }
    if forall i :: lo <= i < hi ==> s[i] as char in "0123456789abcdefABCDEF" {
      forall i | 0 <= i < |t| ensures IsHexDigit(t[i]) { assert s[lo + i] as char in "0123456789abcdefABCDEF"; }
    }
    if AllHex(t) {
      forall i | lo <= i < hi ensures s[i] as char in "0123456789abcdefABCDEF" { assert IsHexDigit(t[i - lo]); }
    }
  }

  // ---------------------------------------------------------------------------------------------
  // What is cut
  // ---------------------------------------------------------------------------------------------

  /** A range to redact: a whole stretch of address characters that reads as an address, or a whole
      stretch of 32 or more word characters with a digit in it or of hex digits only. */
  lemma SensitiveText(s: seq<byte>, isAddress: seq<byte> -> bool, lo: nat, hi: nat)
    ensures var net := (b: byte) => b as char in "0123456789abcdefABCDEF.:";
            var word := (b: byte) =>
              || b as char in "0123456789" || b as char in "abcdefghijklmnopqrstuvwxyz"
              || b as char in "ABCDEFGHIJKLMNOPQRSTUVWXYZ" || b as char in "_-+/=";
            Sensitive(s, isAddress, Range(lo, hi)) <==>
            && lo < hi <= |s|
            && (|| (&& (forall i :: lo <= i < hi ==> net(s[i]))
                    && (lo == 0 || !net(s[lo - 1])) && (hi == |s| || !net(s[hi]))
                    && isAddress(s[lo..hi]))
                || (&& (forall i :: lo <= i < hi ==> word(s[i]))
                    && (lo == 0 || !word(s[lo - 1])) && (hi == |s| || !word(s[hi]))
                    && |s[lo..hi]| >= 32
                    && (|| (exists i :: lo <= i < hi && s[i] as char in "0123456789")
                        || (forall i :: lo <= i < hi ==> s[i] as char in "0123456789abcdefABCDEF"))))
  {
    hide IsNetworkChar, IsOpaqueChar, Maximal, Identifying;
    NetworkStretch(s, lo, hi);
    OpaqueStretch(s, lo, hi);
    if lo <= hi <= |s| {
      IdentifyingStretch(s, lo, hi);
    }
  }

  /** A byte of the line is copied exactly when no such range holds it; otherwise it adds nothing, or
      the marker. */
  lemma CopiedOrCut(s: seq<byte>, isAddress: seq<byte> -> bool, k: nat)
    requires k < |s|
    ensures var ranges := SensitiveRanges(s, isAddress);
            var cut := exists r :: Sensitive(s, isAddress, r) && r.start <= k < r.end;
            && (Covered(ranges, k) <==> cut)
            && (!cut ==> EmitAt(s, ranges, k) == [s[k]])
            && (cut ==>
                  || EmitAt(s, ranges, k) == []
                  || EmitAt(s, ranges, k) == seq(10, i requires 0 <= i < 10 => "[REDACTED]"[i] as int))
  {
    MarkerText();
    hide Sensitive;
  }

  lemma MarkerText()
    ensures MARKER == seq(10, i requires 0 <= i < 10 => "[REDACTED]"[i] as int)
  {
  }

  /** No byte of a long token is copied, whatever else is on the line: a UUID with its dashes, say. */
  lemma TokenIsCut(s: seq<byte>, isAddress: seq<byte> -> bool, lo: nat, hi: nat)
    requires lo + 32 <= hi <= |s|
    requires forall i :: lo <= i < hi ==>
      || s[i] as char in "0123456789" || s[i] as char in "abcdefghijklmnopqrstuvwxyz"
      || s[i] as char in "ABCDEFGHIJKLMNOPQRSTUVWXYZ" || s[i] as char in "_-+/="
    requires forall i :: 0 <= i < |s| && (i == lo - 1 || i == hi) ==>
      && s[i] as char !in "0123456789" && s[i] as char !in "abcdefghijklmnopqrstuvwxyz"
      && s[i] as char !in "ABCDEFGHIJKLMNOPQRSTUVWXYZ" && s[i] as char !in "_-+/="
    requires || (exists i :: lo <= i < hi && s[i] as char in "0123456789")
             || (forall i :: lo <= i < hi ==> s[i] as char in "0123456789abcdefABCDEF")
    ensures forall k :: lo <= k < hi ==>
      var out := EmitAt(s, SensitiveRanges(s, isAddress), k);
      out == [] || out == seq(10, i requires 0 <= i < 10 => "[REDACTED]"[i] as int)
    ensures Redacted(s, isAddress) != s
  {
    SensitiveText(s, isAddress, lo, hi);
    assert Sensitive(s, isAddress, Range(lo, hi));
    hide Sensitive, Redacted, EmitAt;
    forall k | lo <= k < hi {
      CopiedOrCut(s, isAddress, k);
    }
    assert Range(lo, hi) in SensitiveRanges(s, isAddress);
    UnchangedExactlyWhenNothingSensitive(s, isAddress);
  }

  /** Nor any byte of an address. */
  lemma AddressIsCut(s: seq<byte>, isAddress: seq<byte> -> bool, lo: nat, hi: nat)
    requires lo < hi <= |s| && isAddress(s[lo..hi])
    requires forall i :: lo <= i < hi ==> s[i] as char in "0123456789abcdefABCDEF.:"
    requires forall i :: 0 <= i < |s| && (i == lo - 1 || i == hi) ==> s[i] as char !in "0123456789abcdefABCDEF.:"
    ensures forall k :: lo <= k < hi ==>
      var out := EmitAt(s, SensitiveRanges(s, isAddress), k);
      out == [] || out == seq(10, i requires 0 <= i < 10 => "[REDACTED]"[i] as int)
    ensures Redacted(s, isAddress) != s
  {
    SensitiveText(s, isAddress, lo, hi);
    assert Sensitive(s, isAddress, Range(lo, hi));
    hide Sensitive, Redacted, EmitAt;
    forall k | lo <= k < hi {
      CopiedOrCut(s, isAddress, k);
    }
    assert Range(lo, hi) in SensitiveRanges(s, isAddress);
    UnchangedExactlyWhenNothingSensitive(s, isAddress);
  }

  /** The line holds no whole stretch of address characters that reads as an address. */
  lemma NoAddress(s: seq<byte>, isAddress: seq<byte> -> bool, lo: nat, hi: nat)
    requires
      && lo < hi <= |s| && isAddress(s[lo..hi])
      && (forall i :: lo <= i < hi ==> s[i] as char in "0123456789abcdefABCDEF.:") ==>
        exists i :: 0 <= i < |s| && (i == lo - 1 || i == hi) && s[i] as char in "0123456789abcdefABCDEF.:"
    ensures !(Maximal(s, IsNetworkChar, lo, hi) && isAddress(s[lo..hi]))
  {
    NetworkStretch(s, lo, hi);
    hide Maximal;
  }

  lemma WholeWord(s: seq<byte>, lo: nat, hi: nat)
    requires Maximal(s, IsOpaqueChar, lo, hi)
    ensures lo < hi <= |s|
    ensures forall i :: lo <= i < hi ==>
      || s[i] as char in "0123456789" || s[i] as char in "abcdefghijklmnopqrstuvwxyz"
      || s[i] as char in "ABCDEFGHIJKLMNOPQRSTUVWXYZ" || s[i] as char in "_-+/="
    ensures forall i :: 0 <= i < |s| && (i == lo - 1 || i == hi) ==>
      && s[i] as char !in "0123456789" && s[i] as char !in "abcdefghijklmnopqrstuvwxyz"
      && s[i] as char !in "ABCDEFGHIJKLMNOPQRSTUVWXYZ" && s[i] as char !in "_-+/="
  {
    hide IsOpaqueChar;
    forall i | 0 <= i < |s| {
      WordText(s[i]);
    }
  }

  lemma NoToken(s: seq<byte>, lo: nat, hi: nat)
    requires
      && lo < hi <= |s| && |s[lo..hi]| >= 32
      && (forall i :: lo <= i < hi ==>
            || s[i] as char in "0123456789" || s[i] as char in "abcdefghijklmnopqrstuvwxyz"
            || s[i] as char in "ABCDEFGHIJKLMNOPQRSTUVWXYZ" || s[i] as char in "_-+/=")
      && (|| (exists i :: lo <= i < hi && s[i] as char in "0123456789")
          || (forall i :: lo <= i < hi ==> s[i] as char in "0123456789abcdefABCDEF")) ==>
        exists i ::
          && 0 <= i < |s| && (i == lo - 1 || i == hi)
          && (|| s[i] as char in "0123456789" || s[i] as char in "abcdefghijklmnopqrstuvwxyz"
              || s[i] as char in "ABCDEFGHIJKLMNOPQRSTUVWXYZ" || s[i] as char in "_-+/=")
    ensures !(Maximal(s, IsOpaqueChar, lo, hi) && Identifying(s[lo..hi]))
  {
    hide Maximal, Identifying;
    if Maximal(s, IsOpaqueChar, lo, hi) {
      WholeWord(s, lo, hi);
      IdentifyingStretch(s, lo, hi);
    }
    hide IsDigit, IsHexDigit;
  }

  /** A line without such a token and without an address is returned as it is. */
  lemma PlainLineStays(s: seq<byte>, isAddress: seq<byte> -> bool)
    requires forall lo: nat, hi: nat ::
      && lo < hi <= |s| && isAddress(s[lo..hi])
      && (forall i :: lo <= i < hi ==> s[i] as char in "0123456789abcdefABCDEF.:") ==>
        exists i :: 0 <= i < |s| && (i == lo - 1 || i == hi) && s[i] as char in "0123456789abcdefABCDEF.:"
    requires forall lo: nat, hi: nat ::
      && lo < hi <= |s| && |s[lo..hi]| >= 32
      && (forall i :: lo <= i < hi ==>
            || s[i] as char in "0123456789" || s[i] as char in "abcdefghijklmnopqrstuvwxyz"
            || s[i] as char in "ABCDEFGHIJKLMNOPQRSTUVWXYZ" || s[i] as char in "_-+/=")
      && (|| (exists i :: lo <= i < hi && s[i] as char in "0123456789")
          || (forall i :: lo <= i < hi ==> s[i] as char in "0123456789abcdefABCDEF")) ==>
        exists i ::
          && 0 <= i < |s| && (i == lo - 1 || i == hi)
          && (|| s[i] as char in "0123456789" || s[i] as char in "abcdefghijklmnopqrstuvwxyz"
              || s[i] as char in "ABCDEFGHIJKLMNOPQRSTUVWXYZ" || s[i] as char in "_-+/=")
    ensures Redacted(s, isAddress) == s
  {
    forall r ensures r !in SensitiveRanges(s, isAddress) {
      var piece := if r.start < r.end <= |s| then s[r.start..r.end] else [];
      NoAddress(s, isAddress, r.start, r.end);
      NoToken(s, r.start, r.end);
    }
    UnchangedExactlyWhenNothingSensitive(s, isAddress);
  }

  // ---------------------------------------------------------------------------------------------
  // Word by word
  // ---------------------------------------------------------------------------------------------

  lemma MaximalSplits(inRun: byte -> bool, x: seq<byte>, c: byte, y: seq<byte>, lo: nat, hi: nat)
    requires !inRun(c)
    ensures Maximal(x + [c] + y, inRun, lo, hi) <==> (
      || (hi <= |x| && Maximal(x, inRun, lo, hi))
      || (|x| + 1 <= lo <= hi && Maximal(y, inRun, lo - |x| - 1, hi - |x| - 1)))
  {
    var n := |x| + 1;
    if Maximal(x + [c] + y, inRun, lo, hi) {
      RunOnOneSide(inRun, x, c, y, lo, hi);
    }
    if hi <= |x| {
      RunBefore(inRun, x, c, y, lo, hi);
    }
    if n <= lo <= hi {
      RunAfter(inRun, x, c, y, lo - n, hi - n);
    }
    hide Maximal;
  }

  lemma SensitiveWithin(s: seq<byte>, isAddress: seq<byte> -> bool, r: Range)
    ensures Sensitive(s, isAddress, r) ==> r.start < r.end <= |s|
  {
  }

  /** The ranges of a line are those of its two parts when neither class holds the byte between. */
  lemma SensitiveSplits(x: seq<byte>, c: byte, y: seq<byte>, isAddress: seq<byte> -> bool, r: Range)
    requires !IsNetworkChar(c) && !IsOpaqueChar(c)
    ensures Sensitive(x + [c] + y, isAddress, r) <==> (
      || (r.end <= |x| && Sensitive(x, isAddress, r))
      || (|x| + 1 <= r.start <= r.end && Sensitive(y, isAddress, Range(r.start - |x| - 1, r.end - |x| - 1))))
  {
    hide IsNetworkChar, IsOpaqueChar, Identifying, Maximal;
    var z, n := x + [c] + y, |x| + 1;
    MaximalSplits(IsNetworkChar, x, c, y, r.start, r.end);
    MaximalSplits(IsOpaqueChar, x, c, y, r.start, r.end);
    SensitiveWithin(z, isAddress, r);
    SensitiveWithin(x, isAddress, r);
    if n <= r.start <= r.end {
      SensitiveWithin(y, isAddress, Range(r.start - n, r.end - n));
    }
    if r.start <= r.end <= |x| {
      RunBefore(IsNetworkChar, x, c, y, r.start, r.end);
    }
    if n <= r.start <= r.end <= |z| {
      RunAfter(IsNetworkChar, x, c, y, r.start - n, r.end - n);
    }
  }

  /** What a byte adds depends only on the ranges that reach it. */
  lemma EmitBefore(x: seq<byte>, c: byte, y: seq<byte>, isAddress: seq<byte> -> bool, k: nat)
    requires !IsNetworkChar(c) && !IsOpaqueChar(c) && k < |x|
    ensures var z := x + [c] + y;
            EmitAt(z, SensitiveRanges(z, isAddress), k) == EmitAt(x, SensitiveRanges(x, isAddress), k)
  {
    hide Sensitive;
    var z := x + [c] + y;
    var all, part := SensitiveRanges(z, isAddress), SensitiveRanges(x, isAddress);
    forall r: Range
      ensures r.start <= k ==> (r in all <==> r in part)
      ensures r in all || r in part ==> r.start < r.end
    {
      SensitiveSplits(x, c, y, isAddress, r);
      SensitiveWithin(x, isAddress, r);
      SensitiveWithin(z, isAddress, r);
    }
    SameAt(all, part, k);
  }

  lemma SameAt(a: set<Range>, b: set<Range>, k: nat)
    requires forall r: Range :: r.start <= k ==> (r in a <==> r in b)
    requires forall r :: r in a || r in b ==> r.start < r.end
    ensures Covered(a, k) <==> Covered(b, k)
    ensures Shown(a, k + 1) <==> Shown(b, k + 1)
  {
  }

  function Shift(r: Range, n: nat): Range {
    Range(r.start + n, r.end + n)
  }

  /** The ranges of a text that begins `n` bytes into another. */
  ghost predicate Shifted(all: set<Range>, part: set<Range>, n: nat) {
    && (forall r :: r in all ==> r.start < r.end && (r.end < n || exists p :: p in part && r == Shift(p, n)))
    && (forall p :: p in part ==> p.start < p.end && Shift(p, n) in all)
  }

  lemma SplitIsShifted(x: seq<byte>, c: byte, y: seq<byte>, isAddress: seq<byte> -> bool)
    requires !IsNetworkChar(c) && !IsOpaqueChar(c)
    ensures Shifted(SensitiveRanges(x + [c] + y, isAddress), SensitiveRanges(y, isAddress), |x| + 1)
  {
    hide Sensitive;
    var z, n := x + [c] + y, |x| + 1;
    var all, part := SensitiveRanges(z, isAddress), SensitiveRanges(y, isAddress);
    forall r | r in all ensures r.start < r.end && (r.end < n || exists p :: p in part && r == Shift(p, n)) {
      SensitiveSplits(x, c, y, isAddress, r);
      SensitiveWithin(z, isAddress, r);
      if r.end >= n {
        var p := Range(r.start - n, r.end - n);
        assert p in part && r == Shift(p, n);
      }
    }
    forall p | p in part ensures p.start < p.end && Shift(p, n) in all {
      SensitiveSplits(x, c, y, isAddress, Shift(p, n));
      SensitiveWithin(y, isAddress, p);
    }
  }

  lemma EmitAfter(x: seq<byte>, c: byte, y: seq<byte>, isAddress: seq<byte> -> bool, k: nat)
    requires !IsNetworkChar(c) && !IsOpaqueChar(c) && k < |y|
    ensures var z := x + [c] + y;
            EmitAt(z, SensitiveRanges(z, isAddress), |x| + 1 + k) == EmitAt(y, SensitiveRanges(y, isAddress), k)
  {
    hide Sensitive, Shifted, Covered, Shown;
    var z, n := x + [c] + y, |x| + 1;
    SplitIsShifted(x, c, y, isAddress);
    CoveredShifted(SensitiveRanges(z, isAddress), SensitiveRanges(y, isAddress), n, k);
    ShownShifted(SensitiveRanges(z, isAddress), SensitiveRanges(y, isAddress), n, k + 1);
    assert z[n + k] == y[k];
  }

  lemma CoveredShifted(all: set<Range>, part: set<Range>, n: nat, k: nat)
    requires Shifted(all, part, n)
    ensures Covered(all, n + k) <==> Covered(part, k)
  {
    if Covered(part, k) {
      var p :| p in part && p.start <= k < p.end;
      assert Shift(p, n) in all;
    }
  }

  lemma Unshifted(all: set<Range>, part: set<Range>, n: nat, r: Range) returns (p: Range)
    requires Shifted(all, part, n) && r in all && r.end >= n
    ensures p in part && r == Shift(p, n)
  {
    p :| p in part && r == Shift(p, n);
  }

  lemma ShiftedIn(all: set<Range>, part: set<Range>, n: nat, p: Range)
    requires Shifted(all, part, n) && p in part
    ensures Shift(p, n) in all
  {
  }

  lemma ShownShifted(all: set<Range>, part: set<Range>, n: nat, end: nat)
    requires Shifted(all, part, n)
    ensures Shown(all, n + end) <==> Shown(part, end)
  {
    hide Shifted;
    if Shown(all, n + end) {
      var r :| r in all && r.end == n + end && forall q :: q in all ==> !(q.start < r.start && n + end < q.end);
      var p := Unshifted(all, part, n, r);
      forall q | q in part ensures !(q.start < p.start && end < q.end) {
        ShiftedIn(all, part, n, q);
      }
    }
    if Shown(part, end) {
      var p :| p in part && p.end == end && forall q :: q in part ==> !(q.start < p.start && end < q.end);
      var r := Shift(p, n);
      ShiftedIn(all, part, n, p);
      forall q | q in all ensures !(q.start < r.start && n + end < q.end) {
        if q.end >= n {
          var o := Unshifted(all, part, n, q);
        }
      }
    }
  }

  lemma {:induction false} EmitPrefix(x: seq<byte>, part: set<Range>, z: seq<byte>, all: set<Range>, i: nat)
    requires i <= |x| <= |z| && forall k :: 0 <= k < |x| ==> EmitAt(z, all, k) == EmitAt(x, part, k)
    ensures Emit(z, all, i) == Emit(x, part, i) + Emit(z, all, |x|)
    decreases |x| - i
  {
    hide EmitAt;
    if i < |x| {
      EmitPrefix(x, part, z, all, i + 1);
      Reassociate(EmitAt(x, part, i), Emit(x, part, i + 1), Emit(z, all, |x|));
    }
  }

  lemma {:induction false} EmitSuffix(y: seq<byte>, part: set<Range>, z: seq<byte>, all: set<Range>, n: nat, i: nat)
    requires i <= |y| && n + |y| == |z| && forall k :: 0 <= k < |y| ==> EmitAt(z, all, n + k) == EmitAt(y, part, k)
    ensures Emit(z, all, n + i) == Emit(y, part, i)
    decreases |y| - i
  {
    hide EmitAt;
    if i < |y| {
      EmitSuffix(y, part, z, all, n, i + 1);
    }
  }

  /** A space, or any other character of neither class, splits the work: the line is redacted word by
      word. */
  lemma RedactsWordByWord(x: seq<byte>, c: byte, y: seq<byte>, isAddress: seq<byte> -> bool)
    requires c as char !in "0123456789" && c as char !in "abcdefghijklmnopqrstuvwxyz"
    requires c as char !in "ABCDEFGHIJKLMNOPQRSTUVWXYZ" && c as char !in "_-+/=" && c as char !in ".:"
    ensures Redacted(x + [c] + y, isAddress) == Redacted(x, isAddress) + [c] + Redacted(y, isAddress)
  {
    NeitherClass(c);
    hide Redacted, IsNetworkChar, IsOpaqueChar;
    RedactsAround(x, c, y, isAddress);
  }

  lemma RedactsAround(x: seq<byte>, c: byte, y: seq<byte>, isAddress: seq<byte> -> bool)
    requires !IsNetworkChar(c) && !IsOpaqueChar(c)
    ensures Redacted(x + [c] + y, isAddress) == Redacted(x, isAddress) + [c] + Redacted(y, isAddress)
  {
    hide Emit, EmitAt, Sensitive, IsNetworkChar, IsOpaqueChar;
    var z, n := x + [c] + y, |x| + 1;
    var all, left, right := SensitiveRanges(z, isAddress), SensitiveRanges(x, isAddress), SensitiveRanges(y, isAddress);
    forall k | 0 <= k < |x| {
      EmitBefore(x, c, y, isAddress, k);
    }
    forall k | 0 <= k < |y| {
      EmitAfter(x, c, y, isAddress, k);
    }
    EmitPrefix(x, left, z, all, 0);
    EmitSuffix(y, right, z, all, n, 0);
    NeverCovered(x, c, y, isAddress);
    EmitNext(z, all, |x|);
    Reassociate(Emit(x, left, 0), [c], Emit(y, right, 0));
  }

  lemma EmitNext(s: seq<byte>, ranges: set<Range>, k: nat)
    requires k < |s|
    ensures Emit(s, ranges, k) == EmitAt(s, ranges, k) + Emit(s, ranges, k + 1)
  {
  }

  lemma NeitherClass(c: byte)
    requires c as char !in "0123456789" && c as char !in "abcdefghijklmnopqrstuvwxyz"
    requires c as char !in "ABCDEFGHIJKLMNOPQRSTUVWXYZ" && c as char !in "_-+/=" && c as char !in ".:"
    ensures !IsNetworkChar(c) && !IsOpaqueChar(c)
  {
    LettersText(c);
  }

  lemma NeverCovered(x: seq<byte>, c: byte, y: seq<byte>, isAddress: seq<byte> -> bool)
    requires !IsNetworkChar(c) && !IsOpaqueChar(c)
    ensures var z := x + [c] + y;
            EmitAt(z, SensitiveRanges(z, isAddress), |x|) == [c]
  {
    var z := x + [c] + y;
    assert z[|x|] == c;
    hide Sensitive;
    forall r | r in SensitiveRanges(z, isAddress) ensures !(r.start <= |x| < r.end) {
      SensitiveSplits(x, c, y, isAddress, r);
      SensitiveWithin(x, isAddress, r);
    }
  }

  /** A long token by itself becomes one marker, unless part of it reads as an address. */
  lemma TokenAlone(w: seq<byte>, isAddress: seq<byte> -> bool)
    requires |w| >= 32 && !HasAddress(w, isAddress)
    requires forall i :: 0 <= i < |w| ==>
      || w[i] as char in "0123456789" || w[i] as char in "abcdefghijklmnopqrstuvwxyz"
      || w[i] as char in "ABCDEFGHIJKLMNOPQRSTUVWXYZ" || w[i] as char in "_-+/="
    requires || (exists i :: 0 <= i < |w| && w[i] as char in "0123456789")
             || (forall i :: 0 <= i < |w| ==> w[i] as char in "0123456789abcdefABCDEF")
    ensures Redacted(w, isAddress) == seq(10, i requires 0 <= i < 10 => "[REDACTED]"[i] as int)
  {
    SensitiveText(w, isAddress, 0, |w|);
    forall i | 0 <= i < |w| {
      CharacterClasses(w[i]);
    }
    assert Sensitive(w, isAddress, Range(0, |w|));
    var ranges := SensitiveRanges(w, isAddress);
    forall r | r in ranges ensures r == Range(0, |w|) {
      if Maximal(w, IsOpaqueChar, r.start, r.end) {
        OneRunEndsHere(w, IsOpaqueChar, r, Range(0, |w|));
      }
    }
    OneRange(w, ranges);
  }

  lemma OneRange(w: seq<byte>, ranges: set<Range>)
    requires w != [] && Range(0, |w|) in ranges && forall r :: r in ranges ==> r == Range(0, |w|)
    ensures Emit(w, ranges, 0) == seq(10, i requires 0 <= i < 10 => "[REDACTED]"[i] as int)
  {
    MarkerText();
    EmitCovered(w, ranges, 0, |w|);
  }

  /** In a redacted line every whole word of 32 or more characters has no digit, and is not all hex. */
  lemma NoTokenSurvives(s: seq<byte>, isAddress: seq<byte> -> bool, lo: nat, hi: nat)
    requires lo + 32 <= hi <= |Redacted(s, isAddress)|
    requires var once := Redacted(s, isAddress);
             forall i :: lo <= i < hi ==>
               || once[i] as char in "0123456789" || once[i] as char in "abcdefghijklmnopqrstuvwxyz"
               || once[i] as char in "ABCDEFGHIJKLMNOPQRSTUVWXYZ" || once[i] as char in "_-+/="
    requires var once := Redacted(s, isAddress);
             forall i :: 0 <= i < |once| && (i == lo - 1 || i == hi) ==>
               && once[i] as char !in "0123456789" && once[i] as char !in "abcdefghijklmnopqrstuvwxyz"
               && once[i] as char !in "ABCDEFGHIJKLMNOPQRSTUVWXYZ" && once[i] as char !in "_-+/="
    ensures var once := Redacted(s, isAddress);
            && (forall i :: lo <= i < hi ==> once[i] as char !in "0123456789")
            && exists i :: lo <= i < hi && once[i] as char !in "0123456789abcdefABCDEF"
  {
    var once := Redacted(s, isAddress);
    RedactedIsClean(s, isAddress);
    OpaqueStretch(once, lo, hi);
    IdentifyingStretch(once, lo, hi);
    assert Maximal(once, IsOpaqueChar, lo, hi);
    hide Redacted, Maximal, Identifying;
  }
}
