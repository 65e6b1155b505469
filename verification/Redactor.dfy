/** `redact_log_line` and what its output is guaranteed to be. */
module Redactor {
  import opened Bytes
  import opened Utf8
  import opened Redaction

  /** No maximal opaque run of the text could identify a device. */
  ghost predicate CleanRuns(s: seq<byte>) {
    forall lo: nat, hi: nat :: Maximal(s, IsOpaqueChar, lo, hi) ==> !Identifying(s[lo..hi])
  }

  ghost predicate HasAddress(s: seq<byte>, isAddress: seq<byte> -> bool) {
    exists lo: nat, hi: nat :: Maximal(s, IsNetworkChar, lo, hi) && isAddress(s[lo..hi])
  }

  // ---------------------------------------------------------------------------------------------
  // No identifying run survives
  // ---------------------------------------------------------------------------------------------

  /** The marker's brackets are not opaque, so it never joins a run with its neighbours. */
  lemma CleanAroundMarker(x: seq<byte>, y: seq<byte>)
    requires CleanRuns(x) && CleanRuns(y)
    ensures CleanRuns(x + MARKER + y)
  {
    var z := x + MARKER + y;
    var n := |x|;
    forall lo: nat, hi: nat | Maximal(z, IsOpaqueChar, lo, hi) ensures !Identifying(z[lo..hi]) {
      assert z[n] == MARKER[0] && z[n + 9] == MARKER[9];
      assert forall i :: 0 <= i < n ==> z[i] == x[i];
      if hi <= n {
        assert Maximal(x, IsOpaqueChar, lo, hi);
        assert z[lo..hi] == x[lo..hi];
      } else if lo > n + 9 {
        assert Maximal(y, IsOpaqueChar, lo - n - 10, hi - n - 10) by {
          assert forall i :: 0 <= i < |y| ==> y[i] == z[i + n + 10];
        }
        assert z[lo..hi] == y[lo - n - 10..hi - n - 10];
      } else {
        assert n < lo && hi <= n + 9;
      }
    }
  }

  /** Every run lies in a maximal one. */
  lemma {:induction false} EnclosingRun(s: seq<byte>, inRun: byte -> bool, lo: nat, hi: nat) returns (r: Range)
    requires lo < hi <= |s| && forall i :: lo <= i < hi ==> inRun(s[i])
    ensures r.start <= lo && hi <= r.end && Maximal(s, inRun, r.start, r.end)
    decreases lo + |s| - hi
  {
    if lo > 0 && inRun(s[lo - 1]) {
      r := EnclosingRun(s, inRun, lo - 1, hi);
    } else if hi < |s| && inRun(s[hi]) {
      r := EnclosingRun(s, inRun, lo, hi + 1);
    } else {
      r := Range(lo, hi);
    }
  }

  /** A copied piece reaches from one range to the next (or to an end of the line). */
  ghost predicate Gap(s: seq<byte>, ranges: set<Range>, a: nat, b: nat) {
    && a <= b <= |s|
    && (forall k :: a <= k < b ==> !Covered(ranges, k))
    && (a == 0 || exists r :: r in ranges && r.end == a)
    && (b == |s| || exists r :: r in ranges && r.start == b)
  }

  lemma SliceOfSlice(s: seq<byte>, a: nat, b: nat, lo: nat, hi: nat)
    requires a <= b <= |s| && lo <= hi <= b - a
    ensures s[a..b][lo..hi] == s[a + lo..a + hi]
  {
    var piece := s[a..b];
    assert |piece[lo..hi]| == |s[a + lo..a + hi]|;
    forall k | 0 <= k < hi - lo ensures piece[lo..hi][k] == s[a + lo..a + hi][k] {
      assert piece[lo..hi][k] == piece[lo + k] && piece[lo + k] == s[a + lo + k];
    }
  }

  /** Address ranges may cut an opaque run that was not redacted. The pieces stay harmless: a piece
      that is all hex cannot touch the end of a maximal network run. */
  lemma GapIsClean(s: seq<byte>, isAddress: seq<byte> -> bool, a: nat, b: nat)
    requires Gap(s, SensitiveRanges(s, isAddress), a, b)
    ensures CleanRuns(s[a..b])
  {
    var g := s[a..b];
    forall lo: nat, hi: nat | Maximal(g, IsOpaqueChar, lo, hi) ensures !Identifying(g[lo..hi]) {
      var i, j := a + lo, a + hi;
      SliceOfSlice(s, a, b, lo, hi);
      forall k | i <= k < j ensures IsOpaqueChar(s[k]) { assert s[k] == g[k - a]; }
      assert i == a || s[i - 1] == g[lo - 1];
      assert j == b || s[j] == g[hi];
      hide Gap, Maximal, Identifying;
      PieceIsHarmless(s, isAddress, a, b, i, j);
    }
  }

  /** What a copied stretch leaves of a run does not identify a device. */
  lemma PieceIsHarmless(s: seq<byte>, isAddress: seq<byte> -> bool, a: nat, b: nat, i: nat, j: nat)
    requires Gap(s, SensitiveRanges(s, isAddress), a, b) && a <= i < j <= b
    requires forall k :: i <= k < j ==> IsOpaqueChar(s[k])
    requires i == a || !IsOpaqueChar(s[i - 1])
    requires j == b || !IsOpaqueChar(s[j])
    ensures !Identifying(s[i..j])
  {
    var ranges := SensitiveRanges(s, isAddress);
    var m := EnclosingRun(s, IsOpaqueChar, i, j);
    assert !Covered(ranges, i);
    UncoveredIsOutside(ranges, m, i);
    assert !Sensitive(s, isAddress, m);
    assert !Identifying(s[m.start..m.end]);
    if m.end - m.start >= 32 {
      hide Maximal, SensitiveRanges, Gap, IsOpaqueChar;
      PieceHasNoDigit(s, m, i, j);
      if AllHex(s[i..j]) {
        PieceIsUncut(s, isAddress, a, b, m, i, j);
      }
    }
  }

  lemma UncoveredIsOutside(ranges: set<Range>, r: Range, k: nat)
    requires !Covered(ranges, k) && r.start <= k < r.end
    ensures r !in ranges
  {
  }

  lemma PieceHasNoDigit(s: seq<byte>, m: Range, i: nat, j: nat)
    requires m.start <= i < j <= m.end <= |s|
    requires !AnyDigit(s[m.start..m.end])
    ensures !AnyDigit(s[i..j])
  {
    var run := s[m.start..m.end];
    forall k | 0 <= k < j - i ensures !IsDigit(s[i..j][k]) {
      assert s[i..j][k] == run[i - m.start + k];
    }
  }

  /** An all-hex piece of a copied stretch is a whole run of the line. */
  lemma PieceIsUncut(s: seq<byte>, isAddress: seq<byte> -> bool, a: nat, b: nat, m: Range, i: nat, j: nat)
    requires Gap(s, SensitiveRanges(s, isAddress), a, b) && a <= i < j <= b
    requires Maximal(s, IsOpaqueChar, m.start, m.end) && m.start <= i && j <= m.end
    requires AllHex(s[i..j])
    requires i == a || !IsOpaqueChar(s[i - 1])
    requires j == b || !IsOpaqueChar(s[j])
    ensures m == Range(i, j)
  {
    assert s[i] == s[i..j][0] && s[j - 1] == s[i..j][j - 1 - i];
    assert IsHexDigit(s[i]) && IsHexDigit(s[j - 1]);
    assert IsNetworkChar(s[i]) && IsNetworkChar(s[j - 1]);
    assert m.start == i;
    assert m.end == j;
  }

  /** So is the piece the merge copies before its next marker. */
  lemma NextPieceIsClean(s: seq<byte>, isAddress: seq<byte> -> bool, rs: seq<Range>, copied: nat, mid: nat)
    requires Within(rs, |s|) && rs != [] && copied < rs[0].end
    requires Progress(SensitiveRanges(s, isAddress), rs, copied)
    requires copied == 0 || exists r :: r in SensitiveRanges(s, isAddress) && r.end == copied
    requires mid == if rs[0].start < copied then copied else rs[0].start
    ensures rs[0] in rs && mid <= |s| && CleanRuns(s[copied..mid])
  {
    assert rs[0] in rs;
    if copied < mid {
      StretchFacts(SensitiveRanges(s, isAddress), rs, copied, mid);
      assert Gap(s, SensitiveRanges(s, isAddress), copied, mid);
      GapIsClean(s, isAddress, copied, mid);
    } else {
      assert s[copied..mid] == [];
    }
  }

  /** The whole merge output is clean. */
  lemma {:induction false} PasteIsClean(s: seq<byte>, isAddress: seq<byte> -> bool, rs: seq<Range>, copied: nat)
    requires Within(rs, |s|) && copied <= |s|
    requires Progress(SensitiveRanges(s, isAddress), rs, copied)
    requires copied == 0 || exists r :: r in SensitiveRanges(s, isAddress) && r.end == copied
    ensures CleanRuns(Paste(s, rs, copied))
    decreases |rs|
  {
    hide CleanRuns, Sensitive;
    var ranges := SensitiveRanges(s, isAddress);
    if rs == [] {
      GapIsClean(s, isAddress, copied, |s|);
      assert s[copied..|s|] == s[copied..];
    } else if rs[0].end <= copied {
      assert rs == [rs[0]] + rs[1..];
      PasteIsClean(s, isAddress, rs[1..], copied);
    } else {
      var r := rs[0];
      var mid := if r.start < copied then copied else r.start;
      assert r in rs;
      StretchFacts(ranges, rs, copied, mid);
      NextPieceIsClean(s, isAddress, rs, copied, mid);
      PasteIsClean(s, isAddress, rs[1..], r.end);
      CleanAroundMarker(s[copied..mid], Paste(s, rs[1..], r.end));
    }
  }

  // ---------------------------------------------------------------------------------------------
  // Character boundaries
  // ---------------------------------------------------------------------------------------------

  /** Both ends of every sensitive range are character boundaries. */
  lemma RangeBoundaries(s: seq<byte>, isAddress: seq<byte> -> bool, r: Range)
    requires ValidUtf8(s) && Sensitive(s, isAddress, r)
    ensures Boundary(s, r.start) && Boundary(s, r.end)
  {
    AsciiBoundaries(s, r.start);
    AsciiBoundaries(s, r.end - 1);
  }

  /** Redacting valid text leaves valid text. */
  lemma {:induction false} PasteIsValid(s: seq<byte>, isAddress: seq<byte> -> bool, rs: seq<Range>, copied: nat)
    requires ValidUtf8(s) && Boundary(s, copied)
    requires Within(rs, |s|) && forall r :: r in rs ==> Sensitive(s, isAddress, r)
    ensures ValidUtf8(Paste(s, rs, copied))
    decreases |rs|
  {
    hide ValidUtf8, Sensitive;
    if rs == [] {
      SplitIsValid(s, copied);
    } else if rs[0].end <= copied {
      PasteIsValid(s, isAddress, rs[1..], copied);
    } else {
      var mid := if rs[0].start < copied then copied else rs[0].start;
      RangeBoundaries(s, isAddress, rs[0]);
      SliceIsValid(s, copied, mid);
      PasteIsValid(s, isAddress, rs[1..], rs[0].end);
      AsciiIsValid(MARKER);
      ConcatIsValid(s[copied..mid], MARKER);
      ConcatIsValid(s[copied..mid] + MARKER, Paste(s, rs[1..], rs[0].end));
    }
  }

  // ---------------------------------------------------------------------------------------------
  // The redactor
  // ---------------------------------------------------------------------------------------------

  lemma SortKeepsMembers(rs: seq<Range>)
    ensures forall r :: r in SortUnstable(rs) <==> r in rs
  {
    forall r ensures r in SortUnstable(rs) <==> r in rs {
      assert r in multiset(SortUnstable(rs)) <==> r in multiset(rs);
    }
  }

  lemma NothingSensitive(s: seq<byte>, isAddress: seq<byte> -> bool)
    requires forall r :: !Sensitive(s, isAddress, r)
    ensures Redacted(s, isAddress) == s && CleanRuns(s)
  {
    EmitUncovered(s, SensitiveRanges(s, isAddress), 0, |s|);
    assert s[0..|s|] == s;
    forall lo: nat, hi: nat | Maximal(s, IsOpaqueChar, lo, hi) ensures !Identifying(s[lo..hi]) {
      assert !Sensitive(s, isAddress, Range(lo, hi));
    }
  }

  /** One round of the cursor. */
  lemma PasteOne(s: seq<byte>, rs: seq<Range>, i: nat, copied: nat)
    requires Within(rs, |s|) && i < |rs| && copied <= |s|
    ensures rs[i] in rs && rs[i].start < rs[i].end <= |s|
    ensures Within(rs[i..], |s|) && Within(rs[i + 1..], |s|)
    ensures Paste(s, rs[i..], copied) ==
            if rs[i].end <= copied then Paste(s, rs[i + 1..], copied)
            else
              s[copied..if rs[i].start < copied then copied else rs[i].start]
              + MARKER + Paste(s, rs[i + 1..], rs[i].end)
  {
    assert rs[i] in rs;
    assert rs[i..][0] == rs[i] && rs[i..][1..] == rs[i + 1..];
  }

  lemma PasteNothing(s: seq<byte>, copied: nat)
    requires copied <= |s|
    ensures Paste(s, [], copied) == s[copied..|s|]
  {
  }

  lemma AppendPiece(a: seq<byte>, b: seq<byte>, c: seq<byte>, d: seq<byte>)
    ensures a + b + c + d == a + (b + c + d)
  {
  }

  /** The cursor loop, on any ranges whose ends are character boundaries. Every slice it takes is
      in bounds, ordered and whole characters. */
  method Merge(input: seq<byte>, sorted: seq<Range>) returns (output: seq<byte>)
    requires Within(sorted, |input|)
    requires forall r :: r in sorted ==> Boundary(input, r.start) && Boundary(input, r.end)
    ensures output == Paste(input, sorted, 0)
  {
    hide Paste;
    output := [];
    var copied: nat := 0;
    for i := 0 to |sorted|
      invariant copied <= |input| && Boundary(input, copied)
      invariant output + Paste(input, sorted[i..], copied) == Paste(input, sorted, 0)
    {
      var r := sorted[i];
      PasteOne(input, sorted, i, copied);
      if copied < r.end {
        var start := if r.start < copied then copied else r.start;
        ghost var before := output;
        output := output + Slice(input, copied, start);
        output := output + MARKER;
        AppendPiece(before, input[copied..start], MARKER, Paste(input, sorted[i + 1..], r.end));
        copied := r.end;
      }
    }
    PasteNothing(input, copied);
    output := output + Slice(input, copied, |input|);
  }

  /** Merging the sorted sensitive ranges, in whatever order the scans listed them, gives the
      per-byte redaction, which is clean and valid text. */
  lemma SortedMerge(s: seq<byte>, isAddress: seq<byte> -> bool, ranges: seq<Range>)
    requires forall r :: r in ranges <==> Sensitive(s, isAddress, r)
    ensures Within(SortUnstable(ranges), |s|)
    ensures Paste(s, SortUnstable(ranges), 0) == Redacted(s, isAddress)
    ensures CleanRuns(Redacted(s, isAddress))
    ensures ValidUtf8(s) ==> ValidUtf8(Redacted(s, isAddress))
    ensures forall r :: r in SortUnstable(ranges) ==> Sensitive(s, isAddress, r)
  {
    var sorted := SortUnstable(ranges);
    SortKeepsMembers(ranges);
    assert Progress(SensitiveRanges(s, isAddress), sorted, 0);
    MergeMeetsPerByteSpec(s, SensitiveRanges(s, isAddress), sorted, 0);
    PasteIsClean(s, isAddress, sorted, 0);
    if ValidUtf8(s) {
      PasteIsValid(s, isAddress, sorted, 0);
    }
  }

  /** `redact_log_line`: the scans, the sort and the cursor compute the per-byte redaction, leave no
      identifying run, and never cut a character. */
  method RedactLogLine(input: seq<byte>, isAddress: seq<byte> -> bool) returns (output: seq<byte>)
    requires ValidUtf8(input)
    ensures output == Redacted(input, isAddress)
    ensures CleanRuns(output)
    ensures ValidUtf8(output)
  {
    var addresses := Scan(input, IsNetworkChar, isAddress);
    var tokens := Scan(input, IsOpaqueChar, Identifying);
    var ranges := addresses + tokens;
    assert forall r :: r in ranges <==> Sensitive(input, isAddress, r);
    if ranges == [] {
      NothingSensitive(input, isAddress);
      return input;
    }
    SortedMerge(input, isAddress, ranges);
    var sorted := SortUnstable(ranges);
    forall r | r in sorted ensures Boundary(input, r.start) && Boundary(input, r.end) {
      RangeBoundaries(input, isAddress, r);
    }
    output := Merge(input, sorted);
  }

  /** A line is left alone exactly when it holds nothing sensitive. */
  lemma UnchangedExactlyWhenNothingSensitive(s: seq<byte>, isAddress: seq<byte> -> bool)
    ensures Redacted(s, isAddress) == s <==> SensitiveRanges(s, isAddress) == {}
  {
    var all := SensitiveRanges(s, isAddress);
    if all == {} {
      forall r ensures !Sensitive(s, isAddress, r) { assert r !in all; }
      NothingSensitive(s, isAddress);
    } else {
      var rs := Enumerate(all);
      SortedMerge(s, isAddress, rs);
      SortKeepsMembers(rs);
      PasteChanges(s, isAddress, SortUnstable(rs));
    }
  }

  /** The first marker replaces a byte that is no bracket. */
  lemma PasteChanges(s: seq<byte>, isAddress: seq<byte> -> bool, rs: seq<Range>)
    requires rs != [] && Within(rs, |s|) && Sensitive(s, isAddress, rs[0])
    ensures Paste(s, rs, 0) != s
  {
    var r := rs[0];
    assert r in rs;
    var rest := Paste(s, rs[1..], r.end);
    assert Paste(s, rs, 0) == s[0..r.start] + MARKER + rest;
    assert (s[0..r.start] + MARKER + rest)[r.start] == MARKER[0];
  }

  ghost function Enumerate(ranges: set<Range>): (rs: seq<Range>)
    ensures forall r :: r in rs <==> r in ranges
  {
    if ranges == {} then [] else var r :| r in ranges; [r] + Enumerate(ranges - {r})
  }

  /** No opaque run of 32 or more bytes with a digit, or all hex, is left in any redacted line. */
  lemma RedactedIsClean(s: seq<byte>, isAddress: seq<byte> -> bool)
    ensures CleanRuns(Redacted(s, isAddress))
  {
    SortedMerge(s, isAddress, Enumerate(SensitiveRanges(s, isAddress)));
  }

  // ---------------------------------------------------------------------------------------------
  // When a second pass redacts more
  // ---------------------------------------------------------------------------------------------

  /** A second pass finds no token, so it changes the output exactly when that still holds text that
      reads as an address. */
  lemma SecondPass(s: seq<byte>, isAddress: seq<byte> -> bool)
    ensures var once := Redacted(s, isAddress);
            Redacted(once, isAddress) == once <==> !HasAddress(once, isAddress)
  {
    var once := Redacted(s, isAddress);
    RedactedIsClean(s, isAddress);
    UnchangedExactlyWhenNothingSensitive(once, isAddress);
    var again := SensitiveRanges(once, isAddress);
    if HasAddress(once, isAddress) {
      var lo: nat, hi: nat :| Maximal(once, IsNetworkChar, lo, hi) && isAddress(once[lo..hi]);
      assert Range(lo, hi) in again;
    } else {
      forall r ensures r !in again {
        assert !(Maximal(once, IsNetworkChar, r.start, r.end) && isAddress(once[r.start..r.end]));
        assert !(Maximal(once, IsOpaqueChar, r.start, r.end) && Identifying(once[r.start..r.end]));
      }
    }
  }

  /** The marker's own text between its letters that are no hex digits. */
  predicate MarkerReads(isAddress: seq<byte> -> bool) {
    isAddress(MARKER[2..6]) || isAddress(MARKER[7..9])
  }

  lemma RunOnOneSide(inRun: byte -> bool, x: seq<byte>, c: byte, y: seq<byte>, lo: nat, hi: nat)
    requires !inRun(c) && Maximal(x + [c] + y, inRun, lo, hi)
    ensures hi < |x| + 1 || lo >= |x| + 1
  {
    assert (x + [c] + y)[|x|] == c;
  }

  lemma RunBefore(inRun: byte -> bool, x: seq<byte>, c: byte, y: seq<byte>, lo: nat, hi: nat)
    requires !inRun(c) && hi <= |x|
    ensures Maximal(x, inRun, lo, hi) <==> Maximal(x + [c] + y, inRun, lo, hi)
    ensures lo <= hi ==> x[lo..hi] == (x + [c] + y)[lo..hi]
  {
    var z := x + [c] + y;
    assert z[|x|] == c && forall i :: 0 <= i < |x| ==> z[i] == x[i];
  }

  lemma RunAfter(inRun: byte -> bool, x: seq<byte>, c: byte, y: seq<byte>, lo: nat, hi: nat)
    requires !inRun(c)
    ensures Maximal(y, inRun, lo, hi)
            <==> Maximal(x + [c] + y, inRun, |x| + 1 + lo, |x| + 1 + hi)
    ensures lo <= hi <= |y| ==> y[lo..hi] == (x + [c] + y)[|x| + 1 + lo..|x| + 1 + hi]
  {
    var z, n := x + [c] + y, |x| + 1;
    assert z[n - 1] == c && |z| == n + |y|;
    assert forall i :: n <= i < |z| ==> z[i] == y[i - n];
    assert hi < |y| ==> z[n + hi] == y[hi];
    assert 0 < lo <= |y| ==> z[n + lo - 1] == y[lo - 1];
    if Maximal(z, inRun, n + lo, n + hi) {
      forall i | lo <= i < hi ensures inRun(y[i]) { assert z[n + i] == y[i]; }
    }
    if Maximal(y, inRun, lo, hi) {
      forall i | n + lo <= i < n + hi ensures inRun(z[i]) { assert z[i] == y[i - n]; }
    }
    if lo <= hi <= |y| {
      forall k | 0 <= k < hi - lo ensures y[lo..hi][k] == z[n + lo..n + hi][k] {
        assert z[n + lo + k] == y[lo + k];
      }
    }
  }

  /** A byte that belongs to no network run keeps the runs on its two sides apart. */
  lemma AddressSplits(x: seq<byte>, c: byte, y: seq<byte>, isAddress: seq<byte> -> bool)
    requires !IsNetworkChar(c)
    ensures HasAddress(x + [c] + y, isAddress) <==> HasAddress(x, isAddress) || HasAddress(y, isAddress)
  {
    var z, n := x + [c] + y, |x| + 1;
    if HasAddress(z, isAddress) {
      var lo: nat, hi: nat :| Maximal(z, IsNetworkChar, lo, hi) && isAddress(z[lo..hi]);
      RunOnOneSide(IsNetworkChar, x, c, y, lo, hi);
      if hi < n {
        RunBefore(IsNetworkChar, x, c, y, lo, hi);
      } else {
        RunAfter(IsNetworkChar, x, c, y, lo - n, hi - n);
      }
    }
    if HasAddress(x, isAddress) {
      var lo: nat, hi: nat :| Maximal(x, IsNetworkChar, lo, hi) && isAddress(x[lo..hi]);
      RunBefore(IsNetworkChar, x, c, y, lo, hi);
    }
    if HasAddress(y, isAddress) {
      var lo: nat, hi: nat :| Maximal(y, IsNetworkChar, lo, hi) && isAddress(y[lo..hi]);
      RunAfter(IsNetworkChar, x, c, y, lo, hi);
    }
  }

  /** Text of network bytes only is one run. */
  lemma AddressOfRun(x: seq<byte>, isAddress: seq<byte> -> bool)
    requires x != [] && forall i :: 0 <= i < |x| ==> IsNetworkChar(x[i])
    ensures HasAddress(x, isAddress) <==> isAddress(x)
  {
    assert Maximal(x, IsNetworkChar, 0, |x|) && x[0..|x|] == x;
    forall lo: nat, hi: nat | Maximal(x, IsNetworkChar, lo, hi) ensures lo == 0 && hi == |x| {
      OneRunEndsHere(x, IsNetworkChar, Range(lo, hi), Range(0, |x|));
    }
  }

  /** The marker does not join network runs either. */
  lemma AddressAroundMarker(x: seq<byte>, y: seq<byte>, isAddress: seq<byte> -> bool)
    ensures HasAddress(x + MARKER + y, isAddress)
            <==> HasAddress(x, isAddress) || MarkerReads(isAddress) || HasAddress(y, isAddress)
  {
    var edac, ed := MARKER[2..6], MARKER[7..9];
    var afterT := ed + [MARKER[9]] + y;
    var afterR := edac + [MARKER[6]] + afterT;
    var afterBracket := [] + [MARKER[1]] + afterR;
    assert x + MARKER + y == x + [MARKER[0]] + afterBracket;
    assert edac == [0x45, 0x44, 0x41, 0x43] && ed == [0x45, 0x44];
    hide HasAddress;
    AddressSplits(x, MARKER[0], afterBracket, isAddress);
    AddressSplits([], MARKER[1], afterR, isAddress);
    AddressSplits(edac, MARKER[6], afterT, isAddress);
    AddressSplits(ed, MARKER[9], y, isAddress);
    assert !HasAddress([], isAddress) by {
      if HasAddress([], isAddress) { AddressNeedsText([], isAddress); }
    }
    AddressOfRun(edac, isAddress);
    AddressOfRun(ed, isAddress);
  }

  lemma AddressNeedsText(x: seq<byte>, isAddress: seq<byte> -> bool)
    requires HasAddress(x, isAddress)
    ensures x != []
  {
  }

  /** A copied piece from `copied` on reads as holding an address. */
  ghost predicate GapReads(s: seq<byte>, isAddress: seq<byte> -> bool, copied: nat) {
    exists a: nat, b: nat ::
      copied <= a && Gap(s, SensitiveRanges(s, isAddress), a, b) && HasAddress(s[a..b], isAddress)
  }

  /** The only piece the merge copies before its next marker. */
  lemma NextGap(s: seq<byte>, ranges: set<Range>, rs: seq<Range>, copied: nat, a: nat, b: nat)
    requires Progress(ranges, rs, copied) && rs != [] && copied < rs[0].end
    requires forall r :: r in ranges ==> r.start < r.end <= |s|
    requires copied <= a < b && a < rs[0].end && Gap(s, ranges, a, b)
    ensures a == copied && b == rs[0].start
  {
    var r := rs[0];
    assert r in ranges;
    assert !Covered(ranges, a);
    assert a < r.start;
    assert Covered(ranges, r.start);
  }

  /** What the merge still has to write holds an address exactly when a piece it copies does, or a
      marker it writes reads as one. */
  lemma {:induction false} PasteAddresses(s: seq<byte>, isAddress: seq<byte> -> bool, rs: seq<Range>, copied: nat)
    requires Within(rs, |s|) && copied <= |s|
    requires Progress(SensitiveRanges(s, isAddress), rs, copied)
    requires copied == 0 || exists r :: r in SensitiveRanges(s, isAddress) && r.end == copied
    ensures HasAddress(Paste(s, rs, copied), isAddress)
            <==> ((exists r :: r in rs && copied < r.end) && MarkerReads(isAddress)) || GapReads(s, isAddress, copied)
    decreases |rs|
  {
    hide HasAddress, Sensitive, GapReads;
    var ranges := SensitiveRanges(s, isAddress);
    if rs == [] {
      LastPieceReads(s, isAddress, copied);
    } else if rs[0].end <= copied {
      assert rs == [rs[0]] + rs[1..];
      PasteAddresses(s, isAddress, rs[1..], copied);
    } else {
      var r := rs[0];
      var mid := if r.start < copied then copied else r.start;
      assert r in rs;
      StretchFacts(ranges, rs, copied, mid);
      PasteAddresses(s, isAddress, rs[1..], r.end);
      AddressAroundMarker(s[copied..mid], Paste(s, rs[1..], r.end), isAddress);
      PieceReads(s, isAddress, rs, copied, mid);
    }
  }

  lemma LastPieceReads(s: seq<byte>, isAddress: seq<byte> -> bool, copied: nat)
    requires copied <= |s| && forall r :: r in SensitiveRanges(s, isAddress) ==> r.end <= copied
    requires copied == 0 || exists r :: r in SensitiveRanges(s, isAddress) && r.end == copied
    ensures GapReads(s, isAddress, copied) <==> HasAddress(s[copied..], isAddress)
  {
    assert s[copied..|s|] == s[copied..];
    assert Gap(s, SensitiveRanges(s, isAddress), copied, |s|);
    hide HasAddress;
    if GapReads(s, isAddress, copied) {
      var a: nat, b: nat :| copied <= a && Gap(s, SensitiveRanges(s, isAddress), a, b) && HasAddress(s[a..b], isAddress);
      assert a == copied && b == |s|;
    }
  }

  /** The piece before the next marker is a gap, and no other starts before that marker. */
  lemma NextPiece(s: seq<byte>, isAddress: seq<byte> -> bool, rs: seq<Range>, copied: nat, mid: nat)
    requires Within(rs, |s|) && rs != [] && copied < rs[0].end
    requires Progress(SensitiveRanges(s, isAddress), rs, copied)
    requires copied == 0 || exists r :: r in SensitiveRanges(s, isAddress) && r.end == copied
    requires mid == if rs[0].start < copied then copied else rs[0].start
    ensures rs[0] in rs && mid <= |s|
    ensures copied < mid ==> Gap(s, SensitiveRanges(s, isAddress), copied, mid)
    ensures forall a: nat, b: nat ::
      copied <= a < b && a < rs[0].end && Gap(s, SensitiveRanges(s, isAddress), a, b) ==> a == copied && b == mid
  {
    var ranges := SensitiveRanges(s, isAddress);
    assert rs[0] in rs;
    StretchFacts(ranges, rs, copied, mid);
    forall r | r in ranges ensures r.start < r.end <= |s| {
      assert Sensitive(s, isAddress, r);
    }
    hide Progress, Sensitive;
    forall a: nat, b: nat | copied <= a < b && a < rs[0].end && Gap(s, ranges, a, b) ensures a == copied && b == mid {
      NextGap(s, ranges, rs, copied, a, b);
    }
  }

  lemma PieceReads(s: seq<byte>, isAddress: seq<byte> -> bool, rs: seq<Range>, copied: nat, mid: nat)
    requires Within(rs, |s|) && rs != [] && copied < rs[0].end
    requires Progress(SensitiveRanges(s, isAddress), rs, copied)
    requires copied == 0 || exists r :: r in SensitiveRanges(s, isAddress) && r.end == copied
    requires mid == if rs[0].start < copied then copied else rs[0].start
    ensures rs[0] in rs && mid <= |s|
    ensures GapReads(s, isAddress, copied) <==> HasAddress(s[copied..mid], isAddress) || GapReads(s, isAddress, rs[0].end)
  {
    hide Progress, Sensitive, HasAddress, Covered;
    NextPiece(s, isAddress, rs, copied, mid);
    if GapReads(s, isAddress, copied) {
      var a: nat, b: nat :| copied <= a && Gap(s, SensitiveRanges(s, isAddress), a, b) && HasAddress(s[a..b], isAddress);
      AddressNeedsText(s[a..b], isAddress);
    }
    if HasAddress(s[copied..mid], isAddress) {
      AddressNeedsText(s[copied..mid], isAddress);
    }
  }

  /** A second pass changes the result if and only if a stretch of the line between two redacted
      ranges, or at an end, holds text that would by itself read as an address, or the line has a
      redacted range and the marker itself reads as one. */
  lemma SecondPassExactly(s: seq<byte>, isAddress: seq<byte> -> bool)
    ensures var once, ranges := Redacted(s, isAddress), SensitiveRanges(s, isAddress);
            Redacted(once, isAddress) != once <==> (
              || (ranges != {} && MarkerReads(isAddress))
              || exists a: nat, b: nat :: Gap(s, ranges, a, b) && HasAddress(s[a..b], isAddress))
  {
    var ranges := SensitiveRanges(s, isAddress);
    var rs := Enumerate(ranges);
    var sorted := SortUnstable(rs);
    SortedMerge(s, isAddress, rs);
    SortKeepsMembers(rs);
    assert Progress(ranges, sorted, 0);
    assert ranges != {} <==> exists r :: r in sorted && 0 < r.end;
    hide HasAddress, Redacted, Progress, Sensitive, Gap;
    PasteAddresses(s, isAddress, sorted, 0);
    SecondPass(s, isAddress);
  }

  // ---------------------------------------------------------------------------------------------
  // Redaction is not idempotent
  // ---------------------------------------------------------------------------------------------

  /** Thirty-two hex digits followed by `::1`. */
  const HEX_THEN_LOOPBACK: seq<byte> := seq(32, _ => 'a' as int) + LOOPBACK

  const LOOPBACK: seq<byte> := [':' as int, ':' as int, '1' as int]

  /** Wherever `::1` reads as an address and the long run does not: the token in front is redacted,
      what is left of the run then is an address, and a second pass redacts more. */
  lemma SecondPassCanRedactMore(isAddress: seq<byte> -> bool)
    requires isAddress(LOOPBACK) && !isAddress(HEX_THEN_LOOPBACK)
    ensures var once := Redacted(HEX_THEN_LOOPBACK, isAddress);
            once == MARKER + LOOPBACK && Redacted(once, isAddress) != once
  {
    var s, r := HEX_THEN_LOOPBACK, Range(0, 32);
    forall q ensures q in [r] <==> Sensitive(s, isAddress, q) {
      OnlyTokenIsSensitive(isAddress, q);
    }
    SortedMerge(s, isAddress, [r]);
    assert s[0..0] == [] && s[32..] == LOOPBACK && [] + MARKER == MARKER;
    assert Paste(s, [r], 0) == s[0..0] + MARKER + s[32..];
    hide Redacted, Sensitive, Maximal, Identifying, IsNetworkChar;
    LoopbackReads(isAddress);
    AddressAroundMarker([], LOOPBACK, isAddress);
    SecondPass(s, isAddress);
  }

  lemma LoopbackReads(isAddress: seq<byte> -> bool)
    requires isAddress(LOOPBACK)
    ensures HasAddress(LOOPBACK, isAddress)
  {
    AddressOfRun(LOOPBACK, isAddress);
  }

  lemma OnlyTokenIsSensitive(isAddress: seq<byte> -> bool, q: Range)
    requires !isAddress(HEX_THEN_LOOPBACK)
    ensures q == Range(0, 32) <==> Sensitive(HEX_THEN_LOOPBACK, isAddress, q)
  {
    var s, r := HEX_THEN_LOOPBACK, Range(0, 32);
    assert Maximal(s, IsNetworkChar, 0, 35) && s[0..35] == s;
    assert Maximal(s, IsOpaqueChar, 0, 32) && AllHex(s[0..32]);
    if Maximal(s, IsNetworkChar, q.start, q.end) {
      OneRunEndsHere(s, IsNetworkChar, q, Range(0, 35));
    }
    if Maximal(s, IsOpaqueChar, q.start, q.end) && q.start < 32 {
      OneRunEndsHere(s, IsOpaqueChar, q, r);
    }
  }
}
