/** The log redactor: two maximal-run scans, a sort, and a cursor merge. */
module Redaction {
  import opened Bytes
  import opened Utf8

  /** A half-open span of byte positions. */
  datatype Range = Range(start: nat, end: nat)

  /** `[REDACTED]` */
  const MARKER: seq<byte> := [0x5B, 0x52, 0x45, 0x44, 0x41, 0x43, 0x54, 0x45, 0x44, 0x5D]

  predicate IsNetworkChar(b: byte) {
    IsHexDigit(b) || b == '.' as int || b == ':' as int
  }

  predicate IsOpaqueChar(b: byte) {
    IsAlphanumeric(b) || b == '_' as int || b == '-' as int || b == '+' as int
    || b == '/' as int || b == '=' as int
  }

  predicate AnyDigit(s: seq<byte>) {
    exists i :: 0 <= i < |s| && IsDigit(s[i])
  }

  predicate AllHex(s: seq<byte>) {
    forall i :: 0 <= i < |s| ==> IsHexDigit(s[i])
  }

  /** A token that may identify a device: long, and either with a digit or all hex. */
  predicate Identifying(s: seq<byte>) {
    |s| >= 32 && (AnyDigit(s) || AllHex(s))
  }

  /** `[lo, hi)` is a run of `inRun` bytes that cannot be extended on either side. */
  predicate Maximal(s: seq<byte>, inRun: byte -> bool, lo: nat, hi: nat) {
    && lo < hi <= |s|
    && (forall i :: lo <= i < hi ==> inRun(s[i]))
    && (lo == 0 || !inRun(s[lo - 1]))
    && (hi == |s| || !inRun(s[hi]))
  }

  /** What is to be redacted. Address parsing belongs to the standard library; `isAddress` is any
      predicate on the candidate text. */
  predicate Sensitive(s: seq<byte>, isAddress: seq<byte> -> bool, r: Range) {
    || (Maximal(s, IsNetworkChar, r.start, r.end) && isAddress(s[r.start..r.end]))
    || (Maximal(s, IsOpaqueChar, r.start, r.end) && Identifying(s[r.start..r.end]))
  }

  // ---------------------------------------------------------------------------------------------
  // The scans
  // ---------------------------------------------------------------------------------------------

  /** One scan: exactly the accepted maximal runs, and every cut falls on a character boundary. */
  method Scan(input: seq<byte>, inRun: byte -> bool, accept: seq<byte> -> bool) returns (ranges: seq<Range>)
    requires ValidUtf8(input)
    requires forall b: byte :: inRun(b) ==> b < 0x80
    ensures forall r :: r in ranges <==>
      Maximal(input, inRun, r.start, r.end) && accept(input[r.start..r.end])
  {
    ranges := [];
    var i := 0;
    while i < |input|
      invariant 0 <= i <= |input|
      invariant i == 0 || i == |input| || !inRun(input[i - 1]) || !inRun(input[i])
      invariant forall r :: r in ranges <==>
        r.end <= i && Maximal(input, inRun, r.start, r.end) && accept(input[r.start..r.end])
    {
      if inRun(input[i]) {
        var start := i;
        while i < |input| && inRun(input[i])
          invariant start <= i <= |input|
          invariant i == start ==> i < |input| && inRun(input[i])
          invariant forall k :: start <= k < i ==> inRun(input[k])
        {
          i := i + 1;
        }
        assert Maximal(input, inRun, start, i);
        AsciiBoundaries(input, start);
        AsciiBoundaries(input, i - 1);
        var candidate := Slice(input, start, i);
        ghost var before := ranges;
        if accept(candidate) {
          ranges := ranges + [Range(start, i)];
        }
        forall r: Range | start < r.end <= i && Maximal(input, inRun, r.start, r.end)
          ensures r == Range(start, i)
        {
          OneRunEndsHere(input, inRun, r, Range(start, i));
        }
      } else {
        i := i + 1;
      }
    }
  }

  /** Two maximal runs that share a byte are the same run. */
  lemma OneRunEndsHere(s: seq<byte>, inRun: byte -> bool, a: Range, b: Range)
    requires Maximal(s, inRun, a.start, a.end) && Maximal(s, inRun, b.start, b.end)
    requires a.start < b.end && b.start < a.end
    ensures a == b
  {
  }

  // ---------------------------------------------------------------------------------------------
  // The per-byte specification
  // ---------------------------------------------------------------------------------------------

  predicate Covered(ranges: set<Range>, k: nat) {
    exists r :: r in ranges && r.start <= k < r.end
  }

  /** Some range ends at `end` without being inside a range that begins before it and outlasts it. */
  predicate Shown(ranges: set<Range>, end: nat) {
    exists r :: r in ranges && r.end == end
                && forall q :: q in ranges ==> !(q.start < r.start && end < q.end)
  }

  /** What byte `k` contributes: itself when no range covers it, a marker when a shown range ends
      with it, and nothing otherwise. */
  function EmitAt(input: seq<byte>, ranges: set<Range>, k: nat): seq<byte>
    requires k < |input|
  {
    if !Covered(ranges, k) then [input[k]]
    else if Shown(ranges, k + 1) then MARKER
    else []
  }

  /** The redaction of `input` from byte `k` on, one byte at a time and with no cursor. */
  function Emit(input: seq<byte>, ranges: set<Range>, k: nat): seq<byte>
    requires k <= |input|
    decreases |input| - k
  {
    if k == |input| then [] else EmitAt(input, ranges, k) + Emit(input, ranges, k + 1)
  }

  /** Every stretch of covered bytes ends in a marker, so two copied pieces are never joined across
      text that was cut out. */
  lemma CoveredStretchEndsInMarker(ranges: set<Range>, k: nat)
    requires Covered(ranges, k) && !Covered(ranges, k + 1)
    ensures Shown(ranges, k + 1)
  {
  }

  function SensitiveRanges(s: seq<byte>, isAddress: seq<byte> -> bool): (ranges: set<Range>)
    ensures forall r :: r in ranges <==> Sensitive(s, isAddress, r)
  {
    set lo, hi | 0 <= lo < |s| && 0 < hi <= |s| && Sensitive(s, isAddress, Range(lo, hi)) :: Range(lo, hi)
  }

  /** The redaction of a whole line, without a scan, a sort or a cursor. */
  function Redacted(s: seq<byte>, isAddress: seq<byte> -> bool): seq<byte> {
    Emit(s, SensitiveRanges(s, isAddress), 0)
  }

  // ---------------------------------------------------------------------------------------------
  // The sort and the cursor merge
  // ---------------------------------------------------------------------------------------------

  predicate InOrder(a: Range, b: Range) {
    a.start < b.start || (a.start == b.start && a.end <= b.end)
  }

  predicate Sorted(rs: seq<Range>) {
    forall i, j :: 0 <= i < j < |rs| ==> InOrder(rs[i], rs[j])
  }

  function Insert(r: Range, rs: seq<Range>): (out: seq<Range>)
    ensures multiset(out) == multiset(rs) + multiset{r}
  {
    if rs == [] then [r]
    else if InOrder(r, rs[0]) then [r] + rs
    else
      assert rs == [rs[0]] + rs[1..];
      [rs[0]] + Insert(r, rs[1..])
  }

  lemma {:induction false} InsertKeepsSorted(r: Range, rs: seq<Range>)
    requires Sorted(rs)
    ensures Sorted(Insert(r, rs))
  {
    if rs != [] && !InOrder(r, rs[0]) {
      InsertKeepsSorted(r, rs[1..]);
      var rest := Insert(r, rs[1..]);
      forall x | x in rest ensures InOrder(rs[0], x) {
        assert x in multiset(rest);
        assert x == r || x in rs[1..];
      }
    }
  }

  /** `sort_unstable` on pairs: the one sorted permutation. */
  function SortUnstable(rs: seq<Range>): (out: seq<Range>)
    ensures Sorted(out) && multiset(out) == multiset(rs)
  {
    if rs == [] then []
    else
      assert rs == [rs[0]] + rs[1..];
      InsertKeepsSorted(rs[0], SortUnstable(rs[1..]));
      Insert(rs[0], SortUnstable(rs[1..]))
  }

  predicate Within(rs: seq<Range>, n: nat) {
    forall r :: r in rs ==> r.start < r.end <= n
  }

  /** The cursor merge from position `copied` over the ranges still to come. */
  function Paste(input: seq<byte>, rs: seq<Range>, copied: nat): seq<byte>
    requires Within(rs, |input|) && copied <= |input|
  {
    if rs == [] then input[copied..]
    else if rs[0].end <= copied then Paste(input, rs[1..], copied)
    else
      input[copied..if rs[0].start < copied then copied else rs[0].start]
      + MARKER + Paste(input, rs[1..], rs[0].end)
  }

  /** The merge has reached `copied`: the ranges left are sorted, and all others end before it. */
  ghost predicate Progress(ranges: set<Range>, rs: seq<Range>, copied: nat) {
    && Sorted(rs)
    && (forall r :: r in rs ==> r in ranges)
    && (forall r :: r in ranges && r !in rs ==> r.end <= copied)
  }

  lemma {:induction false} EmitUncovered(input: seq<byte>, ranges: set<Range>, lo: nat, hi: nat)
    requires lo <= hi <= |input|
    requires forall k :: lo <= k < hi ==> !Covered(ranges, k)
    ensures Emit(input, ranges, lo) == input[lo..hi] + Emit(input, ranges, hi)
    decreases hi - lo
  {
    if lo < hi {
      EmitUncovered(input, ranges, lo + 1, hi);
      var rest := Emit(input, ranges, hi);
      assert EmitAt(input, ranges, lo) == [input[lo]];
      assert input[lo..hi] + rest == [input[lo]] + (input[lo + 1..hi] + rest);
    }
  }

  lemma {:induction false} EmitCovered(input: seq<byte>, ranges: set<Range>, lo: nat, hi: nat)
    requires lo < hi <= |input|
    requires forall k :: lo <= k < hi ==> Covered(ranges, k)
    requires forall e :: lo < e <= hi ==> (Shown(ranges, e) <==> e == hi)
    ensures Emit(input, ranges, lo) == MARKER + Emit(input, ranges, hi)
    decreases hi - lo
  {
    assert Shown(ranges, lo + 1) <==> lo + 1 == hi;
    if lo + 1 < hi {
      EmitCovered(input, ranges, lo + 1, hi);
    }
  }

  /** The gap the merge copies before range `rs[0]` has no covered byte, and the stretch it replaces
      is covered throughout and shows exactly one marker. */
  lemma StretchFacts(ranges: set<Range>, rs: seq<Range>, copied: nat, mid: nat)
    requires Progress(ranges, rs, copied) && rs != [] && copied < rs[0].end && rs[0].start < rs[0].end
    requires mid == if rs[0].start < copied then copied else rs[0].start
    ensures forall k :: copied <= k < mid ==> !Covered(ranges, k)
    ensures forall k :: mid <= k < rs[0].end ==> Covered(ranges, k)
    ensures forall e :: mid < e <= rs[0].end ==> (Shown(ranges, e) <==> e == rs[0].end)
    ensures Progress(ranges, rs[1..], rs[0].end)
  {
  }

  /** One stretch of the specification: the gap, and the marker for what follows it. */
  lemma EmitStretch(input: seq<byte>, ranges: set<Range>, rs: seq<Range>, copied: nat, mid: nat)
    requires Within(rs, |input|) && rs != [] && copied < rs[0].end && Progress(ranges, rs, copied)
    requires mid == if rs[0].start < copied then copied else rs[0].start
    ensures rs[0] in rs && mid < rs[0].end <= |input| && Progress(ranges, rs[1..], rs[0].end)
    ensures Emit(input, ranges, copied) == input[copied..mid] + MARKER + Emit(input, ranges, rs[0].end)
  {
    hide Covered, Shown, Emit;
    assert rs[0] in rs;
    StretchFacts(ranges, rs, copied, mid);
    EmitGapThenMarker(input, ranges, copied, mid, rs[0].end);
  }

  lemma EmitGapThenMarker(input: seq<byte>, ranges: set<Range>, copied: nat, mid: nat, end: nat)
    requires copied <= mid < end <= |input|
    requires forall k :: copied <= k < mid ==> !Covered(ranges, k)
    requires forall k :: mid <= k < end ==> Covered(ranges, k)
    requires forall e :: mid < e <= end ==> (Shown(ranges, e) <==> e == end)
    ensures Emit(input, ranges, copied) == input[copied..mid] + MARKER + Emit(input, ranges, end)
  {
    hide Covered, Shown, Emit;
    EmitUncovered(input, ranges, copied, mid);
    EmitCovered(input, ranges, mid, end);
    Reassociate(input[copied..mid], MARKER, Emit(input, ranges, end));
  }

  lemma Reassociate(a: seq<byte>, b: seq<byte>, c: seq<byte>)
    ensures a + b + c == a + (b + c)
  {
  }

  lemma EmitRest(input: seq<byte>, ranges: set<Range>, copied: nat)
    requires copied <= |input| && forall r :: r in ranges ==> r.end <= copied
    ensures Emit(input, ranges, copied) == input[copied..]
  {
    EmitUncovered(input, ranges, copied, |input|);
    assert input[copied..|input|] == input[copied..];
  }

  /** The sort-and-cursor merge computes the per-byte specification, however the ranges overlap. */
  lemma {:induction false} MergeMeetsPerByteSpec(input: seq<byte>, ranges: set<Range>, rs: seq<Range>, copied: nat)
    requires Within(rs, |input|) && copied <= |input|
    requires Progress(ranges, rs, copied)
    ensures Paste(input, rs, copied) == Emit(input, ranges, copied)
    decreases |rs|
  {
    hide Emit;
    if rs == [] {
      EmitRest(input, ranges, copied);
    } else if rs[0].end <= copied {
      assert rs == [rs[0]] + rs[1..];
      MergeMeetsPerByteSpec(input, ranges, rs[1..], copied);
    } else {
      var r := rs[0];
      var mid := if r.start < copied then copied else r.start;
      EmitStretch(input, ranges, rs, copied, mid);
      MergeMeetsPerByteSpec(input, ranges, rs[1..], r.end);
    }
  }
}
