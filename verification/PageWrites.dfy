/** What a page-wise write of logical bytes does to memory, page by page (src/type2/reader.rs, write_usable_bytes). */
module PageWrites {
  import opened Basics
  import opened Tlv
  import opened Memory
  import opened UsableBytes
  import opened TagModel
  import opened TlvLength
  import opened NdefProcedures

  /** A page starts right after the first `p` bytes that go to the usable addresses from rank `k` on. */
  ghost predicate PageStartsAfter(layout: MemoryLayout, k: nat, p: nat) {
    exists b :: DATA_START <= b <= ADDRESS_SPACE_END && b % 4 == 0 && Rank(layout, b) == k + p
  }

  /** How many of `n` bytes can have been written when the run is cut between two pages. */
  ghost predicate IsCut(layout: MemoryLayout, k: nat, n: nat, p: nat) {
    p <= n && (p == 0 || p == n || PageStartsAfter(layout, k, p))
  }

  /** The memory is one that a page-wise write of `data` passes through: cut off between two pages, or complete. */
  ghost predicate IsPrefixState(layout: MemoryLayout, m0: seq<byte>, k: nat, data: seq<byte>, m: seq<byte>) {
    exists p: nat :: IsCut(layout, k, |data|, p) && m == Scatter(layout, m0, k, data, p)
  }

  ghost predicate AllPrefixStates(log: seq<Step>, from: nat, layout: MemoryLayout, m0: seq<byte>, k: nat, data: seq<byte>) {
    forall j :: from <= j < |log| ==> IsPrefixState(layout, m0, k, data, log[j].mem)
  }

  /** The memory was seen in the run. */
  ghost predicate Visited(log: seq<Step>, from: nat, m: seq<byte>) {
    exists j :: from <= j < |log| && log[j].mem == m
  }

  /** Every state of a page-wise write with up to `n` bytes done was seen in the run. */
  ghost predicate AllVisited(log: seq<Step>, from: nat, layout: MemoryLayout, m0: seq<byte>, k: nat, data: seq<byte>,
                             n: nat)
    requires n <= |data|
  {
    forall p: nat :: 0 < p <= n && IsCut(layout, k, |data|, p) ==> Visited(log, from, Scatter(layout, m0, k, data, p))
  }

  /** The number of bytes done when everything below the address is. */
  function DoneBelow(layout: MemoryLayout, k: nat, data: seq<byte>, a: nat): int {
    Min(|data|, Rank(layout, a) - k)
  }

  /** Writing a page that holds its share of the data takes the memory from one state to the next. */
  lemma PageScatters(layout: MemoryLayout, m0: seq<byte>, k: nat, data: seq<byte>, p: nat, q: nat, at: nat)
    requires IsMemory(m0) && p <= q <= |data| && at + 4 <= |m0|
    requires Rank(layout, at) <= k + p && k + q <= Rank(layout, at + 4)
    ensures var after := Scatter(layout, m0, k, data, q);
      PutBlock(Scatter(layout, m0, k, data, p), at, after[at..at + 4]) == after
  {
    var before, after := Scatter(layout, m0, k, data, p), Scatter(layout, m0, k, data, q);
    forall a | 0 <= a < |m0|
      ensures PutBlock(before, at, after[at..at + 4])[a] == after[a]
    {
      if a < at || at + 4 <= a {
        ScatterAt(layout, m0, k, data, p, a);
        ScatterAt(layout, m0, k, data, q, a);
        OutsidePage(layout, m0, k, data, p, q, at, a);
      }
    }
  }

  lemma OutsidePage(layout: MemoryLayout, m0: seq<byte>, k: nat, data: seq<byte>, p: nat, q: nat, at: nat, a: nat)
    requires p <= q <= |data| && a < |m0|
    requires Rank(layout, at) <= k + p && k + q <= Rank(layout, at + 4)
    requires a < at || at + 4 <= a
    ensures ScatterByte(layout, m0, k, data, p, a) == ScatterByte(layout, m0, k, data, q, a)
  {
    if Usable(layout, a) {
      if a < at {
        RankStrict(layout, a, at);
      } else {
        RankMonotone(layout, at + 4, a);
      }
    }
  }

  /** The next byte goes to the usable address of the next rank, and nothing else changes. */
  lemma OneMoreByte(layout: MemoryLayout, m0: seq<byte>, k: nat, data: seq<byte>, p: nat, a: nat)
    requires IsMemory(m0) && p < |data| && a < |m0| && Usable(layout, a) && Rank(layout, a) == k + p
    ensures Scatter(layout, m0, k, data, p + 1) == Scatter(layout, m0, k, data, p)[a := data[p]]
  {
    SelectOfRank(layout, a);
  }

  lemma UsablePage(layout: MemoryLayout, at: nat, r: nat)
    requires DATA_START <= at && Rank(layout, at) == r
    requires forall a :: at <= a < at + 4 ==> !layout.IsSkip(a)
    ensures Rank(layout, at + 1) == r + 1 && Rank(layout, at + 2) == r + 2
    ensures Rank(layout, at + 3) == r + 3 && Rank(layout, at + 4) == r + 4
  {
    assert !layout.IsSkip(at) && !layout.IsSkip(at + 1) && !layout.IsSkip(at + 2) && !layout.IsSkip(at + 3);
  }

  lemma DataByteAt(layout: MemoryLayout, m0: seq<byte>, k: nat, data: seq<byte>, p: nat, a: nat, i: nat)
    requires IsMemory(m0) && p <= |data| && a < |m0| && i < p && Usable(layout, a) && Rank(layout, a) == k + i
    ensures Scatter(layout, m0, k, data, p)[a] == data[i]
  {
    ScatterAt(layout, m0, k, data, p, a);
  }

  /** A fully usable page that the data covers holds the next four bytes. */
  lemma FullPage(layout: MemoryLayout, m0: seq<byte>, k: nat, data: seq<byte>, p: nat, at: nat)
    requires IsMemory(m0) && DATA_START <= at && at + 4 <= |m0| && p + 4 <= |data|
    requires Rank(layout, at) == k + p
    requires forall a :: at <= a < at + 4 ==> !layout.IsSkip(a)
    ensures Rank(layout, at + 3) == k + p + 3 && Rank(layout, at + 4) == k + p + 4
    ensures data[p..p + 4] == Scatter(layout, m0, k, data, p + 4)[at..at + 4]
  {
    UsablePage(layout, at, k + p);
    var m := Scatter(layout, m0, k, data, p + 4);
    DataByteAt(layout, m0, k, data, p + 4, at, p);
    DataByteAt(layout, m0, k, data, p + 4, at + 1, p + 1);
    DataByteAt(layout, m0, k, data, p + 4, at + 2, p + 2);
    DataByteAt(layout, m0, k, data, p + 4, at + 3, p + 3);
    FourBytes(data, p, m, at);
  }

  lemma FourBytes(s: seq<byte>, i: nat, t: seq<byte>, j: nat)
    requires i + 4 <= |s| && j + 4 <= |t|
    requires s[i] == t[j] && s[i + 1] == t[j + 1] && s[i + 2] == t[j + 2] && s[i + 3] == t[j + 3]
    ensures s[i..i + 4] == t[j..j + 4]
  {
  }

  lemma OneMoreSlot(layout: MemoryLayout, m0: seq<byte>, k: nat, data: seq<byte>, p: nat, at: nat, a: nat,
                    page: seq<byte>)
    requires IsMemory(m0) && p < |data| && DATA_START <= at <= a < at + 4 <= |m0|
    requires !layout.IsSkip(a) && Rank(layout, a) == k + p && HoldsPage(layout, m0, k, data, p, at, page)
    ensures HoldsPage(layout, m0, k, data, p + 1, at, page[a - at := data[p]])
  {
    OneMoreByte(layout, m0, k, data, p, a);
  }

  /** A page is finished at its end or when the data is. */
  lemma PageFinished(layout: MemoryLayout, k: nat, data: seq<byte>, a: nat, end: nat, p: nat)
    requires a <= end && p <= |data| && Rank(layout, a) == k + p && (a == end || p == |data|)
    ensures p == DoneBelow(layout, k, data, end)
  {
    RankMonotone(layout, a, end);
  }

  /** Read-modify-write of a page: data goes to its usable bytes from `start` on; `None` if the limit is met first. */
  /** A fully usable page that the data covers takes the memory to the next state. */
  lemma FullPageScatters(layout: MemoryLayout, m0: seq<byte>, k: nat, data: seq<byte>, p: nat, q: nat, at: nat)
    requires IsMemory(m0) && DATA_START <= at && at + 4 <= |m0| && p + 4 <= |data|
    requires Rank(layout, at) == k + p && q == DoneBelow(layout, k, data, at + 4)
    requires forall a :: at <= a < at + 4 ==> !layout.IsSkip(a)
    ensures q == p + 4 && Rank(layout, at + 3) == k + p + 3 && Rank(layout, at + 4) == k + q
    ensures PutBlock(Scatter(layout, m0, k, data, p), at, data[p..p + 4]) == Scatter(layout, m0, k, data, q)
  {
    FullPage(layout, m0, k, data, p, at);
    PageScatters(layout, m0, k, data, p, q, at);
  }

  /** The bytes are a page of the memory with the first `p` bytes of the data written. */
  ghost predicate HoldsPage(layout: MemoryLayout, m0: seq<byte>, k: nat, data: seq<byte>, p: nat, at: nat,
                            page: seq<byte>)
  {
    IsMemory(m0) && p <= |data| && at + 4 <= |m0| && |page| == 4 && page == Scatter(layout, m0, k, data, p)[at..at + 4]
  }

  ghost predicate RankIs(layout: MemoryLayout, a: nat, n: nat) {
    Rank(layout, a) == n
  }

  /** A usable address counts, a skipped one does not. */
  lemma CountNext(layout: MemoryLayout, a: nat, n: nat)
    requires DATA_START <= a && RankIs(layout, a, n)
    ensures RankIs(layout, a + 1, if layout.IsSkip(a) then n else n + 1)
  {
    RankNext(layout, a);
  }

  /** A page that `n` bytes cover without a lock or reserved byte in it. */
  predicate FullPageAt(layout: MemoryLayout, addr: nat, n: int) {
    addr % 4 == 0 && n >= 4 && forall a :: addr <= a < addr + 4 ==> !layout.IsSkip(a)
  }

  method MergePage(layout: MemoryLayout, at: nat, start: nat, cur: seq<byte>, data: seq<byte>, di: nat, limit: nat,
                   ghost m0: seq<byte>, ghost k: nat)
    returns (page: Option<seq<byte>>, di': nat, touched: bool)
    requires IsMemory(m0) && DATA_START <= at <= start < at + 4 <= |m0|
    requires di < |data| && Rank(layout, start) == k + di
    requires HoldsPage(layout, m0, k, data, di, at, cur)
    ensures page.Some? ==>
      && di <= di' == DoneBelow(layout, k, data, at + 4) && touched == (di < di')
      && HoldsPage(layout, m0, k, data, di', at, page.value)
    ensures page.None? ==> Rank(layout, limit) < k + |data|
    ensures page.Some? ==> k + di' <= Rank(layout, limit)
  {
    var merged: seq<byte> := cur;
    di' := di;
    touched := false;
    var a := start;
    while a < at + 4 && di' < |data|
      invariant start <= a <= at + 4 && di <= di' <= |data| && touched == (di < di')
      invariant RankIs(layout, a, k + di')
      invariant a == start || a <= limit
      invariant HoldsPage(layout, m0, k, data, di', at, merged)
    {
      if a >= limit {
        RankMonotone(layout, limit, a);
        return None, di', touched;
      }
      CountNext(layout, a, k + di');
      if !layout.IsSkip(a) {
        OneMoreSlot(layout, m0, k, data, di', at, a, merged);
        merged := merged[a - at := data[di']];
        di' := di' + 1;
        touched := true;
      }
      a := a + 1;
    }
    RankMonotone(layout, a, limit);
    PageFinished(layout, k, data, a, at + 4, di');
    assert k + di' <= Rank(layout, limit);
    page := Some(merged);
  }

  // ---- two page-wise writes in a row ----

  /** A memory that writing `first` at `k` and then `second` right behind its first byte passes through. */
  ghost predicate IsPhaseState(layout: MemoryLayout, k: nat, m0: seq<byte>, first: seq<byte>, second: seq<byte>,
                               m: seq<byte>) {
    || IsPrefixState(layout, m0, k, first, m)
    || IsPrefixState(layout, Scatter(layout, m0, k, first, |first|), k + 1, second, m)
  }

  ghost predicate AllPhaseStates(log: seq<Step>, from: nat, layout: MemoryLayout, k: nat, m0: seq<byte>,
                                 first: seq<byte>, second: seq<byte>) {
    forall j :: from <= j < |log| ==> IsPhaseState(layout, k, m0, first, second, log[j].mem)
  }

  /** The run went through every state other than the initial one. */
  ghost predicate WentThroughPhases(log: seq<Step>, from: nat, layout: MemoryLayout, k: nat, m0: seq<byte>,
                                    first: seq<byte>, second: seq<byte>) {
    forall m :: IsPhaseState(layout, k, m0, first, second, m) && m != m0 ==> Visited(log, from, m)
  }

  lemma InitialPhase(log: seq<Step>, from: nat, layout: MemoryLayout, k: nat, m0: seq<byte>,
                     first: seq<byte>, second: seq<byte>)
    requires NoWrites(log, from, m0)
    ensures AllPhaseStates(log, from, layout, k, m0, first, second) && IsPhaseState(layout, k, m0, first, second, m0)
  {
    assert IsCut(layout, k, |first|, 0) && Scatter(layout, m0, k, first, 0) == m0;
  }

  lemma FirstPhase(log: seq<Step>, from: nat, layout: MemoryLayout, k: nat, m0: seq<byte>,
                   first: seq<byte>, second: seq<byte>)
    requires AllPrefixStates(log, from, layout, m0, k, first)
    ensures AllPhaseStates(log, from, layout, k, m0, first, second)
  {
  }

  lemma BothPhases(log1: seq<Step>, log2: seq<Step>, from: nat, layout: MemoryLayout, k: nat, m0: seq<byte>,
                   first: seq<byte>, second: seq<byte>)
    requires log1 <= log2 && from <= |log1|
    requires AllPrefixStates(log1, from, layout, m0, k, first)
    requires AllPrefixStates(log2, |log1|, layout, Scatter(layout, m0, k, first, |first|), k + 1, second)
    ensures AllPhaseStates(log2, from, layout, k, m0, first, second)
  {
    forall j | from <= j < |log2|
      ensures IsPhaseState(layout, k, m0, first, second, log2[j].mem)
    {
      if j < |log1| {
        assert log2[j] == log1[j];
      }
    }
  }

  /** A memory is still seen in a longer run. */
  lemma StillVisited(log: seq<Step>, log': seq<Step>, from: nat, from': nat, m: seq<byte>)
    requires log <= log' && from <= from' && Visited(log, from', m)
    ensures Visited(log', from, m)
  {
    var j :| from' <= j < |log| && log[j].mem == m;
    assert log'[j] == log[j];
  }

  lemma CompleteRun(log1: seq<Step>, log2: seq<Step>, from: nat, layout: MemoryLayout, k: nat, m0: seq<byte>,
                    first: seq<byte>, second: seq<byte>)
    requires log1 <= log2 && from <= |log1|
    requires AllVisited(log1, from, layout, m0, k, first, |first|)
    requires AllVisited(log2, |log1|, layout, Scatter(layout, m0, k, first, |first|), k + 1, second, |second|)
    ensures WentThroughPhases(log2, from, layout, k, m0, first, second)
  {
    var m1 := Scatter(layout, m0, k, first, |first|);
    assert IsCut(layout, k, |first|, |first|);
    forall m | IsPhaseState(layout, k, m0, first, second, m) && m != m0
      ensures Visited(log2, from, m)
    {
      if IsPrefixState(layout, m0, k, first, m) {
        SeenPrefixState(log1, from, layout, m0, k, first, m);
        StillVisited(log1, log2, from, from, m);
      } else {
        SeenPrefixState(log2, |log1|, layout, m1, k + 1, second, m);
        StillVisited(log2, log2, from, |log1|, m);
      }
    }
  }

  lemma SeenPrefixState(log: seq<Step>, from: nat, layout: MemoryLayout, m0: seq<byte>, k: nat, data: seq<byte>,
                        m: seq<byte>)
    requires IsPrefixState(layout, m0, k, data, m) && m != m0
    requires AllVisited(log, from, layout, m0, k, data, |data|)
    ensures Visited(log, from, m)
  {
    var p: nat :| IsCut(layout, k, |data|, p) && m == Scatter(layout, m0, k, data, p);
  }

  // ---- the states of a whole NDEF write ----

  /** Memory when the payload, with its zero length, is written completely. */
  ghost function WithPayload(layout: MemoryLayout, k: nat, m0: seq<byte>, d: seq<byte>): seq<byte> {
    Scatter(layout, m0, k, Payload(d), |Payload(d)|)
  }

  /** Memory when the length is written, too. */
  ghost function Written(layout: MemoryLayout, k: nat, m0: seq<byte>, d: seq<byte>): seq<byte>
    requires |d| <= MAX_TLV_LENGTH
  {
    Scatter(layout, WithPayload(layout, k, m0, d), k + 1, LengthField(|d|), |LengthField(|d|)|)
  }

  /** A memory that write_ndef passes through: the payload or, after it, the length written up to a page boundary. */
  ghost predicate IsWriteState(layout: MemoryLayout, k: nat, m0: seq<byte>, d: seq<byte>, m: seq<byte>)
    requires |d| <= MAX_TLV_LENGTH
  {
    IsPhaseState(layout, k, m0, Payload(d), LengthField(|d|), m)
  }

  ghost predicate AllWriteStates(log: seq<Step>, from: nat, layout: MemoryLayout, k: nat, m0: seq<byte>, d: seq<byte>)
    requires |d| <= MAX_TLV_LENGTH
  {
    AllPhaseStates(log, from, layout, k, m0, Payload(d), LengthField(|d|))
  }

  /** A completed run went through every state other than the initial one. */
  ghost predicate WentThroughAll(log: seq<Step>, from: nat, layout: MemoryLayout, k: nat, m0: seq<byte>, d: seq<byte>)
    requires |d| <= MAX_TLV_LENGTH
  {
    WentThroughPhases(log, from, layout, k, m0, Payload(d), LengthField(|d|))
  }
}
