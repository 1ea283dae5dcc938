/**
 Logical and physical memory: the data area is the sequence of non-skip bytes from address 16.
 `Rank` counts usable addresses, `Select` finds the n-th one, `Gather` filters a memory and
 `Scatter` writes logical bytes back to their physical places.
 */
module UsableBytes {
  import opened Basics
  import opened Tlv
  import opened Memory

  /** A whole tag memory: sectors 0x00 to 0xFE. */
  predicate IsMemory(m: seq<byte>) {
    |m| == ADDRESS_SPACE_END
  }

  predicate Usable(layout: MemoryLayout, a: int) {
    DATA_START <= a && !layout.IsSkip(a)
  }

  /** The number of usable addresses below `a`. */
  function Rank(layout: MemoryLayout, a: nat): (n: nat)
    ensures a <= DATA_START ==> n == 0
  {
    if a <= DATA_START then 0 else Rank(layout, a - 1) + if layout.IsSkip(a - 1) then 0 else 1
  }

  lemma RankNext(layout: MemoryLayout, a: nat)
    requires DATA_START <= a
    ensures Rank(layout, a + 1) == Rank(layout, a) + if layout.IsSkip(a) then 0 else 1
  {
  }

  lemma {:induction false} RankMonotone(layout: MemoryLayout, a: nat, b: nat)
    requires a <= b
    ensures Rank(layout, a) <= Rank(layout, b) <= Rank(layout, a) + (b - a)
    decreases b
  {
    if a < b {
      RankMonotone(layout, a, b - 1);
    }
  }

  /** A usable address has a smaller rank than everything above it. */
  lemma RankStrict(layout: MemoryLayout, a: nat, b: nat)
    requires Usable(layout, a) && a < b
    ensures Rank(layout, a) < Rank(layout, b)
  {
    assert Rank(layout, a + 1) == Rank(layout, a) + 1;
    RankMonotone(layout, a + 1, b);
  }

  /** An address above a skipped one has fewer usable addresses below it than addresses. */
  lemma SkipLowersRank(layout: MemoryLayout, x: nat, a: nat)
    requires DATA_START <= x < a && layout.IsSkip(x)
    ensures Rank(layout, a) < a - DATA_START
  {
    RankMonotone(layout, DATA_START, x);
    RankNext(layout, x);
    RankMonotone(layout, x + 1, a);
  }

  /** Usable addresses are determined by their rank. */
  lemma RankInjective(layout: MemoryLayout, a: nat, b: nat)
    requires Usable(layout, a) && Usable(layout, b) && Rank(layout, a) == Rank(layout, b)
    ensures a == b
  {
    if a < b {
      RankStrict(layout, a, b);
    } else if b < a {
      RankStrict(layout, b, a);
    }
  }

  // ---- select ----

  /** The address is usable and has exactly `n` usable addresses below it. */
  predicate IsNth(layout: MemoryLayout, n: nat, a: nat) {
    a < ADDRESS_SPACE_END && Usable(layout, a) && Rank(layout, a) == n
  }

  lemma {:induction false} NthExists(layout: MemoryLayout, n: nat, hi: nat)
    requires n < Rank(layout, hi) && hi <= ADDRESS_SPACE_END
    ensures exists a :: IsNth(layout, n, a)
    decreases hi
  {
    if n < Rank(layout, hi - 1) {
      NthExists(layout, n, hi - 1);
    } else {
      assert IsNth(layout, n, hi - 1);
    }
  }

  /** The address of the n-th usable byte, if the address space has that many. */
  ghost function Select(layout: MemoryLayout, n: nat): (r: Option<nat>)
    ensures r.Some? ==> IsNth(layout, n, r.value)
    ensures r.None? ==> Rank(layout, ADDRESS_SPACE_END) <= n
  {
    if n < Rank(layout, ADDRESS_SPACE_END) then
      NthExists(layout, n, ADDRESS_SPACE_END);
      var a :| IsNth(layout, n, a);
      Some(a)
    else
      None
  }

  /** `Select(n)` exists exactly when the address space has more than `n` usable bytes. */
  lemma SelectExact(layout: MemoryLayout, n: nat)
    ensures Select(layout, n).Some? <==> n < Rank(layout, ADDRESS_SPACE_END)
  {
  }

  /** Every usable address is the one selected by its rank. */
  lemma SelectOfRank(layout: MemoryLayout, a: nat)
    requires Usable(layout, a) && a < ADDRESS_SPACE_END
    ensures Select(layout, Rank(layout, a)) == Some(a)
  {
    RankStrict(layout, a, ADDRESS_SPACE_END);
    SelectExact(layout, Rank(layout, a));
    RankInjective(layout, a, Select(layout, Rank(layout, a)).value);
  }

  /** No fewer than `n` usable bytes lie below the selected address. */
  lemma SelectAbove(layout: MemoryLayout, n: nat, lo: nat)
    requires Select(layout, n).Some? && Rank(layout, lo) <= n
    ensures lo <= Select(layout, n).value
  {
    if Select(layout, n).value < lo {
      RankStrict(layout, Select(layout, n).value, lo);
      assert false;
    }
  }

  lemma SelectIncreasing(layout: MemoryLayout, i: nat, j: nat)
    requires i < j && Select(layout, j).Some?
    ensures Select(layout, i).Some? && Select(layout, i).value < Select(layout, j).value
  {
    SelectExact(layout, i);
    SelectExact(layout, j);
    var a, b := Select(layout, i).value, Select(layout, j).value;
    if b <= a {
      RankMonotone(layout, b, a);
    }
  }

  /** usable_offset_to_address: the loop computes `Select`. */
  method UsableOffsetToAddress(layout: MemoryLayout, n: u16) returns (r: Option<nat>)
    ensures r == Select(layout, n)
  {
    var addr := DATA_START;
    var remaining: nat := n;
    while true
      invariant DATA_START <= addr <= ADDRESS_SPACE_END
      invariant Rank(layout, addr) + remaining == n
      decreases ADDRESS_SPACE_END - addr
    {
      if addr >= ADDRESS_SPACE_END {
        SelectExact(layout, n);
        return None;
      }
      if !layout.IsSkip(addr) {
        if remaining == 0 {
          SelectOfRank(layout, addr);
          return Some(addr);
        }
        remaining := remaining - 1;
      }
      addr := addr + 1;
    }
  }

  // ---- how many bytes can be skipped ----

  /** How many addresses of `[start, start + size)` lie in `[16, a)`. */
  function Overlap(start: nat, size: nat, a: nat): (n: nat)
    ensures n <= size
  {
    var lo := if start < DATA_START then DATA_START else start;
    var hi := if a < start + size then a else start + size;
    if lo < hi then hi - lo else 0
  }

  lemma LastLockArea(layout: MemoryLayout, a: int)
    requires layout.lockAreas != []
    ensures var n := |layout.lockAreas| - 1;
      layout.IsSkip(a) == (layout.(lockAreas := layout.lockAreas[..n]).IsSkip(a) || layout.lockAreas[n].Contains(a))
  {
    var n := |layout.lockAreas| - 1;
    var fewer := layout.(lockAreas := layout.lockAreas[..n]);
    assert forall i :: 0 <= i < n ==> fewer.lockAreas[i] == layout.lockAreas[i];
  }

  lemma {:induction false} DropLockArea(layout: MemoryLayout, a: nat)
    requires layout.lockAreas != []
    ensures var n := |layout.lockAreas| - 1;
      var last := layout.lockAreas[n];
      Rank(layout, a) + Overlap(last.byteAddress, last.LockByteCount(), a)
        >= Rank(layout.(lockAreas := layout.lockAreas[..n]), a)
  {
    if a > DATA_START {
      DropLockArea(layout, a - 1);
      LastLockArea(layout, a - 1);
    }
  }

  lemma LastReservedArea(layout: MemoryLayout, a: int)
    requires layout.reservedAreas != []
    ensures var n := |layout.reservedAreas| - 1;
      layout.IsSkip(a) ==
      (layout.(reservedAreas := layout.reservedAreas[..n]).IsSkip(a) || layout.reservedAreas[n].Contains(a))
  {
    var n := |layout.reservedAreas| - 1;
    var fewer := layout.(reservedAreas := layout.reservedAreas[..n]);
    assert forall i :: 0 <= i < n ==> fewer.reservedAreas[i] == layout.reservedAreas[i];
  }

  lemma {:induction false} DropReservedArea(layout: MemoryLayout, a: nat)
    requires layout.reservedAreas != []
    ensures var n := |layout.reservedAreas| - 1;
      var last := layout.reservedAreas[n];
      Rank(layout, a) + Overlap(last.byteAddress, last.size, a)
        >= Rank(layout.(reservedAreas := layout.reservedAreas[..n]), a)
  {
    if a > DATA_START {
      DropReservedArea(layout, a - 1);
      LastReservedArea(layout, a - 1);
    }
  }

  lemma {:induction false} RankWithoutAreas(layout: MemoryLayout, a: nat)
    requires layout.lockAreas == [] && layout.reservedAreas == []
    ensures DATA_START <= a ==> Rank(layout, a) == a - DATA_START
  {
    if a > DATA_START {
      RankWithoutAreas(layout, a - 1);
    }
  }

  /** However areas overlap or lie outside the data area, no more addresses are skipped than they have bytes. */
  lemma {:induction false} SkippedBytes(layout: MemoryLayout, a: nat)
    requires DATA_START <= a
    ensures a - DATA_START - Rank(layout, a) <= LockBytes(layout.lockAreas) + ReservedBytes(layout.reservedAreas)
    decreases |layout.lockAreas| + |layout.reservedAreas|
  {
    if layout.lockAreas != [] {
      DropLockArea(layout, a);
      SkippedBytes(layout.(lockAreas := layout.lockAreas[..|layout.lockAreas| - 1]), a);
    } else if layout.reservedAreas != [] {
      DropReservedArea(layout, a);
      SkippedBytes(layout.(reservedAreas := layout.reservedAreas[..|layout.reservedAreas| - 1]), a);
    } else {
      RankWithoutAreas(layout, a);
    }
  }

  /** An address reached before the data area is complete lies in a sector below `SectorCount`. */
  lemma SectorBound(layout: MemoryLayout, a: nat)
    requires a < ADDRESS_SPACE_END
    requires Rank(layout, a) < layout.dataAreaSize
    ensures a / SECTOR_SIZE < layout.SectorCount() <= 255
  {
    if a >= DATA_START {
      SkippedBytes(layout, a);
    }
    assert a < layout.TotalBytes();
  }

  // ---- gather ----

  /** The usable bytes of `m` below address `hi`, in order. */
  function Gather(layout: MemoryLayout, m: seq<byte>, hi: nat): (s: seq<byte>)
    requires hi <= |m|
    ensures |s| == Rank(layout, hi)
  {
    if hi <= DATA_START then []
    else Gather(layout, m, hi - 1) + if layout.IsSkip(hi - 1) then [] else [m[hi - 1]]
  }

  /** The logical stream of a tag: all its usable bytes. */
  function Stream(layout: MemoryLayout, m: seq<byte>): (s: seq<byte>)
    requires IsMemory(m)
    ensures |s| == Rank(layout, ADDRESS_SPACE_END)
  {
    Gather(layout, m, ADDRESS_SPACE_END)
  }

  /** The usable byte at `a` is found at its rank. */
  lemma {:induction false} GatherAt(layout: MemoryLayout, m: seq<byte>, hi: nat, a: nat)
    requires Usable(layout, a) && a < hi <= |m|
    ensures Rank(layout, a) < Rank(layout, hi)
    ensures Gather(layout, m, hi)[Rank(layout, a)] == m[a]
  {
    RankStrict(layout, a, hi);
    if a < hi - 1 {
      GatherAt(layout, m, hi - 1, a);
    }
  }

  /** Filtering and selecting are inverse: byte `i` of the stream is the memory at `Select(i)`. */
  lemma StreamIsSelected(layout: MemoryLayout, m: seq<byte>, i: nat)
    requires IsMemory(m) && i < |Stream(layout, m)|
    ensures Select(layout, i).Some? && Stream(layout, m)[i] == m[Select(layout, i).value]
  {
    SelectExact(layout, i);
    GatherAt(layout, m, ADDRESS_SPACE_END, Select(layout, i).value);
  }

  lemma {:induction false} GatherGrows(layout: MemoryLayout, m: seq<byte>, lo: nat, hi: nat)
    requires lo <= hi <= |m|
    ensures Rank(layout, lo) <= Rank(layout, hi)
    ensures Gather(layout, m, lo) == Gather(layout, m, hi)[..Rank(layout, lo)]
    decreases hi
  {
    if lo < hi {
      GatherGrows(layout, m, lo, hi - 1);
      assert Gather(layout, m, hi)[..Rank(layout, lo)] == Gather(layout, m, hi - 1)[..Rank(layout, lo)];
    }
  }

  /** Layouts that skip the same addresses below `hi` gather the same bytes there. */
  predicate AgreeBelow(l1: MemoryLayout, l2: MemoryLayout, hi: nat) {
    forall a :: DATA_START <= a < hi ==> l1.IsSkip(a) == l2.IsSkip(a)
  }

  lemma {:induction false} AgreeingGather(l1: MemoryLayout, l2: MemoryLayout, m: seq<byte>, hi: nat)
    requires hi <= |m| && AgreeBelow(l1, l2, hi)
    ensures Rank(l1, hi) == Rank(l2, hi) && Gather(l1, m, hi) == Gather(l2, m, hi)
  {
    if hi > DATA_START {
      AgreeingGather(l1, l2, m, hi - 1);
    }
  }

  /** Below the first skipped address the stream is the memory itself. */
  lemma {:induction false} GatherContiguous(layout: MemoryLayout, m: seq<byte>, hi: nat)
    requires DATA_START <= hi <= |m|
    requires forall a :: DATA_START <= a < hi ==> !layout.IsSkip(a)
    ensures Rank(layout, hi) == hi - DATA_START && Gather(layout, m, hi) == m[DATA_START..hi]
  {
    if hi > DATA_START {
      GatherContiguous(layout, m, hi - 1);
    }
  }

  // ---- scatter ----

  /** Memory after the first `p` bytes of `data` went, one by one, to the usable addresses from rank `k` on. */
  ghost function Scatter(layout: MemoryLayout, m: seq<byte>, k: nat, data: seq<byte>, p: nat): (m': seq<byte>)
    requires p <= |data|
    ensures |m'| == |m|
  {
    if p == 0 then m else
    var before := Scatter(layout, m, k, data, p - 1);
    match Select(layout, k + p - 1)
    case Some(a) => if a < |m| then before[a := data[p - 1]] else before
    case None => before
  }

  /** What a scattered memory holds at an address: its byte of the data, or what was there. */
  function ScatterByte(layout: MemoryLayout, m: seq<byte>, k: nat, data: seq<byte>, p: nat, a: nat): byte
    requires p <= |data| && a < |m|
  {
    if Usable(layout, a) && k <= Rank(layout, a) < k + p then data[Rank(layout, a) - k] else m[a]
  }

  lemma {:induction false} ScatterAt(layout: MemoryLayout, m: seq<byte>, k: nat, data: seq<byte>, p: nat, a: nat)
    requires IsMemory(m) && p <= |data| && a < |m|
    ensures Scatter(layout, m, k, data, p)[a] == ScatterByte(layout, m, k, data, p, a)
  {
    if p > 0 {
      ScatterAt(layout, m, k, data, p - 1, a);
      if Usable(layout, a) && Rank(layout, a) == k + p - 1 {
        SelectOfRank(layout, a);
      }
    }
  }

  function Splice(s: seq<byte>, k: nat, data: seq<byte>): (t: seq<byte>)
    requires k + |data| <= |s|
    ensures |t| == |s|
  {
    s[..k] + data + s[k + |data|..]
  }

  /** Scattering into memory is splicing into the stream. */
  lemma SpliceLaw(layout: MemoryLayout, m: seq<byte>, k: nat, data: seq<byte>, p: nat)
    requires IsMemory(m) && p <= |data| && k + p <= |Stream(layout, m)|
    ensures Stream(layout, Scatter(layout, m, k, data, p)) == Splice(Stream(layout, m), k, data[..p])
  {
    var m' := Scatter(layout, m, k, data, p);
    var s := Stream(layout, m);
    forall i | 0 <= i < |s|
      ensures Stream(layout, m')[i] == Splice(s, k, data[..p])[i]
    {
      StreamIsSelected(layout, m, i);
      StreamIsSelected(layout, m', i);
      ScatterAt(layout, m, k, data, p, Select(layout, i).value);
    }
  }
}
