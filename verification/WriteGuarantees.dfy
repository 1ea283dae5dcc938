/** What write_ndef guarantees over a whole run, cut off anywhere or completed. */
module WriteGuarantees {
  import opened Basics
  import opened TlvLength
  import opened Tlv
  import opened Memory
  import opened UsableBytes
  import opened NdefProcedures
  import opened TagModel
  import opened PageWrites
  import opened CrashSafety
  import opened RoundTrip
  import opened CutReads

  /** Nothing outside the payload differs from the old memory. */
  ghost predicate KeptOutside(layout: MemoryLayout, k: nat, d: seq<byte>, m0: seq<byte>, m: seq<byte>) {
    |m| == |m0| && forall a :: 0 <= a < |m0| && !InPayload(layout, k, d, a) ==> m[a] == m0[a]
  }

  /** The payload goes to the NDEF TLV's address, and its length field lies in one block. */
  ghost predicate PlannedSafely(m0: seq<byte>, d: seq<byte>)
    requires IsMemory(m0) && WritePlan(m0, d).Ok?
  {
    var plan := WritePlan(m0, d).value;
    && HitsTag(m0, d)
    && plan.offset + 3 < Rank(plan.layout, ADDRESS_SPACE_END) && LengthInOneBlock(plan.layout, plan.offset, |d|)
  }

  /** Consistency carries over to a layout that agrees up to the payload's end. */
  lemma ReadConsistency(read: MemoryLayout, layout: MemoryLayout, k: nat, m0: seq<byte>, d: seq<byte>, m: seq<byte>)
    requires IsMemory(m0) && IsMemory(m) && Fits(layout, k, d) && Stream(layout, m0)[k] == TLV_NDEF_MESSAGE
    requires k + 3 < Rank(layout, ADDRESS_SPACE_END) && LengthInOneBlock(layout, k, |d|)
    requires IsWriteState(layout, k, m0, d, m) && AgreeBelow(read, layout, PayloadEnd(layout, k, d))
    ensures Consistent(Stream(read, m0), k, d, Stream(read, m))
  {
    CutContents(layout, k, m0, d, m);
    if m != m0 {
      SharedStart(layout, read, m, PayloadEnd(layout, k, d));
      SharedNdef(Stream(layout, m), Stream(read, m), k, d, k + |Payload(d)|);
      HeldConsistent(Stream(read, m0), k, LengthFieldSize(|d|), d, Stream(read, m));
    }
  }

  lemma SharedNdef(s: seq<byte>, t: seq<byte>, k: nat, d: seq<byte>, e: nat)
    requires e == k + |Payload(d)| <= |s| && e <= |t| && s[..e] == t[..e]
    requires HoldsNdef(s, k, LengthFieldSize(|d|), []) || HoldsNdef(s, k, LengthFieldSize(|d|), d)
    ensures HoldsNdef(t, k, LengthFieldSize(|d|), []) || HoldsNdef(t, k, LengthFieldSize(|d|), d)
  {
    if HoldsNdef(s, k, LengthFieldSize(|d|), []) {
      NdefIsLocal(s, t, k, LengthFieldSize(|d|), [], e);
    } else {
      NdefIsLocal(s, t, k, LengthFieldSize(|d|), d, e);
    }
  }

  /** Layouts that agree below `hi` have streams that agree as far. */
  lemma SharedStart(l1: MemoryLayout, l2: MemoryLayout, m: seq<byte>, hi: nat)
    requires IsMemory(m) && hi <= ADDRESS_SPACE_END && AgreeBelow(l2, l1, hi)
    ensures var n := Rank(l1, hi);
      n <= |Stream(l1, m)| && n <= |Stream(l2, m)| && Stream(l1, m)[..n] == Stream(l2, m)[..n]
  {
    AgreeingGather(l2, l1, m, hi);
    GatherGrows(l1, m, hi, ADDRESS_SPACE_END);
    GatherGrows(l2, m, hi, ADDRESS_SPACE_END);
  }

  /**
   What is true of a state of a write: nothing outside the payload has changed; if planned safely, the NDEF TLV is not
   torn in the stream written through, nor in the stream read with if both layouts agree up to the payload's end; and if
   unobstructed, too, it is known what a read returns.
   */
  ghost predicate SafeState(m0: seq<byte>, d: seq<byte>, m: seq<byte>)
    requires IsMemory(m0) && WritePlan(m0, d).Ok?
  {
    var plan := WritePlan(m0, d).value;
    && IsMemory(m) && KeptOutside(plan.layout, plan.offset, d, m0, m)
    && (PlannedSafely(m0, d) ==>
        && Consistent(Stream(plan.layout, m0), plan.offset, d, Stream(plan.layout, m))
        && (Faithful(m0, d) ==>
            Consistent(Stream(plan.view.layout, m0), plan.offset, d, Stream(plan.view.layout, m)))
        && (Unobstructed(m0, d) ==> PresentsCut(m0, d, m)))
  }

  lemma StateIsSafe(m0: seq<byte>, d: seq<byte>, m: seq<byte>)
    requires IsMemory(m0) && WritePlan(m0, d).Ok? && |d| <= MAX_TLV_LENGTH
    requires IsWriteState(WritePlan(m0, d).value.layout, WritePlan(m0, d).value.offset, m0, d, m)
    ensures SafeState(m0, d, m)
  {
    var plan := WritePlan(m0, d).value;
    WriteFrame(plan.layout, plan.offset, m0, d, m);
    if PlannedSafely(m0, d) {
      PlannedWriteIsCrashSafe(m0, d);
      if Faithful(m0, d) {
        PlanFits(m0, d);
        TagInStream(m0, d);
        ReadConsistency(plan.view.layout, plan.layout, plan.offset, m0, d, m);
      }
      if Unobstructed(m0, d) {
        CutPresents(m0, d, m);
      }
    }
  }

  /** The memory a completed write_ndef leaves; a message that gets no plan leaves it as it is. */
  ghost function AfterWrite(m: seq<byte>, d: seq<byte>): (m': seq<byte>)
    requires IsMemory(m)
    ensures IsMemory(m')
  {
    if WritePlan(m, d).Err? then m
    else
      PlanFits(m, d);
      Written(WritePlan(m, d).value.layout, WritePlan(m, d).value.offset, m, d)
  }

  /** The guarantee of a run of write_ndef on a tag with memory `m0`, cut off or completed with memory `m`. */
  ghost predicate Guaranteed(m0: seq<byte>, d: seq<byte>, log: seq<Step>, from: nat, completed: bool, m: seq<byte>)
    requires IsMemory(m0) && IsMemory(m)
  {
    WritePlan(m0, d).Ok? ==>
      && (forall j :: from <= j < |log| ==> SafeState(m0, d, log[j].mem))
      && SafeState(m0, d, m)
      && (completed && Unobstructed(m0, d) ==> NdefOf(m) == Ok(d))
  }

  lemma WriteIsGuaranteed(m0: seq<byte>, d: seq<byte>, log: seq<Step>, from: nat, completed: bool, m: seq<byte>)
    requires IsMemory(m0) && IsMemory(m) && WritePlan(m0, d).Ok? && |d| <= MAX_TLV_LENGTH
    requires var plan := WritePlan(m0, d).value;
      && AllWriteStates(log, from, plan.layout, plan.offset, m0, d)
      && IsWriteState(plan.layout, plan.offset, m0, d, m)
      && (completed ==> m == Written(plan.layout, plan.offset, m0, d))
    ensures Guaranteed(m0, d, log, from, completed, m)
  {
    StateIsSafe(m0, d, m);
    forall j | from <= j < |log|
      ensures SafeState(m0, d, log[j].mem)
    {
      StateIsSafe(m0, d, log[j].mem);
    }
    if completed && Unobstructed(m0, d) {
      EndToEnd(m0, d);
    }
  }
}
