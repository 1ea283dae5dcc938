/**
 What a transmission with retries comes to, as a function of what happens to each packet (src/type2/reader.rs,
 transceive_with_retry and force_sector_select).
 */
module Retries {
  import opened Basics
  import opened TagModel

  datatype ReaderError = Transceiver(code: nat) | Protocol(error: Type2Error)

  function SilenceResult(packet2: Outcome): Result<(), ReaderError> {
    match packet2
    case Deliver(_) => Ok(())
    case Refuse(raw, _) => Err(Protocol(Nack(if raw == [] then 0 else raw[0])))
    case Lost(code, _, _) => Err(Transceiver(code))
  }

  /** A sector selection whose packets 1 and 2 meet these outcomes; only an ACK and then silence select the sector. */
  function SelectionResult(packet1: Outcome, packet2: Outcome): Result<(), ReaderError> {
    match packet1
    case Deliver(_) => SilenceResult(packet2)
    case Refuse(raw, _) =>
      if raw == [] then Err(Protocol(InvalidLength))
      else if IsAck(raw) then SilenceResult(packet2)
      else Err(Protocol(Nack(raw[0] % 16)))
    case Lost(code, _, _) => Err(Transceiver(code))
  }

  lemma SelectionExact(packet1: Outcome, packet2: Outcome)
    ensures SelectionResult(packet1, packet2).Ok? <==>
      && (packet1.Deliver? || (packet1.Refuse? && packet1.raw != [] && packet1.raw[0] % 16 == 0x0A))
      && packet2.Deliver?
  {
  }

  /** The outcome of the last transmission of a READ or WRITE that may be retried, or the error it ends with. */
  function Exchange(schedule: seq<Outcome>, retries: nat): (r: Result<Outcome, ReaderError>)
    ensures r.Ok? ==> !r.value.Lost?
    decreases retries, 1
  {
    match First(schedule)
    case Lost(code, _, _) => AfterLoss(Rest(schedule), retries, code)
    case _ => Ok(First(schedule))
  }

  /** How it goes on after a loss. */
  function AfterLoss(schedule: seq<Outcome>, retries: nat, code: nat): (r: Result<Outcome, ReaderError>)
    ensures r.Ok? ==> !r.value.Lost?
    decreases retries, 0
  {
    if retries == 0 then
      Err(Transceiver(code))
    else
      var _ :- SelectionResult(First(schedule), First(Rest(schedule)));
      Exchange(Rest(Rest(schedule)), retries - 1)
  }

  // ---- the same, packet by packet ----

  /** The outcome of the `i`-th packet. */
  function PacketAt(schedule: seq<Outcome>, i: nat): Outcome {
    if i < |schedule| then schedule[i] else Deliver([])
  }

  /** The `k`-th transmission of the command; two packets of a selection precede each one but the first. */
  function SendAt(schedule: seq<Outcome>, k: nat): Outcome {
    PacketAt(schedule, 3 * k)
  }

  /** The selection after the `k`-th transmission. */
  function SelectionAt(schedule: seq<Outcome>, k: nat): Result<(), ReaderError> {
    SelectionResult(PacketAt(schedule, 3 * k + 1), PacketAt(schedule, 3 * k + 2))
  }

  /** The transmissions before the `n`-th are lost, and the sector is selected again after each of them. */
  predicate Retried(schedule: seq<Outcome>, n: nat) {
    forall k :: 0 <= k < n ==> SendAt(schedule, k).Lost? && SelectionAt(schedule, k).Ok?
  }

  /**
   An exchange ends with the first transmission that is not lost; it fails exactly if all of `retries` + 1 are lost or
   the selection before a retry fails, with the error of the packet it ends with.
   */
  lemma {:induction false} ExchangeExact(schedule: seq<Outcome>, retries: nat, n: nat)
    requires n <= retries && Retried(schedule, n)
    ensures !SendAt(schedule, n).Lost? ==> Exchange(schedule, retries) == Ok(SendAt(schedule, n))
    ensures SendAt(schedule, n).Lost? && n == retries ==>
      Exchange(schedule, retries) == Err(Transceiver(SendAt(schedule, n).code))
    ensures SendAt(schedule, n).Lost? && n < retries && SelectionAt(schedule, n).Err? ==>
      Exchange(schedule, retries) == Err(SelectionAt(schedule, n).error)
  {
    FirstPackets(schedule);
    if n > 0 {
      OneLossOn(schedule, retries, n);
      ExchangeExact(Rest(Rest(Rest(schedule))), retries - 1, n - 1);
    }
  }

  lemma FirstPackets(schedule: seq<Outcome>)
    ensures SendAt(schedule, 0) == First(schedule)
    ensures SelectionAt(schedule, 0) == SelectionResult(First(Rest(schedule)), First(Rest(Rest(schedule))))
  {
  }

  /** What comes three packets later. */
  lemma PacketsOn(schedule: seq<Outcome>, k: nat)
    ensures SendAt(Rest(Rest(Rest(schedule))), k) == SendAt(schedule, k + 1)
    ensures SelectionAt(Rest(Rest(Rest(schedule))), k) == SelectionAt(schedule, k + 1)
  {
  }

  /** A loss and a selection use up three packets and one retry. */
  lemma OneLossOn(schedule: seq<Outcome>, retries: nat, n: nat)
    requires 0 < n <= retries && Retried(schedule, n)
    ensures var rest := Rest(Rest(Rest(schedule)));
      && Exchange(schedule, retries) == Exchange(rest, retries - 1) && Retried(rest, n - 1)
      && SendAt(rest, n - 1) == SendAt(schedule, n) && SelectionAt(rest, n - 1) == SelectionAt(schedule, n)
  {
    forall k: nat
      ensures SendAt(Rest(Rest(Rest(schedule))), k) == SendAt(schedule, k + 1)
      ensures SelectionAt(Rest(Rest(Rest(schedule))), k) == SelectionAt(schedule, k + 1)
    {
      PacketsOn(schedule, k);
    }
    FirstPackets(schedule);
    assert SendAt(schedule, 0).Lost? && SelectionAt(schedule, 0).Ok?;
  }

  /** As many losses as there are retries are made good, if only READs and WRITEs are lost and selections go through. */
  lemma LossesRecovered(schedule: seq<Outcome>, retries: nat, n: nat)
    requires n <= retries && SendAt(schedule, n).Deliver?
    requires forall k :: 0 <= k < n ==>
      && SendAt(schedule, k).Lost?
      && PacketAt(schedule, 3 * k + 1).Deliver? && PacketAt(schedule, 3 * k + 2).Deliver?
    ensures Exchange(schedule, retries) == Ok(SendAt(schedule, n))
  {
    forall k | 0 <= k < n
      ensures SendAt(schedule, k).Lost? && SelectionAt(schedule, k).Ok?
    {
      assert SendAt(schedule, k).Lost?;
    }
    ExchangeExact(schedule, retries, n);
  }

  /** It succeeds exactly if a transmission within the retries is reached and not lost. */
  lemma ExchangeSucceeds(schedule: seq<Outcome>, retries: nat)
    ensures Exchange(schedule, retries).Ok? <==>
      exists n: nat :: n <= retries && Retried(schedule, n) && !SendAt(schedule, n).Lost?
  {
    forall n: nat | n <= retries && Retried(schedule, n) && !SendAt(schedule, n).Lost?
      ensures Exchange(schedule, retries).Ok?
    {
      ExchangeExact(schedule, retries, n);
    }
    var n := ExchangeEnds(schedule, retries);
    ExchangeExact(schedule, retries, n);
  }

  /** One of the three cases always applies. */
  lemma ExchangeEnds(schedule: seq<Outcome>, retries: nat) returns (n: nat)
    ensures n <= retries && Retried(schedule, n)
    ensures !SendAt(schedule, n).Lost? || n == retries || SelectionAt(schedule, n).Err?
  {
    n := 0;
    while n < retries && SendAt(schedule, n).Lost? && SelectionAt(schedule, n).Ok?
      invariant n <= retries && Retried(schedule, n)
    {
      n := n + 1;
    }
  }
}
