/** Sequence numbers reserved in blocks of 256 from a stored high-water mark. */
module SequenceNumbers {
  import opened MachineWords
  import opened Options

  const RESERVATION: nat := 256

  type UInt64 = x: int | 0 <= x < 0x1_0000_0000_0000_0000

  function ToUInt64(x: int): UInt64 { x % TWO_64 }

  /** The stored mark `high`, and the block in memory; memory is zero after a reset. */
  datatype State = State(high: UInt64, next: UInt64, end: UInt64) {
    predicate Exhausted() { next == 0 || next > end }

    function Reserved(): State {
      State(ToUInt64(high + RESERVATION), ToUInt64(high + 1), ToUInt64(high + RESERVATION))
    }

    function Reset(): State { State(high, 0, 0) }

    /** The number the next call returns, if no reset comes first. */
    function Upcoming(): UInt64 {
      if Exhausted() then ToUInt64(high + 1) else next
    }

    function Issue(): State {
      var block := if Exhausted() then Reserved() else this;
      block.(next := ToUInt64(block.next + 1))
    }

    /** What a call goes by: where it reserves and cannot read the stored mark it takes it for zero. */
    function AsRead(readable: bool): State {
      if readable || !Exhausted() then this else this.(high := 0)
    }
  }

  /** Where the supply or a failed write may interrupt a call. */
  datatype Cut = Never | BeforeReservation | AfterReservation

  class Allocator {
    var high: UInt64
    var next: UInt64
    var end: UInt64

    constructor (high: UInt64)
      ensures Value() == State(high, 0, 0)
    {
      this.high, next, end := high, 0, 0;
    }

    ghost function Value(): State
      reads this
    {
      State(high, next, end)
    }

    /** A call interrupted around its store write leaves no number and restarts the device. */
    method NextSequence(cut: Cut, readable: bool) returns (number: Option<UInt64>)
      modifies this
      ensures number == if cut.Never? then Some(old(Value()).AsRead(readable).Upcoming()) else None
      ensures Value() == Step(old(Value()), Call(cut, readable))
    {
      if next == 0 || next > end {
        var highWater: UInt64 := 0;
        if readable {
          highWater := high;
        }
        next := ToUInt64(highWater + 1);
        end := ToUInt64(highWater + RESERVATION);
        if cut.BeforeReservation? {
          Restart();
          return None;
        }
        high := end;
      }
      if !cut.Never? {
        Restart();
        return None;
      }
      number := Some(next);
      next := ToUInt64(next + 1);
    }

    method Restart()
      modifies this`next, this`end
      ensures Value() == old(Value()).Reset()
    {
      next, end := 0, 0;
    }
  }

  // ----- runs

  datatype Event = Call(cut: Cut, readable: bool) | Reboot

  function Step(s: State, event: Event): State {
    match event
    case Reboot => s.Reset()
    case Call(Never, readable) => s.AsRead(readable).Issue()
    case Call(BeforeReservation, _) => s.Reset()
    case Call(AfterReservation, readable) =>
      (if s.Exhausted() then s.AsRead(readable).Reserved() else s).Reset()
  }

  predicate Completes(event: Event) { event.Call? && event.cut.Never? }

  /** A run from a fresh store, with what it issued and what it cost. */
  datatype Trace = Trace(state: State, issued: seq<UInt64>, resets: nat, reservations: nat)

  function Extend(before: Trace, event: Event): Trace {
    var reserves := before.state.Exhausted() && event.Call? && !event.cut.BeforeReservation?;
    Trace(Step(before.state, event),
          if Completes(event) then before.issued + [before.state.AsRead(event.readable).Upcoming()] else before.issued,
          before.resets + (if Completes(event) then 0 else 1),
          before.reservations + (if reserves then 1 else 0))
  }

  function Run(events: seq<Event>): Trace {
    if events == [] then Trace(State(0, 0, 0), [], 0, 0)
    else Extend(Run(events[..|events| - 1]), events[|events| - 1])
  }

  ghost predicate Increasing(numbers: seq<UInt64>) {
    forall i, j | 0 <= i < j < |numbers| :: numbers[i] < numbers[j]
  }

  /** Numbers of the current block not issued yet. */
  function Remaining(s: State): nat {
    if s.Exhausted() then 0 else s.end - s.next + 1
  }

  ghost predicate Sound(trace: Trace) {
    var Trace(s, issued, resets, reservations) := trace;
    && s.high <= RESERVATION * reservations
    && (s.next != 0 ==> s.end == s.high && 1 <= s.next <= s.end + 1)
    && Remaining(s) < RESERVATION
    && (forall n | n in issued :: n >= 1)
    && |issued| + Remaining(s) <= RESERVATION * reservations <= |issued| + Remaining(s) + RESERVATION * resets
  }

  /** Short of 2^64 numbers, every run keeps its block below the stored mark, at the stated cost. */
  lemma {:induction false} RunSound(events: seq<Event>)
    requires RESERVATION * (|events| + 1) < TWO_64
    ensures Sound(Run(events))
    ensures Run(events).reservations <= |events|
  {
    if events != [] {
      RunSound(events[..|events| - 1]);
      StepSound(Run(events[..|events| - 1]), events[|events| - 1]);
    }
  }

  lemma Fits(x: int)
    requires 0 <= x < TWO_64
    ensures ToUInt64(x) == x
  {
  }

  /** Away from 2^64 the operations do not wrap, whether the mark is readable or not. */
  lemma NoWrap(s: State, readable: bool)
    requires s.high + RESERVATION < TWO_64 && (s.Exhausted() || s.next <= s.high)
    ensures var mark, read := if readable then s.high else 0, s.AsRead(readable);
            && s.Upcoming() == (if s.Exhausted() then s.high + 1 else s.next)
            && read.Upcoming() == (if s.Exhausted() then mark + 1 else s.next)
            && (s.Exhausted() ==> read.Reserved() == State(mark + RESERVATION, mark + 1, mark + RESERVATION))
            && read.Issue() == (if s.Exhausted() then State(mark + RESERVATION, mark + 2, mark + RESERVATION)
                                else s.(next := s.next + 1))
  {
    hide ToUInt64;
    Fits(s.high + RESERVATION);
    Fits(RESERVATION);
    Fits(s.high + 1);
    Fits(1);
    Fits(s.high + 2);
    Fits(2);
    if !s.Exhausted() {
      Fits(s.next + 1);
    }
  }

  lemma StepSound(before: Trace, event: Event)
    requires Sound(before) && before.state.high + 2 * RESERVATION < TWO_64
    ensures Sound(Extend(before, event))
  {
    hide ToUInt64;
    NoWrap(before.state, event.Reboot? || event.readable);
    hide State.Upcoming, State.Reserved, State.Issue, State.AsRead;
  }

  /** The call after an issued number announces its successor. */
  lemma IssueAdvances(events: seq<Event>, readable: bool)
    requires RESERVATION * (|events| + 2) < TWO_64
    ensures var s := Run(events).state;
            s.AsRead(readable).Issue().Upcoming() == s.AsRead(readable).Upcoming() + 1
  {
    hide ToUInt64, Run;
    RunSound(events);
    var s := Run(events).state;
    NoWrap(s, readable);
    NoWrap(s.AsRead(readable).Issue(), readable);
  }

  /** The event reserves a block above a mark it could not read. */
  predicate ReservesUnread(s: State, event: Event) {
    s.Exhausted() && event.Call? && !event.readable && !event.cut.BeforeReservation?
  }

  /** A reset, even right after a reservation, skips at most 256 numbers and never goes back, if the mark was read. */
  lemma ResetSkips(events: seq<Event>, event: Event)
    requires RESERVATION * (|events| + 2) < TWO_64 && !Completes(event) && !ReservesUnread(Run(events).state, event)
    ensures var s := Run(events).state;
            s.Upcoming() <= Step(s, event).Upcoming() <= s.Upcoming() + 256
  {
    hide ToUInt64, Run;
    RunSound(events);
    NoWrap(Run(events).state, event.Reboot? || event.readable);
    NoWrap(Step(Run(events).state, event), true);
  }

  /** One reservation serves 256 numbers, up to one block per boot (the first boot included). */
  lemma ReservationsBounded(events: seq<Event>)
    requires RESERVATION * (|events| + 1) < TWO_64
    ensures var trace := Run(events);
            trace.reservations <= |trace.issued| / 256 + (trace.resets + 1)
  {
    hide Run;
    RunSound(events);
  }

  // ----- when the numbers grow

  /** The issued numbers strictly increase, and the next lies above them all. */
  ghost predicate Grows(trace: Trace) {
    Increasing(trace.issued) && forall n | n in trace.issued :: n < trace.state.Upcoming()
  }

  /** Numbers that grow never exceed the stored mark. */
  lemma GrowsBelowMark(events: seq<Event>)
    requires RESERVATION * (|events| + 1) < TWO_64 && Grows(Run(events))
    ensures forall n | n in Run(events).issued :: n <= Run(events).state.high
  {
    hide ToUInt64, Run, Increasing;
    RunSound(events);
    NoWrap(Run(events).state, true);
  }

  /**
   * The code ignores whether reading the mark succeeded. Reserving above zero does no harm to a call that is the
   * first to issue a number, nor to one that is cut after the reservation while all numbers are in the first block.
   */
  ghost predicate Harmless(trace: Trace, event: Event) {
    ReservesUnread(trace.state, event) ==>
      if event.cut.Never? then trace.issued == [] else forall n | n in trace.issued :: n <= RESERVATION
  }

  lemma IncreasingSnoc(numbers: seq<UInt64>, n: UInt64)
    ensures Increasing(numbers + [n]) <==> Increasing(numbers) && forall m | m in numbers :: m < n
  {
    var all := numbers + [n];
    assert forall i | 0 <= i < |numbers| :: all[i] == numbers[i] && numbers[i] in numbers;
    if Increasing(all) {
      forall m | m in numbers
        ensures m < n
      {
        var i :| 0 <= i < |numbers| && numbers[i] == m;
        assert all[i] < all[|numbers|];
      }
    }
  }

  lemma GrowsStep(before: Trace, event: Event)
    requires Sound(before) && Grows(before) && before.state.high + 2 * RESERVATION < TWO_64
    ensures Grows(Extend(before, event)) <==> Harmless(before, event)
  {
    var s, after := before.state, Extend(before, event);
    var readable := event.Reboot? || event.readable;
    NoWrap(s, readable);
    StepSound(before, event);
    NoWrap(after.state, true);
    if Completes(event) {
      IncreasingSnoc(before.issued, s.AsRead(readable).Upcoming());
    }
    hide ToUInt64, Increasing, State.Reserved, State.Issue;
    if before.issued != [] {
      assert before.issued[0] in before.issued;
    }
    assert forall n | n in before.issued :: n in after.issued;
  }

  ghost predicate AlwaysGrows(events: seq<Event>) {
    forall n: nat | n <= |events| :: Grows(Run(events[..n]))
  }

  ghost predicate AllHarmless(events: seq<Event>) {
    forall n: nat | n < |events| :: Harmless(Run(events[..n]), events[n])
  }

  lemma PrefixesOf(events: seq<Event>)
    requires events != []
    ensures events[..|events|] == events && events[..|events| - 1][..|events| - 1] == events[..|events| - 1]
    ensures forall n: nat | n < |events| :: events[..|events| - 1][..n] == events[..n]
    ensures forall n: nat | n < |events| - 1 :: events[..|events| - 1][n] == events[n]
  {
  }

  lemma RunGrowsStep(events: seq<Event>)
    requires RESERVATION * (|events| + 2) < TWO_64 && events != [] && Grows(Run(events[..|events| - 1]))
    ensures Grows(Run(events)) <==> Harmless(Run(events[..|events| - 1]), events[|events| - 1])
  {
    hide Grows, Harmless;
    RunSound(events[..|events| - 1]);
    GrowsStep(Run(events[..|events| - 1]), events[|events| - 1]);
  }

  lemma NothingIssued()
    ensures Grows(Run([]))
  {
  }

  /** Throughout a run the numbers grow if and only if every event of it is harmless where it comes. */
  lemma {:induction false} NumbersGrowExactly(events: seq<Event>)
    requires RESERVATION * (|events| + 2) < TWO_64
    ensures AlwaysGrows(events) <==> AllHarmless(events)
  {
    hide Run, Harmless, Grows;
    if events == [] {
      NothingIssued();
    } else {
      var n := |events| - 1;
      NumbersGrowExactly(events[..n]);
      PrefixesOf(events);
      if Grows(Run(events[..n])) {
        RunGrowsStep(events);
      }
    }
  }

  /** In particular they grow while every mark can be read. */
  lemma ReadableRunsGrow(events: seq<Event>)
    requires RESERVATION * (|events| + 2) < TWO_64 && forall e | e in events && e.Call? :: e.readable
    ensures AlwaysGrows(events)
  {
    hide Run;
    assert forall n: nat | n < |events| :: events[n] in events;
    NumbersGrowExactly(events);
  }

  lemma RunOne(events: seq<Event>, event: Event)
    ensures Run(events + [event]) == Extend(Run(events), event)
  {
    assert (events + [event])[..|events|] == events;
  }

  /** Two runs that repeat a number: after a mark that is not read, and after a cut call that thereby lowered it. */
  lemma UnreadMarkRepeats()
    ensures Run([Call(Never, true)] + [Reboot] + [Call(Never, false)]).issued == [1, 1]
    ensures Run([Call(AfterReservation, true)] + [Call(Never, true)] + [Reboot] + [Call(AfterReservation, false)]
                + [Call(Never, true)]).issued == [257, 257]
  {
    var a1 := [Call(Never, true)];
    var a2 := a1 + [Reboot];
    RunOne([], Call(Never, true));
    assert [] + a1 == a1;
    RunOne(a1, Reboot);
    RunOne(a2, Call(Never, false));
    var b1 := [Call(AfterReservation, true)];
    var b2 := b1 + [Call(Never, true)];
    var b3 := b2 + [Reboot];
    var b4 := b3 + [Call(AfterReservation, false)];
    RunOne([], Call(AfterReservation, true));
    assert [] + b1 == b1;
    RunOne(b1, Call(Never, true));
    RunOne(b2, Reboot);
    RunOne(b3, Call(AfterReservation, false));
    RunOne(b4, Call(Never, true));
    assert Run([]) == Trace(State(0, 0, 0), [], 0, 0);
    hide Run;
    assert Run(a2) == Trace(State(256, 0, 0), [1], 1, 1);
    assert Run(b2) == Trace(State(512, 258, 512), [257], 1, 2);
    assert Run(b4) == Trace(State(256, 0, 0), [257], 3, 3);
  }
}
