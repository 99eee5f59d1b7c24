/**
 * The signal numbers the bridge knows by name, the Qt signals it emits
 * (modelled as events appended to a log) and the messages it writes to its
 * logging category.
 *
 * The numbers are the Linux ones (x86 and ARM); the C++ code uses the
 * platform's `SIGHUP`, `SIGINT`, ... macros, so the properties proved here
 * depend only on these numbers being distinct and non-zero (0 is the null
 * signal, never delivered; a failed read dispatches it).
 */
module Signals {
  import opened Wire
  import opened Wrappers

  const SIGHUP: int32 := 1
  const SIGINT: int32 := 2
  const SIGQUIT: int32 := 3
  const SIGABRT: int32 := 6
  const SIGUSR1: int32 := 10
  const SIGUSR2: int32 := 12
  const SIGALRM: int32 := 14
  const SIGTERM: int32 := 15

  /** The numbers that have a signal of their own in the class declaration. */
  const WellKnownSignals: set<int32> :=
    {SIGHUP, SIGINT, SIGQUIT, SIGABRT, SIGUSR1, SIGUSR2, SIGALRM, SIGTERM}

  /**
   * What the bridge emits: the generic `receivedSignal(int)` and the eight
   * payload-less signals `sighup()` ... `sigterm()`.
   */
  datatype Event =
    | ReceivedSignal(signalNo: int32)
    | SigHup
    | SigInt
    | SigQuit
    | SigAbrt
    | SigUsr1
    | SigUsr2
    | SigAlrm
    | SigTerm

  /** The messages written to the "UnixSignalBridge" logging category. */
  datatype Diagnostic =
    | RegistrationFailed(sig: int32)   // "failed to register signal action for signal"
    | ReadFailed                       // "failed to read signal number from socket"
    | Received(signalNo: int32)        // "received signal"

  /** The signal number an event is about: the payload, or the one its name implies. */
  function SignalNumber(e: Event): int32
  {
    match e
    case ReceivedSignal(n) => n
    case SigHup => SIGHUP
    case SigInt => SIGINT
    case SigQuit => SIGQUIT
    case SigAbrt => SIGABRT
    case SigUsr1 => SIGUSR1
    case SigUsr2 => SIGUSR2
    case SigAlrm => SIGALRM
    case SigTerm => SIGTERM
  }

  /**
   * The `switch (signalNo)` of `propagateSignal`: the specific event for a
   * well-known number, none for any other number.
   */
  function SpecificEvent(n: int32): (r: Option<Event>)
    ensures r.Some? <==> n in WellKnownSignals
    ensures r.Some? ==> !r.value.ReceivedSignal? && SignalNumber(r.value) == n
  {
    if n == SIGHUP then Some(SigHup)
    else if n == SIGINT then Some(SigInt)
    else if n == SIGQUIT then Some(SigQuit)
    else if n == SIGABRT then Some(SigAbrt)
    else if n == SIGUSR1 then Some(SigUsr1)
    else if n == SIGUSR2 then Some(SigUsr2)
    else if n == SIGALRM then Some(SigAlrm)
    else if n == SIGTERM then Some(SigTerm)
    else None
  }

  /** Every specific event is produced by the switch, and only for its own number. */
  lemma SpecificEventOfSignalNumber(e: Event)
    requires !e.ReceivedSignal?
    ensures SpecificEvent(SignalNumber(e)) == Some(e)
  {
  }

  /**
   * The events emitted for one complete record carrying `n`: the generic
   * event first, then at most one specific event.
   */
  function SignalEvents(n: int32): (r: seq<Event>)
    ensures 1 <= |r| <= 2
    ensures r[0] == ReceivedSignal(n)
    ensures |r| == 2 <==> n in WellKnownSignals
    ensures forall i :: 1 <= i < |r| ==> !r[i].ReceivedSignal?
    ensures forall i :: 0 <= i < |r| ==> SignalNumber(r[i]) == n
  {
    match SpecificEvent(n)
    case Some(e) => [ReceivedSignal(n), e]
    case None => [ReceivedSignal(n)]
  }

  /** The events emitted for a series of complete records, in order. */
  function EventsFor(ns: seq<int32>): (r: seq<Event>)
    ensures |ns| <= |r| <= 2 * |ns|
  {
    if ns == [] then [] else SignalEvents(ns[0]) + EventsFor(ns[1..])
  }

  /** The payloads of the generic events of a log, in order. */
  function GenericPayloads(events: seq<Event>): (r: seq<int32>)
    ensures |r| <= |events|
  {
    if events == [] then []
    else
      (if events[0].ReceivedSignal? then [events[0].signalNo] else [])
      + GenericPayloads(events[1..])
  }

  lemma {:induction false} GenericPayloadsAppend(a: seq<Event>, b: seq<Event>)
    ensures GenericPayloads(a + b) == GenericPayloads(a) + GenericPayloads(b)
  {
    if a != [] {
      assert (a + b)[1..] == a[1..] + b;
      GenericPayloadsAppend(a[1..], b);
    } else {
      assert a + b == b;
    }
  }

  /**
   * Reading the generic events of a run of complete records gives back the
   * numbers, in order: one generic event per record, and the specific
   * events contribute nothing.
   */
  lemma {:induction false} GenericPayloadsOfEventsFor(ns: seq<int32>)
    ensures GenericPayloads(EventsFor(ns)) == ns
  {
    if ns != [] {
      var r := SignalEvents(ns[0]);
      GenericPayloadsAppend(r, EventsFor(ns[1..]));
      assert GenericPayloads(r) == [ns[0]] by {
        if |r| == 2 {
          assert r[1..][1..] == [];
        }
        assert r[1..] == [] || r[1..] == [r[1]];
      }
      GenericPayloadsOfEventsFor(ns[1..]);
      assert ns == [ns[0]] + ns[1..];
    }
  }
}
