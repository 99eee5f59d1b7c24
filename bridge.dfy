/**
 * The `UnixSignalBridge` class: the process-wide descriptor pair, the
 * constructor that creates it and registers the trampoline, the trampoline
 * itself and the `propagateSignal` slot.
 *
 * One object of the Dafny class stands for the whole process as the bridge
 * sees it: the class-static `unixSignalFd` array, the bytes buffered in the
 * socket pair, the signals whose handler is the trampoline, the Qt signals
 * emitted so far (as an event log) and the messages written to the logging
 * category. What the kernel decides (the descriptors socketpair(2) hands
 * out, what sigaction(2), write(2) and read(2) return) comes in as
 * parameters.
 */
module SignalBridge {
  import opened Wire
  import opened Wrappers
  import opened Signals
  import opened Channel
  import opened Registration

  /** The two `qFatal` calls of the constructor. */
  datatype FatalError =
    | DuplicateInstance   // "only one instance of UnixSignalBridge may exist"
    | SocketPairFailed    // "Couldn't create HUP socketpair"

  /** How a construction ends: a live bridge, or process termination. */
  datatype ConstructOutcome = Constructed | Fatal(error: FatalError)

  class UnixSignalBridge {
    /** `static int unixSignalFd[2]`: the handler writes to [0], the slot reads from [1]. */
    var unixSignalFd: array<int>
    /** Bytes written to `unixSignalFd[0]` and not yet read from `unixSignalFd[1]`. */
    var channel: seq<byte>
    /** The signals whose disposition is `unixSignalHandler`. */
    var trampolineSignals: set<int32>
    /** The Qt signals emitted so far, oldest first. */
    var events: seq<Event>
    /** The messages logged so far, oldest first. */
    var diagnostics: seq<Diagnostic>

    ghost predicate Valid()
      reads this
    {
      unixSignalFd.Length == 2
    }

    /** Program start: `unixSignalFd` holds its static initialiser `{-1, -1}`. */
    constructor ()
      ensures Valid() && fresh(unixSignalFd)
      ensures unixSignalFd[..] == [-1, -1]
      ensures channel == [] && trampolineSignals == {}
      ensures events == [] && diagnostics == []
    {
      unixSignalFd := new int[2] [-1, -1];
      channel := [];
      trampolineSignals := {};
      events := [];
      diagnostics := [];
    }

    /** The bridge has been constructed: the descriptor pair is set. */
    predicate Live()
      requires Valid()
      reads this, unixSignalFd
    {
      unixSignalFd[0] != -1 || unixSignalFd[1] != -1
    }

    /**
     * The C++ constructor `UnixSignalBridge(QList<int> unixSignals)`.
     * `socketPair` is the pair socketpair(2) fills in, or None when it
     * fails; `sigactionResults[i]` is what `::sigaction(unixSignals[i], ...)`
     * returns.
     */
    method Construct(unixSignals: seq<int32>, socketPair: Option<(int, int)>, sigactionResults: seq<int>)
      returns (outcome: ConstructOutcome)
      requires Valid()
      requires |sigactionResults| == |unixSignals|
      requires socketPair.Some? ==> socketPair.value.0 >= 0 && socketPair.value.1 >= 0
      modifies this, unixSignalFd
      ensures Valid() && unixSignalFd == old(unixSignalFd)
      ensures outcome == if old(Live()) then Fatal(DuplicateInstance)
                         else if socketPair.None? then Fatal(SocketPairFailed)
                         else Constructed
      ensures outcome.Fatal? ==> unchanged(this, unixSignalFd)
      ensures outcome == Constructed ==>
        Live()
        && unixSignalFd[..] == [socketPair.value.0, socketPair.value.1]
        && channel == []
        && trampolineSignals == old(trampolineSignals) + Registered(unixSignals, sigactionResults)
        && events == old(events)
        && diagnostics == old(diagnostics) + RegistrationLog(unixSignals, sigactionResults)
    {
      if unixSignalFd[0] != -1 || unixSignalFd[1] != -1 {
        return Fatal(DuplicateInstance);
      }

      // ::socketpair(AF_UNIX, SOCK_STREAM, 0, unixSignalFd)
      if socketPair.None? {
        return Fatal(SocketPairFailed);
      }
      unixSignalFd[0], unixSignalFd[1] := socketPair.value.0, socketPair.value.1;
      channel := [];

      for i := 0 to |unixSignals|
        modifies this`trampolineSignals, this`diagnostics
        invariant trampolineSignals
          == old(trampolineSignals) + Registered(unixSignals[..i], sigactionResults[..i])
        invariant diagnostics
          == old(diagnostics) + RegistrationLog(unixSignals[..i], sigactionResults[..i])
      {
        var sig := unixSignals[i];
        var result := sigactionResults[i];  // ::sigaction(sig, &sigAction, 0)
        if result == 0 {
          trampolineSignals := trampolineSignals + {sig};
        }
        if result == 0 {  // the source's test `!::sigaction(...)`
          diagnostics := diagnostics + [RegistrationFailed(sig)];
        }
        assert unixSignals[..i + 1][..i] == unixSignals[..i];
        assert sigactionResults[..i + 1][..i] == sigactionResults[..i];
      }
      assert unixSignals[..|unixSignals|] == unixSignals;
      assert sigactionResults[..|sigactionResults|] == sigactionResults;
      outcome := Constructed;
    }

    /**
     * `unixSignalHandler(int signalNo)`, run by the kernel in signal
     * context; `written` is what its one write(2) returns, which the
     * handler ignores.
     */
    method UnixSignalHandler(signalNo: int32, written: int)
      requires Valid()
      requires PossibleWriteResult(written)
      requires unixSignalFd[0] < 0 ==> written == -1
      modifies this`channel
      ensures channel == old(channel) + Written(signalNo, written)
    {
      // ::write(unixSignalFd[0], &signalNo, sizeof(signalNo))
      if written > 0 {
        channel := channel + EncodeInt(signalNo)[..written];
      }
    }

    /**
     * The `propagateSignal` slot, run when the read end is readable;
     * `readCount` is what its read(2) returns.
     */
    method PropagateSignal(readCount: int)
      requires Valid()
      requires PossibleReadResult(channel, readCount)
      requires unixSignalFd[1] < 0 ==> readCount == -1
      modifies this`channel, this`events, this`diagnostics
      ensures var step := ReadRecord(old(channel), readCount);
        channel == step.rest
        && events == old(events) + Emitted(step)
        && diagnostics == old(diagnostics) + (if step.short then [ReadFailed] else [Received(step.signalNo)])
    {
      var signalNo: int32 := 0;
      // ::read(unixSignalFd[1], &signalNo, sizeof(signalNo))
      var s := readCount;
      if s > 0 {
        signalNo := DecodeInt(channel[..s] + EncodeInt(signalNo)[s..]);
        channel := channel[s..];
      }
      if UnsignedLong(s) < IntSize {
        diagnostics := diagnostics + [ReadFailed];
        return;
      }

      diagnostics := diagnostics + [Received(signalNo)];
      events := events + [ReceivedSignal(signalNo)];
      match SpecificEvent(signalNo) {
        case Some(e) => events := events + [e];
        case None =>
      }
    }
  }

  /**
   * A second construction is fatal and leaves the first bridge's
   * descriptors as they were.
   */
  method SecondInstanceIsFatal(unixSignals: seq<int32>, fds: (int, int), otherFds: Option<(int, int)>)
    returns (first: ConstructOutcome, second: ConstructOutcome, fdsAfter: seq<int>)
    requires fds.0 >= 0 && fds.1 >= 0
    requires otherFds.Some? ==> otherFds.value.0 >= 0 && otherFds.value.1 >= 0
    ensures first == Constructed
    ensures second == Fatal(DuplicateInstance)
    ensures fdsAfter == [fds.0, fds.1]
  {
    var bridge := new UnixSignalBridge();
    var results := seq(|unixSignals|, _ => 0);
    assert !bridge.Live();
    first := bridge.Construct(unixSignals, Some(fds), results);
    second := bridge.Construct(unixSignals, otherFds, results);
    fdsAfter := bridge.unixSignalFd[..];
  }

  /**
   * One signal raised after a bridge was constructed for `unixSignals`
   * (every registration succeeding), with a complete write and a complete
   * read: a requested signal produces its generic event and, when it is
   * well known, its specific event; any other signal keeps the kernel's
   * default disposition and the bridge emits nothing.
   */
  method DeliverOnce(unixSignals: seq<int32>, sig: int32) returns (emitted: seq<Event>)
    ensures sig in unixSignals ==> emitted == SignalEvents(sig)
    ensures sig !in unixSignals ==> emitted == []
  {
    var bridge := new UnixSignalBridge();
    var results := seq(|unixSignals|, _ => 0);
    assert !bridge.Live();
    var outcome := bridge.Construct(unixSignals, Some((3, 4)), results);
    RegisteredExactly(unixSignals, results);
    if sig in unixSignals {
      var i :| 0 <= i < |unixSignals| && unixSignals[i] == sig;
      assert results[i] == 0;
    }
    if sig in bridge.trampolineSignals {
      bridge.UnixSignalHandler(sig, IntSize);
      assert bridge.channel[..IntSize] == EncodeInt(sig);
      bridge.PropagateSignal(IntSize);
      DecodeEncode(sig);
    }
    emitted := bridge.events;
  }

  lemma {:induction false} EventsForAppend(ns: seq<int32>, n: int32)
    ensures EventsFor(ns + [n]) == EventsFor(ns) + SignalEvents(n)
  {
    if ns == [] {
      assert ns + [n] == [n];
    } else {
      assert (ns + [n])[1..] == ns[1..] + [n];
      EventsForAppend(ns[1..], n);
    }
  }

  /**
   * Signals raised one after another, each written in full, then one
   * complete read per notification: the bridge emits the events of every
   * raised signal in the order they were raised, and its generic events
   * carry exactly the raised numbers.
   */
  method DeliverAll(unixSignals: seq<int32>, raised: seq<int32>) returns (emitted: seq<Event>)
    requires forall k :: 0 <= k < |raised| ==> raised[k] in unixSignals
    ensures emitted == EventsFor(raised)
    ensures GenericPayloads(emitted) == raised
  {
    var bridge := new UnixSignalBridge();
    var results := seq(|unixSignals|, _ => 0);
    assert !bridge.Live();
    var outcome := bridge.Construct(unixSignals, Some((3, 4)), results);
    RegisteredExactly(unixSignals, results);

    for i := 0 to |raised|
      invariant bridge.Valid() && bridge.unixSignalFd[..] == [3, 4]
      invariant bridge.trampolineSignals == Registered(unixSignals, results)
      invariant bridge.channel == Records(raised[..i])
      invariant bridge.events == []
    {
      var sig := raised[i];
      ghost var k :| 0 <= k < |unixSignals| && unixSignals[k] == sig;
      assert results[k] == 0;
      bridge.UnixSignalHandler(sig, IntSize);
      RecordsAppend(raised[..i], sig);
      assert raised[..i + 1] == raised[..i] + [sig];
    }

    assert raised[..|raised|] == raised;
    for j := 0 to |raised|
      invariant bridge.Valid() && bridge.unixSignalFd[..] == [3, 4]
      invariant bridge.channel == Records(raised[j..])
      invariant bridge.events == EventsFor(raised[..j])
    {
      assert raised[j..] == [raised[j]] + raised[j + 1..];
      assert bridge.channel == EncodeInt(raised[j]) + Records(raised[j + 1..]);
      assert bridge.channel[..IntSize] == EncodeInt(raised[j]);
      bridge.PropagateSignal(IntSize);
      DecodeEncode(raised[j]);
      EventsForAppend(raised[..j], raised[j]);
      assert raised[..j + 1] == raised[..j] + [raised[j]];
    }
    emitted := bridge.events;
    GenericPayloadsOfEventsFor(raised);
  }
}
