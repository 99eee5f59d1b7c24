/**
 * The socket pair as a byte stream: the bytes the signal handler has
 * written to `unixSignalFd[0]` and `propagateSignal` has not yet read from
 * `unixSignalFd[1]`, oldest first. It is a `SOCK_STREAM` pair, so the kernel
 * keeps no record boundaries: a read takes bytes from the front, however
 * many it returns.
 */
module Channel {
  import opened Wire
  import opened Signals

  /**
   * What read(2) may return when asked for `sizeof(int)` bytes: -1 on
   * error (the channel is left as it is), otherwise a count no larger than
   * the request and no larger than what is buffered.
   */
  predicate PossibleReadResult(channel: seq<byte>, s: int)
  {
    s == -1 || (0 <= s <= IntSize && s <= |channel|)
  }

  /** What write(2) may return when asked to write `sizeof(int)` bytes. */
  predicate PossibleWriteResult(s: int)
  {
    s == -1 || 0 <= s <= IntSize
  }

  /**
   * The bytes the signal handler's `::write(unixSignalFd[0], &signalNo,
   * sizeof(signalNo))` adds to the channel when the kernel accepts `s`
   * bytes: the whole record, a prefix of it, or nothing.
   */
  function Written(signalNo: int32, s: int): (r: seq<byte>)
    requires PossibleWriteResult(s)
    ensures s == IntSize ==> r == EncodeInt(signalNo)
    ensures s <= 0 ==> r == []
    ensures s > 0 ==> |r| == s && r <= EncodeInt(signalNo)
  {
    if s > 0 then EncodeInt(signalNo)[..s] else []
  }

  /** The effect of one `::read` in `propagateSignal`. */
  datatype ReadStep = ReadStep(rest: seq<byte>, signalNo: int32, short: bool)

  /**
   * One call of `propagateSignal` when read(2) returns `s`: the `s` bytes
   * read leave the channel and overwrite the first bytes of the local
   * `signalNo`, which starts as 0; then the result is tested with the
   * unsigned short-read test.
   */
  function ReadRecord(channel: seq<byte>, s: int): (r: ReadStep)
    requires PossibleReadResult(channel, s)
    ensures r.short <==> 0 <= s < IntSize
    ensures s == -1 ==> r.rest == channel && r.signalNo == 0
    ensures 0 <= s ==> r.rest == channel[s..]
    ensures s == IntSize ==> r.signalNo == DecodeInt(channel[..IntSize])
    ensures s == IntSize ==> channel == EncodeInt(r.signalNo) + r.rest
  {
    ShortReadExactly(s);
    var k := if s > 0 then s else 0;
    var signalNo := DecodeInt(channel[..k] + EncodeInt(0)[k..]);
    DecodeEncode(0);
    assert k == 0 ==> channel[..k] + EncodeInt(0)[k..] == EncodeInt(0);
    assert k == IntSize ==> channel[..k] + EncodeInt(0)[k..] == channel[..IntSize];
    if k == IntSize then
      EncodeDecode(channel[..IntSize]);
      assert channel == channel[..IntSize] + channel[IntSize..];
      ReadStep(channel[k..], signalNo, IsShortRead(s))
    else
      ReadStep(channel[k..], signalNo, IsShortRead(s))
  }

  /** The events `propagateSignal` emits after that read. */
  function Emitted(step: ReadStep): seq<Event>
  {
    if step.short then [] else SignalEvents(step.signalNo)
  }

  /**
   * A read of fewer than `sizeof(int)` bytes emits nothing, yet the bytes
   * it read are gone from the channel.
   */
  lemma ShortReadEmitsNothing(channel: seq<byte>, s: int)
    requires PossibleReadResult(channel, s)
    requires 0 <= s < IntSize
    ensures Emitted(ReadRecord(channel, s)) == []
    ensures ReadRecord(channel, s).rest == channel[s..]
  {
  }

  /**
   * A complete read emits exactly one generic event, first, carrying the
   * number the record's bytes encode, then at most one specific event.
   */
  lemma CompleteReadEmitsGenericFirst(channel: seq<byte>, n: int32)
    requires IntSize <= |channel| && channel[..IntSize] == EncodeInt(n)
    ensures var r := Emitted(ReadRecord(channel, IntSize));
      1 <= |r| <= 2 && r[0] == ReceivedSignal(n)
      && (forall i :: 1 <= i < |r| ==> !r[i].ReceivedSignal?)
      && (|r| == 2 <==> n in WellKnownSignals)
    ensures ReadRecord(channel, IntSize).rest == channel[IntSize..]
  {
    DecodeEncode(n);
  }

  /**
   * A failed read (-1) is not caught by the short-read test: it dispatches
   * the initial value 0, with the generic event only, and leaves the
   * channel as it was.
   */
  lemma ReadErrorDispatchesZero(channel: seq<byte>)
    ensures Emitted(ReadRecord(channel, -1)) == [ReceivedSignal(0)]
    ensures ReadRecord(channel, -1).rest == channel
  {
    assert 0 !in WellKnownSignals;
  }

  /** The channel after the signal handler has written each of `ns` in full. */
  function Records(ns: seq<int32>): (r: seq<byte>)
    ensures |r| == IntSize * |ns|
  {
    if ns == [] then [] else EncodeInt(ns[0]) + Records(ns[1..])
  }

  lemma {:induction false} RecordsAppend(ns: seq<int32>, n: int32)
    ensures Records(ns + [n]) == Records(ns) + EncodeInt(n)
  {
    if ns == [] {
      assert ns + [n] == [n];
    } else {
      assert (ns + [n])[1..] == ns[1..] + [n];
      RecordsAppend(ns[1..], n);
    }
  }

  /**
   * `k` calls of `propagateSignal` in which every read is complete: the
   * channel that is left and the events emitted, in order.
   */
  function Drain(channel: seq<byte>, k: nat): (r: (seq<byte>, seq<Event>))
    requires IntSize * k <= |channel|
  {
    if k == 0 then (channel, [])
    else
      var step := ReadRecord(channel, IntSize);
      var next := Drain(step.rest, k - 1);
      (next.0, Emitted(step) + next.1)
  }

  /** A complete read of a channel that starts with the record of `n`. */
  lemma ReadRecordOfEncoding(n: int32, rest: seq<byte>)
    ensures |EncodeInt(n) + rest| >= IntSize
    ensures ReadRecord(EncodeInt(n) + rest, IntSize) == ReadStep(rest, n, false)
  {
    var channel := EncodeInt(n) + rest;
    assert channel[..IntSize] == EncodeInt(n);
    assert channel[IntSize..] == rest;
    DecodeEncode(n);
  }

  /**
   * First in, first out: after the signal handler has written the records of
   * n1..nk, k complete reads emit the events of n1..nk in that order, and
   * whatever was written after them is still in the channel.
   */
  lemma {:induction false} DrainRecords(ns: seq<int32>, tail: seq<byte>)
    ensures Drain(Records(ns) + tail, |ns|) == (tail, EventsFor(ns))
  {
    if ns == [] {
      assert Records(ns) + tail == tail;
    } else {
      var rest := Records(ns[1..]) + tail;
      assert Records(ns) + tail == EncodeInt(ns[0]) + rest;
      ReadRecordOfEncoding(ns[0], rest);
      DrainRecords(ns[1..], tail);
    }
  }

  /**
   * The round trip end to end: the payloads of the generic events that k
   * complete reads emit are exactly the numbers written, in order.
   */
  lemma DispatchedInWriteOrder(ns: seq<int32>)
    ensures Drain(Records(ns), |ns|).0 == []
    ensures GenericPayloads(Drain(Records(ns), |ns|).1) == ns
  {
    assert Records(ns) + [] == Records(ns);
    DrainRecords(ns, []);
    GenericPayloadsOfEventsFor(ns);
  }

  /**
   * A short read puts the stream out of step: after the records of 1 and 2
   * and a read that returns one byte, the next complete read decodes the
   * last three bytes of the first record and the first byte of the second,
   * and dispatches 33554432 instead of 2.
   */
  lemma ShortReadDesynchronises()
    ensures var after := ReadRecord(Records([1, 2]), 1).rest;
      |after| == 7 && ReadRecord(after, IntSize).signalNo == 0x200_0000
  {
    var channel := Records([1, 2]);
    assert Records([2][1..]) == [];
    assert channel == EncodeInt(1) + EncodeInt(2);
    Pow256IntSize();
    assert EncodeInt(1) == [1, 0, 0, 0];
    assert EncodeInt(2) == [2, 0, 0, 0];
    var after := channel[1..];
    assert after[..IntSize] == [0, 0, 0, 2];
    assert FromLittleEndian([0, 0, 0, 2]) == 0x200_0000 by {
      assert [0, 0, 0, 2][1..] == [0, 0, 2];
      assert [0, 0, 2 as byte][1..] == [0, 2];
      assert [0, 2 as byte][1..] == [2];
      assert [2 as byte][1..] == [];
    }
  }

  /**
   * A short read that takes everything buffered (a fragment left by a
   * partial write) empties the channel, so the records written after it are
   * read in step: the stream is back in step.
   */
  lemma {:induction false} ShortReadOfFragmentResynchronises(fragment: seq<byte>, ns: seq<int32>)
    requires |fragment| < IntSize
    ensures ReadRecord(fragment, |fragment|).short
    ensures ReadRecord(fragment, |fragment|).rest == []
    ensures Drain(ReadRecord(fragment, |fragment|).rest + Records(ns), |ns|) == ([], EventsFor(ns))
  {
    var rest := ReadRecord(fragment, |fragment|).rest;
    assert rest == [];
    assert rest + Records(ns) == Records(ns) + [];
    DrainRecords(ns, []);
  }

  /**
   * A partial write puts the stream out of step: when the write of 2 stops
   * after one byte and 3 is then written in full, the next complete read
   * decodes the byte of 2 and the first three bytes of 3, and dispatches
   * 770 instead of 3.
   */
  lemma PartialWriteDesynchronises()
    ensures var channel := Written(2, 1) + Written(3, IntSize);
      |channel| == 5 && ReadRecord(channel, IntSize).signalNo == 770
  {
    Pow256IntSize();
    assert EncodeInt(2) == [2, 0, 0, 0];
    assert EncodeInt(3) == [3, 0, 0, 0];
    var channel := Written(2, 1) + Written(3, IntSize);
    assert channel[..IntSize] == [2, 3, 0, 0];
    assert FromLittleEndian([2, 3, 0, 0]) == 770 by {
      assert [2, 3, 0, 0 as byte][1..] == [3, 0, 0];
      assert [3, 0, 0 as byte][1..] == [0, 0];
      assert [0, 0 as byte][1..] == [0];
      assert [0 as byte][1..] == [];
    }
  }
}
