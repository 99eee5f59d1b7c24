# UnixSignalBridge in Dafny

A model of `UnixSignalBridge`, a small Qt class that uses the self-pipe trick
to carry POSIX signals into a Qt event loop. Its signal handler (the
trampoline) writes the signal number as raw `sizeof(int)` bytes into a
`socketpair`. When the read end becomes readable, the `propagateSignal` slot
reads one record back on the event-loop thread. It then emits the generic
Qt signal `receivedSignal(int)`, followed by one of eight payload-less signals
(`sighup`, `sigint`, `sigquit`, `sigabrt`, `sigusr1`, `sigusr2`, `sigalrm`,
`sigterm`) when the number is one of those eight.

The model has six modules:

- `Wire`: the record layout. A C `int` is four bytes, two's complement,
  least significant byte first. Encoding and decoding are proved to be
  inverse bijections. The module also holds the `ssize_t` to
  `unsigned long` conversion used by the short-read test.
- `Signals`: the signal numbers, the event vocabulary and the
  `switch (signalNo)` as a function.
- `Channel`: the socket pair as a byte stream. It defines one write by the
  trampoline and one read by `propagateSignal`, and proves the first-in,
  first-out round trip for whole records.
- `Registration`: the constructor's `sigaction` loop, stated as functions.
- `SignalBridge`: the class `UnixSignalBridge`. One object stands for the
  process state the bridge touches: the class-static `unixSignalFd` array
  (filled in place), the bytes buffered in the socket pair, the signals whose
  handler is the trampoline, the emitted Qt signals (an event log) and the
  log messages. Its methods are the C++ constructor (`Construct`), the
  trampoline (`UnixSignalHandler`) and the slot (`PropagateSignal`). The
  Dafny `constructor` is the static initialiser `{-1, -1}`.
- `Wrappers`: an `Option` type.

Whatever the kernel decides is passed in as a parameter: the descriptors
socketpair(2) returns, or its failure; the return codes of sigaction(2); and
the byte counts that write(2) and read(2) return.

Three behaviours of the code are reproduced as written, not corrected:

- The registration test `!::sigaction(...)` is true when sigaction
  succeeds. So "failed to register signal action" is logged for every
  signal that was registered, and never for one that failed
  (`Registration.LogOnlyOnSuccess`, `Registration.RegistrationLogInOrder`,
  `Registration.SilentWhenAllFail`).
- The short-read test casts the `ssize_t` result to `unsigned long`. A
  read error (-1) becomes 2^64 - 1 and passes the test, so the initial
  value 0 is dispatched as a signal (`Wire.ShortReadExactly`,
  `Channel.ReadErrorDispatchesZero`).
- A read of 1 to 3 bytes removes those bytes from the stream before the slot
  returns, and emits nothing. Later records can then be decoded out of step.
  This happens when more bytes of the same record are still buffered behind
  the bytes read. The model allows that, because it lets read(2) return fewer
  bytes than are buffered (`Channel.ShortReadDesynchronises`). A short read
  that takes the whole buffer, such as the fragment a partial write leaves,
  empties the channel and puts the stream back in step
  (`Channel.ShortReadOfFragmentResynchronises`). A partial write followed by
  a full one also puts the stream out of step
  (`Channel.PartialWriteDesynchronises`).

The class declares eight specific signals, and the model has eight.

Signal numbers use the Linux values (SIGHUP 1, SIGINT 2, SIGQUIT 3,
SIGABRT 6, SIGUSR1 10, SIGUSR2 12, SIGALRM 14, SIGTERM 15). The source uses
the platform's macros. The properties proved here depend only on these
numbers being distinct and non-zero (0 is the null signal, which is never
delivered; `Channel.ReadErrorDispatchesZero` uses that it is not well known).

## Model

| member | source | states |
|---|---|---|
| `Wire.DecodeEncode` | src/unixsignalbridge.cpp:41-72 | `DecodeInt` (the `int` that read(2) fills in, line 72) of `EncodeInt` (the bytes write(2) sends, line 41) gives back the `int` the trampoline wrote |
| `Wire.EncodeDecode` | src/unixsignalbridge.cpp:41-72 | every four-byte record is the encoding of the number it decodes to, so encoding is onto |
| `Wire.EncodeInt` | src/unixsignalbridge.cpp:41 | the trampoline's write sends exactly `sizeof(int)` bytes |
| `Wire.EncodeInjective` | src/unixsignalbridge.cpp:41 | two different signal numbers never produce the same record |
| `Wire.UnsignedLong` | src/unixsignalbridge.cpp:73 | the cast yields the unique value below 2^64 congruent to the `ssize_t` modulo 2^64 |
| `Wire.ShortReadExactly` | src/unixsignalbridge.cpp:73 | the short-read test `IsShortRead` (the `unsigned long` comparison) holds exactly for byte counts 0..3; -1 (error) is not short |
| `Signals.SpecificEvent` | src/unixsignalbridge.cpp:81-106 | the switch yields a specific event exactly for the eight well-known numbers, and that event names the number it was given |
| `Signals.SpecificEventOfSignalNumber` | src/unixsignalbridge.h:45-52 | each of the eight specific signals is emitted for its own number |
| `Signals.SignalEvents` | src/unixsignalbridge.cpp:80-106 | a complete record emits 1 or 2 events: the generic one first with the number, then a specific one iff the number is well known; every event is about that number |
| `Signals.EventsFor` | src/unixsignalbridge.cpp:80-106 | k complete records emit between k and 2k events |
| `Signals.GenericPayloadsOfEventsFor` | src/unixsignalbridge.cpp:80 | the generic events of a series of records carry exactly the numbers of the records, in order |
| `Channel.Written` | src/unixsignalbridge.cpp:39-42 | a full write appends exactly the record of the number; a partial write appends a prefix of it; a failed write appends nothing |
| `Channel.ReadRecord` | src/unixsignalbridge.cpp:71-76 | a read is short iff it returned 0..3 bytes; the bytes read leave the channel; a complete read decodes the first record and the channel was that record followed by the rest; -1 leaves the channel and the value 0 |
| `Channel.ShortReadEmitsNothing` | src/unixsignalbridge.cpp:71-76 | after a short read, `Emitted` (the emits at lines 80-106 that follow the read) is empty, yet the bytes read are removed |
| `Channel.CompleteReadEmitsGenericFirst` | src/unixsignalbridge.cpp:78-106 | a complete read of the record of n emits the generic event for n first, then at most one specific event, present iff n is well known |
| `Channel.ReadErrorDispatchesZero` | src/unixsignalbridge.cpp:71-80 | a read error emits exactly the generic event for 0 and leaves the channel unchanged |
| `Channel.Records` | src/unixsignalbridge.cpp:41 | k whole records occupy exactly k times `sizeof(int)` bytes |
| `Channel.ReadRecordOfEncoding` | src/unixsignalbridge.cpp:41-72 | a complete read of a channel that starts with the record of n yields n and exactly the bytes after that record |
| `Channel.DrainRecords` | src/unixsignalbridge.cpp:41-106 | `Drain` is k successive `propagateSignal` calls with complete reads: after records n1..nk were written it emits the events of n1..nk in that order and leaves whatever was written after them |
| `Channel.DispatchedInWriteOrder` | src/unixsignalbridge.cpp:41-80 | the generic payloads of k complete reads are exactly the k numbers written, in order, and the channel is then empty |
| `Channel.ShortReadDesynchronises` | src/unixsignalbridge.cpp:72-75 | after a 1-byte read on the records of 1 and 2, the next complete read yields 33554432 instead of 2 |
| `Channel.ShortReadOfFragmentResynchronises` | src/unixsignalbridge.cpp:41-76 | a short read that takes everything buffered emits nothing and empties the channel; records written afterwards are then read back in order with their events |
| `Channel.PartialWriteDesynchronises` | src/unixsignalbridge.cpp:41-72 | after a 1-byte partial write of 2 and a full write of 3, the next complete read yields 770 instead of 3 |
| `Registration.RegisteredExactly` | src/unixsignalbridge.cpp:62-66 | the loop visits every requested signal: `Registered` (the trampoline's signals after the loop) holds a signal iff one of its sigaction calls returned 0 |
| `Registration.RegistrationIndependent` | src/unixsignalbridge.cpp:62-66 | a successful registration stands whatever the other registrations returned |
| `Registration.UnrequestedNeverRegistered` | src/unixsignalbridge.cpp:62-66 | a signal that was not requested is not registered |
| `Registration.LogOnlyOnSuccess` | src/unixsignalbridge.cpp:63-64 | every "failed to register" message names a signal whose sigaction returned 0, and every such signal is logged |
| `Registration.SilentWhenAllFail` | src/unixsignalbridge.cpp:63-64 | when every sigaction call fails, nothing is logged and nothing is registered |
| `Registration.SuccessIndices` | src/unixsignalbridge.cpp:62-63 | the positions whose sigaction call returned 0: each such position once, and in increasing list order |
| `Registration.SuccessIndicesCount` | src/unixsignalbridge.cpp:62-63 | there is exactly one successful position per call that returned 0 |
| `Registration.RegistrationLogInOrder` | src/unixsignalbridge.cpp:62-64 | `RegistrationLog` holds exactly one "failed to register" message per call that returned 0, naming that call's signal, in list order; its length is the number of such calls |
| `SignalBridge.UnixSignalBridge.constructor` | src/unixsignalbridge.cpp:37 | at program start the descriptor pair is `{-1, -1}` and nothing is buffered, registered, emitted or logged |
| `SignalBridge.UnixSignalBridge.Construct` | src/unixsignalbridge.cpp:44-67 | fatal "duplicate instance" iff `Live()` (a descriptor is not -1, line 46) held; fatal "socketpair" iff socketpair fails; a fatal outcome changes nothing; otherwise the pair is set, the channel is empty, and the registered signals and log grow by `Registered` and `RegistrationLog` of the loop |
| `SignalBridge.UnixSignalBridge.UnixSignalHandler` | src/unixsignalbridge.cpp:39-42 | the channel grows by exactly the bytes the write accepted, and nothing else in the state changes |
| `SignalBridge.UnixSignalBridge.PropagateSignal` | src/unixsignalbridge.cpp:69-107 | the channel, event log and message log change exactly as one read step says: no events on a short read; otherwise the generic and then the specific events |
| `SignalBridge.SecondInstanceIsFatal` | src/unixsignalbridge.cpp:37-53 | from the initial state the first construction succeeds; a second one is fatal and leaves the first descriptors in place |
| `SignalBridge.DeliverOnce` | src/unixsignalbridge.cpp:39-106 | after construction with all registrations succeeding, a requested signal produces exactly its generic and specific events; an unrequested signal produces none |
| `SignalBridge.DeliverAll` | src/unixsignalbridge.cpp:39-106 | signals raised one after another and then drained one record per notification produce the events of each signal in raise order, and the generic payloads are exactly the raised numbers |

## Left out

- The socketpair(2), write(2), read(2) and sigaction(2) calls (src/unixsignalbridge.cpp:41, 51, 63, 72) are not modelled as system calls. Their outcomes are parameters. The kernel's own guarantees are preconditions: descriptors are non-negative; a call on descriptor -1 returns -1; read(2) returns at most the bytes requested and buffered.
- `QSocketNotifier` and the `connect` to `propagateSignal` (src/unixsignalbridge.cpp:54-55) are left out: the event loop is an external collaborator. Callers of `PropagateSignal` play the event loop.
- Qt `emit` is modelled as appending to the `events` log. The logging category is modelled as the `diagnostics` log, with message kinds but not the text.
- `qFatal` is modelled as a `Fatal` outcome of `Construct` that leaves the state unchanged. Process termination itself is not modelled.
- The contents of `struct sigaction` (the handler, `SA_RESTART`, the uninitialised `sa_mask`; src/unixsignalbridge.cpp:58-60) are left out because they are kernel behaviour. A sigaction call that returns 0 is taken to make the trampoline that signal's handler.
- `UnixSignalBridge.UnixSignalHandler`: does not require that the kernel calls it only for signals in `trampolineSignals`. `DeliverOnce` checks that condition before raising a signal. `DeliverAll` requires every raised signal to be requested, and every registration succeeds.
- Asynchronous interruption is left out: a signal arriving inside the event loop or inside another handler, and interleaved writes from different signals. Async-signal safety is a guarantee of POSIX.1-2017 (System Interfaces, section 2.4.3), not a property of this code.
- A partial write in the trampoline is modelled as appending a prefix of the record. A failed write appends nothing.
- `Wire.UnsignedLong`: assumes an LP64 target, where `ssize_t` and `unsigned long` are 64 bits wide, so -1 becomes 2^64 - 1. On a 32-bit target the conversion is modulo 2^32 and -1 becomes 2^32 - 1. The short-read test accepts the same counts 0..3 and rejects -1 either way.
- The byte order of the record is fixed as little-endian. The round-trip properties hold for any fixed order.
- The `QObject` parent and object destruction are left out. The source has no teardown path.
