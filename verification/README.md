# Verified model of the message-bus examples

A Dafny 4.11 model of the hard core of the message-bus example repository, with proofs about it.
`dafny verify dfyconfig.toml` checks everything.

## What is modelled

**The effectively-once RPC path.** `RetryClient` re-sends a transient failure under a new request id
and one idempotency key (`Retry`); the `Correlator` routes replies to waiting calls (`Correlator`);
the service answers a repeated key from its cache (`Service`); JetStream and Valkey responders ack only
after handling (`JetStream`, `StreamDrain`). `EffectivelyOnce` puts callers, transport, correlator and
service into one step system in which requests are lost, delayed, duplicated and reordered, replies and
acks are lost, publishes fail after landing, and the service restarts. Sent requests and published replies
are kept in sets for ever, so serving one twice, late or never are all behaviours. `CallRefinement` relates its
calls to `RetryClient.Call` and the correlator's table.

**The vtproto codec.** The generated code is one template per field kind, so `Encoding` and `Decode`
model it over an arbitrary schema: varints, zigzag, fixed-width and float bits, strings, optional
strings, sub-messages, string maps in any visiting order, packed int64. `RoundTrip` proves that parsing
undoes printing for every schema, and that decoding into a message merges; `Messages` instantiates this
for `Message`, `PublishRequest`, `Envelope`, `PingRequest` and `AllTypes`. `Marshal` has the imperative code: the buffer filled backwards,
the size pass, the cursor parser and `vtCodec.MarshalAppend`, each proved against those functions.

**The fan-out broker** (`Broker`), with snapshot and sends as separate interleaved steps.
**The buffer pool** (`Pool`): class construction with its in-place dedupe, every run of Get and Put, and
`codec.Encode` over it.
**The load driver** (`Series`, `ClosedLoop`, `OpenLoop`, `Ramp`), **the clock probe** (`ClockProbe`) and
**gap accounting** (`Gaps`).

Systems with shared state have the form `State`, `Step`, `Enabled`, `Apply`, an inductive `Inv`, and
theorems over every run; the classes beside them (`Broker.FanOut`, `Correlator.Table`, `Pool.Buffers`)
are the mutable objects, each method proved to perform those steps. What a specification function computes is
stated without it by a lemma, usually named `...Means`; digits and positional notation are in `Positional`.

## How the outside world appears

- Clocks, minted ids, handler results, the inner client, contexts, `sync.Pool`'s choices, goroutine
  scheduling and the map visiting order are parameters or nondeterministic steps.
- `protohelpers.Skip` is any function that advances when it succeeds (`Decode.Skipper`). The varint
  helpers are written out from the "Base 128 Varints" section of the Protocol Buffers encoding
  specification; the timestamp codec is the two-field schema of `google.protobuf.Timestamp`.
- Joining disjoint bit groups (`|=` and shifts) is written as addition, XOR in zigzag as its
  arithmetic meaning; 64- and 32-bit truncation is explicit.
- Strings in messages are byte sequences. `Gaps` treats message text as a sequence of characters.

## Where the code and its documentation differ

The model follows the code.

- `clients/internal/grpcbus/broker.go:24-28` says no send targets a subscriber after cancel. A `Publish`
  that took its snapshot before still does (`Broker.SendAfterCancel`). `Broker.SendsAfterCancelExactly`: a cancelled
  subscriber can still be targeted if and only if a publish under way has it still to do.
- `clients/internal/rpc/retry.go:84-87` says the counter is attempts minus one. It is one more when the
  context ends the backoff: `Retry.RetryClient.Call`.
- `clients/workloads/benchcli/clockprobe.go:21-31` takes half the minimum RTT as the uncertainty. Truncating
  division can put the truth 1 ns outside (`ClockProbe.UncertaintyAloneIsTooSmall`); `ClockProbe.SampleBound`
  gives the exact condition.
- `clients/internal/metrics/metrics.go:231-241` says what `Observe` returns, never a negative gap, and none for a lower
  number. After the largest int64 every natural number returns a negative gap (`Gaps.WrapReturnsANegativeGap`)
  and a negative one a huge one (`Gaps.WrapCountsALowerNumber`); a distance of 2^63 or more wraps too.
  `Gaps.CountsAsDocumented` gives the exact condition for `Observe`, `Gaps.RecordsAsDocumented` the weaker one for the
  counter, which ignores what is not positive.
- Keys and values of a map entry are bounded by the whole input, not by their entry, so the entry loop may run
  past its end (`Decode.EntryMayOverrun`); it stops there exactly if pieces tile the entry
  (`Decode.EntryStopsExactly`), and the field loop goes on at the entry's end in every case (`Decode.MapFieldEndsAtPost`).
- The packed loop has no such reset: a varint cut off by the end of its field is completed from beyond it
  (`Decode.PackedMayOverrun`), exactly when the field's last byte is not below 0x80 (`Decode.PackedFieldStopsExactly`).
- `clients/internal/transport/valkey/stream.go:112-114` promises new messages once the backlog is empty. It empties only by
  acks: one that keeps failing stops the consumer for good (`StreamDrain.LostAcksNeverDrain`,
  `StreamDrain.RereadDrainsExactly`).
- A float `-0.0` is not emitted, so `AllTypes` round-trips exactly when it holds none.
- The last `else` of `Buffers.Put` (`clients/internal/pool/pool.go:121-123`) cannot be reached: above the top class
  the first branch is taken. The model has the two reachable branches.

## Model

| member | source | states |
|---|---|---|
| `Wire.SizeOfVarintIsLength` | clients/gen/go/benchmark/v1/benchmark_vtproto.pb.go:241-244 | the predicted size of a varint is the length of its encoding |
| `Wire.VarintIsBase128` | clients/gen/go/benchmark/v1/benchmark_vtproto.pb.go:248-255 | a varint is the base-128 digits, least significant first, the top bit set on all but the last, with none to spare |
| `Wire.PutVarint` | clients/gen/go/benchmark/v1/benchmark_vtproto.pb.go:248-255 | the forward varint loop writes exactly the varint's bytes from its start and touches nothing else |
| `Wire.DecodeVarint` | clients/gen/go/bus/v1/bus_vtproto.pb.go:337-351 | the shift loop computes the specified read on any bytes: overflow after ten bytes, end of input, low 64 bits |
| `Wire.ReadVarintReadsBack` | clients/gen/go/bus/v1/bus_vtproto.pb.go:337-351 | a varint standing anywhere in the input reads back, with the cursor right behind it, for every uint64 |
| `Wire.RawVarintMeans` | clients/gen/go/bus/v1/bus_vtproto.pb.go:337-351 | on any bytes: the value is the number with those base-128 digits, overlong forms included; overflow exactly on ten bytes without an end, end of input exactly before either |
| `Wire.ReinterpretsLowBits` | clients/gen/go/bus/v1/bus_vtproto.pb.go:352-353 | the int64, int32 and uint64 conversions keep the low bits |
| `Wire.ZigzagRoundTrip` | clients/gen/go/benchmark/v1/benchmark_vtproto.pb.go:323-332 | zigzag decode undoes encode for every int32 and int64 |
| `Wire.Zigzag32Size` | clients/gen/go/benchmark/v1/benchmark_vtproto.pb.go:448-453 | the 64-bit size taken for an s32 equals the length of its 32-bit encoding |
| `Encoding.ScalarRoundTrip` | clients/gen/go/benchmark/v1/benchmark_vtproto.pb.go:1037-1078 | every numeric field type survives its wire form over its whole range |
| `Encoding.FromWireKeepsLowBits` | clients/gen/go/benchmark/v1/benchmark_vtproto.pb.go:1037-1078 | what each numeric field keeps of any raw value: its low bits, or for a bool whether any is set |
| `Encoding.LittleEndianDigits` | clients/gen/go/benchmark/v1/benchmark_vtproto.pb.go:317-322 | byte i of a fixed-width field is base-256 digit i: the least significant comes first |
| `Encoding.ReadLittleEndianDigits` | clients/gen/go/workloads/v1/bench_vtproto.pb.go:739-744 | and is read back as that digit, from any bytes |
| `Encoding.CanonIsIdentityExactly` | clients/gen/go/benchmark/v1/benchmark_vtproto.pb.go:198-407 | what the presence tests keep of a message is the message itself exactly when no float at any depth is -0.0 |
| `Decode.Step` | clients/gen/go/bus/v1/bus_vtproto.pb.go:335-688 | on arbitrary bytes one turn of the field loop strictly advances the cursor and keeps it in range |
| `Decode.StepMeans` | clients/gen/go/bus/v1/bus_vtproto.pb.go:352-363 | end-group and non-positive field numbers are rejected, a known field of the wrong wire type too; a known field changes itself alone, an unknown one is kept byte for byte |
| `Decode.LengthMeans` | clients/gen/go/bus/v1/bus_vtproto.pb.go:448-456 | a length is taken exactly when it fits the input, and which error it gives otherwise |
| `Decode.SkipMeans` | clients/gen/go/bus/v1/bus_vtproto.pb.go:674-686 | an unknown field ends where the skipper says, within the limit |
| `Decode.UnpackedSampleIsAppended` | clients/gen/go/benchmark/v1/benchmark_vtproto.pb.go:1256-1272 | a sample that arrives unpacked is appended like a packed one |
| `Decode.ReadEntry` | clients/gen/go/bus/v1/bus_vtproto.pb.go:493-583 | the map entry loop terminates in range, possibly beyond the entry's end |
| `Decode.EntryMayOverrun` | clients/gen/go/bus/v1/bus_vtproto.pb.go:459-585 | an entry whose key runs past its end is read, not rejected |
| `Decode.EntryStopsExactly` | clients/gen/go/bus/v1/bus_vtproto.pb.go:493-583 | on any bytes the entry loop succeeds and stops exactly at the entry's end if and only if key, value and skipped pieces tile the entry |
| `Decode.MapFieldEndsAtPost` | clients/gen/go/bus/v1/bus_vtproto.pb.go:584-585 | whatever the entry loop did, the field loop resumes at the entry's end |
| `Decode.PackedStopsExactly` | clients/gen/go/benchmark/v1/benchmark_vtproto.pb.go:1310-1327 | the packed loop stops exactly at its end if and only if the last byte there is below 0x80 |
| `Decode.PackedFieldStopsExactly` | clients/gen/go/benchmark/v1/benchmark_vtproto.pb.go:1273-1327 | so the cursor ends at the field's end exactly for an empty field or one whose last byte ends a varint |
| `Decode.PackedMayOverrun` | clients/gen/go/benchmark/v1/benchmark_vtproto.pb.go:1310-1327 | a one-byte field whose varint is completed from beyond it |
| `Decode.DecodeKeepsTypes` | clients/gen/go/bus/v1/bus_vtproto.pb.go:332-694 | whatever the bytes, a successful decode leaves every field in its declared range |
| `RoundTrip.PackedReadsBack` | clients/gen/go/benchmark/v1/benchmark_vtproto.pb.go:1273-1327 | the packed loop reads back every int64 list and stops at its end |
| `RoundTrip.EntriesReadBack` | clients/gen/go/bus/v1/bus_vtproto.pb.go:459-585 | the entries of a map, in any visiting order, rebuild the map |
| `RoundTrip.FieldReadsBack` | clients/gen/go/bus/v1/bus_vtproto.pb.go:360-672 | decoding past one encoded field merges exactly that field into the message and nothing else |
| `RoundTrip.DecodeMerges` | clients/gen/go/bus/v1/bus_vtproto.pb.go:332-694 | decoding an encoded message into any message merges it in: what is present replaces, sub-messages merge field by field, map entries are added or replaced, samples appended |
| `RoundTrip.DecodeConcat` | clients/gen/go/bus/v1/bus_vtproto.pb.go:332-694 | concatenated encodings decode to the merged message |
| `RoundTrip.DecodeEncode` | clients/gen/go/bus/v1/bus_vtproto.pb.go:41-159 | for every schema, message without unknown fields and map order, decoding the encoding into a fresh message gives the message up to the sign of float zeros |
| `RoundTrip.RoundTripsExactly` | clients/gen/go/bus/v1/bus_vtproto.pb.go:332-781 | the round trip is the identity if and only if no float is -0.0 |
| `Marshal.SizeVT` | clients/gen/go/workloads/v1/bench_vtproto.pb.go:377-432 | the size pass computes the length of the encoding |
| `Marshal.LengthIsOrderFree` | clients/gen/go/bus/v1/bus_vtproto.pb.go:264-271 | that length does not depend on the order in which any map is visited |
| `Marshal.PutEntries` | clients/gen/go/bus/v1/bus_vtproto.pb.go:75-93 | the backwards entry loop leaves exactly the entries' bytes below its start |
| `Marshal.PutPacked` | clients/gen/go/benchmark/v1/benchmark_vtproto.pb.go:240-257 | the forward loop fills exactly the size reserved for the packed samples |
| `Marshal.MarshalToSizedBuffer` | clients/gen/go/workloads/v1/bench_vtproto.pb.go:42-146 | filling backwards writes the encoding right below the given end, returns its length and touches no other byte |
| `Marshal.ReadMapEntry` | clients/gen/go/bus/v1/bus_vtproto.pb.go:491-583 | the entry loop computes the specified key, value and cursor on any bytes |
| `Marshal.ReadPackedField` | clients/gen/go/benchmark/v1/benchmark_vtproto.pb.go:1310-1327 | the packed loop computes the specified list and cursor on any bytes |
| `Marshal.UnmarshalVT` | clients/gen/go/bus/v1/bus_vtproto.pb.go:332-694 | the cursor loop, errors included, computes the decoding function that the round trip is about |
| `Marshal.MarshalAppend` | clients/internal/codec/vt.go:33-51 | the result is the old contents followed by the encoding; the backing array is kept exactly when the spare capacity suffices, and bytes beyond are untouched |
| `Messages.BusRoundTrip` | clients/gen/go/bus/v1/bus_vtproto.pb.go:332-694 | every Message record comes back equal, whatever the header order |
| `Messages.PublishRoundTrip` | clients/gen/go/bus/v1/bus_vtproto.pb.go:695-781 | the same for PublishRequest with its nested Message |
| `Messages.PingRoundTrip` | clients/gen/go/workloads/v1/bench_vtproto.pb.go:922-1008 | the same for PingRequest carrying an Envelope |
| `Messages.AllTypesRoundTrip` | clients/gen/go/benchmark/v1/benchmark_vtproto.pb.go:900-1513 | AllTypes comes back equal exactly when neither float is -0.0 |
| `Messages.EncodeIsConcat` | clients/gen/go/bus/v1/bus_vtproto.pb.go:41-116 | an encoding is its fields' bytes in field order, then the unknown fields |
| `Messages.BusLayout` | clients/gen/go/bus/v1/bus_vtproto.pb.go:41-116 | which record field stands under which tag byte of a Message, in which form |
| `Messages.EnvelopeLayout` | clients/gen/go/workloads/v1/bench_vtproto.pb.go:42-146 | which record field stands under which tag byte of an Envelope, in which form; the fixed-width one byte by byte |
| `Messages.HeaderBytes` | clients/gen/go/bus/v1/bus_vtproto.pb.go:75-93 | one header on the wire: length, key and value under their tag bytes |
| `Messages.HeadersReversed` | clients/gen/go/bus/v1/bus_vtproto.pb.go:75-93 | the headers stand in the reverse of the order they were visited in |
| `Messages.TimestampLayout` | clients/gen/go/bus/v1/bus_vtproto.pb.go:53-62 | seconds and nanoseconds of a timestamp under their tag bytes |
| `Messages.AllTypesFixed` | clients/gen/go/benchmark/v1/benchmark_vtproto.pb.go:305-322 | the fixed-width and float fields byte by byte, floats absent for both zeros |
| `Messages.AllTypesZigzags` | clients/gen/go/benchmark/v1/benchmark_vtproto.pb.go:323-332 | s32 is zigzagged in 32 bits under 0x30, s64 in 64 bits under 0x38 |
| `Messages.AllTypesCollections` | clients/gen/go/benchmark/v1/benchmark_vtproto.pb.go:217-262 | the packed samples stand under a two-byte tag with their length, absent when empty; the map's entries under theirs |
| `Rpc.FirstTyped` | clients/internal/rpc/errors.go:51-54 | the status of the outermost typed error, and none exactly when the chain holds none |
| `Rpc.StatusMeans` | clients/internal/rpc/errors.go:47-69 | which status every error gets, in order of precedence |
| `Rpc.RepliesEcho` | clients/internal/rpc/request.go:40-67 | every reply echoes its request's id, service, method and send time; payload or classified error |
| `Rpc.RetryableErrors` | clients/internal/rpc/retry.go:100-115 | an untyped error is retried exactly for the four transient causes; a typed one decides alone; without an error the response's status decides |
| `Retry.RetryClient.constructor` | clients/internal/rpc/retry.go:49-54 | at least one attempt, whatever the policy |
| `Retry.RetryClient.Call` | clients/internal/rpc/retry.go:59-82 | for every inner client and context: 1 to MaxAttempts attempts, each the caller's request under the caller's key, or one minted key if it has none, with minted ids after the first; a retryable outcome before each retry, the last outcome returned, the caller's request unchanged, and the exact counter |
| `Retry.AttemptsShareOneKey` | clients/internal/rpc/retry.go:60-71 | all attempts carry one non-empty key, the caller's own if it has one, the first the caller's id, and differ in nothing else |
| `Service.ReplaysAgree` | clients/rpc-service/main.go:163-176 | a replay is the cached response with the asker's id and the marker added to its metadata; the nth matches the first |
| `Service.HandleMeans` | clients/rpc-service/main.go:160-183 | exactly when a request is replayed and counted as a hit; otherwise the method's result is the answer, and the cache keeps it for a ttl if and only if it is OK and has a key |
| `Service.IdempotencyCache.Get` | clients/internal/rpc/idempotency.go:41-58 | the object performs the specified lookup with lazy expiry and returns the stored pointer |
| `Service.IdempotencyCache.Put` | clients/internal/rpc/idempotency.go:62-69 | the object performs the specified store |
| `Service.IdempotencyCache.Idempotent` | clients/rpc-service/main.go:160-183 | performs that handling; a live key gives the marked replay, any other the method's answer; no response cached before is written, and a replay is a fresh object that is not cached |
| `Service.RunKeepsInv` | clients/rpc-service/main.go:160-183 | over every run: cached responses come from OK executions of their key, and every live OK execution is covered by the cache |
| `Service.AtMostOncePerTtl` | clients/rpc-service/main.go:160-183 | over every run, OK completions of one non-empty key in one service life are more than a ttl apart |
| `Service.ReplayedUntilTtl` | clients/internal/rpc/idempotency.go:41-69 | until that ttl has passed a request with the key is not executed and gets exactly the first response, replayed |
| `EffectivelyOnce.BehaviourKeepsInv` | clients/internal/rpc/natsx/jetstream.go:144-176 | every step of the whole system keeps: ids name one request and one key, replies and outcomes are genuine |
| `EffectivelyOnce.EffectivelyOnce` | clients/internal/rpc/retry.go:59-82 | in every behaviour, restarts and any uptime included, an OK response returned by a call carries the id of the attempt that returned and the payload of an OK execution of its key that no other of its life is within a ttl of; the only one while the key's executions are current |
| `EffectivelyOnce.AtMostOnce` | clients/rpc-service/main.go:160-183 | in every behaviour OK completions of one key in one service life are more than a ttl apart |
| `CallRefinement.AttemptsBounded` | clients/internal/rpc/retry.go:66-80 | in every behaviour no call goes beyond its attempt limit |
| `CallRefinement.ReturnedCallIsARetryCall` | clients/internal/rpc/retry.go:59-82 | refinement: the attempts and outcome of a returned call are those of RetryClient.Call in some world |
| `CallRefinement.ReturnedCallsLeaveNoEntry` | clients/internal/rpc/natsx/jetstream.go:155-176 | in every behaviour correlator entries belong to attempts in progress, so a call that returned or backs off leaves none |
| `CallRefinement.CallsAreRegistered` | clients/internal/rpc/natsx/jetstream.go:155-176 | in every behaviour an attempt not yet sent is registered, and a waiting one is or has its reply |
| `CallRefinement.CallCanComplete` | clients/internal/rpc/natsx/jetstream.go:144-176 | in every behaviour an attempt can be published, served, its reply delivered and received, and the call then holds exactly the service's answer |
| `Correlator.InterleavingKeepsInv` | clients/internal/rpc/correlator.go:38-69 | every interleaving, with removal and send as separate steps, keeps the table's invariant |
| `Correlator.SentAtMostOnceAndNeverBlocks` | clients/internal/rpc/correlator.go:22-25 | each channel is sent at most one value, addressed to its id or a failure, and no send waits, even with reused ids |
| `Correlator.SentIsReceivedOrWaiting` | clients/internal/rpc/correlator.go:50-57 | over every interleaving the value sent to a channel was received from it or is waiting in it |
| `Correlator.WaitsUntilEnded` | clients/internal/rpc/correlator.go:38-57 | a registration is found exactly until a delivery, shutdown, cancel or another registration of its id |
| `Correlator.CancelOnce` | clients/internal/rpc/correlator.go:41-42 | cancel removes the id's entry, once |
| `Correlator.NoLeakEver` | clients/internal/rpc/correlator.go:33-44 | with distinct ids a cancelled registration leaves no entry |
| `Correlator.LateRepliesReportFalse` | clients/internal/rpc/correlator.go:46-57 | and later replies to it report false |
| `Correlator.ReusedIdLosesTheSecondCaller` | clients/internal/rpc/correlator.go:33-44 | why ids must be distinct: one caller's cancel removes another's entry |
| `Correlator.Table.Deliver` | clients/internal/rpc/correlator.go:50-57 | reports whether anybody waited, and exactly if so leaves the reply in that channel and the id gone |
| `Correlator.Table.Shutdown` | clients/internal/rpc/correlator.go:62-69 | every caller waiting has the error in its channel, no other channel changes, nobody waits afterwards |
| `JetStream.BehaviourKeepsInv` | clients/internal/rpc/natsx/jetstream.go:232-272 | every step, crashes and lost acks included, keeps the responder's invariant |
| `JetStream.AtLeastOnce` | clients/internal/rpc/natsx/jetstream.go:253-272 | an acked request was handled (and replied to if it can be), a terminated one is undecodable, so a retained decodable one is deliverable or was handled |
| `JetStream.RepliesAreTheHandlers` | clients/internal/rpc/natsx/jetstream.go:262-270 | in every behaviour a published reply is the handler's own response, carries its request's id, and its request named an inbox |
| `JetStream.OnceInEffect` | clients/internal/rpc/natsx/jetstream.go:253-272 | however often redelivery runs the handler, OK answers carry an execution's payload, and executions of a key in one life are a ttl apart |
| `JetStream.DeliverableUntilSettled` | clients/internal/rpc/natsx/jetstream.go:193-196 | in every behaviour a persisted message is deliverable exactly as long as it has not expired and no ack or termination of it arrived |
| `JetStream.CrashRedelivers` | clients/internal/rpc/natsx/jetstream.go:193-196 | hence after a crash whatever was not settled can be fetched again |
| `JetStream.HandlerReturnMeans` | clients/internal/rpc/natsx/jetstream.go:262-265 | a delivery is answered by the marked replay of a cached answer, or by its method's answer |
| `JetStream.HandleOne` | clients/internal/rpc/natsx/jetstream.go:256-272 | one uninterrupted delivery ends served if decodable, and settled at the broker unless its ack is lost; nothing earlier is undone |
| `JetStream.ServeBatch` | clients/internal/rpc/natsx/jetstream.go:247-249 | the loop over a batch does so for every message of it |
| `StreamDrain.ResponderLoop` | clients/internal/rpc/valkeyx/stream.go:231-280 | the loop with its cursor computes the specified drain for every script of reads |
| `StreamDrain.CursorDrain` | clients/internal/rpc/valkeyx/stream.go:231-280 | whatever the read sizes, errors and acks: the backlog in id order, each entry once, then new entries, and new ones only after the whole backlog, within one read per entry plus one |
| `StreamDrain.BacklogTaken` | clients/internal/rpc/valkeyx/stream.go:265-278 | a read of the backlog dispatches as much of what is left as its size allows |
| `StreamDrain.NewEntriesTaken` | clients/internal/rpc/valkeyx/stream.go:265-278 | a read of new entries dispatches as many as have arrived, up to its size, off the front |
| `StreamDrain.ConsumerLoop` | clients/internal/transport/valkey/stream.go:111-148 | the re-reading loop computes the specified drain |
| `StreamDrain.RereadDrain` | clients/internal/transport/valkey/stream.go:111-148 | when every ack succeeds it drains likewise, flagging exactly the backlog entries as redelivered |
| `StreamDrain.LostAcksNeverDrain` | clients/internal/transport/valkey/stream.go:111-148 | from any backlog, whatever the read sizes and other acks: while one entry's ack keeps failing it stays pending, every read dispatches backlog entries again, and no new entry is read |
| `StreamDrain.RereadDrainsExactly` | clients/internal/transport/valkey/stream.go:111-148 | with a fixed set of failing acks and more reads than entries, the backlog is drained if and only if none of them is of a backlog entry |
| `StreamDrain.ShrinksExactly` | clients/internal/transport/valkey/stream.go:124-143 | a read of the backlog shrinks it exactly when one of the entries it returned is acked |
| `StreamDrain.RereadDrainsWhileAcking` | clients/internal/transport/valkey/stream.go:111-148 | some acks may be lost: one ack a read is enough to drain within one read per entry plus one |
| `StreamDrain.RereadAtLeastOnce` | clients/internal/transport/valkey/stream.go:111-148 | for every script: first only backlog entries, flagged, then new entries in order, once, not flagged, and by then every backlog entry was dispatched |
| `Broker.InterleavingKeepsInv` | clients/internal/grpcbus/broker.go:61-115 | every interleaving of subscribe, cancel, snapshot, send, return and receive keeps the broker's invariant |
| `Broker.FanOutSafety` | clients/internal/grpcbus/broker.go:61-115 | bounded channels that hold the unread end of what was sent, only messages of the topic, one copy per publish, each publisher's in order, no empty topic set |
| `Broker.StepChannels` | clients/internal/grpcbus/broker.go:105-112 | a send with room adds the message behind the unread ones, a receive takes the oldest, nothing else touches a channel |
| `Broker.NothingLostOnTheWay` | clients/internal/grpcbus/broker.go:105-112 | over every interleaving what was sent to a subscriber is what it received, in order, and what is unread |
| `Broker.SnapshotDecides` | clients/internal/grpcbus/broker.go:95-115 | who is live at the snapshot has the message in its log unless it was dropped, anybody else is never sent it, delivered + dropped is the snapshot's size |
| `Broker.DropsOnlyWhenFull` | clients/internal/grpcbus/broker.go:105-112 | a drop happened at a moment when that buffer was full |
| `Broker.SendAfterCancel` | clients/internal/grpcbus/broker.go:24-28 | a send after cancel is possible |
| `Broker.QuietForGood` | clients/internal/grpcbus/broker.go:74-88 | once cancelled, with no publish under way that has it to do, a subscriber is never targeted again |
| `Broker.SendsAfterCancelExactly` | clients/internal/grpcbus/broker.go:24-28 | over every interleaving: a cancelled subscriber can still be targeted, and reached, if and only if a publish under way has it still to do |
| `Broker.FanOut.Subscribe` | clients/internal/grpcbus/broker.go:61-72 | performs the subscribe step |
| `Broker.FanOut.Cancel` | clients/internal/grpcbus/broker.go:75-87 | performs the cancel step, once |
| `Broker.FanOut.Publish` | clients/internal/grpcbus/broker.go:95-115 | undisturbed, exactly the subscribers with room get the message behind their unread ones and are counted |
| `Pool.BuildClasses` | clients/internal/pool/pool.go:50-66 | the in-place dedupe yields exactly the given (or default) classes, increasing; it panics on the least class if not positive |
| `Pool.IncreasingUnique` | clients/internal/pool/pool.go:48-66 | which determines them: there is only one such list |
| `Pool.DefaultClasses` | clients/internal/pool/pool.go:17-20 | with none given they are 256 bytes to 1 MiB in steps of four |
| `Pool.Search` | clients/internal/pool/pool.go:78-84 | the first class that fits |
| `Pool.SearchIsRight` | clients/internal/pool/pool.go:86-88 | hence the least class at least n, or n above the top |
| `Pool.RunKeepsInv` | clients/internal/pool/pool.go:89-128 | every step of every run keeps exactness, ownership and conservation |
| `Pool.PoolSafety` | clients/internal/pool/pool.go:29-36 | over every run: pooled buffers have exactly their class's capacity, no pointer or backing array is held twice, pooled twice or both, and the counters account for every call |
| `Pool.GetHandsOut` | clients/internal/pool/pool.go:86-105 | in every run Get gives length n, the right capacity, and an array nobody else holds |
| `Pool.PutAccepts` | clients/internal/pool/pool.go:110-128 | accepted exactly when the capacity is a class, else one drop, oversize exactly above the top |
| `Pool.CountersMean` | clients/internal/pool/pool.go:89-128 | a hit or a miss is counted at the least class that fits, a drop at the least class above the capacity, and as oversize exactly when there is none |
| `Pool.NewBuffers` | clients/internal/pool/pool.go:50-74 | an empty pool over those classes, a panic exactly on a non-positive class |
| `Pool.Buffers.Get` | clients/internal/pool/pool.go:89-105 | performs a hit on what sync.Pool returns or a miss on a fresh array, and keeps the invariant |
| `Pool.Buffers.Put` | clients/internal/pool/pool.go:110-128 | performs the return or drop step, nothing for nil, and keeps the invariant |
| `Pool.Buffers.Stats` | clients/internal/pool/pool.go:148-160 | the counters class by class, and totals: hits + misses are the Gets, drops + accepted returns the non-nil Puts, hits never exceed accepted returns |
| `Pool.EncodeVT` | clients/internal/codec/codec.go:128-137 | the buffer of the hinted size is returned holding the encoding, never grown, still of the right capacity; on error it goes back and nothing is held |
| `Series.Series.Record` | clients/workloads/benchcli/drive.go:219-235 | one more outcome, counted as a success or under its kind |
| `Series.Series.DoOn` | clients/workloads/benchcli/drive.go:551-580 | every request folds in exactly one outcome: encode, transport, corrupt on a missing or different message id, or a success |
| `ClosedLoop.ClosedLoopIssuesEachOnce` | clients/workloads/benchcli/drive.go:367-388 | every interleaving: recorded and outstanding numbers are exactly those issued, progress until the end, which comes after exactly 2n + inflight steps with 0..n-1 each once |
| `ClosedLoop.RunClosed` | clients/workloads/benchcli/drive.go:367-388 | under any scheduling each number is sent once, and the successes counted are the requests that succeed |
| `OpenLoop.InstantsCount` | clients/workloads/benchcli/drive.go:408-412 | the instants before the deadline are duration / interval rounded up |
| `OpenLoop.OpenLoopDispatchesEachOnce` | clients/workloads/benchcli/drive.go:396-432 | every interleaving: at most inflight outstanding, no job owned twice, late <= dispatched, progress until the end, which comes after four moves per instant with each number recorded once |
| `OpenLoop.LateIsCounted` | clients/workloads/benchcli/drive.go:416-422 | in every interleaving the late counter is the number of requests handed on more than a millisecond behind their instant |
| `OpenLoop.RoomToPutBack` | clients/workloads/benchcli/drive.go:424-428 | putting a job back never blocks |
| `OpenLoop.OpenPass` | clients/workloads/benchcli/drive.go:396-432 | under any scheduling exactly one request per instant is sent and recorded, and exactly those behind by more than a millisecond are late |
| `Ramp.StepSustainable` | clients/workloads/benchcli/drive.go:440-448 | sustainable exactly within both bounds; the reason names the first one breached |
| `Ramp.HoldsMeans` | clients/workloads/benchcli/drive.go:483-493 | a step holds exactly when its p99 is at most ten floors, if there is one, and at most one request in a hundred was late; where the floor comes from |
| `Ramp.ElapsedIsTotal` | clients/workloads/benchcli/drive.go:480-480 | the reported time is that of all passes together |
| `Ramp.RunRamp` | clients/workloads/benchcli/drive.go:468-513 | for every measurement function: stops within 24 steps, at the first unsustainable one; knee, stop rate, reason, floor, elapsed time and reported series |
| `Ramp.MeasuredFloorStopsOnLate` | clients/workloads/benchcli/drive.go:484-498 | with a measured floor the first step can only fail on lateness |
| `Ramp.KneeSeparates` | clients/workloads/benchcli/drive.go:457-460 | if saturation persists under doubling, a step is sustainable exactly when its rate is at most the knee |
| `ClockProbe.RunProbe` | clients/workloads/benchcli/clockprobe.go:86-129 | offset and RTT of the first sample of least RTT, the number of successes, source and sync of the last one, and the error cases |
| `ClockProbe.SampleMeans` | clients/workloads/benchcli/clockprobe.go:134-145 | a round counts exactly when a reply came with all three timestamps; offset and RTT by the formulas |
| `ClockProbe.SuccessesCount` | clients/workloads/benchcli/clockprobe.go:111-116 | the number of successes is the number of such rounds |
| `ClockProbe.SampleBound` | clients/workloads/benchcli/clockprobe.go:134-145 | a sample's offset is within half its round trip plus one of the truth exactly when the doubled offset fits 64 bits, and exactly when the plus one is needed |
| `ClockProbe.OffsetWithinUncertainty` | clients/workloads/benchcli/clockprobe.go:86-129 | the reported offset and RTT are one actual minimal sample, and the true offset is within UncertaintyNs + 1 exactly when its doubled offset fits 64 bits |
| `ClockProbe.UncertaintyAloneIsTooSmall` | clients/workloads/benchcli/clockprobe.go:127-127 | a round in which the truth is outside UncertaintyNs |
| `Gaps.ParseSeqRecovers` | clients/internal/metrics/metrics.go:213-229 | the number appended to any text, even one ending in digits or spaces, is recovered |
| `Gaps.ParseSeqToken` | clients/internal/metrics/metrics.go:213-229 | the last token is parsed, whatever stands before it and whatever blanks follow |
| `Gaps.SpaceTable` | clients/internal/metrics/metrics.go:217-222 | which characters are white space |
| `Gaps.ParseSeqBlank` | clients/internal/metrics/metrics.go:217-220 | a blank body has no number |
| `Gaps.LastToken` | clients/internal/metrics/metrics.go:213-229 | every other body has a last token, so these are all the cases |
| `Gaps.ParseIntMeans` | clients/internal/metrics/metrics.go:224-227 | an optional sign, digits, and a value that fits 64 bits |
| `Gaps.DecimalIsBaseTen` | clients/internal/cli/cli.go:169-169 | the number appended is in base ten without leading zeros |
| `Gaps.DigitsMean` | clients/internal/metrics/metrics.go:224-227 | a digit string denotes the number with these digits, anything else none |
| `Gaps.PubLoop` | clients/internal/cli/cli.go:152-178 | the bodies sent, up to the first failing send, and the ordinal it reports |
| `Gaps.GapTracker.Observe` | clients/internal/metrics/metrics.go:249-272 | performs the specified observation, 64-bit wrap-around included |
| `Gaps.CountsAsDocumented` | clients/internal/metrics/metrics.go:231-241 | Observe returns what its documentation says if and only if the distance fits 64 bits and the baseline is not the largest int64, or is followed by the least |
| `Gaps.ObservedExactly` | clients/internal/metrics/metrics.go:249-272 | every return after the first: the documented one or one of three wrap-arounds |
| `Gaps.RecordsAsDocumented` | clients/internal/metrics/metrics.go:200-207 | the exact condition for the counter, which ignores what is not positive |
| `Gaps.WrapReturnsANegativeGap` | clients/internal/metrics/metrics.go:261-264 | after the largest int64 every natural number returns a negative gap |
| `Gaps.WrapCountsALowerNumber` | clients/internal/metrics/metrics.go:261-264 | a lower number counted as a huge gap |
| `Gaps.RecordReceived` | clients/internal/metrics/metrics.go:200-207 | counts the message and the positive gap of its number, if it has one |
| `Gaps.ReceiveMeans` | clients/internal/metrics/metrics.go:200-207 | a body without a number only counts as received; the first number only sets the baseline |
| `Gaps.GapsAreLosses` | clients/internal/metrics/metrics.go:200-272 | for any text and any in-order arrivals, duplicates allowed, the gap counter is the number of messages lost between the first and the last arrival |
| `Gaps.GapsPlusReceived` | clients/internal/metrics/metrics.go:200-272 | without duplicates, gaps + received = last - first + 1 |

## Left out

- Unknown fields: decoding appends them and encoding copies them, but their round trip is not stated, since it rests on `protohelpers.Skip`, which is not part of the repository.
- `clients/gen/go/rpc/v1/rpc_vtproto.pb.go` and the remaining generated messages: the same field kinds again.
- The layout of the other `AllTypes` fields, tag by tag: the same forms as in `Messages.BusLayout` and `Messages.EnvelopeLayout`.
- The distinction between nil and empty slices and maps, which the wire does not carry.
- Encodings of 2^63 bytes or more: the round trips require less, as Go's `int` lengths do.
- Two requests with one key handled at the same time: documented as not deduplicated; handling is one step.
- Service restarts in the guarantee itself: the cache is in memory, so at-most-once is per service life and ttl.
- EffectivelyOnce.EffectivelyOnce: does not follow a Correlator's removal and send as two steps; the interleavings are in `Correlator`.
- StreamDrain.CursorDrain: assumes the server answers a history read with a possibly empty list, never with the nil reply it gives to a timed-out read of new entries.
- The handlers of the Valkey responder (poison messages, missing client id) and its reply stream reader.
- Growth policy of the pool's counters past 2^64, of int64 sequence counters and of `time.Duration` products in the driver.
- Pool.Buffers.Put: callers return only what they hold; a double Put is outside the model.
- `Msg` pools, `NopBuffers`, ProtoJSON and its size cache, codec selection by name: only easy members.
- Histograms: a series counts outcomes; quantiles are what a measurement reports. Coordinated-omission correction is not modelled.
- Floating-point rates: the ramp's are exact reals, and the sender's interval is the already truncated quotient.
- Cold-start mode, flag validation, tracing, metrics export, report rendering and deployment material.
- Brokers themselves (NATS, RabbitMQ, MQTT, Valkey, gRPC), dialing and subscriptions, beyond the steps the loops need.
