# instauuid in Dafny

A model of `instauuid`, a generator of 64-bit Snowflake-style identifiers.
A `Generator` owns a 13-bit shard ID and an epoch. Each `GenerateID` call
reads the clock and compares the reading with `lastTimestamp`. It then
bumps or resets a 10-bit per-millisecond `sequence`, or waits for a later
millisecond. It packs `timestamp << 23 | shard << 10 | sequence` into one
`uint64`. Helpers render a fresh identifier as eight big-endian or
little-endian bytes, as lowercase hex, or as unpadded URL-safe base64.

Modules:

- `IdLayout` (layout.dfy): the constants and the bit layout. Packing
  truncates the shifted timestamp to 64 bits, as Go does. The fields are
  recovered by shifting and masking.
- `ByteOrder` (byteorder.dfy): `PutUint64` in both byte orders, the
  matching decoders, and the reversal between the two orders.
- `Hex` (hex.dfy) and `Base64` (base64.dfy): the text encodings (base 16
  and "base64url" of RFC 4648, sections 8 and 5, without the padding of
  section 3.2), each with a decoder and a round-trip proof.
- `Sequencer` (sequencer.dfy): the decision step of `GenerateID` as a pure
  function `Next` on (lastTimestamp, sequence). It also defines runs of
  successive calls and proves that their identifiers strictly increase.
- `Instauuid` (generator.dfy): the `Generator` class. Its methods update
  `lastTimestamp` and `sequence` in place and are proved against `Next`.
  `WaitNextMillis` is a loop over clock readings. `NewGenerator` returns
  an error result where the source panics.
- `Scenarios` (scenarios.dfy): the unit tests' claims, as verified clients.

The clock is an input. A call receives `now`, its first reading, and
`later`, the readings its wait loop takes one after another. Readings are
Unix milliseconds, and the generator subtracts its epoch from each. A call
that must wait requires that some later reading is past `lastTimestamp`,
so the loop ends.

Two behaviours of the code that the model reproduces as written:

- When the clock has gone backwards, the code does not wait until the
  clock catches up with `lastTimestamp` and then decide again. It waits
  for a strictly later millisecond and keeps the old `sequence` with it
  (instauuid.go:64-66). The sequence is therefore not reset every time
  the timestamp advances.
- The wait loop polls until the clock is strictly past the bound
  (instauuid.go:79).

## Model

| member | source | states |
|---|---|---|
| `IdLayout.ShiftTruncates` | instauuid.go:70 | `uint64(t) << 23` in 64 bits equals `(t mod 2^41) * 2^23`: the timestamp field wraps modulo 2^41 |
| `IdLayout.Pack` | instauuid.go:70-72 | the packed ID fits in 64 bits; its fields are stated by `UnpackPack` and `PackExact` |
| `IdLayout.UnpackPack` | instauuid.go:70-72 | a packed ID is below 2^64; `id >> 23` gives the timestamp mod 2^41, `(id >> 10) & 8191` the shard, `id & 1023` the sequence |
| `IdLayout.PackExact` | instauuid.go:14-19 | for a timestamp below 2^41 the ID is exactly `ts*2^23 + shard*2^10 + seq`, and `id >> 23` is the timestamp |
| `IdLayout.PackExample` | instauuid.go:70-72 | T=100, S=5, Q=7 packs to 838865927, the bitwise OR of `100<<23`, `5<<10` and `7` |
| `IdLayout.PackInjective` | instauuid.go:70-72 | with 41-bit timestamps, equal IDs have equal timestamp, shard and sequence |
| `IdLayout.PackMonotonic` | instauuid.go:70-72 | for one shard, a lexicographically later (timestamp, sequence) gives a strictly larger ID |
| `IdLayout.ShardsDiffer` | instauuid_test.go:82-92 | IDs of different shards differ after `>> 10`, whatever their timestamps and sequences |
| `ByteOrder.PutUint64BE` | instauuid.go:113-114 | the big-endian buffer has 8 bytes and decodes back to the ID |
| `ByteOrder.PutUint64LE` | instauuid.go:105-106 | the little-endian buffer has 8 bytes, decodes back to the ID, and reversed is the big-endian buffer |
| `ByteOrder.FromBigEndian` | instauuid.go:114 | a big-endian decoding of n bytes is below 256^n |
| `ByteOrder.FromLittleEndian` | instauuid.go:106 | a little-endian decoding of n bytes is below 256^n |
| `ByteOrder.FromBigEndianOfBigEndian` | instauuid.go:114 | decoding the n big-endian bytes of x < 256^n gives x |
| `ByteOrder.BigEndianOfFromBigEndian` | instauuid.go:114 | encoding the decoding of a byte string gives the same bytes |
| `ByteOrder.FromLittleEndianOfLittleEndian` | instauuid.go:106 | decoding the n little-endian bytes of x < 256^n gives x |
| `ByteOrder.LittleEndianOfFromLittleEndian` | instauuid.go:106 | encoding the decoding of a byte string gives the same bytes |
| `ByteOrder.BigEndianIsReversedLittleEndian` | instauuid.go:102-116 | for every x and n, the big-endian bytes are the little-endian bytes reversed |
| `Hex.Encode` | instauuid.go:99 | two characters per byte, all lowercase hex digits |
| `Hex.Decode` | instauuid_test.go:43 | decoding succeeds exactly when the text has even length and every character is a hex digit of either case; it then gives half as many bytes as characters |
| `Hex.DecodeEncode` | instauuid_test.go:43-45 | the hex text of any bytes decodes back to those bytes |
| `Hex.EncodeDecode` | instauuid.go:99 | lowercase hex text of even length decodes, and re-encodes to the same text |
| `Base64.Char` | instauuid.go:91 | each 6-bit value maps to a base64url character that reads back as that value |
| `Base64.Encode` | instauuid.go:91 | n bytes give `(8n+5)/6` characters (11 for an ID); the text is canonical: all base64url characters, never one leftover character, and the unused low bits of the last character zero |
| `Base64.FromCharsToChars` | instauuid.go:91 | writing six-bit digits as alphabet characters and reading them back gives the digits |
| `Base64.FromSextetsOf` | instauuid.go:91 | splitting bytes into six-bit digits (four per three bytes, two or three for a short last group) and regrouping gives the bytes |
| `Base64.Decode` | instauuid_test.go:39-41 | decoding fails exactly on a character outside the base64url alphabet or a single leftover character; n characters otherwise give `6n/8` bytes |
| `Base64.DecodeEncode` | instauuid_test.go:39-41 | the unpadded base64url text of any bytes decodes back to those bytes |
| `Base64.EncodeDecode` | instauuid.go:91 | canonical text decodes, and encoding the result gives the same text, so the encoding of an ID is the only canonical text for it |
| `Sequencer.FirstAfter` | instauuid.go:78-82 | the wait loop stops at the first later reading past the bound; every earlier one is not past it |
| `Sequencer.NextMillis` | instauuid.go:77-84 | the timestamp `waitNextMillis` returns is strictly greater than its argument |
| `Sequencer.Next` | instauuid.go:55-68 | no contract of its own; `NextCases` states its four branches and `NextAdvances` that it keeps the state valid and moves strictly forward |
| `Sequencer.NextCases` | instauuid.go:57-68 | same ms: sequence+1 at the same timestamp, or after 1023 a wrap to 0 at a later timestamp; advanced clock: sequence 0 at the new timestamp; regressed clock: later timestamp, same sequence |
| `Sequencer.NextAdvances` | instauuid.go:57-68 | each step keeps the sequence within 10 bits and the timestamp within 41, and moves (lastTimestamp, sequence) strictly forward |
| `Sequencer.Trace` | instauuid.go:51-75 | the states of a run of calls are all valid, and each strictly follows the one before |
| `Sequencer.TraceOrdered` | instauuid.go:57-68 | every state of a run strictly follows every earlier one |
| `Sequencer.Ids` | instauuid.go:70-72 | the ID of each state of a run is the packing of its timestamp, the shard and its sequence |
| `Sequencer.IdsIncrease` | instauuid_test.go:17-30 | the IDs of successive calls on one generator strictly increase, so they are pairwise distinct |
| `Instauuid.Generator.constructor` | instauuid.go:37-46 | the stored shard ID is the argument; epoch 0 becomes 1314220021721 and any other epoch is kept; timestamp and sequence start at 0 |
| `Instauuid.NewGenerator` | instauuid.go:32-48 | fails exactly when the shard ID exceeds 8191, and otherwise returns a fresh generator as the constructor builds it |
| `Instauuid.Generator.WaitNextMillis` | instauuid.go:77-84 | the loop returns a timestamp strictly greater than its argument: the first reading past it |
| `Instauuid.Generator.GenerateID` | instauuid.go:51-75 | the new (lastTimestamp, sequence) is `Next` of the old and strictly after it; the state stays valid; shard and epoch do not change; the ID packs the new state exactly |
| `Instauuid.Generator.GenerateBufferBE` | instauuid.go:110-116 | one `GenerateID` step; 8 bytes whose big-endian value is the new ID |
| `Instauuid.Generator.GenerateBuffer` | instauuid.go:102-108 | one `GenerateID` step; 8 bytes whose little-endian value is the new ID, the reverse of the big-endian buffer |
| `Instauuid.Generator.GenerateHex` | instauuid.go:94-100 | one `GenerateID` step; 16 lowercase hex digits that decode to the big-endian bytes of the new ID |
| `Instauuid.Generator.GenerateBase64` | instauuid.go:86-92 | one `GenerateID` step; 11 canonical base64url characters that decode to the big-endian bytes of the new ID |
| `Scenarios.IdUniqueness` | instauuid_test.go:17-30 | a shard-1 generator with the default epoch issues strictly increasing IDs over any feasible run of calls |
| `Scenarios.SequenceOverflow` | instauuid_test.go:67-80 | with the sequence forced to 1023, the next two IDs differ, and the first has a timestamp past 0 |
| `Scenarios.ShardIdConsistency` | instauuid_test.go:82-92 | IDs from shards 1 and 2 carry their own shard fields and differ after `>> 10` |

## Left out

- The mutex (instauuid.go:28, 52-53). Each `GenerateID` is one atomic step; concurrent callers are not modelled.
- `time.Now()` and `time.Sleep` (instauuid.go:55, 78-81). Clock readings are parameters, and the 100 µs sleep has no observable effect.
- The panic message text (instauuid.go:34). The panic becomes the `ShardIDExceedsMax(8191)` error of `NewGenerator`, and the constructor requires an in-range shard ID.
- Instauuid.Generator.GenerateID: requires every clock reading of the call to lie less than 2^41 ms after the epoch. The source does not check this. Beyond it, `uint64(timestamp) << 23` wraps (`IdLayout.ShiftTruncates` states how), and IDs would no longer increase.
- Overflow of the int64 subtraction `time.Now().UnixMilli() - g.epoch` is not modelled. Readings and epochs are unbounded integers.
- The `uint32` width of `sequence` is not modelled. The sequence is a natural number kept at or below 1023.
- `Hex.Decode` and `Base64.Decode` stand for Go's `hex.DecodeString` and `base64.RawURLEncoding.DecodeString`. They report one undistinguished error. The base64 decoder does not skip `\r` and `\n` as Go's does.
- The throughput benchmark and the timing test (instauuid_test.go:10-15, 49-65). They measure speed, which is not a property of the model.

## Notes

- As written, `TestSequenceOverflow` (instauuid_test.go:67-80) probably does not reach the wrap-around path. Its generator starts with `lastTimestamp = 0`, while the clock is years past the epoch. So the first call takes the advanced-clock branch and resets the sequence. `Scenarios.SequenceOverflow` covers every clock behaviour, including a first reading equal to the last timestamp, which does wrap.
