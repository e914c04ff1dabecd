# redux-persist-expire-in, modelled in Dafny

`persistExpire` builds a transform for the redux-persist state-persistence
engine. The transform expires one slice of application state after a set
number of seconds. It is a pair of callbacks:

- the write callback wraps the slice in an envelope `{ state, persistTime }`,
  where `persistTime` is the clock reading in milliseconds;
- the read callback unwraps the envelope. If strictly more than
  `secondUntilExpire` seconds have passed since `persistTime`, it returns the
  configured `stateAfterExpire`. Otherwise it returns the stored `state`.

The pair is registered with a one-element whitelist, so it acts only on the
key `persistAt`.

The model is in `expire_in.dfy`, in module `ExpireIn`. The state type is a
type parameter `PS`. The caller's configuration is the datatype
`ExpireConfig` and the envelope is `InboundStructure`. The clock is never
read: the write and the read each take the reading as a parameter `now`.

The source divides the elapsed milliseconds by 1000 as floating point. The
model does the same division on exact reals (`DurationInSeconds`,
`IsExpired`). It also proves that this test agrees with the test that avoids
the division: the elapsed milliseconds exceed `1000 * secondUntilExpire`
(`ElapsedMillisExceed`).

The source registers the pair through redux-persist's `createTransform`. The
engine applies the write callback to a whitelisted key and leaves every
other key as it is; it does the same with the read callback. The model
writes this rule out as `ScopedOutbound` and `ScopedInbound`. It then
applies them over a key-to-value state map (`PersistTree`, `RehydrateTree`).
A value in the stored tree is either `Bare` (as given) or `Stamped` (in an
envelope).

After a rehydrate, the engine stores the restored state again, so a read
can be followed by a new write. `ReadRewrite` models a series of such
read-then-write cycles. Each rewrite is taken to happen at the time of its
read; in the engine the new write comes when the rehydrate has finished, at
or after that time. The lemma beside it proves that expiry counts from the
latest write, not the first one.

Redux-persist names the callbacks from the store's side: its "inbound"
callback runs on the way into storage, which is why the source's write
callback calls its argument `inboundState`. The model follows the direction
of the data instead. `Outbound` is the write (state to envelope) and
`Inbound` is the read (envelope to state).

## Model

| member | source | states |
|---|---|---|
| `ExpireIn.Outbound` | src/index.ts:29-32 | the envelope holds the given state unchanged, and its `persistTime` is the clock reading at the write |
| `ExpireIn.DurationInSeconds` | src/index.ts:35 | the duration times 1000 is exactly the elapsed milliseconds between write and read |
| `ExpireIn.Inbound` | src/index.ts:33-41 | the result is either the stored state or `stateAfterExpire`, nothing else; it is `stateAfterExpire` when the elapsed milliseconds exceed `1000 * secondUntilExpire`, and the stored state otherwise |
| `ExpireIn.IsExpired` | src/index.ts:35-37 | the read callback's test "elapsed ms / 1000 > secondUntilExpire" holds exactly when "elapsed ms > 1000 * secondUntilExpire" does |
| `ExpireIn.ExpiredIffWholeSeconds` | src/index.ts:35-37 | when the threshold is a whole number of seconds `k`, the test is the integer comparison "elapsed ms > 1000 * k" |
| `ExpireIn.ExpiredStaysExpired` | src/index.ts:34-38 | an envelope that is stale when read at `t1` is stale at every later read time `t2 >= t1`, and reading it then gives `stateAfterExpire` |
| `ExpireIn.ExpiredIffAtOrAfterExpiryInstant` | src/index.ts:34-40 | with millisecond clocks, reading gives the stored state at every time before `persistTime + floor(1000 * secondUntilExpire) + 1` and `stateAfterExpire` at every time from then on |
| `ExpireIn.ZeroThresholdExpiresAnyPositiveElapsed` | src/index.ts:37-38 | with `secondUntilExpire = 0`, any positive elapsed time expires the state (in both directions), and a read in the same millisecond keeps it |
| `ExpireIn.RoundTripFresh` | src/index.ts:29-40 | reading at `t1` what was written at `t0`, with `t1 - t0 <= 1000 * secondUntilExpire`, returns the written state |
| `ExpireIn.RoundTripExpired` | src/index.ts:29-38 | reading at `t1` what was written at `t0`, with `t1 - t0 > 1000 * secondUntilExpire`, returns `stateAfterExpire` |
| `ExpireIn.BoundaryIsNotExpired` | src/index.ts:37-40 | when exactly `secondUntilExpire` seconds have passed, the envelope is not stale and the written state comes back (the comparison is strict) |
| `ExpireIn.ReadRewrite` | src/index.ts:29-41 | after read-then-write cycles, the envelope's `persistTime` is the last cycle's time, and its state is the original state or `stateAfterExpire` |
| `ExpireIn.ReadRewriteKeepsStateIffAllGapsFresh` | src/index.ts:29-41 | after read-then-write cycles, the final state is the original state when no gap between consecutive stamps exceeds the threshold, and `stateAfterExpire` otherwise |
| `ExpireIn.PersistExpire` | src/index.ts:23-43 | the transform keeps the caller's configuration, and a key is in its whitelist exactly when it is `persistAt` |
| `ExpireIn.ScopedOutbound` | src/index.ts:29-42 | under a whitelisted key the value is stored in an envelope holding it unchanged, stamped with the write time; under any other key it is stored as given |
| `ExpireIn.ScopedInbound` | src/index.ts:33-42 | under a key outside the whitelist the stored value is passed on unchanged; an envelope under a whitelisted key becomes its state, or `stateAfterExpire` when the elapsed milliseconds exceed `1000 * secondUntilExpire`; a value that is not an envelope is passed on unchanged |
| `ExpireIn.PersistTree` | src/index.ts:28-42 | the stored tree has the same keys as the state tree |
| `ExpireIn.RehydrateTree` | src/index.ts:28-42 | the rehydrated tree has the same keys as the stored tree |
| `ExpireIn.PersistTreeWrapsOnlyPersistAt` | src/index.ts:29-42 | writing a tree through the factory's pair stamps only the `persistAt` entry, with the write time, and stores every other entry as given |
| `ExpireIn.RehydrateTreeUnwrapsOnlyPersistAt` | src/index.ts:33-42 | reading any stored tree through the factory's pair keeps its keys, turns an envelope at `persistAt` into the read callback's result, and passes every other key's stored value on unchanged, including an envelope under another key |
| `ExpireIn.TreeRoundTrip` | src/index.ts:29-42 | a write at `t0` and a read at `t1` return every key other than `persistAt` unchanged; `persistAt` comes back as the written state or as `stateAfterExpire`, depending on the elapsed time |

## Left out

- The wall-clock reads (`new Date().getTime()`) are I/O. Each one becomes an explicit millisecond parameter.
- The double-precision division and comparison use exact real arithmetic instead. The model has no rounding, no `Infinity` and no `NaN`. The threshold may still be fractional or negative, as a JavaScript number may be.
- `createTransform` and redux-persist's storage, serialization, rehydration ordering and transform pipeline belong to a library that is not part of this model. Only the whitelist rule the engine applies to the pair is modelled (`ScopedOutbound`, `ScopedInbound`, and their use over a state map).
- Malformed or missing envelope fields are untyped JavaScript behaviour: they leave `undefined` and `NaN` in the arithmetic. The envelope datatype is well-formed by construction, and `persistTime` is an integer, as a `Date` reading is.
- ScopedInbound: a whitelisted key whose stored value is not an envelope is passed on unchanged. In `persistExpire` the read callback destructures that value anyway, and the outcome depends on the value. The subtraction at src/index.ts:35 first converts the destructured `persistTime` by JavaScript's number conversion, and the outcome follows that conversion. When the conversion is `NaN` (a missing field, a plain object, a non-numeric string), the test `NaN > secondUntilExpire` is false, so the callback returns the value's `state` field (`undefined` when it has none). When it gives a number (a number, a numeric string, `null` as 0, a boolean as 1 or 0, an empty or one-number array), the value is read as an envelope with that timestamp. A stored `null` or `undefined` as the whole value makes the destructuring throw a `TypeError`. The model's types cannot express these cases.
- The unused `key` argument that the engine passes to the read callback is not modelled.
