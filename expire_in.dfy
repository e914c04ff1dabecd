/** A model of `persistExpire`: a pair of persistence callbacks that stamp one
    slice of application state with its write time, and on read-back replace it
    by a fallback once more than a configured number of seconds has passed.

    The wall clock is not read here: each callback that reads it in
    `persistExpire` takes the reading, in milliseconds since the epoch, as `now`. */
module ExpireIn {

  /** The caller's configuration: the one state key the transform applies to,
      how long a persisted value stays valid, and what replaces it afterwards.
      The threshold is a JavaScript number, so it may be fractional or negative. */
  datatype ExpireConfig<PS> = ExpireConfig(
    persistAt: string,
    secondUntilExpire: real,
    stateAfterExpire: PS)

  /** The envelope written to storage for the scoped key. `persistTime` is a
      millisecond timestamp, as a JavaScript `Date` gives it. */
  datatype InboundStructure<PS> = InboundStructure(state: PS, persistTime: int)

  /** A value as it sits in the persisted tree: as the application gave it, or
      wrapped in an envelope by the write callback. */
  datatype Stored<PS> = Bare(value: PS) | Stamped(envelope: InboundStructure<PS>)

  /** What the factory returns: the configuration the two callbacks close over
      and the whitelist the pair is registered with. */
  datatype Transform<PS> = Transform(config: ExpireConfig<PS>, whitelist: seq<string>)

  // ---------------------------------------------------------------------------
  // The two callbacks
  // ---------------------------------------------------------------------------

  /** The write callback: wrap the state with the clock reading taken at the write. */
  function Outbound<PS>(inboundState: PS, now: int): (e: InboundStructure<PS>)
    ensures e.state == inboundState
    ensures e.persistTime == now
  {
    InboundStructure(inboundState, now)
  }

  /** Seconds elapsed between the write at `persistTime` and the read at
      `endTime`, both in milliseconds; exact, where `persistExpire` divides floats. */
  function DurationInSeconds(persistTime: int, endTime: int): (d: real)
    ensures d * 1000.0 == (endTime - persistTime) as real
  {
    (endTime - persistTime) as real / 1000.0
  }

  /** The expiry test of `persistExpire`'s read callback: strictly more seconds
      have passed than allowed. Dividing the elapsed milliseconds by a thousand
      and comparing with the threshold decides the same as the division-free
      reference test. */
  predicate IsExpired<PS>(config: ExpireConfig<PS>, envelope: InboundStructure<PS>, now: int)
    ensures IsExpired(config, envelope, now) <==> ElapsedMillisExceed(config, envelope.persistTime, now)
  {
    DurationInSeconds(envelope.persistTime, now) > config.secondUntilExpire
  }

  /** A reference form of the same test on scaled quantities, with no division:
      the elapsed milliseconds exceed a thousand times the threshold. */
  predicate ElapsedMillisExceed<PS>(config: ExpireConfig<PS>, persistTime: int, now: int) {
    (now - persistTime) as real > 1000.0 * config.secondUntilExpire
  }

  /** The read callback: unwrap the envelope, or give the fallback when it is stale.
      The result is one of the two allowed values, and which one is decided by
      the division-free reference test. */
  function Inbound<PS>(config: ExpireConfig<PS>, envelope: InboundStructure<PS>, now: int): (r: PS)
    ensures r == config.stateAfterExpire || r == envelope.state
    ensures ElapsedMillisExceed(config, envelope.persistTime, now) ==> r == config.stateAfterExpire
    ensures !ElapsedMillisExceed(config, envelope.persistTime, now) ==> r == envelope.state
  {
    if IsExpired(config, envelope, now) then config.stateAfterExpire else envelope.state
  }

  // ---------------------------------------------------------------------------
  // The expiry test
  // ---------------------------------------------------------------------------

  /** With a whole number of seconds as the threshold the test is a comparison
      of integers: the elapsed milliseconds exceed `1000 * seconds`. */
  lemma ExpiredIffWholeSeconds<PS>(config: ExpireConfig<PS>, envelope: InboundStructure<PS>, now: int, seconds: int)
    requires config.secondUntilExpire == seconds as real
    ensures IsExpired(config, envelope, now) <==> now - envelope.persistTime > 1000 * seconds
  {
  }

  /** Reading never un-expires an envelope: once stale at `t1`, it is stale at
      every later read time. */
  lemma ExpiredStaysExpired<PS>(config: ExpireConfig<PS>, envelope: InboundStructure<PS>, t1: int, t2: int)
    requires t1 <= t2
    requires IsExpired(config, envelope, t1)
    ensures IsExpired(config, envelope, t2)
    ensures Inbound(config, envelope, t2) == config.stateAfterExpire
  {
  }

  /** The first read time, in milliseconds, at which the envelope is stale. */
  function ExpiryInstant<PS>(config: ExpireConfig<PS>, envelope: InboundStructure<PS>): int {
    envelope.persistTime + (1000.0 * config.secondUntilExpire).Floor + 1
  }

  /** On integer millisecond clocks the stored state survives every read before
      `ExpiryInstant` and is replaced at every read from that instant on. */
  lemma ExpiredIffAtOrAfterExpiryInstant<PS>(config: ExpireConfig<PS>, envelope: InboundStructure<PS>, now: int)
    ensures IsExpired(config, envelope, now) <==> now >= ExpiryInstant(config, envelope)
    ensures now < ExpiryInstant(config, envelope) ==> Inbound(config, envelope, now) == envelope.state
    ensures now >= ExpiryInstant(config, envelope) ==> Inbound(config, envelope, now) == config.stateAfterExpire
  {
  }

  /** A zero threshold expires the state after any positive elapsed time, and
      keeps it when read in the same millisecond. */
  lemma ZeroThresholdExpiresAnyPositiveElapsed<PS>(config: ExpireConfig<PS>, envelope: InboundStructure<PS>, now: int)
    requires config.secondUntilExpire == 0.0
    ensures now > envelope.persistTime <==> IsExpired(config, envelope, now)
    ensures now > envelope.persistTime ==> Inbound(config, envelope, now) == config.stateAfterExpire
    ensures now == envelope.persistTime ==> Inbound(config, envelope, now) == envelope.state
  {
  }

  // ---------------------------------------------------------------------------
  // Write then read
  // ---------------------------------------------------------------------------

  /** Reading back what was written at `t0`, at a time `t1` no more than the
      threshold later, gives the written state. */
  lemma RoundTripFresh<PS>(config: ExpireConfig<PS>, s: PS, t0: int, t1: int)
    requires (t1 - t0) as real <= 1000.0 * config.secondUntilExpire
    ensures Inbound(config, Outbound(s, t0), t1) == s
  {
  }

  /** Reading back what was written at `t0`, at a time `t1` more than the
      threshold later, gives the fallback. */
  lemma RoundTripExpired<PS>(config: ExpireConfig<PS>, s: PS, t0: int, t1: int)
    requires (t1 - t0) as real > 1000.0 * config.secondUntilExpire
    ensures Inbound(config, Outbound(s, t0), t1) == config.stateAfterExpire
  {
  }

  /** At exactly the threshold the state is kept: the comparison is strict. */
  lemma BoundaryIsNotExpired<PS>(config: ExpireConfig<PS>, s: PS, t0: int, t1: int)
    requires DurationInSeconds(t0, t1) == config.secondUntilExpire
    ensures !IsExpired(config, Outbound(s, t0), t1)
    ensures Inbound(config, Outbound(s, t0), t1) == s
  {
  }

  // ---------------------------------------------------------------------------
  // Reading back and writing again
  // ---------------------------------------------------------------------------

  /** The envelope after each of `times` in turn reads the stored envelope and
      writes the value it got straight back, as happens when the restored state
      is persisted again. Every rewrite stamps the envelope with that read's time. */
  function ReadRewrite<PS>(config: ExpireConfig<PS>, envelope: InboundStructure<PS>, times: seq<int>): (e: InboundStructure<PS>)
    ensures e.persistTime == if times == [] then envelope.persistTime else times[|times| - 1]
    ensures e.state == envelope.state || e.state == config.stateAfterExpire
    decreases |times|
  {
    if times == [] then envelope
    else ReadRewrite(config, Outbound(Inbound(config, envelope, times[0]), times[0]), times[1..])
  }

  /** No read in the sequence comes more than the threshold after the write before it. */
  predicate AllGapsFresh<PS>(config: ExpireConfig<PS>, persistTime: int, times: seq<int>)
    decreases |times|
  {
    times == [] ||
    (!ElapsedMillisExceed(config, persistTime, times[0]) && AllGapsFresh(config, times[0], times[1..]))
  }

  /** Expiry is measured from the latest write, not the first: after any
      number of read/rewrite cycles the stored state is the original state when
      no gap between consecutive stamps exceeds the threshold, and the fallback
      otherwise, whether the gaps after the first stale one are fresh or stale. */
  lemma {:induction false} ReadRewriteKeepsStateIffAllGapsFresh<PS>(
    config: ExpireConfig<PS>, envelope: InboundStructure<PS>, times: seq<int>)
    ensures ReadRewrite(config, envelope, times).state
         == if AllGapsFresh(config, envelope.persistTime, times) then envelope.state else config.stateAfterExpire
    decreases |times|
  {
    if times != [] {
      var next := Outbound(Inbound(config, envelope, times[0]), times[0]);
      ReadRewriteKeepsStateIffAllGapsFresh(config, next, times[1..]);
      if !ElapsedMillisExceed(config, envelope.persistTime, times[0]) {
        assert next.state == envelope.state;
      } else {
        assert next.state == config.stateAfterExpire;
      }
    }
  }

  // ---------------------------------------------------------------------------
  // Scoping to one key
  // ---------------------------------------------------------------------------

  /** The factory: both callbacks close over the configuration, and the pair
      is registered for the single key `persistAt`. */
  function PersistExpire<PS>(config: ExpireConfig<PS>): (t: Transform<PS>)
    ensures t.config == config
    ensures forall key :: key in t.whitelist <==> key == config.persistAt
  {
    Transform(config, [config.persistAt])
  }

  /** The write callback as registered: applied to a whitelisted key, and the
      identity on every other key. */
  function ScopedOutbound<PS>(t: Transform<PS>, key: string, s: PS, now: int): (v: Stored<PS>)
    ensures key in t.whitelist ==> v.Stamped? && v.envelope.state == s && v.envelope.persistTime == now
    ensures key !in t.whitelist ==> v == Bare(s)
  {
    if key in t.whitelist then Stamped(Outbound(s, now)) else Bare(s)
  }

  /** The read callback as registered: an envelope under a whitelisted key is
      unwrapped, and every other stored value is passed through untouched.
      An unwrapped envelope gives the stored state or, once stale, the fallback. */
  function ScopedInbound<PS>(t: Transform<PS>, key: string, v: Stored<PS>, now: int): (w: Stored<PS>)
    ensures key !in t.whitelist ==> w == v
    ensures v.Bare? ==> w == v
    ensures key in t.whitelist && v.Stamped? ==>
      w == Bare(if ElapsedMillisExceed(t.config, v.envelope.persistTime, now)
                then t.config.stateAfterExpire else v.envelope.state)
  {
    if key in t.whitelist && v.Stamped? then Bare(Inbound(t.config, v.envelope, now)) else v
  }

  /** Writing a whole state tree: every key is handed to the write callback. */
  function PersistTree<PS>(t: Transform<PS>, tree: map<string, PS>, now: int): (stored: map<string, Stored<PS>>)
    ensures stored.Keys == tree.Keys
  {
    map key | key in tree :: ScopedOutbound(t, key, tree[key], now)
  }

  /** Reading a whole stored tree back: every key is handed to the read callback. */
  function RehydrateTree<PS>(t: Transform<PS>, stored: map<string, Stored<PS>>, now: int): (tree: map<string, Stored<PS>>)
    ensures tree.Keys == stored.Keys
  {
    map key | key in stored :: ScopedInbound(t, key, stored[key], now)
  }

  /** What reading back gives for one key of a tree written at `t0` and read at `t1`. */
  function Expected<PS>(config: ExpireConfig<PS>, key: string, s: PS, t0: int, t1: int): Stored<PS> {
    if key == config.persistAt && ElapsedMillisExceed(config, t0, t1) then Bare(config.stateAfterExpire) else Bare(s)
  }

  /** Writing a tree through the factory's pair wraps only the entry at
      `persistAt`, stamped with the write time; every other entry is stored as given. */
  lemma PersistTreeWrapsOnlyPersistAt<PS>(config: ExpireConfig<PS>, tree: map<string, PS>, now: int)
    ensures var stored := PersistTree(PersistExpire(config), tree, now);
      && stored.Keys == tree.Keys
      && (config.persistAt in tree ==> stored[config.persistAt] == Stamped(InboundStructure(tree[config.persistAt], now)))
      && forall key :: key in tree && key != config.persistAt ==> stored[key] == Bare(tree[key])
  {
  }

  /** Reading any stored tree back through the factory's pair unwraps only an
      envelope at `persistAt`; every other entry, an envelope under another key
      included, is passed on as stored. */
  lemma RehydrateTreeUnwrapsOnlyPersistAt<PS>(config: ExpireConfig<PS>, stored: map<string, Stored<PS>>, now: int)
    ensures var tree := RehydrateTree(PersistExpire(config), stored, now);
      && tree.Keys == stored.Keys
      && (config.persistAt in stored && stored[config.persistAt].Stamped? ==>
            tree[config.persistAt] == Bare(Inbound(config, stored[config.persistAt].envelope, now)))
      && forall key :: key in stored && key != config.persistAt ==> tree[key] == stored[key]
  {
  }

  /** A write/read cycle through the factory's pair gives every key other than
      `persistAt` back unchanged, and for `persistAt` the written state or the
      fallback according to the elapsed time. */
  lemma TreeRoundTrip<PS>(config: ExpireConfig<PS>, tree: map<string, PS>, t0: int, t1: int)
    ensures RehydrateTree(PersistExpire(config), PersistTree(PersistExpire(config), tree, t0), t1)
         == map key | key in tree :: Expected(config, key, tree[key], t0, t1)
  {
  }
}
