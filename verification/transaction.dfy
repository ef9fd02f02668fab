/**
 * Transactions, blocks' hashing and the clock's wire format are outside
 * the modelled core (transaction.cc, utils.cc and the double layout are
 * not part of this model).  They enter as an environment of functions,
 * with the few facts the core relies on stated as hypotheses.
 */
module Transactions {
  import opened Bytes

  /** A 32-byte digest: what `hashing(serie, HASH_SIZE)` returns. */
  type Digest = s: Bytes | |s| == 32 witness seq(32, _ => 0)

  /** The 8 bytes of a double as memcpy copies them. */
  type Word64 = s: Bytes | |s| == 8 witness seq(8, _ => 0)

  /** Simulation time in seconds (a double in the source). */
  type Time = real

  /** `(int)t`: a time truncated toward zero to whole seconds. */
  function Seconds(t: Time): (r: int)
    ensures t >= 0.0 ==> r as real <= t < r as real + 1.0
    ensures t < 0.0 ==> r as real - 1.0 < t <= r as real
  {
    if t >= 0.0 then t.Floor else -((-t).Floor)
  }

  /** `Transaction`: its hash, its declared size, its creation time and its payload. */
  datatype Transaction = Transaction(hash: Bytes, size: Int32, timestamp: Time, payload: Bytes)

  datatype Env = Env(
    /** `hashing(serie, HASH_SIZE)`. */
    digest: Bytes -> Digest,
    /** `Transaction::Serialize`. */
    txSerialize: Transaction -> Bytes,
    /** `Transaction(const string &serie)`, reading from the front of a buffer. */
    txParse: Bytes -> Transaction,
    /** A blank transaction after `SetPayload(p)` and `SetTimestamp(ts)`. */
    txMake: (Bytes, Time) -> Transaction,
    /** A double copied into 8 bytes, and back. */
    timeEncode: Time -> Word64,
    timeDecode: Word64 -> Time)

  /** A serialised transaction is read back whatever follows it. */
  ghost predicate TxSelfDelimiting(env: Env)
  {
    forall t: Transaction, rest: Bytes :: env.txParse(env.txSerialize(t) + rest) == t
  }

  /** Timestamps survive their 8-byte copy. */
  ghost predicate TimeRoundTrips(env: Env)
  {
    forall t: Time :: env.timeDecode(env.timeEncode(t)) == t
  }

  /** A made transaction carries the payload and timestamp it was given. */
  ghost predicate MakeKeepsFields(env: Env)
  {
    forall p: Bytes, ts: Time :: env.txMake(p, ts).payload == p && env.txMake(p, ts).timestamp == ts
  }

  /** The declared size of a transaction is the length of its serialised form. */
  predicate WireSized(env: Env, t: Transaction)
  {
    t.size as int == |env.txSerialize(t)|
  }
}
