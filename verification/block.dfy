/**
 * `Block`: a block of the blockgraph, its constructors, setters, hash
 * computation, wire format and relations.
 *
 * The serialised header is the in-memory `block_t` record: the timestamp
 * at offset 0, the int fields size, index, leader, parents_count,
 * tx_count and blockType at offsets 8 to 28, the group id at 32 and the
 * hash at 64, 96 bytes in all.  The parents' hashes and the serialised
 * transactions follow.
 */
module Blocks {
  import opened Bytes
  import opened Wrappers
  import opened Faults
  import opened Transactions

  const HASH_SIZE: nat := 32
  const REG_BLOCK: Int32 := 0
  const MERGE_BLOCK: Int32 := 1
  /** `sizeof(block_t)`. */
  const HEADER_WIRE_SIZE: nat := 96
  /** Padding bytes of the explicit constructor (`'1'` for the hash, `'0'` for the group id). */
  const HASH_FILL: Byte := 0x31
  const GROUP_FILL: Byte := 0x30

  datatype Block = Block(
    hash: Bytes,
    index: Int32,
    leader: Int32,
    blockType: Int32,
    groupId: Bytes,
    parents: seq<Bytes>,
    timestamp: Time,
    transactions: seq<Transaction>,
    size: Int32)

  function Zeros(n: nat): (r: Bytes)
    ensures |r| == n
  {
    Fill(n, 0)
  }

  /** `CalculateHeaderSize`: two hashes, four ints, the timestamp and 32 bytes per parent. */
  function CalculateHeaderSize(parents: seq<Bytes>): (r: int)
  {
    HASH_SIZE + 4 * 4 + 8 + HASH_SIZE + |parents| * HASH_SIZE
  }

  /** `CalculeTxsSize`: the sum of the transactions' declared sizes. */
  function CalculeTxsSize(txs: seq<Transaction>): (r: int)
  {
    if |txs| == 0 then 0 else txs[0].size as int + CalculeTxsSize(txs[1..])
  }

  /** `CalculateSize`, as an unbounded integer. */
  function CalculateSize(b: Block): (r: int)
  {
    CalculateHeaderSize(b.parents) + CalculeTxsSize(b.transactions)
  }

  /** The value `size = CalculateSize()` leaves in the int field. */
  function SizeField(b: Block): (r: Int32)
  {
    Wrap32(CalculateSize(b))
  }

  /** Whether the fixed-width fields have the width the header copies. */
  predicate Serialisable(b: Block)
  {
    |b.hash| == HASH_SIZE && |b.groupId| == HASH_SIZE
  }

  function SerializeHeader(b: Block, env: Env): (r: Bytes)
    requires Serialisable(b)
    ensures |r| == HEADER_WIRE_SIZE
  {
    env.timeEncode(b.timestamp)
      + EncodeInt32(b.size) + EncodeInt32(b.index) + EncodeInt32(b.leader)
      + EncodeInt32(Wrap32(|b.parents|)) + EncodeInt32(Wrap32(|b.transactions|))
      + EncodeInt32(b.blockType)
      + b.groupId + b.hash
  }

  function SerializeTxs(txs: seq<Transaction>, env: Env): (r: Bytes)
  {
    if |txs| == 0 then [] else env.txSerialize(txs[0]) + SerializeTxs(txs[1..], env)
  }

  /** `Serialize`: the header record, the parents, then each transaction's own form. */
  function Serialize(b: Block, env: Env): (r: Bytes)
    requires Serialisable(b)
    ensures HEADER_WIRE_SIZE + |Concat(b.parents)| <= |r|
    ensures r[..HEADER_WIRE_SIZE] == SerializeHeader(b, env)
    ensures r[HEADER_WIRE_SIZE..HEADER_WIRE_SIZE + |Concat(b.parents)|] == Concat(b.parents)
  {
    SerializeHeader(b, env) + Concat(b.parents) + SerializeTxs(b.transactions, env)
  }

  /** `CalculateHash`: the digest of the block serialised with its hash field zeroed. */
  function CalculateHash(b: Block, env: Env): (r: Digest)
    requires |b.groupId| == HASH_SIZE
  {
    env.digest(Serialize(b.(hash := Zeros(HASH_SIZE)), env))
  }

  /** The block with `hash` set by `CalculateHash`. */
  function Seal(b: Block, env: Env): (r: Block)
    requires |b.groupId| == HASH_SIZE
    ensures Serialisable(r)
    ensures r.(hash := b.hash) == b
  {
    b.(hash := CalculateHash(b, env))
  }

  /** The hash a block gets depends on every field except the hash it had. */
  lemma SealIgnoresOldHash(b: Block, h: Bytes, env: Env)
    requires |b.groupId| == HASH_SIZE
    ensures Seal(b.(hash := h), env) == Seal(b, env)
  {
  }

  /** `Block()`: zero hash and group id, no parents or transactions, then sealed. */
  function DefaultBlock(env: Env): (r: Block)
    ensures Serialisable(r)
    ensures r.index == 0 && r.leader == 0 && r.blockType == REG_BLOCK
    ensures r.groupId == Zeros(HASH_SIZE) && r.parents == [] && r.transactions == [] && r.timestamp == 0.0
    ensures r.size == CalculateHeaderSize([]) == SizeField(r)
    ensures r.hash == CalculateHash(r, env)
  {
    var b := Block(Zeros(HASH_SIZE), 0, 0, REG_BLOCK, Zeros(HASH_SIZE), [], 0.0, [], 0);
    Seal(b.(size := SizeField(b)), env)
  }

  /**
   * The explicit constructor: the hash is padded with '1' and the group id
   * with '0' to 32 bytes (longer strings make the padding length negative,
   * which throws), the size is computed and the hash is kept as given.
   */
  function NewBlock(hash: Bytes, index: Int32, leader: Int32, blockType: Int32, groupId: Bytes,
                    parents: seq<Bytes>, timestamp: Time, transactions: seq<Transaction>): (r: Result<Block, Fault>)
    ensures r.Success? <==> |hash| <= HASH_SIZE && |groupId| <= HASH_SIZE
    ensures r.Success? ==>
      Serialisable(r.value) && r.value.hash[..|hash|] == hash && r.value.groupId[..|groupId|] == groupId
      && r.value.parents == parents && r.value.transactions == transactions && r.value.size == SizeField(r.value)
      && r.value.index == index && r.value.leader == leader && r.value.blockType == blockType
      && r.value.timestamp == timestamp
    ensures r.Success? ==> forall i :: |hash| <= i < HASH_SIZE ==> r.value.hash[i] == HASH_FILL
    ensures r.Success? ==> forall i :: |groupId| <= i < HASH_SIZE ==> r.value.groupId[i] == GROUP_FILL
  {
    if |hash| > HASH_SIZE then Failure(PaddingTooLong(|hash|))
    else if |groupId| > HASH_SIZE then Failure(PaddingTooLong(|groupId|))
    else
      var b := Block(PadRight(hash, HASH_SIZE, HASH_FILL), index, leader, blockType,
                     PadRight(groupId, HASH_SIZE, GROUP_FILL), parents, timestamp, transactions, 0);
      Success(b.(size := SizeField(b)))
  }

  // ---------------------------------------------------------------------
  // Setters.  Every setter except SetHash recomputes the hash; those that
  // change parents or transactions recompute the size first.
  // ---------------------------------------------------------------------

  function SetHash(b: Block, h: Bytes): (r: Block)
    ensures r.hash == h && r.(hash := b.hash) == b
  {
    b.(hash := h)
  }

  function SetIndex(b: Block, index: Int32, env: Env): (r: Block)
    requires |b.groupId| == HASH_SIZE
    ensures r.groupId == b.groupId
    ensures r.index == index && r.hash == CalculateHash(r, env)
    ensures r.(hash := b.hash, index := b.index) == b
  {
    Seal(b.(index := index), env)
  }

  function SetLeader(b: Block, leader: Int32, env: Env): (r: Block)
    requires |b.groupId| == HASH_SIZE
    ensures r.groupId == b.groupId
    ensures r.leader == leader && r.hash == CalculateHash(r, env)
    ensures r.(hash := b.hash, leader := b.leader) == b
  {
    Seal(b.(leader := leader), env)
  }

  function SetBlockType(b: Block, blockType: Int32, env: Env): (r: Block)
    requires |b.groupId| == HASH_SIZE
    ensures r.groupId == b.groupId
    ensures r.blockType == blockType && r.hash == CalculateHash(r, env)
    ensures r.(hash := b.hash, blockType := b.blockType) == b
  {
    Seal(b.(blockType := blockType), env)
  }

  function SetTimestamp(b: Block, timestamp: Time, env: Env): (r: Block)
    requires |b.groupId| == HASH_SIZE
    ensures r.groupId == b.groupId
    ensures r.timestamp == timestamp && r.hash == CalculateHash(r, env)
    ensures r.(hash := b.hash, timestamp := b.timestamp) == b
  {
    Seal(b.(timestamp := timestamp), env)
  }

  function SetSize(b: Block, size: Int32, env: Env): (r: Block)
    requires |b.groupId| == HASH_SIZE
    ensures r.groupId == b.groupId
    ensures r.size == size && r.hash == CalculateHash(r, env)
    ensures r.(hash := b.hash, size := b.size) == b
  {
    Seal(b.(size := size), env)
  }

  /** `SetGroupId`: NUL-padded to 32 bytes; a longer id throws. */
  function SetGroupId(b: Block, groupId: Bytes, env: Env): (r: Result<Block, Fault>)
    ensures r.Success? <==> |groupId| <= HASH_SIZE
    ensures r.Success? ==> r.value.groupId == PadRight(groupId, HASH_SIZE, 0)
    ensures r.Success? ==>
      r.value.hash == CalculateHash(r.value, env)
      && r.value.(hash := b.hash, groupId := b.groupId) == b
  {
    if |groupId| > HASH_SIZE then Failure(PaddingTooLong(|groupId|))
    else Success(Seal(b.(groupId := PadRight(groupId, HASH_SIZE, 0)), env))
  }

  /** Each hash NUL-padded to 32 bytes, or the first one that is too long. */
  function PadHashes(ps: seq<Bytes>): (r: Result<seq<Bytes>, Fault>)
    ensures r.Success? <==> forall i :: 0 <= i < |ps| ==> |ps[i]| <= HASH_SIZE
    ensures r.Success? ==> |r.value| == |ps|
    ensures r.Success? ==> forall i :: 0 <= i < |ps| ==> r.value[i] == PadRight(ps[i], HASH_SIZE, 0)
  {
    if |ps| == 0 then Success([])
    else if |ps[0]| > HASH_SIZE then Failure(PaddingTooLong(|ps[0]|))
    else match PadHashes(ps[1..])
      case Failure(e) => Failure(e)
      case Success(t) => Success([PadRight(ps[0], HASH_SIZE, 0)] + t)
  }

  /** Padding leaves 32-byte hashes unchanged. */
  lemma PadHashesOfDigests(ps: seq<Bytes>)
    requires forall i :: 0 <= i < |ps| ==> |ps[i]| == HASH_SIZE
    ensures PadHashes(ps) == Success(ps)
  {
    var r := PadHashes(ps);
    assert forall i :: 0 <= i < |ps| ==> PadRight(ps[i], HASH_SIZE, 0) == ps[i];
    assert r.value == ps;
  }

  /** `SetParents`: every parent NUL-padded, then the size and the hash recomputed. */
  function SetParents(b: Block, parents: seq<Bytes>, env: Env): (r: Result<Block, Fault>)
    requires |b.groupId| == HASH_SIZE
    ensures r.Success? <==> forall i :: 0 <= i < |parents| ==> |parents[i]| <= HASH_SIZE
    ensures r.Success? ==> r.value.groupId == b.groupId
    ensures r.Success? ==>
      PadHashes(parents) == Success(r.value.parents) && r.value.size == SizeField(r.value)
      && r.value.hash == CalculateHash(r.value, env)
      && r.value.(hash := b.hash, size := b.size, parents := b.parents) == b
  {
    match PadHashes(parents)
    case Failure(e) => Failure(e)
    case Success(ps) =>
      var b1 := b.(parents := ps);
      Success(Seal(b1.(size := SizeField(b1)), env))
  }

  /** `SetTransactions`: the size and the hash recomputed. */
  function SetTransactions(b: Block, txs: seq<Transaction>, env: Env): (r: Block)
    requires |b.groupId| == HASH_SIZE
    ensures r.groupId == b.groupId
    ensures r.transactions == txs && r.size == SizeField(r) && r.hash == CalculateHash(r, env)
    ensures r.(hash := b.hash, size := b.size, transactions := b.transactions) == b
  {
    var b1 := b.(transactions := txs);
    Seal(b1.(size := SizeField(b1)), env)
  }

  // ---------------------------------------------------------------------
  // Relations
  // ---------------------------------------------------------------------

  /** `IsParent(block)`: a scan of block's parents for this block's hash. */
  function IsParent(a: Block, b: Block): (r: bool)
  {
    ParentScan(a.hash, b.parents)
  }

  function ParentScan(h: Bytes, ps: seq<Bytes>): bool
  {
    |ps| > 0 && (ps[0] == h || ParentScan(h, ps[1..]))
  }

  lemma {:induction false} ParentScanIsMembership(h: Bytes, ps: seq<Bytes>)
    ensures ParentScan(h, ps) <==> h in ps
  {
    if |ps| > 0 {
      ParentScanIsMembership(h, ps[1..]);
      assert ps == [ps[0]] + ps[1..];
    }
  }

  /** a is a parent of b exactly when b lists a's hash among its parents. */
  lemma IsParentIffListed(a: Block, b: Block)
    ensures IsParent(a, b) <==> a.hash in b.parents
  {
    ParentScanIsMembership(a.hash, b.parents);
  }

  /** `IsChild(block)`: `block.IsParent(*this)`. */
  function IsChild(a: Block, b: Block): (r: bool)
    ensures r <==> b.hash in a.parents
  {
    IsParentIffListed(b, a);
    IsParent(b, a)
  }

  /**
   * `IsPartOfGroup` as written: the block's group id is compared with
   * the block's own field instead of the argument, so every block belongs
   * to every group.
   */
  function IsPartOfGroupAsWritten(b: Block, groupId: Bytes): (r: bool)
    ensures r
  {
    b.groupId == b.groupId
  }

  /** `IsPartOfGroup` as intended: the block carries the given group id. */
  function IsPartOfGroup(b: Block, groupId: Bytes): (r: bool)
  {
    b.groupId == groupId
  }

  /** The intended test accepts a block into its own group and into no other. */
  lemma IsPartOfGroupSeparates(b: Block, groupId: Bytes)
    ensures IsPartOfGroup(b, b.groupId)
    ensures groupId != b.groupId ==> !IsPartOfGroup(b, groupId)
  {
  }

  /**
   * As written, a block of the all-zero group is accepted into the group
   * "1", which the intended test refuses.
   */
  lemma IsPartOfGroupAsWrittenAcceptsAny(b: Block)
    requires b.groupId == Zeros(HASH_SIZE)
    ensures IsPartOfGroupAsWritten(b, [0x31])
    ensures !IsPartOfGroup(b, [0x31])
  {
  }

  /** `IsMergeBlock`: block type 1; type 0 and any other value are not. */
  function IsMergeBlock(b: Block): (r: bool)
    ensures r <==> b.blockType == MERGE_BLOCK
  {
    if b.blockType == REG_BLOCK then false
    else if b.blockType == MERGE_BLOCK then true
    else false
  }

  /** `operator==`: blocks are the same when their hashes are. */
  predicate SameBlock(a: Block, b: Block)
  {
    a.hash == b.hash
  }

  /** Sealing blocks that agree on every other field makes them the same block. */
  lemma SealedAlike(a: Block, b: Block, env: Env)
    requires |a.groupId| == HASH_SIZE
    requires a.(hash := b.hash) == b
    ensures SameBlock(Seal(a, env), Seal(b, env))
  {
    SealIgnoresOldHash(a, b.hash, env);
  }
}
