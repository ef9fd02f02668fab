/**
 * `Blockgraph`: the node's store of confirmed blocks, indexed by hash,
 * with its list of childless blocks (the tips).  Its source is not part
 * of this model; it keeps what b4mesh.cc relies on: insertion only, an
 * insertion of a known hash changes nothing, and an insertion removes the
 * new block's parents from the tips and appends the new block's hash.
 */
module Blockgraphs {
  import opened Bytes
  import opened Transactions
  import opened Blocks

  datatype Blockgraph = Blockgraph(blocks: map<Bytes, Block>, childless: seq<Bytes>)

  predicate Distinct(s: seq<Bytes>)
  {
    forall i, j :: 0 <= i < j < |s| ==> s[i] != s[j]
  }

  /** Every block is stored under its own hash; the tips are distinct stored hashes. */
  predicate Valid(g: Blockgraph)
  {
    && (forall h :: h in g.blocks ==> g.blocks[h].hash == h)
    && (forall i :: 0 <= i < |g.childless| ==> g.childless[i] in g.blocks)
    && Distinct(g.childless)
  }

  type Graph = g: Blockgraph | Valid(g) witness Blockgraph(map[], [])

  function Empty(): (r: Graph)
    ensures r.blocks == map[] && r.childless == []
  {
    Blockgraph(map[], [])
  }

  function HasBlock(g: Graph, h: Bytes): (r: bool)
    ensures r <==> h in g.blocks
  {
    h in g.blocks
  }

  /** `GetBlock`: defined only for a stored hash. */
  function GetBlock(g: Graph, h: Bytes): (r: Block)
    requires HasBlock(g, h)
    ensures r.hash == h
    ensures r == g.blocks[h]
  {
    g.blocks[h]
  }

  function GetChildlessBlockList(g: Graph): (r: seq<Bytes>)
    ensures Distinct(r)
    ensures forall i :: 0 <= i < |r| ==> HasBlock(g, r[i])
  {
    g.childless
  }

  /** The tips that are not named in `parents`, in their order. */
  function Without(tips: seq<Bytes>, parents: seq<Bytes>): (r: seq<Bytes>)
    ensures forall h :: h in r <==> h in tips && h !in parents
    ensures Distinct(tips) ==> Distinct(r)
    ensures |r| <= |tips|
  {
    if |tips| == 0 then []
    else if tips[0] in parents then Without(tips[1..], parents)
    else [tips[0]] + Without(tips[1..], parents)
  }

  /** `AddBlock`. */
  function AddBlock(g: Graph, b: Block): (r: Graph)
    ensures b.hash in g.blocks ==> r == g
    ensures b.hash !in g.blocks ==> r.blocks == g.blocks[b.hash := b]
    ensures b.hash !in g.blocks ==>
      forall h :: h in r.childless <==> h == b.hash || (h in g.childless && h !in b.parents)
    ensures forall h :: h in g.blocks ==> h in r.blocks && r.blocks[h] == g.blocks[h]
    ensures HasBlock(r, b.hash)
  {
    if b.hash in g.blocks then g
    else
      var tips := Without(g.childless, b.parents);
      var r := Blockgraph(g.blocks[b.hash := b], tips + [b.hash]);
      assert b.hash !in tips;
      assert forall i :: 0 <= i < |r.childless| ==> r.childless[i] in r.blocks by {
        forall i | 0 <= i < |r.childless|
          ensures r.childless[i] in r.blocks
        {
          if i < |tips| {
            assert tips[i] in tips;
          }
        }
      }
      r
  }

  /** A block in the store carries the transaction's hash. */
  predicate IsTxInBG(g: Graph, t: Transaction)
  {
    exists h :: h in g.blocks && TxIn(g.blocks[h].transactions, t.hash)
  }

  predicate TxIn(txs: seq<Transaction>, hash: Bytes)
  {
    exists j :: 0 <= j < |txs| && txs[j].hash == hash
  }
}
