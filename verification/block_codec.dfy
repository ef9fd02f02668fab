/**
 * The deserialising constructor `Block(const string &serie)` and what it
 * shares with `Serialize`: the round trip, and the gap between the
 * computed size and the serialised length.
 */
module BlockCodec {
  import opened Bytes
  import opened Wrappers
  import opened Faults
  import opened Transactions
  import opened Blocks

  /**
   * The transactions loop: `count` times, parse a transaction from the
   * remaining bytes and advance by its declared size.  Starting a parse
   * with a negative remainder throws; an offset moved before the buffer
   * is undefined behaviour.
   */
  function ParseTxs(data: Bytes, offset: int, count: int, env: Env): (r: Result<seq<Transaction>, Fault>)
    ensures r.Success? ==> |r.value| == (if count > 0 then count else 0)
    ensures count > 0 && offset > |data| ==> r == Failure(NegativeLength(|data| - offset))
    ensures count > 0 && offset < 0 ==> r == Failure(MalformedBlock)
    decreases if count > 0 then count else 0
  {
    if count <= 0 then Success([])
    else if offset > |data| then Failure(NegativeLength(|data| - offset))
    else if offset < 0 then Failure(MalformedBlock)
    else
      var t := env.txParse(data[offset..]);
      match ParseTxs(data, offset + t.size as int, count - 1, env)
      case Failure(e) => Failure(e)
      case Success(rest) => Success([t] + rest)
  }

  /**
   * `Block(const string &serie)`.  A buffer shorter than the header, a
   * parent count that moves the transactions before the buffer or
   * overflows, or parents running past the buffer is a fault; the size
   * field is recomputed.  A count from -3 to -1 runs no parent loop and
   * starts the transactions inside the header.
   */
  function Parse(serie: Bytes, env: Env): (r: Result<Block, Fault>)
    ensures |serie| < HEADER_WIRE_SIZE ==> r.Failure?
    ensures r.Success? ==> Serialisable(r.value) && r.value.size == SizeField(r.value)
    ensures r.Success? ==> r.value.hash == serie[64..96] && r.value.groupId == serie[32..64]
    ensures r.Success? ==> forall i :: 0 <= i < |r.value.parents| ==> |r.value.parents[i]| == HASH_SIZE
    ensures r.Success? && DecodeInt32(serie[20..]) <= 0 ==> r.value.parents == []
  {
    if |serie| < HEADER_WIRE_SIZE then Failure(MalformedBlock)
    else
      var parentsCount := DecodeInt32(serie[20..]);
      var txCount := DecodeInt32(serie[24..]);
      if HEADER_WIRE_SIZE + parentsCount * HASH_SIZE < 0 || parentsCount * HASH_SIZE >= TWO31
         || HEADER_WIRE_SIZE + parentsCount * HASH_SIZE > |serie| then Failure(MalformedBlock)
      else
        var txStart := HEADER_WIRE_SIZE + parentsCount * HASH_SIZE;
        var parents :=
          if parentsCount <= 0 then []
          else (ChunksFull(serie[HEADER_WIRE_SIZE..txStart], parentsCount); Chunks(serie[HEADER_WIRE_SIZE..txStart], HASH_SIZE));
        match ParseTxs(serie[txStart..], 0, txCount, env)
        case Failure(e) => Failure(e)
        case Success(txs) =>
          var b := Block(serie[64..96], DecodeInt32(serie[12..]), DecodeInt32(serie[16..]),
                         DecodeInt32(serie[28..]), serie[32..64], parents,
                         env.timeDecode(serie[..8]), txs, 0);
          Success(b.(size := SizeField(b)))
  }

  /**
   * A parent count from -3 to -1 with no transactions is not an error: the
   * block comes out with no parents and no transactions.
   */
  lemma ParseNegativeParents(serie: Bytes, env: Env)
    requires |serie| >= HEADER_WIRE_SIZE
    requires -3 <= DecodeInt32(serie[20..]) < 0 && DecodeInt32(serie[24..]) <= 0
    ensures Parse(serie, env).Success?
    ensures Parse(serie, env).value.parents == [] && Parse(serie, env).value.transactions == []
  {
  }

  /** A buffer of n whole hashes splits into n hashes. */
  lemma {:induction false} ChunksFull(d: Bytes, n: nat)
    requires |d| == n * HASH_SIZE
    ensures |Chunks(d, HASH_SIZE)| == n
    ensures forall i :: 0 <= i < n ==> |Chunks(d, HASH_SIZE)[i]| == HASH_SIZE
  {
    if n > 1 {
      ChunksFull(d[HASH_SIZE..], n - 1);
    }
  }

  lemma DecodeInt32At(x: Int32, s: Bytes)
    requires |s| >= 4 && s[..4] == EncodeInt32(x)
    ensures DecodeInt32(s) == x
  {
    DecodeEncodeInt32(x, s[4..]);
    assert s == EncodeInt32(x) + s[4..];
  }

  lemma {:induction false} SerializeTxsLength(txs: seq<Transaction>, env: Env)
    requires forall i :: 0 <= i < |txs| ==> WireSized(env, txs[i])
    ensures |SerializeTxs(txs, env)| == CalculeTxsSize(txs)
  {
    if |txs| > 0 {
      SerializeTxsLength(txs[1..], env);
    }
  }

  /**
   * `CalculateSize` undercounts the serialised block by 8 bytes: the
   * header size it uses leaves out the parents_count and tx_count fields
   * of the record that `Serialize` copies.
   */
  lemma SerializedLength(b: Block, env: Env)
    requires Serialisable(b)
    requires forall i :: 0 <= i < |b.parents| ==> |b.parents[i]| == HASH_SIZE
    requires forall i :: 0 <= i < |b.transactions| ==> WireSized(env, b.transactions[i])
    ensures |Serialize(b, env)| == CalculateSize(b) + 8
    ensures CalculateHeaderSize(b.parents) == 88 + HASH_SIZE * |b.parents|
  {
    ConcatLength(b.parents, HASH_SIZE);
    SerializeTxsLength(b.transactions, env);
  }

  lemma {:induction false} ParseSerializeTxs(pre: Bytes, txs: seq<Transaction>, env: Env)
    requires TxSelfDelimiting(env)
    requires forall i :: 0 <= i < |txs| ==> WireSized(env, txs[i])
    ensures ParseTxs(pre + SerializeTxs(txs, env), |pre|, |txs|, env) == Success(txs)
    decreases |txs|
  {
    if |txs| > 0 {
      var t := txs[0];
      var data := pre + SerializeTxs(txs, env);
      var pre' := pre + env.txSerialize(t);
      assert data == pre' + SerializeTxs(txs[1..], env);
      assert data[|pre|..] == env.txSerialize(t) + SerializeTxs(txs[1..], env);
      assert env.txParse(data[|pre|..]) == t;
      ParseSerializeTxs(pre', txs[1..], env);
      assert |pre'| == |pre| + t.size as int;
      assert [t] + txs[1..] == txs;
    }
  }

  /**
   * A block whose parents are 32-byte hashes, whose transactions declare
   * their wire size and whose size field is current is rebuilt exactly by
   * the deserialising constructor.
   */
  lemma ParseSerialize(b: Block, env: Env)
    requires TxSelfDelimiting(env) && TimeRoundTrips(env)
    requires Serialisable(b) && b.size == SizeField(b)
    requires forall i :: 0 <= i < |b.parents| ==> |b.parents[i]| == HASH_SIZE
    requires |b.parents| * HASH_SIZE < TWO31 && |b.transactions| < TWO31
    requires forall i :: 0 <= i < |b.transactions| ==> WireSized(env, b.transactions[i])
    ensures Parse(Serialize(b, env), env) == Success(b)
  {
    var s := Serialize(b, env);
    var ps := Concat(b.parents);
    var txStart := HEADER_WIRE_SIZE + |b.parents| * HASH_SIZE;
    assert s == SerializeHeader(b, env) + ps + SerializeTxs(b.transactions, env) && |ps| == |b.parents| * HASH_SIZE by {
      ConcatLength(b.parents, HASH_SIZE);
    }
    assert env.timeDecode(s[..8]) == b.timestamp && DecodeInt32(s[12..]) == b.index && DecodeInt32(s[16..]) == b.leader
      && DecodeInt32(s[20..]) == |b.parents| && DecodeInt32(s[24..]) == |b.transactions|
      && DecodeInt32(s[28..]) == b.blockType && s[32..64] == b.groupId && s[64..96] == b.hash by {
      HeaderFields(b, env, s);
    }
    assert Chunks(s[HEADER_WIRE_SIZE..txStart], HASH_SIZE) == b.parents by {
      assert s[HEADER_WIRE_SIZE..txStart] == ps;
      ChunksConcat(b.parents, HASH_SIZE);
    }
    assert ParseTxs(s[txStart..], 0, |b.transactions|, env) == Success(b.transactions) by {
      assert s[txStart..] == [] + SerializeTxs(b.transactions, env);
      ParseSerializeTxs([], b.transactions, env);
    }
    ParseOfFields(s, b, env);
  }

  /** A buffer whose header, parent hashes and transactions read as the block's fields parses as the block. */
  lemma ParseOfFields(s: Bytes, b: Block, env: Env)
    requires b.size == SizeField(b)
    requires |b.parents| * HASH_SIZE < TWO31 && |s| >= HEADER_WIRE_SIZE + |b.parents| * HASH_SIZE
    requires env.timeDecode(s[..8]) == b.timestamp && DecodeInt32(s[12..]) == b.index && DecodeInt32(s[16..]) == b.leader
    requires DecodeInt32(s[20..]) == |b.parents| && DecodeInt32(s[24..]) == |b.transactions|
    requires DecodeInt32(s[28..]) == b.blockType && s[32..64] == b.groupId && s[64..96] == b.hash
    requires Chunks(s[HEADER_WIRE_SIZE..HEADER_WIRE_SIZE + |b.parents| * HASH_SIZE], HASH_SIZE) == b.parents
    requires ParseTxs(s[HEADER_WIRE_SIZE + |b.parents| * HASH_SIZE..], 0, |b.transactions|, env) == Success(b.transactions)
    ensures Parse(s, env) == Success(b)
  {
    var read := Block(s[64..96], DecodeInt32(s[12..]), DecodeInt32(s[16..]), DecodeInt32(s[28..]),
                      s[32..64], b.parents, env.timeDecode(s[..8]), b.transactions, 0);
    assert read == b.(size := 0);
  }

  /** The header fields of a serialised block read back as written. */
  lemma HeaderFields(b: Block, env: Env, s: Bytes)
    requires TimeRoundTrips(env) && Serialisable(b)
    requires |s| >= HEADER_WIRE_SIZE && s[..HEADER_WIRE_SIZE] == SerializeHeader(b, env)
    ensures env.timeDecode(s[..8]) == b.timestamp
    ensures DecodeInt32(s[12..]) == b.index
    ensures DecodeInt32(s[16..]) == b.leader
    ensures DecodeInt32(s[20..]) == Wrap32(|b.parents|)
    ensures DecodeInt32(s[24..]) == Wrap32(|b.transactions|)
    ensures DecodeInt32(s[28..]) == b.blockType
    ensures s[32..64] == b.groupId && s[64..96] == b.hash
  {
    var h := SerializeHeader(b, env);
    assert s[..8] == h[..8] == env.timeEncode(b.timestamp);
    assert s[12..][..4] == h[12..16] == EncodeInt32(b.index);
    DecodeInt32At(b.index, s[12..]);
    assert s[16..][..4] == h[16..20] == EncodeInt32(b.leader);
    DecodeInt32At(b.leader, s[16..]);
    assert s[20..][..4] == h[20..24] == EncodeInt32(Wrap32(|b.parents|));
    DecodeInt32At(Wrap32(|b.parents|), s[20..]);
    assert s[24..][..4] == h[24..28] == EncodeInt32(Wrap32(|b.transactions|));
    DecodeInt32At(Wrap32(|b.transactions|), s[24..]);
    assert s[28..][..4] == h[28..32] == EncodeInt32(b.blockType);
    DecodeInt32At(b.blockType, s[28..]);
    assert s[32..64] == h[32..64] == b.groupId;
    assert s[64..96] == h[64..96] == b.hash;
  }
}
