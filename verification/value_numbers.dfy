/**
 * Value-number lookups.
 *
 * Nodes are numbered by their global index; for each index below the node
 * count the tables hold the node, its value number, and the index of the
 * next node with the same value number. Those next indices form rings, one
 * per value number.
 */
module ValueNumbers {
  import opened Optional

  /** A node, identified by `id`, at its global index. */
  datatype Node = Node(id: nat, globalIndex: nat)

  datatype Info = Info(nodes: seq<Node>, valueNumbers: seq<int>, nextInRing: seq<int>, numberOfNodes: nat)

  /**
   * The tables cover every index below the node count, each node sits at its
   * own global index, and each next index stays in range and leads to a node
   * with the same value number.
   */
  predicate Valid(info: Info)
  {
    && info.numberOfNodes <= |info.nodes|
    && info.numberOfNodes <= |info.valueNumbers|
    && info.numberOfNodes <= |info.nextInRing|
    && (forall i | 0 <= i < info.numberOfNodes :: info.nodes[i].globalIndex == i)
    && (forall i | 0 <= i < info.numberOfNodes :: InRing(info, i))
  }

  /** Index `i`'s next index is a node index with the same value number. */
  predicate InRing(info: Info, i: nat)
    requires i < info.numberOfNodes <= |info.valueNumbers|
    requires info.numberOfNodes <= |info.nextInRing|
  {
    && 0 <= info.nextInRing[i] < info.numberOfNodes
    && info.valueNumbers[info.nextInRing[i]] == info.valueNumbers[i]
  }

  /** `getNode`: NULL at or past the node count, the stored node below it. */
  function GetNode(info: Info, index: nat): (r: Option<Node>)
    requires Valid(info)
    ensures r.None? <==> index >= info.numberOfNodes
    ensures r.Some? ==> r.value.globalIndex == index
  {
    if index >= info.numberOfNodes then None else Some(info.nodes[index])
  }

  /**
   * `getNext`: a node past the node count is its own next; otherwise the
   * next node in its value number's ring.
   */
  function GetNext(info: Info, node: Node): (r: Node)
    requires Valid(info)
    ensures node.globalIndex >= info.numberOfNodes ==> r == node
    ensures node.globalIndex < info.numberOfNodes ==>
              && r.globalIndex < info.numberOfNodes
              && 0 <= info.nextInRing[node.globalIndex]
              && GetNode(info, info.nextInRing[node.globalIndex]) == Some(r)
              && info.valueNumbers[r.globalIndex] == info.valueNumbers[node.globalIndex]
  {
    var index := node.globalIndex;
    if index >= info.numberOfNodes then node
    else
      assert InRing(info, index);
      info.nodes[info.nextInRing[index]]
  }

  /** Following `getNext` `k` times. */
  function Walk(info: Info, node: Node, k: nat): Node
    requires Valid(info)
    decreases k
  {
    if k == 0 then node else Walk(info, GetNext(info, node), k - 1)
  }

  /**
   * Walking a ring from a numbered node never leaves the node's value
   * number; from an unnumbered node the walk stays put.
   */
  lemma {:induction false} WalkStaysInValueNumber(info: Info, node: Node, k: nat)
    requires Valid(info)
    decreases k
    ensures node.globalIndex < info.numberOfNodes ==>
              && Walk(info, node, k).globalIndex < info.numberOfNodes
              && info.valueNumbers[Walk(info, node, k).globalIndex] == info.valueNumbers[node.globalIndex]
    ensures node.globalIndex >= info.numberOfNodes ==> Walk(info, node, k) == node
  {
    if k > 0 {
      WalkStaysInValueNumber(info, GetNext(info, node), k - 1);
    }
  }

  /**
   * `getValueNumber`: a lookup for a numbered node; for any other node
   * `setUniqueValueNumber` runs first and the lookup reads the updated table
   * (it is `None` if that table still does not reach the index).
   */
  function GetValueNumber(info: Info, node: Node, setUniqueValueNumber: (Info, Node) -> Info): (r: (Info, Option<int>))
    requires Valid(info)
    ensures node.globalIndex < info.numberOfNodes ==>
              r.0 == info && r.1 == Some(info.valueNumbers[node.globalIndex])
    ensures node.globalIndex >= info.numberOfNodes ==>
              && r.0 == setUniqueValueNumber(info, node)
              && (r.1.Some? <==> node.globalIndex < |r.0.valueNumbers|)
    ensures r.1.Some? ==> r.1.value == r.0.valueNumbers[node.globalIndex]
  {
    var index := node.globalIndex;
    var after := if index >= info.numberOfNodes then setUniqueValueNumber(info, node) else info;
    (after, if index < |after.valueNumbers| then Some(after.valueNumbers[index]) else None)
  }

  /** Two walks from a node agree on the value number, as the ring promises. */
  lemma RingNodesShareValueNumber(info: Info, node: Node, j: nat, k: nat,
                                  setUniqueValueNumber: (Info, Node) -> Info)
    requires Valid(info)
    requires node.globalIndex < info.numberOfNodes
    ensures GetValueNumber(info, Walk(info, node, j), setUniqueValueNumber).1
         == GetValueNumber(info, Walk(info, node, k), setUniqueValueNumber).1
  {
    WalkStaysInValueNumber(info, node, j);
    WalkStaysInValueNumber(info, node, k);
  }
}

/**
 * The hash of value-numbering keys: each 32-bit word is folded in byte by
 * byte, in the host's memory order, with the 32-bit FNV prime, and the
 * result goes through a fixed shift/add/xor mix. All arithmetic wraps
 * modulo 2^32.
 */
module ValueNumberHash {
  import opened Bytes

  /** The 32-bit FNV prime. */
  const Prime: bv32 := 16777619

  /** The four bytes of `data` in memory order. */
  function DataBytes(data: bv32, order: ByteOrder): (r: seq<bv32>)
    ensures |r| == 4
    ensures forall i | 0 <= i < 4 :: r[i] < 0x100
  {
    var low := [data & 0xff, (data >> 8) & 0xff, (data >> 16) & 0xff, data >> 24];
    match order
    case LittleEndian => low
    case BigEndian => [low[3], low[2], low[1], low[0]]
  }

  /** One byte step: xor the byte in, then multiply by the prime. */
  function Step(h: bv32, b: bv32): bv32
  {
    (h ^ b) * Prime
  }

  /** The byte steps over `bs`, first byte first. */
  function Fold(h: bv32, bs: seq<bv32>): bv32
    decreases |bs|
  {
    if |bs| == 0 then h else Fold(Step(h, bs[0]), bs[1..])
  }

  /** One more byte at the end is one more step. */
  lemma {:induction false} FoldSnoc(h: bv32, bs: seq<bv32>, b: bv32)
    ensures Fold(h, bs + [b]) == Step(Fold(h, bs), b)
    decreases |bs|
  {
    if |bs| > 0 {
      assert (bs + [b])[1..] == bs[1..] + [b];
      FoldSnoc(Step(h, bs[0]), bs[1..], b);
    }
  }

  /** The final shift/add/xor mix, applied after the four byte steps. */
  function Mix(x: bv32): bv32
  {
    var x1 := x + (x << 13);
    var x2 := x1 ^ (x1 >> 7);
    var x3 := x2 + (x2 << 3);
    var x4 := x3 ^ (x3 >> 17);
    x4 + (x4 << 5)
  }

  /** `VNHashKey::hash(data)`: the new hash value from the old one. */
  function HashWord(h: bv32, data: bv32, order: ByteOrder): bv32
  {
    Mix(Fold(h, DataBytes(data, order)))
  }

  /** Reverses the byte order of a word. */
  function ByteSwap(data: bv32): bv32
  {
    ((data & 0xff) << 24) | (((data >> 8) & 0xff) << 16) | (((data >> 16) & 0xff) << 8) | (data >> 24)
  }

  /** A big-endian host hashes a word as a little-endian host hashes it byte-swapped. */
  lemma HostOrderIsByteSwap(h: bv32, data: bv32)
    ensures HashWord(h, data, BigEndian) == HashWord(h, ByteSwap(data), LittleEndian)
  {
    assert DataBytes(data, BigEndian) == DataBytes(ByteSwap(data), LittleEndian);
  }

  /** `hash` as the source runs it: one step per byte in memory order, then the mix. */
  method Hash(hashVal: bv32, data: bv32, order: ByteOrder) returns (r: bv32)
    ensures r == HashWord(hashVal, data, order)
  {
    var bytes := DataBytes(data, order);
    r := hashVal;
    var i := 0;
    while i < 4
      invariant 0 <= i <= 4
      invariant r == Fold(hashVal, bytes[..i])
    {
      FoldSnoc(hashVal, bytes[..i], bytes[i]);
      assert bytes[..i + 1] == bytes[..i] + [bytes[i]];
      r := Step(r, bytes[i]);
      i := i + 1;
    }
    assert bytes[..4] == bytes;
    r := Mix(r);
  }
}
