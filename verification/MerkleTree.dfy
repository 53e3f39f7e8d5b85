/**
 The audit tree: a binary-counter frontier updated in place, whose root is folded from the set
 bits of the leaf count. `TreeHash` is the plain recursive definition it is measured against.
 */
module MerkleTree {
  import opened Words
  import opened PowersOfTwo

  type Leaves = seq<Bytes>

  /** Shifts of a 64-bit word make sense only below this depth. The source uses depth 8. */
  const MAX_SHIFT := 64
  const MERKLE_MAX_DEPTH := 8

  /** The largest power of two below `n`: where section 2.1 of RFC 6962 splits a list of `n` leaves. */
  function SplitPoint(n: nat): (k: nat)
    requires n >= 2
    ensures 0 < k < n <= 2 * k
  {
    if n == 2 then 1 else 2 * SplitPoint((n + 1) / 2)
  }

  lemma {:induction false} SplitPointUnique(n: nat, i: nat)
    requires n >= 2 && Pow2(i) < n <= 2 * Pow2(i)
    ensures SplitPoint(n) == Pow2(i)
  {
    if n == 2 {
    } else {
      SplitPointUnique((n + 1) / 2, i - 1);
    }
  }

  lemma {:induction false} SplitPointIsPowerOfTwo(n: nat)
    requires n >= 2
    ensures exists i: nat :: SplitPoint(n) == Pow2(i)
  {
    if n == 2 {
      assert SplitPoint(n) == Pow2(0);
    } else {
      SplitPointIsPowerOfTwo((n + 1) / 2);
      var i: nat :| SplitPoint((n + 1) / 2) == Pow2(i);
      assert SplitPoint(n) == Pow2(i + 1);
    }
  }

  function Children(left: Bytes, right: Bytes): Bytes {
    left + right
  }

  function Combine(h: HashFn, left: Bytes, right: Bytes): Digest {
    h(Children(left, right))
  }

  /** The Merkle tree hash of RFC 6962, section 2.1, without its prefix bytes. */
  function TreeHash(h: HashFn, leaves: Leaves): Digest
    requires leaves != []
    decreases |leaves|
  {
    if |leaves| == 1 then
      h(leaves[0])
    else
      var k := SplitPoint(|leaves|);
      Combine(h, TreeHash(h, leaves[..k]), TreeHash(h, leaves[k..]))
  }

  /** Joining a full left subtree of 2^i leaves to a non-empty right part that fits beside it. */
  lemma {:induction false} TreeHashJoin(h: HashFn, left: Leaves, right: Leaves, i: nat)
    requires |left| == Pow2(i) && 0 < |right| <= Pow2(i)
    ensures TreeHash(h, left + right) == Combine(h, TreeHash(h, left), TreeHash(h, right))
  {
    var all := left + right;
    SplitPointUnique(|all|, i);
    assert all[..Pow2(i)] == left && all[Pow2(i)..] == right;
  }

  // ---------- what the frontier and the root must hold ----------

  /** The last n mod 2^i leaves of a history of n leaves. */
  function LastLeaves(history: Leaves, i: nat): (r: Leaves)
    ensures |r| == Low(|history|, i)
  {
    history[|history| - Low(|history|, i)..]
  }

  /** The aligned block of 2^i leaves that frontier cell `i` stands for when bit `i` is set. */
  function Block(history: Leaves, i: nat): (r: Leaves)
    requires Bit(|history|, i)
    ensures |r| == Pow2(i)
  {
    LowBits(|history|, i);
    LastLeaves(history, i + 1)[..Pow2(i)]
  }

  /** How many leaves a root over the low `i` bits covers, as a plain remainder. */
  lemma {:induction false} CoveredCount(history: Leaves, i: nat)
    ensures |LastLeaves(history, i)| == |history| % Pow2(i)
  {
    LowIsRemainder(|history|, i);
  }

  /** One more set bit prepends its block to the leaves folded so far. */
  lemma {:induction false} BlockPrepends(history: Leaves, i: nat)
    ensures Bit(|history|, i) ==> LastLeaves(history, i + 1) == Block(history, i) + LastLeaves(history, i)
    ensures !Bit(|history|, i) ==> LastLeaves(history, i + 1) == LastLeaves(history, i)
  {
    LowBits(|history|, i);
  }

  /** Each block is aligned: it starts at a multiple of twice its size, and the lower blocks follow it. */
  lemma {:induction false} BlockIsAligned(history: Leaves, i: nat)
    requires Bit(|history|, i)
    ensures var start := |history| - |LastLeaves(history, i + 1)|;
            && start % Pow2(i + 1) == 0
            && history[start..] == Block(history, i) + LastLeaves(history, i)
  {
    LowIsAligned(|history|, i + 1);
    BlockPrepends(history, i);
  }

  ghost predicate FrontierHolds(h: HashFn, frontier: seq<Digest>, history: Leaves) {
    forall i :: 0 <= i < |frontier| && Bit(|history|, i) ==>
      frontier[i] == TreeHash(h, Block(history, i))
  }

  /** What the root commits to: the last n mod 2^depth leaves, or nothing at all. */
  function RootOf(h: HashFn, depth: nat, history: Leaves): Digest {
    var covered := LastLeaves(history, depth);
    if covered == [] then ZERO_DIGEST else TreeHash(h, covered)
  }

  /** Folding one bit into the root, as the loop of `merkle_get_root` does. */
  lemma {:induction false} FoldBit(h: HashFn, frontier: seq<Digest>, history: Leaves, i: nat)
    requires i < |frontier| && FrontierHolds(h, frontier, history)
    ensures RootOf(h, i + 1, history) ==
            if !Bit(|history|, i) then RootOf(h, i, history)
            else if LastLeaves(history, i) == [] then frontier[i]
            else Combine(h, frontier[i], RootOf(h, i, history))
  {
    BlockPrepends(history, i);
    if Bit(|history|, i) {
      var low := LastLeaves(history, i);
      if low == [] {
        assert Block(history, i) + low == Block(history, i);
      } else {
        TreeHashJoin(h, Block(history, i), low, i);
      }
    }
  }

  /** A carry over bit `i` doubles the full subtree that ends at the new leaf. */
  lemma {:induction false} CarryBit(h: HashFn, frontier: seq<Digest>, history: Leaves, leaf: Bytes, i: nat)
    requires i < |frontier| && FrontierHolds(h, frontier, history)
    requires Low(|history|, i) == Pow2(i) - 1 && Bit(|history|, i)
    ensures Low(|history|, i + 1) == Pow2(i + 1) - 1
    ensures Combine(h, frontier[i], TreeHash(h, LastLeaves(history, i) + [leaf]))
         == TreeHash(h, LastLeaves(history, i + 1) + [leaf])
  {
    LowBits(|history|, i);
    BlockPrepends(history, i);
    var block, low := Block(history, i), LastLeaves(history, i) + [leaf];
    TreeHashJoin(h, block, low, i);
    assert block + low == LastLeaves(history, i + 1) + [leaf];
  }

  lemma {:induction false} DropOfAppend(history: Leaves, leaf: Bytes, start: nat)
    requires start <= |history|
    ensures (history + [leaf])[start..] == history[start..] + [leaf]
  {}

  lemma {:induction false} NewBlock(history: Leaves, leaf: Bytes, i: nat)
    requires Low(|history|, i) == Pow2(i) - 1
    requires Bit(|history| + 1, i)
    ensures Block(history + [leaf], i) == LastLeaves(history, i) + [leaf]
  {
    var n, p, history' := |history|, Pow2(i), history + [leaf];
    assert LastLeaves(history', i + 1) == history'[n + 1 - p..] by {
      CarryTarget(n, i);
    }
    assert LastLeaves(history, i) == history[n + 1 - p..];
    DropOfAppend(history, leaf, n + 1 - p);
    assert history'[n + 1 - p..][..p] == history'[n + 1 - p..];
  }

  lemma {:induction false} KeptBlock(history: Leaves, leaf: Bytes, j: nat)
    requires Bit(|history|, j) && Bit(|history| + 1, j)
    requires Low(|history| + 1, j + 1) == Low(|history|, j + 1) + 1
    ensures Block(history + [leaf], j) == Block(history, j)
  {
    var start := |history| - Low(|history|, j + 1);
    var history' := history + [leaf];
    LowBits(|history|, j);
    assert LastLeaves(history', j + 1) == history'[start..];
    assert LastLeaves(history, j + 1) == history[start..];
  }

  /** Where the carry stops, the new block ends at the new leaf; every higher block stays put. */
  lemma {:induction false} BlockAfterStore(history: Leaves, leaf: Bytes, i: nat, j: nat)
    requires Low(|history|, i) == Pow2(i) - 1 && !Bit(|history|, i)
    requires Bit(|history| + 1, j)
    ensures j >= i
    ensures j == i ==> Block(history + [leaf], j) == LastLeaves(history, i) + [leaf]
    ensures j > i ==> Bit(|history|, j) && Block(history + [leaf], j) == Block(history, j)
  {
    var n := |history|;
    if j < i {
      SuccLow(n, i);
      ClearBits(n + 1, i, j);
    } else if j == i {
      NewBlock(history, leaf, i);
    } else {
      HigherBitsKept(n, i, j);
      KeptBlock(history, leaf, j);
    }
  }

  /** Storing the carried hash at the first clear bit re-establishes the whole frontier. */
  lemma {:induction false} StoreBit(h: HashFn, frontier: seq<Digest>, history: Leaves, leaf: Bytes, i: nat)
    requires i < |frontier| && FrontierHolds(h, frontier, history)
    requires Low(|history|, i) == Pow2(i) - 1 && !Bit(|history|, i)
    ensures FrontierHolds(h, frontier[i := TreeHash(h, LastLeaves(history, i) + [leaf])], history + [leaf])
  {
    var history' := history + [leaf];
    var frontier' := frontier[i := TreeHash(h, LastLeaves(history, i) + [leaf])];
    forall j | 0 <= j < |frontier'| && Bit(|history'|, j)
      ensures frontier'[j] == TreeHash(h, Block(history', j))
    {
      BlockAfterStore(history, leaf, i, j);
    }
  }

  /** When every bit carries nothing is stored, and no bit below the depth is left set. */
  lemma {:induction false} CarryOut(h: HashFn, frontier: seq<Digest>, history: Leaves, leaf: Bytes)
    requires Low(|history|, |frontier|) == Pow2(|frontier|) - 1
    ensures FrontierHolds(h, frontier, history + [leaf])
  {
    var n', depth := |history + [leaf]|, |frontier|;
    assert Low(n', depth) == 0 by {
      SuccLow(|history|, depth);
    }
    AllClear(n', depth);
  }

  /** The state of the carry loop before bit `i`: all lower bits carried into `current`. */
  ghost predicate Carried(h: HashFn, history: Leaves, leaf: Bytes, i: nat, current: Digest) {
    && Low(|history|, i) == Pow2(i) - 1
    && current == TreeHash(h, LastLeaves(history, i) + [leaf])
  }

  /** One round of the carry loop, whichever way the test of the wrapped counter goes. */
  lemma {:induction false} CarryRound(h: HashFn, frontier: seq<Digest>, history: Leaves, leaf: Bytes, i: nat,
                                      current: Digest)
    requires i < |frontier| <= MAX_SHIFT && FrontierHolds(h, frontier, history)
    requires Carried(h, history, leaf, i, current)
    ensures if Bit(|history| % TWO64, i)
            then Carried(h, history, leaf, i + 1, Combine(h, frontier[i], current))
            else FrontierHolds(h, frontier[i := current], history + [leaf])
  {
    WrappedCounterBits(|history|, i);
    if Bit(|history|, i) {
      CarryBit(h, frontier, history, leaf, i);
    } else {
      StoreBit(h, frontier, history, leaf, i);
    }
  }

  // ---------- the structure itself ----------

  class Tree {
    const hash: HashFn
    const depth: nat
    var frontier: array<Digest>
    var leafCount: uint64
    /** Every leaf ever appended, in order. */
    ghost var history: Leaves

    ghost predicate Valid()
      reads this, frontier
    {
      && frontier.Length == depth <= MAX_SHIFT
      && leafCount == |history| % TWO64
      && FrontierHolds(hash, frontier[..], history)
    }

    constructor Init(hash: HashFn, depth: nat)
      requires depth <= MAX_SHIFT
      ensures Valid() && fresh(frontier)
      ensures this.hash == hash && this.depth == depth
      ensures history == [] && leafCount == 0
      ensures forall i :: 0 <= i < depth ==> frontier[i] == ZERO_DIGEST
    {
      this.hash := hash;
      this.depth := depth;
      frontier := new Digest[depth](_ => ZERO_DIGEST);
      leafCount := 0;
      history := [];
      new;
      AllClear(0, depth);
    }

    method Append(data: Bytes)
      requires Valid()
      modifies this`leafCount, this`history, frontier
      ensures Valid()
      ensures history == old(history) + [data]
    {
      ghost var before, cells := history, frontier[..];
      var current := hash(data);
      var idx := leafCount;
      leafCount := (leafCount + 1) % TWO64;
      WrapSucc(|before|);
      history := history + [data];
      assert LastLeaves(before, 0) + [data] == [data];
      var i := 0;
      while i < depth
        invariant 0 <= i <= depth
        invariant history == before + [data] && leafCount == |history| % TWO64
        invariant frontier[..] == cells
        invariant Carried(hash, before, data, i, current)
      {
        CarryRound(hash, cells, before, data, i, current);
        if !Bit(idx, i) {
          frontier[i] := current;
          assert frontier[..] == cells[i := current];
          return;
        }
        current := Combine(hash, frontier[i], current);
        i := i + 1;
      }
      CarryOut(hash, cells, before, data);
    }

    method GetRoot() returns (root: Digest)
      requires Valid()
      ensures root == RootOf(hash, depth, history)
    {
      var current := ZERO_DIGEST;
      var active := false;
      for i := 0 to depth
        invariant active <==> LastLeaves(history, i) != []
        invariant current == RootOf(hash, i, history)
      {
        WrappedCounterBits(|history|, i);
        FoldBit(hash, frontier[..], history, i);
        BlockPrepends(history, i);
        if Bit(leafCount, i) {
          if !active {
            current := frontier[i];
            active := true;
          } else {
            current := Combine(hash, frontier[i], current);
          }
        }
      }
      root := current;
    }
  }

  // ---------- what a root says about the history ----------

  /** The two child digests that the root node of a tree hashes. */
  function NodeImage(h: HashFn, leaves: Leaves): (r: Bytes)
    requires |leaves| > 1
    ensures |r| == 2 * HASH_BYTES && h(r) == TreeHash(h, leaves)
  {
    var k := SplitPoint(|leaves|);
    Children(TreeHash(h, leaves[..k]), TreeHash(h, leaves[k..]))
  }

  /** Equal nodes have equal children, a digest being of fixed length. */
  lemma {:induction false} EqualNodes(h: HashFn, a: Leaves, b: Leaves)
    requires |a| > 1 && |b| > 1 && NodeImage(h, a) == NodeImage(h, b)
    ensures var j, k := SplitPoint(|a|), SplitPoint(|b|);
            TreeHash(h, a[..j]) == TreeHash(h, b[..k]) && TreeHash(h, a[j..]) == TreeHash(h, b[k..])
  {
    var j, k := SplitPoint(|a|), SplitPoint(|b|);
    assert TreeHash(h, a[..j]) == NodeImage(h, a)[..HASH_BYTES] == NodeImage(h, b)[..HASH_BYTES];
    assert TreeHash(h, a[j..]) == NodeImage(h, a)[HASH_BYTES..] == NodeImage(h, b)[HASH_BYTES..];
  }

  /** Walks down two trees of equal size to the place where their inputs first part. */
  function Descend(h: HashFn, a: Leaves, b: Leaves): InputPair
    requires |a| == |b| > 0
    decreases |a|
  {
    if |a| == 1 then
      InputPair(a[0], b[0])
    else if NodeImage(h, a) != NodeImage(h, b) then
      InputPair(NodeImage(h, a), NodeImage(h, b))
    else
      var k := SplitPoint(|a|);
      if a[..k] != b[..k] then Descend(h, a[..k], b[..k]) else Descend(h, a[k..], b[k..])
  }

  lemma {:induction false} TreeHashBinds(h: HashFn, a: Leaves, b: Leaves)
    requires |a| == |b| > 0
    requires TreeHash(h, a) == TreeHash(h, b)
    ensures a == b || IsCollision(h, Descend(h, a, b))
    decreases |a|
  {
    if |a| == 1 {
      if a[0] == b[0] {
        assert a == b;
      }
    } else if NodeImage(h, a) == NodeImage(h, b) {
      var k := SplitPoint(|a|);
      EqualNodes(h, a, b);
      if a[..k] != b[..k] {
        TreeHashBinds(h, a[..k], b[..k]);
      } else {
        TreeHashBinds(h, a[k..], b[k..]);
        assert a == a[..k] + a[k..] && b == b[..k] + b[k..];
      }
    }
  }

  /**
   Two histories of the same length with the same root agree on every leaf the root covers, or
   the descent ends in two different inputs of one hash value.
   */
  lemma {:induction false} RootBindsCoveredLeaves(h: HashFn, depth: nat, a: Leaves, b: Leaves)
    requires |a| == |b|
    requires RootOf(h, depth, a) == RootOf(h, depth, b)
    ensures |LastLeaves(a, depth)| == |LastLeaves(b, depth)|
    ensures LastLeaves(a, depth) == LastLeaves(b, depth)
         || IsCollision(h, Descend(h, LastLeaves(a, depth), LastLeaves(b, depth)))
  {
    if LastLeaves(a, depth) != [] {
      TreeHashBinds(h, LastLeaves(a, depth), LastLeaves(b, depth));
    }
  }

  /** The root covers the whole history exactly when there are fewer than 2^depth leaves. */
  lemma {:induction false} RootCoversHistoryIff(depth: nat, history: Leaves)
    ensures LastLeaves(history, depth) == history <==> |history| < Pow2(depth)
  {
    LowIsWhole(|history|, depth);
    if |history| < Pow2(depth) {
      assert LastLeaves(history, depth) == history;
    }
  }

  /** Below 2^depth leaves the root covers the whole history, so it binds all of it. */
  lemma {:induction false} RootBindsHistory(h: HashFn, depth: nat, a: Leaves, b: Leaves)
    requires |a| == |b| && 0 < |a| < Pow2(depth)
    requires RootOf(h, depth, a) == RootOf(h, depth, b)
    ensures a == b || IsCollision(h, Descend(h, a, b))
  {
    RootCoversHistoryIff(depth, a);
    RootCoversHistoryIff(depth, b);
    RootBindsCoveredLeaves(h, depth, a, b);
  }

  // ---------- what a root is, from the leaves up ----------

  /** The digest of a full left part and what lies right of it: the left digest first, then the right. */
  lemma {:induction false} HashOfJoined(h: HashFn, left: Leaves, right: Leaves, i: nat)
    requires |left| == Pow2(i) && 0 < |right| <= Pow2(i)
    ensures TreeHash(h, left + right) == h(TreeHash(h, left) + TreeHash(h, right))
  {
    TreeHashJoin(h, left, right, i);
  }

  /** The same for roots: every root of two or more covered leaves is made from two smaller roots. */
  lemma {:induction false} RootOfJoined(h: HashFn, depth: nat, left: Leaves, right: Leaves, i: nat)
    requires |left| == Pow2(i) && 0 < |right| <= Pow2(i) && |left| + |right| < Pow2(depth)
    ensures RootOf(h, depth, left + right) == h(RootOf(h, depth, left) + RootOf(h, depth, right))
  {
    RootCoversHistoryIff(depth, left);
    RootCoversHistoryIff(depth, right);
    RootCoversHistoryIff(depth, left + right);
    HashOfJoined(h, left, right, i);
  }

  /** The root of one leaf is the hash of its data, and without leaves it is all zeros. */
  lemma {:induction false} RootOfOneOrNone(h: HashFn, depth: nat, data: Bytes)
    requires depth > 0
    ensures RootOf(h, depth, [data]) == h(data)
    ensures RootOf(h, depth, []) == Zeros(32)
  {
    assert Pow2(1) <= Pow2(depth) by {
      Pow2Add(1, depth - 1);
    }
    RootCoversHistoryIff(depth, [data]);
  }

  /** At any length the root is that of the last n mod 2^depth leaves alone. */
  lemma {:induction false} RootOfRemainder(h: HashFn, depth: nat, forgotten: Leaves, rest: Leaves)
    requires |forgotten| % Pow2(depth) == 0 && |rest| < Pow2(depth)
    ensures RootOf(h, depth, forgotten + rest) == RootOf(h, depth, rest)
  {
    var history, d := forgotten + rest, Pow2(depth);
    DivModUnique(|history|, d, |forgotten| / d, |rest|);
    CoveredCount(history, depth);
    assert LastLeaves(history, depth) == rest;
    RootCoversHistoryIff(depth, rest);
  }

  // ---------- roots of histories of any two lengths ----------

  /** `x` is what some inner node of the tree over `leaves` hashes. */
  predicate IsNode(h: HashFn, x: Bytes, leaves: Leaves)
    requires leaves != []
    decreases |leaves|
  {
    |leaves| > 1
    && var k := SplitPoint(|leaves|);
    x == NodeImage(h, leaves) || IsNode(h, x, leaves[..k]) || IsNode(h, x, leaves[k..])
  }

  /** Why two trees may have the same hash. */
  datatype Comparison =
    | Same
    | Collides(pair: InputPair)
    | LeafOfFirst(leaf: Bytes)
    | LeafOfSecond(leaf: Bytes)

  /** Walks down two trees of any sizes, left subtrees first, to the place where they part. */
  function Compare(h: HashFn, a: Leaves, b: Leaves): Comparison
    requires a != [] && b != []
    decreases |a|
  {
    if |a| == 1 && |b| == 1 then
      if a[0] == b[0] then Same else Collides(InputPair(a[0], b[0]))
    else if |a| == 1 then
      if a[0] == NodeImage(h, b) then LeafOfFirst(a[0]) else Collides(InputPair(a[0], NodeImage(h, b)))
    else if |b| == 1 then
      if b[0] == NodeImage(h, a) then LeafOfSecond(b[0]) else Collides(InputPair(NodeImage(h, a), b[0]))
    else if NodeImage(h, a) != NodeImage(h, b) then
      Collides(InputPair(NodeImage(h, a), NodeImage(h, b)))
    else
      var j, k := SplitPoint(|a|), SplitPoint(|b|);
      var left := Compare(h, a[..j], b[..k]);
      if left != Same then left else Compare(h, a[j..], b[k..])
  }

  ghost predicate Explains(h: HashFn, a: Leaves, b: Leaves, c: Comparison)
    requires a != [] && b != []
  {
    match c
    case Same => a == b
    case Collides(pair) => IsCollision(h, pair)
    case LeafOfFirst(x) => x in a && IsNode(h, x, b)
    case LeafOfSecond(x) => x in b && IsNode(h, x, a)
  }

  /** What explains equal subtrees explains the trees above them, unless both sides are the same. */
  lemma {:induction false} ExplainsAbove(h: HashFn, a: Leaves, b: Leaves, c: Comparison)
    requires |a| > 1 && |b| > 1 && c != Same
    requires var j, k := SplitPoint(|a|), SplitPoint(|b|);
             Explains(h, a[..j], b[..k], c) || Explains(h, a[j..], b[k..], c)
    ensures Explains(h, a, b, c)
  {}

  /**
   Two trees of any sizes with the same hash have the same leaves, or there is a collision, or one
   has a leaf that is the image of an inner node of the other.
   */
  lemma {:induction false} TreeHashesCompare(h: HashFn, a: Leaves, b: Leaves)
    requires a != [] && b != [] && TreeHash(h, a) == TreeHash(h, b)
    ensures Explains(h, a, b, Compare(h, a, b))
    decreases |a|
  {
    if |a| == 1 || |b| == 1 {
    } else if NodeImage(h, a) == NodeImage(h, b) {
      var j, k := SplitPoint(|a|), SplitPoint(|b|);
      EqualNodes(h, a, b);
      TreeHashesCompare(h, a[..j], b[..k]);
      TreeHashesCompare(h, a[j..], b[k..]);
      if Compare(h, a, b) == Same {
        assert a == a[..j] + a[j..] && b == b[..k] + b[k..];
      } else {
        ExplainsAbove(h, a, b, Compare(h, a, b));
      }
    }
  }

  /** The same for the roots of any two histories of one or more, but fewer than 2^depth, leaves. */
  lemma {:induction false} RootsCompare(h: HashFn, depth: nat, a: Leaves, b: Leaves)
    requires 0 < |a| < Pow2(depth) && 0 < |b| < Pow2(depth)
    requires RootOf(h, depth, a) == RootOf(h, depth, b)
    ensures Explains(h, a, b, Compare(h, a, b))
  {
    RootCoversHistoryIff(depth, a);
    RootCoversHistoryIff(depth, b);
    TreeHashesCompare(h, a, b);
  }

  /** Every inner node hashes two digests, so its image is 64 bytes long. */
  lemma {:induction false} NodesAre64Bytes(h: HashFn, x: Bytes, leaves: Leaves)
    requires leaves != [] && IsNode(h, x, leaves)
    ensures |x| == 2 * HASH_BYTES
    decreases |leaves|
  {
    var k := SplitPoint(|leaves|);
    if IsNode(h, x, leaves[..k]) {
      NodesAre64Bytes(h, x, leaves[..k]);
    } else if IsNode(h, x, leaves[k..]) {
      NodesAre64Bytes(h, x, leaves[k..]);
    }
  }

  ghost predicate NoLeafOf64Bytes(leaves: Leaves) {
    forall i :: 0 <= i < |leaves| ==> |leaves[i]| != 2 * HASH_BYTES
  }

  /**
   What a caller can check: if no leaf is 64 bytes long, equal roots mean equal histories or a
   collision, whatever the two lengths are.
   */
  lemma {:induction false} RootBindsOddLeaves(h: HashFn, depth: nat, a: Leaves, b: Leaves)
    requires 0 < |a| < Pow2(depth) && 0 < |b| < Pow2(depth)
    requires NoLeafOf64Bytes(a) && NoLeafOf64Bytes(b)
    requires RootOf(h, depth, a) == RootOf(h, depth, b)
    ensures a == b || (Compare(h, a, b).Collides? && IsCollision(h, Compare(h, a, b).pair))
  {
    RootsCompare(h, depth, a, b);
    match Compare(h, a, b)
    case Same =>
    case Collides(_) =>
    case LeafOfFirst(x) => NodesAre64Bytes(h, x, b);
    case LeafOfSecond(x) => NodesAre64Bytes(h, x, a);
  }

  /** Trees of one size part at two leaves or at two nodes, never at a leaf and a node. */
  lemma {:induction false} EqualSizesPartAlike(h: HashFn, a: Leaves, b: Leaves)
    requires |a| == |b| > 0
    ensures Compare(h, a, b).Same? || Compare(h, a, b).Collides?
    decreases |a|
  {
    if |a| == 1 {
    } else {
      var k := SplitPoint(|a|);
      EqualSizesPartAlike(h, a[..k], b[..k]);
      EqualSizesPartAlike(h, a[k..], b[k..]);
    }
  }

  function EmptyLeaves(n: nat): (r: Leaves)
    ensures |r| == n
  {
    seq(n, _ => [])
  }

  /** Two trees with the same hash that do not part at a collision. */
  predicate Agree(h: HashFn, a: Leaves, b: Leaves)
    requires a != [] && b != []
  {
    TreeHash(h, a) == TreeHash(h, b) && !Compare(h, a, b).Collides?
  }

  lemma {:induction false} LeafAgreesWithNode(h: HashFn, leaves: Leaves)
    requires |leaves| > 1
    ensures Agree(h, [NodeImage(h, leaves)], leaves) && Agree(h, leaves, [NodeImage(h, leaves)])
  {}

  lemma {:induction false} AgreeAbove(h: HashFn, a: Leaves, b: Leaves)
    requires |a| > 1 && |b| > 1
    requires var j, k := SplitPoint(|a|), SplitPoint(|b|);
             Agree(h, a[..j], b[..k]) && Agree(h, a[j..], b[k..])
    ensures Agree(h, a, b)
  {}

  lemma {:induction false} JoinedAgree(h: HashFn, la: Leaves, ra: Leaves, lb: Leaves, rb: Leaves)
    requires la != [] && ra != [] && SplitPoint(|la| + |ra|) == |la|
    requires lb != [] && rb != [] && SplitPoint(|lb| + |rb|) == |lb|
    requires Agree(h, la, lb) && Agree(h, ra, rb)
    ensures Agree(h, la + ra, lb + rb)
  {
    assert (la + ra)[..|la|] == la && (la + ra)[|la|..] == ra;
    assert (lb + rb)[..|lb|] == lb && (lb + rb)[|lb|..] == rb;
    AgreeAbove(h, la + ra, lb + rb);
  }

  /** For any two sizes there are trees with the same hash whose comparison meets no collision. */
  lemma {:induction false} Twins(h: HashFn, m: nat, n: nat) returns (a: Leaves, b: Leaves)
    requires m > 0 && n > 0
    ensures |a| == m && |b| == n && Agree(h, a, b)
    decreases m
  {
    if m == 1 && n == 1 {
      a, b := EmptyLeaves(1), EmptyLeaves(1);
    } else if m == 1 {
      a, b := [NodeImage(h, EmptyLeaves(n))], EmptyLeaves(n);
      LeafAgreesWithNode(h, b);
    } else if n == 1 {
      a, b := EmptyLeaves(m), [NodeImage(h, EmptyLeaves(m))];
      LeafAgreesWithNode(h, a);
    } else {
      var la, lb := Twins(h, SplitPoint(m), SplitPoint(n));
      var ra, rb := Twins(h, m - SplitPoint(m), n - SplitPoint(n));
      a, b := la + ra, lb + rb;
      JoinedAgree(h, la, ra, lb, rb);
    }
  }

  /** Equal roots of histories of these two lengths always mean equal histories or a collision. */
  ghost predicate LengthsBind(h: HashFn, depth: nat, m: nat, n: nat)
    requires m > 0 && n > 0
  {
    forall a: Leaves, b: Leaves :: |a| == m && |b| == n && RootOf(h, depth, a) == RootOf(h, depth, b) ==>
      Compare(h, a, b).Same? || Compare(h, a, b).Collides?
  }

  /**
   Under every hash, roots of histories of 1 to 2^depth - 1 leaves bind the histories, up to
   collisions, exactly when their lengths are equal.
   */
  lemma {:induction false} LengthsBindIff(h: HashFn, depth: nat, m: nat, n: nat)
    requires 0 < m < Pow2(depth) && 0 < n < Pow2(depth)
    ensures LengthsBind(h, depth, m, n) <==> m == n
  {
    if m == n {
      forall a: Leaves, b: Leaves | |a| == m && |b| == n
        ensures Compare(h, a, b).Same? || Compare(h, a, b).Collides?
      {
        EqualSizesPartAlike(h, a, b);
      }
    } else {
      var a, b := Twins(h, m, n);
      RootCoversHistoryIff(depth, a);
      RootCoversHistoryIff(depth, b);
      assert RootOf(h, depth, a) == RootOf(h, depth, b);
      TreeHashesCompare(h, a, b);
      assert !Compare(h, a, b).Same? && !Compare(h, a, b).Collides?;
    }
  }

  /** The smallest instance: one leaf, the image of a root, and the two leaves under that root. */
  lemma {:induction false} LengthMatters(h: HashFn, x: Bytes, y: Bytes)
    ensures TreeHash(h, [NodeImage(h, [x, y])]) == TreeHash(h, [x, y])
  {}

  /** From 2^depth leaves on, the first leaf can be any bytes at all without changing the root. */
  lemma {:induction false} RootForgetsFirstLeaf(h: HashFn, depth: nat, history: Leaves, other: Bytes)
    requires |history| >= Pow2(depth)
    ensures RootOf(h, depth, history[0 := other]) == RootOf(h, depth, history)
  {
    assert LastLeaves(history[0 := other], depth) == LastLeaves(history, depth);
  }

  /** Depth 8, the source's value: 256 leaves leave an all-zero root, whatever they are. */
  lemma {:induction false} RootAfter256Leaves(h: HashFn, history: Leaves)
    requires |history| == 256
    ensures RootOf(h, MERKLE_MAX_DEPTH, history) == ZERO_DIGEST
  {
    assert Pow2(8) == 256;
    LowIsRemainder(|history|, 8);
  }
}
