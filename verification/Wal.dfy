/**
 The in-memory write-ahead log: a wrapping buffer of hash-chained records. `History` is the
 unbounded list of records the same appends would produce; the buffer holds its newest part.
 */
module Wal {
  import opened Words

  const WAL_CAPACITY := 65536

  type int32 = x: int | -0x8000_0000 <= x < 0x8000_0000

  datatype Entry = Entry(agentId: uint32, actionCode: uint32, result: int32, timestamp: uint64)

  datatype Record = Record(
    sequence: uint64, timestamp: uint64, prevHash: Digest, entryHash: Digest,
    agentId: uint32, actionCode: uint32, result: int32)

  const EMPTY_RECORD := Record(0, 0, ZERO_DIGEST, ZERO_DIGEST, 0, 0, 0)

  /**
   The 64 bytes that are hashed. The struct is padded to 96 bytes and the entry hash lies in its
   middle, so the prefix ends with 16 bytes of the hash the slot held before.
   */
  function Image(sequence: uint64, timestamp: uint64, prev: Digest, stale: Digest): (r: Bytes)
    ensures |r| == 64
  {
    LittleEndian(sequence, 8) + LittleEndian(timestamp, 8) + prev + stale[..16]
  }

  // ---------- the reference: an unbounded list of records ----------

  function LatestHash(history: seq<Record>): Digest {
    if history == [] then ZERO_DIGEST else history[|history| - 1].entryHash
  }

  /** The entry hash left in the slot that the next record overwrites. */
  function StaleHash(history: seq<Record>): Digest {
    if |history| < WAL_CAPACITY then ZERO_DIGEST else history[|history| - WAL_CAPACITY].entryHash
  }

  function NextRecord(h: HashFn, history: seq<Record>, e: Entry): Record {
    var sequence := |history| % TWO64;
    var prev := LatestHash(history);
    Record(sequence, e.timestamp, prev, h(Image(sequence, e.timestamp, prev, StaleHash(history))),
           e.agentId, e.actionCode, e.result)
  }

  function History(h: HashFn, entries: seq<Entry>): (r: seq<Record>)
    ensures |r| == |entries|
  {
    if entries == [] then []
    else
      var before := History(h, entries[..|entries| - 1]);
      before + [NextRecord(h, before, entries[|entries| - 1])]
  }

  // ---------- the buffer against the reference ----------

  /** Each slot holds the newest record whose index falls on it; slots not reached yet are zero. */
  ghost predicate Holds(buffer: seq<Record>, history: seq<Record>) {
    && |buffer| == WAL_CAPACITY
    && (forall k :: 0 <= k < |history| && |history| - WAL_CAPACITY <= k ==>
          buffer[k % WAL_CAPACITY] == history[k])
    && (forall s :: |history| <= s < WAL_CAPACITY ==> buffer[s] == EMPTY_RECORD)
  }

  lemma {:induction false} HoldsAfterAppend(buffer: seq<Record>, history: seq<Record>, r: Record)
    requires Holds(buffer, history)
    ensures Holds(buffer[|history| % WAL_CAPACITY := r], history + [r])
  {
    var n := |history|;
    var buffer' := buffer[n % WAL_CAPACITY := r];
    forall k | 0 <= k < n + 1 && n + 1 - WAL_CAPACITY <= k
      ensures buffer'[k % WAL_CAPACITY] == (history + [r])[k]
    {
      if k < n {
        DistinctSlots(k, n, WAL_CAPACITY);
        assert buffer[k % WAL_CAPACITY] == history[k];
      }
    }
  }

  /** The slot about to be overwritten holds the stale hash the reference names. */
  lemma {:induction false} SlotIsStale(buffer: seq<Record>, history: seq<Record>)
    requires Holds(buffer, history)
    ensures buffer[|history| % WAL_CAPACITY].entryHash == StaleHash(history)
  {
    var n := |history|;
    if n >= WAL_CAPACITY {
      assert (n - WAL_CAPACITY) % WAL_CAPACITY == n % WAL_CAPACITY;
      assert buffer[(n - WAL_CAPACITY) % WAL_CAPACITY] == history[n - WAL_CAPACITY];
    }
  }

  /** The wrapped 64-bit head names the same slot as the true number of appends. */
  lemma {:induction false} SlotOfHead(n: nat)
    ensures n % TWO64 % WAL_CAPACITY == n % WAL_CAPACITY
  {
    ModOfMod(n, WAL_CAPACITY, 0x1_0000_0000_0000);
  }

  /** Appends build the reference: one more entry adds the record that `Append` adds. */
  lemma {:induction false} HistoryGrows(h: HashFn, entries: seq<Entry>, e: Entry)
    ensures History(h, entries + [e]) == History(h, entries) + [NextRecord(h, History(h, entries), e)]
  {
    assert (entries + [e])[..|entries|] == entries;
  }

  /** One append in place: the slot named by the wrapped head, and what it held. */
  lemma {:induction false} AppendRound(h: HashFn, buffer: seq<Record>, history: seq<Record>, e: Entry)
    requires Holds(buffer, history)
    ensures var idx, next := |history| % TWO64 % WAL_CAPACITY, NextRecord(h, history, e);
            && buffer[idx].entryHash == StaleHash(history)
            && Holds(buffer[idx := next], history + [next])
  {
    SlotOfHead(|history|);
    SlotIsStale(buffer, history);
    HoldsAfterAppend(buffer, history, NextRecord(h, history, e));
  }

  class Log {
    const hash: HashFn
    var buffer: array<Record>
    var head: uint64
    var latestHash: Digest
    var initialized: bool
    /** Every entry appended since the last initialisation, and the records they became. */
    ghost var entries: seq<Entry>
    ghost var history: seq<Record>

    /** The buffer is in step with the records. */
    ghost predicate InStep()
      reads this`buffer, this`head, this`latestHash, this`initialized, this`history, buffer
    {
      && Holds(buffer[..], history)
      && head == |history| % TWO64
      && latestHash == LatestHash(history)
      && (!initialized ==> history == [])
    }

    ghost predicate Valid()
      reads this, buffer
    {
      InStep() && history == History(hash, entries)
    }

    /** Static storage: all zero, not yet initialised. */
    constructor Static(hash: HashFn)
      ensures Valid() && fresh(buffer) && this.hash == hash
      ensures entries == [] && !initialized
    {
      this.hash := hash;
      buffer := new Record[WAL_CAPACITY](_ => EMPTY_RECORD);
      head := 0;
      latestHash := ZERO_DIGEST;
      initialized := false;
      entries := [];
      history := [];
    }

    method Init()
      requires Valid()
      modifies this`head, this`latestHash, this`initialized, this`entries, this`history, buffer
      ensures Valid()
      ensures entries == [] && history == [] && initialized
    {
      forall i | 0 <= i < buffer.Length {
        buffer[i] := EMPTY_RECORD;
      }
      latestHash := ZERO_DIGEST;
      head := 0;
      initialized := true;
      entries := [];
      history := [];
    }

    method AppendRecord(e: Entry)
      requires InStep() && initialized
      modifies this`head, this`latestHash, this`history, buffer
      ensures InStep()
      ensures history == old(history) + [NextRecord(hash, old(history), e)]
    {
      ghost var slots, next := buffer[..], NextRecord(hash, history, e);
      AppendRound(hash, slots, history, e);
      WrapSucc(|history|);
      var idx := head % WAL_CAPACITY;
      var entryHash := hash(Image(head, e.timestamp, latestHash, buffer[idx].entryHash));
      buffer[idx] := Record(head, e.timestamp, latestHash, entryHash, e.agentId, e.actionCode, e.result);
      assert buffer[..] == slots[idx := next];
      history := history + [next];
      latestHash := entryHash;
      head := (head + 1) % TWO64;
    }

    method AppendEntry(e: Entry)
      requires Valid() && initialized
      modifies this`head, this`latestHash, this`entries, this`history, buffer
      ensures Valid()
      ensures entries == old(entries) + [e]
      ensures history == old(history) + [NextRecord(hash, old(history), e)]
    {
      HistoryGrows(hash, entries, e);
      AppendRecord(e);
      entries := entries + [e];
    }

    method Append(e: Entry)
      requires Valid()
      modifies this`head, this`latestHash, this`initialized, this`entries, this`history, buffer
      ensures Valid()
      ensures entries == old(entries) + [e]
      ensures history == old(history) + [NextRecord(hash, old(history), e)]
    {
      if !initialized {
        Init();
      }
      AppendEntry(e);
    }
  }

  // ---------- what the buffer shows after any number of appends ----------

  /** The index of the newest record that falls on slot `s`, once that slot has been filled. */
  function NewestOn(n: nat, s: nat): (k: nat)
    requires s < n && s < WAL_CAPACITY
    ensures k < n <= k + WAL_CAPACITY
    ensures k % WAL_CAPACITY == s
  {
    if n <= WAL_CAPACITY then s
    else if (n - 1) % WAL_CAPACITY == s then n - 1
    else NewestOn(n - 1, s)
  }

  lemma {:induction false} HistoryLinks(h: HashFn, entries: seq<Entry>, k: nat)
    requires k < |entries|
    ensures var r := History(h, entries);
            && r[k].sequence == k % TWO64
            && r[k].timestamp == entries[k].timestamp
            && r[k].agentId == entries[k].agentId
            && r[k].actionCode == entries[k].actionCode
            && r[k].result == entries[k].result
            && r[k].prevHash == (if k == 0 then ZERO_DIGEST else r[k - 1].entryHash)
    decreases |entries|
  {
    if k == |entries| - 1 {
    } else {
      HistoryLinks(h, entries[..|entries| - 1], k);
    }
  }

  /**
   Slot `s` holds the record of the largest append index below n congruent to `s`: that index is
   its sequence number modulo 2^64, and no later append falls on the slot.
   */
  lemma {:induction false} SlotHoldsNewest(h: HashFn, buffer: seq<Record>, entries: seq<Entry>, s: nat)
    requires Holds(buffer, History(h, entries))
    requires s < |entries| && s < WAL_CAPACITY
    ensures var k := NewestOn(|entries|, s);
            && buffer[s] == History(h, entries)[k]
            && buffer[s].sequence == k % TWO64
            && buffer[s].timestamp == entries[k].timestamp
            && forall j :: k < j < |entries| ==> j % WAL_CAPACITY != s
  {
    var k := NewestOn(|entries|, s);
    HistoryLinks(h, entries, k);
    forall j | k < j < |entries| ensures j % WAL_CAPACITY != s {
      DistinctSlots(k, j, WAL_CAPACITY);
    }
  }

  /** Slots that no append has reached are zero. */
  lemma {:induction false} UnreachedSlots(buffer: seq<Record>, history: seq<Record>, s: nat)
    requires Holds(buffer, history)
    requires |history| <= s < 65536
    ensures |buffer| == 65536
    ensures buffer[s] == Record(0, 0, Zeros(32), Zeros(32), 0, 0, 0)
  {}

  lemma {:induction false} HistoryFront(h: HashFn, entries: seq<Entry>, k: nat)
    requires k < |entries|
    ensures History(h, entries)[..k] == History(h, entries[..k])
    ensures History(h, entries)[k] == NextRecord(h, History(h, entries[..k]), entries[k])
    decreases |entries|
  {
    if k == |entries| - 1 {
    } else {
      var front := entries[..|entries| - 1];
      HistoryFront(h, front, k);
      assert front[..k] == entries[..k];
      assert History(h, entries)[..k] == History(h, front)[..k];
    }
  }

  /**
   Each entry hash is that of the position, the timestamp, the entry hash before it (zeros at
   first), and the first half of the entry hash 65536 records before, which its slot still held.
   */
  lemma {:induction false} EntryHashes(h: HashFn, entries: seq<Entry>, k: nat)
    requires k < |entries|
    ensures var r := History(h, entries);
            r[k].entryHash ==
            h(LittleEndian(k % 0x1_0000_0000_0000_0000, 8) + LittleEndian(entries[k].timestamp, 8)
              + (if k == 0 then Zeros(32) else r[k - 1].entryHash)
              + (if k < 65536 then Zeros(16) else r[k - 65536].entryHash[..16]))
  {
    HistoryFront(h, entries, k);
    var r, before := History(h, entries), History(h, entries[..k]);
    assert Zeros(32)[..16] == Zeros(16);
    assert k > 0 ==> before[k - 1] == r[k - 1];
    assert k >= 65536 ==> before[k - 65536] == r[k - 65536];
  }

  /** Consecutive live records are linked, wherever the seam of the buffer falls between them. */
  lemma {:induction false} LiveRecordsLinked(h: HashFn, buffer: seq<Record>, entries: seq<Entry>, k: nat)
    requires Holds(buffer, History(h, entries))
    requires |entries| - WAL_CAPACITY <= k && k + 1 < |entries|
    ensures buffer[(k + 1) % WAL_CAPACITY].prevHash == buffer[k % WAL_CAPACITY].entryHash
  {
    HistoryLinks(h, entries, k + 1);
    assert buffer[k % WAL_CAPACITY] == History(h, entries)[k];
    assert buffer[(k + 1) % WAL_CAPACITY] == History(h, entries)[k + 1];
  }

  // ---------- what the chain commits to ----------

  /** The chain depends on the timestamps alone: agents, actions and results are not hashed. */
  lemma {:induction false} ChainIsOfTimestamps(h: HashFn, a: seq<Entry>, b: seq<Entry>)
    requires |a| == |b|
    requires forall k :: 0 <= k < |a| ==> a[k].timestamp == b[k].timestamp
    ensures forall k :: 0 <= k < |a| ==> History(h, a)[k].entryHash == History(h, b)[k].entryHash
  {
    if a == [] {
    } else {
      ChainIsOfTimestamps(h, a[..|a| - 1], b[..|b| - 1]);
    }
  }

  /** The bytes hashed for the last append of a run. */
  function LastImage(h: HashFn, entries: seq<Entry>): (r: Bytes)
    requires entries != []
    ensures |r| == 64
    ensures h(r) == LatestHash(History(h, entries))
  {
    var before := History(h, entries[..|entries| - 1]);
    Image(|before| % TWO64, entries[|entries| - 1].timestamp, LatestHash(before), StaleHash(before))
  }

  /** Walks two runs back to the last append whose hashed bytes differ, or to a start. */
  function CompareRuns(h: HashFn, a: seq<Entry>, b: seq<Entry>): Parting {
    if a == [] && b == [] then Nowhere
    else if a == [] then AtZeroDigest(LastImage(h, b))
    else if b == [] then AtZeroDigest(LastImage(h, a))
    else if LastImage(h, a) != LastImage(h, b) then AtCollision(InputPair(LastImage(h, a), LastImage(h, b)))
    else CompareRuns(h, a[..|a| - 1], b[..|b| - 1])
  }

  ghost predicate SameTimestamps(a: seq<Entry>, b: seq<Entry>) {
    |a| == |b| && forall k :: 0 <= k < |a| ==> a[k].timestamp == b[k].timestamp
  }

  lemma {:induction false} ImageParts(n: uint64, t: uint64, p: Digest, s: Digest,
                                      n': uint64, t': uint64, p': Digest, s': Digest)
    requires Image(n, t, p, s) == Image(n', t', p', s')
    ensures n == n' && t == t' && p == p'
  {
    WordRanges();
    var f, g := Image(n, t, p, s), Image(n', t', p', s');
    assert LittleEndian(n, 8) == f[..8] == g[..8] == LittleEndian(n', 8);
    assert LittleEndian(t, 8) == f[8..16] == g[8..16] == LittleEndian(t', 8);
    LittleEndianInjective(n, n', 8);
    LittleEndianInjective(t, t', 8);
    assert p == f[16..48] == g[16..48] == p';
  }

  lemma {:induction false} SameLastImage(h: HashFn, a: seq<Entry>, b: seq<Entry>)
    requires a != [] && b != [] && LastImage(h, a) == LastImage(h, b)
    ensures (|a| - 1) % TWO64 == (|b| - 1) % TWO64
    ensures a[|a| - 1].timestamp == b[|b| - 1].timestamp
    ensures LatestHash(History(h, a[..|a| - 1])) == LatestHash(History(h, b[..|b| - 1]))
  {
    var m, n := |a| - 1, |b| - 1;
    var historyA, historyB := History(h, a[..m]), History(h, b[..n]);
    ImageParts(m % TWO64, a[m].timestamp, LatestHash(historyA), StaleHash(historyA),
               n % TWO64, b[n].timestamp, LatestHash(historyB), StaleHash(historyB));
  }

  lemma {:induction false} SameTimestampsGrow(a: seq<Entry>, b: seq<Entry>)
    requires a != [] && b != [] && a[|a| - 1].timestamp == b[|b| - 1].timestamp
    ensures SameTimestamps(a[..|a| - 1], b[..|b| - 1]) ==> SameTimestamps(a, b)
  {
    var m, n := |a| - 1, |b| - 1;
    assert forall k :: 0 <= k < m ==> a[..m][k] == a[k];
    assert forall k :: 0 <= k < n ==> b[..n][k] == b[k];
  }

  /**
   Any two runs with the same latest hash had the same timestamps, or exhibit a collision, or
   exhibit bytes that hash to zeros, the digest a run starts from.
   */
  lemma {:induction false} LatestHashesCompare(h: HashFn, a: seq<Entry>, b: seq<Entry>)
    requires LatestHash(History(h, a)) == LatestHash(History(h, b))
    ensures Shows(h, CompareRuns(h, a, b), SameTimestamps(a, b))
  {
    if a == [] || b == [] {
    } else if LastImage(h, a) == LastImage(h, b) {
      SameLastImage(h, a, b);
      LatestHashesCompare(h, a[..|a| - 1], b[..|b| - 1]);
      SameTimestampsGrow(a, b);
    }
  }

  lemma {:induction false} EqualLengthsPartAtCollisions(h: HashFn, a: seq<Entry>, b: seq<Entry>)
    requires |a| == |b|
    ensures !CompareRuns(h, a, b).AtZeroDigest?
  {
    if a == [] {
    } else {
      EqualLengthsPartAtCollisions(h, a[..|a| - 1], b[..|b| - 1]);
    }
  }

  lemma {:induction false} OtherLengthsPartAtOnce(h: HashFn, a: seq<Entry>, b: seq<Entry>)
    requires |a| != |b| && 0 < |a| <= TWO64 && 0 < |b| <= TWO64
    ensures CompareRuns(h, a, b).AtCollision?
  {
    assert (|a| - 1) % TWO64 == |a| - 1 && (|b| - 1) % TWO64 == |b| - 1;
    if LastImage(h, a) == LastImage(h, b) {
      SameLastImage(h, a, b);
      assert false;
    }
  }

  /**
   The hashed bytes carry the position, so for runs of 1 to 2^64 appends, and for runs of equal
   length, the same latest hash means as many appends at the same times, or a collision.
   */
  lemma {:induction false} LatestHashBindsTimestamps(h: HashFn, a: seq<Entry>, b: seq<Entry>)
    requires |a| == |b| || (0 < |a| <= TWO64 && 0 < |b| <= TWO64)
    requires LatestHash(History(h, a)) == LatestHash(History(h, b))
    ensures SameTimestamps(a, b)
         || (CompareRuns(h, a, b).AtCollision? && IsCollision(h, CompareRuns(h, a, b).pair))
  {
    LatestHashesCompare(h, a, b);
    if |a| == |b| {
      EqualLengthsPartAtCollisions(h, a, b);
    } else {
      OtherLengthsPartAtOnce(h, a, b);
    }
  }
}
