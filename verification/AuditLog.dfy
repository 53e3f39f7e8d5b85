/**
 The hash-chained audit log. A record is hashed as its first 64 bytes in memory; the chain value
 is carried from one event to the next, and the records go to an append-only file.
 */
module AuditLog {
  import opened Words

  datatype Event = Event(
    timestamp: uint64, commandId: uint32, nodeId: uint32, sequence: uint64,
    commandType: byte, decision: uint16)

  datatype Record = Record(event: Event, previousHash: Digest, eventHash: Digest)

  /** `sizeof(AuditRecord)`: 92 bytes of fields, padded to a multiple of eight. */
  const RECORD_BYTES := 96

  /** What one `write` of a record writes: all of it, a part, or nothing. */
  type ByteCount = n: nat | n <= RECORD_BYTES

  /** `sizeof(AuditRecord) - crypto_hash_sha256_BYTES`, the bytes that are hashed. */
  const HASHED_BYTES := 64

  function Fields(e: Event): (r: Bytes)
    ensures |r| == 28
  {
    LittleEndian(e.timestamp, 8) + LittleEndian(e.commandId, 4) + LittleEndian(e.nodeId, 4)
    + LittleEndian(e.sequence, 8) + [e.commandType, 0] + LittleEndian(e.decision, 2)
  }

  /**
   The bytes that are hashed: the event's fields with their padding, the previous hash, and the
   first four bytes of the still-zero event hash.
   */
  function Image(e: Event, previous: Digest): (r: Bytes)
    ensures |r| == HASHED_BYTES
  {
    Fields(e) + previous + Zeros(4)
  }

  /** The chain value after a list of events; zeros before the first. */
  function ChainHash(h: HashFn, events: seq<Event>): Digest {
    if events == [] then ZERO_DIGEST
    else h(Image(events[|events| - 1], ChainHash(h, events[..|events| - 1])))
  }

  /** The records of a list of events. */
  function Chain(h: HashFn, events: seq<Event>): (r: seq<Record>)
    ensures |r| == |events|
  {
    if events == [] then []
    else
      var front := events[..|events| - 1];
      Chain(h, front) + [Record(events[|events| - 1], ChainHash(h, front), ChainHash(h, events))]
  }

  /** A finished record as it lies in memory and is written to the file. */
  function RecordImage(r: Record): (image: Bytes)
    ensures |image| == RECORD_BYTES
  {
    Fields(r.event) + r.previousHash + r.eventHash + Zeros(4)
  }

  /** The file after a list of events, given how much of each record was written. */
  function Written(h: HashFn, events: seq<Event>, outcomes: seq<ByteCount>): Bytes
    requires |events| == |outcomes|
  {
    if events == [] then []
    else
      var n := |events| - 1;
      Written(h, events[..n], outcomes[..n]) + RecordImage(Chain(h, events)[n])[..outcomes[n]]
  }

  /** A file that holds every record whole, in order. */
  function FileOf(records: seq<Record>): (file: Bytes)
    ensures |file| == RECORD_BYTES * |records|
  {
    if records == [] then []
    else FileOf(records[..|records| - 1]) + RecordImage(records[|records| - 1])
  }

  class Log {
    const hash: HashFn
    var lastHash: Digest
    var initialized: bool
    var file: Bytes
    /** Every event that reached the hash chain, in order, and how much of its record was written. */
    ghost var events: seq<Event>
    ghost var outcomes: seq<ByteCount>

    ghost predicate Valid()
      reads this
    {
      && (initialized <==> events != [])
      && lastHash == ChainHash(hash, events)
      && |outcomes| == |events|
      && file == Written(hash, events, outcomes)
    }

    constructor Init(hash: HashFn)
      ensures Valid() && this.hash == hash
      ensures events == [] && outcomes == []
    {
      this.hash := hash;
      lastHash := ZERO_DIGEST;
      initialized := false;
      file := [];
      events := [];
      outcomes := [];
    }

    /**
     `openOk` says whether `open` succeeded and `written` how many bytes `write` wrote. The source
     looks at neither result any further: the chain goes on whatever reached the file.
     */
    method LogEvent(e: Event, openOk: bool, written: ByteCount)
      requires Valid()
      modifies this
      ensures Valid()
      ensures events == if openOk then old(events) + [e] else old(events)
      ensures outcomes == if openOk then old(outcomes) + [written] else old(outcomes)
    {
      if !openOk {
        return;
      }
      var previous := ZERO_DIGEST;
      if !initialized {
        initialized := true;
      } else {
        previous := lastHash;
      }
      var eventHash := hash(Image(e, previous));
      lastHash := eventHash;
      assert (events + [e])[..|events|] == events;
      assert (outcomes + [written])[..|events|] == outcomes;
      events := events + [e];
      outcomes := outcomes + [written];
      file := file + RecordImage(Record(e, previous, eventHash))[..written];
    }
  }

  // ---------- linkage ----------

  /** Each record carries its event and its predecessor's hash; the first starts from zeros. */
  lemma {:induction false} ChainLinks(h: HashFn, events: seq<Event>, k: nat)
    requires k < |events|
    ensures var r := Chain(h, events);
            && r[k].event == events[k]
            && r[k].previousHash == (if k == 0 then ZERO_DIGEST else r[k - 1].eventHash)
            && r[k].eventHash == h(Image(events[k], r[k].previousHash))
    decreases |events|
  {
    var front := events[..|events| - 1];
    if k < |events| - 1 {
      ChainLinks(h, front, k);
    } else if k > 0 {
      assert front != [];
      assert Chain(h, front)[k - 1].eventHash == ChainHash(h, front);
    }
  }

  ghost predicate AllWhole(outcomes: seq<ByteCount>) {
    forall i :: 0 <= i < |outcomes| ==> outcomes[i] == RECORD_BYTES
  }

  lemma {:induction false} ChainFront(h: HashFn, events: seq<Event>)
    requires events != []
    ensures Chain(h, events)[..|events| - 1] == Chain(h, events[..|events| - 1])
  {}

  lemma {:induction false} WholeImage(r: Record)
    ensures RecordImage(r)[..RECORD_BYTES] == RecordImage(r)
  {}

  lemma {:induction false} WholeWrites(h: HashFn, events: seq<Event>, outcomes: seq<ByteCount>)
    requires |events| == |outcomes| && AllWhole(outcomes)
    ensures Written(h, events, outcomes) == FileOf(Chain(h, events))
  {
    if events == [] {
    } else {
      var n := |events| - 1;
      WholeWrites(h, events[..n], outcomes[..n]);
      ChainFront(h, events);
      WholeImage(Chain(h, events)[n]);
    }
  }

  lemma {:induction false} WrittenLength(h: HashFn, events: seq<Event>, outcomes: seq<ByteCount>)
    requires |events| == |outcomes|
    ensures |Written(h, events, outcomes)| <= RECORD_BYTES * |events|
    ensures |Written(h, events, outcomes)| == RECORD_BYTES * |events| ==> AllWhole(outcomes)
  {
    if events == [] {
    } else {
      var n := |events| - 1;
      WrittenLength(h, events[..n], outcomes[..n]);
      assert forall i :: 0 <= i < n ==> outcomes[..n][i] == outcomes[i];
    }
  }

  /** The file is the whole chain exactly when no record was lost or cut short. */
  lemma {:induction false} FileIsChainIff(h: HashFn, events: seq<Event>, outcomes: seq<ByteCount>)
    requires |events| == |outcomes|
    ensures Written(h, events, outcomes) == FileOf(Chain(h, events)) <==> AllWhole(outcomes)
  {
    WrittenLength(h, events, outcomes);
    if AllWhole(outcomes) {
      WholeWrites(h, events, outcomes);
    }
  }

  // ---------- the bytes of the file ----------

  lemma {:induction false} FieldBytes(e: Event)
    ensures var f := Fields(e);
            && f[..8] == LittleEndian(e.timestamp, 8) && f[8..12] == LittleEndian(e.commandId, 4)
            && f[12..16] == LittleEndian(e.nodeId, 4) && f[16..24] == LittleEndian(e.sequence, 8)
            && f[24] == e.commandType && f[25] == 0 && f[26..28] == LittleEndian(e.decision, 2)
  {}

  /** The bytes of one record: the event, its predecessor's hash, and the hash of all before it. */
  ghost predicate Holds(h: HashFn, r: Bytes, e: Event, previous: Bytes)
    requires |r| == 96
  {
    && r[..8] == LittleEndian(e.timestamp, 8) && r[8..12] == LittleEndian(e.commandId, 4)
    && r[12..16] == LittleEndian(e.nodeId, 4) && r[16..24] == LittleEndian(e.sequence, 8)
    && r[24] == e.commandType && r[25] == 0 && r[26..28] == LittleEndian(e.decision, 2)
    && r[28..60] == previous
    && r[60..92] == h(r[..60] + [0, 0, 0, 0])
    && r[92..] == [0, 0, 0, 0]
  }

  lemma {:induction false} RecordParts(r: Record)
    ensures var image := RecordImage(r);
            && image[..28] == Fields(r.event) && image[28..60] == r.previousHash
            && image[60..92] == r.eventHash && image[92..] == [0, 0, 0, 0]
            && image[..60] + [0, 0, 0, 0] == Image(r.event, r.previousHash)
  {}

  lemma {:induction false} ImageHolds(h: HashFn, r: Record)
    requires r.eventHash == h(Image(r.event, r.previousHash))
    ensures Holds(h, RecordImage(r), r.event, r.previousHash)
  {
    RecordParts(r);
    FieldBytes(r.event);
    var f, image := Fields(r.event), RecordImage(r);
    assert image[..8] == f[..8] && image[8..12] == f[8..12] && image[12..16] == f[12..16];
    assert image[16..24] == f[16..24] && image[26..28] == f[26..28];
    assert image[24] == f[24] && image[25] == f[25];
  }

  lemma {:induction false} RecordInFile(records: seq<Record>, k: nat)
    requires k < |records|
    ensures FileOf(records)[96 * k..96 * k + 96] == RecordImage(records[k])
  {
    if k == |records| - 1 {
    } else {
      RecordInFile(records[..|records| - 1], k);
    }
  }

  /**
   Record `k` of a file written whole: its event's fields, then bytes 60 to 91 of the record before
   it (zeros in the first record), then the hash of its own first 60 bytes and four zeros.
   */
  lemma {:induction false} FileRecordBytes(h: HashFn, events: seq<Event>, outcomes: seq<ByteCount>, k: nat)
    requires |outcomes| == |events| && k < |events|
    requires forall i :: 0 <= i < |outcomes| ==> outcomes[i] == 96
    ensures var file := Written(h, events, outcomes);
            && |file| == 96 * |events|
            && Holds(h, file[96 * k..96 * k + 96], events[k],
                     if k == 0 then Zeros(32) else file[96 * k - 36..96 * k - 4])
  {
    var records := Chain(h, events);
    WholeWrites(h, events, outcomes);
    ChainLinks(h, events, k);
    RecordInFile(records, k);
    ImageHolds(h, records[k]);
    if k > 0 {
      RecordInFile(records, k - 1);
      RecordParts(records[k - 1]);
      assert FileOf(records)[96 * k - 36..96 * k - 4] == FileOf(records)[96 * (k - 1)..96 * (k - 1) + 96][60..92];
    }
  }

  /** However much of earlier records reached the file, the next write adds the start of its record. */
  lemma {:induction false} WriteAddsPrefix(h: HashFn, events: seq<Event>, outcomes: seq<ByteCount>, e: Event,
                                           written: ByteCount)
    requires |outcomes| == |events|
    ensures var whole := FileOf(Chain(h, events + [e]));
            Written(h, events + [e], outcomes + [written]) ==
            Written(h, events, outcomes) + whole[96 * |events|..96 * |events| + written]
  {
    var n := |events|;
    assert (events + [e])[..n] == events && (outcomes + [written])[..n] == outcomes;
    var records := Chain(h, events + [e]);
    RecordInFile(records, n);
    assert FileOf(records)[96 * n..96 * n + written] == FileOf(records)[96 * n..96 * n + 96][..written];
  }

  // ---------- binding ----------

  lemma {:induction false} FieldsDetermineEvent(a: Event, b: Event)
    requires Fields(a) == Fields(b)
    ensures a == b
  {
    WordRanges();
    var f, g := Fields(a), Fields(b);
    assert LittleEndian(a.timestamp, 8) == f[..8] == g[..8] == LittleEndian(b.timestamp, 8);
    assert LittleEndian(a.commandId, 4) == f[8..12] == g[8..12] == LittleEndian(b.commandId, 4);
    assert LittleEndian(a.nodeId, 4) == f[12..16] == g[12..16] == LittleEndian(b.nodeId, 4);
    assert LittleEndian(a.sequence, 8) == f[16..24] == g[16..24] == LittleEndian(b.sequence, 8);
    assert a.commandType == f[24] == g[24] == b.commandType;
    assert LittleEndian(a.decision, 2) == f[26..28] == g[26..28] == LittleEndian(b.decision, 2);
    LittleEndianInjective(a.timestamp, b.timestamp, 8);
    LittleEndianInjective(a.commandId, b.commandId, 4);
    LittleEndianInjective(a.nodeId, b.nodeId, 4);
    LittleEndianInjective(a.sequence, b.sequence, 8);
    LittleEndianInjective(a.decision, b.decision, 2);
  }

  lemma {:induction false} ImageDeterminesRecord(a: Event, p: Digest, b: Event, q: Digest)
    requires Image(a, p) == Image(b, q)
    ensures a == b && p == q
  {
    assert Fields(a) == Image(a, p)[..28] == Image(b, q)[..28] == Fields(b);
    assert p == Image(a, p)[28..60] == Image(b, q)[28..60] == q;
    FieldsDetermineEvent(a, b);
  }

  /** The bytes hashed for the last event of a run. */
  function LastImage(h: HashFn, events: seq<Event>): (r: Bytes)
    requires events != []
    ensures h(r) == ChainHash(h, events)
  {
    Image(events[|events| - 1], ChainHash(h, events[..|events| - 1]))
  }

  /** Walks two runs back from their ends to the last place where the hashed bytes differ, or to a start. */
  function CompareRuns(h: HashFn, a: seq<Event>, b: seq<Event>): Parting {
    if a == [] && b == [] then Nowhere
    else if a == [] then AtZeroDigest(LastImage(h, b))
    else if b == [] then AtZeroDigest(LastImage(h, a))
    else if LastImage(h, a) != LastImage(h, b) then AtCollision(InputPair(LastImage(h, a), LastImage(h, b)))
    else CompareRuns(h, a[..|a| - 1], b[..|b| - 1])
  }

  /**
   Any two runs with the same last hash logged the same events, or exhibit a collision, or exhibit
   bytes that hash to zeros, the digest a run starts from.
   */
  lemma {:induction false} LastHashesCompare(h: HashFn, a: seq<Event>, b: seq<Event>)
    requires ChainHash(h, a) == ChainHash(h, b)
    ensures Shows(h, CompareRuns(h, a, b), a == b)
  {
    if a == [] || b == [] {
    } else if LastImage(h, a) == LastImage(h, b) {
      var m, n := |a| - 1, |b| - 1;
      ImageDeterminesRecord(a[m], ChainHash(h, a[..m]), b[n], ChainHash(h, b[..n]));
      LastHashesCompare(h, a[..m], b[..n]);
      assert a == a[..m] + [a[m]] && b == b[..n] + [b[n]];
    }
  }

  lemma {:induction false} EqualLengthsPartAtCollisions(h: HashFn, a: seq<Event>, b: seq<Event>)
    requires |a| == |b|
    ensures !CompareRuns(h, a, b).AtZeroDigest?
  {
    if a == [] {
    } else {
      EqualLengthsPartAtCollisions(h, a[..|a| - 1], b[..|b| - 1]);
    }
  }

  /** Runs of equal length with the same last hash logged the same events, or exhibit a collision. */
  lemma {:induction false} LastHashBindsRun(h: HashFn, a: seq<Event>, b: seq<Event>)
    requires |a| == |b| && ChainHash(h, a) == ChainHash(h, b)
    ensures a == b || (CompareRuns(h, a, b).AtCollision? && IsCollision(h, CompareRuns(h, a, b).pair))
  {
    LastHashesCompare(h, a, b);
    EqualLengthsPartAtCollisions(h, a, b);
  }
}
