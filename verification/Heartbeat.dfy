/** Heartbeat verification: a freshness window, a sequence check and a gap check, over whole runs. */
module Heartbeat {
  import opened Words

  const HB_MISS_LIMIT := 2
  const HB_WINDOW_NS := 5_000_000_000

  datatype Packet = Packet(sequence: uint64, timestamp: uint64, intervalMs: uint32)

  datatype State = State(lastSeen: uint64, sequence: uint64, missCount: uint32)

  datatype Answer = Ok | Missed | Expired | SequenceInvalid | Invalid

  /** A packet pointer: null or a packet. */
  datatype PacketPointer = Null | Points(packet: Packet)

  const INITIAL := State(0, 0, 0)

  /** The value of a 64-bit pattern read as a signed integer. */
  function Signed(x: uint64): int {
    if x < TWO63 then x else x - TWO64
  }

  /** `|(int64_t)now - (int64_t)timestamp|` in two's complement, read back as unsigned. */
  function Skew(now: uint64, timestamp: uint64): uint64 {
    var delta := Signed((now - timestamp) % TWO64);
    if delta < 0 then -delta else delta
  }

  function MissWindow(p: Packet): nat {
    HB_MISS_LIMIT * p.intervalMs * 1_000_000
  }

  /** `later - earlier` on unsigned 64-bit words. */
  function Gap(earlier: uint64, later: uint64): uint64 {
    (later - earlier) % TWO64
  }

  function Decide(s: State, p: Packet, now: uint64): Answer {
    if Skew(now, p.timestamp) > HB_WINDOW_NS then Expired
    else if s.lastSeen != 0 && p.sequence <= s.sequence then SequenceInvalid
    else if s.lastSeen != 0 && Gap(s.lastSeen, now) > MissWindow(p) then Missed
    else Ok
  }

  function Next(s: State, p: Packet, now: uint64): State {
    match Decide(s, p, now)
    case Ok => State(now, p.sequence, 0)
    case Missed => s.(missCount := (s.missCount + 1) % TWO32)
    case _ => s
  }

  class Monitor {
    var lastSeen: uint64
    var sequence: uint64
    var missCount: uint32

    ghost function Model(): State
      reads this
    {
      State(lastSeen, sequence, missCount)
    }

    constructor Init()
      ensures Model() == INITIAL
    {
      lastSeen, sequence, missCount := 0, 0, 0;
    }

    method VerifyPacket(p: Packet, now: uint64) returns (answer: Answer)
      modifies this
      ensures answer == Decide(old(Model()), p, now)
      ensures Model() == Next(old(Model()), p, now)
    {
      var delta := Signed((now - p.timestamp) % TWO64);
      if delta < 0 {
        delta := -delta;
      }
      if delta > HB_WINDOW_NS {
        return Expired;
      }
      if lastSeen != 0 && p.sequence <= sequence {
        return SequenceInvalid;
      }
      var gap := (now - lastSeen) % TWO64;
      var missWindow := HB_MISS_LIMIT * p.intervalMs * 1_000_000;
      if lastSeen != 0 && gap > missWindow {
        missCount := (missCount + 1) % TWO32;
        return Missed;
      }
      lastSeen := now;
      sequence := p.sequence;
      missCount := 0;
      return Ok;
    }

    /** `heartbeat_verify` on its two pointers. */
    static method Verify(p: PacketPointer, state: Monitor?, now: uint64) returns (answer: Answer)
      modifies state
      ensures p.Null? || state == null ==> answer == Invalid
      ensures p.Null? && state != null ==> state.Model() == old(state.Model())
      ensures p.Points? && state != null ==>
                && answer == Decide(old(state.Model()), p.packet, now)
                && state.Model() == Next(old(state.Model()), p.packet, now)
    {
      if p.Null? || state == null {
        return Invalid;
      }
      answer := state.VerifyPacket(p.packet, now);
    }
  }

  // ---------- runs ----------

  datatype Arrival = Arrival(packet: Packet, now: uint64)

  function StateAfter(arrivals: seq<Arrival>): State {
    if arrivals == [] then INITIAL
    else
      var last := arrivals[|arrivals| - 1];
      Next(StateAfter(arrivals[..|arrivals| - 1]), last.packet, last.now)
  }

  /** The answer to the k-th packet of a run. */
  function AnswerTo(arrivals: seq<Arrival>, k: nat): Answer
    requires k < |arrivals|
  {
    Decide(StateAfter(arrivals[..k]), arrivals[k].packet, arrivals[k].now)
  }

  /** One past the index of the last accepted packet, or 0. */
  function LastOk(arrivals: seq<Arrival>): (n: nat)
    ensures n <= |arrivals|
  {
    if arrivals == [] then 0
    else if AnswerTo(arrivals, |arrivals| - 1) == Ok then |arrivals|
    else LastOk(arrivals[..|arrivals| - 1])
  }

  lemma {:induction false} AnswersKept(arrivals: seq<Arrival>, n: nat, k: nat)
    requires k < n <= |arrivals|
    ensures AnswerTo(arrivals[..n], k) == AnswerTo(arrivals, k)
  {
    assert arrivals[..n][..k] == arrivals[..k];
  }

  /** `s` records the arrival before position `n` of a run, or nothing when `n` is 0. */
  ghost predicate Records(s: State, arrivals: seq<Arrival>, n: nat)
    requires n <= |arrivals|
  {
    if n == 0 then s.lastSeen == 0
    else s.lastSeen == arrivals[n - 1].now && s.sequence == arrivals[n - 1].packet.sequence
  }

  /** The state records the last accepted packet. */
  lemma {:induction false} StateIsLastOk(arrivals: seq<Arrival>)
    ensures Records(StateAfter(arrivals), arrivals, LastOk(arrivals))
  {
    if arrivals == [] || AnswerTo(arrivals, |arrivals| - 1) == Ok {
    } else {
      StateIsLastOk(arrivals[..|arrivals| - 1]);
    }
  }

  lemma {:induction false} LastOkIsLast(arrivals: seq<Arrival>)
    ensures LastOk(arrivals) > 0 ==> AnswerTo(arrivals, LastOk(arrivals) - 1) == Ok
    ensures forall k :: LastOk(arrivals) <= k < |arrivals| ==> AnswerTo(arrivals, k) != Ok
  {
    if arrivals == [] || AnswerTo(arrivals, |arrivals| - 1) == Ok {
    } else {
      var front := arrivals[..|arrivals| - 1];
      LastOkIsLast(front);
      forall k | 0 <= k < |front| ensures AnswerTo(front, k) == AnswerTo(arrivals, k) {
        AnswersKept(arrivals, |front|, k);
      }
    }
  }

  /** Packet `j` follows the accepted packet `i` in sequence and within its own miss window. */
  ghost predicate Follows(arrivals: seq<Arrival>, i: nat, j: nat)
    requires i < j < |arrivals|
  {
    && arrivals[i].packet.sequence < arrivals[j].packet.sequence
    && Gap(arrivals[i].now, arrivals[j].now) <= MissWindow(arrivals[j].packet)
  }

  ghost predicate Fresh(a: Arrival) {
    Skew(a.now, a.packet.timestamp) <= HB_WINDOW_NS
  }

  /**
   In a run, a packet is accepted exactly when it is fresh and, if one was accepted before at a
   positive clock reading, it follows the last accepted one. The clock may run either way.
   */
  lemma {:induction false} AcceptedIff(arrivals: seq<Arrival>, j: nat)
    requires j < |arrivals|
    ensures var n := LastOk(arrivals[..j]);
            AnswerTo(arrivals, j) == Ok <==>
            Fresh(arrivals[j]) && (n > 0 && arrivals[n - 1].now > 0 ==> Follows(arrivals, n - 1, j))
  {
    var n := LastOk(arrivals[..j]);
    StateIsLastOk(arrivals[..j]);
  }

  lemma {:induction false} SkewTest(now: uint64, timestamp: uint64)
    ensures Skew(now, timestamp) > HB_WINDOW_NS
       <==> 5_000_000_000 < (now - timestamp) % 0x1_0000_0000_0000_0000 < 0x1_0000_0000_0000_0000 - 5_000_000_000
  {}

  /** The answer to a packet when `seen` says whether one was accepted at a positive reading, and `last` is it. */
  ghost predicate Answered(answer: Answer, a: Arrival, seen: bool, last: Arrival) {
    var d := (a.now - a.packet.timestamp) % 0x1_0000_0000_0000_0000;
    var stale := 5_000_000_000 < d < 0x1_0000_0000_0000_0000 - 5_000_000_000;
    var gap := (a.now - last.now) % 0x1_0000_0000_0000_0000;
    var late := gap > 2 * a.packet.intervalMs * 1_000_000;
    && (answer == Expired <==> stale)
    && (answer == SequenceInvalid <==> !stale && seen && a.packet.sequence <= last.packet.sequence)
    && (answer == Missed <==> !stale && seen && a.packet.sequence > last.packet.sequence && late)
    && (answer == Ok <==> !stale && (seen ==> a.packet.sequence > last.packet.sequence && !late))
    && answer != Invalid
  }

  /** In a run, exactly when each answer is given, in terms of the packet and the last accepted one. */
  lemma {:induction false} AnswersIff(arrivals: seq<Arrival>, j: nat)
    requires j < |arrivals|
    ensures var n := LastOk(arrivals[..j]);
            var seen := n > 0 && arrivals[n - 1].now > 0;
            Answered(AnswerTo(arrivals, j), arrivals[j], seen, if seen then arrivals[n - 1] else arrivals[j])
  {
    StateIsLastOk(arrivals[..j]);
    SkewTest(arrivals[j].now, arrivals[j].packet.timestamp);
  }

  lemma {:induction false} LastOkReaches(arrivals: seq<Arrival>, i: nat, j: nat)
    requires i < j <= |arrivals| && AnswerTo(arrivals, i) == Ok
    ensures i < LastOk(arrivals[..j]) <= j
    ensures AnswerTo(arrivals, LastOk(arrivals[..j]) - 1) == Ok
  {
    LastOkIsLast(arrivals[..j]);
    AnswersKept(arrivals, j, i);
    AnswersKept(arrivals, j, LastOk(arrivals[..j]) - 1);
  }

  /** Accepted packets have strictly increasing sequence numbers while they are read at positive times. */
  lemma {:induction false} SequencesIncrease(arrivals: seq<Arrival>, i: nat, j: nat)
    requires i < j < |arrivals|
    requires forall k :: i <= k < j && AnswerTo(arrivals, k) == Ok ==> arrivals[k].now > 0
    requires AnswerTo(arrivals, i) == Ok && AnswerTo(arrivals, j) == Ok
    ensures arrivals[i].packet.sequence < arrivals[j].packet.sequence
    decreases j
  {
    AcceptedIff(arrivals, j);
    LastOkReaches(arrivals, i, j);
    var n := LastOk(arrivals[..j]);
    if i < n - 1 {
      SequencesIncrease(arrivals, i, n - 1);
    }
  }

  lemma {:induction false} ReplayedStep(s: State, p: Packet, now: uint64)
    requires Decide(s, p, now) == Ok
    ensures Decide(Next(s, p, now), p, now) != Ok <==> now != 0
  {}

  /**
   The premise on the readings is needed: the packet a run accepted last is refused when it arrives
   again at once exactly when the clock does not read 0, the value the state uses for "nothing seen
   yet".
   */
  lemma {:induction false} ReplayRefusedIff(arrivals: seq<Arrival>, last: Arrival)
    requires AnswerTo(arrivals + [last], |arrivals|) == Ok
    ensures AnswerTo(arrivals + [last, last], |arrivals| + 1) != Ok <==> last.now != 0
  {
    assert (arrivals + [last, last])[..|arrivals| + 1] == arrivals + [last];
    assert (arrivals + [last])[..|arrivals|] == arrivals;
    ReplayedStep(StateAfter(arrivals), last.packet, last.now);
  }

  /** Successive acceptances are at most one miss window of the later packet apart, as the code measures it. */
  lemma {:induction false} AcceptancesAreClose(arrivals: seq<Arrival>, i: nat, j: nat)
    requires i < j < |arrivals| && arrivals[i].now > 0
    requires AnswerTo(arrivals, i) == Ok && AnswerTo(arrivals, j) == Ok
    requires forall k :: i < k < j ==> AnswerTo(arrivals, k) != Ok
    ensures Gap(arrivals[i].now, arrivals[j].now) <= MissWindow(arrivals[j].packet)
    ensures arrivals[j].now - arrivals[i].now <= MissWindow(arrivals[j].packet)
  {
    AcceptedIff(arrivals, j);
    LastOkReaches(arrivals, i, j);
  }

  // ---------- after a MISSED answer ----------

  /** While nothing is accepted, the last acceptance stays the same. */
  lemma {:induction false} LastOkStays(arrivals: seq<Arrival>, i: nat, j: nat)
    requires i <= j <= |arrivals|
    requires forall k :: i <= k < j ==> AnswerTo(arrivals, k) != Ok
    ensures LastOk(arrivals[..j]) == LastOk(arrivals[..i])
  {
    if i == j {
    } else {
      LastOkStays(arrivals, i, j - 1);
      AnswersKept(arrivals, j, j - 1);
      assert arrivals[..j][..j - 1] == arrivals[..j - 1];
    }
  }

  /** A MISSED answer: a packet was accepted before, and its successor is now out of its window. */
  lemma {:induction false} MissedMeans(arrivals: seq<Arrival>, i: nat)
    requires i < |arrivals| && AnswerTo(arrivals, i) == Missed
    ensures var n := LastOk(arrivals[..i]);
            && n > 0 && arrivals[n - 1].now > 0
            && Gap(arrivals[n - 1].now, arrivals[i].now) > MissWindow(arrivals[i].packet)
  {
    StateIsLastOk(arrivals[..i]);
  }

  /** Packet `k` takes up the sequence again where the acceptance just before position `n` left it. */
  ghost predicate Resumes(arrivals: seq<Arrival>, n: nat, k: nat)
    requires 0 < n <= k < |arrivals|
  {
    Fresh(arrivals[k]) && Follows(arrivals, n - 1, k)
  }

  /** While nothing was accepted since a MISSED answer, acceptance is resuming the old sequence. */
  lemma {:induction false} AcceptedAfterMissIff(arrivals: seq<Arrival>, i: nat, k: nat)
    requires i < k < |arrivals| && AnswerTo(arrivals, i) == Missed
    requires forall m :: i < m < k ==> AnswerTo(arrivals, m) != Ok
    ensures 0 < LastOk(arrivals[..i]) <= i
    ensures AnswerTo(arrivals, k) == Ok <==> Resumes(arrivals, LastOk(arrivals[..i]), k)
  {
    MissedMeans(arrivals, i);
    LastOkStays(arrivals, i, k);
    AcceptedIff(arrivals, k);
  }

  /**
   A MISSED answer is final exactly as long as no later packet resumes the sequence where the last
   acceptance before the miss left it, fresh and within that later packet's own window.
   */
  lemma {:induction false} MissedIsFinalIff(arrivals: seq<Arrival>, i: nat, j: nat)
    requires i < j < |arrivals| && AnswerTo(arrivals, i) == Missed
    ensures 0 < LastOk(arrivals[..i]) <= i
    ensures (forall k :: i < k <= j ==> AnswerTo(arrivals, k) != Ok)
       <==> (forall k :: i < k <= j ==> !Resumes(arrivals, LastOk(arrivals[..i]), k))
    decreases j
  {
    MissedMeans(arrivals, i);
    if i + 1 < j {
      MissedIsFinalIff(arrivals, i, j - 1);
    }
    if forall m :: i < m < j ==> AnswerTo(arrivals, m) != Ok {
      AcceptedAfterMissIff(arrivals, i, j);
    }
  }

  /** Clock readings never go back. */
  ghost predicate ClockRuns(arrivals: seq<Arrival>) {
    forall i, j :: 0 <= i < j < |arrivals| ==> arrivals[i].now <= arrivals[j].now
  }

  lemma {:induction false} GapWhenForward(earlier: uint64, later: uint64)
    requires earlier <= later
    ensures Gap(earlier, later) == later - earlier
  {}

  /**
   In particular, while the clock never goes back, after a MISSED answer no later packet is accepted
   as long as none announces a longer interval than the missed one did.
   */
  lemma {:induction false} MissedIsFinal(arrivals: seq<Arrival>, i: nat, j: nat)
    requires ClockRuns(arrivals) && i < j < |arrivals|
    requires AnswerTo(arrivals, i) == Missed
    requires forall k :: i < k <= j ==> arrivals[k].packet.intervalMs <= arrivals[i].packet.intervalMs
    ensures AnswerTo(arrivals, j) != Ok
  {
    MissedMeans(arrivals, i);
    MissedIsFinalIff(arrivals, i, j);
    var n := LastOk(arrivals[..i]);
    forall k | i < k <= j ensures !Resumes(arrivals, n, k) {
      GapWhenForward(arrivals[n - 1].now, arrivals[i].now);
      GapWhenForward(arrivals[n - 1].now, arrivals[k].now);
      assert arrivals[k].now - arrivals[n - 1].now > MissWindow(arrivals[i].packet) >= MissWindow(arrivals[k].packet);
    }
  }

  /** Announcing a longer interval can resume the sequence after a miss. */
  lemma {:induction false} LongerIntervalResumes()
    ensures var second := 1_000_000_000;
            var arrivals := [Arrival(Packet(1, second, 1000), second),
                             Arrival(Packet(2, 4 * second, 1000), 4 * second),
                             Arrival(Packet(3, 4 * second, 2000), 4 * second)];
            && ClockRuns(arrivals)
            && AnswerTo(arrivals, 1) == Missed
            && AnswerTo(arrivals, 2) == Ok
  {
    var second := 1_000_000_000;
    var arrivals := [Arrival(Packet(1, second, 1000), second),
                     Arrival(Packet(2, 4 * second, 1000), 4 * second),
                     Arrival(Packet(3, 4 * second, 2000), 4 * second)];
    assert arrivals[..0] == [] && arrivals[..1] == [arrivals[0]] && arrivals[..2] == [arrivals[0], arrivals[1]];
    assert arrivals[..1][..0] == [] && arrivals[..2][..1] == arrivals[..1];
    assert StateAfter(arrivals[..1]) == State(second, 1, 0);
    assert StateAfter(arrivals[..2]) == State(second, 1, 1);
  }

  /** Misses answered since the last acceptance, or since the start. */
  function MissesSinceOk(arrivals: seq<Arrival>): nat {
    if arrivals == [] then 0
    else
      var front := arrivals[..|arrivals| - 1];
      match AnswerTo(arrivals, |arrivals| - 1)
      case Ok => 0
      case Missed => MissesSinceOk(front) + 1
      case _ => MissesSinceOk(front)
  }

  lemma {:induction false} MissCountIsMisses(arrivals: seq<Arrival>)
    ensures StateAfter(arrivals).missCount == MissesSinceOk(arrivals) % TWO32
  {
    if arrivals == [] {
    } else {
      MissCountIsMisses(arrivals[..|arrivals| - 1]);
      WrapSucc32(MissesSinceOk(arrivals[..|arrivals| - 1]));
    }
  }

  // ---------- clock arithmetic ----------

  /** The gap test is the true one unless the clock has stepped back, by any step a clock would take. */
  lemma {:induction false} GapExactIff(seen: uint64, now: uint64, p: Packet)
    ensures (Gap(seen, now) > MissWindow(p) <==> now - seen > MissWindow(p))
       <==> seen <= now || seen - now >= TWO64 - MissWindow(p)
  {
    if seen > now {
      assert (now - seen) % TWO64 == now - seen + TWO64;
    } else {
      GapWhenForward(seen, now);
    }
  }

  /**
   In a run, a fresh packet next in sequence but read before the last acceptance is answered MISSED,
   unless the step back is so long that the wrapped gap fits the window.
   */
  lemma {:induction false} StepBackIsMissedIff(arrivals: seq<Arrival>, j: nat)
    requires j < |arrivals| && Fresh(arrivals[j])
    requires var n := LastOk(arrivals[..j]);
             && n > 0 && arrivals[j].now < arrivals[n - 1].now
             && arrivals[n - 1].packet.sequence < arrivals[j].packet.sequence
    ensures var n := LastOk(arrivals[..j]);
            AnswerTo(arrivals, j) == Missed <==>
            arrivals[n - 1].now - arrivals[j].now < TWO64 - MissWindow(arrivals[j].packet)
  {
    StateIsLastOk(arrivals[..j]);
    GapExactIff(arrivals[LastOk(arrivals[..j]) - 1].now, arrivals[j].now, arrivals[j].packet);
  }

  function Distance(a: uint64, b: uint64): nat {
    if a >= b then a - b else b - a
  }

  /** The freshness test is the true distance in time unless the two readings are almost 2^64 apart. */
  lemma {:induction false} FreshnessExactIff(now: uint64, timestamp: uint64)
    ensures (Skew(now, timestamp) > HB_WINDOW_NS <==> Distance(now, timestamp) > HB_WINDOW_NS)
       <==> Distance(now, timestamp) < TWO64 - HB_WINDOW_NS
  {
    if now >= timestamp {
      assert (now - timestamp) % TWO64 == now - timestamp;
    } else {
      assert (now - timestamp) % TWO64 == now - timestamp + TWO64;
    }
  }
}
