/**
 The attribution table: per-fingerprint scores, tiers and a 16-slot event ring, updated in place.
 It is measured against a fold over each fingerprint's own events.
 */
module Attribution {
  import opened Words

  const MAX_ACTORS := 256
  const EVENT_LOG_SIZE := 16

  const SCORE_REPLAY := 10
  const SCORE_SIG_FLOOD := 25
  const SCORE_TIMING_ANOMALY := 5
  const SCORE_SEQ_VIOLATION := 15
  const SCORE_OTHER := 5

  type Fingerprint = f: Bytes | |f| == 32 witness Zeros(32)

  datatype EventKind = Replay | SigFlood | TimingAnomaly | SeqViolation | AuthFail

  datatype Tier = Unknown | Probing | Active | Persistent

  /** One reported event, with the two clock readings the call may take. */
  datatype Report = Report(fingerprint: Fingerprint, kind: EventKind, createdAt: uint64, at: uint64)

  datatype EventRecord = EventRecord(kind: EventKind, timestamp: uint64)

  datatype Actor = Actor(
    fingerprint: Fingerprint, score: uint32, tier: Tier, firstSeen: uint64, lastSeen: uint64,
    eventCount: uint32, log: seq<EventRecord>, active: bool)

  function ScoreFor(kind: EventKind): (s: nat)
    ensures 5 <= s <= 25
  {
    match kind
    case Replay => SCORE_REPLAY
    case SigFlood => SCORE_SIG_FLOOD
    case TimingAnomaly => SCORE_TIMING_ANOMALY
    case SeqViolation => SCORE_SEQ_VIOLATION
    case _ => SCORE_OTHER
  }

  // ---------- the reference: a fold over one fingerprint's events ----------

  type History = seq<Report>

  function EventsOf(history: History, f: Fingerprint): History {
    if history == [] then []
    else
      var rest, last := history[..|history| - 1], history[|history| - 1];
      if last.fingerprint == f then EventsOf(rest, f) + [last] else EventsOf(rest, f)
  }

  /** The first 256 fingerprints, each once, in the order they were first reported. */
  function Known(history: History): (r: seq<Fingerprint>)
    ensures |r| <= MAX_ACTORS
  {
    if history == [] then []
    else
      var known, f := Known(history[..|history| - 1]), history[|history| - 1].fingerprint;
      if f in known || |known| >= MAX_ACTORS then known else known + [f]
  }

  function Total(events: History): nat {
    if events == [] then 0
    else Total(events[..|events| - 1]) + ScoreFor(events[|events| - 1].kind)
  }

  /** The threshold class of a score. */
  function TierOfScore(score: nat): Tier {
    if score >= 60 then Persistent
    else if score >= 35 then Active
    else if score >= 15 then Probing
    else Unknown
  }

  /** The stored tier: the class of the wrapped score, except that a low score changes nothing. */
  function TierOfEvents(events: History): Tier {
    if events == [] then Unknown
    else
      var score := Total(events) % TWO32;
      if score >= 15 then TierOfScore(score) else TierOfEvents(events[..|events| - 1])
  }

  lemma {:induction false} HistoryGrows(history: History, e: Report, f: Fingerprint)
    ensures EventsOf(history + [e], f) ==
            if e.fingerprint == f then EventsOf(history, f) + [e] else EventsOf(history, f)
    ensures Known(history + [e]) ==
            if e.fingerprint in Known(history) || |Known(history)| == 256 then Known(history)
            else Known(history) + [e.fingerprint]
  {
    assert (history + [e])[..|history|] == history;
  }

  lemma {:induction false} KnownAreDistinct(history: History)
    ensures forall i, j :: 0 <= i < j < |Known(history)| ==> Known(history)[i] != Known(history)[j]
  {
    if history == [] {
    } else {
      KnownAreDistinct(history[..|history| - 1]);
    }
  }

  /** While there is room, a fingerprint that is not known has never been reported. */
  lemma {:induction false} UnknownIsNew(history: History, f: Fingerprint)
    requires |Known(history)| < MAX_ACTORS && f !in Known(history)
    ensures EventsOf(history, f) == []
  {
    if history == [] {
    } else {
      UnknownIsNew(history[..|history| - 1], f);
    }
  }

  // ---------- the table against the reference ----------

  /** The log slots hold the last 16 events (or all of them), each at its index modulo 16. */
  ghost predicate LogOf(log: seq<EventRecord>, events: History) {
    && |log| == EVENT_LOG_SIZE
    && (forall k :: 0 <= k < |events| && |events| - EVENT_LOG_SIZE <= k ==>
          log[k % EVENT_LOG_SIZE] == EventRecord(events[k].kind, events[k].at))
    && (forall s :: |events| <= s < EVENT_LOG_SIZE ==> log[s] == EventRecord(Replay, 0))
  }

  ghost predicate ActorOf(a: Actor, f: Fingerprint, events: History) {
    && events != []
    && a.fingerprint == f && a.active
    && a.score == Total(events) % TWO32
    && a.tier == TierOfEvents(events)
    && a.firstSeen == events[0].createdAt
    && a.lastSeen == events[|events| - 1].at
    && a.eventCount == |events| % TWO32
    && LogOf(a.log, events)
  }

  ghost predicate TableOf(actors: seq<Actor>, history: History) {
    && |actors| == |Known(history)|
    && forall i :: 0 <= i < |actors| ==> ActorOf(actors[i], Known(history)[i], EventsOf(history, Known(history)[i]))
  }

  /** A slot as `memset` leaves it. */
  function Blank(): Actor {
    Actor(Zeros(32), 0, Unknown, 0, 0, 0, seq(EVENT_LOG_SIZE, _ => EventRecord(Replay, 0)), false)
  }

  /** A blank slot taken for a fingerprint, before its first event is counted. */
  function Created(f: Fingerprint, createdAt: uint64): Actor {
    Blank().(fingerprint := f, firstSeen := createdAt, tier := Unknown, active := true)
  }

  /** One event counted in place: score, tier, log slot, last-seen time and event counter. */
  function Counted(a: Actor, kind: EventKind, at: uint64): Actor
    requires |a.log| == EVENT_LOG_SIZE
  {
    var score := (a.score + ScoreFor(kind)) % TWO32;
    var tier := if score >= 60 then Persistent
                else if score >= 35 then Active
                else if score >= 15 then Probing
                else a.tier;
    a.(score := score, tier := tier, log := a.log[a.eventCount % EVENT_LOG_SIZE := EventRecord(kind, at)],
       lastSeen := at, eventCount := (a.eventCount + 1) % TWO32)
  }

  lemma {:induction false} LogGrows(log: seq<EventRecord>, events: History, e: Report)
    requires LogOf(log, events)
    ensures LogOf(log[|events| % EVENT_LOG_SIZE := EventRecord(e.kind, e.at)], events + [e])
  {
    var n := |events|;
    var log' := log[n % EVENT_LOG_SIZE := EventRecord(e.kind, e.at)];
    forall k | 0 <= k <= n && n + 1 - EVENT_LOG_SIZE <= k
      ensures log'[k % EVENT_LOG_SIZE] == EventRecord((events + [e])[k].kind, (events + [e])[k].at)
    {
      if k < n {
        DistinctSlots(k, n, EVENT_LOG_SIZE);
        assert log[k % EVENT_LOG_SIZE] == EventRecord(events[k].kind, events[k].at);
      }
    }
  }

  /** The wrapped 32-bit event counter names the same log slot as the true count. */
  lemma {:induction false} SlotOfCounter(n: nat)
    ensures n % TWO32 % EVENT_LOG_SIZE == n % EVENT_LOG_SIZE
    ensures (n % TWO32 + 1) % TWO32 == (n + 1) % TWO32
  {
    ModOfMod(n, EVENT_LOG_SIZE, 0x1000_0000);
  }

  lemma {:induction false} ScoreGrows(events: History, e: Report)
    ensures Total(events + [e]) % TWO32 == (Total(events) % TWO32 + ScoreFor(e.kind)) % TWO32
    ensures var score := Total(events + [e]) % TWO32;
            TierOfEvents(events + [e]) == if score >= 15 then TierOfScore(score) else TierOfEvents(events)
  {
    assert (events + [e])[..|events|] == events;
    WrapAdd(Total(events), ScoreFor(e.kind));
  }

  lemma {:induction false} CountedKnown(a: Actor, f: Fingerprint, events: History, e: Report)
    requires ActorOf(a, f, events)
    ensures ActorOf(Counted(a, e.kind, e.at), f, events + [e])
  {
    SlotOfCounter(|events|);
    LogGrows(a.log, events, e);
    ScoreGrows(events, e);
  }

  lemma {:induction false} CountedFirst(e: Report)
    ensures ActorOf(Counted(Created(e.fingerprint, e.createdAt), e.kind, e.at), e.fingerprint, [e])
  {
    ScoreGrows([], e);
    assert [] + [e] == [e];
  }

  lemma {:induction false} TableCounts(actors: seq<Actor>, history: History, e: Report, i: nat)
    requires TableOf(actors, history)
    requires i < |actors| && Known(history)[i] == e.fingerprint
    ensures |actors[i].log| == EVENT_LOG_SIZE
    ensures TableOf(actors[i := Counted(actors[i], e.kind, e.at)], history + [e])
  {
    var actors' := actors[i := Counted(actors[i], e.kind, e.at)];
    KnownAreDistinct(history);
    HistoryGrows(history, e, e.fingerprint);
    forall k | 0 <= k < |actors|
      ensures ActorOf(actors'[k], Known(history)[k], EventsOf(history + [e], Known(history)[k]))
    {
      HistoryGrows(history, e, Known(history)[k]);
      if k == i {
        CountedKnown(actors[i], e.fingerprint, EventsOf(history, e.fingerprint), e);
      }
    }
  }

  lemma {:induction false} TableAdmits(actors: seq<Actor>, history: History, e: Report)
    requires TableOf(actors, history)
    requires e.fingerprint !in Known(history) && |actors| < MAX_ACTORS
    ensures TableOf(actors + [Counted(Created(e.fingerprint, e.createdAt), e.kind, e.at)], history + [e])
  {
    UnknownIsNew(history, e.fingerprint);
    HistoryGrows(history, e, e.fingerprint);
    CountedFirst(e);
    forall k | 0 <= k < |actors|
      ensures ActorOf(actors[k], Known(history)[k], EventsOf(history + [e], Known(history)[k]))
    {
      HistoryGrows(history, e, Known(history)[k]);
    }
  }

  lemma {:induction false} TableIgnores(actors: seq<Actor>, history: History, e: Report)
    requires TableOf(actors, history)
    requires e.fingerprint !in Known(history) && |actors| == MAX_ACTORS
    ensures TableOf(actors, history + [e])
  {
    HistoryGrows(history, e, e.fingerprint);
    forall k | 0 <= k < |actors|
      ensures ActorOf(actors[k], Known(history)[k], EventsOf(history + [e], Known(history)[k]))
    {
      HistoryGrows(history, e, Known(history)[k]);
    }
  }

  /** What the search finds in an agreeing table: the fingerprint's place among the known ones. */
  lemma {:induction false} SearchIsKnown(actors: seq<Actor>, history: History, f: Fingerprint, i: nat)
    requires TableOf(actors, history)
    requires i <= |actors| && forall k :: 0 <= k < i ==> actors[k].fingerprint != f
    ensures i < |actors| && actors[i].fingerprint == f ==> Known(history)[i] == f && f in Known(history)
    ensures i == |actors| ==> f !in Known(history)
  {
    forall k | 0 <= k < |actors| ensures actors[k].fingerprint == Known(history)[k] {
      assert ActorOf(actors[k], Known(history)[k], EventsOf(history, Known(history)[k]));
    }
  }

  /** What finding or creating the actor of a report does to the table, and the index it answers. */
  ghost predicate Found(actors: seq<Actor>, found: seq<Actor>, history: History, e: Report, i: nat) {
    if e.fingerprint in Known(history) then
      found == actors && i < |found| && i < |Known(history)| && Known(history)[i] == e.fingerprint
    else if |actors| < MAX_ACTORS then
      found == actors + [Created(e.fingerprint, e.createdAt)] && i == |actors|
    else
      found == actors && i == MAX_ACTORS
  }

  /** From the table before a report, and after its actor is found or created, to the table after it. */
  lemma {:induction false} RecordRound(actors: seq<Actor>, found: seq<Actor>, history: History, e: Report, i: nat)
    requires TableOf(actors, history)
    requires Found(actors, found, history, e, i)
    ensures i < |found| ==> |found[i].log| == EVENT_LOG_SIZE
    ensures i < |found| ==> TableOf(found[i := Counted(found[i], e.kind, e.at)], history + [e])
    ensures i == MAX_ACTORS ==> TableOf(found, history + [e])
    ensures i == MAX_ACTORS <==> e.fingerprint !in Known(history + [e])
    ensures i == MAX_ACTORS || i < |found|
  {
    HistoryGrows(history, e, e.fingerprint);
    if e.fingerprint in Known(history) {
      TableCounts(actors, history, e, i);
    } else if |actors| < MAX_ACTORS {
      TableAdmits(actors, history, e);
      var counted := Counted(Created(e.fingerprint, e.createdAt), e.kind, e.at);
      assert found[i := counted] == actors + [counted];
    } else {
      TableIgnores(actors, history, e);
    }
  }

  // ---------- the structure itself ----------

  class Table {
    var actors: array<Actor>
    var count: nat
    /** Every event reported since initialisation, recorded or not. */
    ghost var history: History

    ghost predicate Valid()
      reads this, actors
    {
      && actors.Length == MAX_ACTORS && count <= MAX_ACTORS
      && TableOf(actors[..count], history)
      && forall k :: count <= k < MAX_ACTORS ==> actors[k] == Blank()
    }

    constructor Init()
      ensures Valid() && fresh(actors)
      ensures history == [] && count == 0
      ensures forall i :: 0 <= i < 256 ==> !actors[i].active && actors[i].score == 0 && actors[i].eventCount == 0
    {
      actors := new Actor[MAX_ACTORS](_ => Blank());
      count := 0;
      history := [];
    }

    /** The index of the actor with a fingerprint, else `count`. */
    method Find(f: Fingerprint) returns (i: nat)
      requires count <= actors.Length
      ensures i <= count
      ensures i < count ==> actors[i].fingerprint == f
      ensures forall k :: 0 <= k < i ==> actors[k].fingerprint != f
    {
      i := 0;
      while i < count
        invariant 0 <= i <= count
        invariant forall k :: 0 <= k < i ==> actors[k].fingerprint != f
      {
        if actors[i].fingerprint == f {
          return;
        }
        i := i + 1;
      }
    }

    /** The actor's index, a new actor's index, or `MAX_ACTORS` when there is no room for one. */
    method FindOrCreate(e: Report) returns (i: nat)
      requires Valid()
      modifies this`count, actors
      ensures count <= MAX_ACTORS
      ensures Found(old(actors[..count]), actors[..count], history, e, i)
      ensures forall k :: count <= k < MAX_ACTORS ==> actors[k] == Blank()
      ensures i == MAX_ACTORS ==> actors[..] == old(actors[..]) && count == old(count)
    {
      i := Find(e.fingerprint);
      SearchIsKnown(actors[..count], history, e.fingerprint, i);
      if i < count {
        return;
      }
      if count >= MAX_ACTORS {
        return MAX_ACTORS;
      }
      actors[i] := actors[i].(fingerprint := e.fingerprint, firstSeen := e.createdAt, tier := Unknown, active := true);
      count := count + 1;
    }

    /** Answers whether the event was recorded: the source returns 0 or -1. */
    method RecordEvent(e: Report) returns (ok: bool)
      requires Valid()
      modifies this`count, this`history, actors
      ensures Valid()
      ensures history == old(history) + [e]
      ensures ok <==> e.fingerprint in Known(history)
      ensures !ok ==> actors[..] == old(actors[..]) && count == old(count)
    {
      var i := FindOrCreate(e);
      ghost var found := actors[..count];
      RecordRound(old(actors[..count]), found, history, e, i);
      history := history + [e];
      if i == MAX_ACTORS {
        return false;
      }
      actors[i] := Counted(actors[i], e.kind, e.at);
      assert actors[..count] == found[i := Counted(found[i], e.kind, e.at)];
      return true;
    }

    method Score(f: Fingerprint) returns (tier: Tier)
      requires Valid()
      ensures tier == if f in Known(history) then TierOfEvents(EventsOf(history, f)) else Unknown
    {
      var i := Find(f);
      SearchIsKnown(actors[..count], history, f, i);
      if i < count {
        assert ActorOf(actors[..count][i], f, EventsOf(history, f));
        return actors[i].tier;
      }
      return Unknown;
    }
  }

  // ---------- what an actor's record says about its events ----------

  function CountOf(events: History, kind: EventKind): nat {
    if events == [] then 0
    else CountOf(events[..|events| - 1], kind) + if events[|events| - 1].kind == kind then 1 else 0
  }

  /** The sum of the scores weighs each kind of event by its own score. */
  lemma {:induction false} TotalIsWeighted(events: History)
    ensures Total(events) ==
            10 * CountOf(events, Replay) + 25 * CountOf(events, SigFlood) + 5 * CountOf(events, TimingAnomaly)
            + 15 * CountOf(events, SeqViolation) + 5 * CountOf(events, AuthFail)
  {
    if events == [] {
    } else {
      TotalIsWeighted(events[..|events| - 1]);
    }
  }

  /** The fields of a record kept for `f`, from the events of `f` alone. */
  ghost predicate Reflects(a: Actor, f: Fingerprint, events: History) {
    var n := |events|;
    && n > 0 && |a.log| == 16
    && a.active && a.fingerprint == f
    && a.firstSeen == events[0].createdAt && a.lastSeen == events[n - 1].at
    && a.eventCount == n % 0x1_0000_0000
    && a.score ==
         (10 * CountOf(events, Replay) + 25 * CountOf(events, SigFlood) + 5 * CountOf(events, TimingAnomaly)
          + 15 * CountOf(events, SeqViolation) + 5 * CountOf(events, AuthFail)) % 0x1_0000_0000
    && (forall k :: 0 <= k < n && n - 16 <= k ==> a.log[k % 16] == EventRecord(events[k].kind, events[k].at))
    && (forall s :: n <= s < 16 ==> a.log[s] == EventRecord(Replay, 0))
  }

  /** After any history, each record of the table reflects the events of its fingerprint. */
  lemma {:induction false} RecordsReflectEvents(actors: seq<Actor>, history: History, i: nat)
    requires TableOf(actors, history) && i < |actors|
    ensures |actors| == |Known(history)| <= 256
    ensures Reflects(actors[i], Known(history)[i], EventsOf(history, Known(history)[i]))
    ensures actors[i].tier == TierOfEvents(EventsOf(history, Known(history)[i]))
  {
    assert ActorOf(actors[i], Known(history)[i], EventsOf(history, Known(history)[i]));
    TotalIsWeighted(EventsOf(history, Known(history)[i]));
  }

  // ---------- when the stored tier is the class of the true score ----------

  /** The tier after one more event: the class of the wrapped score, or the tier before when that is low. */
  lemma {:induction false} TierAfter(events: History, e: Report)
    ensures TierOfEvents([]) == Unknown
    ensures var score, tier := Total(events + [e]) % 0x1_0000_0000, TierOfEvents(events + [e]);
            && (score >= 60 ==> tier == Persistent)
            && (35 <= score < 60 ==> tier == Active)
            && (15 <= score < 35 ==> tier == Probing)
            && (score < 15 ==> tier == TierOfEvents(events))
  {
    ScoreGrows(events, e);
  }

  lemma {:induction false} BeforeLowScore(before: nat, after: nat)
    requires before < after <= before + 25 && after >= TWO32 && after % TWO32 < 15
    ensures before % TWO32 >= 60 || (before >= TWO32 && before % TWO32 < 15)
  {}

  lemma {:induction false} LowScoreAfterWrap(events: History)
    requires Total(events) >= TWO32 && Total(events) % TWO32 < 15
    ensures TierOfEvents(events) == Persistent
  {
    var front := events[..|events| - 1];
    BeforeLowScore(Total(front), Total(events));
    if Total(front) >= TWO32 && Total(front) % TWO32 < 15 {
      LowScoreAfterWrap(front);
    }
  }

  lemma {:induction false} LowScoreBeforeWrap(events: History)
    requires Total(events) < 15
    ensures TierOfEvents(events) == Unknown
  {
    if events == [] {
    } else {
      LowScoreBeforeWrap(events[..|events| - 1]);
    }
  }

  /**
   The stored tier is the class of the true sum of scores exactly when the sum fits 32 bits or its
   wrapped value lies outside the two middle classes. Without overflow it is always the class.
   */
  lemma {:induction false} TierExactIff(events: History)
    ensures TierOfEvents(events) == TierOfScore(Total(events))
       <==> (Total(events) < TWO32 || !(15 <= Total(events) % TWO32 < 60))
  {
    if Total(events) % TWO32 < 15 {
      if Total(events) >= TWO32 {
        LowScoreAfterWrap(events);
      } else {
        LowScoreBeforeWrap(events);
      }
    }
  }

  /** One event reported `n` times. */
  function Repeated(e: Report, n: nat): (r: History)
    ensures |r| == n
  {
    seq(n, _ => e)
  }

  lemma {:induction false} TotalOfRepeated(e: Report, n: nat)
    ensures Total(Repeated(e, n)) == ScoreFor(e.kind) * n
  {
    if n == 0 {
    } else {
      assert Repeated(e, n)[..n - 1] == Repeated(e, n - 1);
      TotalOfRepeated(e, n - 1);
    }
  }

  /** The sum can wrap into a middle class: enough timing anomalies leave the tier at probing. */
  lemma {:induction false} ScoreWrapsToProbing(e: Report)
    requires e.kind == TimingAnomaly
    ensures var events := Repeated(e, 858_993_463);
            TierOfEvents(events) == Probing && TierOfScore(Total(events)) == Persistent
  {
    TotalOfRepeated(e, 858_993_463);
    assert (5 * 858_993_463) % TWO32 == 19;
  }

  /** Once 256 fingerprints are known the list of known ones is fixed for good. */
  lemma {:induction false} FullTableIsClosed(history: History, more: History)
    requires |Known(history)| == MAX_ACTORS
    ensures Known(history + more) == Known(history)
  {
    if more == [] {
      assert history + more == history;
    } else {
      var front := more[..|more| - 1];
      FullTableIsClosed(history, front);
      assert history + more == (history + front) + [more[|more| - 1]];
      HistoryGrows(history + front, more[|more| - 1], more[|more| - 1].fingerprint);
    }
  }
}
