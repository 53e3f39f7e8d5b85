/**
 The same ring shared by one producer thread and one consumer thread. A call is split into its
 reads, its byte-by-byte copy and its publishing write; a schedule interleaves these micro-steps
 in any order under sequential consistency.
 */
module RingInterleaving {
  import opened Words
  import opened RingPool

  /** Where the producer is inside `ring_push`. */
  datatype Producer =
    | Outside
    | HeadRead(msg: Message, next: nat)
    | Writing(msg: Message, next: nat, done: nat)

  /** Where the consumer is inside `ring_pop`; `out` holds the bytes copied so far. */
  datatype Consumer = Away | Reading(out: Bytes)

  /** The shared memory, the two threads, and the messages pushed and popped so far. */
  datatype Pool = Pool(
    buffer: seq<Message>, head: nat, tail: nat,
    producer: Producer, consumer: Consumer,
    pushed: seq<Message>, popped: seq<Message>)

  datatype Action =
    | CallPush(msg: Message)
    | CheckTail
    | WriteByte
    | PublishHead
    | CallPop
    | ReadByte
    | PublishTail

  function Start(): Pool {
    Pool(seq(RING_CAPACITY, _ => Zeros(MSG_BYTES)), 0, 0, Outside, Away, [], [])
  }

  /** The memory is well formed enough for every micro-step to be taken. */
  ghost predicate Shaped(s: Pool) {
    && |s.buffer| == RING_CAPACITY && s.head < RING_CAPACITY && s.tail < RING_CAPACITY
    && (s.producer.Writing? ==> s.producer.done <= MSG_BYTES)
    && (s.producer.HeadRead? || s.producer.Writing? ==> s.producer.next < RING_CAPACITY)
    && (s.consumer.Reading? ==> |s.consumer.out| <= MSG_BYTES)
  }

  /** One micro-step. A step whose thread is elsewhere in its code does nothing. */
  function Step(s: Pool, a: Action): (s': Pool)
    requires Shaped(s)
    ensures Shaped(s')
  {
    match a
    case CallPush(msg) =>
      if s.producer.Outside? then s.(producer := HeadRead(msg, NextSlot(s.head))) else s
    case CheckTail =>
      if !s.producer.HeadRead? then s
      else if s.producer.next == s.tail then s.(producer := Outside)
      else s.(producer := Writing(s.producer.msg, s.producer.next, 0))
    case WriteByte =>
      if s.producer.Writing? && s.producer.done < MSG_BYTES then
        var k := s.producer.done;
        s.(buffer := s.buffer[s.head := s.buffer[s.head][k := s.producer.msg[k]]],
           producer := s.producer.(done := k + 1))
      else s
    case PublishHead =>
      if s.producer.Writing? && s.producer.done == MSG_BYTES then
        s.(head := s.producer.next, producer := Outside, pushed := s.pushed + [s.producer.msg])
      else s
    case CallPop =>
      if s.consumer.Away? && s.tail != s.head then s.(consumer := Reading([])) else s
    case ReadByte =>
      if s.consumer.Reading? && |s.consumer.out| < MSG_BYTES then
        s.(consumer := Reading(s.consumer.out + [s.buffer[s.tail][|s.consumer.out|]]))
      else s
    case PublishTail =>
      if s.consumer.Reading? && |s.consumer.out| == MSG_BYTES then
        s.(tail := NextSlot(s.tail), consumer := Away, popped := s.popped + [s.consumer.out])
      else s
  }

  function Execute(schedule: seq<Action>): (s: Pool)
    ensures Shaped(s)
  {
    if schedule == [] then Start()
    else Step(Execute(schedule[..|schedule| - 1]), schedule[|schedule| - 1])
  }

  // ---------- the invariant ----------

  function Occupancy(s: Pool): int {
    |s.pushed| - |s.popped|
  }

  /** Every published message that has not been retired sits whole in its slot. */
  ghost predicate SlotsHold(s: Pool)
    requires Shaped(s)
  {
    forall j :: |s.popped| <= j < |s.pushed| ==> s.buffer[j % RING_CAPACITY] == s.pushed[j]
  }

  ghost predicate IndicesCount(s: Pool) {
    && s.popped <= s.pushed
    && Occupancy(s) < RING_CAPACITY
    && s.head == |s.pushed| % RING_CAPACITY
    && s.tail == |s.popped| % RING_CAPACITY
  }

  ghost predicate ProducerHolds(s: Pool)
    requires Shaped(s)
  {
    match s.producer
    case Outside => true
    case HeadRead(_, next) => next == NextSlot(s.head)
    case Writing(msg, next, done) =>
      && next == NextSlot(s.head)
      && Occupancy(s) < RING_CAPACITY - 1
      && s.buffer[s.head][..done] == msg[..done]
  }

  ghost predicate ConsumerHolds(s: Pool)
    requires Shaped(s)
  {
    s.consumer.Reading? ==>
      |s.popped| < |s.pushed| && s.consumer.out <= s.pushed[|s.popped|]
  }

  ghost predicate Inv(s: Pool) {
    Shaped(s) && IndicesCount(s) && SlotsHold(s) && ProducerHolds(s) && ConsumerHolds(s)
  }

  /** The producer's full test and the consumer's empty test, in terms of the occupancy. */
  lemma {:induction false} IndexTests(s: Pool)
    requires Shaped(s) && IndicesCount(s)
    ensures NextSlot(s.head) == s.tail <==> Occupancy(s) == RING_CAPACITY - 1
    ensures s.head == s.tail <==> Occupancy(s) == 0
  {
    var p, q := |s.pushed|, |s.popped|;
    if q < p {
      DistinctSlots(q, p, RING_CAPACITY);
    }
    if p - q < RING_CAPACITY - 1 {
      DistinctSlots(q, p + 1, RING_CAPACITY);
    } else {
      assert p + 1 == q + RING_CAPACITY;
    }
  }

  /** Writing the head slot touches no message that is still queued. */
  lemma {:induction false} HeadSlotIsFree(s: Pool, m: Message)
    requires Inv(s)
    ensures SlotsHold(s.(buffer := s.buffer[s.head := m]))
  {
    forall j | |s.popped| <= j < |s.pushed| ensures j % RING_CAPACITY != s.head {
      DistinctSlots(j, |s.pushed|, RING_CAPACITY);
    }
  }

  lemma {:induction false} WriteByteKeeps(s: Pool)
    requires Inv(s) && s.producer.Writing? && s.producer.done < MSG_BYTES
    ensures Inv(Step(s, WriteByte))
  {
    var k, msg := s.producer.done, s.producer.msg;
    var slot := s.buffer[s.head][k := msg[k]];
    HeadSlotIsFree(s, slot);
    assert slot[..k + 1] == s.buffer[s.head][..k] + [msg[k]] == msg[..k + 1];
  }

  lemma {:induction false} PublishHeadKeeps(s: Pool)
    requires Inv(s) && s.producer.Writing? && s.producer.done == MSG_BYTES
    ensures Inv(Step(s, PublishHead))
  {
    assert s.buffer[s.head] == s.buffer[s.head][..MSG_BYTES] == s.producer.msg;
  }

  lemma {:induction false} ReadByteKeeps(s: Pool)
    requires Inv(s) && s.consumer.Reading? && |s.consumer.out| < MSG_BYTES
    ensures Inv(Step(s, ReadByte))
  {
    assert s.buffer[s.tail] == s.pushed[|s.popped|];
  }

  lemma {:induction false} PublishTailKeeps(s: Pool)
    requires Inv(s) && s.consumer.Reading? && |s.consumer.out| == MSG_BYTES
    ensures Inv(Step(s, PublishTail))
  {
    assert s.consumer.out == s.pushed[|s.popped|];
  }

  lemma {:induction false} StepKeeps(s: Pool, a: Action)
    requires Inv(s)
    ensures Inv(Step(s, a))
  {
    IndexTests(s);
    if a.WriteByte? && s.producer.Writing? && s.producer.done < MSG_BYTES {
      WriteByteKeeps(s);
    } else if a.PublishHead? && s.producer.Writing? && s.producer.done == MSG_BYTES {
      PublishHeadKeeps(s);
    } else if a.ReadByte? && s.consumer.Reading? && |s.consumer.out| < MSG_BYTES {
      ReadByteKeeps(s);
    } else if a.PublishTail? && s.consumer.Reading? && |s.consumer.out| == MSG_BYTES {
      PublishTailKeeps(s);
    }
  }

  lemma {:induction false} ExecuteKeeps(schedule: seq<Action>)
    ensures Inv(Execute(schedule))
  {
    if schedule == [] {
    } else {
      ExecuteKeeps(schedule[..|schedule| - 1]);
      StepKeeps(Execute(schedule[..|schedule| - 1]), schedule[|schedule| - 1]);
    }
  }

  // ---------- what every interleaving guarantees ----------

  /** First in, first out, nothing lost or duplicated, and one slot always kept empty. */
  lemma {:induction false} Fifo(schedule: seq<Action>)
    ensures var s := Execute(schedule); s.popped <= s.pushed && |s.pushed| - |s.popped| <= 1023
  {
    ExecuteKeeps(schedule);
  }

  /** While one thread writes a slot and the other reads one, the slots differ. */
  lemma {:induction false} NoSlotIsShared(schedule: seq<Action>)
    requires Execute(schedule).producer.Writing? && Execute(schedule).consumer.Reading?
    ensures Execute(schedule).head != Execute(schedule).tail
  {
    ExecuteKeeps(schedule);
    IndexTests(Execute(schedule));
  }

  /** A push is refused exactly when 1023 messages are queued at the moment it reads the tail. */
  lemma {:induction false} PushRefusedIffFull(schedule: seq<Action>)
    requires Execute(schedule).producer.HeadRead?
    ensures Step(Execute(schedule), CheckTail).producer.Outside?
       <==> |Execute(schedule).pushed| - |Execute(schedule).popped| == 1023
  {
    ExecuteKeeps(schedule);
    IndexTests(Execute(schedule));
  }

  /** A pop is refused exactly when every message published so far has been popped. */
  lemma {:induction false} PopRefusedIffDrained(schedule: seq<Action>)
    requires Execute(schedule).consumer.Away?
    ensures Step(Execute(schedule), CallPop).consumer.Away?
       <==> Execute(schedule).popped == Execute(schedule).pushed
  {
    ExecuteKeeps(schedule);
    IndexTests(Execute(schedule));
  }

  // ---------- progress, whatever the other thread does meanwhile ----------

  function Occurrences(a: Action, actions: seq<Action>): nat {
    if actions == [] then 0
    else
      Occurrences(a, actions[..|actions| - 1]) + if actions[|actions| - 1] == a then 1 else 0
  }

  lemma {:induction false} OneMoreAction(a: Action, schedule: seq<Action>, from: nat, k: nat)
    requires from <= k < |schedule|
    ensures Occurrences(a, schedule[from..k + 1])
         == Occurrences(a, schedule[from..k]) + if schedule[k] == a then 1 else 0
  {
    assert schedule[from..k + 1][..k - from] == schedule[from..k];
  }

  lemma {:induction false} ExecuteNext(schedule: seq<Action>, k: nat)
    requires k < |schedule|
    ensures Execute(schedule[..k + 1]) == Step(Execute(schedule[..k]), schedule[k])
  {
    assert schedule[..k + 1][..k] == schedule[..k];
  }

  /** The action at `k` is no publishing write, or one that comes before the copy begun at `from` is whole. */
  predicate PublishesEarly(schedule: seq<Action>, copy: Action, publish: Action, from: nat, k: nat)
    requires from < k < |schedule|
  {
    schedule[k] == publish ==> Occurrences(copy, schedule[from + 1..k]) < MSG_BYTES
  }

  function AtMost(n: nat, limit: nat): nat {
    if n <= limit then n else limit
  }

  lemma {:induction false} CallStays(s: Pool, a: Action)
    requires Shaped(s) && s.producer.HeadRead? && !a.CheckTail?
    ensures Step(s, a).producer == s.producer && Step(s, a).pushed == s.pushed
  {}

  /** A push called at `i` waits, with nothing published, until the producer reads the tail. */
  lemma {:induction false} PushWaits(schedule: seq<Action>, i: nat, k: nat, msg: Message)
    requires i < k <= |schedule| && schedule[i] == CallPush(msg)
    requires Execute(schedule[..i]).producer.Outside?
    requires forall m :: i < m < k ==> !schedule[m].CheckTail?
    ensures Execute(schedule[..k]).producer == HeadRead(msg, NextSlot(Execute(schedule[..i]).head))
    ensures Execute(schedule[..k]).pushed == Execute(schedule[..i]).pushed
  {
    ExecuteNext(schedule, k - 1);
    if k == i + 1 {
    } else {
      PushWaits(schedule, i, k - 1, msg);
      CallStays(Execute(schedule[..k - 1]), schedule[k - 1]);
    }
  }

  /** The push that reads the tail at `c` and finds room. */
  ghost predicate FindsRoom(schedule: seq<Action>, c: nat, msg: Message) {
    && c < |schedule| && schedule[c].CheckTail?
    && Execute(schedule[..c]).producer.HeadRead? && Execute(schedule[..c]).producer.msg == msg
    && Occupancy(Execute(schedule[..c])) < RING_CAPACITY - 1
  }

  ghost predicate IsWriting(s: Pool, msg: Message, done: nat) {
    match s.producer
    case Writing(m, _, n) => m == msg && n == done
    case _ => false
  }

  lemma {:induction false} WritingContinues(s: Pool, a: Action, msg: Message, writes: nat)
    requires Shaped(s) && IsWriting(s, msg, AtMost(writes, MSG_BYTES))
    requires a.PublishHead? ==> writes < MSG_BYTES
    ensures IsWriting(Step(s, a), msg, AtMost(writes + (if a == WriteByte then 1 else 0), MSG_BYTES))
    ensures Step(s, a).pushed == s.pushed
  {}

  /** At position `k` the push that read the tail at `c` has written what the schedule let it. */
  ghost predicate HasWritten(schedule: seq<Action>, c: nat, k: nat, msg: Message)
    requires c < k <= |schedule|
  {
    && IsWriting(Execute(schedule[..k]), msg, AtMost(Occurrences(WriteByte, schedule[c + 1..k]), MSG_BYTES))
    && Execute(schedule[..k]).pushed == Execute(schedule[..c]).pushed
  }

  lemma {:induction false} WritingStarts(schedule: seq<Action>, c: nat, msg: Message)
    requires FindsRoom(schedule, c, msg)
    ensures HasWritten(schedule, c, c + 1, msg)
  {
    ExecuteNext(schedule, c);
    PushRefusedIffFull(schedule[..c]);
    assert schedule[c + 1..c + 1] == [];
  }

  lemma {:induction false} OneMoreWrite(schedule: seq<Action>, c: nat, k: nat, msg: Message)
    requires c < k < |schedule| && HasWritten(schedule, c, k, msg)
    requires PublishesEarly(schedule, WriteByte, PublishHead, c, k)
    ensures HasWritten(schedule, c, k + 1, msg)
  {
    OneMoreAction(WriteByte, schedule, c + 1, k);
    ExecuteNext(schedule, k);
    WritingContinues(Execute(schedule[..k]), schedule[k], msg, Occurrences(WriteByte, schedule[c + 1..k]));
  }

  /** Until it publishes, a push that found room has written as many bytes as the schedule let it. */
  lemma {:induction false} PushAdvances(schedule: seq<Action>, c: nat, k: nat, msg: Message)
    requires c < k <= |schedule| && HasWritten(schedule, c, c + 1, msg)
    requires forall m :: c < m < k ==> PublishesEarly(schedule, WriteByte, PublishHead, c, m)
    ensures HasWritten(schedule, c, k, msg)
    decreases k
  {
    if k == c + 1 {
    } else {
      PushAdvances(schedule, c, k - 1, msg);
      OneMoreWrite(schedule, c, k - 1, msg);
    }
  }

  /** `schedule` calls a push of `msg` at `i`, reads the tail at `c`, finds room and publishes at `j`. */
  ghost predicate PushRuns(schedule: seq<Action>, i: nat, c: nat, j: nat, msg: Message) {
    && i < c < j < |schedule|
    && schedule[i] == CallPush(msg) && Execute(schedule[..i]).producer.Outside?
    && schedule[c].CheckTail? && (forall m :: i < m < c ==> !schedule[m].CheckTail?)
    && Occupancy(Execute(schedule[..c])) < RING_CAPACITY - 1
    && schedule[j].PublishHead?
    && (forall m :: c < m < j ==> PublishesEarly(schedule, WriteByte, PublishHead, c, m))
  }

  /**
   Progress of a push, with any steps of either thread in between: it enqueues exactly its message
   when it publishes, if and only if it was let write all its bytes; until then it enqueues nothing.
   */
  lemma {:induction false} PushCompletesIff(schedule: seq<Action>, i: nat, c: nat, j: nat, msg: Message)
    requires PushRuns(schedule, i, c, j, msg)
    ensures var s, s' := Execute(schedule[..i]), Execute(schedule[..j + 1]);
            if Occurrences(WriteByte, schedule[c + 1..j]) >= 264
            then s'.producer.Outside? && s'.pushed == s.pushed + [msg]
            else s'.producer.Writing? && s'.pushed == s.pushed
  {
    PushWaits(schedule, i, c, msg);
    WritingStarts(schedule, c, msg);
    PushAdvances(schedule, c, j, msg);
    ExecuteNext(schedule, j);
  }

  /** A pop is in progress, with `done` bytes read; `popped` came before, `oldest` is first in the queue. */
  ghost predicate Popping(s: Pool, popped: seq<Message>, oldest: Message, done: nat) {
    match s.consumer
    case Away => false
    case Reading(out) => |out| == done && s.popped == popped && popped + [oldest] <= s.pushed
  }

  lemma {:induction false} PopContinues(s: Pool, a: Action, popped: seq<Message>, oldest: Message, taken: nat)
    requires Shaped(s) && Popping(s, popped, oldest, AtMost(taken, MSG_BYTES))
    requires a.PublishTail? ==> taken < MSG_BYTES
    ensures Popping(Step(s, a), popped, oldest, AtMost(taken + (if a == ReadByte then 1 else 0), MSG_BYTES))
  {}

  /** `schedule` calls a pop at `i` and finds a message. */
  ghost predicate FindsMessage(schedule: seq<Action>, i: nat) {
    && i < |schedule| && schedule[i].CallPop? && Execute(schedule[..i]).consumer.Away?
    && |Execute(schedule[..i]).popped| < |Execute(schedule[..i]).pushed|
  }

  /** At position `k` the pop called at `i` has read what the schedule let it. */
  ghost predicate HasRead(schedule: seq<Action>, i: nat, k: nat, popped: seq<Message>, oldest: Message)
    requires i < k <= |schedule|
  {
    Popping(Execute(schedule[..k]), popped, oldest, AtMost(Occurrences(ReadByte, schedule[i + 1..k]), MSG_BYTES))
  }

  lemma {:induction false} PopStarts(schedule: seq<Action>, i: nat)
    requires FindsMessage(schedule, i)
    ensures var s := Execute(schedule[..i]);
            HasRead(schedule, i, i + 1, s.popped, s.pushed[|s.popped|])
  {
    ExecuteKeeps(schedule[..i]);
    ExecuteNext(schedule, i);
    PopRefusedIffDrained(schedule[..i]);
    assert schedule[i + 1..i + 1] == [];
  }

  lemma {:induction false} OneMoreRead(schedule: seq<Action>, i: nat, k: nat, popped: seq<Message>, oldest: Message)
    requires i < k < |schedule| && HasRead(schedule, i, k, popped, oldest)
    requires PublishesEarly(schedule, ReadByte, PublishTail, i, k)
    ensures HasRead(schedule, i, k + 1, popped, oldest)
  {
    OneMoreAction(ReadByte, schedule, i + 1, k);
    ExecuteNext(schedule, k);
    PopContinues(Execute(schedule[..k]), schedule[k], popped, oldest,
                 Occurrences(ReadByte, schedule[i + 1..k]));
  }

  /** Until it retires the message, a pop that found one has read as many bytes as it was let. */
  lemma {:induction false} PopAdvances(schedule: seq<Action>, i: nat, k: nat, popped: seq<Message>, oldest: Message)
    requires i < k <= |schedule| && HasRead(schedule, i, i + 1, popped, oldest)
    requires forall m :: i < m < k ==> PublishesEarly(schedule, ReadByte, PublishTail, i, m)
    ensures HasRead(schedule, i, k, popped, oldest)
    decreases k
  {
    if k == i + 1 {
    } else {
      PopAdvances(schedule, i, k - 1, popped, oldest);
      OneMoreRead(schedule, i, k - 1, popped, oldest);
    }
  }

  /** What a pop has read in full is the message that was the oldest when it was called. */
  lemma {:induction false} OldestRead(s: Pool, popped: seq<Message>, oldest: Message)
    requires Inv(s) && Popping(s, popped, oldest, MSG_BYTES)
    ensures s.consumer.out == oldest
  {}

  /**
   Progress of a pop, with any steps of either thread in between: it dequeues exactly the oldest
   message when it publishes, if and only if it was let read all its bytes.
   */
  lemma {:induction false} PopCompletesIff(schedule: seq<Action>, i: nat, j: nat)
    requires FindsMessage(schedule, i) && i < j < |schedule| && schedule[j].PublishTail?
    requires forall m :: i < m < j ==> PublishesEarly(schedule, ReadByte, PublishTail, i, m)
    ensures var s, s' := Execute(schedule[..i]), Execute(schedule[..j + 1]);
            if Occurrences(ReadByte, schedule[i + 1..j]) >= 264
            then s'.consumer.Away? && s'.popped == s.popped + [s.pushed[|s.popped|]]
            else s'.consumer.Reading? && s'.popped == s.popped
  {
    var s := Execute(schedule[..i]);
    var oldest := s.pushed[|s.popped|];
    PopStarts(schedule, i);
    PopAdvances(schedule, i, j, s.popped, oldest);
    ExecuteKeeps(schedule[..j]);
    ExecuteNext(schedule, j);
    if Occurrences(ReadByte, schedule[i + 1..j]) >= MSG_BYTES {
      OldestRead(Execute(schedule[..j]), s.popped, oldest);
    }
  }
}
