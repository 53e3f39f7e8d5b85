/** Runs of the two signed-command gates from their initial states, and the simulation between them. */
module CommandRuns {
  import opened Words
  import opened SenderRecord
  import opened CommandGates

  // ---------- runs of the multi-client gate ----------

  datatype MultiRun = MultiRun(senders: seq<Sender>, accepted: seq<Request>)

  function MultiStep(verify: VerifyFn, m: MultiRun, r: Request): MultiRun {
    var answer := Multi(verify, m.senders, r);
    MultiRun(answer.0, if answer.1 == Ok then m.accepted + [r] else m.accepted)
  }

  function RunMulti(verify: VerifyFn, slots: nat, requests: seq<Request>): (m: MultiRun)
    ensures |m.senders| == slots
  {
    if requests == [] then MultiRun(EmptyTable(slots), [])
    else MultiStep(verify, RunMulti(verify, slots, requests[..|requests| - 1]), requests[|requests| - 1])
  }

  /** The largest sequence accepted for a key, 0 if none was. */
  function LargestFor(accepted: seq<Request>, key: Key): nat {
    if accepted == [] then 0
    else
      var rest, last := LargestFor(accepted[..|accepted| - 1], key), accepted[|accepted| - 1];
      if last.cmd.senderPubkey == key && last.cmd.envelope.sequence > rest then last.cmd.envelope.sequence else rest
  }

  lemma {:induction false} LargestGrows(accepted: seq<Request>, r: Request, key: Key)
    ensures LargestFor(accepted + [r], key) ==
            if r.cmd.senderPubkey == key && r.cmd.envelope.sequence > LargestFor(accepted, key)
            then r.cmd.envelope.sequence else LargestFor(accepted, key)
  {
    assert (accepted + [r])[..|accepted|] == accepted;
  }

  lemma {:induction false} LargestIsLargest(accepted: seq<Request>, key: Key, i: nat)
    requires i < |accepted| && accepted[i].cmd.senderPubkey == key
    ensures accepted[i].cmd.envelope.sequence <= LargestFor(accepted, key)
  {
    if i == |accepted| - 1 {
    } else {
      LargestIsLargest(accepted[..|accepted| - 1], key, i);
    }
  }

  ghost predicate KeysDistinct(senders: seq<Sender>) {
    forall i, j :: 0 <= i < j < |senders| && senders[i].used && senders[j].used ==>
      senders[i].publicKey != senders[j].publicKey
  }

  ghost predicate LastIsLargest(senders: seq<Sender>, accepted: seq<Request>) {
    && (forall i :: 0 <= i < |senders| && senders[i].used ==>
          senders[i].lastSequence == LargestFor(accepted, senders[i].publicKey))
    && (forall key: Key :: FindKey(senders, key) == |senders| ==> LargestFor(accepted, key) == 0)
  }

  /** Per key, accepted sequences strictly increase. */
  ghost predicate Increasing(accepted: seq<Request>) {
    forall i, j :: 0 <= i < j < |accepted| && accepted[i].cmd.senderPubkey == accepted[j].cmd.senderPubkey ==>
      accepted[i].cmd.envelope.sequence < accepted[j].cmd.envelope.sequence
  }

  ghost predicate MultiInv(m: MultiRun) {
    KeysDistinct(m.senders) && LastIsLargest(m.senders, m.accepted) && Increasing(m.accepted)
  }

  /** What a request must satisfy in itself, whatever was accepted before. */
  ghost predicate Genuine(verify: VerifyFn, r: Request) {
    && !r.interlocks.estop && !r.interlocks.overspeed && !r.interlocks.overtemp && !r.interlocks.overvoltage
    && r.cmd.envelope.issuedAt <= r.now <= r.cmd.envelope.expiresAt
    && verify(r.cmd.signature, r.cmd.envelope, r.cmd.senderPubkey)
  }

  /** Where a key's search lands when a slot of a table changes. */
  lemma {:induction false} FindKeyIs(senders: seq<Sender>, key: Key, i: nat)
    requires KeysDistinct(senders) && i < |senders| && senders[i].used && senders[i].publicKey == key
    ensures FindKey(senders, key) == i
  {
    var k := FindKey(senders, key);
    assert k <= i;
    assert k < |senders| && senders[k].used && senders[k].publicKey == senders[i].publicKey;
  }

  lemma {:induction false} FoundKeepsFound(senders: seq<Sender>, senders': seq<Sender>, key: Key)
    requires |senders'| == |senders|
    requires forall i :: 0 <= i < |senders| && senders[i].used ==>
               senders'[i].used && senders'[i].publicKey == senders[i].publicKey
    requires FindKey(senders', key) == |senders|
    ensures FindKey(senders, key) == |senders|
  {
    assert forall i :: 0 <= i < |senders| ==> !(senders'[i].used && senders'[i].publicKey == key);
  }

  lemma {:induction false} EnrolmentKeeps(senders: seq<Sender>, accepted: seq<Request>, key: Key)
    requires KeysDistinct(senders) && LastIsLargest(senders, accepted)
    ensures KeysDistinct(Enrolled(senders, key)) && LastIsLargest(Enrolled(senders, key), accepted)
  {
    var i, free, senders' := FindKey(senders, key), FreeSlot(senders), Enrolled(senders, key);
    if i == |senders| && free < |senders| {
      forall other: Key | FindKey(senders', other) == |senders'| ensures LargestFor(accepted, other) == 0 {
        FoundKeepsFound(senders, senders', other);
      }
    }
  }

  lemma {:induction false} AcceptKeeps(senders: seq<Sender>, accepted: seq<Request>, r: Request, i: nat)
    requires KeysDistinct(senders) && LastIsLargest(senders, accepted) && Increasing(accepted)
    requires i < |senders| && senders[i].used && senders[i].publicKey == r.cmd.senderPubkey
    requires r.cmd.envelope.sequence > senders[i].lastSequence
    ensures MultiInv(MultiRun(senders[i := senders[i].(lastSequence := r.cmd.envelope.sequence)], accepted + [r]))
  {
    var key, senders' := r.cmd.senderPubkey, senders[i := senders[i].(lastSequence := r.cmd.envelope.sequence)];
    forall k | 0 <= k < |senders| && senders[k].used
      ensures senders'[k].lastSequence == LargestFor(accepted + [r], senders[k].publicKey)
    {
      LargestGrows(accepted, r, senders[k].publicKey);
    }
    forall other: Key | FindKey(senders', other) == |senders| ensures LargestFor(accepted + [r], other) == 0 {
      FoundKeepsFound(senders, senders', other);
      LargestGrows(accepted, r, other);
      FindKeyIs(senders', key, i);
    }
    forall k | 0 <= k < |accepted| && accepted[k].cmd.senderPubkey == key
      ensures accepted[k].cmd.envelope.sequence < r.cmd.envelope.sequence
    {
      LargestIsLargest(accepted, key, k);
    }
  }

  lemma {:induction false} MultiStepKeeps(verify: VerifyFn, m: MultiRun, r: Request)
    requires MultiInv(m)
    ensures MultiInv(MultiStep(verify, m, r))
  {
    EnrolmentKeeps(m.senders, m.accepted, r.cmd.senderPubkey);
    if Multi(verify, m.senders, r).1 == Ok {
      var i := SlotFor(m.senders, r.cmd.senderPubkey);
      AcceptKeeps(Enrolled(m.senders, r.cmd.senderPubkey), m.accepted, r, i);
    }
  }

  /**
   Every run of the multi-client gate: used slots hold different keys, a slot's last sequence is
   the largest accepted for its key, and per key accepted sequences strictly increase. Rejected
   requests may enrol senders along the way.
   */
  lemma {:induction false} MultiRunsKeep(verify: VerifyFn, slots: nat, requests: seq<Request>)
    ensures MultiInv(RunMulti(verify, slots, requests))
  {
    if requests == [] {
    } else {
      MultiRunsKeep(verify, slots, requests[..|requests| - 1]);
      MultiStepKeeps(verify, RunMulti(verify, slots, requests[..|requests| - 1]), requests[|requests| - 1]);
    }
  }

  lemma {:induction false} SlotExistsIff(senders: seq<Sender>, key: Key)
    ensures SlotFor(senders, key) < |senders| <==>
            exists i :: 0 <= i < |senders| && (!senders[i].used || senders[i].publicKey == key)
  {
    var slot := SlotFor(senders, key);
    if slot < |senders| {
      assert !senders[slot].used || senders[slot].publicKey == key;
    }
  }

  /**
   After any run a request is accepted exactly when it is genuine, its sender has a slot or can get
   one, and its sequence is larger than every sequence accepted for that key before.
   */
  lemma {:induction false} MultiDecides(verify: VerifyFn, slots: nat, requests: seq<Request>, r: Request)
    ensures var m := RunMulti(verify, slots, requests);
            Multi(verify, m.senders, r).1 == Ok <==>
            && Genuine(verify, r)
            && (exists i :: 0 <= i < slots && (!m.senders[i].used || m.senders[i].publicKey == r.cmd.senderPubkey))
            && r.cmd.envelope.sequence > LargestFor(m.accepted, r.cmd.senderPubkey)
  {
    MultiRunsKeep(verify, slots, requests);
    SlotExistsIff(RunMulti(verify, slots, requests).senders, r.cmd.senderPubkey);
  }

  /** No (key, sequence) pair is accepted twice. */
  lemma {:induction false} NoPairAcceptedTwice(verify: VerifyFn, slots: nat, requests: seq<Request>, i: nat, j: nat)
    requires i < j < |RunMulti(verify, slots, requests).accepted|
    requires RunMulti(verify, slots, requests).accepted[i].cmd.senderPubkey
          == RunMulti(verify, slots, requests).accepted[j].cmd.senderPubkey
    ensures RunMulti(verify, slots, requests).accepted[i].cmd.envelope.sequence
         != RunMulti(verify, slots, requests).accepted[j].cmd.envelope.sequence
  {
    MultiRunsKeep(verify, slots, requests);
  }

  /** One step: a refusal changes nothing but, perhaps, a free slot that it enrols with sequence 0. */
  lemma {:induction false} RefusalOnlyEnrols(verify: VerifyFn, senders: seq<Sender>, r: Request)
    requires Multi(verify, senders, r).1 != Ok
    ensures var after := Multi(verify, senders, r).0;
            || after == senders
            || (&& FindKey(senders, r.cmd.senderPubkey) == |senders|
                && FreeSlot(senders) < |senders|
                && after == senders[FreeSlot(senders) := Sender(r.cmd.senderPubkey, 0, true)])
  {}

  /** An enrolled slot later in a run: the same key, at least the same sequence. */
  ghost predicate Keeps(before: Sender, after: Sender) {
    after.used && after.publicKey == before.publicKey && after.lastSequence >= before.lastSequence
  }

  lemma {:induction false} StepKeepsSlot(verify: VerifyFn, m: MultiRun, r: Request, i: nat)
    requires i < |m.senders| && m.senders[i].used
    ensures Keeps(m.senders[i], MultiStep(verify, m, r).senders[i])
  {}

  /** Enrolment is permanent: a slot used after some prefix of a run keeps its key and never goes back. */
  lemma {:induction false} SlotsArePermanent(verify: VerifyFn, slots: nat, requests: seq<Request>, n: nat, i: nat)
    requires n <= |requests| && i < slots
    requires RunMulti(verify, slots, requests[..n]).senders[i].used
    ensures Keeps(RunMulti(verify, slots, requests[..n]).senders[i], RunMulti(verify, slots, requests).senders[i])
    decreases |requests|
  {
    if n == |requests| {
      assert requests[..n] == requests;
    } else {
      var front := requests[..|requests| - 1];
      assert front[..n] == requests[..n];
      SlotsArePermanent(verify, slots, front, n, i);
      StepKeepsSlot(verify, RunMulti(verify, slots, front), requests[|requests| - 1], i);
    }
  }

  // ---------- runs of the strict gate ----------

  datatype StrictRun = StrictRun(sender: Sender, accepted: seq<Request>)

  function RunStrict(verify: VerifyFn, requests: seq<Request>): StrictRun {
    if requests == [] then StrictRun(FRESH, [])
    else
      var before, r := RunStrict(verify, requests[..|requests| - 1]), requests[|requests| - 1];
      var answer := Strict(verify, before.sender, r);
      StrictRun(answer.0, if answer.1 == Ok then before.accepted + [r] else before.accepted)
  }

  /** What acceptance as the k-th command means for a request, with the key enrolled at the start. */
  ghost predicate AcceptedAs(verify: VerifyFn, key: Key, r: Request, k: nat) {
    && !r.interlocks.estop && !r.interlocks.overspeed && !r.interlocks.overtemp && !r.interlocks.overvoltage
    && r.cmd.envelope.issuedAt <= r.now <= r.cmd.envelope.expiresAt
    && verify(r.cmd.signature, r.cmd.envelope, key)
    && r.cmd.envelope.sequence == (k + 1) % TWO64
  }

  ghost predicate StrictInv(verify: VerifyFn, s: StrictRun) {
    && (!s.sender.used ==> s.accepted == [])
    && s.sender.lastSequence == |s.accepted| % TWO64
    && forall k :: 0 <= k < |s.accepted| ==> AcceptedAs(verify, s.sender.publicKey, s.accepted[k], k)
  }

  lemma {:induction false} StrictStepKeeps(verify: VerifyFn, before: StrictRun, r: Request)
    requires StrictInv(verify, before)
    ensures var answer := Strict(verify, before.sender, r);
            StrictInv(verify, StrictRun(answer.0, if answer.1 == Ok then before.accepted + [r] else before.accepted))
  {
    WrapSucc(|before.accepted|);
  }

  lemma {:induction false} StrictRunsKeep(verify: VerifyFn, requests: seq<Request>)
    ensures StrictInv(verify, RunStrict(verify, requests))
  {
    if requests == [] {
    } else {
      var before, r := RunStrict(verify, requests[..|requests| - 1]), requests[|requests| - 1];
      StrictRunsKeep(verify, requests[..|requests| - 1]);
      StrictStepKeeps(verify, before, r);
    }
  }

  /**
   After any run of the strict gate a request is accepted exactly when it is in time, signed with
   the enrolled key (or the key it enrols), and numbered one past the accepted commands.
   */
  lemma {:induction false} StrictDecides(verify: VerifyFn, requests: seq<Request>, r: Request)
    ensures var s := RunStrict(verify, requests);
            Strict(verify, s.sender, r).1 == Ok <==>
            && (s.sender.used || CarriesKey(r.cmd.envelope.payload))
            && AcceptedAs(verify, if s.sender.used then s.sender.publicKey else r.cmd.envelope.payload[4..36],
                          r, |s.accepted|)
  {
    StrictRunsKeep(verify, requests);
    WrapSucc(|RunStrict(verify, requests).accepted|);
  }

  /** Once enrolled, the strict gate's key never changes. */
  lemma {:induction false} EnrolledKeyIsFixed(verify: VerifyFn, requests: seq<Request>, more: seq<Request>)
    requires RunStrict(verify, requests).sender.used
    ensures RunStrict(verify, requests + more).sender.used
    ensures RunStrict(verify, requests + more).sender.publicKey == RunStrict(verify, requests).sender.publicKey
  {
    if more == [] {
      assert requests + more == requests;
    } else {
      var front := more[..|more| - 1];
      EnrolledKeyIsFixed(verify, requests, front);
      assert (requests + more)[..|requests + more| - 1] == requests + front;
    }
  }

  // ---------- the simulation ----------

  /** The commands the strict gate accepted, replayed one after another against the multi-client gate. */
  function Replay(verify: VerifyFn, senders: seq<Sender>, accepted: seq<Request>): (a: (seq<Sender>, bool))
    ensures |a.0| == |senders|
  {
    if accepted == [] then (senders, true)
    else
      var before := Replay(verify, senders, accepted[..|accepted| - 1]);
      var answer := Multi(verify, before.0, accepted[|accepted| - 1]);
      (answer.0, before.1 && answer.1 == Ok)
  }

  /** A table in which the key has, or can get, a slot that has accepted nothing yet. */
  ghost predicate ReadyFor(senders: seq<Sender>, key: Key) {
    var i := SlotFor(senders, key);
    i < |senders| && Enrolled(senders, key)[i].lastSequence == 0
  }

  /** What the table knows of the key after `n` accepted commands. */
  ghost predicate Tracks(senders: seq<Sender>, key: Key, n: nat) {
    if n == 0 then ReadyFor(senders, key)
    else FindKey(senders, key) < |senders| && senders[FindKey(senders, key)].lastSequence == n
  }

  /** Updating the slot of a key, or filling the first free one, leaves that slot the key's first. */
  lemma {:induction false} FindAfterAccept(senders: seq<Sender>, key: Key, sequence: uint64)
    requires SlotFor(senders, key) < |senders|
    ensures var (i, table) := (SlotFor(senders, key), Enrolled(senders, key));
            FindKey(table[i := table[i].(lastSequence := sequence)], key) == i
  {
    var i, table := SlotFor(senders, key), Enrolled(senders, key);
    var after := table[i := table[i].(lastSequence := sequence)];
    assert after[i].used && after[i].publicKey == key;
    assert forall k :: 0 <= k < i ==> !(after[k].used && after[k].publicKey == key);
  }

  lemma {:induction false} ReplayStep(verify: VerifyFn, senders: seq<Sender>, key: Key, r: Request, n: nat)
    requires Tracks(senders, key, n) && n + 1 < TWO64
    requires AcceptedAs(verify, key, r, n) && r.cmd.senderPubkey == key
    ensures Multi(verify, senders, r).1 == Ok
    ensures Tracks(Multi(verify, senders, r).0, key, n + 1)
  {
    FindAfterAccept(senders, key, r.cmd.envelope.sequence);
  }

  /** One more accepted command replayed. */
  lemma {:induction false} ReplayNext(verify: VerifyFn, senders: seq<Sender>, key: Key, accepted: seq<Request>, n: nat)
    requires |accepted| == n + 1 < TWO64
    requires var before := Replay(verify, senders, accepted[..n]); before.1 && Tracks(before.0, key, n)
    requires AcceptedAs(verify, key, accepted[n], n) && accepted[n].cmd.senderPubkey == key
    ensures var after := Replay(verify, senders, accepted); after.1 && Tracks(after.0, key, n + 1)
  {
    ReplayStep(verify, Replay(verify, senders, accepted[..n]).0, key, accepted[n], n);
  }

  lemma {:induction false} ReplayTracks(verify: VerifyFn, senders: seq<Sender>, key: Key, accepted: seq<Request>)
    requires ReadyFor(senders, key) && |accepted| < TWO64
    requires forall k :: 0 <= k < |accepted| ==>
               AcceptedAs(verify, key, accepted[k], k) && accepted[k].cmd.senderPubkey == key
    ensures Replay(verify, senders, accepted).1
    ensures Tracks(Replay(verify, senders, accepted).0, key, |accepted|)
  {
    if accepted == [] {
    } else {
      var n := |accepted| - 1;
      ReplayTracks(verify, senders, key, accepted[..n]);
      ReplayNext(verify, senders, key, accepted, n);
    }
  }

  /** Sequence 0 is never accepted by the multi-client gate, so a replay that contains it fails. */
  lemma {:induction false} ReplayFailsOnZero(verify: VerifyFn, senders: seq<Sender>, accepted: seq<Request>, k: nat)
    requires k < |accepted| && accepted[k].cmd.envelope.sequence == 0
    ensures !Replay(verify, senders, accepted).1
  {
    if k == |accepted| - 1 {
    } else {
      ReplayFailsOnZero(verify, senders, accepted[..|accepted| - 1], k);
    }
  }

  /** Every accepted command names the key the strict gate enrolled as its sender. */
  ghost predicate CarryEnrolledKey(s: StrictRun) {
    forall k :: 0 <= k < |s.accepted| ==> s.accepted[k].cmd.senderPubkey == s.sender.publicKey
  }

  /** The slot of a sender's key ends with that sender's last sequence. */
  ghost predicate EndsWith(senders: seq<Sender>, s: Sender) {
    var i := FindKey(senders, s.publicKey);
    i < |senders| && senders[i].lastSequence == s.lastSequence
  }

  /** A replay that succeeds has succeeded from its first command on. */
  lemma {:induction false} ReplayStarts(verify: VerifyFn, senders: seq<Sender>, accepted: seq<Request>)
    requires accepted != []
    ensures Replay(verify, senders, accepted).1 ==> Multi(verify, senders, accepted[0]).1 == Ok
  {
    var front := accepted[..|accepted| - 1];
    if front == [] {
      assert Replay(verify, senders, front) == (senders, true);
    } else {
      ReplayStarts(verify, senders, front);
    }
  }

  /** A first command, numbered 1, is refused by a table that is not ready for its key. */
  lemma {:induction false} NotReadyRefuses(verify: VerifyFn, senders: seq<Sender>, r: Request)
    requires r.cmd.envelope.sequence == 1 && !ReadyFor(senders, r.cmd.senderPubkey)
    ensures Multi(verify, senders, r).1 != Ok
  {}

  lemma {:induction false} TrackedEnds(senders: seq<Sender>, s: Sender, n: nat)
    requires 0 < n < TWO64 && Tracks(senders, s.publicKey, n) && s.lastSequence == n % TWO64
    ensures EndsWith(senders, s)
  {}

  lemma {:induction false} ReadyReplays(verify: VerifyFn, s: StrictRun, senders: seq<Sender>)
    requires StrictInv(verify, s) && CarryEnrolledKey(s)
    requires ReadyFor(senders, s.sender.publicKey) && |s.accepted| < TWO64
    ensures Replay(verify, senders, s.accepted).1
    ensures s.accepted != [] ==> EndsWith(Replay(verify, senders, s.accepted).0, s.sender)
  {
    forall k | 0 <= k < |s.accepted|
      ensures AcceptedAs(verify, s.sender.publicKey, s.accepted[k], k)
      ensures s.accepted[k].cmd.senderPubkey == s.sender.publicKey
    {
    }
    ReplayTracks(verify, senders, s.sender.publicKey, s.accepted);
    if s.accepted != [] {
      TrackedEnds(Replay(verify, senders, s.accepted).0, s.sender, |s.accepted|);
    }
  }

  lemma {:induction false} ReplayFails(verify: VerifyFn, s: StrictRun, senders: seq<Sender>)
    requires StrictInv(verify, s) && CarryEnrolledKey(s) && s.accepted != []
    requires !ReadyFor(senders, s.sender.publicKey) || |s.accepted| >= TWO64
    ensures !Replay(verify, senders, s.accepted).1
  {
    if |s.accepted| >= TWO64 {
      assert AcceptedAs(verify, s.sender.publicKey, s.accepted[TWO64 - 1], TWO64 - 1);
      ReplayFailsOnZero(verify, senders, s.accepted, TWO64 - 1);
    } else {
      assert AcceptedAs(verify, s.sender.publicKey, s.accepted[0], 0);
      NotReadyRefuses(verify, senders, s.accepted[0]);
      ReplayStarts(verify, senders, s.accepted);
    }
  }

  /**
   Replaying a strict run's accepted commands succeeds exactly when there are none, or the table is
   ready for the key and there are fewer than 2^64; the key's slot then ends with the last sequence.
   */
  ghost predicate Simulated(verify: VerifyFn, s: StrictRun, senders: seq<Sender>) {
    var replayed := Replay(verify, senders, s.accepted);
    && (replayed.1 <==>
          s.accepted == [] || (ReadyFor(senders, s.sender.publicKey) && |s.accepted| < TWO64))
    && (replayed.1 && s.accepted != [] ==> EndsWith(replayed.0, s.sender))
  }

  lemma {:induction false} SimulatedFrom(verify: VerifyFn, s: StrictRun, senders: seq<Sender>)
    requires StrictInv(verify, s) && CarryEnrolledKey(s)
    ensures Simulated(verify, s, senders)
  {
    if s.accepted == [] {
    } else if ReadyFor(senders, s.sender.publicKey) && |s.accepted| < TWO64 {
      ReadyReplays(verify, s, senders);
    } else {
      ReplayFails(verify, s, senders);
    }
  }

  /**
   Simulation: the commands a fresh strict gate accepts, each carrying the enrolled key, are all
   accepted when replayed against a multi-client table, whatever it holds, exactly when the key has
   or can get a slot that has accepted nothing yet and there are fewer than 2^64 commands.
   */
  lemma {:induction false} MultiSimulatesStrictIff(verify: VerifyFn, requests: seq<Request>, senders: seq<Sender>)
    requires CarryEnrolledKey(RunStrict(verify, requests))
    ensures Simulated(verify, RunStrict(verify, requests), senders)
  {
    StrictRunsKeep(verify, requests);
    SimulatedFrom(verify, RunStrict(verify, requests), senders);
  }

  /**
   A key that only refused requests have enrolled leaves a table ready for it, and so does a free
   slot: after any multi-client run the table is ready exactly when it has a slot for the key and
   no command of the key was accepted.
   */
  lemma {:induction false} ReadyAfterRunIff(verify: VerifyFn, slots: nat, requests: seq<Request>, key: Key)
    ensures var m := RunMulti(verify, slots, requests);
            ReadyFor(m.senders, key) <==> SlotFor(m.senders, key) < slots && LargestFor(m.accepted, key) == 0
  {
    MultiRunsKeep(verify, slots, requests);
  }

  /**
   One step: from a strict sender and a slot that agree, a command the strict gate accepts is
   accepted by the multi-client gate exactly when the last sequence is not the 64-bit maximum.
   */
  lemma {:induction false} MultiAcceptsStrictIff(verify: VerifyFn, s: Sender, senders: seq<Sender>, r: Request)
    requires s.used && Strict(verify, s, r).1 == Ok
    requires r.cmd.senderPubkey == s.publicKey
    requires FindKey(senders, s.publicKey) < |senders|
    requires senders[FindKey(senders, s.publicKey)].lastSequence == s.lastSequence
    ensures Multi(verify, senders, r).1 == Ok <==> s.lastSequence != TWO64 - 1
  {}
}
