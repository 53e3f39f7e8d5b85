/**
 Whole runs of the multi-sender gate from its zeroed state. A run is any list of presented
 commands and interlock changes; its trace is the list of accepted commands.
 */
module GateRuns {
  import opened Words
  import opened MultiSenderGate

  type Trace = seq<Command>

  datatype Input = Present(cmd: Command, now: uint64) | SetInterlocks(interlocks: Interlocks)

  datatype Run = Run(gate: GateState, accepted: Trace)

  function Step(r: Run, input: Input): (after: Run)
    requires r.gate.Valid()
    ensures after.gate.Valid()
  {
    match input
    case SetInterlocks(il) =>
      Run(r.gate.(interlocks := il), r.accepted)
    case Present(cmd, now) =>
      var answer := Evaluate(r.gate, cmd, now);
      Run(answer.0, if answer.1 == Accept then r.accepted + [cmd] else r.accepted)
  }

  function RunOf(inputs: seq<Input>): (r: Run)
    ensures r.gate.Valid()
  {
    if inputs == [] then Run(Zeroed(), [])
    else Step(RunOf(inputs[..|inputs| - 1]), inputs[|inputs| - 1])
  }

  // ---------- reading a trace ----------

  /** The commands of one sender, in order. */
  function OfSender(tr: Trace, id: uint32): Trace {
    if tr == [] then []
    else
      var rest, last := tr[..|tr| - 1], tr[|tr| - 1];
      if last.senderId == id then OfSender(rest, id) + [last] else OfSender(rest, id)
  }

  /** The senders of a trace, each once, in the order they first appear. */
  function Senders(tr: Trace): seq<uint32> {
    if tr == [] then []
    else
      var known, id := Senders(tr[..|tr| - 1]), tr[|tr| - 1].senderId;
      if id in known then known else known + [id]
  }

  function Nonces(tr: Trace): (r: seq<Nonce>)
    ensures |r| == |tr|
  {
    seq(|tr|, i requires 0 <= i < |tr| => tr[i].nonce)
  }

  /** The last 256 nonces, or all of them while there are fewer. */
  function LastNonces(tr: Trace): seq<Nonce> {
    if |tr| <= MAX_NONCES then Nonces(tr) else Nonces(tr)[|tr| - MAX_NONCES..]
  }

  lemma {:induction false} TraceGrows(tr: Trace, c: Command, id: uint32)
    ensures OfSender(tr + [c], id) == if c.senderId == id then OfSender(tr, id) + [c] else OfSender(tr, id)
    ensures Senders(tr + [c]) == if c.senderId in Senders(tr) then Senders(tr) else Senders(tr) + [c.senderId]
  {
    assert (tr + [c])[..|tr|] == tr;
  }

  lemma {:induction false} SendersAreListed(tr: Trace, id: uint32)
    ensures id in Senders(tr) <==> OfSender(tr, id) != []
  {
    if tr == [] {
    } else {
      SendersAreListed(tr[..|tr| - 1], id);
    }
  }

  ghost predicate Distinct<T(!new)>(s: seq<T>) {
    forall i, j :: 0 <= i < j < |s| ==> s[i] != s[j]
  }

  lemma {:induction false} SendersAreDistinct(tr: Trace)
    ensures Distinct(Senders(tr))
  {
    if tr == [] {
    } else {
      SendersAreDistinct(tr[..|tr| - 1]);
    }
  }

  // ---------- what every run keeps ----------

  /** A slot is what a sender's accepted commands make it: first node and authority, last sequence. */
  ghost predicate SlotOf(s: SenderState, id: uint32, cmds: Trace) {
    && cmds != []
    && s.used && s.senderId == id
    && s.allowedNode == cmds[0].nodeId
    && s.authority == cmds[0].senderAuthority
    && s.currentSeq == |cmds|
  }

  ghost predicate TableOf(senders: seq<SenderState>, tr: Trace) {
    && |senders| == MAX_SENDERS
    && |Senders(tr)| <= MAX_SENDERS
    && (forall i :: 0 <= i < |Senders(tr)| ==>
          SlotOf(senders[i], Senders(tr)[i], OfSender(tr, Senders(tr)[i])))
    && (forall i :: |Senders(tr)| <= i < MAX_SENDERS ==> senders[i] == EMPTY_SLOT)
  }

  /** One sender's commands are numbered 1, 2, 3, ..., on one node, within the first one's authority. */
  ghost predicate InOrder(cmds: Trace) {
    forall k :: 0 <= k < |cmds| ==>
      && cmds[k].sequence == k + 1
      && cmds[k].nodeId == cmds[0].nodeId
      && (k > 0 ==> cmds[k].requiredAuthority.Rank() <= cmds[0].senderAuthority.Rank())
  }

  ghost predicate NoncesFresh(tr: Trace) {
    forall i, j :: 0 <= i < j < |tr| && j - i <= MAX_NONCES ==> tr[i].nonce != tr[j].nonce
  }

  ghost predicate Agrees(r: Run) {
    && TableOf(r.gate.senders, r.accepted)
    && r.gate.nonces == LastNonces(r.accepted)
    && NoncesFresh(r.accepted)
    && (forall id: uint32 :: InOrder(OfSender(r.accepted, id)))
  }

  // ---------- the decision, read off the trace ----------

  /** What a command must satisfy, in terms of the accepted commands alone. */
  ghost predicate Acceptable(tr: Trace, il: Interlocks, cmd: Command, now: uint64) {
    var mine := OfSender(tr, cmd.senderId);
    && cmd.payloadHashExpected == cmd.payloadHashActual
    && now <= cmd.expiresAt
    && cmd.issuedAt <= (now + CLOCK_SKEW_NS) % TWO64
    && (cmd.commandType < 0xF0 || cmd.commandType > 0xF7)
    && (cmd.commandType == 0x03 || (!il.estop && !il.overspeed && !il.overtemp && !il.overvoltage))
    && cmd.nonce !in LastNonces(tr)
    && cmd.sequence == |mine| + 1
    && if mine == [] then |Senders(tr)| < MAX_SENDERS
       else cmd.nodeId == mine[0].nodeId && cmd.requiredAuthority.Rank() <= mine[0].senderAuthority.Rank()
  }

  ghost function SlotVerdict(mine: Trace, cmd: Command): GateResult
    requires mine != []
  {
    if cmd.nodeId != mine[0].nodeId then WrongNode
    else if cmd.requiredAuthority.Rank() > mine[0].senderAuthority.Rank() then AuthorityInsufficient
    else if cmd.sequence < |mine| + 1 then SequenceReplay
    else if cmd.sequence > |mine| + 1 then SequenceGap
    else Accept
  }

  ghost function TableVerdict(tr: Trace, cmd: Command): GateResult {
    var mine := OfSender(tr, cmd.senderId);
    if mine != [] then SlotVerdict(mine, cmd)
    else if cmd.sequence != 1 then BootstrapInvalid
    else if |Senders(tr)| >= MAX_SENDERS then UnknownSender
    else Accept
  }

  /** The gate's answer in terms of the accepted commands, with unbounded sequence arithmetic. */
  ghost function Verdict(tr: Trace, il: Interlocks, cmd: Command, now: uint64): GateResult {
    var screened := Screen(LastNonces(tr), il, cmd, now);
    if screened != Accept then screened else TableVerdict(tr, cmd)
  }

  /** What the searches see of an agreeing table: the listed senders, then free slots. */
  lemma {:induction false} SlotIds(senders: seq<SenderState>, tr: Trace)
    requires TableOf(senders, tr)
    ensures forall i :: 0 <= i < |Senders(tr)| ==> senders[i].used && senders[i].senderId == Senders(tr)[i]
    ensures forall i :: |Senders(tr)| <= i < MAX_SENDERS ==> !senders[i].used
  {
    forall i | 0 <= i < |Senders(tr)|
      ensures senders[i].used && senders[i].senderId == Senders(tr)[i]
    {
      assert SlotOf(senders[i], Senders(tr)[i], OfSender(tr, Senders(tr)[i]));
    }
  }

  /** In an agreeing table the searches land where the list of senders says. */
  lemma {:induction false} SearchesFollowTrace(senders: seq<SenderState>, tr: Trace, id: uint32)
    requires TableOf(senders, tr)
    ensures FreeSlot(senders) == |Senders(tr)|
    ensures id in Senders(tr) ==>
              FindSlot(senders, id) < |Senders(tr)| && Senders(tr)[FindSlot(senders, id)] == id
    ensures id !in Senders(tr) ==> FindSlot(senders, id) == MAX_SENDERS
  {
    SlotIds(senders, tr);
    var n, i := |Senders(tr)|, FindSlot(senders, id);
    assert n < MAX_SENDERS ==> !senders[n].used;
    assert i < n ==> Senders(tr)[i] == id;
    if id in Senders(tr) {
      var k :| 0 <= k < n && Senders(tr)[k] == id;
      assert senders[k].used && senders[k].senderId == id;
    }
  }

  /** The slot a known sender's search finds is the one its commands make. */
  lemma {:induction false} KnownSlot(senders: seq<SenderState>, tr: Trace, id: uint32)
    requires TableOf(senders, tr) && OfSender(tr, id) != []
    ensures FindSlot(senders, id) < MAX_SENDERS
    ensures SlotOf(senders[FindSlot(senders, id)], id, OfSender(tr, id))
  {
    SearchesFollowTrace(senders, tr, id);
    SendersAreListed(tr, id);
    var i := FindSlot(senders, id);
    assert SlotOf(senders[i], Senders(tr)[i], OfSender(tr, Senders(tr)[i]));
  }

  lemma {:induction false} UnknownSlot(senders: seq<SenderState>, tr: Trace, id: uint32)
    requires TableOf(senders, tr) && OfSender(tr, id) == []
    ensures FindSlot(senders, id) == MAX_SENDERS
    ensures FreeSlot(senders) == |Senders(tr)|
  {
    SearchesFollowTrace(senders, tr, id);
    SendersAreListed(tr, id);
  }

  /** The slot checks, read off the commands that made the slot. */
  lemma {:induction false} SlotDecides(s: SenderState, mine: Trace, cmd: Command)
    requires SlotOf(s, cmd.senderId, mine)
    ensures CheckSlot(s, cmd) == SlotVerdict(mine, cmd)
  {}

  lemma {:induction false} LookupFollowsTrace(senders: seq<SenderState>, tr: Trace, cmd: Command)
    requires TableOf(senders, tr)
    ensures Lookup(senders, cmd) == TableVerdict(tr, cmd)
  {
    if OfSender(tr, cmd.senderId) == [] {
      UnknownSlot(senders, tr, cmd.senderId);
    } else {
      KnownSlot(senders, tr, cmd.senderId);
      SlotDecides(senders[FindSlot(senders, cmd.senderId)], OfSender(tr, cmd.senderId), cmd);
    }
  }

  /** The gate's next decision depends on nothing but the trace, the interlocks and the clock. */
  lemma {:induction false} DecisionFollowsTrace(r: Run, cmd: Command, now: uint64)
    requires r.gate.Valid() && Agrees(r)
    ensures Decide(r.gate, cmd, now) == Verdict(r.accepted, r.gate.interlocks, cmd, now)
  {
    LookupFollowsTrace(r.gate.senders, r.accepted, cmd);
  }

  lemma {:induction false} AcceptMeansAcceptable(tr: Trace, il: Interlocks, cmd: Command, now: uint64)
    ensures Verdict(tr, il, cmd, now) == Accept <==> Acceptable(tr, il, cmd, now)
  {}

  // ---------- every step keeps the agreement ----------

  lemma {:induction false} WindowSlides(tr: Trace, c: Command)
    ensures |LastNonces(tr)| <= MAX_NONCES
    ensures LastNonces(tr + [c]) == Slide(LastNonces(tr), c.nonce)
  {
    assert Nonces(tr + [c]) == Nonces(tr) + [c.nonce];
  }

  lemma {:induction false} FreshnessKept(tr: Trace, c: Command)
    requires NoncesFresh(tr) && c.nonce !in LastNonces(tr)
    ensures NoncesFresh(tr + [c])
  {
    forall i | 0 <= i < |tr| && |tr| - i <= MAX_NONCES ensures tr[i].nonce != c.nonce {
      var low := if |tr| <= MAX_NONCES then 0 else |tr| - MAX_NONCES;
      assert LastNonces(tr)[i - low] == tr[i].nonce;
    }
  }

  lemma {:induction false} TableGrows(senders: seq<SenderState>, tr: Trace, cmd: Command)
    requires TableOf(senders, tr)
    requires cmd.senderId !in Senders(tr) && |Senders(tr)| < MAX_SENDERS && cmd.sequence == 1
    ensures TableOf(senders[|Senders(tr)| := Enrolled(cmd)], tr + [cmd])
  {
    var tr', n := tr + [cmd], |Senders(tr)|;
    TraceGrows(tr, cmd, cmd.senderId);
    SendersAreListed(tr, cmd.senderId);
    forall i | 0 <= i < n
      ensures OfSender(tr', Senders(tr')[i]) == OfSender(tr, Senders(tr)[i])
    {
      TraceGrows(tr, cmd, Senders(tr)[i]);
    }
  }

  lemma {:induction false} TableAdvances(senders: seq<SenderState>, tr: Trace, cmd: Command, i: nat)
    requires TableOf(senders, tr)
    requires i < |Senders(tr)| && Senders(tr)[i] == cmd.senderId
    requires cmd.sequence == |OfSender(tr, cmd.senderId)| + 1
    ensures TableOf(senders[i := senders[i].(currentSeq := cmd.sequence)], tr + [cmd])
  {
    var tr', senders' := tr + [cmd], senders[i := senders[i].(currentSeq := cmd.sequence)];
    TraceGrows(tr, cmd, cmd.senderId);
    SendersAreDistinct(tr);
    forall k | 0 <= k < |Senders(tr)|
      ensures SlotOf(senders'[k], Senders(tr')[k], OfSender(tr', Senders(tr')[k]))
    {
      TraceGrows(tr, cmd, Senders(tr)[k]);
      assert SlotOf(senders[k], Senders(tr)[k], OfSender(tr, Senders(tr)[k]));
    }
  }

  lemma {:induction false} TableFollows(senders: seq<SenderState>, tr: Trace, il: Interlocks, cmd: Command, now: uint64)
    requires TableOf(senders, tr)
    requires Acceptable(tr, il, cmd, now)
    ensures TableOf(Admit(senders, cmd), tr + [cmd])
  {
    SearchesFollowTrace(senders, tr, cmd.senderId);
    SendersAreListed(tr, cmd.senderId);
    if cmd.senderId in Senders(tr) {
      TableAdvances(senders, tr, cmd, FindSlot(senders, cmd.senderId));
    } else {
      TableGrows(senders, tr, cmd);
    }
  }

  lemma {:induction false} AcceptKeepsAgreement(r: Run, cmd: Command, now: uint64)
    requires r.gate.Valid() && Agrees(r)
    requires Evaluate(r.gate, cmd, now).1 == Accept
    ensures Agrees(Run(Evaluate(r.gate, cmd, now).0, r.accepted + [cmd]))
  {
    DecisionFollowsTrace(r, cmd, now);
    AcceptMeansAcceptable(r.accepted, r.gate.interlocks, cmd, now);
    WindowSlides(r.accepted, cmd);
    FreshnessKept(r.accepted, cmd);
    TableFollows(r.gate.senders, r.accepted, r.gate.interlocks, cmd, now);
    forall id: uint32 ensures InOrder(OfSender(r.accepted + [cmd], id)) {
      TraceGrows(r.accepted, cmd, id);
      assert InOrder(OfSender(r.accepted, id));
    }
  }

  /** Main invariant: after any run, the gate is the one its trace determines. */
  lemma {:induction false} RunsAgree(inputs: seq<Input>)
    ensures Agrees(RunOf(inputs))
  {
    if inputs == [] {
      assert Nonces([]) == [];
    } else {
      var before, input := RunOf(inputs[..|inputs| - 1]), inputs[|inputs| - 1];
      RunsAgree(inputs[..|inputs| - 1]);
      if input.Present? && Evaluate(before.gate, input.cmd, input.now).1 == Accept {
        AcceptKeepsAgreement(before, input.cmd, input.now);
      }
    }
  }

  // ---------- what follows for every run ----------

  /**
   After any run the answer to a command is the verdict on the accepted commands so far, and it
   is acceptance exactly when they make the command acceptable.
   */
  lemma {:induction false} RunDecides(inputs: seq<Input>, cmd: Command, now: uint64)
    ensures var r := RunOf(inputs);
            && Evaluate(r.gate, cmd, now).1 == Verdict(r.accepted, r.gate.interlocks, cmd, now)
            && (Evaluate(r.gate, cmd, now).1 == Accept <==> Acceptable(r.accepted, r.gate.interlocks, cmd, now))
  {
    RunsAgree(inputs);
    DecisionFollowsTrace(RunOf(inputs), cmd, now);
    AcceptMeansAcceptable(RunOf(inputs).accepted, RunOf(inputs).gate.interlocks, cmd, now);
  }

  /** What each answer tells the sender about the command and the commands accepted before it. */
  ghost predicate Justified(tr: Trace, il: Interlocks, cmd: Command, now: uint64, result: GateResult) {
    var mine := OfSender(tr, cmd.senderId);
    match result
    case Accept => Acceptable(tr, il, cmd, now)
    case PayloadCorrupt => cmd.payloadHashExpected != cmd.payloadHashActual
    case Expired => cmd.expiresAt < now
    case FutureTimestamp => cmd.issuedAt > (now + CLOCK_SKEW_NS) % TWO64
    case CommandBlocked => 0xF0 <= cmd.commandType <= 0xF7
    case InterlockUnsafe =>
      cmd.commandType != CMD_ENTER_SAFE_STATE && (il.estop || il.overspeed || il.overtemp || il.overvoltage)
    case NonceReplay => exists k :: 0 <= k < |tr| && |tr| - MAX_NONCES <= k && tr[k].nonce == cmd.nonce
    case BootstrapInvalid => mine == [] && cmd.sequence != 1
    case UnknownSender => mine == [] && |Senders(tr)| == MAX_SENDERS
    case WrongNode => mine != [] && cmd.nodeId != mine[0].nodeId
    case AuthorityInsufficient => mine != [] && mine[0].senderAuthority.Rank() < cmd.requiredAuthority.Rank()
    case SequenceReplay => cmd.sequence == 0 || exists k :: 0 <= k < |mine| && mine[k].sequence == cmd.sequence
    case SequenceGap => cmd.sequence > |mine| + 1
  }

  lemma {:induction false} WindowNonce(tr: Trace, n: Nonce)
    requires n in LastNonces(tr)
    ensures exists k :: 0 <= k < |tr| && |tr| - MAX_NONCES <= k && tr[k].nonce == n
  {
    var i :| 0 <= i < |LastNonces(tr)| && LastNonces(tr)[i] == n;
    assert tr[|tr| - |LastNonces(tr)| + i].nonce == n;
  }

  lemma {:induction false} SlotVerdictJustified(tr: Trace, il: Interlocks, cmd: Command, now: uint64)
    requires OfSender(tr, cmd.senderId) != [] && InOrder(OfSender(tr, cmd.senderId))
    requires SlotVerdict(OfSender(tr, cmd.senderId), cmd) != Accept
    ensures Justified(tr, il, cmd, now, SlotVerdict(OfSender(tr, cmd.senderId), cmd))
  {
    var mine := OfSender(tr, cmd.senderId);
    if 1 <= cmd.sequence <= |mine| {
      assert mine[cmd.sequence - 1].sequence == cmd.sequence;
    }
  }

  lemma {:induction false} VerdictJustified(tr: Trace, il: Interlocks, cmd: Command, now: uint64)
    requires InOrder(OfSender(tr, cmd.senderId)) && |Senders(tr)| <= MAX_SENDERS
    ensures Justified(tr, il, cmd, now, Verdict(tr, il, cmd, now))
  {
    AcceptMeansAcceptable(tr, il, cmd, now);
    var screened := Screen(LastNonces(tr), il, cmd, now);
    if screened == NonceReplay {
      WindowNonce(tr, cmd.nonce);
    } else if screened == Accept && OfSender(tr, cmd.senderId) != []
              && SlotVerdict(OfSender(tr, cmd.senderId), cmd) != Accept {
      SlotVerdictJustified(tr, il, cmd, now);
    }
  }

  /** After any run every answer, refusals included, is justified by the accepted commands so far. */
  lemma {:induction false} AnswersAreJustified(inputs: seq<Input>, cmd: Command, now: uint64)
    ensures Justified(RunOf(inputs).accepted, RunOf(inputs).gate.interlocks, cmd, now,
                      Evaluate(RunOf(inputs).gate, cmd, now).1)
  {
    var r := RunOf(inputs);
    RunsAgree(inputs);
    RunDecides(inputs, cmd, now);
    VerdictJustified(r.accepted, r.gate.interlocks, cmd, now);
  }

  function SumOfSequences(senders: seq<SenderState>): nat {
    if senders == [] then 0
    else (if senders[0].used then senders[0].currentSeq else 0) + SumOfSequences(senders[1..])
  }

  lemma {:induction false} SumAfterUpdate(senders: seq<SenderState>, i: nat, s: SenderState)
    requires i < |senders|
    ensures SumOfSequences(senders[i := s]) + (if senders[i].used then senders[i].currentSeq else 0)
         == SumOfSequences(senders) + (if s.used then s.currentSeq else 0)
  {
    if i == 0 {
      assert senders[i := s][1..] == senders[1..];
    } else {
      assert senders[i := s][1..] == senders[1..][i - 1 := s];
      SumAfterUpdate(senders[1..], i - 1, s);
    }
  }

  lemma {:induction false} EmptySum(senders: seq<SenderState>)
    requires forall i :: 0 <= i < |senders| ==> !senders[i].used
    ensures SumOfSequences(senders) == 0
  {
    if senders == [] {
    } else {
      EmptySum(senders[1..]);
    }
  }

  lemma {:induction false} AcceptAddsOne(senders: seq<SenderState>, cmd: Command)
    requires Lookup(senders, cmd) == Accept
    ensures SumOfSequences(Admit(senders, cmd)) == SumOfSequences(senders) + 1
  {
    var i := FindSlot(senders, cmd.senderId);
    if i < |senders| {
      SumAfterUpdate(senders, i, senders[i].(currentSeq := cmd.sequence));
    } else {
      SumAfterUpdate(senders, FreeSlot(senders), Enrolled(cmd));
    }
  }

  /** Conservation: the slots' sequence numbers add up to the number of accepted commands. */
  lemma {:induction false} SequencesAreConserved(inputs: seq<Input>)
    ensures SumOfSequences(RunOf(inputs).gate.senders) == |RunOf(inputs).accepted|
    ensures |RunOf(inputs).gate.nonces| ==
            if |RunOf(inputs).accepted| < MAX_NONCES then |RunOf(inputs).accepted| else MAX_NONCES
  {
    RunsAgree(inputs);
    if inputs == [] {
      EmptySum(Zeroed().senders);
    } else {
      var front, input := inputs[..|inputs| - 1], inputs[|inputs| - 1];
      SequencesAreConserved(front);
      var before := RunOf(front);
      if input.Present? && Evaluate(before.gate, input.cmd, input.now).1 == Accept {
        AcceptAddsOne(before.gate.senders, input.cmd);
      }
    }
  }

  lemma {:induction false} WindowIsDistinct(tr: Trace)
    requires NoncesFresh(tr)
    ensures Distinct(LastNonces(tr))
  {
    var window := LastNonces(tr);
    var low := |tr| - |window|;
    assert forall i :: 0 <= i < |window| ==> window[i] == tr[low + i].nonce;
    forall i, j | 0 <= i < j < |window| ensures window[i] != window[j] {
      assert tr[low + i].nonce != tr[low + j].nonce;
    }
  }

  /** The nonce window holds the last accepted nonces in order, all different. */
  lemma {:induction false} NonceWindow(inputs: seq<Input>)
    ensures RunOf(inputs).gate.nonces == LastNonces(RunOf(inputs).accepted)
    ensures Distinct(RunOf(inputs).gate.nonces)
    ensures NoncesFresh(RunOf(inputs).accepted)
  {
    RunsAgree(inputs);
    WindowIsDistinct(RunOf(inputs).accepted);
  }

  ghost predicate UsedPrefix(senders: seq<SenderState>) {
    && (forall i, j :: 0 <= i < j < |senders| && senders[j].used ==> senders[i].used)
    && (forall i, j :: 0 <= i < j < |senders| && senders[i].used && senders[j].used ==>
          senders[i].senderId != senders[j].senderId)
  }

  /** The used slots are a prefix of the table and name different senders. */
  lemma {:induction false} UsedSlotsArePrefix(inputs: seq<Input>)
    ensures UsedPrefix(RunOf(inputs).gate.senders)
  {
    RunsAgree(inputs);
    SendersAreDistinct(RunOf(inputs).accepted);
    SlotIds(RunOf(inputs).gate.senders, RunOf(inputs).accepted);
  }

  ghost predicate NumberedUpTo(s: SenderState, tr: Trace) {
    var mine := OfSender(tr, s.senderId);
    && |mine| == s.currentSeq
    && forall k :: 0 <= k < |mine| ==> mine[k].sequence == k + 1 && mine[k].nodeId == s.allowedNode
  }

  /** Accepted sequence numbers of each sender are exactly 1, 2, ..., current_seq, on one node. */
  lemma {:induction false} SequencesPerSender(inputs: seq<Input>, i: nat)
    requires i < MAX_SENDERS && RunOf(inputs).gate.senders[i].used
    ensures NumberedUpTo(RunOf(inputs).gate.senders[i], RunOf(inputs).accepted)
  {
    RunsAgree(inputs);
    var tr := RunOf(inputs).accepted;
    if i < |Senders(tr)| {
      assert SlotOf(RunOf(inputs).gate.senders[i], Senders(tr)[i], OfSender(tr, Senders(tr)[i]));
      assert InOrder(OfSender(tr, Senders(tr)[i]));
    }
  }

  /** Where the k-th command of a sender sits is where its sequence number says it was accepted. */
  lemma {:induction false} SequenceIsPosition(tr: Trace, i: nat)
    requires i < |tr| && forall id: uint32 :: InOrder(OfSender(tr, id))
    ensures tr[i].sequence == |OfSender(tr[..i], tr[i].senderId)| + 1
    decreases |tr|
  {
    var front, last := tr[..|tr| - 1], tr[|tr| - 1];
    assert tr == front + [last];
    var id := tr[i].senderId;
    if i == |tr| - 1 {
      TraceGrows(front, last, id);
      assert tr[..i] == front;
      assert InOrder(OfSender(tr, id));
      assert OfSender(tr, id)[|OfSender(front, id)|] == last;
    } else {
      forall other: uint32 ensures InOrder(OfSender(front, other)) {
        TraceGrows(front, last, other);
        assert InOrder(OfSender(tr, other));
        var longer, shorter := OfSender(tr, other), OfSender(front, other);
        assert forall k :: 0 <= k < |shorter| ==> shorter[k] == longer[k];
      }
      SequenceIsPosition(front, i);
      assert front[..i] == tr[..i];
    }
  }

  lemma {:induction false} OfSenderGrows(tr: Trace, i: nat, j: nat, id: uint32)
    requires i < j <= |tr| && tr[i].senderId == id
    ensures |OfSender(tr[..i], id)| < |OfSender(tr[..j], id)|
    decreases j
  {
    assert tr[..j][..j - 1] == tr[..j - 1];
    if i == j - 1 {
    } else {
      OfSenderGrows(tr, i, j - 1, id);
    }
  }

  /** No (sender, sequence) pair is ever accepted twice: per sender, sequences strictly increase. */
  lemma {:induction false} NoPairTwice(inputs: seq<Input>, i: nat, j: nat)
    requires i < j < |RunOf(inputs).accepted|
    requires RunOf(inputs).accepted[i].senderId == RunOf(inputs).accepted[j].senderId
    ensures RunOf(inputs).accepted[i].sequence < RunOf(inputs).accepted[j].sequence
  {
    var tr := RunOf(inputs).accepted;
    RunsAgree(inputs);
    SequenceIsPosition(tr, i);
    SequenceIsPosition(tr, j);
    OfSenderGrows(tr, i, j, tr[i].senderId);
  }

  lemma {:induction false} ExhaustedStep(r: Run, input: Input, id: uint32)
    requires r.gate.Valid() && Agrees(r)
    requires |OfSender(r.accepted, id)| == TWO64 - 1
    ensures OfSender(Step(r, input).accepted, id) == OfSender(r.accepted, id)
  {
    if input.Present? {
      DecisionFollowsTrace(r, input.cmd, input.now);
      AcceptMeansAcceptable(r.accepted, r.gate.interlocks, input.cmd, input.now);
      TraceGrows(r.accepted, input.cmd, id);
    }
  }

  /**
   A sender that has used up all 64-bit sequence numbers is refused for good: if that is so after
   some prefix of a run, no command of that sender is accepted in the rest of the run.
   */
  lemma {:induction false} ExhaustedSenderIsRefused(inputs: seq<Input>, n: nat, id: uint32)
    requires n <= |inputs|
    requires |OfSender(RunOf(inputs[..n]).accepted, id)| == TWO64 - 1
    ensures OfSender(RunOf(inputs).accepted, id) == OfSender(RunOf(inputs[..n]).accepted, id)
    decreases |inputs|
  {
    if n == |inputs| {
      assert inputs[..n] == inputs;
    } else {
      var front := inputs[..|inputs| - 1];
      assert front[..n] == inputs[..n];
      ExhaustedSenderIsRefused(front, n, id);
      RunsAgree(front);
      ExhaustedStep(RunOf(front), inputs[|inputs| - 1], id);
    }
  }

  /**
   The future-timestamp check adds the allowed skew in 64 bits. It agrees with the unbounded
   comparison exactly when that sum does not wrap or the command is old enough to pass anyway.
   */
  lemma {:induction false} FutureCheckExactIff(issuedAt: uint64, now: uint64)
    ensures (issuedAt > (now + CLOCK_SKEW_NS) % TWO64 <==> issuedAt > now + CLOCK_SKEW_NS)
       <==> (now + CLOCK_SKEW_NS < TWO64 || issuedAt <= now + CLOCK_SKEW_NS - TWO64)
  {}
}
