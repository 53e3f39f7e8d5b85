/**
 Every answer of the multi-sender gate, after any run, in terms of the command's fields, the
 interlock inputs last set and the commands accepted so far.
 */
module GateAnswers {
  import opened Words
  import opened MultiSenderGate
  import opened GateRuns

  /** The interlock inputs last set in a run; all clear before the first. */
  function InterlocksSet(inputs: seq<Input>): Interlocks {
    if inputs == [] then Interlocks(false, false, false, false)
    else match inputs[|inputs| - 1]
      case SetInterlocks(il) => il
      case Present(_, _) => InterlocksSet(inputs[..|inputs| - 1])
  }

  lemma {:induction false} InterlocksAreLastSet(inputs: seq<Input>)
    ensures RunOf(inputs).gate.interlocks == InterlocksSet(inputs)
  {
    if inputs == [] {
    } else {
      InterlocksAreLastSet(inputs[..|inputs| - 1]);
    }
  }

  function Answer(inputs: seq<Input>, cmd: Command, now: uint64): GateResult {
    Evaluate(RunOf(inputs).gate, cmd, now).1
  }

  ghost predicate Intact(cmd: Command) {
    cmd.payloadHashExpected == cmd.payloadHashActual
  }

  /** Not expired, and issued at most five seconds ahead of the clock, in 64-bit arithmetic. */
  ghost predicate Timely(cmd: Command, now: uint64) {
    now <= cmd.expiresAt && cmd.issuedAt <= (now + 5_000_000_000) % 0x1_0000_0000_0000_0000
  }

  /** Outside the bypass commands and, unless it is the safe-state command, no interlock is tripped. */
  ghost predicate Harmless(cmd: Command, il: Interlocks) {
    && (cmd.commandType < 0xF0 || cmd.commandType > 0xF7)
    && (cmd.commandType == 0x03 || (!il.estop && !il.overspeed && !il.overtemp && !il.overvoltage))
  }

  /** One of the last 256 accepted commands carried this nonce. */
  ghost predicate NonceRecent(tr: Trace, n: Nonce) {
    exists k :: 0 <= k < |tr| && |tr| - 256 <= k && tr[k].nonce == n
  }

  /** The authority `a` is lower than `b`. */
  ghost predicate Lower(a: Authority, b: Authority) {
    match a
    case Observer => !b.Observer?
    case Operator => b.Admin? || b.Emergency?
    case Admin => b.Emergency?
    case Emergency => false
  }

  lemma {:induction false} RanksAreOrdered(a: Authority, b: Authority)
    ensures a.Rank() < b.Rank() <==> Lower(a, b)
  {}

  lemma {:induction false} WindowIsRecent(tr: Trace, n: Nonce)
    ensures n in LastNonces(tr) <==> NonceRecent(tr, n)
  {
    var window := LastNonces(tr);
    var low := |tr| - |window|;
    assert forall i :: 0 <= i < |window| ==> window[i] == tr[low + i].nonce;
    if n in window {
      WindowNonce(tr, n);
    }
    if NonceRecent(tr, n) {
      var k :| 0 <= k < |tr| && |tr| - 256 <= k && tr[k].nonce == n;
      assert window[k - low] == n;
    }
  }

  /** The answers given before the nonces and the sender table are looked at, and the nonce answer. */
  ghost predicate ScreenedAs(a: GateResult, tr: Trace, il: Interlocks, cmd: Command, now: uint64) {
    && (a == PayloadCorrupt <==> cmd.payloadHashExpected != cmd.payloadHashActual)
    && (a == Expired <==> Intact(cmd) && cmd.expiresAt < now)
    && (a == FutureTimestamp <==>
          Intact(cmd) && now <= cmd.expiresAt && cmd.issuedAt > (now + 5_000_000_000) % 0x1_0000_0000_0000_0000)
    && (a == CommandBlocked <==> Intact(cmd) && Timely(cmd, now) && 0xF0 <= cmd.commandType <= 0xF7)
    && (a == InterlockUnsafe <==>
          && Intact(cmd) && Timely(cmd, now)
          && (cmd.commandType < 0xF0 || cmd.commandType > 0xF7) && cmd.commandType != 0x03
          && (il.estop || il.overspeed || il.overtemp || il.overvoltage))
    && (a == NonceReplay <==>
          Intact(cmd) && Timely(cmd, now) && Harmless(cmd, il) && NonceRecent(tr, cmd.nonce))
  }

  /** A command on the node, and within the authority, that its sender's first command fixed. */
  ghost predicate Entitled(first: Command, cmd: Command) {
    cmd.nodeId == first.nodeId && !Lower(first.senderAuthority, cmd.requiredAuthority)
  }

  /** The answers of a command that passed all that, against its sender's accepted commands `mine`. */
  ghost predicate LookedUpAs(a: GateResult, passed: bool, tr: Trace, mine: Trace, cmd: Command) {
    && (a == BootstrapInvalid <==> passed && mine == [] && cmd.sequence != 1)
    && (a == UnknownSender <==> passed && mine == [] && cmd.sequence == 1 && |Senders(tr)| == 32)
    && (a == WrongNode <==> passed && mine != [] && cmd.nodeId != mine[0].nodeId)
    && (a == AuthorityInsufficient <==>
          passed && mine != [] && cmd.nodeId == mine[0].nodeId
          && Lower(mine[0].senderAuthority, cmd.requiredAuthority))
    && (a == SequenceReplay <==> passed && mine != [] && Entitled(mine[0], cmd) && cmd.sequence <= |mine|)
    && (a == SequenceGap <==> passed && mine != [] && Entitled(mine[0], cmd) && cmd.sequence > |mine| + 1)
    && (a == Accept <==>
          passed && cmd.sequence == |mine| + 1
          && if mine == [] then |Senders(tr)| < 32 else Entitled(mine[0], cmd))
  }

  lemma {:induction false} VerdictScreens(tr: Trace, il: Interlocks, cmd: Command, now: uint64)
    ensures ScreenedAs(Verdict(tr, il, cmd, now), tr, il, cmd, now)
  {
    WindowIsRecent(tr, cmd.nonce);
  }

  lemma {:induction false} VerdictLooksUp(tr: Trace, il: Interlocks, cmd: Command, now: uint64)
    requires |Senders(tr)| <= 32
    ensures var passed := Intact(cmd) && Timely(cmd, now) && Harmless(cmd, il) && !NonceRecent(tr, cmd.nonce);
            LookedUpAs(Verdict(tr, il, cmd, now), passed, tr, OfSender(tr, cmd.senderId), cmd)
  {
    WindowIsRecent(tr, cmd.nonce);
    var mine := OfSender(tr, cmd.senderId);
    if mine != [] {
      RanksAreOrdered(mine[0].senderAuthority, cmd.requiredAuthority);
    }
  }

  /** After any run, exactly when each of the first six refusals is given. */
  lemma {:induction false} ScreeningAnswersIff(inputs: seq<Input>, cmd: Command, now: uint64)
    ensures ScreenedAs(Answer(inputs, cmd, now), RunOf(inputs).accepted, InterlocksSet(inputs), cmd, now)
  {
    RunDecides(inputs, cmd, now);
    InterlocksAreLastSet(inputs);
    VerdictScreens(RunOf(inputs).accepted, InterlocksSet(inputs), cmd, now);
  }

  /** After any run, exactly when each of the other refusals, and acceptance, is given. */
  lemma {:induction false} TableAnswersIff(inputs: seq<Input>, cmd: Command, now: uint64)
    ensures var tr, il := RunOf(inputs).accepted, InterlocksSet(inputs);
            var passed := Intact(cmd) && Timely(cmd, now) && Harmless(cmd, il) && !NonceRecent(tr, cmd.nonce);
            LookedUpAs(Answer(inputs, cmd, now), passed, tr, OfSender(tr, cmd.senderId), cmd)
  {
    RunDecides(inputs, cmd, now);
    RunsAgree(inputs);
    InterlocksAreLastSet(inputs);
    VerdictLooksUp(RunOf(inputs).accepted, InterlocksSet(inputs), cmd, now);
  }
}
