/** The dark controller, whose mode follows the state engine, and the product of the two. */
module DarkController {
  import opened Words
  import opened StateEngine

  datatype DarkMode = Off | On | Hard

  datatype Dark = Dark(mode: DarkMode, activatedAt: uint64, packetsSuppressed: uint64, triggerCount: uint32)

  const DARK_INITIAL := Dark(Off, 0, 0, 0)

  function Activated(d: Dark, m: DarkMode, now: uint64): Dark {
    d.(mode := m, activatedAt := now, triggerCount := (d.triggerCount + 1) % TWO32)
  }

  function Deactivated(d: Dark): Dark {
    d.(mode := Off, activatedAt := 0)
  }

  function AfterDarkTick(d: Dark, s: ControllerState, now: uint64): Dark {
    match s
    case Lockout => Activated(d, Hard, now)
    case Failsafe => if d.mode == Off then Activated(d, On, now) else d
    case Degraded => if d.mode == Off then Activated(d, On, now) else d
    case Active => if d.mode == On then Deactivated(d) else d
    case Init => d
  }

  function AfterPacket(d: Dark): Dark {
    if d.mode == Off then d else d.(packetsSuppressed := (d.packetsSuppressed + 1) % TWO64)
  }

  class Controller {
    var mode: DarkMode
    var activatedAt: uint64
    var packetsSuppressed: uint64
    var triggerCount: uint32

    ghost function Model(): Dark
      reads this
    {
      Dark(mode, activatedAt, packetsSuppressed, triggerCount)
    }

    constructor Init()
      ensures Model() == DARK_INITIAL
    {
      mode := Off;
      activatedAt, packetsSuppressed, triggerCount := 0, 0, 0;
    }

    method Activate(m: DarkMode, now: uint64)
      modifies this
      ensures Model() == Activated(old(Model()), m, now)
    {
      mode := m;
      activatedAt := now;
      triggerCount := (triggerCount + 1) % TWO32;
    }

    method Deactivate()
      modifies this
      ensures Model() == Deactivated(old(Model()))
    {
      mode := Off;
      activatedAt := 0;
    }

    method ShouldSuppress() returns (suppress: bool)
      modifies this
      ensures suppress <==> old(mode) != Off
      ensures Model() == AfterPacket(old(Model()))
    {
      if mode == Off {
        return false;
      }
      packetsSuppressed := (packetsSuppressed + 1) % TWO64;
      return true;
    }

    method Tick(s: StateEngine.Controller, now: uint64)
      modifies this
      ensures Model() == AfterDarkTick(old(Model()), s.current, now)
    {
      if s.current.Lockout? {
        Activate(Hard, now);
        return;
      }
      if s.current.Failsafe? || s.current.Degraded? {
        if mode == Off {
          Activate(On, now);
        }
        return;
      }
      if s.current.Active? && mode == On {
        Deactivate();
      }
    }
  }

  // ---------- the product machine ----------

  datatype Input =
    | Event(e: StateEvent, t1: uint64, t2: uint64)
    | Tick(now: uint64)
    | DarkTick(now: uint64)
    | Packet

  datatype Product = Product(engine: Engine, dark: Dark)

  function Step(p: Product, i: Input): Product {
    match i
    case Event(e, t1, t2) => p.(engine := AfterEvent(p.engine, e, t1, t2))
    case Tick(now) => p.(engine := AfterTick(p.engine, now))
    case DarkTick(now) => p.(dark := AfterDarkTick(p.dark, p.engine.current, now))
    case Packet => p.(dark := AfterPacket(p.dark))
  }

  /** The product after a run, started with the clock at `start`. */
  function RunOf(start: uint64, inputs: seq<Input>): Product {
    if inputs == [] then Product(Started(start), DARK_INITIAL)
    else Step(RunOf(start, inputs[..|inputs| - 1]), inputs[|inputs| - 1])
  }

  ghost predicate Inv(p: Product) {
    && (p.engine.current.Lockout? <==> p.engine.lockoutHard)
    && (p.dark.mode.Hard? ==> p.engine.lockoutHard)
  }

  lemma {:induction false} RunsKeepInv(start: uint64, inputs: seq<Input>)
    ensures Inv(RunOf(start, inputs))
  {
    if inputs == [] {
    } else {
      RunsKeepInv(start, inputs[..|inputs| - 1]);
    }
  }

  /** The engine is in LOCKOUT exactly when the hard lock is set. */
  lemma {:induction false} LockoutIffHard(start: uint64, inputs: seq<Input>)
    ensures RunOf(start, inputs).engine.current.Lockout? <==> RunOf(start, inputs).engine.lockoutHard
  {
    RunsKeepInv(start, inputs);
  }

  /** Lockout is absorbing: nothing that follows, a manual reset included, changes the engine at all. */
  lemma {:induction false} LockoutIsAbsorbing(start: uint64, inputs: seq<Input>, more: seq<Input>)
    requires RunOf(start, inputs).engine.current.Lockout?
    ensures RunOf(start, inputs + more).engine == RunOf(start, inputs).engine
  {
    RunsKeepInv(start, inputs);
    if more == [] {
      assert inputs + more == inputs;
    } else {
      var front := more[..|more| - 1];
      LockoutIsAbsorbing(start, inputs, front);
      assert (inputs + more)[..|inputs + more| - 1] == inputs + front;
    }
  }

  // ---------- who is suppressed, and when ----------

  /** Whether a packet asked about now would be suppressed. */
  predicate Suppresses(d: Dark) {
    d.mode != Off
  }

  /**
   The state the last dark tick found, passing over ticks that found INIT, which change nothing;
   INIT when there was no other.
   */
  function LastSeen(start: uint64, inputs: seq<Input>): ControllerState {
    if inputs == [] then ControllerState.Init
    else
      var front := inputs[..|inputs| - 1];
      var found := RunOf(start, front).engine.current;
      if inputs[|inputs| - 1].DarkTick? && !found.Init? then found else LastSeen(start, front)
  }

  function ModeFor(s: ControllerState): DarkMode {
    match s
    case Init => Off
    case Active => Off
    case Degraded => On
    case Failsafe => On
    case Lockout => Hard
  }

  /** After every run the mode is the one the last state seen by a dark tick calls for. */
  lemma {:induction false} ModeFollowsLastSeen(start: uint64, inputs: seq<Input>)
    ensures RunOf(start, inputs).dark.mode == ModeFor(LastSeen(start, inputs))
  {
    if inputs == [] {
    } else {
      var front := inputs[..|inputs| - 1];
      ModeFollowsLastSeen(start, front);
      RunsKeepInv(start, front);
    }
  }

  /**
   After every run, an engine that allows commands is suppressed exactly when the last dark tick
   that found anything but INIT found it DEGRADED or in FAILSAFE.
   */
  lemma {:induction false} AllowedButSuppressedIff(start: uint64, inputs: seq<Input>)
    requires Allows(RunOf(start, inputs).engine)
    ensures Suppresses(RunOf(start, inputs).dark)
       <==> LastSeen(start, inputs).Degraded? || LastSeen(start, inputs).Failsafe?
  {
    ModeFollowsLastSeen(start, inputs);
    RunsKeepInv(start, inputs);
  }

  /** After every run, an engine in LOCKOUT is not suppressed exactly until a dark tick finds trouble. */
  lemma {:induction false} LockedNotSuppressedIff(start: uint64, inputs: seq<Input>)
    requires RunOf(start, inputs).engine.current.Lockout?
    ensures !Suppresses(RunOf(start, inputs).dark)
       <==> LastSeen(start, inputs).Init? || LastSeen(start, inputs).Active?
    ensures RunOf(start, inputs).dark.mode == Hard <==> LastSeen(start, inputs).Lockout?
  {
    ModeFollowsLastSeen(start, inputs);
  }

  /** Right after a dark tick the mode matches the state: what allows commands is not suppressed. */
  lemma {:induction false} ModeAfterDarkTick(start: uint64, inputs: seq<Input>, now: uint64)
    ensures var p := RunOf(start, inputs + [DarkTick(now)]);
            && (!p.engine.current.Init? ==> p.dark.mode == ModeFor(p.engine.current))
            && (p.engine.current.Init? ==> p.dark.mode != Hard)
            && (Allows(p.engine) ==> !Suppresses(p.dark))
  {
    ModeFollowsLastSeen(start, inputs + [DarkTick(now)]);
    RunsKeepInv(start, inputs + [DarkTick(now)]);
    assert (inputs + [DarkTick(now)])[..|inputs|] == inputs;
  }

  /** Both gaps occur: an active engine still suppressed, and one in LOCKOUT not suppressed yet. */
  lemma {:induction false} GapsBetweenDarkTicks(start: uint64, t: uint64)
    ensures var p := RunOf(start, [Event(HeartbeatOk, t, t), Event(ThreatHigh, t, t),
                                   DarkTick(t), Event(HeartbeatOk, t, t)]);
            Allows(p.engine) && Suppresses(p.dark)
    ensures var q := RunOf(start, [Event(ThreatCritical, t, t)]);
            q.engine.current.Lockout? && !Suppresses(q.dark)
  {
    var a, b, c, d := Event(HeartbeatOk, t, t), Event(ThreatHigh, t, t), DarkTick(t), Event(ThreatCritical, t, t);
    assert [a, b, c, a][..3] == [a, b, c] && [a, b, c][..2] == [a, b] && [a, b][..1] == [a] && [a][..0] == [];
    assert RunOf(start, []) == Product(Started(start), DARK_INITIAL);
    assert RunOf(start, [a]).engine.current.Active?;
    assert RunOf(start, [a, b]).engine.current.Degraded?;
    assert RunOf(start, [a, b, c]).dark.mode == On;
    assert [d][..0] == [];
  }

  // ---------- which inputs lead where ----------

  ghost predicate IsEvent(i: Input, e: StateEvent) {
    i.Event? && i.e == e
  }

  /** The miss counter as it stands once an input's own miss is counted. */
  function MissesIncluding(s: Engine, i: Input): nat {
    if i.Event? && i.e.HeartbeatMiss? then (s.heartbeatMisses + 1) % TWO32 else 0
  }

  /** For each state, exactly the inputs after which an unlocked engine is in it. */
  lemma {:induction false} StateAfterInput(start: uint64, inputs: seq<Input>, i: Input)
    requires !RunOf(start, inputs).engine.lockoutHard
    ensures var s, next := RunOf(start, inputs).engine, RunOf(start, inputs + [i]).engine;
            var stays := !i.Event? || (i.e.HeartbeatMiss? && MissesIncluding(s, i) < 3);
            && (next.current.Lockout? <==>
                  IsEvent(i, ThreatCritical) || (i.Tick? && s.current.Failsafe? && s.heartbeatMisses >= 10))
            && (next.current.Init? <==>
                  IsEvent(i, ManualReset) || (s.current.Init? && (stays || IsEvent(i, ThreatHigh))))
            && (next.current.Active? <==>
                  || IsEvent(i, ProxyRestored)
                  || (IsEvent(i, HeartbeatOk) && !s.current.Failsafe?)
                  || (s.current.Active? && stays))
            && (next.current.Degraded? <==>
                  || 3 <= MissesIncluding(s, i) < 6
                  || (IsEvent(i, ThreatHigh) && (s.current.Active? || s.current.Degraded?))
                  || (s.current.Degraded? && stays))
            && (next.current.Failsafe? <==>
                  || MissesIncluding(s, i) >= 6
                  || (s.current.Failsafe? && (IsEvent(i, HeartbeatOk) || IsEvent(i, ThreatHigh)))
                  || (s.current.Failsafe? && stays && !next.current.Lockout?))
  {
    RunsKeepInv(start, inputs);
    assert (inputs + [i])[..|inputs|] == inputs;
  }

  // ---------- what transitions and activations leave behind ----------

  /** How many transitions an input makes an unlocked engine go through. */
  function Transitions(s: Engine, i: Input): nat {
    if i.Tick? then
      if s.current.Failsafe? && s.heartbeatMisses >= 10 then 1 else 0
    else if !i.Event? then 0
    else match i.e
      case HeartbeatOk => if s.current.Degraded? || s.current.Init? then 1 else 0
      case HeartbeatMiss => if MissesIncluding(s, i) >= 6 then 2 else if MissesIncluding(s, i) >= 3 then 1 else 0
      case ThreatHigh => if s.current.Active? then 1 else 0
      case ThreatCritical => 1
      case ProxyRestored => 1
      case ManualReset => 1
  }

  /** What one input leaves in the engine: the time, the state before, and the count of transitions. */
  ghost predicate Recorded(s: Engine, i: Input, next: Engine) {
    var n := Transitions(s, i);
    && next.transitionCount == (s.transitionCount + n) % TWO32
    && (n == 0 ==> next.enteredAt == s.enteredAt && next.previous == s.previous && next.current == s.current)
    && (n == 1 ==> next.enteredAt == (if i.Tick? then i.now else if i.Event? then i.t1 else 0)
                   && next.previous == s.current)
    && (n == 2 ==> i.Event? && next.enteredAt == i.t2 && next.previous == Degraded && next.current == Failsafe)
  }

  lemma {:induction false} StepIsRecorded(p: Product, i: Input)
    requires Inv(p) && !p.engine.lockoutHard
    ensures Recorded(p.engine, i, Step(p, i).engine)
  {
    WrapSucc32(p.engine.transitionCount + 1);
  }

  /** After any run, what the next input leaves behind in an unlocked engine. */
  lemma {:induction false} TransitionsAreRecorded(start: uint64, inputs: seq<Input>, i: Input)
    requires !RunOf(start, inputs).engine.lockoutHard
    ensures Recorded(RunOf(start, inputs).engine, i, RunOf(start, inputs + [i]).engine)
  {
    RunsKeepInv(start, inputs);
    assert (inputs + [i])[..|inputs|] == inputs;
    StepIsRecorded(RunOf(start, inputs), i);
  }

  /** Before any input the engine is in INIT since the start, and nothing is suppressed or counted. */
  lemma {:induction false} StartIsQuiet(start: uint64)
    ensures RunOf(start, []).engine == Engine(ControllerState.Init, ControllerState.Init, start, 0, 0, false)
    ensures RunOf(start, []).dark == Dark(Off, 0, 0, 0)
  {}

  /** All transitions of a run; a locked engine makes none. */
  function TransitionsMade(start: uint64, inputs: seq<Input>): nat {
    if inputs == [] then 0
    else
      var front := inputs[..|inputs| - 1];
      var s := RunOf(start, front).engine;
      TransitionsMade(start, front) + if s.lockoutHard then 0 else Transitions(s, inputs[|inputs| - 1])
  }

  lemma {:induction false} TransitionsAreCounted(start: uint64, inputs: seq<Input>)
    ensures RunOf(start, inputs).engine.transitionCount == TransitionsMade(start, inputs) % TWO32
  {
    if inputs == [] {
    } else {
      var front, last := inputs[..|inputs| - 1], inputs[|inputs| - 1];
      TransitionsAreCounted(start, front);
      assert inputs == front + [last];
      if RunOf(start, front).engine.lockoutHard {
        RunsKeepInv(start, front);
        LockoutIsAbsorbing(start, front, [last]);
      } else {
        TransitionsAreRecorded(start, front, last);
        WrapAdd(TransitionsMade(start, front), Transitions(RunOf(start, front).engine, last));
      }
    }
  }

  /** The state a dark tick finds calls for an activation: LOCKOUT always, trouble only from quiet. */
  function CallsForActivation(found: ControllerState, lastSeen: ControllerState): bool {
    match found
    case Lockout => true
    case Degraded => lastSeen.Init? || lastSeen.Active?
    case Failsafe => lastSeen.Init? || lastSeen.Active?
    case _ => false
  }

  /** The activations of a run. */
  function ActivationsMade(start: uint64, inputs: seq<Input>): nat {
    if inputs == [] then 0
    else
      var front := inputs[..|inputs| - 1];
      var found := RunOf(start, front).engine.current;
      ActivationsMade(start, front)
      + if inputs[|inputs| - 1].DarkTick? && CallsForActivation(found, LastSeen(start, front)) then 1 else 0
  }

  /** The time of the last activation, 0 before the first and after a deactivation. */
  function ActiveSince(start: uint64, inputs: seq<Input>): uint64 {
    if inputs == [] then 0
    else
      var front, last := inputs[..|inputs| - 1], inputs[|inputs| - 1];
      var found, lastSeen := RunOf(start, front).engine.current, LastSeen(start, front);
      if last.DarkTick? && CallsForActivation(found, lastSeen) then last.now
      else if last.DarkTick? && found.Active? && (lastSeen.Degraded? || lastSeen.Failsafe?) then 0
      else ActiveSince(start, front)
  }

  lemma {:induction false} ActivationsAreCounted(start: uint64, inputs: seq<Input>)
    ensures RunOf(start, inputs).dark.triggerCount == ActivationsMade(start, inputs) % TWO32
    ensures RunOf(start, inputs).dark.activatedAt == ActiveSince(start, inputs)
  {
    if inputs == [] {
    } else {
      var front := inputs[..|inputs| - 1];
      ActivationsAreCounted(start, front);
      ModeFollowsLastSeen(start, front);
      WrapSucc32(ActivationsMade(start, front));
    }
  }

  // ---------- heartbeat misses ----------

  /** Misses since the last heartbeat or reset. */
  function MissesSince(inputs: seq<Input>): nat {
    if inputs == [] then 0
    else
      var front, last := inputs[..|inputs| - 1], inputs[|inputs| - 1];
      if !last.Event? then MissesSince(front)
      else match last.e
        case HeartbeatOk => 0
        case ManualReset => 0
        case HeartbeatMiss => MissesSince(front) + 1
        case _ => MissesSince(front)
  }

  /** How one step moves the miss counter of an engine that is and stays unlocked. */
  lemma {:induction false} MissesAfterStep(p: Product, i: Input, misses: nat)
    requires p.engine.heartbeatMisses == misses % TWO32 && !p.engine.lockoutHard
    requires !Step(p, i).engine.lockoutHard
    ensures Step(p, i).engine.heartbeatMisses ==
            (if !i.Event? then misses
             else match i.e
               case HeartbeatOk => 0
               case ManualReset => 0
               case HeartbeatMiss => misses + 1
               case _ => misses) % TWO32
  {
    WrapSucc32(misses);
  }

  /** While unlocked the counter is the number of misses since the last heartbeat or reset. */
  lemma {:induction false} MissesAreCounted(start: uint64, inputs: seq<Input>)
    requires !RunOf(start, inputs).engine.lockoutHard
    ensures RunOf(start, inputs).engine.heartbeatMisses == MissesSince(inputs) % TWO32
  {
    if inputs == [] {
    } else {
      var front := inputs[..|inputs| - 1];
      if RunOf(start, front).engine.lockoutHard {
        RunsKeepInv(start, front);
      } else {
        MissesAreCounted(start, front);
        MissesAfterStep(RunOf(start, front), inputs[|front|], MissesSince(front));
      }
    }
  }

  /** An engine that allows commands has seen fewer than three misses. */
  ghost predicate Bounded(s: Engine) {
    Allows(s) ==> s.heartbeatMisses < 3
  }

  /** A proxy restore keeps the bound on this engine: it is locked, or has fewer than three misses. */
  ghost predicate RestoreIsHarmless(s: Engine) {
    s.lockoutHard || s.heartbeatMisses < 3
  }

  lemma {:induction false} BoundStep(p: Product, i: Input)
    requires Inv(p)
    ensures IsEvent(i, ProxyRestored) ==> (Bounded(Step(p, i).engine) <==> RestoreIsHarmless(p.engine))
    ensures !IsEvent(i, ProxyRestored) && Bounded(p.engine) ==> Bounded(Step(p, i).engine)
  {}

  /** The step from one prefix of a run to the next, and what it does to the bound. */
  lemma {:induction false} OneMoreInput(start: uint64, inputs: seq<Input>, k: nat)
    requires k < |inputs|
    ensures IsEvent(inputs[k], ProxyRestored) ==>
              (Bounded(RunOf(start, inputs[..k + 1]).engine) <==> RestoreIsHarmless(RunOf(start, inputs[..k]).engine))
    ensures !IsEvent(inputs[k], ProxyRestored) && Bounded(RunOf(start, inputs[..k]).engine) ==>
              Bounded(RunOf(start, inputs[..k + 1]).engine)
  {
    assert inputs[..k + 1][..k] == inputs[..k];
    RunsKeepInv(start, inputs[..k]);
    BoundStep(RunOf(start, inputs[..k]), inputs[k]);
  }

  lemma {:induction false} BoundHolds(start: uint64, inputs: seq<Input>, n: nat)
    requires n <= |inputs|
    requires forall k :: 0 <= k < n && IsEvent(inputs[k], ProxyRestored) ==>
               RestoreIsHarmless(RunOf(start, inputs[..k]).engine)
    ensures Bounded(RunOf(start, inputs[..n]).engine)
  {
    if n == 0 {
    } else {
      BoundHolds(start, inputs, n - 1);
      OneMoreInput(start, inputs, n - 1);
    }
  }

  /**
   The engine is active only below three misses, throughout a run, exactly when every proxy restore
   in the run meets a locked engine or one with fewer than three misses.
   */
  lemma {:induction false} ActiveBoundIff(start: uint64, inputs: seq<Input>)
    ensures (forall n :: 0 <= n <= |inputs| ==> Bounded(RunOf(start, inputs[..n]).engine))
       <==> (forall k :: 0 <= k < |inputs| && IsEvent(inputs[k], ProxyRestored) ==>
               RestoreIsHarmless(RunOf(start, inputs[..k]).engine))
  {
    if forall k :: 0 <= k < |inputs| && IsEvent(inputs[k], ProxyRestored) ==>
         RestoreIsHarmless(RunOf(start, inputs[..k]).engine) {
      forall n | 0 <= n <= |inputs| ensures Bounded(RunOf(start, inputs[..n]).engine) {
        BoundHolds(start, inputs, n);
      }
    } else {
      var k :| 0 <= k < |inputs| && IsEvent(inputs[k], ProxyRestored)
               && !RestoreIsHarmless(RunOf(start, inputs[..k]).engine);
      OneMoreInput(start, inputs, k);
      assert !Bounded(RunOf(start, inputs[..k + 1]).engine);
    }
  }

  /** In particular, without any proxy restore the engine is active only below three misses. */
  lemma {:induction false} ActiveMeansFewMisses(start: uint64, inputs: seq<Input>)
    requires forall k :: 0 <= k < |inputs| ==> !IsEvent(inputs[k], ProxyRestored)
    ensures Allows(RunOf(start, inputs).engine) ==> RunOf(start, inputs).engine.heartbeatMisses < 3
  {
    BoundHolds(start, inputs, |inputs|);
    assert inputs[..|inputs|] == inputs;
  }

  /** Three misses and a proxy restore: the engine is active with its three misses still counted. */
  lemma {:induction false} RestoreForgetsNothing(start: uint64, t: uint64)
    ensures var miss := Event(HeartbeatMiss, t, t);
            var s := RunOf(start, [miss, miss, miss, Event(ProxyRestored, t, t)]).engine;
            Allows(s) && s.heartbeatMisses == 3
  {
    var m, r := Event(HeartbeatMiss, t, t), Event(ProxyRestored, t, t);
    assert [m, m, m, r][..3] == [m, m, m] && [m, m, m][..2] == [m, m] && [m, m][..1] == [m] && [m][..0] == [];
    assert RunOf(start, []) == Product(Started(start), DARK_INITIAL);
    assert RunOf(start, [m]).engine.heartbeatMisses == 1;
    assert RunOf(start, [m, m]).engine.heartbeatMisses == 2;
    assert RunOf(start, [m, m, m]).engine.heartbeatMisses == 3;
  }

  // ---------- the hard lock ----------

  /** The inputs that lock an engine that is not locked yet. */
  predicate Locks(s: Engine, i: Input) {
    || (i.Event? && i.e == ThreatCritical)
    || (i.Tick? && s.current.Failsafe? && s.heartbeatMisses >= 10)
  }

  lemma {:induction false} LockStep(p: Product, i: Input)
    requires Inv(p)
    ensures Step(p, i).engine.lockoutHard <==> p.engine.lockoutHard || Locks(p.engine, i)
  {}

  /** The k-th input of a run would lock the engine it meets. */
  predicate LocksAt(start: uint64, inputs: seq<Input>, k: nat)
    requires k < |inputs|
  {
    Locks(RunOf(start, inputs[..k]).engine, inputs[k])
  }

  ghost predicate SomeInputLocks(start: uint64, inputs: seq<Input>) {
    exists k :: 0 <= k < |inputs| && LocksAt(start, inputs, k)
  }

  lemma {:induction false} SomeInputLocksGrows(start: uint64, inputs: seq<Input>)
    requires inputs != []
    ensures var n := |inputs| - 1;
            SomeInputLocks(start, inputs) <==> SomeInputLocks(start, inputs[..n]) || LocksAt(start, inputs, n)
  {
    var n := |inputs| - 1;
    var front := inputs[..n];
    assert forall k :: 0 <= k < n ==> front[..k] == inputs[..k] && front[k] == inputs[k];
    assert forall k :: 0 <= k < n ==> LocksAt(start, front, k) == LocksAt(start, inputs, k);
  }

  /**
   The engine is locked after a run exactly when the run has a critical threat in it, or a tick that
   meets an engine in FAILSAFE with at least ten misses.
   */
  lemma {:induction false} LockedIff(start: uint64, inputs: seq<Input>)
    ensures RunOf(start, inputs).engine.lockoutHard <==> SomeInputLocks(start, inputs)
  {
    if inputs == [] {
    } else {
      var front := inputs[..|inputs| - 1];
      LockedIff(start, front);
      RunsKeepInv(start, front);
      LockStep(RunOf(start, front), inputs[|front|]);
      SomeInputLocksGrows(start, inputs);
    }
  }

  /** What a locked engine has always seen: a critical threat, or ten misses in a row. */
  ghost predicate LockCause(inputs: seq<Input>) {
    || (exists i :: 0 <= i < |inputs| && IsEvent(inputs[i], ThreatCritical))
    || (exists n :: 0 <= n <= |inputs| && MissesSince(inputs[..n]) >= 10)
  }

  lemma {:induction false} FailsafeCountsMisses(start: uint64, inputs: seq<Input>)
    requires RunOf(start, inputs).engine.current.Failsafe?
    ensures RunOf(start, inputs).engine.heartbeatMisses <= MissesSince(inputs)
  {
    RunsKeepInv(start, inputs);
    MissesAreCounted(start, inputs);
  }

  /** In terms of the inputs alone, an engine that is locked after a run has a cause in that run. */
  lemma {:induction false} LockHasCause(start: uint64, inputs: seq<Input>)
    requires RunOf(start, inputs).engine.lockoutHard
    ensures LockCause(inputs)
  {
    LockedIff(start, inputs);
    var k :| 0 <= k < |inputs| && LocksAt(start, inputs, k);
    if !IsEvent(inputs[k], ThreatCritical) {
      FailsafeCountsMisses(start, inputs[..k]);
    }
  }

  /** Packets answered "suppress" in a run. */
  function Suppressed(start: uint64, inputs: seq<Input>): nat {
    if inputs == [] then 0
    else
      var front := inputs[..|inputs| - 1];
      Suppressed(start, front)
      + if inputs[|inputs| - 1].Packet? && RunOf(start, front).dark.mode != Off then 1 else 0
  }

  lemma {:induction false} SuppressedAreCounted(start: uint64, inputs: seq<Input>)
    ensures RunOf(start, inputs).dark.packetsSuppressed == Suppressed(start, inputs) % TWO64
  {
    if inputs == [] {
    } else {
      SuppressedAreCounted(start, inputs[..|inputs| - 1]);
      WrapSucc(Suppressed(start, inputs[..|inputs| - 1]));
    }
  }
}
