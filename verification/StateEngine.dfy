/** The five-state controller, driven by events and ticks. */
module StateEngine {
  import opened Words

  datatype ControllerState = Init | Active | Degraded | Failsafe | Lockout

  datatype StateEvent =
    | HeartbeatOk
    | HeartbeatMiss
    | ThreatHigh
    | ThreatCritical
    | ProxyRestored
    | ManualReset

  datatype Engine = Engine(
    current: ControllerState, previous: ControllerState, enteredAt: uint64,
    heartbeatMisses: uint32, transitionCount: uint32, lockoutHard: bool)

  function Started(now: uint64): Engine {
    Engine(Init, Init, now, 0, 0, false)
  }

  function Moved(s: Engine, next: ControllerState, now: uint64): Engine {
    s.(previous := s.current, current := next, enteredAt := now,
       transitionCount := (s.transitionCount + 1) % TWO32)
  }

  /** One event; `t1` and `t2` are the clock readings of its first and second transition. */
  function AfterEvent(s: Engine, e: StateEvent, t1: uint64, t2: uint64): Engine {
    if s.lockoutHard then s
    else
      match e
      case HeartbeatOk =>
        var heard := s.(heartbeatMisses := 0);
        if s.current.Degraded? || s.current.Init? then Moved(heard, Active, t1) else heard
      case HeartbeatMiss =>
        var missed := s.(heartbeatMisses := (s.heartbeatMisses + 1) % TWO32);
        if missed.heartbeatMisses >= 6 then Moved(Moved(missed, Degraded, t1), Failsafe, t2)
        else if missed.heartbeatMisses >= 3 then Moved(missed, Degraded, t1)
        else missed
      case ThreatHigh =>
        if s.current.Active? then Moved(s, Degraded, t1) else s
      case ThreatCritical =>
        Moved(s, Lockout, t1).(lockoutHard := true)
      case ProxyRestored =>
        if !s.current.Lockout? then Moved(s, Active, t1) else s
      case ManualReset =>
        Moved(s.(lockoutHard := false, heartbeatMisses := 0), Init, t1)
  }

  function AfterTick(s: Engine, now: uint64): Engine {
    if s.current.Failsafe? && s.heartbeatMisses >= 10 then Moved(s.(lockoutHard := true), Lockout, now) else s
  }

  /** Whether an engine lets commands through. */
  predicate Allows(s: Engine) {
    s.current.Active?
  }

  class Controller {
    var current: ControllerState
    var previous: ControllerState
    var enteredAt: uint64
    var heartbeatMisses: uint32
    var transitionCount: uint32
    var lockoutHard: bool

    ghost function Model(): Engine
      reads this
    {
      Engine(current, previous, enteredAt, heartbeatMisses, transitionCount, lockoutHard)
    }

    constructor Start(now: uint64)
      ensures Model() == Started(now)
    {
      current, previous := Init, Init;
      enteredAt := now;
      heartbeatMisses, transitionCount, lockoutHard := 0, 0, false;
    }

    method Transition(next: ControllerState, now: uint64)
      modifies this
      ensures Model() == Moved(old(Model()), next, now)
    {
      previous := current;
      current := next;
      enteredAt := now;
      transitionCount := (transitionCount + 1) % TWO32;
    }

    method Event(e: StateEvent, t1: uint64, t2: uint64)
      modifies this
      ensures Model() == AfterEvent(old(Model()), e, t1, t2)
    {
      if lockoutHard {
        return;
      }
      match e
      case HeartbeatOk =>
        heartbeatMisses := 0;
        if current.Degraded? || current.Init? {
          Transition(Active, t1);
        }
      case HeartbeatMiss =>
        heartbeatMisses := (heartbeatMisses + 1) % TWO32;
        if heartbeatMisses >= 3 {
          Transition(Degraded, t1);
        }
        if heartbeatMisses >= 6 {
          Transition(Failsafe, t2);
        }
      case ThreatHigh =>
        if current.Active? {
          Transition(Degraded, t1);
        }
      case ThreatCritical =>
        Transition(Lockout, t1);
        lockoutHard := true;
      case ProxyRestored =>
        if !current.Lockout? {
          Transition(Active, t1);
        }
      case ManualReset =>
        lockoutHard := false;
        heartbeatMisses := 0;
        Transition(Init, t1);
    }

    method Tick(now: uint64)
      modifies this
      ensures Model() == AfterTick(old(Model()), now)
    {
      if current.Failsafe? && heartbeatMisses >= 10 {
        lockoutHard := true;
        Transition(Lockout, now);
      }
    }

    predicate AllowsCommand(): (allowed: bool)
      reads this
      ensures allowed <==> Allows(Model())
    {
      current == Active
    }
  }
}
