/**
 The multi-sender command gate: a 32-slot sender table, a sliding window of 256 nonces, and one
 long decision chain, in place and as a function of the gate's state.
 */
module MultiSenderGate {
  import opened Words

  const MAX_SENDERS := 32
  const MAX_NONCES := 256
  const NONCE_SIZE := 16
  const CLOCK_SKEW_NS := 5_000_000_000

  const CMD_ENTER_SAFE_STATE: byte := 0x03
  const CMD_ESTOP_BYPASS: byte := 0xF0
  const CMD_IGNORE_INTERLOCK: byte := 0xF7

  type Nonce = n: Bytes | |n| == NONCE_SIZE witness Zeros(16)

  datatype Authority = Observer | Operator | Admin | Emergency {
    function Rank(): nat {
      match this
      case Observer => 0
      case Operator => 1
      case Admin => 2
      case Emergency => 3
    }
  }

  datatype GateResult =
    | Accept
    | UnknownSender
    | BootstrapInvalid
    | Expired
    | FutureTimestamp
    | NonceReplay
    | SequenceReplay
    | SequenceGap
    | WrongNode
    | AuthorityInsufficient
    | CommandBlocked
    | InterlockUnsafe
    | PayloadCorrupt

  datatype Command = Command(
    senderId: uint32, nodeId: uint32, sequence: uint64, issuedAt: uint64, expiresAt: uint64,
    nonce: Nonce, commandType: byte, senderAuthority: Authority, requiredAuthority: Authority,
    payloadHashExpected: uint32, payloadHashActual: uint32)

  datatype SenderState = SenderState(
    used: bool, senderId: uint32, allowedNode: uint32, currentSeq: uint64, authority: Authority)

  const EMPTY_SLOT := SenderState(false, 0, 0, 0, Observer)

  datatype Interlocks = Interlocks(estop: bool, overspeed: bool, overtemp: bool, overvoltage: bool)

  predicate CommandIsBlocked(t: byte) {
    CMD_ESTOP_BYPASS <= t <= CMD_IGNORE_INTERLOCK
  }

  predicate InterlocksSafe(il: Interlocks, t: byte) {
    t == CMD_ENTER_SAFE_STATE || !(il.estop || il.overspeed || il.overtemp || il.overvoltage)
  }

  // ---------- the gate as a value ----------

  /** The gate: its slots, the recorded nonces oldest first, and the interlock inputs. */
  datatype GateState = GateState(senders: seq<SenderState>, nonces: seq<Nonce>, interlocks: Interlocks) {
    ghost predicate Valid() {
      |senders| == MAX_SENDERS && |nonces| <= MAX_NONCES
    }
  }

  /** The gate after `memset(&gate, 0, sizeof(gate))`. */
  function Zeroed(): (g: GateState)
    ensures g.Valid()
    ensures forall i :: 0 <= i < MAX_SENDERS ==> g.senders[i] == EMPTY_SLOT
  {
    GateState(seq(MAX_SENDERS, _ => EMPTY_SLOT), [], Interlocks(false, false, false, false))
  }

  /** The first used slot of a sender, or the table size. */
  function FindSlot(senders: seq<SenderState>, id: uint32): (i: nat)
    ensures i <= |senders|
    ensures i < |senders| ==> senders[i].used && senders[i].senderId == id
    ensures forall k :: 0 <= k < i ==> !(senders[k].used && senders[k].senderId == id)
  {
    if senders == [] || (senders[0].used && senders[0].senderId == id) then 0
    else 1 + FindSlot(senders[1..], id)
  }

  /** The first free slot, or the table size. */
  function FreeSlot(senders: seq<SenderState>): (i: nat)
    ensures i <= |senders|
    ensures i < |senders| ==> !senders[i].used
    ensures forall k :: 0 <= k < i ==> senders[k].used
  {
    if senders == [] || !senders[0].used then 0 else 1 + FreeSlot(senders[1..])
  }

  /** The window after one more nonce: it grows to 256 and then drops its oldest entry. */
  function Slide(nonces: seq<Nonce>, n: Nonce): (r: seq<Nonce>)
    requires |nonces| <= MAX_NONCES
    ensures |r| <= MAX_NONCES
  {
    if |nonces| < MAX_NONCES then nonces + [n] else nonces[1..] + [n]
  }

  function Enrolled(cmd: Command): SenderState {
    SenderState(true, cmd.senderId, cmd.nodeId, 1, cmd.senderAuthority)
  }

  /** The checks that look at the command alone, the clock, the interlocks and the nonces. */
  function Screen(nonces: seq<Nonce>, il: Interlocks, cmd: Command, now: uint64): GateResult {
    if cmd.payloadHashExpected != cmd.payloadHashActual then PayloadCorrupt
    else if cmd.expiresAt < now then Expired
    else if cmd.issuedAt > (now + CLOCK_SKEW_NS) % TWO64 then FutureTimestamp
    else if CommandIsBlocked(cmd.commandType) then CommandBlocked
    else if !InterlocksSafe(il, cmd.commandType) then InterlockUnsafe
    else if cmd.nonce in nonces then NonceReplay
    else Accept
  }

  /** The checks against an enrolled sender's slot, with the 64-bit wrap of `current_seq + 1`. */
  function CheckSlot(s: SenderState, cmd: Command): GateResult {
    if cmd.nodeId != s.allowedNode then WrongNode
    else if s.authority.Rank() < cmd.requiredAuthority.Rank() then AuthorityInsufficient
    else if cmd.sequence <= s.currentSeq then SequenceReplay
    else if cmd.sequence > (s.currentSeq + 1) % TWO64 then SequenceGap
    else Accept
  }

  /** The checks against the sender table. */
  function Lookup(senders: seq<SenderState>, cmd: Command): GateResult {
    var i := FindSlot(senders, cmd.senderId);
    if i < |senders| then CheckSlot(senders[i], cmd)
    else if cmd.sequence != 1 then BootstrapInvalid
    else if FreeSlot(senders) == |senders| then UnknownSender
    else Accept
  }

  /** The answer to a command, in the order the checks are made. */
  function Decide(g: GateState, cmd: Command, now: uint64): GateResult {
    var screened := Screen(g.nonces, g.interlocks, cmd, now);
    if screened != Accept then screened else Lookup(g.senders, cmd)
  }

  /** The slots after an accepted command: its sender's slot advances or a free one is filled. */
  function Admit(senders: seq<SenderState>, cmd: Command): (r: seq<SenderState>)
    ensures |r| == |senders|
  {
    var i := FindSlot(senders, cmd.senderId);
    var free := FreeSlot(senders);
    if i < |senders| then senders[i := senders[i].(currentSeq := cmd.sequence)]
    else if free < |senders| then senders[free := Enrolled(cmd)]
    else senders
  }

  function Evaluate(g: GateState, cmd: Command, now: uint64): (r: (GateState, GateResult))
    requires g.Valid()
    ensures r.0.Valid()
    ensures r.1 != Accept ==> r.0 == g
  {
    var result := Decide(g, cmd, now);
    if result != Accept then (g, result)
    else (GateState(Admit(g.senders, cmd), Slide(g.nonces, cmd.nonce), g.interlocks), Accept)
  }

  // ---------- the gate as the source has it, updated in place ----------

  class Gate {
    var senders: array<SenderState>
    var nonces: array<Nonce>
    var nonceCount: nat
    var interlocks: Interlocks

    ghost predicate Valid()
      reads this
    {
      && senders.Length == MAX_SENDERS && nonces.Length == MAX_NONCES && nonceCount <= MAX_NONCES
      && senders as object != nonces as object
    }

    ghost function Model(): (g: GateState)
      requires Valid()
      reads this, senders, nonces
      ensures g.Valid()
    {
      GateState(senders[..], nonces[..nonceCount], interlocks)
    }

    constructor Init()
      ensures Valid() && fresh(senders) && fresh(nonces)
      ensures Model() == Zeroed()
    {
      senders := new SenderState[MAX_SENDERS](_ => EMPTY_SLOT);
      nonces := new Nonce[MAX_NONCES](_ => Zeros(NONCE_SIZE));
      nonceCount := 0;
      interlocks := Interlocks(false, false, false, false);
      new;
      assert senders[..] == Zeroed().senders;
    }

    method NonceSeen(nonce: Nonce) returns (seen: bool)
      requires Valid()
      ensures seen <==> nonce in nonces[..nonceCount]
    {
      for i := 0 to nonceCount
        invariant nonce !in nonces[..i]
      {
        if nonces[i] == nonce {
          assert nonces[..nonceCount][i] == nonce;
          return true;
        }
        assert nonces[..i + 1] == nonces[..i] + [nonces[i]];
      }
      return false;
    }

    method NonceRecord(nonce: Nonce)
      requires Valid()
      modifies this`nonceCount, nonces
      ensures Valid()
      ensures nonces[..nonceCount] == Slide(old(nonces[..nonceCount]), nonce)
    {
      if nonceCount < MAX_NONCES {
        nonces[nonceCount] := nonce;
        nonceCount := nonceCount + 1;
        return;
      }
      forall i | 0 <= i < MAX_NONCES - 1 {
        nonces[i] := nonces[i + 1];
      }
      nonces[MAX_NONCES - 1] := nonce;
    }

    method FindSender(id: uint32) returns (i: nat)
      requires Valid()
      ensures i == FindSlot(senders[..], id)
    {
      i := 0;
      while i < MAX_SENDERS
        invariant 0 <= i <= MAX_SENDERS
        invariant forall k :: 0 <= k < i ==> !(senders[k].used && senders[k].senderId == id)
      {
        if senders[i].used && senders[i].senderId == id {
          return;
        }
        i := i + 1;
      }
    }

    method BootstrapSender(cmd: Command) returns (i: nat)
      requires Valid()
      modifies senders
      ensures i == FreeSlot(old(senders[..]))
      ensures senders[..] == if i < MAX_SENDERS then old(senders[..])[i := Enrolled(cmd)] else old(senders[..])
    {
      i := 0;
      while i < MAX_SENDERS
        invariant 0 <= i <= MAX_SENDERS
        invariant forall k :: 0 <= k < i ==> senders[k].used
        invariant senders[..] == old(senders[..])
      {
        if !senders[i].used {
          senders[i] := Enrolled(cmd);
          return;
        }
        i := i + 1;
      }
    }

    method GateEvaluate(cmd: Command, now: uint64) returns (result: GateResult)
      requires Valid()
      modifies this`nonceCount, senders, nonces
      ensures Valid()
      ensures (Model(), result) == Evaluate(old(Model()), cmd, now)
    {
      if cmd.payloadHashExpected != cmd.payloadHashActual {
        return PayloadCorrupt;
      }
      if cmd.expiresAt < now {
        return Expired;
      }
      if cmd.issuedAt > (now + CLOCK_SKEW_NS) % TWO64 {
        return FutureTimestamp;
      }
      if CommandIsBlocked(cmd.commandType) {
        return CommandBlocked;
      }
      if !InterlocksSafe(interlocks, cmd.commandType) {
        return InterlockUnsafe;
      }
      var seen := NonceSeen(cmd.nonce);
      if seen {
        return NonceReplay;
      }
      var i := FindSender(cmd.senderId);
      if i == MAX_SENDERS {
        if cmd.sequence != 1 {
          return BootstrapInvalid;
        }
        var slot := BootstrapSender(cmd);
        if slot == MAX_SENDERS {
          return UnknownSender;
        }
        NonceRecord(cmd.nonce);
        return Accept;
      }
      if cmd.nodeId != senders[i].allowedNode {
        return WrongNode;
      }
      if senders[i].authority.Rank() < cmd.requiredAuthority.Rank() {
        return AuthorityInsufficient;
      }
      if cmd.sequence <= senders[i].currentSeq {
        return SequenceReplay;
      }
      if cmd.sequence > (senders[i].currentSeq + 1) % TWO64 {
        return SequenceGap;
      }
      senders[i] := senders[i].(currentSeq := cmd.sequence);
      NonceRecord(cmd.nonce);
      return Accept;
    }
  }
}
