/** The signed-command gates: the strict single-sender gate and the multi-client gate over a sender table. */
module CommandGates {
  import opened Words
  import opened SenderRecord

  const SIGNATURE_BYTES := 64
  const PAYLOAD_BYTES := 256
  const ENROL_MAGIC := 0xDEADBEEF

  type Signature = s: Bytes | |s| == SIGNATURE_BYTES witness Zeros(64)
  type Payload = p: Bytes | |p| == PAYLOAD_BYTES witness Zeros(256)

  datatype Envelope = Envelope(
    version: byte, commandId: byte, sequence: uint64, timestamp: uint64, senderId: Key,
    payload: Payload, payloadLength: uint32, issuedAt: uint64, expiresAt: uint64)

  /** `senderPubkey` is read by the multi-client gate only. */
  datatype Command = Command(envelope: Envelope, signature: Signature, senderPubkey: Key)

  datatype Interlocks = Interlocks(estop: bool, overspeed: bool, overtemp: bool, overvoltage: bool) {
    predicate Tripped() {
      estop || overspeed || overtemp || overvoltage
    }
  }

  datatype Result = Ok | SignatureInvalid | Expired | SequenceInvalid | SenderNotFound | InterlockTripped

  /** Detached signature verification: any total predicate on signature, signed envelope and key. */
  type VerifyFn = (Signature, Envelope, Key) -> bool

  /** A command as presented: with the interlock inputs and the clock reading of the call. */
  datatype Request = Request(cmd: Command, interlocks: Interlocks, now: uint64)

  predicate InTime(e: Envelope, now: uint64) {
    e.issuedAt <= now <= e.expiresAt
  }

  // ---------- the strict gate ----------

  predicate CarriesKey(p: Payload) {
    FromLittleEndian(p[..4]) == ENROL_MAGIC
  }

  /** The sender record after the enrolment step of the strict gate. */
  function Enrolment(s: Sender, e: Envelope): Sender {
    if !s.used && CarriesKey(e.payload) then Sender(e.payload[4..36], 0, true) else s
  }

  function Strict(verify: VerifyFn, s: Sender, r: Request): (Sender, Result) {
    var e, enrolled := r.cmd.envelope, Enrolment(s, r.cmd.envelope);
    if r.interlocks.Tripped() then (s, InterlockTripped)
    else if !enrolled.used then (s, SenderNotFound)
    else if e.sequence != (enrolled.lastSequence + 1) % TWO64 then (enrolled, SequenceInvalid)
    else if !InTime(e, r.now) then (enrolled, Expired)
    else if !verify(r.cmd.signature, e, enrolled.publicKey) then (enrolled, SignatureInvalid)
    else (enrolled.(lastSequence := e.sequence), Ok)
  }

  class StrictGate {
    const verify: VerifyFn
    var publicKey: Key
    var lastSequence: uint64
    var used: bool

    ghost function Model(): Sender
      reads this
    {
      Sender(publicKey, lastSequence, used)
    }

    constructor (verify: VerifyFn)
      ensures this.verify == verify && Model() == FRESH
    {
      this.verify := verify;
      publicKey, lastSequence, used := Zeros(KEY_BYTES), 0, false;
    }

    method EvaluateCommand(r: Request) returns (result: Result)
      modifies this
      ensures (Model(), result) == Strict(verify, old(Model()), r)
    {
      var e := r.cmd.envelope;
      if r.interlocks.Tripped() {
        return InterlockTripped;
      }
      if !used {
        if FromLittleEndian(e.payload[..4]) != ENROL_MAGIC {
          return SenderNotFound;
        }
        used := true;
        publicKey := e.payload[4..36];
        lastSequence := 0;
      }
      if e.sequence != (lastSequence + 1) % TWO64 {
        return SequenceInvalid;
      }
      if r.now < e.issuedAt || r.now > e.expiresAt {
        return Expired;
      }
      if !verify(r.cmd.signature, e, publicKey) {
        return SignatureInvalid;
      }
      lastSequence := e.sequence;
      return Ok;
    }
  }

  // ---------- the multi-client gate ----------

  /** The first used slot with a key, or the table size. */
  function FindKey(senders: seq<Sender>, key: Key): (i: nat)
    ensures i <= |senders|
    ensures i < |senders| ==> senders[i].used && senders[i].publicKey == key
    ensures forall k :: 0 <= k < i ==> !(senders[k].used && senders[k].publicKey == key)
  {
    if senders == [] || (senders[0].used && senders[0].publicKey == key) then 0
    else 1 + FindKey(senders[1..], key)
  }

  /** The first free slot, or the table size. */
  function FreeSlot(senders: seq<Sender>): (i: nat)
    ensures i <= |senders|
    ensures i < |senders| ==> !senders[i].used
    ensures forall k :: 0 <= k < i ==> senders[k].used
  {
    if senders == [] || !senders[0].used then 0 else 1 + FreeSlot(senders[1..])
  }

  /** The slot a command is judged against: its sender's, or a free one; the table size if neither. */
  function SlotFor(senders: seq<Sender>, key: Key): (i: nat)
    ensures i <= |senders|
  {
    var i := FindKey(senders, key);
    if i < |senders| then i else FreeSlot(senders)
  }

  /** The table once that slot is enrolled for the sender, if it was not already. */
  function Enrolled(senders: seq<Sender>, key: Key): (r: seq<Sender>)
    ensures |r| == |senders|
    ensures var i := SlotFor(senders, key); i < |senders| ==> r[i].used && r[i].publicKey == key
  {
    var i := FindKey(senders, key);
    var free := FreeSlot(senders);
    if i == |senders| && free < |senders| then senders[free := Sender(key, 0, true)] else senders
  }

  function Multi(verify: VerifyFn, senders: seq<Sender>, r: Request): (a: (seq<Sender>, Result))
    ensures |a.0| == |senders|
  {
    var e, key := r.cmd.envelope, r.cmd.senderPubkey;
    var i, table := SlotFor(senders, key), Enrolled(senders, key);
    if r.interlocks.Tripped() then (senders, InterlockTripped)
    else if i == |senders| then (senders, SenderNotFound)
    else if e.sequence <= table[i].lastSequence then (table, SequenceInvalid)
    else if !InTime(e, r.now) then (table, Expired)
    else if !verify(r.cmd.signature, e, key) then (table, SignatureInvalid)
    else (table[i := table[i].(lastSequence := e.sequence)], Ok)
  }

  function EmptyTable(n: nat): (t: seq<Sender>)
    ensures |t| == n
    ensures forall i :: 0 <= i < n ==> t[i] == FRESH
  {
    seq(n, _ => FRESH)
  }

  class MultiGate {
    const verify: VerifyFn
    var senders: array<Sender>

    constructor (verify: VerifyFn, maxSenders: nat)
      ensures this.verify == verify && fresh(senders)
      ensures senders[..] == EmptyTable(maxSenders)
    {
      this.verify := verify;
      senders := new Sender[maxSenders](_ => FRESH);
      new;
      assert senders[..] == EmptyTable(maxSenders);
    }

    method Match(key: Key) returns (i: nat)
      ensures i == FindKey(senders[..], key)
    {
      i := 0;
      while i < senders.Length
        invariant 0 <= i <= senders.Length
        invariant forall k :: 0 <= k < i ==> !(senders[k].used && senders[k].publicKey == key)
      {
        if senders[i].used && senders[i].publicKey == key {
          return;
        }
        i := i + 1;
      }
    }

    method Enrol(key: Key) returns (i: nat)
      modifies senders
      ensures i == FreeSlot(old(senders[..]))
      ensures senders[..] ==
              if i < senders.Length then old(senders[..])[i := Sender(key, 0, true)] else old(senders[..])
    {
      i := 0;
      while i < senders.Length
        invariant 0 <= i <= senders.Length
        invariant forall k :: 0 <= k < i ==> senders[k].used
        invariant senders[..] == old(senders[..])
      {
        if !senders[i].used {
          senders[i] := Sender(key, 0, true);
          return;
        }
        i := i + 1;
      }
    }

    method EvaluateCommand(r: Request) returns (result: Result)
      modifies senders
      ensures (senders[..], result) == Multi(verify, old(senders[..]), r)
    {
      var e, key := r.cmd.envelope, r.cmd.senderPubkey;
      if r.interlocks.Tripped() {
        return InterlockTripped;
      }
      var i := Match(key);
      if i == senders.Length {
        i := Enrol(key);
        if i == senders.Length {
          return SenderNotFound;
        }
      }
      if e.sequence <= senders[i].lastSequence {
        return SequenceInvalid;
      }
      if r.now < e.issuedAt || r.now > e.expiresAt {
        return Expired;
      }
      if !verify(r.cmd.signature, e, senders[i].publicKey) {
        return SignatureInvalid;
      }
      senders[i] := senders[i].(lastSequence := e.sequence);
      return Ok;
    }
  }
}
