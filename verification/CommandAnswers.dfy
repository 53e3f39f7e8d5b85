/**
 Every answer of the two signed-command gates, after any run, in terms of the requests' fields;
 and what requests, refused ones included, leave in the sender records.
 */
module CommandAnswers {
  import opened Words
  import opened SenderRecord
  import opened CommandGates
  import opened CommandRuns

  ghost predicate NoneTripped(r: Request) {
    !r.interlocks.estop && !r.interlocks.overspeed && !r.interlocks.overtemp && !r.interlocks.overvoltage
  }

  ghost predicate InWindow(r: Request) {
    r.cmd.envelope.issuedAt <= r.now && r.now <= r.cmd.envelope.expiresAt
  }

  // ---------- the multi-client gate ----------

  /** The keys of the requests that no interlock stopped, each once, in the order they first appear. */
  ghost function Presented(requests: seq<Request>): seq<Key> {
    if requests == [] then []
    else
      var keys, last := Presented(requests[..|requests| - 1]), requests[|requests| - 1];
      if NoneTripped(last) && last.cmd.senderPubkey !in keys then keys + [last.cmd.senderPubkey] else keys
  }

  /** The table holds as many of the listed keys as it has slots for, in order. */
  ghost predicate Holds(senders: seq<Sender>, keys: seq<Key>) {
    forall i :: 0 <= i < |senders| ==>
      (senders[i].used <==> i < |keys|) && (i < |keys| ==> senders[i].publicKey == keys[i])
  }

  ghost predicate HasSlot(slots: nat, keys: seq<Key>, key: Key) {
    |keys| < slots || exists i :: 0 <= i < slots && i < |keys| && keys[i] == key
  }

  /** Where the searches land in a table that holds the listed keys. */
  lemma {:induction false} SearchesFollowKeys(senders: seq<Sender>, keys: seq<Key>, key: Key)
    requires Holds(senders, keys)
    ensures SlotFor(senders, key) < |senders| <==> HasSlot(|senders|, keys, key)
    ensures |keys| < |senders| ==> FreeSlot(senders) == |keys|
    ensures |keys| >= |senders| ==> FreeSlot(senders) == |senders|
    ensures |keys| < |senders| ==> (FindKey(senders, key) == |senders| <==> key !in keys)
  {
    var i, free := FindKey(senders, key), FreeSlot(senders);
    assert |keys| < |senders| ==> !senders[|keys|].used;
    assert i < |senders| ==> keys[i] == key;
    if j :| 0 <= j < |senders| && j < |keys| && keys[j] == key {
      assert senders[j].used && senders[j].publicKey == key;
    }
  }

  lemma {:induction false} HoldsAfterStep(verify: VerifyFn, senders: seq<Sender>, keys: seq<Key>, r: Request)
    requires Holds(senders, keys)
    ensures var key := r.cmd.senderPubkey;
            Holds(Multi(verify, senders, r).0, if NoneTripped(r) && key !in keys then keys + [key] else keys)
  {
    SearchesFollowKeys(senders, keys, r.cmd.senderPubkey);
  }

  /**
   After any run the used slots hold the first keys presented, whatever became of the requests:
   a refused request enrols its sender as an accepted one does, unless an interlock stopped it.
   */
  lemma {:induction false} SlotsHoldPresented(verify: VerifyFn, slots: nat, requests: seq<Request>)
    ensures Holds(RunMulti(verify, slots, requests).senders, Presented(requests))
  {
    if requests == [] {
    } else {
      var front := requests[..|requests| - 1];
      SlotsHoldPresented(verify, slots, front);
      HoldsAfterStep(verify, RunMulti(verify, slots, front).senders, Presented(front), requests[|requests| - 1]);
    }
  }

  /** The answer to a request whose key has a slot, or can get one, or not, and was last at `largest`. */
  ghost predicate MultiAnswered(verify: VerifyFn, a: Result, r: Request, slot: bool, largest: nat) {
    var e := r.cmd.envelope;
    && (a == InterlockTripped <==>
          r.interlocks.estop || r.interlocks.overspeed || r.interlocks.overtemp || r.interlocks.overvoltage)
    && (a == SenderNotFound <==> NoneTripped(r) && !slot)
    && (a == SequenceInvalid <==> NoneTripped(r) && slot && e.sequence <= largest)
    && (a == Expired <==>
          NoneTripped(r) && slot && e.sequence > largest && (r.now < e.issuedAt || r.now > e.expiresAt))
    && (a == SignatureInvalid <==>
          && NoneTripped(r) && slot && e.sequence > largest && InWindow(r)
          && !verify(r.cmd.signature, e, r.cmd.senderPubkey))
    && (a == Ok <==>
          && NoneTripped(r) && slot && e.sequence > largest && InWindow(r)
          && verify(r.cmd.signature, e, r.cmd.senderPubkey))
  }

  lemma {:induction false} MultiStepAnswers(verify: VerifyFn, senders: seq<Sender>, accepted: seq<Request>, r: Request)
    requires LastIsLargest(senders, accepted)
    ensures MultiAnswered(verify, Multi(verify, senders, r).1, r, SlotFor(senders, r.cmd.senderPubkey) < |senders|,
                          LargestFor(accepted, r.cmd.senderPubkey))
  {}

  /** After any run, exactly when the multi-client gate gives each of its answers. */
  lemma {:induction false} MultiAnswersIff(verify: VerifyFn, slots: nat, requests: seq<Request>, r: Request)
    ensures var m := RunMulti(verify, slots, requests);
            MultiAnswered(verify, Multi(verify, m.senders, r).1, r,
                          HasSlot(slots, Presented(requests), r.cmd.senderPubkey),
                          LargestFor(m.accepted, r.cmd.senderPubkey))
  {
    var m := RunMulti(verify, slots, requests);
    MultiRunsKeep(verify, slots, requests);
    SlotsHoldPresented(verify, slots, requests);
    SearchesFollowKeys(m.senders, Presented(requests), r.cmd.senderPubkey);
    MultiStepAnswers(verify, m.senders, m.accepted, r);
  }

  // ---------- the strict gate ----------

  /** The payload starts with the magic word in little-endian order. */
  ghost predicate HasMagic(p: Payload) {
    p[0] == 0xEF && p[1] == 0xBE && p[2] == 0xAD && p[3] == 0xDE
  }

  lemma {:induction false} MagicBytes(p: Payload)
    ensures CarriesKey(p) <==> HasMagic(p)
  {
    var b := p[..4];
    assert FromLittleEndian(b) == b[0] + 256 * FromLittleEndian(b[1..]);
    assert FromLittleEndian(b[1..]) == b[1] + 256 * FromLittleEndian(b[2..]) by {
      assert b[1..][1..] == b[2..];
    }
    assert FromLittleEndian(b[2..]) == b[2] + 256 * FromLittleEndian(b[3..]) by {
      assert b[2..][1..] == b[3..];
    }
    assert FromLittleEndian(b[3..]) == b[3] by {
      assert b[3..][1..] == [];
    }
  }

  /** The enrolled key once `r` was presented, if one was enrolled before or `r` brings one. */
  ghost function KeyWith(before: Option<Key>, r: Request): Option<Key> {
    if before.None? && NoneTripped(r) && HasMagic(r.cmd.envelope.payload) then Some(r.cmd.envelope.payload[4..36])
    else before
  }

  /** The key of the first request with the magic word that no interlock stopped. */
  ghost function FirstKey(requests: seq<Request>): Option<Key> {
    if requests == [] then None
    else
      var before, last := FirstKey(requests[..|requests| - 1]), requests[|requests| - 1];
      KeyWith(before, last)
  }

  ghost predicate HasKey(s: Sender, key: Option<Key>) {
    if key.Some? then s.used && s.publicKey == key.value else !s.used
  }

  lemma {:induction false} KeyAfterStep(verify: VerifyFn, s: Sender, key: Option<Key>, r: Request)
    requires HasKey(s, key)
    ensures HasKey(Strict(verify, s, r).0, KeyWith(key, r))
  {
    MagicBytes(r.cmd.envelope.payload);
  }

  /** After any run the strict gate's key is the first one presented, whatever became of that request. */
  lemma {:induction false} KeyIsFirstPresented(verify: VerifyFn, requests: seq<Request>)
    ensures HasKey(RunStrict(verify, requests).sender, FirstKey(requests))
  {
    if requests == [] {
    } else {
      var front := requests[..|requests| - 1];
      KeyIsFirstPresented(verify, front);
      KeyAfterStep(verify, RunStrict(verify, front).sender, FirstKey(front), requests[|requests| - 1]);
    }
  }

  /** The answer to a request judged against `key`, after `n` accepted commands. */
  ghost predicate StrictAnswered(verify: VerifyFn, a: Result, r: Request, key: Option<Key>, n: nat) {
    var e := r.cmd.envelope;
    var next := (n + 1) % 0x1_0000_0000_0000_0000;
    && (a == InterlockTripped <==>
          r.interlocks.estop || r.interlocks.overspeed || r.interlocks.overtemp || r.interlocks.overvoltage)
    && (a == SenderNotFound <==> NoneTripped(r) && key.None?)
    && (a == SequenceInvalid <==> NoneTripped(r) && key.Some? && e.sequence != next)
    && (a == Expired <==>
          NoneTripped(r) && key.Some? && e.sequence == next && (r.now < e.issuedAt || r.now > e.expiresAt))
    && (a == SignatureInvalid <==>
          && NoneTripped(r) && key.Some? && e.sequence == next && InWindow(r)
          && !verify(r.cmd.signature, e, key.value))
    && (a == Ok <==>
          && NoneTripped(r) && key.Some? && e.sequence == next && InWindow(r)
          && verify(r.cmd.signature, e, key.value))
  }

  lemma {:induction false} StrictStepAnswers(verify: VerifyFn, s: Sender, n: nat, key: Option<Key>, r: Request)
    requires HasKey(s, key) && s.lastSequence == n % TWO64 && (!s.used ==> n == 0)
    ensures StrictAnswered(verify, Strict(verify, s, r).1, r, KeyWith(key, r), n)
  {
    MagicBytes(r.cmd.envelope.payload);
    WrapSucc(n);
  }

  /**
   After any run, exactly when the strict gate gives each of its answers. A request is judged
   against the key enrolled so far, or the one it brings itself.
   */
  lemma {:induction false} StrictAnswersIff(verify: VerifyFn, requests: seq<Request>, r: Request)
    ensures var s := RunStrict(verify, requests);
            StrictAnswered(verify, Strict(verify, s.sender, r).1, r, FirstKey(requests + [r]), |s.accepted|)
  {
    var s := RunStrict(verify, requests);
    StrictRunsKeep(verify, requests);
    KeyIsFirstPresented(verify, requests);
    assert (requests + [r])[..|requests|] == requests;
    StrictStepAnswers(verify, s.sender, |s.accepted|, FirstKey(requests), r);
  }
}
