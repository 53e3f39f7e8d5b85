/** The message ring as one thread at a time sees it: push and pop update buffer, head and tail. */
module RingPool {
  import opened Words

  const RING_CAPACITY := 1024
  /** A packed message: a 4-byte id, a 4-byte length and 256 bytes of data. */
  const MSG_BYTES := 264

  type Message = m: Bytes | |m| == MSG_BYTES witness Zeros(264)

  /** The slot after slot `i`, wrapping around. */
  function NextSlot(i: nat): (r: nat)
    requires i < RING_CAPACITY
    ensures r < RING_CAPACITY
    ensures forall n: nat :: n % RING_CAPACITY == i ==> (n + 1) % RING_CAPACITY == r
  {
    if i + 1 == RING_CAPACITY then 0 else i + 1
  }

  /** `(i + 1) & (RING_CAPACITY - 1)` on 32-bit indices. */
  function Masked(i: bv32): bv32 {
    (i + 1) & (1024 - 1)
  }

  lemma {:induction false} MaskWraps(i: bv32)
    requires i < 1024
    ensures Masked(i) == if i == 1023 then 0 else i + 1
  {}

  /** The capacity being a power of two, the mask wraps an index exactly at the end of the buffer. */
  lemma {:induction false} MaskIsNextSlot(i: bv32)
    requires i < 1024
    ensures Masked(i) < 1024 && Masked(i) as nat == NextSlot(i as nat)
  {
    MaskWraps(i);
  }

  class Ring {
    var head: nat
    var tail: nat
    var buffer: array<Message>

    ghost predicate Valid()
      reads this
    {
      head < RING_CAPACITY && tail < RING_CAPACITY && buffer.Length == RING_CAPACITY
    }

    /** The queued messages, oldest first. */
    ghost function Contents(): (q: seq<Message>)
      requires Valid()
      reads this, buffer
      ensures |q| < RING_CAPACITY
    {
      if tail <= head then buffer[tail..head] else buffer[tail..] + buffer[..head]
    }

    constructor Init()
      ensures Valid() && fresh(buffer)
      ensures Contents() == []
    {
      head := 0;
      tail := 0;
      buffer := new Message[RING_CAPACITY](_ => Zeros(MSG_BYTES));
    }

    method Push(msg: Message) returns (ok: bool)
      requires Valid()
      modifies this`head, buffer
      ensures Valid()
      ensures ok <==> |old(Contents())| < 1023
      ensures Contents() == if ok then old(Contents()) + [msg] else old(Contents())
    {
      var nextHead := NextSlot(head);
      if nextHead == tail {
        return false;
      }
      buffer[head] := msg;
      head := nextHead;
      return true;
    }

    /** `before` is what the caller's message held; it is returned untouched when the ring is empty. */
    method Pop(before: Message) returns (ok: bool, msg: Message)
      requires Valid()
      modifies this`tail
      ensures Valid()
      ensures ok <==> old(Contents()) != []
      ensures ok ==> msg == old(Contents())[0] && Contents() == old(Contents())[1..]
      ensures !ok ==> msg == before && Contents() == old(Contents())
    {
      if tail == head {
        return false, before;
      }
      msg := buffer[tail];
      tail := NextSlot(tail);
      ok := true;
    }
  }
}
