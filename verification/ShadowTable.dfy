/** The table of shadowed peers and its in-place eviction by swapping with the last entry. */
module ShadowTable {
  import opened Words

  const SHADOW_TABLE_MAX := 256
  const TARPIT_DELAY_NS := 2_000_000_000

  datatype AttackPattern = None | SigFlood | SeqProbe | Replay | Malformed | ResourceExhaust

  /** `struct sockaddr_in`: the family, the port, the address and eight bytes of padding. */
  datatype SocketAddress = SocketAddress(family: uint16, port: uint16, address: uint32, padding: uint64)

  datatype Entry = Entry(
    attacker: SocketAddress, attemptCount: uint32, firstSeen: uint64, lastSeen: uint64,
    pattern: AttackPattern, active: bool, geoIp: Bytes, envelope: Bytes,
    decoySeq: uint32, decoyIssued: uint64, tarpitFd: int, refcount: uint32)

  const GEO_IP_BYTES := 64
  const ENVELOPE_BYTES := 374

  /** An entry as `memset` leaves it. */
  function Blank(): Entry {
    Entry(SocketAddress(0, 0, 0, 0), 0, 0, 0, AttackPattern.None, false, Zeros(GEO_IP_BYTES), Zeros(ENVELOPE_BYTES),
          0, 0, 0, 0)
  }

  /** Age in 64-bit unsigned arithmetic, as `now_ns - last_seen_ns` computes it. */
  function Age(e: Entry, now: uint64): uint64 {
    (now - e.lastSeen) % TWO64
  }

  predicate Evictable(e: Entry, now: uint64) {
    Age(e, now) > TARPIT_DELAY_NS && e.refcount == 0
  }

  /** The entries an eviction must leave. */
  function Kept(entries: seq<Entry>, now: uint64): seq<Entry> {
    if entries == [] then []
    else (if Evictable(entries[0], now) then [] else [entries[0]]) + Kept(entries[1..], now)
  }

  /**
   Multiplicities after an eviction: an entry goes, every copy of it, when its wrapped age exceeds
   two seconds and nothing refers to it; everything else keeps its count.
   */
  lemma {:induction false} KeptCounts(entries: seq<Entry>, now: uint64, e: Entry)
    ensures multiset(Kept(entries, now))[e] ==
            if (now - e.lastSeen) % 0x1_0000_0000_0000_0000 > 2_000_000_000 && e.refcount == 0 then 0
            else multiset(entries)[e]
  {
    if entries == [] {
    } else {
      KeptCounts(entries[1..], now, e);
      assert entries == [entries[0]] + entries[1..];
    }
  }

  /** A table without evictable entries, reached by removing only evictable ones, is the kept one. */
  lemma {:induction false} KeptByRemoval(left: seq<Entry>, removed: seq<Entry>, all: seq<Entry>, now: uint64)
    requires multiset(left) + multiset(removed) == multiset(all)
    requires forall k :: 0 <= k < |removed| ==> Evictable(removed[k], now)
    requires forall k :: 0 <= k < |left| ==> !Evictable(left[k], now)
    ensures multiset(left) == multiset(Kept(all, now))
  {
    forall e ensures multiset(left)[e] == multiset(Kept(all, now))[e] {
      KeptCounts(all, now, e);
      if Evictable(e, now) {
        assert e !in left;
      } else {
        assert e !in removed;
        assert multiset(all)[e] == multiset(left)[e] + multiset(removed)[e];
      }
    }
  }

  /** Filling the hole at `i` with the last entry removes exactly the entry at `i`. */
  lemma {:induction false} SwapRemove(s: seq<Entry>, i: nat)
    requires i < |s|
    ensures multiset(s[i := s[|s| - 1]][..|s| - 1]) + multiset{s[i]} == multiset(s)
  {
    var n := |s| - 1;
    assert s == s[..n] + [s[n]];
    if i < n {
      assert s[i := s[n]][..n] == s[..i] + [s[n]] + s[i + 1..n];
      assert s[..n] == s[..i] + [s[i]] + s[i + 1..n];
    } else {
      assert s[i := s[n]][..n] == s[..n];
    }
  }

  /** The eviction loop before position `i`: what is left, what was removed, and what is cleared. */
  ghost predicate Evicting(left: seq<Entry>, removed: seq<Entry>, all: seq<Entry>, now: uint64, i: nat) {
    && i <= |left|
    && multiset(left) + multiset(removed) == multiset(all)
    && (forall k :: 0 <= k < |removed| ==> Evictable(removed[k], now))
    && (forall k :: 0 <= k < i ==> !Evictable(left[k], now))
  }

  lemma {:induction false} EvictOne(left: seq<Entry>, removed: seq<Entry>, all: seq<Entry>, now: uint64, i: nat)
    requires i < |left| && Evicting(left, removed, all, now, i)
    requires Evictable(left[i], now)
    ensures Evicting(left[i := left[|left| - 1]][..|left| - 1], removed + [left[i]], all, now, i)
  {
    SwapRemove(left, i);
    assert multiset(removed + [left[i]]) == multiset(removed) + multiset{left[i]};
  }

  class Table {
    var table: array<Entry>
    var count: nat

    ghost predicate Valid()
      reads this
    {
      table.Length == SHADOW_TABLE_MAX && count <= SHADOW_TABLE_MAX
    }

    ghost function Entries(): seq<Entry>
      requires Valid()
      reads this, table
    {
      table[..count]
    }

    constructor Init()
      ensures Valid() && fresh(table)
      ensures Entries() == []
    {
      table := new Entry[SHADOW_TABLE_MAX](_ => Blank());
      count := 0;
    }

    /** The new entry's index, or nothing changed when the table is full. */
    method Register(attacker: SocketAddress, pattern: AttackPattern, now: uint64) returns (ok: bool, index: nat)
      requires Valid()
      modifies this`count, table
      ensures Valid()
      ensures ok <==> |old(Entries())| < 256
      ensures ok ==> index == |old(Entries())|
      ensures !ok ==> Entries() == old(Entries())
      ensures ok ==> |Entries()| == index + 1 && Entries()[..index] == old(Entries())
      ensures ok ==>
                Entries()[index] == Entry(attacker, 1, now, now, pattern, true, Zeros(64), Zeros(374), 0, 0, -1, 0)
    {
      if count >= SHADOW_TABLE_MAX {
        return false, 0;
      }
      index := count;
      count := count + 1;
      table[index] := Blank().(attacker := attacker, pattern := pattern, active := true, tarpitFd := -1,
                               firstSeen := now, lastSeen := now, attemptCount := 1);
      ok := true;
    }

    /** `table[i] = table[--table_count]` */
    method SwapOut(i: nat)
      requires Valid() && i < count
      modifies this`count, table
      ensures Valid() && count == old(count) - 1
      ensures Entries() == old(Entries()[i := table[count - 1]][..count - 1])
    {
      count := count - 1;
      table[i] := table[count];
    }

    method EvictExpired(now: uint64)
      requires Valid()
      modifies this`count, table
      ensures Valid()
      ensures multiset(Entries()) == multiset(Kept(old(Entries()), now))
    {
      ghost var all, removed: seq<Entry> := Entries(), [];
      var i := 0;
      while i < count
        invariant Valid()
        invariant Evicting(Entries(), removed, all, now, i)
        decreases count - i
      {
        if Evictable(table[i], now) {
          ghost var left := Entries();
          EvictOne(left, removed, all, now, i);
          removed := removed + [left[i]];
          SwapOut(i);
          assert Entries() == left[i := left[|left| - 1]][..|left| - 1];
        } else {
          i := i + 1;
        }
      }
      KeptByRemoval(Entries(), removed, all, now);
    }
  }

  /** Eviction looks at the entries, not at where they lie. */
  lemma {:induction false} EvictionIgnoresOrder(a: seq<Entry>, b: seq<Entry>, now: uint64)
    requires multiset(a) == multiset(b)
    ensures multiset(Kept(a, now)) == multiset(Kept(b, now))
  {
    forall e ensures multiset(Kept(a, now))[e] == multiset(Kept(b, now))[e] {
      KeptCounts(a, now, e);
      KeptCounts(b, now, e);
    }
  }

  /** A second eviction at the same time removes nothing more. */
  lemma {:induction false} EvictionIsIdempotent(a: seq<Entry>, now: uint64)
    ensures multiset(Kept(Kept(a, now), now)) == multiset(Kept(a, now))
  {
    forall e ensures multiset(Kept(Kept(a, now), now))[e] == multiset(Kept(a, now))[e] {
      KeptCounts(a, now, e);
      KeptCounts(Kept(a, now), now, e);
    }
  }

  /**
   For an unreferenced entry the test means "not seen for longer than the delay" exactly when the
   entry was not last seen in the future, or so far in it that the wrapped age is small again.
   */
  lemma {:induction false} EvictionTestExactIff(e: Entry, now: uint64)
    requires e.refcount == 0
    ensures (Evictable(e, now) <==> now - e.lastSeen > TARPIT_DELAY_NS)
       <==> (e.lastSeen <= now || e.lastSeen - now >= TWO64 - TARPIT_DELAY_NS)
  {
    if e.lastSeen <= now {
      assert Age(e, now) == now - e.lastSeen;
    } else {
      assert Age(e, now) == now - e.lastSeen + TWO64;
    }
  }
}
