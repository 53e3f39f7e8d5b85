/**
 Sender state on disk: fixed-size records appended to one file, and a scan that keeps the last
 whole record it reads.
 */
module Persistence {
  import opened Words
  import opened SenderRecord

  const SENDER_BYTES := 41
  const PAYLOAD_OFFSET := 44
  /** `sizeof(WalRecord)`: 300 bytes of fields, padded to a multiple of eight. */
  const RECORD_BYTES := 304

  function SenderImage(s: Sender): (r: Bytes)
    ensures |r| == SENDER_BYTES
  {
    s.publicKey + LittleEndian(s.lastSequence, 8) + [if s.used then 1 else 0]
  }

  /** A record in memory: sequence, length, a zero hash, the sender in a zeroed payload, padding. */
  function RecordImage(s: Sender, sequence: uint64): (r: Bytes)
    ensures |r| == RECORD_BYTES
  {
    LittleEndian(sequence, 8) + LittleEndian(SENDER_BYTES, 4) + Zeros(32)
    + SenderImage(s) + Zeros(RECORD_BYTES - PAYLOAD_OFFSET - SENDER_BYTES)
  }

  /** `memcpy(sender, latest.payload, sizeof(SenderRecord))` */
  function SenderIn(record: Bytes): Sender
    requires |record| == RECORD_BYTES
  {
    var payload := record[PAYLOAD_OFFSET..];
    WordRanges();
    Sender(payload[..32], FromLittleEndian(payload[32..40]), payload[40] != 0)
  }

  lemma {:induction false} SenderRoundTrip(s: Sender, sequence: uint64)
    ensures SenderIn(RecordImage(s, sequence)) == s
  {
    var payload := RecordImage(s, sequence)[PAYLOAD_OFFSET..];
    assert payload[..41] == SenderImage(s);
    assert payload[..32] == SenderImage(s)[..32] == s.publicKey;
    assert payload[32..40] == SenderImage(s)[32..40] == LittleEndian(s.lastSequence, 8);
    assert payload[40] == SenderImage(s)[40];
    WordRanges();
    LittleEndianRoundTrip(s.lastSequence, 8);
  }

  /** The last whole record of a file read record by record from its start. */
  function LastRecord(file: Bytes): (r: Option<Bytes>)
    ensures r.Some? ==> |r.value| == RECORD_BYTES
    ensures r.None? <==> |file| < RECORD_BYTES
  {
    if |file| < RECORD_BYTES then None
    else
      var later := LastRecord(file[RECORD_BYTES..]);
      if later.Some? then later else Some(file[..RECORD_BYTES])
  }

  function Recovered(file: Bytes): Option<Sender> {
    var last := LastRecord(file);
    if last.None? then None else Some(SenderIn(last.value))
  }

  class Store {
    var file: Bytes

    constructor ()
      ensures file == []
    {
      file := [];
    }

    /** `openOk` says whether `open` succeeded and `written` how many bytes `write` wrote. */
    method PersistSenderState(s: Sender, sequence: uint64, openOk: bool, written: nat) returns (ok: bool)
      requires written <= RECORD_BYTES
      modifies this
      ensures file == old(file) + if openOk then RecordImage(s, sequence)[..written] else []
      ensures ok <==> openOk && written == RECORD_BYTES
    {
      if !openOk {
        return false;
      }
      file := file + RecordImage(s, sequence)[..written];
      return written == RECORD_BYTES;
    }

    method RecoverSenderState(openOk: bool) returns (result: Option<Sender>)
      ensures result == if openOk then Recovered(file) else None
    {
      if !openOk {
        return None;
      }
      var latest: Bytes := Zeros(RECORD_BYTES);
      var found, position := false, 0;
      while |file| - position >= RECORD_BYTES
        invariant 0 <= position <= |file|
        invariant |latest| == RECORD_BYTES
        invariant LastRecord(file) == (if LastRecord(file[position..]).Some? then LastRecord(file[position..])
                                       else if found then Some(latest) else None)
      {
        latest := file[position..position + RECORD_BYTES];
        assert file[position..][..RECORD_BYTES] == latest;
        assert file[position..][RECORD_BYTES..] == file[position + RECORD_BYTES..];
        found := true;
        position := position + RECORD_BYTES;
      }
      if found {
        return Some(SenderIn(latest));
      }
      return None;
    }
  }

  // ---------- what recovery returns ----------

  datatype Persisted = Persisted(sender: Sender, sequence: uint64)

  function Joined(records: seq<Bytes>): Bytes {
    if records == [] then [] else records[0] + Joined(records[1..])
  }

  function RecordOf(p: Persisted): (r: Bytes)
    ensures |r| == RECORD_BYTES
  {
    RecordImage(p.sender, p.sequence)
  }

  /** The file after a list of complete persists. */
  function FileOf(log: seq<Persisted>): Bytes {
    Joined(seq(|log|, i requires 0 <= i < |log| => RecordOf(log[i])))
  }

  lemma {:induction false} LastRecordBehind(first: Bytes, rest: Bytes)
    requires |first| == RECORD_BYTES
    ensures LastRecord(first + rest) == if LastRecord(rest).Some? then LastRecord(rest) else Some(first)
  {
    assert (first + rest)[RECORD_BYTES..] == rest && (first + rest)[..RECORD_BYTES] == first;
  }

  /** Whole records followed by a torn one: the scan keeps the last whole record. */
  lemma {:induction false} LastOfJoined(records: seq<Bytes>, torn: Bytes)
    requires records != [] && |torn| < RECORD_BYTES
    requires forall i :: 0 <= i < |records| ==> |records[i]| == RECORD_BYTES
    ensures LastRecord(Joined(records) + torn) == Some(records[|records| - 1])
  {
    var rest := Joined(records[1..]) + torn;
    assert Joined(records) + torn == records[0] + rest;
    LastRecordBehind(records[0], rest);
    if |records| == 1 {
      assert rest == torn;
    } else {
      LastOfJoined(records[1..], torn);
    }
  }

  /** After complete persists and at most a torn record behind them, the last sender is recovered. */
  lemma {:induction false} RecoverAfterPersists(log: seq<Persisted>, torn: Bytes)
    requires log != [] && |torn| < RECORD_BYTES
    ensures Recovered(FileOf(log) + torn) == Some(log[|log| - 1].sender)
  {
    var records := seq(|log|, i requires 0 <= i < |log| => RecordOf(log[i]));
    LastOfJoined(records, torn);
    SenderRoundTrip(log[|log| - 1].sender, log[|log| - 1].sequence);
  }

  lemma {:induction false} JoinedGrows(records: seq<Bytes>, r: Bytes)
    ensures Joined(records + [r]) == Joined(records) + r
  {
    if records == [] {
      assert Joined([] + [r]) == r + Joined([]);
    } else {
      assert (records + [r])[1..] == records[1..] + [r];
      JoinedGrows(records[1..], r);
    }
  }

  /** Each complete persist extends the file as one more entry of the list does. */
  lemma {:induction false} FileGrows(log: seq<Persisted>, p: Persisted)
    ensures FileOf(log + [p]) == FileOf(log) + RecordImage(p.sender, p.sequence)
  {
    var before := seq(|log|, i requires 0 <= i < |log| => RecordOf(log[i]));
    var after := seq(|log| + 1, i requires 0 <= i < |log| + 1 => RecordOf((log + [p])[i]));
    assert after == before + [RecordOf(p)];
    JoinedGrows(before, RecordOf(p));
  }

  /** Behind any file, the last whole record is the one read from the last record boundary in it. */
  lemma {:induction false} LastRecordAfterAppend(file: Bytes, record: Bytes)
    requires |record| == RECORD_BYTES
    ensures LastRecord(file + record) ==
            Some((file[|file| - |file| % RECORD_BYTES..] + record)[..RECORD_BYTES])
  {
    var all := file + record;
    if |file| < RECORD_BYTES {
      assert file[|file| - |file| % RECORD_BYTES..] == file;
      assert LastRecord(all[RECORD_BYTES..]).None?;
    } else {
      LastRecordAfterAppend(file[RECORD_BYTES..], record);
      assert all[RECORD_BYTES..] == file[RECORD_BYTES..] + record;
      assert |file[RECORD_BYTES..]| % RECORD_BYTES == |file| % RECORD_BYTES;
    }
  }

  // ---------- the bytes of the file, written and read ----------

  /** The bytes of one stored sender: 44 of header, the key, its last sequence, the flag, and zeros. */
  ghost predicate Stores(r: Bytes, s: Sender, sequence: uint64)
    requires |r| == 304
  {
    && r[..8] == LittleEndian(sequence, 8)
    && r[8..12] == [41, 0, 0, 0]
    && r[12..44] == Zeros(32)
    && r[44..76] == s.publicKey
    && r[76..84] == LittleEndian(s.lastSequence, 8)
    && r[84] == (if s.used then 1 else 0)
    && r[85..] == Zeros(219)
  }

  lemma {:induction false} ZeroImage(width: nat)
    ensures LittleEndian(0, width) == Zeros(width)
  {
    if width == 0 {
    } else {
      ZeroImage(width - 1);
    }
  }

  lemma {:induction false} ImageStores(s: Sender, sequence: uint64)
    ensures Stores(RecordImage(s, sequence), s, sequence)
  {
    var r := RecordImage(s, sequence);
    ZeroImage(3);
    assert LittleEndian(SENDER_BYTES, 4) == [41] + LittleEndian(0, 3);
    assert r[8..12] == LittleEndian(SENDER_BYTES, 4);
    assert r[44..85] == SenderImage(s);
    assert r[44..76] == r[44..85][..32] && r[76..84] == r[44..85][32..40] && r[84] == r[44..85][40];
  }

  lemma {:induction false} JoinedLength(records: seq<Bytes>)
    requires forall i :: 0 <= i < |records| ==> |records[i]| == RECORD_BYTES
    ensures |Joined(records)| == RECORD_BYTES * |records|
  {
    if records == [] {
    } else {
      JoinedLength(records[1..]);
    }
  }

  lemma {:induction false} RecordInJoined(records: seq<Bytes>, k: nat)
    requires k < |records|
    requires forall i :: 0 <= i < |records| ==> |records[i]| == 304
    ensures |Joined(records)| >= 304 * k + 304
    ensures Joined(records)[304 * k..304 * k + 304] == records[k]
  {
    JoinedLength(records);
    if k == 0 {
    } else {
      RecordInJoined(records[1..], k - 1);
      assert Joined(records)[304 * k..304 * k + 304] == Joined(records[1..])[304 * k - 304..304 * k];
    }
  }

  lemma {:induction false} FileLength(log: seq<Persisted>)
    ensures |FileOf(log)| == RECORD_BYTES * |log|
  {
    JoinedLength(seq(|log|, i requires 0 <= i < |log| => RecordOf(log[i])));
  }

  /** Record `k` of a file of complete persists, byte by byte. */
  lemma {:induction false} FileRecordBytes(log: seq<Persisted>, k: nat)
    requires k < |log|
    ensures |FileOf(log)| == 304 * |log|
    ensures Stores(FileOf(log)[304 * k..304 * k + 304], log[k].sender, log[k].sequence)
  {
    FileLength(log);
    RecordInJoined(seq(|log|, i requires 0 <= i < |log| => RecordOf(log[i])), k);
    ImageStores(log[k].sender, log[k].sequence);
  }

  lemma {:induction false} LastRecordIs(file: Bytes, n: nat)
    requires 304 * n <= |file| < 304 * n + 304
    ensures LastRecord(file) == if n == 0 then None else Some(file[304 * n - 304..304 * n])
  {
    if n == 0 {
    } else {
      LastRecordIs(file[304..], n - 1);
      assert n > 1 ==> file[304..][304 * n - 608..304 * n - 304] == file[304 * n - 304..304 * n];
    }
  }

  /**
   Whatever a file holds, recovery reads the last of its n whole records: the key, the last sequence
   and the flag from their bytes in it, and fails exactly when there is no whole record.
   */
  lemma {:induction false} RecoveredBytes(file: Bytes, n: nat)
    requires 304 * n <= |file| < 304 * n + 304
    ensures Recovered(file).Some? <==> n > 0
    ensures n > 0 ==>
              var r, s := file[304 * n - 304..304 * n], Recovered(file).value;
              && s.publicKey == r[44..76]
              && LittleEndian(s.lastSequence, 8) == r[76..84]
              && (s.used <==> r[84] != 0)
  {
    LastRecordIs(file, n);
    if n > 0 {
      var r := file[304 * n - 304..304 * n];
      var payload := r[44..];
      assert payload[..32] == r[44..76] && payload[32..40] == r[76..84] && payload[40] == r[84];
      ReadBack(r[76..84]);
    }
  }

  // ---------- behind a torn record ----------

  predicate RoundTrips(file: Bytes, s: Sender, sequence: uint64) {
    Recovered(file + RecordImage(s, sequence)) == Some(s)
  }

  /** The file that complete persists and then one torn persist leave, `r` bytes of it written. */
  function TornFile(log: seq<Persisted>, torn: Persisted, r: nat): Bytes
    requires r <= RECORD_BYTES
  {
    FileOf(log) + RecordOf(torn)[..r]
  }

  lemma {:induction false} AlignedRoundTrips(file: Bytes, s: Sender, sequence: uint64)
    requires |file| % RECORD_BYTES == 0
    ensures RoundTrips(file, s, sequence)
  {
    var record := RecordImage(s, sequence);
    LastRecordAfterAppend(file, record);
    assert (file[|file|..] + record)[..RECORD_BYTES] == record;
    SenderRoundTrip(s, sequence);
  }

  lemma {:induction false} FirstKeyByte(s: Sender, sequence: uint64)
    ensures RecordImage(s, sequence)[PAYLOAD_OFFSET] == s.publicKey[0]
  {
    assert RecordImage(s, sequence)[PAYLOAD_OFFSET] == SenderImage(s)[0];
  }

  function KeyOf(b: byte): (k: Key)
    ensures forall i :: 0 <= i < KEY_BYTES ==> k[i] == b
  {
    seq(KEY_BYTES, _ => b)
  }

  /** Two senders whose keys start with different bytes, neither of which occurs in a record header. */
  const WITNESS_TORN := Sender(KeyOf(9), 0, true)
  const WITNESS_NEXT := Sender(KeyOf(7), 0, true)

  lemma {:induction false} MisreadBreaksNext(file: Bytes, torn: Bytes, record: Bytes)
    requires |file| % RECORD_BYTES == 0 && 0 < |torn| < RECORD_BYTES && |record| == RECORD_BYTES
    requires |torn| > PAYLOAD_OFFSET ==> torn[PAYLOAD_OFFSET] != 7
    requires forall i :: 0 <= i < PAYLOAD_OFFSET ==> record[i] != 7
    ensures Recovered(file + torn + record) != Some(WITNESS_NEXT)
  {
    var all := file + torn;
    assert |all| % RECORD_BYTES == |torn| && all[|all| - |torn|..] == torn;
    LastRecordAfterAppend(all, record);
    var read := (torn + record)[..RECORD_BYTES];
    assert SenderIn(read).publicKey[0] == read[PAYLOAD_OFFSET] != 7;
  }

  /** No header byte of a record with sequence 0 is a 7. */
  lemma {:induction false} HeaderBytes(s: Sender)
    ensures forall i :: 0 <= i < PAYLOAD_OFFSET ==> RecordImage(s, 0)[i] != 7
  {
    var record := RecordImage(s, 0);
    ZeroImage(8);
    ZeroImage(3);
    assert LittleEndian(SENDER_BYTES, 4) == [41] + LittleEndian(0, 3);
    assert record[..8] == Zeros(8);
    assert record[8] == 41;
    assert forall i :: 9 <= i < 12 ==> record[i] == LittleEndian(0, 3)[i - 9];
    assert forall i :: 12 <= i < PAYLOAD_OFFSET ==> record[i] == 0;
    forall i | 0 <= i < PAYLOAD_OFFSET ensures record[i] != 7 {
      if i < 8 {
        assert record[i] == record[..8][i];
      }
    }
  }

  /** Behind a torn record, the recovered key starts with a byte of a header or of the torn key. */
  lemma {:induction false} TornBreaksNext(log: seq<Persisted>, t: Sender, r: nat)
    requires 0 < r < RECORD_BYTES && t.publicKey[0] == 9
    ensures !RoundTrips(TornFile(log, Persisted(t, 0), r), WITNESS_NEXT, 0)
  {
    FirstKeyByte(t, 0);
    HeaderBytes(WITNESS_NEXT);
    FileLength(log);
    MisreadBreaksNext(FileOf(log), RecordImage(t, 0)[..r], RecordImage(WITNESS_NEXT, 0));
  }

  /**
   Behind any complete persists and a torn one of `r` bytes, the next complete persist is recovered
   for all contents exactly when nothing of the torn record was written.
   */
  lemma {:induction false} TornPersistRecoversIff(log: seq<Persisted>, r: nat)
    requires r < RECORD_BYTES
    ensures (forall torn: Persisted, s: Sender, sequence: uint64 ::
               RoundTrips(TornFile(log, torn, r), s, sequence))
       <==> r == 0
  {
    if r == 0 {
      forall torn: Persisted, s: Sender, sequence: uint64
        ensures RoundTrips(TornFile(log, torn, r), s, sequence)
      {
        FileLength(log);
        assert TornFile(log, torn, r) == FileOf(log);
        AlignedRoundTrips(FileOf(log), s, sequence);
      }
    } else {
      TornBreaksNext(log, WITNESS_TORN, r);
      assert !RoundTrips(TornFile(log, Persisted(WITNESS_TORN, 0), r), WITNESS_NEXT, 0);
    }
  }

  /**
   More generally, a complete persist is recovered for all contents of a file of a given length
   exactly when that length is a whole number of records.
   */
  lemma {:induction false} PersistRecoversIff(length: nat)
    ensures (forall file: Bytes, s: Sender, sequence: uint64 :: |file| == length ==> RoundTrips(file, s, sequence))
       <==> length % RECORD_BYTES == 0
  {
    if length % RECORD_BYTES == 0 {
      forall file: Bytes, s: Sender, sequence: uint64 | |file| == length
        ensures RoundTrips(file, s, sequence)
      {
        AlignedRoundTrips(file, s, sequence);
      }
    } else {
      var log := seq(length / RECORD_BYTES, _ => Persisted(WITNESS_TORN, 0));
      var file := TornFile(log, Persisted(WITNESS_TORN, 0), length % RECORD_BYTES);
      FileLength(log);
      assert |file| == length;
      TornBreaksNext(log, WITNESS_TORN, length % RECORD_BYTES);
      assert !RoundTrips(file, WITNESS_NEXT, 0);
    }
  }
}
