/** The enrolment record of one sender, as the signed-command gates keep it and the disk stores it. */
module SenderRecord {
  import opened Words

  const KEY_BYTES := 32

  type Key = k: Bytes | |k| == KEY_BYTES witness Zeros(32)

  datatype Sender = Sender(publicKey: Key, lastSequence: uint64, used: bool)

  /** A record before enrolment, all zero. */
  const FRESH := Sender(Zeros(KEY_BYTES), 0, false)
}
