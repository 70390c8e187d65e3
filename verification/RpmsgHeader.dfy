/** The word `reserved` of an RPMsg header: the descriptor index in the low half, the number of
    holders in the high half. */
module RpmsgHeader {
  import opened Bits

  const HELD_ONE: nat := 65536

  function HeldCounter(v: nat): nat { (v / HELD_ONE) % HELD_ONE }

  function BufIndex(v: nat): nat { v % HELD_ONE }

  function HeldInc(v: nat): nat { (v + HELD_ONE) % U32 }

  /** rpmsg_virtio_buf_held_dec_test: the new word, and whether the last holder is gone. */
  function DecTest(v: nat): (nat, bool) {
    if HeldCounter(v) == 0 then (v, false)
    else
      var w := WrapSub(v, HELD_ONE, U32);
      (w, HeldCounter(w) == 0)
  }

  function Word(count: nat, idx: nat): nat { count * HELD_ONE + idx }

  /** The word counts holders and keeps the index, as long as the count stays below 2^16. */
  lemma WordOps(count: nat, idx: nat)
    requires idx < HELD_ONE && count < HELD_ONE
    ensures Word(0, idx) == idx
    ensures HeldCounter(Word(count, idx)) == count && BufIndex(Word(count, idx)) == idx
    ensures count + 1 < HELD_ONE ==> HeldInc(Word(count, idx)) == Word(count + 1, idx)
    ensures count > 0 ==> DecTest(Word(count, idx)) == (Word(count - 1, idx), count == 1)
  {
  }
}
