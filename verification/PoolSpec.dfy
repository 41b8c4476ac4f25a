/** The pool of output buffers as a sequence of values, and what each step of sending does to it. */
module PoolSpec {
  import opened Bytes
  import opened Adler32
  import opened BufferSpec
  import opened Framing

  type GoodBuf = b: Buf | b.Valid() witness Buf(CHEAP_PREPEND, CHEAP_PREPEND, [])

  /** `BufferValue`: the flag says the entry is free. */
  datatype Slot = Slot(valid: bool, buf: GoodBuf)

  function NewBuf(): GoodBuf {
    Empty(INITIAL_SIZE)
  }

  /** Nothing to read, and the reader index where a new buffer has it. */
  predicate Reset(b: GoodBuf) {
    b.content == [] && b.reader == CHEAP_PREPEND
  }

  /** Index of the first free entry, or the number of entries. */
  function FirstFree(slots: seq<Slot>): (i: nat)
    ensures i <= |slots|
    ensures i < |slots| ==> slots[i].valid
    ensures forall k :: 0 <= k < i ==> !slots[k].valid
  {
    if slots == [] || slots[0].valid then 0 else
      var i := FirstFree(slots[1..]);
      assert forall k :: 1 <= k < i + 1 ==> slots[k] == slots[1..][k - 1];
      i + 1
  }

  lemma FirstFreeStep(slots: seq<Slot>)
    requires slots != []
    ensures FirstFree(slots) == if slots[0].valid then 0 else 1 + FirstFree(slots[1..])
  {
  }

  /** The critical section of `send_rpc_msg`: take the first free entry, or add one. */
  function Acquire(slots: seq<Slot>): (r: seq<Slot>)
    ensures FirstFree(slots) < |r|
  {
    var i := FirstFree(slots);
    if i < |slots| then slots[i := slots[i].(valid := false)]
    else slots + [Slot(false, NewBuf())]
  }

  /** Body and checksum appended; the checksum is taken over everything readable at that point. */
  function Appended(b: GoodBuf, body: seq<byte>): (r: GoodBuf) {
    var withBody := b.Append(body);
    withBody.Append(BigEndian(Adler(withBody.content), CHECKSUM_SIZE))
  }

  /** The assertion in `prepend` when the length is put in front. */
  predicate HasPrependRoom(b: GoodBuf, body: seq<byte>) {
    LENGTH_SIZE <= Appended(b, body).reader
  }

  function Fill(b: GoodBuf, body: seq<byte>): (r: GoodBuf)
    requires HasPrependRoom(b, body)
  {
    Appended(b, body).Prepend(BigEndian(|body| + CHECKSUM_SIZE, LENGTH_SIZE))
  }

  /** A drained buffer at index 8 always leaves room for the length, and then holds exactly one frame. */
  lemma FillFresh(b: GoodBuf, body: seq<byte>)
    requires Reset(b)
    ensures b.reader == 8 && Appended(b, body).reader == 8
    ensures HasPrependRoom(b, body)
    ensures Fill(b, body).content == Frame(body) && Fill(b, body).reader == 4
  {
    assert [] + body == body;
    assert b.Append(body).content == body;
  }

  /** The successful part of `on_write`: drop what was written; free the entry when nothing is left. */
  function Written(slot: Slot, count: nat): Slot
    requires count <= |slot.buf.content|
  {
    var b := slot.buf.Retrieve(count);
    Slot(slot.valid || b.content == [], b)
  }
}
