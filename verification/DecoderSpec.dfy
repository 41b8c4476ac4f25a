/** The decoder's input buffer over a run of reads: its content is the parse leftover, its memory is bounded. */
module DecoderSpec {
  import opened Bytes
  import opened BufferSpec
  import opened Framing

  /** The loop of `on_read` on the input buffer: one retrieve for the length, one for the rest of the frame. */
  function Drain(b: Buf): Buf
    requires b.Valid()
    decreases |b.content|
  {
    match LookAt(b.content)
    case Take(payload) => Drain(b.Retrieve(LENGTH_SIZE).Retrieve(|payload|))
    case _ => b
  }

  lemma PeekedLength(s: seq<byte>)
    requires LENGTH_SIZE <= |s|
    ensures PeekInt(s, LENGTH_SIZE) == HeaderLen(s)
  {
    Int32Signed(FromBigEndian(s[..LENGTH_SIZE]));
  }

  function OnRead(b: Buf, chunk: seq<byte>): Buf
    requires b.Valid()
  {
    Drain(b.Append(chunk))
  }

  /** The two tests of the loop, on bytes that lead to no undefined length. */
  lemma LoopTests(s: seq<byte>)
    requires MIN_MESSAGE_LEN <= |s| && !LookAt(s).Undefined?
    ensures |s| < Needed(HeaderLen(s)) <==> LookAt(s).Wait?
    ensures Needed(HeaderLen(s)) <= |s| ==>
              var len := HeaderLen(s);
              CHECKSUM_SIZE <= len && LENGTH_SIZE + len <= |s| && LookAt(s) == Take(s[LENGTH_SIZE..LENGTH_SIZE + len])
  {
    hide HeaderLen;
  }

  lemma ShortWaits(s: seq<byte>)
    ensures |s| < MIN_MESSAGE_LEN ==> LookAt(s) == Wait
  {
  }

  /** One turn of the loop takes one frame from the buffer and one event from the parse. */
  lemma LoopTurn(b: Buf)
    requires b.Valid()
    ensures LookAt(b.content).Wait? ==> Drain(b) == b && Parse(b.content) == Parsed([], b.content, false)
    ensures LookAt(b.content).Undefined? ==> Parse(b.content).undefined
    ensures LookAt(b.content).Take? ==>
              var payload := LookAt(b.content).payload;
              var after := b.Retrieve(LENGTH_SIZE).Retrieve(|payload|);
              && Drain(b) == Drain(after)
              && after.content == b.content[LENGTH_SIZE + |payload|..]
              && Parse(b.content) == Parse(after.content).(events := [Judge(payload)] + Parse(after.content).events)
  {
    hide LookAt, HeaderLen, Judge, Parse;
    ParseTurn(b.content);
    if LookAt(b.content).Take? {
      RetrieveTwice(b, LENGTH_SIZE, |LookAt(b.content).payload|);
    }
  }

  lemma RetrieveTwice(b: Buf, m: nat, n: nat)
    requires b.Valid() && m + n <= |b.content|
    ensures b.Retrieve(m).Retrieve(n).content == b.content[m + n..]
  {
  }

  lemma {:induction false} DrainIsParse(b: Buf)
    requires b.Valid()
    ensures Drain(b).Valid() && Drain(b).size == b.size
    ensures Drain(b).content == Parse(b.content).rest
    decreases |b.content|
  {
    hide LookAt, HeaderLen, Judge;
    LoopTurn(b);
    if LookAt(b.content).Take? {
      DrainIsParse(b.Retrieve(LENGTH_SIZE).Retrieve(|LookAt(b.content).payload|));
    }
  }

  function OnReadAll(b: Buf, chunks: seq<seq<byte>>): (b': Buf)
    requires b.Valid()
    ensures b'.Valid()
    decreases |chunks|
  {
    if chunks == [] then b
    else
      DrainIsParse(b.Append(chunks[0]));
      OnReadAll(OnRead(b, chunks[0]), chunks[1..])
  }

  /** Every length the decoder looks at is a frame length of at most `m`. */
  predicate LengthsWithin(s: seq<byte>, m: nat)
    decreases |s|
  {
    match LookAt(s)
    case Wait => |s| < MIN_MESSAGE_LEN || CHECKSUM_SIZE <= HeaderLen(s) <= m
    case Undefined => false
    case Take(payload) => |payload| <= m && LengthsWithin(s[LENGTH_SIZE + |payload|..], m)
  }

  lemma {:induction false} LengthsWithinPrefix(a: seq<byte>, b: seq<byte>, m: nat)
    requires LengthsWithin(a + b, m)
    ensures LengthsWithin(a, m)
    decreases |a|
  {
    hide Judge, HeaderLen;
    LookStable(a, b);
    match LookAt(a)
    case Wait =>
      if MIN_MESSAGE_LEN <= |a| {
        HeaderStable(a, b);
      }
    case Take(payload) =>
      var k := LENGTH_SIZE + |payload|;
      assert (a + b)[k..] == a[k..] + b;
      LengthsWithinPrefix(a[k..], b, m);
    case Undefined =>
  }

  /** What waits in the input buffer is shorter than one frame. */
  lemma {:induction false} LeftoverBound(s: seq<byte>, m: nat)
    requires LengthsWithin(s, m) && CHECKSUM_SIZE <= m
    ensures !Parse(s).undefined && |Parse(s).rest| <= m + 3
    decreases |s|
  {
    match LookAt(s)
    case Take(payload) => LeftoverBound(s[LENGTH_SIZE + |payload|..], m);
    case _ =>
  }

  lemma {:induction false} BoundFrom(b: Buf, done: seq<byte>, chunks: seq<seq<byte>>, n: nat, m: nat)
    requires b.Valid() && CHECKSUM_SIZE <= m
    requires forall c <- chunks :: |c| <= n
    requires LengthsWithin(done + Flatten(chunks), m)
    requires b.content == Parse(done).rest
    ensures OnReadAll(b, chunks).size <= Max(b.size, m + 2 * n + 10)
    ensures OnReadAll(b, chunks).content == Parse(done + Flatten(chunks)).rest
    decreases |chunks|
  {
    hide LookAt, LengthsWithin, Parse;
    if chunks == [] {
      assert done + Flatten(chunks) == done;
    } else {
      var c, tail := chunks[0], chunks[1..];
      assert done + Flatten(chunks) == done + c + Flatten(tail);
      LengthsWithinPrefix(done + c, Flatten(tail), m);
      LengthsWithinPrefix(done, c, m);
      LeftoverBound(done, m);
      ParseAppend(done, c);
      GrowthBound(b, |c|);
      DrainIsParse(b.Append(c));
      BoundFrom(OnRead(b, c), done + c, tail, n, m);
    }
  }

  /**
   For frame lengths of at most `m` and reads of at most 100 bytes, the input buffer's array
   never exceeds max(1032, m + 210), and its content is what the whole stream leaves over.
   */
  lemma InputBufferBound(chunks: seq<seq<byte>>, m: nat)
    requires CHECKSUM_SIZE <= m
    requires forall c <- chunks :: |c| <= 100
    requires LengthsWithin(Flatten(chunks), m)
    ensures OnReadAll(Empty(INITIAL_SIZE), chunks).size <= Max(1032, m + 210)
    ensures OnReadAll(Empty(INITIAL_SIZE), chunks).content == Parse(Flatten(chunks)).rest
  {
    assert [] + Flatten(chunks) == Flatten(chunks);
    BoundFrom(Empty(INITIAL_SIZE), [], chunks, 100, m);
  }
}
