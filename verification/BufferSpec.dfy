/**
 The byte buffer as a value: the size of its array, the reader index and the
 readable bytes. The buffer class is proved to move between these values as the
 functions below say; everything above the buffer reasons about the values.
 */
module BufferSpec {
  import opened Bytes

  const CHEAP_PREPEND: nat := 8
  const INITIAL_SIZE: nat := 1024

  datatype Buf = Buf(size: nat, reader: nat, content: seq<byte>) {

    predicate Valid() {
      CHEAP_PREPEND <= size && reader + |content| <= size
    }

    function Writer(): nat {
      reader + |content|
    }

    function Writable(): nat
      requires Valid()
    {
      size - Writer()
    }

    /** Growth keeps the indices; compaction puts the reader index back to 8. */
    function EnsureWritable(n: nat): (b: Buf)
      requires Valid()
      ensures b.Valid() && b.content == content && n <= b.Writable()
      ensures size <= b.size
    {
      if n <= Writable() then this
      else if Writable() + reader < n + CHEAP_PREPEND then this.(size := Writer() + n)
      else this.(reader := CHEAP_PREPEND)
    }

    function Append(bytes: seq<byte>): (b: Buf)
      requires Valid()
      ensures b.Valid()
    {
      var room := EnsureWritable(|bytes|);
      room.(content := content + bytes)
    }

    function Prepend(bytes: seq<byte>): (b: Buf)
      requires Valid() && |bytes| <= reader
      ensures b.Valid()
    {
      this.(reader := reader - |bytes|, content := bytes + content)
    }

    function Retrieve(n: nat): (b: Buf)
      requires Valid() && n <= |content|
      ensures b.Valid() && b.content == content[n..]
    {
      if n < |content| then this.(reader := reader + n, content := content[n..])
      else this.(reader := CHEAP_PREPEND, content := [])
    }

    function Unwrite(n: nat): (b: Buf)
      requires Valid() && n <= |content|
      ensures b.Valid()
    {
      this.(content := content[..|content| - n])
    }

    /** The copy `shrink` makes goes through an `int` length; a negative one throws. */
    predicate Shrinkable() {
      0 <= ToInt32(|content|)
    }

    function Shrink(reserve: nat): (b: Buf)
      requires Valid() && Shrinkable()
      ensures b.Valid()
    {
      Empty(INITIAL_SIZE).EnsureWritable(|content| + reserve).Append(content[..ToInt32(|content|)])
    }
  }

  function Empty(initialSize: nat): (b: Buf)
    ensures b.Valid()
  {
    Buf(CHEAP_PREPEND + initialSize, CHEAP_PREPEND, [])
  }

  // ---- Runs of buffer operations ----

  datatype Op =
    | Append(bytes: seq<byte>)
    | Prepend(bytes: seq<byte>)
    | Retrieve(n: nat)
    | Unwrite(n: nat)
    | EnsureWritable(n: nat)
    | Shrink(reserve: nat)

  /** The precondition the source asserts for each operation. */
  predicate Allowed(b: Buf, op: Op) {
    match op
    case Append(_) => true
    case Prepend(bytes) => |bytes| <= b.reader
    case Retrieve(n) => n <= |b.content|
    case Unwrite(n) => n <= |b.content|
    case EnsureWritable(_) => true
    case Shrink(_) => b.Shrinkable()
  }

  function Apply(b: Buf, op: Op): (b': Buf)
    requires b.Valid() && Allowed(b, op)
    ensures b'.Valid()
  {
    match op
    case Append(bytes) => b.Append(bytes)
    case Prepend(bytes) => b.Prepend(bytes)
    case Retrieve(n) => b.Retrieve(n)
    case Unwrite(n) => b.Unwrite(n)
    case EnsureWritable(n) => b.EnsureWritable(n)
    case Shrink(reserve) => b.Shrink(reserve)
  }

  predicate AllowedAll(b: Buf, ops: seq<Op>)
    requires b.Valid()
    decreases |ops|
  {
    ops == [] || (Allowed(b, ops[0]) && AllowedAll(Apply(b, ops[0]), ops[1..]))
  }

  function ApplyAll(b: Buf, ops: seq<Op>): (b': Buf)
    requires b.Valid() && AllowedAll(b, ops)
    ensures b'.Valid()
    decreases |ops|
  {
    if ops == [] then b else ApplyAll(Apply(b, ops[0]), ops[1..])
  }

  /** What the same operations do to a plain byte sequence, which has no layout at all. */
  function Ideal(s: seq<byte>, op: Op): seq<byte> {
    match op
    case Append(bytes) => s + bytes
    case Prepend(bytes) => bytes + s
    case Retrieve(n) => if n <= |s| then s[n..] else []
    case Unwrite(n) => if n <= |s| then s[..|s| - n] else []
    case EnsureWritable(_) => s
    case Shrink(_) => s
  }

  function IdealAll(s: seq<byte>, ops: seq<Op>): seq<byte>
    decreases |ops|
  {
    if ops == [] then s else IdealAll(Ideal(s, ops[0]), ops[1..])
  }

  /** No `shrink` in the run copies 2^31 bytes or more. */
  predicate SmallShrinks(b: Buf, ops: seq<Op>)
    requires b.Valid() && AllowedAll(b, ops)
    decreases |ops|
  {
    ops == [] ||
    ((ops[0].Shrink? ==> |b.content| < TWO_31) && SmallShrinks(Apply(b, ops[0]), ops[1..]))
  }

  /** `shrink` keeps the content exactly below 2^31 bytes, and then its layout is exact. */
  lemma ShrinkExact(b: Buf, reserve: nat)
    requires b.Valid()
    ensures |b.content| < 0x8000_0000 <==> b.Shrinkable() && b.Shrink(reserve).content == b.content
    ensures |b.content| < 0x8000_0000 ==>
              var s := b.Shrink(reserve);
              s.reader == 8 && reserve <= s.Writable() && s.size == 8 + Max(1024, |b.content| + reserve)
  {
  }

  /** Over every run, whether calls grow, compact or reset, the content is that of the plain sequence. */
  lemma {:induction false} RefinesSequence(b: Buf, ops: seq<Op>)
    requires b.Valid() && AllowedAll(b, ops) && SmallShrinks(b, ops)
    ensures ApplyAll(b, ops).content == IdealAll(b.content, ops)
    decreases |ops|
  {
    if ops != [] {
      if ops[0].Shrink? { ShrinkExact(b, ops[0].reserve); }
      RefinesSequence(Apply(b, ops[0]), ops[1..]);
    }
  }

  /** The assertion inside `makeSpace`: compaction is only reached with more than 8 bytes in front. */
  lemma CompactionGuard(b: Buf, n: nat)
    requires b.Valid() && b.Writable() < n
    ensures b.EnsureWritable(n).size == b.size ==> 8 < b.reader && b.EnsureWritable(n).reader == 8
    ensures b.EnsureWritable(n).size == b.size <==> n + 8 <= b.size - |b.content|
    ensures b.EnsureWritable(n).size != b.size ==>
              b.EnsureWritable(n).size == b.Writer() + n && b.EnsureWritable(n).reader == b.reader
  {
  }

  /** The layout of a new buffer, and of any buffer once it has been drained. */
  lemma DrainedLayout(b: Buf, initialSize: nat)
    requires b.Valid()
    ensures Empty(initialSize) == Buf(8 + initialSize, 8, [])
    ensures Empty(INITIAL_SIZE) == Buf(1032, 8, [])
    ensures b.Retrieve(|b.content|) == Buf(b.size, 8, [])
  {
  }

  /** So an integer of up to 8 bytes can always be put in front of a drained buffer, and is read back. */
  lemma DrainedPrepends(b: Buf, x: int, width: nat)
    requires b.Valid() && 0 < width <= 8 && Fits(x, width)
    ensures var drained := b.Retrieve(|b.content|);
            && Allowed(drained, Prepend(BigEndian(x, width)))
            && Apply(drained, Prepend(BigEndian(x, width))) == Buf(b.size, 8 - width, BigEndian(x, width))
            && PeekInt(Apply(drained, Prepend(BigEndian(x, width))).content, width) == x
  {
    var drained := b.Retrieve(|b.content|);
    DrainedLayout(b, 0);
    PrependThenRead(drained, x, width);
    assert BigEndian(x, width) + [] == BigEndian(x, width);
  }

  // ---- Memory ----

  /** Appends of at most `n` bytes, made only while at most `limit` bytes are readable; no other growth. */
  predicate Bounded(b: Buf, ops: seq<Op>, n: nat, limit: nat)
    requires b.Valid() && AllowedAll(b, ops)
    decreases |ops|
  {
    ops == [] ||
    (match ops[0] {
       case Append(bytes) => |bytes| <= n && |b.content| <= limit
       case EnsureWritable(k) => k <= n && |b.content| <= limit
       case Shrink(_) => false
       case _ => true
     } && Bounded(Apply(b, ops[0]), ops[1..], n, limit))
  }

  function Max(x: nat, y: nat): nat {
    if x < y then y else x
  }

  lemma GrowthBound(b: Buf, n: nat)
    requires b.Valid()
    ensures b.size <= b.EnsureWritable(n).size <= Max(b.size, |b.content| + 2 * n + 7)
  {
  }

  /** The array never outgrows its initial size or what one append at the limit can ask for. */
  lemma {:induction false} MemoryBound(b: Buf, ops: seq<Op>, n: nat, limit: nat)
    requires b.Valid() && AllowedAll(b, ops) && Bounded(b, ops, n, limit)
    ensures ApplyAll(b, ops).size <= Max(b.size, limit + 2 * n + 7)
    decreases |ops|
  {
    if ops != [] {
      match ops[0] {
        case Append(bytes) => GrowthBound(b, |bytes|);
        case EnsureWritable(k) => GrowthBound(b, k);
        case _ =>
      }
      MemoryBound(Apply(b, ops[0]), ops[1..], n, limit);
    }
  }

  // ---- Integers in the buffer ----

  /** What `peekIntN` returns on this content. */
  function PeekInt(content: seq<byte>, width: nat): int
    requires width <= |content|
  {
    ToSigned(FromBigEndian(content[..width]), width)
  }

  /** The value read has exactly the bytes it was read from. */
  lemma PeekedBytes(content: seq<byte>, width: nat)
    requires 0 < width <= |content|
    ensures BigEndian(PeekInt(content, width), width) == content[..width]
    ensures Fits(PeekInt(content, width), width)
  {
    BigEndianOfSigned(FromBigEndian(content[..width]), width);
    BigEndianInverse(content[..width]);
    SignedFits(FromBigEndian(content[..width]), width);
  }

  /** Prepend then read gives the value back and leaves every other byte as it was. */
  lemma PrependThenRead(b: Buf, x: int, width: nat)
    requires b.Valid() && 0 < width <= b.reader && Fits(x, width)
    ensures var p := b.Prepend(BigEndian(x, width));
            && PeekInt(p.content, width) == x
            && p.Retrieve(width).content == b.content
  {
    var p := b.Prepend(BigEndian(x, width));
    assert p.content[..width] == BigEndian(x, width);
    SignedRoundTrip(x, width);
    assert p.content[width..] == b.content;
  }

  /** Append, then read everything before it: the value is next, and nothing follows. */
  lemma AppendThenRead(b: Buf, x: int, width: nat)
    requires b.Valid() && 0 < width && Fits(x, width)
    ensures var a := b.Append(BigEndian(x, width));
            && a.content[..|b.content|] == b.content
            && PeekInt(a.Retrieve(|b.content|).content, width) == x
            && a.Retrieve(|b.content|).Retrieve(width).content == []
  {
    var rest := b.Append(BigEndian(x, width)).Retrieve(|b.content|);
    assert rest.content == BigEndian(x, width);
    assert rest.content[..width] == BigEndian(x, width);
    SignedRoundTrip(x, width);
  }
}
