/** The growable byte buffer: an array with a reader and a writer index, updated in place. */
module BufferClass {
  import opened Bytes
  import opened BufferSpec

  class Buffer {
    var data: array<byte>
    var readerIndex: nat
    var writerIndex: nat

    ghost predicate Valid()
      reads this
    {
      CHEAP_PREPEND <= data.Length && readerIndex <= writerIndex <= data.Length
    }

    ghost function View(): (b: Buf)
      reads this, data
      requires Valid()
      ensures b.Valid() && b.size == data.Length && b.reader == readerIndex && b.Writer() == writerIndex
    {
      Buf(data.Length, readerIndex, data[readerIndex..writerIndex])
    }

    constructor (initialSize: nat)
      ensures Valid() && fresh(data)
      ensures View() == Empty(initialSize)
      ensures data.Length == 8 + initialSize && readerIndex == writerIndex == 8
    {
      data := new byte[CHEAP_PREPEND + initialSize](_ => 0);
      readerIndex := CHEAP_PREPEND;
      writerIndex := CHEAP_PREPEND;
    }

    function ReadableBytes(): (n: nat)
      reads this, data
      requires Valid()
      ensures n == |View().content|
    {
      writerIndex - readerIndex
    }

    function WritableBytes(): (n: nat)
      reads this, data
      requires Valid()
      ensures n == View().Writable()
    {
      data.Length - writerIndex
    }

    function PrependableBytes(): nat
      reads this
    {
      readerIndex
    }

    method Retrieve(len: nat)
      requires Valid() && len <= ReadableBytes()
      modifies this`readerIndex, this`writerIndex
      ensures Valid() && View() == old(View()).Retrieve(len)
      ensures View().content == old(View()).content[len..]
      ensures if len < old(ReadableBytes())
              then readerIndex == old(readerIndex) + len && writerIndex == old(writerIndex)
              else readerIndex == writerIndex == 8
    {
      if len < ReadableBytes() {
        readerIndex := readerIndex + len;
      } else {
        RetrieveAll();
      }
    }

    method RetrieveAll()
      requires Valid()
      modifies this`readerIndex, this`writerIndex
      ensures Valid() && View() == old(View()).Retrieve(old(ReadableBytes()))
      ensures readerIndex == writerIndex == 8
    {
      readerIndex := CHEAP_PREPEND;
      writerIndex := CHEAP_PREPEND;
    }

    /** The readable bytes, which the source passes on as `peek()` and `readableBytes()`. */
    method Peek() returns (s: seq<byte>)
      requires Valid()
      ensures s == View().content
    {
      s := data[readerIndex..writerIndex];
    }

    /** The first `len` readable bytes. */
    method PeekFront(len: nat) returns (s: seq<byte>)
      requires Valid() && len <= ReadableBytes()
      ensures s == View().content[..len]
    {
      s := data[readerIndex..readerIndex + len];
    }

    method RetrieveAsString(len: nat) returns (s: seq<byte>)
      requires Valid() && len <= ReadableBytes()
      modifies this`readerIndex, this`writerIndex
      ensures Valid() && View() == old(View()).Retrieve(len)
      ensures s + View().content == old(View()).content && |s| == len
    {
      s := data[readerIndex..readerIndex + len];
      ghost var content := View().content;
      assert s == content[..len];
      assert content == content[..len] + content[len..];
      Retrieve(len);
    }

    /** Makes room for `len` more bytes: a larger array, or the readable bytes moved to the front. */
    method MakeSpace(len: nat)
      requires Valid() && WritableBytes() < len
      modifies this, data
      ensures Valid() && (data == old(data) || fresh(data))
      ensures View() == old(View()).EnsureWritable(len)
    {
      if WritableBytes() + PrependableBytes() < len + CHEAP_PREPEND {
        Resize(writerIndex + len);
        assert data[readerIndex..writerIndex] == data[..old(data.Length)][readerIndex..writerIndex];
      } else {
        assert CHEAP_PREPEND < readerIndex;
        var readable := ReadableBytes();
        MoveToFront(readable);
        readerIndex := CHEAP_PREPEND;
        writerIndex := readerIndex + readable;
      }
    }

    /** `std::vector::resize` to a larger size: the old bytes stay, the new ones are zero. */
    method Resize(size: nat)
      requires data.Length <= size
      modifies this`data
      ensures fresh(data) && data.Length == size
      ensures data[..old(data.Length)] == old(data[..])
    {
      var bigger := new byte[size](_ => 0);
      forall i | 0 <= i < data.Length {
        bigger[i] := data[i];
      }
      data := bigger;
    }

    /** The forward copy of `makeSpace`; source and target may overlap. */
    method MoveToFront(readable: nat)
      requires Valid() && CHEAP_PREPEND < readerIndex && readable == ReadableBytes()
      modifies data
      ensures data[CHEAP_PREPEND..CHEAP_PREPEND + readable] == old(data[readerIndex..writerIndex])
    {
      var i := 0;
      while i < readable
        invariant 0 <= i <= readable
        invariant forall k {:trigger data[k]} :: CHEAP_PREPEND <= k < CHEAP_PREPEND + i ==>
                    data[k] == old(data[k + readerIndex - CHEAP_PREPEND])
        invariant forall k :: CHEAP_PREPEND + i <= k < data.Length ==> data[k] == old(data[k])
      {
        data[CHEAP_PREPEND + i] := data[readerIndex + i];
        i := i + 1;
      }
    }

    method EnsureWritableBytes(len: nat)
      requires Valid()
      modifies this, data
      ensures Valid() && (data == old(data) || fresh(data))
      ensures View() == old(View()).EnsureWritable(len)
      ensures len <= WritableBytes() && View().content == old(View()).content
    {
      if WritableBytes() < len {
        MakeSpace(len);
      }
    }

    /** `std::copy` of outside bytes to position `at`. */
    method CopyIn(at: nat, bytes: seq<byte>)
      requires at + |bytes| <= data.Length
      modifies data
      ensures data[at..at + |bytes|] == bytes
      ensures data[..at] == old(data[..at])
      ensures data[at + |bytes|..] == old(data[at + |bytes|..])
    {
      var i := 0;
      while i < |bytes|
        invariant 0 <= i <= |bytes|
        invariant forall k :: 0 <= k < i ==> data[at + k] == bytes[k]
        invariant forall k :: 0 <= k < data.Length && !(at <= k < at + i) ==> data[k] == old(data[k])
      {
        data[at + i] := bytes[i];
        i := i + 1;
      }
    }

    method HasWritten(len: nat)
      requires Valid() && len <= WritableBytes()
      modifies this`writerIndex
      ensures Valid() && writerIndex == old(writerIndex) + len
    {
      writerIndex := writerIndex + len;
    }

    method Unwrite(len: nat)
      requires Valid() && len <= ReadableBytes()
      modifies this`writerIndex
      ensures Valid() && View() == old(View()).Unwrite(len)
      ensures View().content == old(View()).content[..old(ReadableBytes()) - len]
    {
      writerIndex := writerIndex - len;
    }

    /** The readable bytes, cut at an index of the array. */
    lemma ContentSplit(middle: nat)
      requires Valid() && readerIndex <= middle <= writerIndex
      ensures View().content == data[readerIndex..middle] + data[middle..writerIndex]
      ensures data[readerIndex..middle] == data[..middle][readerIndex..]
      ensures data[middle..writerIndex] == data[middle..][..writerIndex - middle]
    {
    }

    method Append(bytes: seq<byte>)
      requires Valid()
      modifies this, data
      ensures Valid() && (data == old(data) || fresh(data))
      ensures View() == old(View()).Append(bytes)
      ensures View().content == old(View()).content + bytes
    {
      EnsureWritableBytes(|bytes|);
      WriteAtEnd(bytes);
    }

    /** The copy of `append`, once there is room. */
    method WriteAtEnd(bytes: seq<byte>)
      requires Valid() && |bytes| <= WritableBytes()
      modifies this`writerIndex, data
      ensures Valid() && View() == old(View().(content := View().content + bytes))
    {
      ghost var before, middle := View(), writerIndex;
      assert before.content == data[..middle][readerIndex..];
      CopyIn(writerIndex, bytes);
      HasWritten(|bytes|);
      assert before.content == data[..middle][readerIndex..];
      ContentSplit(middle);
    }

    method Prepend(bytes: seq<byte>)
      requires Valid() && |bytes| <= PrependableBytes()
      modifies this`readerIndex, data
      ensures Valid() && View() == old(View()).Prepend(bytes)
      ensures View().content == bytes + old(View()).content && readerIndex == old(readerIndex) - |bytes|
    {
      ghost var before := View();
      readerIndex := readerIndex - |bytes|;
      CopyIn(readerIndex, bytes);
      ContentSplit(readerIndex + |bytes|);
      assert before.content == data[readerIndex + |bytes|..][..|before.content|];
    }

    /** `appendInt8/16/32/64`, by width in bytes. */
    method AppendInt(x: int, width: nat)
      requires Valid() && Fits(x, width)
      modifies this, data
      ensures Valid() && (data == old(data) || fresh(data))
      ensures View() == old(View()).Append(BigEndian(x, width))
      ensures View().content == old(View()).content + BigEndian(x, width)
    {
      Append(BigEndian(x, width));
    }

    /** `prependInt8/16/32/64`. */
    method PrependInt(x: int, width: nat)
      requires Valid() && Fits(x, width) && width <= PrependableBytes()
      modifies this`readerIndex, data
      ensures Valid() && View() == old(View()).Prepend(BigEndian(x, width))
      ensures View().content == BigEndian(x, width) + old(View()).content
    {
      Prepend(BigEndian(x, width));
    }

    /** `peekInt8/16/32/64`. */
    method PeekInt(width: nat) returns (x: int)
      requires Valid() && 0 < width <= ReadableBytes()
      ensures x == BufferSpec.PeekInt(View().content, width)
      ensures Fits(x, width) && BigEndian(x, width) == View().content[..width]
    {
      PeekedBytes(View().content, width);
      var be := data[readerIndex..readerIndex + width];
      assert be == View().content[..width];
      x := ToSigned(FromBigEndian(be), width);
    }

    /** `readInt8/16/32/64`. */
    method ReadInt(width: nat) returns (x: int)
      requires Valid() && 0 < width <= ReadableBytes()
      modifies this`readerIndex, this`writerIndex
      ensures Valid() && View() == old(View()).Retrieve(width)
      ensures BigEndian(x, width) + View().content == old(View()).content
    {
      ghost var content := View().content;
      x := PeekInt(width);
      PeekedBytes(content, width);
      assert content[..width] + content[width..] == content;
      Retrieve(width);
    }

    /** `std::string(peek(), static_cast<int>(readableBytes()))`; false when the string constructor throws. */
    method ToStringPiece() returns (ok: bool, s: seq<byte>)
      requires Valid()
      ensures ok == View().Shrinkable()
      ensures ok ==> s == View().content[..ToInt32(ReadableBytes())]
    {
      var n := ToInt32(ReadableBytes());
      ok, s := 0 <= n, [];
      if ok {
        s := data[readerIndex..readerIndex + n];
      }
    }

    method Swap(rhs: Buffer)
      requires Valid() && rhs.Valid()
      modifies this, rhs
      ensures Valid() && rhs.Valid()
      ensures data == old(rhs.data) && rhs.data == old(data)
      ensures View() == old(rhs.View()) && rhs.View() == old(View())
    {
      data, rhs.data := rhs.data, data;
      readerIndex, rhs.readerIndex := rhs.readerIndex, readerIndex;
      writerIndex, rhs.writerIndex := rhs.writerIndex, writerIndex;
    }

    /** False when the copy throws; the buffer is then untouched. */
    method Shrink(reserve: nat) returns (ok: bool)
      requires Valid()
      modifies this
      ensures Valid() && ok == old(View()).Shrinkable()
      ensures ok ==> fresh(data) && View() == old(View()).Shrink(reserve)
      ensures ok && old(ReadableBytes()) < 0x8000_0000 ==>
                View().content == old(View()).content &&
                readerIndex == 8 && data.Length == 8 + Max(1024, old(ReadableBytes()) + reserve)
      ensures !ok ==> data == old(data) && View() == old(View())
    {
      hide Buffer.View, Buf.Append, Buf.EnsureWritable, Empty;
      ShrinkExact(View(), reserve);
      var other := new Buffer(INITIAL_SIZE);
      other.EnsureWritableBytes(ReadableBytes() + reserve);
      var s;
      ok, s := ToStringPiece();
      if ok {
        other.Append(s);
        Swap(other);
      }
    }

    // ---- Runs ----

    method Do(op: Op)
      requires Valid() && Allowed(View(), op)
      modifies this, data
      ensures Valid() && (data == old(data) || fresh(data))
      ensures View() == BufferSpec.Apply(old(View()), op)
    {
      match op
      case Append(bytes) => Append(bytes);
      case Prepend(bytes) => Prepend(bytes);
      case Retrieve(n) => Retrieve(n);
      case Unwrite(n) => Unwrite(n);
      case EnsureWritable(n) => EnsureWritableBytes(n);
      case Shrink(reserve) =>
        var ok := Shrink(reserve);
    }

    /** Every run of operations leaves the array as the values say, with the readable bytes of a plain sequence. */
    method DoAll(ops: seq<Op>)
      requires Valid() && AllowedAll(View(), ops)
      modifies this, data
      ensures Valid() && (data == old(data) || fresh(data))
      ensures View() == ApplyAll(old(View()), ops)
      ensures SmallShrinks(old(View()), ops) ==> View().content == IdealAll(old(View()).content, ops)
    {
      ghost var before := View();
      var i := 0;
      while i < |ops|
        invariant 0 <= i <= |ops|
        invariant Valid() && (data == old(data) || fresh(data))
        invariant AllowedAll(View(), ops[i..]) && ApplyAll(View(), ops[i..]) == ApplyAll(before, ops)
      {
        Do(ops[i]);
        assert ops[i..][0] == ops[i] && ops[i..][1..] == ops[i + 1..];
        i := i + 1;
      }
      if SmallShrinks(before, ops) { RefinesSequence(before, ops); }
    }
  }
}
