/** The codec: an input buffer decoded in place and a growing list of output buffers. */
module Codec {
  import opened Bytes
  import opened Adler32
  import opened BufferSpec
  import opened BufferClass
  import opened Framing
  import DecoderSpec
  import PoolSpec

  class BufferValue {
    var valid: bool
    const buffer: Buffer

    constructor ()
      ensures valid && fresh(buffer) && fresh(buffer.data)
      ensures buffer.Valid() && buffer.View() == PoolSpec.NewBuf()
      ensures buffer.data.Length == 1032 && buffer.readerIndex == buffer.writerIndex == 8
    {
      valid := true;
      buffer := new Buffer(INITIAL_SIZE);
    }

    /** This entry as a value; a free one is reset. */
    ghost predicate Is(slot: PoolSpec.Slot)
      reads this, buffer, buffer.data
    {
      buffer.Valid() && slot == PoolSpec.Slot(valid, buffer.View()) && (slot.valid ==> PoolSpec.Reset(slot.buf))
    }
  }

  class RpcCodec {
    const inputBuffer: Buffer
    var outputBuffers: seq<BufferValue>
    /** The calls made to `rpcCallback_`, oldest first. */
    var callbacks: seq<Event>

    /** The pool as a value; `Valid` ties it to the list. */
    ghost var pool: seq<PoolSpec.Slot>

    ghost function Buffers(): set<Buffer>
      reads this
    {
      set e <- outputBuffers :: e.buffer
    }

    ghost function Arrays(): set<array<byte>>
      reads this, Buffers()
    {
      set b <- Buffers() :: b.data
    }

    /** No two buffers share memory. */
    ghost predicate Separate()
      reads this, inputBuffer, outputBuffers, Buffers()
    {
      && (forall i :: 0 <= i < |outputBuffers| ==>
            outputBuffers[i].buffer != inputBuffer && outputBuffers[i].buffer.data != inputBuffer.data)
      && (forall i, j :: 0 <= i < j < |outputBuffers| ==>
            outputBuffers[i] != outputBuffers[j] && outputBuffers[i].buffer != outputBuffers[j].buffer
            && outputBuffers[i].buffer.data != outputBuffers[j].buffer.data)
    }

    ghost predicate Valid()
      reads this, inputBuffer, outputBuffers, Buffers(), Arrays()
    {
      && inputBuffer.Valid()
      && Separate()
      && |pool| == |outputBuffers|
      && (forall i :: 0 <= i < |pool| ==> outputBuffers[i].Is(pool[i]))
    }

    constructor ()
      ensures Valid() && fresh(inputBuffer) && fresh(inputBuffer.data)
      ensures inputBuffer.View() == Empty(INITIAL_SIZE) && callbacks == []
      ensures inputBuffer.data.Length == 1032 && inputBuffer.readerIndex == inputBuffer.writerIndex == 8
      ensures pool == [PoolSpec.Slot(true, PoolSpec.NewBuf())]
    {
      inputBuffer := new Buffer(INITIAL_SIZE);
      var first := new BufferValue();
      outputBuffers := [first];
      callbacks := [];
      pool := [PoolSpec.Slot(true, PoolSpec.NewBuf())];
    }

    /** `validate_checksum` on the `len` bytes at the reader index. */
    method ValidateChecksum(len: nat) returns (ok: bool)
      requires inputBuffer.Valid() && CHECKSUM_SIZE <= len <= inputBuffer.ReadableBytes()
      ensures ok == ChecksumOk(inputBuffer.View().content[..len])
      ensures var s := inputBuffer.View().content;
              ok <==> IsChecksum(s[..len - 4], s[len - 4..len])
    {
      hide Buffer.View, Adler, FromBigEndian, ToInt32;
      var payload := inputBuffer.PeekFront(len);
      var n := len - CHECKSUM_SIZE;
      ok := ToInt32(Adler(payload[..n])) == ToInt32(FromBigEndian(payload[n..]));
      ChecksumExact(payload[..n], payload[n..]);
      assert inputBuffer.View().content[..n] == payload[..n] && inputBuffer.View().content[n..len] == payload[n..];
    }

    /** The body of the decode loop, for a frame of length `len` that has arrived in full. */
    method DecodeFrame(len: nat)
      requires inputBuffer.Valid() && CHECKSUM_SIZE <= len && LENGTH_SIZE + len <= inputBuffer.ReadableBytes()
      modifies inputBuffer`readerIndex, inputBuffer`writerIndex, this`callbacks
      ensures inputBuffer.Valid()
      ensures inputBuffer.View() == old(inputBuffer.View()).Retrieve(LENGTH_SIZE).Retrieve(len)
      ensures callbacks == old(callbacks) + [Judge(old(inputBuffer.View()).content[LENGTH_SIZE..LENGTH_SIZE + len])]
    {
      hide ChecksumOk, Buffer.View;
      ghost var payload := inputBuffer.View().content[LENGTH_SIZE..LENGTH_SIZE + len];
      inputBuffer.Retrieve(LENGTH_SIZE);
      assert inputBuffer.View().content[..len] == payload;
      var validate := ValidateChecksum(len);
      if !validate {
        callbacks := callbacks + [ChecksumError];
      } else {
        var body := inputBuffer.PeekFront(len - CHECKSUM_SIZE);
        assert body == payload[..len - CHECKSUM_SIZE];
        callbacks := callbacks + [Message(body)];
      }
      inputBuffer.Retrieve(len);
    }

    /** The loop of `on_read`. */
    method DecodeFrames()
      requires inputBuffer.Valid() && !Parse(inputBuffer.View().content).undefined
      modifies inputBuffer`readerIndex, inputBuffer`writerIndex, this`callbacks
      ensures inputBuffer.Valid() && inputBuffer.View() == DecoderSpec.Drain(old(inputBuffer.View()))
      ensures callbacks == old(callbacks) + Parse(old(inputBuffer.View()).content).events
    {
      hide LookAt, HeaderLen, Judge, Parse, DecoderSpec.Drain, Buffer.View, Buf.Retrieve;
      ghost var whole := inputBuffer.View();
      while inputBuffer.ReadableBytes() >= MIN_MESSAGE_LEN
        invariant inputBuffer.Valid()
        invariant DecoderSpec.Drain(inputBuffer.View()) == DecoderSpec.Drain(whole)
        invariant !Parse(inputBuffer.View().content).undefined
        invariant callbacks + Parse(inputBuffer.View().content).events == old(callbacks) + Parse(whole.content).events
        decreases inputBuffer.ReadableBytes()
      {
        ghost var before := inputBuffer.View();
        var len := inputBuffer.PeekInt(LENGTH_SIZE);
        DecoderSpec.PeekedLength(before.content);
        DecoderSpec.LoopTurn(before);
        DecoderSpec.LoopTests(before.content);
        if inputBuffer.ReadableBytes() >= (LENGTH_SIZE + len) % TWO_64 {
          DecodeFrame(len);
        } else {
          break;
        }
      }
      DecoderSpec.ShortWaits(inputBuffer.View().content);
      DecoderSpec.LoopTurn(inputBuffer.View());
    }

    /** Decodes every frame that is complete, calling back once for each. */
    method OnRead(bytes: nat, readBuffer: seq<byte>)
      requires Valid() && bytes <= |readBuffer|
      requires !Parse(inputBuffer.View().content + readBuffer[..bytes]).undefined
      modifies inputBuffer, inputBuffer.data, this`callbacks
      ensures Valid() && (inputBuffer.data == old(inputBuffer.data) || fresh(inputBuffer.data))
      ensures inputBuffer.View() == DecoderSpec.OnRead(old(inputBuffer.View()), readBuffer[..bytes])
      ensures callbacks == old(callbacks) + Parse(old(inputBuffer.View()).content + readBuffer[..bytes]).events
      ensures inputBuffer.View().content == Parse(old(inputBuffer.View()).content + readBuffer[..bytes]).rest
    {
      hide Parse, DecoderSpec.Drain, Buffer.View;
      inputBuffer.Append(readBuffer[..bytes]);
      DecoderSpec.DrainIsParse(inputBuffer.View());
      DecodeFrames();
    }

    /** The critical section of `send_rpc_msg`: the first free entry, or a new one at the end of the list. */
    method AcquireBuffer() returns (entry: nat)
      requires Valid()
      modifies this`outputBuffers, this`pool, outputBuffers
      ensures Valid() && pool == PoolSpec.Acquire(old(pool))
      ensures entry == PoolSpec.FirstFree(old(pool)) < |outputBuffers|
      ensures !pool[entry].valid && PoolSpec.Reset(pool[entry].buf)
      ensures old(outputBuffers) <= outputBuffers
      ensures forall k :: old(|outputBuffers|) <= k < |outputBuffers| ==>
                fresh(outputBuffers[k]) && fresh(outputBuffers[k].buffer) && fresh(outputBuffers[k].buffer.data)
    {
      hide Buffer.View;
      entry := FindFree();
      if entry < |outputBuffers| {
        SetValid(entry, false);
      } else {
        AddEntry();
      }
    }

    /** The scan for an entry whose flag is set; the list length when there is none. */
    method FindFree() returns (entry: nat)
      requires Valid()
      ensures entry == PoolSpec.FirstFree(pool)
    {
      entry := 0;
      while entry < |outputBuffers|
        invariant entry <= |outputBuffers|
        invariant PoolSpec.FirstFree(pool) == entry + PoolSpec.FirstFree(pool[entry..])
      {
        PoolSpec.FirstFreeStep(pool[entry..]);
        assert pool[entry..][1..] == pool[entry + 1..];
        if outputBuffers[entry].valid {
          return;
        }
        entry := entry + 1;
      }
    }

    method SetValid(entry: nat, valid: bool)
      requires Valid() && entry < |outputBuffers|
      requires valid ==> PoolSpec.Reset(pool[entry].buf)
      modifies this`pool, outputBuffers[entry]
      ensures Valid() && pool == old(pool)[entry := old(pool)[entry].(valid := valid)]
    {
      hide Buffer.View;
      outputBuffers[entry].valid := valid;
      pool := pool[entry := pool[entry].(valid := valid)];
    }

    lemma OthersApart(entry: nat)
      requires Separate() && entry < |outputBuffers|
      ensures forall i :: 0 <= i < |outputBuffers| && i != entry ==>
                outputBuffers[i].buffer != outputBuffers[entry].buffer
                && outputBuffers[i].buffer.data != outputBuffers[entry].buffer.data
    {
    }

    /** `retrieve` on the buffer of one entry. */
    method RetrieveFrom(entry: nat, bytes: nat)
      requires Valid() && entry < |outputBuffers| && !pool[entry].valid && bytes <= |pool[entry].buf.content|
      modifies this`pool, outputBuffers[entry].buffer
      ensures Valid()
      ensures pool == old(pool)[entry := old(pool)[entry].(buf := old(pool)[entry].buf.Retrieve(bytes))]
      ensures outputBuffers[entry].buffer.data == old(outputBuffers[entry].buffer.data)
    {
      hide BufferValue.Is, Buf.Retrieve;
      OthersApart(entry);
      RetrieveOne(outputBuffers[entry], pool[entry], bytes);
      pool := pool[entry := pool[entry].(buf := pool[entry].buf.Retrieve(bytes))];
    }

    static method RetrieveOne(value: BufferValue, ghost slot: PoolSpec.Slot, bytes: nat)
      requires value.Is(slot) && !slot.valid && bytes <= |slot.buf.content|
      modifies value.buffer`readerIndex, value.buffer`writerIndex
      ensures value.Is(slot.(buf := slot.buf.Retrieve(bytes)))
    {
      hide Buffer.View, Buf.Retrieve;
      value.buffer.Retrieve(bytes);
    }

    /** `emplace_back`, already taken. */
    method AddEntry()
      requires Valid()
      modifies this`outputBuffers, this`pool
      ensures Valid() && pool == old(pool) + [PoolSpec.Slot(false, PoolSpec.NewBuf())]
      ensures |outputBuffers| == |old(outputBuffers)| + 1 && old(outputBuffers) <= outputBuffers
      ensures var added := outputBuffers[|old(outputBuffers)|];
              fresh(added) && fresh(added.buffer) && fresh(added.buffer.data)
    {
      hide Buffer.View;
      var added := new BufferValue();
      added.valid := false;
      outputBuffers := outputBuffers + [added];
      pool := pool + [PoolSpec.Slot(false, PoolSpec.NewBuf())];
    }

    /**
     The rest of `send_rpc_msg`, outside the lock: frame the message in the acquired buffer.
     The result is what `async_write_some` is given. Only this entry's buffer is touched.
     */
    method FillBuffer(entry: nat, body: seq<byte>) returns (request: seq<byte>)
      requires Valid() && entry < |outputBuffers| && !pool[entry].valid
      requires PoolSpec.HasPrependRoom(pool[entry].buf, body)
      modifies this`pool, outputBuffers[entry].buffer, outputBuffers[entry].buffer.data
      ensures Valid()
      ensures pool == old(pool)[entry := PoolSpec.Slot(false, PoolSpec.Fill(old(pool)[entry].buf, body))]
      ensures request == pool[entry].buf.content
      ensures var data := outputBuffers[entry].buffer.data; data == old(outputBuffers[entry].buffer.data) || fresh(data)
    {
      hide PoolSpec.Fill, PoolSpec.HasPrependRoom, BufferValue.Is;
      OthersApart(entry);
      request := FillOne(outputBuffers[entry], pool[entry], body);
      pool := pool[entry := PoolSpec.Slot(false, PoolSpec.Fill(pool[entry].buf, body))];
    }

    static method FillOne(value: BufferValue, ghost slot: PoolSpec.Slot, body: seq<byte>) returns (request: seq<byte>)
      requires value.Is(slot) && !slot.valid && PoolSpec.HasPrependRoom(slot.buf, body)
      modifies value.buffer, value.buffer.data
      ensures value.Is(PoolSpec.Slot(false, PoolSpec.Fill(slot.buf, body)))
      ensures request == PoolSpec.Fill(slot.buf, body).content
      ensures value.buffer.data == old(value.buffer.data) || fresh(value.buffer.data)
    {
      hide PoolSpec.Fill, PoolSpec.HasPrependRoom, Buffer.View;
      FrameInto(value.buffer, body);
      request := value.buffer.Peek();
    }

    /** Serialize, append the checksum, put the length in front. */
    static method FrameInto(buffer: Buffer, body: seq<byte>)
      requires buffer.Valid() && PoolSpec.HasPrependRoom(buffer.View(), body)
      modifies buffer, buffer.data
      ensures buffer.Valid() && buffer.View() == PoolSpec.Fill(old(buffer.View()), body)
      ensures buffer.data == old(buffer.data) || fresh(buffer.data)
    {
      hide Adler, BigEndian, ToInt32, Buffer.View, Buf.Append, Buf.Prepend;
      buffer.Append(body);
      var readable := buffer.Peek();
      var checksum := ToInt32(Adler(readable));
      Int32Fits(checksum);
      WordInjective(Adler(readable), checksum);
      buffer.AppendInt(checksum, CHECKSUM_SIZE);
      var len := ToInt32(|body| + CHECKSUM_SIZE);
      Int32Fits(len);
      WordInjective(|body| + CHECKSUM_SIZE, len);
      buffer.PrependInt(len, LENGTH_SIZE);
    }

    /** The whole of `send_rpc_msg`: whatever entry it gets, the socket is given exactly the message's frame. */
    method SendRpcMsg(body: seq<byte>) returns (entry: nat, request: seq<byte>)
      requires Valid()
      modifies this`outputBuffers, this`pool, outputBuffers, Buffers(), Arrays()
      ensures Valid() && entry == PoolSpec.FirstFree(old(pool)) < |pool|
      ensures request == Frame(body) == pool[entry].buf.content
      ensures IsFrame(request, body) && outputBuffers[entry].buffer.readerIndex == 4
      ensures !pool[entry].valid && pool == PoolSpec.Acquire(old(pool))[entry := pool[entry]]
    {
      entry := AcquireBuffer();
      PoolSpec.FillFresh(pool[entry].buf, body);
      request := FillBuffer(entry, body);
      FrameExact(body, request);
      assert outputBuffers[entry].Is(pool[entry]);
    }

    /**
     Completion of a write of `bytes` bytes: `again` says the rest is written next.
     After an error nothing is retrieved and the entry stays taken.
     */
    method OnWrite(ec: bool, bytes: nat, entry: nat) returns (again: bool, request: seq<byte>)
      requires Valid() && entry < |outputBuffers| && !pool[entry].valid
      requires !ec ==> bytes <= |pool[entry].buf.content|
      modifies this`pool, outputBuffers[entry], outputBuffers[entry].buffer
      ensures Valid()
      ensures pool == if ec then old(pool) else old(pool)[entry := PoolSpec.Written(old(pool)[entry], bytes)]
      ensures !ec ==>
                && pool[entry].buf.content == old(pool)[entry].buf.content[bytes..]
                && (pool[entry].valid <==> pool[entry].buf.content == [])
                && forall i :: 0 <= i < |pool| && i != entry ==> pool[i] == old(pool)[i]
      ensures again <==> !ec && pool[entry].buf.content != []
      ensures again ==> request == pool[entry].buf.content
      ensures outputBuffers[entry].buffer.data == old(outputBuffers[entry].buffer.data)
    {
      again, request := false, [];
      if ec {
        return;
      }
      var buffer := outputBuffers[entry].buffer;
      RetrieveFrom(entry, bytes);
      if buffer.ReadableBytes() > 0 {
        again := true;
        request := buffer.Peek();
      } else if buffer.ReadableBytes() == 0 {
        SetValid(entry, true);
      }
    }
  }
}
