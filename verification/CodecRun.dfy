/** The codec object driven through any run of sends: its list of buffers goes through the states of `Pool`. */
module CodecRun {
  import opened Bytes
  import opened BufferClass
  import opened Framing
  import opened Codec
  import Pool
  import PoolSpec

  /** The state of the sends: the codec's list, and what its methods were called with and have returned. */
  ghost function Abstract(pool: seq<PoolSpec.Slot>, phases: seq<Pool.Phase>, bodies: seq<seq<byte>>,
                          wire: seq<Pool.Chunk>): Pool.State {
    Pool.State(pool, phases, bodies, wire, false)
  }

  /** Nothing in the list is other than it was, or new. */
  twostate predicate NothingForeign(codec: RpcCodec)
    reads codec, codec.outputBuffers, codec.Buffers()
  {
    forall i :: 0 <= i < |codec.outputBuffers| ==>
      var value := codec.outputBuffers[i];
      && (value in old(codec.outputBuffers) || fresh(value))
      && (value.buffer in old(codec.Buffers()) || fresh(value.buffer))
      && (value.buffer.data in old(codec.Arrays()) || fresh(value.buffer.data))
  }

  /** What the invariant says of the entry a step is about. */
  lemma EntryFacts(s: Pool.State, step: Pool.Step)
    requires Pool.Inv(s) && Pool.Enabled(s, step) && !step.Acquire?
    ensures !s.slots[step.entry].valid
    ensures step.Fill? ==> PoolSpec.HasPrependRoom(s.slots[step.entry].buf, s.bodies[s.phases[step.entry].send])
    ensures step.Transfer? ==> step.count <= |s.slots[step.entry].buf.content|
    ensures step.Complete? ==> s.phases[step.entry].count <= |s.slots[step.entry].buf.content|
  {
    hide Frame, Pool.Out, PoolSpec.HasPrependRoom;
    var i := step.entry;
    assert Pool.EntryOk(s.slots[i], s.phases[i], s.bodies, s.wire);
    if step.Fill? {
      PoolSpec.FillFresh(s.slots[i].buf, s.bodies[s.phases[i].send]);
    }
  }

  /** The locked part of a send. The phases are set from what the codec's methods return, here and below. */
  method Acquire(codec: RpcCodec, body: seq<byte>, phases: seq<Pool.Phase>, bodies: seq<seq<byte>>,
                 wire: seq<Pool.Chunk>)
    returns (phases': seq<Pool.Phase>, bodies': seq<seq<byte>>)
    requires codec.Valid()
    requires var s := Abstract(codec.pool, phases, bodies, wire); Pool.Inv(s) && Pool.Enabled(s, Pool.Acquire(body))
    modifies codec`outputBuffers, codec`pool, codec.outputBuffers
    ensures codec.Valid() && NothingForeign(codec)
    ensures Abstract(codec.pool, phases', bodies', wire) ==
            Pool.Apply(Abstract(old(codec.pool), phases, bodies, wire), Pool.Acquire(body))
  {
    hide Pool.Inv, PoolSpec.Acquire, Buffer.View;
    var i := codec.AcquireBuffer();
    var taken := Pool.Acquired(|bodies|);
    phases' := if i < |phases| then phases[i := taken] else phases + [taken];
    bodies' := bodies + [body];
  }

  method Fill(codec: RpcCodec, i: nat, phases: seq<Pool.Phase>, bodies: seq<seq<byte>>, wire: seq<Pool.Chunk>)
    returns (phases': seq<Pool.Phase>)
    requires codec.Valid()
    requires var s := Abstract(codec.pool, phases, bodies, wire); Pool.Inv(s) && Pool.Enabled(s, Pool.Fill(i))
    modifies codec`pool, codec.Buffers(), codec.Arrays()
    ensures codec.Valid() && NothingForeign(codec)
    ensures Abstract(codec.pool, phases', bodies, wire) ==
            Pool.Apply(Abstract(old(codec.pool), phases, bodies, wire), Pool.Fill(i))
  {
    hide Pool.Inv, PoolSpec.Fill, PoolSpec.HasPrependRoom, Buffer.View;
    EntryFacts(Abstract(codec.pool, phases, bodies, wire), Pool.Fill(i));
    var request := codec.FillBuffer(i, bodies[phases[i].send]);
    phases' := phases[i := Pool.Writing(phases[i].send, request)];
  }

  method Complete(codec: RpcCodec, i: nat, phases: seq<Pool.Phase>, bodies: seq<seq<byte>>, wire: seq<Pool.Chunk>)
    returns (phases': seq<Pool.Phase>)
    requires codec.Valid()
    requires var s := Abstract(codec.pool, phases, bodies, wire); Pool.Inv(s) && Pool.Enabled(s, Pool.Complete(i))
    modifies codec`pool, codec.outputBuffers, codec.Buffers()
    ensures codec.Valid() && NothingForeign(codec)
    ensures Abstract(codec.pool, phases', bodies, wire) ==
            Pool.Apply(Abstract(old(codec.pool), phases, bodies, wire), Pool.Complete(i))
  {
    hide Pool.Inv, Buffer.View;
    EntryFacts(Abstract(codec.pool, phases, bodies, wire), Pool.Complete(i));
    var again, request := codec.OnWrite(false, phases[i].count, i);
    phases' := phases[i := if again then Pool.Writing(phases[i].send, request) else Pool.Idle];
  }

  method Fail(codec: RpcCodec, i: nat, phases: seq<Pool.Phase>, bodies: seq<seq<byte>>, wire: seq<Pool.Chunk>)
    returns (phases': seq<Pool.Phase>)
    requires codec.Valid()
    requires var s := Abstract(codec.pool, phases, bodies, wire); Pool.Inv(s) && Pool.Enabled(s, Pool.Fail(i))
    modifies codec`pool, codec.outputBuffers, codec.Buffers()
    ensures codec.Valid() && NothingForeign(codec)
    ensures Abstract(codec.pool, phases', bodies, wire) ==
            Pool.Apply(Abstract(old(codec.pool), phases, bodies, wire), Pool.Fail(i))
  {
    hide Pool.Inv, Buffer.View;
    EntryFacts(Abstract(codec.pool, phases, bodies, wire), Pool.Fail(i));
    var _, _ := codec.OnWrite(true, 0, i);
    phases' := phases[i := Pool.Failed(phases[i].send, phases[i].handed)];
  }

  /** The socket takes the first `count` bytes of what it was given, from the buffer's memory as it is now. */
  method Transfer(codec: RpcCodec, i: nat, count: nat, phases: seq<Pool.Phase>, bodies: seq<seq<byte>>,
                  wire: seq<Pool.Chunk>)
    returns (phases': seq<Pool.Phase>, wire': seq<Pool.Chunk>)
    requires codec.Valid()
    requires var s := Abstract(codec.pool, phases, bodies, wire);
             Pool.Inv(s) && Pool.Enabled(s, Pool.Transfer(i, count))
    ensures Abstract(codec.pool, phases', bodies, wire') ==
            Pool.Apply(Abstract(codec.pool, phases, bodies, wire), Pool.Transfer(i, count))
    ensures NothingForeign(codec)
  {
    hide Pool.Inv;
    EntryFacts(Abstract(codec.pool, phases, bodies, wire), Pool.Transfer(i, count));
    var memory := codec.outputBuffers[i].buffer.Peek();
    phases' := phases[i := Pool.Transferred(phases[i].send, phases[i].handed, count)];
    wire' := wire + [Pool.Chunk(phases[i].send, memory[..count])];
  }

  /** One step, by the codec's own methods or, for a transfer, by the socket. */
  method Do(codec: RpcCodec, step: Pool.Step, phases: seq<Pool.Phase>, bodies: seq<seq<byte>>, wire: seq<Pool.Chunk>)
    returns (phases': seq<Pool.Phase>, bodies': seq<seq<byte>>, wire': seq<Pool.Chunk>)
    requires codec.Valid()
    requires var s := Abstract(codec.pool, phases, bodies, wire); Pool.Inv(s) && Pool.Enabled(s, step)
    modifies codec`outputBuffers, codec`pool, codec.outputBuffers, codec.Buffers(), codec.Arrays()
    ensures codec.Valid() && NothingForeign(codec)
    ensures Abstract(codec.pool, phases', bodies', wire') ==
            Pool.Apply(Abstract(old(codec.pool), phases, bodies, wire), step)
  {
    hide Pool.Inv, Pool.Apply, RpcCodec.Valid, PoolSpec.Acquire;
    phases', bodies', wire' := phases, bodies, wire;
    match step
    case Acquire(body) => phases', bodies' := Acquire(codec, body, phases, bodies, wire);
    case Fill(i) => phases' := Fill(codec, i, phases, bodies, wire);
    case Transfer(i, count) => phases', wire' := Transfer(codec, i, count, phases, bodies, wire);
    case Complete(i) => phases' := Complete(codec, i, phases, bodies, wire);
    case Fail(i) => phases' := Fail(codec, i, phases, bodies, wire);
  }

  /**
   A whole run on the object: the list of buffers, the bytes handed to the socket and the bytes it took are
   those of `Pool` at the end, so what is proved of `Pool` holds of the arrays.
   */
  method Run(codec: RpcCodec, steps: seq<Pool.Step>)
    returns (phases: seq<Pool.Phase>, bodies: seq<seq<byte>>, wire: seq<Pool.Chunk>)
    requires codec.Valid() && codec.pool == Pool.Init().slots && Pool.EnabledAll(Pool.Init(), steps)
    modifies codec`outputBuffers, codec`pool, codec.outputBuffers, codec.Buffers(), codec.Arrays()
    ensures codec.Valid()
    ensures Abstract(codec.pool, phases, bodies, wire) == Pool.ApplyAll(Pool.Init(), steps)
    ensures Pool.Inv(Abstract(codec.pool, phases, bodies, wire))
  {
    hide Pool.Inv, Pool.Apply, Pool.Enabled, RpcCodec.Valid;
    phases, bodies, wire := [Pool.Idle], [], [];
    Pool.InvInit();
    var n := 0;
    while n < |steps|
      invariant 0 <= n <= |steps|
      invariant codec.Valid() && NothingForeign(codec)
      invariant Pool.Inv(Abstract(codec.pool, phases, bodies, wire))
      invariant Pool.EnabledAll(Abstract(codec.pool, phases, bodies, wire), steps[n..])
      invariant Pool.ApplyAll(Abstract(codec.pool, phases, bodies, wire), steps[n..]) ==
                Pool.ApplyAll(Pool.Init(), steps)
    {
      assert steps[n..][0] == steps[n] && steps[n..][1..] == steps[n + 1..];
      Pool.InvStep(Abstract(codec.pool, phases, bodies, wire), steps[n]);
      phases, bodies, wire := Do(codec, steps[n], phases, bodies, wire);
      n := n + 1;
    }
  }
}
