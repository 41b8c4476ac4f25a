/** Two sends whose partial writes cut into each other: a run the code allows, and what the receiver gets. */
module Interleaving {
  import opened Bytes
  import opened Framing
  import opened Pool
  import opened Wire
  import opened EndToEnd
  import PoolSpec
  import Adler32

  /**
   Messages `x` and `y` are framed; the socket takes `i` bytes of the first frame, `j` of the second,
   the rest of the first, the rest of the second.
   */
  function Steps(x: seq<byte>, y: seq<byte>, i: nat, j: nat): (steps: seq<Step>)
    requires i < |Frame(x)| && j < |Frame(y)|
    ensures |steps| == 10
  {
    [Acquire(x), Acquire(y), Fill(0), Fill(1), Transfer(0, i), Transfer(1, j), Complete(0), Complete(1),
     Transfer(0, |Frame(x)| - i), Transfer(1, |Frame(y)| - j)]
  }

  function Chunks(x: seq<byte>, y: seq<byte>, i: nat, j: nat): (wire: seq<Chunk>)
    requires i < |Frame(x)| && j < |Frame(y)|
    ensures |wire| == 4
  {
    var f, g := Frame(x), Frame(y);
    [Chunk(0, f[..i]), Chunk(1, g[..j]), Chunk(0, f[i..]), Chunk(1, g[j..])]
  }

  /** The entry a message is framed in. */
  function Full(body: seq<byte>): (slot: PoolSpec.Slot)
    ensures !slot.valid && slot.buf.content == Frame(body)
  {
    PoolSpec.FillFresh(PoolSpec.NewBuf(), body);
    PoolSpec.Slot(false, PoolSpec.Fill(PoolSpec.NewBuf(), body))
  }

  /** The state after the first `n` steps. */
  function Stage(x: seq<byte>, y: seq<byte>, i: nat, j: nat, n: nat): State
    requires i < |Frame(x)| && j < |Frame(y)|
  {
    var f, g, w := Frame(x), Frame(y), Chunks(x, y, i, j);
    var taken, full0, full1 := PoolSpec.Slot(false, PoolSpec.NewBuf()), Full(x), Full(y);
    var rest0, rest1 := PoolSpec.Written(full0, i), PoolSpec.Written(full1, j);
    match n
    case 0 => Init()
    case 1 => State([taken], [Acquired(0)], [x], [], false)
    case 2 => State([taken, taken], [Acquired(0), Acquired(1)], [x, y], [], false)
    case 3 => State([full0, taken], [Writing(0, f), Acquired(1)], [x, y], [], false)
    case 4 => State([full0, full1], [Writing(0, f), Writing(1, g)], [x, y], [], false)
    case 5 => State([full0, full1], [Transferred(0, f, i), Writing(1, g)], [x, y], w[..1], false)
    case 6 => State([full0, full1], [Transferred(0, f, i), Transferred(1, g, j)], [x, y], w[..2], false)
    case 7 => State([rest0, full1], [Writing(0, f[i..]), Transferred(1, g, j)], [x, y], w[..2], false)
    case 8 => State([rest0, rest1], [Writing(0, f[i..]), Writing(1, g[j..])], [x, y], w[..2], false)
    case 9 => State([rest0, rest1], [Transferred(0, f[i..], |f| - i), Writing(1, g[j..])], [x, y], w[..3], false)
    case _ =>
      State([rest0, rest1], [Transferred(0, f[i..], |f| - i), Transferred(1, g[j..], |g| - j)], [x, y], w, false)
  }

  lemma FillStages(x: seq<byte>, y: seq<byte>, i: nat, j: nat, n: nat)
    requires i < |Frame(x)| && j < |Frame(y)| && n < 4
    ensures var step := Steps(x, y, i, j)[n];
            Enabled(Stage(x, y, i, j, n), step) && Apply(Stage(x, y, i, j, n), step) == Stage(x, y, i, j, n + 1)
  {
    hide Frame, PoolSpec.Fill, PoolSpec.HasPrependRoom, PoolSpec.Written, Chunks;
    PoolSpec.FillFresh(PoolSpec.NewBuf(), x);
    PoolSpec.FillFresh(PoolSpec.NewBuf(), y);
  }

  lemma TransferStages(x: seq<byte>, y: seq<byte>, i: nat, j: nat, n: nat)
    requires i < |Frame(x)| && j < |Frame(y)| && (n == 4 || n == 5 || n == 8 || n == 9)
    ensures var step := Steps(x, y, i, j)[n];
            Enabled(Stage(x, y, i, j, n), step) && Apply(Stage(x, y, i, j, n), step) == Stage(x, y, i, j, n + 1)
  {
    hide Frame, Full, PoolSpec.Fill, PoolSpec.HasPrependRoom, PoolSpec.Written, PoolSpec.Acquire;
    var f, g := Frame(x), Frame(y);
    Half(x, i);
    Half(y, j);
    assert f[i..][..|f| - i] == f[i..] && g[j..][..|g| - j] == g[j..];
  }

  lemma CompleteStages(x: seq<byte>, y: seq<byte>, i: nat, j: nat, n: nat)
    requires i < |Frame(x)| && j < |Frame(y)| && (n == 6 || n == 7)
    ensures var step := Steps(x, y, i, j)[n];
            Enabled(Stage(x, y, i, j, n), step) && Apply(Stage(x, y, i, j, n), step) == Stage(x, y, i, j, n + 1)
  {
    hide Frame, Full, PoolSpec.Fill, PoolSpec.HasPrependRoom, PoolSpec.Written, PoolSpec.Acquire;
    Half(x, i);
    Half(y, j);
  }

  lemma Half(body: seq<byte>, i: nat)
    requires i < |Frame(body)|
    ensures PoolSpec.Written(Full(body), i).buf.content == Frame(body)[i..] != []
  {
    hide Frame;
  }

  /** The run is possible, is not clean, and this is what it puts on the wire. */
  lemma {:induction false} StagesRun(x: seq<byte>, y: seq<byte>, i: nat, j: nat, n: nat)
    requires 0 < i < |Frame(x)| && 0 < j < |Frame(y)| && n <= 10
    ensures EnabledAll(Stage(x, y, i, j, n), Steps(x, y, i, j)[n..])
    ensures ApplyAll(Stage(x, y, i, j, n), Steps(x, y, i, j)[n..]) == Stage(x, y, i, j, 10)
    ensures n <= 5 ==> !CleanAll(Stage(x, y, i, j, n), Steps(x, y, i, j)[n..])
    decreases 10 - n
  {
    hide Apply, Enabled, Stage, Clean, Frame;
    if n < 10 {
      var steps := Steps(x, y, i, j);
      if n < 4 { FillStages(x, y, i, j, n); }
      else if n == 6 || n == 7 { CompleteStages(x, y, i, j, n); }
      else { TransferStages(x, y, i, j, n); }
      StagesRun(x, y, i, j, n + 1);
      assert steps[n..][0] == steps[n] && steps[n..][1..] == steps[n + 1..];
      if n == 5 { CutIn(x, y, i, j); }
    }
  }

  lemma CutIn(x: seq<byte>, y: seq<byte>, i: nat, j: nat)
    requires 0 < i < |Frame(x)| && 0 < j < |Frame(y)|
    requires Enabled(Stage(x, y, i, j, 5), Steps(x, y, i, j)[5])
    ensures !Clean(Stage(x, y, i, j, 5), Steps(x, y, i, j)[5])
  {
    hide Frame, Out, Stage, Steps, Enabled;
    var s, c := Stage(x, y, i, j, 5), Chunk(0, Frame(x)[..i]);
    StageFive(x, y, i, j);
    NothingOut();
    OutMore([], c, 0);
    assert [] + [c] == [c];
    assert Midway(s, 0);
  }

  lemma StageFive(x: seq<byte>, y: seq<byte>, i: nat, j: nat)
    requires 0 < i < |Frame(x)| && 0 < j < |Frame(y)|
    ensures var s := Stage(x, y, i, j, 5);
            && s.wire == [Chunk(0, Frame(x)[..i])] && s.bodies == [x, y]
            && 1 < |s.phases| && s.phases[1] == Writing(1, Frame(y))
    ensures Steps(x, y, i, j)[5] == Transfer(1, j)
  {
    hide Frame, PoolSpec.Written, Full;
  }

  lemma WholeRun(x: seq<byte>, y: seq<byte>, i: nat, j: nat)
    requires 0 < i < |Frame(x)| && 0 < j < |Frame(y)|
    ensures EnabledAll(Init(), Steps(x, y, i, j)) && !CleanAll(Init(), Steps(x, y, i, j))
    ensures ApplyAll(Init(), Steps(x, y, i, j)).wire == Chunks(x, y, i, j)
  {
    hide Frame, EnabledAll, ApplyAll, CleanAll;
    StagesRun(x, y, i, j, 0);
    assert Stage(x, y, i, j, 0) == Init() && Stage(x, y, i, j, 10).wire == Chunks(x, y, i, j);
    assert Steps(x, y, i, j)[0..] == Steps(x, y, i, j);
  }

  lemma ChunksOut(x: seq<byte>, y: seq<byte>, i: nat, j: nat)
    requires i < |Frame(x)| && j < |Frame(y)|
    ensures Out(Chunks(x, y, i, j), 0) == Frame(x) && Out(Chunks(x, y, i, j), 1) == Frame(y)
  {
    hide Frame, Out;
    var w := Chunks(x, y, i, j);
    FourOut(w, 0);
    FourOut(w, 1);
    assert Frame(x)[..i] + Frame(x)[i..] == Frame(x) && Frame(y)[..j] + Frame(y)[j..] == Frame(y);
  }

  lemma FourOut(w: seq<Chunk>, d: nat)
    requires |w| == 4
    ensures Out(w, d) == ((OutOf(w[0], d) + OutOf(w[1], d)) + OutOf(w[2], d)) + OutOf(w[3], d)
  {
    hide Out;
    NothingOut();
    Grown(w);
    OutMore([], w[0], d);
    OutMore([w[0]], w[1], d);
    OutMore([w[0], w[1]], w[2], d);
    OutMore([w[0], w[1], w[2]], w[3], d);
    assert [] + OutOf(w[0], d) == OutOf(w[0], d);
  }

  function OutOf(c: Chunk, d: nat): seq<byte> {
    if c.send == d then c.bytes else []
  }

  lemma Grown(w: seq<Chunk>)
    requires |w| == 4
    ensures [] + [w[0]] == [w[0]] && [w[0]] + [w[1]] == [w[0], w[1]]
    ensures [w[0], w[1]] + [w[2]] == [w[0], w[1], w[2]] && [w[0], w[1], w[2]] + [w[3]] == w
  {
  }

  lemma ChunksBytes(x: seq<byte>, y: seq<byte>, i: nat, j: nat)
    requires i < |Frame(x)| && j < |Frame(y)|
    ensures var f, g := Frame(x), Frame(y);
            WireBytes(Chunks(x, y, i, j)) == f[..i] + g[..j] + f[i..] + g[j..]
  {
    hide Frame, MarkedWire, Mark, Strip;
    var f, g, w := Frame(x), Frame(y), Chunks(x, y, i, j);
    NothingOut();
    Grown(w);
    MarkedMore([], w[0]);
    MarkedMore([w[0]], w[1]);
    MarkedMore([w[0], w[1]], w[2]);
    MarkedMore([w[0], w[1], w[2]], w[3]);
    var a, b, c, d := Mark(0, f[..i]), Mark(1, g[..j]), Mark(0, f[i..]), Mark(1, g[j..]);
    assert MarkedWire(w) == [] + a + b + c + d == a + b + c + d;
    StripConcat(a + b + c, d);
    StripConcat(a + b, c);
    StripConcat(a, b);
    StripMark(0, f[..i]);
    StripMark(1, g[..j]);
    StripMark(0, f[i..]);
    StripMark(1, g[j..]);
  }

  lemma NothingOut()
    ensures MarkedWire([]) == [] && forall d: nat :: Out([], d) == []
  {
  }

  lemma MarkedMore(wire: seq<Chunk>, c: Chunk)
    ensures MarkedWire(wire + [c]) == MarkedWire(wire) + Mark(c.send, c.bytes)
  {
    assert (wire + [c])[..|wire|] == wire;
  }

  lemma SmallHeader(x: byte, s: seq<byte>)
    requires 4 <= |s| && s[..4] == [0, 0, 0, x]
    ensures HeaderLen(s) == x
  {
    hide BigEndian, FromBigEndian;
    WordBytes(x);
    WordValue(x);
  }

  lemma EmptyFrame()
    ensures Frame([]) == [0, 0, 0, 4, 0, 0, 0, 1]
  {
    WordBytes(4);
    WordBytes(1);
    assert Adler32.Adler([]) == 1;
    assert Sealed([]) == BigEndian(1, 4);
    assert Frame([]) == BigEndian(4, 4) + BigEndian(1, 4);
  }

  lemma WordBytes(x: byte)
    ensures BigEndian(x, 4) == [0, 0, 0, x]
  {
    assert BigEndian(0, 1) == [0];
    assert BigEndian(0, 2) == [0, 0];
    assert BigEndian(0, 3) == [0, 0, 0];
  }

  /**
   Two empty messages cutting into each other: both frames are out in full, yet the receiver reports
   a checksum error and then meets a length of 1, for which its checksum reads unrelated memory.
   */
  lemma InterleavedCorrupts()
    ensures 4 < |Frame([])| && EnabledAll(Init(), Steps([], [], 4, 4))
    ensures var wire := ApplyAll(Init(), Steps([], [], 4, 4)).wire;
            && Out(wire, 0) == Out(wire, 1) == Frame([])
            && Parse(WireBytes(wire)) == Parsed([ChecksumError], [0, 0, 0, 1, 0, 0, 0, 1], true)
  {
    hide Frame, Parse, WireBytes, Out, EnabledAll, ApplyAll, CleanAll, Steps, Chunks;
    var f: seq<byte> := [0, 0, 0, 4, 0, 0, 0, 1];
    EmptyFrame();
    WholeRun([], [], 4, 4);
    ChunksOut([], [], 4, 4);
    ChunksBytes([], [], 4, 4);
    assert f[..4] + f[..4] + f[4..] + f[4..] == [0, 0, 0, 4, 0, 0, 0, 4, 0, 0, 0, 1, 0, 0, 0, 1];
    InterleavedParse();
  }

  /**
   Without the marks the condition is only sufficient: this run is not clean, but the two bytes that
   change places are equal, so the stream is that of two whole frames.
   */
  lemma UncleanYetWhole()
    ensures 8 < |Frame([255])| && 1 < |Frame([])|
    ensures var steps := Steps([255], [], 8, 1);
            && EnabledAll(Init(), steps) && !CleanAll(Init(), steps)
            && WireBytes(ApplyAll(Init(), steps).wire) == FrameAll([[255], []])
  {
    hide Frame, WireBytes, EnabledAll, ApplyAll, Steps, Chunks, CleanAll;
    var f, g: seq<byte> := [0, 0, 0, 5, 255, 1, 0, 1, 0], [0, 0, 0, 4, 0, 0, 0, 1];
    EmptyFrame();
    Frame255();
    WholeRun([255], [], 8, 1);
    ChunksBytes([255], [], 8, 1);
    assert f[..8] + g[..1] + f[8..] + g[1..] == f + g;
    assert FrameAll([[255], []]) == Frame([255]) + FrameAll([[]]) && FrameAll([[]]) == Frame([]) + FrameAll([]);
  }

  lemma Frame255()
    ensures Frame([255]) == [0, 0, 0, 5, 255, 1, 0, 1, 0]
  {
    var body: seq<byte> := [255];
    WordBytes(5);
    Sums255();
    Word255();
    assert Sealed(body) == body + [1, 0, 1, 0] by { hide BigEndian, Adler32.Sums; }
    assert Frame(body) == [0, 0, 0, 5] + Sealed(body) by { hide BigEndian, Sealed; }
  }

  lemma Sums255()
    ensures Adler32.Adler([255]) == 0x100_0100
  {
    var body: seq<byte> := [255];
    assert body[..0] == [] && Adler32.Sums([]) == (1, 0);
    assert Adler32.Sums(body) == (256, 256);
  }

  lemma Word255()
    ensures BigEndian(0x100_0100, 4) == [1, 0, 1, 0]
  {
    assert BigEndian(1, 1) == [1];
    assert BigEndian(256, 2) == [1, 0];
    assert BigEndian(0x1_0001, 3) == [1, 0, 1];
  }

  lemma InterleavedParse()
    ensures Parse([0, 0, 0, 4, 0, 0, 0, 4, 0, 0, 0, 1, 0, 0, 0, 1]) ==
            Parsed([ChecksumError], [0, 0, 0, 1, 0, 0, 0, 1], true)
  {
    hide HeaderLen, Judge;
    var s: seq<byte> := [0, 0, 0, 4, 0, 0, 0, 4, 0, 0, 0, 1, 0, 0, 0, 1];
    var rest: seq<byte> := [0, 0, 0, 1, 0, 0, 0, 1];
    SmallHeader(1, rest);
    assert Parse(rest) == Parsed([], rest, true);
    SmallHeader(4, s);
    assert s[4..8] == [0, 0, 0, 4] && s[8..] == rest;
    assert LookAt(s) == Take([0, 0, 0, 4]);
    FourIsNotOne();
  }

  lemma FourIsNotOne()
    ensures Judge([0, 0, 0, 4]) == ChecksumError
  {
    hide Judge, BigEndian;
    WordBytes(1);
    assert Adler32.Adler([]) == 1;
    ChecksumDamage([], [0, 0, 0, 4]);
    assert [] + [0, 0, 0, 4] == [0, 0, 0, 4];
  }
}
