/**
 The frame format and the decoder as a function of the bytes received.
 A frame is a big-endian int32 length, the body, and the big-endian Adler-32
 of the body; the length counts the body and the checksum.
 */
module Framing {
  import opened Bytes
  import opened Adler32

  const LENGTH_SIZE: nat := 4
  const CHECKSUM_SIZE: nat := 4
  const MIN_MESSAGE_LEN: nat := 8

  /** One call of the codec's callback: a message parsed from `body`, or a null message. */
  datatype Event = Message(body: seq<byte>) | ChecksumError

  /** What `on_read` makes of the readable bytes on one turn of its loop. */
  datatype Look =
    | Wait                // leave the loop
    | Undefined           // the length is in -4..3: the checksum would be taken over unrelated memory
    | Take(payload: seq<byte>)

  function HeaderLen(s: seq<byte>): int32
    requires LENGTH_SIZE <= |s|
  {
    ToInt32(FromBigEndian(s[..LENGTH_SIZE]))
  }

  /** `sizeof(int32_t) + len`: the sum is unsigned, so a negative length wraps. */
  function Needed(len: int32): nat {
    (LENGTH_SIZE + len) % TWO_64
  }

  function LookAt(s: seq<byte>): (l: Look)
    ensures l.Take? ==> CHECKSUM_SIZE <= |l.payload| && LENGTH_SIZE + |l.payload| <= |s|
    ensures l.Take? ==> |l.payload| == HeaderLen(s)
  {
    if |s| < MIN_MESSAGE_LEN then Wait
    else
      var len := HeaderLen(s);
      if |s| < Needed(len) then Wait
      else if len < CHECKSUM_SIZE then Undefined
      else Take(s[LENGTH_SIZE..LENGTH_SIZE + len])
  }

  /** `validate_checksum` on what follows the header. */
  predicate ChecksumOk(payload: seq<byte>)
    requires CHECKSUM_SIZE <= |payload|
  {
    var n := |payload| - CHECKSUM_SIZE;
    ToInt32(Adler(payload[..n])) == ToInt32(FromBigEndian(payload[n..]))
  }

  function Judge(payload: seq<byte>): Event
    requires CHECKSUM_SIZE <= |payload|
  {
    if ChecksumOk(payload) then Message(payload[..|payload| - CHECKSUM_SIZE]) else ChecksumError
  }

  datatype Parsed = Parsed(events: seq<Event>, rest: seq<byte>, undefined: bool)

  /** The whole loop on a byte string: the reference the incremental decoder is compared with. */
  function Parse(s: seq<byte>): (p: Parsed)
    ensures |p.rest| <= |s|
    decreases |s|
  {
    match LookAt(s)
    case Wait => Parsed([], s, false)
    case Undefined => Parsed([], s, true)
    case Take(payload) =>
      var p := Parse(s[LENGTH_SIZE + |payload|..]);
      p.(events := [Judge(payload)] + p.events)
  }

  /** One turn of the loop. */
  lemma ParseTurn(s: seq<byte>)
    ensures LookAt(s).Wait? ==> Parse(s) == Parsed([], s, false)
    ensures LookAt(s).Undefined? ==> Parse(s) == Parsed([], s, true)
    ensures LookAt(s).Take? ==>
              var payload := LookAt(s).payload;
              var p := Parse(s[LENGTH_SIZE + |payload|..]);
              Parse(s) == p.(events := [Judge(payload)] + p.events)
  {
    hide LookAt, HeaderLen, Judge;
  }

  // ---- Incremental decoding ----

  function Flatten(chunks: seq<seq<byte>>): seq<byte> {
    if chunks == [] then [] else chunks[0] + Flatten(chunks[1..])
  }

  /** The stream is the chunks one after the other. */
  lemma {:induction false} FlattenConcat(a: seq<seq<byte>>, b: seq<seq<byte>>, chunk: seq<byte>)
    ensures Flatten(a + b) == Flatten(a) + Flatten(b) && Flatten([chunk]) == chunk && Flatten([]) == []
  {
    assert chunk + Flatten([]) == chunk;
    if a == [] {
      assert a + b == b;
    } else {
      assert (a + b)[1..] == a[1..] + b;
      FlattenConcat(a[1..], b, chunk);
    }
  }

  /** Successive `on_read` calls, `pending` being what is still in the input buffer. */
  function Feed(pending: seq<byte>, chunks: seq<seq<byte>>): Parsed
    decreases |chunks|
  {
    if chunks == [] then Parsed([], pending, false)
    else
      var p := Parse(pending + chunks[0]);
      if p.undefined then p
      else
        var q := Feed(p.rest, chunks[1..]);
        q.(events := p.events + q.events)
  }

  lemma HeaderStable(a: seq<byte>, b: seq<byte>)
    requires LENGTH_SIZE <= |a|
    ensures HeaderLen(a + b) == HeaderLen(a)
  {
    assert (a + b)[..LENGTH_SIZE] == a[..LENGTH_SIZE];
  }

  /** More bytes never change what the decoder already took from the front. */
  lemma LookStable(a: seq<byte>, b: seq<byte>)
    ensures !LookAt(a).Wait? ==> LookAt(a + b) == LookAt(a)
  {
    hide HeaderLen;
    if MIN_MESSAGE_LEN <= |a| {
      HeaderStable(a, b);
      if LookAt(a).Take? {
        var len := HeaderLen(a);
        assert (a + b)[LENGTH_SIZE..LENGTH_SIZE + len] == a[LENGTH_SIZE..LENGTH_SIZE + len];
      }
    }
  }

  /** Parsing in two goes: the second starts from what the first left. */
  lemma {:induction false} ParseAppend(a: seq<byte>, b: seq<byte>)
    ensures Parse(a).undefined ==> Parse(a + b).undefined && Parse(a + b).events == Parse(a).events
    ensures !Parse(a).undefined ==>
              var q := Parse(Parse(a).rest + b);
              Parse(a + b) == q.(events := Parse(a).events + q.events)
    decreases |a|
  {
    hide Parse, LookAt, HeaderLen, Judge;
    LookStable(a, b);
    ParseTurn(a);
    ParseTurn(a + b);
    if LookAt(a).Take? {
      var k := LENGTH_SIZE + |LookAt(a).payload|;
      assert (a + b)[k..] == a[k..] + b;
      ParseAppend(a[k..], b);
    }
  }

  lemma {:induction false} FeedFrom(done: seq<byte>, chunks: seq<seq<byte>>)
    requires !Parse(done).undefined
    ensures var f, p := Feed(Parse(done).rest, chunks), Parse(done + Flatten(chunks));
            && f.undefined == p.undefined
            && p.events == Parse(done).events + f.events
            && (!p.undefined ==> p.rest == f.rest)
    decreases |chunks|
  {
    hide Parse;
    if chunks == [] {
      assert done + Flatten(chunks) == done;
    } else {
      var c, tail := chunks[0], chunks[1..];
      ParseAppend(done, c);
      assert done + Flatten(chunks) == (done + c) + Flatten(tail);
      if Parse(done + c).undefined {
        ParseAppend(done + c, Flatten(tail));
      } else {
        FeedFrom(done + c, tail);
      }
    }
  }

  /** However the stream is cut, the callbacks and the leftover are those of the one-shot parse. */
  lemma ChunkIndependence(chunks: seq<seq<byte>>)
    ensures var f, p := Feed([], chunks), Parse(Flatten(chunks));
            && f.undefined == p.undefined
            && f.events == p.events
            && (!p.undefined ==> f.rest == p.rest)
  {
    hide Parse, Feed, Flatten;
    ParseNothing();
    FeedFrom([], chunks);
    assert [] + Flatten(chunks) == Flatten(chunks);
  }

  lemma ParseNothing()
    ensures Parse([]) == Parsed([], [], false)
  {
  }

  lemma TwoCutsAgree(chunks: seq<seq<byte>>, others: seq<seq<byte>>)
    requires Flatten(chunks) == Flatten(others)
    requires !Parse(Flatten(chunks)).undefined
    ensures Feed([], chunks) == Feed([], others)
  {
    ChunkIndependence(chunks);
    ChunkIndependence(others);
    NotUndefined(Feed([], chunks));
  }

  lemma NotUndefined(p: Parsed)
    ensures !p.undefined ==> p == Parsed(p.events, p.rest, false)
  {
  }

  // ---- Completeness and progress ----

  /** A complete frame with a usable header stands at the front of `s`. */
  predicate CompleteFrameAt(s: seq<byte>) {
    LENGTH_SIZE <= |s| && CHECKSUM_SIZE <= HeaderLen(s) && LENGTH_SIZE + HeaderLen(s) <= |s|
  }

  /** The decoder never holds back a complete frame, and each event consumed at least 8 bytes. */
  lemma {:induction false} ParseComplete(s: seq<byte>)
    ensures !Parse(s).undefined ==> !CompleteFrameAt(Parse(s).rest)
    ensures 8 * |Parse(s).events| + |Parse(s).rest| <= |s|
    ensures !LookAt(Parse(s).rest).Take?
    decreases |s|
  {
    if LookAt(s).Take? {
      ParseComplete(s[LENGTH_SIZE + |LookAt(s).payload|..]);
    }
  }

  // ---- Lengths no encoder writes ----

  /** With anything less than about 2^64 bytes: a length in -4..3 is undefined, a smaller one never completes. */
  lemma BadLengths(s: seq<byte>)
    requires 8 <= |s| < 0xffff_ffff_8000_0000
    ensures LookAt(s).Undefined? <==> -4 <= HeaderLen(s) < 4
    ensures HeaderLen(s) < -4 ==> LookAt(s).Wait?
  {
    hide HeaderLen;
  }

  /** Behind a length below -4 the decoder reports nothing more, whatever arrives. */
  lemma StalledForEver(s: seq<byte>, more: seq<byte>)
    requires 8 <= |s| && |s + more| < 0xffff_ffff_8000_0000 && HeaderLen(s) < -4
    ensures Parse(s + more) == Parsed([], s + more, false)
  {
    hide HeaderLen;
    HeaderStable(s, more);
    BadLengths(s + more);
  }

  // ---- Encoding ----

  /** A header in front of any payload. */
  function WithHeader(payload: seq<byte>): seq<byte> {
    BigEndian(|payload|, LENGTH_SIZE) + payload
  }

  function Sealed(body: seq<byte>): (payload: seq<byte>)
    ensures |payload| == |body| + CHECKSUM_SIZE
  {
    body + BigEndian(Adler(body), CHECKSUM_SIZE)
  }

  /** The bytes `send_rpc_msg` hands to the socket for one message. */
  function Frame(body: seq<byte>): (f: seq<byte>)
    ensures |f| == |body| + 8
  {
    WithHeader(Sealed(body))
  }

  // ---- The bytes, one by one ----

  /** The four bytes after a body are its Adler-32, as RFC 1950 defines it. */
  predicate IsChecksum(body: seq<byte>, trailer: seq<byte>) {
    |trailer| == 4 && Word(trailer) == (|body| + Weighted(body)) % 65521 * 65536 + (1 + Total(body)) % 65521
  }

  /** Four bytes of length, which counts body and checksum, then the body, then four bytes of checksum. */
  predicate IsFrame(f: seq<byte>, body: seq<byte>) {
    && |f| == |body| + 8
    && Word(f[..4]) == (|body| + 4) % 0x1_0000_0000
    && f[4..|body| + 4] == body
    && IsChecksum(body, f[|body| + 4..])
  }

  lemma ChecksumExact(body: seq<byte>, trailer: seq<byte>)
    requires |trailer| == 4
    ensures IsChecksum(body, trailer) <==> trailer == BigEndian(Adler(body), CHECKSUM_SIZE)
    ensures IsChecksum(body, trailer) <==> ToInt32(Adler(body)) == ToInt32(FromBigEndian(trailer))
  {
    hide BigEndian, FromBigEndian, Adler, Weighted, Total, ToInt32, Word;
    AdlerValue(body);
    WordOf(Adler(body), trailer);
    WordExact(trailer);
    Int32Equal(Adler(body), Word(trailer));
  }

  /** The frame of a message is the one byte string of that form. */
  lemma FrameExact(body: seq<byte>, f: seq<byte>)
    ensures IsFrame(f, body) <==> f == Frame(body)
  {
    hide BigEndian, Word, IsChecksum, Adler;
    var g := Frame(body);
    assert g[..4] == BigEndian(|body| + 4, 4) && g[4..|body| + 4] == body;
    assert g[|body| + 4..] == BigEndian(Adler(body), 4);
    ChecksumExact(body, g[|body| + 4..]);
    WordOf(|body| + 4, g[..4]);
    if IsFrame(f, body) {
      WordOf(|body| + 4, f[..4]);
      ChecksumExact(body, f[|body| + 4..]);
      assert f == f[..4] + f[4..|body| + 4] + f[|body| + 4..];
      assert g == g[..4] + g[4..|body| + 4] + g[|body| + 4..];
    }
  }

  /** What the decoder makes of the front of any byte string. */
  lemma LookExact(s: seq<byte>)
    ensures |s| < 8 ==> LookAt(s) == Wait
    ensures 8 <= |s| ==>
              var len := ToInt32(Word(s[..4]));
              var needed := if len < -4 then len + 4 + 0x1_0000_0000_0000_0000 else len + 4;
              LookAt(s) == if |s| < needed then Wait else if len < 4 then Undefined else Take(s[4..len + 4])
  {
    hide FromBigEndian, Word;
    if 8 <= |s| { WordExact(s[..4]); }
  }

  /** And of what follows the length: the message, exactly when its checksum follows it. */
  lemma JudgeExact(body: seq<byte>, trailer: seq<byte>)
    requires |trailer| == 4
    ensures Judge(body + trailer) == if IsChecksum(body, trailer) then Message(body) else ChecksumError
  {
    hide BigEndian, FromBigEndian, Adler, ToInt32, IsChecksum;
    assert (body + trailer)[..|body|] == body && (body + trailer)[|body|..] == trailer;
    ChecksumExact(body, trailer);
  }

  predicate PayloadFits(payload: seq<byte>) {
    CHECKSUM_SIZE <= |payload| < TWO_31
  }

  predicate AllFit(payloads: seq<seq<byte>>) {
    forall i :: 0 <= i < |payloads| ==> PayloadFits(payloads[i])
  }

  lemma HeaderRead(payload: seq<byte>, s: seq<byte>)
    ensures |WithHeader(payload) + s| == LENGTH_SIZE + |payload| + |s|
    ensures HeaderLen(WithHeader(payload) + s) == ToInt32(|payload|)
    ensures (WithHeader(payload) + s)[LENGTH_SIZE..LENGTH_SIZE + |payload|] == payload
    ensures (WithHeader(payload) + s)[LENGTH_SIZE + |payload|..] == s
  {
    assert (WithHeader(payload) + s)[..LENGTH_SIZE] == BigEndian(|payload|, LENGTH_SIZE);
    WordValue(|payload|);
  }

  lemma ParseOneMore(payload: seq<byte>, s: seq<byte>)
    requires PayloadFits(payload)
    ensures Parse(WithHeader(payload) + s) == Parse(s).(events := [Judge(payload)] + Parse(s).events)
  {
    hide WithHeader, HeaderLen, Judge;
    HeaderRead(payload, s);
    assert LookAt(WithHeader(payload) + s) == Take(payload);
  }

  lemma SealedJudged(body: seq<byte>)
    ensures Judge(Sealed(body)) == Message(body)
  {
    var payload := Sealed(body);
    assert payload[..|body|] == body;
    assert payload[|body|..] == BigEndian(Adler(body), CHECKSUM_SIZE);
    WordValue(Adler(body));
  }

  /** A header then anything, for every payload in turn. */
  function Stream(payloads: seq<seq<byte>>): seq<byte> {
    if payloads == [] then [] else WithHeader(payloads[0]) + Stream(payloads[1..])
  }

  function JudgeAll(payloads: seq<seq<byte>>): (events: seq<Event>)
    requires AllFit(payloads)
    ensures |events| == |payloads|
    ensures forall i :: 0 <= i < |payloads| ==> events[i] == Judge(payloads[i])
  {
    if payloads == [] then [] else [Judge(payloads[0])] + JudgeAll(payloads[1..])
  }

  /** With headers intact, every frame is judged alone, whatever its body and checksum hold. */
  lemma {:induction false} ParseStream(payloads: seq<seq<byte>>, tail: seq<byte>)
    requires AllFit(payloads)
    ensures Parse(Stream(payloads) + tail) == Parse(tail).(events := JudgeAll(payloads) + Parse(tail).events)
  {
    hide Parse, WithHeader, Judge;
    if payloads == [] {
      assert Stream(payloads) + tail == tail;
    } else {
      assert Stream(payloads) + tail == WithHeader(payloads[0]) + (Stream(payloads[1..]) + tail);
      ParseStream(payloads[1..], tail);
      ParseOneMore(payloads[0], Stream(payloads[1..]) + tail);
    }
  }

  lemma ParseWholeStream(payloads: seq<seq<byte>>)
    requires AllFit(payloads)
    ensures Parse(Stream(payloads)) == Parsed(JudgeAll(payloads), [], false)
  {
    ParseStream(payloads, []);
    assert Stream(payloads) + [] == Stream(payloads);
  }

  /** Damage behind intact headers stays inside the damaged frames. */
  lemma ErrorIsolation(sent: seq<seq<byte>>, received: seq<seq<byte>>)
    requires |sent| == |received|
    requires AllFit(sent)
    requires forall i :: 0 <= i < |sent| ==> |received[i]| == |sent[i]|
    ensures var p, q := Parse(Stream(sent)), Parse(Stream(received));
            && |p.events| == |q.events| == |sent|
            && p.rest == q.rest == [] && !p.undefined && !q.undefined
            && forall i :: 0 <= i < |sent| && sent[i] == received[i] ==> p.events[i] == q.events[i]
  {
    ParseWholeStream(sent);
    ParseWholeStream(received);
  }

  // ---- Damage to a body ----

  /** With the checksum bytes intact, a changed body passes exactly when Adler-32 does not change. */
  lemma DamagedBody(body: seq<byte>, damaged: seq<byte>)
    requires |damaged| == |body|
    ensures var payload := damaged + BigEndian(Adler(body), CHECKSUM_SIZE);
            Judge(payload) == (if Adler(damaged) == Adler(body) then Message(damaged) else ChecksumError)
  {
    hide Adler, BigEndian, FromBigEndian;
    var payload := damaged + BigEndian(Adler(body), CHECKSUM_SIZE);
    assert payload[..|body|] == damaged;
    assert payload[|body|..] == BigEndian(Adler(body), CHECKSUM_SIZE);
    WordValue(Adler(body));
    WordInjective(Adler(damaged), Adler(body));
  }

  /**
   A frame whose body is hit in one or two bytes is reported as damaged, unless the two
   changes cancel at positions a multiple of 65521 apart: then, and only then, it passes.
   */
  lemma TwoByteDamage(body: seq<byte>, i: nat, j: nat, v: byte, w: byte)
    requires i < j < |body|
    requires v != body[i] || w != body[j]
    ensures var damaged := body[i := v][j := w];
            Judge(damaged + BigEndian(Adler(body), CHECKSUM_SIZE)) ==
            if v - body[i] == body[j] - w && (j - i) % BASE == 0 then Message(damaged) else ChecksumError
  {
    DamagedBody(body, body[i := v][j := w]);
    TwoByteChange(body, i, j, v, w);
  }

  lemma OneByteDamage(body: seq<byte>, i: nat, v: byte)
    requires i < |body| && v != body[i]
    ensures Judge(body[i := v] + BigEndian(Adler(body), CHECKSUM_SIZE)) == ChecksumError
  {
    DamagedBody(body, body[i := v]);
    OneByteChange(body, i, v);
  }

  /** Any change of the checksum bytes alone is reported. */
  lemma ChecksumDamage(body: seq<byte>, trailer: seq<byte>)
    requires |trailer| == CHECKSUM_SIZE
    ensures Judge(body + trailer) ==
            if trailer == BigEndian(Adler(body), CHECKSUM_SIZE) then Message(body) else ChecksumError
  {
    var payload := body + trailer;
    assert payload[..|body|] == body && payload[|body|..] == trailer;
    BigEndianInverse(trailer);
    WordInjective(Adler(body), FromBigEndian(trailer));
  }

  // ---- Round trip ----

  function FrameAll(bodies: seq<seq<byte>>): seq<byte> {
    if bodies == [] then [] else Frame(bodies[0]) + FrameAll(bodies[1..])
  }

  function Messages(bodies: seq<seq<byte>>): (events: seq<Event>)
    ensures |events| == |bodies|
    ensures forall i :: 0 <= i < |bodies| ==> events[i] == Message(bodies[i])
  {
    if bodies == [] then [] else [Message(bodies[0])] + Messages(bodies[1..])
  }

  /** The sizes for which `len + sizeof(checksum)` still is a positive int32. */
  predicate BodyFits(body: seq<byte>) {
    |body| + CHECKSUM_SIZE < TWO_31
  }

  predicate AllBodiesFit(bodies: seq<seq<byte>>) {
    forall i :: 0 <= i < |bodies| ==> BodyFits(bodies[i])
  }

  /** Frames back to back are decoded to exactly their messages, and then the decoder goes on with what follows. */
  lemma {:induction false} FramesThen(bodies: seq<seq<byte>>, tail: seq<byte>)
    requires AllBodiesFit(bodies)
    ensures Parse(FrameAll(bodies) + tail) == Parse(tail).(events := Messages(bodies) + Parse(tail).events)
  {
    hide Parse, WithHeader, Sealed, Judge;
    if bodies == [] {
      assert FrameAll(bodies) + tail == tail;
    } else {
      assert FrameAll(bodies) + tail == Frame(bodies[0]) + (FrameAll(bodies[1..]) + tail);
      FramesThen(bodies[1..], tail);
      assert BodyFits(bodies[0]);
      ParseOneMore(Sealed(bodies[0]), FrameAll(bodies[1..]) + tail);
      SealedJudged(bodies[0]);
    }
  }

  /** Every sequence of messages survives encoding and decoding; nothing is left over. */
  lemma RoundTrip(bodies: seq<seq<byte>>)
    requires AllBodiesFit(bodies)
    ensures Parse(FrameAll(bodies)) == Parsed(Messages(bodies), [], false)
  {
    FramesThen(bodies, []);
    assert FrameAll(bodies) + [] == FrameAll(bodies);
  }

  /** One frame's body and checksum replaced: it is judged on what arrived, all others are delivered as sent. */
  lemma OneFrameDamaged(bodies: seq<seq<byte>>, n: nat, payload: seq<byte>)
    requires AllBodiesFit(bodies) && n < |bodies| && |payload| == |Sealed(bodies[n])|
    ensures Parse(FrameAll(bodies[..n]) + (WithHeader(payload) + FrameAll(bodies[n + 1..]))) ==
            Parsed(Messages(bodies[..n]) + ([Judge(payload)] + Messages(bodies[n + 1..])), [], false)
  {
    hide Parse, WithHeader, Judge;
    FramesThen(bodies[..n], WithHeader(payload) + FrameAll(bodies[n + 1..]));
    assert BodyFits(bodies[n]);
    ParseOneMore(payload, FrameAll(bodies[n + 1..]));
    RoundTrip(bodies[n + 1..]);
  }

  /** A part of a frame is kept until the rest arrives. */
  lemma PartialFrameWaits(body: seq<byte>, k: nat)
    requires BodyFits(body) && k < |Frame(body)|
    ensures Parse(Frame(body)[..k]) == Parsed([], Frame(body)[..k], false)
  {
    hide HeaderLen, WithHeader, Sealed;
    var part := Frame(body)[..k];
    if MIN_MESSAGE_LEN <= k {
      HeaderRead(Sealed(body), []);
      assert WithHeader(Sealed(body)) + [] == Frame(body) == part + Frame(body)[k..];
      HeaderStable(part, Frame(body)[k..]);
      assert HeaderLen(part) == |body| + CHECKSUM_SIZE;
    }
    assert LookAt(part) == Wait;
  }

  /**
   For every size `ByteSize()` can return, a lone frame is delivered exactly when the size
   fits; a larger one has a negative length, and the receiver waits for ever.
   */
  lemma FrameDelivered(body: seq<byte>)
    requires |body| < 0x8000_0000
    ensures Parse(Frame(body)) ==
            if |body| + 4 < 0x8000_0000 then Parsed([Message(body)], [], false) else Parsed([], Frame(body), false)
  {
    hide Parse, HeaderLen, WithHeader, Sealed;
    if BodyFits(body) {
      RoundTrip([body]);
      assert FrameAll([body]) == Frame(body) + FrameAll([]) == Frame(body);
    } else {
      HeaderRead(Sealed(body), []);
      assert WithHeader(Sealed(body)) + [] == Frame(body);
      StalledForEver(Frame(body), []);
      assert Frame(body) + [] == Frame(body);
    }
  }
}
