/**
 * The frame stream between two nodes (node.cc:403-498, node.cc:557-598): what one frame
 * looks like on the wire, and a receiver that takes the stream byte by byte. A byte may
 * carry a payload as a tag.
 */
module Frames {
  import opened Orders

  type U8 = x: nat | x < 256

  datatype Octet = Octet(value: U8, tag: Option<seq<U8>>)

  const FRAME_MAGIC: nat := 0x47444147
  const FRAME_PREFIX_SIZE: nat := 16
  const WORD: nat := 0x1_0000_0000

  // ---------------------------------------------------------------------
  // 32-bit fields, least significant byte first
  // ---------------------------------------------------------------------

  // Arithmetic on uint32_t counters.
  function Wrap(n: nat): (r: nat)
    ensures r < WORD
  {
    n % WORD
  }

  lemma WrapIs(n: nat)
    ensures Wrap(n) == n % 0x1_0000_0000
  {
  }

  function U32(n: nat): (b: seq<U8>)
    requires n < WORD
    ensures |b| == 4
  {
    [n % 256, n / 256 % 256, n / 65536 % 256, n / 16777216]
  }

  function ReadU32(b: seq<U8>): nat
    requires |b| == 4
  {
    (b[0] as nat) + 256 * (b[1] as nat) + 65536 * (b[2] as nat) + 16777216 * (b[3] as nat)
  }

  lemma U32RoundTrip(n: nat)
    requires n < WORD
    ensures ReadU32(U32(n)) == n
  {
    assert n / 65536 == n / 256 / 256 && n / 16777216 == n / 65536 / 256;
  }

  function Plain(bytes: seq<U8>): (r: seq<Octet>)
    ensures |r| == |bytes|
  {
    seq(|bytes|, i requires 0 <= i < |bytes| => Octet(bytes[i], None))
  }

  function Values(octets: seq<Octet>): (r: seq<U8>)
    ensures |r| == |octets|
  {
    seq(|octets|, i requires 0 <= i < |octets| => octets[i].value)
  }

  lemma ValuesOfPlain(bytes: seq<U8>)
    ensures Values(Plain(bytes)) == bytes
  {
  }

  // ---------------------------------------------------------------------
  // Frames
  // ---------------------------------------------------------------------

  // A message with the size it is modelled to have on the wire.
  datatype Message = Message(payload: seq<U8>, size: nat)

  // Sizes fit the 32-bit fields.
  predicate Sendable(m: Message) {
    m.size < WORD && FRAME_PREFIX_SIZE + |m.payload| < WORD
  }

  function WireBytes(m: Message): (w: nat)
    ensures w > FRAME_PREFIX_SIZE && w >= m.size
    ensures m.size < WORD ==> w < WORD
  {
    if m.size > FRAME_PREFIX_SIZE + 1 then m.size else FRAME_PREFIX_SIZE + 1
  }

  predicate Inline(m: Message) {
    FRAME_PREFIX_SIZE + |m.payload| <= WireBytes(m)
  }

  function Prefix(frameLen: nat, payloadLen: nat, number: nat): (b: seq<U8>)
    requires frameLen < WORD && payloadLen < WORD && number < WORD
    ensures |b| == FRAME_PREFIX_SIZE
  {
    U32(FRAME_MAGIC) + U32(frameLen) + U32(payloadLen) + U32(number)
  }

  function Padding(n: nat): (z: seq<Octet>)
    ensures |z| == n
  {
    seq(n, _ => Octet(0, None))
  }

  // Frame number `number` of a connection, as it goes on the wire.
  function Encode(m: Message, number: nat): (octets: seq<Octet>)
    requires Sendable(m) && number < WORD
    ensures |octets| == WireBytes(m)
  {
    var w := WireBytes(m);
    if Inline(m) then
      Plain(Prefix(w, |m.payload|, number)) + Plain(m.payload) + Padding(w - FRAME_PREFIX_SIZE - |m.payload|)
    else
      Plain(Prefix(w, 0, number)) + Padding(w - 1 - FRAME_PREFIX_SIZE) + [Octet(0, Some(m.payload))]
  }

  // The bytes of a frame: four of magic, then its length, the length of the payload it
  // carries in line and its number, least significant byte first; then the payload, then
  // zeros. A payload that does not fit rides as the tag of the last byte.
  lemma FrameLayout(m: Message, number: nat)
    requires m.size < 0x1_0000_0000 && 16 + |m.payload| < 0x1_0000_0000 && number < 0x1_0000_0000
    ensures var e, w := Encode(m, number), if m.size > 17 then m.size else 17;
      var fits := 16 + |m.payload| <= w;
      var n := if fits then |m.payload| else 0;
      && |e| == w
      && (forall i :: 0 <= i < w ==> e[i].tag == if i == w - 1 && !fits then Some(m.payload) else None)
      && e[0].value == 0x47 && e[1].value == 0x41 && e[2].value == 0x44 && e[3].value == 0x47
      && e[4].value == w % 256 && e[5].value == w / 256 % 256 && e[6].value == w / 65536 % 256 && e[7].value == w / 16777216
      && e[8].value == n % 256 && e[9].value == n / 256 % 256 && e[10].value == n / 65536 % 256 && e[11].value == n / 16777216
      && e[12].value == number % 256 && e[13].value == number / 256 % 256
      && e[14].value == number / 65536 % 256 && e[15].value == number / 16777216
      && (forall i :: 16 <= i < w ==> e[i].value == if i - 16 < n then m.payload[i - 16] else 0)
  {
    hide U32;
    var w := WireBytes(m);
    var n := if Inline(m) then |m.payload| else 0;
    U32Bytes(FRAME_MAGIC);
    U32Bytes(w);
    U32Bytes(n);
    U32Bytes(number);
  }

  lemma U32Bytes(n: nat)
    requires n < WORD
    ensures U32(n)[0] == n % 256 && U32(n)[1] == n / 256 % 256 && U32(n)[2] == n / 65536 % 256 && U32(n)[3] == n / 16777216
  {
  }

  // A connection's whole stream.
  function EncodeAll(ms: seq<Message>): seq<Octet>
    requires forall m :: m in ms ==> Sendable(m)
  {
    if ms == [] then []
    else EncodeAll(ms[..|ms| - 1]) + Encode(ms[|ms| - 1], Wrap(|ms| - 1))
  }

  // ---------------------------------------------------------------------
  // The receiver, a byte at a time
  // ---------------------------------------------------------------------

  datatype Delivery = Delivery(payload: seq<U8>, size: nat)

  datatype Rx = Rx(prefix: seq<U8>, frameLen: nat, payloadLen: nat, bodyRemaining: nat, nextSeq: nat,
                   payload: seq<U8>, aborted: bool, out: seq<Delivery>)

  const START: Rx := Rx([], 0, 0, 0, 0, [], false, [])

  predicate Wellformed(rx: Rx) {
    && |rx.prefix| <= FRAME_PREFIX_SIZE && rx.nextSeq < WORD
    && (!rx.aborted ==>
          && (|rx.prefix| < FRAME_PREFIX_SIZE ==> rx.payload == [] && rx.payloadLen == 0 && rx.bodyRemaining == 0 && rx.frameLen == 0)
          && (|rx.prefix| == FRAME_PREFIX_SIZE ==>
                && |rx.payload| <= rx.payloadLen <= |rx.payload| + rx.bodyRemaining
                && (rx.payloadLen == 0 ==> rx.bodyRemaining > 0)))
  }

  function Reset(rx: Rx): Rx {
    rx.(prefix := [], frameLen := 0, payloadLen := 0, bodyRemaining := 0, payload := [])
  }

  // The last byte of a frame has been taken; a frame with no payload at all is dropped.
  function Complete(rx: Rx, tag: Option<seq<U8>>): Rx {
    var delivered :=
      if rx.payloadLen > 0 then [Delivery(rx.payload, rx.frameLen)]
      else if tag.Some? then [Delivery(tag.value, rx.frameLen)]
      else [];
    Reset(rx.(out := rx.out + delivered))
  }

  // All of a frame is there, but the loop has not come round to say so.
  predicate Pending(rx: Rx) {
    !rx.aborted && |rx.prefix| == FRAME_PREFIX_SIZE && |rx.payload| == rx.payloadLen && rx.bodyRemaining == 0
  }

  function Finish(rx: Rx): Rx {
    if Pending(rx) then Complete(rx, None) else rx
  }

  // A full prefix is checked.
  function Header(rx: Rx): Rx
    requires |rx.prefix| == FRAME_PREFIX_SIZE
  {
    var len, payloadLen, number := ReadU32(rx.prefix[4..8]), ReadU32(rx.prefix[8..12]), ReadU32(rx.prefix[12..16]);
    if ReadU32(rx.prefix[0..4]) != FRAME_MAGIC || len <= FRAME_PREFIX_SIZE
       || payloadLen > len - FRAME_PREFIX_SIZE || number != rx.nextSeq
    then rx.(aborted := true)
    else rx.(nextSeq := Wrap(number + 1), frameLen := len, payloadLen := payloadLen, payload := [],
             bodyRemaining := len - FRAME_PREFIX_SIZE)
  }

  function Consume(rx: Rx, o: Octet): Rx
    requires Wellformed(rx) && !rx.aborted && !Pending(rx)
  {
    if |rx.prefix| < FRAME_PREFIX_SIZE then
      var rx' := rx.(prefix := rx.prefix + [o.value]);
      if |rx'.prefix| < FRAME_PREFIX_SIZE then rx' else Header(rx')
    else if |rx.payload| < rx.payloadLen then
      rx.(payload := rx.payload + [o.value], bodyRemaining := rx.bodyRemaining - 1)
    else
      var rx' := rx.(bodyRemaining := rx.bodyRemaining - 1);
      if rx'.bodyRemaining > 0 then rx' else Complete(rx', o.tag)
  }

  function Eat(rx: Rx, o: Octet): (r: Rx)
    requires Wellformed(rx)
    ensures Wellformed(r)
  {
    if rx.aborted then rx else Consume(Finish(rx), o)
  }

  function Feed(rx: Rx, octets: seq<Octet>): (r: Rx)
    requires Wellformed(rx)
    ensures Wellformed(r)
  {
    if octets == [] then rx
    else Eat(Feed(rx, octets[..|octets| - 1]), octets[|octets| - 1])
  }

  // ---------------------------------------------------------------------
  // Chunks
  // ---------------------------------------------------------------------

  lemma {:induction false} FeedConcat(rx: Rx, a: seq<Octet>, b: seq<Octet>)
    requires Wellformed(rx)
    ensures Feed(rx, a + b) == Feed(Feed(rx, a), b)
    decreases |b|
  {
    hide Eat, Wellformed;
    if b == [] {
      assert a + b == a;
    } else {
      var n := |b| - 1;
      FeedConcat(rx, a, b[..n]);
      assert (a + b)[..|a + b| - 1] == a + b[..n];
      assert (a + b)[|a + b| - 1] == b[n];
    }
  }

  lemma {:induction false} FeedFinish(rx: Rx, octets: seq<Octet>)
    requires Wellformed(rx) && octets != []
    ensures Wellformed(Finish(rx)) && Feed(Finish(rx), octets) == Feed(rx, octets)
    decreases |octets|
  {
    hide Consume;
    var n := |octets| - 1;
    if n > 0 {
      FeedFinish(rx, octets[..n]);
    } else {
      assert octets[..0] == [];
      assert Finish(Finish(rx)) == Finish(rx);
    }
  }

  // What is delivered stays delivered, and a broken stream stays broken.
  lemma {:induction false} FeedKeeps(rx: Rx, octets: seq<Octet>)
    requires Wellformed(rx)
    ensures rx.out <= Feed(rx, octets).out
    ensures rx.aborted ==> Feed(rx, octets) == rx
    decreases |octets|
  {
    if octets != [] {
      FeedKeeps(rx, octets[..|octets| - 1]);
    }
  }

  // Concatenation of chunks.
  function Concat(chunks: seq<seq<Octet>>): seq<Octet> {
    if chunks == [] then [] else Concat(chunks[..|chunks| - 1]) + chunks[|chunks| - 1]
  }

  // ---------------------------------------------------------------------
  // Runs of bytes
  // ---------------------------------------------------------------------

  lemma {:induction false} FeedPrefix(rx: Rx, octets: seq<Octet>)
    requires Wellformed(rx) && !rx.aborted && |rx.prefix| + |octets| < FRAME_PREFIX_SIZE
    ensures Feed(rx, octets) == rx.(prefix := rx.prefix + Values(octets))
    decreases |octets|
  {
    if octets == [] {
      assert rx.prefix + Values(octets) == rx.prefix;
    } else {
      var n := |octets| - 1;
      FeedPrefix(rx, octets[..n]);
      assert Values(octets) == Values(octets[..n]) + [octets[n].value];
      assert rx.prefix + Values(octets) == rx.prefix + Values(octets[..n]) + [octets[n].value];
    }
  }

  lemma FeedHeader(rx: Rx, octets: seq<Octet>)
    requires Wellformed(rx) && !rx.aborted && octets != [] && |rx.prefix| + |octets| == FRAME_PREFIX_SIZE
    ensures Feed(rx, octets) == Header(rx.(prefix := rx.prefix + Values(octets)))
  {
    hide Header;
    var n := |octets| - 1;
    FeedPrefix(rx, octets[..n]);
    assert Values(octets) == Values(octets[..n]) + [octets[n].value];
    assert rx.prefix + Values(octets) == rx.prefix + Values(octets[..n]) + [octets[n].value];
  }

  lemma {:induction false} FeedPayload(rx: Rx, octets: seq<Octet>)
    requires Wellformed(rx) && !rx.aborted && |rx.prefix| == FRAME_PREFIX_SIZE
    requires |rx.payload| + |octets| <= rx.payloadLen
    ensures Feed(rx, octets) ==
            rx.(payload := rx.payload + Values(octets), bodyRemaining := rx.bodyRemaining - |octets|)
    decreases |octets|
  {
    if octets == [] {
      assert rx.payload + Values(octets) == rx.payload;
    } else {
      var n := |octets| - 1;
      FeedPayload(rx, octets[..n]);
      assert Values(octets) == Values(octets[..n]) + [octets[n].value];
      assert rx.payload + Values(octets) == rx.payload + Values(octets[..n]) + [octets[n].value];
    }
  }

  lemma {:induction false} FeedPadding(rx: Rx, octets: seq<Octet>)
    requires Wellformed(rx) && !rx.aborted && |rx.prefix| == FRAME_PREFIX_SIZE
    requires |rx.payload| == rx.payloadLen && |octets| < rx.bodyRemaining
    ensures Feed(rx, octets) == rx.(bodyRemaining := rx.bodyRemaining - |octets|)
    decreases |octets|
  {
    if octets != [] {
      FeedPadding(rx, octets[..|octets| - 1]);
    }
  }

  lemma FeedBody(rx: Rx, octets: seq<Octet>)
    requires Wellformed(rx) && !rx.aborted && |rx.prefix| == FRAME_PREFIX_SIZE
    requires |rx.payload| == rx.payloadLen && |octets| == rx.bodyRemaining > 0
    ensures Feed(rx, octets) == Complete(rx, octets[|octets| - 1].tag)
  {
    var n := |octets| - 1;
    FeedPadding(rx, octets[..n]);
  }

  // ---------------------------------------------------------------------
  // One frame through the receiver
  // ---------------------------------------------------------------------

  // Between frames.
  predicate Idle(rx: Rx) {
    !rx.aborted && rx.nextSeq < WORD && rx == Reset(rx)
  }

  // What a message is received as: a message without payload is lost.
  function Received(m: Message): seq<Delivery> {
    if m.payload == [] then [] else [Delivery(m.payload, WireBytes(m))]
  }

  function ReceivedAll(ms: seq<Message>): seq<Delivery> {
    if ms == [] then [] else ReceivedAll(ms[..|ms| - 1]) + Received(ms[|ms| - 1])
  }

  // The payload fills the frame: there is no padding byte to complete it.
  predicate Unpadded(m: Message) {
    FRAME_PREFIX_SIZE + |m.payload| == WireBytes(m)
  }

  function Next(rx: Rx, m: Message): Rx {
    rx.(nextSeq := Wrap(rx.nextSeq + 1), out := rx.out + Received(m))
  }

  // Sixteen bytes between frames: what makes the receiver give up, and what it takes from
  // them otherwise.
  lemma HeaderDecides(rx: Rx, octets: seq<Octet>, b: seq<U8>)
    requires rx == START.(nextSeq := rx.nextSeq, out := rx.out) && rx.nextSeq < WORD
    requires |octets| == 16 && |b| == 16 && forall i :: 0 <= i < 16 ==> b[i] == octets[i].value
    ensures Wellformed(rx)
    ensures var len, n, number := FieldAt(b, 4), FieldAt(b, 8), FieldAt(b, 12);
      Feed(rx, octets) ==
        if b[0..4] == [0x47, 0x41, 0x44, 0x47] && 16 < len && n <= len - 16 && number == rx.nextSeq
        then rx.(prefix := b, frameLen := len, payloadLen := n, bodyRemaining := len - 16,
                 nextSeq := (number + 1) % 0x1_0000_0000)
        else rx.(prefix := b, aborted := true)
  {
    hide *;
    HeaderFed(rx, octets, b);
    HeaderIs(rx.(prefix := b));
  }

  // Four bytes of a prefix, least significant first.
  function FieldAt(b: seq<U8>, i: nat): (v: nat)
    requires i + 4 <= |b|
    ensures v == (b[i] as nat) + 256 * (b[i + 1] as nat) + 65536 * (b[i + 2] as nat) + 16777216 * (b[i + 3] as nat)
  {
    ReadU32(b[i..i + 4])
  }

  lemma HeaderFed(rx: Rx, octets: seq<Octet>, b: seq<U8>)
    requires rx == START.(nextSeq := rx.nextSeq, out := rx.out) && rx.nextSeq < WORD
    requires |octets| == 16 && |b| == 16 && forall i :: 0 <= i < 16 ==> b[i] == octets[i].value
    ensures Wellformed(rx) && rx.payload == [] && Feed(rx, octets) == Header(rx.(prefix := b))
    ensures rx.(prefix := b).prefix == b && rx.(prefix := b).nextSeq == rx.nextSeq
  {
    hide *;
    StartWellformed(rx);
    ValuesAre(octets, b);
    FeedHeader(rx, octets);
    assert [] + b == b;
  }

  lemma StartWellformed(rx: Rx)
    requires rx == START.(nextSeq := rx.nextSeq, out := rx.out) && rx.nextSeq < WORD
    ensures Wellformed(rx) && !rx.aborted && rx.prefix == [] && rx.payload == [] && FRAME_PREFIX_SIZE == 16
  {
  }

  lemma ValuesAre(octets: seq<Octet>, b: seq<U8>)
    requires |octets| == |b| && forall i :: 0 <= i < |b| ==> b[i] == octets[i].value
    ensures Values(octets) == b
  {
  }

  lemma HeaderIs(rx: Rx)
    requires |rx.prefix| == 16 && rx.payload == []
    ensures var len, n, number := FieldAt(rx.prefix, 4), FieldAt(rx.prefix, 8), FieldAt(rx.prefix, 12);
      Header(rx) ==
        if rx.prefix[0..4] == [0x47, 0x41, 0x44, 0x47] && 16 < len && n <= len - 16 && number == rx.nextSeq
        then rx.(frameLen := len, payloadLen := n, bodyRemaining := len - 16, nextSeq := (number + 1) % 0x1_0000_0000)
        else rx.(aborted := true)
  {
    hide ReadU32;
    MagicIs(rx.prefix[0..4]);
  }

  lemma MagicIs(b: seq<U8>)
    requires |b| == 4
    ensures ReadU32(b) == FRAME_MAGIC <==> b == [0x47, 0x41, 0x44, 0x47]
  {
    if ReadU32(b) == FRAME_MAGIC {
      assert b[0] == 0x47 && b[1] == 0x41 && b[2] == 0x44 && b[3] == 0x47;
    }
  }

  // The rest of a frame whose header was taken, whatever its bytes are: the payload is
  // delivered if the header announced one, otherwise what the last byte is tagged with,
  // if it is tagged.
  lemma BodyDelivers(rx: Rx, octets: seq<Octet>)
    requires Wellformed(rx) && !rx.aborted && |rx.prefix| == 16 && rx.payload == []
    requires |octets| == rx.bodyRemaining > 0
    ensures Wellformed(rx) && rx.payloadLen <= |octets|
    ensures Finish(Feed(rx, octets)) ==
            START.(nextSeq := rx.nextSeq,
                   out := rx.out + if rx.payloadLen > 0 then [Delivery(Values(octets)[..rx.payloadLen], rx.frameLen)]
                                   else if octets[|octets| - 1].tag.Some? then [Delivery(octets[|octets| - 1].tag.value, rx.frameLen)]
                                   else [])
  {
    hide Feed;
    var n := rx.payloadLen;
    var body, pad := octets[..n], octets[n..];
    assert octets == body + pad;
    FeedConcat(rx, body, pad);
    FeedPayload(rx, body);
    assert [] + Values(body) == Values(octets)[..n];
    if pad == [] {
      assert Feed(Feed(rx, body), pad) == Feed(rx, body) by {
        assert body + pad == body;
      }
    } else {
      FeedBody(Feed(rx, body), pad);
    }
  }

  lemma PrefixParsed(rx: Rx, len: nat, payloadLen: nat)
    requires Idle(rx) && FRAME_PREFIX_SIZE < len < WORD && payloadLen <= len - FRAME_PREFIX_SIZE
    ensures Feed(rx, Plain(Prefix(len, payloadLen, rx.nextSeq))) ==
            rx.(prefix := Prefix(len, payloadLen, rx.nextSeq), nextSeq := Wrap(rx.nextSeq + 1), frameLen := len,
                payloadLen := payloadLen, bodyRemaining := len - FRAME_PREFIX_SIZE)
  {
    hide Feed, Prefix, ReadU32, Wrap;
    var p := Prefix(len, payloadLen, rx.nextSeq);
    FeedHeader(rx, Plain(p));
    ValuesOfPlain(p);
    assert rx.prefix + p == p;
    PrefixFields(len, payloadLen, rx.nextSeq);
  }

  lemma PrefixFields(len: nat, payloadLen: nat, number: nat)
    requires len < WORD && payloadLen < WORD && number < WORD
    ensures var p := Prefix(len, payloadLen, number);
      && ReadU32(p[0..4]) == FRAME_MAGIC && ReadU32(p[4..8]) == len
      && ReadU32(p[8..12]) == payloadLen && ReadU32(p[12..16]) == number
  {
    hide ReadU32, U32;
    var p := Prefix(len, payloadLen, number);
    assert p[0..4] == U32(FRAME_MAGIC) && p[4..8] == U32(len) && p[8..12] == U32(payloadLen) && p[12..16] == U32(number);
    U32RoundTrip(FRAME_MAGIC);
    U32RoundTrip(len);
    U32RoundTrip(payloadLen);
    U32RoundTrip(number);
  }

  lemma InlineFrame(rx: Rx, m: Message)
    requires Idle(rx) && Sendable(m) && Inline(m)
    ensures Feed(rx, Encode(m, rx.nextSeq)) ==
            if Unpadded(m) then
              rx.(prefix := Prefix(WireBytes(m), |m.payload|, rx.nextSeq), nextSeq := Wrap(rx.nextSeq + 1),
                  frameLen := WireBytes(m), payloadLen := |m.payload|, payload := m.payload)
            else Next(rx, m)
  {
    hide Feed, Prefix;
    var w := WireBytes(m);
    var p, body, pad := Plain(Prefix(w, |m.payload|, rx.nextSeq)), Plain(m.payload), Padding(w - FRAME_PREFIX_SIZE - |m.payload|);
    PrefixParsed(rx, w, |m.payload|);
    FeedConcat(rx, p + body, pad);
    FeedConcat(rx, p, body);
    var rx1 := Feed(rx, p);
    FeedPayload(rx1, body);
    ValuesOfPlain(m.payload);
    assert [] + m.payload == m.payload;
    var rx2 := Feed(rx1, body);
    if Unpadded(m) {
      assert (p + body) + pad == p + body;
    } else {
      FeedBody(rx2, pad);
      assert rx2.out + [] == rx2.out;
    }
  }

  lemma TaggedFrame(rx: Rx, m: Message)
    requires Idle(rx) && Sendable(m) && !Inline(m)
    ensures Feed(rx, Encode(m, rx.nextSeq)) == Next(rx, m)
  {
    hide Feed, Prefix;
    var w := WireBytes(m);
    var p, pad, tail := Plain(Prefix(w, 0, rx.nextSeq)), Padding(w - 1 - FRAME_PREFIX_SIZE), [Octet(0, Some(m.payload))];
    PrefixParsed(rx, w, 0);
    assert (p + pad) + tail == p + (pad + tail);
    FeedConcat(rx, p, pad + tail);
    FeedBody(Feed(rx, p), pad + tail);
  }

  // A frame leaves the receiver between frames again, with its message delivered, or
  // waiting to be as soon as another byte comes.
  lemma OneFrame(rx: Rx, m: Message)
    requires Idle(rx) && Sendable(m)
    ensures Finish(Feed(rx, Encode(m, rx.nextSeq))) == Next(rx, m) && Idle(Next(rx, m))
    ensures Feed(rx, Encode(m, rx.nextSeq)) == Next(rx, m) <==> !Unpadded(m)
    ensures Unpadded(m) ==> Feed(rx, Encode(m, rx.nextSeq)).out == rx.out
  {
    hide Feed, Encode, Prefix;
    if Inline(m) {
      InlineFrame(rx, m);
    } else {
      TaggedFrame(rx, m);
    }
  }

  // ---------------------------------------------------------------------
  // The whole stream
  // ---------------------------------------------------------------------

  function AfterAll(ms: seq<Message>): Rx {
    START.(nextSeq := Wrap(|ms|), out := ReceivedAll(ms))
  }

  lemma {:induction false} StreamFinished(ms: seq<Message>)
    requires forall m :: m in ms ==> Sendable(m)
    ensures Finish(Feed(START, EncodeAll(ms))) == AfterAll(ms)
    decreases |ms|
  {
    hide *;
    EmptyStream();
    if ms != [] {
      var init := ms[..|ms| - 1];
      StreamFinished(init);
      LastFrame(ms);
    }
  }

  lemma EmptyStream()
    ensures Wellformed(START) && Idle(START)
    ensures EncodeAll([]) == [] && Feed(START, EncodeAll([])) == START && Finish(START) == START && AfterAll([]) == START
  {
  }

  lemma AfterFacts(ms: seq<Message>)
    ensures Idle(AfterAll(ms)) && Wellformed(AfterAll(ms)) && AfterAll(ms).nextSeq == Wrap(|ms|)
    ensures AfterAll(ms).out == ReceivedAll(ms)
    ensures ms != [] ==> AfterAll(ms) == Next(AfterAll(ms[..|ms| - 1]), ms[|ms| - 1])
  {
    hide Received, ReceivedAll, Wellformed, Wrap;
    IdleWellformed(AfterAll(ms));
    if ms != [] {
      NextNumber(|ms| - 1);
      ReceivedStep(ms);
    }
  }

  lemma IdleWellformed(rx: Rx)
    requires Idle(rx)
    ensures Wellformed(rx)
  {
  }

  lemma ReceivedStep(ms: seq<Message>)
    requires ms != []
    ensures ReceivedAll(ms) == ReceivedAll(ms[..|ms| - 1]) + Received(ms[|ms| - 1])
  {
  }

  // The last frame meets the receiver between frames.
  lemma LastFrame(ms: seq<Message>)
    requires (forall m :: m in ms ==> Sendable(m)) && ms != []
    requires Finish(Feed(START, EncodeAll(ms[..|ms| - 1]))) == AfterAll(ms[..|ms| - 1])
    ensures var rx, m := AfterAll(ms[..|ms| - 1]), ms[|ms| - 1];
      && Wellformed(rx) && Idle(rx) && Sendable(m)
      && Feed(START, EncodeAll(ms)) == Feed(rx, Encode(m, rx.nextSeq))
      && Finish(Feed(START, EncodeAll(ms))) == AfterAll(ms)
  {
    hide Feed, Encode, Finish, Received, Unpadded, AfterAll, Wellformed, Idle, Next;
    EmptyStream();
    var init, m := ms[..|ms| - 1], ms[|ms| - 1];
    assert m in ms;
    AfterFacts(init);
    AfterFacts(ms);
    var octets := Encode(m, Wrap(|init|));
    FeedConcat(START, EncodeAll(init), octets);
    FeedFinish(Feed(START, EncodeAll(init)), octets);
    OneFrame(AfterAll(init), m);
  }

  // What a list of messages is received as.
  lemma ReceivedAppend(ms: seq<Message>, m: Message)
    ensures ReceivedAll([]) == []
    ensures ReceivedAll(ms + [m])
         == ReceivedAll(ms) + if m.payload == [] then [] else [Delivery(m.payload, if m.size > 17 then m.size else 17)]
  {
    assert (ms + [m])[..|ms|] == ms;
  }

  lemma {:induction false} ReceivedInWords(ms: seq<Message>)
    requires forall m :: m in ms ==> m.payload != []
    ensures |ReceivedAll(ms)| == |ms|
    ensures forall i :: 0 <= i < |ms| ==>
              ReceivedAll(ms)[i] == Delivery(ms[i].payload, if ms[i].size > 17 then ms[i].size else 17)
    decreases |ms|
  {
    hide ReceivedAll;
    if ms != [] {
      var init, m := ms[..|ms| - 1], ms[|ms| - 1];
      ReceivedInWords(init);
      ReceivedAppend(init, m);
      assert m in ms && ms == init + [m];
    } else {
      ReceivedAppend([], Message([], 0));
    }
  }

  // For every list of messages the receiver ends with exactly their payloads and sizes,
  // in order; only a last message without padding may still be waiting.
  lemma StreamRoundTrip(ms: seq<Message>)
    requires forall m :: m in ms ==> Sendable(m)
    ensures Finish(Feed(START, EncodeAll(ms))) == AfterAll(ms)
    ensures Feed(START, EncodeAll(ms)) == AfterAll(ms) <==> ms == [] || !Unpadded(ms[|ms| - 1])
    ensures ms != [] && Unpadded(ms[|ms| - 1]) ==>
              Feed(START, EncodeAll(ms)).out == ReceivedAll(ms[..|ms| - 1])
    ensures (forall m :: m in ms ==> m.payload != []) ==>
              var out := Finish(Feed(START, EncodeAll(ms))).out;
              && |out| == |ms|
              && forall i :: 0 <= i < |ms| ==> out[i] == Delivery(ms[i].payload, if ms[i].size > 17 then ms[i].size else 17)
  {
    hide *;
    if forall m :: m in ms ==> m.payload != [] {
      ReceivedInWords(ms);
      AfterFacts(ms);
    }
    StreamFinished(ms);
    EmptyStream();
    if ms != [] {
      var init, m := ms[..|ms| - 1], ms[|ms| - 1];
      StreamFinished(init);
      LastFrame(ms);
      AfterFacts(init);
      AfterFacts(ms);
      OneFrame(AfterAll(init), m);
    }
  }

  lemma NextNumber(n: nat)
    ensures Wrap(Wrap(n) + 1) == Wrap(n + 1)
  {
  }

  // However much of the stream has come in, the receiver has not given up, and has
  // delivered a prefix of the messages.
  lemma AnyPrefixIsFine(ms: seq<Message>, got: seq<Octet>)
    requires (forall m :: m in ms ==> Sendable(m)) && got <= EncodeAll(ms)
    ensures !Feed(START, got).aborted && Feed(START, got).out <= ReceivedAll(ms)
  {
    hide Feed, ReceivedAll, EncodeAll, Wellformed;
    EmptyStream();
    AfterFacts(ms);
    var rest := EncodeAll(ms)[|got|..];
    assert got + rest == EncodeAll(ms);
    StreamRoundTrip(ms);
    FeedConcat(START, got, rest);
    FeedKeeps(START, got);
    FeedKeeps(Feed(START, got), rest);
    assert Feed(START, EncodeAll(ms)).out <= ReceivedAll(ms);
  }
}
