/**
 * The two ends of a connection: the receiver that reassembles frames from chunks, and the
 * sender that splits them over the free space of a socket.
 */
module FrameStreams {
  import opened Orders
  import opened Frames

  // ---------------------------------------------------------------------
  // Receiving
  // ---------------------------------------------------------------------

  method CollectTags(packet: seq<Octet>) returns (payloads: map<nat, seq<U8>>)
    ensures forall p: nat :: p in payloads <==> 0 < p <= |packet| && packet[p - 1].tag.Some?
    ensures forall p: nat :: p in payloads ==> payloads[p] == packet[p - 1].tag.value
  {
    payloads := map[];
    for i := 0 to |packet|
      invariant forall p: nat :: p in payloads <==> 0 < p <= i && packet[p - 1].tag.Some?
      invariant forall p: nat :: p in payloads ==> payloads[p] == packet[p - 1].tag.value
    {
      if packet[i].tag.Some? {
        payloads := payloads[i + 1 := packet[i].tag.value];
      }
    }
  }

  // Where the loop over a chunk stands: it has taken `got`, and may already have
  // completed the frame that got ended.
  ghost predicate Reached(start: Rx, got: seq<Octet>, rx: Rx)
    requires Wellformed(start)
  {
    rx == Feed(start, got) || rx == Finish(Feed(start, got))
  }

  lemma Advance(start: Rx, packet: seq<Octet>, pos: nat, pos': nat, rx: Rx)
    requires Wellformed(start) && Wellformed(rx) && pos < pos' <= |packet| && Reached(start, packet[..pos], rx)
    ensures Feed(rx, packet[pos..pos']) == Feed(start, packet[..pos'])
  {
    hide Feed, Finish, Wellformed;
    assert packet[..pos'] == packet[..pos] + packet[pos..pos'];
    FeedConcat(start, packet[..pos], packet[pos..pos']);
    FeedFinish(Feed(start, packet[..pos]), packet[pos..pos']);
  }

  lemma FinishTwice(rx: Rx)
    ensures Finish(Finish(rx)) == Finish(rx)
  {
  }

  class RxFrameState {
    var prefix: seq<U8>
    var frameLen: nat
    var payloadLen: nat
    var bodyRemaining: nat
    var nextSeq: nat
    var payload: seq<U8>
    // the process gave up on a corrupt stream
    var aborted: bool
    var delivered: seq<Delivery>
    // the application has not been stopped
    var running: bool

    ghost function View(): Rx
      reads this
    {
      Rx(prefix, frameLen, payloadLen, bodyRemaining, nextSeq, payload, aborted, delivered)
    }

    constructor ()
      ensures View() == START && running
    {
      prefix, frameLen, payloadLen, bodyRemaining, nextSeq, payload := [], 0, 0, 0, 0, [];
      aborted, delivered, running := false, [], true;
    }

    method ResetFrame()
      modifies this
      ensures running == old(running)
      ensures View() == Reset(old(View()))
    {
      prefix, frameLen, payloadLen, bodyRemaining, payload := [], 0, 0, 0, [];
    }

    // Prefix bytes, and the checks once there are sixteen (node.cc:431-461).
    method TakePrefix(packet: seq<Octet>, pos: nat) returns (pos': nat)
      requires Wellformed(View()) && !aborted && |prefix| < FRAME_PREFIX_SIZE && pos < |packet|
      modifies this
      ensures running == old(running) && delivered == old(delivered)
      ensures pos < pos' <= |packet|
      ensures View() == Feed(old(View()), packet[pos..pos'])
    {
      hide Feed, ReadU32;
      ghost var rx := View();
      var missing := FRAME_PREFIX_SIZE - |prefix|;
      var take := if missing < |packet| - pos then missing else |packet| - pos;
      pos' := pos + take;
      ghost var octets := packet[pos..pos'];
      if |octets| < missing {
        FeedPrefix(rx, octets);
      } else {
        FeedHeader(rx, octets);
      }
      prefix := prefix + Values(packet[pos..pos']);
      if |prefix| == FRAME_PREFIX_SIZE {
        var magic, len := ReadU32(prefix[0..4]), ReadU32(prefix[4..8]);
        var inlineLen, number := ReadU32(prefix[8..12]), ReadU32(prefix[12..16]);
        if magic != FRAME_MAGIC || len <= FRAME_PREFIX_SIZE || inlineLen > len - FRAME_PREFIX_SIZE || number != nextSeq {
          aborted := true;
          return;
        }
        nextSeq := Wrap(number + 1);
        frameLen := len;
        payloadLen := inlineLen;
        payload := [];
        bodyRemaining := len - FRAME_PREFIX_SIZE;
      }
    }

    // Inline payload bytes (node.cc:464-475).
    method TakePayload(packet: seq<Octet>, pos: nat) returns (pos': nat)
      requires Wellformed(View()) && !aborted && |prefix| == FRAME_PREFIX_SIZE && |payload| < payloadLen && pos < |packet|
      modifies this
      ensures running == old(running) && delivered == old(delivered)
      ensures pos < pos' <= |packet|
      ensures View() == Feed(old(View()), packet[pos..pos'])
    {
      hide Feed;
      var missing := payloadLen - |payload|;
      var take := if missing < |packet| - pos then missing else |packet| - pos;
      pos' := pos + take;
      FeedPayload(View(), packet[pos..pos']);
      payload := payload + Values(packet[pos..pos']);
      bodyRemaining := bodyRemaining - take;
    }

    // Padding, the tagged byte, and the end of the frame (node.cc:477-515); what the
    // payload does when it is processed may stop the application.
    method TakeBody(packet: seq<Octet>, pos: nat, payloads: map<nat, seq<U8>>, stops: seq<Delivery> -> bool) returns (pos': nat)
      requires Wellformed(View()) && !aborted && |prefix| == FRAME_PREFIX_SIZE && |payload| == payloadLen && pos < |packet|
      requires forall p: nat :: p in payloads <==> 0 < p <= |packet| && packet[p - 1].tag.Some?
      requires forall p: nat :: p in payloads ==> payloads[p] == packet[p - 1].tag.value
      modifies this
      ensures pos <= pos' <= |packet|
      ensures pos < pos' ==> View() == Feed(old(View()), packet[pos..pos'])
      ensures pos == pos' ==> Pending(old(View())) && View() == Finish(old(View()))
      ensures !running && old(running) ==> |delivered| > |old(delivered)| && stops(delivered)
      ensures old(delivered) <= delivered
      ensures forall n :: |old(delivered)| < n <= |delivered| && (n < |delivered| || running) ==> !stops(delivered[..n])
    {
      hide Feed;
      ghost var rx := View();
      var take := if bodyRemaining < |packet| - pos then bodyRemaining else |packet| - pos;
      pos' := pos + take;
      ghost var octets := packet[pos..pos'];
      if 0 < take < bodyRemaining {
        FeedPadding(rx, octets);
      } else if take > 0 {
        FeedBody(rx, octets);
        assert octets[|octets| - 1] == packet[pos' - 1];
      }
      bodyRemaining := bodyRemaining - take;
      if bodyRemaining > 0 {
        return;
      }
      if payloadLen > 0 {
        delivered := delivered + [Delivery(payload, frameLen)];
      } else if pos' in payloads {
        delivered := delivered + [Delivery(payloads[pos'], frameLen)];
      } else {
        ResetFrame();
        return;
      }
      ResetFrame();
      assert delivered[..|delivered|] == delivered;
      running := !stops(delivered);
    }

    // One chunk (node.cc:411-518): however the stream was cut, the state reached is the
    // one its bytes lead to one at a time. If a delivery stops the application, `got`
    // says how many bytes had been taken.
    method HandleChunk(packet: seq<Octet>, stops: seq<Delivery> -> bool) returns (ghost got: nat)
      requires Wellformed(View()) && running
      modifies this
      ensures Wellformed(View()) && got <= |packet| && Reached(old(View()), packet[..got], View())
      ensures running ==> View() == Feed(old(View()), packet)
      ensures !running ==> stops(delivered)
      ensures old(delivered) <= delivered
      ensures forall n :: |old(delivered)| < n <= |delivered| && (n < |delivered| || running) ==> !stops(delivered[..n])
    {
      hide Feed, Wellformed, Finish, Reached;
      ghost var start := View();
      var payloads := CollectTags(packet);
      var pos := 0;
      ReachedStart(start, packet);
      while pos < |packet| && !aborted && running
        invariant pos <= |packet| && Wellformed(View())
        invariant Reached(start, packet[..pos], View())
        invariant pos == |packet| && running ==> View() == Feed(start, packet)
        invariant !running ==> stops(delivered)
        invariant old(delivered) <= delivered
        invariant forall n :: |old(delivered)| < n <= |delivered| && (n < |delivered| || running) ==> !stops(delivered[..n])
        decreases |packet| - pos, if Pending(View()) then 1 else 0
      {
        ghost var rx := View();
        ghost var was := delivered;
        Sizes(rx);
        var pos';
        if |prefix| < FRAME_PREFIX_SIZE {
          pos' := TakePrefix(packet, pos);
        } else if |payload| < payloadLen {
          pos' := TakePayload(packet, pos);
        } else {
          pos' := TakeBody(packet, pos, payloads, stops);
        }
        assert forall n :: 0 <= n <= |was| ==> was[..n] == delivered[..n];
        if pos' > pos {
          Advance(start, packet, pos, pos', rx);
          FeedWellformed(rx, packet[pos..pos']);
        }
        ReachedNext(start, packet, pos, pos', rx, View());
        assert packet[..|packet|] == packet;
        pos := pos';
      }
      got := pos;
      if aborted {
        ReachedAborted(start, packet, pos, View());
      }
    }

    // Every chunk up to an empty read (node.cc:403-518); nothing once stopped.
    method HandleRead(packets: seq<seq<Octet>>, stops: seq<Delivery> -> bool) returns (ghost n: nat, ghost got: nat)
      requires Wellformed(View())
      modifies this
      ensures n <= |packets| && forall i :: 0 <= i < n ==> packets[i] != []
      ensures Wellformed(View()) && Wellformed(Feed(old(View()), Concat(packets[..n])))
      ensures running ==> View() == Feed(old(View()), Concat(packets[..n])) && (n < |packets| ==> packets[n] == [])
      ensures old(running) && !running ==> n < |packets| && got <= |packets[n]| && stops(delivered)
      ensures old(running) && !running ==> Reached(Feed(old(View()), Concat(packets[..n])), packets[n][..got], View())
      ensures !old(running) ==> View() == old(View()) && !running
      ensures old(delivered) <= delivered
      ensures forall n :: |old(delivered)| < n <= |delivered| && (n < |delivered| || running) ==> !stops(delivered[..n])
    {
      hide Feed, Wellformed, Reached;
      ghost var start := View();
      FeedNone(start);
      n, got := 0, 0;
      assert packets[..0] == [];
      if !running {
        return;
      }
      for i := 0 to |packets|
        invariant running && forall j :: 0 <= j < i ==> packets[j] != []
        invariant Wellformed(View()) && View() == Feed(start, Concat(packets[..i]))
        invariant old(delivered) <= delivered
        invariant forall n :: |old(delivered)| < n <= |delivered| ==> !stops(delivered[..n])
      {
        ghost var was := delivered;
        n := i;
        if packets[i] == [] {
          return;
        }
        assert packets[..i + 1][..i] == packets[..i];
        FeedConcat(start, Concat(packets[..i]), packets[i]);
        got := HandleChunk(packets[i], stops);
        assert forall n :: 0 <= n <= |was| ==> was[..n] == delivered[..n];
        if !running {
          return;
        }
      }
      n := |packets|;
    }
  }

  lemma FeedNone(rx: Rx)
    requires Wellformed(rx)
    ensures Feed(rx, []) == rx
  {
  }

  lemma Sizes(rx: Rx)
    requires Wellformed(rx) && !rx.aborted
    ensures |rx.prefix| <= FRAME_PREFIX_SIZE
    ensures |rx.prefix| == FRAME_PREFIX_SIZE ==> |rx.payload| <= rx.payloadLen
  {
  }

  lemma FeedWellformed(rx: Rx, octets: seq<Octet>)
    requires Wellformed(rx)
    ensures Wellformed(Feed(rx, octets))
  {
  }

  lemma ReachedStart(start: Rx, packet: seq<Octet>)
    requires Wellformed(start)
    ensures Reached(start, packet[..0], start) && (packet == [] ==> start == Feed(start, packet))
  {
  }

  lemma ReachedNext(start: Rx, packet: seq<Octet>, pos: nat, pos': nat, rx: Rx, rx': Rx)
    requires Wellformed(start) && Wellformed(rx) && pos <= pos' <= |packet| && pos < |packet| && Reached(start, packet[..pos], rx)
    requires pos < pos' ==> rx' == Feed(start, packet[..pos'])
    requires pos == pos' ==> Pending(rx) && rx' == Finish(rx)
    ensures Reached(start, packet[..pos'], rx') && (pos == pos' ==> Wellformed(rx') && !Pending(rx'))
  {
    hide Feed;
    FinishTwice(Feed(start, packet[..pos]));
  }

  lemma ReachedAborted(start: Rx, packet: seq<Octet>, pos: nat, rx: Rx)
    requires Wellformed(start) && pos <= |packet| && Reached(start, packet[..pos], rx) && rx.aborted
    ensures rx == Feed(start, packet)
  {
    hide Feed, Wellformed;
    assert packet == packet[..pos] + packet[pos..];
    FeedConcat(start, packet[..pos], packet[pos..]);
    FeedKeeps(Feed(start, packet[..pos]), packet[pos..]);
  }

  // ---------------------------------------------------------------------
  // Sending
  // ---------------------------------------------------------------------

  lemma {:induction false} ConcatAppend(a: seq<seq<Octet>>, b: seq<seq<Octet>>)
    ensures Concat(a + b) == Concat(a) + Concat(b)
    decreases |b|
  {
    if b == [] {
      assert a + b == a;
    } else {
      var n := |b| - 1;
      ConcatAppend(a, b[..n]);
      assert (a + b)[..|a + b| - 1] == a + b[..n];
    }
  }

  lemma ConcatOne(a: seq<Octet>)
    ensures Concat([a]) == a
  {
    assert [a][..0] == [];
  }

  lemma ConcatHead(q: seq<seq<Octet>>)
    requires q != []
    ensures Concat(q) == q[0] + Concat(q[1..])
  {
    assert q == [q[0]] + q[1..];
    ConcatAppend([q[0]], q[1..]);
    ConcatOne(q[0]);
  }

  // The queue with its head gone, or split at n.
  lemma ConcatSplit(q: seq<seq<Octet>>, n: nat)
    requires q != [] && n <= |q[0]|
    ensures Concat(q) == q[0][..n] + Concat([q[0][n..]] + q[1..])
  {
    ConcatHead(q);
    ConcatAppend([q[0][n..]], q[1..]);
    ConcatOne(q[0][n..]);
    assert q[0] == q[0][..n] + q[0][n..];
  }

  lemma EncodeAllStep(ms: seq<Message>, m: Message)
    requires (forall x :: x in ms ==> Sendable(x)) && Sendable(m)
    ensures forall x :: x in ms + [m] ==> Sendable(x)
    ensures EncodeAll(ms + [m]) == EncodeAll(ms) + Encode(m, Wrap(|ms|))
  {
    assert (ms + [m])[..|ms|] == ms;
  }

  class FrameSender {
    // packets waiting for send-buffer space
    var queue: seq<seq<Octet>>
    var frameSeq: nat
    // bytes the socket has taken, and messages enqueued so far
    ghost var handed: seq<Octet>
    ghost var sent: seq<Message>

    // Nothing is lost, added or reordered.
    ghost predicate Valid()
      reads this
    {
      && frameSeq == Wrap(|sent|)
      && (forall m :: m in sent ==> Sendable(m))
      && (forall q :: q in queue ==> q != [])
      && handed + Concat(queue) == EncodeAll(sent)
    }

    constructor ()
      ensures Valid() && sent == [] && handed == [] && queue == []
    {
      queue, frameSeq, handed, sent := [], 0, [], [];
    }

    // EnqueueFrame (node.cc:557-598); the socket's free space and answers at each attempt
    // are arbitrary. The frame joins the queue as one packet, or as two if the payload
    // goes as a tag, and the attempts follow.
    method EnqueueFrame(m: Message, free: nat -> nat, takes: nat -> bool) returns (ghost trace: seq<seq<seq<Octet>>>)
      requires Valid() && Sendable(m)
      modifies this
      ensures Valid() && sent == old(sent) + [m] && old(handed) <= handed
      ensures handed + Concat(queue) == EncodeAll(sent)
      ensures trace != [] && old(queue) <= trace[0] && trace[|trace| - 1] == queue
      ensures Concat(trace[0]) == Concat(old(queue)) + Encode(m, |old(sent)| % 0x1_0000_0000)
      ensures |trace[0]| == |old(queue)| + if 16 + |m.payload| <= m.size || 16 + |m.payload| <= 17 then 1 else 2
      ensures |trace[0]| == |old(queue)| + 2 ==> trace[0][|old(queue)| + 1] == [Octet(0, Some(m.payload))]
      ensures forall i :: 0 <= i < |trace| - 1 ==>
                && free(i) > 0 && takes(i) && trace[i] != []
                && trace[i + 1] == (if |trace[i][0]| <= free(i) then trace[i][1..] else [trace[i][0][free(i)..]] + trace[i][1..])
                && |Concat(trace[i])| - |Concat(trace[i + 1])| == if |trace[i][0]| <= free(i) then |trace[i][0]| else free(i)
      ensures queue == [] || free(|trace| - 1) == 0 || !takes(|trace| - 1)
      ensures (forall i: nat :: free(i) > 0 && takes(i)) ==> queue == [] && handed == EncodeAll(sent)
    {
      hide Encode, EncodeAll, Concat, Prefix, Wrap;
      var w := if m.size > FRAME_PREFIX_SIZE + 1 then m.size else FRAME_PREFIX_SIZE + 1;
      var number := frameSeq;
      EncodeAllStep(sent, m);
      EncodeMeans(m, number);
      NextNumber(|sent|);
      WrapIs(|sent|);
      frameSeq := Wrap(frameSeq + 1);
      ghost var old_queue := queue;
      if FRAME_PREFIX_SIZE + |m.payload| <= w {
        var frame := Plain(Prefix(w, |m.payload|, number)) + Plain(m.payload) + Padding(w - FRAME_PREFIX_SIZE - |m.payload|);
        QueueOne(queue, frame);
        queue := queue + [frame];
      } else {
        var body := Plain(Prefix(w, 0, number)) + Padding(w - 1 - FRAME_PREFIX_SIZE);
        var tail := [Octet(0, Some(m.payload))];
        QueueTwo(queue, body, tail);
        queue := queue + [body];
        queue := queue + [tail];
      }
      assert handed + (Concat(old_queue) + Encode(m, number)) == (handed + Concat(old_queue)) + Encode(m, number);
      sent := sent + [m];
      trace := HandleSendReady(free, takes);
    }

    // HandleSendReady (node.cc:602-629): every attempt but the last finds space and an
    // accepting socket, and hands over the packet in front or as much of it as there is
    // space for; the last finds nothing to send, no space, or a refusal.
    method HandleSendReady(free: nat -> nat, takes: nat -> bool) returns (ghost trace: seq<seq<seq<Octet>>>)
      requires Valid()
      modifies this
      ensures Valid() && sent == old(sent) && old(handed) <= handed
      ensures handed + Concat(queue) == EncodeAll(sent)
      ensures trace != [] && trace[0] == old(queue) && trace[|trace| - 1] == queue
      ensures forall i :: 0 <= i < |trace| - 1 ==>
                && free(i) > 0 && takes(i) && trace[i] != []
                && trace[i + 1] == (if |trace[i][0]| <= free(i) then trace[i][1..] else [trace[i][0][free(i)..]] + trace[i][1..])
                && |Concat(trace[i])| - |Concat(trace[i + 1])| == if |trace[i][0]| <= free(i) then |trace[i][0]| else free(i)
      ensures queue == [] || free(|trace| - 1) == 0 || !takes(|trace| - 1)
      ensures (forall i: nat :: free(i) > 0 && takes(i)) ==> queue == [] && handed == EncodeAll(sent)
    {
      hide EncodeAll, Concat, Wrap, Attempts, AttemptAt;
      var attempt := 0;
      trace := [queue];
      NoAttempt(trace, free, takes);
      while queue != []
        invariant Valid() && sent == old(sent) && old(handed) <= handed
        invariant attempt == |trace| - 1 && trace[0] == old(queue) && trace[attempt] == queue
        invariant Attempts(trace, free, takes)
        decreases |Concat(queue)|
      {
        var available := free(attempt);
        var took := takes(attempt);
        if available == 0 {
          break;
        }
        var head := queue[0];
        assert head in queue;
        if |head| <= available {
          if !took {
            break;
          }
          PopQueue(handed, queue);
          handed := handed + head;
          queue := queue[1..];
        } else {
          if !took {
            break;
          }
          SplitQueue(handed, queue, available);
          handed := handed + head[..available];
          queue := [head[available..]] + queue[1..];
        }
        AnotherAttempt(trace, free, takes, queue);
        trace := trace + [queue];
        attempt := attempt + 1;
      }
      AttemptsMeans(trace, free, takes);
      NothingQueued(handed);
    }

    // Frames enqueued one after the other.
    method EnqueueEach(ms: seq<Message>, free: nat -> nat, takes: nat -> bool)
      requires Valid() && forall m :: m in ms ==> Sendable(m)
      modifies this
      ensures Valid() && sent == old(sent) + ms && old(handed) <= handed
      ensures handed + Concat(queue) == EncodeAll(sent)
      ensures ms == [] ==> queue == old(queue) && handed == old(handed)
      ensures ms != [] && (forall i: nat :: free(i) > 0 && takes(i)) ==> queue == [] && handed == EncodeAll(sent)
    {
      hide Valid, Sendable, EncodeAll, Concat, Encode, Wrap;
      ValidFacts();
      for i := 0 to |ms|
        invariant Valid() && sent == old(sent) + ms[..i] && old(handed) <= handed
        invariant (forall x :: x in sent ==> Sendable(x)) && handed + Concat(queue) == EncodeAll(sent)
        invariant i == 0 ==> queue == old(queue) && handed == old(handed)
        invariant i > 0 && (forall i: nat :: free(i) > 0 && takes(i)) ==> queue == [] && handed == EncodeAll(sent)
      {
        assert ms[i] in ms;
        assert ms[..i + 1] == ms[..i] + [ms[i]];
        ghost var trace := EnqueueFrame(ms[i], free, takes);
        ValidFacts();
      }
      assert ms[..|ms|] == ms;
    }

    lemma ValidFacts()
      requires Valid()
      ensures forall m :: m in sent ==> Sendable(m)
      ensures handed + Concat(queue) == EncodeAll(sent)
    {
      hide Sendable, EncodeAll, Concat;
    }
  }

  // What one attempt does to the queue.
  ghost predicate AttemptAt(q: seq<seq<Octet>>, q': seq<seq<Octet>>, space: nat, took: bool) {
    && space > 0 && took && q != []
    && q' == (if |q[0]| <= space then q[1..] else [q[0][space..]] + q[1..])
    && |Concat(q)| - |Concat(q')| == if |q[0]| <= space then |q[0]| else space
  }

  ghost predicate Attempts(trace: seq<seq<seq<Octet>>>, free: nat -> nat, takes: nat -> bool) {
    forall i :: 0 <= i < |trace| - 1 ==> AttemptAt(trace[i], trace[i + 1], free(i), takes(i))
  }

  lemma NoAttempt(trace: seq<seq<seq<Octet>>>, free: nat -> nat, takes: nat -> bool)
    requires |trace| == 1
    ensures Attempts(trace, free, takes)
  {
  }

  lemma AnotherAttempt(trace: seq<seq<seq<Octet>>>, free: nat -> nat, takes: nat -> bool, queue: seq<seq<Octet>>)
    requires trace != [] && Attempts(trace, free, takes) && trace[|trace| - 1] != []
    requires free(|trace| - 1) > 0 && takes(|trace| - 1)
    requires var head, rest, space := trace[|trace| - 1][0], trace[|trace| - 1][1..], free(|trace| - 1);
      queue == if |head| <= space then rest else [head[space..]] + rest
    ensures Attempts(trace + [queue], free, takes)
  {
    hide Concat, AttemptAt;
    var n := |trace| - 1;
    AttemptDone(trace[n], queue, free(n));
    var trace' := trace + [queue];
    forall i | 0 <= i < |trace'| - 1
      ensures AttemptAt(trace'[i], trace'[i + 1], free(i), takes(i))
    {
      assert i < n ==> AttemptAt(trace[i], trace[i + 1], free(i), takes(i));
    }
  }

  lemma AttemptDone(q: seq<seq<Octet>>, q': seq<seq<Octet>>, space: nat)
    requires q != [] && space > 0 && q' == if |q[0]| <= space then q[1..] else [q[0][space..]] + q[1..]
    ensures AttemptAt(q, q', space, true)
  {
    hide Concat;
    if |q[0]| <= space {
      ConcatHead(q);
    } else {
      ConcatSplit(q, space);
    }
  }

  lemma AttemptsMeans(trace: seq<seq<seq<Octet>>>, free: nat -> nat, takes: nat -> bool)
    requires Attempts(trace, free, takes)
    ensures forall i :: 0 <= i < |trace| - 1 ==>
              && free(i) > 0 && takes(i) && trace[i] != []
              && trace[i + 1] == (if |trace[i][0]| <= free(i) then trace[i][1..] else [trace[i][0][free(i)..]] + trace[i][1..])
              && |Concat(trace[i])| - |Concat(trace[i + 1])| == if |trace[i][0]| <= free(i) then |trace[i][0]| else free(i)
  {
    hide Concat;
    forall i | 0 <= i < |trace| - 1
      ensures free(i) > 0 && takes(i) && trace[i] != []
      ensures trace[i + 1] == (if |trace[i][0]| <= free(i) then trace[i][1..] else [trace[i][0][free(i)..]] + trace[i][1..])
      ensures |Concat(trace[i])| - |Concat(trace[i + 1])| == if |trace[i][0]| <= free(i) then |trace[i][0]| else free(i)
    {
      assert AttemptAt(trace[i], trace[i + 1], free(i), takes(i));
    }
  }

  lemma NothingQueued(handed: seq<Octet>)
    ensures handed + Concat([]) == handed
  {
  }

  lemma PopQueue(handed: seq<Octet>, queue: seq<seq<Octet>>)
    requires queue != [] && forall q :: q in queue ==> q != []
    ensures handed + Concat(queue) == (handed + queue[0]) + Concat(queue[1..])
    ensures |Concat(queue[1..])| < |Concat(queue)|
    ensures forall q :: q in queue[1..] ==> q != []
  {
    hide Concat;
    ConcatHead(queue);
    assert queue[0] in queue;
    assert handed + (queue[0] + Concat(queue[1..])) == (handed + queue[0]) + Concat(queue[1..]);
    forall q | q in queue[1..]
      ensures q != []
    {
      assert q in queue;
    }
  }

  lemma SplitQueue(handed: seq<Octet>, queue: seq<seq<Octet>>, n: nat)
    requires queue != [] && n < |queue[0]| && forall q :: q in queue ==> q != []
    ensures var rest := [queue[0][n..]] + queue[1..];
      && handed + Concat(queue) == (handed + queue[0][..n]) + Concat(rest)
      && |Concat(rest)| + n == |Concat(queue)|
      && (forall q :: q in rest ==> q != [])
  {
    hide Concat;
    ConcatSplit(queue, n);
    var rest := [queue[0][n..]] + queue[1..];
    assert handed + (queue[0][..n] + Concat(rest)) == (handed + queue[0][..n]) + Concat(rest);
    forall q | q in rest
      ensures q != []
    {
      assert q == queue[0][n..] || q in queue;
    }
  }

  lemma EncodeMeans(m: Message, number: nat)
    requires Sendable(m) && number < WORD
    ensures WireBytes(m) == if m.size > FRAME_PREFIX_SIZE + 1 then m.size else FRAME_PREFIX_SIZE + 1
    ensures FRAME_PREFIX_SIZE + |m.payload| <= WireBytes(m) ==>
              Encode(m, number) == Plain(Prefix(WireBytes(m), |m.payload|, number)) + Plain(m.payload)
                                   + Padding(WireBytes(m) - FRAME_PREFIX_SIZE - |m.payload|)
    ensures FRAME_PREFIX_SIZE + |m.payload| > WireBytes(m) ==>
              Encode(m, number) == Plain(Prefix(WireBytes(m), 0, number)) + Padding(WireBytes(m) - 1 - FRAME_PREFIX_SIZE)
                                   + [Octet(0, Some(m.payload))]
  {
  }

  lemma QueueOne(queue: seq<seq<Octet>>, a: seq<Octet>)
    ensures Concat(queue + [a]) == Concat(queue) + a
  {
    ConcatAppend(queue, [a]);
    ConcatOne(a);
  }

  lemma QueueTwo(queue: seq<seq<Octet>>, a: seq<Octet>, b: seq<Octet>)
    ensures Concat(queue + [a] + [b]) == Concat(queue) + (a + b)
  {
    QueueOne(queue, a);
    QueueOne(queue + [a], b);
  }

  lemma SomeReceived(sent: seq<Message>, out: seq<Delivery>)
    requires out <= ReceivedAll(sent)
    ensures (forall m :: m in sent ==> m.payload != []) ==>
              && |out| <= |sent|
              && forall i :: 0 <= i < |out| ==> out[i] == Delivery(sent[i].payload, if sent[i].size > 17 then sent[i].size else 17)
  {
    hide ReceivedAll;
    if forall m :: m in sent ==> m.payload != [] {
      ReceivedInWords(sent);
    }
  }

  // Any cutting of any part of what the socket has taken is received without giving up,
  // as a prefix of the messages; cutting up all of it, as all of them.
  lemma EndToEnd(sent: seq<Message>, handed: seq<Octet>, queued: seq<Octet>, chunks: seq<seq<Octet>>)
    requires (forall m :: m in sent ==> Sendable(m)) && handed + queued == EncodeAll(sent)
    requires Concat(chunks) <= handed
    ensures !Feed(START, Concat(chunks)).aborted && Feed(START, Concat(chunks)).out <= ReceivedAll(sent)
    ensures queued == [] && Concat(chunks) == handed ==> Finish(Feed(START, Concat(chunks))).out == ReceivedAll(sent)
    ensures (forall m :: m in sent ==> m.payload != []) ==>
              var out := Feed(START, Concat(chunks)).out;
              && |out| <= |sent|
              && forall i :: 0 <= i < |out| ==> out[i] == Delivery(sent[i].payload, if sent[i].size > 17 then sent[i].size else 17)
  {
    hide *;
    EmptyStream();
    AnyPrefixIsFine(sent, Concat(chunks));
    SomeReceived(sent, Feed(START, Concat(chunks)).out);
    StreamRoundTrip(sent);
    AfterFacts(sent);
    assert queued == [] ==> handed + queued == handed;
  }

  // ---------------------------------------------------------------------
  // A connection to one peer
  // ---------------------------------------------------------------------

  class Connection {
    var socket: FrameSender?
    // messages queued until the connection stands
    var pending: Option<seq<Message>>
    // everything submitted since the socket was created
    ghost var submitted: seq<Message>

    ghost predicate Valid()
      reads this, socket
    {
      && (pending.Some? ==> forall m :: m in pending.value ==> Sendable(m))
      && (socket == null ==> pending.None? && submitted == [])
      && (socket != null ==>
            socket.Valid() && submitted == socket.sent + (if pending.Some? then pending.value else []))
    }

    constructor ()
      ensures Valid() && socket == null
    {
      socket, pending, submitted := null, None, [];
    }

    // SendSerialized (node.cc:533-555) with CreatePeerSocket (node.cc:1570-1584).
    method SendSerialized(m: Message, free: nat -> nat, takes: nat -> bool)
      requires Valid() && Sendable(m)
      modifies this, socket
      ensures Valid() && socket != null && submitted == old(submitted) + [m]
      ensures old(socket) == null ==> fresh(socket) && pending == Some([m])
      ensures old(socket) != null ==> socket == old(socket) && old(socket.handed) <= socket.handed
      ensures old(pending.Some?) ==>
                && pending == Some(old(pending.value) + [m])
                && socket.sent == old(socket.sent) && socket.queue == old(socket.queue) && socket.handed == old(socket.handed)
      ensures old(socket) != null && old(pending.None?) ==>
                && pending.None? && socket.sent == old(socket.sent) + [m]
                && ((forall i: nat :: free(i) > 0 && takes(i)) ==> socket.queue == [] && socket.handed == EncodeAll(socket.sent))
    {
      if pending.Some? {
        pending := Some(pending.value + [m]);
      } else if socket == null {
        pending := Some([m]);
        socket := new FrameSender();
      } else {
        ghost var trace := socket.EnqueueFrame(m, free, takes);
      }
      submitted := submitted + [m];
    }

    // HandleConnectionSucceeded (node.cc:1586-1600): what waited goes out in order.
    method HandleConnectionSucceeded(free: nat -> nat, takes: nat -> bool)
      requires Valid() && socket != null
      modifies this, socket
      ensures Valid() && socket == old(socket) && pending.None?
      ensures submitted == old(submitted) && socket.sent == submitted
      ensures old(pending.Some?) && old(pending.value) != [] && (forall i: nat :: free(i) > 0 && takes(i)) ==>
                socket.queue == [] && socket.handed == EncodeAll(submitted)
    {
      if pending.Some? {
        socket.EnqueueEach(pending.value, free, takes);
        pending := None;
      }
    }

    // HandleConnectionFailed (node.cc:1602-1615): what waited is lost with the socket.
    method HandleConnectionFailed()
      requires Valid()
      modifies this
      ensures Valid() && socket == null && pending.None? && submitted == []
    {
      socket, pending, submitted := null, None, [];
    }
  }
}
