/** The receiving half of mqtt_client.c: the resumable packet reader and the
    delivery of PUBLISH packets, some of which do not fit the input buffer. */
module MqttReceiver {
  import opened Common
  import opened MqttPacket

  /** The connection: the bytes the peer sends over its lifetime, and how many of
      them have been read. Reads may be short, empty, or fail. */
  class Transport {
    const stream: seq<byte>
    var pos: nat
    var failed: bool
    var starved: bool           // some read has found nothing

    ghost predicate Valid()
      reads this
    {
      pos <= |stream|
    }

    constructor (stream: seq<byte>)
      ensures Valid() && pos == 0 && this.stream == stream && !failed && !starved
    {
      this.stream, pos, failed, starved := stream, 0, false, false;
    }

    /** esp_transport_read into buffer[at..]. */
    method Read(buffer: array<byte>, at: nat, len: nat) returns (n: int)
      requires Valid() && at + len <= buffer.Length
      modifies this`pos, this`failed, this`starved, buffer
      ensures Valid() && -0x8000_0000 <= n <= len && pos == old(pos) + Max(n, 0)
      ensures failed == (old(failed) || n < 0) && starved == (old(starved) || n == 0)
      ensures buffer[..at] == old(buffer[..at])
      ensures buffer[at..at + Max(n, 0)] == stream[old(pos)..pos]
      ensures buffer[at + Max(n, 0)..] == old(buffer[at + Max(n, 0)..])
    {
      n := *;
      if n < 0 {
        n, failed := Max(n, -0x8000_0000), true;
        return;
      }
      n := Min(n, Min(len, |stream| - pos));
      forall k | 0 <= k < n {
        buffer[at + k] := stream[pos + k];
      }
      ghost var piece, tail := buffer[at..at + n], buffer[at + n..];
      assert forall k :: 0 <= k < |tail| ==> tail[k] == buffer[at + n + k] == old(buffer[at + n..])[k];
      assert forall k :: 0 <= k < n ==> piece[k] == buffer[at + k];
      assert piece == stream[pos..pos + n];
      pos, starved := pos + n, starved || n == 0;
    }
  }

  // ---- what "received" means ----

  /** How many bytes of the packet at the front of p go into a buffer of the
      given capacity before it is handed on. */
  function Need(p: seq<byte>, capacity: nat): nat
    requires HeaderIn(p, |p|)
  {
    Min(PacketLen(p), capacity)
  }

  /** n bytes of p are the packet, or a full buffer of an oversized one. */
  predicate Done(p: seq<byte>, n: nat, capacity: nat) {
    HeaderIn(p, n) && n >= Need(p, capacity)
  }

  /** A resume with r bytes stored takes body bytes for length bytes, up to and
      beyond the end of the packet: the header is already complete, and every
      byte from the last stored one to the end of the packet has its top bit set. */
  predicate Misread(p: seq<byte>, r: nat) {
    && r < 6 && HeaderIn(p, r) && FixedLen(p) < r
    && r <= PacketLen(p) < 6 && PacketLen(p) <= |p|
    && forall k :: r - 1 <= k < PacketLen(p) ==> p[k] >= 128
  }

  /** The test of an oversized packet: the topic length field itself is not counted. */
  predicate TooBig(p: seq<byte>, capacity: nat)
    requires TopicLenIn(p, |p|)
  {
    TypeOf(p[0]) != PUBLISH || FixedLen(p) + TopicLen(p) + IdBytes(p[0]) > capacity
  }

  predicate ValidFirstByteOf(p: seq<byte>) {
    p != [] && ValidFirstByte(p[0])
  }

  /** Too long for the buffer, and not a PUBLISH whose header fits. */
  ghost predicate Oversized(p: seq<byte>, capacity: nat) {
    HeaderIn(p, |p|) && PacketLen(p) > capacity
    && (TypeOf(p[0]) != PUBLISH || (TopicLenIn(p, |p|) && TooBig(p, capacity)))
  }

  /** Is the packet at the front of p one the reader gives up on? */
  ghost predicate Rejected(p: seq<byte>, capacity: nat) {
    !ValidFirstByteOf(p) || Oversized(p, capacity)
  }

  /** A successful call that found r0 bytes stored and left r: the announced
      length is the packet's, an oversized PUBLISH fills the buffer, and any other
      packet is held exactly, unless the resume was a misread. */
  ghost predicate Received(p: seq<byte>, messageLength: nat, r0: nat, r: nat, capacity: nat) {
    && ValidFirstByteOf(p) && HeaderIn(p, r)
    && messageLength == PacketLen(p)
    && if messageLength <= capacity then
         r >= messageLength && (r == messageLength <==> !Misread(p, r0))
       else
         r == capacity && TopicLenIn(p, r) && !TooBig(p, capacity)
  }

  /** Only packets of three to five bytes are ever misread: the acknowledgements,
      and tiny PUBLISH packets. */
  lemma MisreadOnlyTiny(p: seq<byte>, r: nat)
    requires Misread(p, r)
    ensures 3 <= PacketLen(p) <= 5 && FixedLen(p) + 1 <= r <= PacketLen(p)
  {
  }

  /** A packet can be misread on some resume exactly when it has at most five
      bytes, at least two of them after the fixed header, and the last two have
      their top bits set. */
  lemma MisreadPossible(p: seq<byte>)
    requires HeaderIn(p, |p|) && PacketLen(p) <= |p|
    ensures (exists r :: 0 <= r < PacketLen(p) && Misread(p, r)) <==> Fragile(p)
  {
    if Fragile(p) {
      assert Misread(p, PacketLen(p) - 1);
    }
    forall r | 0 <= r < PacketLen(p) && Misread(p, r) ensures Fragile(p) {
      assert p[PacketLen(p) - 1] >= 128 && p[PacketLen(p) - 2] >= 128;
    }
  }

  predicate Fragile(p: seq<byte>)
    requires HeaderIn(p, |p|) && PacketLen(p) <= |p|
  {
    FixedLen(p) + 2 <= PacketLen(p) <= 5 && p[PacketLen(p) - 2] >= 128 && p[PacketLen(p) - 1] >= 128
  }

  /** An acknowledgement whose identifier is 0x8080, resumed after three bytes. */
  lemma MisreadHappens()
    ensures Misread([0x40, 0x02, 0x80, 0x80, 0xd0, 0x00], 3)
    ensures PacketLen([0x40, 0x02, 0x80, 0x80, 0xd0, 0x00]) == 4
  {
    var p: seq<byte> := [0x40, 0x02, 0x80, 0x80, 0xd0, 0x00];
    assert Stop(p, 1) == 1;
    assert Groups(p, 1, 1) == 2;
  }

  /** MQTT_EVENT_DATA; data_len is a number of its own. */
  datatype DataEvent = DataEvent(topic: Option<seq<byte>>, data: seq<byte>, len: int, total: int, offset: int)

  /** The data of a list of events, put together. */
  function Datas(events: seq<DataEvent>): seq<byte> {
    if events == [] then [] else Datas(events[..|events| - 1]) + events[|events| - 1].data
  }

  lemma DatasSnoc(events: seq<DataEvent>, e: DataEvent)
    ensures Datas(events + [e]) == Datas(events) + e.data
  {
    assert (events + [e])[..|events|] == events;
  }

  /** What section 3.3 makes of one message in several events: the topic comes
      first, every event repeats the size of the whole, and each says how much
      went before it. */
  ghost predicate Delivers(events: seq<DataEvent>, topic: seq<byte>, body: seq<byte>) {
    Announces(events, topic, |body|) && Datas(events) == body
  }

  ghost predicate Announces(events: seq<DataEvent>, topic: seq<byte>, size: nat) {
    events != [] && forall k :: 0 <= k < |events| ==> Announced(events, k, topic, size)
  }

  ghost predicate Announced(events: seq<DataEvent>, k: nat, topic: seq<byte>, size: nat) {
    && k < |events|
    && events[k].topic == (if k == 0 then Some(topic) else None)
    && events[k].total == size && events[k].len == |events[k].data|
    && events[k].offset == |Datas(events[..k])|
  }

  /** The next event of a message. */
  predicate Continues(e: DataEvent, sent: seq<DataEvent>, topic: seq<byte>, size: nat) {
    && e.topic == (if sent == [] then Some(topic) else None)
    && e.total == size && e.len == |e.data| && e.offset == |Datas(sent)|
  }

  lemma AnnouncesSnoc(sent: seq<DataEvent>, topic: seq<byte>, size: nat, e: DataEvent)
    requires sent != [] ==> Announces(sent, topic, size)
    requires Continues(e, sent, topic, size)
    ensures Announces(sent + [e], topic, size) && Datas(sent + [e]) == Datas(sent) + e.data
  {
    var all := sent + [e];
    DatasSnoc(sent, e);
    forall k | 0 <= k < |all| ensures Announced(all, k, topic, size) {
      assert all[..k] == if k < |sent| then sent[..k] else sent;
      assert k < |sent| ==> Announced(sent, k, topic, size);
    }
  }

  /** The events sent and the one to come carry the body so far. */
  ghost predicate Posting(body: seq<byte>, name: seq<byte>, size: nat, sent: seq<DataEvent>, e: DataEvent) {
    Datas(sent) + e.data == body && Continues(e, sent, name, size) && (sent != [] ==> Announces(sent, name, size))
  }

  lemma Posted(body: seq<byte>, name: seq<byte>, size: nat, sent: seq<DataEvent>, e: DataEvent)
    requires Posting(body, name, size, sent, e)
    ensures Announces(sent + [e], name, size) && Datas(sent + [e]) == body && e.offset + |e.data| == |body|
  {
    AnnouncesSnoc(sent, name, size, e);
  }

  lemma PostingOn(p: seq<byte>, base: nat, at: nat, n: nat, name: seq<byte>, size: nat, sent: seq<DataEvent>,
                  e: DataEvent)
    requires base <= at && at + n <= |p| && Announces(sent, name, size) && Datas(sent) == p[base..at]
    requires e.topic.None? && e.data == p[at..at + n] && e.len == n && e.total == size && e.offset == at - base
    ensures Posting(p[base..at + n], name, size, sent, e)
  {
    assert p[base..at] + p[at..at + n] == p[base..at + n];
    assert sent[..|sent|] == sent;
  }

  ghost predicate Extends(before: seq<DataEvent>, after: seq<DataEvent>, topic: seq<byte>, body: seq<byte>) {
    before <= after && Delivers(after[|before|..], topic, body)
  }

  /** The delivery has broken off: what has come is a front of the body, and not all of it. */
  ghost predicate Front(before: seq<DataEvent>, after: seq<DataEvent>, topic: seq<byte>, size: nat, body: seq<byte>) {
    before <= after && FrontOf(after[|before|..], topic, size, body)
  }

  ghost predicate FrontOf(events: seq<DataEvent>, topic: seq<byte>, size: nat, body: seq<byte>) {
    Announces(events, topic, size) && Datas(events) <= body && |Datas(events)| < size
  }

  // ---- a read that fails during a delivery ----

  /** The lengths of deliver_publish are unsigned, of 32 bits. */
  function Wrap(x: int): nat {
    x % 0x1_0000_0000
  }

  /** The conversion to int where they become part of an event. */
  function AsInt(x: nat): int {
    if x < 0x8000_0000 then x else x - 0x1_0000_0000
  }

  /** There and back a number of 32 bits is the same; -1 is the largest unsigned one. */
  lemma WrapIs(n: int)
    requires -0x8000_0000 <= n < 0x8000_0000
    ensures AsInt(Wrap(n)) == n && Wrap(n) == if n < 0 then n + 4294967296 else n
  {
  }

  /** One of the events has a negative length. */
  ghost predicate Bad(events: seq<DataEvent>) {
    exists k :: 0 <= k < |events| && events[k].len < 0
  }

  /** The events that came after the first ones are spoiled. */
  ghost predicate Spoils(before: seq<DataEvent>, after: seq<DataEvent>) {
    before <= after && Bad(after[|before|..])
  }

  lemma BadNext(sent: seq<DataEvent>, e: DataEvent, next: DataEvent)
    requires e.len < 0 || Bad(sent)
    ensures Bad(sent + [e]) && Bad(sent + [e] + [next])
  {
    if e.len < 0 {
      assert (sent + [e])[|sent|] == e && (sent + [e] + [next])[|sent|] == e;
    } else {
      var k :| 0 <= k < |sent| && sent[k].len < 0;
      assert (sent + [e])[k] == sent[k] && (sent + [e] + [next])[k] == sent[k];
    }
  }

  /** Spoiled events deliver nothing, whatever the message. */
  lemma SpoiledIsNoDelivery(before: seq<DataEvent>, after: seq<DataEvent>, topic: seq<byte>, body: seq<byte>)
    ensures Spoils(before, after) ==> !Extends(before, after, topic, body)
  {
    if !Spoils(before, after) {
      return;
    }
    var events := after[|before|..];
    var k :| 0 <= k < |events| && events[k].len < 0;
    assert !Announced(events, k, topic, |body|);
  }

  /** The event about to be sent, and those before it: spoiled once a read has
      failed, and otherwise in step with the `at` bytes read of the packet p. */
  ghost predicate InOrder(p: seq<byte>, at: nat, length: nat, name: seq<byte>, base: nat, msgRead: nat,
                          sent: seq<DataEvent>, event: DataEvent, offset: nat, erred: bool) {
    && at <= |p| && base <= length < 0x8000_0000 && event.total == length - base
    && if erred then event.len < 0 || Bad(sent) else InStep(p, at, length, name, base, msgRead, sent, event, offset)
  }

  ghost predicate InStep(p: seq<byte>, at: nat, length: nat, name: seq<byte>, base: nat, msgRead: nat,
                         sent: seq<DataEvent>, event: DataEvent, offset: nat) {
    && base <= at == msgRead <= length <= base + event.total && at <= |p| && offset == event.offset
    && Posting(p[base..at], name, length - base, sent, event)
  }

  lemma WrapFacts(x: int)
    ensures 0 <= x < 0x1_0000_0000 ==> Wrap(x) == x
    ensures -0x8000_0000 <= x < 0 ==> Wrap(x) == x + 0x1_0000_0000
  {
  }

  lemma NextInStep(p: seq<byte>, at: nat, length: nat, name: seq<byte>, base: nat,
                   sent: seq<DataEvent>, event: DataEvent, offset: nat, n: nat, next: DataEvent)
    requires InStep(p, at, length, name, base, at, sent, event, offset)
    requires at + n <= length < 0x8000_0000 && at + n <= |p|
    requires next == DataEvent(None, p[at..at + n], n, length - base, at - base)
    ensures offset + event.len == at - base
    ensures InStep(p, at + n, length, name, base, at + n, sent + [event], next, at - base)
  {
    Posted(p[base..at], name, length - base, sent, event);
    PostingOn(p, base, at, n, name, length - base, sent + [event], next);
  }

  /** The next event, after a read that returned n. */
  lemma NextInOrder(p: seq<byte>, at: nat, length: nat, name: seq<byte>, base: nat, msgRead: nat,
                    sent: seq<DataEvent>, event: DataEvent, offset: nat, erred: bool, n: int, data: seq<byte>)
    requires InOrder(p, at, length, name, base, msgRead, sent, event, offset, erred) && msgRead < length
    requires n != 0 && -0x8000_0000 <= n <= length - msgRead && at + Max(n, 0) <= |p| && data == p[at..at + Max(n, 0)]
    ensures var moved := Wrap(offset + event.len);
      InOrder(p, at + Max(n, 0), length, name, base, Wrap(msgRead + n), sent + [event],
              DataEvent(None, data, n, event.total, AsInt(moved)), moved, erred || n < 0)
    ensures n < 0 ==> Wrap(msgRead + n) < msgRead || Wrap(msgRead + n) >= length
  {
    var moved := Wrap(offset + event.len);
    var next := DataEvent(None, data, n, event.total, AsInt(moved));
    WrapFacts(offset + event.len);
    WrapFacts(msgRead + n);
    if erred {
      BadNext(sent, event, next);
    } else if n > 0 {
      NextInStep(p, at, length, name, base, sent, event, offset, n, DataEvent(None, data, n, length - base, at - base));
    }
  }

  /** Before the end. */
  lemma PartPosted(p: seq<byte>, at: nat, length: nat, name: seq<byte>, base: nat, msgRead: nat,
                   sent: seq<DataEvent>, event: DataEvent, offset: nat, erred: bool, before: seq<DataEvent>)
    requires InOrder(p, at, length, name, base, msgRead, sent, event, offset, erred) && msgRead < length && base <= |p|
    ensures var after := before + sent + [event];
      if erred then Spoils(before, after) else Front(before, after, name, length - base, p[base..])
  {
    var after := before + sent + [event];
    assert after[|before|..] == sent + [event];
    if erred {
      BadNext(sent, event, event);
    } else {
      Posted(p[base..at], name, length - base, sent, event);
      assert p[base..at] <= p[base..];
    }
  }

  /** At the end. */
  lemma AllPosted(p: seq<byte>, at: nat, length: nat, name: seq<byte>, base: nat, msgRead: nat,
                  sent: seq<DataEvent>, event: DataEvent, offset: nat, erred: bool, before: seq<DataEvent>)
    requires InOrder(p, at, length, name, base, msgRead, sent, event, offset, erred) && msgRead >= length
    ensures var after := before + sent + [event];
      if erred then Spoils(before, after) else at == length && Extends(before, after, name, p[base..length])
  {
    var after := before + sent + [event];
    assert after[|before|..] == sent + [event];
    if erred {
      BadNext(sent, event, event);
    } else {
      Posted(p[base..at], name, length - base, sent, event);
    }
  }

  lemma SamePart(q: seq<byte>, p: seq<byte>, i: nat, j: nat)
    requires q <= p && i <= j <= |q|
    ensures q[i..j] == p[i..j]
  {
  }

  /** What is delivered of an oversized packet is its payload exactly when the
      buffer took its whole header. */
  lemma DeliveredIsPayload(p: seq<byte>, r: nat)
    requires WellFormedPublish(p) && r <= PacketLen(p)
    ensures p[Min(PublishHeaderLen(p), r)..PacketLen(p)] == Payload(p) <==> PublishHeaderLen(p) <= r
  {
    assert |p[Min(PublishHeaderLen(p), r)..PacketLen(p)]| == PacketLen(p) - Min(PublishHeaderLen(p), r);
  }

  /** The reader's size test lets pass headers that are longer than the buffer by up to
      two bytes. Above quality of service 0 these are the packets whose identifier is
      looked for behind the buffer: the second clause only reads the definition of
      IdBeyond, which GetId ties to the code, next to the first. */
  lemma SizeTestSlack(p: seq<byte>, capacity: nat)
    requires TopicLenIn(p, |p|) && TypeOf(p[0]) == PUBLISH
    ensures !TooBig(p, capacity) <==> PublishHeaderLen(p) <= capacity + 2
    ensures HasHeader(p) && !TooBig(p, capacity) ==>
      (IdBeyond(p, capacity) <==> QosOf(p[0]) > 0 && capacity < PublishHeaderLen(p) <= capacity + 2)
  {
  }

  /** A 14-byte PUBLISH with quality of service 1 and a buffer of 10 bytes: the
      test passes, the identifier is looked for behind the buffer, and it is
      delivered as payload. */
  lemma IdentifierAsPayload()
    ensures var p: seq<byte> := [0x32, 12, 0, 6, 1, 2, 3, 4, 5, 6, 0, 9, 77, 78];
      WellFormedPublish(p) && !TooBig(p, 10) && PublishHeaderLen(p) == 12 && IdBeyond(p, 10)
      && Payload(p) == [77, 78] && p[Min(PublishHeaderLen(p), 10)..PacketLen(p)] == [0, 9, 77, 78]
  {
    var p: seq<byte> := [0x32, 12, 0, 6, 1, 2, 3, 4, 5, 6, 0, 9, 77, 78];
    assert Stop(p, 1) == 1;
    assert Groups(p, 1, 1) == 12;
  }

  // ---- one packet of the stream, and all of them ----

  /** A packet that this client can take: complete, well formed, not misread on
      any resume, and, when it is a PUBLISH, with a header that fits the buffer. */
  ghost predicate GoodFrame(f: seq<byte>, capacity: nat) {
    && HeaderIn(f, |f|) && PacketLen(f) == |f| && ShortField(f) && ValidFirstByte(f[0])
    && !Fragile(f)
    && (if TypeOf(f[0]) == PUBLISH then PublishShape(f) && PublishHeaderLen(f) <= capacity else |f| <= capacity)
  }

  /** What handling a packet does to the events. */
  ghost predicate Handled(f: seq<byte>, before: seq<DataEvent>, after: seq<DataEvent>) {
    if WellFormedPublish(f) then Extends(before, after, Topic(f), Payload(f)) else after == before
  }

  /** What a delivery that breaks off does to them: nothing, or a front of the payload. */
  ghost predicate PartHandled(f: seq<byte>, before: seq<DataEvent>, after: seq<DataEvent>) {
    after == before || (WellFormedPublish(f) && Front(before, after, Topic(f), |Payload(f)|, Payload(f)))
  }

  /** The same of a packet that may not be all there, delivered from the given place on. */
  ghost predicate BrokenOff(p: seq<byte>, from: nat, before: seq<DataEvent>, after: seq<DataEvent>) {
    && PublishShape(p) && FixedLen(p) + 2 + TopicLen(p) <= |p| && from <= |p| && from <= PacketLen(p)
    && Front(before, after, p[FixedLen(p) + 2..FixedLen(p) + 2 + TopicLen(p)], PacketLen(p) - from, p[from..])
  }

  lemma HandledBy(f: seq<byte>, before: seq<DataEvent>, after: seq<DataEvent>, topic: seq<byte>, body: seq<byte>)
    requires WellFormedPublish(f) && topic == Topic(f) && body == Payload(f)
    requires Extends(before, after, topic, body)
    ensures Handled(f, before, after)
  {
  }

  lemma FrameFacts(f: seq<byte>, p: seq<byte>, capacity: nat)
    requires GoodFrame(f, capacity) && f <= p
    ensures HeaderIn(p, |p|) && PacketLen(p) == |f| && ShortField(p) && !Rejected(p, capacity)
    ensures forall r :: 0 <= r < |f| ==> !Misread(p, r)
  {
    HeaderLocal(f, p);
    if |f| < 5 {
      assert p[Stop(f, 1)] < 128;
    }
    if TypeOf(f[0]) == PUBLISH {
      assert p[..|f|] == f;
      PublishLocal(f, p);
    }
    assert p[..|f|] == f;
    MisreadPossible(p);
  }

  lemma FrameBuffered(f: seq<byte>, p: seq<byte>, r: nat, capacity: nat)
    requires GoodFrame(f, capacity) && f <= p && r == Min(|f|, capacity)
    requires |f| > capacity ==> TopicLenIn(p, r)
    ensures TypeOf(f[0]) == PUBLISH ==> PublishShape(p) && TopicLenIn(p, r) && !TooBig(p, capacity)
    ensures TypeOf(f[0]) == PUBLISH ==> WellFormedPublish(f) && PublishHeaderLen(p) == PublishHeaderLen(f) <= r
    ensures TypeOf(f[0]) == PUBLISH ==> TopicLen(p) == TopicLen(f)
    ensures HeaderIn(p, |p|) && FixedLen(p) == FixedLen(f) && PacketLen(p) == |f|
  {
    HeaderLocal(f, p);
    if TypeOf(f[0]) == PUBLISH {
      assert p[..|f|] == f;
      PublishLocal(f, p);
    }
  }

  lemma FramePayload(f: seq<byte>, p: seq<byte>, r: nat, capacity: nat)
    requires GoodFrame(f, capacity) && f <= p && r == Min(|f|, capacity) && TypeOf(f[0]) == PUBLISH
    requires |f| > capacity ==> TopicLenIn(p, r)
    ensures WellFormedPublish(f) && WellFormedPublish(p) && PacketLen(p) == |f| && PublishHeaderLen(p) <= r
    ensures Topic(p) == Topic(f) && p[Min(PublishHeaderLen(p), r)..|f|] == Payload(f)
  {
    FrameBuffered(f, p, r, capacity);
    SamePart(f, p, PublishHeaderLen(f), |f|);
    SamePart(f, p, FixedLen(f) + 2, FixedLen(f) + 2 + TopicLen(f));
  }

  lemma FrameLength(f: seq<byte>, p: seq<byte>)
    requires HeaderIn(f, |f|) && PacketLen(f) == |f| && ShortField(f) && f <= p
    ensures HeaderIn(p, |p|) && PacketLen(p) == |f| < 0x8000_0000
  {
    HeaderLocal(f, p);
    ShortFieldStop(f);
    PacketBound(f);
  }

  /** What delivery made of a good packet is what should be made of it. */
  lemma FrameHandled(f: seq<byte>, p: seq<byte>, r: nat, capacity: nat, before: seq<DataEvent>, after: seq<DataEvent>)
    requires GoodFrame(f, capacity) && f <= p && r == Min(|f|, capacity) && TypeOf(f[0]) == PUBLISH
    requires TopicLenIn(p, r) && WellFormedPublish(p)
    requires Extends(before, after, Topic(p), p[Min(PublishHeaderLen(p), r)..PacketLen(p)])
    ensures Handled(f, before, after)
  {
    FramePayload(f, p, r, capacity);
    HandledBy(f, before, after, Topic(p), p[Min(PublishHeaderLen(p), r)..|f|]);
  }

  lemma FramePart(f: seq<byte>, p: seq<byte>, r: nat, capacity: nat, before: seq<DataEvent>, after: seq<DataEvent>)
    requires GoodFrame(f, capacity) && f <= p && r == Min(|f|, capacity) && TypeOf(f[0]) == PUBLISH
    requires TopicLenIn(p, r) && WellFormedPublish(p)
    requires after == before || BrokenOff(p, Min(PublishHeaderLen(p), r), before, after)
    ensures PartHandled(f, before, after)
  {
    if after != before {
      FramePayload(f, p, r, capacity);
      var from, events := PublishHeaderLen(p), after[|before|..];
      assert p[from..][..|Datas(events)|] == p[from..|f|][..|Datas(events)|];
    }
  }

  class Receiver {
    const inBuffer: array<byte>
    const transport: Transport
    var readLen: nat            // in_buffer_read_len
    var messageLength: nat      // message_length
    var events: seq<DataEvent>
    ghost var start: nat        // where the current packet begins in the stream

    constructor (transport: Transport, capacity: nat)
      requires transport.Valid() && capacity >= 10
      ensures Valid() && this.transport == transport && inBuffer.Length == capacity && fresh(inBuffer)
      ensures readLen == 0 && start == transport.pos && events == []
    {
      inBuffer := new byte[capacity];
      this.transport := transport;
      readLen, messageLength, events, start := 0, 0, [], transport.pos;
    }

    /** in_buffer[0..in_buffer_read_len) is what has been drawn from the stream
        for the current packet. */
    ghost predicate Valid()
      reads this, transport, inBuffer
    {
      && transport.Valid() && inBuffer.Length >= 10
      && readLen <= inBuffer.Length
      && start + readLen == transport.pos
      && inBuffer[..readLen] == transport.stream[start..transport.pos]
    }

    /** Everything from the current packet on. */
    ghost function Rest(): seq<byte>
      requires start <= |transport.stream|
      reads this
    {
      transport.stream[start..]
    }

    ghost predicate Pending()
      requires start <= |transport.stream|
      reads this
    {
      readLen > 0 ==> ValidFirstByteOf(Rest()) && !Done(Rest(), readLen, inBuffer.Length)
    }

    /** One read of the packet reader, appended to the buffer. */
    method Draw(len: nat) returns (n: int)
      requires Valid() && readLen + len <= inBuffer.Length
      modifies this`readLen, transport, inBuffer
      ensures Valid() && n <= len && readLen == old(readLen) + Max(n, 0)
      ensures n < 0 ==> transport.failed
      ensures n >= 0 ==> transport.failed == old(transport.failed)
    {
      n := transport.Read(inBuffer, readLen, len);
      if n > 0 {
        ghost var stored := inBuffer[..readLen];
        readLen := readLen + n;
        assert inBuffer[..readLen] == stored + inBuffer[readLen - n..readLen];
      }
    }

    /** One more byte of the length, and whether it asks for another. */
    method ReadLengthByte(ghost r0: nat) returns (n: int, again: bool)
      requires Valid() && Asking(Rest(), readLen) && LoopRead(Rest(), r0, readLen)
      modifies this`readLen, transport, inBuffer
      ensures Valid() && n <= 1 && readLen == old(readLen) + Max(n, 0)
      ensures if n < 0 then transport.failed else transport.failed == old(transport.failed)
      ensures n > 0 ==> readLen <= |Rest()| && again == (readLen < 6 && Rest()[readLen - 1] >= 128)
      ensures LoopRead(Rest(), r0, readLen)
    {
      n := Draw(1);
      again := false;
      if n > 0 {
        StoredByte(readLen - 1);
        LoopStep(Rest(), r0, readLen - 1);
        again := readLen < 6 && inBuffer[readLen - 1] >= 128;
      }
    }

    /** The "remaining length" loop (1086-1109). Its guard looks at the last
        stored byte, whatever that byte is. */
    method ReadLength() returns (r: int)
      requires Valid() && ShortField(Rest()) && Asking(Rest(), readLen)
      modifies this`readLen, transport, inBuffer
      ensures Valid() && old(readLen) <= readLen <= 6
      ensures r == -1 || r == 0 || r == 1
      ensures if r == -1 then transport.failed else transport.failed == old(transport.failed)
      ensures r >= 0 ==> LoopRead(Rest(), old(readLen), readLen)
      ensures r == 0 ==> Asking(Rest(), readLen)
      ensures r == 1 ==> readLen > old(readLen) && (readLen == 6 || Rest()[readLen - 1] < 128)
    {
      ghost var p, r0 := Rest(), readLen;
      var again := true;
      while again
        invariant Valid() && transport.failed == old(transport.failed)
        invariant LoopRead(p, r0, readLen)
        invariant if again then Asking(p, readLen) else readLen > r0 && (readLen == 6 || p[readLen - 1] < 128)
        decreases again, 6 - readLen
      {
        var n;
        n, again := ReadLengthByte(r0);
        if n < 0 {
          return -1;
        }
        if n == 0 {
          return 0;
        }
      }
      return 1;
    }

    /** The part of an oversized PUBLISH that must be in the buffer (1114-1152).
        When the second byte of the topic length is missing, the read asks for
        three bytes instead of one. */
    method PlanOversized(fixed: nat) returns (r: int, total: nat)
      requires Valid() && HeaderIn(Rest(), readLen) && fixed == FixedLen(Rest()) <= 5
      requires PacketLen(Rest()) > inBuffer.Length
      requires readLen <= 6 || TopicLenIn(Rest(), readLen)
      modifies this`readLen, transport, inBuffer
      ensures Valid() && readLen >= old(readLen) && total == inBuffer.Length
      ensures r == -1 || r == 0 || r == 1
      ensures r >= 0 ==> transport.failed == old(transport.failed)
      ensures r == -1 ==>
        || transport.failed
        || TypeOf(Rest()[0]) != PUBLISH
        || (TopicLenIn(Rest(), |Rest()|) && TooBig(Rest(), inBuffer.Length))
      ensures r == 0 ==> readLen < fixed + 2
      ensures r == 1 ==> TopicLenIn(Rest(), readLen) && !TooBig(Rest(), inBuffer.Length)
    {
      total := inBuffer.Length;
      StoredByte(0);
      if TypeOf(inBuffer[0]) != PUBLISH {
        return -1, total;
      }
      if readLen < fixed + 2 {
        var n := Draw(readLen - fixed + 2);
        if n < 0 {
          return -1, total;
        }
        if n == 0 {
          return 0, total;
        }
        if readLen < fixed + 2 {
          return 0, total;
        }
      }
      StoredByte(0);
      StoredByte(fixed);
      StoredByte(fixed + 1);
      total := fixed + Word(inBuffer[fixed], inBuffer[fixed + 1]) + IdBytes(inBuffer[0]);
      if inBuffer.Length < total {
        return -1, inBuffer.Length;
      }
      total := inBuffer.Length;
      return 1, total;
    }

    /** The first byte and its flags (1060-1085). */
    method ReadFirst() returns (r: int)
      requires Valid() && readLen == 0
      modifies this`readLen, this`start, transport, inBuffer
      ensures Valid() && (r >= 0 ==> start == old(start))
      ensures r == -1 || r == 0 || r == 1
      ensures if r == -1 then transport.failed || !ValidFirstByteOf(old(Rest()))
              else transport.failed == old(transport.failed)
      ensures r == 0 ==> readLen == 0
      ensures r == 1 ==> readLen == 1 && ValidFirstByteOf(Rest())
    {
      var n := Draw(1);
      if n < 0 {
        return -1;
      }
      if n == 0 {
        return 0;
      }
      StoredByte(0);
      if !ValidFirstByte(inBuffer[0]) {
        start, readLen := start + 1, 0;   // the caller gives up the connection
        return -1;
      }
      return 1;
    }

    /** The reads up to the end of the fixed header (1060-1109). */
    method ReadHeader() returns (r: int)
      requires Valid() && ShortField(Rest()) && Pending()
      modifies this`readLen, this`start, transport, inBuffer
      ensures Valid() && (r >= 0 ==> start == old(start) && readLen >= old(readLen))
      ensures r == -1 || r == 0 || r == 1
      ensures if r == -1 then transport.failed || !ValidFirstByteOf(old(Rest()))
              else transport.failed == old(transport.failed)
      ensures r == 0 && !Misread(Rest(), old(readLen)) ==> Pending()
      ensures r == 1 ==> HeaderRead(Rest(), old(readLen), readLen, inBuffer.Length)
    {
      ghost var r0 := readLen;
      if readLen == 0 {
        r := ReadFirst();
        if r != 1 {
          return;
        }
      }
      r := ReadField(r0);
    }

    /** The length field, or what is left of it. */
    method ReadField(ghost r0: nat) returns (r: int)
      requires Valid() && ShortField(Rest()) && ValidFirstByteOf(Rest()) && readLen == Max(r0, 1)
      requires r0 > 0 ==> !Done(Rest(), r0, inBuffer.Length)
      modifies this`readLen, transport, inBuffer
      ensures Valid() && readLen >= old(readLen)
      ensures r == -1 || r == 0 || r == 1
      ensures if r == -1 then transport.failed else transport.failed == old(transport.failed)
      ensures r == 0 && !Misread(Rest(), r0) ==> !Done(Rest(), readLen, inBuffer.Length)
      ensures r == 1 ==> HeaderRead(Rest(), r0, readLen, inBuffer.Length)
    {
      ghost var p := Rest();
      var asking := IsAsking();
      if !asking {
        LoopSkipped(p, r0, inBuffer.Length);
        return 1;
      }
      r := ReadLength();
      assert Rest() == p;
      if r == 1 {
        LoopEnds(p, r0, readLen, inBuffer.Length);
      } else if r == 0 && !Misread(p, r0) {
        LoopPauses(p, r0, readLen, inBuffer.Length);
      }
    }

    /** The condition in front of the loop (1086-1087). */
    method IsAsking() returns (asking: bool)
      requires Valid() && readLen > 0
      ensures readLen <= |Rest()| && asking == Asking(Rest(), readLen)
    {
      StoredBytes();
      StoredByte(readLen - 1);
      asking := readLen == 1 || (readLen < 6 && inBuffer[readLen - 1] >= 128);
    }

    /** The lengths that the stored header announces. */
    method ReadAnnounced() returns (total: nat, fixed: nat)
      requires Valid() && HeaderIn(Rest(), readLen)
      ensures total == PacketLen(Rest()) && fixed == FixedLen(Rest())
    {
      StoredBytes();
      HeaderWithin(Rest(), readLen);
      total, fixed := GetTotalLength(inBuffer, readLen);
      HeaderLocal(inBuffer[..readLen], Rest());
    }

    /** The read of the rest (1154-1172). */
    method ReadRest(totalLen: nat) returns (r: int)
      requires Valid() && totalLen <= inBuffer.Length
      modifies this`readLen, transport, inBuffer
      ensures Valid() && readLen >= old(readLen)
      ensures r == -1 || r == 0 || r == 1
      ensures if r == -1 then transport.failed else transport.failed == old(transport.failed)
      ensures r == 0 ==> readLen < totalLen
      ensures r == 1 ==> readLen == Max(old(readLen), totalLen)
    {
      if readLen < totalLen {
        var n := Draw(totalLen - readLen);
        if n < 0 {
          return -1;
        }
        if n == 0 {
          return 0;
        }
        if readLen < totalLen {
          return 0;
        }
      }
      return 1;
    }

    /** From the complete header to the complete packet (1110-1174). */
    method ReadBody() returns (r: int)
      requires Valid() && ShortField(Rest()) && HeaderIn(Rest(), readLen)
      modifies this`readLen, this`messageLength, transport, inBuffer
      ensures Valid() && readLen >= old(readLen)
      ensures r == -1 || r == 0 || r == 1
      ensures if r == -1 then transport.failed || Oversized(Rest(), inBuffer.Length)
              else transport.failed == old(transport.failed)
      ensures messageLength == PacketLen(Rest())
      ensures r == 0 ==> readLen < Need(Rest(), inBuffer.Length)
      ensures r == 1 && messageLength <= inBuffer.Length ==> readLen == Max(old(readLen), messageLength)
      ensures r == 1 && messageLength > inBuffer.Length ==>
        readLen == inBuffer.Length && TopicLenIn(Rest(), readLen) && !TooBig(Rest(), inBuffer.Length)
    {
      var totalLen, fixed := ReadAnnounced();
      ShortFieldStop(Rest());
      messageLength := totalLen;
      if inBuffer.Length < totalLen {
        r, totalLen := PlanOversized(fixed);
        if r != 1 {
          return;
        }
      }
      r := ReadRest(totalLen);
    }

    /** mqtt_message_receive. It returns 1 when the packet, or a full buffer of an
        oversized PUBLISH, is held; bytes of the next packet are held as well
        exactly when the call was a misread. */
    method Receive() returns (r: int)
      requires Valid() && ShortField(Rest()) && Pending()
      modifies this`readLen, this`start, this`messageLength, transport, inBuffer
      ensures Valid() && (r >= 0 ==> start == old(start) && readLen >= old(readLen))
      ensures r == -1 || r == 0 || r == 1
      ensures if r == -1 then transport.failed || Rejected(old(Rest()), inBuffer.Length)
              else transport.failed == old(transport.failed)
      ensures r == 0 && !Misread(Rest(), old(readLen)) ==> Pending()
      ensures r == 1 ==> Received(Rest(), messageLength, old(readLen), readLen, inBuffer.Length)
    {
      messageLength := 0;
      r := ReadHeader();
      if r == 1 {
        r := ReadBody();
      }
    }

    /** A PUBLISH packet is held as Receive leaves it. */
    ghost predicate HoldsPublish()
      reads this, transport, inBuffer
    {
      && Valid() && PublishShape(Rest()) && messageLength == PacketLen(Rest())
      && readLen == Min(messageLength, inBuffer.Length)
      && TopicLenIn(Rest(), readLen)
      && (messageLength > inBuffer.Length ==> !TooBig(Rest(), inBuffer.Length))
    }

    /** Where delivery takes the payload to start. */
    ghost function BodyStart(): nat
      requires HoldsPublish()
      reads this, transport, inBuffer
    {
      Min(PublishHeaderLen(Rest()), readLen)
    }

    /** mqtt_get_publish_topic on the buffer. */
    method LocateTopic() returns (found: bool, topic: seq<byte>)
      requires HoldsPublish()
      ensures !found ==> QosOf(Rest()[0]) == 0 && PublishHeaderLen(Rest()) > readLen
      ensures found ==> FixedLen(Rest()) + 2 + TopicLen(Rest()) <= readLen
      ensures found ==> topic == Rest()[FixedLen(Rest()) + 2..FixedLen(Rest()) + 2 + TopicLen(Rest())]
    {
      StoredBytes();
      ghost var p, q := Rest(), inBuffer[..readLen];
      PublishLocal(q, p);
      var at, len;
      at, len, found := GetPublishTopic(inBuffer, readLen);
      topic := [];
      if found {
        topic := inBuffer[at..at + len];
        SamePart(q, p, at, at + len);
      }
    }

    /** mqtt_get_publish_data on the buffer. */
    method LocateData() returns (data: seq<byte>)
      requires HoldsPublish()
      ensures data == Rest()[BodyStart()..readLen]
    {
      StoredBytes();
      ghost var p, q := Rest(), inBuffer[..readLen];
      PublishLocal(q, p);
      var at, len := GetPublishData(inBuffer, readLen);
      data := inBuffer[at..at + len];
      SamePart(q, p, at, at + len);
    }

    /** The topic and the payload bytes that are in the buffer (942-955). */
    method Locate() returns (found: bool, topic: seq<byte>, data: seq<byte>)
      requires HoldsPublish()
      ensures !found ==> QosOf(Rest()[0]) == 0 && PublishHeaderLen(Rest()) > readLen
      ensures found ==> FixedLen(Rest()) + 2 + TopicLen(Rest()) <= readLen
      ensures found ==> topic == Rest()[FixedLen(Rest()) + 2..FixedLen(Rest()) + 2 + TopicLen(Rest())]
      ensures found ==> data == Rest()[BodyStart()..readLen]
    {
      data := [];
      found, topic := LocateTopic();
      if found {
        data := LocateData();
      }
    }

    method Dispatch(event: DataEvent)
      modifies this`events
      ensures events == old(events) + [event]
    {
      events := events + [event];
    }

    /** The next part of an oversized packet, read over the previous one (980-982). */
    method ReadMore(msgRead: nat) returns (n: int, data: seq<byte>)
      requires transport.Valid() && msgRead < messageLength
      modifies transport, inBuffer
      ensures transport.Valid() && -0x8000_0000 <= n <= messageLength - msgRead
      ensures transport.pos == old(transport.pos) + Max(n, 0)
      ensures data == transport.stream[old(transport.pos)..transport.pos]
      ensures transport.failed == (old(transport.failed) || n < 0) && (n == 0 ==> transport.starved)
    {
      n := transport.Read(inBuffer, 0, Min(messageLength - msgRead, inBuffer.Length));
      data := inBuffer[0..Max(n, 0)];
    }

    /** The loop of deliver_publish (962-989): one event for what is at hand, then
        more reads until the packet is complete. An empty read ends it; a read
        that fails does not, since its negative result is stored as an unsigned
        length: the event that follows has that length, and the count of bytes
        read goes back, or wraps and so ends the loop. */
    method PostEvents(name: seq<byte>, first: seq<byte>, ghost base: nat) returns (ok: bool, ghost erred: bool)
      requires transport.Valid()
      requires base + |first| == readLen <= messageLength < 0x8000_0000 && start + readLen == transport.pos
      requires first == Rest()[base..readLen]
      modifies this`events, transport, inBuffer
      ensures transport.Valid() && transport.failed == (old(transport.failed) || erred)
      ensures ok && !erred ==> transport.pos == start + messageLength
      ensures ok && !erred ==> Extends(old(events), events, name, Rest()[base..messageLength])
      ensures erred ==> Spoils(old(events), events)
      ensures !ok && !erred ==> Front(old(events), events, name, messageLength - base, Rest()[base..])
      ensures !ok ==> transport.starved
    {
      ghost var sent: seq<DataEvent>, before := [], old(events);
      var msgRead: nat, offset: nat := readLen, 0;
      var event := DataEvent(Some(name), first, |first|, |first| + messageLength - readLen, 0);
      erred := false;
      while true
        invariant transport.Valid() && transport.failed == (old(transport.failed) || erred)
        invariant events == before + sent && start <= transport.pos
        invariant InOrder(Rest(), transport.pos - start, messageLength, name, base, msgRead, sent, event, offset, erred)
        decreases |transport.stream| - transport.pos, if msgRead >= messageLength then 0 else msgRead + 1
      {
        Dispatch(event);
        if msgRead >= messageLength {
          AllPosted(Rest(), transport.pos - start, messageLength, name, base, msgRead, sent, event, offset, erred,
                    before);
          return true, erred;
        }
        PartPosted(Rest(), transport.pos - start, messageLength, name, base, msgRead, sent, event, offset, erred,
                   before);
        ghost var last := event;
        ok, msgRead, event, offset, erred := NextEvent(name, base, msgRead, sent, event, offset, erred);
        if !ok {
          return;
        }
        sent := sent + [last];
      }
    }

    /** The part of the loop between two events. */
    method NextEvent(ghost name: seq<byte>, ghost base: nat, msgRead: nat, ghost sent: seq<DataEvent>, event: DataEvent,
                     offset: nat, ghost erred: bool)
      returns (ok: bool, read: nat, next: DataEvent, moved: nat, ghost bad: bool)
      requires transport.Valid() && msgRead < messageLength && start <= transport.pos
      requires InOrder(Rest(), transport.pos - start, messageLength, name, base, msgRead, sent, event, offset, erred)
      modifies transport, inBuffer
      ensures transport.Valid() && (!ok ==> transport.starved && bad == erred)
      ensures old(transport.failed) ==> transport.failed
      ensures (erred ==> bad) && (bad ==> erred || transport.failed)
      ensures transport.failed ==> bad || old(transport.failed)
      ensures transport.pos >= old(transport.pos)
      ensures ok ==>
        InOrder(Rest(), transport.pos - start, messageLength, name, base, read, sent + [event], next, moved, bad)
      ensures ok && transport.pos == old(transport.pos) ==> read < msgRead || read >= messageLength
    {
      moved := Wrap(offset + event.len);
      ghost var at := transport.pos - start;
      var n, data := ReadMore(msgRead);
      read, next := Wrap(msgRead + n), DataEvent(None, data, n, event.total, AsInt(moved));
      ok, bad := n != 0, erred || n < 0;
      if ok {
        assert data == Rest()[at..at + Max(n, 0)];
        NextInOrder(Rest(), at, messageLength, name, base, msgRead, sent, event, offset, erred, n, data);
      }
    }

    /** deliver_publish. What arrives is the packet from BodyStart on: the payload
        exactly when the whole header was in the buffer, and the size test of the
        reader allows two bytes less. */
    method DeliverPublish() returns (ok: bool, ghost erred: bool)
      requires HoldsPublish() && messageLength < 0x8000_0000
      modifies this`events, transport, inBuffer
      ensures transport.Valid() && transport.failed == (old(transport.failed) || erred)
      ensures ok && !erred ==> transport.pos == start + messageLength && WellFormedPublish(Rest())
      ensures ok && !erred ==> Extends(old(events), events, Topic(Rest()), Rest()[old(BodyStart())..messageLength])
      ensures erred ==> Spoils(old(events), events)
      ensures !ok ==> transport.starved || (QosOf(Rest()[0]) == 0 && PublishHeaderLen(Rest()) > readLen)
      ensures !ok && !erred ==> events == old(events) || BrokenOff(Rest(), old(BodyStart()), old(events), events)
    {
      var found, name, data := Locate();
      if !found {
        return false, false;
      }
      ok, erred := PostEvents(name, data, BodyStart());
    }

    /** Between two packets. */
    ghost predicate AtBoundary()
      reads this, transport, inBuffer
    {
      Valid() && readLen == 0
    }

    /** Receive, for a packet known to be good. */
    method ReceiveFrame(ghost f: seq<byte>) returns (r: int)
      requires Valid() && Pending()
      requires GoodFrame(f, inBuffer.Length) && f <= Rest()
      modifies this`readLen, this`start, this`messageLength, transport, inBuffer
      ensures transport.Valid() && (r == -1 || r == 0 || r == 1)
      ensures if r == -1 then transport.failed else transport.failed == old(transport.failed)
      ensures r >= 0 ==> Valid() && start == old(start)
      ensures r == 0 ==> Pending()
      ensures r == 1 ==> messageLength == |f| && readLen == Min(|f|, inBuffer.Length)
      ensures r == 1 && TypeOf(f[0]) == PUBLISH ==> HoldsPublish()
    {
      FrameFacts(f, Rest(), inBuffer.Length);
      assert Pending() && readLen > 0 ==> readLen < |f|;
      r := Receive();
      if r == 1 {
        FrameBuffered(f, Rest(), readLen, inBuffer.Length);
      }
    }

    /** Delivery, for a packet known to be good. */
    method DeliverFrame(ghost f: seq<byte>) returns (ok: bool, ghost erred: bool)
      requires HoldsPublish() && f <= Rest() && GoodFrame(f, inBuffer.Length)
      requires TypeOf(f[0]) == PUBLISH
      modifies this`events, transport, inBuffer
      ensures transport.Valid() && transport.failed == (old(transport.failed) || erred)
      ensures ok && !erred ==> transport.pos == start + |f| && Handled(f, old(events), events)
      ensures erred ==> Spoils(old(events), events)
      ensures !ok ==> transport.starved && (!erred ==> PartHandled(f, old(events), events))
    {
      ghost var p, r, before := Rest(), readLen, events;
      FrameLength(f, p);
      assert r == Min(|f|, inBuffer.Length) && TopicLenIn(p, r);
      ok, erred := DeliverPublish();
      if ok && !erred {
        FrameHandled(f, p, r, inBuffer.Length, before, events);
      } else if !erred {
        FramePart(f, p, r, inBuffer.Length, before, events);
      }
    }

    /** Where mqtt_process_receive makes room for the next packet. */
    method NextPacket()
      requires transport.Valid() && inBuffer.Length >= 10
      modifies this`readLen, this`start
      ensures AtBoundary() && start == transport.pos
    {
      start, readLen := transport.pos, 0;
    }

    lemma StoredByte(k: nat)
      requires Valid() && k < readLen
      ensures k < |Rest()| && inBuffer[k] == Rest()[k]
    {
      assert inBuffer[..readLen][k] == transport.stream[start..transport.pos][k];
    }

    lemma StoredBytes()
      requires Valid()
      ensures readLen <= |Rest()| && inBuffer[..readLen] == Rest()[..readLen]
    {
    }
  }

  /** What holds once the fixed header has been read: nothing beyond the packet
      has been stored, except on a misread. */
  ghost predicate HeaderRead(p: seq<byte>, r0: nat, r: nat, capacity: nat) {
    && ValidFirstByteOf(p) && HeaderIn(p, r)
    && (r > r0 ==> r <= 6)
    && (PacketLen(p) <= capacity ==> if Misread(p, r0) then r > PacketLen(p) else r <= PacketLen(p))
  }

  // ---- what the length loop achieves ----

  /** The loop has read from r1 to r bytes: all of them but the last asked for more. */
  ghost predicate LoopRead(p: seq<byte>, r1: nat, r: nat) {
    && 1 <= r1 <= r <= 6 && r <= |p|
    && (r1 == 1 || p[r1 - 1] >= 128)
    && forall k :: Max(r1 - 1, 1) <= k < r - 1 ==> p[k] >= 128
  }

  /** The r bytes read ask for another one. */
  predicate Asking(p: seq<byte>, r: nat) {
    1 <= r < 6 && r <= |p| && (r == 1 || p[r - 1] >= 128)
  }

  lemma LoopStep(p: seq<byte>, r1: nat, r: nat)
    requires LoopRead(p, r1, r) && Asking(p, r) && r < |p|
    ensures LoopRead(p, r1, r + 1)
  {
  }

  /** It ends with the header, unless the header was complete before; then it
      overruns the packet exactly when the resume was a misread. */
  lemma LoopEnds(p: seq<byte>, r0: nat, r: nat, capacity: nat)
    requires ShortField(p) && capacity >= 10 && (r0 > 0 ==> !Done(p, r0, capacity))
    requires LoopRead(p, Max(r0, 1), r) && r > Max(r0, 1) && (r == 6 || p[r - 1] < 128)
    ensures HeaderIn(p, r)
    ensures PacketLen(p) <= capacity ==> if Misread(p, r0) then r > PacketLen(p) else r <= PacketLen(p)
  {
    var r1 := Max(r0, 1);
    if HeaderIn(p, r1) {
      assert FixedLen(p) < r1;
    } else {
      assert Stop(p, 1) >= r1;
      assert FixedLen(p) == r;
    }
  }

  /** Out of data, it has not reached the end of the packet, again up to a misread. */
  lemma LoopPauses(p: seq<byte>, r0: nat, r: nat, capacity: nat)
    requires ShortField(p) && capacity >= 10 && (r0 > 0 ==> !Done(p, r0, capacity))
    requires LoopRead(p, Max(r0, 1), r) && Asking(p, r)
    requires !Misread(p, r0)
    ensures !Done(p, r, capacity)
  {
    var r1 := Max(r0, 1);
    if HeaderIn(p, r1) {
      assert FixedLen(p) < r1;
    } else {
      assert Stop(p, 1) >= r1;
      assert Stop(p, 1) >= r;
    }
  }

  /** Without the loop the header is complete and there is nothing to misread. */
  lemma LoopSkipped(p: seq<byte>, r0: nat, capacity: nat)
    requires ShortField(p) && 2 <= r0 <= |p| && (r0 >= 6 || p[r0 - 1] < 128)
    requires !Done(p, r0, capacity)
    ensures HeaderIn(p, r0) && !Misread(p, r0) && r0 < PacketLen(p)
  {
  }
}
