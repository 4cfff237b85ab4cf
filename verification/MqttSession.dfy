/** mqtt_process_receive on both halves of the MQTT client, and whole runs of it: any
    number of calls, any pattern of short, empty and failed reads and writes. */
module MqttSession {
  import opened Common
  import opened MqttIdentifiers
  import opened MqttPacket
  import opened MqttReceiver
  import opened MqttOutbox
  import opened MqttPending
  import opened MqttPublisher

  /** A connection that carries good packets one after the other. */
  ghost predicate Carries(stream: seq<byte>, frames: seq<seq<byte>>, capacity: nat) {
    stream == Flatten(frames) && forall k :: 0 <= k < |frames| ==> GoodFrame(frames[k], capacity)
  }

  /** The events are those of the packets, in order, each handled once. */
  ghost predicate AllHandled(frames: seq<seq<byte>>, events: seq<DataEvent>) {
    if frames == [] then events == []
    else
      var n := |frames| - 1;
      exists k :: 0 <= k <= |events| && AllHandled(frames[..n], events[..k]) && Handled(frames[n], events[..k], events)
  }

  lemma AllHandledSnoc(frames: seq<seq<byte>>, n: nat, before: seq<DataEvent>, after: seq<DataEvent>)
    requires n < |frames| && AllHandled(frames[..n], before) && Handled(frames[n], before, after)
    ensures AllHandled(frames[..n + 1], after)
  {
    var k := |before|;
    assert after[..k] == before;
    assert frames[..n + 1][..n] == frames[..n];
  }

  /** Where a packet lies in the stream. */
  lemma {:induction false} FrameLies(frames: seq<seq<byte>>, k: nat)
    requires k < |frames|
    ensures var at := |Flatten(frames[..k])|;
      at <= |Flatten(frames)| && frames[k] <= Flatten(frames)[at..]
      && |Flatten(frames[..k + 1])| == at + |frames[k]|
  {
    var n := |frames| - 1;
    assert frames[..k + 1][..k] == frames[..k];
    if k == n {
      assert frames[..k + 1] == frames;
    } else {
      FrameLies(frames[..n], k);
      assert frames[..n][..k] == frames[..k] && frames[..n][..k + 1] == frames[..k + 1];
      var at := |Flatten(frames[..k])|;
      assert Flatten(frames)[at..] == Flatten(frames[..n])[at..] + frames[n];
    }
  }

  lemma {:induction false} FlattenGrows(frames: seq<seq<byte>>, k: nat, capacity: nat)
    requires k <= |frames| && forall m :: 0 <= m < |frames| ==> GoodFrame(frames[m], capacity)
    ensures |Flatten(frames[..k])| <= |Flatten(frames)|
    ensures k < |frames| <==> |Flatten(frames[..k])| < |Flatten(frames)|
  {
    if k == |frames| {
      assert frames[..k] == frames;
    } else {
      var n := |frames| - 1;
      assert frames[..n][..k] == frames[..k];
      FlattenGrows(frames[..n], k, capacity);
      assert GoodFrame(frames[n], capacity);
    }
  }

  // ---- what the client answers ----

  /** The type of the packet that answers one with this first byte; zero for none. */
  function ReplyKind(first: byte): nat {
    if TypeOf(first) == PUBLISH then
      if QosOf(first) == 1 then PUBACK else if QosOf(first) == 2 then PUBREC else 0
    else if TypeOf(first) == PUBREC then PUBREL
    else if TypeOf(first) == PUBREL then PUBCOMP
    else 0
  }

  /** The type of the stored message that such a packet acknowledges; zero for none. */
  function SettledKind(first: byte): nat {
    if TypeOf(first) == PUBACK || TypeOf(first) == PUBCOMP then PUBLISH
    else if TypeOf(first) == SUBACK then SUBSCRIBE
    else if TypeOf(first) == UNSUBACK then UNSUBSCRIBE
    else 0
  }

  /** An acknowledgement; with a total length left over from a dropped message it
      announces that one's length (fini_message). */
  function Ack(kind: nat, used: nat, totalLen: int): seq<byte>
    requires totalLen > 0 ==> totalLen >= FIXED
  {
    [FirstByte(kind, if kind == PUBREL then 1 else 0, false)]
      + EncodeLength(if totalLen > 0 then totalLen - FIXED else 2)
      + Bytes2(used)
  }

  function Without(items: seq<Item>, id: nat, kind: nat): seq<Item> {
    var k := First(items, Matches(id, kind));
    if k < |items| then RemoveAt(items, k) else items
  }

  /** The stored messages after a packet with this first byte and identifier. */
  function Settled(items: seq<Item>, first: byte, id: nat): seq<Item> {
    if SettledKind(first) != 0 then Without(items, id, SettledKind(first))
    else if TypeOf(first) == PUBREC then Marked(items, id, Acknowledged)
    else items
  }

  /** The events reported to the application about them. */
  ghost function Reported(events: seq<Event>, items: seq<Item>, first: byte, id: nat): seq<Event> {
    if SettledKind(first) != 0 && Waits(items, id, SettledKind(first)) then events + [Event((id, SettledKind(first)))]
    else events
  }

  /** The packets after which the code looks at the length of the outbound message:
      those that are answered, and every PUBLISH, answered or not. */
  predicate LengthMatters(first: byte) {
    TypeOf(first) == PUBLISH || ReplyKind(first) != 0
  }

  /** The length of the outbound message after a packet with this first byte. */
  predicate LengthAfter(first: byte, before: nat, after: nat, capacity: nat) {
    if ReplyKind(first) == 0 then after == before else after == 0 <==> capacity < FIXED + 2
  }

  /** What went over the wire: the answer, if there is one, or its front when it could
      not be written. The identifier is the packet's, but zero is replaced. */
  predicate Replied(before: seq<byte>, after: seq<byte>, first: byte, id: nat, length: nat, totalLen: int,
                    used: nat, written: bool)
    requires totalLen > 0 ==> totalLen >= FIXED
  {
    var kind := ReplyKind(first);
    if kind == 0 || length == 0 then after == before && (kind != 0 ==> !written)
    else
      && 0 < used < 65536 && (id != 0 ==> used == id)
      && before <= after <= before + Ack(kind, used, totalLen)
      && (written <==> after == before + Ack(kind, used, totalLen))
  }

  /** The answer to a packet with this first byte, in the numbers of sections 3.4 to 3.7
      of MQTT 3.1.1: a PUBLISH of quality of service 1 gets a PUBACK and one of 2 a PUBREC,
      a PUBREC gets a PUBREL and a PUBREL a PUBCOMP; nothing else is answered. */
  function Answer(first: byte, id: nat): seq<byte>
    requires id < 65536
  {
    if 0x30 <= first < 0x40 && first / 2 % 4 == 1 then [0x40, 2, id / 256, id % 256]
    else if 0x30 <= first < 0x40 && first / 2 % 4 == 2 then [0x50, 2, id / 256, id % 256]
    else if 0x50 <= first < 0x60 then [0x62, 2, id / 256, id % 256]
    else if 0x60 <= first < 0x70 then [0x70, 2, id / 256, id % 256]
    else []
  }

  /** The identifier in it: the packet's, or the next own one in place of zero. */
  function UsedId(last: nat, id: nat): nat {
    if id == 0 then NextId(last) else id
  }

  function LastAfter(last: nat, first: byte, id: nat): nat {
    if ReplyKind(first) != 0 && id == 0 then NextId(last) else last
  }

  lemma AnswerIs(first: byte, id: nat)
    requires id < 65536
    ensures Answer(first, id) == if ReplyKind(first) == 0 then [] else Ack(ReplyKind(first), id, 0)
    ensures Answer(first, id) != [] ==> ValidFirstByte(Answer(first, id)[0])
  {
    assert EncodeLength(2) == [2];
    assert id / 256 < 256;
  }

  /** With no total length left over, the answer has been written, or a front of it. */
  predicate AnswerSent(before: seq<byte>, after: seq<byte>, first: byte, used: nat, totalLen: int, written: bool)
    requires used < 65536
  {
    totalLen == 0 ==>
      before <= after <= before + Answer(first, used) && (written ==> after == before + Answer(first, used))
  }

  lemma RepliedIsAnswer(before: seq<byte>, after: seq<byte>, first: byte, id: nat, last: nat, length: nat,
                        totalLen: int, used: nat, written: bool)
    requires (totalLen > 0 ==> totalLen >= FIXED) && id < 65536
    requires Replied(before, after, first, id, length, totalLen, used, written)
    requires ReplyKind(first) != 0 && length > 0 ==> used == UsedId(last, id)
    ensures AnswerSent(before, after, first, UsedId(last, id), totalLen, written)
  {
    AnswerIs(first, UsedId(last, id));
    assert before + [] == before;
  }

  /** The code is content with the outbound message. */
  predicate Answerable(first: byte, length: nat) {
    LengthMatters(first) ==> length > 0
  }

  /** What the sending half has to show: stored messages, events about them, wire. */
  datatype Shown = Shown(items: seq<Item>, events: seq<Event>, sent: seq<byte>)

  ghost function Showing(out: Publisher): Shown
    reads out, out.pending, out.pending.outbox
  {
    Shown(out.pending.outbox.items, out.pending.events, out.sent)
  }

  /** What dealing with a packet with this first byte and identifier does to all that,
      and to the length of the outbound message: nothing is settled by a packet that
      could not be answered. */
  ghost predicate Dealt(first: byte, id: nat, was: Shown, now: Shown, lengthWas: nat, length: nat, capacity: nat,
                        totalLen: int, used: nat, written: bool)
    requires totalLen > 0 ==> totalLen >= FIXED
  {
    && LengthAfter(first, lengthWas, length, capacity)
    && Replied(was.sent, now.sent, first, id, length, totalLen, used, written)
    && now.items == (if Answerable(first, length) then Settled(was.items, first, id) else was.items)
    && now.events == (if Answerable(first, length) then Reported(was.events, was.items, first, id) else was.events)
  }

  /** The connection is kept after a packet that has been delivered. */
  predicate KeepsLink(first: byte, length: nat, written: bool) {
    Answerable(first, length) && (TypeOf(first) == PUBLISH && ReplyKind(first) != 0 ==> written)
  }

  /** In the numbers of the first byte: a PUBLISH costs the connection over an empty
      outbound message, or an answer that is due and could not be written, a PUBREC or a
      PUBREL only over an empty outbound message, and nothing else does. */
  lemma KeepsLinkIs(first: byte, length: nat, written: bool)
    ensures KeepsLink(first, length, written) <==>
      if 0x30 <= first < 0x40 then length > 0 && (first / 2 % 4 == 1 || first / 2 % 4 == 2 ==> written)
      else 0x50 <= first < 0x70 ==> length > 0
  {
  }

  /** Which stored messages a packet with this first byte acknowledges, in numbers: a
      PUBACK or PUBCOMP a PUBLISH, a SUBACK a SUBSCRIBE, an UNSUBACK an UNSUBSCRIBE. */
  predicate Settles(first: byte, kind: nat) {
    if 0x40 <= first < 0x50 || 0x70 <= first < 0x80 then kind == 3
    else if 0x90 <= first < 0xA0 then kind == 8
    else 0xB0 <= first < 0xC0 && kind == 10
  }

  /** What a packet does to the message with its identifier: it is reported and goes,
      or it is marked by a PUBREC, or nothing happens to it. */
  lemma SettlesByType(item: Item, events: seq<Event>, first: byte, id: nat)
    requires item.kind < 256
    ensures var settled := item.id == id && Settles(first, item.kind);
      && Reported(events, [item], first, id) == (if settled then events + [Event((id, item.kind))] else events)
      && Settled([item], first, id)
         == (if settled then []
             else if item.id == id && 0x50 <= first < 0x60 then [item.(pending := Acknowledged)]
             else [item])
  {
    var items := [item];
    assert items[0] == item;
    FirstWaits(items, id, SettledKind(first));
    assert KeyOf(items[0]) == (item.id, item.kind);
    assert HasId(id)(item) <==> item.id == id;
  }

  ghost predicate Ready(out: Publisher)
    reads out, out.pending, out.pending.outbox
  {
    out.Valid() && out.pending.Valid() && (out.totalLen > 0 ==> FIXED <= out.totalLen < FIXED + 268435456)
  }

  /** The switch of mqtt_process_receive (1204-1284), after the delivery. A failed
      write only counts for the answer to a PUBLISH. */
  method Respond(out: Publisher, first: byte, id: nat) returns (ok: bool, ghost used: nat, ghost written: bool)
    requires Ready(out) && id < 65536
    modifies out`length, out`dataAt, out`dataOffset, out`lastId, out`sent, out.buffer, out.pending, out.pending.outbox
    ensures Ready(out) && out.dataOffset <= old(out.dataOffset)
    ensures Dealt(first, id, old(Showing(out)), Showing(out), old(out.length), out.length, out.buffer.Length,
                  out.totalLen, used, written)
    ensures out.lastId == LastAfter(old(out.lastId), first, id)
    ensures AnswerSent(old(out.sent), out.sent, first, UsedId(old(out.lastId), id), out.totalLen, written)
    ensures ok <==> KeepsLink(first, out.length, written)
  {
    ok, written := false, false;
    ghost var was := Showing(out);
    used := BuildReply(out, first, id);
    if !Answerable(first, out.length) {
      Unanswered(first, id, was, old(out.length), out.length, out.buffer.Length, out.totalLen, used);
    } else {
      ok, written := SettleAndSend(out, first, id, used, old(out.length));
    }
    RepliedIsAnswer(was.sent, out.sent, first, id, old(out.lastId), out.length, out.totalLen, used, written);
  }

  /** The part of it after the test of the length. */
  method SettleAndSend(out: Publisher, first: byte, id: nat, ghost used: nat, ghost lengthWas: nat)
    returns (ok: bool, ghost written: bool)
    requires Ready(out) && Answerable(first, out.length)
    requires LengthAfter(first, lengthWas, out.length, out.buffer.Length)
    requires ReplyKind(first) != 0 ==>
      out.Own() && 0 < used < 65536 && (id != 0 ==> used == id)
      && out.Message() == Ack(ReplyKind(first), used, out.totalLen)
    modifies out`sent, out.pending, out.pending.outbox
    ensures Ready(out)
    ensures Dealt(first, id, old(Showing(out)), Showing(out), lengthWas, out.length, out.buffer.Length,
                  out.totalLen, used, written)
    ensures ok <==> KeepsLink(first, out.length, written)
  {
    ghost var was := Showing(out);
    Settle(out.pending, first, id);
    ok, written := SendReply(out, first, id, used);
    Concluded(first, id, was, Showing(out), lengthWas, out.length, out.buffer.Length, out.totalLen, used, written);
  }

  lemma Concluded(first: byte, id: nat, was: Shown, now: Shown, lengthWas: nat, length: nat, capacity: nat,
                  totalLen: int, used: nat, written: bool)
    requires (totalLen > 0 ==> totalLen >= FIXED) && LengthAfter(first, lengthWas, length, capacity)
    requires Replied(was.sent, now.sent, first, id, length, totalLen, used, written) && Answerable(first, length)
    requires now.items == Settled(was.items, first, id) && now.events == Reported(was.events, was.items, first, id)
    ensures Dealt(first, id, was, now, lengthWas, length, capacity, totalLen, used, written)
  {
  }

  lemma Unanswered(first: byte, id: nat, was: Shown, lengthWas: nat, length: nat, capacity: nat, totalLen: int,
                   used: nat)
    requires (totalLen > 0 ==> totalLen >= FIXED) && LengthAfter(first, lengthWas, length, capacity)
    requires !Answerable(first, length)
    ensures Dealt(first, id, was, was, lengthWas, length, capacity, totalLen, used, false)
  {
  }

  /** mqtt_write_data, where a reply has been built. */
  method SendReply(out: Publisher, first: byte, ghost id: nat, ghost used: nat) returns (ok: bool, ghost written: bool)
    requires out.Valid() && Answerable(first, out.length) && (out.totalLen > 0 ==> out.totalLen >= FIXED)
    requires ReplyKind(first) != 0 ==>
      out.Own() && 0 < used < 65536 && (id != 0 ==> used == id)
      && out.Message() == Ack(ReplyKind(first), used, out.totalLen)
    modifies out`sent
    ensures out.Valid() && Replied(old(out.sent), out.sent, first, id, out.length, out.totalLen, used, written)
    ensures ok <==> KeepsLink(first, out.length, written)
  {
    ok, written := true, false;
    if ReplyKind(first) != 0 {
      var w := out.SendMessage();
      written := w;
      ok := w || TypeOf(first) != PUBLISH;
    }
  }

  /** is_valid_mqtt_msg and outbox_set_pending, for the packets that settle something. */
  method Settle(pending: Client, first: byte, id: nat)
    requires pending.Valid()
    modifies pending, pending.outbox
    ensures pending.Valid()
    ensures pending.outbox.items == Settled(old(pending.outbox.items), first, id)
    ensures pending.events == Reported(old(pending.events), old(pending.outbox.items), first, id)
  {
    if SettledKind(first) != 0 {
      ghost var items := pending.outbox.items;
      FirstWaits(items, id, SettledKind(first));
      var _ := pending.Acknowledge(SettledKind(first), id);
    } else if TypeOf(first) == PUBREC {
      pending.Mark(id, Acknowledged);
    }
  }

  /** mqtt_msg_puback, _pubrec, _pubrel or _pubcomp, where one of them is due. */
  method BuildReply(out: Publisher, first: byte, id: nat) returns (used: nat)
    requires out.Valid() && id < 65536 && (out.totalLen > 0 ==> FIXED <= out.totalLen < FIXED + 268435456)
    modifies out`length, out`dataAt, out`dataOffset, out`lastId, out.buffer
    ensures out.Valid() && out.dataOffset <= old(out.dataOffset)
    ensures out.lastId == LastAfter(old(out.lastId), first, id)
    ensures ReplyKind(first) != 0 && out.length > 0 ==> used == UsedId(old(out.lastId), id)
    ensures LengthAfter(first, old(out.length), out.length, out.buffer.Length)
    ensures ReplyKind(first) != 0 && out.length > 0 ==>
      out.Own() && 0 < used < 65536 && (id != 0 ==> used == id)
      && out.Message() == Ack(ReplyKind(first), used, out.totalLen)
  {
    used := 0;
    var kind := ReplyKind(first);
    if kind != 0 {
      used := out.BuildAck(kind, if kind == PUBREL then 1 else 0, id);
    }
  }

  /** The receiving half of mqtt_process_receive: receive, note the first byte and
      the identifier, and deliver a PUBLISH. */
  method Take(c: Receiver, ghost f: seq<byte>) returns (r: int, first: byte, id: nat, ghost erred: bool)
    requires c.Valid() && c.Pending() && GoodFrame(f, c.inBuffer.Length) && f <= c.Rest()
    modifies c`readLen, c`start, c`messageLength, c`events, c.transport, c.inBuffer
    ensures c.transport.Valid() && (r == -1 || r == 0 || r == 1) && id < 65536
    ensures (r == -1 ==> c.transport.starved || c.transport.failed) && (erred ==> c.transport.failed)
    ensures r >= 0 ==> c.start == old(c.start) && c.transport.failed == (old(c.transport.failed) || erred)
    ensures r == 0 ==> c.Valid() && c.Pending() && c.events == old(c.events) && !erred
    ensures r == 1 ==> first == f[0] && id == PacketId(f)
    ensures r == 1 && !erred ==> c.transport.pos == c.start + |f| && Handled(f, old(c.events), c.events)
    ensures r != 0 && erred ==> Spoils(old(c.events), c.events)
    ensures r == -1 && !erred ==> PartHandled(f, old(c.events), c.events)
  {
    first, id, erred := 0, 0, false;
    r := c.ReceiveFrame(f);
    if r != 1 {
      return;
    }
    FrameLength(f, c.Rest());
    ghost var outside;
    first, id, outside := Identify(c, f);
    if TypeOf(first) == PUBLISH {
      var ok;
      ok, erred := c.DeliverFrame(f);
      r := if ok then 1 else -1;
    }
  }

  /** Type and identifier, taken before the delivery writes over the buffer. The
      identifier is the packet's, unless the header goes beyond the buffer. */
  method Identify(c: Receiver, ghost f: seq<byte>) returns (first: byte, id: nat, ghost outside: bool)
    requires c.Valid() && HeaderIn(f, |f|) && PacketLen(f) == |f| && f <= c.Rest()
    requires c.messageLength == |f| && c.readLen == Min(|f|, c.inBuffer.Length)
    requires |f| > c.inBuffer.Length ==> TypeOf(f[0]) == PUBLISH && TopicLenIn(f, c.readLen)
    ensures first == f[0] && id < 65536 && outside == IdBeyond(f, c.inBuffer.Length) && (!outside ==> id == PacketId(f))
  {
    c.StoredBytes();
    c.StoredByte(0);
    assert c.inBuffer[..c.readLen] == f[..c.readLen];
    first := c.inBuffer[0];
    id, outside := GetId(c.inBuffer, c.messageLength, f);
  }

  /** mqtt_process_receive. A packet that has been delivered still costs the connection
      if it is a PUBLISH that cannot be answered, or if the outbound message happens
      to be empty: a PUBLISH that needs no answer fails on what an earlier call left. */
  method Process(c: Receiver, out: Publisher, ghost f: seq<byte>)
    returns (r: int, ghost got: bool, ghost erred: bool, ghost used: nat, ghost written: bool)
    requires c.Valid() && c.Pending() && GoodFrame(f, c.inBuffer.Length) && f <= c.Rest()
    requires Ready(out) && out.buffer != c.inBuffer
    modifies c, c.transport, c.inBuffer, out, out.buffer, out.pending, out.pending.outbox
    ensures Ready(out) && c.transport.Valid() && (r == -1 || r == 0 || r == 1)
    ensures erred ==> c.transport.failed
    ensures out.dataOffset <= old(out.dataOffset)
    ensures out.connected == old(out.connected) && out.totalLen == old(out.totalLen)
    ensures !got ==> r <= 0 && (r == -1 ==> c.transport.starved || c.transport.failed)
    ensures !got && r == -1 ==>
      if erred then Spoils(old(c.events), c.events) else PartHandled(f, old(c.events), c.events)
    ensures !got ==> Showing(out) == old(Showing(out)) && out.length == old(out.length)
    ensures got ==> c.transport.failed == (old(c.transport.failed) || erred)
    ensures got ==> if erred then Spoils(old(c.events), c.events) else Handled(f, old(c.events), c.events)
    ensures got ==> Dealt(f[0], PacketId(f), old(Showing(out)), Showing(out), old(out.length), out.length,
                          out.buffer.Length, out.totalLen, used, written)
    ensures got ==> out.lastId == LastAfter(old(out.lastId), f[0], PacketId(f))
    ensures got ==>
      PacketId(f) < 65536
      && AnswerSent(old(out.sent), out.sent, f[0], UsedId(old(out.lastId), PacketId(f)), out.totalLen, written)
    ensures !got ==> out.lastId == old(out.lastId)
    ensures got ==> r != 0 && (r == 1 <==> KeepsLink(f[0], out.length, written))
    ensures r == 0 ==> c.Valid() && c.Pending() && c.start == old(c.start) && c.events == old(c.events)
    ensures r == 0 ==> c.transport.failed == old(c.transport.failed)
    ensures r == 1 ==> c.AtBoundary() && (!erred ==> c.start == old(c.start) + |f|)
  {
    got, used, written := false, 0, false;
    var first, id;
    r, first, id, erred := Take(c, f);
    if r != 1 {
      return;
    }
    got := true;
    r, used, written := RespondAndGoOn(c, out, first, id);
  }

  /** What follows the delivery. */
  method RespondAndGoOn(c: Receiver, out: Publisher, first: byte, id: nat)
    returns (r: int, ghost used: nat, ghost written: bool)
    requires c.transport.Valid() && c.inBuffer.Length >= 10
    requires Ready(out) && out.buffer != c.inBuffer && id < 65536
    modifies c`readLen, c`start
    modifies out`length, out`dataAt, out`dataOffset, out`lastId, out`sent, out.buffer, out.pending, out.pending.outbox
    ensures Ready(out) && out.dataOffset <= old(out.dataOffset)
    ensures Dealt(first, id, old(Showing(out)), Showing(out), old(out.length), out.length, out.buffer.Length,
                  out.totalLen, used, written)
    ensures out.lastId == LastAfter(old(out.lastId), first, id)
    ensures AnswerSent(old(out.sent), out.sent, first, UsedId(old(out.lastId), id), out.totalLen, written)
    ensures r == if KeepsLink(first, out.length, written) then 1 else -1
    ensures r == 1 ==> c.AtBoundary() && c.start == c.transport.pos
  {
    var ok;
    ok, used, written := Respond(out, first, id);
    r := if ok then 1 else -1;
    if ok {
      c.NextPacket();
    }
  }

  /** An incoming PUBLISH of quality of service 0, right after a call of publish:
      its delivery costs the connection exactly if the call was refused. If the call
      has found, or left, no connection, nothing is received (1401-1403). */
  method PublishThenProcess(c: Receiver, out: Publisher, ghost f: seq<byte>,
                            topic: seq<byte>, data: Option<seq<byte>>, len: int, qos: nat, retain: bool)
    returns (r: int, ghost got: bool)
    requires c.Valid() && c.Pending() && GoodFrame(f, c.inBuffer.Length) && f <= c.Rest()
    requires TypeOf(f[0]) == PUBLISH && QosOf(f[0]) == 0
    requires Ready(out) && out.buffer != c.inBuffer && Sensible(topic, data, len, qos)
    modifies c, c.transport, c.inBuffer, out, out.buffer, out.pending, out.pending.outbox
    ensures !got ==> r <= 0 && (r == -1 ==> c.transport.starved || c.transport.failed)
    ensures got ==> (r == -1 <==> Refused(topic, data, len, qos, out.buffer.Length))
    ensures !out.connected ==> r == 0 && !got && c.transport.pos == old(c.transport.pos) && c.events == old(c.events)
    ensures Refused(topic, data, len, qos, out.buffer.Length) ==> out.connected == old(out.connected)
  {
    var _, _, _, _ := out.Publish(topic, data, len, qos, retain);
    r, got := 0, false;
    if !out.connected {
      return;
    }
    ghost var erred, used, written;
    r, got, erred, used, written := Process(c, out, f);
  }

  // ---- whole connections ----

  /** The answer to a packet: the identifier is the packet's, but zero is replaced. */
  ghost predicate IsReply(f: seq<byte>, totalLen: int, p: seq<byte>)
    requires f != [] && (totalLen > 0 ==> totalLen >= FIXED)
  {
    var kind := ReplyKind(f[0]);
    if kind == 0 then p == []
    else
      exists used: nat ::
        0 < used < 65536 && (PacketId(f) != 0 ==> used == PacketId(f)) && p == Ack(kind, used, totalLen)
  }

  ghost predicate AreReplies(frames: seq<seq<byte>>, totalLen: int, replies: seq<seq<byte>>)
    requires totalLen > 0 ==> totalLen >= FIXED
  {
    && |replies| <= |frames|
    && forall k :: 0 <= k < |replies| ==> frames[k] != [] && IsReply(frames[k], totalLen, replies[k])
  }

  /** The stored messages after all these packets. */
  function SettledAll(items: seq<Item>, frames: seq<seq<byte>>): seq<Item> {
    if frames == [] then items
    else
      var f, before := frames[|frames| - 1], SettledAll(items, frames[..|frames| - 1]);
      if f == [] then before else Settled(before, f[0], PacketId(f))
  }

  /** And the events reported about them. */
  ghost function ReportedAll(events: seq<Event>, items: seq<Item>, frames: seq<seq<byte>>): seq<Event> {
    if frames == [] then events
    else
      var f, front := frames[|frames| - 1], frames[..|frames| - 1];
      var before := ReportedAll(events, items, front);
      if f == [] then before else Reported(before, SettledAll(items, front), f[0], PacketId(f))
  }

  lemma SettledNext(events: seq<Event>, items: seq<Item>, frames: seq<seq<byte>>, n: nat)
    requires n < |frames| && frames[n] != []
    ensures var f, now := frames[n], SettledAll(items, frames[..n]);
      && SettledAll(items, frames[..n + 1]) == Settled(now, f[0], PacketId(f))
      && ReportedAll(events, items, frames[..n + 1])
         == Reported(ReportedAll(events, items, frames[..n]), now, f[0], PacketId(f))
  {
    assert frames[..n + 1][..n] == frames[..n];
  }

  /** Every reply so far has been written in full, and is the one that is due. */
  lemma ReplyNext(frames: seq<seq<byte>>, totalLen: int, replies: seq<seq<byte>>, used: nat)
    requires totalLen > 0 ==> totalLen >= FIXED
    requires AreReplies(frames, totalLen, replies) && |replies| < |frames| && frames[|replies|] != []
    requires var f := frames[|replies|];
      ReplyKind(f[0]) != 0 ==> 0 < used < 65536 && (PacketId(f) != 0 ==> used == PacketId(f))
    ensures AreReplies(frames, totalLen, replies + [ReplyOf(frames[|replies|], totalLen, used)])
  {
    var f, p := frames[|replies|], ReplyOf(frames[|replies|], totalLen, used);
    assert IsReply(f, totalLen, p);
  }

  /** The reply to a packet, given the identifier used in it. */
  function ReplyOf(f: seq<byte>, totalLen: int, used: nat): seq<byte>
    requires f != [] && (totalLen > 0 ==> totalLen >= FIXED)
  {
    if ReplyKind(f[0]) == 0 then [] else Ack(ReplyKind(f[0]), used, totalLen)
  }

  /** A packet that is answered has an identifier, as section 2.3.1 of MQTT 3.1.1 asks. */
  predicate Identified(f: seq<byte>) {
    f != [] && (Answer(f[0], 0) != [] ==> PacketId(f) != 0)
  }

  predicate AllIdentified(frames: seq<seq<byte>>) {
    forall k :: 0 <= k < |frames| ==> Identified(frames[k])
  }

  function AnswerTo(f: seq<byte>): seq<byte>
    requires f != []
  {
    Answer(f[0], PacketId(f))
  }

  /** The answers to these packets, in order. */
  function Answers(frames: seq<seq<byte>>): (answers: seq<seq<byte>>)
    requires AllIdentified(frames)
    ensures |answers| == |frames|
  {
    seq(|frames|, k requires 0 <= k < |frames| => AnswerTo(frames[k]))
  }

  lemma ReplyIsAnswer(f: seq<byte>, p: seq<byte>)
    requires Identified(f) && IsReply(f, 0, p)
    ensures p == AnswerTo(f)
  {
    AnswerIs(f[0], PacketId(f));
    AnswerIs(f[0], 0);
  }

  lemma RepliesAreAnswers(frames: seq<seq<byte>>, replies: seq<seq<byte>>)
    requires AreReplies(frames, 0, replies) && AllIdentified(frames[..|replies|])
    ensures replies == Answers(frames[..|replies|])
  {
    forall k | 0 <= k < |replies| ensures replies[k] == Answers(frames[..|replies|])[k] {
      assert frames[..|replies|][k] == frames[k];
      ReplyIsAnswer(frames[k], replies[k]);
    }
  }

  /** The effect on it of the packets so far. */
  ghost predicate Answered(frames: seq<seq<byte>>, totalLen: int, replies: seq<seq<byte>>, written: bool,
                           was: Shown, next: Shown)
    requires totalLen > 0 ==> totalLen >= FIXED
  {
    && AreReplies(frames, totalLen, replies)
    && next.items == SettledAll(was.items, frames[..|replies|])
    && next.events == ReportedAll(was.events, was.items, frames[..|replies|])
    && (written ==> next.sent == was.sent + Flatten(replies))
  }

  lemma AnsweredNext(frames: seq<seq<byte>>, totalLen: int, replies: seq<seq<byte>>, written: bool,
                     was: Shown, before: Shown, after: Shown, f: seq<byte>, lengthWas: nat, length: nat,
                     capacity: nat, used: nat, w: bool)
    requires totalLen > 0 ==> totalLen >= FIXED
    requires Answered(frames, totalLen, replies, written, was, before)
    requires |replies| < |frames| && f == frames[|replies|] != [] && Answerable(f[0], length)
    requires Dealt(f[0], PacketId(f), before, after, lengthWas, length, capacity, totalLen, used, w)
    ensures Answered(frames, totalLen, replies + [ReplyOf(f, totalLen, used)], written && (ReplyKind(f[0]) != 0 ==> w),
                     was, after)
  {
    var n, more := |replies|, replies + [ReplyOf(f, totalLen, used)];
    SettledNext(was.events, was.items, frames, n);
    assert frames[..|more|] == frames[..n + 1];
    assert after.items == SettledAll(was.items, frames[..n + 1]);
    assert after.events == ReportedAll(was.events, was.items, frames[..n + 1]);
    ReplyNext(frames, totalLen, replies, used);
    WireNext(was.sent, before.sent, after.sent, replies, written, f, length, totalLen, used, w);
  }

  lemma WireNext(was: seq<byte>, before: seq<byte>, after: seq<byte>, replies: seq<seq<byte>>, written: bool,
                 f: seq<byte>, length: nat, totalLen: int, used: nat, w: bool)
    requires (totalLen > 0 ==> totalLen >= FIXED) && f != [] && Answerable(f[0], length)
    requires written ==> before == was + Flatten(replies)
    requires Replied(before, after, f[0], PacketId(f), length, totalLen, used, w)
    ensures written && (ReplyKind(f[0]) != 0 ==> w) ==>
      after == was + Flatten(replies + [ReplyOf(f, totalLen, used)])
  {
    FlattenAfter(was, replies, ReplyOf(f, totalLen, used));
  }

  /** The same for a connection that is given up over the next packet: nothing of it
      is settled, and of its answer a proper front, at most, has been written. */
  ghost predicate CutOff(frames: seq<seq<byte>>, totalLen: int, replies: seq<seq<byte>>, written: bool,
                         was: Shown, next: Shown, broken: seq<byte>)
    requires totalLen > 0 ==> totalLen >= FIXED
  {
    && AreReplies(frames, totalLen, replies) && |replies| < |frames|
    && next.items == SettledAll(was.items, frames[..|replies|])
    && next.events == ReportedAll(was.events, was.items, frames[..|replies|])
    && (written ==> was.sent + Flatten(replies) <= next.sent <= was.sent + Flatten(replies) + broken)
    && (written && broken != [] ==> next.sent != was.sent + Flatten(replies) + broken)
    && (broken != [] ==> frames[|replies|] != [] && IsReply(frames[|replies|], totalLen, broken))
  }

  lemma CutOffHere(frames: seq<seq<byte>>, totalLen: int, replies: seq<seq<byte>>, written: bool,
                   was: Shown, before: Shown, after: Shown, f: seq<byte>, lengthWas: nat, length: nat,
                   capacity: nat, used: nat, w: bool, got: bool)
    requires totalLen > 0 ==> totalLen >= FIXED
    requires Answered(frames, totalLen, replies, written, was, before)
    requires |replies| < |frames| && f == frames[|replies|] != []
    requires if got then Dealt(f[0], PacketId(f), before, after, lengthWas, length, capacity, totalLen, used, w)
             else after == before
    requires got ==> !KeepsLink(f[0], length, w)
    ensures CutOff(frames, totalLen, replies, written, was, after, Begun(f, length, totalLen, used, got))
    ensures got ==> length == 0 || Begun(f, length, totalLen, used, got) != []
  {
    if Begun(f, length, totalLen, used, got) != [] {
      assert IsReply(f, totalLen, ReplyOf(f, totalLen, used));
    } else {
      assert was.sent + Flatten(replies) + [] == was.sent + Flatten(replies);
    }
  }

  /** The answer that was begun, if one was. */
  function Begun(f: seq<byte>, length: nat, totalLen: int, used: nat, got: bool): seq<byte>
    requires f != [] && (totalLen > 0 ==> totalLen >= FIXED)
  {
    if got && length > 0 then ReplyOf(f, totalLen, used) else []
  }

  /** The wire has got the answers to the first h packets, in order, and then at most a
      proper front of the one to the next packet. */
  ghost predicate OnTheWire(frames: seq<seq<byte>>, h: nat, before: seq<byte>, after: seq<byte>, broken: seq<byte>) {
    && h <= |frames|
    && (AllIdentified(frames[..h]) ==>
          var all := before + Flatten(Answers(frames[..h]));
          all <= after <= all + broken && (if broken == [] then after == all else after != all + broken))
    && (broken != [] ==> h < |frames| && frames[h] != [] && (Identified(frames[h]) ==> broken == AnswerTo(frames[h])))
  }

  lemma AllOnTheWire(frames: seq<seq<byte>>, replies: seq<seq<byte>>, written: bool, was: Shown, now: Shown,
                     totalLen: int)
    requires (totalLen > 0 ==> totalLen >= FIXED) && Answered(frames, totalLen, replies, written, was, now)
    ensures written && totalLen == 0 ==> OnTheWire(frames, |replies|, was.sent, now.sent, [])
  {
    if totalLen == 0 && AllIdentified(frames[..|replies|]) {
      RepliesAreAnswers(frames, replies);
    }
  }

  lemma BrokenOnTheWire(frames: seq<seq<byte>>, replies: seq<seq<byte>>, written: bool, was: Shown, now: Shown,
                        totalLen: int, broken: seq<byte>)
    requires (totalLen > 0 ==> totalLen >= FIXED) && CutOff(frames, totalLen, replies, written, was, now, broken)
    ensures written && totalLen == 0 ==> OnTheWire(frames, |replies|, was.sent, now.sent, broken)
  {
    if totalLen == 0 {
      if AllIdentified(frames[..|replies|]) {
        RepliesAreAnswers(frames, replies);
        var all := was.sent + Flatten(Answers(frames[..|replies|]));
        assert all + [] == all;
      }
      if broken != [] && Identified(frames[|replies|]) {
        ReplyIsAnswer(frames[|replies|], broken);
      }
    }
  }

  /** The effect on the application. */
  ghost predicate Taken(frames: seq<seq<byte>>, h: nat, start: nat, before: seq<DataEvent>, events: seq<DataEvent>,
                        erred: bool) {
    && h <= |frames|
    && if erred then h > 0 && AllHandled(frames[..h - 1], before) && Spoils(before, events)
       else start == |Flatten(frames[..h])| && AllHandled(frames[..h], events)
  }

  lemma TakenNext(frames: seq<seq<byte>>, h: nat, start: nat, events: seq<DataEvent>, next: nat, after: seq<DataEvent>,
                  erred: bool)
    requires h < |frames| && Taken(frames, h, start, events, events, false)
    requires if erred then Spoils(events, after) else next == start + |frames[h]| && Handled(frames[h], events, after)
    ensures Taken(frames, h + 1, next, events, after, erred)
  {
    FrameLies(frames, h);
    if erred {
      assert frames[..h + 1 - 1] == frames[..h];
    } else {
      AllHandledSnoc(frames, h, events, after);
    }
  }

  /** The effect on the application when the connection is given up over the next
      packet: it has been delivered, or a front of it, or spoiled by a failed read. */
  ghost predicate TakenPart(frames: seq<seq<byte>>, h: nat, before: seq<DataEvent>, events: seq<DataEvent>,
                            erred: bool, got: bool) {
    && h < |frames| && AllHandled(frames[..h], before)
    && if erred then Spoils(before, events)
       else if got then Handled(frames[h], before, events)
       else PartHandled(frames[h], before, events)
  }

  /** However the reads and writes are cut up, after any number of calls the packets
      handled are a prefix of those sent, each has had its full effect in order on
      the application, on the stored messages and, as long as writes succeed, on the
      wire; nothing has been lost, read twice or answered twice. The connection is
      given up only after an empty or failed read, a failed write of an answer, or
      with an empty outbound message; then the next packet has been delivered (got),
      or a front of it has, it has settled nothing, and at most a proper front of the
      answer to it (broken) is on the wire. A failed read during a delivery spoils the
      events of that packet. */
  method Pump(t: Transport, capacity: nat, calls: nat, out: Publisher, ghost frames: seq<seq<byte>>)
    returns (c: Receiver, failed: bool, ghost h: nat, ghost replies: seq<seq<byte>>, ghost written: bool,
             ghost before: seq<DataEvent>, ghost erred: bool, ghost got: bool, ghost broken: seq<byte>)
    requires t.Valid() && !t.failed && t.pos == 0 && capacity >= 10 && Carries(t.stream, frames, capacity)
    requires Ready(out)
    modifies t, out, out.buffer, out.pending, out.pending.outbox
    ensures Ready(out) && out.totalLen == old(out.totalLen) && |replies| == h <= |frames|
    ensures failed ==> t.failed || t.starved || out.length == 0 || broken != []
    ensures old(out.length) > 0 && out.buffer.Length >= FIXED + 2 ==> out.length > 0
    ensures erred ==> t.failed
    ensures !failed ==> erred == t.failed && Taken(frames, h, c.start, before, c.events, erred)
    ensures !failed ==> Answered(frames, out.totalLen, replies, written, old(Showing(out)), Showing(out))
    ensures !failed && !t.failed && t.pos == |t.stream| ==> h == |frames|
    ensures failed ==> TakenPart(frames, h, before, c.events, erred, got)
    ensures failed ==> CutOff(frames, out.totalLen, replies, written, old(Showing(out)), Showing(out), broken)
    ensures written && out.totalLen == 0 ==>
      OnTheWire(frames, h, old(out.sent), out.sent, if failed then broken else [])
  {
    c := new Receiver(t, capacity);
    failed, h, replies, written, before, erred, got, broken := false, 0, [], true, [], false, false, [];
    assert out.sent == out.sent + Flatten(replies);
    var i := 0;
    while i < calls && !t.failed && (c.readLen > 0 || t.pos < |t.stream|)
      invariant fresh(c) && fresh(c.inBuffer) && c.transport == t && c.inBuffer.Length == capacity
      invariant t.Valid() && Ready(out) && out.totalLen == old(out.totalLen) && |replies| == h
      invariant old(out.length) > 0 && out.buffer.Length >= FIXED + 2 ==> out.length > 0
      invariant !t.failed ==> c.Valid() && c.Pending()
      invariant erred == t.failed && Taken(frames, h, c.start, before, c.events, erred)
      invariant Answered(frames, out.totalLen, replies, written, old(Showing(out)), Showing(out))
    {
      var r;
      r, h, replies, written, before, erred, got, broken :=
        Turn(c, out, frames, h, replies, written, old(Showing(out)));
      if r == -1 {
        failed := true;
        BrokenOnTheWire(frames, replies, written, old(Showing(out)), Showing(out), out.totalLen, broken);
        return;
      }
      i := i + 1;
    }
    if !t.failed && t.pos == |t.stream| {
      NothingPending(c, frames, h);
    }
    AllOnTheWire(frames, replies, written, old(Showing(out)), Showing(out), out.totalLen);
  }

  /** One call of mqtt_process_receive in such a run. */
  method Turn(c: Receiver, out: Publisher, ghost frames: seq<seq<byte>>, ghost h0: nat, ghost replies0: seq<seq<byte>>,
              ghost written0: bool, ghost was: Shown)
    returns (r: int, ghost h: nat, ghost replies: seq<seq<byte>>, ghost written: bool, ghost before: seq<DataEvent>,
             ghost erred: bool, ghost got: bool, ghost broken: seq<byte>)
    requires c.Valid() && c.Pending()
    requires !c.transport.failed && (c.readLen > 0 || c.transport.pos < |c.transport.stream|)
    requires Ready(out) && out.buffer != c.inBuffer && Carries(c.transport.stream, frames, c.inBuffer.Length)
    requires Taken(frames, h0, c.start, c.events, c.events, false) && |replies0| == h0
    requires Answered(frames, out.totalLen, replies0, written0, was, Showing(out))
    modifies c, c.transport, c.inBuffer, out, out.buffer, out.pending, out.pending.outbox
    ensures Ready(out) && c.transport.Valid() && out.totalLen == old(out.totalLen) && |replies| == h <= |frames|
    ensures old(out.length) > 0 && out.buffer.Length >= FIXED + 2 ==> out.length > 0
    ensures r == -1 ==> c.transport.failed || c.transport.starved || out.length == 0 || broken != []
    ensures erred ==> c.transport.failed
    ensures r != -1 ==> erred == c.transport.failed && (!erred ==> c.Valid() && c.Pending())
    ensures r != -1 ==> Taken(frames, h, c.start, before, c.events, erred)
    ensures r != -1 ==> Answered(frames, out.totalLen, replies, written, was, Showing(out))
    ensures r == -1 ==> TakenPart(frames, h, before, c.events, erred, got)
    ensures r == -1 ==> CutOff(frames, out.totalLen, replies, written, was, Showing(out), broken)
  {
    FlattenGrows(frames, h0, c.inBuffer.Length);
    FrameLies(frames, h0);
    before := c.events;
    ghost var start, showing, length := c.start, Showing(out), out.length;
    ghost var used, w;
    r, got, erred, used, w := Process(c, out, frames[h0]);
    h, replies, written, broken := Booked(frames, replies0, written0, was, showing, Showing(out), start, c.start,
      before, c.events, length, out.length, out.buffer.Length, out.totalLen, used, w, r, got, erred);
  }

  /** What a call comes to, for the run. */
  lemma Booked(frames: seq<seq<byte>>, replies0: seq<seq<byte>>, written0: bool, was: Shown, showing: Shown, now: Shown,
               start: nat, startNow: nat, before: seq<DataEvent>, events: seq<DataEvent>, lengthWas: nat, length: nat,
               capacity: nat, totalLen: int, used: nat, w: bool, r: int, got: bool, erred: bool)
    returns (h: nat, replies: seq<seq<byte>>, written: bool, broken: seq<byte>)
    requires (totalLen > 0 ==> totalLen >= FIXED) && |replies0| < |frames| && frames[|replies0|] != []
    requires Taken(frames, |replies0|, start, before, before, false)
    requires Answered(frames, totalLen, replies0, written0, was, showing)
    requires var f := frames[|replies0|];
      if got then
        && Dealt(f[0], PacketId(f), showing, now, lengthWas, length, capacity, totalLen, used, w)
        && (if erred then Spoils(before, events) else Handled(f, before, events))
        && r == (if KeepsLink(f[0], length, w) then 1 else -1)
      else now == showing && -1 <= r <= 0
    requires r == 1 && !erred ==> startNow == start + |frames[|replies0|]|
    requires r == 0 ==> startNow == start && events == before && !erred
    requires r == -1 && !got ==>
      if erred then Spoils(before, events) else PartHandled(frames[|replies0|], before, events)
    ensures |replies| == h <= |frames|
    ensures r != -1 ==> Taken(frames, h, startNow, before, events, erred)
    ensures r != -1 ==> Answered(frames, totalLen, replies, written, was, now)
    ensures r == -1 ==> TakenPart(frames, h, before, events, erred, got)
    ensures r == -1 ==> CutOff(frames, totalLen, replies, written, was, now, broken)
    ensures r == -1 && got ==> length == 0 || broken != []
  {
    h, replies, written, broken := |replies0|, replies0, written0, [];
    var f := frames[h];
    if r == 1 {
      TakenNext(frames, h, start, before, startNow, events, erred);
      AnsweredNext(frames, totalLen, replies, written, was, showing, now, f, lengthWas, length, capacity, used, w);
      h, replies, written := h + 1, replies + [ReplyOf(f, totalLen, used)], written && (ReplyKind(f[0]) != 0 ==> w);
    } else if r == -1 {
      CutOffHere(frames, totalLen, replies, written, was, showing, now, f, lengthWas, length, capacity, used, w, got);
      broken := Begun(f, length, totalLen, used, got);
    }
  }

  /** A packet that has been sent in full is never left waiting. */
  lemma NothingPending(c: Receiver, frames: seq<seq<byte>>, h: nat)
    requires c.Valid() && c.Pending() && Carries(c.transport.stream, frames, c.inBuffer.Length)
    requires h <= |frames| && c.start == |Flatten(frames[..h])| && c.transport.pos == |c.transport.stream|
    ensures h == |frames|
  {
    FlattenGrows(frames, h, c.inBuffer.Length);
    if h < |frames| {
      FrameLies(frames, h);
      FrameFacts(frames[h], c.Rest(), c.inBuffer.Length);
    }
  }
}
