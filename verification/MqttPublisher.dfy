/** The sending half of mqtt_client.c and the message builder of mqtt_msg.c:
    PUBLISH packets built in a fixed buffer, sent in fragments when they do not
    fit, and copied whole into the outbox. */
module MqttPublisher {
  import opened Common
  import opened MqttIdentifiers
  import opened MqttOutbox
  import opened MqttPacket
  import opened MqttPending

  // ---- the packet as section 3.3 defines it ----

  function Bytes2(n: nat): seq<byte> {
    [n / 256 % 256, n % 256]
  }

  function FirstByte(kind: nat, qos: nat, retain: bool): byte {
    kind % 16 * 16 + qos % 4 * 2 + if retain then 1 else 0
  }

  /** Topic and, above quality of service 0, the packet identifier. */
  function VariableHeader(topic: seq<byte>, qos: nat, id: nat): seq<byte> {
    Bytes2(|topic|) + topic + IdField(qos, id)
  }

  function PublishPacket(topic: seq<byte>, data: seq<byte>, qos: nat, retain: bool, id: nat): seq<byte> {
    var header := VariableHeader(topic, qos, id);
    [FirstByte(PUBLISH, qos, retain)] + EncodeLength(|header| + |data|) + header + data
  }

  lemma FirstByteFacts(qos: nat, retain: bool)
    requires qos < 3
    ensures var b := FirstByte(PUBLISH, qos, retain);
      TypeOf(b) == PUBLISH && QosOf(b) == qos && DupOf(b) == 0 && ValidFirstByte(b) && (b % 2 == 1 <==> retain)
  {
  }

  lemma WordOfBytes2(n: nat)
    requires n < 65536
    ensures Word(Bytes2(n)[0], Bytes2(n)[1]) == n
  {
  }

  lemma Middle<T>(a: seq<T>, b: seq<T>, c: seq<T>)
    ensures (a + b + c)[|a|..|a| + |b|] == b && (a + b + c)[|a| + |b|..] == c
  {
  }

  lemma Regroup<T>(a: seq<T>, b: seq<T>, c: seq<T>, d: seq<T>, e: seq<T>)
    ensures a + (b + c + d) + e == a + b + (c + d + e)
    ensures a + (b + c + d) + e == (a + b) + c + (d + e)
    ensures a + (b + c + d) + e == a + (b + c + d + e)
  {
  }

  function FixedHeader(topic: seq<byte>, data: seq<byte>, qos: nat, retain: bool, id: nat): seq<byte> {
    [FirstByte(PUBLISH, qos, retain)] + EncodeLength(|VariableHeader(topic, qos, id)| + |data|)
  }

  function IdField(qos: nat, id: nat): seq<byte> {
    if qos > 0 then Bytes2(id) else []
  }

  /** Two ways to cut the packet. */
  lemma PublishParts(topic: seq<byte>, data: seq<byte>, qos: nat, retain: bool, id: nat)
    ensures var p, fixed := PublishPacket(topic, data, qos, retain, id), FixedHeader(topic, data, qos, retain, id);
      && p == fixed + (VariableHeader(topic, qos, id) + data)
      && p == (fixed + Bytes2(|topic|)) + topic + (IdField(qos, id) + data)
  {
    var fixed, size, ids := FixedHeader(topic, data, qos, retain, id), Bytes2(|topic|), IdField(qos, id);
    Regroup(fixed, size, topic, ids, data);
    assert fixed + (size + topic + ids) + data == fixed + ((size + topic + ids) + data);
  }

  lemma PublishFramed(topic: seq<byte>, data: seq<byte>, qos: nat, retain: bool, id: nat)
    requires qos < 3
    ensures var p := PublishPacket(topic, data, qos, retain, id);
      && p != [] && p[0] == FirstByte(PUBLISH, qos, retain)
      && HeaderIn(p, |p|) && FixedLen(p) == |FixedHeader(topic, data, qos, retain, id)| && PacketLen(p) == |p|
  {
    PublishParts(topic, data, qos, retain, id);
    FramedLength(FirstByte(PUBLISH, qos, retain), VariableHeader(topic, qos, id) + data);
  }

  /** The packet reads back as what it was built from. */
  lemma PublishReadsBack(topic: seq<byte>, data: seq<byte>, qos: nat, retain: bool, id: nat)
    requires 0 < |topic| < 65536 && qos < 3
    ensures var p := PublishPacket(topic, data, qos, retain, id);
      WellFormedPublish(p) && PacketLen(p) == |p| && ValidFirstByte(p[0])
      && Topic(p) == topic && Payload(p) == data && QosOf(p[0]) == qos && (p[0] % 2 == 1 <==> retain)
  {
    PublishFramed(topic, data, qos, retain, id);
    PublishParts(topic, data, qos, retain, id);
    FirstByteFacts(qos, retain);
    Reassemble(PublishPacket(topic, data, qos, retain, id), FixedHeader(topic, data, qos, retain, id),
               topic, IdField(qos, id), data, qos);
  }

  lemma Reassemble(p: seq<byte>, fixed: seq<byte>, topic: seq<byte>, ids: seq<byte>, data: seq<byte>, qos: nat)
    requires p == (fixed + Bytes2(|topic|)) + topic + (ids + data) && 0 < |topic| < 65536
    requires HeaderIn(p, |p|) && FixedLen(p) == |fixed| && PacketLen(p) == |p|
    requires TypeOf(p[0]) == PUBLISH && QosOf(p[0]) == qos && |ids| == if qos > 0 then 2 else 0
    ensures WellFormedPublish(p) && Topic(p) == topic && Payload(p) == data
  {
    WordOfBytes2(|topic|);
    PartsAt(p, fixed, Bytes2(|topic|), topic, ids, data);
    ReadsAs(p, |fixed|, topic, data, qos);
  }

  lemma ReadsAs(p: seq<byte>, f: nat, topic: seq<byte>, data: seq<byte>, qos: nat)
    requires HeaderIn(p, |p|) && FixedLen(p) == f && PacketLen(p) == |p|
    requires TypeOf(p[0]) == PUBLISH && QosOf(p[0]) == qos && topic != []
    requires f + 2 + |topic| + (if qos > 0 then 2 else 0) + |data| == |p|
    requires Word(p[f], p[f + 1]) == |topic| && p[f + 2..f + 2 + |topic|] == topic
    requires p[|p| - |data|..] == data
    ensures WellFormedPublish(p) && Topic(p) == topic && Payload(p) == data
  {
  }

  lemma PartsAt(p: seq<byte>, fixed: seq<byte>, size: seq<byte>, topic: seq<byte>, ids: seq<byte>, data: seq<byte>)
    requires p == (fixed + size) + topic + (ids + data) && |size| == 2
    ensures |fixed| + 2 <= |p| && p[|fixed|] == size[0] && p[|fixed| + 1] == size[1]
    ensures |fixed| + 2 + |topic| + |ids| <= |p|
    ensures p[|fixed| + 2..|fixed| + 2 + |topic|] == topic
    ensures p[|fixed| + 2 + |topic| + |ids|..] == data
  {
    Middle(fixed + size, topic, ids + data);
  }

  /** And it carries its identifier, for the reader of the other side. */
  lemma PublishCarriesId(topic: seq<byte>, data: seq<byte>, qos: nat, retain: bool, id: nat)
    requires |topic| < 65536 && 0 < qos < 3 && id < 65536
    ensures PacketId(PublishPacket(topic, data, qos, retain, id)) == id
  {
    var p, fixed := PublishPacket(topic, data, qos, retain, id), FixedHeader(topic, data, qos, retain, id);
    PublishFramed(topic, data, qos, retain, id);
    PublishParts(topic, data, qos, retain, id);
    FirstByteFacts(qos, retain);
    WordOfBytes2(|topic|);
    WordOfBytes2(id);
    IdAt(p, fixed, Bytes2(|topic|), topic, Bytes2(id), data);
  }

  lemma IdAt(p: seq<byte>, fixed: seq<byte>, size: seq<byte>, topic: seq<byte>, ids: seq<byte>, data: seq<byte>)
    requires p == (fixed + size) + topic + (ids + data) && |size| == 2 && |ids| == 2
    ensures var at := |fixed| + 2 + |topic|;
      at + 2 <= |p| && p[at] == ids[0] && p[at + 1] == ids[1] && p[|fixed|] == size[0] && p[|fixed| + 1] == size[1]
  {
    PartsAt(p, fixed, size, topic, ids, data);
  }

  /** So does an acknowledgement. */
  lemma AckCarriesId(kind: nat, qos: nat, id: nat, used: nat, p: seq<byte>)
    requires PUBACK <= kind <= UNSUBACK && IsAck(kind, qos, id, used, p)
    ensures TypeOf(p[0]) == kind && PacketId(p) == used
    ensures qos == (if kind == PUBREL || kind == SUBSCRIBE || kind == UNSUBSCRIBE then 1 else 0) ==>
      ValidFirstByte(p[0])
  {
    WordOfBytes2(used);
  }

  const FIXED := 5   // MQTT_MAX_FIXED_HEADER_SIZE

  /** Where the payload goes in the buffer. */
  function BodyAt(topic: seq<byte>, qos: nat): nat {
    FIXED + |VariableHeader(topic, qos, 0)|
  }

  /** Does the builder refuse the message (mqtt_msg_publish returning length 0)? */
  predicate Refused(topic: seq<byte>, data: Option<seq<byte>>, len: int, qos: nat, capacity: nat) {
    || topic == []
    || FIXED + |topic| + 2 > capacity
    || (data.None? && len > 0)
    || BodyAt(topic, qos) > capacity
  }

  /** The builder takes a new identifier, even if there is no room for it. */
  predicate TakesId(topic: seq<byte>, data: Option<seq<byte>>, len: int, qos: nat, capacity: nat) {
    topic != [] && FIXED + |topic| + 2 <= capacity && !(data.None? && len > 0) && qos > 0
  }

  /** What is published: the C function takes a NULL pointer for no payload and a
      length of at most 0 for "the whole string". */
  function Body(data: Option<seq<byte>>): seq<byte> {
    match data
    case None => []
    case Some(d) => d
  }

  predicate Fragmented(topic: seq<byte>, data: Option<seq<byte>>, qos: nat, capacity: nat) {
    BodyAt(topic, qos) + |Body(data)| > capacity
  }

  /** How far a leftover data offset exceeds the payload's place in the buffer. */
  function Excess(leftover: int, topic: seq<byte>, qos: nat): int {
    leftover - BodyAt(topic, qos)
  }

  /** The message m is the packet p, or as much of it as the buffer holds, and the
      fields for the caller say so; `at` is the payload's place in the buffer. */
  ghost predicate Built(m: seq<byte>, dataOffset: int, totalLen: int,
                        p: seq<byte>, n: nat, at: nat, capacity: nat, leftover: int) {
    && n < |p| <= at + n
    && if at + n > capacity then
      && |m| == |p| - n + (capacity - at) && m <= p && m != p
      && dataOffset == |p| - n && totalLen == n + at
    else
      m == p && dataOffset == leftover - (at - (|p| - n)) && totalLen == 0
  }

  /** Storing a message clears the total length and changes nothing else. */
  lemma BuiltKept(m: seq<byte>, dataOffset: int, before: int, after: int,
                  p: seq<byte>, n: nat, at: nat, capacity: nat, leftover: int, kept: bool)
    requires Built(m, dataOffset, before, p, n, at, capacity, leftover) && after == if kept then 0 else before
    ensures Built(m, dataOffset, if kept && at + n > capacity then at + n else after, p, n, at, capacity, leftover)
  {
  }

  /** A packet whose payload is cut off after k bytes. */
  lemma CutPacket(first: byte, field: seq<byte>, header: seq<byte>, data: seq<byte>, k: nat)
    requires k <= |data|
    ensures var p, m := [first] + field + header + data, [first] + field + (header + data[..k]);
      && |p| == |m| + |data| - k && m <= p
      && |m| == 1 + |field| + |header| + k
  {
    assert data == data[..k] + data[k..];
    assert [first] + field + header + data == [first] + field + (header + data[..k]) + data[k..];
  }

  /** What a caller has to give: a length that is the payload's, or one not above zero
      for all of it. Without a payload, a length that is negative by more than the
      header is long would wrap in the unsigned sum with it, and the C code would
      copy from NULL. */
  predicate Sensible(topic: seq<byte>, data: Option<seq<byte>>, len: int, qos: nat) {
    && |topic| < 65536 && |VariableHeader(topic, qos, 0)| + |Body(data)| < 268435456
    && match data
       case Some(d) => len <= 0 || len == |d|
       case None => BodyAt(topic, qos) + len >= 0
  }

  /** What goes out again behind a packet that fits the buffer, on account of a leftover
      offset that lies `excess` bytes beyond the payload's place: the end of the
      payload, and when the excess is greater than that, what lies in front of the
      payload in memory (stray), as far as the caller's length reaches. */
  function Again(data: seq<byte>, len: int, excess: int, stray: seq<byte>): seq<byte>
    requires len <= |data| && |stray| == Max(excess - |data|, 0)
  {
    if excess <= 0 then [] else (stray + data)[|stray| + |data| - excess..][..Max(len + excess - |data|, 0)]
  }

  /** The bytes one call of esp_mqtt_client_publish puts on the wire when every
      write succeeds: `len` is the caller's length, `first` what the buffer held. */
  function Wire(p: seq<byte>, data: seq<byte>, len: int, fragmented: bool, first: nat, excess: int,
                stray: seq<byte>): seq<byte>
    requires first <= |p| && len <= |data| && |stray| == Max(excess - |data|, 0)
  {
    if fragmented then if len > 0 then p else p[..first]
    else p + Again(data, len, excess, stray)
  }

  /** Exactly the packet goes out if and only if a fragmented message comes with
      its length, and no leftover offset reaches beyond the payload's place, or only
      so far that a length not above zero makes up for it. */
  lemma WireIsPacket(p: seq<byte>, data: seq<byte>, len: int, fragmented: bool, first: nat, excess: int,
                     stray: seq<byte>)
    requires first <= |p| && len <= |data| && |stray| == Max(excess - |data|, 0) && (fragmented ==> first < |p|)
    ensures Wire(p, data, len, fragmented, first, excess, stray) == p
       <==> (if fragmented then len > 0 else excess <= 0 || len + excess <= |data|)
  {
    var w := Wire(p, data, len, fragmented, first, excess, stray);
    if fragmented {
      assert len <= 0 ==> |w| == first;
    } else if excess <= 0 || len + excess <= |data| {
      assert w == p + [];
    } else {
      assert |w| == |p| + len + excess - |data|;
    }
  }

  /** What is still to be sent of the payload after the first write. */
  function Tail(data: seq<byte>, len: int, next: int): seq<byte> {
    if len > 0 && 0 <= next < |data| then data[next..] else []
  }

  function Stretch(data: seq<byte>, a: int, b: int): seq<byte> {
    if 0 <= a <= b <= |data| then data[a..b] else []
  }

  lemma StretchEnd(data: seq<byte>, len: int, next: int, current: int)
    requires len > 0 ==> len == |data|
    requires next >= 0 && current >= len && (current == next || (next <= current && current == |data| == len))
    ensures Stretch(data, next, current) == Tail(data, len, next)
  {
  }

  lemma StretchPrefix(head: seq<byte>, data: seq<byte>, len: int, next: int, reach: int)
    requires next >= 0 && (reach == next || (next <= reach <= |data| == len))
    ensures head + Stretch(data, next, reach) <= head + Tail(data, len, next)
  {
    assert Stretch(data, next, reach) <= Tail(data, len, next);
  }

  lemma StretchStep(out: seq<byte>, m: seq<byte>, head: seq<byte>, data: seq<byte>, a: nat, b: nat, c: nat)
    requires a <= b <= c <= |data|
    requires out == head + Stretch(data, a, b) && m == data[b..c]
    ensures out + m == head + Stretch(data, a, c)
  {
    var x := data[a..b];
    assert x + m == data[a..c];
    assert head + x + m == head + (x + m);
  }

  /** What the buffer held and the payload after it make up the packet. */
  lemma Complete(m: seq<byte>, p: seq<byte>, data: seq<byte>)
    requires m <= p && |data| <= |p| && p[|p| - |data|..] == data && |p| - |data| <= |m|
    ensures m + data[|m| - (|p| - |data|)..] == p
  {
    assert p[|m|..] == p[|p| - |data|..][|m| - (|p| - |data|)..];
  }

  /** What SendAll still has to send, of the payload and what lies before it. */
  function Remaining(data: seq<byte>, len: int, next: int, stray: seq<byte>): seq<byte> {
    var all, reach := stray + data, len + |stray|;
    Tail(if 0 < reach <= |all| then all[..reach] else all, reach, |stray| + next)
  }

  lemma RestAgain(data: seq<byte>, len: int, excess: int, stray: seq<byte>)
    requires (len > 0 ==> len == |data|) && |stray| == Max(excess - |data|, 0)
    ensures Remaining(data, len, |data| - excess, stray) == Again(data, len, excess, stray)
  {
  }

  lemma RestOfFragments(m: seq<byte>, p: seq<byte>, data: seq<byte>, len: int)
    requires m <= p && |data| <= |p| && p[|p| - |data|..] == data && |p| - |data| <= |m| < |p|
    requires len > 0 ==> len == |data|
    ensures m + Remaining(data, len, |m| - (|p| - |data|), []) == if len > 0 then p else p[..|m|]
  {
    assert [] + data == data;
    if len > 0 {
      assert data[..len] == data;
      Complete(m, p, data);
    } else {
      assert m + [] == m == p[..|m|];
    }
  }

  lemma RestIsWire(m: seq<byte>, p: seq<byte>, data: seq<byte>, len: int, fragmented: bool, excess: int, next: int,
                   stray: seq<byte>)
    requires m <= p && |data| <= |p| && p[|p| - |data|..] == data && (len > 0 ==> len == |data|)
    requires if fragmented then |p| - |data| <= |m| < |p| && next == |m| - (|p| - |data|) && excess == 0
             else m == p && next == |data| - excess
    requires |stray| == Max(excess - |data|, 0)
    ensures m + Remaining(data, len, next, stray) == Wire(p, data, len, fragmented, |m|, excess, stray)
  {
    if fragmented {
      assert stray == [];
      RestOfFragments(m, p, data, len);
    } else {
      RestAgain(data, len, excess, stray);
    }
  }

  const EXPIRED_TIMEOUT := 30 * 1000      // OUTBOX_EXPIRED_TIMEOUT_MS

  /** The outbox item for a PUBLISH packet, not sent yet. */
  function Copy(id: nat, qos: nat, bytes: seq<byte>, tick: int): Item {
    Item(id, PUBLISH, qos, bytes, tick, Queued)
  }

  /** The one item that a publish leaves in an empty outbox. */
  lemma StoredAlone(items: seq<Item>, id: nat, qos: nat, p: seq<byte>, tick: int)
    requires items == Marked(Ticked(Added([], Copy(id, qos, p, tick), true), id, tick), id, Transmitted)
    ensures items == [Item(id, PUBLISH, qos, p, tick, Transmitted)]
  {
    var item := Copy(id, qos, p, tick);
    assert HasId(id)(item) && HasId(id)(item.(tick := tick));
  }

  /** When it is due, and what sending it again makes of it. */
  lemma DueAlone(item: Item, now: int, sinceLast: int)
    requires item.kind == PUBLISH && item.qos > 0 && item.pending == Transmitted
    ensures var due := now - item.tick > 1000 && sinceLast > 1000;
      && DueNext([item], now, sinceLast) == (if due then (0, false) else (1, false))
      && Duped([item], 0) == [item.(bytes := WithDup(item.bytes))]
      && forall written :: Retransmitted([item], now, sinceLast, written)
           == (if due then [item.(bytes := WithDup(item.bytes))] else [item])
  {
    DueNextIs([item], now, sinceLast);
  }

  /** A list with one more item, if there was memory for it. */
  function Added(items: seq<Item>, item: Item, got: bool): seq<Item> {
    items + if got then [item] else []
  }

  datatype Wired = Wired(connected: bool, sent: seq<byte>, totalLen: int, dataOffset: int)

  class Publisher {
    const buffer: array<byte>
    var dataAt: nat            // message.data - buffer, or beyond the buffer: data of a stored message
    var length: nat            // message.length
    var totalLen: int          // message.fragmented_msg_total_length
    var dataOffset: int        // message.fragmented_msg_data_offset, as a signed number
    var lastId: nat            // last_message_id
    var connected: bool
    var sent: seq<byte>        // what the transport has accepted
    const pending: Client      // the outbox and its counter
    var now: int               // platform_tick_get_ms()

    constructor (capacity: nat, pending: Client)
      requires capacity >= FIXED
      ensures Own() && Clean() && buffer.Length == capacity && fresh(buffer)
      ensures sent == [] && this.pending == pending && !connected
    {
      buffer := new byte[capacity];
      this.pending := pending;
      dataAt, length, totalLen, dataOffset, lastId := 0, 0, 0, 0, 0;
      connected, sent, now := false, [], 0;
    }

    ghost predicate Valid()
      reads this
    {
      buffer.Length >= FIXED && lastId < 65536 && totalLen >= 0
    }

    /** The outbound message lies in the buffer, and is not one of the stored messages. */
    ghost predicate Own()
      reads this
    {
      Valid() && dataAt + length <= buffer.Length
    }

    /** No trace of an earlier fragmented message. */
    ghost predicate Clean()
      reads this
    {
      totalLen == 0 && dataOffset <= 0
    }

    /** outbound_message->data[0..length) */
    ghost function Message(): seq<byte>
      requires Own()
      reads this, buffer
    {
      buffer[dataAt..dataAt + length]
    }

    method Put(at: nat, bytes: seq<byte>)
      requires at + |bytes| <= buffer.Length
      modifies buffer
      ensures buffer[..at] == old(buffer[..at])
      ensures buffer[at..at + |bytes|] == bytes
      ensures buffer[at + |bytes|..] == old(buffer[at + |bytes|..])
    {
      forall k | 0 <= k < |bytes| {
        buffer[at + k] := bytes[k];
      }
    }

    /** Append at the end of the message under construction. */
    method Append(bytes: seq<byte>)
      requires Own() && FIXED <= length && length + |bytes| <= buffer.Length && dataAt == 0
      modifies this`length, buffer
      ensures Own() && length == old(length) + |bytes|
      ensures buffer[FIXED..length] == old(buffer[FIXED..length]) + bytes
    {
      Put(length, bytes);
      ghost var before := old(buffer[FIXED..length]);
      assert buffer[FIXED..length] == before by {
        assert buffer[..length][FIXED..] == old(buffer[..length])[FIXED..];
      }
      length := length + |bytes|;
      assert buffer[FIXED..length] == before + bytes;
    }

    /** append_string */
    method AppendString(s: seq<byte>) returns (ok: bool)
      requires Own() && FIXED <= length <= buffer.Length && dataAt == 0
      modifies this`length, buffer
      ensures Own() && ok == (old(length) + |s| + 2 <= buffer.Length)
      ensures ok ==> length == old(length) + 2 + |s|
      ensures ok ==> buffer[FIXED..length] == old(buffer[FIXED..length]) + (Bytes2(|s|) + s)
      ensures !ok ==> length == old(length)
    {
      if length + |s| + 2 > buffer.Length {
        return false;
      }
      Append(Bytes2(|s|) + s);
      return true;
    }

    /** append_message_id with incremental identifiers: zero asks for the next
        one, and zero is never given out. */
    method AppendMessageId(given: nat) returns (id: nat)
      requires Own() && FIXED <= length <= buffer.Length && dataAt == 0 && given < 65536
      modifies this`length, this`lastId, buffer
      ensures Own() && id < 65536
      ensures (id == 0 <==> old(length) + 2 > buffer.Length) && (given != 0 && id != 0 ==> id == given)
      ensures lastId == if given == 0 then NextId(old(lastId)) else old(lastId)
      ensures id != 0 ==> id == if given == 0 then lastId else given
      ensures id != 0 ==> length == old(length) + 2
      ensures id != 0 ==> buffer[FIXED..length] == old(buffer[FIXED..length]) + Bytes2(id)
      ensures id == 0 ==> length == old(length)
    {
      id := given;
      while id == 0
        modifies this`lastId
        invariant id < 65536 && lastId < 65536 && (given != 0 ==> id == given && lastId == old(lastId))
        invariant given == 0 ==>
          if id != 0 then id == lastId == NextId(old(lastId))
          else lastId == old(lastId) || (lastId == 0 && old(lastId) == 65535)
        decreases id == 0, lastId == 65535
      {
        lastId := (lastId + 1) % 65536;
        id := lastId;
      }
      if length + 2 > buffer.Length {
        return 0;
      }
      Append(Bytes2(id));
    }

    method InitMessage()
      requires Valid()
      modifies this`length, this`dataAt
      ensures Own() && length == FIXED && dataAt == 0 && buffer[FIXED..length] == []
    {
      dataAt, length := 0, FIXED;
    }

    method FailMessage()
      requires Valid()
      modifies this`length, this`dataAt
      ensures Own() && length == 0 && dataAt == 0
    {
      dataAt, length := 0, 0;
    }

    /** The bytes of the length field, one group of seven bits at a time. */
    static method EncodedLength(n: nat) returns (lens: seq<byte>)
      ensures lens == EncodeLength(n)
    {
      lens := [];
      var total := n;
      var more := true;
      while more
        invariant more ==> lens + EncodeLength(total) == EncodeLength(n)
        invariant !more ==> lens == EncodeLength(n)
        decreases more, total
      {
        var group := total % 128;
        total := total / 128;
        more := total > 0;
        var b: byte := if more then 128 + group else group;
        ghost var before := lens;
        lens := lens + [b];
        assert more ==> before + ([b] + EncodeLength(total)) == lens + EncodeLength(total);
      }
    }

    /** fini_message: the fixed header goes right before the body, whose place does
        not depend on how many length bytes there are. For a fragmented message
        the length field counts the whole body; the data offset is moved along
        with the start of the message whether it is meaningful or not. */
    method FiniMessage(first: byte)
      requires Own() && FIXED <= length && dataAt == 0
      requires totalLen > 0 ==> totalLen >= FIXED
      requires (if totalLen > 0 then totalLen - FIXED else length - FIXED) < 268435456
      modifies this`length, this`dataAt, this`dataOffset, buffer
      ensures Own()
      ensures var body := old(buffer[FIXED..length]);
        var field := EncodeLength(if totalLen > 0 then totalLen - FIXED else |body|);
        && Message() == [first] + field + body
        && dataOffset == old(dataOffset) - dataAt && dataAt == FIXED - 1 - |field|
    {
      ghost var body := buffer[FIXED..length];
      var messageLen := length - FIXED;
      var remaining := if totalLen > 0 then totalLen - FIXED else messageLen;
      var lens := EncodedLength(remaining);
      EncodeWidth(remaining);
      var offs := FIXED - 1 - |lens|;
      length := messageLen + |lens| + 1;
      dataAt := offs;
      dataOffset := dataOffset - offs;
      Put(offs, [first] + lens);
      assert buffer[dataAt..dataAt + length] == buffer[offs..FIXED] + buffer[FIXED..offs + length];
      assert buffer[FIXED..offs + length] == body by {
        assert buffer[FIXED..] == old(buffer[FIXED..]);
        assert body == old(buffer[FIXED..])[..messageLen];
      }
    }

    /** mqtt_msg_pingreq and mqtt_msg_disconnect. */
    method BuildBare(kind: nat)
      requires Valid() && (totalLen > 0 ==> FIXED <= totalLen < FIXED + 268435456)
      modifies this`length, this`dataAt, this`dataOffset, buffer
      ensures Own() && dataOffset <= old(dataOffset)
      ensures Message() == [FirstByte(kind, 0, false)] + EncodeLength(if totalLen > 0 then totalLen - FIXED else 0)
    {
      InitMessage();
      FiniMessage(FirstByte(kind, 0, false));
    }

    /** mqtt_msg_puback, _pubrec, _pubrel and _pubcomp. Asked to acknowledge the
        identifier zero, which no packet may carry, they take the next one instead. */
    method BuildAck(kind: nat, qos: nat, id: nat) returns (used: nat)
      requires Valid() && (totalLen > 0 ==> FIXED <= totalLen < FIXED + 268435456) && id < 65536
      modifies this`length, this`dataAt, this`dataOffset, this`lastId, buffer
      ensures Own() && dataOffset <= old(dataOffset) && used < 65536
      ensures buffer.Length < 7 ==> length == 0
      ensures buffer.Length >= 7 ==> length > 0 && used != 0 && used == if id == 0 then lastId else id
      ensures lastId == if id == 0 then NextId(old(lastId)) else old(lastId)
      ensures buffer.Length >= 7 ==>
        Message() == [FirstByte(kind, qos, false)]
          + EncodeLength(if totalLen > 0 then totalLen - FIXED else 2) + Bytes2(used)
    {
      InitMessage();
      used := AppendMessageId(id);
      if used == 0 {
        FailMessage();
        return;
      }
      FiniMessage(FirstByte(kind, qos, false));
    }

    /** The variable header of mqtt_msg_publish; false when it is refused. */
    method BuildVariableHeader(topic: seq<byte>, noData: bool, len: int, qos: nat) returns (ok: bool, id: nat)
      requires Valid() && |topic| < 65536
      modifies this`length, this`dataAt, this`lastId, buffer
      ensures Own() && id < 65536 && (id == 0 <==> qos == 0 || !ok)
      ensures ok == !Refused(topic, if noData then None else Some([]), len, qos, buffer.Length)
      ensures lastId == if TakesId(topic, if noData then None else Some([]), len, qos, buffer.Length)
                        then NextId(old(lastId)) else old(lastId)
      ensures ok && qos > 0 ==> id == lastId
      ensures ok ==> dataAt == 0 && length == BodyAt(topic, qos)
      ensures ok ==> buffer[FIXED..length] == VariableHeader(topic, qos, id)
      ensures !ok ==> length == 0
    {
      InitMessage();
      id := 0;
      if topic == [] {
        FailMessage();
        return false, 0;
      }
      ok := AppendString(topic);
      if !ok {
        FailMessage();
        return;
      }
      assert buffer[FIXED..length] == Bytes2(|topic|) + topic;
      if noData && len > 0 {
        FailMessage();
        return false, 0;
      }
      if qos > 0 {
        id := AppendMessageId(0);
        if id == 0 {
          FailMessage();
          return false, 0;
        }
      }
      assert buffer[FIXED..length] == VariableHeader(topic, qos, id);
    }

    /** mqtt_msg_publish. What does not fit is left for the caller, who is told
        how far the payload reaches by the two fields of the message. */
    method BuildPublish(topic: seq<byte>, data: Option<seq<byte>>, len: int, qos: nat, retain: bool)
      returns (id: nat)
      requires Valid() && Sensible(topic, data, len, qos) && (data.Some? ==> len == |data.value|)
      modifies this`length, this`dataAt, this`lastId, this`dataOffset, this`totalLen, buffer
      ensures Own() && id < 65536
      ensures Refused(topic, data, len, qos, buffer.Length) <==> length == 0
      ensures lastId == if TakesId(topic, data, len, qos, buffer.Length) then NextId(old(lastId)) else old(lastId)
      ensures length > 0 && qos > 0 ==> id == lastId
      ensures length == 0 ==> totalLen == old(totalLen) && dataOffset == old(dataOffset)
      ensures length > 0 ==> (id == 0 <==> qos == 0)
      ensures length > 0 ==>
        Built(Message(), dataOffset, totalLen, PublishPacket(topic, Body(data), qos, retain, id),
              |Body(data)|, BodyAt(topic, qos), buffer.Length, old(dataOffset))
    {
      var ok;
      ok, id := BuildVariableHeader(topic, data.None?, len, qos);
      if !ok {
        return;
      }
      AppendBody(data, len);
      Finish(topic, Body(data), qos, retain, id, length - BodyAt(topic, qos), old(dataOffset));
    }

    /** The last step of mqtt_msg_publish, with k bytes of the payload in place. */
    method Finish(ghost topic: seq<byte>, ghost body: seq<byte>, qos: nat, retain: bool,
                  ghost id: nat, ghost k: nat, ghost leftover: int)
      requires Own() && k <= |body| && dataAt == 0 && length == BodyAt(topic, qos) + k
      requires buffer[FIXED..length] == VariableHeader(topic, qos, id) + body[..k]
      requires |VariableHeader(topic, qos, id)| + |body| < 268435456
      requires if BodyAt(topic, qos) + |body| > buffer.Length
               then length == buffer.Length && dataOffset == BodyAt(topic, qos)
                 && totalLen == |body| + BodyAt(topic, qos)
               else k == |body| && dataOffset == leftover && totalLen == 0
      modifies this`length, this`dataAt, this`dataOffset, buffer
      ensures Own() && length > 0
      ensures Built(Message(), dataOffset, totalLen, PublishPacket(topic, body, qos, retain, id),
                    |body|, BodyAt(topic, qos), buffer.Length, leftover)
    {
      ghost var header := VariableHeader(topic, qos, id);
      var first := FirstByte(PUBLISH, qos, retain);
      ghost var field := EncodeLength(|header| + |body|);
      FiniMessage(first);
      EncodeWidth(|header| + |body|);
      CutPacket(first, field, header, body, k);
    }

    /** The payload, or as much of it as there is room for. */
    method AppendBody(data: Option<seq<byte>>, len: int)
      requires Own() && FIXED <= length && dataAt == 0
      requires (data.Some? ==> len == |data.value|) && (data.None? ==> len <= 0 <= length + len)
      modifies this`length, this`dataOffset, this`totalLen, buffer
      ensures Own()
      ensures var n, room := |Body(data)|, buffer.Length - old(length);
        && length == old(length) + Min(n, room)
        && buffer[FIXED..length] == old(buffer[FIXED..length]) + Body(data)[..Min(n, room)]
        && (if n > room then dataOffset == old(length) && totalLen == n + old(length)
            else dataOffset == old(dataOffset) && totalLen == 0)
    {
      ghost var before := buffer[FIXED..length];
      if length + len > buffer.Length {
        dataOffset := length;
        Append(data.value[..buffer.Length - length]);
        totalLen := len + dataOffset;
      } else {
        if data.Some? {
          Append(data.value);
          assert data.value[..len] == data.value;
        } else {
          assert before + [] == before;
        }
        totalLen := 0;
      }
    }

    /** esp_transport_write: it may take less than it is offered, time out, or fail. */
    method TransportWrite(bytes: seq<byte>) returns (wlen: int)
      modifies this`sent
      ensures wlen <= |bytes| && sent == old(sent) + bytes[..Max(wlen, 0)]
    {
      wlen := *;
      wlen := Min(wlen, |bytes|);
      sent := sent + bytes[..Max(wlen, 0)];
    }

    /** esp_mqtt_write, for the bytes m of the outbound message. */
    method WriteBytes(m: seq<byte>) returns (ok: bool)
      modifies this`sent
      ensures ok <==> sent == old(sent) + m
      ensures old(sent) <= sent <= old(sent) + m
    {
      ghost var before := sent;
      var widx, len := 0, |m|;
      Progress(before, m, 0, 0);
      while len > 0
        invariant 0 <= len && 0 <= widx && widx + len == |m|
        invariant sent == before + m[..widx]
      {
        var wlen := TransportWrite(m[widx..]);
        ghost var k := Max(wlen, 0);
        assert m[widx..][..k] == m[widx..widx + k];
        Progress(before, m, widx, k);
        if wlen <= 0 {
          assert |sent| < |before + m|;
          return false;
        }
        widx, len := widx + wlen, len - wlen;
      }
      return true;
    }

    method Write() returns (ok: bool)
      requires Own()
      modifies this`sent
      ensures ok <==> sent == old(sent) + Message()
      ensures old(sent) <= sent <= old(sent) + Message()
    {
      ok := WriteBytes(buffer[dataAt..dataAt + length]);
    }

    lemma Progress(before: seq<byte>, m: seq<byte>, w: nat, k: nat)
      requires w + k <= |m|
      ensures before + m[..w] + m[w..w + k] == before + m[..w + k]
      ensures before <= before + m[..w + k] <= before + m
    {
    }

    /** Built, except that storing has cleared the total length. */
    ghost predicate BuiltHere(p: seq<byte>, topic: seq<byte>, data: Option<seq<byte>>, qos: nat, leftover: int,
                              kept: bool)
      requires Own()
      reads this, buffer
    {
      var n, at := |Body(data)|, BodyAt(topic, qos);
      var total := if kept && at + n > buffer.Length then at + n else totalLen;
      Built(Message(), dataOffset, total, p, n, at, buffer.Length, leftover) && (kept ==> totalLen == 0)
    }

    /** mqtt_client_enqueue_priv. The stored copy is the whole packet, whether or
        not it fits the buffer; whether there is memory for it goes unnoticed. */
    method EnqueuePriv(topic: seq<byte>, data: Option<seq<byte>>, len: int, qos: nat, retain: bool, store: bool)
      returns (ret: int, ghost id: nat, ghost got: bool)
      requires Valid() && pending.Valid() && Sensible(topic, data, len, qos)
      modifies this`length, this`dataAt, this`lastId, this`dataOffset, this`totalLen, buffer, pending, pending.outbox
      ensures Own() && pending.Valid() && -1 <= ret && id < 65536
      ensures ret == -1 <==> Refused(topic, data, len, qos, buffer.Length)
      ensures ret == -1 ==> length == 0 && totalLen == old(totalLen) && dataOffset == old(dataOffset)
      ensures ret == -1 ==> pending.outbox.items == old(pending.outbox.items)
      ensures lastId == if TakesId(topic, data, len, qos, buffer.Length) then NextId(old(lastId)) else old(lastId)
      ensures ret >= 0 ==> ret == id < 65536 && length > 0 && (id == 0 <==> qos == 0) && (qos > 0 ==> id == lastId)
      ensures ret >= 0 ==>
        var p, kept := PublishPacket(topic, Body(data), qos, retain, id), qos > 0 || store;
        && BuiltHere(p, topic, data, qos, old(dataOffset), kept)
        && pending.outbox.items == Added(old(pending.outbox.items), Copy(id, qos, p, now), kept && got)
      ensures pending.events == old(pending.events)
    {
      var n := if len <= 0 && data.Some? then |data.value| else len;
      var msgId := BuildPublish(topic, data, n, qos, retain);
      id, got := msgId, false;
      if length == 0 {
        return -1, id, got;
      }
      ghost var p := PublishPacket(topic, Body(data), qos, retain, id);
      PacketTail(topic, Body(data), qos, retain, id);
      got := Keep(data, msgId, qos, store, p, BodyAt(topic, qos), old(dataOffset));
      return msgId, id, got;
    }

    /** Store the message just built, when it is to be stored. */
    method Keep(data: Option<seq<byte>>, id: nat, qos: nat, store: bool,
                ghost p: seq<byte>, ghost at: nat, ghost leftover: int) returns (ghost got: bool)
      requires Own() && pending.Valid() && at <= buffer.Length
      requires Built(Message(), dataOffset, totalLen, p, |Body(data)|, at, buffer.Length, leftover)
      requires |Body(data)| <= |p| && p[|p| - |Body(data)|..] == Body(data)
      modifies this`totalLen, pending, pending.outbox
      ensures Own() && pending.Valid() && (qos > 0 || store ==> totalLen == 0)
      ensures var n := |Body(data)|;
        var total := if (qos > 0 || store) && at + n > buffer.Length then at + n else totalLen;
        Built(Message(), dataOffset, total, p, n, at, buffer.Length, leftover)
      ensures var kept := qos > 0 || store;
        pending.outbox.items == Added(old(pending.outbox.items), Copy(id, qos, p, now), kept && got)
      ensures pending.events == old(pending.events)
    {
      ghost var total := totalLen;
      got := false;
      if qos > 0 || store {
        got := StorePending(data, id, qos, p, at, leftover);
      } else {
        assert pending.outbox.items + [] == pending.outbox.items;
      }
      BuiltKept(Message(), dataOffset, total, totalLen, p, |Body(data)|, at, buffer.Length, leftover, qos > 0 || store);
    }

    /** mqtt_enqueue and mqtt_enqueue_oversized, and the count in front of them. */
    method StorePending(data: Option<seq<byte>>, id: nat, qos: nat,
                        ghost p: seq<byte>, ghost at: nat, ghost leftover: int) returns (got: bool)
      requires Own() && pending.Valid() && at <= buffer.Length
      requires Built(Message(), dataOffset, totalLen, p, |Body(data)|, at, buffer.Length, leftover)
      requires |Body(data)| <= |p| && p[|p| - |Body(data)|..] == Body(data)
      modifies this`totalLen, pending, pending.outbox
      ensures Own() && pending.Valid() && totalLen == 0 && pending.pendingCount == old(pending.pendingCount) + 1
      ensures pending.outbox.items == Added(old(pending.outbox.items), Copy(id, qos, p, now), got)
      ensures pending.events == old(pending.events)
    {
      var bytes := buffer[dataAt..dataAt + length];
      if totalLen != 0 {
        var firstFragment := length - dataOffset;
        Complete(Message(), p, data.value);
        bytes := bytes + data.value[firstFragment..];
      }
      got := pending.Store(Copy(id, qos, bytes, now));
      totalLen := 0;
    }

    /** The next stretch of the payload, copied to the front of the buffer. */
    method LoadNext(data: seq<byte>, current: nat, remaining: nat)
      requires Own() && 0 < remaining && current + remaining == |data|
      modifies this`length, this`dataAt, buffer
      ensures Own() && 0 < length <= remaining && Message() == data[current..current + length]
    {
      var chunk := if remaining > buffer.Length then buffer.Length else remaining;
      Put(0, data[current..current + chunk]);
      length, dataAt := chunk, 0;
    }

    /** The loop of esp_mqtt_client_publish (1771-1804). What goes out is always the
        front of what should: nothing out of place even when a write fails. The
        caller's data begin at the place start. */
    method SendAll(data: seq<byte>, len: int, start: nat) returns (ok: bool)
      requires Own() && length > 0 && start + length - dataOffset >= 0 && (len > 0 ==> len == |data|)
      modifies this`sent, this`length, this`dataAt, this`dataOffset, this`totalLen, this`connected, buffer
      ensures Own() && old(sent) <= sent && length > 0 && lastId == old(lastId)
      ensures sent <= old(sent + Message()) + Tail(data, len, start + old(length - dataOffset))
      ensures ok ==> sent == old(sent + Message()) + Tail(data, len, start + old(length - dataOffset))
      ensures ok ==> dataOffset == 0 && totalLen == 0 && connected == old(connected)
      ensures !ok ==> !connected
      ensures !ok ==> (dataOffset == 0 && totalLen == 0) || (dataOffset == old(dataOffset) && totalLen == old(totalLen))
    {
      ghost var head, next := sent + Message(), start + length - dataOffset;
      var current: int := start;
      var sending := true;
      ghost var opening := true;
      while sending
        invariant Own() && length > 0 && lastId == old(lastId) && connected == old(connected) && old(sent) <= sent
        invariant opening ==> sending && dataOffset == old(dataOffset) && totalLen == old(totalLen)
        invariant !opening ==> dataOffset == 0 && totalLen == 0
        invariant sending ==> InFlight(data, len, head, next, current, opening)
        invariant !sending ==> sent == head + Tail(data, len, next)
        decreases sending, opening, len - current
      {
        ok, current, sending := Round(data, len, current, head, next, opening, old(sent));
        if !ok {
          connected := false;
          return;
        }
        opening := false;
      }
      return true;
    }

    /** One round of that loop: write what the buffer holds, then load what follows. */
    method Round(data: seq<byte>, len: int, before: int, ghost head: seq<byte>, ghost next: int,
                 ghost opening: bool, ghost from: seq<byte>) returns (ok: bool, current: int, more: bool)
      requires Own() && (len > 0 ==> len == |data|) && InFlight(data, len, head, next, before, opening)
      requires from <= sent && length > 0
      modifies this`sent, this`length, this`dataAt, this`dataOffset, this`totalLen, buffer
      ensures Own() && from <= sent && length > 0
      ensures ok ==> dataOffset == 0 && totalLen == 0 && current == before + old(length - dataOffset)
      ensures ok && more ==> InFlight(data, len, head, next, current, false)
      ensures ok && !more ==> sent == head + Tail(data, len, next)
      ensures !ok ==> sent <= head + Tail(data, len, next)
      ensures !ok ==> dataOffset == old(dataOffset) && totalLen == old(totalLen)
    {
      more := false;
      StretchPrefix(head, data, len, next, before + length - dataOffset);
      ok, current := WriteAndCount(before);
      if ok {
        more := LoadMore(data, len, current, head, next);
      }
    }

    method WriteAndCount(before: int) returns (ok: bool, current: int)
      requires Own()
      modifies this`sent, this`dataOffset, this`totalLen
      ensures Own() && old(sent) <= sent <= old(sent + Message())
      ensures ok ==> sent == old(sent + Message()) && current == before + old(length - dataOffset)
      ensures ok ==> dataOffset == 0 && totalLen == 0
      ensures !ok ==> dataOffset == old(dataOffset) && totalLen == old(totalLen)
    {
      current := before;
      ok := Write();
      if ok {
        current := before + (length - dataOffset);
        dataOffset, totalLen := 0, 0;
      }
    }

    /** Load the next stretch of the payload, if there is more of it. */
    method LoadMore(data: seq<byte>, len: int, current: int, ghost head: seq<byte>, ghost next: int)
      returns (more: bool)
      requires Own() && dataOffset == 0 && (len > 0 ==> len == |data|)
      requires sent == head + Stretch(data, next, current)
      requires 0 <= next <= current && (current == next || current <= |data| == len) && length > 0
      modifies this`length, this`dataAt, buffer
      ensures Own() && length > 0
      ensures more ==> InFlight(data, len, head, next, current, false)
      ensures !more ==> sent == head + Tail(data, len, next)
    {
      if len - current > 0 {
        LoadNext(data, current, len - current);
        StretchStep(sent, Message(), head, data, next, current, current + length);
        return true;
      }
      StretchEnd(data, len, next, current);
      return false;
    }

    /** esp_mqtt_client_publish. With a leftover offset beyond the end of the payload the
        C code reads on from before the start of the data: stray is what lies there,
        and there is some of it if and only if the offset is. */
    method Publish(topic: seq<byte>, data: Option<seq<byte>>, len: int, qos: nat, retain: bool)
      returns (ret: int, ghost id: nat, ghost got: bool, ghost stray: seq<byte>)
      requires Valid() && pending.Valid() && Sensible(topic, data, len, qos)
      modifies this, buffer, pending, pending.outbox
      ensures Own() && pending.Valid() && id < 65536 && old(sent) <= sent && now == old(now)
      ensures pending.events == old(pending.events)
      ensures Refused(topic, data, len, qos, buffer.Length) <==> length == 0
      ensures Refused(topic, data, len, qos, buffer.Length) ==>
        ret == -1 && sent == old(sent) && pending.outbox.items == old(pending.outbox.items)
        && connected == old(connected) && totalLen == old(totalLen) && dataOffset == old(dataOffset)
      ensures lastId == if TakesId(topic, data, len, qos, buffer.Length) then NextId(old(lastId)) else old(lastId)
      ensures !Refused(topic, data, len, qos, buffer.Length) ==> id == if qos > 0 then lastId else 0
      ensures !Refused(topic, data, len, qos, buffer.Length) ==>
        var p := PublishPacket(topic, Body(data), qos, retain, id);
        Published(p, topic, data, len, qos, ret, id, stray, old(dataOffset), old(connected), old(sent), Link())
        && pending.outbox.items == AfterPublish(Added(old(pending.outbox.items), Copy(id, qos, p, now), qos > 0 && got),
                                                old(connected), ret, id, qos)
    {
      ghost var leftover := dataOffset;
      stray := [];
      ret, id, got := EnqueuePriv(topic, data, len, qos, retain, false);
      if ret < 0 {
        return -1, id, got, stray;
      }
      var msgId := ret;
      PacketTail(topic, Body(data), qos, retain, id);
      ret, stray :=
        PublishBuilt(topic, data, len, qos, msgId, PublishPacket(topic, Body(data), qos, retain, id), leftover);
    }

    /** The message is built and stored: offline it stays where it is. */
    method PublishBuilt(ghost topic: seq<byte>, data: Option<seq<byte>>, len: int, qos: nat, id: nat,
                        ghost p: seq<byte>, ghost leftover: int) returns (ret: int, ghost stray: seq<byte>)
      requires Own() && pending.Valid() && BuiltHere(p, topic, data, qos, leftover, qos > 0)
      requires id == 0 <==> qos == 0
      requires |Body(data)| <= |p| && p[|p| - |Body(data)|..] == Body(data) && BodyAt(topic, qos) <= buffer.Length
      requires (data.Some? && len > 0 ==> len == |data.value|) && (data.None? ==> len <= 0)
      modifies this`sent, this`length, this`dataAt, this`dataOffset, this`totalLen, this`connected, buffer
      modifies pending, pending.outbox
      ensures Own() && pending.Valid() && old(sent) <= sent && lastId == old(lastId) && totalLen == 0 && length > 0
      ensures Published(p, topic, data, len, qos, ret, id, stray, leftover, old(connected), old(sent), Link())
      ensures pending.outbox.items == AfterPublish(old(pending.outbox.items), old(connected), ret, id, qos)
      ensures pending.events == old(pending.events)
    {
      if connected {
        ret, stray := SendAndMark(topic, data, len, qos, id, p, leftover);
      } else {
        stray := [];
        PublishOffline(topic, data, len, qos, id, p, leftover);
        ret := if qos > 0 then id else 0;
      }
    }

    /** Offline nothing is written, and stored messages that have expired are dropped. */
    method PublishOffline(ghost topic: seq<byte>, ghost data: Option<seq<byte>>, ghost len: int, ghost qos: nat,
                          ghost id: nat, ghost p: seq<byte>, ghost leftover: int)
      requires Own() && pending.Valid() && !connected && BuiltHere(p, topic, data, qos, leftover, qos > 0)
      requires |Body(data)| <= |p| && BodyAt(topic, qos) <= buffer.Length
      modifies this`totalLen, pending, pending.outbox
      ensures Own() && pending.Valid()
      ensures Published(p, topic, data, len, qos, id, id, [], leftover, false, old(sent), Link())
      ensures pending.outbox.items == Unexpired(old(pending.outbox.items), pending.reportDeleted, now, EXPIRED_TIMEOUT)
      ensures pending.events == old(pending.events)
    {
      FirstWrite(p, topic, data, qos, leftover);
      pending.DeleteExpiredMessages(now, EXPIRED_TIMEOUT);
      totalLen := 0;
    }

    /** The connected half: write the message, and above quality of service 0 wait
        for its acknowledgement from now on. */
    method SendAndMark(ghost topic: seq<byte>, data: Option<seq<byte>>, len: int, qos: nat, id: nat,
                       ghost p: seq<byte>, ghost leftover: int) returns (ret: int, ghost stray: seq<byte>)
      requires Own() && pending.Valid() && connected && BuiltHere(p, topic, data, qos, leftover, qos > 0)
      requires |Body(data)| <= |p| && p[|p| - |Body(data)|..] == Body(data) && BodyAt(topic, qos) <= buffer.Length
      requires (data.Some? && len > 0 ==> len == |data.value|) && (data.None? ==> len <= 0)
      modifies this`sent, this`length, this`dataAt, this`dataOffset, this`totalLen, this`connected, buffer
      modifies pending.outbox
      ensures Own() && pending.Valid() && old(sent) <= sent && lastId == old(lastId) && length > 0
      ensures Published(p, topic, data, len, qos, ret, id, stray, leftover, true, old(sent), Link())
      ensures var items := old(pending.outbox.items);
        pending.outbox.items == if ret >= 0 && qos > 0 then Marked(Ticked(items, id, now), id, Transmitted) else items
    {
      var ok;
      ok, stray := SendBuilt(topic, data, len, qos, p, leftover);
      if ok && qos > 0 {
        pending.Sent(id, true, now);
      }
      ret := if ok then id else -1;
    }

    /** What a publish makes of the list of stored messages, its own included: offline
        the expired ones are dropped; a message that has gone out waits from now on. */
    ghost function AfterPublish(items: seq<Item>, online: bool, ret: int, id: nat, qos: nat): seq<Item>
      reads this
    {
      if !online then Unexpired(items, pending.reportDeleted, now, EXPIRED_TIMEOUT)
      else if ret >= 0 && qos > 0 then Marked(Ticked(items, id, now), id, Transmitted)
      else items
    }

    /** The connected half of esp_mqtt_client_publish. */
    method Transmit(data: Option<seq<byte>>, len: int, start: nat) returns (ok: bool)
      requires Own() && connected && length > 0 && start + length - dataOffset >= 0
      requires (data.Some? && len > 0 ==> len == |data.value|) && (data.None? ==> len <= 0)
      modifies this`sent, this`length, this`dataAt, this`dataOffset, this`totalLen, this`connected, buffer
      ensures Own() && old(sent) <= sent && lastId == old(lastId) && totalLen == 0 && connected == ok && length > 0
      ensures ok ==> dataOffset == 0
      ensures !ok ==> dataOffset == 0 || dataOffset == old(dataOffset)
      ensures sent <= old(sent) + old(Message() + Tail(Body(data), len, start + length - dataOffset))
      ensures ok ==> sent == old(sent) + old(Message() + Tail(Body(data), len, start + length - dataOffset))
    {
      ghost var m, next := Message(), start + length - dataOffset;
      ok := SendAll(if data.Some? then data.value else [], len, start);
      assert old(sent) + m + Tail(Body(data), len, next) == old(sent) + (m + Tail(Body(data), len, next));
      totalLen := 0;
    }

    /** Bytes that lie somewhere in memory. */
    method Memory(n: nat) returns (bytes: seq<byte>)
      ensures |bytes| == n
    {
      bytes := [];
      while |bytes| < n
        invariant |bytes| <= n
      {
        var b: byte := *;
        bytes := bytes + [b];
      }
    }

    method SendBuilt(ghost topic: seq<byte>, data: Option<seq<byte>>, len: int, ghost qos: nat,
                     ghost p: seq<byte>, ghost leftover: int) returns (ok: bool, ghost stray: seq<byte>)
      requires Own() && connected && BuiltHere(p, topic, data, qos, leftover, qos > 0)
      requires |Body(data)| <= |p| && p[|p| - |Body(data)|..] == Body(data) && BodyAt(topic, qos) <= buffer.Length
      requires (data.Some? && len > 0 ==> len == |data.value|) && (data.None? ==> len <= 0)
      modifies this`sent, this`length, this`dataAt, this`dataOffset, this`totalLen, this`connected, buffer
      ensures Own() && old(sent) <= sent && lastId == old(lastId) && totalLen == 0 && connected == ok && length > 0
      ensures !Fragmented(topic, data, qos, buffer.Length) ==> dataOffset <= Max(leftover, 0)
      ensures CanSend(p, topic, data, len, qos, leftover, stray)
      ensures sent <= old(sent) + ToSend(p, topic, data, len, qos, leftover, stray)
      ensures ok ==> dataOffset == 0 && sent == old(sent) + ToSend(p, topic, data, len, qos, leftover, stray)
    {
      FirstLength(p, topic, data, qos, leftover);
      var before: nat := Max(dataOffset - length, 0);
      var memory := Memory(before);
      stray := memory;
      Rest(p, topic, data, len, qos, leftover, stray);
      var all, reach := WithMemory(data, len, memory, length - dataOffset);
      ok := Transmit(Some(all), reach, before);
    }

    /** The payload with what lies before it, as far as the caller's length reaches. */
    method WithMemory(data: Option<seq<byte>>, len: int, memory: seq<byte>, ghost next: int)
      returns (all: seq<byte>, reach: int)
      requires (data.Some? && len > 0 ==> len == |data.value|) && (data.None? ==> len <= 0)
      ensures reach > 0 ==> reach == |all|
      ensures Tail(all, reach, |memory| + next) == Remaining(Body(data), len, next, memory)
    {
      all := memory + if data.Some? then data.value else [];
      reach := len + |memory|;
      if 0 < reach <= |all| {
        all := all[..reach];
      }
    }

    ghost predicate CanSend(p: seq<byte>, topic: seq<byte>, data: Option<seq<byte>>, len: int, qos: nat, leftover: int,
                            stray: seq<byte>) {
      var fragmented, excess := Fragmented(topic, data, qos, buffer.Length), Excess(leftover, topic, qos);
      var first := if fragmented then FirstLen(p, topic, data, qos) else |p|;
      && 0 <= first <= |p| && (fragmented ==> first < |p|) && len <= |Body(data)|
      && |stray| == (if fragmented then 0 else Max(excess - |Body(data)|, 0))
    }

    /** The bytes that Wire says. */
    ghost function ToSend(p: seq<byte>, topic: seq<byte>, data: Option<seq<byte>>, len: int,
                          qos: nat, leftover: int, stray: seq<byte>): seq<byte>
      requires CanSend(p, topic, data, len, qos, leftover, stray)
    {
      var fragmented := Fragmented(topic, data, qos, buffer.Length);
      var first := if fragmented then FirstLen(p, topic, data, qos) else |p|;
      Wire(p, Body(data), len, fragmented, first, if fragmented then 0 else Excess(leftover, topic, qos), stray)
    }

    /** The message as built. */
    lemma FirstWrite(p: seq<byte>, topic: seq<byte>, data: Option<seq<byte>>, qos: nat, leftover: int)
      requires Own() && BuiltHere(p, topic, data, qos, leftover, qos > 0)
      requires |Body(data)| <= |p| && BodyAt(topic, qos) <= buffer.Length
      ensures var fragmented, first := Fragmented(topic, data, qos, buffer.Length), |Message()|;
        && 0 < length == first <= |p| && Message() == p[..first]
        && first == (if fragmented then FirstLen(p, topic, data, qos) else |p|) && (fragmented ==> first < |p|)
        && length - dataOffset
           == (if fragmented then first - (|p| - |Body(data)|) else |Body(data)| - Excess(leftover, topic, qos))
        && (fragmented ==> dataOffset == |p| - |Body(data)|) && (!fragmented ==> dataOffset <= leftover)
    {
    }

    lemma FirstLength(p: seq<byte>, topic: seq<byte>, data: Option<seq<byte>>, qos: nat, leftover: int)
      requires Own() && BuiltHere(p, topic, data, qos, leftover, qos > 0)
      requires |Body(data)| <= |p| && BodyAt(topic, qos) <= buffer.Length
      ensures length > 0 && (!Fragmented(topic, data, qos, buffer.Length) ==> dataOffset <= leftover)
    {
      FirstWrite(p, topic, data, qos, leftover);
    }

    /** And what a successful SendAll makes of it. */
    lemma Rest(p: seq<byte>, topic: seq<byte>, data: Option<seq<byte>>, len: int, qos: nat, leftover: int,
               stray: seq<byte>)
      requires Own() && BuiltHere(p, topic, data, qos, leftover, qos > 0)
      requires |Body(data)| <= |p| && p[|p| - |Body(data)|..] == Body(data) && BodyAt(topic, qos) <= buffer.Length
      requires len > 0 ==> len == |Body(data)|
      requires |stray| == Max(dataOffset - length, 0)
      ensures CanSend(p, topic, data, len, qos, leftover, stray)
      ensures Message() + Remaining(Body(data), len, length - dataOffset, stray)
           == ToSend(p, topic, data, len, qos, leftover, stray)
    {
      FirstWrite(p, topic, data, qos, leftover);
      var fragmented := Fragmented(topic, data, qos, buffer.Length);
      RestIsWire(Message(), p, Body(data), len, fragmented, if fragmented then 0 else Excess(leftover, topic, qos),
                 length - dataOffset, stray);
    }

    /** How much of a fragmented packet the buffer takes. */
    ghost function FirstLen(p: seq<byte>, topic: seq<byte>, data: Option<seq<byte>>, qos: nat): int {
      |p| - |Body(data)| + (buffer.Length - BodyAt(topic, qos))
    }

    /** The connection, and what outlives a call on it. */
    ghost function Link(): Wired
      reads this
    {
      Wired(connected, sent, totalLen, dataOffset)
    }

    /** The effect of a publish that was not refused, on the wire and on the fields
        that outlive it. When the connection breaks, the front of what should go out is
        out. */
    ghost predicate Published(p: seq<byte>, topic: seq<byte>, data: Option<seq<byte>>, len: int,
                              qos: nat, ret: int, id: nat, stray: seq<byte>, leftover: int,
                              online: bool, before: seq<byte>, after: Wired) {
      var fragmented := Fragmented(topic, data, qos, buffer.Length);
      && after.totalLen == 0
      && (if !online then
            && after.sent == before && ret == id && !after.connected && stray == []
            && (fragmented ==> after.dataOffset > 0)
          else
            && CanSend(p, topic, data, len, qos, leftover, stray)
            && after.sent <= before + ToSend(p, topic, data, len, qos, leftover, stray)
            && (if after.connected then
                  && ret == id && after.dataOffset == 0
                  && after.sent == before + ToSend(p, topic, data, len, qos, leftover, stray)
                else ret == -1))
      && (!fragmented ==> after.dataOffset <= Max(leftover, 0))
    }

    /** Something is about to be written, and with it `head` and the payload from
        `next` on will be on the wire. */
    ghost predicate InFlight(data: seq<byte>, len: int, head: seq<byte>, next: int, current: int, opening: bool)
      requires Own()
      reads this, buffer
    {
      && sent + Message() == head + Stretch(data, next, current + length - dataOffset)
      && (if opening then current + length - dataOffset == next >= 0
          else dataOffset == 0 && 0 <= next <= current && 0 < length && current + length <= |data| == len)
    }

    /** esp_mqtt_client_enqueue: store for later, or build a message and drop it. */
    method Enqueue(topic: seq<byte>, data: Option<seq<byte>>, len: int, qos: nat, retain: bool, store: bool)
      returns (ret: int, ghost id: nat, ghost got: bool)
      requires Valid() && pending.Valid() && Sensible(topic, data, len, qos)
      modifies this`length, this`dataAt, this`lastId, this`dataOffset, this`totalLen, buffer, pending, pending.outbox
      ensures Own() && pending.Valid() && id < 65536
      ensures ret == -1 <==> Refused(topic, data, len, qos, buffer.Length) || (qos == 0 && !store)
      ensures Refused(topic, data, len, qos, buffer.Length) <==> length == 0
      ensures lastId == if TakesId(topic, data, len, qos, buffer.Length) then NextId(old(lastId)) else old(lastId)
      ensures length > 0 ==> id == if qos > 0 then lastId else 0
      ensures pending.outbox.items == Added(old(pending.outbox.items),
        Copy(id, qos, PublishPacket(topic, Body(data), qos, retain, id), now), ret != -1 && got)
      ensures pending.events == old(pending.events)
      ensures ret != -1 ==> totalLen == 0
      ensures Refused(topic, data, len, qos, buffer.Length) ==> totalLen == old(totalLen)
      ensures !Refused(topic, data, len, qos, buffer.Length) && ret == -1 ==>
        totalLen == if Fragmented(topic, data, qos, buffer.Length) then BodyAt(topic, qos) + |Body(data)| else 0
      ensures old(Clean()) && !Fragmented(topic, data, qos, buffer.Length) ==> Clean()
      ensures !Refused(topic, data, len, qos, buffer.Length) && Fragmented(topic, data, qos, buffer.Length) ==>
        dataOffset == |PublishPacket(topic, Body(data), qos, retain, id)| - |Body(data)| > 0
    {
      ret, id, got := EnqueuePriv(topic, data, len, qos, retain, store);
      assert old(pending.outbox.items) + [] == old(pending.outbox.items);
      if ret == 0 && !store {
        return -1, id, got;
      }
    }

    /** The packet built after a call of enqueue is a PINGREQ unless the call built an
        oversized message of quality of service 0 and did not store it: then it
        announces the length of that message. */
    method EnqueueThenPing(topic: seq<byte>, data: Option<seq<byte>>, len: int, qos: nat, retain: bool, store: bool)
      requires Valid() && pending.Valid() && totalLen == 0 && Sensible(topic, data, len, qos)
      modifies this, buffer, pending, pending.outbox
      ensures Own() && Message() == [FirstByte(PINGREQ, 0, false)] + EncodeLength(
        if Dropped(topic, data, len, qos, store) then |VariableHeader(topic, qos, 0)| + |Body(data)| else 0)
      ensures Message() == [0xC0, 0] <==> !Dropped(topic, data, len, qos, store)
    {
      ghost var n :=
        if Dropped(topic, data, len, qos, store) then |VariableHeader(topic, qos, 0)| + |Body(data)| else 0;
      var _, _, _ := Enqueue(topic, data, len, qos, retain, store);
      assert n == if totalLen > 0 then totalLen - FIXED else 0;
      BareIs(FirstByte(PINGREQ, 0, false), n);
      BuildBare(PINGREQ);
    }

    lemma BareIs(first: byte, n: nat)
      ensures [first] + EncodeLength(n) == [first, 0] <==> n == 0
    {
      assert ([first] + EncodeLength(n))[1..] == EncodeLength(n);
    }

    /** Built, too large for the buffer, and not stored. */
    ghost predicate Dropped(topic: seq<byte>, data: Option<seq<byte>>, len: int, qos: nat, store: bool) {
      && !Refused(topic, data, len, qos, buffer.Length)
      && Fragmented(topic, data, qos, buffer.Length) && qos == 0 && !store
    }

    /** An oversized message is stored, and then another one, which fits the buffer,
        is published: it comes out whole and alone if and only if what the first one
        has left behind does not reach beyond the place of its payload. Otherwise the
        end of the payload follows once more, or all of it behind stray bytes. */
    method StoreThenPublish(topic1: seq<byte>, data1: seq<byte>, qos1: nat,
                            topic2: seq<byte>, data2: seq<byte>, qos2: nat)
      returns (ret: int, ghost p: seq<byte>, ghost over: int, ghost stray: seq<byte>)
      requires Valid() && pending.Valid() && Clean() && connected
      requires |topic1| < 65536 && |VariableHeader(topic1, qos1, 0)| + |data1| < 268435456
      requires !Refused(topic1, Some(data1), |data1|, qos1, buffer.Length)
      requires Fragmented(topic1, Some(data1), qos1, buffer.Length)
      requires |topic2| < 65536 && 0 < |data2| && |VariableHeader(topic2, qos2, 0)| + |data2| < 268435456
      requires !Refused(topic2, Some(data2), |data2|, qos2, buffer.Length)
      requires !Fragmented(topic2, Some(data2), qos2, buffer.Length)
      modifies this, buffer, pending, pending.outbox
      ensures over == Leftover(topic1, data1, qos1, topic2, qos2)
      ensures ret >= 0 ==> ret < 65536 && p == PublishPacket(topic2, data2, qos2, false, ret)
      ensures ret >= 0 ==> |stray| == Max(over - |data2|, 0)
      ensures ret >= 0 ==> sent == old(sent) + p + Again(data2, |data2|, over, stray)
      ensures ret >= 0 ==> (sent == old(sent) + p <==> over <= 0)
    {
      var stored;
      ghost var id, got;
      stored, id, got := Enqueue(topic1, Some(data1), |data1|, qos1, false, true);
      LeftoverIs(topic1, data1, qos1, id, topic2, qos2);
      over := Leftover(topic1, data1, qos1, topic2, qos2);
      ret, id, got, stray := Publish(topic2, Some(data2), |data2|, qos2, false);
      p := PublishPacket(topic2, data2, qos2, false, id);
      if ret >= 0 {
        assert ToSend(p, topic2, Some(data2), |data2|, qos2, over + BodyAt(topic2, qos2), stray)
            == Wire(p, data2, |data2|, false, |p|, over, stray);
        Alone(old(sent), p, data2, over, stray);
      }
    }

    /** mqtt_write_data for a message other than a PUBLISH. */
    method SendMessage() returns (ok: bool)
      requires Own()
      modifies this`sent
      ensures old(sent) <= sent <= old(sent) + Message()
      ensures ok <==> sent == old(sent) + Message()
    {
      ok := Write();
    }

    /** mqtt_resend_queued, for the item at the given place. The outbound message is now
        the stored one, and stays so: its length is what the next packet meets. */
    method Resend(at: nat, queued: bool) returns (written: bool)
      requires Valid() && pending.Valid() && at < |pending.outbox.items|
      modifies this`dataAt, this`length, this`sent, this`connected
      modifies pending`removed, pending`uncounted, pending.outbox
      ensures Valid() && pending.Valid()
      ensures pending.outbox.items == Resent(old(pending.outbox.items), at, queued, written)
      ensures var m := Duped(old(pending.outbox.items), at)[at].bytes;
        && length == |m| && old(sent) <= sent <= old(sent) + m && (written <==> sent == old(sent) + m)
      ensures connected == (old(connected) && written)
    {
      written := SendStored(Duped(pending.outbox.items, at)[at].bytes);
      pending.Resend(at, queued, written);
    }

    method SendStored(m: seq<byte>) returns (written: bool)
      requires Valid()
      modifies this`dataAt, this`length, this`sent, this`connected
      ensures Valid() && length == |m| && old(sent) <= sent <= old(sent) + m && (written <==> sent == old(sent) + m)
      ensures connected == (old(connected) && written)
    {
      dataAt, length := buffer.Length, |m|;
      written := WriteBytes(m);
      if !written {
        connected := false;
      }
    }

    /** What a round sends again is on the wire, or a proper front of it, and then the
        connection is given up. */
    ghost predicate Repeated(items: seq<Item>, sinceLast: int, written: bool, before: seq<byte>, lengthWas: nat)
      reads this
    {
      var (at, _) := DueNext(items, now, sinceLast);
      if at < |items| then
        var m := Duped(items, at)[at].bytes;
        && length == |m| && before <= sent <= before + m && (written <==> sent == before + m) && connected == written
      else sent == before && length == lengthWas && connected && written
    }

    /** One round of the retransmission part of the client task (1417-1431). */
    method Retransmit(sinceLast: int) returns (written: bool)
      requires Valid() && pending.Valid() && connected
      modifies this`dataAt, this`length, this`sent, this`connected
      modifies pending`removed, pending`uncounted, pending.outbox
      ensures Valid() && pending.Valid()
      ensures pending.outbox.items == Retransmitted(old(pending.outbox.items), now, sinceLast, written)
      ensures Repeated(old(pending.outbox.items), sinceLast, written, old(sent), old(length))
    {
      var at, queued := pending.NextToSend(now, sinceLast);
      written := true;
      if at < |pending.outbox.items| {
        written := Resend(at, queued);
      }
    }

    /** A message that has been published into an empty outbox, and a round at any later
        time until it is acknowledged: within the second after it was sent, or after the
        last retransmission, nothing happens; afterwards it is sent again, the same packet
        with its DUP flag. */
    method PublishThenRetransmit(topic: seq<byte>, data: Option<seq<byte>>, len: int, qos: nat, retain: bool,
                                 later: int, sinceLast: int)
      returns (ret: int, ghost p: seq<byte>, ghost got: bool, ghost before: seq<byte>, written: bool)
      requires Valid() && pending.Valid() && connected && pending.outbox.items == []
      requires 0 < qos < 3 && Sensible(topic, data, len, qos) && !Refused(topic, data, len, qos, buffer.Length)
      modifies this, buffer, pending, pending.outbox
      ensures ret >= 0 ==>
        0 < ret < 65536 && ret == NextId(old(lastId)) && p == PublishPacket(topic, Body(data), qos, retain, ret)
      ensures ret >= 0 && got && (later - old(now) <= 1000 || sinceLast <= 1000) ==>
        sent == before && pending.outbox.items == [Item(ret, 3, qos, p, old(now), Transmitted)]
      ensures ret >= 0 && got && later - old(now) > 1000 && sinceLast > 1000 ==>
        p != [] && p[0] + 8 < 256
        && var q := [p[0] + 8] + p[1..];
        && before <= sent <= before + q && (written <==> sent == before + q) && connected == written
        && pending.outbox.items == [Item(ret, 3, qos, q, old(now), Transmitted)]
    {
      ghost var id, stray;
      ret, id, got, stray := Publish(topic, data, len, qos, retain);
      p, before, written := PublishPacket(topic, Body(data), qos, retain, id), sent, false;
      if ret >= 0 {
        ghost var item := Item(id, PUBLISH, qos, p, now, Transmitted);
        FirstByteFacts(qos, retain);
        if got {
          StoredAlone(pending.outbox.items, id, qos, p, now);
        }
        written := LaterRound(item, got, later, sinceLast);
      }
    }

    /** A round at a later time with one message in the outbox, which waits to be
        acknowledged. */
    method LaterRound(ghost item: Item, ghost got: bool, later: int, sinceLast: int) returns (written: bool)
      requires Valid() && pending.Valid() && connected && (got ==> pending.outbox.items == [item])
      requires item.kind == 3 && item.qos > 0 && item.pending == Transmitted
      requires item.bytes != [] && DupOf(item.bytes[0]) == 0
      modifies this`now, this`dataAt, this`length, this`sent, this`connected
      modifies pending`removed, pending`uncounted, pending.outbox
      ensures got && (later - item.tick <= 1000 || sinceLast <= 1000) ==>
        sent == old(sent) && connected && pending.outbox.items == [item]
      ensures got && later - item.tick > 1000 && sinceLast > 1000 ==>
        var q := [item.bytes[0] + 8] + item.bytes[1..];
        && old(sent) <= sent <= old(sent) + q && (written <==> sent == old(sent) + q) && connected == written
        && pending.outbox.items == [item.(bytes := q)]
    {
      now := later;
      DueAlone(item, now, sinceLast);
      written := Retransmit(sinceLast);
    }

    /** One call on a live connection with nothing left over from before. */
    method Perform(call: Call) returns (ghost p: seq<byte>)
      requires Valid() && pending.Valid() && Clean() && connected && Proper(call, buffer.Length)
      modifies this, buffer, pending, pending.outbox
      ensures Own() && pending.Valid() && IsPacket(call, p) && old(sent) <= sent <= old(sent) + p
      ensures connected ==> Clean() && sent == old(sent) + p
    {
      match call {
        case PublishCall(topic, data, len, qos, retain) =>
          p := PerformPublish(topic, data, len, qos, retain);
        case PingCall =>
          BuildBare(PINGREQ);
          p := Message();
          connected := SendMessage();
        case AckCall(kind, id) =>
          var used := BuildAck(kind, 0, id);
          p := Message();
          assert IsAck(kind, 0, id, used, p);
          connected := SendMessage();
      }
    }

    method PerformPublish(topic: seq<byte>, data: Option<seq<byte>>, len: int, qos: nat, retain: bool)
      returns (ghost p: seq<byte>)
      requires Valid() && pending.Valid() && Clean() && connected
      requires Proper(PublishCall(topic, data, len, qos, retain), buffer.Length)
      modifies this, buffer, pending, pending.outbox
      ensures Own() && pending.Valid() && IsPacket(PublishCall(topic, data, len, qos, retain), p)
      ensures old(sent) <= sent <= old(sent) + p
      ensures connected ==> Clean() && sent == old(sent) + p
    {
      var ret: int;
      ghost var id, got, stray;
      ret, id, got, stray := Publish(topic, data, len, qos, retain);
      p := PublishPacket(topic, Body(data), qos, retain, id);
      ghost var first := if Fragmented(topic, data, qos, buffer.Length) then FirstLen(p, topic, data, qos) else |p|;
      var fragmented := Fragmented(topic, data, qos, buffer.Length);
      WireIsPacket(p, Body(data), len, fragmented, first, if fragmented then 0 else Excess(old(dataOffset), topic, qos),
                   stray);
    }

    /** Whatever is called while the connection lasts, the bytes on the wire are
        the packets of the calls, one after the other, and when it breaks the front
        of the next one: nothing lost, nothing twice. */
    method Session(calls: seq<Call>) returns (done: nat, ghost packets: seq<seq<byte>>, ghost broken: seq<byte>)
      requires Valid() && pending.Valid() && Clean() && connected
      requires forall k :: 0 <= k < |calls| ==> Proper(calls[k], buffer.Length)
      modifies this, buffer, pending, pending.outbox
      ensures Valid() && pending.Valid() && done == |packets| <= |calls| && (connected ==> done == |calls|)
      ensures ArePackets(calls, packets)
      ensures connected ==> sent == old(sent) + Flatten(packets)
      ensures !connected ==> done < |calls| && IsPacket(calls[done], broken)
      ensures !connected ==> old(sent) + Flatten(packets) <= sent <= old(sent) + Flatten(packets) + broken
    {
      done, packets, broken := 0, [], [];
      assert sent == sent + Flatten(packets);
      while done < |calls|
        invariant Valid() && pending.Valid() && connected && Clean() && done == |packets| <= |calls|
        invariant ArePackets(calls, packets)
        invariant sent == old(sent) + Flatten(packets)
      {
        broken := Perform(calls[done]);
        if !connected {
          return;
        }
        FlattenAfter(old(sent), packets, broken);
        PacketAfter(calls, packets, broken);
        packets := packets + [broken];
        done := done + 1;
      }
    }
  }

  datatype Call =
    | PublishCall(topic: seq<byte>, data: Option<seq<byte>>, len: int, qos: nat, retain: bool)
    | PingCall
    | AckCall(kind: nat, id: nat)      // PUBACK or PUBREC

  /** A call this client supports: not refused, within the protocol's limits, and
      given its length when it will have to be fragmented. */
  predicate Proper(call: Call, capacity: nat) {
    match call
    case PublishCall(topic, data, len, qos, _) =>
      && Sensible(topic, data, len, qos) && !Refused(topic, data, len, qos, capacity)
      && (Fragmented(topic, data, qos, capacity) ==> len > 0)
    case PingCall => true
    case AckCall(_, id) => id < 65536 && capacity >= FIXED + 2
  }

  /** An acknowledgement of this identifier; zero is replaced. */
  predicate IsAck(kind: nat, qos: nat, id: nat, used: nat, p: seq<byte>) {
    0 < used < 65536 && (id != 0 ==> used == id) && p == [FirstByte(kind, qos, false), 2] + Bytes2(used)
  }

  ghost predicate IsPacket(call: Call, p: seq<byte>) {
    match call
    case PublishCall(topic, data, _, qos, retain) =>
      exists id: nat :: id < 65536 && p == PublishPacket(topic, Body(data), qos, retain, id)
    case PingCall => p == [FirstByte(PINGREQ, 0, false), 0]
    case AckCall(kind, id) => exists used :: IsAck(kind, 0, id, used, p)
  }

  /** Each packet is that of the call in its place. */
  ghost predicate ArePackets(calls: seq<Call>, packets: seq<seq<byte>>) {
    |packets| <= |calls| && forall k :: 0 <= k < |packets| ==> IsPacket(calls[k], packets[k])
  }

  lemma PacketAfter(calls: seq<Call>, packets: seq<seq<byte>>, p: seq<byte>)
    requires ArePackets(calls, packets) && |packets| < |calls| && IsPacket(calls[|packets|], p)
    ensures ArePackets(calls, packets + [p])
  {
  }

  /** How far what an oversized message leaves behind reaches beyond the payload's
      place in the next one: the difference of what goes before the payloads. */
  function Leftover(topic1: seq<byte>, data1: seq<byte>, qos1: nat, topic2: seq<byte>, qos2: nat): int {
    var header := VariableHeader(topic1, qos1, 0);
    1 + |EncodeLength(|header| + |data1|)| + |header| - BodyAt(topic2, qos2)
  }

  lemma LeftoverIs(topic1: seq<byte>, data1: seq<byte>, qos1: nat, id: nat, topic2: seq<byte>, qos2: nat)
    ensures Excess(|PublishPacket(topic1, data1, qos1, false, id)| - |data1|, topic2, qos2)
         == Leftover(topic1, data1, qos1, topic2, qos2)
    ensures Leftover(topic1, data1, qos1, topic2, qos2) > 0 <==>
      |topic1| + |IdField(qos1, 0)| + |EncodeLength(|VariableHeader(topic1, qos1, 0)| + |data1|)|
        > |topic2| + |IdField(qos2, 0)| + 4
  {
    assert |VariableHeader(topic1, qos1, id)| == |VariableHeader(topic1, qos1, 0)|;
  }

  /** What goes out with a leftover of `over`: the packet alone exactly when there is none. */
  lemma Alone(head: seq<byte>, p: seq<byte>, data: seq<byte>, over: int, stray: seq<byte>)
    requires data != [] && |stray| == Max(over - |data|, 0)
    ensures var w := head + Wire(p, data, |data|, false, |p|, over, stray);
      && w == head + p + Again(data, |data|, over, stray)
      && (w == head + p <==> over <= 0)
  {
    var again := Again(data, |data|, over, stray);
    assert head + (p + again) == head + p + again;
    assert |again| == Max(over, 0);
  }

  /** The payload ends the packet. */
  lemma PacketTail(topic: seq<byte>, data: seq<byte>, qos: nat, retain: bool, id: nat)
    ensures var p := PublishPacket(topic, data, qos, retain, id);
      |data| <= |p| && p[|p| - |data|..] == data
  {
  }
}
