/** MQTT 3.1.1 packet layout, and the accessors of mqtt_msg.c that read it. */
module MqttPacket {
  import opened Common

  // mqtt_message_type
  const PUBLISH := 3
  const PUBACK := 4
  const PUBREC := 5
  const PUBREL := 6
  const PUBCOMP := 7
  const SUBSCRIBE := 8
  const SUBACK := 9
  const UNSUBSCRIBE := 10
  const UNSUBACK := 11
  const PINGREQ := 12

  /** Two bytes, most significant first (section 1.5.2). */
  function Word(hi: byte, lo: byte): nat {
    256 * (hi as int) + lo as int
  }

  function TypeOf(first: byte): nat { first / 16 }

  function QosOf(first: byte): nat { first / 2 % 4 }

  function DupOf(first: byte): nat { first / 8 % 2 }

  function IdBytes(first: byte): nat {
    if QosOf(first) > 0 then 2 else 0
  }

  /** mqtt_has_valid_msg_hdr: the flag bits that sections 2.2.2 and 3.3.1 demand. */
  predicate ValidFirstByte(first: byte) {
    var t, flags := TypeOf(first), first % 16;
    if t == PUBLISH then QosOf(first) < 3 && (QosOf(first) > 0 || DupOf(first) == 0)
    else if t == PUBREL || t == SUBSCRIBE || t == UNSUBSCRIBE then flags == 2
    else 1 <= t <= 14 && flags == 0
  }

  /** Table 2.2 of MQTT 3.1.1, and the flags of a PUBLISH: no quality of service 3, and no
      DUP flag with 0. */
  lemma ValidFirstByteIs(b: byte)
    ensures ValidFirstByte(b) <==>
      b in [0x10, 0x20, 0x40, 0x50, 0x62, 0x70, 0x82, 0x90, 0xA2, 0xB0, 0xC0, 0xD0, 0xE0]
      || 0x30 <= b <= 0x35 || 0x3A <= b <= 0x3D
  {
    assert b == 16 * TypeOf(b) + b % 16;
  }

  // ---- the fixed header (section 2.2.3) ----

  /** The first position from k on whose byte does not announce another one. */
  function Stop(p: seq<byte>, k: nat): (r: nat)
    requires k <= |p|
    ensures k <= r <= |p|
    ensures forall j :: k <= j < r ==> p[j] >= 128
    ensures r < |p| ==> p[r] < 128
    decreases |p| - k
  {
    if k == |p| || p[k] < 128 then k else Stop(p, k + 1)
  }

  /** The number written in the positions k to e: least significant group of
      seven bits first. */
  function Groups(p: seq<byte>, k: nat, e: nat): nat
    requires k <= e < |p|
    decreases e - k
  {
    if k == e then p[e] % 128 else p[k] % 128 + 128 * Groups(p, k + 1, e)
  }

  /** The fixed header lies within the first n bytes. */
  predicate HeaderIn(p: seq<byte>, n: nat) {
    1 <= n <= |p| && Stop(p, 1) < n
  }

  function FixedLen(p: seq<byte>): nat
    requires HeaderIn(p, |p|)
  {
    Stop(p, 1) + 1
  }

  /** The length of the whole packet that starts with these bytes. */
  function PacketLen(p: seq<byte>): (n: nat)
    requires HeaderIn(p, |p|)
    ensures n >= FixedLen(p)
  {
    FixedLen(p) + Groups(p, 1, Stop(p, 1))
  }

  lemma {:induction false} GroupsBound(p: seq<byte>, k: nat, e: nat)
    requires k <= e < |p|
    ensures Groups(p, k, e) < Weight(e - k + 1)
    decreases e - k
  {
    if k < e {
      GroupsBound(p, k + 1, e);
    }
  }

  /** With four length bytes no packet reaches the width of the lengths in the code. */
  lemma PacketBound(p: seq<byte>)
    requires HeaderIn(p, |p|) && FixedLen(p) <= 5
    ensures PacketLen(p) <= 5 + 268435455
  {
    var e := Stop(p, 1);
    GroupsBound(p, 1, e);
    assert Weight(1) == 128 && Weight(2) == 16384 && Weight(3) == 2097152 && Weight(4) == 268435456;
    assert e == 1 || e == 2 || e == 3 || e == 4;
  }

  /** At most four length bytes. */
  predicate ShortField(p: seq<byte>) {
    |p| >= 5 ==> exists k :: 1 <= k <= 4 && p[k] < 128
  }

  lemma ShortFieldStop(p: seq<byte>)
    requires ShortField(p) && HeaderIn(p, |p|)
    ensures FixedLen(p) <= 5
  {
  }

  lemma {:induction false} StopLocal(p: seq<byte>, q: seq<byte>, k: nat)
    requires k <= |p| && p <= q && Stop(p, k) < |p|
    ensures Stop(q, k) == Stop(p, k)
    decreases |p| - k
  {
    if p[k] >= 128 {
      StopLocal(p, q, k + 1);
    }
  }

  lemma {:induction false} GroupsLocal(p: seq<byte>, q: seq<byte>, k: nat, e: nat)
    requires k <= e < |p| && p <= q
    ensures Groups(p, k, e) == Groups(q, k, e)
    decreases e - k
  {
    if k < e {
      GroupsLocal(p, q, k + 1, e);
    }
  }

  /** Header and length only depend on the bytes of the header. */
  lemma HeaderLocal(p: seq<byte>, q: seq<byte>)
    requires p <= q && HeaderIn(p, |p|)
    ensures HeaderIn(q, |p|) && HeaderIn(q, |q|) && FixedLen(q) == FixedLen(p) && PacketLen(q) == PacketLen(p)
  {
    StopLocal(p, q, 1);
    GroupsLocal(p, q, 1, Stop(p, 1));
  }

  lemma HeaderWithin(q: seq<byte>, n: nat)
    requires HeaderIn(q, n)
    ensures HeaderIn(q[..n], n)
  {
    var s := Stop(q, 1);
    assert q[..n][s] == q[s];
  }

  /** 1 << 7 * n */
  function Weight(n: nat): nat {
    if n == 0 then 1 else 128 * Weight(n - 1)
  }

  function Term(p: seq<byte>, i: nat): nat
    requires 1 <= i < |p|
  {
    Weight(i - 1) * (p[i] as int % 128)
  }

  /** The sum that mqtt_get_total_length has formed before looking at byte i. */
  function LowSum(p: seq<byte>, i: nat): nat
    requires 1 <= i <= |p|
  {
    if i == 1 then 0 else LowSum(p, i - 1) + Term(p, i - 1)
  }

  /** Weighing the groups one by one gives the number they encode. */
  lemma {:induction false} LowSumIsGroups(p: seq<byte>, i: nat, e: nat)
    requires 1 <= i <= e < |p|
    ensures LowSum(p, e + 1) == LowSum(p, i) + Weight(i - 1) * Groups(p, i, e)
    decreases e - i
  {
    if i < e {
      LowSumIsGroups(p, i + 1, e);
      Distribute(Weight(i - 1), p[i] as int % 128, Groups(p, i + 1, e));
    }
  }

  lemma Distribute(w: nat, d: nat, g: nat)
    ensures w * (d + 128 * g) == w * d + (128 * w) * g
  {
    assert w * (128 * g) == (128 * w) * g;
  }

  /** mqtt_get_total_length. Of a header that is not all there it counts what is. */
  method GetTotalLength(buffer: array<byte>, length: nat) returns (total: nat, fixed: nat)
    requires length <= buffer.Length
    ensures var p := buffer[..length];
      if HeaderIn(p, length) then total == PacketLen(p) && fixed == FixedLen(p)
      else fixed == Max(length, 1) && total == fixed + if length == 0 then 0 else LowSum(p, length)
  {
    ghost var p := buffer[..length];
    ghost var e := if length == 0 then 1 else Stop(p, 1);
    var i := 1;
    total := 0;
    while i < length
      invariant 1 <= i <= e
      invariant total == if length == 0 then 0 else LowSum(p, i)
      decreases length - i
    {
      total := total + Weight(i - 1) * (buffer[i] as int % 128);
      if buffer[i] < 128 {
        i := i + 1;
        break;
      }
      i := i + 1;
    }
    if e < length {
      LowSumIsGroups(p, 1, e);
    }
    total := total + i;
    fixed := i;
  }

  // ---- PUBLISH (section 3.3) ----

  /** The two bytes of the topic length are within the first n. */
  predicate TopicLenIn(p: seq<byte>, n: nat) {
    HeaderIn(p, n) && FixedLen(p) + 2 <= n
  }

  function TopicLen(p: seq<byte>): nat
    requires TopicLenIn(p, |p|)
  {
    Word(p[FixedLen(p)], p[FixedLen(p) + 1])
  }

  /** Everything before the payload. */
  function PublishHeaderLen(p: seq<byte>): nat
    requires TopicLenIn(p, |p|)
  {
    FixedLen(p) + 2 + TopicLen(p) + IdBytes(p[0])
  }

  lemma PublishLocal(p: seq<byte>, q: seq<byte>)
    requires p <= q && TopicLenIn(q, |p|)
    ensures HeaderIn(p, |p|) && FixedLen(p) == FixedLen(q) && PacketLen(p) == PacketLen(q)
    ensures TopicLenIn(p, |p|) && TopicLen(p) == TopicLen(q) && PublishHeaderLen(p) == PublishHeaderLen(q)
  {
    assert q[..|p|] == p;
    HeaderWithin(q, |p|);
    HeaderLocal(p, q);
  }

  /** The header of a PUBLISH packet that names a topic and has room for its
      own variable header. */
  predicate PublishShape(p: seq<byte>) {
    && TopicLenIn(p, |p|)
    && TypeOf(p[0]) == PUBLISH
    && PublishHeaderLen(p) <= PacketLen(p)
    && TopicLen(p) > 0
  }

  /** Such a packet, complete, at the front of p. */
  predicate WellFormedPublish(p: seq<byte>) {
    PublishShape(p) && PacketLen(p) <= |p|
  }

  function Payload(p: seq<byte>): seq<byte>
    requires WellFormedPublish(p)
  {
    p[PublishHeaderLen(p)..PacketLen(p)]
  }

  function Topic(p: seq<byte>): seq<byte>
    requires WellFormedPublish(p)
  {
    p[FixedLen(p) + 2..FixedLen(p) + 2 + TopicLen(p)]
  }

  /** mqtt_get_publish_topic: where the topic is, if it is all there. */
  method GetPublishTopic(buffer: array<byte>, length: nat) returns (at: nat, len: nat, found: bool)
    requires length <= buffer.Length
    ensures var p := buffer[..length];
      && found == (HeaderIn(p, length) && FixedLen(p) + 2 < length && FixedLen(p) + 2 + TopicLen(p) <= length)
      && (found ==> at == FixedLen(p) + 2 && len == TopicLen(p))
  {
    at, len, found := 0, 0, false;
    var _, i := GetTotalLength(buffer, length);
    if i + 2 >= length {
      return;
    }
    var topicLen := Word(buffer[i], buffer[i + 1]);
    i := i + 2;
    if i + topicLen > length {
      return;
    }
    at, len, found := i, topicLen, true;
  }

  /** mqtt_get_publish_data: where the payload starts and how much of it is in
      the buffer; nothing when the buffer ends before it. */
  method GetPublishData(buffer: array<byte>, length: nat) returns (at: nat, len: nat)
    requires length <= buffer.Length
    ensures at + len <= length
    ensures var p := buffer[..length];
      if TopicLenIn(p, length) && PublishHeaderLen(p) < length && PublishHeaderLen(p) <= PacketLen(p) then
        at == PublishHeaderLen(p) && at + len == Min(PacketLen(p), length)
      else len == 0
  {
    at, len := 0, 0;
    var totlen, i := GetTotalLength(buffer, length);
    if i + 2 >= length {
      return;
    }
    var topicLen := Word(buffer[i], buffer[i + 1]);
    i := i + 2;
    if i + topicLen >= length {
      return;
    }
    i := i + topicLen;
    if QosOf(buffer[0]) > 0 {
      if i + 2 >= length {
        return;
      }
      i := i + 2;
    }
    if totlen < i {
      return;
    }
    at, len := i, if totlen <= length then totlen - i else length - i;
  }

  // ---- packet identifiers (section 2.3.1) ----

  /** All that comes before the payload is there. */
  predicate HasHeader(p: seq<byte>) {
    TopicLenIn(p, |p|) && PublishHeaderLen(p) <= |p|
  }

  /** The identifier a packet carries: the last two bytes of the variable header
      of a PUBLISH packet above quality of service 0, the first two of an
      acknowledgement or a subscription; zero when there is none. */
  function PacketId(p: seq<byte>): nat
    requires p != []
  {
    if TypeOf(p[0]) == PUBLISH then
      if HasHeader(p) && QosOf(p[0]) > 0 then Word(p[PublishHeaderLen(p) - 2], p[PublishHeaderLen(p) - 1]) else 0
    else if PUBACK <= TypeOf(p[0]) <= UNSUBACK && |p| >= 4 && p[1] < 128 then Word(p[2], p[3])
    else 0
  }

  /** mqtt_get_id looks for the identifier where the buffer has ended already. */
  predicate IdBeyond(p: seq<byte>, capacity: nat) {
    p != [] && TypeOf(p[0]) == PUBLISH && HasHeader(p) && QosOf(p[0]) > 0 && PublishHeaderLen(p) > capacity
  }

  /** The buffer holds the packet p, or the front of one whose length field, and the
      two bytes after it, are all there. */
  ghost predicate Holds(buffer: array<byte>, p: seq<byte>)
    reads buffer
  {
    var n := Min(|p|, buffer.Length);
    && buffer[..n] == p[..n]
    && (n < |p| ==> HeaderIn(p, |p|) && FixedLen(p) + 2 <= n)
  }

  /** mqtt_get_id. It trusts the length of the packet, not that of the buffer: when the
      variable header is longer than the buffer, it returns what lies behind. */
  method GetId(buffer: array<byte>, length: nat, ghost p: seq<byte>) returns (id: nat, ghost outside: bool)
    requires 0 < length == |p| && buffer.Length > 0 && Holds(buffer, p)
    requires TypeOf(p[0]) != PUBLISH ==> length <= buffer.Length
    ensures id < 65536 && outside == IdBeyond(p, buffer.Length) && (!outside ==> id == PacketId(p))
  {
    outside := false;
    ghost var held := p[..Min(length, buffer.Length)];
    assert buffer[0] == held[0];
    if TypeOf(buffer[0]) == PUBLISH {
      id, outside := GetPublishId(buffer, length, p);
    } else if PUBACK <= TypeOf(buffer[0]) <= UNSUBACK && length >= 4 && buffer[1] < 128 {
      assert buffer[1] == held[1] && buffer[2] == held[2] && buffer[3] == held[3];
      id := Word(buffer[2], buffer[3]);
    } else {
      assert length >= 4 ==> buffer[1] == held[1];
      id := 0;
    }
  }

  /** A byte of the buffer, or of what lies behind it. */
  method ByteAt(buffer: array<byte>, i: nat) returns (b: byte)
    ensures i < buffer.Length ==> b == buffer[i]
  {
    if i < buffer.Length {
      b := buffer[i];
    } else {
      b := *;
    }
  }

  /** The case of a PUBLISH packet, which skips length field and topic. */
  method GetPublishId(buffer: array<byte>, length: nat, ghost p: seq<byte>) returns (id: nat, ghost outside: bool)
    requires 0 < length == |p| && buffer.Length > 0 && Holds(buffer, p) && TypeOf(p[0]) == PUBLISH
    ensures id < 65536 && outside == IdBeyond(p, buffer.Length) && (!outside ==> id == PacketId(p))
  {
    outside := false;
    var i := SkipLength(buffer, length, p);
    if i + 2 >= length {
      return 0, outside;
    }
    var topicLen := Word(buffer[i], buffer[i + 1]);
    ghost var held := p[..Min(length, buffer.Length)];
    assert buffer[i] == held[i] && buffer[i + 1] == held[i + 1];
    assert topicLen == TopicLen(p);
    i := i + 2;
    if i + topicLen > length {
      return 0, outside;
    }
    i := i + topicLen;
    assert buffer[0] == held[0];
    if QosOf(buffer[0]) == 0 {
      return 0, outside;
    }
    if i + 2 > length {
      return 0, outside;
    }
    var hi := ByteAt(buffer, i);
    var lo := ByteAt(buffer, i + 1);
    outside := i + 2 > buffer.Length;
    assert !outside ==> buffer[i] == held[i] && buffer[i + 1] == held[i + 1];
    return Word(hi, lo), outside;
  }

  /** Its loop over the length field. */
  method SkipLength(buffer: array<byte>, length: nat, ghost p: seq<byte>) returns (i: nat)
    requires 0 < length == |p| && Holds(buffer, p)
    ensures i == if HeaderIn(p, |p|) then FixedLen(p) else |p|
  {
    ghost var held := p[..Min(length, buffer.Length)];
    i := 1;
    while i < length
      invariant 1 <= i <= Stop(p, 1)
      decreases length - i
    {
      assert buffer[i] == held[i];
      if buffer[i] < 128 {
        i := i + 1;
        break;
      }
      i := i + 1;
    }
  }

  /** deliver_publish asks for the identifier with the length of the payload at hand, as
      if that were the packet's: it finds the identifier if and only if this is no
      shorter than the header, and none otherwise. */
  lemma EventId(p: seq<byte>, n: nat)
    requires WellFormedPublish(p) && 0 < n <= |p|
    ensures PacketId(p[..n]) == if PublishHeaderLen(p) <= n then PacketId(p) else 0
  {
    var q := p[..n];
    if TopicLenIn(p, n) {
      assert p[..|q|] == q;
      PublishLocal(q, p);
    } else if TopicLenIn(q, |q|) {
      HeaderLocal(q, p);
    }
  }

  // ---- the DUP flag (section 3.3.1.1) ----

  /** mqtt_set_dup */
  function WithDup(p: seq<byte>): (q: seq<byte>)
    ensures |q| == |p|
  {
    if p == [] || DupOf(p[0]) == 1 then p else [p[0] + 8] + p[1..]
  }

  lemma {:induction false} StopSame(p: seq<byte>, q: seq<byte>, k: nat)
    requires |p| == |q| && 1 <= k <= |p| && forall j :: 1 <= j < |p| ==> p[j] == q[j]
    ensures Stop(p, k) == Stop(q, k)
    decreases |p| - k
  {
    if k < |p| && p[k] >= 128 {
      StopSame(p, q, k + 1);
    }
  }

  lemma {:induction false} GroupsSame(p: seq<byte>, q: seq<byte>, k: nat, e: nat)
    requires |p| == |q| && 1 <= k <= e < |p| && forall j :: 1 <= j < |p| ==> p[j] == q[j]
    ensures Groups(p, k, e) == Groups(q, k, e)
    decreases e - k
  {
    if k < e {
      GroupsSame(p, q, k + 1, e);
    }
  }

  lemma DupBits(b: byte)
    requires DupOf(b) == 0
    ensures b + 8 < 256 && DupOf(b + 8) == 1
    ensures TypeOf(b + 8) == TypeOf(b) && QosOf(b + 8) == QosOf(b) && (b + 8) % 2 == b % 2
  {
    var t, low := b / 16, b % 8;
    assert b == 16 * t + low;
    assert (b + 8) / 2 == 8 * t + 4 + low / 2;
  }

  /** Two packets that differ in the flag have the same length field and header. */
  lemma DupHeader(p: seq<byte>, q: seq<byte>)
    requires q == WithDup(p) && TopicLenIn(p, |p|)
    ensures TopicLenIn(q, |q|) && FixedLen(q) == FixedLen(p) && PacketLen(q) == PacketLen(p)
    ensures DupOf(q[0]) == 1 && TypeOf(q[0]) == TypeOf(p[0]) && QosOf(q[0]) == QosOf(p[0]) && q[0] % 2 == p[0] % 2
    ensures TopicLen(q) == TopicLen(p) && PublishHeaderLen(q) == PublishHeaderLen(p)
  {
    if DupOf(p[0]) == 0 {
      DupBits(p[0]);
    }
    assert forall j :: 1 <= j < |p| ==> p[j] == q[j];
    StopSame(p, q, 1);
    GroupsSame(p, q, 1, Stop(p, 1));
  }

  lemma DupTail(p: seq<byte>, i: nat, j: nat)
    requires 1 <= i <= j <= |p|
    ensures WithDup(p)[i..j] == p[i..j]
  {
  }

  lemma DupId(p: seq<byte>)
    requires WellFormedPublish(p)
    ensures PacketId(WithDup(p)) == PacketId(p)
  {
    var q, h := WithDup(p), PublishHeaderLen(p);
    DupHeader(p, q);
    assert q[h - 2] == p[h - 2] && q[h - 1] == p[h - 1];
  }

  /** The flag changes nothing else of a PUBLISH packet. */
  lemma DupKeeps(p: seq<byte>)
    requires WellFormedPublish(p)
    ensures var q := WithDup(p);
      && WellFormedPublish(q) && DupOf(q[0]) == 1 && QosOf(q[0]) == QosOf(p[0]) && q[0] % 2 == p[0] % 2
      && PacketLen(q) == PacketLen(p) && Topic(q) == Topic(p) && Payload(q) == Payload(p) && PacketId(q) == PacketId(p)
  {
    var q := WithDup(p);
    DupHeader(p, q);
    var at := FixedLen(p) + 2;
    DupTail(p, at, at + TopicLen(p));
    DupTail(p, PublishHeaderLen(p), PacketLen(p));
    DupId(p);
  }

  // ---- writing the length field ----

  /** fini_message's encoding loop, as a function. */
  function EncodeLength(n: nat): (bytes: seq<byte>)
    ensures bytes != []
  {
    if n < 128 then [n] else [128 + n % 128] + EncodeLength(n / 128)
  }

  /** The field reads back as the number, whatever follows it. */
  lemma {:induction false} EncodeDecodes(first: seq<byte>, n: nat, rest: seq<byte>)
    requires first != []
    ensures var p := first + EncodeLength(n) + rest; var e := |first| + |EncodeLength(n)| - 1;
      Stop(p, |first|) == e && Groups(p, |first|, e) == n
    decreases n
  {
    var p := first + EncodeLength(n) + rest;
    if n >= 128 {
      var b: byte := 128 + n % 128;
      EncodeDecodes(first + [b], n / 128, rest);
      assert first + [b] + EncodeLength(n / 128) + rest == p;
      assert p[|first|] == b;
    } else {
      assert p[|first|] == n;
    }
  }

  /** Four length bytes carry exactly the numbers below 128 to the fourth. */
  lemma EncodeWidth(n: nat)
    ensures |EncodeLength(n)| <= 4 <==> n < 268435456
  {
    var a := n / 128;
    var b := a / 128;
    var c := b / 128;
    assert |EncodeLength(n)| == if n < 128 then 1 else 1 + |EncodeLength(a)|;
    assert |EncodeLength(a)| == if a < 128 then 1 else 1 + |EncodeLength(b)|;
    assert |EncodeLength(b)| == if b < 128 then 1 else 1 + |EncodeLength(c)|;
    assert |EncodeLength(c)| == if c < 128 then 1 else 1 + |EncodeLength(c / 128)|;
  }

  /** So a packet built as type byte, length field and body is framed right. */
  lemma FramedLength(first: byte, body: seq<byte>)
    ensures var p := [first] + EncodeLength(|body|) + body;
      HeaderIn(p, |p|) && FixedLen(p) == 1 + |EncodeLength(|body|)| && PacketLen(p) == |p|
  {
    EncodeDecodes([first], |body|, body);
  }
}
