/** What calls of the application and packets of the broker, in any order, do to the
    stored messages and to the reports about them. */
module MqttBooks {
  import opened Common
  import opened MqttIdentifiers
  import opened MqttPacket
  import opened MqttOutbox
  import opened MqttPending
  import opened MqttPublisher
  import opened MqttSession

  // ---- steps, and what comes of them ----

  /** What may come next: a call at a certain time, or the two parts of a round of the
      client task: receiving (1403), and expiry and retransmission (1409-1431). */
  datatype Step =
    | PublishStep(topic: seq<byte>, data: Option<seq<byte>>, len: int, qos: nat, retain: bool, now: int)
    | EnqueueStep(topic: seq<byte>, data: Option<seq<byte>>, len: int, qos: nat, retain: bool, store: bool, now: int)
    | TaskStep(now: int, sinceLast: int)
    | ReceiveStep

  predicate Allowed(step: Step) {
    step.ReceiveStep? || step.TaskStep? || Sensible(step.topic, step.data, step.len, step.qos)
  }

  /** What has come of a step. A packet that costs the connection has been delivered
      (got) or broken off. */
  datatype Happening =
    | Nothing
    | TurnedAway(took: bool)                                // refused, maybe after taking an identifier
    | Published(item: Item, got: bool, ret: int)            // got: there was memory to store it
    | Enqueued(item: Item, got: bool)
    | Served(now: int, sinceLast: int, written: bool)
    | Received(packet: seq<byte>)
    | Broken(packet: seq<byte>, got: bool)

  /** The outbox and the reports about what was in it; whether there is a connection;
      whether the outbound message is empty; the identifier given out last. */
  datatype Books = Books(items: seq<Item>, events: seq<Event>, online: bool, empty: bool, lastId: nat)

  /** Whether deletions are reported, and the size of the output buffer. */
  datatype Setup = Setup(reported: bool, capacity: nat)

  /** The item for this message, with the next identifier above quality of service 0. */
  predicate IsCopy(item: Item, step: Step, last: nat)
    requires step.PublishStep? || step.EnqueueStep?
  {
    var id := if step.qos > 0 then NextId(last) else 0;
    item == Copy(id, step.qos, PublishPacket(step.topic, Body(step.data), step.qos, step.retain, id), step.now)
  }

  predicate Takes(step: Step, capacity: nat)
    requires step.PublishStep? || step.EnqueueStep?
  {
    TakesId(step.topic, step.data, step.len, step.qos, capacity)
  }

  predicate IsRefused(step: Step, capacity: nat)
    requires step.PublishStep? || step.EnqueueStep?
  {
    Refused(step.topic, step.data, step.len, step.qos, capacity)
  }

  /** The outbound message is empty after a packet with this first byte. */
  predicate EmptyAfter(empty: bool, first: byte, capacity: nat) {
    if ReplyKind(first) == 0 then empty else capacity < FIXED + 2
  }

  /** There is nothing to be sent again. */
  predicate NoneDue(items: seq<Item>, now: int, sinceLast: int) {
    DueNext(items, now, sinceLast).0 >= |items|
  }

  /** What can come of a step, given the books before it. Once it has been delivered, a
      packet costs the connection over an empty outbound message, or over an answer to a
      PUBLISH that cannot be written. */
  predicate Explains(step: Step, b: Books, did: Happening, s: Setup) {
    match step
    case PublishStep(_, _, _, qos, _, _) =>
      if IsRefused(step, s.capacity) then did == TurnedAway(Takes(step, s.capacity))
      else
        && did.Published? && IsCopy(did.item, step, b.lastId) && (did.got ==> qos > 0)
        && (did.ret == did.item.id || (b.online && did.ret == -1))
    case EnqueueStep(_, _, _, qos, _, store, _) =>
      if IsRefused(step, s.capacity) then did == TurnedAway(Takes(step, s.capacity))
      else did.Enqueued? && IsCopy(did.item, step, b.lastId) && (did.got ==> qos > 0 || store)
    case TaskStep(now, sinceLast) =>
      if b.online then
        && did.Served? && did.now == now && did.sinceLast == sinceLast
        && (NoneDue(Unexpired(b.items, s.reported, now, EXPIRED_TIMEOUT), now, sinceLast) ==> did.written)
      else did == Nothing
    case ReceiveStep =>
      || did == Nothing
      || (b.online && did.Received? && did.packet != [] && Welcome(did.packet[0], b.empty, s.capacity))
      || (b.online && did.Broken? && did.packet != []
          && (did.got ==>
                !Welcome(did.packet[0], b.empty, s.capacity)
                || (TypeOf(did.packet[0]) == PUBLISH && ReplyKind(did.packet[0]) != 0)))
  }

  predicate Welcome(first: byte, empty: bool, capacity: nat) {
    LengthMatters(first) ==> !EmptyAfter(empty, first, capacity)
  }

  /** Offline a call of publish drops what has expired, online its message waits from now on. */
  function AfterCall(items: seq<Item>, item: Item, online: bool, ret: int, reported: bool): seq<Item> {
    if !online then Unexpired(items, reported, item.tick, EXPIRED_TIMEOUT)
    else if ret >= 0 && item.qos > 0 then Marked(Ticked(items, item.id, item.tick), item.id, Transmitted)
    else items
  }

  ghost function Next(b: Books, did: Happening, s: Setup): Books {
    match did
    case Nothing => b
    case TurnedAway(took) => b.(empty := true, lastId := NextIf(took, b.lastId))
    case Enqueued(item, got) =>
      b.(items := Added(b.items, item, got), empty := false, lastId := NextIf(item.qos > 0, b.lastId))
    case Published(item, got, ret) =>
      Books(AfterCall(Added(b.items, item, got), item, b.online, ret, s.reported), b.events, b.online && ret >= 0,
            false, NextIf(item.qos > 0, b.lastId))
    case Served(now, sinceLast, written) =>
      NextServed(b, Unexpired(b.items, s.reported, now, EXPIRED_TIMEOUT), now, sinceLast, written)
    case Received(f) =>
      if f == [] then b
      else
        Books(Settled(b.items, f[0], PacketId(f)), Reported(b.events, b.items, f[0], PacketId(f)), b.online,
              EmptyAfter(b.empty, f[0], s.capacity), LastAfter(b.lastId, f[0], PacketId(f)))
    case Broken(f, got) =>
      if !got || f == [] then b.(online := false)
      else
        b.(online := false, empty := EmptyAfter(b.empty, f[0], s.capacity),
           lastId := LastAfter(b.lastId, f[0], PacketId(f)))
  }

  function NextIf(taken: bool, last: nat): nat {
    if taken then NextId(last) else last
  }

  /** What is sent again is the outbound message from then on. */
  function NextServed(b: Books, left: seq<Item>, now: int, sinceLast: int, written: bool): Books {
    b.(items := Retransmitted(left, now, sinceLast, written), online := b.online && written,
       empty := if NoneDue(left, now, sinceLast) then b.empty
                else Duped(left, DueNext(left, now, sinceLast).0)[DueNext(left, now, sinceLast).0].bytes == [])
  }

  ghost function After(b: Books, log: seq<Happening>, s: Setup): Books {
    if log == [] then b else Next(After(b, log[..|log| - 1], s), log[|log| - 1], s)
  }

  lemma AfterSnoc(b: Books, log: seq<Happening>, did: Happening, s: Setup)
    ensures After(b, log + [did], s) == Next(After(b, log, s), did, s)
  {
    assert (log + [did])[..|log|] == log;
  }

  /** Each entry of the log is what can come of the step in its place. */
  ghost predicate Explained(b: Books, steps: seq<Step>, log: seq<Happening>, s: Setup) {
    && |log| <= |steps|
    && forall k {:trigger log[k]} :: 0 <= k < |log| ==> Explains(steps[k], After(b, log[..k], s), log[k], s)
  }

  lemma ExplainedNext(b: Books, steps: seq<Step>, log: seq<Happening>, did: Happening, s: Setup)
    requires Explained(b, steps, log, s) && |log| < |steps| && Explains(steps[|log|], After(b, log, s), did, s)
    ensures Explained(b, steps, log + [did], s)
  {
    var more := log + [did];
    forall k | 0 <= k < |more| ensures Explains(steps[k], After(b, more[..k], s), more[k], s) {
      assert more[..k] == log[..k];
      assert k == |log| ==> log[..k] == log;
    }
  }

  function Packets(log: seq<Happening>): seq<seq<byte>> {
    if log == [] then []
    else
      var front, did := Packets(log[..|log| - 1]), log[|log| - 1];
      if did.Received? then front + [did.packet] else front
  }

  /** The packet that has cost the connection, if one has. */
  function BreakIn(log: seq<Happening>): (r: Happening)
    ensures r == Nothing || (r.Broken? && r in log)
  {
    if log == [] then Nothing
    else if log[|log| - 1].Broken? then log[|log| - 1]
    else BreakIn(log[..|log| - 1])
  }

  lemma LogSnoc(log: seq<Happening>, did: Happening)
    ensures Packets(log + [did]) == if did.Received? then Packets(log) + [did.packet] else Packets(log)
    ensures BreakIn(log + [did]) == if did.Broken? then did else BreakIn(log)
  {
    assert (log + [did])[..|log|] == log;
  }

  // ---- no more is reported than was stored ----

  /** What a step has added to the outbox, by identity. */
  ghost function StoredBy(did: Happening): multiset<Key> {
    if (did.Published? || did.Enqueued?) && did.got then multiset{KeyOf(did.item)} else multiset{}
  }

  /** An acknowledgement of a stored message takes one message of its identity away,
      and is reported once; any other acknowledgement does nothing. */
  lemma SettlesOne(items: seq<Item>, events: seq<Event>, first: byte, id: nat)
    requires SettledKind(first) != 0
    ensures var key: Key := (id, SettledKind(first));
      if Waits(items, id, SettledKind(first)) then
        && Keys(items) == Keys(Settled(items, first, id)) + multiset{key}
        && Reported(events, items, first, id) == events + [Event(key)]
      else Settled(items, first, id) == items && Reported(events, items, first, id) == events
  {
    var kind := SettledKind(first);
    FirstWaits(items, id, kind);
    var k := First(items, Matches(id, kind));
    if k < |items| {
      KeysRemove(items, k);
    }
  }

  lemma UnexpiredShrinks(items: seq<Item>, reported: bool, now: int)
    ensures Keys(Unexpired(items, reported, now, EXPIRED_TIMEOUT)) <= Keys(items)
  {
    KeysKept(items, now, EXPIRED_TIMEOUT);
    OneByOneShrinks(items, now, EXPIRED_TIMEOUT);
  }

  /** Exactly the messages stored more than 30 seconds ago are dropped; with a report of
      each, as long as their identifiers are not zero. */
  lemma OldAreGone(items: seq<Item>, reported: bool, now: int)
    requires reported ==> forall k :: 0 <= k < |items| ==> items[k].id != 0
    ensures forall item :: item in Unexpired(items, reported, now, EXPIRED_TIMEOUT)
                           <==> item in items && now - item.tick <= 30000
  {
    KeptFacts(items, now, EXPIRED_TIMEOUT);
    if reported {
      OneByOneIsAll(items, now, EXPIRED_TIMEOUT);
    }
  }

  lemma ResentShrinks(items: seq<Item>, at: nat, queued: bool, written: bool)
    requires at < |items|
    ensures Keys(Resent(items, at, queued, written)) <= Keys(items)
  {
    KeysDuped(items, at);
    var duped := Duped(items, at);
    KeysRemove(duped, at);
    var after := if items[at].kind == PUBLISH && items[at].qos == 0 then RemoveAt(duped, at) else duped;
    KeysMarked(after, items[at].id, Transmitted);
  }

  lemma RetransmittedShrinks(items: seq<Item>, now: int, sinceLast: int, written: bool)
    ensures Keys(Retransmitted(items, now, sinceLast, written)) <= Keys(items)
  {
    var (at, queued) := DueNext(items, now, sinceLast);
    if at < |items| {
      ResentShrinks(items, at, queued, written);
    }
  }

  lemma AddedKeys(items: seq<Item>, item: Item, got: bool)
    ensures Keys(Added(items, item, got)) == Keys(items) + if got then multiset{KeyOf(item)} else multiset{}
  {
    if got {
      KeysAdd(items, item);
    } else {
      assert items + [] == items;
    }
  }

  /** What a step reports and leaves was there before, or has been stored by it. */
  lemma NextConserves(b: Books, did: Happening, s: Setup)
    ensures var n := Next(b, did, s);
      EventKeys(n.events) + Keys(n.items) <= EventKeys(b.events) + Keys(b.items) + StoredBy(did)
  {
    if did.Received? {
      if did.packet != [] {
        SettledConserves(b.items, b.events, did.packet[0], PacketId(did.packet));
      }
    } else {
      ItemsConserve(b, did, s);
    }
  }

  lemma ItemsConserve(b: Books, did: Happening, s: Setup)
    requires !did.Received?
    ensures Keys(Next(b, did, s).items) <= Keys(b.items) + StoredBy(did)
  {
    match did
    case Nothing =>
    case TurnedAway(_) =>
    case Broken(_, _) =>
    case Enqueued(item, got) =>
      AddedKeys(b.items, item, got);
    case Published(item, got, ret) =>
      AddedKeys(b.items, item, got);
      SentShrinks(Added(b.items, item, got), item, b.online, ret, s.reported);
    case Served(now, sinceLast, written) =>
      UnexpiredShrinks(b.items, s.reported, now);
      RetransmittedShrinks(Unexpired(b.items, s.reported, now, EXPIRED_TIMEOUT), now, sinceLast, written);
  }

  lemma SentShrinks(items: seq<Item>, item: Item, online: bool, ret: int, reported: bool)
    ensures Keys(AfterCall(items, item, online, ret, reported)) <= Keys(items)
  {
    UnexpiredShrinks(items, reported, item.tick);
    KeysTicked(items, item.id, item.tick);
    KeysMarked(Ticked(items, item.id, item.tick), item.id, Transmitted);
  }

  lemma SettledConserves(items: seq<Item>, events: seq<Event>, first: byte, id: nat)
    ensures EventKeys(Reported(events, items, first, id)) + Keys(Settled(items, first, id))
         <= EventKeys(events) + Keys(items)
  {
    if SettledKind(first) != 0 {
      SettlesOne(items, events, first, id);
      assert (events + [Event((id, SettledKind(first)))])[..|events|] == events;
    } else {
      KeysMarked(items, id, Acknowledged);
    }
  }

  ghost function AllStored(log: seq<Happening>): multiset<Key> {
    if log == [] then multiset{} else AllStored(log[..|log| - 1]) + StoredBy(log[|log| - 1])
  }

  /** Over any log: no more reports and messages of an identity than have been stored. */
  lemma {:induction false} LogConserves(b: Books, log: seq<Happening>, s: Setup)
    ensures var n := After(b, log, s);
      EventKeys(n.events) + Keys(n.items) <= EventKeys(b.events) + Keys(b.items) + AllStored(log)
    decreases |log|
  {
    if log != [] {
      var front := log[..|log| - 1];
      LogConserves(b, front, s);
      NextConserves(After(b, front, s), log[|log| - 1], s);
    }
  }

  /** There is one message of this identity only. */
  ghost predicate Unique(b: Books, log: seq<Happening>, key: Key) {
    (EventKeys(b.events) + Keys(b.items) + AllStored(log))[key] == 1
  }

  /** When it has been reported, it was reported exactly once and is stored no more. */
  lemma ReportedOnce(b: Books, log: seq<Happening>, s: Setup, key: Key)
    requires Unique(b, log, key) && EventKeys(After(b, log, s).events)[key] > 0
    ensures EventKeys(After(b, log, s).events)[key] == 1
    ensures !Waits(After(b, log, s).items, key.0, key.1)
  {
    LogConserves(b, log, s);
    var items := After(b, log, s).items;
    forall k | 0 <= k < |items| ensures KeyOf(items[k]) != key {
      assert KeySeq(items)[k] in KeySeq(items);
    }
  }

  // ---- what is acknowledged is reported ----

  /** A packet that acknowledges messages of this identity. */
  predicate Acknowledges(did: Happening, key: Key) {
    && did.Received? && did.packet != [] && SettledKind(did.packet[0]) != 0
    && (PacketId(did.packet), SettledKind(did.packet[0])) == key
  }

  /** How often a message of this identity was acknowledged while one was stored. */
  ghost function Acks(b: Books, log: seq<Happening>, s: Setup, key: Key): nat {
    if log == [] then 0
    else
      var front, did := log[..|log| - 1], log[|log| - 1];
      Acks(b, front, s, key)
        + if Acknowledges(did, key) && Waits(After(b, front, s).items, key.0, key.1) then 1 else 0
  }

  /** Over any log the reports are these acknowledgements, and no others. */
  lemma {:induction false} ReportsAreAcks(b: Books, log: seq<Happening>, s: Setup, key: Key)
    ensures EventKeys(After(b, log, s).events)[key] == EventKeys(b.events)[key] + Acks(b, log, s, key)
  {
    if log != [] {
      var front, did := log[..|log| - 1], log[|log| - 1];
      ReportsAreAcks(b, front, s, key);
      ReportNext(After(b, front, s), did, s, key);
    }
  }

  lemma ReportNext(b: Books, did: Happening, s: Setup, key: Key)
    ensures EventKeys(Next(b, did, s).events)[key]
         == EventKeys(b.events)[key] + if Acknowledges(did, key) && Waits(b.items, key.0, key.1) then 1 else 0
  {
    if did.Received? && did.packet != [] {
      ReportOf(b.items, b.events, did.packet[0], PacketId(did.packet), key);
    }
  }

  lemma ReportOf(items: seq<Item>, events: seq<Event>, first: byte, id: nat, key: Key)
    ensures EventKeys(Reported(events, items, first, id))[key]
         == EventKeys(events)[key]
            + if SettledKind(first) != 0 && (id, SettledKind(first)) == key && Waits(items, key.0, key.1) then 1 else 0
  {
    if SettledKind(first) != 0 {
      SettlesOne(items, events, first, id);
      assert (events + [Event((id, SettledKind(first)))])[..|events|] == events;
    }
  }

  // ---- a message above quality of service 0 stays until then, unless it expires ----

  /** A message of this identity, above quality of service 0 and stored at this time or
      later. */
  predicate IsKept(item: Item, key: Key, since: int) {
    KeyOf(item) == key && item.qos > 0 && item.tick >= since
  }

  ghost predicate Keeps(items: seq<Item>, key: Key, since: int) {
    exists k :: 0 <= k < |items| && IsKept(items[k], key, since)
  }

  lemma KeepsWithout(items: seq<Item>, j: nat, key: Key, since: int)
    requires j < |items| && Keeps(items, key, since) && !IsKept(items[j], key, since)
    ensures Keeps(RemoveAt(items, j), key, since)
  {
    var k :| 0 <= k < |items| && IsKept(items[k], key, since);
    var rest := RemoveAt(items, j);
    assert rest[if k < j then k else k - 1] == items[k];
  }

  /** Changes in place. */
  lemma KeepsChanged(items: seq<Item>, after: seq<Item>, key: Key, since: int)
    requires Keeps(items, key, since) && |after| == |items|
    requires forall k :: 0 <= k < |items| && IsKept(items[k], key, since) ==> IsKept(after[k], key, since)
    ensures Keeps(after, key, since)
  {
    var k :| 0 <= k < |items| && IsKept(items[k], key, since);
    assert IsKept(after[k], key, since);
  }

  lemma {:induction false} KeepsOneByOne(items: seq<Item>, now: int, timeout: int, key: Key, since: int)
    requires Keeps(items, key, since) && now - since <= timeout
    ensures Keeps(OneByOne(items, now, timeout).0, key, since)
    decreases |items|
  {
    var k := First(items, IsExpired(now, timeout));
    if k < |items| {
      KeepsWithout(items, k, key, since);
      KeepsOneByOne(RemoveAt(items, k), now, timeout, key, since);
    }
  }

  lemma KeepsUnexpired(items: seq<Item>, reported: bool, now: int, key: Key, since: int)
    requires Keeps(items, key, since) && now - since <= EXPIRED_TIMEOUT
    ensures Keeps(Unexpired(items, reported, now, EXPIRED_TIMEOUT), key, since)
  {
    if reported {
      KeepsOneByOne(items, now, EXPIRED_TIMEOUT, key, since);
    } else {
      var k :| 0 <= k < |items| && IsKept(items[k], key, since);
      KeptFacts(items, now, EXPIRED_TIMEOUT);
      assert items[k] in Kept(items, now, EXPIRED_TIMEOUT);
    }
  }

  lemma KeepsResent(items: seq<Item>, at: nat, queued: bool, written: bool, key: Key, since: int)
    requires at < |items| && Keeps(items, key, since)
    ensures Keeps(Resent(items, at, queued, written), key, since)
  {
    var duped := Duped(items, at);
    KeepsChanged(items, duped, key, since);
    var after := duped;
    if items[at].kind == PUBLISH && items[at].qos == 0 {
      KeepsWithout(duped, at, key, since);
      after := RemoveAt(duped, at);
    }
    KeepsChanged(after, Marked(after, items[at].id, Transmitted), key, since);
  }

  lemma KeepsRetransmitted(items: seq<Item>, now: int, sinceLast: int, written: bool, key: Key, since: int)
    requires Keeps(items, key, since)
    ensures Keeps(Retransmitted(items, now, sinceLast, written), key, since)
  {
    var (at, queued) := DueNext(items, now, sinceLast);
    if at < |items| {
      KeepsResent(items, at, queued, written, key, since);
    }
  }

  lemma KeepsAdded(items: seq<Item>, item: Item, got: bool, key: Key, since: int)
    requires Keeps(items, key, since) || (got && IsKept(item, key, since))
    ensures Keeps(Added(items, item, got), key, since)
  {
    var after := Added(items, item, got);
    if Keeps(items, key, since) {
      var k :| 0 <= k < |items| && IsKept(items[k], key, since);
      assert after[k] == items[k];
    } else {
      assert after[|items|] == item;
    }
  }

  lemma KeepsCalled(items: seq<Item>, item: Item, online: bool, ret: int, reported: bool, key: Key, since: int)
    requires Keeps(items, key, since) && since <= item.tick <= since + EXPIRED_TIMEOUT
    ensures Keeps(AfterCall(items, item, online, ret, reported), key, since)
  {
    if !online {
      KeepsUnexpired(items, reported, item.tick, key, since);
    } else {
      var ticked := Ticked(items, item.id, item.tick);
      KeepsChanged(items, ticked, key, since);
      KeepsChanged(ticked, Marked(ticked, item.id, Transmitted), key, since);
    }
  }

  lemma KeepsSettled(items: seq<Item>, first: byte, id: nat, key: Key, since: int)
    requires Keeps(items, key, since) && (SettledKind(first) == 0 || (id, SettledKind(first)) != key)
    ensures Keeps(Settled(items, first, id), key, since)
  {
    if SettledKind(first) != 0 {
      var k := First(items, Matches(id, SettledKind(first)));
      if k < |items| {
        KeepsWithout(items, k, key, since);
      }
    } else {
      KeepsChanged(items, Marked(items, id, Acknowledged), key, since);
    }
  }

  /** Whatever looks at the clock does so before a message of that time has expired. */
  predicate Timely(did: Happening, since: int) {
    && (did.Published? ==> since <= did.item.tick <= since + EXPIRED_TIMEOUT)
    && (did.Served? ==> did.now <= since + EXPIRED_TIMEOUT)
  }

  lemma KeepsNext(b: Books, did: Happening, s: Setup, key: Key, since: int)
    requires Keeps(b.items, key, since)
      || ((did.Published? || did.Enqueued?) && did.got && IsKept(did.item, key, since))
    requires !Acknowledges(did, key) && Timely(did, since)
    ensures Keeps(Next(b, did, s).items, key, since)
  {
    match did
    case Nothing =>
    case TurnedAway(_) =>
    case Broken(_, _) =>
    case Enqueued(item, got) =>
      KeepsAdded(b.items, item, got, key, since);
    case Published(item, got, ret) =>
      KeepsAdded(b.items, item, got, key, since);
      KeepsCalled(Added(b.items, item, got), item, b.online, ret, s.reported, key, since);
    case Served(now, sinceLast, written) =>
      KeepsUnexpired(b.items, s.reported, now, key, since);
      KeepsRetransmitted(Unexpired(b.items, s.reported, now, EXPIRED_TIMEOUT), now, sinceLast, written, key, since);
    case Received(f) =>
      if f != [] {
        KeepsSettled(b.items, f[0], PacketId(f), key, since);
      }
  }

  /** A message of this identity has been stored by entry n, with this time. */
  predicate StoredAt(log: seq<Happening>, n: nat, key: Key, since: int) {
    n < |log| && (log[n].Published? || log[n].Enqueued?) && log[n].got && IsKept(log[n].item, key, since)
  }

  /** It stays, unless it is acknowledged, as long as it cannot have expired. */
  lemma {:induction false} KeptOrReported(b: Books, log: seq<Happening>, s: Setup, key: Key, since: int, n: nat)
    requires StoredAt(log, n, key, since) && forall k :: n <= k < |log| ==> Timely(log[k], since)
    ensures Keeps(After(b, log, s).items, key, since) || EventKeys(After(b, log, s).events)[key] > 0
    ensures (forall k :: n < k < |log| ==> !Acknowledges(log[k], key)) ==> Keeps(After(b, log, s).items, key, since)
    decreases |log|
  {
    var front, did := log[..|log| - 1], log[|log| - 1];
    var before := After(b, front, s);
    if n < |front| {
      KeptOrReported(b, front, s, key, since, n);
      ReportNext(before, did, s, key);
    }
    if Acknowledges(did, key) {
      if Keeps(before.items, key, since) {
        KeepsIsWaiting(before.items, key, since);
      }
    } else if n == |front| || Keeps(before.items, key, since) {
      KeepsNext(before, did, s, key, since);
    }
  }

  lemma KeepsIsWaiting(items: seq<Item>, key: Key, since: int)
    requires Keeps(items, key, since)
    ensures Waits(items, key.0, key.1)
  {
    var k :| 0 <= k < |items| && IsKept(items[k], key, since);
    assert KeyOf(items[k]) == (key.0, key.1);
  }

  lemma {:induction false} ReportsStay(b: Books, log: seq<Happening>, s: Setup, key: Key, m: nat)
    requires m <= |log|
    ensures EventKeys(After(b, log[..m], s).events)[key] <= EventKeys(After(b, log, s).events)[key]
    decreases |log|
  {
    if m < |log| {
      var front := log[..|log| - 1];
      assert front[..m] == log[..m];
      ReportsStay(b, front, s, key, m);
      ReportNext(After(b, front, s), log[|log| - 1], s, key);
    } else {
      assert log[..m] == log;
    }
  }

  /** A message that was stored by entry n and acknowledged by entry m, before it could
      expire: it is reported. */
  lemma AcknowledgedIsReported(b: Books, log: seq<Happening>, s: Setup, key: Key, since: int, n: nat, m: nat)
    requires n < m < |log| && StoredAt(log, n, key, since) && Acknowledges(log[m], key)
    requires forall k :: n <= k < m ==> Timely(log[k], since)
    ensures EventKeys(After(b, log, s).events)[key] > 0
  {
    var front, more := log[..m], log[..m + 1];
    assert more[..m] == front && more[m] == log[m];
    KeptOrReported(b, front, s, key, since, n);
    AckReports(After(b, front, s), log[m], s, key, since);
    ReportsStay(b, log, s, key, m + 1);
  }

  lemma AckReports(b: Books, did: Happening, s: Setup, key: Key, since: int)
    requires (Keeps(b.items, key, since) || EventKeys(b.events)[key] > 0) && Acknowledges(did, key)
    ensures EventKeys(Next(b, did, s).events)[key] > 0
  {
    ReportNext(b, did, s, key);
    if Keeps(b.items, key, since) {
      KeepsIsWaiting(b.items, key, since);
    }
  }

  // ---- identifiers ----

  /** A step that has taken an identifier: a message above quality of service 0, or an
      answer to the identifier zero. */
  predicate TookId(did: Happening) {
    match did
    case TurnedAway(took) => took
    case Published(item, _, _) => item.qos > 0
    case Enqueued(item, _) => item.qos > 0
    case Received(f) => f != [] && ReplyKind(f[0]) != 0 && PacketId(f) == 0
    case Broken(f, got) => got && f != [] && ReplyKind(f[0]) != 0 && PacketId(f) == 0
    case _ => false
  }

  /** How many identifiers have been taken. */
  function IdsTaken(log: seq<Happening>): nat {
    if log == [] then 0 else IdsTaken(log[..|log| - 1]) + if TookId(log[|log| - 1]) then 1 else 0
  }

  lemma {:induction false} LastIdIs(b: Books, log: seq<Happening>, s: Setup)
    ensures After(b, log, s).lastId == IdAfter(b.lastId, IdsTaken(log))
  {
    if log != [] {
      LastIdIs(b, log[..|log| - 1], s);
    }
  }

  lemma {:induction false} TakenGrow(log: seq<Happening>, k: nat)
    requires k <= |log|
    ensures IdsTaken(log[..k]) <= IdsTaken(log)
    decreases |log|
  {
    if k < |log| {
      var front := log[..|log| - 1];
      assert front[..k] == log[..k];
      TakenGrow(front, k);
    } else {
      assert log[..k] == log;
    }
  }

  /** A message above quality of service 0 that a call was made with. */
  predicate IsMessage(did: Happening) {
    (did.Published? || did.Enqueued?) && did.item.qos > 0
  }

  lemma IdIs(b: Books, steps: seq<Step>, log: seq<Happening>, s: Setup, k: nat)
    requires Explained(b, steps, log, s) && k < |log| && IsMessage(log[k])
    ensures log[k].item.id == IdAfter(b.lastId, IdsTaken(log[..k + 1]))
    ensures IdsTaken(log[..k + 1]) == IdsTaken(log[..k]) + 1
  {
    assert Explains(steps[k], After(b, log[..k], s), log[k], s);
    assert log[..k + 1][..k] == log[..k];
    LastIdIs(b, log[..k], s);
  }

  /** Two messages have different identifiers, unless 65535 have been taken from the
      first to the second. */
  lemma MessagesDiffer(b: Books, steps: seq<Step>, log: seq<Happening>, s: Setup, i: nat, j: nat)
    requires Explained(b, steps, log, s) && b.lastId < 65536 && i < j < |log| && IsMessage(log[i]) && IsMessage(log[j])
    requires IdsTaken(log[..j + 1]) - IdsTaken(log[..i + 1]) < 65535
    ensures log[i].item.id != log[j].item.id && log[i].item.id > 0
  {
    IdIs(b, steps, log, s, i);
    IdIs(b, steps, log, s, j);
    assert log[..j][..i + 1] == log[..i + 1];
    TakenGrow(log[..j], i + 1);
    IdsDiffer(b.lastId, IdsTaken(log[..i + 1]), IdsTaken(log[..j + 1]));
  }

  lemma {:induction false} StoredByOne(log: seq<Happening>, key: Key, n: nat)
    requires forall k :: 0 <= k < |log| && k != n ==> StoredBy(log[k])[key] == 0
    ensures AllStored(log)[key] == if n < |log| then StoredBy(log[n])[key] else 0
  {
    if log != [] {
      var front, did := log[..|log| - 1], log[|log| - 1];
      StoredByOne(front, key, n);
      assert AllStored(log) == AllStored(front) + StoredBy(did);
    }
  }

  /** So in a run that begins with an empty outbox and takes fewer than 65536 identifiers,
      no two messages share one. */
  lemma NewIsUnique(b: Books, steps: seq<Step>, log: seq<Happening>, s: Setup, n: nat)
    requires b.items == [] && b.events == [] && b.lastId < 65536
    requires Explained(b, steps, log, s) && IdsTaken(log) < 65536
    requires n < |log| && IsMessage(log[n]) && log[n].got
    ensures Unique(b, log, KeyOf(log[n].item))
  {
    var key := KeyOf(log[n].item);
    forall k | 0 <= k < |log| && k != n ensures StoredBy(log[k])[key] == 0 {
      if (log[k].Published? || log[k].Enqueued?) && log[k].got {
        OtherIdentity(b, steps, log, s, n, k);
      }
    }
    StoredByOne(log, key, n);
    assert KeySeq([]) == [];
  }

  lemma OtherIdentity(b: Books, steps: seq<Step>, log: seq<Happening>, s: Setup, n: nat, k: nat)
    requires b.lastId < 65536 && Explained(b, steps, log, s) && IdsTaken(log) < 65536
    requires n < |log| && IsMessage(log[n]) && k < |log| && k != n && (log[k].Published? || log[k].Enqueued?)
    ensures log[k].item.id != log[n].item.id
  {
    if log[k].item.qos == 0 {
      NoIdentity(b, steps, log, s, k);
      IdIs(b, steps, log, s, n);
      IdAfterIs(b.lastId, IdsTaken(log[..n + 1]));
    } else if k < n {
      InOneRound(b, steps, log, s, k, n);
    } else {
      InOneRound(b, steps, log, s, n, k);
    }
  }

  lemma NoIdentity(b: Books, steps: seq<Step>, log: seq<Happening>, s: Setup, k: nat)
    requires Explained(b, steps, log, s) && k < |log| && (log[k].Published? || log[k].Enqueued?) && log[k].item.qos == 0
    ensures log[k].item.id == 0
  {
    assert Explains(steps[k], After(b, log[..k], s), log[k], s);
  }

  lemma InOneRound(b: Books, steps: seq<Step>, log: seq<Happening>, s: Setup, i: nat, j: nat)
    requires b.lastId < 65536 && Explained(b, steps, log, s) && IdsTaken(log) < 65536
    requires i < j < |log| && IsMessage(log[i]) && IsMessage(log[j])
    ensures log[i].item.id != log[j].item.id
  {
    IdIs(b, steps, log, s, i);
    TakenGrow(log, j + 1);
    MessagesDiffer(b, steps, log, s, i, j);
  }

  // ---- in terms of the calls ----

  /** A call that stores its message above quality of service 0, when there is memory. */
  predicate Storing(step: Step, capacity: nat) {
    (step.PublishStep? || step.EnqueueStep?) && step.qos > 0 && !IsRefused(step, capacity)
  }

  /** Until then the clock has not gone back, nor on by more than the time a message is
      kept for. */
  predicate WithinTime(step: Step, since: int) {
    step.ReceiveStep? || since <= step.now <= since + 30000
  }

  /** Whatever else is called and received in between: a message above quality of service 0
      that call n has stored, and that packet m acknowledges within 30 seconds, leaves the
      outbox and is reported, exactly once. The identity is that of no other message. */
  lemma DeliveredOnce(b: Books, steps: seq<Step>, log: seq<Happening>, s: Setup, n: nat, m: nat)
    requires |log| == |steps| && Explained(b, steps, log, s) && n < m < |log|
    requires Storing(steps[n], s.capacity) && log[n].got
    requires Acknowledges(log[m], KeyOf(log[n].item)) && Unique(b, log, KeyOf(log[n].item))
    requires forall k :: n <= k < m ==> WithinTime(steps[k], steps[n].now)
    ensures var key := KeyOf(log[n].item);
      && EventKeys(After(b, log, s).events)[key] == 1
      && !Waits(After(b, log, s).items, key.0, key.1)
  {
    var key, since := KeyOf(log[n].item), steps[n].now;
    assert Explains(steps[n], After(b, log[..n], s), log[n], s);
    forall k | n <= k < m ensures Timely(log[k], since) {
      assert Explains(steps[k], After(b, log[..k], s), log[k], s);
    }
    AcknowledgedIsReported(b, log, s, key, since, n, m);
    ReportedOnce(b, log, s, key);
  }

  /** In a run that begins with an empty outbox and takes fewer than 65536 identifiers,
      this holds of every message. */
  lemma EachDeliveredOnce(b: Books, steps: seq<Step>, log: seq<Happening>, s: Setup, n: nat, m: nat)
    requires b.items == [] && b.events == [] && b.lastId < 65536 && IdsTaken(log) < 65536
    requires |log| == |steps| && Explained(b, steps, log, s) && n < m < |log|
    requires Storing(steps[n], s.capacity) && log[n].got && Acknowledges(log[m], KeyOf(log[n].item))
    requires forall k :: n <= k < m ==> WithinTime(steps[k], steps[n].now)
    ensures var key := KeyOf(log[n].item);
      && EventKeys(After(b, log, s).events)[key] == 1
      && !Waits(After(b, log, s).items, key.0, key.1)
  {
    assert Explains(steps[n], After(b, log[..n], s), log[n], s);
    NewIsUnique(b, steps, log, s, n);
    DeliveredOnce(b, steps, log, s, n, m);
  }

  /** And if no packet acknowledges it, it is not reported, and is still stored as long
      as it cannot have expired. */
  lemma StoredUntilThen(b: Books, steps: seq<Step>, log: seq<Happening>, s: Setup, n: nat)
    requires |log| == |steps| && Explained(b, steps, log, s) && n < |log|
    requires Storing(steps[n], s.capacity) && log[n].got && Unique(b, log, KeyOf(log[n].item))
    requires forall k :: n < k < |log| ==> !Acknowledges(log[k], KeyOf(log[n].item))
    requires forall k :: n <= k < |log| ==> WithinTime(steps[k], steps[n].now)
    ensures var key := KeyOf(log[n].item);
      && EventKeys(After(b, log, s).events)[key] == 0
      && Waits(After(b, log, s).items, key.0, key.1)
  {
    var key, since := KeyOf(log[n].item), steps[n].now;
    assert Explains(steps[n], After(b, log[..n], s), log[n], s);
    forall k | n <= k < |log| ensures Timely(log[k], since) {
      assert Explains(steps[k], After(b, log[..k], s), log[k], s);
    }
    KeptOrReported(b, log, s, key, since, n);
    KeepsIsWaiting(After(b, log, s).items, key, since);
    if EventKeys(After(b, log, s).events)[key] > 0 {
      ReportedOnce(b, log, s, key);
      assert false;
    }
  }

  /** The shortest such run, from an empty outbox: any message that is stored, and its
      PUBACK. */
  lemma PublishedAndAcknowledged(b: Books, step: Step, item: Item, s: Setup)
    requires b.items == [] && b.events == [] && b.online
    requires step.PublishStep? && Storing(step, s.capacity) && IsCopy(item, step, b.lastId)
    ensures item.id < 65536
    ensures var ack := [0x40, 2, item.id / 256, item.id % 256];
      var steps, log := [step, ReceiveStep], [Published(item, true, item.id), Received(ack)];
      && Explained(b, steps, log, s) && Unique(b, log, KeyOf(item)) && Acknowledges(log[1], KeyOf(item))
      && EventKeys(After(b, log, s).events)[KeyOf(item)] == 1
      && !Waits(After(b, log, s).items, item.id, PUBLISH)
  {
    var ack := [0x40, 2, item.id / 256, item.id % 256];
    var did, got := Published(item, true, item.id), Received(ack);
    assert PacketId(ack) == item.id;
    PublishedThenAcked(b, step, item, s, ack);
    StoredOnce(b, did, got);
    DeliveredOnce(b, [step, ReceiveStep], [did, got], s, 0, 1);
  }

  lemma PublishedThenAcked(b: Books, step: Step, item: Item, s: Setup, ack: seq<byte>)
    requires b.online && step.PublishStep? && Storing(step, s.capacity) && IsCopy(item, step, b.lastId)
    requires ack != [] && TypeOf(ack[0]) == PUBACK
    ensures Explained(b, [step, ReceiveStep], [Published(item, true, item.id), Received(ack)], s)
  {
    var did, got := Published(item, true, item.id), Received(ack);
    FirstEntry(b, step, item, s);
    SecondEntry(Next(b, did, s), ack, s);
    var log := [did, got];
    assert log[..0] == [] && log[..1] == [did] && [did][..0] == [];
    assert After(b, [did], s) == Next(After(b, [], s), did, s);
  }

  lemma FirstEntry(b: Books, step: Step, item: Item, s: Setup)
    requires b.online && step.PublishStep? && Storing(step, s.capacity) && IsCopy(item, step, b.lastId)
    ensures Explains(step, b, Published(item, true, item.id), s)
    ensures Next(b, Published(item, true, item.id), s).online
  {
  }

  lemma SecondEntry(b: Books, ack: seq<byte>, s: Setup)
    requires b.online && ack != [] && TypeOf(ack[0]) == PUBACK
    ensures Explains(ReceiveStep, b, Received(ack), s)
  {
  }

  /** The shortest run for each type of message, in the numbers of the packets: the one
      stored message, with this identifier, is reported and goes, or it stays unreported. */
  lemma AcknowledgedByType(b: Books, item: Item, first: byte, n: byte, more: seq<byte>, s: Setup)
    requires b.items == [item] && item.id < 65536 && item.kind < 256 && 0x40 <= first < 0xC0 && n < 128
    ensures var packet := [first, n, item.id / 256, item.id % 256] + more;
      var next := Next(b, Received(packet), s);
      if Settles(first, item.kind) then next.items == [] && next.events == b.events + [Event((item.id, item.kind))]
      else
        && next.events == b.events
        && next.items == [if 0x50 <= first < 0x60 then item.(pending := Acknowledged) else item]
  {
    var packet := [first, n, item.id / 256, item.id % 256] + more;
    assert PacketId(packet) == item.id;
    SettlesByType(item, b.events, first, item.id);
  }

  lemma StoredOnce(b: Books, did: Happening, next: Happening)
    requires b.items == [] && b.events == [] && did.Published? && did.got && next.Received?
    ensures Unique(b, [did, next], KeyOf(did.item))
  {
    assert [did, next][..1] == [did] && [did][..0] == [];
    assert AllStored([did]) == multiset{KeyOf(did.item)};
    assert AllStored([did, next]) == AllStored([did]) + multiset{};
    assert KeySeq([]) == [];
  }
}
