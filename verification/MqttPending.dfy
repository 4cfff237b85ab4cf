/** The client's pending counter against its outbox, over any run of the client task
    and of the calls made under the API lock. */
module MqttPending {
  import opened Common
  import opened MqttOutbox
  import opened MqttPacket

  /** SUBSCRIBED, UNSUBSCRIBED or PUBLISHED, for the message with this identity. */
  datatype Event = Event(key: Key)

  /** The DUP flag is set in the stored copy. */
  function Duped(items: seq<Item>, at: nat): seq<Item>
    requires at < |items|
  {
    if items[at].kind == PUBLISH && items[at].qos > 0 then items[at := items[at].(bytes := WithDup(items[at].bytes))]
    else items
  }

  /** What sending an item, again or for the first time, leaves of the list. */
  function Resent(items: seq<Item>, at: nat, queued: bool, written: bool): seq<Item>
    requires at < |items|
  {
    var duped := Duped(items, at);
    var after := if items[at].kind == PUBLISH && items[at].qos == 0 then RemoveAt(duped, at) else duped;
    if !written then duped else if queued then Marked(after, items[at].id, Transmitted) else after
  }

  lemma KeysDuped(items: seq<Item>, at: nat)
    requires at < |items|
    ensures Keys(Duped(items, at)) == Keys(items) && |Duped(items, at)| == |items|
    ensures NoneConfirmed(items) ==> NoneConfirmed(Duped(items, at))
  {
    assert KeySeq(Duped(items, at)) == KeySeq(items);
  }

  /** The place of the item to be sent, and whether it never was. Items never sent go
      first; then, at most once a second, the first of those that have waited for an
      acknowledgement for more than a second. */
  function DueNext(items: seq<Item>, now: int, sinceLast: int): (nat, bool) {
    var queued, waiting := First(items, IsPending(Queued)), First(items, IsPending(Transmitted));
    if queued < |items| then (queued, true)
    else if sinceLast > 1000 && waiting < |items| && now - items[waiting].tick > 1000 then (waiting, false)
    else (|items|, false)
  }

  /** In numbers: an item never sent goes first; otherwise, more than a second after the
      last retransmission, the first one that waits, if that has been for more than a
      second; and nothing else. */
  lemma DueNextIs(items: seq<Item>, now: int, sinceLast: int)
    ensures var (at, queued) := DueNext(items, now, sinceLast);
      && at <= |items|
      && (forall k :: 0 <= k < |items| && items[k].pending == Queued ==>
            queued && at <= k && items[at].pending == Queued)
      && (at < |items| && items[at].pending != Queued ==>
            && !queued && items[at].pending == Transmitted && sinceLast > 1000 && now - items[at].tick > 1000
            && forall j :: 0 <= j < at ==> items[j].pending != Transmitted)
      && (forall k ::
            0 <= k < |items| && at == |items| && items[k].pending == Transmitted ==>
            sinceLast <= 1000
            || exists j :: 0 <= j <= k && items[j].pending == Transmitted && now - items[j].tick <= 1000)
  {
    var queued, waiting := First(items, IsPending(Queued)), First(items, IsPending(Transmitted));
    forall k | 0 <= k < |items| ensures items[k].pending == Queued <==> IsPending(Queued)(items[k]) {
    }
    forall k | 0 <= k < |items| ensures items[k].pending == Transmitted <==> IsPending(Transmitted)(items[k]) {
    }
  }

  function Retransmitted(items: seq<Item>, now: int, sinceLast: int, written: bool): seq<Item> {
    var (at, queued) := DueNext(items, now, sinceLast);
    if at < |items| then Resent(items, at, queued, written) else items
  }

  /** An item that has been sent is not sent again within the second, and left alone,
      unless another one has its identifier. */
  lemma NotSentAgain(items: seq<Item>, k: nat, now: int, sinceLast: int, written: bool)
    requires k < |items| && items[k].pending == Transmitted && now - items[k].tick <= 1000
    requires forall j :: 0 <= j < |items| && j != k ==> items[j].id != items[k].id
    ensures DueNext(items, now, sinceLast).0 != k
    ensures items[k] in Retransmitted(items, now, sinceLast, written)
  {
    DueNextIs(items, now, sinceLast);
    var (at, queued) := DueNext(items, now, sinceLast);
    if at < |items| {
      var duped := Duped(items, at);
      assert duped[k] == items[k];
      var after, place := duped, k;
      if items[at].kind == PUBLISH && items[at].qos == 0 {
        after, place := RemoveAt(duped, at), if k < at then k else k - 1;
      }
      assert after[place] == items[k];
      assert Marked(after, items[at].id, Transmitted)[place] == items[k];
    }
  }

  /** What the removal of expired messages leaves, with and without a report of each. */
  function Unexpired(items: seq<Item>, reported: bool, now: int, timeout: int): seq<Item> {
    if reported then OneByOne(items, now, timeout).0 else Kept(items, now, timeout)
  }

  function EventKeys(events: seq<Event>): multiset<Key> {
    if events == [] then multiset{} else EventKeys(events[..|events| - 1]) + multiset{events[|events| - 1].key}
  }

  /** Every message ever stored has been acknowledged by exactly one event, or
      removed without one, or is still there. */
  ghost predicate Conserved(stored: multiset<Key>, events: seq<Event>, removed: multiset<Key>, items: seq<Item>) {
    stored == EventKeys(events) + removed + Keys(items)
  }

  lemma StoreConserves(stored: multiset<Key>, events: seq<Event>, removed: multiset<Key>, items: seq<Item>, item: Item)
    requires Conserved(stored, events, removed, items)
    ensures Conserved(stored + multiset{KeyOf(item)}, events, removed, items + [item])
  {
    KeysAdd(items, item);
  }

  lemma EventConserves(stored: multiset<Key>, events: seq<Event>, removed: multiset<Key>, items: seq<Item>, k: nat)
    requires Conserved(stored, events, removed, items) && k < |items|
    ensures Conserved(stored, events + [Event(KeyOf(items[k]))], removed, RemoveAt(items, k))
  {
    KeysRemove(items, k);
    assert (events + [Event(KeyOf(items[k]))])[..|events|] == events;
  }

  lemma RemovalConserves(stored: multiset<Key>, events: seq<Event>, removed: multiset<Key>, before: seq<Item>,
                         after: seq<Item>)
    requires Conserved(stored, events, removed, before) && Keys(after) <= Keys(before)
    ensures Conserved(stored, events, removed + (Keys(before) - Keys(after)), after)
  {
  }

  /** A message with this identity is stored. */
  ghost predicate Waits(items: seq<Item>, id: nat, kind: nat) {
    exists k :: 0 <= k < |items| && KeyOf(items[k]) == (id, kind)
  }

  lemma FirstWaits(items: seq<Item>, id: nat, kind: nat)
    ensures Waits(items, id, kind) <==> First(items, Matches(id, kind)) < |items|
    ensures Waits(items, id, kind) ==> KeyOf(items[First(items, Matches(id, kind))]) == (id, kind)
  {
    var k := First(items, Matches(id, kind));
    if k < |items| {
      assert KeyOf(items[k]) == (id, kind);
    }
    forall j | 0 <= j < |items| && KeyOf(items[j]) == (id, kind) ensures k < |items| {
      assert Matches(id, kind)(items[j]);
    }
  }

  class Client {
    const outbox: Outbox
    const reportDeleted: bool          // MQTT_REPORT_DELETED_MESSAGES
    var pendingCount: int
    var events: seq<Event>
    ghost var everStored: multiset<Key>
    ghost var removed: multiset<Key>   // taken out without an event
    ghost var uncounted: nat           // of these, how many the counter was not told about
    ghost var lost: nat                // counted, but there was no memory to store them

    constructor (reportDeleted: bool)
      ensures Valid() && pendingCount == 0 && events == [] && outbox.items == [] && fresh(outbox)
      ensures this.reportDeleted == reportDeleted
    {
      outbox := new Outbox();
      this.reportDeleted := reportDeleted;
      pendingCount, events := 0, [];
      everStored, removed, uncounted, lost := multiset{}, multiset{}, 0, 0;
    }

    /** Nothing is lost or reported twice, and the counter is the number of stored
        messages plus what it was never told about. */
    ghost predicate Valid()
      reads this, outbox
    {
      && Conserved(everStored, events, removed, outbox.items)
      && pendingCount == |outbox.items| + uncounted + lost
      && NoneConfirmed(outbox.items)
    }

    /** Subscribe, unsubscribe, and publish or enqueue of a message to be stored. */
    method Store(item: Item) returns (ok: bool)
      requires Valid()
      modifies this`pendingCount, this`everStored, this`lost, outbox
      ensures Valid() && pendingCount == old(pendingCount) + 1
      ensures outbox.items == old(outbox.items) + if ok then [item.(pending := Queued)] else []
      ensures everStored == old(everStored) + if ok then multiset{KeyOf(item)} else multiset{}
      ensures lost == old(lost) + if ok then 0 else 1
    {
      ghost var queued := item.(pending := Queued);
      StoreConserves(everStored, events, removed, outbox.items, queued);
      QueuedIsFine(outbox.items, queued);
      pendingCount := pendingCount + 1;
      ok := false;
      if pendingCount > 0 {
        ok := outbox.Enqueue(item);
      }
      if ok {
        everStored := everStored + multiset{KeyOf(queued)};
      } else {
        lost := lost + 1;
      }
    }

    lemma QueuedIsFine(items: seq<Item>, item: Item)
      requires NoneConfirmed(items) && item.pending == Queued
      ensures NoneConfirmed(items + [item]) && items + [] == items
    {
    }

    /** is_valid_mqtt_msg and the event that follows it. The zero test never
        rejects the acknowledgement of a stored message. */
    method Acknowledge(kind: nat, id: nat) returns (accepted: bool)
      requires Valid() && kind < 256
      modifies this`pendingCount, this`events, outbox
      ensures Valid()
      ensures accepted <==> Waits(old(outbox.items), id, kind)
      ensures accepted ==> First(old(outbox.items), Matches(id, kind)) < |old(outbox.items)|
      ensures accepted ==> outbox.items == RemoveAt(old(outbox.items), First(old(outbox.items), Matches(id, kind)))
      ensures accepted ==> events == old(events) + [Event((id, kind))] && pendingCount == old(pendingCount) - 1
      ensures !accepted ==>
        outbox.items == old(outbox.items) && events == old(events) && pendingCount == old(pendingCount)
    {
      ghost var k := First(outbox.items, Matches(id, kind));
      FirstWaits(outbox.items, id, kind);
      if pendingCount == 0 {
        return false;
      }
      if k < |outbox.items| {
        EventConserves(everStored, events, removed, outbox.items, k);
        RemoveAtShrinks(outbox.items, k);
      }
      accepted := outbox.Delete(id, kind);
      if accepted {
        pendingCount := pendingCount - 1;
        events := events + [Event((id, kind))];
      }
    }

    /** Book a removal without an event; `told` says of how many the counter knows. */
    ghost method Removed(before: seq<Item>, told: nat)
      requires Conserved(everStored, events, removed, before) && pendingCount == |before| - told + uncounted + lost
      requires Keys(outbox.items) <= Keys(before) && |outbox.items| + told <= |before| && NoneConfirmed(outbox.items)
      modifies this`removed, this`uncounted
      ensures Valid()
      ensures uncounted == old(uncounted) + (|before| - |outbox.items| - told)
    {
      RemovalConserves(everStored, events, removed, before, outbox.items);
      removed := removed + (Keys(before) - Keys(outbox.items));
      uncounted := uncounted + (|before| - |outbox.items| - told);
    }

    /** mqtt_delete_expired_messages. The counter goes down by what was counted as
        deleted: never below zero, so the correction at the end never applies. */
    method DeleteExpiredMessages(now: int, timeout: int)
      requires Valid()
      modifies this`pendingCount, this`removed, this`uncounted, outbox
      ensures Valid() && pendingCount >= 0
      ensures outbox.items == Unexpired(old(outbox.items), reportDeleted, now, timeout)
      ensures pendingCount == old(pendingCount)
        - (if reportDeleted then OneByOne(old(outbox.items), now, timeout).1 else |old(outbox.items)| - |outbox.items|)
    {
      ghost var items := outbox.items;
      var deleted := 0;
      if reportDeleted {
        OneByOneShrinks(items, now, timeout);
        deleted := DeleteReported(now, timeout);
      } else {
        KeptFacts(items, now, timeout);
        KeysKept(items, now, timeout);
        deleted := outbox.DeleteExpired(now, timeout);
      }
      pendingCount := Max(pendingCount - deleted, 0);
      Removed(items, deleted);
    }

    /** The loop that also reports each deletion (1322-1331). */
    method DeleteReported(now: int, timeout: int) returns (deleted: nat)
      modifies outbox
      ensures (outbox.items, deleted) == OneByOne(old(outbox.items), now, timeout)
    {
      ghost var items := outbox.items;
      deleted := 0;
      while true
        invariant OneByOne(items, now, timeout).0 == OneByOne(outbox.items, now, timeout).0
        invariant OneByOne(items, now, timeout).1 == deleted + OneByOne(outbox.items, now, timeout).1
        decreases |outbox.items|
      {
        var msgId := outbox.DeleteSingleExpired(now, timeout);
        if msgId <= 0 {
          break;
        }
        deleted := deleted + 1;
      }
    }

    /** What mqtt_resend_queued, and the client task around it (1419-1431), do to the
        outbox when the item at the given place is sent again: a message of quality of
        service 0 is forgotten, and the counter is not told. Above that its DUP flag is
        set, even if it has never been sent, and even if the write fails. */
    method Resend(at: nat, queued: bool, written: bool)
      requires Valid() && at < |outbox.items|
      modifies this`removed, this`uncounted, outbox
      ensures Valid()
      ensures outbox.items == Resent(old(outbox.items), at, queued, written)
    {
      KeysDuped(outbox.items, at);
      var item := outbox.items[at];
      outbox.items := Duped(outbox.items, at);
      if !written {
        return;
      }
      ghost var items := outbox.items;
      if item.kind == PUBLISH && item.qos == 0 {
        RemoveAtShrinks(items, at);
        outbox.DeleteItem(at);
        Removed(items, 0);
      }
      if queued {
        Mark(item.id, Transmitted);
      }
    }

    /** The choice of what to send again (1417-1431). */
    method NextToSend(now: int, sinceLast: int) returns (at: nat, queued: bool)
      ensures (at, queued) == DueNext(outbox.items, now, sinceLast)
    {
      at := outbox.Dequeue(Queued);
      queued := true;
      if at < |outbox.items| {
        return;
      }
      queued := false;
      if sinceLast > 1000 {
        at := outbox.Dequeue(Transmitted);
        if at < |outbox.items| && now - outbox.items[at].tick > 1000 {
          return;
        }
      }
      at := |outbox.items|;
    }

    /** One round of the retransmission part of the client task, as far as the outbox is
        concerned; `written` says whether the transport takes the message. */
    method Retransmit(now: int, sinceLast: int, written: bool)
      requires Valid()
      modifies this`removed, this`uncounted, outbox
      ensures Valid() && outbox.items == Retransmitted(old(outbox.items), now, sinceLast, written)
    {
      var at, queued := NextToSend(now, sinceLast);
      if at < |outbox.items| {
        Resend(at, queued, written);
      }
    }

    /** outbox_cleanup at the end of each round removes nothing. */
    method Cleanup(maxSize: int)
      requires Valid()
      modifies outbox
      ensures Valid() && outbox.items == old(outbox.items)
    {
      CleanupIsIdle(outbox.items, maxSize);
      var _ := outbox.Cleanup(maxSize);
    }

    /** The end of the client task: the outbox is emptied, the counter is not. */
    method StopTask()
      requires Valid()
      modifies this`removed, this`uncounted, outbox
      ensures Valid() && outbox.items == [] && uncounted == old(uncounted) + |old(outbox.items)|
    {
      ghost var items := outbox.items;
      outbox.DeleteAll();
      assert Keys([]) == multiset{};
      Removed(items, 0);
    }

    /** The mark of a PUBREC, and the others. */
    method Mark(id: nat, state: Pending)
      requires Valid() && !state.Confirmed?
      modifies outbox
      ensures Valid() && outbox.items == Marked(old(outbox.items), id, state)
    {
      KeysMarked(outbox.items, id, state);
      outbox.SetPending(id, state);
    }

    /** After a transmission: the first message with this identifier waits for its
        acknowledgement from now on; for a publish its time is set again as well. */
    method Sent(id: nat, isPublish: bool, now: int)
      requires Valid()
      modifies outbox
      ensures Valid()
      ensures outbox.items ==
        Marked(if isPublish then Ticked(old(outbox.items), id, now) else old(outbox.items), id, Transmitted)
    {
      if isPublish {
        KeysTicked(outbox.items, id, now);
        outbox.SetTick(id, now);
      }
      Mark(id, Transmitted);
    }

    /** One atomic step. */
    method Perform(a: Action) returns (accepted: bool)
      requires Valid()
      modifies this, outbox
      ensures Valid() && pendingCount >= |outbox.items|
      ensures accepted ==> a.AckAction? && events == old(events) + [Event((a.id, a.kind))]
      ensures !accepted ==> events == old(events)
    {
      accepted := false;
      match a {
        case StoreAction(item) => var _ := Store(item);
        case AckAction(kind, id) =>
          if kind == SUBSCRIBE || kind == UNSUBSCRIBE || kind == PUBLISH {
            accepted := Acknowledge(kind, id);
          }
        case ReceivedAction(id) => Mark(id, Acknowledged);
        case SentAction(id, isPublish, now) => Sent(id, isPublish, now);
        case ExpireAction(now, timeout) => DeleteExpiredMessages(now, timeout);
        case RetransmitAction(now, sinceLast, written) => Retransmit(now, sinceLast, written);
        case CleanupAction(maxSize) => Cleanup(maxSize);
        case StopAction => StopTask();
      }
    }

    /** Over any run, every event stands for one stored message of its own: for
        every identity, no more events than messages stored. */
    method Run(actions: seq<Action>)
      requires Valid()
      modifies this, outbox
      ensures Valid() && pendingCount >= |outbox.items|
      ensures EventKeys(events) <= everStored
    {
      for i := 0 to |actions|
        invariant Valid()
      {
        var _ := Perform(actions[i]);
      }
    }
  }

  datatype Action =
    | StoreAction(item: Item)
    | AckAction(kind: nat, id: nat)
    | ReceivedAction(id: nat)
    | SentAction(id: nat, isPublish: bool, now: int)
    | ExpireAction(now: int, timeout: int)
    | RetransmitAction(now: int, sinceLast: int, written: bool)
    | CleanupAction(maxSize: int)
    | StopAction
}
