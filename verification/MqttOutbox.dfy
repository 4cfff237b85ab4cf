/** The outbox of mqtt_outbox.c: finding, marking and deleting messages, their
    expiry, and the cleanup by size. */
module MqttOutbox {
  import opened Common

  datatype Pending = Queued | Transmitted | Acknowledged | Confirmed

  /** An outbox item, with its own copy of the message. */
  datatype Item = Item(id: nat, kind: nat, qos: nat, bytes: seq<byte>, tick: int, pending: Pending)

  // ---- lists of items ----

  function RemoveAt(items: seq<Item>, k: nat): seq<Item>
    requires k < |items|
  {
    items[..k] + items[k + 1..]
  }

  /** The first position from k on whose item satisfies p; the end if there is none. */
  function FirstFrom(items: seq<Item>, p: Item -> bool, k: nat): (r: nat)
    requires k <= |items|
    ensures k <= r <= |items|
    ensures forall j :: k <= j < r ==> !p(items[j])
    ensures r < |items| ==> p(items[r])
    decreases |items| - k
  {
    if k == |items| || p(items[k]) then k else FirstFrom(items, p, k + 1)
  }

  function First(items: seq<Item>, p: Item -> bool): nat {
    FirstFrom(items, p, 0)
  }

  lemma {:induction false} FirstFromIs(items: seq<Item>, p: Item -> bool, k: nat, r: nat)
    requires k <= r <= |items| && (forall j :: k <= j < r ==> !p(items[j])) && (r < |items| ==> p(items[r]))
    ensures FirstFrom(items, p, k) == r
    decreases r - k
  {
    if k < r {
      FirstFromIs(items, p, k + 1, r);
    }
  }

  lemma FirstIs(items: seq<Item>, p: Item -> bool, r: nat)
    requires r <= |items| && (forall j :: 0 <= j < r ==> !p(items[j])) && (r < |items| ==> p(items[r]))
    ensures First(items, p) == r
  {
    FirstFromIs(items, p, 0, r);
  }

  function Matches(id: nat, kind: nat): Item -> bool {
    (item: Item) => item.id == id && item.kind % 256 == kind
  }

  function HasId(id: nat): Item -> bool {
    (item: Item) => item.id == id
  }

  function IsPending(state: Pending): Item -> bool {
    (item: Item) => item.pending == state
  }

  predicate Expired(item: Item, now: int, timeout: int) {
    now - item.tick > timeout
  }

  function IsExpired(now: int, timeout: int): Item -> bool {
    (item: Item) => Expired(item, now, timeout)
  }

  /** The items that have not expired, in order. */
  function Kept(items: seq<Item>, now: int, timeout: int): seq<Item> {
    if items == [] then []
    else
      var last := items[|items| - 1];
      Kept(items[..|items| - 1], now, timeout) + if Expired(last, now, timeout) then [] else [last]
  }

  lemma {:induction false} KeptFacts(items: seq<Item>, now: int, timeout: int)
    ensures |Kept(items, now, timeout)| <= |items|
    ensures forall item :: item in Kept(items, now, timeout) <==> item in items && !Expired(item, now, timeout)
  {
    if items != [] {
      var n := |items| - 1;
      KeptFacts(items[..n], now, timeout);
      assert items == items[..n] + [items[n]];
    }
  }

  /** Looking at one more item of the list, with the expired ones before it gone. */
  lemma KeptStep(all: seq<Item>, m: nat, now: int, timeout: int)
    requires m < |all|
    ensures var kept, next := Kept(all[..m], now, timeout), Kept(all[..m + 1], now, timeout);
      var items := kept + all[m..];
      && items[|kept|] == all[m]
      && (if Expired(all[m], now, timeout) then |next| == |kept| && RemoveAt(items, |kept|) == next + all[m + 1..]
          else |next| == |kept| + 1 && items == next + all[m + 1..])
  {
    assert all[..m + 1][..m] == all[..m];
  }

  function TotalLen(items: seq<Item>): nat {
    if items == [] then 0 else TotalLen(items[..|items| - 1]) + |items[|items| - 1].bytes|
  }

  class Outbox {
    var items: seq<Item>

    constructor ()
      ensures items == []
    {
      items := [];
    }

    /** outbox_enqueue; it fails when there is no memory for the copy. */
    method Enqueue(item: Item) returns (ok: bool)
      modifies this
      ensures items == old(items) + if ok then [item.(pending := Queued)] else []
    {
      ok := *;
      items := items + if ok then [item.(pending := Queued)] else [];
    }

    /** outbox_get */
    method Get(id: nat) returns (at: nat)
      ensures at == First(items, HasId(id))
    {
      at := 0;
      while at < |items|
        invariant at <= |items| && forall j :: 0 <= j < at ==> items[j].id != id
      {
        if items[at].id == id {
          FirstIs(items, HasId(id), at);
          return;
        }
        at := at + 1;
      }
      FirstIs(items, HasId(id), at);
    }

    /** outbox_dequeue: the first item in the given state, which stays in the list. */
    method Dequeue(state: Pending) returns (at: nat)
      ensures at == First(items, IsPending(state))
    {
      at := 0;
      while at < |items|
        invariant at <= |items| && forall j :: 0 <= j < at ==> items[j].pending != state
      {
        if items[at].pending == state {
          FirstIs(items, IsPending(state), at);
          return;
        }
        at := at + 1;
      }
      FirstIs(items, IsPending(state), at);
    }

    /** outbox_delete */
    method Delete(id: nat, kind: nat) returns (ok: bool)
      modifies this
      ensures var k := First(old(items), Matches(id, kind));
        && ok == (k < |old(items)|)
        && items == if ok then RemoveAt(old(items), k) else old(items)
    {
      var k := 0;
      while k < |items|
        invariant k <= |items| && items == old(items)
        invariant forall j :: 0 <= j < k ==> !(items[j].id == id && items[j].kind % 256 == kind)
      {
        if items[k].id == id && items[k].kind % 256 == kind {
          FirstIs(items, Matches(id, kind), k);
          items := RemoveAt(items, k);
          return true;
        }
        k := k + 1;
      }
      FirstIs(items, Matches(id, kind), k);
      return false;
    }

    /** outbox_delete_item, for an item that is in the list. */
    method DeleteItem(at: nat)
      requires at < |items|
      modifies this
      ensures items == RemoveAt(old(items), at)
    {
      items := RemoveAt(items, at);
    }

    /** outbox_delete_all_items */
    method DeleteAll()
      modifies this
      ensures items == []
    {
      while |items| > 0
      {
        items := RemoveAt(items, 0);
      }
    }

    /** outbox_set_pending: only the first item with this identifier. */
    method SetPending(id: nat, state: Pending)
      modifies this
      ensures items == Marked(old(items), id, state)
    {
      var at := Get(id);
      if at < |items| {
        items := items[at := items[at].(pending := state)];
      }
    }

    /** outbox_set_tick: only the first item with this identifier. */
    method SetTick(id: nat, tick: int)
      modifies this
      ensures items == Ticked(old(items), id, tick)
    {
      var at := Get(id);
      if at < |items| {
        items := items[at := items[at].(tick := tick)];
      }
    }

    /** outbox_delete_single_expired */
    method DeleteSingleExpired(now: int, timeout: int) returns (msgId: int)
      modifies this
      ensures var k := First(old(items), IsExpired(now, timeout));
        if k < |old(items)| then msgId == old(items)[k].id && items == RemoveAt(old(items), k)
        else msgId == -1 && items == old(items)
    {
      var k := 0;
      while k < |items|
        invariant k <= |items| && items == old(items)
        invariant forall j :: 0 <= j < k ==> !Expired(items[j], now, timeout)
      {
        if now - items[k].tick > timeout {
          FirstIs(items, IsExpired(now, timeout), k);
          msgId := items[k].id;
          items := RemoveAt(items, k);
          return;
        }
        k := k + 1;
      }
      FirstIs(items, IsExpired(now, timeout), k);
      return -1;
    }

    /** outbox_delete_expired */
    method DeleteExpired(now: int, timeout: int) returns (deleted: nat)
      modifies this
      ensures items == Kept(old(items), now, timeout) && deleted == |old(items)| - |items|
    {
      deleted := 0;
      ghost var all, m := items, 0;
      var k := 0;
      while k < |items|
        invariant m <= |all| && m == k + deleted
        invariant items == Kept(all[..m], now, timeout) + all[m..] && k == |Kept(all[..m], now, timeout)|
        decreases |all| - m
      {
        KeptStep(all, m, now, timeout);
        if now - items[k].tick > timeout {
          items := RemoveAt(items, k);
          deleted := deleted + 1;
        } else {
          k := k + 1;
        }
        m := m + 1;
      }
      assert all[..m] == all;
    }

    /** outbox_get_size */
    method GetSize() returns (size: nat)
      ensures size == TotalLen(items)
    {
      size := 0;
      var k := 0;
      while k < |items|
        invariant k <= |items| && size == TotalLen(items[..k])
      {
        assert items[..k + 1][..k] == items[..k];
        size := size + |items[k].bytes|;
        k := k + 1;
      }
      assert items[..k] == items;
    }

    /** outbox_cleanup: as long as the outbox is too big, drop confirmed items. */
    method Cleanup(maxSize: int) returns (ok: bool)
      modifies this
      ensures items == Cleaned(old(items), maxSize)
      ensures Live(items) == Live(old(items)) && (ok <==> TotalLen(items) <= maxSize)
      ensures !ok ==> items == Live(old(items))
    {
      ok := true;
      CleanedKeepsLive(items, maxSize);
      while true
        invariant Cleaned(items, maxSize) == Cleaned(old(items), maxSize)
        decreases |items|
      {
        var size := GetSize();
        if size <= maxSize {
          return true;
        }
        var at := Dequeue(Confirmed);
        if at == |items| {
          return false;
        }
        items := RemoveAt(items, at);
      }
    }
  }

  function Marked(items: seq<Item>, id: nat, state: Pending): seq<Item> {
    var at := First(items, HasId(id));
    if at < |items| then items[at := items[at].(pending := state)] else items
  }

  function Ticked(items: seq<Item>, id: nat, tick: int): seq<Item> {
    var at := First(items, HasId(id));
    if at < |items| then items[at := items[at].(tick := tick)] else items
  }

  function Cleaned(items: seq<Item>, maxSize: int): (r: seq<Item>)
    decreases |items|
  {
    var at := First(items, IsPending(Confirmed));
    if TotalLen(items) <= maxSize || at == |items| then items
    else Cleaned(RemoveAt(items, at), maxSize)
  }

  /** The items that are not confirmed, in order. */
  function Live(items: seq<Item>): seq<Item> {
    if items == [] then []
    else Live(items[..|items| - 1]) + if items[|items| - 1].pending == Confirmed then [] else [items[|items| - 1]]
  }

  lemma {:induction false} LiveWithout(items: seq<Item>, k: nat)
    requires k < |items| && items[k].pending == Confirmed
    ensures Live(RemoveAt(items, k)) == Live(items)
  {
    var n := |items| - 1;
    if k == n {
      assert RemoveAt(items, k) == items[..n];
    } else {
      LiveWithout(items[..n], k);
      assert RemoveAt(items, k)[..n - 1] == RemoveAt(items[..n], k);
    }
  }

  lemma {:induction false} AllLive(items: seq<Item>)
    requires forall j :: 0 <= j < |items| ==> items[j].pending != Confirmed
    ensures Live(items) == items
  {
    if items != [] {
      var n := |items| - 1;
      AllLive(items[..n]);
      assert items == items[..n] + [items[n]];
    }
  }

  /** Only confirmed items go: all of them when that is still not enough. */
  lemma {:induction false} CleanedKeepsLive(items: seq<Item>, maxSize: int)
    ensures Live(Cleaned(items, maxSize)) == Live(items)
    ensures TotalLen(Cleaned(items, maxSize)) <= maxSize || Cleaned(items, maxSize) == Live(items)
    decreases |items|
  {
    var at := First(items, IsPending(Confirmed));
    if at == |items| {
      forall j | 0 <= j < |items| ensures items[j].pending != Confirmed {
        assert !IsPending(Confirmed)(items[j]);
      }
      AllLive(items);
    } else if TotalLen(items) > maxSize {
      LiveWithout(items, at);
      CleanedKeepsLive(RemoveAt(items, at), maxSize);
    }
  }

  /** Deleting expired items one by one, as long as the one deleted has a nonzero
      identifier: what is left, and how many deletions were counted. */
  function OneByOne(items: seq<Item>, now: int, timeout: int): (r: (seq<Item>, nat))
    ensures |r.0| <= |items|
    decreases |items|
  {
    var k := First(items, IsExpired(now, timeout));
    if k == |items| then (items, 0)
    else
      var rest := RemoveAt(items, k);
      if items[k].id == 0 then (rest, 0)
      else
        var (left, n) := OneByOne(rest, now, timeout);
        (left, n + 1)
  }

  lemma {:induction false} KeptConcat(a: seq<Item>, b: seq<Item>, now: int, timeout: int)
    ensures Kept(a + b, now, timeout) == Kept(a, now, timeout) + Kept(b, now, timeout)
  {
    if b == [] {
      assert a + b == a;
    } else {
      assert (a + b)[..|a + b| - 1] == a + b[..|b| - 1];
      KeptConcat(a, b[..|b| - 1], now, timeout);
    }
  }

  lemma {:induction false} KeptAll(items: seq<Item>, now: int, timeout: int)
    requires forall k :: 0 <= k < |items| ==> !Expired(items[k], now, timeout)
    ensures Kept(items, now, timeout) == items
  {
    if items != [] {
      KeptAll(items[..|items| - 1], now, timeout);
    }
  }

  /** When no stored message has identifier 0, the two ways of deleting expired
      messages remove the same ones, and every deletion is counted. */
  lemma {:induction false} OneByOneIsAll(items: seq<Item>, now: int, timeout: int)
    requires forall k :: 0 <= k < |items| ==> items[k].id != 0
    ensures OneByOne(items, now, timeout) == (Kept(items, now, timeout), |items| - |Kept(items, now, timeout)|)
    decreases |items|
  {
    var k := First(items, IsExpired(now, timeout));
    if k == |items| {
      KeptAll(items, now, timeout);
    } else {
      KeptWithout(items, k, now, timeout);
      OneByOneIsAll(RemoveAt(items, k), now, timeout);
    }
  }

  lemma KeptWithout(items: seq<Item>, k: nat, now: int, timeout: int)
    requires k < |items| && Expired(items[k], now, timeout)
    ensures Kept(RemoveAt(items, k), now, timeout) == Kept(items, now, timeout)
  {
    var front, back := items[..k + 1], items[k + 1..];
    assert items == front + back;
    KeptConcat(front, back, now, timeout);
    KeptConcat(items[..k], back, now, timeout);
    assert Kept(front, now, timeout) == Kept(items[..k], now, timeout) by {
      assert front[..|front| - 1] == items[..k] && front[|front| - 1] == items[k];
    }
  }

  // ---- what each change does to the identities of the stored messages ----

  type Key = (nat, nat)

  function KeyOf(item: Item): Key {
    (item.id, item.kind % 256)
  }

  function KeySeq(items: seq<Item>): (keys: seq<Key>)
    ensures |keys| == |items| && forall k :: 0 <= k < |items| ==> keys[k] == KeyOf(items[k])
  {
    seq(|items|, k requires 0 <= k < |items| => KeyOf(items[k]))
  }

  function Keys(items: seq<Item>): multiset<Key> {
    multiset(KeySeq(items))
  }

  lemma KeysAdd(items: seq<Item>, item: Item)
    ensures Keys(items + [item]) == Keys(items) + multiset{KeyOf(item)}
  {
    assert KeySeq(items + [item]) == KeySeq(items) + [KeyOf(item)];
  }

  lemma KeysRemove(items: seq<Item>, k: nat)
    requires k < |items|
    ensures Keys(items) == Keys(RemoveAt(items, k)) + multiset{KeyOf(items[k])}
  {
    var keys := KeySeq(items);
    assert keys == keys[..k] + [keys[k]] + keys[k + 1..];
    assert KeySeq(RemoveAt(items, k)) == keys[..k] + keys[k + 1..];
  }

  lemma KeysMarked(items: seq<Item>, id: nat, state: Pending)
    ensures Keys(Marked(items, id, state)) == Keys(items) && |Marked(items, id, state)| == |items|
  {
    assert KeySeq(Marked(items, id, state)) == KeySeq(items);
  }

  lemma KeysTicked(items: seq<Item>, id: nat, tick: int)
    ensures Keys(Ticked(items, id, tick)) == Keys(items) && |Ticked(items, id, tick)| == |items|
  {
    assert KeySeq(Ticked(items, id, tick)) == KeySeq(items);
  }

  lemma {:induction false} KeysKept(items: seq<Item>, now: int, timeout: int)
    ensures Keys(Kept(items, now, timeout)) <= Keys(items)
  {
    if items != [] {
      var n := |items| - 1;
      KeysKept(items[..n], now, timeout);
      KeysAdd(items[..n], items[n]);
      assert items[..n] + [items[n]] == items;
      if Expired(items[n], now, timeout) {
        assert Kept(items, now, timeout) == Kept(items[..n], now, timeout);
      } else {
        KeysAdd(Kept(items[..n], now, timeout), items[n]);
      }
    }
  }

  /** Nothing in the outbox is ever marked confirmed. */
  predicate NoneConfirmed(items: seq<Item>) {
    forall item :: item in items ==> !item.pending.Confirmed?
  }

  lemma RemoveAtShrinks(items: seq<Item>, k: nat)
    requires k < |items|
    ensures Keys(RemoveAt(items, k)) <= Keys(items) && |RemoveAt(items, k)| == |items| - 1
    ensures NoneConfirmed(items) ==> NoneConfirmed(RemoveAt(items, k))
  {
    KeysRemove(items, k);
  }

  lemma {:induction false} OneByOneShrinks(items: seq<Item>, now: int, timeout: int)
    ensures var (left, n) := OneByOne(items, now, timeout);
      Keys(left) <= Keys(items) && |left| + n <= |items| && (NoneConfirmed(items) ==> NoneConfirmed(left))
    decreases |items|
  {
    var k := First(items, IsExpired(now, timeout));
    if k < |items| {
      RemoveAtShrinks(items, k);
      OneByOneShrinks(RemoveAt(items, k), now, timeout);
    }
  }

  /** So the size limit never removes anything. */
  lemma CleanupIsIdle(items: seq<Item>, maxSize: int)
    requires NoneConfirmed(items)
    ensures Cleaned(items, maxSize) == items
  {
    var at := First(items, IsPending(Confirmed));
    assert forall k :: 0 <= k < |items| ==> items[k] in items;
  }
}
