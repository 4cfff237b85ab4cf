/** Loading the persisted schedules at start-up: esp_schedule_nvs_get_all, and the
    loop of esp_schedule_init that deletes the expired ones from the list. */
module ScheduleLoader {
  import opened Common
  import opened ScheduleStore
  import opened ScheduleTrigger

  /** A schedule in memory. */
  class Handle {
    const name: string
    const trigger: Trigger

    constructor (name: string, trigger: Trigger)
      ensures this.name == name && this.trigger == trigger
    {
      this.name, this.trigger := name, trigger;
    }
  }

  // ---- removing from a list by moving its last entry into the gap ----

  function DropAt<T>(s: seq<T>, i: nat): seq<T>
    requires i < |s|
  {
    s[i := s[|s| - 1]][..|s| - 1]
  }

  /** The list the loop leaves behind, and what it removes in order, from place i on. */
  function Sweep<T>(s: seq<T>, gone: T -> bool, i: nat): (r: (seq<T>, seq<T>))
    requires i <= |s|
    decreases |s| - i
  {
    if i == |s| then (s, [])
    else if gone(s[i]) then
      var (kept, removed) := Sweep(DropAt(s, i), gone, i);
      (kept, [s[i]] + removed)
    else Sweep(s, gone, i + 1)
  }

  lemma DropAtContents<T>(s: seq<T>, i: nat)
    requires i < |s|
    ensures multiset(s) == multiset(DropAt(s, i)) + multiset{s[i]}
    ensures DropAt(s, i)[..i] == s[..i]
  {
    var n := |s| - 1;
    var body, last := s[..n], s[n];
    SnocContents(body, last);
    assert s == body + [last];
    if i < n {
      UpdateContents(body, i, last);
      assert DropAt(s, i) == body[i := last];
    } else {
      assert DropAt(s, i) == body;
    }
  }

  lemma SnocContents<T>(s: seq<T>, x: T)
    ensures multiset(s + [x]) == multiset(s) + multiset{x}
  {
  }

  lemma UpdateContents<T>(s: seq<T>, i: nat, x: T)
    requires i < |s|
    ensures multiset(s) + multiset{x} == multiset(s[i := x]) + multiset{s[i]}
  {
  }

  ghost predicate Stays<T>(s: seq<T>, gone: T -> bool) {
    forall k :: 0 <= k < |s| ==> !gone(s[k])
  }

  ghost predicate Goes<T>(s: seq<T>, gone: T -> bool) {
    forall k :: 0 <= k < |s| ==> gone(s[k])
  }

  /** Nothing is lost, what stays does not satisfy the predicate, what goes does. */
  lemma {:induction false} SweepSorts<T>(s: seq<T>, gone: T -> bool, i: nat)
    requires i <= |s| && Stays(s[..i], gone)
    ensures multiset(s) == multiset(Sweep(s, gone, i).0) + multiset(Sweep(s, gone, i).1)
    ensures Stays(Sweep(s, gone, i).0, gone) && Goes(Sweep(s, gone, i).1, gone)
    decreases |s| - i
  {
    if i == |s| {
      assert s[..i] == s;
    } else if gone(s[i]) {
      DropAtContents(s, i);
      var rest := DropAt(s, i);
      SweepSorts(rest, gone, i);
      var (kept, removed) := Sweep(rest, gone, i);
      ConsContents(s[i], removed);
      GoesOn(s[i], removed, gone);
    } else {
      assert s[..i + 1] == s[..i] + [s[i]];
      SweepSorts(s, gone, i + 1);
    }
  }

  lemma GoesOn<T>(x: T, s: seq<T>, gone: T -> bool)
    requires gone(x) && Goes(s, gone)
    ensures Goes([x] + s, gone)
  {
  }

  lemma ConsContents<T>(x: T, s: seq<T>)
    ensures multiset([x] + s) == multiset(s) + multiset{x}
  {
  }

  // ---- one step of the loop, on the list that is left ----

  ghost predicate Distinct<T>(s: seq<T>) {
    forall i, j :: 0 <= i < j < |s| ==> s[i] != s[j]
  }

  ghost predicate Apart<T>(s: seq<T>, t: seq<T>) {
    forall i, j :: 0 <= i < |s| && 0 <= j < |t| ==> s[i] != t[j]
  }

  /** The loop has reached place i of cur and has deleted the removed ones. */
  ghost predicate Reached<T>(all: seq<T>, gone: T -> bool, cur: seq<T>, i: nat, removed: seq<T>) {
    && i <= |cur| && Distinct(cur) && Apart(cur, removed)
    && Sweep(all, gone, 0) == (Sweep(cur, gone, i).0, removed + Sweep(cur, gone, i).1)
  }

  lemma NotFreed<T>(all: seq<T>, gone: T -> bool, cur: seq<T>, i: nat, removed: seq<T>)
    requires Reached(all, gone, cur, i, removed) && i < |cur|
    ensures cur[i] !in removed
  {
  }

  lemma AtStart<T>(all: seq<T>, gone: T -> bool)
    requires Distinct(all)
    ensures Reached(all, gone, all, 0, [])
  {
    assert [] + Sweep(all, gone, 0).1 == Sweep(all, gone, 0).1;
  }

  lemma AtEnd<T>(all: seq<T>, gone: T -> bool, cur: seq<T>, removed: seq<T>)
    requires Reached(all, gone, cur, |cur|, removed)
    ensures Sweep(all, gone, 0) == (cur, removed)
  {
    assert removed + [] == removed;
  }

  lemma KeepStep<T>(all: seq<T>, gone: T -> bool, cur: seq<T>, i: nat, removed: seq<T>)
    requires Reached(all, gone, cur, i, removed) && i < |cur| && !gone(cur[i])
    ensures Reached(all, gone, cur, i + 1, removed)
  {
  }

  lemma DropStep<T>(all: seq<T>, gone: T -> bool, cur: seq<T>, i: nat, removed: seq<T>)
    requires Reached(all, gone, cur, i, removed) && i < |cur| && gone(cur[i])
    ensures Reached(all, gone, DropAt(cur, i), i, removed + [cur[i]])
    ensures DropAt(cur, i)[..i] == cur[..i]
  {
    var rest := DropAt(cur, i);
    var tail := Sweep(rest, gone, i).1;
    assert removed + [cur[i]] + tail == removed + ([cur[i]] + tail);
    forall k | 0 <= k < |rest| ensures rest[k] != cur[i] && rest[k] == cur[if k == i then |rest| else k] {
    }
  }

  ghost predicate IsGone(now: int, h: Handle?) {
    h != null && Expired(h.trigger, now)
  }

  ghost function Gone(now: int): Handle? -> bool {
    (h: Handle?) => IsGone(now, h)
  }

  /** In terms of what they stand for: of none of these is everything past, or of all. */
  ghost predicate NonePast(handles: seq<Handle?>, now: int) {
    forall k :: 0 <= k < |handles| && handles[k] != null && Regular(handles[k].trigger) ==>
      !Past(handles[k].trigger, now)
  }

  ghost predicate AllPast(handles: seq<Handle?>, now: int) {
    forall k :: 0 <= k < |handles| && handles[k] != null && Regular(handles[k].trigger) ==>
      Past(handles[k].trigger, now)
  }

  lemma GoneIsPast(handles: seq<Handle?>, now: int)
    ensures Stays(handles, Gone(now)) ==> NonePast(handles, now)
    ensures Goes(handles, Gone(now)) ==> AllPast(handles, now)
  {
    forall k | 0 <= k < |handles| && handles[k] != null && Regular(handles[k].trigger)
      ensures Gone(now)(handles[k]) <==> Past(handles[k].trigger, now)
    {
      ExpiredIsPast(handles[k].trigger, now);
    }
  }

  const SIZE_MAX_PLUS_1 := 0x1_0000_0000

  ghost function Names(handles: seq<Handle?>): set<string> {
    set h: Handle? | h in handles && h != null :: h.name
  }

  lemma NamesGrow(before: map<string, Trigger>, freed: seq<Handle?>, h: Handle)
    ensures Names(freed + [h]) == Names(freed) + {h.name}
    ensures before - Names(freed + [h]) == before - Names(freed) - {h.name}
  {
    assert forall x :: x in freed + [h] <==> x in freed || x == h;
  }

  /** The memory the handles live in. Nothing may be done with a freed handle. */
  class Heap {
    ghost var freed: seq<Handle?>
    var armed: seq<Handle?>          // handles in the order their timers were started
    var store: Store
    ghost var failed: bool           // some erase did not succeed

    constructor (store: Store)
      ensures this.store == store && freed == [] && armed == [] && !failed
    {
      this.store, freed, armed, failed := store, [], [], false;
    }

    /** esp_schedule_is_expired */
    method IsExpired(h: Handle, now: int) returns (r: bool)
      requires h !in freed
      ensures r == IsGone(now, h)
    {
      r := Expired(h.trigger, now);
    }

    /** esp_schedule_delete, for a schedule that has no timer yet. A failing erase
        goes unnoticed. */
    method Delete(h: Handle)
      requires h !in freed && store.Valid()
      modifies this`freed, this`failed, store`blobs, store`count
      ensures freed == old(freed) + [h] && store.Valid()
      ensures old(failed) ==> failed
      ensures store.blobs == old(store.blobs) || store.blobs == old(store.blobs) - {h.name}
      ensures !failed ==> store.blobs == old(store.blobs) - {h.name} && h.name in old(store.blobs)
      ensures !failed && old(store.Consistent()) ==> store.Consistent()
    {
      var err, _ := store.Remove(h.name);
      failed := failed || err != Ok;
      freed := freed + [h];
    }

    /** esp_schedule_create_timer and esp_schedule_start_timer */
    method Arm(h: Handle)
      requires h !in freed
      modifies this`armed
      ensures armed == old(armed) + [h]
    {
      armed := armed + [h];
    }

    /** What is gone from the store, unless an erase failed; a counter that was right
        before is right. */
    ghost predicate Erased(before: map<string, Trigger>, right: bool)
      reads this, store
    {
      !failed ==> (right ==> store.Consistent()) && store.blobs == before - Names(freed)
    }

    /** A round for an expired schedule: delete it and move the last entry of the
        list into its place. */
    method DropEntry(ghost all: seq<Handle?>, list: array<Handle?>, i: nat, count: nat, h: Handle,
                     now: int, ghost before: map<string, Trigger>, ghost right: bool)
      requires i < count <= list.Length && list[i] == h && IsGone(now, h) && store.Valid() && Erased(before, right)
      requires null !in list[..count] && Reached(all, Gone(now), list[..count], i, freed)
      modifies list, this`freed, this`failed, store`blobs, store`count
      ensures null !in list[..count - 1] && Reached(all, Gone(now), list[..count - 1], i, freed)
      ensures store.Valid() && Erased(before, right) && list[..i] == old(list[..i])
    {
      ghost var cur := list[..count];
      assert cur[i] == h;
      DropStep(all, Gone(now), cur, i, freed);
      NamesGrow(before, freed, h);
      Delete(h);
      list[i] := list[count - 1];
      assert list[..count - 1] == DropAt(cur, i);
    }

    /** One round of the loop of esp_schedule_init. */
    method StartOne(ghost all: seq<Handle?>, list: array<Handle?>, i: nat, count: nat,
                    now: int, ghost before: map<string, Trigger>, ghost right: bool)
      returns (next: nat, left: nat)
      requires i < count <= list.Length && count < 256 && store.Valid() && Erased(before, right)
      requires null !in list[..count] && Reached(all, Gone(now), list[..count], i, freed)
      requires armed == list[..i]
      modifies list, this`freed, this`armed, this`failed, store`blobs, store`count
      ensures next <= left <= count && left - next == count - i - 1
      ensures null !in list[..left] && Reached(all, Gone(now), list[..left], next, freed)
      ensures store.Valid() && Erased(before, right) && armed == list[..next]
    {
      ghost var cur := list[..count];
      var h := list[i];
      assert cur[i] == h;
      NotFreed(all, Gone(now), cur, i, freed);
      next, left := i, count;
      var expired := IsExpired(h, now);
      if expired {
        DropEntry(all, list, i, count, h, now, before, right);
        left := count - 1;
        next := (next + SIZE_MAX_PLUS_1 - 1) % SIZE_MAX_PLUS_1;
      } else {
        KeepStep(all, Gone(now), cur, i, freed);
        Arm(h);
      }
      next := (next + 1) % SIZE_MAX_PLUS_1;
    }

    /** The loop of esp_schedule_init, at one instant. The index is an unsigned
        32-bit number that wraps below zero when the first entry goes. What is left
        at the front of the list is what Sweep keeps, each armed once and in order;
        the removed ones are deleted, each once, from the store too; no handle is
        used once freed. */
    method StartSchedules(list: array<Handle?>, loaded: nat, now: int) returns (count: nat)
      requires loaded <= list.Length && loaded < 256
      requires Distinct(list[..loaded]) && null !in list[..loaded]
      requires freed == [] && armed == [] && store.Valid() && Erased(store.blobs, store.Consistent())
      modifies list, this`freed, this`armed, this`failed, store`blobs, store`count
      ensures count <= loaded
      ensures (list[..count], freed) == Sweep(old(list[..loaded]), Gone(now), 0)
      ensures armed == list[..count] && Erased(old(store.blobs), old(store.Consistent()))
      ensures Distinct(list[..count]) && Apart(list[..count], freed)
      ensures NonePast(armed, now) && AllPast(freed, now)
    {
      ghost var all := list[..loaded];
      var i: nat := 0;
      count := loaded;
      AtStart(all, Gone(now));
      while i < count
        invariant i <= count <= loaded && null !in list[..count]
        invariant Reached(all, Gone(now), list[..count], i, freed)
        invariant armed == list[..i] && store.Valid() && Erased(old(store.blobs), old(store.Consistent()))
        decreases count - i
      {
        i, count := StartOne(all, list, i, count, now, old(store.blobs), old(store.Consistent()));
      }
      AtEnd(all, Gone(now), list[..count], freed);
      SweepSorts(all, Gone(now), 0);
      GoneIsPast(list[..count], now);
      GoneIsPast(freed, now);
    }
  }

  // ---- reading the handles from the store ----

  /** The handle is a copy of a stored schedule. */
  ghost predicate CopyOf(h: Handle?, blobs: map<string, Trigger>) {
    h != null && h.name in blobs && h.trigger == blobs[h.name]
  }

  ghost predicate Copies(handles: seq<Handle?>, blobs: map<string, Trigger>) {
    forall k :: 0 <= k < |handles| ==> CopyOf(handles[k], blobs)
  }

  /** esp_schedule_nvs_get: null when a read fails. */
  method Get(store: Store, key: string) returns (h: Handle?)
    requires key in store.blobs
    ensures h != null ==> fresh(h) && h.name == key && h.trigger == store.blobs[key]
  {
    var ok := store.Works();
    h := null;
    if ok {
      h := new Handle(key, store.blobs[key]);
    }
  }

  lemma AddCopy(handles: seq<Handle?>, h: Handle, blobs: map<string, Trigger>)
    requires Distinct(handles) && Copies(handles, blobs) && h !in handles && CopyOf(h, blobs)
    ensures Distinct(handles + [h]) && Copies(handles + [h], blobs)
    ensures Names(handles + [h]) == Names(handles) + {h.name}
  {
    assert forall x :: x in handles + [h] <==> x in handles || x == h;
  }

  /** Read one entry into place n of the list; the place counts if that worked. */
  method ReadInto(store: Store, key: string, list: array<Handle?>, n: nat) returns (filled: nat)
    requires key in store.blobs && n < list.Length
    requires Distinct(list[..n]) && Copies(list[..n], store.blobs)
    modifies list
    ensures n <= filled <= n + 1
    ensures Distinct(list[..filled]) && Copies(list[..filled], store.blobs)
    ensures filled == n + 1 ==> Names(list[..filled]) == Names(old(list[..n])) + {key}
    ensures filled == n ==> list[..filled] == old(list[..n])
  {
    var h := Get(store, key);
    list[n] := h;
    filled := n;
    if h != null {
      AddCopy(list[..n], h, store.blobs);
      assert list[..n + 1] == list[..n] + [h];
      filled := n + 1;
    }
  }

  /** esp_schedule_nvs_get_all. The array has as many places as the counter says; the
      entries of the store come in any order, and the ones that cannot be read leave
      their place to the next. With more entries than places the C code writes
      beyond the array; the model stops there and says so. Without an entry there is
      no array, and yet the count that is handed back is the counter. */
  method GetAll(store: Store) returns (list: array?<Handle?>, n: nat, overran: bool, ghost readable: seq<bool>)
    requires store.Valid()
    ensures list == null ==> !overran && readable == [] && (n > 0 ==> store.count == Some(n) && store.blobs == map[])
    ensures list != null ==> fresh(list) && store.blobs != map[]
    ensures list != null ==> n <= list.Length < 256 && store.count == Some(list.Length) && list.Length > 0
    ensures list != null ==> Distinct(list[..n]) && Copies(list[..n], store.blobs)
    ensures list != null ==> n == WriteIndex(readable, |readable|) && InBounds(readable, list.Length)
    ensures list != null ==>
      if overran then |readable| < |store.blobs| && n == list.Length else |readable| == |store.blobs|
    ensures list != null && |store.blobs| <= list.Length ==> !overran
    ensures list != null && AllRead(readable) ==>
      (overran <==> |store.blobs| > list.Length) && (!overran ==> Names(list[..n]) == store.blobs.Keys)
  {
    var size, _ := store.GetCount();
    list, n, overran, readable := null, size, false, [];
    if size == 0 {
      return;
    }
    var memory := store.Works();
    if !memory {
      n := 0;
      return;
    }
    if store.blobs == map[] {
      return;
    }
    list, n := new Handle?[size](_ => null), 0;
    var rest := store.blobs.Keys;
    while rest != {}
      invariant n <= size && Loaded(list[..n], store.blobs, rest, readable, size)
      decreases |rest|
    {
      if n == size {
        AllIndex(readable);
        overran := true;
        return;
      }
      var key :| key in rest;
      rest, n, readable := LoadOne(store, key, list, n, rest, readable);
    }
    AllIndex(readable);
  }

  /** What has been loaded when the entries in rest are still to come. */
  ghost predicate Loaded(handles: seq<Handle?>, blobs: map<string, Trigger>, rest: set<string>, readable: seq<bool>,
                         size: nat) {
    && rest <= blobs.Keys && |readable| + |rest| == |blobs|
    && |handles| == WriteIndex(readable, |readable|) <= size && InBounds(readable, size)
    && Distinct(handles) && Copies(handles, blobs)
    && (AllRead(readable) ==> Names(handles) == blobs.Keys - rest)
  }

  /** One round: the next entry. */
  method LoadOne(store: Store, key: string, list: array<Handle?>, n: nat, rest: set<string>, ghost readable: seq<bool>)
    returns (left: set<string>, filled: nat, ghost flags: seq<bool>)
    requires n < list.Length && key in rest && Loaded(list[..n], store.blobs, rest, readable, list.Length)
    modifies list
    ensures filled <= list.Length && left == rest - {key}
    ensures Loaded(list[..filled], store.blobs, left, flags, list.Length)
  {
    left := rest - {key};
    filled := ReadInto(store, key, list, n);
    InBoundsNext(readable, filled > n, list.Length);
    flags := readable + [filled > n];
    assert AllRead(flags) ==> flags[|readable|] && AllRead(readable) by {
      assert forall i :: 0 <= i < |readable| ==> flags[i] == readable[i];
    }
  }

  /** Every entry could be read. */
  ghost predicate AllRead(readable: seq<bool>) {
    forall i :: 0 <= i < |readable| ==> readable[i]
  }

  lemma AllIndex(readable: seq<bool>)
    ensures (forall i :: 0 <= i < |readable| ==> readable[i]) ==> WriteIndex(readable, |readable|) == |readable|
  {
    if forall i :: 0 <= i < |readable| ==> readable[i] {
      AllReadable(readable, |readable|);
    }
  }

  ghost function Unexpired(blobs: map<string, Trigger>, now: int): map<string, Trigger> {
    map name | name in blobs && !Expired(blobs[name], now) :: blobs[name]
  }

  lemma UnexpiredByPast(blobs: map<string, Trigger>, now: int)
    ensures forall name :: name in blobs && Regular(blobs[name]) ==>
      (name in Unexpired(blobs, now) <==> !Past(blobs[name], now))
  {
    forall name | name in blobs && Regular(blobs[name])
      ensures name in Unexpired(blobs, now) <==> !Past(blobs[name], now)
    {
      ExpiredIsPast(blobs[name], now);
    }
  }

  /** What Sweep keeps of copies of the store, and what it removes. */
  lemma SweepMembers(all: seq<Handle?>, blobs: map<string, Trigger>, now: int)
    requires Copies(all, blobs)
    ensures var (kept, removed) := Sweep(all, Gone(now), 0);
      && Copies(kept, blobs) && Stays(kept, Gone(now))
      && Copies(removed, blobs) && Goes(removed, Gone(now))
      && (forall h :: h in all ==> h in kept || h in removed)
  {
    SweepSorts(all, Gone(now), 0);
    var (kept, removed) := Sweep(all, Gone(now), 0);
    assert forall h :: h in all ==> h in multiset(all);
    forall k | 0 <= k < |kept| ensures CopyOf(kept[k], blobs) {
      assert kept[k] in multiset(kept);
      assert kept[k] in multiset(all);
    }
    forall k | 0 <= k < |removed| ensures CopyOf(removed[k], blobs) {
      assert removed[k] in multiset(removed);
      assert removed[k] in multiset(all);
    }
    forall h | h in all ensures h in kept || h in removed {
      assert h in multiset(kept) || h in multiset(removed);
    }
  }

  lemma NamesSplit(all: seq<Handle?>, kept: seq<Handle?>, removed: seq<Handle?>, blobs: map<string, Trigger>, now: int)
    requires Names(all) == blobs.Keys && (forall h :: h in all ==> h in kept || h in removed)
    requires Copies(kept, blobs) && Stays(kept, Gone(now))
    requires Copies(removed, blobs) && Goes(removed, Gone(now))
    ensures Names(kept) == Unexpired(blobs, now).Keys
    ensures blobs - Names(removed) == Unexpired(blobs, now)
  {
    forall name | name in blobs
      ensures name in Names(kept) <==> !Expired(blobs[name], now)
      ensures name in Names(removed) <==> Expired(blobs[name], now)
    {
      NameSplits(all, kept, removed, blobs, now, name);
    }
    forall name | name in Names(kept) ensures name in blobs {
      var h :| h in kept && h != null && h.name == name;
      var k :| 0 <= k < |kept| && kept[k] == h;
      assert CopyOf(kept[k], blobs);
    }
  }

  lemma NameSplits(all: seq<Handle?>, kept: seq<Handle?>, removed: seq<Handle?>, blobs: map<string, Trigger>, now: int,
                   name: string)
    requires Names(all) == blobs.Keys && (forall h :: h in all ==> h in kept || h in removed)
    requires Copies(kept, blobs) && Stays(kept, Gone(now))
    requires Copies(removed, blobs) && Goes(removed, Gone(now))
    requires name in blobs
    ensures name in Names(kept) <==> !Expired(blobs[name], now)
    ensures name in Names(removed) <==> Expired(blobs[name], now)
  {
    assert name in Names(all);
    var h :| h in all && h != null && h.name == name;
    if name in Names(kept) {
      var g :| g in kept && g != null && g.name == name;
      var k :| 0 <= k < |kept| && kept[k] == g;
      assert !Gone(now)(kept[k]) && CopyOf(kept[k], blobs);
    }
    if name in Names(removed) {
      var g :| g in removed && g != null && g.name == name;
      var k :| 0 <= k < |removed| && removed[k] == g;
      assert Gone(now)(removed[k]) && CopyOf(removed[k], blobs);
    }
  }

  /** esp_schedule_init, as long as the array is not overrun, and it is not when there
      are no more schedules than the counter says: the list holds copies of stored
      schedules none of which has expired, each armed once; when every read and
      erase succeeds it holds all of those, and the store holds nothing else. Without
      a list the count is zero unless the store is empty and the counter is not. */
  method Init(store: Store, now: int)
    returns (heap: Heap, list: array?<Handle?>, count: nat, overran: bool, ghost readable: seq<bool>)
    requires store.Valid()
    modifies store`blobs, store`count
    ensures fresh(heap) && heap.store == store
    ensures list == null ==> count > 0 ==> old(store.count) == Some(count) && old(store.blobs) == map[]
    ensures list == null || overran ==> store.blobs == old(store.blobs) && store.count == old(store.count)
    ensures list == null || overran ==> heap.armed == [] && heap.freed == []
    ensures list != null ==> fresh(list) && count <= list.Length && old(store.count) == Some(list.Length)
    ensures list != null && |old(store.blobs)| <= list.Length ==> !overran
    ensures list != null && !overran ==>
      Copies(list[..count], old(store.blobs)) && Stays(list[..count], Gone(now)) && Distinct(list[..count])
    ensures list != null && !overran ==>
      heap.armed == list[..count] && Goes(heap.freed, Gone(now)) && Apart(list[..count], heap.freed)
    ensures list != null && !overran && AllRead(readable) ==>
      Names(list[..count]) == Unexpired(old(store.blobs), now).Keys
    ensures list != null && !overran && AllRead(readable) && !heap.failed ==>
      store.blobs == Unexpired(old(store.blobs), now) && (old(store.Consistent()) ==> store.Consistent())
    ensures list != null && !overran ==> NonePast(heap.armed, now) && AllPast(heap.freed, now)
    ensures list != null && !overran && AllRead(readable) && !heap.failed ==>
      forall name :: name in old(store.blobs) && Regular(old(store.blobs)[name]) ==>
        (name in store.blobs <==> !Past(old(store.blobs)[name], now))
  {
    heap := new Heap(store);
    list, count, overran, readable := GetAll(store);
    if list == null || overran {
      return;
    }
    ghost var all := list[..count];
    count := heap.StartSchedules(list, count, now);
    SweepMembers(all, old(store.blobs), now);
    if AllRead(readable) {
      NamesSplit(all, list[..count], heap.freed, old(store.blobs), now);
      UnexpiredByPast(old(store.blobs), now);
    }
  }
}
