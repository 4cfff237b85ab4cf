/** The persisted schedules of esp_schedule_nvs.c: blobs by name, and a counter
    beside them that sizes the array they are loaded into. */
module ScheduleStore {
  import opened Common
  import opened ScheduleTrigger

  datatype Err = Ok | InvalidState | NotFound | Failed

  class Store {
    var enabled: bool
    var blobs: map<string, Trigger>
    var count: Option<nat>           // the u8 under the count key

    constructor ()
      ensures !enabled && blobs == map[] && count == None
    {
      enabled, blobs, count := false, map[], None;
    }

    ghost predicate Valid()
      reads this
    {
      count.Some? ==> count.value < 256
    }

    /** The counter tells the number of stored schedules. */
    ghost predicate Consistent()
      reads this
    {
      count == Some(|blobs|)
    }

    /** Any access to the flash may fail. */
    method Works() returns (ok: bool)
    {
      ok := *;
    }

    /** esp_schedule_nvs_add. The counter is updated after the blob, modulo 256: unless
        the flash fails, the call succeeds if and only if the schedule is known or
        there is a counter, and without one it has written the schedule all the same. */
    method Add(name: string, blob: Trigger) returns (err: Err, ghost flashFailed: bool)
      requires Valid()
      modifies this`blobs, this`count
      ensures Valid()
      ensures err == Ok ==> enabled && blobs == old(blobs)[name := blob]
      ensures err == Ok && old(Consistent()) ==> (Consistent() <==> |blobs| < 256)
      ensures err != Ok ==> count == old(count) && (blobs == old(blobs) || blobs == old(blobs)[name := blob])
      ensures err != Ok && old(Consistent()) ==> (Consistent() <==> blobs.Keys == old(blobs).Keys)
      ensures !flashFailed ==> (err == Ok <==> enabled && (name in old(blobs) || old(count).Some?))
      ensures err == NotFound ==> enabled && name !in old(blobs) && blobs == old(blobs)[name := blob] && count == None
      ensures !flashFailed && err != Ok ==>
        if enabled then err == NotFound else err == InvalidState && blobs == old(blobs)
    {
      flashFailed := false;
      if !enabled {
        return InvalidState, flashFailed;
      }
      var ok := Works();
      if !ok {
        return Failed, true;
      }
      var editing := name in blobs;
      ok := Works();
      if !ok {
        return Failed, true;
      }
      blobs := blobs[name := blob];
      assert blobs.Keys == old(blobs).Keys + {name};
      assert |blobs.Keys| == |old(blobs).Keys| + if editing then 0 else 1;
      if !editing {
        ok := Works();
        if !ok {
          return Failed, true;
        }
        if count.None? {
          return NotFound, flashFailed;
        }
        var n := (count.value + 1) % 256;
        ok := Works();
        if !ok {
          return Failed, true;
        }
        count := Some(n);
      }
      return Ok, flashFailed;
    }

    /** esp_schedule_nvs_remove: the same, with the schedule to be erased. */
    method Remove(name: string) returns (err: Err, ghost flashFailed: bool)
      requires Valid()
      modifies this`blobs, this`count
      ensures Valid()
      ensures err == Ok ==> enabled && name in old(blobs) && blobs == old(blobs) - {name}
      ensures err == Ok && old(Consistent()) ==> Consistent()
      ensures err != Ok ==> count == old(count) && (blobs == old(blobs) || blobs == old(blobs) - {name})
      ensures err != Ok && old(Consistent()) ==> (Consistent() <==> blobs == old(blobs))
      ensures !flashFailed ==> (err == Ok <==> enabled && name in old(blobs) && old(count).Some?)
      ensures err == NotFound ==> enabled && blobs == old(blobs) - {name} && (name in old(blobs) ==> count == None)
    {
      flashFailed := false;
      if !enabled {
        return InvalidState, flashFailed;
      }
      var ok := Works();
      if !ok {
        return Failed, true;
      }
      if name !in blobs {
        assert blobs == blobs - {name};
        return NotFound, flashFailed;
      }
      blobs := blobs - {name};
      assert blobs.Keys == old(blobs).Keys - {name};
      assert |blobs.Keys| == |old(blobs).Keys| - 1;
      ok := Works();
      if !ok {
        return Failed, true;
      }
      if count.None? {
        return NotFound, flashFailed;
      }
      var n := (count.value - 1) % 256;
      ok := Works();
      if !ok {
        return Failed, true;
      }
      count := Some(n);
      return Ok, flashFailed;
    }

    /** esp_schedule_nvs_remove_all */
    method RemoveAll() returns (err: Err, ghost flashFailed: bool)
      modifies this`blobs, this`count
      ensures old(Valid()) ==> Valid()
      ensures err == Ok ==> blobs == map[] && Consistent()
      ensures err != Ok ==> (blobs == old(blobs) && count == old(count)) || (blobs == map[] && count == None)
      ensures !flashFailed ==> (err == Ok <==> enabled)
    {
      flashFailed := false;
      if !enabled {
        return InvalidState, flashFailed;
      }
      var ok := Works();
      if !ok {
        return Failed, true;
      }
      blobs, count := map[], None;     // the whole namespace, the counter with it
      ok := Works();
      if !ok {
        return Failed, true;
      }
      count := Some(0);
      return Ok, flashFailed;
    }

    /** esp_schedule_nvs_get_count: zero on any failure. */
    method GetCount() returns (n: nat, ghost flashFailed: bool)
      requires Valid()
      ensures n < 256 && (n == 0 || count == Some(n))
      ensures !flashFailed ==> n == if enabled && count.Some? then count.value else 0
    {
      flashFailed := false;
      if !enabled {
        return 0, flashFailed;
      }
      var ok := Works();
      if !ok {
        return 0, true;
      }
      return if count.None? then 0 else count.value, flashFailed;
    }

    /** Any run of calls that succeed keeps the counter right, as long as there
        are fewer than 256 schedules. */
    method Run(ops: seq<StoreOp>) returns (done: nat)
      requires Valid() && Consistent() && |blobs| < 256
      modifies this`blobs, this`count
      ensures Valid() && done <= |ops|
      ensures done == |ops| ==> Consistent() && |blobs| < 256
    {
      done := 0;
      while done < |ops|
        invariant Valid() && Consistent() && |blobs| < 256 && done <= |ops|
      {
        var err;
        ghost var flashFailed;
        match ops[done] {
          case AddOp(name, blob) => err, flashFailed := Add(name, blob);
          case RemoveOp(name) => err, flashFailed := Remove(name);
          case RemoveAllOp => err, flashFailed := RemoveAll();
        }
        if err != Ok || |blobs| >= 256 {
          return;
        }
        done := done + 1;
      }
    }
  }

  datatype StoreOp = AddOp(name: string, blob: Trigger) | RemoveOp(name: string) | RemoveAllOp

  // ---- writing the loaded handles ----

  /** The place the i-th entry is written to: after the ones that could be read. */
  function WriteIndex(readable: seq<bool>, i: nat): (n: nat)
    requires i <= |readable|
    ensures n <= i
  {
    if i == 0 then 0 else WriteIndex(readable, i - 1) + if readable[i - 1] then 1 else 0
  }

  predicate InBounds(readable: seq<bool>, capacity: nat) {
    forall i :: 0 <= i < |readable| ==> WriteIndex(readable, i) < capacity
  }

  lemma {:induction false} WriteIndexGrows(readable: seq<bool>, i: nat, j: nat)
    requires i <= j <= |readable|
    ensures WriteIndex(readable, i) <= WriteIndex(readable, j)
    decreases j - i
  {
    if i < j {
      WriteIndexGrows(readable, i, j - 1);
    }
  }

  lemma {:induction false} WriteIndexPrefix(readable: seq<bool>, b: bool, i: nat)
    requires i <= |readable|
    ensures WriteIndex(readable + [b], i) == WriteIndex(readable, i)
  {
    if i > 0 {
      WriteIndexPrefix(readable, b, i - 1);
    }
  }

  /** One more entry, which was written where there was room. */
  lemma InBoundsNext(readable: seq<bool>, b: bool, capacity: nat)
    requires InBounds(readable, capacity) && WriteIndex(readable, |readable|) < capacity
    ensures InBounds(readable + [b], capacity)
    ensures WriteIndex(readable + [b], |readable| + 1) == WriteIndex(readable, |readable|) + if b then 1 else 0
  {
    forall i | 0 <= i <= |readable| ensures WriteIndex(readable + [b], i) == WriteIndex(readable, i) {
      WriteIndexPrefix(readable, b, i);
    }
  }

  /** Every write stays inside the array exactly when the last one does; when all
      entries can be read, exactly when there are no more entries than places. */
  lemma {:induction false} BoundsAreCount(readable: seq<bool>, capacity: nat)
    ensures InBounds(readable, capacity) <==> readable == [] || WriteIndex(readable, |readable| - 1) < capacity
    ensures (forall i :: 0 <= i < |readable| ==> readable[i]) ==>
      (InBounds(readable, capacity) <==> |readable| <= capacity)
  {
    forall i | 0 <= i < |readable| ensures WriteIndex(readable, i) <= WriteIndex(readable, |readable| - 1) {
      WriteIndexGrows(readable, i, |readable| - 1);
    }
    if forall i :: 0 <= i < |readable| ==> readable[i] {
      AllReadable(readable, |readable|);
      if readable != [] {
        AllReadable(readable, |readable| - 1);
      }
    }
  }

  lemma {:induction false} AllReadable(readable: seq<bool>, i: nat)
    requires i <= |readable| && forall k :: 0 <= k < |readable| ==> readable[k]
    ensures WriteIndex(readable, i) == i
  {
    if i > 0 {
      AllReadable(readable, i - 1);
    }
  }
}
