/** Runs of the client in which calls of the application, rounds of the client task and
    packets of the broker come in any order. */
module MqttInterleaved {
  import opened Common
  import opened MqttIdentifiers
  import opened MqttPacket
  import opened MqttReceiver
  import opened MqttOutbox
  import opened MqttPending
  import opened MqttPublisher
  import opened MqttSession
  import opened MqttBooks

  ghost function BooksOf(out: Publisher): Books
    reads out, out.pending, out.pending.outbox
  {
    Books(out.pending.outbox.items, out.pending.events, out.connected, out.length == 0, out.lastId)
  }

  ghost function SetupOf(out: Publisher): Setup {
    Setup(out.pending.reportDeleted, out.buffer.Length)
  }

  /** A call of the application, or expiry and retransmission in a round of the client
      task, which are left out without a connection. */
  method Call(out: Publisher, step: Step) returns (ghost did: Happening)
    requires Ready(out) && !step.ReceiveStep? && Allowed(step)
    modifies out, out.buffer, out.pending, out.pending.outbox
    ensures Ready(out) && !did.Received? && !did.Broken?
    ensures BooksOf(out) == Next(old(BooksOf(out)), did, SetupOf(out))
    ensures Explains(step, old(BooksOf(out)), did, SetupOf(out))
  {
    did := Nothing;
    if step.TaskStep? {
      if out.connected {
        did := Serve(out, step);
      }
    } else if step.PublishStep? {
      did := CallPublish(out, step);
    } else {
      did := CallEnqueue(out, step);
    }
  }

  method Serve(out: Publisher, step: Step) returns (ghost did: Happening)
    requires Ready(out) && step.TaskStep? && out.connected
    modifies out, out.pending, out.pending.outbox
    ensures Ready(out) && did.Served?
    ensures BooksOf(out) == Next(old(BooksOf(out)), did, SetupOf(out))
    ensures Explains(step, old(BooksOf(out)), did, SetupOf(out))
  {
    ghost var b, length := BooksOf(out), out.length;
    out.now := step.now;
    out.pending.DeleteExpiredMessages(step.now, EXPIRED_TIMEOUT);
    ghost var left := out.pending.outbox.items;
    var written := out.Retransmit(step.sinceLast);
    did := Served(step.now, step.sinceLast, written);
    ServedIs(step, b, SetupOf(out), left, out.connected, out.length, length, written);
  }

  lemma ServedIs(step: Step, b: Books, s: Setup, left: seq<Item>, connected: bool, length: nat, lengthWas: nat,
                 written: bool)
    requires step.TaskStep? && b.online && b.empty == (lengthWas == 0)
    requires left == Unexpired(b.items, s.reported, step.now, EXPIRED_TIMEOUT)
    requires var (at, _) := DueNext(left, step.now, step.sinceLast);
      if at < |left| then length == |Duped(left, at)[at].bytes| && connected == written
      else length == lengthWas && connected && written
    ensures var did := Served(step.now, step.sinceLast, written);
      && Books(Retransmitted(left, step.now, step.sinceLast, written), b.events, connected, length == 0, b.lastId)
         == Next(b, did, s)
      && Explains(step, b, did, s)
  {
  }

  method CallPublish(out: Publisher, step: Step) returns (ghost did: Happening)
    requires Ready(out) && step.PublishStep? && Allowed(step)
    modifies out, out.buffer, out.pending, out.pending.outbox
    ensures Ready(out) && (did.TurnedAway? || did.Published?)
    ensures BooksOf(out) == Next(old(BooksOf(out)), did, SetupOf(out))
    ensures Explains(step, old(BooksOf(out)), did, SetupOf(out))
  {
    out.now := step.now;
    ghost var ret, id, got, stray;
    ret, id, got, stray := out.Publish(step.topic, step.data, step.len, step.qos, step.retain);
    did := if IsRefused(step, out.buffer.Length) then TurnedAway(Takes(step, out.buffer.Length))
           else Published(Copy(id, step.qos, PublishPacket(step.topic, Body(step.data), step.qos, step.retain, id),
                               step.now), step.qos > 0 && got, ret);
  }

  method CallEnqueue(out: Publisher, step: Step) returns (ghost did: Happening)
    requires Ready(out) && step.EnqueueStep? && Allowed(step)
    modifies out, out.buffer, out.pending, out.pending.outbox
    ensures Ready(out) && (did.TurnedAway? || did.Enqueued?)
    ensures BooksOf(out) == Next(old(BooksOf(out)), did, SetupOf(out))
    ensures Explains(step, old(BooksOf(out)), did, SetupOf(out))
  {
    out.now := step.now;
    ghost var ret, id, got;
    ret, id, got := out.Enqueue(step.topic, step.data, step.len, step.qos, step.retain, step.store);
    assert old(out.pending.outbox.items) + [] == old(out.pending.outbox.items);
    did := if IsRefused(step, out.buffer.Length) then TurnedAway(Takes(step, out.buffer.Length))
           else Enqueued(Copy(id, step.qos, PublishPacket(step.topic, Body(step.data), step.qos, step.retain, id),
                              step.now), ret != -1 && got);
  }

  // ---- receiving ----

  /** The receiving half, when the first h packets have been handled and brk, if it is
      one, has cost the connection. */
  ghost predicate Reading(c: Receiver, frames: seq<seq<byte>>, h: nat, before: seq<DataEvent>, erred: bool,
                          brk: Happening)
    reads c, c.transport, c.inBuffer
  {
    && c.transport.Valid() && h <= |frames|
    && if brk.Broken? then
         && TakenPart(frames, h, before, c.events, erred, brk.got) && brk.packet == frames[h]
         && (!brk.got ==> c.transport.failed || c.transport.starved)
       else
         && erred == c.transport.failed && Taken(frames, h, c.start, before, c.events, erred)
         && (!erred ==> c.Valid() && c.Pending())
  }

  /** A round of mqtt_process_receive. Nothing is settled by a packet that costs the
      connection. */
  method Receive(c: Receiver, out: Publisher, ghost frames: seq<seq<byte>>, ghost h0: nat)
    returns (ghost did: Happening, ghost h: nat, ghost before: seq<DataEvent>, ghost erred: bool)
    requires Reading(c, frames, h0, c.events, false, Nothing)
    requires c.readLen > 0 || c.transport.pos < |c.transport.stream|
    requires Ready(out) && out.connected && out.buffer != c.inBuffer
    requires Carries(c.transport.stream, frames, c.inBuffer.Length)
    modifies c, c.transport, c.inBuffer, out, out.buffer, out.pending, out.pending.outbox
    ensures Ready(out) && Reading(c, frames, h, before, erred, did)
    ensures BooksOf(out) == Next(old(BooksOf(out)), did, SetupOf(out))
    ensures Explains(ReceiveStep, old(BooksOf(out)), did, SetupOf(out))
    ensures if did.Received? then h0 < |frames| && did.packet == frames[h0] && h == h0 + 1 else h == h0
  {
    FrameComing(c, frames, h0);
    before := c.events;
    ghost var start, was, length, last := c.start, Showing(out), out.length, out.lastId;
    ghost var got, used, w;
    var r;
    r, got, erred, used, w := Process(c, out, frames[h0]);
    if r == -1 {
      out.connected := false;      // esp_mqtt_abort_connection
    }
    did, h := Booked(frames, h0, was, Showing(out), start, c.start, before, c.events, length, out.length,
      last, out.lastId, out.buffer.Length, out.totalLen, used, w, r, got, erred, out.pending.reportDeleted);
  }

  /** What is to be read next is the next packet. */
  lemma FrameComing(c: Receiver, frames: seq<seq<byte>>, h: nat)
    requires Reading(c, frames, h, c.events, false, Nothing)
    requires c.readLen > 0 || c.transport.pos < |c.transport.stream|
    requires Carries(c.transport.stream, frames, c.inBuffer.Length)
    ensures h < |frames| && GoodFrame(frames[h], c.inBuffer.Length) && frames[h] <= c.Rest() && frames[h] != []
  {
    FlattenGrows(frames, h, c.inBuffer.Length);
    FrameLies(frames, h);
  }

  /** What a call comes to, for the log. */
  lemma Booked(frames: seq<seq<byte>>, h0: nat, was: Shown, now: Shown, start: nat, startNow: nat,
               before: seq<DataEvent>, events: seq<DataEvent>, lengthWas: nat, length: nat, lastWas: nat, last: nat,
               capacity: nat, totalLen: int, used: nat, w: bool, r: int, got: bool, erred: bool, reported: bool)
    returns (did: Happening, h: nat)
    requires (totalLen > 0 ==> totalLen >= FIXED) && h0 < |frames| && frames[h0] != []
    requires Taken(frames, h0, start, before, before, false)
    requires var f := frames[h0];
      if got then
        && Dealt(f[0], PacketId(f), was, now, lengthWas, length, capacity, totalLen, used, w)
        && (if erred then Spoils(before, events) else Handled(f, before, events))
        && r == (if KeepsLink(f[0], length, w) then 1 else -1) && last == LastAfter(lastWas, f[0], PacketId(f))
      else now == was && length == lengthWas && last == lastWas && -1 <= r <= 0
    requires r == 1 && !erred ==> startNow == start + |frames[h0]|
    requires r == 0 ==> startNow == start && events == before && !erred
    requires r == -1 && !got ==>
      if erred then Spoils(before, events) else PartHandled(frames[h0], before, events)
    ensures var b, s := Books(was.items, was.events, true, lengthWas == 0, lastWas), Setup(reported, capacity);
      && Books(now.items, now.events, r != -1, length == 0, last) == Next(b, did, s)
      && Explains(ReceiveStep, b, did, s)
    ensures did == if r == 1 then Received(frames[h0]) else if r == -1 then Broken(frames[h0], got) else Nothing
    ensures h == if r == 1 then h0 + 1 else h0
    ensures if r == -1 then TakenPart(frames, h, before, events, erred, got)
            else Taken(frames, h, startNow, before, events, erred)
  {
    did, h := Nothing, h0;
    var f := frames[h0];
    if r == 1 {
      TakenNext(frames, h0, start, before, startNow, events, erred);
      did, h := Received(f), h0 + 1;
    } else if r == -1 {
      did := Broken(f, got);
      if got {
        NotSettled(f[0], PacketId(f), was, now, length, w);
      }
    }
  }

  /** A packet that costs the connection is a PUBLISH, or could not be answered. */
  lemma NotSettled(first: byte, id: nat, was: Shown, now: Shown, length: nat, written: bool)
    requires !KeepsLink(first, length, written)
    requires now.items == (if Answerable(first, length) then Settled(was.items, first, id) else was.items)
    requires now.events ==
             (if Answerable(first, length) then Reported(was.events, was.items, first, id) else was.events)
    ensures now.items == was.items && now.events == was.events
  {
  }

  // ---- whole runs ----

  /** The books are what the log makes of them, each entry of it is what can come of the
      step in its place, and the packets in it are the first h of those sent, in order,
      each once; a packet that has cost the connection is the next one. */
  ghost predicate Logged(was: Books, now: Books, steps: seq<Step>, log: seq<Happening>, s: Setup,
                         frames: seq<seq<byte>>, h: nat) {
    && now == After(was, log, s) && Explained(was, steps, log, s)
    && h <= |frames| && Packets(log) == frames[..h]
    && (BreakIn(log).Broken? ==> !now.online)
  }

  lemma LoggedNext(was: Books, b: Books, now: Books, steps: seq<Step>, log: seq<Happening>, did: Happening, s: Setup,
                   frames: seq<seq<byte>>, h0: nat, h: nat)
    requires Logged(was, b, steps, log, s, frames, h0) && now == Next(b, did, s)
    requires |log| < |steps| && Explains(steps[|log|], b, did, s)
    requires if did.Received? then h0 < |frames| && did.packet == frames[h0] && h == h0 + 1 else h == h0
    ensures Logged(was, now, steps, log + [did], s, frames, h)
  {
    AfterSnoc(was, log, did, s);
    ExplainedNext(was, steps, log, did, s);
    LogSnoc(log, did);
    if did.Received? {
      assert frames[..h] == frames[..h0] + [frames[h0]];
    }
  }

  /** Whatever the order of calls, rounds and packets: outbox, reported events and
      connection are what the log makes of them, and each step has the entry that is its
      due (DeliveredOnce, StoredUntilThen). The packets in the log are the first of those
      sent, in order, each once, with their full effect on the application; none that
      has arrived is left waiting. The connection is given up over a packet only after
      an empty or failed read, over an empty outbound message, or over an answer that
      cannot be written; then a front of the packet, at most, has been delivered, or all
      of it (got). */
  method Run(t: Transport, capacity: nat, out: Publisher, steps: seq<Step>, ghost frames: seq<seq<byte>>)
    returns (c: Receiver, ghost log: seq<Happening>, ghost h: nat, ghost before: seq<DataEvent>, ghost erred: bool)
    requires t.Valid() && !t.failed && t.pos == 0 && capacity >= 10 && Carries(t.stream, frames, capacity)
    requires Ready(out) && forall k :: 0 <= k < |steps| ==> Allowed(steps[k])
    modifies t, out, out.buffer, out.pending, out.pending.outbox
    ensures Ready(out) && c.transport == t && |log| == |steps|
    ensures Logged(old(BooksOf(out)), BooksOf(out), steps, log, SetupOf(out), frames, h)
    ensures Reading(c, frames, h, before, erred, BreakIn(log))
    ensures !BreakIn(log).Broken? && !t.failed && t.pos == |t.stream| ==> h == |frames|
  {
    c := new Receiver(t, capacity);
    log, h, before, erred := [], 0, [], false;
    for i := 0 to |steps|
      invariant fresh(c) && fresh(c.inBuffer) && c.transport == t && c.inBuffer.Length == capacity
      invariant Ready(out) && |log| == i && Reading(c, frames, h, before, erred, BreakIn(log))
      invariant Logged(old(BooksOf(out)), BooksOf(out), steps, log, SetupOf(out), frames, h)
    {
      ghost var did, h0, books := Nothing, h, BooksOf(out);
      did, h, before, erred := Turn(c, out, steps[i], frames, h, before, erred, BreakIn(log));
      LoggedNext(old(BooksOf(out)), books, BooksOf(out), steps, log, did, SetupOf(out), frames, h0, h);
      LogSnoc(log, did);
      log := log + [did];
    }
    if !t.failed && t.pos == |t.stream| && !BreakIn(log).Broken? {
      NothingPending(c, frames, h);
    }
  }

  /** One step. Once the connection has been given up, or a read has failed, no more
      packets are looked at. */
  method Turn(c: Receiver, out: Publisher, step: Step, ghost frames: seq<seq<byte>>, ghost h0: nat,
              ghost before0: seq<DataEvent>, ghost erred0: bool, ghost brk: Happening)
    returns (ghost did: Happening, ghost h: nat, ghost before: seq<DataEvent>, ghost erred: bool)
    requires Ready(out) && out.buffer != c.inBuffer && Allowed(step)
    requires Carries(c.transport.stream, frames, c.inBuffer.Length)
    requires Reading(c, frames, h0, before0, erred0, brk) && (brk.Broken? ==> !out.connected)
    modifies c, c.transport, c.inBuffer, out, out.buffer, out.pending, out.pending.outbox
    ensures Ready(out) && Reading(c, frames, h, before, erred, if did.Broken? then did else brk)
    ensures BooksOf(out) == Next(old(BooksOf(out)), did, SetupOf(out))
    ensures Explains(step, old(BooksOf(out)), did, SetupOf(out))
    ensures if did.Received? then h0 < |frames| && did.packet == frames[h0] && h == h0 + 1 else h == h0
  {
    did, h, before, erred := Nothing, h0, before0, erred0;
    if !step.ReceiveStep? {
      did := Call(out, step);
    } else if out.connected && !c.transport.failed && (c.readLen > 0 || c.transport.pos < |c.transport.stream|) {
      did, h, before, erred := Receive(c, out, frames, h0);
    }
  }
}
