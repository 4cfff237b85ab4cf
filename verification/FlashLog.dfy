/** The log of esp_qcloud_log_flash.c, operation by operation. */
module FlashLog {
  import opened Common
  import opened FlashQueue

  class Log {
    const lay: Layout
    var flash: seq<byte>             // the partition
    var info: seq<Bank>
    var index: nat
    var init: bool
    var stampDue: bool               // flag_timestamp

    ghost predicate Valid()
      reads this
    {
      |info| == 2 && index < 2 && Shape(Now())
    }

    ghost function Now(): State
      reads this
      requires |info| == 2 && index < 2
    {
      State(lay, flash, info[1 - index], info[index], index, init, stampDue)
    }

    /** esp_qcloud_log_flash_init on a device that has no log yet */
    constructor (lay: Layout, flash: seq<byte>)
      requires lay.base + 2 * lay.bank <= |flash|
      ensures Valid() && Sound(Now()) && Queue(Now()) == [] && Bounded(Now()) && init && stampDue
      ensures this.lay == lay
    {
      this.lay, this.flash := lay, Wiped(flash, lay.base, 2 * lay.bank);
      info, index, init, stampDue := [Bank(0, 0), Bank(0, 0)], 0, true, true;
      new;
      NewLog(lay, flash);
    }

    /** esp_partition_write: refuses a range outside the partition. */
    method PartitionWrite(at: nat, data: seq<byte>) returns (ok: bool)
      modifies this`flash
      ensures ok <==> at + |data| <= |flash|
      ensures flash == if ok then Programmed(old(flash), at, data) else old(flash)
    {
      ok := at + |data| <= |flash|;
      if ok {
        flash := Programmed(flash, at, data);
      }
    }

    /** esp_partition_erase_range */
    method PartitionErase(at: nat, n: nat)
      requires at + n <= |flash|
      modifies this`flash
      ensures flash == Wiped(old(flash), at, n)
    {
      flash := Wiped(flash, at, n);
    }

    method Rotate()
      requires Valid()
      modifies this`info, this`index, this`flash
      ensures Valid() && Now() == Rotated(old(Now()))
    {
      index := (index + 1) % 2;
      info := info[index := Bank(0, 0)];
      PartitionErase(lay.Addr(index), lay.bank);
    }

    method Append(data: seq<byte>) returns (ok: bool)
      requires Valid()
      modifies this`info, this`flash
      ensures Valid() && ok == (End(old(Now())) + |data| <= |old(flash)|)
      ensures Now() == if ok then Appended(old(Now()), data) else old(Now())
    {
      var b := info[index];
      assert End(Now()) == lay.Addr(index) + b.size;
      ok := PartitionWrite(lay.Addr(index) + b.size, data);
      if ok {
        info := info[index := Bank(b.size + |data|, b.offset)];
      }
    }

    method Prepare(n: nat, stamp: seq<byte>) returns (ok: bool)
      requires Valid()
      modifies this`info, this`index, this`stampDue, this`flash
      ensures Valid() && (Now(), ok) == Prepared(old(Now()), n, stamp)
    {
      ok := true;
      if info[index].size + n > lay.bank {
        Rotate();
      }
      if stampDue {
        stampDue := false;
        ok := Append(stamp);
      }
    }

    /** esp_qcloud_log_flash_write */
    method Write(data: seq<byte>, stamp: seq<byte>) returns (err: Err)
      requires Valid()
      modifies this`info, this`index, this`stampDue, this`flash
      ensures Valid() && (Now(), err) == Written(old(Now()), data, stamp)
    {
      if data == [] {
        return InvalidArg;
      }
      if !init {
        return Fail;
      }
      var ok := Prepare(|data|, stamp);
      if !ok {
        return Fail;
      }
      ok := Append(data);
      if !ok {
        return Fail;
      }
      if data[|data| - 1] == NEWLINE {
        stampDue := true;
      }
      return Ok;
    }

    /** esp_partition_read into out[at..]: refuses a range outside the partition. */
    method PartitionRead(from: nat, out: array<byte>, at: nat, n: nat) returns (ok: bool)
      requires at + n <= out.Length
      modifies out
      ensures ok <==> from + n <= |flash|
      ensures out[..at] == old(out[..at]) && (ok ==> out[at..at + n] == flash[from..from + n])
    {
      ok := from + n <= |flash|;
      if ok {
        forall k | 0 <= k < n {
          out[at + k] := flash[from + k];
        }
      }
    }

    /** Read from one bank; a bank that cannot be read is given up. */
    method ReadBank(b: nat, out: array<byte>, at: nat, want: nat) returns (n: nat, ok: bool)
      requires |info| == 2 && b < 2 && info[b].offset <= info[b].size && at + want <= out.Length
      modifies this`info, out
      ensures var g := Give(flash, lay.Addr(b), old(info[b]), want);
        && n == |g.data| && at + n <= out.Length && ok == g.ok && info == old(info)[b := g.bank]
        && out[..at + n] == old(out[..at]) + g.data
    {
      n, ok := Min(want, info[b].size - info[b].offset), true;
      if n > 0 {
        ok := PartitionRead(lay.Addr(b) + info[b].offset, out, at, n);
        info := info[b := if ok then Bank(info[b].size, info[b].offset + n) else Bank(0, 0)];
        n := if ok then n else 0;
        assert out[..at + n] == out[..at] + out[at..at + n];
      } else {
        assert info[b := Bank(info[b].size, info[b].offset)] == info;
      }
    }

    /** The loop of esp_qcloud_log_flash_read. The place to write to moves on by the
        whole count after each round, which two rounds do not get wrong. */
    method ReadBanks(out: array<byte>, want: nat) returns (got: nat)
      requires Valid() && 0 < want <= out.Length
      modifies this`info, out
      ensures Valid() && got <= want && (Now(), out[..got]) == GiveBoth(old(Now()), want)
    {
      ghost var s, data := Now(), [];
      got := 0;
      var i, at := 0, 0;
      while i < 2 && want > got
        invariant i <= 2 && |data| == got <= want && (i < 2 ==> at == got) && out[..got] == data
        invariant |info| == 2 && info[0].offset <= info[0].size && info[1].offset <= info[1].size
        invariant Round(s, want, i, info[1 - index], info[index], data)
      {
        var n, ok;
        n, ok, data := ReadRound(out, at, want, i, s, data);
        got := got + n;
        if !ok {
          return;
        }
        i, at := i + 1, at + got;
      }
      RoundsEnd(s, want, i, info[1 - index], info[index], data);
    }

    /** One round of that loop. */
    method ReadRound(out: array<byte>, at: nat, want: nat, i: nat, ghost s: State, ghost data: seq<byte>)
      returns (n: nat, ok: bool, ghost more: seq<byte>)
      requires Valid() && i < 2 && at < want <= out.Length && out[..at] == data
      requires Shape(s) && s.flash == flash && s.lay == lay && s.index == index
      requires Round(s, want, i, info[1 - index], info[index], data)
      modifies this`info, out
      ensures Valid() && at + n <= want && out[..at + n] == more
      ensures Round(s, want, if ok then i + 1 else 2, info[1 - index], info[index], more)
    {
      var b := (index + 1 + i) % 2;
      assert b == if i == 0 then 1 - index else index;
      ghost var older, newer := info[1 - index], info[index];
      assert lay.Addr(b) == (if i == 0 then OlderAddr(s) else NewerAddr(s))
        && info[b] == if i == 0 then older else newer;
      ghost var g := Give(flash, lay.Addr(b), info[b], want - |data|);
      NextRound(s, want, i, older, newer, data, g);
      n, ok := ReadBank(b, out, at, want - at);
      more := data + g.data;
      assert info[1 - index] == (if i == 0 then g.bank else older) && info[index] == if i == 1 then g.bank else newer;
    }

    /** esp_qcloud_log_flash_read */
    method Read(out: array<byte>, want: nat) returns (got: nat, err: Err)
      requires Valid() && want <= out.Length
      modifies this`info, out
      ensures Valid() && got <= want && (Now(), out[..got], err) == ReadFrom(old(Now()), want)
    {
      if want == 0 {
        return 0, InvalidArg;
      }
      if !init {
        return 0, Fail;
      }
      got := ReadBanks(out, want);
      err := if got > 0 then Ok else Fail;
    }

    /** esp_qcloud_log_flash_size: the length of the queue. */
    method Size() returns (size: nat)
      requires Valid()
      ensures size == if init then Pending(Now()) else 0
      ensures init && Sound(Now()) ==> size == |Queue(Now())|
    {
      if !init {
        return 0;
      }
      size := 0;
      var i := 0;
      while i < 2
        invariant i <= 2
        invariant size == (if i > 0 then info[0].size - info[0].offset else 0)
          + (if i > 1 then info[1].size - info[1].offset else 0)
      {
        if info[i].size >= info[i].offset {
          size := size + info[i].size - info[i].offset;
        }
        i := i + 1;
      }
    }

    method Perform(op: Op) returns (data: seq<byte>)
      requires Valid()
      modifies this`info, this`index, this`stampDue, this`flash
      ensures Valid() && Now() == Step(old(Now()), op) && data == ReadBy(old(Now()), op)
    {
      data := [];
      match op {
        case WriteOp(text, stamp) =>
          var _ := Write(text, stamp);
        case ReadOp(want) =>
          var out := new byte[want](_ => 0);
          var got, err := Read(out, want);
          data := out[..got];
      }
    }

    /** Any run of writes and reads, and all that it reads. */
    method Process(ops: seq<Op>) returns (out: seq<byte>)
      requires Valid()
      modifies this`info, this`index, this`stampDue, this`flash
      ensures Valid() && Now() == Run(old(Now()), ops) && out == AllRead(old(Now()), ops)
    {
      out := [];
      var i := 0;
      assert ops[0..] == ops && [] + AllRead(Now(), ops) == AllRead(Now(), ops);
      while i < |ops|
        invariant 0 <= i <= |ops| && Valid()
        invariant Run(Now(), ops[i..]) == Run(old(Now()), ops)
        invariant out + AllRead(Now(), ops[i..]) == AllRead(old(Now()), ops)
      {
        RunOn(Now(), ops, i, out);
        var data := Perform(ops[i]);
        out := out + data;
        i := i + 1;
      }
      assert out + [] == out;
    }
  }
}
