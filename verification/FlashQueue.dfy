/** Two banks of a flash partition, written in turn, that together are a queue of
    bytes: what the operations of esp_qcloud_log_flash.c do, as functions. Flash that
    is erased reads 0xFF, and writing can only clear bits. */
module FlashQueue {
  import opened Common
  import opened BitSets

  /** "[%Y-%m-%d %H:%M:%S] " */
  const STAMP_LENGTH := 22

  const NEWLINE: byte := 10

  const ERASED: byte := 0xFF

  /** flash_log_info_t, without the address */
  datatype Bank = Bank(size: nat, offset: nat)

  /** Where the banks lie: the first byte of the log, and the size of a bank. */
  datatype Layout = Layout(base: nat, bank: nat) {
    function Addr(i: nat): nat {
      if i == 0 then base else base + bank
    }
  }

  // ---- what flash does ----

  function Cleared(was: byte, x: byte): byte {
    AndAtMost(was, x);
    And(was, x)
  }

  function Programmed(flash: seq<byte>, at: nat, data: seq<byte>): seq<byte> {
    seq(|flash|, k requires 0 <= k < |flash| =>
      if at <= k < at + |data| then Cleared(flash[k], data[k - at]) else flash[k])
  }

  function Wiped(flash: seq<byte>, at: nat, n: nat): seq<byte> {
    seq(|flash|, k requires 0 <= k < |flash| => if at <= k < at + n then ERASED else flash[k])
  }

  /** Flash in bits: a bit is set afterwards if it was before, and, where something is
      written, if it is in what is written. */
  lemma ProgrammedBits(flash: seq<byte>, at: nat, data: seq<byte>, k: nat, b: nat)
    requires k < |flash|
    ensures Bit(Programmed(flash, at, data)[k], b)
       <==> Bit(flash[k], b) && (at <= k < at + |data| ==> Bit(data[k - at], b))
  {
    if at <= k < at + |data| {
      AndBit(flash[k], data[k - at], b);
    }
  }

  ghost predicate Blank(flash: seq<byte>, from: nat, to: nat) {
    forall k :: from <= k < to && k < |flash| ==> flash[k] == ERASED
  }

  /** Blank flash takes the data as it is, and nothing else changes. */
  lemma ProgramBlank(flash: seq<byte>, at: nat, data: seq<byte>)
    requires at + |data| <= |flash| && Blank(flash, at, at + |data|)
    ensures Programmed(flash, at, data)[at..at + |data|] == data
    ensures Programmed(flash, at, data)[..at] == flash[..at]
    ensures Programmed(flash, at, data)[at + |data|..] == flash[at + |data|..]
  {
    forall k | 0 <= k < |data| ensures Programmed(flash, at, data)[at + k] == data[k] {
      AndByte(data[k]);
    }
  }

  /** No bit that is set in a place is cleared by the data written over it. */
  ghost predicate Survives(flash: seq<byte>, at: nat, data: seq<byte>, from: nat, to: nat) {
    forall k :: from <= k < to && k < |flash| && at <= k < at + |data| ==> Cleared(flash[k], data[k - at]) == flash[k]
  }

  /** The same in bits. */
  lemma SurvivesBits(flash: seq<byte>, at: nat, data: seq<byte>, from: nat, to: nat)
    ensures Survives(flash, at, data, from, to) <==>
      forall k, b: nat :: from <= k < to && k < |flash| && at <= k < at + |data| && Bit(flash[k], b) ==>
        Bit(data[k - at], b)
  {
    forall k | from <= k < to && k < |flash| && at <= k < at + |data|
      ensures Cleared(flash[k], data[k - at]) == flash[k] <==>
        forall b: nat :: Bit(flash[k], b) ==> Bit(data[k - at], b)
    {
      AndKeeps(flash[k], data[k - at]);
    }
  }

  /** What is written over other data damages it, unless every bit it would clear is
      clear already. */
  lemma ProgramOver(flash: seq<byte>, at: nat, data: seq<byte>, from: nat, to: nat)
    requires from <= to <= |flash|
    ensures Programmed(flash, at, data)[from..to] == flash[from..to] <==> Survives(flash, at, data, from, to)
  {
    var after := Programmed(flash, at, data);
    if after[from..to] == flash[from..to] {
      forall k | from <= k < to && at <= k < at + |data|
        ensures Cleared(flash[k], data[k - at]) == flash[k]
      {
        assert after[from..to][k - from] == flash[from..to][k - from];
      }
    }
  }

  // ---- the log and its operations, as functions ----

  datatype Err = Ok | Fail | InvalidArg

  /** The partition and what the program keeps about it: the older bank, and the
      one being written, which is the one at index. */
  datatype State =
    State(lay: Layout, flash: seq<byte>, older: Bank, newer: Bank, index: nat, init: bool, stampDue: bool)

  predicate Shape(s: State) {
    && s.index < 2 && s.lay.base + 2 * s.lay.bank <= |s.flash|
    && s.older.offset <= s.older.size && s.newer.offset <= s.newer.size
  }

  /** Sizes are beyond a bank by no more than a timestamp. */
  predicate Bounded(s: State) {
    s.older.size <= s.lay.bank + STAMP_LENGTH && s.newer.size <= s.lay.bank + STAMP_LENGTH
  }

  function OlderAddr(s: State): nat
    requires s.index < 2
  {
    s.lay.Addr(1 - s.index)
  }

  function NewerAddr(s: State): nat {
    s.lay.Addr(s.index)
  }

  /** Where the next byte goes. */
  function End(s: State): nat {
    NewerAddr(s) + s.newer.size
  }

  /** Whether a write of n bytes goes to the other bank. */
  predicate Rotates(s: State, n: nat) {
    s.newer.size + n > s.lay.bank
  }

  /** How far into its bank a record of n bytes starts. */
  function Start(s: State, n: nat): nat {
    (if Rotates(s, n) then 0 else s.newer.size) + (if s.stampDue then STAMP_LENGTH else 0)
  }

  /** The check in front of a write does not count the timestamp: it is enough
      exactly when this holds. */
  predicate Fits(s: State, n: nat) {
    Start(s, n) + n <= s.lay.bank
  }

  /** Turn to the other bank and clear it. */
  function Rotated(s: State): (r: State)
    requires Shape(s)
    ensures Shape(r)
  {
    s.(older := s.newer, newer := Bank(0, 0), index := 1 - s.index, flash := Wiped(s.flash, OlderAddr(s), s.lay.bank))
  }

  /** Where a write of n bytes starts from: the state after its rotation, if any. */
  function Turned(s: State, n: nat): (r: State)
    requires Shape(s)
    ensures Shape(r)
  {
    if Rotates(s, n) then Rotated(s) else s
  }

  /** Write at the end of the current bank. */
  function Appended(s: State, data: seq<byte>): (r: State)
    requires Shape(s) && End(s) + |data| <= |s.flash|
    ensures Shape(r)
  {
    s.(flash := Programmed(s.flash, End(s), data), newer := Bank(s.newer.size + |data|, s.newer.offset))
  }

  /** Rotation when the data alone does not fit, then the timestamp when one is due. */
  function Prepared(s: State, n: nat, stamp: seq<byte>): (r: (State, bool))
    requires Shape(s)
    ensures Shape(r.0)
  {
    var t := Turned(s, n);
    if !t.stampDue then (t, true)
    else
      var u := t.(stampDue := false);
      if End(u) + |stamp| <= |u.flash| then (Appended(u, stamp), true) else (u, false)
  }

  function Written(s: State, data: seq<byte>, stamp: seq<byte>): (r: (State, Err))
    requires Shape(s)
    ensures Shape(r.0)
  {
    if data == [] then (s, InvalidArg)
    else if !s.init then (s, Fail)
    else
      var (t, ok) := Prepared(s, |data|, stamp);
      if ok && End(t) + |data| <= |t.flash| then
        var u := Appended(t, data);
        (u.(stampDue := u.stampDue || data[|data| - 1] == NEWLINE), Ok)
      else (t, Fail)
  }

  /** What reading a bank leaves of it, the bytes it gives, and whether flash allowed it. */
  datatype Given = Given(bank: Bank, data: seq<byte>, ok: bool)

  function Give(flash: seq<byte>, at: nat, b: Bank, want: nat): (g: Given)
    requires b.offset <= b.size
    ensures g.bank.offset <= g.bank.size && |g.data| <= want
  {
    var n := Min(want, b.size - b.offset);
    if n > 0 && at + b.offset + n > |flash| then Given(Bank(0, 0), [], false)
    else Given(Bank(b.size, b.offset + n), if n > 0 then flash[at + b.offset..at + b.offset + n] else [], true)
  }

  /** The older bank first, then the one being written. */
  function GiveBoth(s: State, want: nat): (r: (State, seq<byte>))
    requires Shape(s)
    ensures Shape(r.0) && |r.1| <= want
  {
    var first := Give(s.flash, OlderAddr(s), s.older, want);
    if first.ok && |first.data| < want then
      var second := Give(s.flash, NewerAddr(s), s.newer, want - |first.data|);
      (s.(older := first.bank, newer := second.bank), first.data + second.data)
    else (s.(older := first.bank), first.data)
  }

  /** What the reading loop has of the banks and the bytes after i rounds. */
  ghost predicate Round(s: State, want: nat, i: nat, older: Bank, newer: Bank, data: seq<byte>)
    requires Shape(s)
  {
    var first := Give(s.flash, OlderAddr(s), s.older, want);
    if i == 0 then older == s.older && newer == s.newer && data == []
    else if i == 1 then first.ok && older == first.bank && newer == s.newer && data == first.data
    else GiveBoth(s, want) == (s.(older := older, newer := newer), data)
  }

  /** The next round, and the end of the loop when it fails. */
  lemma NextRound(s: State, want: nat, i: nat, older: Bank, newer: Bank, data: seq<byte>, g: Given)
    requires Shape(s) && i < 2 && Round(s, want, i, older, newer, data) && |data| < want
    requires older.offset <= older.size && newer.offset <= newer.size
    requires g == if i == 0 then Give(s.flash, OlderAddr(s), older, want - |data|)
                  else Give(s.flash, NewerAddr(s), newer, want - |data|)
    ensures Round(s, want, if g.ok then i + 1 else 2, if i == 0 then g.bank else older,
                  if i == 1 then g.bank else newer, data + g.data)
  {
    assert [] + g.data == g.data;
  }

  lemma RoundsEnd(s: State, want: nat, i: nat, older: Bank, newer: Bank, data: seq<byte>)
    requires Shape(s) && 0 < want && i <= 2 && Round(s, want, i, older, newer, data) && (i < 2 ==> |data| == want)
    ensures Round(s, want, 2, older, newer, data)
  {
  }

  function ReadFrom(s: State, want: nat): (r: (State, seq<byte>, Err))
    requires Shape(s)
    ensures Shape(r.0)
  {
    if want == 0 then (s, [], InvalidArg)
    else if !s.init then (s, [], Fail)
    else
      var (t, data) := GiveBoth(s, want);
      (t, data, if |data| > 0 then Ok else Fail)
  }

  /** The bytes that can be read, as esp_qcloud_log_flash_size counts them. */
  function Pending(s: State): nat
    requires Shape(s)
  {
    s.older.size - s.older.offset + s.newer.size - s.newer.offset
  }

  // ---- the queue in the two banks ----

  function Unread(flash: seq<byte>, at: nat, b: Bank): (u: seq<byte>)
    requires b.offset <= b.size
    ensures at + b.size <= |flash| ==> |u| == b.size - b.offset
  {
    if at + b.size <= |flash| then flash[at + b.offset..at + b.size] else []
  }

  function Older(s: State): seq<byte>
    requires Shape(s)
  {
    Unread(s.flash, OlderAddr(s), s.older)
  }

  function Newer(s: State): seq<byte>
    requires Shape(s)
  {
    Unread(s.flash, NewerAddr(s), s.newer)
  }

  function Queue(s: State): seq<byte>
    requires Shape(s)
  {
    Older(s) + Newer(s)
  }

  /** Both banks keep to their places, what is still to be written is erased, and
      nothing is read from the current bank before the older one is exhausted. */
  ghost predicate Sound(s: State) {
    && Shape(s) && s.older.size <= s.lay.bank && s.newer.size <= s.lay.bank
    && Blank(s.flash, End(s), NewerAddr(s) + s.lay.bank)
    && (s.older.offset < s.older.size ==> s.newer.offset == 0)
  }

  lemma UnreadSame(flash: seq<byte>, flash': seq<byte>, at: nat, b: Bank)
    requires b.offset <= b.size && at + b.size <= |flash| == |flash'|
    requires forall k :: at <= k < at + b.size ==> flash'[k] == flash[k]
    ensures Unread(flash, at, b) == Unread(flash', at, b)
  {
  }

  /** Rotation forgets what is unread in the older bank, and nothing else. */
  lemma RotatedSound(s: State)
    requires Sound(s)
    ensures Sound(Rotated(s)) && Older(Rotated(s)) == Newer(s) && Newer(Rotated(s)) == []
  {
    UnreadSame(s.flash, Rotated(s).flash, NewerAddr(s), s.newer);
  }

  lemma UnreadGrows(flash: seq<byte>, at: nat, b: Bank, data: seq<byte>)
    requires b.offset <= b.size && at + b.size + |data| <= |flash|
    requires Blank(flash, at + b.size, at + b.size + |data|)
    ensures Unread(Programmed(flash, at + b.size, data), at, Bank(b.size + |data|, b.offset))
         == Unread(flash, at, b) + data
  {
    var from, end := at + b.offset, at + b.size;
    var after := Programmed(flash, end, data);
    ProgramBlank(flash, end, data);
    assert after[from..end] == after[..end][from..] == flash[..end][from..] == flash[from..end];
    assert after[from..end + |data|] == after[from..end] + after[end..end + |data|];
  }

  /** Writing where the bank has room appends. */
  lemma AppendedSound(s: State, data: seq<byte>)
    requires Sound(s) && s.newer.size + |data| <= s.lay.bank
    ensures End(s) + |data| <= |s.flash|
    ensures Sound(Appended(s, data))
  {
  }

  lemma AppendedOlder(s: State, data: seq<byte>)
    requires Shape(s) && s.older.size <= s.lay.bank && s.newer.size + |data| <= s.lay.bank
    ensures Older(Appended(s, data)) == Older(s)
  {
    UnreadSame(s.flash, Programmed(s.flash, End(s), data), OlderAddr(s), s.older);
  }

  lemma AppendedNewer(s: State, data: seq<byte>)
    requires Shape(s) && s.newer.size + |data| <= s.lay.bank
    requires Blank(s.flash, End(s), NewerAddr(s) + s.lay.bank)
    ensures Newer(Appended(s, data)) == Newer(s) + data
  {
    UnreadGrows(s.flash, NewerAddr(s), s.newer, data);
  }

  /** Reading from a bank gives the front of what is unread there. */
  lemma GiveFront(flash: seq<byte>, at: nat, b: Bank, want: nat)
    requires b.offset <= b.size && at + b.size <= |flash|
    ensures var g := Give(flash, at, b, want);
      && g.ok && g.bank.size == b.size && |g.data| == Min(want, b.size - b.offset) == g.bank.offset - b.offset
      && g.data + Unread(flash, at, g.bank) == Unread(flash, at, b)
  {
  }

  lemma Joined(d: seq<byte>, e: seq<byte>, x: seq<byte>, y: seq<byte>)
    ensures d + (x + y) == d + x + y
    ensures d + e + ([] + y) == d + (e + y)
  {
  }

  /** Reading takes the front off the queue. */
  lemma GiveBothQueue(s: State, want: nat)
    requires Sound(s)
    ensures GiveBoth(s, want).1 + Queue(GiveBoth(s, want).0) == Queue(s)
  {
    GiveFront(s.flash, OlderAddr(s), s.older, want);
    var first := Give(s.flash, OlderAddr(s), s.older, want);
    if |first.data| < want {
      GiveOn(s, want, first);
    } else {
      Joined(first.data, [], Unread(s.flash, OlderAddr(s), first.bank), Newer(s));
    }
  }

  lemma GiveOn(s: State, want: nat, first: Given)
    requires Shape(s) && s.newer.size <= s.lay.bank && first.ok && |first.data| < want
    requires first == Give(s.flash, OlderAddr(s), s.older, want)
    requires first.data + Unread(s.flash, OlderAddr(s), first.bank) == Older(s) && |first.data| == |Older(s)|
    ensures GiveBoth(s, want).1 + Queue(GiveBoth(s, want).0) == Queue(s)
  {
    var left := want - |first.data|;
    GiveFront(s.flash, NewerAddr(s), s.newer, left);
    var second := Give(s.flash, NewerAddr(s), s.newer, left);
    assert GiveBoth(s, want) == (s.(older := first.bank, newer := second.bank), first.data + second.data);
    Fronts(first.data, Unread(s.flash, OlderAddr(s), first.bank), second.data,
           Unread(s.flash, NewerAddr(s), second.bank), Older(s), Newer(s));
  }

  lemma Fronts(d: seq<byte>, dd: seq<byte>, e: seq<byte>, ee: seq<byte>, x: seq<byte>, y: seq<byte>)
    requires d + dd == x && |d| == |x| && e + ee == y
    ensures d + e + (dd + ee) == x + y
  {
    assert dd == [] && d == x;
    assert d + e + (dd + ee) == d + (e + ee);
  }

  lemma GiveBothSound(s: State, want: nat)
    requires Sound(s)
    ensures Sound(GiveBoth(s, want).0)
    ensures |GiveBoth(s, want).1| == Min(want, Pending(s)) == Pending(s) - Pending(GiveBoth(s, want).0)
  {
    GiveFront(s.flash, OlderAddr(s), s.older, want);
    var first := Give(s.flash, OlderAddr(s), s.older, want);
    if |first.data| < want {
      GiveFront(s.flash, NewerAddr(s), s.newer, want - |first.data|);
    }
  }

  // ---- one operation ----

  function Text(s: State, data: seq<byte>, stamp: seq<byte>): seq<byte> {
    (if s.stampDue then stamp else []) + data
  }

  /** What a write of n bytes gives up. */
  function Lost(s: State, n: nat): seq<byte>
    requires Shape(s)
  {
    if Rotates(s, n) then Older(s) else []
  }

  lemma RotatedFits(s: State, n: nat)
    requires Sound(s)
    ensures var t := Turned(s, n);
      && Sound(t) && Lost(s, n) + Queue(t) == Queue(s)
      && t.newer.size == (if Rotates(s, n) then 0 else s.newer.size) && t.stampDue == s.stampDue && t.init == s.init
      && (Lost(s, n) != [] ==> |Queue(t)| == s.newer.size)
  {
    if Rotates(s, n) {
      RotatedSound(s);
      assert Newer(s) + [] == Newer(s);
    } else {
      assert [] + Queue(s) == Queue(s);
    }
  }

  lemma AppendedQueue(s: State, data: seq<byte>)
    requires Sound(s) && s.newer.size + |data| <= s.lay.bank
    ensures Sound(Appended(s, data)) && Queue(Appended(s, data)) == Queue(s) + data
  {
    AppendedSound(s, data);
    AppendedOlder(s, data);
    AppendedNewer(s, data);
    assert Older(s) + (Newer(s) + data) == Older(s) + Newer(s) + data;
  }

  lemma StampQueue(s: State, b: bool)
    requires Sound(s)
    ensures Sound(s.(stampDue := b)) && Queue(s.(stampDue := b)) == Queue(s)
  {
  }

  lemma StampedQueue(s: State, stamp: seq<byte>)
    requires Sound(s) && |stamp| == STAMP_LENGTH && s.newer.size + STAMP_LENGTH <= s.lay.bank
    ensures var u := s.(stampDue := false);
      && Sound(u) && End(u) + |stamp| <= |u.flash|
      && Sound(Appended(u, stamp)) && Queue(Appended(u, stamp)) == Queue(s) + stamp
  {
    StampQueue(s, false);
    AppendedSound(s.(stampDue := false), stamp);
    AppendedQueue(s.(stampDue := false), stamp);
  }

  lemma PreparedQueue(s: State, n: nat, stamp: seq<byte>)
    requires Sound(s) && |stamp| == STAMP_LENGTH && Fits(s, n)
    ensures var (t, ok) := Prepared(s, n, stamp);
      && ok && Sound(t) && t.newer.size + n <= s.lay.bank && t.lay == s.lay
      && Lost(s, n) + Queue(t) == Queue(s) + (if s.stampDue then stamp else [])
      && (Lost(s, n) != [] ==> |Queue(t)| == Start(s, n) + s.newer.size)
  {
    RotatedFits(s, n);
    var t := Turned(s, n);
    if s.stampDue {
      StampedQueue(t, stamp);
      Joined(Lost(s, n), [], Queue(t), stamp);
    } else {
      assert Queue(s) + [] == Queue(s);
    }
  }

  /** A record that fits is appended to the queue, behind a timestamp that is due. A
      rotation gives up the oldest bytes only, and never one of the last bankful. */
  lemma WriteQueue(s: State, data: seq<byte>, stamp: seq<byte>)
    requires Sound(s) && s.init && data != [] && |stamp| == STAMP_LENGTH && Fits(s, |data|)
    ensures var (t, err) := Written(s, data, stamp);
      && err == Ok && Sound(t) && Lost(s, |data|) + Queue(t) == Queue(s) + Text(s, data, stamp)
      && (Lost(s, |data|) != [] ==> |Queue(t)| > s.lay.bank)
      && (t.stampDue <==> data[|data| - 1] == 10)
  {
    var n := |data|;
    var head := if s.stampDue then stamp else [];
    PreparedQueue(s, n, stamp);
    var (t, ok) := Prepared(s, n, stamp);
    AppendedQueue(t, data);
    var u := Appended(t, data);
    StampQueue(u, u.stampDue || data[n - 1] == NEWLINE);
    Regroup(Lost(s, n), Queue(t), Queue(s), head, data);
  }

  lemma Regroup(l: seq<byte>, t: seq<byte>, q: seq<byte>, head: seq<byte>, data: seq<byte>)
    requires l + t == q + head
    ensures l + (t + data) == q + (head + data)
  {
    assert l + (t + data) == l + t + data;
    assert q + (head + data) == q + head + data;
  }

  /** A write that succeeds keeps to its bank exactly when the record fits; in any
      case records no longer than a bank go beyond it by a timestamp at most. */
  lemma SpaceCheck(s: State, data: seq<byte>, stamp: seq<byte>)
    requires Shape(s) && |stamp| == STAMP_LENGTH
    ensures var (t, err) := Written(s, data, stamp);
      && (err == Ok ==> (t.newer.size <= s.lay.bank <==> Fits(s, |data|)))
      && (Bounded(s) && |data| <= s.lay.bank ==> Bounded(t))
  {
  }

  lemma ProgramTwice(flash: seq<byte>, at: nat, x: seq<byte>, y: seq<byte>)
    ensures Programmed(Programmed(flash, at, x), at + |x|, y) == Programmed(flash, at, x + y)
  {
  }

  lemma Spilled(s: State, data: seq<byte>, stamp: seq<byte>)
    requires Shape(s) && s.init && data != [] && End(Turned(s, |data|)) + |Text(s, data, stamp)| <= |s.flash|
    ensures var (t, err), r := Written(s, data, stamp), Turned(s, |data|);
      && err == Ok && t.flash == Programmed(r.flash, End(r), Text(s, data, stamp))
      && t.older == r.older && t.newer == Bank(r.newer.size + |Text(s, data, stamp)|, r.newer.offset)
      && t.index == r.index && t.lay == s.lay && t.init
  {
    if s.stampDue {
      var r := Turned(s, |data|);
      ProgramTwice(r.flash, End(r), stamp, data);
    } else {
      assert [] + data == data;
    }
  }

  /** What any write does to what is unread in the older bank: after the rotation, if
      there is one, it stays as it is exactly if no bit of it is cleared by the text
      that is put at the end of the other bank, and beyond. */
  lemma SpillDamages(s: State, data: seq<byte>, stamp: seq<byte>)
    requires Shape(s) && s.init && data != [] && End(Turned(s, |data|)) + |Text(s, data, stamp)| <= |s.flash|
    requires Turned(s, |data|).older.size <= s.lay.bank
    ensures var r := Turned(s, |data|);
      Older(Written(s, data, stamp).0) == Older(r) <==>
        Survives(r.flash, End(r), Text(s, data, stamp), OlderAddr(r) + r.older.offset, OlderAddr(r) + r.older.size)
  {
    Spilled(s, data, stamp);
    OlderOver(Turned(s, |data|), Written(s, data, stamp).0, Text(s, data, stamp));
  }

  lemma OlderOver(r: State, t: State, text: seq<byte>)
    requires Shape(r) && Shape(t) && r.older.size <= r.lay.bank
    requires t.flash == Programmed(r.flash, End(r), text) && t.older == r.older && t.index == r.index && t.lay == r.lay
    ensures Older(t) == Older(r) <==>
      Survives(r.flash, End(r), text, OlderAddr(r) + r.older.offset, OlderAddr(r) + r.older.size)
  {
    OlderOf(r, t);
    ProgramOver(r.flash, End(r), text, OlderAddr(r) + r.older.offset, OlderAddr(r) + r.older.size);
  }

  lemma OlderOf(s: State, t: State)
    requires Shape(s) && Shape(t) && s.older.size <= s.lay.bank
    requires t.older == s.older && t.index == s.index && t.lay == s.lay
    ensures var from, to := OlderAddr(s) + s.older.offset, OlderAddr(s) + s.older.size;
      to <= |s.flash| && to <= |t.flash| && Older(s) == s.flash[from..to] && Older(t) == t.flash[from..to]
  {
  }

  // ---- any run ----

  datatype Op = WriteOp(data: seq<byte>, stamp: seq<byte>) | ReadOp(want: nat)

  function Step(s: State, op: Op): (t: State)
    requires Shape(s)
    ensures Shape(t)
  {
    match op
    case WriteOp(data, stamp) => Written(s, data, stamp).0
    case ReadOp(want) => ReadFrom(s, want).0
  }

  /** The bytes that leave the queue: read, or given up. */
  function Leaving(s: State, op: Op): seq<byte>
    requires Shape(s)
  {
    match op
    case WriteOp(data, stamp) => if data == [] || !s.init then [] else Lost(s, |data|)
    case ReadOp(want) => ReadFrom(s, want).1
  }

  function Entering(s: State, op: Op): seq<byte> {
    match op
    case WriteOp(data, stamp) => if data == [] || !s.init then [] else Text(s, data, stamp)
    case ReadOp(_) => []
  }

  predicate Fitting(s: State, op: Op) {
    op.WriteOp? ==> |op.stamp| == STAMP_LENGTH && Fits(s, |op.data|)
  }

  lemma StepQueue(s: State, op: Op)
    requires Sound(s) && Fitting(s, op)
    ensures Sound(Step(s, op)) && Leaving(s, op) + Queue(Step(s, op)) == Queue(s) + Entering(s, op)
  {
    match op
    case WriteOp(data, stamp) =>
      if data != [] && s.init {
        WriteQueue(s, data, stamp);
      } else {
        assert [] + Queue(s) == Queue(s) + [];
      }
    case ReadOp(want) =>
      assert [] + Queue(s) == Queue(s) + [] == Queue(s);
      GiveBothQueue(s, want);
      GiveBothSound(s, want);
  }

  ghost function Run(s: State, ops: seq<Op>): (t: State)
    requires Shape(s)
    ensures Shape(t)
    decreases |ops|
  {
    if ops == [] then s else Run(Step(s, ops[0]), ops[1..])
  }

  ghost predicate AllFitting(s: State, ops: seq<Op>)
    requires Shape(s)
    decreases |ops|
  {
    ops == [] || (Fitting(s, ops[0]) && AllFitting(Step(s, ops[0]), ops[1..]))
  }

  ghost function AllLeaving(s: State, ops: seq<Op>): seq<byte>
    requires Shape(s)
    decreases |ops|
  {
    if ops == [] then [] else Leaving(s, ops[0]) + AllLeaving(Step(s, ops[0]), ops[1..])
  }

  ghost function AllEntering(s: State, ops: seq<Op>): seq<byte>
    requires Shape(s)
    decreases |ops|
  {
    if ops == [] then [] else Entering(s, ops[0]) + AllEntering(Step(s, ops[0]), ops[1..])
  }

  /** Over any run of writes that fit and of reads, what leaves is what entered, in
      order, byte for byte; what has not left is in the queue. */
  lemma {:induction false} RunQueue(s: State, ops: seq<Op>)
    requires Sound(s) && AllFitting(s, ops)
    ensures Sound(Run(s, ops)) && AllLeaving(s, ops) + Queue(Run(s, ops)) == Queue(s) + AllEntering(s, ops)
    decreases |ops|
  {
    if ops == [] {
      assert [] + Queue(s) == Queue(s) + [];
    } else {
      StepQueue(s, ops[0]);
      var t := Step(s, ops[0]);
      RunQueue(t, ops[1..]);
      Chain(Leaving(s, ops[0]), AllLeaving(t, ops[1..]), Queue(Run(t, ops[1..])), Queue(t),
            Entering(s, ops[0]), AllEntering(t, ops[1..]), Queue(s));
    }
  }

  lemma Chain(l: seq<byte>, ls: seq<byte>, last: seq<byte>, next: seq<byte>, e: seq<byte>, es: seq<byte>,
              first: seq<byte>)
    requires l + next == first + e && ls + last == next + es
    ensures l + ls + last == first + (e + es)
  {
    assert l + ls + last == l + (ls + last);
    assert l + (next + es) == l + next + es;
    assert first + (e + es) == first + e + es;
  }

  function ReadBy(s: State, op: Op): seq<byte>
    requires Shape(s)
  {
    if op.ReadOp? then ReadFrom(s, op.want).1 else []
  }

  ghost function AllRead(s: State, ops: seq<Op>): seq<byte>
    requires Shape(s)
    decreases |ops|
  {
    if ops == [] then [] else ReadBy(s, ops[0]) + AllRead(Step(s, ops[0]), ops[1..])
  }

  lemma RunOn(s: State, ops: seq<Op>, i: nat, out: seq<byte>)
    requires Shape(s) && i < |ops|
    ensures Run(s, ops[i..]) == Run(Step(s, ops[i]), ops[i + 1..])
    ensures out + AllRead(s, ops[i..]) == out + ReadBy(s, ops[i]) + AllRead(Step(s, ops[i]), ops[i + 1..])
  {
    assert ops[i..][1..] == ops[i + 1..];
  }

  /** Nothing unread is ever rotated away. */
  ghost predicate KeepsUp(s: State, ops: seq<Op>)
    requires Shape(s)
    decreases |ops|
  {
    ops == [] || ((ops[0].WriteOp? ==> Leaving(s, ops[0]) == []) && KeepsUp(Step(s, ops[0]), ops[1..]))
  }

  /** Then everything that is written is read, in order, or still in the queue. */
  lemma {:induction false} NothingLost(s: State, ops: seq<Op>)
    requires Sound(s) && AllFitting(s, ops) && KeepsUp(s, ops)
    ensures AllRead(s, ops) + Queue(Run(s, ops)) == Queue(s) + AllEntering(s, ops)
  {
    RunQueue(s, ops);
    ReadIsLeaving(s, ops);
  }

  lemma {:induction false} ReadIsLeaving(s: State, ops: seq<Op>)
    requires Shape(s) && KeepsUp(s, ops)
    ensures AllRead(s, ops) == AllLeaving(s, ops)
    decreases |ops|
  {
    if ops != [] {
      ReadIsLeaving(Step(s, ops[0]), ops[1..]);
    }
  }

  /** A log that is new. */
  function Fresh(lay: Layout, flash: seq<byte>): State {
    State(lay, Wiped(flash, lay.base, 2 * lay.bank), Bank(0, 0), Bank(0, 0), 0, true, true)
  }

  /** It is an empty queue. */
  lemma NewLog(lay: Layout, flash: seq<byte>)
    requires lay.base + 2 * lay.bank <= |flash|
    ensures var s := Fresh(lay, flash);
      Sound(s) && Queue(s) == [] && Bounded(s)
  {
  }

  /** A record no longer than a bank, or a read. */
  predicate Modest(bank: nat, op: Op) {
    op.WriteOp? ==> |op.stamp| == STAMP_LENGTH && |op.data| <= bank
  }

  lemma StepBounded(s: State, op: Op)
    requires Shape(s) && Bounded(s) && Modest(s.lay.bank, op)
    ensures Bounded(Step(s, op)) && Step(s, op).lay == s.lay
  {
    if op.WriteOp? {
      SpaceCheck(s, op.data, op.stamp);
    }
  }

  /** Over any run of reads and of writes of records no longer than a bank, whether
      they fit or not, a bank's offset is at most its size, and its size at most a
      timestamp beyond the bank. */
  lemma {:induction false} RunBounded(s: State, ops: seq<Op>)
    requires Shape(s) && Bounded(s) && forall i :: 0 <= i < |ops| ==> Modest(s.lay.bank, ops[i])
    ensures var t := Run(s, ops);
      && Bounded(t) && t.lay == s.lay
      && t.older.offset <= t.older.size <= s.lay.bank + STAMP_LENGTH
      && t.newer.offset <= t.newer.size <= s.lay.bank + STAMP_LENGTH
    decreases |ops|
  {
    if ops != [] {
      StepBounded(s, ops[0]);
      RunBounded(Step(s, ops[0]), ops[1..]);
    }
  }

  /** So it is in every state that a new log can reach. */
  lemma LogBounded(lay: Layout, flash: seq<byte>, ops: seq<Op>)
    requires lay.base + 2 * lay.bank <= |flash| && forall i :: 0 <= i < |ops| ==> Modest(lay.bank, ops[i])
    ensures var t := Run(Fresh(lay, flash), ops);
      && t.older.offset <= t.older.size <= lay.bank + STAMP_LENGTH
      && t.newer.offset <= t.newer.size <= lay.bank + STAMP_LENGTH
  {
    NewLog(lay, flash);
    RunBounded(Fresh(lay, flash), ops);
  }

  // ---- the check in front of a write misses the timestamp ----

  /** A record that fits, behind a timestamp. */
  lemma RecordFits(s: State, data: seq<byte>, stamp: seq<byte>)
    requires Sound(s) && s.init && s.stampDue && data != [] && |stamp| == STAMP_LENGTH && Fits(s, |data|)
    ensures var t, r := Written(s, data, stamp).0, Turned(s, |data|);
      && Sound(t) && Newer(t) == Newer(r) + (stamp + data) && t.older == r.older
      && t.newer == Bank(r.newer.size + STAMP_LENGTH + |data|, r.newer.offset) && t.index == r.index
      && t.init && t.lay == s.lay && (t.stampDue <==> data[|data| - 1] == 10)
  {
    RotatedFits(s, |data|);
    WriteQueue(s, data, stamp);
    Spilled(s, data, stamp);
    NewerGrown(Turned(s, |data|), Written(s, data, stamp).0, stamp + data);
  }

  lemma NewerGrown(r: State, t: State, text: seq<byte>)
    requires Sound(r) && Shape(t) && r.newer.size + |text| <= r.lay.bank
    requires t.flash == Programmed(r.flash, End(r), text) && t.lay == r.lay && t.index == r.index
    requires t.newer == Bank(r.newer.size + |text|, r.newer.offset)
    ensures Newer(t) == Newer(r) + text
  {
    UnreadGrows(r.flash, NewerAddr(r), r.newer, text);
  }

  predicate IsStamp(stamp: seq<byte>) {
    |stamp| == STAMP_LENGTH && stamp[0] == 91 && stamp[1] == 50      // "[2"
  }

  function ThreeRecords(a: seq<byte>, b: seq<byte>, c: seq<byte>, stamp: seq<byte>): seq<Op> {
    [WriteOp(a, stamp), WriteOp(b, stamp), WriteOp(c, stamp)]
  }

  predicate IsRecord(data: seq<byte>, n: int) {
    |data| == n > 0 && data[n - 1] == NEWLINE
  }

  /** The first record of a log, and one after a full bank. */
  lemma FirstRecord(s: State, data: seq<byte>, stamp: seq<byte>)
    requires Sound(s) && s.init && s.stampDue && data != [] && |stamp| == STAMP_LENGTH
    requires STAMP_LENGTH + |data| <= s.lay.bank && s.newer == Bank(0, 0)
    ensures var t := Written(s, data, stamp).0;
      && Fits(s, |data|) && Sound(t) && Newer(t) == stamp + data
      && t.newer == Bank(STAMP_LENGTH + |data|, 0) && t.index == s.index
      && t.init && t.lay == s.lay && (t.stampDue <==> data[|data| - 1] == 10)
  {
    RecordFits(s, data, stamp);
    assert Newer(s) == [];
    assert [] + (stamp + data) == stamp + data;
  }

  lemma NextRecord(s: State, data: seq<byte>, stamp: seq<byte>)
    requires Sound(s) && s.init && s.stampDue && data != [] && |stamp| == STAMP_LENGTH
    requires STAMP_LENGTH + |data| <= s.lay.bank && s.newer == Bank(s.lay.bank, 0)
    ensures var t := Written(s, data, stamp).0;
      && Fits(s, |data|) && Sound(t) && Older(t) == Newer(s) && Newer(t) == stamp + data
      && t.older == s.newer && t.newer == Bank(STAMP_LENGTH + |data|, 0) && t.index == 1 - s.index
      && t.init && t.lay == s.lay && (t.stampDue <==> data[|data| - 1] == 10)
  {
    RecordFits(s, data, stamp);
    RotatedSound(s);
    assert [] + (stamp + data) == stamp + data;
    WriteQueue(s, data, stamp);
    OlderKept(s, data, stamp);
  }

  /** A record that fits leaves the older bank as the rotation left it. */
  lemma OlderKept(s: State, data: seq<byte>, stamp: seq<byte>)
    requires Sound(s) && s.init && s.stampDue && data != [] && |stamp| == STAMP_LENGTH && Fits(s, |data|)
    ensures Older(Written(s, data, stamp).0) == Older(Turned(s, |data|))
  {
    var r := Turned(s, |data|);
    RotatedFits(s, |data|);
    SpillDamages(s, data, stamp);
  }

  /** Three records that fill the first bank, then the second, then the first again
      up to its last byte. */
  lemma AfterThree(lay: Layout, flash: seq<byte>, a: seq<byte>, b: seq<byte>, c: seq<byte>, stamp: seq<byte>)
    requires lay.base + 2 * lay.bank <= |flash| && IsStamp(stamp)
    requires IsRecord(a, lay.bank - 22) && IsRecord(b, lay.bank - 22) && IsRecord(c, lay.bank - 23)
    ensures var s, ops := Fresh(lay, flash), ThreeRecords(a, b, c, stamp);
      var t := Run(s, ops);
      && AllFitting(s, ops) && Sound(t) && t.init && t.stampDue && t.lay == lay && t.index == 0
      && t.older == Bank(lay.bank, 0) && t.newer == Bank(lay.bank - 1, 0) && Older(t) == stamp + b
  {
    var s := Fresh(lay, flash);
    NewLog(lay, flash);
    FirstRecord(s, a, stamp);
    var s1 := Step(s, WriteOp(a, stamp));
    NextRecord(s1, b, stamp);
    var s2 := Step(s1, WriteOp(b, stamp));
    NextRecord(s2, c, stamp);
    RunOfThree(s, WriteOp(a, stamp), WriteOp(b, stamp), WriteOp(c, stamp));
  }

  lemma RunOfThree(s: State, a: Op, b: Op, c: Op)
    requires Shape(s)
    ensures Run(s, [a, b, c]) == Step(Step(Step(s, a), b), c)
    ensures AllFitting(s, [a, b, c]) <==>
      Fitting(s, a) && Fitting(Step(s, a), b) && Fitting(Step(Step(s, a), b), c)
  {
    assert [a, b, c][1..] == [b, c] && [b, c][1..] == [c] && [c][1..] == [];
    var t := Step(Step(s, a), b);
    assert Run(Step(t, c), []) == Step(t, c) && Run(t, [c]) == Step(t, c);
    assert Run(Step(s, a), [b, c]) == Run(t, [c]);
    assert AllFitting(t, [c]) <==> Fitting(t, c) && AllFitting(Step(t, c), []);
    assert AllFitting(Step(s, a), [b, c]) <==> Fitting(Step(s, a), b) && AllFitting(t, [c]);
  }

  /** In any log, then, one more byte finds room according to the check, and succeeds,
      but its timestamp does not fit: its second character falls on the first unread
      one of the other bank, and damages it. */
  lemma CheckMisses(lay: Layout, flash: seq<byte>, a: seq<byte>, b: seq<byte>, c: seq<byte>, stamp: seq<byte>, x: byte)
    requires lay.base + 2 * lay.bank <= |flash| && IsStamp(stamp)
    requires IsRecord(a, lay.bank - 22) && IsRecord(b, lay.bank - 22) && IsRecord(c, lay.bank - 23)
    ensures var s := Run(Fresh(lay, flash), ThreeRecords(a, b, c, stamp));
      var (t, err) := Written(s, [x], stamp);
      && Sound(s) && !Rotates(s, 1) && !Fits(s, 1) && err == Ok
      && Older(s) == stamp + b && Older(t) != Older(s) && Older(t)[0] == 18
  {
    AfterThree(lay, flash, a, b, c, stamp);
    OneMore(Run(Fresh(lay, flash), ThreeRecords(a, b, c, stamp)), stamp, x);
  }

  lemma OneMore(s: State, stamp: seq<byte>, x: byte)
    requires Sound(s) && s.init && s.stampDue && s.index == 0 && IsStamp(stamp)
    requires s.older.offset == 0 < s.older.size && s.newer.size == s.lay.bank - 1
    requires Older(s)[0] == 91 && s.lay.bank > 22
    ensures var (t, err) := Written(s, [x], stamp);
      !Rotates(s, 1) && !Fits(s, 1) && err == Ok && Older(t) != Older(s) && Older(t) != [] && Older(t)[0] == 18
  {
    Spilled(s, [x], stamp);
    var t := Written(s, [x], stamp).0;
    OlderOf(s, t);
    StampBits();
    var first := OlderAddr(s);
    assert first == End(s) + 1 && s.flash[first] == Older(s)[0];
    assert t.flash[first] == Cleared(s.flash[first], (stamp + [x])[1]);
  }

  lemma StampBits()
    ensures Cleared(91, 50) == 18
  {
    assert And(91, 50) == 2 * And(45, 25);
    assert And(45, 25) == 1 + 2 * And(22, 12) == 1 + 4 * And(11, 6);
    assert And(11, 6) == 2 * And(5, 3) && And(5, 3) == 1 + 2 * And(2, 1) && And(2, 1) == 2 * And(1, 0) == 0;
  }
}
