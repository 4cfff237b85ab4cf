/** The scanner of app_uart.c for five-byte frames 0x55 0xAA cmd data sum, and what
    the switch does on the commands it finds. */
module UartScanner {
  import opened Common

  const HEAD1: byte := 0x55

  const HEAD2: byte := 0xAA

  const ON_OFF: byte := 0x00

  const BRI_NOW: byte := 0x01

  const WIFI_RESET: byte := 0x05

  const ACCEPT_END: byte := 0xDD

  datatype Command = Command(cmd: byte, data: byte)

  // ---- what the scanner finds ----

  predicate StartsFrame(s: seq<byte>) {
    |s| >= 2 && s[0] == HEAD1 && s[1] == HEAD2
  }

  /** The commands in a buffer: a hit moves on by four bytes, not by five, and
      anything else by one; the last four bytes start nothing. */
  function Scan(s: seq<byte>): seq<Command> {
    if |s| <= 4 then []
    else if StartsFrame(s) then [Command(s[2], s[3])] + Scan(s[4..])
    else Scan(s[1..])
  }

  /** A stream as its sender means it. */
  datatype Item = Frame(command: Command, sum: byte) | Noise(b: byte)

  function Bytes(items: seq<Item>): seq<byte> {
    if items == [] then []
    else
      (match items[0]
       case Frame(c, sum) => [HEAD1, HEAD2, c.cmd, c.data, sum]
       case Noise(b) => [b]) + Bytes(items[1..])
  }

  function Commands(items: seq<Item>): seq<Command> {
    if items == [] then []
    else (if items[0].Frame? then [items[0].command] else []) + Commands(items[1..])
  }

  /** A command and its place in the buffer. */
  datatype Hit = Hit(at: nat, command: Command)

  /** Where the scanner sees frames, in a buffer that begins at the given place. */
  function Hits(s: seq<byte>, at: nat): seq<Hit> {
    if |s| <= 4 then []
    else if StartsFrame(s) then [Hit(at, Command(s[2], s[3]))] + Hits(s[4..], at + 4)
    else Hits(s[1..], at + 1)
  }

  /** Where the frames are. */
  function Frames(items: seq<Item>, at: nat): seq<Hit> {
    if items == [] then []
    else if items[0].Frame? then [Hit(at, items[0].command)] + Frames(items[1..], at + 5)
    else Frames(items[1..], at + 1)
  }

  /** The byte b makes a head with what follows it, and the scanner looks there. */
  predicate Misleads(b: byte, rest: seq<byte>) {
    |rest| >= 4 && StartsFrame([b] + rest)
  }

  /** The byte at which the scanner is after the item, or on it. */
  function LastByte(item: Item): byte {
    if item.Frame? then item.sum else item.b
  }

  /** No sum, and no byte outside the frames, makes a head with the byte behind it
      while more than four bytes remain. */
  predicate Harmless(items: seq<Item>) {
    items == [] || (!Misleads(LastByte(items[0]), Bytes(items[1..])) && Harmless(items[1..]))
  }

  /** The scanner sees frames exactly where they are if and only if the stream is
      harmless: it does not look at the sums, and goes on at them. */
  lemma {:induction false} HitsAreFrames(items: seq<Item>, at: nat)
    ensures Hits(Bytes(items), at) == Frames(items, at) <==> Harmless(items)
  {
    if items != [] {
      var rest := Bytes(items[1..]);
      match items[0]
      case Noise(b) =>
        HitsAreFrames(items[1..], at + 1);
        HitsFrom(b, rest, items[1..], at);
      case Frame(c, sum) =>
        HitsAreFrames(items[1..], at + 5);
        HitsFrom(sum, rest, items[1..], at + 4);
        var s := [HEAD1, HEAD2, c.cmd, c.data, sum] + rest;
        assert s[4..] == [sum] + rest;
        assert Frames(items, at)[1..] == Frames(items[1..], at + 5) && Hits(s, at)[1..] == Hits(s[4..], at + 4);
    }
  }

  /** One byte further: either it is passed over, or it is itself taken for a frame. */
  lemma HitsFrom(b: byte, rest: seq<byte>, items: seq<Item>, at: nat)
    ensures Hits([b] + rest, at) == Frames(items, at + 1)
      <==> !Misleads(b, rest) && Hits(rest, at + 1) == Frames(items, at + 1)
  {
    assert ([b] + rest)[1..] == rest;
    FramesLater(items, at + 1);
  }

  lemma {:induction false} FramesLater(items: seq<Item>, at: nat)
    ensures Frames(items, at) != [] ==> Frames(items, at)[0].at >= at
  {
    if items != [] && items[0].Noise? {
      FramesLater(items[1..], at + 1);
    }
  }

  function CommandsOf(hits: seq<Hit>): seq<Command> {
    if hits == [] then [] else [hits[0].command] + CommandsOf(hits[1..])
  }

  lemma {:induction false} ScanIsHits(s: seq<byte>, at: nat)
    ensures Scan(s) == CommandsOf(Hits(s, at))
    decreases |s|
  {
    if |s| > 4 {
      if StartsFrame(s) {
        ScanIsHits(s[4..], at + 4);
        assert Hits(s, at)[1..] == Hits(s[4..], at + 4);
      } else {
        ScanIsHits(s[1..], at + 1);
      }
    }
  }

  lemma {:induction false} CommandsAreFrames(items: seq<Item>, at: nat)
    ensures Commands(items) == CommandsOf(Frames(items, at))
  {
    if items != [] {
      CommandsAreFrames(items[1..], if items[0].Frame? then at + 5 else at + 1);
      assert items[0].Frame? ==> Frames(items, at)[1..] == Frames(items[1..], at + 5);
    }
  }

  /** Of a harmless stream the scanner obeys exactly the commands of the frames, in order. */
  lemma ScanFinds(items: seq<Item>)
    requires Harmless(items)
    ensures Scan(Bytes(items)) == Commands(items)
  {
    HitsAreFrames(items, 0);
    ScanIsHits(Bytes(items), 0);
    CommandsAreFrames(items, 0);
  }

  /** Noise without the two head bytes makes no head, whatever the sums are. */
  lemma {:induction false} PlainNoiseIsHarmless(items: seq<Item>)
    requires forall i :: 0 <= i < |items| && items[i].Noise? ==> items[i].b != HEAD1 && items[i].b != HEAD2
    ensures Harmless(items)
    ensures Bytes(items) == [] || Bytes(items)[0] != HEAD2
  {
    if items != [] {
      PlainNoiseIsHarmless(items[1..]);
    }
  }

  /** A sum of 0x55 with 0xAA behind it hides what follows: the scanner takes it for
      a frame of its own. */
  lemma SumMayMislead(c: Command, x: byte, y: byte, z: byte)
    ensures var items := [Frame(c, HEAD1), Noise(HEAD2), Noise(x), Noise(y), Noise(z)];
      !Harmless(items) && Commands(items) == [c] && Scan(Bytes(items)) == [c, Command(x, y)]
  {
    var tail := [Noise(HEAD2), Noise(x), Noise(y), Noise(z)];
    BytesOfNoise(HEAD2, x, y, z);
    var items := [Frame(c, HEAD1), Noise(HEAD2), Noise(x), Noise(y), Noise(z)];
    assert items[1..] == tail;
    var s := [HEAD1, HEAD2, c.cmd, c.data, HEAD1, HEAD2, x, y, z];
    assert Bytes(items) == s;
    var t := [HEAD1, HEAD2, x, y, z];
    assert s[4..] == t && t[4..] == [z];
    assert Scan(t) == [Command(x, y)] + Scan([z]) == [Command(x, y)];
    assert Scan(s) == [c] + Scan(t);
  }

  lemma BytesOfNoise(a: byte, x: byte, y: byte, z: byte)
    ensures Bytes([Noise(a), Noise(x), Noise(y), Noise(z)]) == [a, x, y, z]
    ensures Commands([Noise(a), Noise(x), Noise(y), Noise(z)]) == []
  {
    var n4, n3, n2 := [Noise(a), Noise(x), Noise(y), Noise(z)], [Noise(x), Noise(y), Noise(z)], [Noise(y), Noise(z)];
    assert n4[1..] == n3 && n3[1..] == n2 && n2[1..] == [Noise(z)];
    assert Bytes([Noise(z)]) == [z] && Bytes(n2) == [y] + [z] && Bytes(n3) == [x] + Bytes(n2);
    assert Commands([Noise(z)]) == [] && Commands(n2) == [] && Commands(n3) == [];
  }

  /** In numbers: the shortest stream with a frame. */
  lemma FrameIsFound(cmd: byte, data: byte, sum: byte)
    ensures Scan([0x55, 0xAA, cmd, data, sum]) == [Command(cmd, data)]
  {
    var s: seq<byte> := [0x55, 0xAA, cmd, data, sum];
    assert s[4..] == [sum];
    assert Scan([sum]) == [];
  }

  // ---- what the switch does ----

  /** The light as the two ends know it, and what has been sent back. */
  datatype Light = Light(status: byte, percent: byte, sent: seq<seq<byte>>, resets: nat)

  /** The reply to a command: 0xAA 0x55 0xDD cmd sum. */
  function Reply(cmd: byte): (r: seq<byte>)
    ensures |r| == 5 && r[0] == HEAD2 && r[1] == HEAD1 && !StartsFrame(r)
  {
    [HEAD2, HEAD1, ACCEPT_END, cmd, (HEAD2 + HEAD1 + ACCEPT_END + cmd) % 256]
  }

  /** A command that changes nothing is not answered, except a reset and a brightness
      out of range. */
  function Obey(l: Light, c: Command): Light {
    if c.cmd == ON_OFF then
      if c.data != l.status then l.(status := c.data, sent := l.sent + [Reply(c.cmd)]) else l
    else if c.cmd == BRI_NOW then
      if c.data != l.percent then
        l.(percent := if c.data <= 100 then c.data else l.percent, sent := l.sent + [Reply(c.cmd)])
      else l
    else if c.cmd == WIFI_RESET then l.(resets := l.resets + 1, sent := l.sent + [Reply(c.cmd)])
    else l
  }

  function ObeyAll(l: Light, cs: seq<Command>): Light
    decreases |cs|
  {
    if cs == [] then l else ObeyAll(Obey(l, cs[0]), cs[1..])
  }

  // ---- what that comes to, in the numbers of the commands ----

  /** The data of the last on/off command, or what was there before. */
  function StatusAfter(cs: seq<Command>, was: byte): byte {
    if cs == [] then was
    else if cs[|cs| - 1].cmd == 0x00 then cs[|cs| - 1].data
    else StatusAfter(cs[..|cs| - 1], was)
  }

  /** The data of the last brightness command that is a percentage, or what was there before. */
  function PercentAfter(cs: seq<Command>, was: byte): byte {
    if cs == [] then was
    else if cs[|cs| - 1].cmd == 0x01 && cs[|cs| - 1].data <= 100 then cs[|cs| - 1].data
    else PercentAfter(cs[..|cs| - 1], was)
  }

  function ResetsIn(cs: seq<Command>): nat {
    if cs == [] then 0 else ResetsIn(cs[..|cs| - 1]) + if cs[|cs| - 1].cmd == 0x05 then 1 else 0
  }

  /** The replies, in order: to each on/off and each brightness command whose data are not
      what is set, in range or not, and to each reset. */
  function RepliesTo(cs: seq<Command>, status: byte, percent: byte): seq<seq<byte>> {
    if cs == [] then []
    else
      var front, c := cs[..|cs| - 1], cs[|cs| - 1];
      RepliesTo(front, status, percent)
        + (if c.cmd == 0x00 && c.data != StatusAfter(front, status) then [[0xAA, 0x55, 0xDD, 0x00, 0xDC]]
           else if c.cmd == 0x01 && c.data != PercentAfter(front, percent) then [[0xAA, 0x55, 0xDD, 0x01, 0xDD]]
           else if c.cmd == 0x05 then [[0xAA, 0x55, 0xDD, 0x05, 0xE1]]
           else [])
  }

  lemma {:induction false} ObeyAllLast(l: Light, cs: seq<Command>)
    requires cs != []
    ensures ObeyAll(l, cs) == Obey(ObeyAll(l, cs[..|cs| - 1]), cs[|cs| - 1])
    decreases |cs|
  {
    if |cs| > 1 {
      ObeyAllLast(Obey(l, cs[0]), cs[1..]);
      assert cs[1..][..|cs| - 2] == cs[..|cs| - 1][1..];
    }
  }

  /** What obeying any commands comes to. */
  lemma {:induction false} ObeyAllIs(l: Light, cs: seq<Command>)
    ensures ObeyAll(l, cs)
         == Light(StatusAfter(cs, l.status), PercentAfter(cs, l.percent), l.sent + RepliesTo(cs, l.status, l.percent),
                  l.resets + ResetsIn(cs))
    decreases |cs|
  {
    if cs == [] {
      assert l.sent + [] == l.sent;
    } else {
      ObeyAllLast(l, cs);
      ObeyAllIs(l, cs[..|cs| - 1]);
    }
  }

  /** The last command of a kind decides. */
  lemma {:induction false} LastDecides(cs: seq<Command>, k: nat, was: byte)
    requires k < |cs|
    ensures cs[k].cmd == 0x00 && (forall j :: k < j < |cs| ==> cs[j].cmd != 0x00) ==>
      StatusAfter(cs, was) == cs[k].data
    ensures (cs[k].cmd == 0x01 && cs[k].data <= 100
             && forall j :: k < j < |cs| ==> cs[j].cmd != 0x01 || cs[j].data > 100) ==>
      PercentAfter(cs, was) == cs[k].data
    decreases |cs|
  {
    var n := |cs| - 1;
    if k < n {
      LastDecides(cs[..n], k, was);
    }
  }

  // ---- the loop ----

  /** The rest of the work, from position i on. */
  function ObeyFrom(l: Light, s: seq<byte>, i: nat): Light
    requires i <= |s|
  {
    ObeyAll(l, Scan(s[i..]))
  }

  lemma ScanStep(l: Light, s: seq<byte>, i: nat)
    requires i + 4 < |s|
    ensures ObeyFrom(l, s, i) ==
      if s[i] == HEAD1 && s[i + 1] == HEAD2 then ObeyFrom(Obey(l, Command(s[i + 2], s[i + 3])), s, i + 4)
      else ObeyFrom(l, s, i + 1)
  {
    var rest := s[i..];
    assert rest[1..] == s[i + 1..] && rest[4..] == s[i + 4..];
    if StartsFrame(rest) {
      assert ([Command(rest[2], rest[3])] + Scan(rest[4..]))[1..] == Scan(rest[4..]);
    }
  }

  /** The brightness stays a percentage; every answer is a whole reply. */
  lemma {:induction false} ObeyKeeps(l: Light, cs: seq<Command>)
    requires l.percent <= 100
    ensures var m := ObeyAll(l, cs);
      && m.percent <= 100 && l.sent <= m.sent && |m.sent| - |l.sent| <= |cs|
      && forall i :: |l.sent| <= i < |m.sent| ==> exists c :: c in cs && m.sent[i] == Reply(c.cmd)
    decreases |cs|
  {
    if cs != [] {
      ObeyKeeps(Obey(l, cs[0]), cs[1..]);
      assert cs[0] in cs;
    }
  }

  /** Switching, and dimming in range, again has no further effect and no answer. */
  lemma ObeyTwice(l: Light, c: Command)
    ensures c.cmd == ON_OFF || (c.cmd == BRI_NOW && c.data <= 100) ==> Obey(Obey(l, c), c) == Obey(l, c)
  {
  }

  class Switch {
    var light: Light

    constructor (light: Light)
      ensures this.light == light
    {
      this.light := light;
    }

    /** uart_deal_with. The index is an unsigned byte; it stays in the buffer and
        never wraps. */
    method DealWith(str: array<byte>, num: byte)
      requires num <= str.Length
      modifies this`light
      ensures light == ObeyAll(old(light), Scan(str[..num]))
      ensures var cs, was := Scan(str[..num]), old(light);
        && light.status == StatusAfter(cs, was.status) && light.percent == PercentAfter(cs, was.percent)
        && light.resets == was.resets + ResetsIn(cs)
        && light.sent == was.sent + RepliesTo(cs, was.status, was.percent)
    {
      ghost var s := str[..num];
      var i: byte := 0;
      assert s[0..] == s;
      while i < num - 4
        invariant i <= num && ObeyFrom(light, s, i) == ObeyAll(old(light), Scan(s))
      {
        ScanStep(light, s, i);
        if str[i] == HEAD1 && str[i + 1] == HEAD2 {
          light := Obey(light, Command(str[i + 2], str[i + 3]));
          i := (i + 4) % 256;
        } else {
          i := (i + 1) % 256;
        }
      }
      ObeyAllIs(old(light), Scan(s));
    }
  }
}
