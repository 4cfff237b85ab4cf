/** Whole runs of the JSON generator: one sequence of calls, made against a
    NULL buffer, a buffer of a given size, or a buffer with a flush callback. */
module JsonClient {
  import opened Common
  import opened JsonGenerator
  import opened JsonText

  /** Is everything up to and including call k within a buffer of this size? */
  ghost predicate FitsUpTo(ops: seq<Op>, k: nat, size: int)
    requires k < |ops|
  {
    |TextOf(ops[..k + 1])| < size
  }

  /** A longer prefix of the calls has a longer text. */
  lemma FitsShrinks(ops: seq<Op>, k: nat, m: nat, size: int)
    requires k <= m < |ops| && FitsUpTo(ops, m, size)
    ensures FitsUpTo(ops, k, size)
  {
    RunGrows(ops[..m + 1], k + 1, BlankPen);
    assert ops[..m + 1][..k + 1] == ops[..k + 1];
  }

  /** The return code of call k, for a buffer of this size, or without a limit. */
  ghost predicate Reported(ops: seq<Op>, k: nat, limited: bool, size: int, ret: int)
    requires k < |ops|
  {
    if limited && !FitsUpTo(ops, k, size) then ReportsReliably(ops[k]) ==> ret == -1 else ret == 0
  }

  ghost predicate AllReported(ops: seq<Op>, limited: bool, size: int, rets: seq<int>) {
    |rets| <= |ops| && forall k :: 0 <= k < |rets| ==> Reported(ops, k, limited, size, rets[k])
  }

  /** One call, knowing what the calls before it have printed. */
  method ReplayOne(g: JsonGen, ops: seq<Op>, i: nat) returns (ret: int)
    requires g.Valid() && i < |ops| && g.AsPen() == Run(ops[..i], BlankPen)
    modifies g, g.buf
    ensures g.Valid() && g.SameBuffer() && g.AsPen() == Run(ops[..i + 1], BlankPen)
    ensures Reported(ops, i, g.buf != null && !g.flushCb, g.bufSize, ret)
  {
    RunSnoc(ops[..i], ops[i], BlankPen);
    assert ops[..i] + [ops[i]] == ops[..i + 1];
    ret := g.Perform(ops[i]);
  }

  method Replay(g: JsonGen, ops: seq<Op>) returns (rets: seq<int>)
    requires g.Valid() && g.AsPen() == BlankPen
    modifies g, g.buf
    ensures g.Valid() && g.SameBuffer() && g.AsPen() == Run(ops, BlankPen)
    ensures |rets| == |ops| && AllReported(ops, g.buf != null && !g.flushCb, g.bufSize, rets)
  {
    rets := [];
    for i := 0 to |ops|
      invariant g.Valid() && g.SameBuffer() && g.AsPen() == Run(ops[..i], BlankPen)
      invariant |rets| == i && AllReported(ops, g.buf != null && !g.flushCb, g.bufSize, rets)
    {
      var ret := ReplayOne(g, ops, i);
      rets := rets + [ret];
    }
    assert ops[..|ops|] == ops;
  }

  /** Calls made against a NULL buffer report the size that is needed. */
  method Measure(ops: seq<Op>) returns (size: int)
    ensures size == |TextOf(ops)| + 1
  {
    var g := new JsonGen(null, 0, false);
    var _ := Replay(g, ops);
    size := g.End();
  }

  /** Calls made against a buffer without a callback: the buffer ends up with
      the longest prefix of the text it has room for, every reliable return code
      says whether everything so far is kept, and errors are sticky. */
  method Print(ops: seq<Op>, bufSize: int) returns (out: array<char>, rets: seq<int>)
    requires bufSize >= 1
    ensures fresh(out) && out.Length == bufSize && |rets| == |ops|
    ensures UpToNul(out[..]) == TextOf(ops)[..Min(|TextOf(ops)|, bufSize - 1)]
    ensures forall k :: 0 <= k < |ops| ==>
      if FitsUpTo(ops, k, bufSize) then rets[k] == 0 else ReportsReliably(ops[k]) ==> rets[k] == -1
    ensures forall k, m :: 0 <= k <= m < |ops| && FitsUpTo(ops, m, bufSize) ==> FitsUpTo(ops, k, bufSize)
  {
    out := new char[bufSize];
    var g := new JsonGen(out, bufSize, false);
    rets := Replay(g, ops);
    var _ := g.End();
    forall k, m | 0 <= k <= m < |ops| && FitsUpTo(ops, m, bufSize) ensures FitsUpTo(ops, k, bufSize) {
      FitsShrinks(ops, k, m, bufSize);
    }
  }

  /** Measuring first and then printing into exactly that much memory loses
      nothing and reports no error. */
  method MeasureThenPrint(ops: seq<Op>) returns (out: array<char>, rets: seq<int>)
    ensures UpToNul(out[..]) == TextOf(ops) && out.Length == |TextOf(ops)| + 1
    ensures |rets| == |ops| && forall k :: 0 <= k < |ops| ==> rets[k] == 0
  {
    var size := Measure(ops);
    out, rets := Print(ops, size);
    assert ops[..|ops|] == ops;
    assert ops != [] ==> FitsUpTo(ops, |ops| - 1, size);
  }

  /** Calls made against a flushed buffer: the callback is handed the text in
      blocks of bufSize - 1 characters, and the rest at the end. */
  method Stream(ops: seq<Op>, bufSize: int) returns (chunks: seq<string>, rets: seq<int>)
    requires bufSize >= 2
    ensures chunks != [] && Flatten(chunks) == TextOf(ops)
    ensures forall k :: 0 <= k < |chunks| - 1 ==> IsBlock(chunks[k], TextOf(ops), bufSize - 1, k)
    ensures |chunks[|chunks| - 1]| < bufSize
    ensures |rets| == |ops| && forall k :: 0 <= k < |ops| ==> rets[k] == 0
  {
    var out := new char[bufSize];
    var g := new JsonGen(out, bufSize, true);
    rets := Replay(g, ops);
    ghost var full := g.flushed;
    var _ := g.End();
    chunks := g.flushed;
    ghost var rest := chunks[|full|];
    assert chunks == full + [rest];
    EndOfStream(full, rest, TextOf(ops), bufSize);
  }

  ghost predicate IsBlock(chunk: string, text: string, each: nat, k: nat) {
    0 <= k * each <= k * each + each <= |text| && chunk == text[k * each..k * each + each]
  }

  lemma EndOfStream(full: seq<string>, rest: string, text: string, bufSize: int)
    requires bufSize >= 2 && Chunked(full, rest, text, bufSize)
    ensures Flatten(full + [rest]) == text
    ensures forall k :: 0 <= k < |full| ==> IsBlock(full[k], text, bufSize - 1, k)
  {
    FlattenSnoc(full, rest);
    forall k | 0 <= k < |full| ensures IsBlock(full[k], text, bufSize - 1, k) {
      ChunksAreBlocks(full, text, bufSize - 1, k);
    }
  }

  /** Printing a tree and reading it back. */
  method PrintTree(j: Json) returns (out: array<char>)
    ensures UpToNul(out[..]) == Render(j)
    ensures ParseText(UpToNul(out[..])) == Some(j) <==> Clean(j)
  {
    var rets;
    WalkRoundTrip(j);
    out, rets := MeasureThenPrint(Walk(j));
  }
}
