/** The streaming JSON generator of json_generator.c: a printer over a fixed
    buffer, with an optional flush callback and a NULL-buffer measure mode. */
module JsonGenerator {
  import opened Common

  /** The characters of a C string, without the terminating NUL. */
  type CString = s: string | '\0' !in s witness ""

  /** A `char *` argument; the generator accepts NULL. */
  datatype CPtr = Null | Str(chars: CString)

  function Chars(p: CPtr): CString {
    match p
    case Null => ""
    case Str(s) => s
  }

  /** What a reader of a `char *` sees: everything before the first NUL. */
  function UpToNul(memory: seq<char>): string {
    if memory == [] || memory[0] == '\0' then "" else [memory[0]] + UpToNul(memory[1..])
  }

  lemma {:induction false} UpToNulReads(memory: seq<char>, n: nat)
    requires n < |memory| && memory[n] == '\0' && '\0' !in memory[..n]
    ensures UpToNul(memory) == memory[..n]
  {
    if n > 0 {
      assert memory[0] in memory[..n];
      assert memory[1..][..n - 1] == memory[..n][1..];
      assert forall c :: c in memory[1..][..n - 1] ==> c in memory[..n];
      UpToNulReads(memory[1..], n - 1);
      assert memory[..n] == [memory[0]] + memory[1..][..n - 1];
    }
  }

  /** A scalar as the emitters receive it; numbers are already formatted. */
  datatype Scalar =
    | BoolValue(b: bool)
    | NumberValue(token: CString)
    | StringValue(s: CPtr)
    | NullValue

  /** One call of the public interface between start and end. */
  datatype Op =
    | StartObject
    | EndObject
    | StartArray
    | EndArray
    | PushObject(name: CPtr)
    | PopObject
    | PushArray(name: CPtr)
    | PopArray
    | PushObjectStr(name: CPtr, json: CPtr)
    | PushArrayStr(name: CPtr, json: CPtr)
    | ObjSet(name: CPtr, v: Scalar)
    | ArrSet(v: Scalar)
    | ObjStartLong(name: CPtr, s: CPtr)
    | ArrStartLong(s: CPtr)
    | AddToLong(s: CPtr)
    | EndLong

  /** The abstract printer: the comma flag and the ideal, unbounded text. */
  datatype Pen = Pen(comma: bool, text: string)

  function Comma(p: Pen): string {
    if p.comma then "," else ""
  }

  function Named(name: CPtr): string {
    "\"" + Chars(name) + "\":"
  }

  function ScalarText(v: Scalar): string {
    match v
    case BoolValue(b) => if b then "true" else "false"
    case NumberValue(token) => token
    case StringValue(s) => "\"" + Chars(s) + "\""
    case NullValue => "null"
  }

  /** What one call adds to the ideal text. */
  function Piece(op: Op): string {
    match op
    case StartObject => "{"
    case EndObject => "}"
    case StartArray => "["
    case EndArray => "]"
    case PushObject(name) => Named(name) + "{"
    case PopObject => "}"
    case PushArray(name) => Named(name) + "["
    case PopArray => "]"
    case PushObjectStr(name, json) => Named(name) + Chars(json)
    case PushArrayStr(name, json) => Named(name) + Chars(json)
    case ObjSet(name, v) => Named(name) + ScalarText(v)
    case ArrSet(v) => ScalarText(v)
    case ObjStartLong(name, s) => Named(name) + "\"" + Chars(s)
    case ArrStartLong(s) => "\"" + Chars(s)
    case AddToLong(s) => Chars(s)
    case EndLong => "\""
  }

  predicate Opens(op: Op) {
    op.StartObject? || op.StartArray? || op.PushObject? || op.PushArray?
  }

  predicate Closes(op: Op) {
    op.EndObject? || op.EndArray? || op.PopObject? || op.PopArray?
  }

  predicate Continues(op: Op) {
    op.AddToLong? || op.EndLong?
  }

  function Emit(op: Op, p: Pen): Pen {
    if Continues(op) then Pen(p.comma, p.text + Piece(op))
    else if Closes(op) then Pen(true, p.text + Piece(op))
    else Pen(!Opens(op), p.text + Comma(p) + Piece(op))
  }

  function Run(ops: seq<Op>, p: Pen): Pen {
    if ops == [] then p else Emit(ops[|ops| - 1], Run(ops[..|ops| - 1], p))
  }

  const BlankPen := Pen(false, "")

  /** The full text a sequence of calls is meant to produce. */
  function TextOf(ops: seq<Op>): string {
    Run(ops, BlankPen).text
  }

  lemma RunSnoc(ops: seq<Op>, op: Op, p: Pen)
    ensures Run(ops + [op], p) == Emit(op, Run(ops, p))
  {
    assert (ops + [op])[..|ops|] == ops;
  }

  lemma {:induction false} RunConcat(a: seq<Op>, b: seq<Op>, p: Pen)
    ensures Run(a + b, p) == Run(b, Run(a, p))
  {
    if b == [] {
      assert a + b == a;
    } else {
      var n := |b| - 1;
      assert (a + b)[..|a| + n] == a + b[..n];
      RunConcat(a, b[..n], p);
    }
  }

  /** The text only ever grows at its end. */
  lemma {:induction false} RunGrows(ops: seq<Op>, k: nat, p: Pen)
    requires k <= |ops|
    ensures |Run(ops[..k], p).text| <= |Run(ops, p).text|
    ensures Run(ops, p).text[..|Run(ops[..k], p).text|] == Run(ops[..k], p).text
  {
    if k == |ops| {
      assert ops[..k] == ops;
    } else {
      var n := |ops| - 1;
      assert ops[..n][..k] == ops[..k];
      RunGrows(ops[..n], k, p);
    }
  }

  /** The C strings never contain NUL, so neither does the text. */
  lemma {:induction false} TextHasNoNul(ops: seq<Op>, p: Pen)
    requires '\0' !in p.text
    ensures '\0' !in Run(ops, p).text
  {
    if ops != [] {
      TextHasNoNul(ops[..|ops| - 1], p);
      PieceHasNoNul(ops[|ops| - 1]);
    }
  }

  lemma PieceHasNoNul(op: Op)
    ensures '\0' !in Piece(op)
  {
    match op
    case ObjSet(_, v) => ScalarHasNoNul(v);
    case ArrSet(v) => ScalarHasNoNul(v);
    case _ =>
  }

  lemma ScalarHasNoNul(v: Scalar)
    ensures '\0' !in ScalarText(v)
  {
  }

  /** The last thing a call appends is nonempty: then its return code is
      meaningful although the codes of its earlier appends are discarded. */
  predicate ReportsReliably(op: Op) {
    match op
    case PushObjectStr(_, json) => Chars(json) != ""
    case PushArrayStr(_, json) => Chars(json) != ""
    case ObjSet(_, NumberValue(token)) => token != ""
    case ArrSet(NumberValue(token)) => token != ""
    case ObjStartLong(_, s) => Chars(s) != ""
    case ArrStartLong(s) => Chars(s) != ""
    case AddToLong(s) => Chars(s) != ""
    case _ => true
  }

  // ---- the comma flag in place of a stack ----

  /** The textbook printer: one "has an element" flag per open container. The
      bottom entry stands for the document itself. */
  datatype Stack = Stack(open: seq<bool>, text: string)

  function Top(s: Stack): bool
    requires s.open != []
  {
    s.open[|s.open| - 1]
  }

  function MarkTop(open: seq<bool>): seq<bool>
    requires open != []
  {
    open[|open| - 1 := true]
  }

  /** The call does not close the document itself. */
  predicate Allowed(op: Op, s: Stack) {
    s.open != [] && (Closes(op) ==> |s.open| >= 2)
  }

  function StackEmit(op: Op, s: Stack): (r: Stack)
    requires Allowed(op, s)
    ensures r.open != []
  {
    if Continues(op) then Stack(s.open, s.text + Piece(op))
    else if Closes(op) then Stack(s.open[..|s.open| - 1], s.text + Piece(op))
    else
      var open := MarkTop(s.open);
      Stack(if Opens(op) then open + [false] else open,
            s.text + (if Top(s) then "," else "") + Piece(op))
  }

  /** None as soon as a call would close the document itself. */
  function StackRun(ops: seq<Op>): (r: Option<Stack>)
    ensures r.Some? ==> r.value.open != []
  {
    if ops == [] then Some(Stack([false], ""))
    else
      match StackRun(ops[..|ops| - 1])
      case None => None
      case Some(s) => if Allowed(ops[|ops| - 1], s) then Some(StackEmit(ops[|ops| - 1], s)) else None
  }

  /** Every enclosing container already counts the open one as an element. */
  ghost predicate OuterMarked(s: Stack) {
    forall k :: 0 <= k < |s.open| - 1 ==> s.open[k]
  }

  /** At every nesting depth the single flag equals "the current container
      already has an element", so both printers write the same text. */
  lemma {:induction false} FlagIsTopOfStack(ops: seq<Op>)
    requires StackRun(ops).Some?
    ensures var p, s := Run(ops, BlankPen), StackRun(ops).value;
      p.comma == Top(s) && p.text == s.text && OuterMarked(s)
  {
    if ops != [] {
      FlagIsTopOfStack(ops[..|ops| - 1]);
    }
  }

  // ---- the generator over its buffer ----

  /** How an unbounded text sits in a buffer of `size` bytes: full chunks of
      size - 1 characters, and a rest that is never empty before its time. */
  ghost predicate Chunked(chunks: seq<string>, rest: string, text: string, size: int) {
    && Flatten(chunks) + rest == text
    && (forall k :: 0 <= k < |chunks| ==> |chunks[k]| == size - 1)
    && |rest| <= size - 1
    && (rest == "" ==> text == "")
  }

  /** The text alone determines the chunks: they are its consecutive blocks. */
  lemma {:induction false} ChunksAreBlocks(chunks: seq<string>, text: string, each: nat, k: nat)
    requires Flatten(chunks) <= text && k < |chunks|
    requires forall m :: 0 <= m < |chunks| ==> |chunks[m]| == each
    ensures 0 <= k * each <= k * each + each <= |text|
    ensures chunks[k] == text[k * each..k * each + each]
  {
    var n := |chunks| - 1;
    FlattenLength(chunks[..n], each);
    assert Flatten(chunks) == Flatten(chunks[..n]) + chunks[n];
    if k < n {
      ChunksAreBlocks(chunks[..n], text, each, k);
    }
  }

  lemma {:induction false} FlattenLength(chunks: seq<string>, each: nat)
    requires forall k :: 0 <= k < |chunks| ==> |chunks[k]| == each
    ensures |Flatten(chunks)| == |chunks| * each
  {
    if chunks != [] {
      FlattenLength(chunks[..|chunks| - 1], each);
      calc {
        |Flatten(chunks)|;
        (|chunks| - 1) * each + each;
        |chunks| * each;
      }
    }
  }

  class JsonGen {
    var buf: array?<char>
    var bufSize: int
    var flushCb: bool
    var commaReq: bool
    var freePtr: int              // free_ptr - buf
    var totalLen: int
    var flushed: seq<string>      // the strings the flush callback has read
    ghost var text: string        // everything appended since the start

    ghost predicate Valid()
      reads this, buf
    {
      && totalLen == |text|
      && '\0' !in text
      && (if buf == null then flushed == [] && freePtr == 0
          else buf.Length == bufSize && 0 <= freePtr < bufSize && if flushCb then Flushing() else Capped())
    }

    /** With a callback: flushed chunks followed by the live buffer are the text. */
    ghost predicate Flushing()
      requires buf != null && 0 <= freePtr < buf.Length
      reads this, buf
    {
      bufSize >= 2 && Chunked(flushed, buf[..freePtr], text, bufSize)
    }

    /** Without one: the buffer holds as much of the text as there is room for. */
    ghost predicate Capped()
      requires buf != null && 0 <= freePtr < buf.Length
      reads this, buf
    {
      flushed == [] && freePtr == Min(|text|, bufSize - 1) && buf[..freePtr] == text[..freePtr]
    }

    ghost function AsPen(): Pen
      reads this
    {
      Pen(commaReq, text)
    }

    /** Nothing has been dropped so far. */
    ghost predicate Fits()
      reads this
    {
      buf == null || flushCb || |text| < bufSize
    }

    twostate predicate SameBuffer()
      reads this
    {
      buf == old(buf) && bufSize == old(bufSize) && flushCb == old(flushCb)
    }

    /** json_gen_str_start. A buffer needs room for the NUL, and a flushed one
        for at least one character besides. */
    constructor (buf: array?<char>, bufSize: int, flushCb: bool)
      requires buf != null ==> buf.Length == bufSize >= (if flushCb then 2 else 1)
      ensures Valid() && this.buf == buf && this.bufSize == bufSize && this.flushCb == flushCb
      ensures AsPen() == BlankPen && flushed == []
    {
      this.buf := buf;
      this.bufSize := bufSize;
      this.flushCb := flushCb;
      commaReq, freePtr, totalLen, flushed, text := false, 0, 0, [], "";
    }

    function EmptyLen(): int
      reads this
    {
      bufSize - freePtr - 1
    }

    /** What has been kept so far, whether flushed or still in the buffer. */
    ghost function Held(): string
      requires buf != null && 0 <= freePtr <= buf.Length
      reads this`buf, this`freePtr, this`flushed, buf
    {
      Flatten(flushed) + buf[..freePtr]
    }

    /** The memmove of one round. */
    method CopyIn(s: string, cur: nat, n: nat)
      requires buf != null && 0 <= freePtr && freePtr + n < buf.Length && cur + n <= |s|
      modifies this`freePtr, buf
      ensures freePtr == old(freePtr) + n
      ensures buf[..freePtr] == old(buf[..freePtr]) + s[cur..cur + n]
      ensures Held() == old(Held()) + s[cur..cur + n]
    {
      ghost var held, before := Held(), buf[..freePtr];
      forall k | 0 <= k < n {
        buf[freePtr + k] := s[cur + k];
      }
      freePtr := freePtr + n;
      assert buf[..freePtr] == before + s[cur..cur + n];
    }

    /** Terminate the full buffer, hand it to the callback and start over. */
    method FlushFull()
      requires buf != null && 0 <= freePtr < buf.Length && '\0' !in buf[..freePtr]
      modifies this`flushed, this`freePtr, buf
      ensures flushed == old(flushed) + [old(buf[..freePtr])]
      ensures freePtr == 0 && Held() == old(Held())
    {
      FlattenSnoc(flushed, buf[..freePtr]);
      Terminate();
      flushed := flushed + [UpToNul(buf[..])];
      freePtr := 0;
      assert buf[..0] == "";
    }

    method Terminate()
      requires buf != null && 0 <= freePtr < buf.Length && '\0' !in buf[..freePtr]
      modifies buf
      ensures buf[..freePtr] == old(buf[..freePtr]) == UpToNul(buf[..])
    {
      ghost var before := buf[..freePtr];
      buf[freePtr] := '\0';
      assert buf[..][..freePtr] == before;
      UpToNulReads(buf[..], freePtr);
    }

    ghost predicate FullChunks()
      reads this
    {
      forall k :: 0 <= k < |flushed| ==> |flushed[k]| == bufSize - 1
    }

    /** The loop of json_gen_add_to_str. Without a callback it makes at most one
        round; with one it runs until everything has been taken. */
    method Append(s: CString) returns (ret: int)
      requires buf != null && buf.Length == bufSize >= (if flushCb then 2 else 1)
      requires 0 <= freePtr < bufSize && '\0' !in buf[..freePtr] && FullChunks()
      modifies this`flushed, this`freePtr, buf
      ensures 0 <= freePtr < bufSize && FullChunks()
      ensures flushCb ==>
        ret == 0 && Held() == old(Held()) + s && (freePtr == 0 ==> s == "" && old(freePtr) == 0)
      ensures !flushCb ==> var n := Min(|s|, bufSize - 1 - old(freePtr));
        && freePtr == old(freePtr) + n && buf[..freePtr] == old(buf[..freePtr]) + s[..n]
        && flushed == old(flushed) && ret == (if n < |s| then -1 else 0)
    {
      ghost var held := Held();
      var cur, len := 0, |s|;
      assert s[..cur] == "";
      while true
        invariant 0 <= cur <= |s| && len == |s| - cur
        invariant 0 <= freePtr < bufSize && '\0' !in buf[..freePtr] && FullChunks()
        invariant Held() == held + s[..cur]
        invariant freePtr == 0 ==> len > 0 || (s == "" && old(freePtr) == 0)
        invariant !flushCb ==>
          cur == 0 && flushed == old(flushed) && freePtr == old(freePtr) && buf[..freePtr] == old(buf[..freePtr])
        decreases len, freePtr
      {
        var copyLen := if EmptyLen() > len then len else EmptyLen();
        CopyIn(s, cur, copyLen);
        assert held + s[..cur] + s[cur..cur + copyLen] == held + s[..cur + copyLen];
        cur, len := cur + copyLen, len - copyLen;
        if len != 0 {
          if !flushCb {
            Terminate();
            return -1;
          }
          FlushFull();
        } else {
          assert s[..cur] == s;
          break;
        }
      }
      return 0;
    }

    /** json_gen_add_to_str. */
    method AddToStr(str: CPtr) returns (ret: int)
      requires Valid()
      modifies this, buf
      ensures Valid() && SameBuffer() && commaReq == old(commaReq)
      ensures text == old(text) + Chars(str)
      ensures ret == if Chars(str) == "" || Fits() then 0 else -1
    {
      text := text + Chars(str);
      if str.Null? {
        assert text == old(text);
        return 0;
      }
      var s := str.chars;
      totalLen := totalLen + |s|;
      if buf == null {
        return 0;
      }
      ghost var text0, live := old(text), buf[..freePtr];
      if flushCb {
        NoNulInTail(Flatten(flushed), live, text0);
      }
      ret := Append(s);
      if !flushCb {
        CappedAppend(text0, s, live, bufSize - 1);
      }
    }

    lemma CappedAppend(t: string, s: string, live: string, room: nat)
      requires live == t[..Min(|t|, room)]
      ensures var n := Min(|s|, room - |live|); (t + s)[..|live| + n] == live + s[..n]
    {
    }

    lemma NoNulInTail(a: string, b: string, c: string)
      requires a + b == c && '\0' !in c
      ensures '\0' !in b
    {
      forall k | 0 <= k < |b| ensures b[k] != '\0' {
        assert c[|a| + k] == b[k];
      }
    }

    method HandleComma()
      requires Valid()
      modifies this, buf
      ensures Valid() && SameBuffer() && commaReq == old(commaReq)
      ensures text == old(text) + Comma(old(AsPen()))
    {
      if commaReq {
        var _ := AddToStr(Str(","));
      }
    }

    method HandleName(name: CPtr) returns (ret: int)
      requires Valid()
      modifies this, buf
      ensures Valid() && SameBuffer() && commaReq == old(commaReq)
      ensures text == old(text) + Named(name)
    {
      var _ := AddToStr(Str("\""));
      var _ := AddToStr(name);
      ret := AddToStr(Str("\":"));
    }

    /** One call has had its full effect, and its return code tells whether
        everything so far has been kept. */
    twostate predicate Did(op: Op, ret: int)
      reads this, buf
    {
      && Valid() && SameBuffer()
      && AsPen() == Emit(op, old(AsPen()))
      && (if Fits() then ret == 0 else ReportsReliably(op) ==> ret == -1)
    }

    /** json_gen_set_string. */
    method SetString(s: CPtr) returns (ret: int)
      requires Valid()
      modifies this, buf
      ensures Valid() && SameBuffer() && commaReq
      ensures text == old(text) + ("\"" + Chars(s) + "\"")
      ensures ret == if Fits() then 0 else -1
    {
      commaReq := true;
      var _ := AddToStr(Str("\""));
      var _ := AddToStr(s);
      ret := AddToStr(Str("\""));
      assert old(text) + "\"" + Chars(s) + "\"" == old(text) + ("\"" + Chars(s) + "\"");
    }

    /** json_gen_set_bool, _int, _float, _string and _null, after the comma and
        the name. The flag is set before the text is appended. */
    method SetScalar(v: Scalar) returns (ret: int)
      requires Valid()
      modifies this, buf
      ensures Valid() && SameBuffer() && commaReq
      ensures text == old(text) + ScalarText(v)
      ensures if Fits() then ret == 0 else v != NumberValue("") ==> ret == -1
    {
      match v {
        case BoolValue(b) =>
          commaReq := true;
          if b {
            ret := AddToStr(Str("true"));
          } else {
            ret := AddToStr(Str("false"));
          }
        case NumberValue(token) =>
          commaReq := true;
          ret := AddToStr(Str(token));
        case StringValue(s) =>
          ret := SetString(s);
        case NullValue =>
          commaReq := true;
          ret := AddToStr(Str("null"));
      }
    }

    method StartObject() returns (ret: int)
      requires Valid()
      modifies this, buf
      ensures Did(Op.StartObject, ret)
    {
      HandleComma();
      commaReq := false;
      ret := AddToStr(Str("{"));
    }

    method EndObject() returns (ret: int)
      requires Valid()
      modifies this, buf
      ensures Did(Op.EndObject, ret) && Did(Op.PopObject, ret)
    {
      commaReq := true;
      ret := AddToStr(Str("}"));
    }

    method StartArray() returns (ret: int)
      requires Valid()
      modifies this, buf
      ensures Did(Op.StartArray, ret)
    {
      HandleComma();
      commaReq := false;
      ret := AddToStr(Str("["));
    }

    method EndArray() returns (ret: int)
      requires Valid()
      modifies this, buf
      ensures Did(Op.EndArray, ret) && Did(Op.PopArray, ret)
    {
      commaReq := true;
      ret := AddToStr(Str("]"));
    }

    method PushObject(name: CPtr) returns (ret: int)
      requires Valid()
      modifies this, buf
      ensures Did(Op.PushObject(name), ret)
    {
      HandleComma();
      var _ := HandleName(name);
      commaReq := false;
      ret := AddToStr(Str("{"));
    }

    method PushArray(name: CPtr) returns (ret: int)
      requires Valid()
      modifies this, buf
      ensures Did(Op.PushArray(name), ret)
    {
      HandleComma();
      var _ := HandleName(name);
      commaReq := false;
      ret := AddToStr(Str("["));
    }

    /** json_gen_push_object_str and json_gen_push_array_str. */
    method PushRaw(name: CPtr, json: CPtr) returns (ret: int)
      requires Valid()
      modifies this, buf
      ensures Did(Op.PushObjectStr(name, json), ret) && Did(Op.PushArrayStr(name, json), ret)
    {
      ghost var head := text + Comma(AsPen());
      HandleComma();
      var _ := HandleName(name);
      commaReq := true;
      ret := AddToStr(json);
      assert head + Named(name) + Chars(json) == head + (Named(name) + Chars(json));
    }

    method ObjSet(name: CPtr, v: Scalar) returns (ret: int)
      requires Valid()
      modifies this, buf
      ensures Did(Op.ObjSet(name, v), ret)
    {
      ghost var head := text + Comma(AsPen());
      HandleComma();
      var _ := HandleName(name);
      ret := SetScalar(v);
      assert head + Named(name) + ScalarText(v) == head + (Named(name) + ScalarText(v));
    }

    method ArrSet(v: Scalar) returns (ret: int)
      requires Valid()
      modifies this, buf
      ensures Did(Op.ArrSet(v), ret)
    {
      HandleComma();
      ret := SetScalar(v);
    }

    /** json_gen_set_long_string. */
    method SetLong(s: CPtr) returns (ret: int)
      requires Valid()
      modifies this, buf
      ensures Valid() && SameBuffer() && commaReq
      ensures text == old(text) + ("\"" + Chars(s))
      ensures if Fits() then ret == 0 else Chars(s) != "" ==> ret == -1
    {
      commaReq := true;
      var _ := AddToStr(Str("\""));
      ret := AddToStr(s);
      assert old(text) + "\"" + Chars(s) == old(text) + ("\"" + Chars(s));
    }

    method ObjStartLong(name: CPtr, s: CPtr) returns (ret: int)
      requires Valid()
      modifies this, buf
      ensures Did(Op.ObjStartLong(name, s), ret)
    {
      ghost var head := text + Comma(AsPen());
      HandleComma();
      var _ := HandleName(name);
      ret := SetLong(s);
      assert head + Named(name) + ("\"" + Chars(s)) == head + (Named(name) + "\"" + Chars(s));
    }

    method ArrStartLong(s: CPtr) returns (ret: int)
      requires Valid()
      modifies this, buf
      ensures Did(Op.ArrStartLong(s), ret)
    {
      HandleComma();
      ret := SetLong(s);
    }

    method AddToLong(s: CPtr) returns (ret: int)
      requires Valid()
      modifies this, buf
      ensures Did(Op.AddToLong(s), ret)
    {
      ret := AddToStr(s);
    }

    method EndLong() returns (ret: int)
      requires Valid()
      modifies this, buf
      ensures Did(Op.EndLong, ret)
    {
      ret := AddToStr(Str("\""));
    }

    /** json_gen_str_end: terminate, flush the rest, forget everything. The
        result counts the terminating NUL. */
    method End() returns (size: int)
      requires Valid()
      modifies this, buf
      ensures size == |old(text)| + 1
      ensures buf == null
      ensures old(buf) != null && old(flushCb) ==>
        exists rest :: flushed == old(flushed) + [rest] && Chunked(old(flushed), rest, old(text), old(bufSize))
      ensures old(buf) != null && !old(flushCb) ==>
        flushed == [] && UpToNul(old(buf)[..]) == old(text)[..Min(|old(text)|, old(bufSize) - 1)]
    {
      size := totalLen + 1;
      if buf != null {
        ghost var live := buf[..freePtr];
        if flushCb {
          NoNulInTail(Flatten(flushed), live, text);
        }
        Terminate();
        if flushCb {
          flushed := flushed + [UpToNul(buf[..])];
        }
      }
      buf, bufSize, flushCb, commaReq, freePtr, totalLen := null, 0, false, false, 0, 0;
    }

    /** A client making one of the calls. */
    method Perform(op: Op) returns (ret: int)
      requires Valid()
      modifies this, buf
      ensures Did(op, ret)
    {
      match op {
        case StartObject => ret := StartObject();
        case EndObject => ret := EndObject();
        case StartArray => ret := StartArray();
        case EndArray => ret := EndArray();
        case PushObject(name) => ret := PushObject(name);
        case PopObject => ret := EndObject();
        case PushArray(name) => ret := PushArray(name);
        case PopArray => ret := EndArray();
        case PushObjectStr(name, json) => ret := PushRaw(name, json);
        case PushArrayStr(name, json) => ret := PushRaw(name, json);
        case ObjSet(name, v) => ret := ObjSet(name, v);
        case ArrSet(v) => ret := ArrSet(v);
        case ObjStartLong(name, s) => ret := ObjStartLong(name, s);
        case ArrStartLong(s) => ret := ArrStartLong(s);
        case AddToLong(s) => ret := AddToLong(s);
        case EndLong => ret := EndLong();
      }
    }
  }
}
