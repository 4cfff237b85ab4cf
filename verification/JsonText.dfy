/** JSON texts: trees, their compact rendering, a parser for the grammar of
    RFC 8259 (sections 2 to 7) without insignificant whitespace and escape
    sequences, and the proof that a walk of emitter calls prints the tree. */
module JsonText {
  import opened Common
  import opened JsonGenerator

  datatype Json =
    | JNull
    | JBool(b: bool)
    | JNumber(token: CString)
    | JString(s: CString)
    | JArray(elems: Elems)
    | JObject(members: Members)

  datatype Elems = NoElems | Elem(head: Json, tail: Elems)

  datatype Members = NoMembers | Member(name: CString, value: Json, rest: Members)

  // ---- rendering ----

  function Render(j: Json): string {
    match j
    case JNull => "null"
    case JBool(b) => if b then "true" else "false"
    case JNumber(token) => token
    case JString(s) => "\"" + s + "\""
    case JArray(es) => "[" + RenderElems(es, true) + "]"
    case JObject(ms) => "{" + RenderMembers(ms, true) + "}"
  }

  function Separator(first: bool): string {
    if first then "" else ","
  }

  function RenderElems(es: Elems, first: bool): string {
    match es
    case NoElems => ""
    case Elem(j, tail) => Separator(first) + Render(j) + RenderElems(tail, false)
  }

  function RenderMembers(ms: Members, first: bool): string {
    match ms
    case NoMembers => ""
    case Member(name, j, rest) => Separator(first) + "\"" + name + "\":" + Render(j) + RenderMembers(rest, false)
  }

  // ---- trees whose texts need no escaping ----

  /** A character that section 7 allows unescaped. */
  predicate PlainChar(c: char) {
    ' ' <= c && c != '"' && c != '\\'
  }

  predicate Plain(s: string) {
    forall k :: 0 <= k < |s| ==> PlainChar(s[k])
  }

  predicate NumberChar(c: char) {
    '0' <= c <= '9' || c == '-' || c == '+' || c == '.' || c == 'e' || c == 'E'
  }

  predicate NumberToken(s: string) {
    s != "" && forall k :: 0 <= k < |s| ==> NumberChar(s[k])
  }

  predicate Clean(j: Json) {
    match j
    case JNumber(token) => NumberToken(token)
    case JString(s) => Plain(s)
    case JArray(es) => CleanElems(es)
    case JObject(ms) => CleanMembers(ms)
    case _ => true
  }

  predicate CleanElems(es: Elems) {
    es.Elem? ==> Clean(es.head) && CleanElems(es.tail)
  }

  predicate CleanMembers(ms: Members) {
    ms.Member? ==> Plain(ms.name) && Clean(ms.value) && CleanMembers(ms.rest)
  }

  // ---- parsing ----

  /** A parsed item and the input after it. */
  datatype Parsed<+T> = Fail | Got(item: T, after: string)

  predicate StartsWith(s: string, c: char) {
    s != "" && s[0] == c
  }

  /** The longest prefix whose characters all satisfy p. */
  function SpanLength(s: string, p: char -> bool): (n: nat)
    ensures n <= |s|
    ensures forall k :: 0 <= k < n ==> p(s[k])
    ensures n < |s| ==> !p(s[n])
  {
    if s == "" || !p(s[0]) then 0 else 1 + SpanLength(s[1..], p)
  }

  function Literal(s: string, word: string, j: Json): (r: Parsed<Json>)
    ensures r.Got? ==> r.item == j && s == word + r.after
  {
    if word <= s then Got(j, s[|word|..]) else Fail
  }

  /** The rest of a string after its opening quote. */
  function ParseQuoted(s: string): (r: Parsed<CString>)
    ensures r.Got? ==> Plain(r.item) && s == r.item + "\"" + r.after
  {
    var n := SpanLength(s, PlainChar);
    if n < |s| && s[n] == '"' then Got(s[..n], s[n + 1..]) else Fail
  }

  function ParseNumber(s: string): (r: Parsed<Json>)
    ensures r.Got? ==> r.item.JNumber? && NumberToken(r.item.token) && s == r.item.token + r.after
    ensures r.Got? ==> r.after == "" || !NumberChar(r.after[0])
  {
    var n := SpanLength(s, NumberChar);
    if n == 0 then Fail else Got(JNumber(s[..n]), s[n..])
  }

  function ParseValue(s: string): (r: Parsed<Json>)
    ensures r.Got? ==> |r.after| < |s|
    decreases |s|, 0
  {
    if s == "" then Fail
    else if s[0] == 'n' then Literal(s, "null", JNull)
    else if s[0] == 't' then Literal(s, "true", JBool(true))
    else if s[0] == 'f' then Literal(s, "false", JBool(false))
    else if s[0] == '"' then
      match ParseQuoted(s[1..])
      case Fail => Fail
      case Got(q, after) => Got(JString(q), after)
    else if s[0] == '[' then
      if StartsWith(s[1..], ']') then Got(JArray(NoElems), s[2..])
      else
        match ParseElems(s[1..])
        case Fail => Fail
        case Got(es, after) => Got(JArray(es), after)
    else if s[0] == '{' then
      if StartsWith(s[1..], '}') then Got(JObject(NoMembers), s[2..])
      else
        match ParseMembers(s[1..])
        case Fail => Fail
        case Got(ms, after) => Got(JObject(ms), after)
    else ParseNumber(s)
  }

  /** One or more comma-separated values and the closing bracket. */
  function ParseElems(s: string): (r: Parsed<Elems>)
    ensures r.Got? ==> |r.after| < |s|
    decreases |s|, 1
  {
    match ParseValue(s)
    case Fail => Fail
    case Got(j, after) =>
      if StartsWith(after, ']') then Got(Elem(j, NoElems), after[1..])
      else if StartsWith(after, ',') then
        match ParseElems(after[1..])
        case Fail => Fail
        case Got(tail, end) => Got(Elem(j, tail), end)
      else Fail
  }

  function ParseMembers(s: string): (r: Parsed<Members>)
    ensures r.Got? ==> |r.after| < |s|
    decreases |s|, 1
  {
    if !StartsWith(s, '"') then Fail
    else
      match ParseQuoted(s[1..])
      case Fail => Fail
      case Got(name, colon) =>
        if !StartsWith(colon, ':') then Fail
        else
          match ParseValue(colon[1..])
          case Fail => Fail
          case Got(j, after) =>
            if StartsWith(after, '}') then Got(Member(name, j, NoMembers), after[1..])
            else if StartsWith(after, ',') then
              match ParseMembers(after[1..])
              case Fail => Fail
              case Got(rest, end) => Got(Member(name, j, rest), end)
            else Fail
  }

  function ParseText(s: string): Option<Json> {
    match ParseValue(s)
    case Fail => None
    case Got(j, after) => if after == "" then Some(j) else None
  }

  // ---- the parser accepts every clean rendering ----

  lemma {:induction false} SpanIs(s: string, p: char -> bool, n: nat)
    requires n <= |s| && (forall k :: 0 <= k < n ==> p(s[k])) && (n < |s| ==> !p(s[n]))
    ensures SpanLength(s, p) == n
  {
    if n > 0 {
      assert p(s[0]);
      assert forall k :: 0 <= k < n - 1 ==> s[1..][k] == s[k + 1];
      SpanIs(s[1..], p, n - 1);
    }
  }

  lemma QuotedParses(q: CString, after: string)
    requires Plain(q)
    ensures ParseQuoted(q + "\"" + after) == Got(q, after)
  {
    var s := q + "\"" + after;
    assert s[|q|] == '"';
    assert forall k :: 0 <= k < |q| ==> s[k] == q[k];
    SpanIs(s, PlainChar, |q|);
    assert s[..|q|] == q && s[|q| + 1..] == after;
  }

  lemma NumberParses(token: CString, after: string)
    requires NumberToken(token) && (after == "" || !NumberChar(after[0]))
    ensures ParseValue(token + after) == Got(JNumber(token), after)
  {
    var s := token + after;
    assert forall k :: 0 <= k < |token| ==> s[k] == token[k];
    assert |token| < |s| ==> s[|token|] == after[0];
    SpanIs(s, NumberChar, |token|);
    assert s[..|token|] == token && s[|token|..] == after;
    assert NumberChar(s[0]);
  }

  /** A number is only recognised up to something that ends it. */
  predicate Ends(j: Json, after: string) {
    j.JNumber? ==> after == "" || !NumberChar(after[0])
  }

  // One unfolding of the parser each.

  lemma BracketStep(inner: string, es: Elems, after: string)
    requires ParseElems(inner) == Got(es, after) && !StartsWith(inner, ']')
    ensures ParseValue("[" + inner) == Got(JArray(es), after)
  {
    assert ("[" + inner)[1..] == inner;
  }

  lemma BraceStep(inner: string, ms: Members, after: string)
    requires ParseMembers(inner) == Got(ms, after)
    ensures ParseValue("{" + inner) == Got(JObject(ms), after)
  {
    assert StartsWith(inner, '"') && ("{" + inner)[1..] == inner;
  }

  lemma EmptyStep(after: string)
    ensures ParseValue("[]" + after) == Got(JArray(NoElems), after)
    ensures ParseValue("{}" + after) == Got(JObject(NoMembers), after)
  {
    assert ("[]" + after)[1..] == "]" + after && ("[]" + after)[2..] == after;
    assert ("{}" + after)[1..] == "}" + after && ("{}" + after)[2..] == after;
  }

  lemma QuoteStep(q: CString, after: string)
    requires Plain(q)
    ensures ParseValue("\"" + q + "\"" + after) == Got(JString(q), after)
  {
    QuotedParses(q, after);
    assert ("\"" + q + "\"" + after)[1..] == q + "\"" + after;
  }

  lemma WordStep(j: Json, after: string)
    requires j.JNull? || j.JBool?
    ensures ParseValue(Render(j) + after) == Got(j, after)
  {
    assert (Render(j) + after)[|Render(j)|..] == after;
  }

  lemma LastElemStep(s: string, j: Json, after: string)
    requires ParseValue(s) == Got(j, "]" + after)
    ensures ParseElems(s) == Got(Elem(j, NoElems), after)
  {
    assert ("]" + after)[1..] == after;
  }

  lemma ElemStep(s: string, j: Json, next: string, tail: Elems, after: string)
    requires ParseValue(s) == Got(j, "," + next) && ParseElems(next) == Got(tail, after)
    ensures ParseElems(s) == Got(Elem(j, tail), after)
  {
    assert ("," + next)[1..] == next;
  }

  lemma NameStep(name: CString, value: string)
    requires Plain(name)
    ensures var s := Named(Str(name)) + value;
      StartsWith(s, '"') && ParseQuoted(s[1..]) == Got(name, ":" + value) && (":" + value)[1..] == value
  {
    QuotedParses(name, ":" + value);
    assert (Named(Str(name)) + value)[1..] == name + "\"" + (":" + value);
  }

  lemma LastMemberStep(name: CString, value: string, j: Json, after: string)
    requires Plain(name) && ParseValue(value) == Got(j, "}" + after)
    ensures ParseMembers(Named(Str(name)) + value) == Got(Member(name, j, NoMembers), after)
  {
    NameStep(name, value);
    assert ("}" + after)[1..] == after;
  }

  lemma MemberStep(name: CString, value: string, j: Json, next: string, rest: Members, after: string)
    requires Plain(name) && ParseValue(value) == Got(j, "," + next) && ParseMembers(next) == Got(rest, after)
    ensures ParseMembers(Named(Str(name)) + value) == Got(Member(name, j, rest), after)
  {
    NameStep(name, value);
    assert ("," + next)[1..] == next;
    var s := Named(Str(name)) + value;
    assert ParseQuoted(s[1..]) == Got(name, ":" + value);
    MemberRest(s, name, ":" + value, j, "," + next, rest, after);
  }

  lemma MemberRest(s: string, name: CString, colon: string, j: Json, comma: string, rest: Members, after: string)
    requires StartsWith(s, '"') && ParseQuoted(s[1..]) == Got(name, colon)
    requires StartsWith(colon, ':') && ParseValue(colon[1..]) == Got(j, comma)
    requires StartsWith(comma, ',') && ParseMembers(comma[1..]) == Got(rest, after)
    ensures ParseMembers(s) == Got(Member(name, j, rest), after)
  {
  }

  // How a rendering falls apart.

  lemma Assoc(a: string, b: string, c: string)
    ensures a + b + c == a + (b + c)
  {
  }

  lemma Assoc4(a: string, b: string, c: string, d: string)
    ensures a + b + c + d == a + (b + c + d)
  {
    Assoc(a, b, c);
    Assoc(a, b + c, d);
  }

  lemma ElemsUnfold(es: Elems, first: bool)
    requires es.Elem?
    ensures RenderElems(es, first) == Separator(first) + Render(es.head) + RenderElems(es.tail, false)
    ensures RenderElems(es, false) == "," + RenderElems(es, true)
  {
    Assoc(",", Render(es.head), RenderElems(es.tail, false));
    assert "" + Render(es.head) == Render(es.head);
  }

  lemma MembersUnfold(ms: Members, first: bool)
    requires ms.Member?
    ensures RenderMembers(ms, first)
         == Separator(first) + (Named(Str(ms.name)) + Render(ms.value)) + RenderMembers(ms.rest, false)
    ensures RenderMembers(ms, false) == "," + RenderMembers(ms, true)
  {
    var name, value, rest := Named(Str(ms.name)), Render(ms.value), RenderMembers(ms.rest, false);
    var sep := Separator(first);
    calc {
      sep + "\"" + ms.name + "\":";
      { Assoc4(sep, "\"", ms.name, "\":"); }
      sep + name;
    }
    Assoc(sep, name, value);
    calc {
      "," + "\"" + ms.name + "\":";
      { Assoc4(",", "\"", ms.name, "\":"); }
      "," + name;
    }
    assert "" + "\"" + ms.name + "\":" == name;
    Assoc4(",", name, value, rest);
  }

  lemma ElemsSplit(es: Elems, after: string)
    requires es.Elem?
    ensures RenderElems(es, true) + "]" + after == Render(es.head) + (RenderElems(es.tail, false) + "]" + after)
    ensures es.tail.Elem? ==>
      RenderElems(es.tail, false) + "]" + after == "," + (RenderElems(es.tail, true) + "]" + after)
    ensures es.tail.NoElems? ==> RenderElems(es.tail, false) + "]" + after == "]" + after
  {
    ElemsUnfold(es, true);
    assert "" + Render(es.head) == Render(es.head);
    Assoc4(Render(es.head), RenderElems(es.tail, false), "]", after);
    if es.tail.Elem? {
      ElemsUnfold(es.tail, false);
      Assoc4(",", RenderElems(es.tail, true), "]", after);
    }
  }

  lemma MembersSplit(ms: Members, after: string)
    requires ms.Member?
    ensures RenderMembers(ms, true) + "}" + after
         == Named(Str(ms.name)) + (Render(ms.value) + (RenderMembers(ms.rest, false) + "}" + after))
    ensures ms.rest.Member? ==>
      RenderMembers(ms.rest, false) + "}" + after == "," + (RenderMembers(ms.rest, true) + "}" + after)
    ensures ms.rest.NoMembers? ==> RenderMembers(ms.rest, false) + "}" + after == "}" + after
  {
    var name, value, rest := Named(Str(ms.name)), Render(ms.value), RenderMembers(ms.rest, false);
    MembersUnfold(ms, true);
    assert "" + (name + value) == name + value;
    Assoc4(name + value, rest, "}", after);
    Assoc(name, value, rest + "}" + after);
    if ms.rest.Member? {
      MembersUnfold(ms.rest, false);
      Assoc4(",", RenderMembers(ms.rest, true), "}", after);
    }
  }

  lemma ArrayStep(es: Elems, after: string)
    requires CleanElems(es)
    requires es.Elem? ==> ParseElems(RenderElems(es, true) + "]" + after) == Got(es, after)
    ensures ParseValue(Render(JArray(es)) + after) == Got(JArray(es), after)
  {
    if es.NoElems? {
      EmptyStep(after);
      assert Render(JArray(es)) == "[]";
    } else {
      Assoc4("[", RenderElems(es, true), "]", after);
      ElemsOpen(es, after);
      BracketStep(RenderElems(es, true) + "]" + after, es, after);
    }
  }

  lemma ObjectStep(ms: Members, after: string)
    requires ms.Member? ==> ParseMembers(RenderMembers(ms, true) + "}" + after) == Got(ms, after)
    ensures ParseValue(Render(JObject(ms)) + after) == Got(JObject(ms), after)
  {
    if ms.NoMembers? {
      EmptyStep(after);
      assert Render(JObject(ms)) == "{}";
    } else {
      Assoc4("{", RenderMembers(ms, true), "}", after);
      BraceStep(RenderMembers(ms, true) + "}" + after, ms, after);
    }
  }

  lemma {:induction false} RenderParses(j: Json, after: string)
    requires Clean(j) && Ends(j, after)
    ensures ParseValue(Render(j) + after) == Got(j, after)
    decreases j, 0
  {
    match j
    case JNumber(token) =>
      NumberParses(token, after);
    case JString(q) =>
      QuoteStep(q, after);
    case JArray(es) =>
      if es.Elem? {
        ElemsParse(es, after);
      }
      ArrayStep(es, after);
    case JObject(ms) =>
      if ms.Member? {
        MembersParse(ms, after);
      }
      ObjectStep(ms, after);
    case _ =>
      WordStep(j, after);
  }

  /** No element starts with a closing bracket. */
  lemma ElemsOpen(es: Elems, after: string)
    requires es.Elem? && CleanElems(es)
    ensures !StartsWith(RenderElems(es, true) + "]" + after, ']')
  {
    ElemsSplit(es, after);
    RenderNonempty(es.head);
  }

  lemma RenderNonempty(j: Json)
    requires Clean(j)
    ensures Render(j) != "" && Render(j)[0] != ']'
  {
    if j.JNumber? {
      assert NumberChar(Render(j)[0]);
    }
  }

  lemma {:induction false} ElemsParse(es: Elems, after: string)
    requires es.Elem? && CleanElems(es)
    ensures ParseElems(RenderElems(es, true) + "]" + after) == Got(es, after)
    decreases es, 1
  {
    var s := RenderElems(es, true) + "]" + after;
    ElemsSplit(es, after);
    RenderParses(es.head, RenderElems(es.tail, false) + "]" + after);
    if es.tail.NoElems? {
      LastElemStep(s, es.head, after);
    } else {
      ElemsParse(es.tail, after);
      ElemStep(s, es.head, RenderElems(es.tail, true) + "]" + after, es.tail, after);
    }
  }

  lemma {:induction false} MembersParse(ms: Members, after: string)
    requires ms.Member? && CleanMembers(ms)
    ensures ParseMembers(RenderMembers(ms, true) + "}" + after) == Got(ms, after)
    decreases ms, 1
  {
    var rest := RenderMembers(ms.rest, false) + "}" + after;
    MembersSplit(ms, after);
    RenderParses(ms.value, rest);
    if ms.rest.NoMembers? {
      LastMemberStep(ms.name, Render(ms.value) + rest, ms.value, after);
    } else {
      MembersParse(ms.rest, after);
      MemberStep(ms.name, Render(ms.value) + rest, ms.value, RenderMembers(ms.rest, true) + "}" + after, ms.rest,
                 after);
    }
  }

  // ---- and nothing else ----

  lemma HeadTail(s: string)
    requires s != ""
    ensures s == [s[0]] + s[1..]
  {
  }

  lemma ScalarRendered(s: string)
    requires ParseValue(s).Got? && !StartsWith(s, '[') && !StartsWith(s, '{')
    ensures var r := ParseValue(s); Clean(r.item) && Ends(r.item, r.after) && s == Render(r.item) + r.after
  {
    HeadTail(s);
    if s[0] == '"' {
      var q := ParseQuoted(s[1..]);
      Assoc4("\"", q.item, "\"", q.after);
    }
  }

  lemma {:induction false} ParsedIsRendered(s: string)
    ensures var r := ParseValue(s);
      r.Got? ==> Clean(r.item) && Ends(r.item, r.after) && s == Render(r.item) + r.after
    decreases |s|, 0
  {
    if ParseValue(s).Got? {
      if StartsWith(s, '[') {
        if !StartsWith(s[1..], ']') {
          ParsedElems(s[1..]);
        }
        ContainerRendered(s);
      } else if StartsWith(s, '{') {
        if !StartsWith(s[1..], '}') {
          ParsedMembers(s[1..]);
        }
        ContainerRendered(s);
      } else {
        ScalarRendered(s);
      }
    }
  }

  lemma ContainerRendered(s: string)
    requires s != "" && (s[0] == '[' || s[0] == '{') && ParseValue(s).Got?
    requires s[0] == '[' && !StartsWith(s[1..], ']') ==> var r := ParseElems(s[1..]);
      r.item.Elem? && CleanElems(r.item) && s[1..] == RenderElems(r.item, true) + "]" + r.after
    requires s[0] == '{' && !StartsWith(s[1..], '}') ==> var r := ParseMembers(s[1..]);
      r.item.Member? && CleanMembers(r.item) && s[1..] == RenderMembers(r.item, true) + "}" + r.after
    ensures var r := ParseValue(s); Clean(r.item) && Ends(r.item, r.after) && s == Render(r.item) + r.after
  {
    HeadTail(s);
    if s[0] == '[' {
      if StartsWith(s[1..], ']') {
        HeadTail(s[1..]);
      } else {
        var r := ParseElems(s[1..]);
        Assoc4("[", RenderElems(r.item, true), "]", r.after);
      }
    } else {
      if StartsWith(s[1..], '}') {
        HeadTail(s[1..]);
      } else {
        var r := ParseMembers(s[1..]);
        Assoc4("{", RenderMembers(r.item, true), "}", r.after);
      }
    }
  }

  lemma {:induction false} ParsedElems(s: string)
    ensures var r := ParseElems(s);
      r.Got? ==> r.item.Elem? && CleanElems(r.item) && s == RenderElems(r.item, true) + "]" + r.after
    decreases |s|, 1
  {
    var r := ParseElems(s);
    if r.Got? {
      ParsedIsRendered(s);
      var after := ParseValue(s).after;
      HeadTail(after);
      ElemsSplit(r.item, r.after);
      if !StartsWith(after, ']') {
        ParsedElems(after[1..]);
      }
    }
  }

  lemma {:induction false} ParsedMembers(s: string)
    ensures var r := ParseMembers(s);
      r.Got? ==> r.item.Member? && CleanMembers(r.item) && s == RenderMembers(r.item, true) + "}" + r.after
    decreases |s|, 1
  {
    var r := ParseMembers(s);
    if r.Got? {
      var colon := ParseQuoted(s[1..]).after;
      NameOpens(s);
      ParsedIsRendered(colon[1..]);
      var after := ParseValue(colon[1..]).after;
      HeadTail(after);
      MembersSplit(r.item, r.after);
      if !StartsWith(after, '}') {
        ParsedMembers(after[1..]);
      }
    }
  }

  lemma NameOpens(s: string)
    requires StartsWith(s, '"') && ParseQuoted(s[1..]).Got? && StartsWith(ParseQuoted(s[1..]).after, ':')
    ensures var q := ParseQuoted(s[1..]); s == Named(Str(q.item)) + q.after[1..]
  {
    var q := ParseQuoted(s[1..]);
    HeadTail(s);
    HeadTail(q.after);
    Assoc(q.item, "\"", ":" + q.after[1..]);
  }

  /** Rendering and parsing are inverse to each other, exactly on clean trees. */
  lemma RoundTrip(j: Json, s: string)
    ensures ParseText(s) == Some(j) <==> Clean(j) && s == Render(j)
  {
    ParsedIsRendered(s);
    if Clean(j) && s == Render(j) {
      RenderParses(j, "");
      assert Render(j) + "" == Render(j);
    }
  }

  // ---- the walk of emitter calls ----

  function AsScalar(j: Json): Scalar
    requires !j.JArray? && !j.JObject?
  {
    match j
    case JNull => NullValue
    case JBool(b) => BoolValue(b)
    case JNumber(token) => NumberValue(token)
    case JString(s) => StringValue(Str(s))
  }

  /** The calls for a value inside an array, or for the whole document. */
  function Walk(j: Json): seq<Op>
    decreases j, 0
  {
    match j
    case JArray(es) => [StartArray] + WalkElems(es) + [EndArray]
    case JObject(ms) => [StartObject] + WalkMembers(ms) + [EndObject]
    case _ => [ArrSet(AsScalar(j))]
  }

  function WalkElems(es: Elems): seq<Op>
    decreases es, 1
  {
    match es
    case NoElems => []
    case Elem(j, tail) => Walk(j) + WalkElems(tail)
  }

  /** The calls for a value inside an object. */
  function WalkMember(name: CString, j: Json): seq<Op>
    decreases j, 0
  {
    match j
    case JArray(es) => [PushArray(Str(name))] + WalkElems(es) + [PopArray]
    case JObject(ms) => [PushObject(Str(name))] + WalkMembers(ms) + [PopObject]
    case _ => [ObjSet(Str(name), AsScalar(j))]
  }

  function WalkMembers(ms: Members): seq<Op>
    decreases ms, 1
  {
    match ms
    case NoMembers => []
    case Member(name, j, rest) => WalkMember(name, j) + WalkMembers(rest)
  }

  lemma RunOne(op: Op, p: Pen)
    ensures Run([op], p) == Emit(op, p)
  {
    RunSnoc([], op, p);
    assert [] + [op] == [op];
  }

  /** The pen inside a container that has just been opened. */
  function Inside(open: Op, p: Pen): Pen {
    Pen(false, p.text + Comma(p) + Piece(open))
  }

  lemma RunBracketed(open: Op, inner: seq<Op>, close: Op, p: Pen)
    requires Opens(open) && Closes(close)
    ensures Run([open] + inner + [close], p)
         == Pen(true, Run(inner, Inside(open, p)).text + Piece(close))
  {
    RunConcat([open], inner, p);
    RunOne(open, p);
    RunSnoc([open] + inner, close, p);
  }

  /** A container prints as its brackets around what its contents print. */
  lemma BracketedPrints(open: Op, inner: seq<Op>, close: Op, p: Pen, filled: bool, body: string)
    requires Opens(open) && Closes(close)
    requires Run(inner, Inside(open, p)) == Pen(filled, Inside(open, p).text + body)
    ensures Run([open] + inner + [close], p) == Pen(true, p.text + Comma(p) + (Piece(open) + body + Piece(close)))
  {
    RunBracketed(open, inner, close, p);
    Assoc4(p.text + Comma(p), Piece(open), body, Piece(close));
  }

  lemma ScalarPrints(j: Json, p: Pen)
    requires !j.JArray? && !j.JObject?
    ensures Run([ArrSet(AsScalar(j))], p) == Pen(true, p.text + Comma(p) + Render(j))
  {
    RunOne(ArrSet(AsScalar(j)), p);
  }

  lemma Brackets(name: CString)
    ensures Piece(StartArray) == "[" && Piece(EndArray) == "]" && Piece(StartObject) == "{" && Piece(EndObject) == "}"
    ensures Piece(PushArray(Str(name))) == Named(Str(name)) + "[" && Piece(PopArray) == "]"
    ensures Piece(PushObject(Str(name))) == Named(Str(name)) + "{" && Piece(PopObject) == "}"
  {
  }

  lemma {:induction false} WalkPrints(j: Json, p: Pen)
    ensures Run(Walk(j), p) == Pen(true, p.text + Comma(p) + Render(j))
    decreases j, 0
  {
    Brackets("");
    match j
    case JArray(es) =>
      ElemsPrint(es, Inside(StartArray, p));
      BracketedPrints(StartArray, WalkElems(es), EndArray, p, es.Elem?, RenderElems(es, true));
    case JObject(ms) =>
      MembersPrint(ms, Inside(StartObject, p));
      BracketedPrints(StartObject, WalkMembers(ms), EndObject, p, ms.Member?, RenderMembers(ms, true));
    case _ =>
      ScalarPrints(j, p);
  }

  lemma {:induction false} ElemsPrint(es: Elems, p: Pen)
    ensures Run(WalkElems(es), p) == Pen(p.comma || es.Elem?, p.text + RenderElems(es, !p.comma))
    decreases es, 1
  {
    if es.NoElems? {
      assert p.text + "" == p.text;
    } else {
      RunConcat(Walk(es.head), WalkElems(es.tail), p);
      WalkPrints(es.head, p);
      var q := Pen(true, p.text + Comma(p) + Render(es.head));
      ElemsPrint(es.tail, q);
      ElemsUnfold(es, !p.comma);
      Assoc4(p.text, Comma(p), Render(es.head), RenderElems(es.tail, false));
    }
  }

  lemma NamedScalarPrints(name: CString, j: Json, p: Pen)
    requires !j.JArray? && !j.JObject?
    ensures Run([ObjSet(Str(name), AsScalar(j))], p) == Pen(true, p.text + Comma(p) + (Named(Str(name)) + Render(j)))
  {
    RunOne(ObjSet(Str(name), AsScalar(j)), p);
  }

  lemma {:induction false} MemberPrints(name: CString, j: Json, p: Pen)
    ensures Run(WalkMember(name, j), p) == Pen(true, p.text + Comma(p) + (Named(Str(name)) + Render(j)))
    decreases j, 0
  {
    var named := Named(Str(name));
    Brackets(name);
    match j
    case JArray(es) =>
      ElemsPrint(es, Inside(PushArray(Str(name)), p));
      BracketedPrints(PushArray(Str(name)), WalkElems(es), PopArray, p, es.Elem?, RenderElems(es, true));
      Assoc4(named, "[", RenderElems(es, true), "]");
    case JObject(ms) =>
      MembersPrint(ms, Inside(PushObject(Str(name)), p));
      BracketedPrints(PushObject(Str(name)), WalkMembers(ms), PopObject, p, ms.Member?, RenderMembers(ms, true));
      Assoc4(named, "{", RenderMembers(ms, true), "}");
    case _ =>
      NamedScalarPrints(name, j, p);
  }

  lemma {:induction false} MembersPrint(ms: Members, p: Pen)
    ensures Run(WalkMembers(ms), p) == Pen(p.comma || ms.Member?, p.text + RenderMembers(ms, !p.comma))
    decreases ms, 1
  {
    if ms.NoMembers? {
      assert p.text + "" == p.text;
    } else {
      var item := Named(Str(ms.name)) + Render(ms.value);
      RunConcat(WalkMember(ms.name, ms.value), WalkMembers(ms.rest), p);
      MemberPrints(ms.name, ms.value, p);
      MembersPrint(ms.rest, Pen(true, p.text + Comma(p) + item));
      MembersUnfold(ms, !p.comma);
      Assoc4(p.text, Comma(p), item, RenderMembers(ms.rest, false));
    }
  }

  // ---- the other ways of printing a member or an element ----

  /** The pieces of a long string, but the first. */
  function Adds(pieces: seq<CPtr>): seq<Op> {
    if pieces == [] then [] else Adds(pieces[..|pieces| - 1]) + [AddToLong(pieces[|pieces| - 1])]
  }

  function Joined(pieces: seq<CPtr>): CString {
    if pieces == [] then "" else Joined(pieces[..|pieces| - 1]) + Chars(pieces[|pieces| - 1])
  }

  lemma {:induction false} AddsPrint(pieces: seq<CPtr>, p: Pen)
    ensures Run(Adds(pieces), p) == Pen(p.comma, p.text + Joined(pieces))
  {
    if pieces == [] {
      assert p.text + "" == p.text;
    } else {
      var n := |pieces| - 1;
      AddsPrint(pieces[..n], p);
      AddLast(Adds(pieces[..n]), pieces[n], p, Joined(pieces[..n]));
    }
  }

  lemma AddLast(ops: seq<Op>, piece: CPtr, p: Pen, body: string)
    requires Run(ops, p) == Pen(p.comma, p.text + body)
    ensures Run(ops + [AddToLong(piece)], p) == Pen(p.comma, p.text + (body + Chars(piece)))
  {
    RunSnoc(ops, AddToLong(piece), p);
    EmitAdd(piece, Run(ops, p));
    Assoc(p.text, body, Chars(piece));
  }

  lemma EmitAdd(piece: CPtr, q: Pen)
    ensures Emit(AddToLong(piece), q) == Pen(q.comma, q.text + Chars(piece))
  {
  }

  lemma EmitString(name: CPtr, s: CString, p: Pen)
    ensures Emit(ObjSet(name, StringValue(Str(s))), p)
         == Pen(true, p.text + Comma(p) + (Named(name) + ("\"" + s + "\"")))
    ensures Emit(ArrSet(StringValue(Str(s))), p) == Pen(true, p.text + Comma(p) + ("\"" + s + "\""))
  {
  }

  lemma Unprefixed(s: string)
    ensures "" + s == s
  {
  }

  lemma LongPieces(name: CPtr, s: CPtr)
    ensures Piece(ObjStartLong(name, s)) == Named(name) + "\"" + Chars(s)
    ensures Piece(ArrStartLong(s)) == "" + "\"" + Chars(s)
  {
    assert "" + "\"" == "\"";
  }

  /** What a call that opens a long string prints, the pieces, and the quote. */
  lemma LongPrints(open: Op, pieces: seq<CPtr>, p: Pen)
    requires open.ObjStartLong? || open.ArrStartLong?
    ensures Run([open] + Adds(pieces) + [EndLong], p)
         == Pen(true, p.text + Comma(p) + Piece(open) + Joined(pieces) + "\"")
  {
    RunOne(open, p);
    RunConcat([open], Adds(pieces), p);
    AddsPrint(pieces, Emit(open, p));
    RunSnoc([open] + Adds(pieces), EndLong, p);
  }

  lemma Requote(b: string, a: string, q: string, c: string, j: string)
    ensures b + (a + q + c) + j + q == b + (a + (q + (c + j) + q))
  {
    assert a + q + c + j == a + (q + (c + j));
    Assoc(b, a + q + c, j);
    Assoc(b, a + q + c + j, q);
    Assoc(a, q + (c + j), q);
  }

  /** A long string in pieces prints what the joined string prints, as a member ... */
  lemma LongMember(name: CPtr, first: CPtr, pieces: seq<CPtr>, p: Pen)
    ensures Run([ObjStartLong(name, first)] + Adds(pieces) + [EndLong], p)
         == Emit(ObjSet(name, StringValue(Str(Chars(first) + Joined(pieces)))), p)
  {
    LongPrints(ObjStartLong(name, first), pieces, p);
    LongPieces(name, first);
    EmitString(name, Chars(first) + Joined(pieces), p);
    Requote(p.text + Comma(p), Named(name), "\"", Chars(first), Joined(pieces));
  }

  /** ... and as an element. */
  lemma LongElem(first: CPtr, pieces: seq<CPtr>, p: Pen)
    ensures Run([ArrStartLong(first)] + Adds(pieces) + [EndLong], p)
         == Emit(ArrSet(StringValue(Str(Chars(first) + Joined(pieces)))), p)
  {
    LongPrints(ArrStartLong(first), pieces, p);
    LongPieces(Null, first);
    EmitString(Null, Chars(first) + Joined(pieces), p);
    Requote(p.text + Comma(p), "", "\"", Chars(first), Joined(pieces));
    Unprefixed("\"" + (Chars(first) + Joined(pieces)) + "\"");
  }

  /** Pushing a member that has been rendered prints what the calls for it print. */
  lemma PushRendered(name: CString, j: Json, p: Pen)
    requires '\0' !in Render(j)
    ensures Emit(PushObjectStr(Str(name), Str(Render(j))), p) == Run(WalkMember(name, j), p)
    ensures Emit(PushArrayStr(Str(name), Str(Render(j))), p) == Run(WalkMember(name, j), p)
  {
    MemberPrints(name, j, p);
  }

  /** The walk of a tree writes its compact text, and the text reads back as
      the same tree exactly when nothing in the tree would need an escape. */
  lemma WalkRoundTrip(j: Json)
    ensures TextOf(Walk(j)) == Render(j)
    ensures ParseText(TextOf(Walk(j))) == Some(j) <==> Clean(j)
  {
    WalkPrints(j, BlankPen);
    assert "" + "" + Render(j) == Render(j);
    RoundTrip(j, Render(j));
  }
}
