/** Messages as connection.cpp builds them, the text json_export gives them, and the way back. */
module JsonMessage {
  import opened Json

  /** A tagged value, quoted or not, or a tagged group. */
  datatype Field =
    | Text(tag: string, value: string)
    | Num(tag: string, value: string)
    | Group(tag: string, fields: seq<Field>)

  function Label(tag: string): string {
    "\"" + tag + "\": "
  }

  function Render(f: Field): string {
    match f
    case Text(tag, value) => Label(tag) + ("\"" + value + "\"")
    case Num(tag, value) => Label(tag) + value
    case Group(tag, fields) => Label(tag) + ("{" + RenderAll(fields) + "}")
  }

  function RenderAll(fs: seq<Field>): string {
    if fs == [] then ""
    else if |fs| == 1 then Render(fs[0])
    else Render(fs[0]) + ", " + RenderAll(fs[1..])
  }

  function RenderMessage(fs: seq<Field>): string {
    "{" + RenderAll(fs) + "}"
  }

  // ----- the messages the parser is made for -----------------------------------------

  /** Digits, with one point at most. */
  predicate NumberTail(v: string, point: bool) {
    v == "" || (IsDigit(v[0]) && NumberTail(v[1..], point)) || (!point && v[0] == '.' && NumberTail(v[1..], true))
  }

  predicate NumberText(v: string) {
    v != "" && (IsDigit(v[0]) || v[0] == '-' || v[0] == '+' || v[0] == '.') && NumberTail(v[1..], false)
  }

  function NumberKind(v: string): Kind {
    if v != "" && '.' in v[1..] then Real else Integer
  }

  predicate QuoteFree(t: string) {
    '"' !in t
  }

  predicate Clean(f: Field) {
    QuoteFree(f.tag) &&
    match f
    case Text(_, value) => QuoteFree(value)
    case Num(_, value) => NumberText(value)
    case Group(_, fields) => forall g <- fields :: Clean(g)
  }

  /** Anything the sender may print for a number, exponents and infinities too. */
  predicate Plain(v: string) {
    v != "" && v[0] != '"' && v[0] != '{' && forall c <- v :: !NumberEnd(c)
  }

  predicate Sendable(f: Field) {
    QuoteFree(f.tag) &&
    match f
    case Text(_, value) => QuoteFree(value)
    case Num(_, value) => Plain(value)
    case Group(_, fields) => forall g <- fields :: Sendable(g)
  }

  predicate NoEmptyGroup(f: Field) {
    f.Group? ==> f.fields != [] && forall g <- f.fields :: NoEmptyGroup(g)
  }

  // ----- the nodes a message becomes -------------------------------------------------

  function Size(f: Field): nat {
    match f
    case Group(_, fields) => 1 + SizeAll(fields)
    case _ => 1
  }

  function SizeAll(fs: seq<Field>): nat {
    if fs == [] then 0 else Size(fs[0]) + SizeAll(fs[1..])
  }

  function KindOf(f: Field): Kind {
    match f
    case Text(_, _) => Str
    case Num(_, value) => NumberKind(value)
    case Group(_, _) => List
  }

  function TextOf(f: Field): string {
    if f.Group? then "" else f.value
  }

  /** A field as the nodes from number `b` on. */
  function Lay(f: Field, b: int, parent: int, next: int): (r: seq<Node>)
    ensures |r| == Size(f)
  {
    if f.Group? then
      [Node(List, f.tag, "", b + 1, next, parent)] + LayAll(f.fields, b + 1, b)
    else
      [Node(KindOf(f), f.tag, TextOf(f), -1, next, parent)]
  }

  function LayAll(fs: seq<Field>, b: int, parent: int): (r: seq<Node>)
    ensures |r| == SizeAll(fs)
  {
    if fs == [] then []
    else
      Lay(fs[0], b, parent, if |fs| == 1 then -1 else b + Size(fs[0])) + LayAll(fs[1..], b + Size(fs[0]), parent)
  }

  /** The node of the last field. */
  function LastAt(fs: seq<Field>, b: int): int {
    if |fs| <= 1 then b else LastAt(fs[1..], b + Size(fs[0]))
  }

  lemma {:induction false} LastNode(fs: seq<Field>, b: int, parent: int)
    requires fs != []
    ensures b <= LastAt(fs, b) < b + SizeAll(fs)
    ensures var n := LayAll(fs, b, parent)[LastAt(fs, b) - b];
            n.parent == parent && n.next == -1
  {
    var next := if |fs| == 1 then -1 else b + Size(fs[0]);
    var head, more := Lay(fs[0], b, parent, next), LayAll(fs[1..], b + Size(fs[0]), parent);
    assert LayAll(fs, b, parent) == head + more;
    if |fs| > 1 {
      LastNode(fs[1..], b + Size(fs[0]), parent);
      assert (head + more)[LastAt(fs, b) - b] == more[LastAt(fs, b) - b - |head|];
    } else {
      assert head[0].parent == parent && head[0].next == -1;
    }
  }

  // ----- reading the pieces of a text ------------------------------------------------

  lemma {:induction false} GoAppends(s: State, a: string, b: string)
    ensures Go(s, a + b) == match Go(s, a) case None => None case Some(t) => Go(t, b)
    decreases |a|
  {
    if a == "" { assert a + b == b; }
    else {
      assert (a + b)[0] == a[0] && (a + b)[1..] == a[1..] + b;
      if Ready(s) && Step(s, a[0]).Some? { GoAppends(Step(s, a[0]).value, a[1..], b); }
    }
  }

  lemma GoOne(s: State, c: char, rest: string)
    requires Ready(s)
    ensures Go(s, [c] + rest) == match Step(s, c) case None => None case Some(t) => Go(t, rest)
  {
    assert ([c] + rest)[1..] == rest;
  }

  lemma TailTwice(s: State, n: Node, m: Node)
    requires HasTail(s)
    ensures WithTail(WithTail(s, n), m) == WithTail(s, m)
  {
  }

  /** Characters up to a quote, read into the tag or the text of the tail. */
  lemma {:induction false} GoTagChars(s: State, tag: string, rest: string)
    requires HasTail(s) && s.mode == Tag && QuoteFree(tag)
    ensures Go(s, tag + ("\"" + rest)) == Go(WithTail(s, Tail(s).(tag := Tail(s).tag + tag)).(mode := Colon), rest)
    decreases |tag|
  {
    if tag == "" {
      assert tag + ("\"" + rest) == "\"" + rest;
      assert Tail(s).tag + tag == Tail(s).tag && WithTail(s, Tail(s)) == s;
      GoOne(s, '"', rest);
    } else {
      var c, more := tag[0], tag[1..];
      assert tag + ("\"" + rest) == [c] + (more + ("\"" + rest));
      GoOne(s, c, more + ("\"" + rest));
      var t := Step(s, c).value;
      GoTagChars(t, more, rest);
      assert Tail(t).tag + more == Tail(s).tag + tag;
      TailTwice(s, Tail(t), Tail(s).(tag := Tail(s).tag + tag));
    }
  }

  lemma {:induction false} GoTextChars(s: State, value: string, rest: string)
    requires HasTail(s) && s.mode == Quoted && QuoteFree(value)
    ensures Go(s, value + ("\"" + rest)) ==
        Go(WithTail(s, Tail(s).(text := Tail(s).text + value)).(mode := Comma), rest)
    decreases |value|
  {
    if value == "" {
      assert value + ("\"" + rest) == "\"" + rest;
      assert Tail(s).text + value == Tail(s).text && WithTail(s, Tail(s)) == s;
      GoOne(s, '"', rest);
    } else {
      var c, more := value[0], value[1..];
      assert value + ("\"" + rest) == [c] + (more + ("\"" + rest));
      GoOne(s, c, more + ("\"" + rest));
      var t := Step(s, c).value;
      GoTextChars(t, more, rest);
      assert Tail(t).text + more == Tail(s).text + value;
      TailTwice(s, Tail(t), Tail(s).(text := Tail(s).text + value));
    }
  }

  /** A number up to the character that ends it, which is put back. */
  lemma {:induction false} GoNumberChars(s: State, v: string, c: char)
    requires HasTail(s) && s.mode == Number && NumberTail(v, Tail(s).kind == Real)
    requires Tail(s).kind == Integer || Tail(s).kind == Real
    requires NumberEnd(c)
    ensures var read := Tail(s).(text := Tail(s).text + v, kind := if '.' in v then Real else Tail(s).kind);
            Go(s, v + [c]) == StepComma(WithTail(s, read).(mode := Comma), c)
    decreases |v|
  {
    if v == "" {
      assert v + [c] == [c] + "";
      assert Tail(s).text + v == Tail(s).text && WithTail(s, Tail(s)) == s;
      GoOne(s, c, "");
    } else {
      assert v + [c] == [v[0]] + (v[1..] + [c]);
      GoOne(s, v[0], v[1..] + [c]);
      var t := Step(s, v[0]).value;
      GoNumberChars(t, v[1..], c);
      assert Tail(t).text + v[1..] == Tail(s).text + v;
      assert v == [v[0]] + v[1..];
      TailTwice(s, Tail(t), Tail(s).(text := Tail(s).text + v, kind := if '.' in v then Real else Tail(s).kind));
    }
  }

  /** A character that no number has stops the parser. */
  lemma {:induction false} StopsInNumber(s: State, v: string, rest: string)
    requires HasTail(s) && s.mode == Number && (Tail(s).kind == Integer || Tail(s).kind == Real)
    requires !NumberTail(v, Tail(s).kind == Real) && forall c <- v :: !NumberEnd(c)
    ensures Go(s, v + rest) == None
    decreases |v|
  {
    assert v[0] in v && v + rest == [v[0]] + (v[1..] + rest);
    GoOne(s, v[0], v[1..] + rest);
    if Step(s, v[0]).Some? { StopsInNumber(Step(s, v[0]).value, v[1..], rest); }
  }

  lemma StopsAtNumber(s: State, v: string, rest: string)
    requires HasTail(s) && s.mode == Param && Plain(v) && !NumberText(v)
    ensures Go(s, v + rest) == None
  {
    assert v[0] in v && v + rest == [v[0]] + (v[1..] + rest);
    GoOne(s, v[0], v[1..] + rest);
    if Step(s, v[0]).Some? { StopsInNumber(Step(s, v[0]).value, v[1..], rest); }
  }
}
