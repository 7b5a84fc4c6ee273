/** The parser of connection/json.cpp as a state machine over numbered nodes: node 0 is the head,
    the others are numbered in the order in which they are created. */
module Json {

  datatype Kind = Void | List | Real | Integer | Str

  /** `list`, `next` and `parent` are node numbers, -1 for none. */
  datatype Node = Node(kind: Kind, tag: string, text: string, list: int, next: int, parent: int)

  datatype Mode = Start | Tag0 | Tag | Colon | Param | Quoted | Number | Comma | End

  datatype State = State(mode: Mode, nodes: seq<Node>, tail: int, nest: int)

  datatype Option<T> = None | Some(value: T)

  function Blank(parent: int): Node {
    Node(Void, "", "", -1, -1, parent)
  }

  const INITIAL := State(Start, [Blank(-1)], 0, 0)

  predicate IsSpace(c: char) {
    c == ' ' || c == '\t' || c == '\n' || c == '\r' || c as int == 11 || c as int == 12
  }

  predicate IsDigit(c: char) {
    '0' <= c <= '9'
  }

  /** The tail pointer is dereferenced only where it cannot be null. */
  predicate HasTail(s: State) {
    0 <= s.tail < |s.nodes|
  }

  predicate Ready(s: State) {
    s.mode == Start || s.mode == End || HasTail(s)
  }

  // ----- what the parser does to the nodes -------------------------------------------

  function Tail(s: State): Node
    requires HasTail(s)
  {
    s.nodes[s.tail]
  }

  function WithTail(s: State, n: Node): State
    requires HasTail(s)
  {
    s.(nodes := s.nodes[s.tail := n])
  }

  /** A new list item after the tail. */
  function NewNext(s: State): State
    requires HasTail(s)
  {
    var n := |s.nodes|;
    s.(nodes := s.nodes[s.tail := Tail(s).(next := n)] + [Blank(Tail(s).parent)], tail := n)
  }

  /** A new list under the tail. */
  function NewSublist(s: State): State
    requires HasTail(s)
  {
    var n := |s.nodes|;
    s.(nodes := s.nodes[s.tail := Tail(s).(list := n)] + [Blank(s.tail)], tail := n)
  }

  predicate NumberEnd(c: char) {
    IsSpace(c) || c == ',' || c == '}'
  }

  function StepComma(s: State, c: char): Option<State>
    requires HasTail(s)
  {
    if IsSpace(c) then Some(s)
    else if c == '}' then
      Some(s.(mode := if s.nest - 1 == 0 then End else Comma, tail := Tail(s).parent, nest := s.nest - 1))
    else if c == ',' then Some(NewNext(s).(mode := Tag0))
    else None
  }

  /** One character; None for a syntax error. A number is ended by a character that is put back,
      so that one is also the first character after it. */
  function Step(s: State, c: char): Option<State>
    requires Ready(s)
  {
    match s.mode
    case Start =>
      if IsSpace(c) then Some(s) else if c == '{' then Some(s.(mode := Tag0, nest := s.nest + 1)) else None
    case Tag0 =>
      if IsSpace(c) then Some(s) else if c == '"' then Some(s.(mode := Tag)) else None
    case Tag =>
      if c == '"' then Some(s.(mode := Colon))
      else Some(WithTail(s, Tail(s).(tag := Tail(s).tag + [c])))
    case Colon =>
      if IsSpace(c) then Some(s) else if c == ':' then Some(s.(mode := Param)) else None
    case Param =>
      if IsSpace(c) then Some(s)
      else if c == '"' then Some(WithTail(s, Tail(s).(kind := Str)).(mode := Quoted))
      else if IsDigit(c) || c == '-' || c == '+' || c == '.' then
        Some(WithTail(s, Tail(s).(kind := Integer, text := Tail(s).text + [c])).(mode := Number))
      else if c == '{' then
        Some(NewSublist(WithTail(s, Tail(s).(kind := List))).(mode := Tag0, nest := s.nest + 1))
      else None
    case Quoted =>
      if c == '"' then Some(s.(mode := Comma))
      else Some(WithTail(s, Tail(s).(text := Tail(s).text + [c])))
    case Number =>
      if NumberEnd(c) then StepComma(s.(mode := Comma), c)
      else if Tail(s).kind == Integer && c == '.' then
        Some(WithTail(s, Tail(s).(kind := Real, text := Tail(s).text + [c])))
      else if IsDigit(c) then Some(WithTail(s, Tail(s).(text := Tail(s).text + [c])))
      else None
    case Comma => StepComma(s, c)
    case End => if IsSpace(c) then Some(s) else None
  }

  /** The characters of a text one after another. */
  function Go(s: State, text: string): Option<State>
    decreases |text|
  {
    if text == "" then Some(s)
    else if !Ready(s) then None
    else
      match Step(s, text[0])
      case None => None
      case Some(t) => Go(t, text[1..])
  }

  /** json::parse. The text is what comes before its terminating NUL, so there is none in it. Text
      that ends early is accepted as far as it goes. */
  function Parse(text: string): Option<State> {
    Go(INITIAL, text)
  }

  // ----- the invariant ---------------------------------------------------------------

  /** Links lead forward and parents lead back; an item has a list exactly when it is of list
      type, and all items of a list have that item as their parent. */
  predicate NodeLinked(nodes: seq<Node>, i: nat)
    requires i < |nodes|
  {
    var n := nodes[i];
    && -1 <= n.parent < i
    && (n.list == -1 || i < n.list < |nodes|) && (n.next == -1 || i < n.next < |nodes|)
    && (n.kind == List <==> n.list != -1)
    && (n.list != -1 ==> nodes[n.list].parent == i)
    && (n.next != -1 ==> nodes[n.next].parent == n.parent)
  }

  ghost predicate Linked(nodes: seq<Node>) {
    forall i :: 0 <= i < |nodes| ==> NodeLinked(nodes, i)
  }

  /** The nodes met from node `i` on, following `list` before `next`. */
  ghost function Visit(nodes: seq<Node>, i: int): seq<int>
    requires Linked(nodes) && -1 <= i < |nodes|
    decreases |nodes| - i, i
  {
    if i == -1 then []
    else
      assert NodeLinked(nodes, i);
      [i] + (if nodes[i].list == -1 then [] else Visit(nodes, nodes[i].list))
          + (if nodes[i].next == -1 then [] else Visit(nodes, nodes[i].next))
  }

  function Range(a: int, b: int): (r: seq<int>)
    requires a <= b
    ensures |r| == b - a && forall k :: 0 <= k < |r| ==> r[k] == a + k
    decreases b - a
  {
    if a == b then [] else [a] + Range(a + 1, b)
  }

  /** The last path from node `i`, along `next` while there is one and else into the list, comes to node `t`. */
  ghost predicate Ends(nodes: seq<Node>, i: int, t: int)
    requires Linked(nodes) && 0 <= i < |nodes|
    decreases |nodes| - i
  {
    assert NodeLinked(nodes, i);
    || i == t
    || (nodes[i].next != -1 && Ends(nodes, nodes[i].next, t))
    || (nodes[i].next == -1 && nodes[i].list != -1 && Ends(nodes, nodes[i].list, t))
  }

  /** How many nodes there are from node `i` up to the top. */
  ghost function Depth(nodes: seq<Node>, i: int): nat
    requires Linked(nodes) && -1 <= i < |nodes|
    decreases i
  {
    if i == -1 then 0
    else
      assert NodeLinked(nodes, i);
      1 + Depth(nodes, nodes[i].parent)
  }

  /** Every node is met exactly once from the head, in the order of creation; the tail is where
      the tree grows; and the nesting level is the number of items from the tail up to the top. */
  ghost predicate Inv(s: State) {
    && |s.nodes| > 0 && Linked(s.nodes) && s.nodes[0].parent == -1
    && Visit(s.nodes, 0) == Range(0, |s.nodes|)
    && (match s.mode
        case Start => s == INITIAL
        case End => s.nest == 0 && s.tail == -1
        case _ =>
          && HasTail(s) && Tail(s).next == -1 && Ends(s.nodes, 0, s.tail)
          && s.nest == Depth(s.nodes, s.tail)
          && (s.mode != Comma ==>
                Tail(s).list == -1 && (s.mode != Number && s.mode != Quoted ==> Tail(s).kind == Void)))
  }
}
