/** The parser of connection/json.cpp in its own form: list nodes on the heap, linked to what
    they contain, to what follows them and back to the item that owns them. */
module JsonParser {
  import opened Json
  import opened JsonTree

  class JsonList {
    var kind: Kind
    var tag: string
    var text: string
    var list: JsonList?
    var next: JsonList?
    var parent: JsonList?
    /** Until it is deleted. Only a live node may be read or deleted. */
    ghost var live: bool

    constructor (parent: JsonList?)
      ensures kind == Void && tag == "" && text == "" && list == null && next == null && this.parent == parent
      ensures live
    {
      kind, tag, text := Void, "", "";
      list, next, this.parent, live := null, null, parent, true;
    }

    function KindOf(): Kind
      requires live
      reads this
    {
      kind
    }

    function ListOf(): JsonList?
      requires live
      reads this
    {
      list
    }

    function NextOf(): JsonList?
      requires live
      reads this
    {
      next
    }

    method Delete()
      requires live
      modifies this`live
      ensures !live
    {
      live := false;
    }
  }

  /** The node with a number; null for none. */
  ghost function Ref(arena: seq<JsonList>, k: int): JsonList? {
    if 0 <= k < |arena| then arena[k] else null
  }

  /** What is stored in a node, but for its being alive. */
  datatype Content = Content(kind: Kind, tag: string, text: string, list: JsonList?, next: JsonList?, parent: JsonList?)

  ghost function ContentOf(x: JsonList): Content
    reads x
  {
    Content(x.kind, x.tag, x.text, x.list, x.next, x.parent)
  }

  ghost predicate Matches(arena: seq<JsonList>, c: Content, n: Node) {
    c == Content(n.kind, n.tag, n.text, Ref(arena, n.list), Ref(arena, n.next), Ref(arena, n.parent))
  }

  ghost predicate Shows(arena: seq<JsonList>, x: JsonList, n: Node)
    reads x
  {
    Matches(arena, ContentOf(x), n)
  }

  /** The nodes on the heap, in the order of their creation, are the numbered nodes. */
  ghost predicate Rep(arena: seq<JsonList>, nodes: seq<Node>)
    reads arena
  {
    && |arena| == |nodes|
    && (forall i, j :: 0 <= i < j < |arena| ==> arena[i] != arena[j])
    && (forall i :: 0 <= i < |arena| ==> Shows(arena, arena[i], nodes[i]))
  }

  /** json_new_list: a node after the tail, with the tail's parent. */
  method NewList(tail: JsonList, ghost arena: seq<JsonList>, ghost s: State) returns (x: JsonList)
    requires Inv(s) && s.mode == Comma && Rep(arena, s.nodes) && tail == Ref(arena, s.tail)
    modifies tail`next
    ensures fresh(x) && x.live && Rep(arena + [x], NewNext(s).nodes)
  {
    x := new JsonList(tail.parent);
    tail.next := x;
    forall i | 0 <= i < |arena| + 1 ensures Shows(arena + [x], (arena + [x])[i], NewNext(s).nodes[i]) {
      if i < |arena| { assert NodeLinked(s.nodes, i); }
      assert NodeLinked(s.nodes, s.tail);
    }
  }

  /** json_new_sublist: a first node in the list of the tail. */
  method NewSublistNode(tail: JsonList, ghost arena: seq<JsonList>, ghost s: State) returns (x: JsonList)
    requires Inv(s) && s.mode == Param && Rep(arena, s.nodes) && tail == Ref(arena, s.tail)
    modifies tail`list, tail`kind
    ensures fresh(x) && x.live && Rep(arena + [x], NewSublist(WithTail(s, Tail(s).(kind := List))).nodes)
  {
    tail.kind := List;
    x := new JsonList(tail);
    tail.list := x;
    var b := NewSublist(WithTail(s, Tail(s).(kind := List))).nodes;
    forall i | 0 <= i < |arena| + 1 ensures Shows(arena + [x], (arena + [x])[i], b[i]) {
      if i < |arena| { assert NodeLinked(s.nodes, i); }
      assert NodeLinked(s.nodes, s.tail);
    }
  }

  /** Type, tag and text of the tail are overwritten. */
  method SetTail(tail: JsonList, kind: Kind, tag: string, text: string, ghost arena: seq<JsonList>, ghost s: State)
    requires HasTail(s) && Rep(arena, s.nodes) && tail == Ref(arena, s.tail)
    modifies tail`kind, tail`tag, tail`text
    ensures Rep(arena, WithTail(s, Tail(s).(kind := kind, tag := tag, text := text)).nodes)
  {
    tail.kind, tail.tag, tail.text := kind, tag, text;
  }

  // ----- searching and destroying ----------------------------------------------------

  method FindItem(list: JsonList?, tag: string, ghost arena: seq<JsonList>, ghost nodes: seq<Node>, ghost i: int)
    returns (r: JsonList?)
    requires Linked(nodes) && Rep(arena, nodes) && -1 <= i < |nodes| && list == Ref(arena, i)
    ensures r == Ref(arena, Find(nodes, i, tag))
    decreases if i == -1 then 0 else |nodes| - i
  {
    if list == null { return null; }
    assert NodeLinked(nodes, i);
    if list.tag == tag { return list; }
    var sub: JsonList? := null;
    if list.kind == List { sub := FindItem(list.list, tag, arena, nodes, nodes[i].list); }
    if sub != null { return sub; }
    r := FindItem(list.next, tag, arena, nodes, nodes[i].next);
  }

  ghost predicate Distinct(xs: seq<int>) {
    forall i, j :: 0 <= i < j < |xs| ==> xs[i] != xs[j]
  }

  lemma DistinctParts(i: int, u: seq<int>, w: seq<int>)
    requires Distinct([i] + u + w)
    ensures Distinct(u) && Distinct(w) && i !in u && i !in w && (forall k <- u :: k !in w)
    ensures forall k :: k in [i] + u + w <==> k == i || k in u || k in w
  {
    var all := [i] + u + w;
    assert all[0] == i;
    assert forall k :: 0 <= k < |u| ==> all[1 + k] == u[k];
    assert forall k :: 0 <= k < |w| ==> all[1 + |u| + k] == w[k];
  }

  ghost function Lives(arena: seq<JsonList>): (r: seq<bool>)
    reads arena
    ensures |r| == |arena| && forall k :: 0 <= k < |arena| ==> r[k] == arena[k].live
  {
    seq(|arena|, k requires 0 <= k < |arena| reads arena => arena[k].live)
  }

  /** Which nodes are alive when those numbered `xs` have been deleted. */
  function Without(lives: seq<bool>, xs: seq<int>): (r: seq<bool>)
    ensures |r| == |lives| && forall k :: 0 <= k < |lives| ==> r[k] == (lives[k] && k !in xs)
  {
    seq(|lives|, k requires 0 <= k < |lives| => lives[k] && k !in xs)
  }

  predicate AllAlive(lives: seq<bool>, xs: seq<int>) {
    forall k <- xs :: 0 <= k < |lives| && lives[k]
  }

  lemma WithoutParts(lives: seq<bool>, i: int, u: seq<int>, w: seq<int>)
    requires Distinct([i] + u + w) && AllAlive(lives, [i] + u + w)
    ensures Distinct(u) && Distinct(w) && AllAlive(lives, u) && AllAlive(Without(lives, u), w)
    ensures AllAlive(Without(Without(lives, u), w), [i]) && AllAlive(Without(lives, u), [i]) && AllAlive(lives, [i])
    ensures Without(Without(Without(lives, u), w), [i]) == Without(lives, [i] + u + w)
  {
    DistinctParts(i, u, w);
    assert forall k :: k in [i] + u + w <==> k == i || k in u || k in w;
  }

  /** Deletes a node; the nodes still show what they did. */
  method DeleteNode(x: JsonList, ghost arena: seq<JsonList>, ghost nodes: seq<Node>, ghost i: int)
    requires Rep(arena, nodes) && 0 <= i < |arena| && x == arena[i] && x.live
    modifies x`live
    ensures Rep(arena, nodes) && Lives(arena) == Without(old(Lives(arena)), [i])
  {
    x.Delete();
    forall k | 0 <= k < |arena| ensures Shows(arena, arena[k], nodes[k]) {
      assert old(Shows(arena, arena[k], nodes[k]));
      assert ContentOf(arena[k]) == old(ContentOf(arena[k]));
    }
    assert Lives(arena) == Without(old(Lives(arena)), [i]) by {
      assert forall k :: 0 <= k < |arena| && k != i ==> k !in [i] && arena[k] != x;
    }
  }

  /** json::destroy. Every node met from `list` on is deleted, once, and no other. */
  method Destroy(list: JsonList?, ghost arena: seq<JsonList>, ghost nodes: seq<Node>, ghost i: int)
    requires Linked(nodes) && Rep(arena, nodes) && -1 <= i < |nodes| && list == Ref(arena, i)
    requires Distinct(Visit(nodes, i)) && AllAlive(Lives(arena), Visit(nodes, i))
    modifies arena`live
    ensures Rep(arena, nodes) && Lives(arena) == Without(old(Lives(arena)), Visit(nodes, i))
    decreases if i == -1 then 0 else |nodes| - i
  {
    if list == null { return; }
    assert NodeLinked(nodes, i);
    ghost var under, follow := Visit(nodes, nodes[i].list), Visit(nodes, nodes[i].next);
    assert Visit(nodes, i) == [i] + under + follow;
    WithoutParts(Lives(arena), i, under, follow);
    assert Shows(arena, arena[i], nodes[i]) && i in [i];
    if list.KindOf() == List { Destroy(list.ListOf(), arena, nodes, nodes[i].list); }
    assert Lives(arena) == Without(old(Lives(arena)), under);
    assert Shows(arena, arena[i], nodes[i]) && i in [i];
    Destroy(list.NextOf(), arena, nodes, nodes[i].next);
    assert i in [i];
    DeleteNode(list, arena, nodes, i);
  }

  // ----- parsing ---------------------------------------------------------------------

  ghost predicate Alive(arena: seq<JsonList>)
    reads arena`live
  {
    forall k :: 0 <= k < |arena| ==> arena[k].live
  }

  /** The variables of the loop show the state of the machine. */
  ghost predicate InStep(mode: Mode, tail: JsonList?, nest: int, arena: seq<JsonList>, s: State)
    reads arena
  {
    && Inv(s) && Rep(arena, s.nodes)
    && mode == s.mode && tail == Ref(arena, s.tail) && nest == s.nest
  }

  /** What a character does: reading on, reading the same character again, or a syntax error. */
  datatype Next = Onward | Again | Syntax

  /** Its case for the start of a value. */
  method SwitchParam(c: char, tail: JsonList, nest: int, ghost arena: seq<JsonList>, ghost s: State)
    returns (r: Next, mode': Mode, tail': JsonList?, nest': int, ghost arena': seq<JsonList>, ghost s': State)
    requires InStep(Param, tail, nest, arena, s)
    modifies arena`kind, arena`tag, arena`text, arena`list
    ensures InStep(mode', tail', nest', arena', s')
    ensures arena <= arena' && forall k :: |arena| <= k < |arena'| ==> fresh(arena'[k]) && arena'[k].live
    ensures match r
            case Onward => Step(s, c) == Some(s')
            case Again => false
            case Syntax => Step(s, c) == None && arena' == arena && s' == s
  {
    r, mode', tail', nest', arena', s' := Onward, Param, tail, nest, arena, s;
    if IsSpace(c) {
    } else if c == '"' {
      mode' := Quoted;
      SetTail(tail, Str, tail.tag, tail.text, arena, s);
    } else if IsDigit(c) || c == '-' || c == '+' || c == '.' {
      mode' := Number;
      SetTail(tail, Integer, tail.tag, tail.text + [c], arena, s);
    } else if c == '{' {
      nest', mode' := nest + 1, Tag0;
      tail' := NewSublistNode(tail, arena, s);
      arena' := arena + [tail'];
    } else {
      r := Syntax;
      return;
    }
    StepKeepsInv(s, c);
    s' := Step(s, c).value;
  }

  /** The switch of the loop. A number ended by a character leaves that character to be read again. */
  method Switch(c: char, mode: Mode, tail: JsonList?, nest: int, ghost arena: seq<JsonList>, ghost s: State)
    returns (r: Next, mode': Mode, tail': JsonList?, nest': int, ghost arena': seq<JsonList>, ghost s': State)
    requires InStep(mode, tail, nest, arena, s)
    modifies arena`kind, arena`tag, arena`text, arena`list, arena`next
    ensures InStep(mode', tail', nest', arena', s')
    ensures arena <= arena' && forall k :: |arena| <= k < |arena'| ==> fresh(arena'[k]) && arena'[k].live
    ensures match r
            case Onward => Step(s, c) == Some(s')
            case Again => mode == Number && mode' == Comma && s' == s.(mode := Comma) && NumberEnd(c)
            case Syntax => Step(s, c) == None && arena' == arena && s' == s
  {
    r, mode', tail', nest', arena', s' := Onward, mode, tail, nest, arena, s;
    match mode {
      case Start =>
        if IsSpace(c) {}
        else if c == '{' { nest', mode' := nest + 1, Tag0; }
        else { r := Syntax; return; }
      case Tag0 =>
        if IsSpace(c) {}
        else if c == '"' { mode' := Tag; }
        else { r := Syntax; return; }
      case Tag =>
        if c == '"' { mode' := Colon; }
        else { SetTail(tail, tail.kind, tail.tag + [c], tail.text, arena, s); }
      case Colon =>
        if IsSpace(c) {}
        else if c == ':' { mode' := Param; }
        else { r := Syntax; return; }
      case Param =>
        r, mode', tail', nest', arena', s' := SwitchParam(c, tail, nest, arena, s);
        return;
      case Quoted =>
        if c == '"' { mode' := Comma; }
        else { SetTail(tail, tail.kind, tail.tag, tail.text + [c], arena, s); }
      case Number =>
        if IsSpace(c) || c == ',' || c == '}' {
          r, mode', s' := Again, Comma, s.(mode := Comma);
          return;
        } else if tail.kind == Integer && c == '.' {
          SetTail(tail, Real, tail.tag, tail.text + [c], arena, s);
        } else if IsDigit(c) {
          SetTail(tail, tail.kind, tail.tag, tail.text + [c], arena, s);
        } else { r := Syntax; return; }
      case Comma =>
        if IsSpace(c) {}
        else if c == '}' {
          nest' := nest - 1;
          mode' := if nest' == 0 then End else Comma;
          tail' := tail.parent;
        } else if c == ',' {
          mode' := Tag0;
          tail' := NewList(tail, arena, s);
          arena' := arena + [tail'];
        } else { r := Syntax; return; }
      case End =>
        if IsSpace(c) {}
        else { r := Syntax; return; }
    }
    StepKeepsInv(s, c);
    s' := Step(s, c).value;
  }

  lemma GoFrom(s: State, buffer: string, p: nat)
    requires p < |buffer| && Ready(s)
    ensures Go(s, buffer[p..]) == match Step(s, buffer[p]) case None => None case Some(t) => Go(t, buffer[p + 1..])
    ensures s.mode == Number && NumberEnd(buffer[p]) ==> Go(s, buffer[p..]) == Go(s.(mode := Comma), buffer[p..])
  {
    assert buffer[p..][0] == buffer[p] && buffer[p..][1..] == buffer[p + 1..];
  }

  ghost predicate Deleted(arena: seq<JsonList>)
    reads arena`live
  {
    forall k :: 0 <= k < |arena| ==> !arena[k].live
  }

  lemma WithoutAll(lives: seq<bool>)
    requires forall k :: 0 <= k < |lives| ==> lives[k]
    ensures Distinct(Range(0, |lives|)) && AllAlive(lives, Range(0, |lives|))
    ensures forall k :: 0 <= k < |lives| ==> !Without(lives, Range(0, |lives|))[k]
  {
    var all := Range(0, |lives|);
    forall k | 0 <= k < |lives| ensures all[k] == k && k in all {
      assert all[k] == 0 + k;
      assert all[k] in all;
    }
  }

  /** Destroying from the head deletes every node. */
  method DestroyAll(head: JsonList, ghost arena: seq<JsonList>, ghost s: State)
    requires Inv(s) && Rep(arena, s.nodes) && head == Ref(arena, 0) && Alive(arena)
    modifies arena`live
    ensures Deleted(arena)
  {
    ghost var lives := Lives(arena);
    WithoutAll(lives);
    VisitsAll(s, |lives|);
    Destroy(head, arena, s.nodes, 0);
    assert Lives(arena) == Without(lives, Range(0, |lives|));
    assert forall k :: 0 <= k < |arena| ==> Lives(arena)[k] == arena[k].live;
  }

  lemma VisitsAll(s: State, n: nat)
    requires Inv(s) && n == |s.nodes|
    ensures Visit(s.nodes, 0) == Range(0, n)
  {
  }

  /** One turn of the loop, the character at `p` read or put back. */
  method Read(buffer: string, p: nat, mode: Mode, tail: JsonList?, nest: int, ghost arena: seq<JsonList>,
              ghost s: State)
    returns (r: Next, p': nat, mode': Mode, tail': JsonList?, nest': int, ghost arena': seq<JsonList>, ghost s': State)
    requires p < |buffer| && InStep(mode, tail, nest, arena, s) && Alive(arena)
    modifies arena`kind, arena`tag, arena`text, arena`list, arena`next
    ensures InStep(mode', tail', nest', arena', s') && Alive(arena')
    ensures arena <= arena' && forall k :: |arena| <= k < |arena'| ==> fresh(arena'[k])
    ensures p <= p' <= |buffer| && (r != Syntax && p' == p ==> mode == Number && mode' == Comma)
    ensures Go(s, buffer[p..]) == if r == Syntax then None else Go(s', buffer[p'..])
  {
    GoFrom(s, buffer, p);
    r, mode', tail', nest', arena', s' := Switch(buffer[p], mode, tail, nest, arena, s);
    p' := if r == Onward then p + 1 else p;
    assert forall k :: 0 <= k < |arena| ==> arena'[k] == arena[k] && arena[k].live;
  }

  /** On accepted text the head of the tree is returned; on a syntax error null, with every node
      that was created deleted again. */
  method ParseBuffer(buffer: string) returns (head: JsonList?, ghost arena: seq<JsonList>)
    ensures match Parse(buffer)
            case None => head == null && Deleted(arena)
            case Some(s) => Inv(s) && Rep(arena, s.nodes) && head == Ref(arena, 0) && Alive(arena)
    ensures forall k :: 0 <= k < |arena| ==> fresh(arena[k])
  {
    head := new JsonList(null);
    arena := [head];
    ghost var s := INITIAL;
    InitialInv();
    var tail: JsonList?, mode, nest, p := head, Start, 0, 0;
    while p < |buffer|
      invariant 0 <= p <= |buffer| && InStep(mode, tail, nest, arena, s) && Alive(arena)
      invariant arena != [] && head == arena[0] && forall k :: 0 <= k < |arena| ==> fresh(arena[k])
      invariant Go(s, buffer[p..]) == Parse(buffer)
      decreases |buffer| - p, mode == Number
    {
      var r;
      r, p, mode, tail, nest, arena, s := Read(buffer, p, mode, tail, nest, arena, s);
      if r == Syntax {
        DestroyAll(head, arena, s);
        return null, arena;
      }
    }
  }
}
