/** json::parse on any text: the nodes always form a tree. */
module JsonTree {
  import opened Json

  /** Two lists of nodes with the same links. */
  ghost predicate SameLinks(a: seq<Node>, b: seq<Node>) {
    && |a| == |b|
    && forall i {:trigger a[i]} {:trigger b[i]} :: 0 <= i < |a| ==>
         a[i].list == b[i].list && a[i].next == b[i].next && a[i].parent == b[i].parent
  }

  lemma {:induction false} SameLinksVisit(a: seq<Node>, b: seq<Node>, i: int)
    requires Linked(a) && Linked(b) && SameLinks(a, b) && -1 <= i < |a|
    ensures Visit(a, i) == Visit(b, i)
    decreases |a| - i, i
  {
    if i >= 0 {
      assert NodeLinked(a, i) && a[i].list == b[i].list && a[i].next == b[i].next;
      if a[i].list != -1 { SameLinksVisit(a, b, a[i].list); }
      if a[i].next != -1 { SameLinksVisit(a, b, a[i].next); }
    }
  }

  lemma {:induction false} SameLinksEnds(a: seq<Node>, b: seq<Node>, i: int, t: int)
    requires Linked(a) && Linked(b) && SameLinks(a, b) && 0 <= i < |a| && Ends(a, i, t)
    ensures Ends(b, i, t)
    decreases |a| - i
  {
    assert NodeLinked(a, i) && a[i].list == b[i].list && a[i].next == b[i].next;
    if i != t {
      if a[i].next != -1 { SameLinksEnds(a, b, a[i].next, t); }
      else { SameLinksEnds(a, b, a[i].list, t); }
    }
  }

  lemma {:induction false} SameParentsDepth(a: seq<Node>, b: seq<Node>, i: int)
    requires Linked(a) && Linked(b) && -1 <= i < |a| <= |b|
    requires forall k :: 0 <= k < |a| ==> a[k].parent == b[k].parent
    ensures Depth(a, i) == Depth(b, i)
    decreases i
  {
    if i >= 0 {
      assert NodeLinked(a, i) && a[i].parent == b[i].parent;
      SameParentsDepth(a, b, a[i].parent);
    }
  }

  /** Writing to the tail anything but its links. */
  lemma TailWritten(s: State, n: Node, mode: Mode)
    requires Inv(s) && s.mode != Start && s.mode != End && Tail(s).list == -1
    requires n.list == -1 && n.next == Tail(s).next && n.parent == Tail(s).parent && n.kind != List
    requires mode != Start && mode != End
    requires mode == Comma || mode == Number || mode == Quoted || n.kind == Void
    ensures Inv(WithTail(s, n).(mode := mode))
  {
    var t := WithTail(s, n).(mode := mode);
    forall i | 0 <= i < |t.nodes| ensures NodeLinked(t.nodes, i) { assert NodeLinked(s.nodes, i); }
    assert SameLinks(s.nodes, t.nodes);
    SameLinksVisit(s.nodes, t.nodes, 0);
    SameLinksEnds(s.nodes, t.nodes, 0, s.tail);
    SameParentsDepth(s.nodes, t.nodes, s.tail);
  }

  // ----- a new node ------------------------------------------------------------------

  /** `b` is `a` with one more node, hung from node `t` as its next or as its list. */
  ghost predicate Attached(a: seq<Node>, b: seq<Node>, t: int) {
    && Linked(a) && Linked(b) && 0 <= t < |a| && |b| == |a| + 1
    && (forall i {:trigger b[i]} :: 0 <= i < |a| && i != t ==>
          b[i].list == a[i].list && b[i].next == a[i].next && b[i].parent == a[i].parent)
    && a[t].next == -1 && b[t].parent == a[t].parent
    && b[|a|].list == -1 && b[|a|].next == -1
    && (if b[t].next == |a| then b[t].list == a[t].list && b[|a|].parent == a[t].parent
        else b[t].next == -1 && a[t].list == -1 && b[t].list == |a| && b[|a|].parent == t)
  }

  lemma {:induction false} VisitInBounds(nodes: seq<Node>, i: int, k: nat)
    requires Linked(nodes) && -1 <= i < |nodes| && k < |Visit(nodes, i)|
    ensures i <= Visit(nodes, i)[k] < |nodes|
    decreases |nodes| - i, i
  {
    if i >= 0 {
      assert NodeLinked(nodes, i);
      var under := if nodes[i].list == -1 then [] else Visit(nodes, nodes[i].list);
      if 0 < k <= |under| { VisitInBounds(nodes, nodes[i].list, k - 1); }
      else if k > |under| { VisitInBounds(nodes, nodes[i].next, k - 1 - |under|); }
    }
  }

  /** Parts of the tree that the new node is not hung from look as before. */
  lemma {:induction false} VisitElsewhere(a: seq<Node>, b: seq<Node>, t: int, i: int)
    requires Attached(a, b, t) && -1 <= i < |a| && t !in Visit(a, i)
    ensures Visit(b, i) == Visit(a, i)
    decreases |a| - i, i
  {
    if i >= 0 {
      assert NodeLinked(a, i) && NodeLinked(b, i);
      assert i in Visit(a, i);
      assert b[i].list == a[i].list && b[i].next == a[i].next;
      if a[i].list != -1 { VisitElsewhere(a, b, t, a[i].list); }
      if a[i].next != -1 { VisitElsewhere(a, b, t, a[i].next); }
    }
  }

  lemma {:induction false} EndsIsVisited(nodes: seq<Node>, i: int, t: int)
    requires Linked(nodes) && 0 <= i < |nodes| && Ends(nodes, i, t)
    ensures t in Visit(nodes, i) && i <= t < |nodes|
    decreases |nodes| - i
  {
    assert NodeLinked(nodes, i);
    if i != t {
      if nodes[i].next != -1 { EndsIsVisited(nodes, nodes[i].next, t); }
      else { EndsIsVisited(nodes, nodes[i].list, t); }
    }
  }

  lemma RangeSplits(i: int, u: seq<int>, w: seq<int>, n: int)
    requires i < n && [i] + u + w == Range(i, n)
    ensures u == Range(i + 1, i + 1 + |u|) && w == Range(i + 1 + |u|, n)
    ensures w != [] ==> w == Range(w[0], n)
    ensures w == [] && u != [] ==> u == Range(u[0], n)
  {
    var r := Range(i, n);
    assert forall k :: 0 <= k < |u| ==> u[k] == r[1 + k];
    assert forall k :: 0 <= k < |w| ==> w[k] == r[1 + |u| + k];
  }

  lemma RangeSnoc(a: int, b: int)
    requires a <= b
    ensures Range(a, b) + [b] == Range(a, b + 1)
  {
  }

  /** The new node at the tail itself. */
  lemma VisitGrowsHere(a: seq<Node>, b: seq<Node>, t: int)
    requires Attached(a, b, t)
    ensures Visit(b, t) == Visit(a, t) + [|a|] && Ends(b, t, |a|)
  {
    var n := |a|;
    assert NodeLinked(a, t) && NodeLinked(b, t) && NodeLinked(b, n);
    assert Visit(b, n) == [n] && Ends(b, n, n);
    if b[t].next == n && a[t].list != -1 {
      forall k | 0 <= k < |Visit(a, a[t].list)| ensures Visit(a, a[t].list)[k] != t {
        VisitInBounds(a, a[t].list, k);
      }
      VisitElsewhere(a, b, t, a[t].list);
    }
  }

  /** One step along the last path: what is met from there on is again a whole range. */
  lemma PathRange(a: seq<Node>, i: int, t: int)
    requires Linked(a) && 0 <= i < |a| && NodeLinked(a, i)
    requires i != t && Ends(a, i, t) && Visit(a, i) == Range(i, |a|)
    ensures a[i].next == -1 ==> a[i].list != -1 && Visit(a, a[i].list) == Range(a[i].list, |a|)
    ensures a[i].next != -1 ==> Visit(a, a[i].next) == Range(a[i].next, |a|)
    ensures a[i].next != -1 && a[i].list != -1 ==> t !in Visit(a, a[i].list)
  {
    assert NodeLinked(a, i);
    var under := if a[i].list == -1 then [] else Visit(a, a[i].list);
    var after := if a[i].next == -1 then [] else Visit(a, a[i].next);
    RangeSplits(i, under, after, |a|);
    if a[i].next == -1 { VisitStarts(a, a[i].list); }
    else {
      VisitStarts(a, a[i].next);
      EndsIsVisited(a, a[i].next, t);
    }
  }

  lemma VisitStarts(a: seq<Node>, i: int)
    requires Linked(a) && 0 <= i < |a|
    ensures Visit(a, i) != [] && Visit(a, i)[0] == i
  {
  }

  lemma GrowsInto(a: seq<Node>, b: seq<Node>, t: int, i: int)
    requires Attached(a, b, t) && 0 <= i < |a| && i != t && a[i].next == -1 && a[i].list != -1
    requires -1 <= a[i].list < |a| && Visit(b, a[i].list) == Visit(a, a[i].list) + [|a|] && Ends(b, a[i].list, |a|)
    ensures Visit(b, i) == Visit(a, i) + [|a|] && Ends(b, i, |a|)
  {
    assert NodeLinked(a, i) && NodeLinked(b, i);
    assert b[i].list == a[i].list && b[i].next == a[i].next;
    assert Visit(a, i) == [i] + Visit(a, a[i].list);
    assert Visit(b, i) == [i] + Visit(b, a[i].list);
  }

  lemma GrowsAlong(a: seq<Node>, b: seq<Node>, t: int, i: int)
    requires Attached(a, b, t) && 0 <= i < |a| && i != t && a[i].next != -1
    requires NodeLinked(a, i) && (a[i].list != -1 ==> Visit(b, a[i].list) == Visit(a, a[i].list))
    requires Visit(b, a[i].next) == Visit(a, a[i].next) + [|a|] && Ends(b, a[i].next, |a|)
    ensures Visit(b, i) == Visit(a, i) + [|a|] && Ends(b, i, |a|)
  {
    assert NodeLinked(b, i);
    assert b[i].list == a[i].list && b[i].next == a[i].next;
    var under := if a[i].list == -1 then [] else Visit(a, a[i].list);
    assert Visit(a, i) == [i] + under + Visit(a, a[i].next);
    assert Visit(b, i) == [i] + under + Visit(b, a[i].next);
  }

  /** Hung from the end of the last path, the new node is met last. */
  lemma {:induction false} VisitGrows(a: seq<Node>, b: seq<Node>, t: int, i: int)
    requires Attached(a, b, t) && 0 <= i < |a| && Ends(a, i, t)
    requires Visit(a, i) == Range(i, |a|)
    ensures Visit(b, i) == Visit(a, i) + [|a|] && Ends(b, i, |a|)
    decreases |a| - i
  {
    if i == t { VisitGrowsHere(a, b, t); }
    else {
      assert NodeLinked(a, i);
      PathRange(a, i, t);
      if a[i].next == -1 {
        VisitGrows(a, b, t, a[i].list);
        GrowsInto(a, b, t, i);
      } else {
        if a[i].list != -1 { VisitElsewhere(a, b, t, a[i].list); }
        VisitGrows(a, b, t, a[i].next);
        GrowsAlong(a, b, t, i);
      }
    }
  }

  // ----- steps -----------------------------------------------------------------------

  /** The parent of the tail, too, is on the last path, and nothing follows it. */
  lemma {:induction false} ParentEnds(nodes: seq<Node>, i: int, t: int)
    requires Linked(nodes) && 0 <= i <= t < |nodes| && Ends(nodes, i, t)
    requires nodes[t].parent != nodes[i].parent
    ensures 0 <= nodes[t].parent < |nodes| && Ends(nodes, i, nodes[t].parent) && nodes[nodes[t].parent].next == -1
    decreases |nodes| - i
  {
    assert NodeLinked(nodes, i) && NodeLinked(nodes, t);
    if nodes[i].next != -1 {
      EndsIsVisited(nodes, nodes[i].next, t);
      ParentEnds(nodes, nodes[i].next, t);
    } else if nodes[t].parent != i {
      EndsIsVisited(nodes, nodes[i].list, t);
      ParentEnds(nodes, nodes[i].list, t);
    }
  }

  lemma AttachKeepsInv(s: State, b: seq<Node>, t: State)
    requires Inv(s) && s.mode != Start && s.mode != End && Attached(s.nodes, b, s.tail)
    requires b[|s.nodes|] == Blank(b[|s.nodes|].parent) && b[0].parent == -1
    requires t.mode == Tag0 && t.nodes == b && t.tail == |s.nodes|
    requires t.nest == s.nest + (if b[s.tail].next == |s.nodes| then 0 else 1)
    ensures Inv(t)
  {
    var n := |s.nodes|;
    VisitGrows(s.nodes, b, s.tail, 0);
    RangeSnoc(0, n);
    assert NodeLinked(b, n) && NodeLinked(s.nodes, s.tail);
    assert forall k :: 0 <= k < n ==> s.nodes[k].parent == b[k].parent;
    SameParentsDepth(s.nodes, b, s.tail);
    SameParentsDepth(s.nodes, b, s.nodes[s.tail].parent);
  }

  lemma LinkedNext(s: State)
    requires Inv(s) && s.mode == Comma
    ensures Attached(s.nodes, NewNext(s).nodes, s.tail)
  {
    var b := NewNext(s).nodes;
    forall i | 0 <= i < |b| ensures NodeLinked(b, i) {
      if i < |s.nodes| { assert NodeLinked(s.nodes, i); }
      assert NodeLinked(s.nodes, s.tail);
    }
  }

  lemma LinkedSublist(s: State)
    requires Inv(s) && s.mode == Param
    ensures Attached(s.nodes, NewSublist(WithTail(s, Tail(s).(kind := List))).nodes, s.tail)
  {
    var b := NewSublist(WithTail(s, Tail(s).(kind := List))).nodes;
    forall i | 0 <= i < |b| ensures NodeLinked(b, i) {
      if i < |s.nodes| { assert NodeLinked(s.nodes, i); }
      assert NodeLinked(s.nodes, s.tail);
    }
  }

  lemma CommaKeepsInv(s: State, c: char)
    requires Inv(s) && s.mode == Comma && StepComma(s, c).Some?
    ensures Inv(StepComma(s, c).value)
  {
    var t := StepComma(s, c).value;
    if c == ',' {
      LinkedNext(s);
      AttachKeepsInv(s, t.nodes, t);
    } else if c == '}' && !IsSpace(c) {
      assert NodeLinked(s.nodes, s.tail);
      assert Depth(s.nodes, s.tail) == 1 + Depth(s.nodes, Tail(s).parent);
      if Tail(s).parent != -1 {
        ParentEnds(s.nodes, 0, s.tail);
        assert Depth(s.nodes, Tail(s).parent) >= 1;
      }
    }
  }

  /** Every character keeps the invariant. */
  lemma StepKeepsInv(s: State, c: char)
    requires Inv(s) && Step(s, c).Some?
    ensures Inv(Step(s, c).value)
  {
    var t := Step(s, c).value;
    if HasTail(s) { assert NodeLinked(s.nodes, s.tail); }
    match s.mode
    case Start =>
      assert NodeLinked(INITIAL.nodes, 0);
    case Tag => if c != '"' { TailWritten(s, Tail(t), Tag); }
    case Param =>
      if c == '{' && !IsSpace(c) {
        LinkedSublist(s);
        AttachKeepsInv(s, t.nodes, t);
      } else if !IsSpace(c) {
        TailWritten(s, Tail(t), t.mode);
      }
    case Quoted => if c != '"' { TailWritten(s, Tail(t), Quoted); }
    case Number =>
      if NumberEnd(c) { CommaKeepsInv(s.(mode := Comma), c); }
      else { TailWritten(s, Tail(t), Number); }
    case Comma => CommaKeepsInv(s, c);
    case _ =>
  }

  lemma InitialInv()
    ensures Inv(INITIAL)
  {
    assert NodeLinked(INITIAL.nodes, 0);
    assert Visit(INITIAL.nodes, 0) == [0] == Range(0, 1);
  }

  /** Whatever text is read, and wherever it stops, the invariant holds; so wherever the parser
      follows the tail pointer there is a tail. */
  lemma {:induction false} GoKeepsInv(s: State, text: string)
    requires Inv(s)
    ensures Go(s, text).Some? ==> Inv(Go(s, text).value)
    decreases |text|
  {
    if text != "" {
      assert Ready(s);
      if Step(s, text[0]).Some? {
        StepKeepsInv(s, text[0]);
        GoKeepsInv(Step(s, text[0]).value, text[1..]);
      }
    }
  }

  /** The nodes of any accepted text form a tree, each met once from the head. */
  lemma ParsedIsTree(text: string)
    ensures Parse(text).Some? ==> Inv(Parse(text).value)
  {
    InitialInv();
    GoKeepsInv(INITIAL, text);
  }

  // ----- searching -------------------------------------------------------------------

  /** json::find: the item itself, else in its list, else after it; -1 for not found. */
  ghost function Find(nodes: seq<Node>, i: int, tag: string): (k: int)
    requires Linked(nodes) && -1 <= i < |nodes|
    ensures -1 <= k < |nodes|
    decreases |nodes| - i, i
  {
    if i == -1 then -1
    else
      assert NodeLinked(nodes, i);
      if nodes[i].tag == tag then i
      else
        var under := if nodes[i].kind == List then Find(nodes, nodes[i].list, tag) else -1;
        if under != -1 then under else if nodes[i].next == -1 then -1 else Find(nodes, nodes[i].next, tag)
  }

  /** The first of the numbered nodes with the tag. */
  function FirstTagged(nodes: seq<Node>, path: seq<int>, tag: string): (k: int)
    requires forall j :: 0 <= j < |path| ==> 0 <= path[j] < |nodes|
  {
    if path == [] then -1
    else if nodes[path[0]].tag == tag then path[0]
    else FirstTagged(nodes, path[1..], tag)
  }

  lemma {:induction false} FirstTaggedAppends(nodes: seq<Node>, a: seq<int>, b: seq<int>, tag: string)
    requires forall j :: 0 <= j < |a| ==> 0 <= a[j] < |nodes|
    requires forall j :: 0 <= j < |b| ==> 0 <= b[j] < |nodes|
    ensures FirstTagged(nodes, a + b, tag) ==
              if FirstTagged(nodes, a, tag) != -1 then FirstTagged(nodes, a, tag) else FirstTagged(nodes, b, tag)
  {
    if a == [] { assert a + b == b; }
    else {
      assert (a + b)[1..] == a[1..] + b;
      FirstTaggedAppends(nodes, a[1..], b, tag);
    }
  }

  /** The recursive search meets the nodes in the order of `Visit`. */
  lemma {:induction false} FindFollowsVisit(nodes: seq<Node>, i: int, tag: string)
    requires Linked(nodes) && -1 <= i < |nodes|
    ensures forall j :: 0 <= j < |Visit(nodes, i)| ==> 0 <= Visit(nodes, i)[j] < |nodes|
    ensures Find(nodes, i, tag) == FirstTagged(nodes, Visit(nodes, i), tag)
    decreases |nodes| - i, i
  {
    if i >= 0 {
      assert NodeLinked(nodes, i);
      var under := if nodes[i].list == -1 then [] else Visit(nodes, nodes[i].list);
      var after := if nodes[i].next == -1 then [] else Visit(nodes, nodes[i].next);
      if nodes[i].list != -1 { FindFollowsVisit(nodes, nodes[i].list, tag); }
      if nodes[i].next != -1 { FindFollowsVisit(nodes, nodes[i].next, tag); }
      FirstTaggedAppends(nodes, [i] + under, after, tag);
      FirstTaggedAppends(nodes, [i], under, tag);
    }
  }

  lemma FirstInRange(nodes: seq<Node>, a: int, b: int, tag: string)
    requires 0 <= a <= b <= |nodes|
    ensures var k := FirstTagged(nodes, Range(a, b), tag);
            && (k == -1 <==> forall j :: a <= j < b ==> nodes[j].tag != tag)
            && (k != -1 ==> a <= k < b && nodes[k].tag == tag && forall j :: a <= j < k ==> nodes[j].tag != tag)
    decreases b - a
  {
    if a < b {
      assert Range(a, b)[1..] == Range(a + 1, b);
      FirstInRange(nodes, a + 1, b, tag);
    }
  }

  /** After any parse, the search finds the first item in the text with the tag, at whatever
      depth it is, and reports a tag missing only if no item has it. */
  lemma FindIsComplete(s: State, tag: string)
    requires Inv(s)
    ensures var k := Find(s.nodes, 0, tag);
            && (k == -1 <==> forall j :: 0 <= j < |s.nodes| ==> s.nodes[j].tag != tag)
            && (k != -1 ==> s.nodes[k].tag == tag && forall j :: 0 <= j < k ==> s.nodes[j].tag != tag)
  {
    FindFollowsVisit(s.nodes, 0, tag);
    FirstInRange(s.nodes, 0, |s.nodes|, tag);
  }
}
