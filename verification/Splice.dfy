/** Moving complete messages from the outboxes to the inboxes: the linked lists of network::commit
    in comm/network.cpp. */
module Splice {
  import opened Inbox

  /** `done` are, throughout, the messages that are complete at the commit. */
  ghost predicate Tallied(nodes: set<Message>, done: set<Message>)
    reads nodes
  {
    forall m <- nodes :: m in done <==> m.recv >= m.size
  }

  /** The messages of an outbox that are not complete, in order. */
  function Remaining(box: seq<Message>, done: set<Message>): seq<Message> {
    if box == [] then []
    else (if box[0] in done then [] else [box[0]]) + Remaining(box[1..], done)
  }

  /** The stack of an inbox once the complete messages of an outbox for it are put on top. */
  function Stacked(box: seq<Message>, to: Interface, stack: seq<Message>, done: set<Message>): seq<Message> {
    if box == [] then stack
    else
      var m := box[|box| - 1];
      var before := Stacked(box[..|box| - 1], to, stack, done);
      if m in done && m.to == to then [m] + before else before
  }

  /** No complete message lies under an incomplete one. */
  ghost predicate CompleteOnTop(box: seq<Message>, done: set<Message>) {
    forall i, j :: 0 <= i < j < |box| && box[j] in done ==> box[i] in done
  }

  // ----- one message -----------------------------------------------------------------

  ghost predicate Among(m: Message?, nodes: set<Message>) {
    m == null || m in nodes
  }

  /** A complete message is unlinked from where `prev` says it is, or else from the top of the
      outbox, and put on top of the inbox it is addressed to. What was under it is returned. */
  method MoveToInbox(nif: Interface, m: Message, ghost nodes: set<Message>) returns (rest: Message?)
    requires m in nodes && Among(m.prev, nodes) && Among(m.next, nodes) && Among(m.to.inbox, nodes)
    modifies nif`outbox, m.to`inbox, nodes`next, nodes`prev
    ensures rest == old(m.next) && m.to.inbox == m && m.next == old(m.to.inbox)
    ensures nif.outbox == if old(nif.outbox) == m then old(m.next) else old(nif.outbox)
    ensures old(m.prev) != null && old(m.prev) != m ==> old(m.prev).next == old(m.next)
    ensures forall x <- nodes :: x != m && x != old(m.prev) ==> x.next == old(x.next)
    ensures forall x <- nodes ::
              x.prev == if x == old(m.to.inbox) then m else if x == old(m.next) then old(m.prev) else old(x.prev)
  {
    rest := m.next;
    if m.prev != null { m.prev.next := m.next; }
    if rest != null { rest.prev := m.prev; }
    if nif.outbox == m { nif.outbox := rest; }
    m.next := m.to.inbox;
    if m.next != null { m.next.prev := m; }
    m.to.inbox := m;
  }

  /** A `prev` link that has changed is none, or leads to another message that has been moved. */
  twostate predicate Relinked(nodes: set<Message>, done: set<Message>)
    reads nodes
  {
    forall x <- nodes :: x.prev == old(x.prev) || x.prev == null || (x.prev in done && x.prev != x)
  }

  ghost predicate InboxHolds(to: Interface, stack: seq<Message>, nodes: set<Message>)
    reads to, nodes
  {
    (forall m <- stack :: m in nodes) && Chain(to.inbox, stack)
  }

  lemma ChainPushed(m: Message, stack: seq<Message>)
    requires m !in stack && Chain(m.next, stack)
    ensures Chain(m, [m] + stack)
  {
    assert ([m] + stack)[1..] == stack;
    ChainParts(m, [m] + stack);
  }

  /** The same for a message that is in no inbox, and was never linked back: its inbox is a stack
      again, with it on top, and no other inbox changes. */
  method MoveOnStack(nif: Interface, m: Message, ghost stacks: map<Interface, seq<Message>>, ghost nodes: set<Message>,
                     ghost done: set<Message>)
    returns (rest: Message?)
    requires m in nodes && m in done && m.prev == null && Among(m.next, nodes) && m.to in stacks
    requires AllHold(stacks, nodes) && forall i <- stacks :: m !in stacks[i]
    modifies nif`outbox, stacks.Keys`inbox, nodes`next, nodes`prev
    ensures rest == old(m.next)
    ensures nif.outbox == if old(nif.outbox) == m then old(m.next) else old(nif.outbox)
    ensures forall x <- nodes :: x != m ==> x.next == old(x.next)
    ensures forall x <- nodes :: x != old(m.to.inbox) && x != old(m.next) ==> x.prev == old(x.prev)
    ensures old(m.next) != null && old(m.next) != old(m.to.inbox) ==> old(m.next).prev == null
    ensures Relinked(nodes, done)
    ensures forall i <- stacks :: InboxHolds(i, if i == m.to then [m] + stacks[i] else stacks[i], nodes)
    ensures old(m.to.inbox) != null ==> old(m.to.inbox) in stacks[m.to]
  {
    assert InboxHolds(m.to, stacks[m.to], nodes);
    ChainParts(m.to.inbox, stacks[m.to]);
    rest := MoveToInbox(nif, m, nodes);
    forall i | i in stacks ensures InboxHolds(i, if i == m.to then [m] + stacks[i] else stacks[i], nodes) {
      assert old(InboxHolds(i, stacks[i], nodes));
      assert Nexts(stacks[i]) == old(Nexts(stacks[i]));
      if i == m.to { ChainPushed(m, stacks[i]); }
    }
  }

  // ----- one outbox ------------------------------------------------------------------

  function Successor(box: seq<Message>, k: nat): Message? {
    if k + 1 < |box| then box[k + 1] else null
  }

  lemma {:induction false} ChainLinks(m: Message?, box: seq<Message>)
    requires Chain(m, box)
    ensures m == Head(box)
    ensures forall i, j :: 0 <= i < j < |box| ==> box[i] != box[j]
    ensures forall k :: 0 <= k < |box| ==> box[k].next == Successor(box, k)
    decreases |box|
  {
    ChainParts(m, box);
    if box != [] {
      var rest := box[1..];
      ChainLinks(box[0].next, rest);
      assert forall k :: 0 < k < |box| ==> box[k] == rest[k - 1] && Successor(box, k) == Successor(rest, k - 1);
    }
  }

  lemma {:induction false} LinksChain(m: Message?, box: seq<Message>)
    requires m == Head(box)
    requires forall i, j :: 0 <= i < j < |box| ==> box[i] != box[j]
    requires forall k :: 0 <= k < |box| ==> box[k].next == Successor(box, k)
    ensures Chain(m, box)
    decreases |box|
  {
    ChainParts(m, box);
    if box != [] {
      var rest := box[1..];
      assert forall k :: 0 <= k < |rest| ==> rest[k] == box[k + 1] && Successor(rest, k) == Successor(box, k + 1);
      LinksChain(box[0].next, rest);
    }
  }

  lemma {:induction false} RemainingAre(box: seq<Message>, done: set<Message>)
    ensures forall m <- Remaining(box, done) :: m in box && m !in done
    ensures forall m <- box :: m !in done ==> m in Remaining(box, done)
  {
    if box != [] {
      RemainingAre(box[1..], done);
      assert box == [box[0]] + box[1..];
    }
  }

  lemma {:induction false} RemainingSnoc(box: seq<Message>, m: Message, done: set<Message>)
    ensures Remaining(box + [m], done) == Remaining(box, done) + (if m in done then [] else [m])
    decreases |box|
  {
    if box == [] { assert box + [m] == [m]; }
    else {
      assert (box + [m])[0] == box[0] && (box + [m])[1..] == box[1..] + [m];
      RemainingSnoc(box[1..], m, done);
    }
  }

  /** What an outbox comes to when its complete messages have been moved: they are the only ones
      whose links have changed, and its first incomplete message is on top. */
  ghost predicate Moved(top: Message?, box: seq<Message>, done: set<Message>)
    reads box
  {
    && top == Head(Remaining(box, done))
    && (forall i, j :: 0 <= i < j < |box| ==> box[i] != box[j])
    && forall k :: 0 <= k < |box| && box[k] !in done ==> box[k].next == Successor(box, k) && box[k].prev == null
  }

  /** The outbox then links exactly its incomplete messages if and only if no complete one lay under
      an incomplete one. */
  lemma MovedIff(top: Message?, box: seq<Message>, done: set<Message>)
    requires Moved(top, box, done)
    ensures Chain(top, Remaining(box, done)) <==> CompleteOnTop(box, done)
  {
    if CompleteOnTop(box, done) { OnTopLinked(top, box, done); }
    else if Chain(top, Remaining(box, done)) {
      CompleteIsLinked(top, box, Remaining(box, done), done);
      RemainingAre(box, done);
    }
  }

  /** Else a complete message is come to, wherever the links lead. */
  lemma CompleteIsLinked(top: Message?, box: seq<Message>, links: seq<Message>, done: set<Message>)
    requires Moved(top, box, done) && !CompleteOnTop(box, done) && Chain(top, links)
    ensures exists x <- links :: x in done
  {
    var i, j :| 0 <= i < j < |box| && box[j] in done && box[i] !in done;
    var k := FirstIncomplete(box, i, done);
    StrayLink(box, k, j, links, done);
  }

  lemma {:induction false} FirstIncomplete(box: seq<Message>, i: nat, done: set<Message>) returns (k: nat)
    requires i < |box| && box[i] !in done
    ensures k <= i && box[k] !in done && Head(Remaining(box, done)) == box[k]
    decreases i
  {
    k := 0;
    if box[0] in done {
      k := FirstIncomplete(box[1..], i - 1, done);
      k := k + 1;
    }
  }

  lemma {:induction false} OnTopLinked(top: Message?, box: seq<Message>, done: set<Message>)
    requires Moved(top, box, done) && CompleteOnTop(box, done)
    ensures Chain(top, Remaining(box, done))
    decreases |box|
  {
    if box == [] { ChainParts(top, box); }
    else if box[0] in done {
      var rest := box[1..];
      assert forall k :: 0 <= k < |rest| ==> rest[k] == box[k + 1] && Successor(rest, k) == Successor(box, k + 1);
      assert Remaining(box, done) == Remaining(rest, done);
      OnTopLinked(top, rest, done);
    } else {
      AllRemain(box, done);
      LinksChain(top, box);
    }
  }

  lemma {:induction false} AllRemain(box: seq<Message>, done: set<Message>)
    requires forall m <- box :: m !in done
    ensures Remaining(box, done) == box
  {
    if box != [] { AllRemain(box[1..], done); }
  }

  /** The last incomplete message over a complete one still links to it. */
  lemma {:induction false} StrayLink(box: seq<Message>, k: nat, j: nat, links: seq<Message>, done: set<Message>)
    requires forall i :: 0 <= i < |box| && box[i] !in done ==> box[i].next == Successor(box, i)
    requires k < j < |box| && box[k] !in done && box[j] in done && Chain(box[k], links)
    ensures exists x <- links :: x in done
    decreases j - k
  {
    ChainParts(box[k], links);
    var rest := links[1..];
    ChainParts(box[k + 1], rest);
    assert forall x <- rest :: x in links;
    if box[k + 1] in done { assert rest[0] in links; }
    else { StrayLink(box, k + 1, j, rest, done); }
  }

  /** The top of an outbox whose first `j` messages have been looked at. */
  function TopAt(box: seq<Message>, j: nat, done: set<Message>): Message?
    requires j <= |box|
  {
    Head(Remaining(box[..j], done) + box[j..])
  }

  /** The lists part-way through an outbox, when its first `j` messages have been looked at. */
  ghost predicate Underway(nif: Interface, box: seq<Message>, j: nat, done: set<Message>)
    requires j <= |box|
    reads nif, box
  {
    && nif.outbox == TopAt(box, j, done)
    && (forall k :: j <= k < |box| ==> box[k].next == Successor(box, k) && box[k].prev == null)
    && forall k :: 0 <= k < j && box[k] !in done ==> box[k].next == Successor(box, k) && box[k].prev == null
  }

  /** The messages still to be looked at, those in the inboxes and the others are different ones. */
  ghost predicate Apart(box: seq<Message>, j: nat, stacks: map<Interface, seq<Message>>, nodes: set<Message>,
                        others: set<Message>, done: set<Message>)
    requires j <= |box|
  {
    && (forall i, k :: 0 <= i < k < |box| ==> box[i] != box[k])
    && (forall k :: 0 <= k < |box| ==> box[k].to in stacks && box[k] in nodes && box[k] !in others)
    && (forall i <- stacks :: forall k :: 0 <= k < |box| && (j <= k || box[k] !in done) ==> box[k] !in stacks[i])
    && (forall i <- stacks :: forall x <- stacks[i] :: x !in others)
    && others <= nodes
  }

  function Pushed(stacks: map<Interface, seq<Message>>, m: Message, done: set<Message>)
    : (r: map<Interface, seq<Message>>)
    ensures r.Keys == stacks.Keys
  {
    map i | i in stacks :: if m in done && m.to == i then [m] + stacks[i] else stacks[i]
  }

  ghost predicate AllHold(stacks: map<Interface, seq<Message>>, nodes: set<Message>)
    reads stacks.Keys, nodes
  {
    forall i <- stacks :: InboxHolds(i, stacks[i], nodes)
  }

  lemma ApartNext(box: seq<Message>, j: nat, stacks: map<Interface, seq<Message>>, nodes: set<Message>,
                  others: set<Message>, done: set<Message>)
    requires j < |box| && Apart(box, j, stacks, nodes, others, done)
    ensures Apart(box, j + 1, Pushed(stacks, box[j], done), nodes, others, done)
    ensures forall i <- stacks :: box[j] !in stacks[i]
  {
  }

  /** The outbox as its next message is taken. */
  lemma OutboxTop(box: seq<Message>, j: nat, done: set<Message>)
    requires j < |box|
    requires forall i, k :: 0 <= i < k < |box| ==> box[i] != box[k]
    ensures var top := TopAt(box, j, done);
            TopAt(box, j + 1, done) == if box[j] in done && top == box[j] then Successor(box, j) else top
  {
    assert box[..j + 1] == box[..j] + [box[j]];
    RemainingSnoc(box[..j], box[j], done);
    RemainingAre(box[..j], done);
  }

  /** The body of the loop. */
  method LookAt(nif: Interface, m: Message, ghost box: seq<Message>, ghost j: nat,
                ghost stacks: map<Interface, seq<Message>>, ghost nodes: set<Message>,
                ghost others: set<Message>, ghost done: set<Message>)
    returns (rest: Message?)
    requires j < |box| && m == box[j] && Apart(box, j, stacks, nodes, others, done) && Tallied(nodes, done)
    requires Underway(nif, box, j, done) && AllHold(stacks, nodes)
    modifies nif`outbox, stacks.Keys`inbox, nodes`next, nodes`prev
    ensures rest == Successor(box, j)
    ensures Underway(nif, box, j + 1, done) && AllHold(Pushed(stacks, m, done), nodes) && Relinked(nodes, done)
    ensures forall x <- others :: x.next == old(x.next) && x.prev == old(x.prev)
  {
    if m.recv >= m.size {
      rest := LookAtComplete(nif, m, box, j, stacks, nodes, others, done);
    } else {
      OutboxTop(box, j, done);
      rest := m.next;
    }
  }

  method LookAtComplete(nif: Interface, m: Message, ghost box: seq<Message>, ghost j: nat,
                        ghost stacks: map<Interface, seq<Message>>, ghost nodes: set<Message>,
                        ghost others: set<Message>, ghost done: set<Message>)
    returns (rest: Message?)
    requires j < |box| && m == box[j] && Apart(box, j, stacks, nodes, others, done) && m in done
    requires Underway(nif, box, j, done) && AllHold(stacks, nodes)
    modifies nif`outbox, stacks.Keys`inbox, nodes`next, nodes`prev
    ensures rest == Successor(box, j)
    ensures Underway(nif, box, j + 1, done) && AllHold(Pushed(stacks, m, done), nodes) && Relinked(nodes, done)
    ensures forall x <- others :: x.next == old(x.next) && x.prev == old(x.prev)
  {
    OutboxTop(box, j, done);
    rest := MoveOnStack(nif, m, stacks, nodes, done);
  }

  lemma Begins(nif: Interface, box: seq<Message>, done: set<Message>)
    requires Chain(nif.outbox, box)
    requires forall m <- box :: m.prev == null
    ensures nif.outbox == Head(box) && Underway(nif, box, 0, done)
    ensures forall i, k :: 0 <= i < k < |box| ==> box[i] != box[k]
  {
    ChainLinks(nif.outbox, box);
  }

  /** The inboxes once an outbox has been gone through. */
  function StackedAll(box: seq<Message>, stacks: map<Interface, seq<Message>>, done: set<Message>)
    : (r: map<Interface, seq<Message>>)
    ensures r.Keys == stacks.Keys
  {
    map i | i in stacks :: Stacked(box, i, stacks[i], done)
  }

  lemma StackedNext(box: seq<Message>, j: nat, stacks: map<Interface, seq<Message>>, done: set<Message>)
    requires j < |box|
    ensures StackedAll(box[..j + 1], stacks, done) == Pushed(StackedAll(box[..j], stacks, done), box[j], done)
  {
    assert box[..j + 1][..j] == box[..j];
  }

  /** The loop over an outbox when its first `j` messages have been looked at. */
  ghost predicate Partway(nif: Interface, box: seq<Message>, j: nat, stacks: map<Interface, seq<Message>>,
                          inboxes: map<Interface, seq<Message>>, nodes: set<Message>, others: set<Message>,
                          done: set<Message>)
    reads nif, box, stacks.Keys, nodes
  {
    && j <= |box| && Apart(box, j, stacks, nodes, others, done) && stacks == StackedAll(box[..j], inboxes, done)
    && Underway(nif, box, j, done) && AllHold(stacks, nodes) && Tallied(nodes, done)
  }

  method Advance(nif: Interface, m: Message, ghost box: seq<Message>, ghost j: nat,
                 ghost stacks: map<Interface, seq<Message>>, ghost inboxes: map<Interface, seq<Message>>,
                 ghost nodes: set<Message>, ghost others: set<Message>, ghost done: set<Message>)
    returns (rest: Message?, ghost after: map<Interface, seq<Message>>)
    requires j < |box| && m == box[j] && Partway(nif, box, j, stacks, inboxes, nodes, others, done)
    modifies nif`outbox, inboxes.Keys`inbox, nodes`next, nodes`prev
    ensures rest == Successor(box, j) && Partway(nif, box, j + 1, after, inboxes, nodes, others, done)
    ensures Relinked(nodes, done)
    ensures forall x <- others :: x.next == old(x.next) && x.prev == old(x.prev)
  {
    after := Pushed(stacks, m, done);
    rest := LookAt(nif, m, box, j, stacks, nodes, others, done);
    assert Apart(box, j + 1, after, nodes, others, done) by { ApartNext(box, j, stacks, nodes, others, done); }
    assert after == StackedAll(box[..j + 1], inboxes, done) by { StackedNext(box, j, inboxes, done); }
  }

  /** The loop over an outbox whose `prev` links were never set. Every inbox gets its complete
      messages, each once, the last one on top; the outbox is left as `Moved` says. */
  method EmptyOutbox(nif: Interface, ghost box: seq<Message>, ghost inboxes: map<Interface, seq<Message>>,
                     ghost nodes: set<Message>, ghost others: set<Message>, ghost done: set<Message>)
    requires Underway(nif, box, 0, done) && AllHold(inboxes, nodes) && Apart(box, 0, inboxes, nodes, others, done)
    requires Tallied(nodes, done)
    modifies nif`outbox, inboxes.Keys`inbox, nodes`next, nodes`prev
    ensures AllHold(StackedAll(box, inboxes, done), nodes)
    ensures Moved(nif.outbox, box, done) && Relinked(nodes, done)
    ensures forall x <- others :: x.next == old(x.next) && x.prev == old(x.prev)
  {
    var m := nif.outbox;
    ghost var j, stacks := 0, inboxes;
    assert stacks == StackedAll(box[..j], inboxes, done);
    while m != null
      invariant Partway(nif, box, j, stacks, inboxes, nodes, others, done) && Relinked(nodes, done)
      invariant m == if j < |box| then box[j] else null
      invariant forall x <- others :: x.next == old(x.next) && x.prev == old(x.prev)
      decreases |box| - j
    {
      m, stacks := Advance(nif, m, box, j, stacks, inboxes, nodes, others, done);
      j := j + 1;
    }
    assert box[..j] == box && Remaining(box, done) + box[j..] == Remaining(box, done);
  }

  // ----- all outboxes ----------------------------------------------------------------

  /** The inboxes once the outboxes have been gone through one after another. */
  function Through(boxes: seq<seq<Message>>, stacks: map<Interface, seq<Message>>, done: set<Message>)
    : (r: map<Interface, seq<Message>>)
    ensures r.Keys == stacks.Keys
  {
    if boxes == [] then stacks else StackedAll(boxes[|boxes| - 1], Through(boxes[..|boxes| - 1], stacks, done), done)
  }

  /** All messages are different ones, and addressed to interfaces that are there. */
  ghost predicate AllApart(boxes: seq<seq<Message>>, stacks: map<Interface, seq<Message>>, nodes: set<Message>) {
    && (forall a :: 0 <= a < |boxes| ==> OneBox(boxes[a], stacks, nodes))
    && (forall a, b :: 0 <= a < b < |boxes| ==> forall x <- boxes[a] :: x !in boxes[b])
  }

  ghost predicate OneBox(box: seq<Message>, stacks: map<Interface, seq<Message>>, nodes: set<Message>) {
    && (forall i, k :: 0 <= i < k < |box| ==> box[i] != box[k])
    && (forall x <- box :: x.to in stacks && x in nodes)
    && forall i <- stacks :: forall x <- stacks[i] :: x !in box
  }

  lemma {:induction false} StackedFrom(box: seq<Message>, to: Interface, stack: seq<Message>, done: set<Message>)
    ensures forall x <- Stacked(box, to, stack, done) :: x in stack || (x in box && x in done)
    decreases |box|
  {
    if box != [] { StackedFrom(box[..|box| - 1], to, stack, done); }
  }

  /** Messages that going through a box leaves alone: those of the boxes to come, and the incomplete
      ones of the boxes before. */
  function Untouched(boxes: seq<seq<Message>>, k: nat, done: set<Message>): set<Message>
    requires k < |boxes|
  {
    (set a, x | 0 <= a < k && x in boxes[a] && x !in done :: x) + (set a, x | k < a < |boxes| && x in boxes[a] :: x)
  }

  /** What is in an inbox has left its outbox, or was in the inbox before. */
  ghost predicate CameFrom(boxes: seq<seq<Message>>, k: nat, stacks: map<Interface, seq<Message>>,
                           inboxes: map<Interface, seq<Message>>, done: set<Message>)
    requires k <= |boxes| && stacks.Keys == inboxes.Keys
  {
    forall i <- stacks :: forall x <- stacks[i] ::
      x in inboxes[i] || exists a :: 0 <= a < k && x in boxes[a] && x in done
  }

  lemma NextApart(boxes: seq<seq<Message>>, k: nat, stacks: map<Interface, seq<Message>>,
                  inboxes: map<Interface, seq<Message>>, nodes: set<Message>, done: set<Message>)
    requires k < |boxes| && stacks.Keys == inboxes.Keys
    requires AllApart(boxes, inboxes, nodes) && CameFrom(boxes, k, stacks, inboxes, done)
    ensures Apart(boxes[k], 0, stacks, nodes, Untouched(boxes, k, done), done)
    ensures CameFrom(boxes, k + 1, StackedAll(boxes[k], stacks, done), inboxes, done)
  {
    assert OneBox(boxes[k], inboxes, nodes);
    forall x | x in Untouched(boxes, k, done) ensures x in nodes && x !in boxes[k] {
      var a :| 0 <= a < |boxes| && a != k && x in boxes[a];
      assert OneBox(boxes[a], inboxes, nodes);
    }
    forall i, x | i in stacks && x in stacks[i] ensures x !in boxes[k] && x !in Untouched(boxes, k, done) {
      if x in inboxes[i] { assert forall a :: 0 <= a < |boxes| ==> OneBox(boxes[a], inboxes, nodes); }
    }
    forall i | i in stacks
      ensures forall x <- StackedAll(boxes[k], stacks, done)[i] ::
                x in inboxes[i] || exists a :: 0 <= a < k + 1 && x in boxes[a] && x in done
    {
      StackedFrom(boxes[k], i, stacks[i], done);
    }
  }

  /** An outbox that has been gone through, or not yet. */
  ghost predicate BoxState(nif: Interface, box: seq<Message>, gone: bool, done: set<Message>)
    reads nif, box
  {
    if gone then Moved(nif.outbox, box, done) else Underway(nif, box, 0, done)
  }

  ghost predicate AllStates(nifs: seq<Interface>, boxes: seq<seq<Message>>, k: nat, nodes: set<Message>,
                            done: set<Message>)
    requires |boxes| == |nifs|
    requires forall a, x :: 0 <= a < |boxes| && x in boxes[a] ==> x in nodes
    reads nifs, nodes
  {
    forall a :: 0 <= a < |nifs| ==> BoxState(nifs[a], boxes[a], a < k, done)
  }

  /** The interfaces are different ones, and so are all messages. */
  ghost predicate Placed(nifs: seq<Interface>, boxes: seq<seq<Message>>, inboxes: map<Interface, seq<Message>>,
                         nodes: set<Message>)
  {
    && |boxes| == |nifs| && (forall a, b :: 0 <= a < b < |nifs| ==> nifs[a] != nifs[b])
    && (forall a, x :: 0 <= a < |boxes| && x in boxes[a] ==> x in nodes)
    && AllApart(boxes, inboxes, nodes)
  }

  method EmptyInPlace(nif: Interface, ghost nifs: seq<Interface>, ghost k: nat, ghost boxes: seq<seq<Message>>,
                      ghost stacks: map<Interface, seq<Message>>, ghost nodes: set<Message>, ghost done: set<Message>)
    requires k < |boxes| == |nifs| && nif == nifs[k] && forall a, b :: 0 <= a < b < |nifs| ==> nifs[a] != nifs[b]
    requires forall a, x :: 0 <= a < |boxes| && x in boxes[a] ==> x in nodes
    requires AllHold(stacks, nodes) && Apart(boxes[k], 0, stacks, nodes, Untouched(boxes, k, done), done)
    requires AllStates(nifs, boxes, k, nodes, done) && Tallied(nodes, done)
    modifies nif`outbox, stacks.Keys`inbox, nodes`next, nodes`prev
    ensures AllHold(StackedAll(boxes[k], stacks, done), nodes) && AllStates(nifs, boxes, k + 1, nodes, done)
    ensures Relinked(nodes, done)
  {
    assert BoxState(nifs[k], boxes[k], false, done);
    EmptyOutbox(nif, boxes[k], stacks, nodes, Untouched(boxes, k, done), done);
    forall a | 0 <= a < |nifs| ensures BoxState(nifs[a], boxes[a], a < k + 1, done) {
      assert old(BoxState(nifs[a], boxes[a], a < k, done));
      assert a != k ==> nifs[a].outbox == old(nifs[a].outbox);
      assert a != k ==> forall x <- boxes[a] :: k < a || x !in done ==> x in Untouched(boxes, k, done);
    }
  }

  /** The loops over the outboxes when `k` of them have been gone through. */
  ghost predicate Midway(nifs: seq<Interface>, boxes: seq<seq<Message>>, k: nat, stacks: map<Interface, seq<Message>>,
                         inboxes: map<Interface, seq<Message>>, nodes: set<Message>, done: set<Message>)
    requires Placed(nifs, boxes, inboxes, nodes)
    reads nifs, inboxes.Keys, nodes
  {
    && k <= |boxes| && stacks == Through(boxes[..k], inboxes, done)
    && CameFrom(boxes, k, stacks, inboxes, done) && AllHold(stacks, nodes) && AllStates(nifs, boxes, k, nodes, done)
  }

  /** The body of the loop over the interfaces. */
  method EmptyNext(nif: Interface, ghost nifs: seq<Interface>, ghost k: nat, ghost boxes: seq<seq<Message>>,
                   ghost stacks: map<Interface, seq<Message>>, ghost inboxes: map<Interface, seq<Message>>,
                   ghost nodes: set<Message>, ghost done: set<Message>)
    returns (ghost after: map<Interface, seq<Message>>)
    requires Placed(nifs, boxes, inboxes, nodes) && k < |nifs| && nif == nifs[k]
    requires Midway(nifs, boxes, k, stacks, inboxes, nodes, done) && Tallied(nodes, done)
    modifies nif`outbox, inboxes.Keys`inbox, nodes`next, nodes`prev
    ensures Midway(nifs, boxes, k + 1, after, inboxes, nodes, done) && Relinked(nodes, done)
  {
    NextApart(boxes, k, stacks, inboxes, nodes, done);
    ThroughNext(boxes, k, inboxes, done);
    EmptyInPlace(nif, nifs, k, boxes, stacks, nodes, done);
    after := StackedAll(boxes[k], stacks, done);
  }

  /** The loops over linked outboxes whose `prev` links were never set. */
  method EmptyAll(nifs: seq<Interface>, ghost boxes: seq<seq<Message>>, ghost inboxes: map<Interface, seq<Message>>,
                  ghost nodes: set<Message>, ghost done: set<Message>)
    requires Placed(nifs, boxes, inboxes, nodes) && Midway(nifs, boxes, 0, inboxes, inboxes, nodes, done)
    requires Tallied(nodes, done)
    modifies nifs`outbox, inboxes.Keys`inbox, nodes`next, nodes`prev
    ensures Midway(nifs, boxes, |nifs|, Through(boxes, inboxes, done), inboxes, nodes, done) && Relinked(nodes, done)
  {
    ghost var stacks := inboxes;
    for k := 0 to |nifs|
      invariant Midway(nifs, boxes, k, stacks, inboxes, nodes, done) && Tallied(nodes, done)
      invariant Relinked(nodes, done)
    {
      stacks := EmptyNext(nifs[k], nifs, k, boxes, stacks, inboxes, nodes, done);
    }
    assert boxes[..|nifs|] == boxes;
  }

  lemma AllBegin(nifs: seq<Interface>, boxes: seq<seq<Message>>, inboxes: map<Interface, seq<Message>>,
                 nodes: set<Message>, done: set<Message>)
    requires Placed(nifs, boxes, inboxes, nodes) && AllHold(inboxes, nodes)
    requires forall a :: 0 <= a < |nifs| ==> Chain(nifs[a].outbox, boxes[a]) && forall m <- boxes[a] :: m.prev == null
    ensures Midway(nifs, boxes, 0, inboxes, inboxes, nodes, done)
  {
    forall a | 0 <= a < |nifs| ensures BoxState(nifs[a], boxes[a], false, done) { Begins(nifs[a], boxes[a], done); }
  }

  /** The loops of the commit over all outboxes. Every inbox is a stack of what was in it and, on
      top, all complete messages addressed to it; and each outbox links exactly its incomplete
      messages if and only if in it no complete message lay under an incomplete one. These were not
      linked back, and are not. */
  method EmptyOutboxes(nifs: seq<Interface>, ghost boxes: seq<seq<Message>>,
                       ghost inboxes: map<Interface, seq<Message>>,
                       ghost nodes: set<Message>, ghost done: set<Message>)
    requires Placed(nifs, boxes, inboxes, nodes) && AllHold(inboxes, nodes) && Tallied(nodes, done)
    requires forall a :: 0 <= a < |nifs| ==> Chain(nifs[a].outbox, boxes[a]) && forall m <- boxes[a] :: m.prev == null
    modifies nifs`outbox, inboxes.Keys`inbox, nodes`next, nodes`prev
    ensures AllHold(Through(boxes, inboxes, done), nodes) && Relinked(nodes, done)
    ensures CameFrom(boxes, |boxes|, Through(boxes, inboxes, done), inboxes, done)
    ensures forall a :: 0 <= a < |nifs| ==>
              && (Chain(nifs[a].outbox, Remaining(boxes[a], done)) <==> CompleteOnTop(boxes[a], done))
              && Moved(nifs[a].outbox, boxes[a], done)
  {
    AllBegin(nifs, boxes, inboxes, nodes, done);
    EmptyAll(nifs, boxes, inboxes, nodes, done);
    AllMovedIff(nifs, boxes, nodes, done);
  }

  lemma AllMovedIff(nifs: seq<Interface>, boxes: seq<seq<Message>>, nodes: set<Message>, done: set<Message>)
    requires |nifs| == |boxes| && forall a, x :: 0 <= a < |boxes| && x in boxes[a] ==> x in nodes
    requires AllStates(nifs, boxes, |nifs|, nodes, done)
    ensures forall a :: 0 <= a < |nifs| ==>
              && (Chain(nifs[a].outbox, Remaining(boxes[a], done)) <==> CompleteOnTop(boxes[a], done))
              && Moved(nifs[a].outbox, boxes[a], done)
  {
    forall a | 0 <= a < |nifs|
      ensures Chain(nifs[a].outbox, Remaining(boxes[a], done)) <==> CompleteOnTop(boxes[a], done)
    {
      assert BoxState(nifs[a], boxes[a], true, done);
      MovedIff(nifs[a].outbox, boxes[a], done);
    }
  }

  lemma ThroughNext(boxes: seq<seq<Message>>, k: nat, stacks: map<Interface, seq<Message>>, done: set<Message>)
    requires k < |boxes|
    ensures Through(boxes[..k + 1], stacks, done) == StackedAll(boxes[k], Through(boxes[..k], stacks, done), done)
  {
    assert boxes[..k + 1][..k] == boxes[..k];
  }
}
