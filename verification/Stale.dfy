/** A message that stays linked in its outbox after it was moved to an inbox, and what the next
    commit does to it. */
module Stale {
  import opened Inbox
  import opened Splice
  import T = Transfer
  import N = Network

  /** An older message, complete, is on top of its inbox and still linked under a newer one. */
  ghost predicate StaleUnder(nif: Interface, newer: Message, older: Message)
    reads nif, newer, older, older.to
  {
    && newer != older && nif.outbox == newer && newer.next == older && older.next == null
    && newer.prev == null && older.prev == null && older.to.inbox == older
  }

  /** The loop of a commit over that outbox. The older message is moved once more; it comes to be
      linked to itself unless the newer one has been put on top of the same inbox just before. */
  method CommitAgain(nif: Interface, newer: Message, older: Message, ghost nodes: set<Message>)
    requires StaleUnder(nif, newer, older) && older.recv >= older.size
    requires newer in nodes && older in nodes && Among(newer.to.inbox, nodes)
    requires newer.to != older.to ==> newer.to.inbox != older
    modifies nif`outbox, newer.to`inbox, older.to`inbox, nodes`next, nodes`prev
    ensures older.to.inbox == older
    ensures older.next == older <==> !(newer.recv >= newer.size && newer.to == older.to)
    ensures newer.recv < newer.size ==> nif.outbox == newer && newer.next == older
    ensures newer.recv >= newer.size && newer.to == older.to ==>
              nif.outbox == null && older.next == newer && newer.next == null
  {
    var m := nif.outbox;
    ghost var k, joined := 0, newer.recv >= newer.size && newer.to == older.to;
    while m != null
      invariant 0 <= k <= 2 && m == (if k == 0 then newer else if k == 1 then older else null)
      invariant newer.recv == old(newer.recv) && older.recv == old(older.recv)
      invariant Among(newer.to.inbox, nodes)
      invariant k == 0 ==> StaleUnder(nif, newer, older) && (newer.to != older.to ==> newer.to.inbox != older)
      invariant k == 1 ==> older.next == null && nif.outbox == (if newer.recv >= newer.size then older else newer)
      invariant k == 1 && newer.recv < newer.size ==> newer.next == older
      invariant k == 1 && joined ==> older.to.inbox == newer && newer.next == older && older.prev == newer
      invariant k == 1 && !joined ==> older.to.inbox == older && older.prev == null
      invariant k == 2 ==> older.to.inbox == older && (older.next == older <==> !joined)
      invariant k == 2 && newer.recv < newer.size ==> nif.outbox == newer && newer.next == older
      invariant k == 2 && joined ==> nif.outbox == null && older.next == newer && newer.next == null
      decreases 2 - k
    {
      if m.recv >= m.size {
        m := MoveToInbox(nif, m, nodes);
      } else {
        m := m.next;
      }
      k := k + 1;
    }
  }

  // ----- a run that comes to it ------------------------------------------------------

  lemma TwoInTheBox(newer: Message, older: Message, to: Interface)
    requires newer != older && older.to == to
    ensures var boxes, done := [[newer, older]], {older};
            && Remaining(boxes[0], done) == [newer]
            && Through(boxes, map[to := []], done) == map[to := [older]]
  {
    var box, done := [newer, older], {older};
    assert box[1..] == [older] && [older][1..] == [] && box[..1] == [newer] && [newer][..0] == [];
    assert Remaining([older], done) == [] && [newer] + [] == [newer];
    assert Stacked([newer], to, [], done) == [];
    assert Stacked(box, to, [], done) == [older] + [] == [older];
    var boxes, empty: seq<seq<Message>> := [box], [];
    assert boxes[..0] == empty && StackedAll(box, map[to := []], done) == map[to := [older]];
  }

  lemma OneInTheInbox(to: Interface, older: Message, nodes: set<Message>)
    requires AllHold(map[to := [older]], nodes)
    ensures Chain(to.inbox, [older]) && to.inbox == older && older.next == null
  {
    assert to in map[to := [older]] && InboxHolds(to, map[to := [older]][to], nodes);
    ChainParts(to.inbox, [older]);
    ChainParts(older.next, [older][1..]);
  }

  /** The commit at which the older message is complete and the newer is not, over the linked lists. */
  method CommitFirst(nif: Interface, to: Interface, newer: Message, older: Message)
    requires newer != older && newer.to == older.to == to && newer.recv < newer.size && older.recv >= older.size
    requires nif.outbox == newer && newer.next == older && older.next == null && to.inbox == null
    requires newer.prev == null && older.prev == null
    modifies nif`outbox, to`inbox, newer`next, newer`prev, older`next, older`prev
    ensures StaleUnder(nif, newer, older) && Chain(to.inbox, [older])
  {
    ghost var boxes, inboxes, nodes, done := [[newer, older]], map[to := []], {newer, older}, {older};
    assert Chain(nif.outbox, boxes[0]) by {
      ChainParts(null, []);
      ChainParts(older, [older]);
      ChainParts(newer, [newer, older]);
      assert [newer, older][1..] == [older] && [older][1..] == [];
    }
    assert AllHold(inboxes, nodes) by { ChainParts(null, []); }
    assert OneBox(boxes[0], inboxes, nodes);
    EmptyOutboxes([nif], boxes, inboxes, nodes, done);
    TwoInTheBox(newer, older, to);
    OneInTheInbox(to, older, nodes);
    assert Moved([nif][0].outbox, boxes[0], done);
    assert boxes[0][0] == newer && Successor(boxes[0], 0) == older;
  }

  /** Two messages sent two seconds apart. When the older is complete it gets into the inbox, to arrive
      at 8, and stays linked under the newer one. At the network's next event, at 6, the inbox is
      handled, and keeps it; the newer message is not complete; and the commit links the older one to
      itself. */
  method OlderIsLinkedToItself(nif: Interface, to: Interface) returns (newer: Message, older: Message)
    requires to.freed == {}
    modifies nif`outbox, to
    ensures fresh(newer) && fresh(older)
    ensures to.inbox == older && older.next == older && nif.outbox == newer && newer.next == older
  {
    var third, fourth, arrival := N.OlderFinishesUnderNewer();
    older := new Message(to, 3.0, 3.0, arrival, arrival, [], null);
    newer := new Message(to, 4.5, 1.0, 0, 0, [], older);
    assert newer.recv == third[0].recv && newer.size == third[0].size;
    assert older.recv == third[1].recv && older.size == third[1].size;
    nif.outbox, to.inbox := newer, null;
    CommitFirst(nif, to, newer, older);

    var next := to.HandleInbox(6, [older]);
    assert Punted([older], 6) == [older] by { assert [older][1..] == []; }
    assert Due([older], 6) == [];
    assert to.inbox == older && older.next == null by {
      ChainParts(to.inbox, [older]);
      ChainParts(older.next, [older][1..]);
    }
    newer.recv := 4.0;
    assert newer.recv == fourth[0].recv;
    CommitAgain(nif, newer, older, {newer, older});
  }
}
