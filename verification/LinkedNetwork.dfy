/** The linked outboxes and the accounts of a network, side by side over a run. */
module LinkedNetwork {
  import opened Inbox
  import opened Splice
  import T = Transfer
  import N = Network

  /** The linked messages have the counters of the accounts. */
  ghost predicate ShowsBox(box: seq<Message>, acc: seq<T.Message>)
    reads box`recv
  {
    |box| == |acc| && forall k :: 0 <= k < |box| ==> box[k].size == acc[k].size && box[k].recv == acc[k].recv
  }

  lemma ShowsTwice(a: seq<Message>, x: seq<T.Message>, b: seq<Message>, y: seq<T.Message>)
    requires ShowsBox(a, x) && ShowsBox(b, y)
    ensures ShowsBox(a + b, x + y)
  {
  }

  /** Without the complete ones they show the accounts of those that stay. */
  lemma {:induction false} RemainingShows(box: seq<Message>, acc: seq<T.Message>, done: set<Message>)
    requires ShowsBox(box, acc) && forall m <- box :: m in done <==> m.recv >= m.size
    ensures ShowsBox(Remaining(box, done), T.Staying(acc))
    decreases |box|
  {
    if box != [] {
      assert box[0] in box && forall m <- box[1..] :: m in box;
      RemainingShows(box[1..], acc[1..], done);
      assert ShowsBox([box[0]], [acc[0]]);
      ShowsTwice([box[0]], [acc[0]], Remaining(box[1..], done), T.Staying(acc[1..]));
    }
  }

  lemma {:induction false} RemainingIn(box: seq<Message>, done: set<Message>)
    requires forall i, k :: 0 <= i < k < |box| ==> box[i] != box[k]
    ensures forall i, k :: 0 <= i < k < |Remaining(box, done)| ==> Remaining(box, done)[i] != Remaining(box, done)[k]
    decreases |box|
  {
    if box != [] {
      RemainingIn(box[1..], done);
      RemainingAre(box[1..], done);
    }
  }

  function RemainingAll(boxes: seq<seq<Message>>, done: set<Message>): (r: seq<seq<Message>>)
    ensures |r| == |boxes| && forall a {:trigger r[a]} :: 0 <= a < |boxes| ==> r[a] == Remaining(boxes[a], done)
  {
    seq(|boxes|, a requires 0 <= a < |boxes| => Remaining(boxes[a], done))
  }

  /** What is left in the outboxes and what is then in the inboxes are different messages again. */
  lemma StillPlaced(nifs: seq<Interface>, boxes: seq<seq<Message>>, inboxes: map<Interface, seq<Message>>,
                    nodes: set<Message>, done: set<Message>)
    requires Placed(nifs, boxes, inboxes, nodes)
    requires CameFrom(boxes, |boxes|, Through(boxes, inboxes, done), inboxes, done)
    ensures Placed(nifs, RemainingAll(boxes, done), Through(boxes, inboxes, done), nodes)
  {
    var left, stacks := RemainingAll(boxes, done), Through(boxes, inboxes, done);
    StillIn(boxes, done);
    forall a | 0 <= a < |left| ensures OneBox(left[a], stacks, nodes) {
      assert OneBox(boxes[a], inboxes, nodes);
      StillOneBox(boxes, a, stacks, inboxes, nodes, done);
    }
    assert forall a, b :: 0 <= a < b < |left| ==> forall x <- left[a] :: x !in left[b];
    assert forall a, x :: 0 <= a < |left| && x in left[a] ==> x in nodes;
  }

  lemma StillIn(boxes: seq<seq<Message>>, done: set<Message>)
    ensures forall a, x :: 0 <= a < |boxes| && x in RemainingAll(boxes, done)[a] ==> x in boxes[a]
  {
    forall a, x | 0 <= a < |boxes| && x in RemainingAll(boxes, done)[a] ensures x in boxes[a] {
      RemainingAre(boxes[a], done);
    }
  }

  lemma StillOneBox(boxes: seq<seq<Message>>, a: nat, stacks: map<Interface, seq<Message>>,
                    inboxes: map<Interface, seq<Message>>, nodes: set<Message>, done: set<Message>)
    requires a < |boxes| && stacks.Keys == inboxes.Keys && OneBox(boxes[a], inboxes, nodes)
    requires CameFrom(boxes, |boxes|, stacks, inboxes, done)
    ensures OneBox(Remaining(boxes[a], done), stacks, nodes)
  {
    var left := Remaining(boxes[a], done);
    RemainingIn(boxes[a], done);
    RemainingAre(boxes[a], done);
    forall i, x | i in stacks && x in stacks[i] ensures x !in left {
      if x in inboxes[i] { assert x !in boxes[a]; }
    }
  }

  /** The outboxes link, in order and never back, messages that show the accounts. */
  ghost predicate Shown(nifs: seq<Interface>, boxes: seq<seq<Message>>, accounts: seq<T.Iface>, nodes: set<Message>)
    reads nifs, nodes
  {
    && |accounts| == |nifs| == |boxes|
    && (forall a, x :: 0 <= a < |boxes| && x in boxes[a] ==> x in nodes)
    && forall a :: 0 <= a < |nifs| ==> BoxShown(nifs[a], boxes[a], accounts[a])
  }

  ghost predicate BoxShown(nif: Interface, box: seq<Message>, account: T.Iface)
    reads nif, box
  {
    Chain(nif.outbox, box) && ShowsBox(box, account.outbox) && forall m <- box :: m.prev == null
  }

  /** The links of a network are in order: its outboxes show its accounts, and its inboxes are stacks. */
  ghost predicate InOrder(net: N.Network, nifs: seq<Interface>, boxes: seq<seq<Message>>,
                          inboxes: map<Interface, seq<Message>>, nodes: set<Message>)
    reads net, nifs, inboxes.Keys, nodes
  {
    && net.Valid() && Placed(nifs, boxes, inboxes, nodes) && AllHold(inboxes, nodes)
    && Shown(nifs, boxes, net.nifs, nodes)
  }

  /** In no outbox does a complete message lie under an incomplete one. */
  ghost predicate AllTops(boxes: seq<seq<Message>>, done: set<Message>) {
    forall a :: 0 <= a < |boxes| ==> CompleteOnTop(boxes[a], done)
  }

  // ----- one commit ------------------------------------------------------------------

  /** The complete messages have been moved from the outboxes, which showed these accounts. */
  ghost predicate AllMoved(nifs: seq<Interface>, boxes: seq<seq<Message>>, served: seq<T.Iface>, nodes: set<Message>,
                           done: set<Message>)
    requires |nifs| == |boxes| == |served|
    requires forall a, x :: 0 <= a < |boxes| && x in boxes[a] ==> x in nodes
    reads nifs, nodes
  {
    && (forall a :: 0 <= a < |nifs| ==> Moved(nifs[a].outbox, boxes[a], done))
    && forall a :: 0 <= a < |nifs| ==> ShowsBox(boxes[a], served[a].outbox)
  }

  method EmptyShown(nifs: seq<Interface>, ghost boxes: seq<seq<Message>>, ghost inboxes: map<Interface, seq<Message>>,
                    ghost nodes: set<Message>, ghost done: set<Message>, ghost served: seq<T.Iface>)
    requires Placed(nifs, boxes, inboxes, nodes) && AllHold(inboxes, nodes) && Tallied(nodes, done) && done <= nodes
    requires Shown(nifs, boxes, served, nodes)
    modifies nifs`outbox, inboxes.Keys`inbox, nodes`next, nodes`prev
    ensures AllHold(Through(boxes, inboxes, done), nodes) && AllMoved(nifs, boxes, served, nodes, done)
    ensures CameFrom(boxes, |boxes|, Through(boxes, inboxes, done), inboxes, done)
  {
    assert forall a :: 0 <= a < |nifs| ==> BoxShown(nifs[a], boxes[a], served[a]);
    EmptyOutboxes(nifs, boxes, inboxes, nodes, done);
    forall a | 0 <= a < |nifs| ensures ShowsBox(boxes[a], served[a].outbox) {
      assert old(ShowsBox(boxes[a], served[a].outbox));
    }
  }

  /** The deliveries of a commit over links that show what it has served: if no complete message lies
      under an incomplete one, they show what stays. */
  method DeliverLinked(nifs: seq<Interface>, ghost boxes: seq<seq<Message>>,
                       ghost inboxes: map<Interface, seq<Message>>, ghost nodes: set<Message>,
                       ghost done: set<Message>, ghost served: seq<T.Iface>)
    requires Placed(nifs, boxes, inboxes, nodes) && AllHold(inboxes, nodes) && Tallied(nodes, done) && done <= nodes
    requires Shown(nifs, boxes, served, nodes)
    modifies nifs`outbox, inboxes.Keys`inbox, nodes`next, nodes`prev
    ensures Placed(nifs, RemainingAll(boxes, done), Through(boxes, inboxes, done), nodes)
    ensures AllHold(Through(boxes, inboxes, done), nodes)
    ensures AllTops(boxes, done) <==>
              Shown(nifs, RemainingAll(boxes, done), N.StayingAll(served), nodes)
    ensures !AllTops(boxes, done) ==>
              forall left, all :: !Shown(nifs, left, N.StayingAll(served), all)
  {
    EmptyShown(nifs, boxes, inboxes, nodes, done, served);
    StillPlaced(nifs, boxes, inboxes, nodes, done);
    AllOrNone(nifs, boxes, served, nodes, done);
  }

  lemma AllOrNone(nifs: seq<Interface>, boxes: seq<seq<Message>>, served: seq<T.Iface>, nodes: set<Message>,
                  done: set<Message>)
    requires |nifs| == |boxes| == |served| && Tallied(nodes, done) && done <= nodes
    requires forall a, x :: 0 <= a < |boxes| && x in boxes[a] ==> x in nodes
    requires AllMoved(nifs, boxes, served, nodes, done)
    ensures AllTops(boxes, done) <==>
              Shown(nifs, RemainingAll(boxes, done), N.StayingAll(served), nodes)
    ensures !AllTops(boxes, done) ==>
              forall left, all :: !Shown(nifs, left, N.StayingAll(served), all)
  {
    AllShownIff(nifs, boxes, served, nodes, done);
    forall left, all | !AllTops(boxes, done) ensures !Shown(nifs, left, N.StayingAll(served), all) {
      NoneShown(nifs, boxes, served, done, left, all);
    }
  }

  lemma AllShownIff(nifs: seq<Interface>, boxes: seq<seq<Message>>, served: seq<T.Iface>, nodes: set<Message>,
                    done: set<Message>)
    requires |nifs| == |boxes| == |served| && Tallied(nodes, done)
    requires forall a, x :: 0 <= a < |boxes| && x in boxes[a] ==> x in nodes
    requires forall a :: 0 <= a < |nifs| ==>
               Moved(nifs[a].outbox, boxes[a], done) && ShowsBox(boxes[a], served[a].outbox)
    ensures AllTops(boxes, done) <==>
              Shown(nifs, RemainingAll(boxes, done), N.StayingAll(served), nodes)
  {
    var left, staying := RemainingAll(boxes, done), N.StayingAll(served);
    StillIn(boxes, done);
    forall a | 0 <= a < |boxes| ensures CompleteOnTop(boxes[a], done) <==> BoxShown(nifs[a], left[a], staying[a]) {
      MovedIff(nifs[a].outbox, boxes[a], done);
      if CompleteOnTop(boxes[a], done) { OneShown(nifs[a], boxes[a], served[a], done); }
    }
  }

  /** Else the links show the accounts in no way at all. */
  lemma NoneShown(nifs: seq<Interface>, boxes: seq<seq<Message>>, served: seq<T.Iface>, done: set<Message>,
                  left: seq<seq<Message>>, nodes: set<Message>)
    requires |nifs| == |boxes| == |served| && !AllTops(boxes, done) && forall x <- done :: x.recv >= x.size
    requires forall a :: 0 <= a < |nifs| ==> Moved(nifs[a].outbox, boxes[a], done)
    ensures !Shown(nifs, left, N.StayingAll(served), nodes)
  {
    var a :| 0 <= a < |boxes| && !CompleteOnTop(boxes[a], done);
    if Shown(nifs, left, N.StayingAll(served), nodes) {
      assert BoxShown(nifs[a], left[a], N.StayingAll(served)[a]);
      CompleteIsLinked(nifs[a].outbox, boxes[a], left[a], done);
      ShownIncomplete(left[a], served[a].outbox);
    }
  }

  lemma ShownIncomplete(box: seq<Message>, acc: seq<T.Message>)
    requires ShowsBox(box, T.Staying(acc))
    ensures forall x <- box :: x.recv < x.size
  {
    StayingIncomplete(acc);
  }

  lemma {:induction false} StayingIncomplete(box: seq<T.Message>)
    ensures forall k :: 0 <= k < |T.Staying(box)| ==> T.Staying(box)[k].recv < T.Staying(box)[k].size
  {
    if box != [] { StayingIncomplete(box[1..]); }
  }

  /** One outbox, of which the complete messages have been moved from the top. */
  lemma OneShown(nif: Interface, box: seq<Message>, account: T.Iface, done: set<Message>)
    requires ShowsBox(box, account.outbox) && (forall m <- box :: m in done <==> m.recv >= m.size)
    requires Moved(nif.outbox, box, done) && CompleteOnTop(box, done)
    ensures BoxShown(nif, Remaining(box, done), N.Clearing(account))
  {
    var left := Remaining(box, done);
    MovedIff(nif.outbox, box, done);
    RemainingShows(box, account.outbox, done);
    forall m | m in left ensures m.prev == null {
      RemainingAre(box, done);
      var k :| 0 <= k < |box| && box[k] == m;
      assert box[k].prev == null;
    }
  }

  // ----- the counters ----------------------------------------------------------------

  /** Messages and accounts of the same sizes, in the same order. */
  ghost predicate SameSizes(box: seq<Message>, acc: seq<T.Message>) {
    |box| == |acc| && forall k :: 0 <= k < |box| ==> box[k].size == acc[k].size
  }

  lemma {:induction false} AllottedSizes(box: seq<T.Message>, rate: real, bandwidth: real, used: real)
    ensures var served := T.AllottedBox(box, rate, bandwidth, used);
            forall k :: 0 <= k < |box| ==> served[k].size == box[k].size
    decreases |box|
  {
    if box != [] {
      AllottedSizes(box[1..], rate, bandwidth, used + T.Allotted(box[0], rate, bandwidth, used).sendRate);
    }
  }

  /** A commit changes no size, and drops no message before its deliveries. */
  lemma SizesKept(boxes: seq<seq<Message>>, accounts: seq<T.Iface>, now: int, bandwidth: real)
    requires |boxes| == |accounts| && forall a :: 0 <= a < |boxes| ==> SameSizes(boxes[a], accounts[a].outbox)
    ensures var served := T.AllottedAll(N.CountedAll(accounts, now), bandwidth);
            |served| == |boxes| && forall a :: 0 <= a < |boxes| ==> SameSizes(boxes[a], served[a].outbox)
  {
    var counted := N.CountedAll(accounts, now);
    var served := T.AllottedAll(counted, bandwidth);
    forall a | 0 <= a < |boxes| ensures SameSizes(boxes[a], served[a].outbox) {
      assert SameSizes(boxes[a], accounts[a].outbox);
      assert counted[a] == N.Counting(accounts[a], now);
      AllottedSizes(counted[a].outbox, counted[a].sendRate, bandwidth, T.UsedBy(counted, a, bandwidth));
    }
  }

  /** The counters of the messages of one outbox are written. */
  method WriteBox(nif: Interface, acc: seq<T.Message>, ghost box: seq<Message>)
    requires Chain(nif.outbox, box) && SameSizes(box, acc)
    modifies box`recv
    ensures ShowsBox(box, acc)
  {
    ChainLinks(nif.outbox, box);
    var m, j := nif.outbox, 0;
    while m != null
      invariant 0 <= j <= |box| && m == (if j < |box| then box[j] else null)
      invariant forall k :: 0 <= k < |box| ==> box[k].next == Successor(box, k)
      invariant forall k :: 0 <= k < j ==> box[k].recv == acc[k].recv
      decreases |box| - j
    {
      m.recv := acc[j].recv;
      m := m.next;
      j := j + 1;
    }
  }

  /** An outbox in order, whose messages are those of the accounts. */
  ghost predicate Listed(nif: Interface, box: seq<Message>, account: T.Iface)
    reads nif, box
  {
    Chain(nif.outbox, box) && SameSizes(box, account.outbox) && forall m <- box :: m.prev == null
  }

  ghost predicate AllListed(nifs: seq<Interface>, boxes: seq<seq<Message>>, accounts: seq<T.Iface>, nodes: set<Message>)
    reads nifs, nodes
  {
    && |accounts| == |nifs| == |boxes|
    && (forall a, x :: 0 <= a < |boxes| && x in boxes[a] ==> x in nodes)
    && forall a :: 0 <= a < |nifs| ==> Listed(nifs[a], boxes[a], accounts[a])
  }

  /** The counters of all messages are written. */
  method WriteAll(nifs: seq<Interface>, served: seq<T.Iface>, ghost boxes: seq<seq<Message>>,
                  ghost inboxes: map<Interface, seq<Message>>, ghost nodes: set<Message>)
    requires AllListed(nifs, boxes, served, nodes) && AllHold(inboxes, nodes) && Placed(nifs, boxes, inboxes, nodes)
    modifies nodes`recv
    ensures Shown(nifs, boxes, served, nodes) && AllHold(inboxes, nodes)
  {
    for a := 0 to |nifs|
      invariant AllListed(nifs, boxes, served, nodes) && AllHold(inboxes, nodes)
      invariant forall b :: 0 <= b < a ==> ShowsBox(boxes[b], served[b].outbox)
    {
      assert Listed(nifs[a], boxes[a], served[a]);
      WriteNext(nifs, a, served, boxes, inboxes, nodes);
    }
    assert forall b :: 0 <= b < |nifs| ==> Listed(nifs[b], boxes[b], served[b]);
  }

  method WriteNext(nifs: seq<Interface>, a: nat, served: seq<T.Iface>, ghost boxes: seq<seq<Message>>,
                   ghost inboxes: map<Interface, seq<Message>>, ghost nodes: set<Message>)
    requires a < |nifs| && AllListed(nifs, boxes, served, nodes) && AllHold(inboxes, nodes)
    requires Placed(nifs, boxes, inboxes, nodes)
    requires forall b :: 0 <= b < a ==> ShowsBox(boxes[b], served[b].outbox)
    modifies nodes`recv
    ensures AllListed(nifs, boxes, served, nodes) && AllHold(inboxes, nodes)
    ensures forall b :: 0 <= b < a + 1 ==> ShowsBox(boxes[b], served[b].outbox)
  {
    assert Listed(nifs[a], boxes[a], served[a]);
    WriteBox(nifs[a], served[a].outbox, boxes[a]);
    forall b | 0 <= b < |nifs| ensures Listed(nifs[b], boxes[b], served[b]) {
      assert old(Listed(nifs[b], boxes[b], served[b]));
      assert Nexts(boxes[b]) == old(Nexts(boxes[b]));
    }
    forall i | i in inboxes ensures InboxHolds(i, inboxes[i], nodes) {
      assert old(InboxHolds(i, inboxes[i], nodes));
      assert Nexts(inboxes[i]) == old(Nexts(inboxes[i]));
    }
    forall b | 0 <= b < a ensures ShowsBox(boxes[b], served[b].outbox) {
      assert old(ShowsBox(boxes[b], served[b].outbox));
      assert forall x <- boxes[b] :: x !in boxes[a];
      assert forall k :: 0 <= k < |boxes[b]| ==> boxes[b][k] in boxes[b] && boxes[b][k].recv == old(boxes[b][k].recv);
    }
  }

  /** In the accounts of a box no complete message lies under an incomplete one. */
  predicate OnTop(acc: seq<T.Message>) {
    forall i, k :: 0 <= i < k < |acc| && acc[k].recv >= acc[k].size ==> acc[i].recv >= acc[i].size
  }

  predicate AllOnTop(served: seq<T.Iface>) {
    forall a :: 0 <= a < |served| ==> OnTop(served[a].outbox)
  }

  lemma OnTopIff(box: seq<Message>, acc: seq<T.Message>, done: set<Message>)
    requires ShowsBox(box, acc) && forall m <- box :: m in done <==> m.recv >= m.size
    ensures OnTop(acc) <==> CompleteOnTop(box, done)
  {
    assert forall k :: 0 <= k < |box| ==> (box[k] in done <==> acc[k].recv >= acc[k].size) by {
      assert forall k :: 0 <= k < |box| ==> box[k] in box;
    }
  }

  lemma AllOnTopIff(nifs: seq<Interface>, served: seq<T.Iface>, boxes: seq<seq<Message>>, nodes: set<Message>,
                    done: set<Message>)
    requires Shown(nifs, boxes, served, nodes) && Tallied(nodes, done)
    ensures AllOnTop(served) <==> AllTops(boxes, done)
  {
    forall a | 0 <= a < |served| ensures OnTop(served[a].outbox) <==> CompleteOnTop(boxes[a], done) {
      assert BoxShown(nifs[a], boxes[a], served[a]);
      OnTopIff(boxes[a], served[a].outbox, done);
    }
  }

  // ----- a whole commit --------------------------------------------------------------

  /** A commit over links in order: they are in order afterwards if and only if no complete message
      lay under an incomplete one. */
  method CommitLinked(net: N.Network, nifs: seq<Interface>, ghost boxes: seq<seq<Message>>,
                      ghost inboxes: map<Interface, seq<Message>>, ghost nodes: set<Message>, now: int)
    returns (served: seq<T.Iface>, ghost done: set<Message>)
    requires InOrder(net, nifs, boxes, inboxes, nodes) && net.clock <= now <= net.nextEvent
    modifies net, nifs`outbox, inboxes.Keys`inbox, nodes`next, nodes`prev, nodes`recv
    ensures Booked(net, old(net.nifs), now, served) && Tallied(nodes, done)
    ensures AllOnTop(served) <==> AllTops(boxes, done)
    ensures AllOnTop(served) ==>
              InOrder(net, nifs, RemainingAll(boxes, done), Through(boxes, inboxes, done), nodes)
    ensures !AllOnTop(served) ==> forall left, all :: !Shown(nifs, left, net.nifs, all)
  {
    served := ServeLinked(net, nifs, boxes, inboxes, nodes, now);
    done := DeliverAll(nifs, served, boxes, inboxes, nodes);
  }

  method DeliverAll(nifs: seq<Interface>, served: seq<T.Iface>, ghost boxes: seq<seq<Message>>,
                    ghost inboxes: map<Interface, seq<Message>>, ghost nodes: set<Message>)
    returns (ghost done: set<Message>)
    requires Placed(nifs, boxes, inboxes, nodes) && AllHold(inboxes, nodes) && Shown(nifs, boxes, served, nodes)
    modifies nifs`outbox, inboxes.Keys`inbox, nodes`next, nodes`prev
    ensures Tallied(nodes, done) && (AllOnTop(served) <==> AllTops(boxes, done))
    ensures AllOnTop(served) ==> Shown(nifs, RemainingAll(boxes, done), N.StayingAll(served), nodes)
    ensures !AllOnTop(served) ==> forall left, all :: !Shown(nifs, left, N.StayingAll(served), all)
    ensures Placed(nifs, RemainingAll(boxes, done), Through(boxes, inboxes, done), nodes)
    ensures AllHold(Through(boxes, inboxes, done), nodes)
  {
    done := set m | m in nodes && m.recv >= m.size;
    AllOnTopIff(nifs, served, boxes, nodes, done);
    DeliverLinked(nifs, boxes, inboxes, nodes, done, served);
  }

  lemma ShownIsListed(nifs: seq<Interface>, boxes: seq<seq<Message>>, accounts: seq<T.Iface>, nodes: set<Message>,
                      now: int, bandwidth: real)
    requires Shown(nifs, boxes, accounts, nodes)
    ensures AllListed(nifs, boxes, T.AllottedAll(N.CountedAll(accounts, now), bandwidth), nodes)
  {
    assert forall a :: 0 <= a < |boxes| ==> BoxShown(nifs[a], boxes[a], accounts[a]);
    SizesKept(boxes, accounts, now, bandwidth);
  }

  /** What a commit of the accounts has served, and the accounts after it. */
  ghost predicate Booked(net: N.Network, was: seq<T.Iface>, now: int, served: seq<T.Iface>)
    reads net
  {
    && served == T.AllottedAll(N.CountedAll(was, now), net.bandwidth)
    && net.clock == now && net.nifs == N.StayingAll(served)
    && net.nextEvent == Announced(served, now, net.latency)
  }

  /** The event that a commit announces. */
  function Announced(served: seq<T.Iface>, now: int, latency: real): int {
    N.NextEvent(served, now, now + T.Ceil(latency))
  }

  lemma SameAnnounced(served: seq<T.Iface>, now: int, arrival: int, latency: real)
    requires arrival == now + T.Ceil(latency)
    ensures Announced(served, now, latency) == N.NextEvent(served, now, arrival)
  {
  }

  method CommitAccounts(net: N.Network, now: int) returns (served: seq<T.Iface>)
    requires net.Valid() && net.clock <= now <= net.nextEvent
    modifies net
    ensures net.Valid() && Booked(net, old(net.nifs), now, served)
  {
    var rv, arrival;
    ghost var counted;
    rv, arrival, counted, served := net.Commit(now);
    SameAnnounced(served, now, arrival, net.latency);
  }

  /** The commit of the accounts, and their counters written to the links. */
  method ServeLinked(net: N.Network, nifs: seq<Interface>, ghost boxes: seq<seq<Message>>,
                     ghost inboxes: map<Interface, seq<Message>>, ghost nodes: set<Message>, now: int)
    returns (served: seq<T.Iface>)
    requires InOrder(net, nifs, boxes, inboxes, nodes) && net.clock <= now <= net.nextEvent
    modifies net, nodes`recv
    ensures Shown(nifs, boxes, served, nodes) && AllHold(inboxes, nodes)
    ensures net.Valid() && Booked(net, old(net.nifs), now, served)
  {
    ShownIsListed(nifs, boxes, net.nifs, nodes, now, net.bandwidth);
    served := CommitAccounts(net, now);
    WriteAll(nifs, served, boxes, inboxes, nodes);
  }

  // ----- a new message ---------------------------------------------------------------

  lemma PlacedWithNew(nifs: seq<Interface>, boxes: seq<seq<Message>>, inboxes: map<Interface, seq<Message>>,
                      nodes: set<Message>, i: nat, m: Message)
    requires Placed(nifs, boxes, inboxes, nodes) && i < |boxes| && m !in nodes && m.to in inboxes
    requires forall j <- inboxes :: forall x <- inboxes[j] :: x in nodes
    ensures Placed(nifs, boxes[i := [m] + boxes[i]], inboxes, nodes + {m})
  {
    var grown := boxes[i := [m] + boxes[i]];
    forall a | 0 <= a < |boxes| ensures OneBox(grown[a], inboxes, nodes + {m}) {
      assert OneBox(boxes[a], inboxes, nodes);
    }
  }

  /** The accounts of a box, with those of a new message on top. */
  predicate WithNew(account: T.Iface, was: T.Iface, size: real) {
    |account.outbox| == |was.outbox| + 1 && account.outbox[1..] == was.outbox
    && account.outbox[0].size == size && account.outbox[0].recv == 0.0
  }

  method PutOnTop(nif: Interface, size: real, to: Interface, ghost inboxes: map<Interface, seq<Message>>,
                  ghost nodes: set<Message>) returns (m: Message)
    requires AllHold(inboxes, nodes)
    modifies nif`outbox
    ensures fresh(m) && m.size == size && m.recv == 0.0 && m.to == to && m.prev == null
    ensures nif.outbox == m && m.next == old(nif.outbox) && AllHold(inboxes, nodes + {m})
  {
    m := new Message(to, size, 0.0, 0, 0, [], nif.outbox);
    nif.outbox := m;
    forall j | j in inboxes ensures InboxHolds(j, inboxes[j], nodes + {m}) {
      assert old(InboxHolds(j, inboxes[j], nodes));
      assert Nexts(inboxes[j]) == old(Nexts(inboxes[j]));
    }
  }

  method LinkNew(nifs: seq<Interface>, i: nat, size: real, to: Interface, ghost boxes: seq<seq<Message>>,
                 ghost inboxes: map<Interface, seq<Message>>, ghost nodes: set<Message>,
                 ghost accounts: seq<T.Iface>, ghost after: seq<T.Iface>) returns (m: Message)
    requires Placed(nifs, boxes, inboxes, nodes) && AllHold(inboxes, nodes) && Shown(nifs, boxes, accounts, nodes)
    requires i < |nifs| == |after| && WithNew(after[i], accounts[i], size) && to in inboxes
    requires forall a :: 0 <= a < |nifs| && a != i ==> after[a] == accounts[a]
    modifies nifs`outbox
    ensures fresh(m) && m.to == to && AllHold(inboxes, nodes + {m})
    ensures Placed(nifs, boxes[i := [m] + boxes[i]], inboxes, nodes + {m})
    ensures Shown(nifs, boxes[i := [m] + boxes[i]], after, nodes + {m})
  {
    m := PutOnTop(nifs[i], size, to, inboxes, nodes);
    assert Placed(nifs, boxes[i := [m] + boxes[i]], inboxes, nodes + {m}) by {
      assert forall j <- inboxes :: old(InboxHolds(j, inboxes[j], nodes));
      PlacedWithNew(nifs, boxes, inboxes, nodes, i, m);
    }
    ghost var grown := boxes[i := [m] + boxes[i]];
    forall a | 0 <= a < |nifs| ensures BoxShown(nifs[a], grown[a], after[a]) {
      assert old(BoxShown(nifs[a], boxes[a], accounts[a]));
      assert Nexts(boxes[a]) == old(Nexts(boxes[a]));
      if a == i { PushShown(nifs[i], m, boxes[i], accounts[i], after[i], size); }
    }
  }

  lemma PushShown(nif: Interface, m: Message, box: seq<Message>, was: T.Iface, now: T.Iface, size: real)
    requires nif.outbox == m && m.prev == null && m.size == size && m.recv == 0.0 && m !in box
    requires Chain(m.next, box) && ShowsBox(box, was.outbox) && (forall x <- box :: x.prev == null)
    requires WithNew(now, was, size)
    ensures BoxShown(nif, [m] + box, now)
  {
    ChainPushed(m, box);
    assert ShowsBox([m], [now.outbox[0]]);
    ShowsTwice([m], [now.outbox[0]], box, was.outbox);
    assert [now.outbox[0]] + was.outbox == now.outbox;
  }

  /** check_buffer puts a new message on top of an outbox, and the links stay in order. */
  method SendLinked(net: N.Network, nifs: seq<Interface>, ghost boxes: seq<seq<Message>>,
                    ghost inboxes: map<Interface, seq<Message>>, ghost nodes: set<Message>,
                    i: nat, size: real, to: Interface, now: int) returns (m: Message)
    requires InOrder(net, nifs, boxes, inboxes, nodes) && net.clock <= now <= net.nextEvent
    requires i < |nifs| && size >= 0.0 && to in inboxes
    modifies net, nifs`outbox
    ensures fresh(m) && InOrder(net, nifs, boxes[i := [m] + boxes[i]], inboxes, nodes + {m})
    ensures |net.nifs| == |old(net.nifs)|
    ensures forall k :: 0 <= k < |net.nifs| && k != i ==> net.nifs[k] == old(net.nifs)[k]
    ensures net.nifs[i] == Grown(old(net.nifs)[i], size, now)
    ensures net.clock == now && net.nextEvent == old(net.nextEvent)
  {
    ghost var accounts := net.nifs;
    net.Submit(i, size, now);
    m := LinkNew(nifs, i, size, to, boxes, inboxes, nodes, accounts, net.nifs);
  }

  // ----- a run -----------------------------------------------------------------------

  datatype Event = Send(i: nat, size: real, to: Interface, now: int) | Commit(now: int)

  /** The accounts of a network: its outboxes, its clock, and the event it has announced. */
  datatype Books = Books(nifs: seq<T.Iface>, clock: int, nextEvent: int)

  /** An outbox with a new message on top. */
  function Grown(account: T.Iface, size: real, now: int): T.Iface {
    account.(outbox := [T.Message(size, 0.0, 0.0, 0.0, 0.0, 0.0, now, T.NoState, -1)] + account.outbox)
  }

  function Served(b: Books, bandwidth: real, now: int): seq<T.Iface> {
    T.AllottedAll(N.CountedAll(b.nifs, now), bandwidth)
  }

  /** The accounts after an event. */
  function After(b: Books, bandwidth: real, latency: real, e: Event): Books {
    match e
    case Send(i, size, to, now) =>
      Books(if i < |b.nifs| then b.nifs[i := Grown(b.nifs[i], size, now)] else b.nifs, now, b.nextEvent)
    case Commit(now) =>
      var served := Served(b, bandwidth, now);
      Books(N.StayingAll(served), now, Announced(served, now, latency))
  }

  function AfterAll(b: Books, bandwidth: real, latency: real, events: seq<Event>): Books {
    if events == [] then b
    else
      var last := |events| - 1;
      After(AfterAll(b, bandwidth, latency, events[..last]), bandwidth, latency, events[last])
  }

  /** The event comes no later than announced. */
  predicate InTime(b: Books, e: Event) {
    b.clock <= e.now <= b.nextEvent
  }

  /** A commit finds no complete message under an incomplete one. */
  predicate FindsOnTop(b: Books, bandwidth: real, e: Event) {
    e.Commit? ==> AllOnTop(Served(b, bandwidth, e.now))
  }

  /** Over a run of the accounts, so does every commit. */
  predicate AllFindOnTop(b: Books, bandwidth: real, latency: real, events: seq<Event>) {
    events == [] ||
    (var last := |events| - 1;
     && AllFindOnTop(b, bandwidth, latency, events[..last])
     && FindsOnTop(AfterAll(b, bandwidth, latency, events[..last]), bandwidth, events[last]))
  }

  ghost function BooksOf(net: N.Network): Books
    reads net
  {
    Books(net.nifs, net.clock, net.nextEvent)
  }

  /** The links: outboxes, inboxes, and all messages. */
  datatype Links = Links(boxes: seq<seq<Message>>, inboxes: map<Interface, seq<Message>>, nodes: set<Message>)

  ghost predicate Tidy(net: N.Network, nifs: seq<Interface>, l: Links)
    reads net, nifs, l.inboxes.Keys, l.nodes
  {
    InOrder(net, nifs, l.boxes, l.inboxes, l.nodes)
  }

  lemma BookedIsAfter(net: N.Network, was: Books, now: int, served: seq<T.Iface>)
    requires Booked(net, was.nifs, now, served)
    ensures BooksOf(net) == After(was, net.bandwidth, net.latency, Commit(now))
    ensures AllOnTop(served) <==> FindsOnTop(was, net.bandwidth, Commit(now))
  {
  }

  lemma OneMoreEvent(b: Books, bandwidth: real, latency: real, events: seq<Event>, k: nat)
    requires k < |events|
    ensures var before := AfterAll(b, bandwidth, latency, events[..k]);
            && AfterAll(b, bandwidth, latency, events[..k + 1]) == After(before, bandwidth, latency, events[k])
            && (AllFindOnTop(b, bandwidth, latency, events[..k + 1]) <==>
                  AllFindOnTop(b, bandwidth, latency, events[..k]) && FindsOnTop(before, bandwidth, events[k]))
  {
    assert events[..k + 1][..k] == events[..k];
  }

  method TakeCommit(net: N.Network, nifs: seq<Interface>, ghost l: Links, now: int) returns (ghost after: Links)
    requires Tidy(net, nifs, l) && net.clock <= now <= net.nextEvent
    modifies net, nifs`outbox, l.inboxes.Keys`inbox, l.nodes`next, l.nodes`prev, l.nodes`recv
    ensures BooksOf(net) == After(old(BooksOf(net)), net.bandwidth, net.latency, Commit(now))
    ensures FindsOnTop(old(BooksOf(net)), net.bandwidth, Commit(now)) ==> Tidy(net, nifs, after)
    ensures !FindsOnTop(old(BooksOf(net)), net.bandwidth, Commit(now)) ==> forall x: Links :: !Tidy(net, nifs, x)
    ensures after.inboxes.Keys == l.inboxes.Keys && after.nodes == l.nodes
  {
    ghost var done, was := {}, BooksOf(net);
    var served;
    served, done := CommitLinked(net, nifs, l.boxes, l.inboxes, l.nodes, now);
    BookedIsAfter(net, was, now, served);
    after := Links(RemainingAll(l.boxes, done), Through(l.boxes, l.inboxes, done), l.nodes);
  }

  method TakeSend(net: N.Network, nifs: seq<Interface>, ghost l: Links, i: nat, size: real, to: Interface, now: int)
    returns (ghost after: Links)
    requires Tidy(net, nifs, l) && net.clock <= now <= net.nextEvent
    requires i < |nifs| && size >= 0.0 && to in l.inboxes
    modifies net, nifs`outbox
    ensures BooksOf(net) == After(old(BooksOf(net)), net.bandwidth, net.latency, Send(i, size, to, now))
    ensures Tidy(net, nifs, after) && after.inboxes == l.inboxes
    ensures forall x <- after.nodes :: x in l.nodes || fresh(x)
  {
    ghost var was := net.nifs;
    var m := SendLinked(net, nifs, l.boxes, l.inboxes, l.nodes, i, size, to, now);
    assert net.nifs == was[i := Grown(was[i], size, now)];
    after := Links(l.boxes[i := [m] + l.boxes[i]], l.inboxes, l.nodes + {m});
  }

  method TakeEvent(net: N.Network, nifs: seq<Interface>, ghost l: Links, e: Event)
    returns (onTop: bool, ghost after: Links)
    requires Tidy(net, nifs, l) && net.clock <= e.now <= net.nextEvent
    requires e.Send? ==> e.i < |nifs| && e.size >= 0.0 && e.to in l.inboxes
    modifies net, nifs`outbox, l.inboxes.Keys`inbox, l.nodes`next, l.nodes`prev, l.nodes`recv
    ensures BooksOf(net) == After(old(BooksOf(net)), net.bandwidth, net.latency, e)
    ensures onTop == FindsOnTop(old(BooksOf(net)), net.bandwidth, e)
    ensures if onTop then Tidy(net, nifs, after) else forall x: Links :: !Tidy(net, nifs, x)
    ensures after.inboxes.Keys == l.inboxes.Keys && forall x <- after.nodes :: x in l.nodes || fresh(x)
  {
    match e {
      case Send(i, size, to, now) =>
        onTop := true;
        after := TakeSend(net, nifs, l, i, size, to, now);
      case Commit(now) =>
        onTop := FindsOnTop(Books(net.nifs, net.clock, net.nextEvent), net.bandwidth, e);
        after := TakeCommit(net, nifs, l, now);
    }
  }

  /** Where a run is when `k` events have been taken. */
  ghost predicate Come(net: N.Network, nifs: seq<Interface>, first: Books, l: Links, events: seq<Event>, k: nat)
    requires k <= |events|
    reads net, nifs, l.inboxes.Keys, l.nodes
  {
    && BooksOf(net) == AfterAll(first, net.bandwidth, net.latency, events[..k])
    && (AllFindOnTop(first, net.bandwidth, net.latency, events[..k]) ==> Tidy(net, nifs, l))
  }

  method TakeNext(net: N.Network, nifs: seq<Interface>, ghost l: Links, events: seq<Event>, k: nat, ghost first: Books)
    returns (onTop: bool, ghost after: Links)
    requires k < |events| && Come(net, nifs, first, l, events, k)
    requires AllFindOnTop(first, net.bandwidth, net.latency, events[..k])
    requires net.clock <= events[k].now <= net.nextEvent
    requires forall e <- events :: e.Send? ==> e.i < |nifs| && e.size >= 0.0 && e.to in l.inboxes
    modifies net, nifs`outbox, l.inboxes.Keys`inbox, l.nodes`next, l.nodes`prev, l.nodes`recv
    ensures Come(net, nifs, first, after, events, k + 1)
    ensures onTop == AllFindOnTop(first, net.bandwidth, net.latency, events[..k + 1])
    ensures !onTop ==> forall x: Links :: !Tidy(net, nifs, x)
    ensures after.inboxes.Keys == l.inboxes.Keys && forall x <- after.nodes :: x in l.nodes || fresh(x)
  {
    OneMoreEvent(first, net.bandwidth, net.latency, events, k);
    assert events[k] in events;
    onTop, after := TakeEvent(net, nifs, l, events[k]);
  }

  /** A run of new messages and commits, up to the first that comes too late, or leaves the links out
      of order. The accounts are those of the events taken; and the linked outboxes show them at the
      end if and only if, in the accounts, every commit finds no complete message under an incomplete
      one. */
  method RunLinked(net: N.Network, nifs: seq<Interface>, ghost start: Links, events: seq<Event>)
    returns (taken: nat, ghost end: Links)
    requires Tidy(net, nifs, start)
    requires forall e <- events :: e.Send? ==> e.i < |nifs| && e.size >= 0.0 && e.to in start.inboxes
    modifies net, nifs`outbox, start.inboxes.Keys`inbox, start.nodes`next, start.nodes`prev, start.nodes`recv
    ensures taken <= |events| && Come(net, nifs, old(BooksOf(net)), end, events, taken)
    ensures if AllFindOnTop(old(BooksOf(net)), net.bandwidth, net.latency, events[..taken])
            then Tidy(net, nifs, end) && (taken < |events| ==> !InTime(BooksOf(net), events[taken]))
            else forall x: Links :: !Tidy(net, nifs, x)
  {
    taken, end := 0, start;
    var onTop := true;
    ghost var first := BooksOf(net);
    while onTop && taken < |events| && net.clock <= events[taken].now <= net.nextEvent
      invariant 0 <= taken <= |events| && Come(net, nifs, first, end, events, taken)
      invariant onTop == AllFindOnTop(first, net.bandwidth, net.latency, events[..taken])
      invariant !onTop ==> forall x: Links :: !Tidy(net, nifs, x)
      invariant end.inboxes.Keys == start.inboxes.Keys && forall x <- end.nodes :: x in start.nodes || fresh(x)
    {
      onTop, end := TakeNext(net, nifs, end, events, taken, first);
      taken := taken + 1;
    }
  }
}
