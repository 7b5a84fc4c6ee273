/** When a message stays within the limit of its transport, and within its buffer. */
module Limit {
  import opened Json
  import opened JsonMessage
  import opened Transport
  import opened Connection
  import opened Sending
  import opened Delivery

  /** A value that is accepted, and its delimiter, fit together. */
  predicate ValueWithin(v: Value, at: nat, first: bool) {
    at + |Sep(first)| + |Render(FieldFor(v))| <= LIMIT
  }

  /** So do all items of a list that are accepted. */
  predicate ItemsWithin(vs: seq<Value>, at: nat, first: bool) {
    if vs == [] then true
    else if ValueFits(vs[0], at, first) then
      ValueWithin(vs[0], at, first) && ItemsWithin(vs[1..], at + |Sep(first)| + |Render(FieldFor(vs[0]))|, false)
    else ItemsWithin(vs[1..], at, first)
  }

  /** So do all values, accepted items and openings of groups, at any depth. */
  predicate Within(p: Piece, at: nat, first: bool)
    decreases p, 0
  {
    match p
    case Leaf(v) => ValueWithin(v, at, first)
    case Items(listing, items) => ItemsWithin(ValuesOf(listing, items), at, first)
    case Nest(tag, pieces) => Inside(tag, at, first) <= LIMIT && WithinAll(pieces, Inside(tag, at, first), true)
  }

  predicate WithinAll(ps: seq<Piece>, at: nat, first: bool)
    decreases ps, 1
  {
    ps == [] ||
    (var sent := SentOf(ps[0], at, first);
     Within(ps[0], at, first) && WithinAll(ps[1..], at + |Joined(first, sent)|, first && sent == []))
  }

  lemma {:induction false} ItemsWithinIff(vs: seq<Value>, at: nat, first: bool)
    requires at <= LIMIT
    ensures at + |Joined(first, FieldsFor(Kept(vs, at, first)))| <= LIMIT <==> ItemsWithin(vs, at, first)
    decreases |vs|
  {
    if vs != [] {
      var next := at + |Sep(first)| + |Render(FieldFor(vs[0]))|;
      if !ValueFits(vs[0], at, first) {
        ItemsWithinIff(vs[1..], at, first);
      } else {
        KeptOneMore(vs[0], Kept(vs[1..], next, false), first);
        if next <= LIMIT { ItemsWithinIff(vs[1..], next, false); }
      }
    }
  }

  lemma {:induction false} PieceWithinIff(p: Piece, at: nat, first: bool)
    requires at <= LIMIT && Proceeds(p, at, first)
    ensures at + |Joined(first, SentOf(p, at, first))| <= LIMIT <==> Within(p, at, first)
    decreases p, 0
  {
    match p
    case Leaf(v) => assert RenderAll([FieldFor(v)]) == Render(FieldFor(v));
    case Items(listing, items) => ItemsWithinIff(ValuesOf(listing, items), at, first);
    case Nest(tag, pieces) =>
      var inner := Inside(tag, at, first);
      GroupLength(tag, SentAll(pieces, inner, true));
      if inner <= LIMIT { PiecesWithinIff(pieces, inner, true); }
  }

  lemma LengthInTwo(ps: seq<Piece>, at: nat, first: bool, next: nat, nextFirst: bool)
    requires ps != [] && SentAll(ps, at, first) == SentOf(ps[0], at, first) + SentAll(ps[1..], next, nextFirst)
    requires next == at + |Joined(first, SentOf(ps[0], at, first))|
    requires nextFirst == (first && SentOf(ps[0], at, first) == [])
    ensures at + |Joined(first, SentAll(ps, at, first))| ==
              next + |Joined(nextFirst, SentAll(ps[1..], next, nextFirst))|
  {
    JoinedTwice(first, SentOf(ps[0], at, first), SentAll(ps[1..], next, nextFirst));
  }

  lemma WithinInTwo(ps: seq<Piece>, at: nat, first: bool, next: nat, nextFirst: bool)
    requires ps != [] && next == at + |Joined(first, SentOf(ps[0], at, first))|
    requires nextFirst == (first && SentOf(ps[0], at, first) == [])
    ensures WithinAll(ps, at, first) <==> Within(ps[0], at, first) && WithinAll(ps[1..], next, nextFirst)
  {
  }

  /** Steps that proceed stay within the limit if and only if every value, item and opening that is
      accepted fits together with its delimiter. */
  lemma {:induction false} PiecesWithinIff(ps: seq<Piece>, at: nat, first: bool)
    requires at <= LIMIT && ProceedsAll(ps, at, first)
    ensures at + |Joined(first, SentAll(ps, at, first))| <= LIMIT <==> WithinAll(ps, at, first)
    decreases ps, 1
  {
    if ps != [] {
      var next, nextFirst := SentInTwo(ps, at, first);
      LengthInTwo(ps, at, first, next, nextFirst);
      WithinInTwo(ps, at, first, next, nextFirst);
      PieceWithinIff(ps[0], at, first);
      if next <= LIMIT { PiecesWithinIff(ps[1..], next, nextFirst); }
    }
  }

  lemma MessageLength(calls: seq<Call>, ps: seq<Piece>, s: Sender)
    requires Sends(calls, ps) && s.stage == Going && ProceedsAll(ps, 1, true)
    ensures var length := 1 + |RenderAll(Carried(ps, s.seqnum + 1))|;
            |Run(s, COMMA, calls).out.text| == if CloseFits(length) then length + 1 else length
  {
    CompletedText(calls, ps, s);
  }

  /** The text of a completed message, id and last brace included, is within the limit if and only if
      that is so of its pieces; and it outgrows its buffer only if it is not so. */
  lemma MessageWithinIff(calls: seq<Call>, ps: seq<Piece>, s: Sender)
    requires Sends(calls, ps) && s.stage == Going && s.seqnum + 1 < 0x8000_0000_0000_0000 && ProceedsAll(ps, 1, true)
    ensures var text := Run(s, COMMA, calls).out.text;
            && (|text| <= LIMIT <==> WithinAll(ps, 1, true))
            && (|text| > BUFFER ==> !WithinAll(ps, 1, true))
  {
    MessageLength(calls, ps, s);
    assert 1 + |RenderAll(SentAll(ps, 1, true))| <= LIMIT <==> WithinAll(ps, 1, true) by {
      PiecesWithinIff(ps, 1, true);
      assert Joined(true, SentAll(ps, 1, true)) == RenderAll(SentAll(ps, 1, true));
    }
    CarriedLength(ps, s.seqnum + 1);
  }

  lemma CarriedLength(ps: seq<Piece>, n: nat)
    requires n < 0x8000_0000_0000_0000
    ensures var sent, length := SentAll(ps, 1, true), |RenderAll(Carried(ps, n))|;
            && length >= |RenderAll(sent)|
            && (1 + |RenderAll(sent)| <= LIMIT ==> length == |RenderAll(sent)| || 1 + length + 1 <= LIMIT)
  {
    var sent, id := SentAll(ps, 1, true), FieldFor(Id(n));
    DecimalLength(n);
    LastField(sent, id);
    assert |Label("id")| == 6;
  }

  /** One more value that a message within the limit accepts while it and its delimiter do not fit
      together takes it past, by two characters at most; after that a value is accepted that outgrows
      the buffer. */
  lemma OvershootOutgrows(o: Output, v: Value, w: Value)
    requires |o.text| <= LIMIT && o.fields > 0 && ValueFits(v, |o.text|, false) && !ValueWithin(v, |o.text|, false)
    requires RoomOf(w) <= 1024 && BUFFER < |o.text| + |Render(FieldFor(w))| <= 1_000_000
    ensures var past := Export(o, COMMA, v);
            && past.code >= 0 && LIMIT < |past.out.text| <= LIMIT + 2
            && var after := Export(past.out, COMMA, w);
               after.code >= 0 && |after.out.text| > BUFFER
  {
    ExportFits(o, v);
    ExportFits(Export(o, COMMA, v).out, w);
  }
}
