/** What the receiver makes of the messages that are sent. */
module Delivery {
  import opened Json
  import opened JsonMessage
  import opened JsonTree
  import opened JsonRoundTrip
  import opened JsonImport
  import opened JsonTexts
  import opened Transport
  import opened Connection
  import opened Sending

  // ----- when nothing is refused -----------------------------------------------------

  /** Every value and every group fits where it starts, items of lists included. */
  predicate Fits(p: Piece, at: nat, first: bool)
    decreases p, 0
  {
    match p
    case Leaf(v) => ValueFits(v, at, first)
    case Items(listing, items) => ItemsFit(ValuesOf(listing, items), at, first)
    case Nest(tag, pieces) =>
      var inner := Inside(tag, at, first);
      OpenFits(tag, at, first) && FitsAll(pieces, inner, true)
      && CloseFits(inner + |RenderAll(FieldsAll(pieces))|)
  }

  predicate FitsAll(ps: seq<Piece>, at: nat, first: bool)
    decreases ps, 1
  {
    ps == [] ||
    (var fs := FieldsOf(ps[0]);
     Fits(ps[0], at, first) && FitsAll(ps[1..], at + |Joined(first, fs)|, first && fs == []))
  }

  /** Steps proceed and leave nothing out if and only if everything fits. */
  lemma {:induction false} PieceSentIff(p: Piece, at: nat, first: bool)
    ensures |SentOf(p, at, first)| <= |FieldsOf(p)|
    ensures Proceeds(p, at, first) && SentOf(p, at, first) == FieldsOf(p) <==> Fits(p, at, first)
    decreases p, 0
  {
    match p
    case Leaf(_) =>
    case Items(listing, items) => AllKeptIff(ValuesOf(listing, items), at, first);
    case Nest(tag, pieces) => PiecesSentIff(pieces, Inside(tag, at, first), true);
  }

  lemma {:induction false} PiecesSentIff(ps: seq<Piece>, at: nat, first: bool)
    ensures |SentAll(ps, at, first)| <= |FieldsAll(ps)|
    ensures ProceedsAll(ps, at, first) && SentAll(ps, at, first) == FieldsAll(ps) <==> FitsAll(ps, at, first)
    decreases ps, 1
  {
    if ps != [] {
      var next, nextFirst := SentInTwo(ps, at, first);
      PieceSentIff(ps[0], at, first);
      PiecesSentIff(ps[1..], next, nextFirst);
      if SentOf(ps[0], at, first) == FieldsOf(ps[0]) { FitsInTwo(ps, at, first, next, nextFirst); }
      if FitsAll(ps, at, first) { FitsFirst(ps, at, first); }
      SameParts(SentOf(ps[0], at, first), FieldsOf(ps[0]), SentAll(ps[1..], next, nextFirst), FieldsAll(ps[1..]));
    }
  }

  /** What is sent, and whether everything fits, piece by piece. */
  lemma SentInTwo(ps: seq<Piece>, at: nat, first: bool) returns (next: nat, nextFirst: bool)
    requires ps != []
    ensures SentAll(ps, at, first) == SentOf(ps[0], at, first) + SentAll(ps[1..], next, nextFirst)
    ensures ProceedsAll(ps, at, first) <==> Proceeds(ps[0], at, first) && ProceedsAll(ps[1..], next, nextFirst)
    ensures next == at + |Joined(first, SentOf(ps[0], at, first))|
    ensures nextFirst == (first && SentOf(ps[0], at, first) == [])
  {
    var sent := SentOf(ps[0], at, first);
    next, nextFirst := at + |Joined(first, sent)|, first && sent == [];
  }

  lemma FitsInTwo(ps: seq<Piece>, at: nat, first: bool, next: nat, nextFirst: bool)
    requires ps != [] && next == at + |Joined(first, FieldsOf(ps[0]))| && nextFirst == (first && FieldsOf(ps[0]) == [])
    ensures FitsAll(ps, at, first) <==> Fits(ps[0], at, first) && FitsAll(ps[1..], next, nextFirst)
  {
  }

  lemma FitsFirst(ps: seq<Piece>, at: nat, first: bool)
    requires ps != [] && FitsAll(ps, at, first)
    ensures Fits(ps[0], at, first)
  {
  }

  lemma SameParts<T>(a: seq<T>, b: seq<T>, x: seq<T>, y: seq<T>)
    requires |a| <= |b| && |x| <= |y|
    ensures a + x == b + y <==> a == b && x == y
  {
    if a + x == b + y {
      assert |a| == |b|;
      assert a == (a + x)[..|a|] == b;
      assert x == (a + x)[|a|..] == y;
    }
  }

  // ----- within the limit ------------------------------------------------------------

  /** Every value finds the room it asks for where it starts. */
  predicate RoomyItems(vs: seq<Value>, at: nat, first: bool) {
    vs == [] ||
    (at + RoomOf(vs[0]) <= LIMIT && RoomyItems(vs[1..], at + |Sep(first)| + |Render(FieldFor(vs[0]))|, false))
  }

  predicate Roomy(p: Piece, at: nat, first: bool)
    decreases p, 0
  {
    match p
    case Leaf(v) => at + RoomOf(v) <= LIMIT
    case Items(listing, items) => RoomyItems(ValuesOf(listing, items), at, first)
    case Nest(tag, pieces) => RoomyAll(pieces, Inside(tag, at, first), true)
  }

  predicate RoomyAll(ps: seq<Piece>, at: nat, first: bool)
    decreases ps, 1
  {
    ps == [] ||
    (var fs := FieldsOf(ps[0]);
     Roomy(ps[0], at, first) && RoomyAll(ps[1..], at + |Joined(first, fs)|, first && fs == []))
  }

  lemma {:induction false} ItemsRoomyIff(vs: seq<Value>, at: nat, first: bool)
    requires at + |Joined(first, FieldsFor(vs))| < LIMIT
    ensures ItemsFit(vs, at, first) <==> RoomyItems(vs, at, first)
    decreases |vs|
  {
    if vs != [] {
      var head := [FieldFor(vs[0])];
      JoinedTwice(first, head, FieldsFor(vs[1..]));
      assert FieldsFor(vs) == head + FieldsFor(vs[1..]);
      ItemsRoomyIff(vs[1..], at + |Sep(first)| + |Render(FieldFor(vs[0]))|, false);
    }
  }

  lemma {:induction false} PieceRoomyIff(p: Piece, at: nat, first: bool)
    requires at + |Joined(first, FieldsOf(p))| < LIMIT
    ensures Fits(p, at, first) <==> Roomy(p, at, first)
    decreases p, 0
  {
    match p
    case Leaf(v) => assert RenderAll([FieldFor(v)]) == Render(FieldFor(v));
    case Items(listing, items) => ItemsRoomyIff(ValuesOf(listing, items), at, first);
    case Nest(tag, pieces) =>
      GroupLength(tag, FieldsAll(pieces));
      PiecesRoomyIff(pieces, Inside(tag, at, first), true);
  }

  lemma GroupLength(tag: string, fs: seq<Field>)
    ensures |Joined(true, [Group(tag, fs)])| == |Label(tag)| + 2 + |RenderAll(fs)|
    ensures |Joined(false, [Group(tag, fs)])| == |Label(tag)| + 4 + |RenderAll(fs)|
    ensures Joined(true, fs) == RenderAll(fs)
  {
    assert RenderAll([Group(tag, fs)]) == Render(Group(tag, fs)) == Label(tag) + ("{" + RenderAll(fs) + "}");
  }

  /** If the whole text stays below the limit, everything fits if and only if every value finds the
      room it asks for. */
  lemma {:induction false} PiecesRoomyIff(ps: seq<Piece>, at: nat, first: bool)
    requires at + |Joined(first, FieldsAll(ps))| < LIMIT
    ensures FitsAll(ps, at, first) <==> RoomyAll(ps, at, first)
    decreases ps, 1
  {
    if ps != [] {
      var fs := FieldsOf(ps[0]);
      JoinedTwice(first, fs, FieldsAll(ps[1..]));
      PieceRoomyIff(ps[0], at, first);
      PiecesRoomyIff(ps[1..], at + |Joined(first, fs)|, first && fs == []);
    }
  }

  // ----- the id ----------------------------------------------------------------------

  lemma DecimalLength(n: nat)
    requires n < 0x8000_0000_0000_0000
    ensures 1 <= |Decimal(n)| <= 19
  {
    assert Power10(19) == 10_000_000_000_000_000_000 by {
      assert Power10(5) == 100_000;
      assert Power10(10) == 10_000_000_000;
      assert Power10(15) == 1_000_000_000_000_000;
    }
    DecimalWithin(n, 10_000_000_000_000_000_000, 19);
  }

  lemma {:induction false} DecimalWithin(n: nat, bound: nat, digits: nat)
    requires n < bound && (digits == 1 ==> bound <= 10) && digits > 0
    requires bound == Power10(digits)
    ensures 1 <= |Decimal(n)| <= digits
    decreases digits
  {
    if n >= 10 { DecimalWithin(n / 10, bound / 10, digits - 1); }
  }

  function Power10(k: nat): nat {
    if k == 0 then 1 else 10 * Power10(k - 1)
  }

  lemma {:induction false} DecimalIsDigits(n: nat)
    ensures Decimal(n) != "" && forall k :: 0 <= k < |Decimal(n)| ==> IsDigit(Decimal(n)[k])
  {
    if n >= 10 { DecimalIsDigits(n / 10); }
  }

  /** The number that digits stand for. */
  function NumberOf(v: string): int {
    if v == "" then 0 else 10 * NumberOf(v[..|v| - 1]) + (v[|v| - 1] as int - '0' as int)
  }

  /** The id stands for the sequence number, without leading zeros. */
  lemma {:induction false} DecimalReads(n: nat)
    ensures NumberOf(Decimal(n)) == n && (|Decimal(n)| > 1 ==> Decimal(n)[0] != '0')
  {
    if n >= 10 {
      DecimalReads(n / 10);
      assert Decimal(n)[..|Decimal(n)| - 1] == Decimal(n / 10);
    } else { assert Decimal(n)[..0] == ""; }
  }

  lemma {:induction false} DigitsAreTail(v: string)
    requires forall k :: 0 <= k < |v| ==> IsDigit(v[k])
    ensures NumberTail(v, false)
  {
    if v != "" { DigitsAreTail(v[1..]); }
  }

  lemma {:induction false} TailIsPlain(v: string, point: bool)
    requires NumberTail(v, point)
    ensures forall c <- v :: !NumberEnd(c)
  {
    if v != "" {
      TailIsPlain(v[1..], point || v[0] == '.');
      assert v == [v[0]] + v[1..];
    }
  }

  lemma NumberIsPlain(v: string)
    requires NumberText(v)
    ensures Plain(v)
  {
    TailIsPlain(v[1..], false);
    assert v == [v[0]] + v[1..];
  }

  /** The id is printed as a number the parser takes for an integer. */
  lemma DecimalIsNumber(n: nat)
    ensures NumberText(Decimal(n)) && NumberKind(Decimal(n)) == Integer
  {
    DecimalIsDigits(n);
    DigitsAreTail(Decimal(n)[1..]);
  }

  /** The id asks for 1024 characters whatever its length: within the limit it is accepted if and
      only if it starts within the first 476. */
  lemma IdFitsIff(at: nat, first: bool, n: nat)
    requires at <= 1500 && n < 0x8000_0000_0000_0000
    ensures ValueFits(Id(n), at, first) <==> at <= 476
  {
    DecimalLength(n);
  }

  /** So do the items of a list, for the size of a buffer: short ones are accepted if and only if they
      start within the first 1244 characters, in a schema, or the first 476, as data. */
  lemma ItemFitsIff(item: CacheItem, at: nat, first: bool)
    requires at <= 1500
    ensures |Render(Text(item.tag, item.text))| <= 256 ==>
              (ValueFits(ValuesOf(Schema, [item])[0], at, first) <==> at <= 1244)
    ensures |Render(Text(item.tag, item.text))| <= 1024 ==>
              (ValueFits(ValuesOf(Data, [item])[0], at, first) <==> at <= 476)
  {
    var schema, data := ValuesOf(Schema, [item])[0], ValuesOf(Data, [item])[0];
    assert FieldFor(schema) == FieldFor(data) == Text(item.tag, item.text);
  }

  // ----- sender and receiver together ------------------------------------------------

  /** The fields of a whole message, the id last. */
  function WithId(ps: seq<Piece>, n: nat): seq<Field> {
    FieldsAll(ps) + [FieldFor(Id(n))]
  }

  lemma {:induction false} ExpectedInjective(f: Field, g: Field)
    requires Expected(f) == Expected(g)
    ensures f == g
    decreases f, 0
  {
    if f.Group? { ExpectedAllInjective(f.fields, g.fields); }
  }

  /** Different fields are read back as different items. */
  lemma {:induction false} ExpectedAllInjective(fs: seq<Field>, gs: seq<Field>)
    requires ExpectedAll(fs) == ExpectedAll(gs)
    ensures fs == gs
    decreases fs, 1
  {
    if fs != [] {
      assert ExpectedAll(fs)[0] == ExpectedAll(gs)[0] && ExpectedAll(fs)[1..] == ExpectedAll(gs)[1..];
      ExpectedInjective(fs[0], gs[0]);
      ExpectedAllInjective(fs[1..], gs[1..]);
    }
  }

  lemma {:induction false} CleanIsSendable(f: Field)
    requires Clean(f)
    ensures Sendable(f)
  {
    match f
    case Text(_, _) =>
    case Num(_, value) => NumberIsPlain(value);
    case Group(_, fields) =>
      forall g | g in fields ensures Sendable(g) { CleanIsSendable(g); }
  }

  /** A printed message is understood with its last brace and without it. */
  lemma BraceOrNot(fs: seq<Field>, gs: seq<Field>)
    requires CleanAll(fs)
    ensures Understood("{" + RenderAll(fs), gs) || Understood(RenderMessage(fs), gs) ==> FullAll(fs) && fs == gs
    ensures FullAll(fs) ==> Understood("{" + RenderAll(fs), fs) && Understood(RenderMessage(fs), fs)
  {
    var text := "{" + RenderAll(fs);
    assert text + "}" == RenderMessage(fs);
    if FullAll(fs) {
      ParseMessage(fs);
      RoundTrip(fs);
      LastBraceAddsNothing(text);
      ParsedIsTree(text);
      if ExpectedAll(fs) == ExpectedAll(gs) { ExpectedAllInjective(fs, gs); }
    } else {
      NotFullNotUnderstood(fs, gs);
    }
  }

  /** The same for the text of a completed message, whichever it is. */
  lemma EitherText(fs: seq<Field>, gs: seq<Field>)
    requires CleanAll(fs)
    ensures var text := "{" + RenderAll(fs) + LastBrace(1 + |RenderAll(fs)|);
            Understood(text, gs) <==> FullAll(fs) && fs == gs
  {
    BraceOrNot(fs, gs);
    assert "{" + RenderAll(fs) + "" == "{" + RenderAll(fs);
  }

  /** And it is parsed to the same nodes. */
  lemma EitherNodes(fs: seq<Field>)
    requires CleanAll(fs) && FullAll(fs)
    ensures var s := Parse("{" + RenderAll(fs) + LastBrace(1 + |RenderAll(fs)|));
            && s.Some? && Inv(s.value)
            && Parse(RenderMessage(fs)).Some? && s.value.nodes == Parse(RenderMessage(fs)).value.nodes
  {
    var text := "{" + RenderAll(fs);
    assert text + "}" == RenderMessage(fs) && text + "" == text;
    ParseMessage(fs);
    LastBraceAddsNothing(text);
    ParsedIsTree(text);
    ParsedIsTree(text + "}");
  }

  lemma OpenedIsVoid(gs: seq<Field>)
    ensures Linked(OPENED.nodes) && Decode(OPENED.nodes, 0) != ExpectedAll(gs)
  {
    assert NodeLinked(OPENED.nodes, 0);
    assert Decode(OPENED.nodes, 0)[0].kind == Void;
    if gs != [] { assert ExpectedAll(gs)[0].kind == KindOf(gs[0]); }
  }

  lemma NotFullNotUnderstood(fs: seq<Field>, gs: seq<Field>)
    requires CleanAll(fs) && !FullAll(fs)
    ensures !Understood("{" + RenderAll(fs), gs) && !Understood(RenderMessage(fs), gs)
  {
    forall f | f in fs ensures Sendable(f) { CleanIsSendable(f); }
    AcceptedIffReadable(fs);
    var text := "{" + RenderAll(fs);
    GoOne(INITIAL, '{', RenderAll(fs));
    assert ['{'] + RenderAll(fs) == text;
    if fs == [] {
      assert Parse(text) == Some(OPENED);
      OpenedIsVoid(gs);
    } else {
      assert RenderAll(fs) + "" == RenderAll(fs);
      RejectFields(OPENED, fs, "");
    }
  }

  lemma {:induction false} SentIsClean(p: Piece, at: nat, first: bool)
    requires CleanAll(FieldsOf(p))
    ensures CleanAll(SentOf(p, at, first))
    decreases p, 0
  {
    match p
    case Leaf(_) =>
    case Items(listing, items) => KeptIsClean(ValuesOf(listing, items), at, first);
    case Nest(tag, pieces) =>
      assert Clean(FieldsOf(p)[0]);
      AllSentIsClean(pieces, Inside(tag, at, first), true);
  }

  lemma {:induction false} KeptIsClean(vs: seq<Value>, at: nat, first: bool)
    requires CleanAll(FieldsFor(vs))
    ensures CleanAll(FieldsFor(Kept(vs, at, first)))
    decreases |vs|
  {
    if vs != [] {
      assert FieldsFor(vs)[0] in FieldsFor(vs) && FieldsFor(vs)[1..] == FieldsFor(vs[1..]);
      assert forall f <- FieldsFor(vs)[1..] :: f in FieldsFor(vs);
      KeptIsClean(vs[1..], at + |Sep(first)| + |Render(FieldFor(vs[0]))|, false);
      KeptIsClean(vs[1..], at, first);
      var kept := Kept(vs, at, first);
      if ValueFits(vs[0], at, first) {
        assert kept[1..] == Kept(vs[1..], at + |Sep(first)| + |Render(FieldFor(vs[0]))|, false);
      }
    }
  }

  lemma CleanConcat(a: seq<Field>, b: seq<Field>)
    ensures CleanAll(a + b) <==> CleanAll(a) && CleanAll(b)
  {
    assert forall f <- a :: f in a + b;
    assert forall f <- b :: f in a + b;
  }

  /** What is left of clean fields is clean. */
  lemma {:induction false} AllSentIsClean(ps: seq<Piece>, at: nat, first: bool)
    requires CleanAll(FieldsAll(ps))
    ensures CleanAll(SentAll(ps, at, first))
    decreases ps, 1
  {
    if ps != [] {
      var next, nextFirst := SentInTwo(ps, at, first);
      CleanConcat(FieldsOf(ps[0]), FieldsAll(ps[1..]));
      SentIsClean(ps[0], at, first);
      AllSentIsClean(ps[1..], next, nextFirst);
      CleanConcat(SentOf(ps[0], at, first), SentAll(ps[1..], next, nextFirst));
    }
  }

  lemma CarriedIsClean(ps: seq<Piece>, n: nat)
    requires CleanAll(FieldsAll(ps))
    ensures CleanAll(Carried(ps, n))
  {
    AllSentIsClean(ps, 1, true);
    DecimalIsNumber(n);
    assert QuoteFree("id");
  }

  /** A message carries everything, the id included, if and only if everything fits. */
  lemma CarriedIff(ps: seq<Piece>, n: nat)
    ensures ProceedsAll(ps, 1, true) && Carried(ps, n) == WithId(ps, n) <==>
              FitsAll(ps, 1, true) && ValueFits(Id(n), 1 + |RenderAll(FieldsAll(ps))|, FieldsAll(ps) == [])
  {
    var sent, id := SentAll(ps, 1, true), [FieldFor(Id(n))];
    PiecesSentIff(ps, 1, true);
    SameParts(sent, FieldsAll(ps), id, id);
    SameParts(sent, FieldsAll(ps), [], id);
    assert sent + [] == sent;
  }

  /** For messages of any size and with any tags and values: the sender completes a message that
      the receiver understands, id included, if and only if everything fits where it starts, no
      tag and no string has a quote in it, no number an exponent, and no group is empty. */
  lemma DeliveredIff(calls: seq<Call>, ps: seq<Piece>, s: Sender)
    requires s.stage == Going && Sends(calls, ps)
    ensures var t := Run(s, COMMA, calls);
            var n := s.seqnum + 1;
            t.stage == Completed && Understood(t.out.text, WithId(ps, n))
            <==> && FitsAll(ps, 1, true) && ValueFits(Id(n), 1 + |RenderAll(FieldsAll(ps))|, FieldsAll(ps) == [])
                 && CleanAll(FieldsAll(ps)) && FullAll(WithId(ps, n))
  {
    var t, n := Run(s, COMMA, calls), s.seqnum + 1;
    var fs, all := WithId(ps, n), Carried(ps, n);
    CompletedText(calls, ps, s);
    CarriedIff(ps, n);
    if t.stage == Completed && Understood(t.out.text, fs) {
      UnderstoodIsReadable(t.out.text, fs);
      assert forall f <- FieldsAll(ps) :: f in fs;
    }
    if t.stage == Completed && CleanAll(FieldsAll(ps)) {
      CarriedIsClean(ps, n);
      EitherText(all, fs);
    }
  }

  /** A message that ends below the limit fits if and only if its values find their room, and the
      id starts within 476 characters. */
  lemma FitsWithinLimit(ps: seq<Piece>, n: nat)
    requires 1 + |RenderAll(FieldsAll(ps))| < LIMIT && n < 0x8000_0000_0000_0000
    ensures FitsAll(ps, 1, true) && ValueFits(Id(n), 1 + |RenderAll(FieldsAll(ps))|, FieldsAll(ps) == []) <==>
              RoomyAll(ps, 1, true) && 1 + |RenderAll(FieldsAll(ps))| + NUMBER_ROOM <= LIMIT
  {
    assert Joined(true, FieldsAll(ps)) == RenderAll(FieldsAll(ps));
    PiecesRoomyIff(ps, 1, true);
    IdFitsIff(1 + |RenderAll(FieldsAll(ps))|, FieldsAll(ps) == [], n);
  }

  // ----- refused items ---------------------------------------------------------------

  /** No item of a list is printed longer than the room a number asks for. */
  predicate ShortItems(p: Piece) {
    match p
    case Leaf(_) => true
    case Items(listing, items) =>
      forall k :: 0 <= k < |items| ==> |Render(FieldFor(ValuesOf(listing, items)[k]))| <= NUMBER_ROOM
    case Nest(_, pieces) => forall q <- pieces :: ShortItems(q)
  }

  lemma KeptOneMore(v: Value, more: seq<Value>, first: bool)
    ensures |Joined(first, FieldsFor([v] + more))|
              == |Sep(first)| + |Render(FieldFor(v))| + |Joined(false, FieldsFor(more))|
  {
    assert ([v] + more)[1..] == more;
    assert FieldsFor([v] + more) == [FieldFor(v)] + FieldsFor(more);
    JoinedTwice(first, [FieldFor(v)], FieldsFor(more));
  }

  lemma EarlyFits(vs: seq<Value>, at: nat, first: bool)
    requires vs != [] && at + NUMBER_ROOM <= LIMIT
    requires RoomOf(vs[0]) <= NUMBER_ROOM && |Render(FieldFor(vs[0]))| <= NUMBER_ROOM
    ensures ValueFits(vs[0], at, first)
    ensures Kept(vs, at, first) == [vs[0]] + Kept(vs[1..], at + |Sep(first)| + |Render(FieldFor(vs[0]))|, false)
  {
  }

  lemma {:induction false} EarlyItemsKept(vs: seq<Value>, at: nat, first: bool)
    requires at + |Joined(first, FieldsFor(Kept(vs, at, first)))| + NUMBER_ROOM <= LIMIT
    requires forall k :: 0 <= k < |vs| ==> RoomOf(vs[k]) <= NUMBER_ROOM && |Render(FieldFor(vs[k]))| <= NUMBER_ROOM
    ensures Kept(vs, at, first) == vs
    decreases |vs|
  {
    if vs != [] {
      var v, next := vs[0], at + |Sep(first)| + |Render(FieldFor(vs[0]))|;
      EarlyFits(vs, at, first);
      KeptOneMore(v, Kept(vs[1..], next, false), first);
      EarlyItemsKept(vs[1..], next, false);
      assert vs == [v] + vs[1..];
    }
  }

  lemma {:induction false} EarlyPieceKept(p: Piece, at: nat, first: bool)
    requires ShortItems(p) && at + |Joined(first, SentOf(p, at, first))| + NUMBER_ROOM <= LIMIT
    ensures SentOf(p, at, first) == FieldsOf(p)
    decreases p, 0
  {
    match p
    case Leaf(_) =>
    case Items(listing, items) => EarlyItemsKept(ValuesOf(listing, items), at, first);
    case Nest(tag, pieces) =>
      GroupLength(tag, SentAll(pieces, Inside(tag, at, first), true));
      EarlyPiecesKept(pieces, Inside(tag, at, first), true);
  }

  /** Pieces that end within the first 476 characters have lost no item. */
  lemma {:induction false} EarlyPiecesKept(ps: seq<Piece>, at: nat, first: bool)
    requires (forall p <- ps :: ShortItems(p)) && at + |Joined(first, SentAll(ps, at, first))| + NUMBER_ROOM <= LIMIT
    ensures SentAll(ps, at, first) == FieldsAll(ps)
    decreases ps, 1
  {
    if ps != [] {
      var next, nextFirst := SentInTwo(ps, at, first);
      JoinedTwice(first, SentOf(ps[0], at, first), SentAll(ps[1..], next, nextFirst));
      EarlyPieceKept(ps[0], at, first);
      EarlyPiecesKept(ps[1..], next, nextFirst);
    }
  }

  /** So a message within the limit that has its id has all its items; and one that an item was
      refused in goes without its id too. */
  lemma IdMeansAll(ps: seq<Piece>, n: nat)
    requires (forall p <- ps :: ShortItems(p)) && 1 + |RenderAll(SentAll(ps, 1, true))| <= LIMIT
    requires n < 0x8000_0000_0000_0000
    ensures Carried(ps, n) == SentAll(ps, 1, true) + [FieldFor(Id(n))] ==> Carried(ps, n) == WithId(ps, n)
    ensures SentAll(ps, 1, true) != FieldsAll(ps) ==> Carried(ps, n) == SentAll(ps, 1, true)
  {
    var sent := SentAll(ps, 1, true);
    assert Joined(true, sent) == RenderAll(sent);
    IdFitsIff(1 + |RenderAll(sent)|, sent == [], n);
    if 1 + |RenderAll(sent)| + NUMBER_ROOM <= LIMIT { EarlyPiecesKept(ps, 1, true); }
  }

  /** The data of a cache with two items, the first of which is long. */
  function LongData(long: string, text: string): seq<Piece> {
    [Leaf(Tagged("method", "input")), Items(Data, [CacheItem("a", long), CacheItem("b", text)])]
  }

  const METHOD := Text("method", "input")

  lemma LongDataLengths(long: string)
    ensures |Render(METHOD)| == 17 && |Render(Text("a", long))| == 7 + |long|
    ensures |Joined(true, [METHOD])| == 17 && |Joined(false, [Text("a", long)])| == 9 + |long|
    ensures |RenderAll([METHOD, Text("a", long)])| == 26 + |long|
  {
    assert |Label("method")| == 10 && |Label("a")| == 5;
    assert [METHOD, Text("a", long)][1..] == [Text("a", long)];
    assert |RenderAll([METHOD])| == 17 && |RenderAll([Text("a", long)])| == 7 + |long|;
  }

  lemma LongDataSent(long: string, text: string)
    requires 450 <= |long| < 1024
    ensures ProceedsAll(LongData(long, text), 1, true)
    ensures SentAll(LongData(long, text), 1, true) == [METHOD, Text("a", long)]
    ensures 476 < 1 + |RenderAll([METHOD, Text("a", long)])| <= LIMIT
  {
    var ps := LongData(long, text);
    LongDataLengths(long);
    LongDataKept(long, text);
    assert ps[1..][1..] == [];
    assert SentAll(ps[1..], 18, false) == [Text("a", long)] + SentAll([], 27 + |long|, false);
    assert SentAll(ps, 1, true) == [METHOD] + SentAll(ps[1..], 18, false);
    assert ps[1..] == [ps[1]];
    ListProceeds(ps[1], 18, false);
  }

  lemma ListProceeds(p: Piece, at: nat, first: bool)
    requires p.Items?
    ensures ProceedsAll([p], at, first)
  {
    assert [p][1..] == [];
  }

  lemma LongDataKept(long: string, text: string)
    requires 450 <= |long| < 1024
    ensures var vs := ValuesOf(Data, [CacheItem("a", long), CacheItem("b", text)]);
            FieldsFor(Kept(vs, 18, false)) == [Text("a", long)]
  {
    var v, w := Sized("a", long, 1024), Sized("b", text, 1024);
    var vs := ValuesOf(Data, [CacheItem("a", long), CacheItem("b", text)]);
    assert vs == [v, w] && vs[1..] == [w] && [w][1..] == [];
    LongDataLengths(long);
    assert Kept([w], 27 + |long|, false) == [];
    assert Kept(vs, 18, false) == [v] + [] == [v];
    assert [v][1..] == [];
  }

  lemma LongDataMeant(long: string, text: string)
    ensures FieldsAll(LongData(long, text)) == [METHOD, Text("a", long), Text("b", text)]
  {
    var ps, v, w := LongData(long, text), Sized("a", long, 1024), Sized("b", text, 1024);
    var vs := ValuesOf(Data, [CacheItem("a", long), CacheItem("b", text)]);
    assert vs == [v, w] && vs[1..] == [w] && [w][1..] == [];
    assert FieldsFor(vs) == [FieldFor(v)] + ([FieldFor(w)] + FieldsFor([]));
    assert ps[1..][1..] == [];
    assert FieldsAll(ps[1..]) == FieldsFor(vs) + FieldsAll([]);
  }

  lemma LongDataCarried(long: string, text: string, n: nat)
    requires 450 <= |long| < 1024 && QuoteFree(long) && n < 0x8000_0000_0000_0000
    ensures Carried(LongData(long, text), n) == [METHOD, Text("a", long)]
    ensures CleanAll([METHOD, Text("a", long)]) && FullAll([METHOD, Text("a", long)])
    ensures [METHOD, Text("a", long)] != WithId(LongData(long, text), n)
  {
    LongDataSent(long, text);
    LongDataMeant(long, text);
    IdFitsIff(1 + |RenderAll([METHOD, Text("a", long)])|, false, n);
    assert QuoteFree("method") && QuoteFree("input") && QuoteFree("a");
    assert |WithId(LongData(long, text), n)| == 4;
  }

  /** The second item finds no room and is passed over, and so is the id: the message is completed,
      and understood as one without either. */
  lemma RefusedItemIsLeftOut(calls: seq<Call>, s: Sender, long: string, text: string)
    requires Sends(calls, LongData(long, text)) && s.stage == Going && s.seqnum + 1 < 0x8000_0000_0000_0000
    requires 450 <= |long| < 1024 && QuoteFree(long)
    ensures var t := Run(s, COMMA, calls);
            && t.stage == Completed && Understood(t.out.text, [METHOD, Text("a", long)])
            && !Understood(t.out.text, WithId(LongData(long, text), s.seqnum + 1))
  {
    var ps, n, left := LongData(long, text), s.seqnum + 1, [METHOD, Text("a", long)];
    CompletedText(calls, ps, s);
    LongDataSent(long, text);
    LongDataCarried(long, text, n);
    EitherText(left, left);
    EitherText(left, WithId(ps, n));
  }

  lemma LookupInEither(fs: seq<Field>, tag: string)
    requires CleanAll(fs) && FullAll(fs) && DistinctTags(fs)
    ensures var s := Parse("{" + RenderAll(fs) + LastBrace(1 + |RenderAll(fs)|));
            && s.Some? && Inv(s.value)
            && (forall k :: 0 <= k < |AllFields(fs)| && AllFields(fs)[k].tag == tag ==>
                  Get(s.value, tag) == Some(TextOf(AllFields(fs)[k])))
            && ((forall k :: 0 <= k < |AllFields(fs)| ==> AllFields(fs)[k].tag != tag) ==> Get(s.value, tag) == None)
  {
    EitherNodes(fs);
    LookupIsExact(fs, tag);
    var s, whole := Parse("{" + RenderAll(fs) + LastBrace(1 + |RenderAll(fs)|)).value, Parse(RenderMessage(fs)).value;
    assert Get(s, tag) == Get(whole, tag) by { assert s.nodes == whole.nodes; }
  }

  /** What reaches an importer of a completed message of any size: every tag that was carried, at any
      depth, gives the text sent under it, and any other tag is missing, those of refused items and
      of a refused id included. */
  lemma ImportedIsCarried(calls: seq<Call>, ps: seq<Piece>, s: Sender, tag: string, v: string, room: nat)
    requires Sends(calls, ps) && s.stage == Going && ProceedsAll(ps, 1, true) && CleanAll(Carried(ps, s.seqnum + 1))
    requires FullAll(Carried(ps, s.seqnum + 1)) && DistinctTags(Carried(ps, s.seqnum + 1))
    ensures var t := Run(s, COMMA, calls);
            var all := AllFields(Carried(ps, s.seqnum + 1));
            && t.stage == Completed && Parse(t.out.text).Some? && Inv(Parse(t.out.text).value)
            && var got := Import(Get(Parse(t.out.text).value, tag), Some(tag), Some(v), room);
            && (forall k :: 0 <= k < |all| && all[k].tag == tag && |TextOf(all[k])| < room ==>
                              got == Imported(1, Some(TextOf(all[k]))))
            && ((forall k :: 0 <= k < |all| ==> all[k].tag != tag) ==> got == Imported(0, Some(v)))
  {
    var fs := Carried(ps, s.seqnum + 1);
    CompletedText(calls, ps, s);
    ImportedFrom(fs, Run(s, COMMA, calls).out.text, tag, v, room);
  }

  lemma ImportedFrom(fs: seq<Field>, text: string, tag: string, v: string, room: nat)
    requires CleanAll(fs) && FullAll(fs) && DistinctTags(fs)
    requires text == "{" + RenderAll(fs) + LastBrace(1 + |RenderAll(fs)|)
    ensures var all := AllFields(fs);
            && Parse(text).Some? && Inv(Parse(text).value)
            && var got := Import(Get(Parse(text).value, tag), Some(tag), Some(v), room);
            && (forall k :: 0 <= k < |all| && all[k].tag == tag && |TextOf(all[k])| < room ==>
                              got == Imported(1, Some(TextOf(all[k]))))
            && ((forall k :: 0 <= k < |all| ==> all[k].tag != tag) ==> got == Imported(0, Some(v)))
  {
    LookupInEither(fs, tag);
  }
}
