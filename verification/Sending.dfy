/** The text that the exchange steps build of a nested message, whatever its size. */
module Sending {
  import opened Json
  import opened JsonMessage
  import opened Transport
  import opened Connection

  const COMMA: string := ", "

  /** A message as its sender nests it: single values, the items of a cache, and groups. */
  datatype Piece =
    | Leaf(value: Value)
    | Items(listing: Listing, items: seq<CacheItem>)
    | Nest(tag: string, pieces: seq<Piece>)

  /** The calls that send it, each group between an open and a close. */
  function Calls(p: Piece): seq<Call> {
    match p
    case Leaf(v) => [Put(v)]
    case Items(listing, items) => [PutList(listing, items)]
    case Nest(tag, pieces) => [Open(tag)] + CallsAll(pieces) + [Close]
  }

  function CallsAll(ps: seq<Piece>): seq<Call> {
    if ps == [] then [] else Calls(ps[0]) + CallsAll(ps[1..])
  }

  function MessageCalls(ps: seq<Piece>): seq<Call> {
    [Initiate] + CallsAll(ps) + [Complete]
  }

  /** The calls without the flags that send nothing: that the message is critical, and that it goes on. */
  function Stripped(calls: seq<Call>): seq<Call> {
    if calls == [] then []
    else (if calls[0].Critical? || calls[0].Continue? then [] else [calls[0]]) + Stripped(calls[1..])
  }

  /** These calls send the message, wherever flags are put among them and whatever follows its completion. */
  predicate Sends(calls: seq<Call>, ps: seq<Piece>) {
    MessageCalls(ps) <= Stripped(calls)
  }

  // ----- the fields meant ------------------------------------------------------------

  function FieldFor(v: Value): Field {
    if IsQuoted(v) then Text(v.tag, v.text) else Num(v.tag, v.text)
  }

  function FieldsFor(vs: seq<Value>): (r: seq<Field>)
    ensures |r| == |vs|
  {
    if vs == [] then [] else [FieldFor(vs[0])] + FieldsFor(vs[1..])
  }

  function FieldsOf(p: Piece): seq<Field> {
    match p
    case Leaf(v) => [FieldFor(v)]
    case Items(listing, items) => FieldsFor(ValuesOf(listing, items))
    case Nest(tag, pieces) => [Group(tag, FieldsAll(pieces))]
  }

  function FieldsAll(ps: seq<Piece>): seq<Field> {
    if ps == [] then [] else FieldsOf(ps[0]) + FieldsAll(ps[1..])
  }

  // ----- the fields that get into the text -------------------------------------------

  function Sep(first: bool): string {
    if first then "" else COMMA
  }

  /** Fields after the text so far, a delimiter before them unless they are the first. */
  function Joined(first: bool, fs: seq<Field>): string {
    if fs == [] then "" else Sep(first) + RenderAll(fs)
  }

  /** A value is accepted at a position if the room it asks for, its text and the delimiter are
      each within the room there. */
  predicate ValueFits(v: Value, at: nat, first: bool) {
    RoomOf(v) <= RoomAt(at) && |Render(FieldFor(v))| <= RoomAt(at) && |Sep(first)| <= RoomAt(at)
  }

  predicate OpenFits(tag: string, at: nat, first: bool) {
    2 <= RoomAt(at) && |Label(tag)| + 1 <= RoomAt(at) && |Sep(first)| <= RoomAt(at)
  }

  predicate CloseFits(at: nat) {
    2 <= RoomAt(at)
  }

  /** The items of a list that are accepted. */
  function Kept(vs: seq<Value>, at: nat, first: bool): (r: seq<Value>)
    ensures |r| <= |vs|
  {
    if vs == [] then []
    else if ValueFits(vs[0], at, first) then
      [vs[0]] + Kept(vs[1..], at + |Sep(first)| + |Render(FieldFor(vs[0]))|, false)
    else Kept(vs[1..], at, first)
  }

  /** Where the contents of a group start. */
  function Inside(tag: string, at: nat, first: bool): nat {
    at + |Sep(first)| + |Label(tag)| + 1
  }

  /** The fields of pieces sent from a position on: all but the refused items of lists. */
  function SentOf(p: Piece, at: nat, first: bool): seq<Field>
    decreases p, 0
  {
    match p
    case Leaf(v) => [FieldFor(v)]
    case Items(listing, items) => FieldsFor(Kept(ValuesOf(listing, items), at, first))
    case Nest(tag, pieces) => [Group(tag, SentAll(pieces, Inside(tag, at, first), true))]
  }

  function SentAll(ps: seq<Piece>, at: nat, first: bool): seq<Field>
    decreases ps, 1
  {
    if ps == [] then []
    else
      var sent := SentOf(ps[0], at, first);
      sent + SentAll(ps[1..], at + |Joined(first, sent)|, first && sent == [])
  }

  /** No step of the sending fails. A list never does. */
  predicate Proceeds(p: Piece, at: nat, first: bool)
    decreases p, 0
  {
    match p
    case Leaf(v) => ValueFits(v, at, first)
    case Items(_, _) => true
    case Nest(tag, pieces) =>
      var inner := Inside(tag, at, first);
      OpenFits(tag, at, first) && ProceedsAll(pieces, inner, true)
      && CloseFits(inner + |RenderAll(SentAll(pieces, inner, true))|)
  }

  predicate ProceedsAll(ps: seq<Piece>, at: nat, first: bool)
    decreases ps, 1
  {
    ps == [] ||
    (var sent := SentOf(ps[0], at, first);
     Proceeds(ps[0], at, first) && ProceedsAll(ps[1..], at + |Joined(first, sent)|, first && sent == []))
  }

  // ----- running the steps -----------------------------------------------------------

  lemma {:induction false} RunAppends(s: Sender, a: seq<Call>, b: seq<Call>)
    ensures Run(s, COMMA, a + b) == Run(Run(s, COMMA, a), COMMA, b)
    decreases |a|
  {
    if a == [] { assert a + b == b; }
    else if s.stage == Going {
      assert (a + b)[0] == a[0] && (a + b)[1..] == a[1..] + b;
      RunAppends(Do(s, COMMA, a[0]), a[1..], b);
    }
  }

  lemma RunOne(s: Sender, c: Call)
    ensures Run(s, COMMA, [c]) == if s.stage == Going then Do(s, COMMA, c) else s
  {
    assert [c][1..] == [];
    assert s.stage == Going ==> Run(s, COMMA, [c]) == Run(Do(s, COMMA, c), COMMA, []);
  }

  lemma RunStopped(s: Sender, calls: seq<Call>)
    ensures s.stage != Going ==> Run(s, COMMA, calls) == s
  {
  }

  /** The flags change neither text, stage nor sequence number. */
  lemma {:induction false} FlagsChangeNothing(s: Sender, delimiter: string, calls: seq<Call>)
    ensures Run(s, delimiter, calls) == Run(s, delimiter, Stripped(calls))
    decreases |calls|
  {
    if calls != [] && s.stage == Going {
      FlagsChangeNothing(Do(s, delimiter, calls[0]), delimiter, calls[1..]);
      assert ([calls[0]] + Stripped(calls[1..]))[1..] == Stripped(calls[1..]);
      assert [] + Stripped(calls[1..]) == Stripped(calls[1..]);
    }
  }

  /** Nothing is read after the completion. */
  lemma SendsMessage(s: Sender, calls: seq<Call>, ps: seq<Piece>)
    requires s.stage == Going && Sends(calls, ps) && Run(s, COMMA, MessageCalls(ps)).stage != Going
    ensures Run(s, COMMA, calls) == Run(s, COMMA, MessageCalls(ps))
  {
    var wanted, all := MessageCalls(ps), Stripped(calls);
    FlagsChangeNothing(s, COMMA, calls);
    assert all == wanted + all[|wanted|..];
    RunAppends(s, wanted, all[|wanted|..]);
    RunStopped(Run(s, COMMA, wanted), all[|wanted|..]);
  }

  /** A group is sent by its opening, its pieces and its closing. */
  lemma NestRun(s: Sender, tag: string, pieces: seq<Piece>)
    requires s.stage == Going
    ensures var inner := Do(s, COMMA, Open(tag));
            var filled := Run(inner, COMMA, CallsAll(pieces));
            Run(s, COMMA, Calls(Nest(tag, pieces)))
              == if filled.stage == Going then Do(filled, COMMA, Close) else filled
  {
    RunAppends(s, [Open(tag)] + CallsAll(pieces), [Close]);
    RunAppends(s, [Open(tag)], CallsAll(pieces));
    RunOne(s, Open(tag));
    RunOne(Run(Do(s, COMMA, Open(tag)), COMMA, CallsAll(pieces)), Close);
  }

  /** A whole message is sent by its opening, its pieces and its completion. */
  lemma MessageRun(s: Sender, ps: seq<Piece>)
    requires s.stage == Going
    ensures var t := Run(Do(s, COMMA, Initiate), COMMA, CallsAll(ps));
            Run(s, COMMA, MessageCalls(ps)) == if t.stage == Going then Do(t, COMMA, Complete) else t
  {
    RunAppends(s, [Initiate] + CallsAll(ps), [Complete]);
    RunAppends(s, [Initiate], CallsAll(ps));
    RunOne(s, Initiate);
    RunOne(Run(Do(s, COMMA, Initiate), COMMA, CallsAll(ps)), Complete);
  }

  // ----- rendering -------------------------------------------------------------------

  lemma {:induction false} RenderConcat(a: seq<Field>, b: seq<Field>)
    requires a != [] && b != []
    ensures RenderAll(a + b) == RenderAll(a) + COMMA + RenderAll(b)
    decreases |a|
  {
    assert (a + b)[0] == a[0] && (a + b)[1..] == a[1..] + b;
    if |a| == 1 { assert a[1..] + b == b; }
    else {
      RenderConcat(a[1..], b);
      Reassociate(Render(a[0]) + COMMA, RenderAll(a[1..]), COMMA, RenderAll(b));
    }
  }

  lemma Reassociate(a: string, b: string, c: string, d: string)
    ensures a + (b + c + d) == a + b + c + d
    ensures a + b + (c + d) == a + (b + c + d)
  {
  }

  /** Text added in two parts. */
  lemma JoinedTwice(first: bool, a: seq<Field>, b: seq<Field>)
    ensures Joined(first, a + b) == Joined(first, a) + Joined(first && a == [], b)
  {
    if a == [] { assert a + b == b; }
    else if b == [] { assert a + b == a; }
    else {
      RenderConcat(a, b);
      Reassociate(Sep(first), RenderAll(a), COMMA, RenderAll(b));
    }
  }

  // ----- single steps ----------------------------------------------------------------

  lemma ExportFits(o: Output, v: Value)
    ensures var r := Export(o, COMMA, v);
            && (r.code >= 0 <==> ValueFits(v, |o.text|, o.fields == 0))
            && r.out == if ValueFits(v, |o.text|, o.fields == 0)
                        then Output(o.text + Sep(o.fields == 0) + Render(FieldFor(v)), o.fields + 1) else o
  {
  }

  /** The text of a value: strings are quoted, reals and integers are not. */
  lemma ValueText(s: Sender, v: Value)
    requires s.stage == Going && ValueFits(v, |s.out.text|, s.out.fields == 0)
    ensures var t, delimiter := Do(s, COMMA, Put(v)), if s.out.fields == 0 then "" else ", ";
            && t.stage == Going && t.out.fields == s.out.fields + 1
            && t.out.text == s.out.text + delimiter + "\"" + v.tag + "\": " +
                 (match v
                  case Tagged(_, text) => "\"" + text + "\""
                  case Sized(_, text, _) => "\"" + text + "\""
                  case Measured(_, text) => text
                  case Whole(_, text) => text)
  {
    assert s.out.text + "" == s.out.text;
  }

  /** The text of a group's opening and closing. */
  lemma GroupTexts(s: Sender, tag: string)
    requires s.stage == Going
    ensures OpenFits(tag, |s.out.text|, s.out.fields == 0) ==>
              Do(s, COMMA, Open(tag)).out.text ==
                s.out.text + (if s.out.fields == 0 then "" else ", ") + "\"" + tag + "\": {"
    ensures CloseFits(|s.out.text|) ==> Do(s, COMMA, Close).out.text == s.out.text + "}"
    ensures Do(s, COMMA, Initiate).out.text == "{"
  {
    OpenStep(s, tag);
    CloseStep(s);
    MessageBegins(s);
    if OpenFits(tag, |s.out.text|, s.out.fields == 0) {
      assert Label(tag) + "{" == "\"" + tag + "\": {";
    }
  }

  lemma OpenStep(s: Sender, tag: string)
    requires s.stage == Going
    ensures var t := Do(s, COMMA, Open(tag));
            && t.stage == (if OpenFits(tag, |s.out.text|, s.out.fields == 0) then Going else Failed)
            && t.seqnum == s.seqnum && t.out.fields == 0
            && (t.stage == Going ==> t.out.text == s.out.text + Sep(s.out.fields == 0) + (Label(tag) + "{"))
  {
  }

  lemma CloseStep(s: Sender)
    requires s.stage == Going
    ensures var t := Do(s, COMMA, Close);
            && t.stage == (if CloseFits(|s.out.text|) then Going else Failed)
            && t.seqnum == s.seqnum
            && (t.stage == Going ==> t.out == Output(s.out.text + "}", 1))
  {
    assert s.out.text + "" + "}" == s.out.text + "}";
  }

  // ----- lists of items --------------------------------------------------------------

  /** The text a list adds is that of exactly the accepted items. */
  lemma {:induction false} ListText(o: Output, vs: seq<Value>)
    ensures var kept := Kept(vs, |o.text|, o.fields == 0);
            ExportList(o, COMMA, vs) == Output(o.text + Joined(o.fields == 0, FieldsFor(kept)), o.fields + |kept|)
    decreases |vs|
  {
    if vs == [] {
      assert o.text + "" == o.text;
    } else {
      var first, v := o.fields == 0, vs[0];
      var next := Export(o, COMMA, v).out;
      ExportFits(o, v);
      ListText(next, vs[1..]);
      if ValueFits(v, |o.text|, first) {
        var more := Kept(vs[1..], |next.text|, false);
        assert ([v] + more)[1..] == more;
        assert FieldsFor([v] + more) == [FieldFor(v)] + FieldsFor(more);
        JoinedTwice(first, [FieldFor(v)], FieldsFor(more));
        Glue(o.text, Sep(first) + Render(FieldFor(v)), Joined(false, FieldsFor(more)));
        Glue(o.text, Sep(first), Render(FieldFor(v)));
      }
    }
  }

  lemma Glue(a: string, b: string, c: string)
    ensures a + (b + c) == a + b + c
  {
  }

  /** All items of a list are in the text if and only if each fits where it starts. */
  predicate ItemsFit(vs: seq<Value>, at: nat, first: bool) {
    vs == [] || (ValueFits(vs[0], at, first) && ItemsFit(vs[1..], at + |Sep(first)| + |Render(FieldFor(vs[0]))|, false))
  }

  lemma {:induction false} AllKeptIff(vs: seq<Value>, at: nat, first: bool)
    ensures Kept(vs, at, first) == vs <==> ItemsFit(vs, at, first)
    ensures |Kept(vs, at, first)| == |vs| <==> ItemsFit(vs, at, first)
    decreases |vs|
  {
    if vs != [] { AllKeptIff(vs[1..], at + |Sep(first)| + |Render(FieldFor(vs[0]))|, false); }
  }

  // ----- the text that is built ------------------------------------------------------

  /** What a run of steps has added: it goes on if and only if no step fails, and then its text is
      that of the fields sent, delimiters in their places at every depth. */
  ghost predicate Adds(s: Sender, t: Sender, proceeds: bool, sent: seq<Field>) {
    var first := s.out.fields == 0;
    && t.stage == (if proceeds then Going else Failed) && t.seqnum == s.seqnum
    && (proceeds ==>
          && t.out.text == s.out.text + Joined(first, sent)
          && (t.out.fields == 0 <==> first && sent == []))
  }

  lemma {:induction false} PieceText(s: Sender, p: Piece)
    requires s.stage == Going
    ensures var at, first := |s.out.text|, s.out.fields == 0;
            Adds(s, Run(s, COMMA, Calls(p)), Proceeds(p, at, first), SentOf(p, at, first))
    decreases p, 0
  {
    match p
    case Leaf(v) =>
      RunOne(s, Put(v));
      ExportFits(s.out, v);
      Glue(s.out.text, Sep(s.out.fields == 0), Render(FieldFor(v)));
    case Items(listing, items) =>
      RunOne(s, PutList(listing, items));
      ListText(s.out, ValuesOf(listing, items));
    case Nest(tag, pieces) =>
      NestText(s, tag, pieces);
  }

  lemma {:induction false} NestText(s: Sender, tag: string, pieces: seq<Piece>)
    requires s.stage == Going
    ensures var at, first, p := |s.out.text|, s.out.fields == 0, Nest(tag, pieces);
            Adds(s, Run(s, COMMA, Calls(p)), Proceeds(p, at, first), SentOf(p, at, first))
    decreases pieces, 2
  {
    NestRun(s, tag, pieces);
    OpenStep(s, tag);
    var inner := Do(s, COMMA, Open(tag));
    RunStopped(inner, CallsAll(pieces));
    if inner.stage == Going {
      PiecesText(inner, pieces);
      var filled := Run(inner, COMMA, CallsAll(pieces));
      if filled.stage == Going {
        CloseStep(filled);
        GroupText(s.out.text, s.out.fields == 0, tag, SentAll(pieces, |inner.out.text|, true));
      }
    }
  }

  lemma GroupText(before: string, first: bool, tag: string, sent: seq<Field>)
    ensures before + Sep(first) + (Label(tag) + "{") + Joined(true, sent) + "}" ==
        before + Joined(first, [Group(tag, sent)])
  {
    assert Joined(true, sent) == RenderAll(sent);
    assert RenderAll([Group(tag, sent)]) == Render(Group(tag, sent));
    Regroup(before, Sep(first), Label(tag), RenderAll(sent));
  }

  lemma Regroup(a: string, d: string, l: string, inner: string)
    ensures a + d + (l + "{") + inner + "}" == a + (d + (l + ("{" + inner + "}")))
  {
    calc {
      a + d + (l + "{") + inner + "}";
      (a + d) + ((l + "{") + (inner + "}"));
      { assert (l + "{") + (inner + "}") == l + ("{" + inner + "}"); }
      (a + d) + (l + ("{" + inner + "}"));
    }
  }

  lemma {:induction false} PiecesText(s: Sender, ps: seq<Piece>)
    requires s.stage == Going
    ensures var at, first := |s.out.text|, s.out.fields == 0;
            Adds(s, Run(s, COMMA, CallsAll(ps)), ProceedsAll(ps, at, first), SentAll(ps, at, first))
    decreases ps, 1
  {
    if ps == [] {
      assert s.out.text + "" == s.out.text;
    } else {
      var at, first := |s.out.text|, s.out.fields == 0;
      var t, sent := Run(s, COMMA, Calls(ps[0])), SentOf(ps[0], at, first);
      RunAppends(s, Calls(ps[0]), CallsAll(ps[1..]));
      PieceText(s, ps[0]);
      RunStopped(t, CallsAll(ps[1..]));
      if t.stage == Going {
        PiecesText(t, ps[1..]);
        AddsTwice(s.out.text, first, sent, SentAll(ps[1..], |t.out.text|, first && sent == []));
      }
    }
  }

  lemma AddsTwice(before: string, first: bool, a: seq<Field>, b: seq<Field>)
    ensures before + Joined(first, a) + Joined(first && a == [], b) == before + Joined(first, a + b)
    ensures a + b == [] <==> a == [] && b == []
  {
    JoinedTwice(first, a, b);
    Glue(before, Joined(first, a), Joined(first && a == [], b));
  }

  // ----- the whole message -----------------------------------------------------------

  function Id(n: nat): Value {
    Whole("id", Decimal(n))
  }

  /** The fields of a completed message numbered `n`: those sent, and the id if it fits. */
  function Carried(ps: seq<Piece>, n: nat): seq<Field> {
    var sent := SentAll(ps, 1, true);
    if ValueFits(Id(n), 1 + |RenderAll(sent)|, sent == []) then sent + [FieldFor(Id(n))] else sent
  }

  function LastBrace(at: nat): string {
    if CloseFits(at) then "}" else ""
  }

  lemma MessageBegins(s: Sender)
    ensures Do(s, COMMA, Initiate) == Sender(s.stage, Output("{", 0), s.seqnum + 1)
  {
    assert "" + "" + "{" == "{";
  }

  lemma IdStep(o: Output, sent: seq<Field>, id: Value)
    requires o.text == "{" + RenderAll(sent) && (o.fields == 0 <==> sent == [])
    ensures var all := if ValueFits(id, |o.text|, sent == []) then sent + [FieldFor(id)] else sent;
            Export(o, COMMA, id).out.text == "{" + RenderAll(all)
  {
    ExportFits(o, id);
    LastField(sent, FieldFor(id));
  }

  lemma LastField(sent: seq<Field>, f: Field)
    ensures "{" + RenderAll(sent) + Sep(sent == []) + Render(f) == "{" + RenderAll(sent + [f])
  {
    assert Joined(true, sent) == RenderAll(sent) && Joined(sent == [], [f]) == Sep(sent == []) + Render(f);
    assert Joined(true, sent + [f]) == RenderAll(sent + [f]);
    JoinedTwice(true, sent, [f]);
    Reassociate("{", RenderAll(sent), Sep(sent == []), Render(f));
    Glue(RenderAll(sent), Sep(sent == []), Render(f));
    Glue("{", RenderAll(sent), Sep(sent == []) + Render(f));
    Glue("{" + RenderAll(sent), Sep(sent == []), Render(f));
  }

  lemma BraceStep(o: Output)
    ensures ExportClose(Reset(o), COMMA).out.text == o.text + LastBrace(|o.text|)
  {
    assert o.text + "" + "}" == o.text + "}";
  }

  lemma MessageEnds(s: Sender, sent: seq<Field>)
    requires s.stage == Going && s.out.text == "{" + RenderAll(sent) && (s.out.fields == 0 <==> sent == [])
    ensures var t, id := Do(s, COMMA, Complete), Id(s.seqnum);
            var all := if ValueFits(id, |s.out.text|, sent == []) then sent + [FieldFor(id)] else sent;
            && t.stage == Completed && t.seqnum == s.seqnum
            && t.out.text == "{" + RenderAll(all) + LastBrace(1 + |RenderAll(all)|)
  {
    IdStep(s.out, sent, Id(s.seqnum));
    BraceStep(Export(s.out, COMMA, Id(s.seqnum)).out);
  }

  /** A message of any size is completed if and only if its steps proceed. Its text then has all
      its fields but the refused items of lists, and the id and the last brace if they fit: what
      they were answered is ignored. */
  lemma CompletedText(calls: seq<Call>, ps: seq<Piece>, s: Sender)
    requires s.stage == Going && Sends(calls, ps)
    ensures var t := Run(s, COMMA, calls);
            var all := Carried(ps, s.seqnum + 1);
            && t.stage == (if ProceedsAll(ps, 1, true) then Completed else Failed)
            && t.seqnum == s.seqnum + 1
            && (t.stage == Completed ==> t.out.text == "{" + RenderAll(all) + LastBrace(1 + |RenderAll(all)|))
  {
    MessageRun(s, ps);
    MessageBegins(s);
    var begun := Do(s, COMMA, Initiate);
    PiecesText(begun, ps);
    var t, sent := Run(begun, COMMA, CallsAll(ps)), SentAll(ps, 1, true);
    assert Joined(true, sent) == RenderAll(sent);
    if t.stage == Going { MessageEnds(t, sent); }
    SendsMessage(s, calls, ps);
  }

  lemma {:induction false} NoFlags(calls: seq<Call>)
    requires forall c <- calls :: !c.Critical? && !c.Continue?
    ensures Stripped(calls) == calls
  {
    if calls != [] { NoFlags(calls[1..]); }
  }

  lemma LeavesAreCalls(u: Value, v: Value, w: Value)
    ensures CallsAll([Leaf(u), Leaf(v), Leaf(w)]) == [Put(u), Put(v), Put(w)]
  {
    assert [Leaf(u), Leaf(v), Leaf(w)][1..] == [Leaf(v), Leaf(w)];
    assert [Leaf(v), Leaf(w)][1..] == [Leaf(w)] && [Leaf(w)][1..] == [];
    assert CallsAll([Leaf(w)]) == [Put(w)] + [];
    assert CallsAll([Leaf(v), Leaf(w)]) == [Put(v)] + [Put(w)];
    assert CallsAll([Leaf(u), Leaf(v), Leaf(w)]) == [Put(u)] + ([Put(v)] + [Put(w)]);
  }

  /** The handshake with which json::init begins, a critical message: its calls, and what they send. */
  function HandshakeCalls(u: Value, v: Value, w: Value): seq<Call> {
    [Initiate, Put(Tagged("method", "init")), Open("params"), Put(u), Put(v), Put(w), Close, Complete]
  }

  function Handshake(u: Value, v: Value, w: Value): seq<Piece> {
    [Leaf(Tagged("method", "init")), Nest("params", [Leaf(u), Leaf(v), Leaf(w)])]
  }

  lemma HandshakeIsSent(application: string, version: string, model: string)
    ensures var u, v := Sized("application", application, 1023), Measured("version", version);
            var w := Sized("modelname", model, 1024);
            Sends([Critical] + HandshakeCalls(u, v, w), Handshake(u, v, w))
  {
    var u, v := Sized("application", application, 1023), Measured("version", version);
    var w := Sized("modelname", model, 1024);
    var params, calls := Handshake(u, v, w)[1], HandshakeCalls(u, v, w);
    LeavesAreCalls(u, v, w);
    assert Handshake(u, v, w)[1..] == [params] && [params][1..] == [];
    assert Calls(params) == [Open("params")] + [Put(u), Put(v), Put(w)] + [Close];
    assert CallsAll([params]) == Calls(params) + [];
    assert CallsAll(Handshake(u, v, w)) == [Put(Tagged("method", "init"))] + CallsAll([params]);
    assert MessageCalls(Handshake(u, v, w)) == calls;
    NoFlags(calls);
    assert ([Critical] + calls)[1..] == calls && [] + calls == calls;
  }
}
