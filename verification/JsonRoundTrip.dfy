/** The parser undoes the printer. */
module JsonRoundTrip {
  import opened Json
  import opened JsonMessage

  /** The parser is about to read a field into a fresh item, which is the last node. */
  predicate AtField(s: State) {
    s.mode == Tag0 && |s.nodes| > 0 && s.tail == |s.nodes| - 1 && Tail(s) == Blank(Tail(s).parent) && s.nest > 0
  }

  /** The nodes before that item. */
  function Front(s: State): seq<Node>
    requires AtField(s)
  {
    s.nodes[..s.tail]
  }

  /** The state once some fields are there, the last of them at node `last`. */
  function Placed(s: State, nodes: seq<Node>, last: int): State
    requires AtField(s)
  {
    State(Comma, Front(s) + nodes, last, s.nest)
  }

  /** The state once the fields `fs` have been read. */
  function Filled(s: State, fs: seq<Field>): (r: State)
    requires AtField(s) && fs != []
    ensures HasTail(r) && Tail(r).parent == Tail(s).parent && Tail(r).next == -1
  {
    LastNode(fs, s.tail, Tail(s).parent);
    Placed(s, LayAll(fs, s.tail, Tail(s).parent), LastAt(fs, s.tail))
  }

  function Labelled(s: State, tag: string): State
    requires AtField(s)
  {
    WithTail(s, Tail(s).(tag := tag)).(mode := Param)
  }

  lemma GoLabel(s: State, tag: string, rest: string)
    requires AtField(s) && QuoteFree(tag)
    ensures Go(s, Label(tag) + rest) == Go(Labelled(s, tag), rest)
  {
    var s1 := s.(mode := Tag);
    var s2 := WithTail(s, Tail(s).(tag := tag)).(mode := Colon);
    calc {
      Go(s, Label(tag) + rest);
    ==  { assert Label(tag) + rest == ['"'] + (tag + ("\"" + (": " + rest)));
        GoOne(s, '"', tag + ("\"" + (": " + rest))); }
      Go(s1, tag + ("\"" + (": " + rest)));
    ==  { GoTagChars(s1, tag, ": " + rest); assert Tail(s1).tag + tag == tag; }
      Go(s2, ": " + rest);
    ==  { assert ": " + rest == [':'] + ([' '] + rest); GoOne(s2, ':', [' '] + rest); }
      Go(s2.(mode := Param), [' '] + rest);
    ==  { GoOne(s2.(mode := Param), ' ', rest); }
      Go(Labelled(s, tag), rest);
    }
  }

  /** A quoted value. */
  lemma GoText(s: State, f: Field, c: char)
    requires AtField(s) && f.Text? && Clean(f) && (c == ',' || c == '}')
    ensures Go(s, Render(f) + [c]) == StepComma(Placed(s, Lay(f, s.tail, Tail(s).parent, -1), s.tail), c)
  {
    var s1 := Labelled(s, f.tag);
    var s2 := WithTail(s1, Tail(s1).(kind := Str)).(mode := Quoted);
    var s3 := Placed(s, Lay(f, s.tail, Tail(s).parent, -1), s.tail);
    calc {
      Go(s, Render(f) + [c]);
    ==  { assert Render(f) + [c] == Label(f.tag) + (['"'] + (f.value + ("\"" + [c])));
        GoLabel(s, f.tag, ['"'] + (f.value + ("\"" + [c]))); }
      Go(s1, ['"'] + (f.value + ("\"" + [c])));
    ==  { GoOne(s1, '"', f.value + ("\"" + [c])); }
      Go(s2, f.value + ("\"" + [c]));
    ==  { GoTextChars(s2, f.value, [c]);
          assert Tail(s2).text + f.value == f.value;
          assert WithTail(s2, Tail(s2).(text := f.value)).(mode := Comma) == s3; }
      Go(s3, [c]);
    ==  { assert [c] == [c] + ""; GoOne(s3, c, ""); }
      StepComma(s3, c);
    }
  }

  lemma NumberPlaced(s: State, s1: State, s2: State, f: Field)
    requires AtField(s) && f.Num? && f.value != "" && s1 == Labelled(s, f.tag)
    requires s2 == WithTail(s1, Tail(s1).(kind := Integer, text := [f.value[0]])).(mode := Number)
    ensures WithTail(s2, Tail(s2).(text := f.value, kind := NumberKind(f.value))).(mode := Comma)
         == Placed(s, Lay(f, s.tail, Tail(s).parent, -1), s.tail)
  {
  }

  /** An unquoted number. */
  lemma GoNum(s: State, f: Field, c: char)
    requires AtField(s) && f.Num? && Clean(f) && (c == ',' || c == '}')
    ensures Go(s, Render(f) + [c]) == StepComma(Placed(s, Lay(f, s.tail, Tail(s).parent, -1), s.tail), c)
  {
    var v, s1 := f.value, Labelled(s, f.tag);
    var s2 := WithTail(s1, Tail(s1).(kind := Integer, text := [v[0]])).(mode := Number);
    var s3 := Placed(s, Lay(f, s.tail, Tail(s).parent, -1), s.tail);
    calc {
      Go(s, Render(f) + [c]);
    ==  { NumberSplits(f, c); GoLabel(s, f.tag, [v[0]] + (v[1..] + [c])); }
      Go(s1, [v[0]] + (v[1..] + [c]));
    ==  { NumberStarts(s1, v[0], v[1..] + [c]); }
      Go(s2, v[1..] + [c]);
    ==  { GoNumberChars(s2, v[1..], c); NumberPlaced(s, s1, s2, f); assert [v[0]] + v[1..] == v; }
      StepComma(s3, c);
    }
  }

  lemma NumberSplits(f: Field, c: char)
    requires f.Num? && f.value != ""
    ensures Render(f) + [c] == Label(f.tag) + ([f.value[0]] + (f.value[1..] + [c]))
  {
    assert f.value == [f.value[0]] + f.value[1..];
  }

  lemma NumberStarts(s: State, d: char, rest: string)
    requires HasTail(s) && s.mode == Param && Tail(s).text == ""
    requires IsDigit(d) || d == '-' || d == '+' || d == '.'
    ensures Go(s, [d] + rest) == Go(WithTail(s, Tail(s).(kind := Integer, text := [d])).(mode := Number), rest)
  {
    GoOne(s, d, rest);
    assert Tail(s).text + [d] == [d];
  }

  /** Inside a group, about to read its first field. */
  function Opened(s: State, tag: string): State
    requires AtField(s)
  {
    var b := s.tail;
    State(Tag0, Front(s) + [Node(List, tag, "", b + 1, -1, Tail(s).parent), Blank(b)], b + 1, s.nest + 1)
  }

  lemma GoOpen(s: State, tag: string, rest: string)
    requires AtField(s) && QuoteFree(tag)
    ensures AtField(Opened(s, tag)) && Go(s, Label(tag) + ("{" + rest)) == Go(Opened(s, tag), rest)
  {
    var s1 := Labelled(s, tag);
    GoLabel(s, tag, "{" + rest);
    GoOne(s1, '{', rest);
    assert Step(s1, '{').value == Opened(s, tag);
  }

  /** The closing bracket takes the parser back up to the group's own node. */
  lemma CloseGroup(s: State, f: Field)
    requires AtField(s) && f.Group? && f.fields != []
    ensures StepComma(Filled(Opened(s, f.tag), f.fields), '}') ==
        Some(Placed(s, Lay(f, s.tail, Tail(s).parent, -1), s.tail))
  {
    var b, inside := s.tail, Opened(s, f.tag);
    var head := Node(List, f.tag, "", b + 1, -1, Tail(s).parent);
    assert Front(inside) == Front(s) + [head];
    assert Front(inside) + LayAll(f.fields, b + 1, b) == Front(s) + ([head] + LayAll(f.fields, b + 1, b));
  }

  /** The state at the next field of the same list. */
  function Following(s: State, f: Field): (r: State)
    requires AtField(s)
    ensures AtField(r) && r.nest == s.nest && Tail(r).parent == Tail(s).parent
    ensures r.tail == s.tail + Size(f) && Front(r) == Front(s) + Lay(f, s.tail, Tail(s).parent, s.tail + Size(f))
  {
    var p, n := Tail(s).parent, s.tail + Size(f);
    State(Tag0, Front(s) + Lay(f, s.tail, p, n) + [Blank(p)], n, s.nest)
  }

  /** The delimiter links the field just read to a fresh item. */
  lemma NextField(s: State, f: Field)
    requires AtField(s)
    ensures StepComma(Placed(s, Lay(f, s.tail, Tail(s).parent, -1), s.tail), ',') == Some(Following(s, f))
  {
    var b, p, n := s.tail, Tail(s).parent, s.tail + Size(f);
    var nodes := Front(s) + Lay(f, b, p, -1);
    assert nodes[b := nodes[b].(next := n)] == Front(s) + Lay(f, b, p, n);
  }

  lemma {:induction false} GoField(s: State, f: Field, c: char)
    requires AtField(s) && Clean(f) && NoEmptyGroup(f) && (c == ',' || c == '}')
    ensures Go(s, Render(f) + [c]) == StepComma(Placed(s, Lay(f, s.tail, Tail(s).parent, -1), s.tail), c)
    decreases f, 0
  {
    match f
    case Text(_, _) => GoText(s, f, c);
    case Num(_, _) => GoNum(s, f, c);
    case Group(tag, fields) =>
      var inside, after := Opened(s, tag), Placed(s, Lay(f, s.tail, Tail(s).parent, -1), s.tail);
      calc {
        Go(s, Render(f) + [c]);
      ==  { assert Render(f) + [c] == Label(tag) + ("{" + ((RenderAll(fields) + "}") + [c]));
          GoOpen(s, tag, (RenderAll(fields) + "}") + [c]); }
        Go(inside, (RenderAll(fields) + "}") + [c]);
      ==  { GoFields(inside, fields, '}'); CloseGroup(s, f);
            GoAppends(inside, RenderAll(fields) + "}", [c]); }
        Go(after, [c]);
      ==  { assert [c] == [c] + ""; GoOne(after, c, ""); }
        StepComma(after, c);
      }
  }

  lemma {:induction false} GoFields(s: State, fs: seq<Field>, c: char)
    requires AtField(s) && fs != [] && (c == ',' || c == '}')
    requires forall f <- fs :: Clean(f) && NoEmptyGroup(f)
    ensures Go(s, RenderAll(fs) + [c]) == StepComma(Filled(s, fs), c)
    decreases fs, 1
  {
    var f, more := fs[0], fs[1..];
    GoField(s, f, if more == [] then c else ',');
    if more == [] {
      assert LayAll(fs, s.tail, Tail(s).parent) == Lay(f, s.tail, Tail(s).parent, -1);
    } else {
      RenderSplits(fs, [c]);
      GoNext(s, f, RenderAll(more) + [c]);
      GoFields(Following(s, f), more, c);
      FilledFollows(s, fs);
    }
  }

  lemma RenderSplits(fs: seq<Field>, rest: string)
    requires |fs| > 1
    ensures RenderAll(fs) + rest == Render(fs[0]) + (", " + (RenderAll(fs[1..]) + rest))
  {
    assert RenderAll(fs) == Render(fs[0]) + ", " + RenderAll(fs[1..]);
    Regroup(Render(fs[0]), ", ", RenderAll(fs[1..]), rest);
  }

  lemma Regroup(a: string, b: string, c: string, d: string)
    ensures (a + b + c) + d == a + (b + (c + d))
    ensures a + ((b + c) + d) == (a + b) + (c + d)
  {
  }

  /** A field and the delimiter after it take the parser to the next field. */
  lemma GoNext(s: State, f: Field, rest: string)
    requires AtField(s)
    requires Go(s, Render(f) + [',']) == StepComma(Placed(s, Lay(f, s.tail, Tail(s).parent, -1), s.tail), ',')
    ensures Go(s, Render(f) + (", " + rest)) == Go(Following(s, f), rest)
  {
    NextField(s, f);
    assert ", " == [','] + [' '];
    Regroup(Render(f), [','], [' '], rest);
    GoAppends(s, Render(f) + [','], [' '] + rest);
    GoOne(Following(s, f), ' ', rest);
  }

  lemma FilledFollows(s: State, fs: seq<Field>)
    requires AtField(s) && |fs| > 1
    ensures Filled(Following(s, fs[0]), fs[1..]) == Filled(s, fs)
  {
    var f, n, p := fs[0], s.tail + Size(fs[0]), Tail(s).parent;
    assert Front(s) + Lay(f, s.tail, p, n) + LayAll(fs[1..], n, p) == Front(s) + LayAll(fs, s.tail, p);
  }

  // ----- whole messages --------------------------------------------------------------

  predicate CleanAll(fs: seq<Field>) {
    forall f <- fs :: Clean(f)
  }

  predicate FullAll(fs: seq<Field>) {
    fs != [] && forall f <- fs :: NoEmptyGroup(f)
  }

  const OPENED := State(Tag0, [Blank(-1)], 0, 1)

  /** The parser makes of a printed message exactly the nodes laid out for it. */
  lemma ParseMessage(fs: seq<Field>)
    requires CleanAll(fs) && FullAll(fs)
    ensures Parse(RenderMessage(fs)) == Some(State(End, LayAll(fs, 0, -1), -1, 0))
  {
    assert RenderMessage(fs) == ['{'] + (RenderAll(fs) + ['}']);
    GoOne(INITIAL, '{', RenderAll(fs) + ['}']);
    assert forall f <- fs :: Clean(f) && NoEmptyGroup(f);
    GoFields(OPENED, fs, '}');
    assert Front(OPENED) + LayAll(fs, 0, -1) == LayAll(fs, 0, -1);
  }

  lemma GroupText(f: Field, rest: string)
    requires f.Group?
    ensures Render(f) + rest == Label(f.tag) + ("{" + (RenderAll(f.fields) + ("}" + rest)))
  {
    var inner := RenderAll(f.fields);
    assert Render(f) == Label(f.tag) + ("{" + inner + "}");
    assert ("{" + inner + "}") + rest == "{" + (inner + ("}" + rest));
  }

  lemma RejectEmpty(s: State, rest: string)
    requires AtField(s)
    ensures Go(s, RenderAll([]) + ("}" + rest)) == None
  {
    assert RenderAll([]) + ("}" + rest) == ['}'] + rest;
    GoOne(s, '}', rest);
  }

  /** A number the parser cannot read. */
  lemma RejectNumber(s: State, f: Field, rest: string)
    requires AtField(s) && f.Num? && Sendable(f) && !NumberText(f.value)
    ensures Go(s, Render(f) + rest) == None
  {
    assert Render(f) + rest == Label(f.tag) + (f.value + rest);
    GoLabel(s, f.tag, f.value + rest);
    StopsAtNumber(Labelled(s, f.tag), f.value, rest);
  }

  predicate Readable(f: Field) {
    Clean(f) && NoEmptyGroup(f)
  }

  /** Somewhere in the fields there is a number the parser cannot read, or a group with nothing in
      it: the parser stops there. */
  lemma {:induction false} RejectField(s: State, f: Field, rest: string)
    requires AtField(s) && Sendable(f) && !Readable(f)
    ensures Go(s, Render(f) + rest) == None
    decreases f, 0
  {
    if f.Num? {
      RejectNumber(s, f, rest);
    } else {
      GroupText(f, rest);
      GoOpen(s, f.tag, RenderAll(f.fields) + ("}" + rest));
      if f.fields == [] { RejectEmpty(Opened(s, f.tag), rest); }
      else { RejectFields(Opened(s, f.tag), f.fields, "}" + rest); }
    }
  }

  lemma {:induction false} RejectFields(s: State, fs: seq<Field>, rest: string)
    requires AtField(s) && SendableAll(fs) && fs != [] && exists f <- fs :: !Readable(f)
    ensures Go(s, RenderAll(fs) + rest) == None
    decreases fs, 1
  {
    var f, more := fs[0], fs[1..];
    if |fs| > 1 { RenderSplits(fs, rest); }
    if !Readable(f) {
      RejectField(s, f, if more == [] then rest else ", " + (RenderAll(more) + rest));
    } else {
      assert exists g <- more :: !Readable(g) by {
        var g :| g in fs && !Readable(g);
        assert fs == [f] + more;
        assert g in more;
      }
      GoField(s, f, ',');
      GoNext(s, f, RenderAll(more) + rest);
      RejectFields(Following(s, f), more, rest);
    }
  }

  predicate SendableAll(fs: seq<Field>) {
    forall f <- fs :: Sendable(f)
  }

  /** A message is accepted if and only if its numbers are plain digits with one sign and one point
      at most, and no group of it is empty. */
  lemma AcceptedIffReadable(fs: seq<Field>)
    requires SendableAll(fs)
    ensures Parse(RenderMessage(fs)).Some? <==> CleanAll(fs) && FullAll(fs)
  {
    if CleanAll(fs) && FullAll(fs) { ParseMessage(fs); }
    else {
      assert RenderMessage(fs) == ['{'] + (RenderAll(fs) + ['}']);
      GoOne(INITIAL, '{', RenderAll(fs) + ['}']);
      if fs == [] { assert "}" + "" == "}"; RejectEmpty(OPENED, ""); }
      else {
        assert exists f <- fs :: !Readable(f);
        RejectFields(OPENED, fs, "}");
      }
    }
  }
}
