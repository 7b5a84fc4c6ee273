/** Which texts the parser of connection/json.cpp accepts, and what it makes of them: messages with
    white space anywhere between their parts, and the beginnings of such messages. */
module JsonSpaces {
  import opened Json
  import opened JsonMessage
  import opened JsonTree
  import opened JsonRoundTrip

  /** What is written around the parts of a field, and of the fields in it if it is a group. */
  datatype Gaps = Gaps(before: string, beforeColon: string, afterColon: string, inside: seq<Gaps>, after: string)

  /** What the program takes for white space: space, tab, line feed, vertical tab, form feed, return. */
  predicate Blank(c: char) {
    c == ' ' || 9 <= c as int <= 13
  }

  predicate Blanks(gap: string) {
    forall c <- gap :: Blank(c)
  }

  /** The gaps are of the shape of the field, and blank. */
  predicate Around(f: Field, g: Gaps) {
    && Blanks(g.before) && Blanks(g.beforeColon) && Blanks(g.afterColon) && Blanks(g.after)
    && (f.Group? ==> AroundAll(f.fields, g.inside))
  }

  predicate AroundAll(fs: seq<Field>, gs: seq<Gaps>) {
    |fs| == |gs| && (fs == [] || (Around(fs[0], gs[0]) && AroundAll(fs[1..], gs[1..])))
  }

  function Body(f: Field, g: Gaps): string
    requires Around(f, g)
    decreases f, 0
  {
    match f
    case Text(_, value) => ['"'] + value + ['"']
    case Num(_, value) => value
    case Group(_, fields) => ['{'] + SpacedAll(fields, g.inside) + ['}']
  }

  /** A field with white space. */
  function Spaced(f: Field, g: Gaps): string
    requires Around(f, g)
    decreases f, 1
  {
    g.before + (['"'] + f.tag + ['"']) + g.beforeColon + [':'] + g.afterColon + Body(f, g) + g.after
  }

  function SpacedAll(fs: seq<Field>, gs: seq<Gaps>): string
    requires AroundAll(fs, gs)
    decreases fs
  {
    if fs == [] then ""
    else if |fs| == 1 then Spaced(fs[0], gs[0])
    else Spaced(fs[0], gs[0]) + [','] + SpacedAll(fs[1..], gs[1..])
  }

  /** A message with white space, also before and after it. */
  function SpacedMessage(before: string, fs: seq<Field>, gs: seq<Gaps>, after: string): string
    requires AroundAll(fs, gs)
  {
    before + ['{'] + SpacedAll(fs, gs) + ['}'] + after
  }

  // ----- reading it ------------------------------------------------------------------

  predicate Skips(mode: Mode) {
    mode == Start || mode == Tag0 || mode == Colon || mode == Param || mode == Comma || mode == End
  }

  lemma {:induction false} GoBlanks(s: State, gap: string, rest: string)
    requires Ready(s) && Skips(s.mode) && Blanks(gap)
    ensures Go(s, gap + rest) == Go(s, rest)
    decreases |gap|
  {
    if gap == "" { assert gap + rest == rest; }
    else {
      assert Blank(gap[0]) && gap + rest == [gap[0]] + (gap[1..] + rest);
      GoOne(s, gap[0], gap[1..] + rest);
      GoBlanks(s, gap[1..], rest);
    }
  }

  /** The tag and the colon. */
  lemma GoTag(s: State, f: Field, g: Gaps, rest: string)
    requires AtField(s) && QuoteFree(f.tag) && Blanks(g.before) && Blanks(g.beforeColon) && Blanks(g.afterColon)
    ensures Go(s, g.before + ((['"'] + f.tag + ['"']) + (g.beforeColon + ([':'] + (g.afterColon + rest))))) ==
        Go(Labelled(s, f.tag), rest)
  {
    var colon := g.beforeColon + ([':'] + (g.afterColon + rest));
    var s1, s2 := s.(mode := Tag), WithTail(s, Tail(s).(tag := f.tag)).(mode := Colon);
    GoBlanks(s, g.before, (['"'] + f.tag + ['"']) + colon);
    assert (['"'] + f.tag + ['"']) + colon == ['"'] + (f.tag + ("\"" + colon));
    GoOne(s, '"', f.tag + ("\"" + colon));
    GoTagChars(s1, f.tag, colon);
    assert Tail(s1).tag + f.tag == f.tag;
    GoBlanks(s2, g.beforeColon, [':'] + (g.afterColon + rest));
    GoOne(s2, ':', g.afterColon + rest);
    GoBlanks(Labelled(s, f.tag), g.afterColon, rest);
  }

  lemma SpacedParts(f: Field, g: Gaps, rest: string)
    requires Around(f, g)
    ensures Spaced(f, g) + rest ==
        g.before + ((['"'] + f.tag + ['"'])
          + (g.beforeColon + ([':'] + (g.afterColon + (Body(f, g) + (g.after + rest))))))
  {
  }

  /** The value of a field, read as the nodes laid out for it. */
  function AfterField(s: State, f: Field): State
    requires AtField(s)
  {
    Placed(s, Lay(f, s.tail, Tail(s).parent, -1), s.tail)
  }

  lemma GoTextBody(s: State, f: Field, g: Gaps, rest: string)
    requires AtField(s) && f.Text? && Clean(f) && Around(f, g)
    ensures Go(Labelled(s, f.tag), Body(f, g) + rest) == Go(AfterField(s, f), rest)
  {
    var s1 := Labelled(s, f.tag);
    var s2 := WithTail(s1, Tail(s1).(kind := Str)).(mode := Quoted);
    assert Body(f, g) + rest == ['"'] + (f.value + ("\"" + rest));
    GoOne(s1, '"', f.value + ("\"" + rest));
    GoTextChars(s2, f.value, rest);
    assert Tail(s2).text + f.value == f.value;
    assert WithTail(s2, Tail(s2).(text := f.value)).(mode := Comma) == AfterField(s, f);
  }

  /** A number and the character after it, which ends it and is read again. */
  lemma GoNumBody(s: State, f: Field, g: Gaps, c: char, rest: string)
    requires AtField(s) && f.Num? && Clean(f) && Around(f, g) && (Blank(c) || c == ',' || c == '}')
    ensures Go(Labelled(s, f.tag), Body(f, g) + ([c] + rest)) == Go(AfterField(s, f), [c] + rest)
  {
    var v, s1 := f.value, Labelled(s, f.tag);
    var s2 := WithTail(s1, Tail(s1).(kind := Integer, text := [v[0]])).(mode := Number);
    NumberInTwo(v, c, rest);
    NumberStarts(s1, v[0], (v[1..] + [c]) + rest);
    GoDigits(s2, v, c, rest);
    NumberPlaced(s, s1, s2, f);
  }

  lemma NumberInTwo(v: string, c: char, rest: string)
    requires v != ""
    ensures v + ([c] + rest) == [v[0]] + ((v[1..] + [c]) + rest)
  {
    assert v == [v[0]] + v[1..];
  }

  /** The digits after the first character. */
  lemma GoDigits(s: State, v: string, c: char, rest: string)
    requires HasTail(s) && s.mode == Number && v != "" && NumberTail(v[1..], false) && NumberEnd(c)
    requires Tail(s).kind == Integer && Tail(s).text == [v[0]]
    ensures Go(s, (v[1..] + [c]) + rest) ==
        Go(WithTail(s, Tail(s).(text := v, kind := NumberKind(v))).(mode := Comma), [c] + rest)
  {
    GoNumberChars(s, v[1..], c);
    assert [v[0]] + v[1..] == v;
    GoAppends(s, v[1..] + [c], rest);
    GoOne(WithTail(s, Tail(s).(text := v, kind := NumberKind(v))).(mode := Comma), c, rest);
  }

  lemma OpenGroup(s: State, tag: string, rest: string)
    requires AtField(s)
    ensures AtField(Opened(s, tag)) && Go(Labelled(s, tag), ['{'] + rest) == Go(Opened(s, tag), rest)
  {
    var s1 := Labelled(s, tag);
    GoOne(s1, '{', rest);
    assert Step(s1, '{').value == Opened(s, tag);
  }

  lemma GroupEnds(s: State, f: Field, rest: string)
    requires AtField(s) && f.Group? && f.fields != []
    ensures Go(Filled(Opened(s, f.tag), f.fields), ['}'] + rest) == Go(AfterField(s, f), rest)
  {
    CloseGroup(s, f);
    GoOne(Filled(Opened(s, f.tag), f.fields), '}', rest);
  }

  /** The comma takes the parser to the next field. */
  lemma GoComma(s: State, f: Field, rest: string)
    requires AtField(s)
    ensures Go(AfterField(s, f), [','] + rest) == Go(Following(s, f), rest)
  {
    NextField(s, f);
    GoOne(AfterField(s, f), ',', rest);
  }

  lemma {:induction false} GoSpaced(s: State, f: Field, g: Gaps, c: char, rest: string)
    requires AtField(s) && Readable(f) && Around(f, g) && (c == ',' || c == '}')
    ensures Go(s, Spaced(f, g) + ([c] + rest)) == Go(AfterField(s, f), [c] + rest)
    decreases f, 1
  {
    var more := g.after + ([c] + rest);
    SpacedParts(f, g, [c] + rest);
    GoTag(s, f, g, Body(f, g) + more);
    GoBody(s, f, g, more);
    GoBlanks(AfterField(s, f), g.after, [c] + rest);
  }

  lemma {:induction false} GoBody(s: State, f: Field, g: Gaps, rest: string)
    requires AtField(s) && Readable(f) && Around(f, g)
    requires rest != "" && (Blank(rest[0]) || rest[0] == ',' || rest[0] == '}')
    ensures Go(Labelled(s, f.tag), Body(f, g) + rest) == Go(AfterField(s, f), rest)
    decreases f, 0
  {
    match f
    case Text(_, _) => GoTextBody(s, f, g, rest);
    case Num(_, _) =>
      assert rest == [rest[0]] + rest[1..];
      GoNumBody(s, f, g, rest[0], rest[1..]);
    case Group(tag, fields) =>
      var inside := Opened(s, tag);
      assert Body(f, g) + rest == ['{'] + (SpacedAll(fields, g.inside) + (['}'] + rest));
      OpenGroup(s, tag, SpacedAll(fields, g.inside) + (['}'] + rest));
      assert forall h <- fields :: Readable(h);
      GoSpacedAll(inside, fields, g.inside, rest);
      GroupEnds(s, f, rest);
  }

  lemma SpacedInTwo(fs: seq<Field>, gs: seq<Gaps>, rest: string)
    requires |fs| > 1 && AroundAll(fs, gs)
    ensures SpacedAll(fs, gs) + rest == Spaced(fs[0], gs[0]) + ([','] + (SpacedAll(fs[1..], gs[1..]) + rest))
  {
  }

  lemma {:induction false} GoSpacedAll(s: State, fs: seq<Field>, gs: seq<Gaps>, rest: string)
    requires AtField(s) && fs != [] && AroundAll(fs, gs) && forall f <- fs :: Readable(f)
    ensures Go(s, SpacedAll(fs, gs) + (['}'] + rest)) == Go(Filled(s, fs), ['}'] + rest)
    decreases fs, 2
  {
    var f, more := fs[0], fs[1..];
    if more == [] {
      assert LayAll(fs, s.tail, Tail(s).parent) == Lay(f, s.tail, Tail(s).parent, -1);
      GoSpaced(s, f, gs[0], '}', rest);
    } else {
      var tail := SpacedAll(more, gs[1..]) + (['}'] + rest);
      SpacedInTwo(fs, gs, ['}'] + rest);
      GoSpaced(s, f, gs[0], ',', tail);
      GoComma(s, f, tail);
      GoSpacedAll(Following(s, f), more, gs[1..], rest);
      FilledFollows(s, fs);
    }
  }

  /** White space between any two parts of a message, and around it, changes nothing: the parser makes
      of it the nodes laid out for its fields. */
  lemma ParseSpaced(before: string, fs: seq<Field>, gs: seq<Gaps>, after: string)
    requires CleanAll(fs) && FullAll(fs) && AroundAll(fs, gs) && Blanks(before) && Blanks(after)
    ensures Parse(SpacedMessage(before, fs, gs, after)) == Some(State(End, LayAll(fs, 0, -1), -1, 0))
  {
    var rest := SpacedAll(fs, gs) + (['}'] + after);
    assert SpacedMessage(before, fs, gs, after) == before + (['{'] + rest);
    GoBlanks(INITIAL, before, ['{'] + rest);
    GoOne(INITIAL, '{', rest);
    assert forall f <- fs :: Readable(f);
    GoSpacedAll(OPENED, fs, gs, after);
    GoOne(Filled(OPENED, fs), '}', after);
    assert Front(OPENED) + LayAll(fs, 0, -1) == LayAll(fs, 0, -1);
    assert after + "" == after;
    GoBlanks(State(End, LayAll(fs, 0, -1), -1, 0), after, "");
  }

  // ----- nothing else is accepted ----------------------------------------------------

  /** The text takes the parser to the end of a message. */
  predicate ToEnd(s: State, text: string) {
    var t := Go(s, text);
    t.Some? && t.value.mode == End
  }

  lemma {:induction false} SplitBlanks(text: string) returns (gap: string, rest: string)
    ensures text == gap + rest && Blanks(gap) && (rest == "" || !Blank(rest[0]))
    decreases |text|
  {
    if text == "" || !Blank(text[0]) { gap, rest := "", text; }
    else {
      gap, rest := SplitBlanks(text[1..]);
      gap := [text[0]] + gap;
    }
  }

  lemma {:induction false} SplitQuote(text: string) returns (t: string, rest: string)
    ensures text == t + rest && QuoteFree(t) && (rest == "" || rest[0] == '"')
    decreases |text|
  {
    if text == "" || text[0] == '"' { t, rest := "", text; }
    else {
      t, rest := SplitQuote(text[1..]);
      t := [text[0]] + t;
    }
  }

  lemma {:induction false} StaysQuoted(s: State, text: string)
    requires HasTail(s) && (s.mode == Tag || s.mode == Quoted) && QuoteFree(text)
    ensures !ToEnd(s, text)
    decreases |text|
  {
    if text != "" {
      assert text[0] in text && QuoteFree(text[1..]);
      StaysQuoted(Step(s, text[0]).value, text[1..]);
    }
  }

  /** White space, and then the one character that goes on. */
  lemma Skipped(s: State, text: string) returns (gap: string, c: char, rest: string)
    requires Ready(s) && Skips(s.mode) && s.mode != End && ToEnd(s, text)
    ensures text == gap + ([c] + rest) && Blanks(gap) && !IsSpace(c)
    ensures Step(s, c).Some? && ToEnd(Step(s, c).value, rest)
  {
    var more;
    gap, more := SplitBlanks(text);
    GoBlanks(s, gap, more);
    c, rest := more[0], more[1..];
    assert more == [c] + rest;
    GoOne(s, c, rest);
  }

  /** A quoted string. */
  lemma UpToQuote(s: State, text: string) returns (t: string, rest: string)
    requires HasTail(s) && (s.mode == Tag || s.mode == Quoted) && ToEnd(s, text)
    ensures text == t + ("\"" + rest) && QuoteFree(t)
  {
    var more;
    t, more := SplitQuote(text);
    if more == "" {
      assert text == t;
      StaysQuoted(s, text);
    }
    rest := more[1..];
    assert more == "\"" + rest;
  }

  lemma {:induction false} UpToNumberEnd(s: State, text: string) returns (v: string, rest: string)
    requires HasTail(s) && s.mode == Number && (Tail(s).kind == Integer || Tail(s).kind == Real) && ToEnd(s, text)
    ensures text == v + rest && NumberTail(v, Tail(s).kind == Real) && rest != "" && NumberEnd(rest[0])
    decreases |text|
  {
    if NumberEnd(text[0]) { v, rest := "", text; }
    else {
      v, rest := UpToNumberEnd(Step(s, text[0]).value, text[1..]);
      v := [text[0]] + v;
      assert text == [text[0]] + text[1..];
    }
  }

  const NOGAPS := Gaps("", "", "", [], "")

  /** The value under a tag. */
  lemma {:induction false} InvertBody(s: State, tag: string, c: char, text: string)
    returns (f: Field, g: Gaps, rest: string)
    requires AtField(s) && QuoteFree(tag) && !IsSpace(c)
    requires Step(Labelled(s, tag), c).Some? && ToEnd(Step(Labelled(s, tag), c).value, text)
    ensures f.tag == tag && Readable(f) && Around(f, g) && [c] + text == Body(f, g) + rest
    ensures ToEnd(AfterField(s, f), rest)
    decreases |text|, 3
  {
    if c == '"' { f, g, rest := InvertText(s, tag, text); }
    else if c == '{' { f, g, rest := InvertGroup(s, tag, text); }
    else { f, g, rest := InvertNum(s, tag, c, text); }
  }

  lemma InvertText(s: State, tag: string, text: string) returns (f: Field, g: Gaps, rest: string)
    requires AtField(s) && QuoteFree(tag) && ToEnd(Step(Labelled(s, tag), '"').value, text)
    ensures f.tag == tag && Readable(f) && Around(f, g) && ['"'] + text == Body(f, g) + rest
    ensures ToEnd(AfterField(s, f), rest)
  {
    var value;
    value, rest := UpToQuote(Step(Labelled(s, tag), '"').value, text);
    f, g := Text(tag, value), NOGAPS;
    GoTextBody(s, f, g, rest);
    GoOne(Labelled(s, tag), '"', text);
    assert ['"'] + text == Body(f, g) + rest;
  }

  lemma InvertNum(s: State, tag: string, c: char, text: string) returns (f: Field, g: Gaps, rest: string)
    requires AtField(s) && QuoteFree(tag) && (IsDigit(c) || c == '-' || c == '+' || c == '.')
    requires ToEnd(Step(Labelled(s, tag), c).value, text)
    ensures f.tag == tag && Readable(f) && Around(f, g) && [c] + text == Body(f, g) + rest
    ensures ToEnd(AfterField(s, f), rest)
  {
    var v;
    v, rest := UpToNumberEnd(Step(Labelled(s, tag), c).value, text);
    f, g := Num(tag, [c] + v), NOGAPS;
    assert ([c] + v)[1..] == v && rest == [rest[0]] + rest[1..];
    assert [c] + text == Body(f, g) + rest;
    GoNumBody(s, f, g, rest[0], rest[1..]);
    assert Go(Labelled(s, tag), [c] + text) == Go(AfterField(s, f), rest);
    GoOne(Labelled(s, tag), c, text);
  }

  lemma {:induction false} InvertGroup(s: State, tag: string, text: string) returns (f: Field, g: Gaps, rest: string)
    requires AtField(s) && QuoteFree(tag) && ToEnd(Step(Labelled(s, tag), '{').value, text)
    ensures f.tag == tag && Readable(f) && Around(f, g) && ['{'] + text == Body(f, g) + rest
    ensures ToEnd(AfterField(s, f), rest)
    decreases |text|, 2
  {
    OpenGroup(s, tag, text);
    GoOne(Labelled(s, tag), '{', text);
    var fs, gs;
    fs, gs, rest := InvertAll(Opened(s, tag), text);
    f, g := Group(tag, fs), NOGAPS.(inside := gs);
    assert ['{'] + text == Body(f, g) + rest;
    GoSpacedAll(Opened(s, tag), fs, gs, rest);
    GroupEnds(s, f, rest);
  }

  /** A field, up to what ends it. */
  lemma {:induction false} InvertField(s: State, text: string) returns (f: Field, g: Gaps, c: char, rest: string)
    requires AtField(s) && ToEnd(s, text)
    ensures Readable(f) && Around(f, g) && (c == ',' || c == '}') && text == Spaced(f, g) + ([c] + rest)
    decreases |text|, 0
  {
    var before, c1, r1 := Skipped(s, text);
    var tag, r2 := UpToQuote(Step(s, c1).value, r1);
    GoTagChars(s.(mode := Tag), tag, r2);
    assert Tail(s).tag + tag == tag;
    var s2 := WithTail(s, Tail(s).(tag := tag)).(mode := Colon);
    var beforeColon, c2, r3 := Skipped(s2, r2);
    var afterColon, c3, r4 := Skipped(Labelled(s, tag), r3);
    var r5, inner;
    f, inner, r5 := InvertBody(s, tag, c3, r4);
    var after;
    after, c, rest := Skipped(AfterField(s, f), r5);
    g := Gaps(before, beforeColon, afterColon, inner.inside, after);
    assert Body(f, g) == Body(f, inner);
    Together(f, g, text, r1, r2, r3, r4, r5, c, rest);
  }

  lemma Together(f: Field, g: Gaps, text: string, r1: string, r2: string, r3: string, r4: string, r5: string,
                 c: char, rest: string)
    requires Around(f, g) && text == g.before + (['"'] + r1) && r1 == f.tag + ("\"" + r2)
    requires r2 == g.beforeColon + ([':'] + r3)
    requires exists d :: r3 == g.afterColon + ([d] + r4) && [d] + r4 == Body(f, g) + r5
    requires r5 == g.after + ([c] + rest)
    ensures text == Spaced(f, g) + ([c] + rest)
  {
    var d :| r3 == g.afterColon + ([d] + r4) && [d] + r4 == Body(f, g) + r5;
    SpacedParts(f, g, [c] + rest);
    assert (['"'] + f.tag + ['"']) + r2 == ['"'] + r1;
  }

  lemma {:induction false} InvertAll(s: State, text: string) returns (fs: seq<Field>, gs: seq<Gaps>, rest: string)
    requires AtField(s) && ToEnd(s, text)
    ensures fs != [] && AroundAll(fs, gs) && (forall f <- fs :: Readable(f))
    ensures text == SpacedAll(fs, gs) + (['}'] + rest)
    decreases |text|, 1
  {
    var f, g, c, more := InvertField(s, text);
    GoSpaced(s, f, g, c, more);
    if c == '}' {
      fs, gs, rest := [f], [g], more;
    } else {
      GoComma(s, f, more);
      fs, gs, rest := InvertAll(Following(s, f), more);
      OneMore(f, g, fs, gs, ['}'] + rest);
      fs, gs := [f] + fs, [g] + gs;
    }
  }

  lemma OneMore(f: Field, g: Gaps, fs: seq<Field>, gs: seq<Gaps>, rest: string)
    requires Around(f, g) && fs != [] && AroundAll(fs, gs)
    ensures AroundAll([f] + fs, [g] + gs)
    ensures SpacedAll([f] + fs, [g] + gs) + rest == Spaced(f, g) + ([','] + (SpacedAll(fs, gs) + rest))
  {
    assert ([f] + fs)[1..] == fs && ([g] + gs)[1..] == gs;
    SpacedInTwo([f] + fs, [g] + gs, rest);
  }

  lemma {:induction false} AllBlank(s: State, text: string)
    requires s.mode == End && Go(s, text).Some?
    ensures Blanks(text)
    decreases |text|
  {
    if text != "" {
      AllBlank(s, text[1..]);
      assert text == [text[0]] + text[1..];
    }
  }

  /** A text that takes the parser to the end of a message is a message with white space. */
  lemma InvertMessage(text: string) returns (before: string, fs: seq<Field>, gs: seq<Gaps>, after: string)
    requires ToEnd(INITIAL, text)
    ensures CleanAll(fs) && FullAll(fs) && AroundAll(fs, gs) && Blanks(before) && Blanks(after)
    ensures text == SpacedMessage(before, fs, gs, after)
  {
    var c, rest;
    before, c, rest := Skipped(INITIAL, text);
    fs, gs, after := InvertAll(OPENED, rest);
    GoSpacedAll(OPENED, fs, gs, after);
    GoOne(Filled(OPENED, fs), '}', after);
    AllBlank(Step(Filled(OPENED, fs), '}').value, after);
    assert forall f <- fs :: Readable(f);
  }

  // ----- beginnings ------------------------------------------------------------------

  /** The brackets that are left to close. */
  lemma {:induction false} CloseAll(s: State) returns (more: string)
    requires Inv(s) && s.mode == Comma
    ensures ToEnd(s, more) && more != "" && more[0] == '}'
    decreases s.nest
  {
    var t := Step(s, '}').value;
    StepKeepsInv(s, '}');
    assert NodeLinked(s.nodes, s.tail) && s.nest > 0;
    var rest := "";
    if t.mode == Comma { rest := CloseAll(t); }
    more := ['}'] + rest;
    GoOne(s, '}', rest);
  }

  lemma ThenClose(s: State, text: string) returns (more: string)
    requires Inv(s) && Go(s, text).Some? && Go(s, text).value.mode == Comma
    ensures ToEnd(s, more)
  {
    GoKeepsInv(s, text);
    var rest := CloseAll(Go(s, text).value);
    more := text + rest;
    GoAppends(s, text, rest);
  }

  /** What is read on from a value that is about to start. */
  lemma EmptyValue(s: State)
    requires HasTail(s)
    ensures s.mode == Param ==> Go(s, "\"\"").Some? && Go(s, "\"\"").value.mode == Comma
    ensures s.mode == Quoted ==> Go(s, "\"").Some? && Go(s, "\"").value.mode == Comma
  {
    assert "\"\"" == ['"'] + "\"" && "\"" == ['"'] + "";
    if s.mode == Param {
      GoOne(s, '"', "\"");
      GoOne(Step(s, '"').value, '"', "");
    }
    if s.mode == Quoted { GoOne(s, '"', ""); }
  }

  /** And from a tag. */
  lemma EmptyField(s: State)
    requires HasTail(s)
    ensures s.mode == Colon ==> Go(s, ":\"\"").Some? && Go(s, ":\"\"").value.mode == Comma
    ensures s.mode == Tag ==> Go(s, "\":\"\"").Some? && Go(s, "\":\"\"").value.mode == Comma
    ensures s.mode == Tag0 ==> Go(s, "\"\":\"\"").Some? && Go(s, "\"\":\"\"").value.mode == Comma
  {
    var value, tag := "\"\"", "\":\"\"";
    assert ":\"\"" == [':'] + value && tag == ['"'] + ":\"\"" && "\"\":\"\"" == ['"'] + tag;
    EmptyValue(s.(mode := Param));
    GoOne(s.(mode := Colon), ':', value);
    GoOne(s.(mode := Tag), '"', ":\"\"");
    if s.mode == Tag0 { GoOne(s, '"', tag); }
  }

  /** From whatever state the parser has come to, some text takes it to the end of a message. */
  lemma CanEnd(s: State) returns (more: string)
    requires Inv(s)
    ensures ToEnd(s, more)
  {
    match s.mode
    case End => more := "";
    case Start =>
      more := CanEndField(OPENED);
      GoOne(s, '{', more);
      more := ['{'] + more;
    case Comma => more := CloseAll(s);
    case Number => more := NumberCanEnd(s);
    case Param =>
      EmptyValue(s);
      more := ThenClose(s, "\"\"");
    case Quoted =>
      EmptyValue(s);
      more := ThenClose(s, "\"");
    case _ => more := CanEndField(s);
  }

  lemma CanEndField(s: State) returns (more: string)
    requires (Inv(s) || s == OPENED) && (s.mode == Tag0 || s.mode == Tag || s.mode == Colon)
    ensures ToEnd(s, more)
  {
    if s == OPENED {
      InitialInv();
      StepKeepsInv(INITIAL, '{');
    }
    EmptyField(s);
    match s.mode
    case Tag0 => more := ThenClose(s, "\"\":\"\"");
    case Tag => more := ThenClose(s, "\":\"\"");
    case Colon => more := ThenClose(s, ":\"\"");
  }

  lemma NumberCanEnd(s: State) returns (more: string)
    requires Inv(s) && s.mode == Number
    ensures ToEnd(s, more)
  {
    var t := s.(mode := Comma);
    more := CloseAll(t);
    assert more == ['}'] + more[1..];
    GoOne(s, '}', more[1..]);
    GoOne(t, '}', more[1..]);
  }

  /** The texts that are accepted: messages with white space, and the beginnings of such messages. */
  lemma AcceptedIff(text: string)
    ensures Parse(text).Some? <==>
              exists more, before, fs, gs, after ::
                IsMessage(text + more, before, fs, gs, after)
  {
    if Parse(text).Some? {
      ParsedIsTree(text);
      var more := CanEnd(Parse(text).value);
      GoAppends(INITIAL, text, more);
      var before, fs, gs, after := InvertMessage(text + more);
      assert IsMessage(text + more, before, fs, gs, after);
    }
    if more, before, fs, gs, after :| IsMessage(text + more, before, fs, gs, after) {
      ParseSpaced(before, fs, gs, after);
      GoAppends(INITIAL, text, more);
    }
  }

  /** The text is that of these fields with white space; numbers are plain digits, and no group is empty. */
  ghost predicate IsMessage(text: string, before: string, fs: seq<Field>, gs: seq<Gaps>, after: string) {
    && CleanAll(fs) && FullAll(fs) && AroundAll(fs, gs) && Blanks(before) && Blanks(after)
    && text == SpacedMessage(before, fs, gs, after)
  }

  /** A whole message is what takes the parser to its end, and the nodes are then those of its fields. */
  lemma WholeIff(text: string)
    ensures ToEnd(INITIAL, text) <==> exists before, fs, gs, after :: IsMessage(text, before, fs, gs, after)
    ensures forall before, fs, gs, after :: IsMessage(text, before, fs, gs, after) ==>
              Parse(text) == Some(State(End, LayAll(fs, 0, -1), -1, 0))
  {
    forall before, fs, gs, after | IsMessage(text, before, fs, gs, after)
      ensures Parse(text) == Some(State(End, LayAll(fs, 0, -1), -1, 0))
    {
      ParseSpaced(before, fs, gs, after);
    }
    if ToEnd(INITIAL, text) {
      var before, fs, gs, after := InvertMessage(text);
      assert IsMessage(text, before, fs, gs, after);
    }
  }
}
