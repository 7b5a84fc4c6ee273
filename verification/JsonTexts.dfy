/** What a text must be like for json::parse to accept it, and to read given fields out of it. */
module JsonTexts {
  import opened Json
  import opened JsonMessage
  import opened JsonTree
  import opened JsonRoundTrip
  import opened JsonImport

  // ----- text that ends early --------------------------------------------------------

  /** Every beginning of an accepted text is accepted. */
  lemma BeginningAccepted(text: string, more: string)
    requires Parse(text + more).Some?
    ensures Parse(text).Some?
  {
    GoAppends(INITIAL, text, more);
  }

  /** After the last brace only white space is read. */
  lemma {:induction false} EndStays(s: State, text: string)
    requires s.mode == End && Go(s, text).Some?
    ensures Go(s, text) == Some(s) && forall c <- text :: IsSpace(c)
    decreases |text|
  {
    if text != "" {
      EndStays(s, text[1..]);
      assert text == [text[0]] + text[1..];
    }
  }

  /** So every beginning of a printed message is accepted, and the parser has come to the end of a
      message in one of them only: the whole. It does not tell its caller. */
  lemma WholeIffAtEnd(fs: seq<Field>, k: nat)
    requires CleanAll(fs) && FullAll(fs) && k <= |RenderMessage(fs)|
    ensures var s := Parse(RenderMessage(fs)[..k]);
            s.Some? && (s.value.mode == End <==> k == |RenderMessage(fs)|)
  {
    var text := RenderMessage(fs);
    ParseMessage(fs);
    assert text[..k] + text[k..] == text;
    BeginningAccepted(text[..k], text[k..]);
    GoAppends(INITIAL, text[..k], text[k..]);
    var s := Parse(text[..k]).value;
    if s.mode == End && k < |text| {
      assert text[k..][|text| - 1 - k] == '}' && '}' in text[k..];
      EndStays(s, text[k..]);
    }
    if k == |text| { assert text[..k] == text; }
  }

  /** The brace that ends a message adds nothing to its nodes. */
  lemma LastBraceAddsNothing(text: string)
    requires Parse(text + "}").Some? && Parse(text + "}").value.mode == End
    ensures Parse(text).Some? && Parse(text).value.nodes == Parse(text + "}").value.nodes
  {
    GoAppends(INITIAL, text, "}");
    assert "}" == ['}'] + "";
    GoOne(Parse(text).value, '}', "");
  }

  // ----- what the nodes can hold -----------------------------------------------------

  /** No tag and no text has a quote in it, and what is typed as a number reads as one. */
  predicate Plausible(n: Node) {
    && QuoteFree(n.tag) && QuoteFree(n.text)
    && (n.kind == Void ==> n.text == "")
    && (n.kind == Integer || n.kind == Real ==> NumberText(n.text) && NumberKind(n.text) == n.kind)
  }

  ghost predicate AllPlausible(nodes: seq<Node>) {
    forall i :: 0 <= i < |nodes| ==> Plausible(nodes[i])
  }

  lemma {:induction false} TailGrows(v: string, point: bool, c: char)
    requires NumberTail(v, point) && (IsDigit(c) || (c == '.' && !point && '.' !in v))
    ensures NumberTail(v + [c], point)
    decreases |v|
  {
    if v == "" { assert v + [c] == [c] && [c][1..] == ""; }
    else {
      assert (v + [c])[0] == v[0] && (v + [c])[1..] == v[1..] + [c];
      assert forall d <- v[1..] :: d in v;
      TailGrows(v[1..], point || v[0] == '.', c);
    }
  }

  /** One more character of a number. */
  lemma NumberGrows(v: string, c: char)
    requires NumberText(v) && (IsDigit(c) || (c == '.' && NumberKind(v) == Integer))
    ensures NumberText(v + [c]) && NumberKind(v + [c]) == (if c == '.' then Real else NumberKind(v))
  {
    assert (v + [c])[1..] == v[1..] + [c];
    TailGrows(v[1..], false, c);
  }

  lemma WriteIsPlausible(s: State, n: Node)
    requires HasTail(s) && AllPlausible(s.nodes) && Plausible(n)
    ensures AllPlausible(WithTail(s, n).nodes)
  {
  }

  lemma QuoteFreeGrows(t: string, c: char)
    requires QuoteFree(t) && c != '"'
    ensures QuoteFree(t + [c])
  {
  }

  predicate Fresh(mode: Mode) {
    mode != Quoted && mode != Number && mode != Comma && mode != End
  }

  /** What is read besides: an item under way has no text before its value. */
  ghost predicate Sensible(s: State) {
    && AllPlausible(s.nodes)
    && (HasTail(s) && Fresh(s.mode) ==> Tail(s).kind == Void)
    && (HasTail(s) && s.mode == Quoted ==> Tail(s).kind == Str)
    && (HasTail(s) && s.mode == Number ==> Tail(s).kind == Integer || Tail(s).kind == Real)
  }

  lemma StepIsSensible(s: State, c: char)
    requires Ready(s) && Sensible(s) && Step(s, c).Some?
    ensures Sensible(Step(s, c).value)
  {
    var t := Step(s, c).value;
    match s.mode
    case Tag =>
      if c != '"' {
        QuoteFreeGrows(Tail(s).tag, c);
        WriteIsPlausible(s, Tail(t));
      }
    case Param =>
      if IsSpace(c) || c == '{' {
      } else if c == '"' {
        WriteIsPlausible(s, Tail(t));
      } else {
        assert Tail(t).text == [c] && [c][1..] == "";
        WriteIsPlausible(s, Tail(t));
      }
    case Quoted =>
      if c != '"' {
        QuoteFreeGrows(Tail(s).text, c);
        WriteIsPlausible(s, Tail(t));
      }
    case Number =>
      if !NumberEnd(c) {
        NumberGrows(Tail(s).text, c);
        QuoteFreeGrows(Tail(s).text, c);
        WriteIsPlausible(s, Tail(t));
      }
    case _ =>
  }

  lemma {:induction false} GoIsSensible(s: State, text: string)
    requires Sensible(s) && Go(s, text).Some?
    ensures Sensible(Go(s, text).value)
    decreases |text|
  {
    if text != "" {
      StepIsSensible(s, text[0]);
      GoIsSensible(Step(s, text[0]).value, text[1..]);
    }
  }

  // ----- what fields can be read out of a text ---------------------------------------

  /** The text is parsed to exactly these fields. */
  ghost predicate Understood(text: string, fs: seq<Field>) {
    var s := Parse(text);
    s.Some? && Inv(s.value) && Decode(s.value.nodes, 0) == ExpectedAll(fs)
  }

  lemma {:induction false} DecodedIsReadable(nodes: seq<Node>, i: nat, fs: seq<Field>)
    requires Linked(nodes) && i < |nodes| && AllPlausible(nodes) && Decode(nodes, i) == ExpectedAll(fs)
    ensures CleanAll(fs) && FullAll(fs)
    decreases |nodes| - i
  {
    assert NodeLinked(nodes, i);
    assert fs != [];
    var n, f, more := nodes[i], fs[0], fs[1..];
    assert Decode(nodes, i)[0] == Expected(f);
    assert Decode(nodes, i)[1..] == ExpectedAll(more);
    if f.Group? { DecodedIsReadable(nodes, n.list, f.fields); }
    if n.next != -1 { DecodedIsReadable(nodes, n.next, more); }
    assert fs == [f] + more;
    assert Readable(f);
  }

  /** Whatever the text is and wherever it ends: fields can be read out of it only if no tag and no
      string of them has a quote in it, no number an exponent, and no group is empty. */
  lemma UnderstoodIsReadable(text: string, fs: seq<Field>)
    requires Understood(text, fs)
    ensures CleanAll(fs) && FullAll(fs)
  {
    assert Sensible(INITIAL);
    GoIsSensible(INITIAL, text);
    DecodedIsReadable(Parse(text).value.nodes, 0, fs);
  }

  /** A printed message of any fields is understood if and only if they are of that kind. */
  lemma UnderstoodIffReadable(fs: seq<Field>)
    ensures Understood(RenderMessage(fs), fs) <==> CleanAll(fs) && FullAll(fs)
  {
    if CleanAll(fs) && FullAll(fs) { RoundTrip(fs); }
    if Understood(RenderMessage(fs), fs) { UnderstoodIsReadable(RenderMessage(fs), fs); }
  }

  /** A string with quotes in it, printed as it is, is read as something else: a message of one
      field that is accepted as a message of two. */
  lemma QuotedStringIsMisread()
    ensures var one := [Text("a", "x\", \"b\": \"y")];
            var two := [Text("a", "x"), Text("b", "y")];
            && RenderMessage(one) == RenderMessage(two)
            && Understood(RenderMessage(one), two) && !Understood(RenderMessage(one), one)
  {
    var one, two := [Text("a", "x\", \"b\": \"y")], [Text("a", "x"), Text("b", "y")];
    assert two[1..] == [Text("b", "y")];
    assert RenderMessage(one) == "{\"a\": \"x\", \"b\": \"y\"}" == RenderMessage(two);
    UnderstoodIffReadable(two);
    UnderstoodIffReadable(one);
    assert one[0].value[1] == '"';
    assert one[0] in one && !Clean(one[0]);
  }
}
