/** The tokenizer of connection/jsmn.c takes exactly the texts of the grammar, and finds in them
    exactly the tokens laid out for them; and what it answers when there is not room enough, or the
    text is cut off. */
module JsmnTexts {
  import opened Jsmn
  import opened JsmnResume
  import opened JsmnForest
  import opened JsmnForms
  import opened JsmnGrammar

  /** The text, up to its terminating NUL, is that of these values, each word ended. */
  ghost predicate IsText(js: string, items: seq<Item>, last: string) {
    var n := |PrintItems(items)| + |last|;
    && Fillers(last) && GoodItems(items, last)
    && n <= |js| && js[..n] == PrintItems(items) + last && At(js, n) == '\0'
  }

  /** Such a text is tokenized whole: the tokens are those laid out for its values. */
  lemma Tokenized(js: string, cap: nat, scan: bool, items: seq<Item>, last: string)
    requires IsText(js, items, last) && CountItems(items) <= cap
    ensures Run(js, cap, scan, INITIAL) ==
              (Success, State(|PrintItems(items)| + |last|, -1, LayItems(items, 0, 0, -1)))
  {
    var n := |PrintItems(items)| + |last|;
    var t := AfterItems(INITIAL, items).(pos := n);
    assert Comes(js, cap, scan, t) by { ComesToEnd(js, cap, scan, items, last, t); }
    FromTheStart(items, n);
    Ends(js, cap, scan, t);
  }

  lemma InThree(a: string, b: string, c: string)
    ensures (a + b) + c == a + (b + c)
  {
  }

  lemma ComesToEnd(js: string, cap: nat, scan: bool, items: seq<Item>, last: string, t: State)
    requires IsText(js, items, last) && CountItems(items) <= cap
    requires t == AfterItems(INITIAL, items).(pos := |PrintItems(items)| + |last|)
    ensures Comes(js, cap, scan, t)
  {
    GoodBefore(items, last, js[t.pos..]);
    SplitAt(js, 0, PrintItems(items) + last);
    InThree(PrintItems(items), last, js[t.pos..]);
    assert Nth(js, cap, scan, 0) == Go(INITIAL);
    ReadItems(js, cap, scan, INITIAL, items, last, js[t.pos..], t);
  }

  lemma FromTheStart(items: seq<Item>, n: nat)
    ensures AfterItems(INITIAL, items).(pos := n) == State(n, -1, LayItems(items, 0, 0, -1))
  {
    assert [] + LayItems(items, 0, 0, -1) == LayItems(items, 0, 0, -1);
  }

  /** Where nothing is open, the end of the text is a success. */
  lemma Ends(js: string, cap: nat, scan: bool, t: State)
    requires Comes(js, cap, scan, t) && t.toksuper == -1 && At(js, t.pos) == '\0'
    ensures Run(js, cap, scan, INITIAL) == (Success, t)
  {
    ComesTo(js, cap, scan, t);
    SuperIsLastOpen(js, t);
  }

  // ----- and nothing else ------------------------------------------------------------

  lemma {:induction false} PartsFound(js: string, p: nat) returns (parts: seq<Part>)
    requires ScanString(js, p).Found?
    ensures GoodParts(parts) && js[p..ScanString(js, p).end] == Inner(parts)
    decreases |js| - p
  {
    if js[p] == '"' { parts := []; }
    else {
      var skip := if js[p] == '\\' then 2 else 1;
      var more := PartsFound(js, p + skip);
      var first := if js[p] == '\\' then Escape(js[p + 1]) else Plain(js[p]);
      parts := [first] + more;
      assert parts[1..] == more;
      assert js[p..ScanString(js, p).end] == js[p..p + skip] + js[p + skip..ScanString(js, p).end];
    }
  }

  /** The text from `s` on begins with this value, and there is room for its tokens. */
  ghost predicate Begins(js: string, cap: nat, s: State, v: Value) {
    && GoodValue(v) && 0 < |Print(v)| <= |js| - s.pos && |s.toks| + Count(v) <= cap
    && js[s.pos..] == Print(v) + js[s.pos + |Print(v)|..]
    && (v.Word? ==> Ended(js[s.pos + |Print(v)|..]))
  }

  lemma BetweenQuotes(js: string, p: nat, e: nat)
    requires p < e < |js| && js[p] == js[e] == '"'
    ensures js[p..e + 1] == ['"'] + js[p + 1..e] + ['"']
  {
  }

  /** A step over a word or a string, read as a value. */
  lemma StringFound(js: string, cap: nat, s: State) returns (v: Value)
    requires Linked(s) && At(js, s.pos) == '"' && Step(js, cap, false, s).Go?
    ensures !v.Box? && Begins(js, cap, s, v)
  {
    var e := ScanString(js, s.pos + 1).end;
    var parts := PartsFound(js, s.pos + 1);
    v := Quoted(parts);
    BetweenQuotes(js, s.pos, e);
    SplitAt(js, s.pos, Print(v));
  }

  lemma WordFound(js: string, cap: nat, s: State) returns (v: Value)
    requires Linked(s) && At(js, s.pos) != '\0' && PrimitiveStart(js[s.pos]) && Step(js, cap, false, s).Go?
    ensures !v.Box? && Begins(js, cap, s, v)
  {
    var e := ScanPrimitive(js, s.pos).end;
    v := Word(js[s.pos..e]);
    assert forall k :: 0 <= k < |v.text| ==> v.text[k] == js[s.pos + k];
    SplitAt(js, s.pos, v.text);
  }

  lemma SplitAt(js: string, p: nat, text: string)
    requires p + |text| <= |js| && js[p..p + |text|] == text
    ensures js[p..] == text + js[p + |text|..]
  {
  }

  /** What is read from `s` up to a closing bracket or the end. */
  ghost predicate Inverts(js: string, cap: nat, s: State, items: seq<Item>, last: string, t: State)
    requires Linked(s)
  {
    && s.pos <= t.pos <= |js| && Fillers(last) && GoodItems(items, last + js[t.pos..])
    && js[s.pos..] == PrintItems(items) + (last + js[t.pos..])
    && |s.toks| + CountItems(items) <= cap
    && t == AfterItems(s, items).(pos := t.pos)
    && (At(js, t.pos) == '\0' || Closer(js[t.pos]))
  }

  lemma InvertsComes(js: string, cap: nat, s: State, items: seq<Item>, last: string, t: State)
    requires Comes(js, cap, true, s) && Linked(s) && Inverts(js, cap, s, items, last, t)
    ensures Comes(js, cap, true, t)
  {
    assert |js[s.pos..]| == |PrintItems(items)| + |last| + |js[t.pos..]|;
    ReadItems(js, cap, true, s, items, last, js[t.pos..], t);
  }

  lemma InvertFiller(js: string, cap: nat, s: State, items: seq<Item>, last: string, t: State)
    returns (items': seq<Item>, last': string)
    requires Linked(s) && s.pos < |js| && Filler(js[s.pos])
    requires Inverts(js, cap, s.(pos := s.pos + 1), items, last, t)
    ensures Inverts(js, cap, s, items', last', t)
  {
    assert js[s.pos..] == [js[s.pos]] + js[s.pos + 1..];
    if items == [] {
      items', last' := [], [js[s.pos]] + last;
    } else {
      items', last' := items[0 := items[0].(gap := [js[s.pos]] + items[0].gap)], last;
      assert items'[1..] == items[1..];
    }
  }

  lemma InvertValue(js: string, cap: nat, s: State, v: Value, items: seq<Item>, last: string, t: State)
    requires Linked(s) && Begins(js, cap, s, v)
    requires Linked(AfterValue(s, v)) && Inverts(js, cap, AfterValue(s, v), items, last, t)
    ensures Inverts(js, cap, s, [Item("", v)] + items, last, t)
  {
    var all := [Item("", v)] + items;
    assert all[1..] == items && s.(pos := s.pos + |""|) == s;
    ItemsInTwo(s, all, s, AfterValue(s, v));
    FirstOf(all, last + js[t.pos..]);
  }

  /** The run has come to this state, and succeeds. */
  ghost predicate Succeeds(js: string, cap: nat, s: State) {
    Comes(js, cap, true, s) && Run(js, cap, true, INITIAL).0 == Success
  }

  /** So it takes a step from there, unless it is at the end. */
  lemma StepsOn(js: string, cap: nat, s: State)
    requires Succeeds(js, cap, s) && At(js, s.pos) != '\0'
    ensures Linked(s) && Step(js, cap, false, s).Go? && (Closer(js[s.pos]) ==> s.toksuper != -1)
  {
    ComesTo(js, cap, true, s);
    SameStep(js, cap, s);
    if Closer(js[s.pos]) { SuperIsLastOpen(js, s); }
  }

  /** A run that succeeds has read values up to a closing bracket, if there is one, that closes what
      was open at the start. */
  lemma {:induction false} Invert(js: string, cap: nat, s: State)
    returns (items: seq<Item>, last: string, t: State)
    requires Succeeds(js, cap, s) && Linked(s) && s.pos <= |js| && |s.toks| <= cap
    ensures Inverts(js, cap, s, items, last, t)
    decreases |js| - s.pos, 2
  {
    if At(js, s.pos) == '\0' || Closer(js[s.pos]) {
      items, last, t := [], "", s;
      assert "" + ("" + js[s.pos..]) == js[s.pos..];
      assert AfterItems(s, []) == s;
    } else if Filler(js[s.pos]) {
      StepsOn(js, cap, s);
      OneStep(js, cap, true, s, s.(pos := s.pos + 1));
      items, last, t := Invert(js, cap, s.(pos := s.pos + 1));
      items, last := InvertFiller(js, cap, s, items, last, t);
    } else {
      var v := InvertOne(js, cap, s);
      ReadValue(js, cap, true, s, v, js[s.pos + |Print(v)|..], AfterValue(s, v));
      ComesLinked(js, cap, true, AfterValue(s, v));
      items, last, t := Invert(js, cap, AfterValue(s, v));
      InvertValue(js, cap, s, v, items, last, t);
      items := [Item("", v)] + items;
    }
  }

  lemma {:induction false} InvertOne(js: string, cap: nat, s: State) returns (v: Value)
    requires Succeeds(js, cap, s) && Linked(s) && s.pos <= |js| && |s.toks| <= cap
    requires At(js, s.pos) != '\0' && !Closer(js[s.pos]) && !Filler(js[s.pos])
    ensures Begins(js, cap, s, v)
    decreases |js| - s.pos, 1
  {
    StepsOn(js, cap, s);
    if js[s.pos] == '{' { v := InvertBox(js, cap, s, Object); }
    else if js[s.pos] == '[' { v := InvertBox(js, cap, s, Array); }
    else if js[s.pos] == '"' { v := StringFound(js, cap, s); }
    else { v := WordFound(js, cap, s); }
  }

  lemma {:induction false} InvertBox(js: string, cap: nat, s: State, kind: TokenType) returns (v: Value)
    requires Succeeds(js, cap, s) && Linked(s) && s.pos < |js| && |s.toks| < cap
    requires Container(kind) && At(js, s.pos) == Opening(kind)
    ensures Begins(js, cap, s, v)
    decreases |js| - s.pos, 0
  {
    var open := Opened(s, kind);
    OpenBox(js, cap, true, s, kind);
    ComesLinked(js, cap, true, open);
    var items, last, t := Invert(js, cap, open);
    v := Box(kind, items, last);
    InvertsComes(js, cap, open, items, last, t);
    BoxClosed(js, cap, t, kind, |s.toks|);
    BoxFound(js, s, v, t);
  }

  /** An open container is closed by a bracket of its own kind. */
  lemma BoxClosed(js: string, cap: nat, t: State, kind: TokenType, n: nat)
    requires Succeeds(js, cap, t) && t.toksuper == n < |t.toks| && t.toks[n].kind == kind && Container(kind)
    requires At(js, t.pos) == '\0' || Closer(js[t.pos])
    ensures At(js, t.pos) == Closing(kind)
  {
    ComesTo(js, cap, true, t);
    SuperIsLastOpen(js, t);
    if At(js, t.pos) != '\0' { StepsOn(js, cap, t); }
  }

  lemma BoxFound(js: string, s: State, v: Value, t: State)
    requires Linked(s) && v.Box? && Container(v.kind) && At(js, s.pos) == Opening(v.kind)
    requires s.pos < t.pos < |js| && js[t.pos] == Closing(v.kind) && Fillers(v.last)
    requires GoodItems(v.items, v.last + js[t.pos..])
    requires js[s.pos + 1..] == PrintItems(v.items) + (v.last + js[t.pos..])
    ensures GoodValue(v) && s.pos + |Print(v)| == t.pos + 1
    ensures js[s.pos..] == Print(v) + js[s.pos + |Print(v)|..]
  {
    assert |js[s.pos + 1..]| == |js| - s.pos - 1;
    assert js[t.pos..] == [Closing(v.kind)] + js[t.pos + 1..];
    BoxText(v, js[t.pos + 1..]);
    assert js[s.pos..] == [js[s.pos]] + js[s.pos + 1..];
    GoodEnded(v.items, v.last + js[t.pos..], v.last + [Closing(v.kind)]);
  }

  /** Only the first character after the values matters. */
  lemma GoodEnded(items: seq<Item>, rest: string, end: string)
    requires GoodItems(items, rest) && rest != "" && end != "" && rest[0] == end[0]
    ensures GoodItems(items, end)
  {
    if items != [] { GoodEnded(items[1..], rest, end); }
  }

  /** The build without parent links takes a text, with room for its tokens, if and only if it is one
      of the grammar. */
  lemma TakenIff(js: string, cap: nat)
    ensures Run(js, cap, true, INITIAL).0 == Success <==>
              exists items, last :: IsText(js, items, last) && CountItems(items) <= cap
  {
    if Run(js, cap, true, INITIAL).0 == Success { var items, last := Taken(js, cap); }
    if items, last :| IsText(js, items, last) && CountItems(items) <= cap { Tokenized(js, cap, true, items, last); }
  }

  lemma Taken(js: string, cap: nat) returns (items: seq<Item>, last: string)
    requires Run(js, cap, true, INITIAL).0 == Success
    ensures IsText(js, items, last) && CountItems(items) <= cap
  {
    var t;
    assert Nth(js, cap, true, 0) == Go(INITIAL);
    items, last, t := Invert(js, cap, INITIAL);
    InvertsComes(js, cap, INITIAL, items, last, t);
    if At(js, t.pos) != '\0' { StepsOn(js, cap, t); }
    WholeText(js, cap, items, last, t);
  }

  lemma WholeText(js: string, cap: nat, items: seq<Item>, last: string, t: State)
    requires Inverts(js, cap, INITIAL, items, last, t) && At(js, t.pos) == '\0'
    ensures IsText(js, items, last) && CountItems(items) <= cap
  {
    assert js[0..] == js;
    GoodAtEnd(items, last, js[t.pos..]);
    assert js == (PrintItems(items) + last) + js[t.pos..];
    assert |js| == |PrintItems(items)| + |last| + |js[t.pos..]|;
  }

  /** The end of a text ends no word. */
  lemma GoodAtEnd(items: seq<Item>, last: string, rest: string)
    requires GoodItems(items, last + rest) && (rest == "" || rest[0] == '\0')
    ensures GoodItems(items, last)
  {
    if items != [] {
      GoodAtEnd(items[1..], last, rest);
      assert PrintItems(items[1..]) + (last + rest) == (PrintItems(items[1..]) + last) + rest;
    }
  }

  /** So does the other build, but for closing brackets that close nothing. */
  lemma TakenWithLinksIff(js: string, cap: nat)
    requires !StrayAhead(js, cap, 0, [], 0)
    ensures Run(js, cap, false, INITIAL).0 == Success <==>
              exists items, last :: IsText(js, items, last) && CountItems(items) <= cap
  {
    FormsAgreeOnText(js, cap);
    TakenIff(js, cap);
  }

  // ----- room for the tokens ---------------------------------------------------------

  lemma StepRoom(js: string, cap: nat, more: nat, scan: bool, s: State)
    requires Linked(s) && At(js, s.pos) != '\0' && |s.toks| <= cap <= more
    ensures var o, p := Step(js, more, scan, s), Step(js, cap, scan, s);
            && (o.Go? ==> |s.toks| <= |o.next.toks| <= more)
            && (o.Go? && |o.next.toks| > cap ==> p == Halt(NoMem) && |s.toks| == cap)
            && (o.Halt? || |o.next.toks| <= cap ==> p == o)
  {
  }

  lemma {:induction false} TokensStay(js: string, cap: nat, scan: bool, s: State)
    requires Linked(s) && |s.toks| <= cap
    ensures |s.toks| <= |Run(js, cap, scan, s).1.toks| <= cap
    decreases |js| - s.pos
  {
    if At(js, s.pos) != '\0' {
      StepRoom(js, cap, cap, scan, s);
      var o := Step(js, cap, scan, s);
      if o.Go? { TokensStay(js, cap, scan, o.next); }
    }
  }

  /** Less room changes a run only if it needs more: then it stops when the room is full. */
  lemma {:induction false} RoomDecides(js: string, cap: nat, more: nat, scan: bool, s: State)
    requires Linked(s) && |s.toks| <= cap <= more
    ensures var r, q := Run(js, more, scan, s), Run(js, cap, scan, s);
            if |r.1.toks| > cap then q.0 == NoMem && |q.1.toks| == cap else q == r
    decreases |js| - s.pos
  {
    if At(js, s.pos) != '\0' {
      StepRoom(js, cap, more, scan, s);
      var o := Step(js, more, scan, s);
      if o.Go? {
        TokensStay(js, more, scan, o.next);
        if |o.next.toks| <= cap { RoomDecides(js, cap, more, scan, o.next); }
      }
    }
  }

  /** With less room than a text has tokens, the answer is that there is not enough. */
  lemma TooLittleRoom(js: string, cap: nat, scan: bool, items: seq<Item>, last: string)
    requires IsText(js, items, last) && cap < CountItems(items)
    ensures Run(js, cap, scan, INITIAL).0 == NoMem
  {
    Tokenized(js, CountItems(items), scan, items, last);
    RoomDecides(js, cap, CountItems(items), scan, INITIAL);
  }

  // ----- what can still become a text -------------------------------------------------

  lemma {:induction false} BadString(a: string, b: string, p: nat)
    requires '\0' !in a && ScanString(a, p) == BadChar
    ensures ScanString(a + b, p) == BadChar || (a != "" && a[|a| - 1] == '\\')
    decreases |a| - p
  {
    assert (a + b)[p] == a[p];
    if a[p] == '\\' {
      if p + 1 < |a| { assert (a + b)[p + 1] == a[p + 1] && a[p + 1] in a; }
      if Escapable(At(a, p + 1)) { BadString(a, b, p + 2); }
    } else {
      BadString(a, b, p + 1);
    }
  }

  lemma {:induction false} BadWord(a: string, b: string, p: nat)
    requires ScanPrimitive(a, p) == BadChar
    ensures ScanPrimitive(a + b, p) == BadChar
    decreases |a| - p
  {
    assert (a + b)[p] == a[p];
    if Printable(a[p]) { BadWord(a, b, p + 1); }
  }

  /** A text that is refused as invalid stays so with whatever text after it, unless it ends in a
      backslash. */
  lemma {:induction false} InvalidStays(a: string, b: string, cap: nat, more: nat, scan: bool, s: State)
    requires Linked(s) && '\0' !in a && cap <= more && Run(a, cap, scan, s).0 == Inval
    ensures Run(a + b, more, scan, s).0 == Inval || (a != "" && a[|a| - 1] == '\\')
    decreases |a| - s.pos
  {
    var c := a[s.pos];
    assert (a + b)[s.pos] == c;
    if Step(a, cap, scan, s).Go? {
      StepExtends(a, b, cap, more, scan, s);
      InvalidStays(a, b, cap, more, scan, Step(a, cap, scan, s).next);
    } else if c == '"' {
      BadString(a, b, s.pos + 1);
    } else if PrimitiveStart(c) {
      BadWord(a, b, s.pos);
    }
  }

  lemma CloserStep(js: string, cap: nat, s: State)
    requires Forest(js, s) && s.toksuper >= 0 && At(js, s.pos) == Closing(s.toks[s.toksuper].kind)
    ensures Container(s.toks[s.toksuper].kind)
    ensures var o := Step(js, cap, false, s);
            o.Go? && o.next.pos == s.pos + 1 && o.next.toksuper == s.toks[s.toksuper].parent < s.toksuper
  {
    assert SpanInText(js, s.pos, s.toks[s.toksuper]);
    SuperIsLastOpen(js, s);
  }

  lemma ForestOnLonger(a: string, b: string, s: State)
    requires Forest(a, s)
    ensures Forest(a + b, s)
  {
    forall i | 0 <= i < |s.toks| ensures SpanInText(a + b, s.pos, s.toks[i]) {
      assert SpanInText(a, s.pos, s.toks[i]);
    }
  }

  lemma CloseOne(a: string, cap: nat, s: State) returns (c: string, t: State)
    requires Forest(a, s) && s.pos == |a| && s.toksuper >= 0
    ensures Forest(a + c, t) && t.pos == |a + c| && -1 <= t.toksuper < s.toksuper
    ensures At(a + c, s.pos) != '\0' && Step(a + c, cap, false, s) == Go(t)
  {
    c := [Closing(s.toks[s.toksuper].kind)];
    ForestOnLonger(a, c, s);
    CloserStep(a + c, cap, s);
    ForestStep(a + c, cap, s);
    t := Step(a + c, cap, false, s).next;
  }

  lemma StepThenRun(a: string, b: string, cap: nat, s: State, t: State)
    requires Linked(s) && At(a, s.pos) != '\0' && Step(a, cap, false, s) == Go(t)
    ensures Linked(t) && Run(a + b, cap, false, s) == Run(a + b, cap, false, t)
  {
    StepExtends(a, b, cap, cap, false, s);
  }

  lemma NothingOpen(a: string, cap: nat, s: State)
    requires Forest(a, s) && s.pos == |a| && s.toksuper == -1
    ensures Run(a + "", cap, false, s).0 == Success
  {
    assert a + "" == a;
    SuperIsLastOpen(a, s);
  }

  /** From the end of a text, the brackets that are missing. */
  lemma {:induction false} CanClose(a: string, cap: nat, s: State) returns (b: string)
    requires Forest(a, s) && s.pos == |a|
    ensures Run(a + b, cap, false, s).0 == Success
    decreases s.toksuper
  {
    if s.toksuper == -1 {
      b := "";
      NothingOpen(a, cap, s);
    } else {
      var c, t := CloseOne(a, cap, s);
      var rest := CanClose(a + c, cap, t);
      b := c + rest;
      InThree(a, c, rest);
      StepThenRun(a + c, rest, cap, s, t);
    }
  }

  lemma {:induction false} UnendedString(a: string, p: nat)
    requires '\0' !in a && p <= |a| && ScanString(a, p) == RanOut
    ensures ScanString(a + "\"", p) == Found(|a|)
    decreases |a| - p
  {
    if p < |a| {
      assert a[p] in a && (a + "\"")[p] == a[p];
      if a[p] == '\\' {
        assert p + 1 < |a| && (a + "\"")[p + 1] == a[p + 1];
        UnendedString(a, p + 2);
      } else { UnendedString(a, p + 1); }
    }
  }

  lemma {:induction false} UnendedWord(a: string, p: nat)
    requires '\0' !in a && p <= |a| && ScanPrimitive(a, p) == RanOut
    ensures ScanPrimitive(a + " ", p) == Found(|a|)
    decreases |a| - p
  {
    if p < |a| {
      assert a[p] in a && (a + " ")[p] == a[p];
      UnendedWord(a, p + 1);
    }
  }

  /** Where a call has stopped for more text, one character ends the word or the string it stopped in. */
  lemma EndLeaf(a: string, cap: nat, s: State) returns (c: string, t: State)
    requires Forest(a, s) && '\0' !in a && s.pos < |a| && Step(a, cap, false, s) == Halt(Part)
    requires |s.toks| <= cap
    ensures Forest(a + c, t) && t.pos == |a + c| && Run(a + c, cap + 1, false, s) == Run(a + c, cap + 1, false, t)
  {
    assert a[s.pos] in a;
    if a[s.pos] == '"' {
      c := "\"";
      UnendedString(a, s.pos + 1);
    } else {
      c := " ";
      UnendedWord(a, s.pos);
    }
    assert (a + c)[s.pos] == a[s.pos];
    ForestOnLonger(a, c, s);
    ForestStep(a + c, cap + 1, s);
    t := Step(a + c, cap + 1, false, s).next;
    if c == " " {
      assert (a + c)[t.pos] == ' ';
      ForestStep(a + c, cap + 1, t);
      t := t.(pos := t.pos + 1);
    }
  }

  /** A call stops at the end of the text, or at a step that is not taken. */
  lemma {:induction false} StopsAt(a: string, cap: nat, scan: bool, s: State)
    requires Linked(s) && s.pos <= |a|
    ensures var (status, t) := Run(a, cap, scan, s);
            && t.pos <= |a|
            && if At(a, t.pos) == '\0' then status == Finish(t) else Step(a, cap, scan, t) == Halt(status)
    decreases |a| - s.pos
  {
    if At(a, s.pos) != '\0' && Step(a, cap, scan, s).Go? { StopsAt(a, cap, scan, Step(a, cap, scan, s).next); }
  }

  /** What two states have in common on a text they have on any longer one. */
  lemma {:induction false} RunOnLonger(a: string, b: string, cap: nat, s: State, t: State)
    requires Linked(s) && Linked(t) && Run(a, cap, false, s) == Run(a, cap, false, t)
    ensures Run(a + b, cap, false, s) == Run(a + b, cap, false, t)
  {
    Resumable(a, b, cap, cap, false, s);
    Resumable(a, b, cap, cap, false, t);
  }

  lemma EndOf(a: string)
    requires '\0' !in a
    ensures forall p: nat :: p < |a| ==> At(a, p) != '\0'
  {
    forall p: nat | p < |a| ensures At(a, p) != '\0' { assert a[p] in a; }
  }

  /** A text that stopped in a word or a string can be ended. */
  lemma LeafCanEnd(a: string, cap: nat, s: State) returns (b: string)
    requires Forest(a, s) && '\0' !in a && s.pos < |a| && Step(a, cap, false, s) == Halt(Part)
    requires |s.toks| <= cap
    ensures Run(a + b, cap + 1, false, s).0 == Success
  {
    var c, t := EndLeaf(a, cap, s);
    var rest := CanClose(a + c, cap + 1, t);
    b := c + rest;
    InThree(a, c, rest);
    RunOnLonger(a + c, rest, cap + 1, s, t);
  }

  lemma CanEnd(a: string, cap: nat, s: State) returns (b: string)
    requires Forest(a, s) && '\0' !in a && s.pos <= |a| && |s.toks| <= cap
    requires s.pos < |a| ==> Step(a, cap, false, s) == Halt(Part)
    ensures Run(a + b, cap + 1, false, s).0 == Success
  {
    if s.pos == |a| { b := CanClose(a, cap + 1, s); } else { b := LeafCanEnd(a, cap, s); }
  }

  lemma PartAt(a: string, cap: nat) returns (t: State)
    requires '\0' !in a && Run(a, cap, false, INITIAL).0 == Part
    ensures Run(a, cap, false, INITIAL).1 == t && Forest(a, t) && t.pos <= |a| && |t.toks| <= cap
    ensures t.pos < |a| ==> Step(a, cap, false, t) == Halt(Part)
  {
    t := Run(a, cap, false, INITIAL).1;
    ReachableIsForest(a, cap);
    TokensStay(a, cap, false, INITIAL);
    StopsAt(a, cap, false, INITIAL);
    EndOf(a);
  }

  /** A text of which more is asked for can be ended. */
  lemma PartCanEnd(a: string, cap: nat) returns (b: string, more: nat)
    requires '\0' !in a && Run(a, cap, false, INITIAL).0 == Part
    ensures cap <= more && Run(a + b, more, false, INITIAL).0 == Success
  {
    var t := PartAt(a, cap);
    more := cap + 1;
    b := CanEnd(a, cap, t);
    Resumable(a, b, cap, more, false, INITIAL);
  }

  /** What the answers mean, if there is room enough and the text does not end in a backslash: it can
      still become a text that is taken, with more text and more room, if and only if it is taken already
      or more is asked for. */
  lemma CanBecomeTextIff(a: string, cap: nat)
    requires '\0' !in a && (a != "" ==> a[|a| - 1] != '\\') && Run(a, cap, false, INITIAL).0 != NoMem
    ensures (exists b, more :: cap <= more && Run(a + b, more, false, INITIAL).0 == Success) <==>
              Run(a, cap, false, INITIAL).0 == Part || Run(a, cap, false, INITIAL).0 == Success
  {
    var status := Run(a, cap, false, INITIAL).0;
    if status == Part { var b, more := PartCanEnd(a, cap); }
    if status == Success { assert a + "" == a; }
    if status == Inval {
      forall b, more: nat | cap <= more ensures Run(a + b, more, false, INITIAL).0 == Inval {
        InvalidStays(a, b, cap, more, false, INITIAL);
      }
    }
  }

  lemma CutAfterBackslash(js: string)
    requires js == "[\"\\"
    ensures Run(js, 2, false, INITIAL).0 == Inval
  {
    assert ScanString(js, 2) == BadChar;
    var t := OpenBracket(2, INITIAL, Array).next;
    assert Step(js, 2, false, INITIAL) == Go(t) && Step(js, 2, false, t) == Halt(Inval);
  }

  lemma OneString(parts: seq<Part>) returns (items: seq<Item>)
    requires GoodParts(parts)
    ensures GoodItems(items, "") && CountItems(items) == 2
    ensures PrintItems(items) == "[\"" + Inner(parts) + "\"]"
  {
    var inner := Quoted(parts);
    var outer := Box(Array, [Item("", inner)], "");
    OneItem(inner, "]");
    OneItem(outer, "");
    assert GoodItems(outer.items, outer.last + "]");
    items := [Item("", outer)];
    assert Print(outer) == "[" + PrintItems(outer.items) + "" + "]";
  }

  lemma OneItem(v: Value, rest: string)
    requires GoodValue(v) && !v.Word?
    ensures PrintItems([Item("", v)]) == Print(v) && CountItems([Item("", v)]) == Count(v)
    ensures GoodItems([Item("", v)], rest)
  {
    var items := [Item("", v)];
    assert items[1..] == [] && PrintItems([]) == "" && CountItems([]) == 0;
  }

  /** The beginning `["\` of the text `["\n"]` is refused as invalid, not as a part of a text. */
  lemma CutInEscape()
    ensures Run("[\"\\n\"]", 2, false, INITIAL).0 == Success && Run("[\"\\", 2, false, INITIAL).0 == Inval
  {
    var js, parts := "[\"\\n\"]", [Escape('n')];
    assert parts[1..] == [] && Inner(parts) == "\\n" && GoodPart(Escape('n'));
    var items := OneString(parts);
    assert js == "[\"" + "\\n" + "\"]";
    assert PrintItems(items) + "" == js && js[..6] == js;
    Tokenized(js, 2, false, items, "");
    CutAfterBackslash("[\"\\");
  }
}
