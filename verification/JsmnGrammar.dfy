/** Which texts the tokenizer of connection/jsmn.c takes, and which tokens it finds in them. */
module JsmnGrammar {
  import opened Jsmn
  import opened JsmnForest
  import opened JsmnForms

  /** A character of a string, or an escape of two. */
  datatype Part = Plain(c: char) | Escape(c: char)

  /** A word without quotes, a string, or values between brackets. A gap is what is written before a
      value; `last` is what is written before the closing bracket. */
  datatype Value = Word(text: string) | Quoted(parts: seq<Part>) | Box(kind: TokenType, items: seq<Item>, last: string)

  datatype Item = Item(gap: string, value: Value)

  // ----- the grammar -----------------------------------------------------------------

  /** What may be in a gap: white space, commas and colons. */
  predicate Filler(c: char) {
    c == ' ' || c == '\t' || c == '\r' || c == '\n' || c == ',' || c == ':'
  }

  predicate Fillers(gap: string) {
    forall c <- gap :: Filler(c)
  }

  /** What ends a word. A colon does not. */
  predicate Delimiter(c: char) {
    c == ' ' || c == '\t' || c == '\r' || c == '\n' || c == ',' || c == ']' || c == '}'
  }

  predicate Ended(rest: string) {
    rest != "" && Delimiter(rest[0])
  }

  predicate WordChar(c: char) {
    ' ' <= c <= '~' && !Delimiter(c)
  }

  predicate GoodWord(w: string) {
    && w != "" && (w[0] == '-' || '0' <= w[0] <= '9' || w[0] == 't' || w[0] == 'f' || w[0] == 'n')
    && forall c <- w :: WordChar(c)
  }

  predicate GoodPart(p: Part) {
    match p
    case Plain(c) => c != '"' && c != '\\' && c != '\0'
    case Escape(c) =>
      || c == '"' || c == '\\' || c == '/'
      || c == 'b' || c == 'f' || c == 'n' || c == 'r' || c == 't' || c == 'u'
  }

  predicate GoodParts(parts: seq<Part>) {
    forall p <- parts :: GoodPart(p)
  }

  function Opening(kind: TokenType): char {
    if kind == Object then '{' else '['
  }

  function Closing(kind: TokenType): char {
    if kind == Object then '}' else ']'
  }

  function Inner(parts: seq<Part>): string {
    if parts == [] then ""
    else
      match parts[0]
      case Plain(c) => [c] + Inner(parts[1..])
      case Escape(c) => ['\\', c] + Inner(parts[1..])
  }

  function Print(v: Value): (text: string)
    ensures v.Box? || v.Quoted? ==> text != ""
  {
    match v
    case Word(text) => text
    case Quoted(parts) => ['"'] + Inner(parts) + ['"']
    case Box(kind, items, last) => [Opening(kind)] + PrintItems(items) + last + [Closing(kind)]
  }

  function PrintItems(items: seq<Item>): string {
    if items == [] then "" else items[0].gap + Print(items[0].value) + PrintItems(items[1..])
  }

  predicate GoodValue(v: Value) {
    match v
    case Word(text) => GoodWord(text)
    case Quoted(parts) => GoodParts(parts)
    case Box(kind, items, last) => Container(kind) && Fillers(last) && GoodItems(items, last + [Closing(kind)])
  }

  /** Values, each word of which is ended by what follows it; after them comes `rest`. */
  predicate GoodItems(items: seq<Item>, rest: string) {
    items == [] ||
    (&& Fillers(items[0].gap) && GoodValue(items[0].value)
     && (items[0].value.Word? ==> Ended(PrintItems(items[1..]) + rest))
     && GoodItems(items[1..], rest))
  }

  // ----- the tokens ------------------------------------------------------------------

  function Count(v: Value): (n: nat)
    ensures n > 0
  {
    if v.Box? then 1 + CountItems(v.items) else 1
  }

  function CountItems(items: seq<Item>): nat {
    if items == [] then 0 else Count(items[0].value) + CountItems(items[1..])
  }

  /** The tokens of a value written at position `at`, the first of which is number `b`. */
  function Lay(v: Value, at: nat, b: nat, parent: int): (toks: seq<Token>)
    ensures |toks| == Count(v)
  {
    match v
    case Word(text) => [Token(Primitive, at, at + |text|, 0, parent)]
    case Quoted(parts) => [Token(Text, at + 1, at + 1 + |Inner(parts)|, 0, parent)]
    case Box(kind, items, _) =>
      [Token(kind, at, at + |Print(v)|, |items|, parent)] + LayItems(items, at + 1, b + 1, b)
  }

  function LayItems(items: seq<Item>, at: nat, b: nat, parent: int): (toks: seq<Token>)
    ensures |toks| == CountItems(items)
  {
    if items == [] then []
    else
      var v, start := items[0].value, at + |items[0].gap|;
      Lay(v, start, b, parent) + LayItems(items[1..], start + |Print(v)|, b + Count(v), parent)
  }

  // ----- scanning --------------------------------------------------------------------

  lemma AtRest(js: string, p: nat, text: string, rest: string)
    requires p <= |js| && js[p..] == text + rest
    ensures p + |text| <= |js| && js[p + |text|..] == rest
    ensures At(js, p + |text|) == At(rest, 0) && (text != "" ==> At(js, p) == text[0])
  {
    assert js[p + |text|..] == js[p..][|text|..];
    if text != "" { assert js[p..][0] == text[0]; }
    if rest != "" { assert js[p..][|text|] == rest[0]; }
  }

  lemma {:induction false} ScanParts(js: string, p: nat, parts: seq<Part>, rest: string)
    requires p <= |js| && js[p..] == Inner(parts) + (['"'] + rest) && GoodParts(parts)
    ensures ScanString(js, p) == Found(p + |Inner(parts)|)
    decreases |parts|
  {
    if parts == [] {
      AtRest(js, p, ['"'], rest);
    } else {
      var more := Inner(parts[1..]) + (['"'] + rest);
      assert GoodPart(parts[0]) && GoodParts(parts[1..]);
      match parts[0]
      case Plain(c) =>
        assert js[p..] == [c] + more;
        AtRest(js, p, [c], more);
        ScanParts(js, p + 1, parts[1..], rest);
      case Escape(c) =>
        assert js[p..] == ['\\'] + ([c] + more);
        AtRest(js, p, ['\\'], [c] + more);
        AtRest(js, p + 1, [c], more);
        ScanParts(js, p + 2, parts[1..], rest);
    }
  }

  lemma {:induction false} ScanWord(js: string, p: nat, w: string, rest: string)
    requires p <= |js| && js[p..] == w + rest && Ended(rest) && forall c <- w :: WordChar(c)
    ensures ScanPrimitive(js, p) == Found(p + |w|)
    decreases |w|
  {
    AtRest(js, p, w, rest);
    if w != "" {
      assert WordChar(w[0]) && js[p..] == [w[0]] + (w[1..] + rest);
      AtRest(js, p, [w[0]], w[1..] + rest);
      ScanWord(js, p + 1, w[1..], rest);
    }
  }

  // ----- reading what is printed -----------------------------------------------------

  /** `n` more tokens counted under token `k`. */
  function Grown(toks: seq<Token>, k: int, n: nat): (r: seq<Token>)
    requires -1 <= k < |toks|
    ensures |r| == |toks|
  {
    if k == -1 then toks else toks[k := toks[k].(size := toks[k].size + n)]
  }

  function AfterValue(s: State, v: Value): State
    requires Linked(s)
  {
    State(s.pos + |Print(v)|, s.toksuper, Grown(s.toks, s.toksuper, 1) + Lay(v, s.pos, |s.toks|, s.toksuper))
  }

  function AfterItems(s: State, items: seq<Item>): State
    requires Linked(s)
  {
    State(s.pos + |PrintItems(items)|, s.toksuper,
          Grown(s.toks, s.toksuper, |items|) + LayItems(items, s.pos, |s.toks|, s.toksuper))
  }

  /** The state of a fresh parser after `n` turns of the loop. */
  function Nth(js: string, cap: nat, scan: bool, n: nat): (o: Outcome)
    ensures o.Go? ==> Linked(o.next) && o.next.pos <= |js|
  {
    if n == 0 then Go(INITIAL)
    else
      var before := Nth(js, cap, scan, n - 1);
      if before.Halt? || At(js, before.next.pos) == '\0' then Halt(Success) else Step(js, cap, scan, before.next)
  }

  /** A fresh parser comes to this state. */
  ghost predicate Comes(js: string, cap: nat, scan: bool, s: State) {
    exists n: nat :: Nth(js, cap, scan, n) == Go(s)
  }

  /** The builds take the same step but for a closing bracket that closes nothing. */
  lemma SameStep(js: string, cap: nat, s: State)
    requires Forest(js, s) && At(js, s.pos) != '\0'
    ensures Closer(js[s.pos]) && s.toksuper == -1 ==> Step(js, cap, true, s).Halt?
    ensures (Closer(js[s.pos]) ==> s.toksuper != -1) ==> Step(js, cap, true, s) == Step(js, cap, false, s)
  {
    if Closer(js[s.pos]) { ClosersAgree(js, s, if js[s.pos] == '}' then Object else Array); }
  }

  /** It is a forest, and the run goes on from it. */
  lemma {:induction false} ComesAt(js: string, cap: nat, scan: bool, n: nat)
    requires Nth(js, cap, scan, n).Go?
    ensures var s := Nth(js, cap, scan, n).next;
            Forest(js, s) && Run(js, cap, scan, INITIAL) == Run(js, cap, scan, s)
  {
    if n == 0 { ReachableIsForest(js, cap); }
    else {
      var before := Nth(js, cap, scan, n - 1).next;
      ComesAt(js, cap, scan, n - 1);
      SameStep(js, cap, before);
      ForestStep(js, cap, before);
    }
  }

  lemma ComesTo(js: string, cap: nat, scan: bool, s: State)
    requires Comes(js, cap, scan, s)
    ensures Forest(js, s) && s.pos <= |js| && Run(js, cap, scan, INITIAL) == Run(js, cap, scan, s)
  {
    var n: nat :| Nth(js, cap, scan, n) == Go(s);
    ComesAt(js, cap, scan, n);
  }

  lemma ComesLinked(js: string, cap: nat, scan: bool, s: State)
    requires Comes(js, cap, scan, s)
    ensures Linked(s) && s.pos <= |js|
  {
  }

  lemma OneStep(js: string, cap: nat, scan: bool, s: State, t: State)
    requires Comes(js, cap, scan, s) && Linked(s) && At(js, s.pos) != '\0'
    requires Step(js, cap, false, s) == Go(t) && (Closer(js[s.pos]) ==> s.toksuper != -1)
    ensures Comes(js, cap, scan, t)
  {
    var n: nat :| Nth(js, cap, scan, n) == Go(s);
    assert Step(js, cap, scan, s) == Go(t) by {
      ComesTo(js, cap, scan, s);
      SameStep(js, cap, s);
    }
    assert Nth(js, cap, scan, n + 1) == Go(t);
  }

  lemma {:induction false} SkipGap(js: string, cap: nat, scan: bool, s: State, gap: string, rest: string, t: State)
    requires Comes(js, cap, scan, s) && s.pos <= |js| && js[s.pos..] == gap + rest && Fillers(gap)
    requires t == s.(pos := s.pos + |gap|)
    ensures Comes(js, cap, scan, t)
    decreases |gap|
  {
    if gap == "" { assert t == s; }
    else {
      assert js[s.pos..] == [gap[0]] + (gap[1..] + rest);
      AtRest(js, s.pos, [gap[0]], gap[1..] + rest);
      assert At(js, s.pos) == gap[0] && Filler(gap[0]);
      ComesLinked(js, cap, scan, s);
      OneStep(js, cap, scan, s, s.(pos := s.pos + 1));
      SkipGap(js, cap, scan, s.(pos := s.pos + 1), gap[1..], rest, t);
    }
  }

  /** One more closed token, counted under the super token. */
  lemma LeafAdopted(s: State, v: Value, t: State)
    requires Linked(s) && !v.Box? && t == AfterValue(s, v)
    ensures Adopted(Go(s.(pos := t.pos, toks := s.toks + Lay(v, s.pos, |s.toks|, s.toksuper)))) == Go(t)
  {
    assert Counted(s.toks + Lay(v, s.pos, |s.toks|, s.toksuper), s.toksuper) == t.toks;
  }

  lemma WordStep(js: string, cap: nat, s: State, v: Value, rest: string, t: State)
    requires Linked(s) && s.pos <= |js| && js[s.pos..] == Print(v) + rest && |s.toks| < cap
    requires v.Word? && GoodValue(v) && Ended(rest) && t == AfterValue(s, v)
    ensures At(js, s.pos) == v.text[0] && WordChar(v.text[0]) && Step(js, cap, false, s) == Go(t)
  {
    AtRest(js, s.pos, v.text, rest);
    ScanWord(js, s.pos, v.text, rest);
    LeafAdopted(s, v, t);
  }

  lemma StringStep(js: string, cap: nat, s: State, v: Value, rest: string, t: State)
    requires Linked(s) && s.pos <= |js| && js[s.pos..] == Print(v) + rest && |s.toks| < cap
    requires v.Quoted? && GoodValue(v) && t == AfterValue(s, v)
    ensures At(js, s.pos) == '"' && Step(js, cap, false, s) == Go(t)
  {
    var more := Inner(v.parts) + (['"'] + rest);
    assert js[s.pos..] == ['"'] + more;
    AtRest(js, s.pos, ['"'], more);
    ScanParts(js, s.pos + 1, v.parts, rest);
    LeafAdopted(s, v, t);
  }

  function Opened(s: State, kind: TokenType): State
    requires Linked(s)
  {
    State(s.pos + 1, |s.toks|, Grown(s.toks, s.toksuper, 1) + [Token(kind, s.pos, -1, 0, s.toksuper)])
  }

  lemma OpenBox(js: string, cap: nat, scan: bool, s: State, kind: TokenType)
    requires Comes(js, cap, scan, s) && Linked(s)
    requires At(js, s.pos) == Opening(kind) && Container(kind) && |s.toks| < cap
    ensures Comes(js, cap, scan, Opened(s, kind))
  {
    OneStep(js, cap, scan, s, Opened(s, kind));
  }

  /** A container when everything in it has been read. */
  function Filled(s: State, v: Value): (t: State)
    requires Linked(s) && v.Box?
    ensures -1 <= t.toksuper < |t.toks|
  {
    State(s.pos + 1 + |PrintItems(v.items)| + |v.last|, |s.toks|,
          Grown(s.toks, s.toksuper, 1) + [Token(v.kind, s.pos, -1, |v.items|, s.toksuper)]
            + LayItems(v.items, s.pos + 1, |s.toks| + 1, |s.toks|))
  }

  lemma FilledIsAfter(s: State, v: Value)
    requires Linked(s) && v.Box? && Linked(Opened(s, v.kind))
    ensures Filled(s, v) == AfterItems(Opened(s, v.kind), v.items).(pos := s.pos + 1 + |PrintItems(v.items)| + |v.last|)
  {
    var open := Opened(s, v.kind);
    assert Grown(open.toks, |s.toks|, |v.items|) ==
        Grown(s.toks, s.toksuper, 1) + [Token(v.kind, s.pos, -1, |v.items|, s.toksuper)];
  }

  /** The bracket closes the token it should. */
  lemma CloseBox(js: string, cap: nat, scan: bool, s: State, v: Value, full: State, t: State)
    requires Linked(s) && v.Box? && Container(v.kind) && |Print(v)| == 1 + |PrintItems(v.items)| + |v.last| + 1
    requires full == Filled(s, v) && Comes(js, cap, scan, full) && At(js, full.pos) == Closing(v.kind)
    requires t == AfterValue(s, v)
    ensures Comes(js, cap, scan, t)
  {
    ComesLinked(js, cap, scan, full);
    WalksToSuper(js, cap, scan, full);
    Closed(s, v, full, t);
    OneStep(js, cap, scan, full, t);
  }

  lemma Closed(s: State, v: Value, full: State, t: State)
    requires Linked(s) && v.Box? && |Print(v)| == 1 + |PrintItems(v.items)| + |v.last| + 1
    requires full == Filled(s, v) && Linked(full) && WalkUp(full.toks, |full.toks| - 1) == |s.toks|
    requires t == AfterValue(s, v)
    ensures CloseByLinks(full, v.kind) == Go(t)
  {
    var n, token := |s.toks|, Token(v.kind, s.pos, -1, |v.items|, s.toksuper);
    var before, after := Grown(s.toks, s.toksuper, 1), LayItems(v.items, s.pos + 1, n + 1, n);
    assert full.toks[n] == token;
    Replaced(before, token, after, token.(end := full.pos + 1));
    assert before + ([token.(end := full.pos + 1)] + after) == t.toks;
  }

  lemma Replaced(before: seq<Token>, token: Token, after: seq<Token>, other: Token)
    ensures (before + [token] + after)[|before| := other] == before + ([other] + after)
  {
  }

  lemma WalksToSuper(js: string, cap: nat, scan: bool, s: State)
    requires Comes(js, cap, scan, s) && Linked(s) && s.toks != []
    ensures WalkUp(s.toks, |s.toks| - 1) == s.toksuper
  {
    ComesTo(js, cap, scan, s);
    SuperIsLastOpen(js, s);
  }

  lemma GrownTwice(toks: seq<Token>, k: int, lay: seq<Token>, n: nat, more: seq<Token>)
    requires -1 <= k < |toks|
    ensures Grown(Grown(toks, k, 1) + lay, k, n) + more == Grown(toks, k, n + 1) + (lay + more)
  {
  }

  lemma GoodBefore(items: seq<Item>, rest: string, more: string)
    requires GoodItems(items, rest)
    ensures GoodItems(items, rest + more)
  {
    if items != [] {
      GoodBefore(items[1..], rest, more);
      assert PrintItems(items[1..]) + (rest + more) == (PrintItems(items[1..]) + rest) + more;
    }
  }

  lemma BoxText(v: Value, rest: string)
    requires v.Box?
    ensures Print(v) + rest == [Opening(v.kind)] + (PrintItems(v.items) + (v.last + ([Closing(v.kind)] + rest)))
    ensures |Print(v)| == 1 + |PrintItems(v.items)| + |v.last| + 1
    ensures v.last + ([Closing(v.kind)] + rest) == (v.last + [Closing(v.kind)]) + rest
  {
  }

  /** A value is read, at whatever position and under whatever is open, as the tokens laid out for it. */
  lemma {:induction false} ReadValue(js: string, cap: nat, scan: bool, s: State, v: Value, rest: string, t: State)
    requires Comes(js, cap, scan, s) && Linked(s) && s.pos <= |js| && js[s.pos..] == Print(v) + rest
    requires GoodValue(v) && (v.Word? ==> Ended(rest)) && |s.toks| + Count(v) <= cap && t == AfterValue(s, v)
    ensures Comes(js, cap, scan, t)
    decreases v, 0
  {
    match v
    case Word(_) =>
      WordStep(js, cap, s, v, rest, t);
      OneStep(js, cap, scan, s, t);
    case Quoted(_) =>
      StringStep(js, cap, s, v, rest, t);
      OneStep(js, cap, scan, s, t);
    case Box(_, _, _) => ReadBox(js, cap, scan, s, v, rest, t);
  }

  lemma {:induction false} ReadBox(js: string, cap: nat, scan: bool, s: State, v: Value, rest: string, t: State)
    requires Comes(js, cap, scan, s) && Linked(s) && s.pos <= |js| && js[s.pos..] == Print(v) + rest
    requires v.Box? && GoodValue(v) && |s.toks| + Count(v) <= cap && t == AfterValue(s, v)
    ensures Comes(js, cap, scan, t)
    decreases v.items, 2
  {
    var close := [Closing(v.kind)] + rest;
    BoxText(v, rest);
    AtRest(js, s.pos, [Opening(v.kind)], PrintItems(v.items) + (v.last + close));
    assert At(js, s.pos) == Opening(v.kind);
    OpenBox(js, cap, scan, s, v.kind);
    var open := Opened(s, v.kind);
    ComesLinked(js, cap, scan, open);
    GoodBefore(v.items, v.last + [Closing(v.kind)], rest);
    FilledIsAfter(s, v);
    ReadItems(js, cap, scan, open, v.items, v.last, close, Filled(s, v));
    AtRest(js, open.pos, PrintItems(v.items) + v.last, close);
    CloseBox(js, cap, scan, s, v, Filled(s, v), t);
  }

  /** So are values one after another, with what is written between and after them. */
  lemma {:induction false} ReadItems(js: string, cap: nat, scan: bool, s: State, items: seq<Item>,
                                     last: string, rest: string, t: State)
    requires Comes(js, cap, scan, s) && Linked(s) && s.pos <= |js|
    requires js[s.pos..] == PrintItems(items) + (last + rest) && Fillers(last)
    requires GoodItems(items, last + rest) && |s.toks| + CountItems(items) <= cap
    requires t == AfterItems(s, items).(pos := s.pos + |PrintItems(items)| + |last|)
    ensures Comes(js, cap, scan, t)
    ensures js[s.pos..] == (PrintItems(items) + last) + rest
    decreases items, 1
  {
    assert PrintItems(items) + (last + rest) == (PrintItems(items) + last) + rest;
    if items == [] {
      assert js[s.pos..] == last + rest;
      SkipGap(js, cap, scan, s, last, rest, t);
    } else {
      assert items == [items[0]] + items[1..];
      FirstOf(items, last + rest);
      var begun := s.(pos := s.pos + |items[0].gap|);
      var next := AfterValue(begun, items[0].value);
      ReadItem(js, cap, scan, s, items[0], PrintItems(items[1..]) + (last + rest), begun, next);
      ItemsInTwo(s, items, begun, next);
      ReadItems(js, cap, scan, next, items[1..], last, rest, t);
    }
  }

  lemma {:induction false} ReadItem(js: string, cap: nat, scan: bool, s: State, item: Item, rest: string,
                                    begun: State, t: State)
    requires Comes(js, cap, scan, s) && Linked(s)
    requires s.pos <= |js| && js[s.pos..] == item.gap + (Print(item.value) + rest)
    requires Fillers(item.gap) && GoodValue(item.value) && (item.value.Word? ==> Ended(rest))
    requires |s.toks| + Count(item.value) <= cap
    requires begun == s.(pos := s.pos + |item.gap|) && t == AfterValue(begun, item.value)
    ensures Comes(js, cap, scan, t) && Linked(t) && t.pos <= |js| && js[t.pos..] == rest
    decreases item, 1
  {
    GapRead(js, cap, scan, s, item.gap, Print(item.value) + rest, begun);
    ReadValue(js, cap, scan, begun, item.value, rest, t);
    AtRest(js, begun.pos, Print(item.value), rest);
    ComesLinked(js, cap, scan, t);
  }

  lemma GapRead(js: string, cap: nat, scan: bool, s: State, gap: string, rest: string, t: State)
    requires Comes(js, cap, scan, s) && s.pos <= |js| && js[s.pos..] == gap + rest && Fillers(gap)
    requires t == s.(pos := s.pos + |gap|)
    ensures Comes(js, cap, scan, t) && t.pos <= |js| && js[t.pos..] == rest
  {
    AtRest(js, s.pos, gap, rest);
    SkipGap(js, cap, scan, s, gap, rest, t);
  }

  lemma FirstOf(items: seq<Item>, rest: string)
    requires items != []
    ensures PrintItems(items) + rest == items[0].gap + (Print(items[0].value) + (PrintItems(items[1..]) + rest))
  {
  }

  lemma ItemsInTwo(s: State, items: seq<Item>, begun: State, next: State)
    requires Linked(s) && items != [] && begun == s.(pos := s.pos + |items[0].gap|)
    requires next == AfterValue(begun, items[0].value) && Linked(next)
    ensures AfterItems(next, items[1..]) == AfterItems(s, items)
  {
    var lay, n := Lay(items[0].value, begun.pos, |s.toks|, s.toksuper), |items| - 1;
    var more := LayItems(items[1..], next.pos, |next.toks|, s.toksuper);
    assert AfterItems(s, items).toks == Grown(s.toks, s.toksuper, n + 1) + (lay + more);
    assert AfterItems(next, items[1..]).toks == Grown(Grown(s.toks, s.toksuper, 1) + lay, s.toksuper, n) + more;
    GrownTwice(s.toks, s.toksuper, lay, n, more);
  }
}
