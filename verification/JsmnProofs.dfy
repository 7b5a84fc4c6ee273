/** Resuming: a call that stopped, for whatever reason, leaves a state from which a later call
    with more text or more token space ends as if it had had them from the start. */
module JsmnResume {
  import opened Jsmn

  lemma {:induction false} ScansExtend(a: string, b: string, p: nat)
    ensures ScanPrimitive(a, p).Found? ==> ScanPrimitive(a + b, p) == ScanPrimitive(a, p)
    ensures ScanString(a, p).Found? ==> ScanString(a + b, p) == ScanString(a, p)
    decreases |a| - p
  {
    if p < |a| {
      assert (a + b)[p] == a[p];
      ScansExtend(a, b, p + 1);
      ScansExtend(a, b, p + 2);
      assert p + 1 < |a| ==> At(a + b, p + 1) == At(a, p + 1);
    }
  }

  /** A step that succeeded is repeated exactly under a longer text and a larger array. */
  lemma StepExtends(a: string, b: string, cap: nat, more: nat, scan: bool, s: State)
    requires Linked(s) && At(a, s.pos) != '\0' && cap <= more
    requires Step(a, cap, scan, s).Go?
    ensures At(a + b, s.pos) == At(a, s.pos)
    ensures Step(a + b, more, scan, s) == Step(a, cap, scan, s)
  {
    ScansExtend(a, b, s.pos);
    ScansExtend(a, b, s.pos + 1);
  }

  /** Stop on text `a` with `cap` tokens, with any return code, continue on `a + b` with at
      least as many tokens: the code, the parser fields and the tokens are those of one call. */
  lemma {:induction false} Resumable(a: string, b: string, cap: nat, more: nat, scan: bool, s: State)
    requires Linked(s) && cap <= more
    ensures Run(a + b, more, scan, Run(a, cap, scan, s).1) == Run(a + b, more, scan, s)
    decreases |a| - s.pos
  {
    if At(a, s.pos) != '\0' {
      var o := Step(a, cap, scan, s);
      if o.Go? {
        StepExtends(a, b, cap, more, scan, s);
        Resumable(a, b, cap, more, scan, o.next);
      }
    }
  }

  /** One delivery: some more text, and the number of tokens the caller now offers. */
  datatype Chunk = Chunk(text: string, cap: nat)

  function TextOf(chunks: seq<Chunk>): string {
    if chunks == [] then "" else TextOf(chunks[..|chunks| - 1]) + chunks[|chunks| - 1].text
  }

  /** The array offered never shrinks. */
  predicate Growing(chunks: seq<Chunk>) {
    forall i, j :: 0 <= i < j < |chunks| ==> chunks[i].cap <= chunks[j].cap
  }

  /** Parsing each time all the text that has arrived, continuing from the state left behind. */
  function Feed(chunks: seq<Chunk>, scan: bool): (r: (Status, State))
    requires |chunks| > 0
    ensures Linked(r.1)
  {
    var n := |chunks| - 1;
    var s := if n == 0 then INITIAL else Feed(chunks[..n], scan).1;
    Run(TextOf(chunks), chunks[n].cap, scan, s)
  }

  /** Any division of a text into deliveries ends as one call on the whole text does. */
  lemma {:induction false} FeedIsOneRun(chunks: seq<Chunk>, scan: bool)
    requires |chunks| > 0 && Growing(chunks)
    ensures Feed(chunks, scan) == Run(TextOf(chunks), chunks[|chunks| - 1].cap, scan, INITIAL)
    decreases |chunks|
  {
    var n := |chunks| - 1;
    if n > 0 {
      var front := chunks[..n];
      FeedIsOneRun(front, scan);
      assert TextOf(chunks) == TextOf(front) + chunks[n].text;
      Resumable(TextOf(front), chunks[n].text, front[n - 1].cap, chunks[n].cap, scan, INITIAL);
    }
  }
}

/** Every reachable parser state is a forest laid over the text. */
module JsmnForest {
  import opened Jsmn

  /** A token and its parent: the parent comes first, is a container and, once closed,
      encloses the token. */
  ghost predicate UnderParent(toks: seq<Token>, i: nat)
    requires i < |toks|
  {
    var p := toks[i].parent;
    && -1 <= p < i
    && (p >= 0 ==>
          && Container(toks[p].kind)
          && toks[p].start < toks[i].start
          && (!Open(toks[p]) ==> !Open(toks[i]) && toks[i].end < toks[p].end))
  }

  /** Token `i` is closed and lies wholly before token `j`. */
  ghost predicate Before(toks: seq<Token>, i: nat, j: nat)
    requires i < |toks| && j < |toks|
  {
    !Open(toks[i]) && toks[i].start < toks[j].start && toks[i].end <= toks[j].start
  }

  /** Besides, whatever lies between a token and its parent is closed and lies before it. */
  ghost predicate Nested(toks: seq<Token>) {
    && (forall i :: 0 <= i < |toks| ==> UnderParent(toks, i))
    && (forall i, j :: 0 <= i < j < |toks| && toks[j].parent < i ==> Before(toks, i, j))
  }

  predicate LeafSpan(js: string, t: Token) {
    match t.kind
    case Text => 0 < t.start <= t.end < |js| && js[t.start - 1] == '"' && js[t.end] == '"'
    case Primitive => 0 <= t.start < t.end < |js| && PrimitiveStart(js[t.start]) && PrimitiveEnd(js[t.end])
    case _ => false
  }

  /** The span of a token, read back in the text. */
  predicate SpanInText(js: string, pos: nat, t: Token) {
    && 0 <= t.start < pos
    && t.start < |js|
    && (Open(t) || t.start <= t.end <= pos)
    && if Container(t.kind) then
         && js[t.start] == (if t.kind == Object then '{' else '[')
         && (Open(t) || (0 < t.end <= |js| && js[t.end - 1] == (if t.kind == Object then '}' else ']')))
       else !Open(t) && LeafSpan(js, t)
  }

  /** How many of the first `n` tokens name `k` as their parent. */
  function Children(toks: seq<Token>, k: int, n: nat): nat
    requires n <= |toks|
  {
    if n == 0 then 0 else Children(toks, k, n - 1) + (if toks[n - 1].parent == k then 1 else 0)
  }

  ghost predicate Sized(toks: seq<Token>) {
    forall i :: 0 <= i < |toks| ==> toks[i].size == Children(toks, i, |toks|)
  }

  /** The super token is the innermost open container. */
  ghost predicate Innermost(s: State) {
    && -1 <= s.toksuper < |s.toks|
    && (s.toksuper >= 0 ==> Open(s.toks[s.toksuper]))
    && forall i :: s.toksuper < i < |s.toks| ==> !Open(s.toks[i])
  }

  ghost predicate Forest(js: string, s: State) {
    && Linked(s)
    && Nested(s.toks)
    && Sized(s.toks)
    && Innermost(s)
    && forall i :: 0 <= i < |s.toks| ==> SpanInText(js, s.pos, s.toks[i])
  }

  // ----- child counts ----------------------------------------------------------------

  lemma ChildrenSameParents(a: seq<Token>, b: seq<Token>, k: int, n: nat)
    requires n <= |a| && n <= |b|
    requires forall i :: 0 <= i < n ==> a[i].parent == b[i].parent
    ensures Children(a, k, n) == Children(b, k, n)
  {
    if n > 0 { ChildrenSameParents(a, b, k, n - 1); }
  }

  lemma NoChildrenYet(toks: seq<Token>, k: int, n: nat)
    requires n <= |toks| && n <= k
    requires Upward(toks)
    ensures Children(toks, k, n) == 0
  {
    if n > 0 { NoChildrenYet(toks, k, n - 1); }
  }

  /** Adding a token under `p` and counting it there keeps every size right. */
  lemma SizedAdd(toks: seq<Token>, p: int, t: Token, grown: seq<Token>)
    requires Sized(toks) && -1 <= p < |toks|
    requires Upward(toks)
    requires t.parent == p && t.size == 0
    requires grown == Counted(toks, p) + [t]
    ensures Sized(grown)
  {
    var n := |toks|;
    forall i | 0 <= i < |grown| ensures grown[i].size == Children(grown, i, |grown|) {
      ChildrenSameParents(grown, toks, i, n);
      if i == n { NoChildrenYet(toks, n, n); }
    }
  }

  lemma SizedClose(toks: seq<Token>, k: nat, e: int)
    requires Sized(toks) && k < |toks|
    ensures Sized(toks[k := toks[k].(end := e)])
  {
    var closed := toks[k := toks[k].(end := e)];
    forall i | 0 <= i < |closed| ensures closed[i].size == Children(closed, i, |closed|) {
      ChildrenSameParents(closed, toks, i, |toks|);
    }
  }

  // ----- steps -----------------------------------------------------------------------

  /** Any new token under the super token, an open container or a closed leaf. */
  lemma NestedAdd(s: State, t: Token, grown: seq<Token>)
    requires Nested(s.toks) && Innermost(s)
    requires t.parent == s.toksuper
    requires grown == Counted(s.toks, s.toksuper) + [t]
    requires s.toksuper >= 0 ==> Container(s.toks[s.toksuper].kind)
    requires forall i :: 0 <= i < |s.toks| ==> s.toks[i].start < s.pos <= t.start && s.toks[i].end <= s.pos
    ensures Nested(grown)
  {
    var n := |s.toks|;
    assert forall i :: 0 <= i < n ==> grown[i] == s.toks[i].(size := grown[i].size);
    forall i | 0 <= i <= n ensures UnderParent(grown, i) {
      if i < n { assert UnderParent(s.toks, i); }
    }
    forall i, j | 0 <= i < j <= n && grown[j].parent < i ensures Before(grown, i, j) {
      if j < n { assert Before(s.toks, i, j); }
    }
  }

  lemma SpanStays(js: string, pos: nat, t: Token, later: nat, u: Token)
    requires SpanInText(js, pos, t) && pos <= later
    requires u.kind == t.kind && u.start == t.start && u.end == t.end
    ensures SpanInText(js, later, u)
  {
  }

  lemma SpansAdd(js: string, s: State, t: Token, next: State)
    requires -1 <= s.toksuper < |s.toks| && s.pos <= next.pos && SpanInText(js, next.pos, t)
    requires next.toks == Counted(s.toks, s.toksuper) + [t]
    requires forall i :: 0 <= i < |s.toks| ==> SpanInText(js, s.pos, s.toks[i])
    ensures forall i :: 0 <= i < |next.toks| ==> SpanInText(js, next.pos, next.toks[i])
  {
    forall i | 0 <= i < |next.toks| ensures SpanInText(js, next.pos, next.toks[i]) {
      if i < |s.toks| {
        SpanStays(js, s.pos, s.toks[i], next.pos, next.toks[i]);
      }
    }
  }

  lemma InnermostAdd(s: State, t: Token, next: State)
    requires Linked(s) && Innermost(s) && t.parent == s.toksuper
    requires next.toks == Counted(s.toks, s.toksuper) + [t]
    requires next.toksuper == if Open(t) then |s.toks| else s.toksuper
    ensures Linked(next) && Innermost(next)
  {
    assert forall i :: 0 <= i < |s.toks| ==> next.toks[i] == s.toks[i].(size := next.toks[i].size);
  }

  lemma ForestAdd(js: string, s: State, t: Token, next: State)
    requires Forest(js, s)
    requires t.parent == s.toksuper && t.size == 0
    requires s.pos <= t.start && SpanInText(js, next.pos, t)
    requires next.pos >= s.pos && next.toks == Counted(s.toks, s.toksuper) + [t]
    requires next.toksuper == if Open(t) then |s.toks| else s.toksuper
    ensures Forest(js, next)
  {
    SpansAdd(js, s, t, next);
    InnermostAdd(s, t, next);
    assert forall i :: 0 <= i < |s.toks| ==> SpanInText(js, s.pos, s.toks[i]);
    SizedAdd(s.toks, s.toksuper, t, next.toks);
    NestedAdd(s, t, next.toks);
  }

  /** Closing the innermost open token. */
  lemma NestedClose(s: State, closed: seq<Token>)
    requires Nested(s.toks) && Innermost(s) && s.toksuper >= 0
    requires closed == s.toks[s.toksuper := s.toks[s.toksuper].(end := s.pos + 1)]
    requires forall i :: 0 <= i < |s.toks| ==> s.toks[i].end <= s.pos
    ensures Nested(closed)
  {
    var k := s.toksuper;
    assert forall i :: 0 <= i < |closed| ==> closed[i] == if i == k then s.toks[k].(end := s.pos + 1) else s.toks[i];
    forall i | 0 <= i < |closed| ensures UnderParent(closed, i) {
      assert UnderParent(s.toks, i);
      assert s.toks[i].parent == k ==> i > k;
    }
    forall i, j | 0 <= i < j < |closed| && closed[j].parent < i ensures Before(closed, i, j) {
      assert Before(s.toks, i, j);
    }
  }

  lemma InnermostClose(s: State, next: State)
    requires Nested(s.toks) && Innermost(s) && s.toksuper >= 0
    requires next == State(s.pos + 1, s.toks[s.toksuper].parent,
                           s.toks[s.toksuper := s.toks[s.toksuper].(end := s.pos + 1)])
    ensures Innermost(next)
  {
    var k := s.toksuper;
    assert UnderParent(s.toks, k);
    forall i | next.toksuper < i < |next.toks| ensures !Open(next.toks[i]) {
      if i < k { assert Before(s.toks, i, k); }
    }
  }

  lemma ForestClose(js: string, s: State, next: State)
    requires Forest(js, s) && s.toksuper >= 0 && s.pos < |js|
    requires js[s.pos] == if s.toks[s.toksuper].kind == Object then '}' else ']'
    requires next == State(s.pos + 1, s.toks[s.toksuper].parent,
                           s.toks[s.toksuper := s.toks[s.toksuper].(end := s.pos + 1)])
    ensures Forest(js, next)
  {
    forall i | 0 <= i < |s.toks|
      ensures SpanInText(js, next.pos, next.toks[i])
      ensures s.toks[i].end <= s.pos
    {
      assert SpanInText(js, s.pos, s.toks[i]);
    }
    SizedClose(s.toks, s.toksuper, s.pos + 1);
    NestedClose(s, next.toks);
    InnermostClose(s, next);
  }

  /** From any token, the walk finds the last open token up to it. */
  lemma {:induction false} WalkFindsLastOpen(toks: seq<Token>, i: int)
    requires Nested(toks) && Upward(toks) && -1 <= i < |toks|
    ensures WalkUp(toks, i) == LastOpen(toks, i + 1)
    decreases i
  {
    if i >= 0 && !Open(toks[i]) {
      var p := toks[i].parent;
      WalkFindsLastOpen(toks, p);
      forall j | p < j < i ensures !Open(toks[j]) { assert Before(toks, j, i); }
      LastOpenSkips(toks, p + 1, i + 1);
    }
  }

  lemma LastOpenSkips(toks: seq<Token>, m: nat, n: nat)
    requires m <= n <= |toks|
    requires forall i :: m <= i < n ==> !Open(toks[i])
    ensures LastOpen(toks, n) == LastOpen(toks, m)
  {
    if m < n { LastOpenSkips(toks, m, n - 1); }
  }

  lemma SuperIsLastOpen(js: string, s: State)
    requires Forest(js, s)
    ensures LastOpen(s.toks, |s.toks|) == s.toksuper
    ensures |s.toks| > 0 ==> WalkUp(s.toks, |s.toks| - 1) == s.toksuper
  {
    LastOpenSkips(s.toks, s.toksuper + 1, |s.toks|);
    if |s.toks| > 0 { WalkFindsLastOpen(s.toks, |s.toks| - 1); }
  }

  /** The parent of an open token is the open token before it. */
  lemma ParentIsLastOpen(toks: seq<Token>, k: nat)
    requires Nested(toks) && k < |toks| && Open(toks[k])
    ensures LastOpen(toks, k) == toks[k].parent
    ensures toks[k].parent >= 0 ==> Open(toks[toks[k].parent])
    ensures forall j :: toks[k].parent < j < k ==> !Open(toks[j])
  {
    var p := toks[k].parent;
    assert UnderParent(toks, k);
    forall j | p < j < k ensures !Open(toks[j]) { assert Before(toks, j, k); }
    LastOpenSkips(toks, p + 1, k);
  }

  lemma LastOpenPrefix(a: seq<Token>, b: seq<Token>, n: nat)
    requires n <= |a| && n <= |b|
    requires forall i :: 0 <= i < n ==> a[i] == b[i]
    ensures LastOpen(a, n) == LastOpen(b, n)
  {
    if n > 0 { LastOpenPrefix(a, b, n - 1); }
  }

  /** The refinement of jsmn.c:162-202: whenever a container is open, the parent-link walk and
      the backward scan close the same token, refuse the same mismatch, and leave the same state. */
  lemma ClosersAgree(js: string, s: State, kind: TokenType)
    requires Forest(js, s)
    ensures CloseByLinks(s, kind) == CloseByScan(s, kind) <==> (s.toksuper != -1 || |s.toks| == 0)
    ensures s.toksuper == -1 && |s.toks| > 0 ==>
              && CloseByScan(s, kind) == Halt(Inval)
              && CloseByLinks(s, kind) == Go(s.(pos := s.pos + 1))
  {
    SuperIsLastOpen(js, s);
    var k := s.toksuper;
    if k >= 0 {
      var toks := s.toks[k := s.toks[k].(end := s.pos + 1)];
      ParentIsLastOpen(s.toks, k);
      LastOpenPrefix(toks, s.toks, k);
    }
  }

  lemma ForestClosing(js: string, s: State, kind: TokenType)
    requires Forest(js, s) && s.pos < |js|
    requires Container(kind) && js[s.pos] == (if kind == Object then '}' else ']')
    requires CloseByLinks(s, kind).Go?
    ensures Forest(js, CloseByLinks(s, kind).next)
  {
    SuperIsLastOpen(js, s);
    var next := CloseByLinks(s, kind).next;
    if s.toksuper == -1 { ForestSkip(js, s, next); }
    else { ForestClose(js, s, next); }
  }

  lemma ForestLeaf(js: string, s: State, t: Token, pos: nat)
    requires Forest(js, s) && s.pos <= pos
    requires t.parent == s.toksuper && t.size == 0 && !Open(t)
    requires s.pos <= t.start && SpanInText(js, pos, t)
    ensures var o := Adopted(Go(s.(pos := pos, toks := s.toks + [t])));
            Forest(js, o.next)
  {
    var grown := Counted(s.toks + [t], s.toksuper);
    assert grown == Counted(s.toks, s.toksuper) + [t];
    ForestAdd(js, s, t, s.(pos := pos, toks := grown));
  }

  lemma ForestOpening(js: string, cap: nat, s: State, kind: TokenType)
    requires Forest(js, s) && s.pos < |js| && |s.toks| < cap
    requires Container(kind) && js[s.pos] == (if kind == Object then '{' else '[')
    ensures Forest(js, OpenBracket(cap, s, kind).next)
  {
    ForestAdd(js, s, Token(kind, s.pos, -1, 0, s.toksuper), OpenBracket(cap, s, kind).next);
  }

  /** One successful step keeps the forest. */
  lemma ForestStep(js: string, cap: nat, s: State)
    requires Forest(js, s) && At(js, s.pos) != '\0'
    requires Step(js, cap, false, s).Go?
    ensures Forest(js, Step(js, cap, false, s).next)
  {
    var c := js[s.pos];
    if c == '{' || c == '[' {
      ForestOpening(js, cap, s, if c == '{' then Object else Array);
    } else if c == '}' || c == ']' {
      ForestClosing(js, s, if c == '}' then Object else Array);
    } else if c == '"' {
      var e := ScanString(js, s.pos + 1).end;
      ForestLeaf(js, s, Token(Text, s.pos + 1, e, 0, s.toksuper), e + 1);
    } else if PrimitiveStart(c) {
      var e := ScanPrimitive(js, s.pos).end;
      ForestLeaf(js, s, Token(Primitive, s.pos, e, 0, s.toksuper), e);
    } else {
      ForestSkip(js, s, Step(js, cap, false, s).next);
    }
  }

  lemma ForestSkip(js: string, s: State, next: State)
    requires Forest(js, s)
    requires next == s.(pos := s.pos + 1)
    ensures Forest(js, next)
  {
    forall i | 0 <= i < |s.toks| ensures SpanInText(js, next.pos, next.toks[i]) {
      assert SpanInText(js, s.pos, s.toks[i]);
    }
  }

  /** Every state a call stops in is a forest, whatever code it returns; on success no
      container is open, and otherwise-complete text with one open is reported as partial. */
  lemma {:induction false} ForestRun(js: string, cap: nat, s: State)
    requires Forest(js, s)
    ensures var (status, t) := Run(js, cap, false, s);
            && Forest(js, t)
            && (status == Success ==> t.toksuper == -1 && forall i :: 0 <= i < |t.toks| ==> !Open(t.toks[i]))
            && (status == Part && At(js, t.pos) == '\0' ==> t.toksuper >= 0)
    decreases |js| - s.pos
  {
    if At(js, s.pos) == '\0' {
      SuperIsLastOpen(js, s);
    } else {
      var o := Step(js, cap, false, s);
      if o.Go? {
        ForestStep(js, cap, s);
        ForestRun(js, cap, o.next);
      }
    }
  }

  // ----- what a forest means ---------------------------------------------------------

  /** Is `i` the token `k` or one of its ancestors? */
  predicate Ancestor(toks: seq<Token>, i: int, k: int)
    requires -1 <= k < |toks| && Upward(toks)
    decreases k
  {
    k >= 0 && (k == i || Ancestor(toks, i, toks[k].parent))
  }

  /** Any two spans are nested or disjoint, and they are nested exactly along the parent links. */
  lemma {:induction false} NestedOrDisjoint(toks: seq<Token>, i: nat, j: nat)
    requires Nested(toks) && Upward(toks) && i < j < |toks|
    ensures toks[i].start < toks[j].start
    ensures if Ancestor(toks, i, j) then
              Open(toks[i]) || (!Open(toks[j]) && toks[j].end < toks[i].end)
            else
              Before(toks, i, j)
    decreases j
  {
    var p := toks[j].parent;
    assert UnderParent(toks, j);
    assert Ancestor(toks, i, j) == Ancestor(toks, i, p);
    if i < p {
      NestedOrDisjoint(toks, i, p);
    } else if p < i {
      AncestorIsBelow(toks, i, p);
      assert Before(toks, i, j);
    }
  }

  lemma {:induction false} AncestorIsBelow(toks: seq<Token>, i: int, k: int)
    requires -1 <= k < |toks| && k < i && Upward(toks)
    ensures !Ancestor(toks, i, k)
    decreases k
  {
    if k >= 0 { AncestorIsBelow(toks, i, toks[k].parent); }
  }

  /** The open tokens are exactly the super token and its ancestors. */
  lemma OpenIffAncestorOfSuper(js: string, s: State, i: nat)
    requires Forest(js, s) && i < |s.toks|
    ensures Open(s.toks[i]) <==> Ancestor(s.toks, i, s.toksuper)
  {
    OpenIffAncestor(s.toks, i, s.toksuper);
  }

  lemma {:induction false} OpenIffAncestor(toks: seq<Token>, i: nat, k: int)
    requires Nested(toks) && Upward(toks) && i < |toks|
    requires k == -1 || (0 <= k < |toks| && Open(toks[k]))
    requires forall j :: k < j <= i ==> !Open(toks[j])
    ensures Open(toks[i]) <==> Ancestor(toks, i, k)
    decreases k
  {
    if i > k { AncestorIsBelow(toks, i, k); }
    else if i < k {
      ParentIsLastOpen(toks, k);
      OpenIffAncestor(toks, i, toks[k].parent);
    }
  }
}

/** The two builds of the tokenizer, compared over whole calls. */
module JsmnForms {
  import opened Jsmn
  import opened JsmnForest

  /** The build with parent links comes to a closing bracket that closes nothing and skips it. */
  predicate MeetsStrayCloser(js: string, cap: nat, s: State)
    requires Linked(s)
    decreases |js| - s.pos
  {
    if At(js, s.pos) == '\0' then false
    else if (js[s.pos] == '}' || js[s.pos] == ']') && s.toksuper == -1 && |s.toks| > 0 then true
    else
      match Step(js, cap, false, s)
      case Halt(_) => false
      case Go(next) => MeetsStrayCloser(js, cap, next)
  }

  /** The two builds give the same code, fields and tokens exactly when no stray closer is met;
      at the first one the scanning build refuses the text and the linked build reads past it. */
  lemma {:induction false} FormsAgree(js: string, cap: nat, s: State)
    requires Forest(js, s)
    ensures Run(js, cap, true, s) == Run(js, cap, false, s) <==> !MeetsStrayCloser(js, cap, s)
    ensures MeetsStrayCloser(js, cap, s) ==>
              && Run(js, cap, true, s).0 == Inval
              && Run(js, cap, true, s).1.pos < Run(js, cap, false, s).1.pos
    decreases |js| - s.pos
  {
    if At(js, s.pos) != '\0' {
      var c := js[s.pos];
      if c == '}' || c == ']' {
        ClosersAgree(js, s, if c == '}' then Object else Array);
      }
      var o := Step(js, cap, false, s);
      if o.Go? {
        ForestStep(js, cap, s);
        FormsAgree(js, cap, o.next);
      }
    }
  }

  /** The initial state is a forest, so all of the above holds of every state a caller can reach. */
  lemma ReachableIsForest(js: string, cap: nat)
    ensures Forest(js, INITIAL)
    ensures Forest(js, Run(js, cap, false, INITIAL).1)
  {
    ForestRun(js, cap, INITIAL);
  }

  // ----- the same, read off the text -------------------------------------------------

  /** A closing bracket that closes nothing, the end of the reading, or where to read on: from
      position `p` with these brackets open, innermost last, and `n` tokens so far. */
  datatype Ahead = Stray | Stop | On(p: nat, open: seq<TokenType>, n: nat)

  /** One more token, of a string or a primitive. */
  function AfterLeaf(r: Scan, skip: nat, cap: nat, open: seq<TokenType>, n: nat): Ahead {
    if r.Found? && n < cap then On(r.end + skip, open, n + 1) else Stop
  }

  function LookAhead(js: string, cap: nat, p: nat, open: seq<TokenType>, n: nat): (a: Ahead)
    requires At(js, p) != '\0'
    ensures a.On? ==> p < a.p <= |js|
  {
    var c := js[p];
    if c == '{' || c == '[' then
      if n < cap then On(p + 1, open + [if c == '{' then Object else Array], n + 1) else Stop
    else if c == '}' || c == ']' then
      if open == [] then if n > 0 then Stray else Stop
      else if open[|open| - 1] == (if c == '}' then Object else Array) then On(p + 1, open[..|open| - 1], n)
      else Stop
    else if c == '"' then AfterLeaf(ScanString(js, p + 1), 1, cap, open, n)
    else if c == '\t' || c == '\r' || c == '\n' || c == ':' || c == ',' || c == ' ' then On(p + 1, open, n)
    else if PrimitiveStart(c) then AfterLeaf(ScanPrimitive(js, p), 0, cap, open, n)
    else Stop
  }

  /** Is a closing bracket come to when none is open? Strings and primitives are stepped over;
      anything that stops the tokenizer before, a mismatch included, ends the search. */
  predicate StrayAhead(js: string, cap: nat, p: nat, open: seq<TokenType>, n: nat)
    decreases |js| - p
  {
    At(js, p) != '\0' &&
    match LookAhead(js, cap, p, open, n)
    case Stray => true
    case Stop => false
    case On(q, inner, m) => StrayAhead(js, cap, q, inner, m)
  }

  /** The types of the open containers, from the outermost down to token `k`. */
  function OpenTypes(toks: seq<Token>, k: int): seq<TokenType>
    requires -1 <= k < |toks| && Upward(toks)
    decreases k
  {
    if k == -1 then [] else OpenTypes(toks, toks[k].parent) + [toks[k].kind]
  }

  lemma {:induction false} OpenTypesSame(a: seq<Token>, b: seq<Token>, k: int)
    requires -1 <= k < |a| && k < |b| && Upward(a) && Upward(b)
    requires forall i :: 0 <= i <= k ==> a[i].parent == b[i].parent && a[i].kind == b[i].kind
    ensures OpenTypes(a, k) == OpenTypes(b, k)
    decreases k
  {
    if k >= 0 { OpenTypesSame(a, b, a[k].parent); }
  }

  /** What a closing bracket does to the open containers. */
  lemma StepCloses(js: string, cap: nat, s: State)
    requires Forest(js, s) && At(js, s.pos) != '\0' && (js[s.pos] == '}' || js[s.pos] == ']')
    requires Step(js, cap, false, s).Go?
    ensures var t, open := Step(js, cap, false, s).next, OpenTypes(s.toks, s.toksuper);
            OpenTypes(t.toks, t.toksuper) == if open == [] then [] else open[..|open| - 1]
  {
    var t := Step(js, cap, false, s).next;
    SuperIsLastOpen(js, s);
    OpenTypesSame(s.toks, t.toks, t.toksuper);
  }

  /** What any other step does to them. */
  lemma StepOpens(js: string, cap: nat, s: State)
    requires Forest(js, s) && At(js, s.pos) != '\0' && js[s.pos] != '}' && js[s.pos] != ']'
    requires Step(js, cap, false, s).Go?
    ensures var t, c, open := Step(js, cap, false, s).next, js[s.pos], OpenTypes(s.toks, s.toksuper);
            OpenTypes(t.toks, t.toksuper)
              == if c == '{' then open + [Object] else if c == '[' then open + [Array] else open
  {
    OpenTypesSame(s.toks, Step(js, cap, false, s).next.toks, s.toksuper);
  }

  predicate Closer(c: char) {
    c == '}' || c == ']'
  }

  /** A step of the tokenizer and a step over the text have come out alike. */
  ghost predicate Alike(o: Outcome, stray: bool, a: Ahead)
    requires o.Go? ==> Linked(o.next)
  {
    match a
    case Stray => stray
    case Stop => !stray && o.Halt?
    case On(p, open, n) =>
      !stray && o.Go? && o.next.pos == p && OpenTypes(o.next.toks, o.next.toksuper) == open && |o.next.toks| == n
  }

  lemma CloserLooksAhead(js: string, cap: nat, s: State)
    requires Forest(js, s) && At(js, s.pos) != '\0' && Closer(js[s.pos])
    ensures Alike(Step(js, cap, false, s), s.toksuper == -1 && |s.toks| > 0,
                  LookAhead(js, cap, s.pos, OpenTypes(s.toks, s.toksuper), |s.toks|))
  {
    SuperIsLastOpen(js, s);
    if Step(js, cap, false, s).Go? { StepCloses(js, cap, s); }
  }

  lemma OtherLooksAhead(js: string, cap: nat, s: State)
    requires Forest(js, s) && At(js, s.pos) != '\0' && !Closer(js[s.pos])
    ensures Alike(Step(js, cap, false, s), false,
                  LookAhead(js, cap, s.pos, OpenTypes(s.toks, s.toksuper), |s.toks|))
  {
    if Step(js, cap, false, s).Go? { StepOpens(js, cap, s); }
  }

  /** The condition on the tokenizer is that on the text. */
  lemma {:induction false} MeetsIffAhead(js: string, cap: nat, s: State)
    requires Forest(js, s)
    ensures MeetsStrayCloser(js, cap, s) <==> StrayAhead(js, cap, s.pos, OpenTypes(s.toks, s.toksuper), |s.toks|)
    decreases |js| - s.pos
  {
    if At(js, s.pos) != '\0' {
      if Closer(js[s.pos]) { CloserLooksAhead(js, cap, s); } else { OtherLooksAhead(js, cap, s); }
      if LookAhead(js, cap, s.pos, OpenTypes(s.toks, s.toksuper), |s.toks|).On? {
        ForestStep(js, cap, s);
        MeetsIffAhead(js, cap, Step(js, cap, false, s).next);
      }
    }
  }

  /** On a fresh parser the two builds give the same code, fields and tokens if and only if no
      closing bracket in the text is come to when none is open. */
  lemma FormsAgreeOnText(js: string, cap: nat)
    ensures Run(js, cap, true, INITIAL) == Run(js, cap, false, INITIAL) <==> !StrayAhead(js, cap, 0, [], 0)
  {
    ReachableIsForest(js, cap);
    FormsAgree(js, cap, INITIAL);
    MeetsIffAhead(js, cap, INITIAL);
  }

  /** The least text for which they differ: one token, and a bracket too many. */
  lemma FormsDiffer()
    ensures Run("[]]", 2, true, INITIAL) != Run("[]]", 2, false, INITIAL)
  {
  }
}
