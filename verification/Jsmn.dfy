/** The token model of connection/jsmn.c, in the build that connection/jsmn.h selects
    (parent links on, strict mode on): what one pass of the tokenizer does to the parser
    fields and to the allocated part of the caller's token array. */
module Jsmn {

  datatype TokenType = Invalid | Primitive | Object | Array | Text

  /** `end == -1` marks a container whose closing bracket has not been read. */
  datatype Token = Token(kind: TokenType, start: int, end: int, size: int, parent: int)

  datatype Status = NoMem | Inval | Part | Success

  /** The parser fields together with the tokens allocated so far; `toknext` is |toks|. */
  datatype State = State(pos: nat, toksuper: int, toks: seq<Token>)

  const INITIAL := State(0, -1, [])

  /** A failing step leaves the state as it was, so only a successful one carries a state. */
  datatype Outcome = Go(next: State) | Halt(status: Status)

  /** A C string is read up to its terminating NUL, wherever that is. */
  function At(js: string, i: nat): char {
    if i < |js| then js[i] else '\0'
  }

  predicate Open(t: Token) {
    t.start != -1 && t.end == -1
  }

  predicate Container(k: TokenType) {
    k == Object || k == Array
  }

  ghost predicate Upward(toks: seq<Token>) {
    forall i :: 0 <= i < |toks| ==> -1 <= toks[i].parent < i
  }

  /** Every index the tokenizer follows stays inside the allocated tokens. */
  ghost predicate Linked(s: State) {
    -1 <= s.toksuper < |s.toks| && Upward(s.toks)
  }

  // ----- lexing ----------------------------------------------------------------------

  predicate PrimitiveStart(c: char) {
    c == '-' || '0' <= c <= '9' || c == 't' || c == 'f' || c == 'n'
  }

  predicate PrimitiveEnd(c: char) {
    c == '\t' || c == '\r' || c == '\n' || c == ' ' || c == ',' || c == ']' || c == '}'
  }

  predicate Printable(c: char) {
    32 <= c as int < 127
  }

  predicate Escapable(c: char) {
    c == '"' || c == '/' || c == '\\' || c == 'b' || c == 'f' || c == 'r' || c == 'n' || c == 't' || c == 'u'
  }

  /** How a scan for the end of a primitive or a string comes out. */
  datatype Scan = Found(end: nat) | BadChar | RanOut

  function ScanPrimitive(js: string, p: nat): (r: Scan)
    ensures r.Found? ==> p <= r.end < |js| && PrimitiveEnd(js[r.end])
    ensures r.Found? ==> forall i :: p <= i < r.end ==> Printable(js[i]) && !PrimitiveEnd(js[i])
    decreases |js| - p
  {
    if At(js, p) == '\0' then RanOut
    else if PrimitiveEnd(js[p]) then Found(p)
    else if !Printable(js[p]) then BadChar
    else ScanPrimitive(js, p + 1)
  }

  function ScanString(js: string, p: nat): (r: Scan)
    ensures r.Found? ==> p <= r.end < |js| && js[r.end] == '"'
    decreases |js| - p
  {
    if At(js, p) == '\0' then RanOut
    else if js[p] == '"' then Found(p)
    else if js[p] == '\\' then
      if Escapable(At(js, p + 1)) then ScanString(js, p + 2) else BadChar
    else ScanString(js, p + 1)
  }

  function LexPrimitive(js: string, cap: nat, s: State): Outcome {
    match ScanPrimitive(js, s.pos)
    case BadChar => Halt(Inval)
    case RanOut => Halt(Part)
    case Found(e) =>
      if |s.toks| >= cap then Halt(NoMem)
      else Go(s.(pos := e, toks := s.toks + [Token(Primitive, s.pos, e, 0, s.toksuper)]))
  }

  function LexString(js: string, cap: nat, s: State): Outcome {
    match ScanString(js, s.pos + 1)
    case BadChar => Halt(Inval)
    case RanOut => Halt(Part)
    case Found(e) =>
      if |s.toks| >= cap then Halt(NoMem)
      else Go(s.(pos := e + 1, toks := s.toks + [Token(Text, s.pos + 1, e, 0, s.toksuper)]))
  }

  // ----- structure -------------------------------------------------------------------

  /** `tokens[toksuper].size++`, when there is a super token. */
  function Counted(toks: seq<Token>, k: int): (r: seq<Token>)
    requires -1 <= k < |toks|
    ensures |r| == |toks|
  {
    if k == -1 then toks else toks[k := toks[k].(size := toks[k].size + 1)]
  }

  function OpenBracket(cap: nat, s: State, kind: TokenType): Outcome
    requires Linked(s)
  {
    if |s.toks| >= cap then Halt(NoMem)
    else
      Go(State(s.pos + 1, |s.toks|,
               Counted(s.toks, s.toksuper) + [Token(kind, s.pos, -1, 0, s.toksuper)]))
  }

  /** The token that the parent-link walk of jsmn.c:167-180 stops at, -1 when it meets no open one. */
  function WalkUp(toks: seq<Token>, i: int): (k: int)
    requires -1 <= i < |toks| && Upward(toks)
    ensures -1 <= k <= i
    ensures k >= 0 ==> Open(toks[k])
  {
    if i == -1 || Open(toks[i]) then i else WalkUp(toks, toks[i].parent)
  }

  /** The token that the backward scan of jsmn.c:182-192 stops at. */
  function LastOpen(toks: seq<Token>, n: nat): (k: int)
    requires n <= |toks|
    ensures -1 <= k < n
    ensures k >= 0 ==> Open(toks[k])
    ensures forall j :: k < j < n ==> !Open(toks[j])
  {
    if n == 0 then -1 else if Open(toks[n - 1]) then n - 1 else LastOpen(toks, n - 1)
  }

  /** A closing bracket, with parent links: a stray one is skipped once any token exists. */
  function CloseByLinks(s: State, kind: TokenType): Outcome
    requires Linked(s)
  {
    if |s.toks| == 0 then Halt(Inval)
    else
      var k := WalkUp(s.toks, |s.toks| - 1);
      if k == -1 then Go(s.(pos := s.pos + 1))
      else if s.toks[k].kind != kind then Halt(Inval)
      else Go(State(s.pos + 1, s.toks[k].parent, s.toks[k := s.toks[k].(end := s.pos + 1)]))
  }

  /** A closing bracket, without parent links. */
  function CloseByScan(s: State, kind: TokenType): Outcome {
    var k := LastOpen(s.toks, |s.toks|);
    if k == -1 || s.toks[k].kind != kind then Halt(Inval)
    else
      var toks := s.toks[k := s.toks[k].(end := s.pos + 1)];
      Go(State(s.pos + 1, LastOpen(toks, k + 1), toks))
  }

  /** A string or primitive has been added: count it under its super token. */
  function Adopted(o: Outcome): Outcome
    requires o.Go? ==> Linked(o.next)
  {
    if o.Halt? then o else Go(o.next.(toks := Counted(o.next.toks, o.next.toksuper)))
  }

  /** One turn of the loop of jsmn_parse; `scan` selects the build without parent links. */
  function Step(js: string, cap: nat, scan: bool, s: State): (o: Outcome)
    requires Linked(s) && At(js, s.pos) != '\0'
    ensures o.Go? ==> Linked(o.next) && s.pos < o.next.pos <= |js|
  {
    var c := js[s.pos];
    if c == '{' || c == '[' then
      OpenBracket(cap, s, if c == '{' then Object else Array)
    else if c == '}' || c == ']' then
      var kind := if c == '}' then Object else Array;
      if scan then CloseByScan(s, kind) else CloseByLinks(s, kind)
    else if c == '"' then
      Adopted(LexString(js, cap, s))
    else if c == '\t' || c == '\r' || c == '\n' || c == ':' || c == ',' || c == ' ' then
      Go(s.(pos := s.pos + 1))
    else if PrimitiveStart(c) then
      Adopted(LexPrimitive(js, cap, s))
    else
      Halt(Inval)
  }

  function Finish(s: State): Status {
    if LastOpen(s.toks, |s.toks|) == -1 then Success else Part
  }

  /** A whole call of jsmn_parse, started in state `s`. */
  function Run(js: string, cap: nat, scan: bool, s: State): (r: (Status, State))
    requires Linked(s)
    ensures Linked(r.1) && s.pos <= r.1.pos
    decreases |js| - s.pos
  {
    if At(js, s.pos) == '\0' then (Finish(s), s)
    else
      match Step(js, cap, scan, s)
      case Halt(e) => (e, s)
      case Go(next) => Run(js, cap, scan, next)
  }
}
