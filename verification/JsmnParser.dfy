/** The tokenizer of connection/jsmn.c in its own form: parser fields and a caller-supplied
    token array, both updated in place. */
module JsmnParser {
  import opened Jsmn

  class Parser {
    var pos: nat
    var toknext: nat
    var toksuper: int

    ghost function View(tokens: array<Token>): State
      reads this, tokens
      requires toknext <= tokens.Length
    {
      State(pos, toksuper, tokens[..toknext])
    }

    ghost predicate Valid(tokens: array<Token>)
      reads this, tokens
    {
      toknext <= tokens.Length && Linked(View(tokens))
    }

    constructor ()
      ensures pos == 0 && toknext == 0 && toksuper == -1
    {
      pos, toknext, toksuper := 0, 0, -1;
    }

    /** Takes the next token of the array, blank; -1 when none is left. */
    method AllocToken(tokens: array<Token>) returns (k: int)
      requires toknext <= tokens.Length
      modifies this`toknext, tokens
      ensures k == if old(toknext) < tokens.Length then old(toknext) else -1
      ensures k >= 0 ==> toknext == k + 1 && tokens[..] == old(tokens[..])[k := tokens[k]]
      ensures k >= 0 ==> tokens[k] == old(tokens[k]).(start := -1, end := -1, size := 0, parent := -1)
      ensures k < 0 ==> toknext == old(toknext) && tokens[..] == old(tokens[..])
    {
      if toknext >= tokens.Length { return -1; }
      k := toknext;
      toknext := toknext + 1;
      tokens[k] := tokens[k].(start := -1, end := -1);
      tokens[k] := tokens[k].(size := 0);
      tokens[k] := tokens[k].(parent := -1);
    }

    method FillToken(tokens: array<Token>, k: nat, kind: TokenType, start: int, end: int)
      requires k < tokens.Length
      modifies tokens
      ensures tokens[..] == old(tokens[..])[k := Token(kind, start, end, 0, old(tokens[k].parent))]
    {
      tokens[k] := tokens[k].(kind := kind);
      tokens[k] := tokens[k].(start := start);
      tokens[k] := tokens[k].(end := end);
      tokens[k] := tokens[k].(size := 0);
    }

    method ParsePrimitive(js: string, tokens: array<Token>) returns (r: Status)
      requires Valid(tokens) && At(js, pos) != '\0' && !PrimitiveEnd(js[pos])
      modifies this`pos, this`toknext, tokens
      ensures Valid(tokens)
      ensures forall i :: toknext <= i < tokens.Length ==> tokens[i] == old(tokens[i])
      ensures match LexPrimitive(js, tokens.Length, old(View(tokens)))
              case Halt(e) => r == e && View(tokens) == old(View(tokens))
              case Go(next) => r == Success && View(tokens).(pos := pos + 1) == next
    {
      var start := pos;
      while At(js, pos) != '\0' && !PrimitiveEnd(js[pos])
        invariant start <= pos <= |js|
        invariant toknext == old(toknext) && tokens[..] == old(tokens[..])
        invariant ScanPrimitive(js, pos) == ScanPrimitive(js, start)
        decreases |js| - pos
      {
        if !Printable(js[pos]) {
          pos := start;
          return Inval;
        }
        pos := pos + 1;
      }
      if At(js, pos) == '\0' {
        pos := start;
        return Part;
      }
      assert start < pos;
      var k := AllocToken(tokens);
      if k < 0 {
        pos := start;
        return NoMem;
      }
      FillToken(tokens, k, Primitive, start, pos);
      tokens[k] := tokens[k].(parent := toksuper);
      pos := pos - 1;
      return Success;
    }

    method ParseString(js: string, tokens: array<Token>) returns (r: Status)
      requires Valid(tokens) && At(js, pos) == '"'
      modifies this`pos, this`toknext, tokens
      ensures Valid(tokens)
      ensures forall i :: toknext <= i < tokens.Length ==> tokens[i] == old(tokens[i])
      ensures match LexString(js, tokens.Length, old(View(tokens)))
              case Halt(e) => r == e && View(tokens) == old(View(tokens))
              case Go(next) => r == Success && View(tokens).(pos := pos + 1) == next
    {
      var start := pos;
      pos := pos + 1;
      while At(js, pos) != '\0'
        invariant start + 1 <= pos <= |js|
        invariant toknext == old(toknext) && tokens[..] == old(tokens[..])
        invariant ScanString(js, pos) == ScanString(js, start + 1)
        decreases |js| - pos
      {
        var c := js[pos];
        if c == '"' {
          var k := AllocToken(tokens);
          if k < 0 {
            pos := start;
            return NoMem;
          }
          FillToken(tokens, k, Text, start + 1, pos);
          tokens[k] := tokens[k].(parent := toksuper);
          return Success;
        }
        if c == '\\' {
          pos := pos + 1;
          if !Escapable(At(js, pos)) {
            pos := start;
            return Inval;
          }
        }
        pos := pos + 1;
      }
      pos := start;
      return Part;
    }

    /** Counts a new token under the super token. */
    method CountUnderSuper(tokens: array<Token>)
      requires Valid(tokens)
      modifies tokens
      ensures Valid(tokens) && View(tokens) == old(View(tokens)).(toks := Counted(old(tokens[..toknext]), toksuper))
      ensures forall i :: toknext <= i < tokens.Length ==> tokens[i] == old(tokens[i])
    {
      if toksuper != -1 {
        tokens[toksuper] := tokens[toksuper].(size := tokens[toksuper].size + 1);
      }
    }

    /** A closing bracket, found by climbing the parent links of the last token. */
    method CloseByParentLinks(tokens: array<Token>, kind: TokenType) returns (r: Status)
      requires Valid(tokens)
      modifies this`toksuper, tokens
      ensures Valid(tokens)
      ensures forall i :: toknext <= i < tokens.Length ==> tokens[i] == old(tokens[i])
      ensures match CloseByLinks(old(View(tokens)), kind)
              case Halt(e) => r == e && View(tokens) == old(View(tokens))
              case Go(next) => r == Success && View(tokens).(pos := pos + 1) == next
    {
      if toknext < 1 { return Inval; }
      var k := toknext - 1;
      while true
        invariant 0 <= k < toknext
        invariant WalkUp(tokens[..toknext], k) == WalkUp(tokens[..toknext], toknext - 1)
        decreases k
      {
        assert tokens[..toknext][k] == tokens[k];
        if Open(tokens[k]) {
          if tokens[k].kind != kind { return Inval; }
          tokens[k] := tokens[k].(end := pos + 1);
          toksuper := tokens[k].parent;
          break;
        }
        if tokens[k].parent == -1 { break; }
        k := tokens[k].parent;
      }
      return Success;
    }

    /** The same without parent links: two backward scans. */
    method CloseByBackwardScan(tokens: array<Token>, kind: TokenType) returns (r: Status)
      requires Valid(tokens)
      modifies this`toksuper, tokens
      ensures Valid(tokens)
      ensures forall i :: toknext <= i < tokens.Length ==> tokens[i] == old(tokens[i])
      ensures match CloseByScan(old(View(tokens)), kind)
              case Halt(e) => r == e && View(tokens) == old(View(tokens))
              case Go(next) => r == Success && View(tokens).(pos := pos + 1) == next
    {
      var i := toknext - 1;
      while i >= 0
        invariant -1 <= i < toknext
        invariant tokens[..] == old(tokens[..]) && toksuper == old(toksuper)
        invariant LastOpen(tokens[..toknext], i + 1) == LastOpen(tokens[..toknext], toknext)
      {
        assert tokens[..toknext][i] == tokens[i];
        if Open(tokens[i]) {
          if tokens[i].kind != kind { return Inval; }
          toksuper := -1;
          tokens[i] := tokens[i].(end := pos + 1);
          break;
        }
        i := i - 1;
      }
      if i == -1 { return Inval; }
      ghost var k := i;
      ghost var toks := tokens[..toknext];
      assert toks == old(tokens[..toknext])[k := old(tokens[k]).(end := pos + 1)];
      while i >= 0
        invariant -1 <= i <= k
        invariant tokens[..toknext] == toks && toksuper == -1
        invariant forall i :: toknext <= i < tokens.Length ==> tokens[i] == old(tokens[i])
        invariant LastOpen(toks, i + 1) == LastOpen(toks, k + 1)
      {
        assert toks[i] == tokens[i];
        if Open(tokens[i]) {
          toksuper := i;
          break;
        }
        i := i - 1;
      }
      return Success;
    }

    method OpenContainer(tokens: array<Token>, kind: TokenType) returns (r: Status)
      requires Valid(tokens)
      modifies this`toknext, this`toksuper, tokens
      ensures Valid(tokens)
      ensures forall i :: toknext <= i < tokens.Length ==> tokens[i] == old(tokens[i])
      ensures match OpenBracket(tokens.Length, old(View(tokens)), kind)
              case Halt(e) => r == e && View(tokens) == old(View(tokens))
              case Go(next) => r == Success && View(tokens).(pos := pos + 1) == next
    {
      ghost var toks, super := tokens[..toknext], toksuper;
      var k := AllocToken(tokens);
      if k < 0 { return NoMem; }
      if toksuper != -1 {
        tokens[toksuper] := tokens[toksuper].(size := tokens[toksuper].size + 1);
        tokens[k] := tokens[k].(parent := toksuper);
      }
      assert tokens[..k] == Counted(toks, super);
      tokens[k] := tokens[k].(kind := kind);
      tokens[k] := tokens[k].(start := pos);
      assert tokens[..k] == Counted(toks, super);
      assert tokens[k] == Token(kind, pos, -1, 0, super);
      toksuper := toknext - 1;
      assert tokens[..toknext] == tokens[..k] + [tokens[k]];
      return Success;
    }

    /** The switch on the current character. */
    method Dispatch(js: string, tokens: array<Token>) returns (r: Status)
      requires Valid(tokens) && At(js, pos) != '\0'
      modifies this, tokens
      ensures Valid(tokens)
      ensures forall i :: toknext <= i < tokens.Length ==> tokens[i] == old(tokens[i])
      ensures match Step(js, tokens.Length, false, old(View(tokens)))
              case Halt(e) => r == e && r != Success && View(tokens) == old(View(tokens))
              case Go(next) => r == Success && View(tokens).(pos := pos + 1) == next
    {
      var c := js[pos];
      if c == '{' || c == '[' {
        r := OpenContainer(tokens, if c == '{' then Object else Array);
      } else if c == '}' || c == ']' {
        r := CloseByParentLinks(tokens, if c == '}' then Object else Array);
      } else if c == '"' {
        r := ParseString(js, tokens);
        if r == Success { CountUnderSuper(tokens); }
      } else if c == '\t' || c == '\r' || c == '\n' || c == ':' || c == ',' || c == ' ' {
        r := Success;
      } else if PrimitiveStart(c) {
        r := ParsePrimitive(js, tokens);
        if r == Success { CountUnderSuper(tokens); }
      } else {
        r := Inval;
      }
    }

    /** The main loop. Tokens past `toknext` are never touched. */
    method Parse(js: string, tokens: array<Token>) returns (r: Status)
      requires Valid(tokens)
      modifies this, tokens
      ensures Valid(tokens)
      ensures (r, View(tokens)) == Run(js, tokens.Length, false, old(View(tokens)))
      ensures forall i :: toknext <= i < tokens.Length ==> tokens[i] == old(tokens[i])
    {
      ghost var outcome := Run(js, tokens.Length, false, View(tokens));
      while At(js, pos) != '\0'
        invariant Valid(tokens)
        invariant Run(js, tokens.Length, false, View(tokens)) == outcome
        invariant forall i :: toknext <= i < tokens.Length ==> tokens[i] == old(tokens[i])
        decreases |js| - pos
      {
        ghost var s := View(tokens);
        r := Dispatch(js, tokens);
        if r != Success { return; }
        pos := pos + 1;
        assert Step(js, tokens.Length, false, s) == Go(View(tokens));
      }
      r := CheckClosed(tokens);
    }

    /** The text is at its end: is every container closed? */
    method CheckClosed(tokens: array<Token>) returns (r: Status)
      requires Valid(tokens)
      ensures r == Finish(View(tokens))
    {
      var i := toknext - 1;
      while i >= 0
        invariant -1 <= i < toknext
        invariant LastOpen(tokens[..toknext], i + 1) == LastOpen(tokens[..toknext], toknext)
      {
        if Open(tokens[i]) { return Part; }
        i := i - 1;
      }
      return Success;
    }
  }
}
