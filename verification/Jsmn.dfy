/** The tokenizer itself: it keeps three numbers of its own and patches one flat
    token array in place. */
module Jsmn {
  import opened JsmnSpec

  class Parser {
    var pos: nat
    var toknext: nat
    var toksuper: int

    constructor ()
      ensures pos == 0 && toknext == 0 && toksuper == -1
    {
      pos, toknext, toksuper := 0, 0, -1;
    }

    ghost predicate Valid(js: string, tokens: array<Token>)
      reads this
    {
      pos <= |js| && toknext <= tokens.Length && -1 <= toksuper < toknext
    }

    ghost predicate Unused(tokens: array<Token>)
      reads this, tokens
    {
      forall i :: toknext <= i < tokens.Length ==> tokens[i] == FREE
    }

    /** The abstract parser state this object and its token array stand for. */
    ghost function Abs(tokens: array<Token>): State
      reads this, tokens
      requires toknext <= tokens.Length
    {
      State(pos, tokens[..toknext], toksuper)
    }

    /** Takes the first free token at or after toknext. */
    method AllocToken(tokens: array<Token>) returns (r: int)
      requires toknext <= tokens.Length
      modifies this`toknext
      ensures old(Unused(tokens)) ==> r == (if old(toknext) < tokens.Length then old(toknext) else -1)
      ensures r == -1 ==> toknext == old(toknext) &&
                          forall i :: toknext <= i < tokens.Length ==> tokens[i].start != -1 || tokens[i].end != -1
      ensures r != -1 ==> old(toknext) <= r < tokens.Length && toknext == r + 1 &&
                          tokens[r].start == -1 && tokens[r].end == -1 &&
                          forall i :: old(toknext) <= i < r ==> tokens[i].start != -1 || tokens[i].end != -1
    {
      for i := toknext to tokens.Length
        invariant toknext == old(toknext)
        invariant old(Unused(tokens)) ==> i == toknext
        invariant forall k :: toknext <= k < i ==> tokens[k].start != -1 || tokens[k].end != -1
      {
        if tokens[i].start == -1 && tokens[i].end == -1 {
          toknext := i + 1;
          return i;
        }
      }
      r := -1;
    }

    /** Reads the primitive at pos; on success pos is left on its last character. */
    method ParsePrimitive(js: string, tokens: array<Token>) returns (code: Code)
      requires Valid(js, tokens) && Unused(tokens)
      requires At(js, pos) != '\0' && !IsDelimiter(At(js, pos))
      modifies this`pos, this`toknext, tokens
      ensures Valid(js, tokens) && Unused(tokens)
      ensures var e := PrimitiveEnd(js, old(pos));
              if e == -1 then code == Inval && Abs(tokens) == old(Abs(tokens))
              else if old(toknext) >= tokens.Length then code == NoMem && Abs(tokens) == old(Abs(tokens))
              else code == Success && pos == e - 1 &&
                   tokens[..toknext] == old(tokens[..toknext]) + [Token(Primitive, old(pos), e, 0)]
    {
      var start := pos;
      while At(js, pos) != '\0' && !IsDelimiter(At(js, pos))
        invariant start <= pos <= |js|
        invariant PrimitiveEnd(js, pos) == PrimitiveEnd(js, start)
        invariant pos == start ==> At(js, pos) != '\0' && !IsDelimiter(At(js, pos))
        decreases |js| - pos
        modifies this`pos
      {
        if !IsPlain(At(js, pos)) {
          pos := start;
          return Inval;
        }
        pos := pos + 1;
      }
      var t := AllocToken(tokens);
      if t == -1 {
        pos := start;
        return NoMem;
      }
      tokens[t] := Token(Primitive, start, pos, 0);
      pos := pos - 1;
      return Success;
    }

    /** Reads the string whose opening quote is at pos; on success pos is left on the closing quote. */
    method ParseString(js: string, tokens: array<Token>) returns (code: Code)
      requires Valid(js, tokens) && Unused(tokens)
      requires At(js, pos) == '\"'
      modifies this`pos, this`toknext, tokens
      ensures Valid(js, tokens) && Unused(tokens)
      ensures match ScanString(js, old(pos) + 1)
              case BadEscape => code == Inval && Abs(tokens) == old(Abs(tokens))
              case Unclosed => code == Part && Abs(tokens) == old(Abs(tokens))
              case Closed(q) =>
                if old(toknext) >= tokens.Length then code == NoMem && Abs(tokens) == old(Abs(tokens))
                else code == Success && pos == q &&
                     tokens[..toknext] == old(tokens[..toknext]) + [Token(String, old(pos) + 1, q, 0)]
    {
      var start := pos;
      pos := pos + 1;
      while At(js, pos) != '\0'
        invariant start < pos <= |js|
        invariant ScanString(js, pos) == ScanString(js, start + 1)
        invariant toknext == old(toknext) && Unused(tokens) && tokens[..toknext] == old(tokens[..toknext])
        decreases |js| - pos
      {
        var c := At(js, pos);
        if c == '\"' {
          var t := AllocToken(tokens);
          if t == -1 {
            pos := start;
            return NoMem;
          }
          tokens[t] := Token(String, start + 1, pos, 0);
          return Success;
        }
        if c == '\\' {
          pos := pos + 1;
          if !IsEscapable(At(js, pos)) {
            pos := start;
            return Inval;
          }
        }
        pos := pos + 1;
      }
      pos := start;
      return Part;
    }

    /** Finds the innermost unclosed token at or below `from`. */
    method FindOpen(tokens: array<Token>, from: int) returns (i: int)
      requires -1 <= from < tokens.Length
      ensures i == InnermostOpen(tokens[..], from + 1)
    {
      i := from;
      while i >= 0 && !(tokens[i].start != -1 && tokens[i].end == -1)
        invariant -1 <= i <= from
        invariant InnermostOpen(tokens[..], i + 1) == InnermostOpen(tokens[..], from + 1)
      {
        i := i - 1;
      }
    }

    /** Closes the innermost container, which must be of the given kind. */
    method CloseContainer(js: string, tokens: array<Token>, kind: Kind) returns (code: Code)
      requires Valid(js, tokens) && Unused(tokens)
      modifies this`toksuper, tokens
      ensures Valid(js, tokens) && Unused(tokens)
      ensures var s := old(Abs(tokens));
              var i := InnermostOpen(s.toks, |s.toks|);
              if i == -1 || s.toks[i].kind != kind then code == Inval && Abs(tokens) == s
              else code == Success && Abs(tokens) == Shut(s, i).(pos := pos)
    {
      var i := FindOpen(tokens, toknext - 1);
      OpenOfPrefix(tokens[..], toknext, toknext);
      if i == -1 {
        return Inval;
      }
      if tokens[i].kind != kind {
        return Inval;
      }
      tokens[i] := tokens[i].(end := pos + 1);
      toksuper := FindOpen(tokens, i);
      OpenOfPrefix(tokens[..], i, toknext);
      return Success;
    }

    method CountChild(js: string, tokens: array<Token>, ghost had: nat)
      requires Valid(js, tokens) && Unused(tokens) && -1 <= toksuper < had <= toknext
      modifies tokens
      ensures Unused(tokens)
      ensures tokens[..toknext] == Bump(old(tokens[..had]), toksuper) + old(tokens[had..toknext])
    {
      if toksuper != -1 {
        tokens[toksuper] := tokens[toksuper].(size := tokens[toksuper].size + 1);
      }
    }

    /** Opens a container at pos, as a child of the innermost open one. */
    method OpenContainer(js: string, tokens: array<Token>, kind: Kind) returns (code: Code)
      requires Valid(js, tokens) && Unused(tokens)
      modifies this`toknext, this`toksuper, tokens
      ensures Valid(js, tokens) && Unused(tokens)
      ensures var s := old(Abs(tokens));
              if |s.toks| >= tokens.Length then code == NoMem && Abs(tokens) == s
              else
                code == Success &&
                Abs(tokens) == Push(s, Token(kind, pos, -1, 0), pos, |s.toks|)
    {
      ghost var used := tokens[..toknext];
      var t := AllocToken(tokens);
      if t == -1 {
        return NoMem;
      }
      assert tokens[..t] == used && tokens[t..toknext] == [FREE];
      CountChild(js, tokens, t);
      assert tokens[..toknext] == Bump(used, toksuper) + [FREE];
      assert tokens[..toknext][t] == FREE;
      tokens[t] := tokens[t].(kind := kind, start := pos);
      toksuper := toknext - 1;
      return Success;
    }

    /** Reads a string and counts it as a child. */
    method AddString(js: string, tokens: array<Token>) returns (code: Code)
      requires Valid(js, tokens) && Unused(tokens) && At(js, pos) == '\"'
      modifies this`pos, this`toknext, tokens
      ensures Valid(js, tokens) && Unused(tokens)
      ensures var s := old(Abs(tokens));
              match ScanString(js, s.pos + 1)
              case BadEscape => code == Inval && Abs(tokens) == s
              case Unclosed => code == Part && Abs(tokens) == s
              case Closed(q) =>
                if |s.toks| >= tokens.Length then code == NoMem && Abs(tokens) == s
                else code == Success && Abs(tokens) == Push(s, Token(String, s.pos + 1, q, 0), q, s.super)
    {
      ghost var had := toknext;
      code := ParseString(js, tokens);
      if code == Success {
        CountChild(js, tokens, had);
      }
    }

    /** Reads a primitive and counts it as a child. */
    method AddPrimitive(js: string, tokens: array<Token>) returns (code: Code)
      requires Valid(js, tokens) && Unused(tokens)
      requires At(js, pos) != '\0' && !IsDelimiter(At(js, pos))
      modifies this`pos, this`toknext, tokens
      ensures Valid(js, tokens) && Unused(tokens)
      ensures var s := old(Abs(tokens));
              var e := PrimitiveEnd(js, s.pos);
              if e == -1 then code == Inval && Abs(tokens) == s
              else if |s.toks| >= tokens.Length then code == NoMem && Abs(tokens) == s
              else code == Success && e > 0 &&
                   Abs(tokens) == Push(s, Token(Primitive, s.pos, e, 0), e - 1, s.super)
    {
      ghost var had := toknext;
      code := ParsePrimitive(js, tokens);
      if code == Success {
        CountChild(js, tokens, had);
      }
    }

    /** One turn of the scanning loop, before pos moves on. */
    method ParseAt(js: string, tokens: array<Token>) returns (code: Code)
      requires Valid(js, tokens) && Unused(tokens) && At(js, pos) != '\0'
      modifies this, tokens
      ensures Valid(js, tokens) && Unused(tokens)
      ensures match Step(js, tokens.Length, old(Abs(tokens)))
              case Stop(c) => c == code && code != Success && Abs(tokens) == old(Abs(tokens))
              case Next(s) => code == Success && s == Abs(tokens).(pos := pos + 1)
    {
      var c := At(js, pos);
      if IsOpening(c) {
        code := OpenContainer(js, tokens, KindOf(c));
      } else if IsClosing(c) {
        code := CloseContainer(js, tokens, KindOf(c));
      } else if c == '\"' {
        code := AddString(js, tokens);
      } else if IsBlank(c) || c == ':' || c == ',' {
        code := Success;
      } else {
        code := AddPrimitive(js, tokens);
      }
    }

    /** One call of the tokenizer is exactly `Run` on the state it was called in. */
    method Parse(js: string, tokens: array<Token>) returns (code: Code)
      requires Valid(js, tokens)
      modifies this, tokens
      ensures Valid(js, tokens) && Unused(tokens)
      ensures (Abs(tokens), code) == Run(js, tokens.Length, old(Abs(tokens)))
    {
      ghost var s0 := Abs(tokens);
      for i := toknext to tokens.Length
        invariant Valid(js, tokens) && Abs(tokens) == s0
        invariant forall k :: toknext <= k < i ==> tokens[k] == FREE
      {
        tokens[i] := FREE;
      }
      while At(js, pos) != '\0'
        invariant Valid(js, tokens) && Unused(tokens)
        invariant Run(js, tokens.Length, Abs(tokens)) == Run(js, tokens.Length, s0)
        decreases |js| - pos
      {
        code := ParseAt(js, tokens);
        if code != Success {
          return;
        }
        pos := pos + 1;
      }
      var i := FindOpen(tokens, toknext - 1);
      OpenOfPrefix(tokens[..], toknext, toknext);
      return if i != -1 then Part else Success;
    }
  }
}
