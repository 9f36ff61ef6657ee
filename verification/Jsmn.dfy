/** The tokenizer itself: the loops of jsmn.h over a parser object and a token array, each proved
    against JsmnSpec. A null token array selects counting mode, as in the source. */
module Jsmn {
  import opened JsmnSpec

  /** One past the largest text length whose positions fit the C `int` fields. */
  const LIMIT := 0x8000_0000

  class Parser {
    var pos: nat
    var toknext: nat
    var toksuper: int

    /** `jsmn_init` */
    constructor ()
      ensures pos == 0 && toknext == 0 && toksuper == -1
    {
      pos, toknext, toksuper := 0, 0, -1;
    }

    ghost predicate Valid(tokens: array?<Token>)
      reads this
    {
      tokens != null ==> toknext <= tokens.Length && -1 <= toksuper < toknext
    }

    /** The loop-head state that the parser and the used part of the array stand for. */
    ghost function View(tokens: array<Token>): State
      requires Valid(tokens)
      reads this, tokens
    {
      State(pos, tokens[..toknext], toksuper)
    }

    /** The code of a sub-scanner call whose scan gave `s`. */
    ghost function CodeOf(s: Scan, tokens: array?<Token>): int
      reads this
    {
      if s.Failed? then s.code
      else if tokens != null && toknext >= tokens.Length then NOMEM
      else 0
    }

    /** `jsmn_alloc_token`: the index of the new token, or -1. */
    method AllocToken(tokens: array<Token>) returns (i: int)
      requires Valid(tokens)
      modifies this`toknext, tokens
      ensures Valid(tokens)
      ensures i == -1 <==> old(toknext) == tokens.Length
      ensures i == -1 ==> toknext == old(toknext) && tokens[..] == old(tokens[..])
      ensures i != -1 ==> i == old(toknext) && toknext == i + 1
      ensures i != -1 ==> tokens[..] == old(tokens[..])[i := old(tokens[..])[i].(start := -1, end := -1, size := 0)]
    {
      if toknext >= tokens.Length {
        return -1;
      }
      i := toknext;
      toknext := toknext + 1;
      tokens[i] := tokens[i].(start := -1, end := -1, size := 0);
    }

    /** `jsmn_fill_token` */
    static method FillToken(tokens: array<Token>, i: nat, kind: Kind, start: int, end: int)
      requires i < tokens.Length
      modifies tokens
      ensures tokens[..] == old(tokens[..])[i := Token(kind, start, end, 0)]
    {
      tokens[i] := tokens[i].(kind := kind);
      tokens[i] := tokens[i].(start := start);
      tokens[i] := tokens[i].(end := end);
      tokens[i] := tokens[i].(size := 0);
    }

    /** Both together, for a string or a bare word. */
    method NewToken(tokens: array<Token>, kind: Kind, start: int, end: int) returns (ok: bool)
      requires Valid(tokens)
      modifies this`toknext, tokens
      ensures Valid(tokens) && ok == (old(toknext) < tokens.Length)
      ensures !ok ==> toknext == old(toknext) && tokens[..] == old(tokens[..])
      ensures ok ==>
        && toknext == old(toknext) + 1
        && tokens[..] == old(tokens[..])[old(toknext) := Token(kind, start, end, 0)]
    {
      var i := AllocToken(tokens);
      if i == -1 {
        return false;
      }
      FillToken(tokens, i, kind, start, end);
      return true;
    }

    /** Counts the newest token, at index `i`, as a child of the superior token. */
    method CountChild(tokens: array<Token>, i: nat)
      requires Valid(tokens) && toksuper < i < toknext
      modifies tokens
      ensures tokens[..i] == Bump(old(tokens[..i]), toksuper)
      ensures tokens[i..] == old(tokens[i..])
    {
      if toksuper != -1 {
        tokens[toksuper] := tokens[toksuper].(size := tokens[toksuper].size + 1);
      }
    }

    /** `jsmn_parse_primitive`; on success `pos` is left on the last character of the word. */
    method ParsePrimitive(js: string, tokens: array?<Token>) returns (r: int)
      requires Valid(tokens) && pos < |js| < LIMIT
      requires !AtEnd(js, pos) && !IsDelimiter(js[pos])
      modifies this`pos, this`toknext, tokens
      ensures Valid(tokens)
      ensures r == old(CodeOf(ScanPrimitive(js, pos), tokens))
      ensures r < 0 ==> pos == old(pos)
      ensures r < 0 || tokens == null ==> toknext == old(toknext)
      ensures r < 0 && tokens != null ==> tokens[..] == old(tokens[..])
      ensures r == 0 ==> pos + 1 == ScanPrimitive(js, old(pos)).at
      ensures r == 0 && tokens != null ==>
        && toknext == old(toknext) + 1
        && tokens[..] == old(tokens[..])[old(toknext) := Token(Primitive, old(pos), pos + 1, 0)]
    {
      var start := pos;
      while pos < |js| && js[pos] != '\0'
        invariant start <= pos <= |js|
        invariant pos > start || !AtEnd(js, pos)
        invariant ScanPrimitive(js, start) == ScanPrimitive(js, pos)
        invariant toknext == old(toknext) && (tokens != null ==> tokens[..] == old(tokens[..]))
        decreases |js| - pos
      {
        if js[pos] in ":\t\r\n ,]}" {
          break;
        }
        if js[pos] < 32 as char || js[pos] >= 127 as char {
          pos := start;
          return INVAL;
        }
        pos := pos + 1;
      }
      if tokens == null {
        pos := pos - 1;
        return 0;
      }
      var ok := NewToken(tokens, Primitive, start, pos);
      if !ok {
        pos := start;
        return NOMEM;
      }
      pos := pos - 1;
      return 0;
    }

    /** The loop over the digits of a \u escape inside `jsmn_parse_string`. */
    method ParseHex(js: string) returns (ok: bool)
      requires pos <= |js| < LIMIT
      modifies this`pos
      ensures ok == ScanHex(js, old(pos), 4).Found?
      ensures ok ==> pos == ScanHex(js, old(pos), 4).at
    {
      var i := 0;
      while i < 4 && pos < |js| && js[pos] != '\0'
        invariant 0 <= i <= 4 && pos <= |js|
        invariant ScanHex(js, old(pos), 4) == ScanHex(js, pos, 4 - i)
      {
        if !(48 as char <= js[pos] <= 57 as char
             || 65 as char <= js[pos] <= 70 as char
             || 97 as char <= js[pos] <= 102 as char) {
          return false;
        }
        pos := pos + 1;
        i := i + 1;
      }
      return true;
    }

    /** The part of `jsmn_parse_string` behind a backslash; on success `pos` is left on the last
        character of the escape. */
    method ParseEscape(js: string) returns (ok: bool)
      requires pos + 1 < |js| < LIMIT && !AtEnd(js, pos) && js[pos] == '\\'
      modifies this`pos
      ensures !ok ==> ScanString(js, old(pos)) == Failed(INVAL)
      ensures ok ==> old(pos) < pos < |js| && ScanString(js, old(pos)) == ScanString(js, pos + 1)
    {
      pos := pos + 1;
      if js[pos] in "\"/\\bfrnt" {
      } else if js[pos] == 'u' {
        pos := pos + 1;
        ok := ParseHex(js);
        if !ok {
          return false;
        }
        pos := pos - 1;
      } else {
        return false;
      }
      return true;
    }

    /** `jsmn_parse_string`; on success `pos` is left on the closing quote. */
    method ParseString(js: string, tokens: array?<Token>) returns (r: int)
      requires Valid(tokens) && pos < |js| < LIMIT
      modifies this`pos, this`toknext, tokens
      ensures Valid(tokens)
      ensures r == old(CodeOf(ScanString(js, pos + 1), tokens))
      ensures r < 0 ==> pos == old(pos)
      ensures r < 0 || tokens == null ==> toknext == old(toknext)
      ensures r < 0 && tokens != null ==> tokens[..] == old(tokens[..])
      ensures r == 0 ==> pos == ScanString(js, old(pos) + 1).at
      ensures r == 0 && tokens != null ==>
        && toknext == old(toknext) + 1
        && tokens[..] == old(tokens[..])[old(toknext) := Token(String, old(pos) + 1, pos, 0)]
    {
      var start := pos;
      pos := pos + 1;
      while pos < |js| && js[pos] != '\0'
        invariant start < pos <= |js|
        invariant toknext == old(toknext) && (tokens != null ==> tokens[..] == old(tokens[..]))
        invariant ScanString(js, start + 1) == ScanString(js, pos)
        decreases |js| - pos
      {
        var c := js[pos];
        if c == '"' {
          if tokens == null {
            return 0;
          }
          var ok := NewToken(tokens, String, start + 1, pos);
          if !ok {
            pos := start;
            return NOMEM;
          }
          return 0;
        }
        if c == '\\' && pos + 1 < |js| {
          var ok := ParseEscape(js);
          if !ok {
            pos := start;
            return INVAL;
          }
        }
        pos := pos + 1;
      }
      pos := start;
      return PART;
    }

    /** The opening-bracket case. */
    method OpenContainer(js: string, tokens: array<Token>, kind: Kind) returns (ok: bool)
      requires Valid(tokens)
      modifies this`toknext, this`toksuper, tokens
      ensures Valid(tokens)
      ensures ok == (old(toknext) < tokens.Length)
      ensures !ok ==> View(tokens) == old(View(tokens)) && tokens[..] == old(tokens[..])
      ensures ok ==> toksuper == old(toknext) && tokens[toknext..] == old(tokens[..])[toknext..]
      ensures ok ==> tokens[..toknext] == Add(old(View(tokens)), Token(kind, pos, -1, 0))
    {
      var i := AllocToken(tokens);
      if i == -1 {
        return false;
      }
      CountChild(tokens, i);
      ghost var was := tokens[..];
      tokens[i] := tokens[i].(kind := kind);
      tokens[i] := tokens[i].(start := pos);
      toksuper := toknext - 1;
      assert tokens[..i] == was[..i] == Bump(old(tokens[..toknext]), old(toksuper));
      return true;
    }

    /** The two backward scans of the closing-bracket case. */
    method CloseContainer(tokens: array<Token>, kind: Kind) returns (ok: bool)
      requires Valid(tokens) && pos + 1 < LIMIT
      modifies this`toksuper, tokens
      ensures Valid(tokens)
      ensures var st, i := old(View(tokens)), LastOpen(old(tokens[..toknext]), old(toknext));
        && ok == (i != -1 && st.toks[i].kind == kind)
        && (!ok ==> toksuper == st.super && tokens[..] == old(tokens[..]))
        && (ok ==> toksuper == LastOpen(st.toks, i)
                   && tokens[..] == old(tokens[..])[i := st.toks[i].(end := pos + 1)])
    {
      ghost var toks := tokens[..toknext];
      var i: int := toknext - 1;
      while i >= 0
        invariant -1 <= i < toknext
        invariant tokens[..] == old(tokens[..]) && toksuper == old(toksuper)
        invariant LastOpen(toks, toknext) == LastOpen(toks, i + 1)
      {
        if tokens[i].start != -1 && tokens[i].end == -1 {
          if tokens[i].kind != kind {
            return false;
          }
          toksuper := -1;
          tokens[i] := tokens[i].(end := pos + 1);
          break;
        }
        i := i - 1;
      }
      if i == -1 {
        return false;
      }
      ghost var k := i;
      while i >= 0
        invariant -1 <= i <= k && toksuper == -1
        invariant tokens[..] == old(tokens[..])[k := toks[k].(end := pos + 1)]
        invariant LastOpen(toks, k) == LastOpen(toks, if i == k then i else i + 1)
      {
        if tokens[i].start != -1 && tokens[i].end == -1 {
          toksuper := i;
          break;
        }
        i := i - 1;
      }
      return true;
    }

    /** The comma case: after a scalar value, climb back to the innermost open container. */
    method Separate(tokens: array<Token>)
      requires Valid(tokens)
      modifies this`toksuper
      ensures Valid(tokens) && toksuper == SuperAfterComma(old(View(tokens)))
    {
      if toksuper != -1 && tokens[toksuper].kind != Array && tokens[toksuper].kind != Object {
        ghost var toks := tokens[..toknext];
        var i: int := toknext - 1;
        while i >= 0
          invariant -1 <= i < toknext && toksuper == old(toksuper)
          invariant LastOpenContainer(toks, toknext) == LastOpenContainer(toks, i + 1)
        {
          if tokens[i].kind == Array || tokens[i].kind == Object {
            if tokens[i].start != -1 && tokens[i].end == -1 {
              toksuper := i;
              break;
            }
          }
          i := i - 1;
        }
      }
    }

    /** Counts a freshly scanned string or bare word, at index `i`, as a child. */
    method Adopt(js: string, tokens: array<Token>, i: nat, ghost p: nat, ghost st: State)
      requires Valid(tokens) && toknext == i + 1 && toksuper < i && |st.toks| == i
      requires Scoped(st) && st.super == toksuper && st.toks == tokens[..i]
      requires !AtEnd(js, p) && Lex(js, p).Text? && tokens[i] == Lex(js, p).token
      modifies tokens
      ensures tokens[..toknext] == Add(st, Lex(js, p).token)
      ensures tokens[toknext..] == old(tokens[toknext..])
    {
      CountChild(tokens, i);
      assert tokens[i..][0] == Lex(js, p).token;
      assert tokens[toknext..] == tokens[i..][1..];
      assert tokens[..toknext] == tokens[..i] + [tokens[i]];
    }

    /** The string case and the default case: both scan, and both count the token as a child. */
    method TakeText(js: string, tokens: array?<Token>) returns (r: int)
      requires Valid(tokens) && |js| < LIMIT && !AtEnd(js, pos)
      requires js[pos] == '"' || Lex(js, pos).Text? || Lex(js, pos).Bad?
      modifies this`pos, this`toknext, tokens
      ensures Valid(tokens) && r <= 0
      ensures tokens != null ==> match Step(js, old(View(tokens)), tokens.Length)
        case Stop(code) => r == code && View(tokens) == old(View(tokens)) && tokens[..] == old(tokens[..])
        case Go(st) => r == 0 && pos + 1 == st.pos && tokens[..toknext] == st.toks && toksuper == st.super
                       && tokens[toknext..] == old(tokens[..])[toknext..]
      ensures tokens == null ==> var x := Lex(js, old(pos));
        && toknext == old(toknext)
        && (x.Bad? || x.Text?)
        && r == (if x.Bad? then x.code else 0)
        && (r == 0 ==> pos + 1 == Next(x, old(pos)))
    {
      ghost var n := toknext;
      if js[pos] == '"' {
        r := ParseString(js, tokens);
      } else {
        r := ParsePrimitive(js, tokens);
      }
      if r == 0 && tokens != null {
        Adopt(js, tokens, toknext - 1, old(pos), old(View(tokens)));
      }
    }

    /** The cases of the four brackets. */
    method TakeBracket(js: string, tokens: array<Token>) returns (r: int)
      requires Valid(tokens) && |js| < LIMIT && !AtEnd(js, pos) && (Lex(js, pos).Open? || Lex(js, pos).Close?)
      modifies this`toknext, this`toksuper, tokens
      ensures Valid(tokens) && r <= 0
      ensures match Step(js, old(View(tokens)), tokens.Length)
        case Stop(code) => r == code && View(tokens) == old(View(tokens)) && tokens[..] == old(tokens[..])
        case Go(st) => r == 0 && pos + 1 == st.pos && tokens[..toknext] == st.toks && toksuper == st.super
                       && tokens[toknext..] == old(tokens[..])[toknext..]
    {
      var c := js[pos];
      if c == '{' || c == '[' {
        var ok := OpenContainer(js, tokens, if c == '{' then Object else Array);
        return if ok then 0 else NOMEM;
      }
      var ok := CloseContainer(tokens, if c == '}' then Object else Array);
      if !ok {
        return INVAL;
      }
      ghost var st := old(View(tokens));
      ghost var i := LastOpen(st.toks, |st.toks|);
      assert tokens[..toknext] == st.toks[i := st.toks[i].(end := pos + 1)];
      return 0;
    }

    /** One iteration of the main loop: a negative code stops it. */
    method Iterate(js: string, tokens: array?<Token>, count: nat) returns (r: int, count': nat)
      requires Valid(tokens) && |js| < LIMIT && !AtEnd(js, pos)
      requires tokens != null ==> count == toknext
      modifies this, tokens
      ensures Valid(tokens)
      ensures tokens != null ==> match Step(js, old(View(tokens)), tokens.Length)
        case Stop(code) => r == code && View(tokens) == old(View(tokens)) && tokens[..] == old(tokens[..])
        case Go(st) => r == 0 && View(tokens) == st && count' == toknext
                       && tokens[toknext..] == old(tokens[..])[toknext..]
      ensures tokens == null ==> var x := Lex(js, old(pos));
        && toknext == old(toknext)
        && r == (if x.Bad? then x.code else 0)
        && (r == 0 ==> pos == Next(x, old(pos))
                       && count' == if x.Open? || x.Text? then count + 1 else count)
    {
      count' := count;
      var c := js[pos];
      if c == '{' || c == '[' || c == '}' || c == ']' {
        if c == '{' || c == '[' {
          count' := count' + 1;
        }
        if tokens != null {
          r := TakeBracket(js, tokens);
          if r < 0 {
            return r, count';
          }
        }
      } else if c == '"' {
        r := TakeText(js, tokens);
        if r < 0 {
          return r, count';
        }
        count' := count' + 1;
      } else if c == '\t' || c == '\r' || c == '\n' || c == ' ' {
      } else if c == ':' {
        toksuper := toknext - 1;
      } else if c == ',' {
        if tokens != null {
          Separate(tokens);
        }
      } else {
        r := TakeText(js, tokens);
        if r < 0 {
          return r, count';
        }
        count' := count' + 1;
      }
      pos := pos + 1;
      r := 0;
    }

    /** `jsmn_parse`. With a token array, the return value, the parser fields and the used tokens
        are those of the specification and unused tokens are left alone; without one, the return
        value is the count and no token is allocated. */
    method Parse(js: string, tokens: array?<Token>) returns (r: int)
      requires Valid(tokens) && pos <= |js| < LIMIT
      modifies this, tokens
      ensures Valid(tokens)
      ensures tokens != null ==> Outcome(r, View(tokens)) == Run(js, old(View(tokens)), tokens.Length)
      ensures tokens != null ==> tokens[toknext..] == old(tokens[..])[toknext..]
      ensures tokens == null ==> r == CountRun(js, old(pos), old(toknext)) && toknext == old(toknext)
    {
      var count := toknext;
      while pos < |js| && js[pos] != '\0'
        invariant Valid(tokens) && pos <= |js|
        invariant tokens != null ==>
          && count == toknext
          && Run(js, View(tokens), tokens.Length) == Run(js, old(View(tokens)), tokens.Length)
          && tokens[toknext..] == old(tokens[..])[toknext..]
        invariant tokens == null ==>
          && toknext == old(toknext)
          && CountRun(js, pos, count) == CountRun(js, old(pos), old(toknext))
        decreases |js| - pos
      {
        r, count := Iterate(js, tokens, count);
        if r < 0 {
          return r;
        }
      }
      if tokens != null {
        ghost var toks := tokens[..toknext];
        var i: int := toknext - 1;
        while i >= 0
          invariant -1 <= i < toknext
          invariant LastOpen(toks, toknext) == LastOpen(toks, i + 1)
        {
          if tokens[i].start != -1 && tokens[i].end == -1 {
            return PART;
          }
          i := i - 1;
        }
      }
      return count;
    }
  }
}
