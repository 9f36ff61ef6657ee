/** Brackets outside strings, read character by character and without the tokenizer: quotation marks
    toggle, a backslash inside them escapes the next character. On accepted texts the two readings
    agree as long as no bare word holds a quotation mark. */
module JsmnQuotes {
  import opened JsmnSpec
  import opened JsmnRuns
  import opened JsmnSpans

  function BracketOf(c: char): seq<Bracket> {
    if c == '{' then [Opening(Object)]
    else if c == '[' then [Opening(Array)]
    else if c == '}' then [Closing(Object)]
    else if c == ']' then [Closing(Array)]
    else []
  }

  /** The brackets from p on that stand outside quotation marks, when p does. */
  function Outside(js: string, p: nat): seq<Bracket>
    decreases |js| - p
  {
    if AtEnd(js, p) then []
    else if js[p] == '"' then Inside(js, p + 1)
    else BracketOf(js[p]) + Outside(js, p + 1)
  }

  /** The same when p stands inside. */
  function Inside(js: string, p: nat): seq<Bracket>
    decreases |js| - p
  {
    if AtEnd(js, p) then []
    else if js[p] == '"' then Outside(js, p + 1)
    else if js[p] == '\\' then Inside(js, p + 2)
    else Inside(js, p + 1)
  }

  // ---------------------------------------------------------------- the tokenizer's pieces

  lemma {:induction false} InsideHex(js: string, p: nat, n: nat)
    requires p <= |js| && ScanHex(js, p, n).Found?
    ensures Inside(js, p) == Inside(js, ScanHex(js, p, n).at)
    decreases n
  {
    if n > 0 && !AtEnd(js, p) {
      InsideHex(js, p + 1, n - 1);
    }
  }

  lemma {:induction false} InsideString(js: string, p: nat)
    requires p <= |js| && ScanString(js, p).Found?
    ensures Inside(js, p) == Outside(js, ScanString(js, p).at + 1)
    decreases |js| - p
  {
    if js[p] == '"' {
    } else if js[p] != '\\' {
      InsideString(js, p + 1);
    } else if p + 1 < |js| {
      if IsEscape(js[p + 1]) {
        InsideString(js, p + 2);
      } else {
        var next := ScanHex(js, p + 2, 4).at;
        InsideHex(js, p + 2, 4);
        InsideString(js, next);
      }
    }
  }

  lemma OneBracketMore(first: seq<Bracket>, rest: seq<Bracket>, behind: seq<Bracket>)
    ensures first + (rest + behind) == (first + rest) + behind
  {
  }

  /** One character of a bare word. */
  lemma OutsideChar(js: string, p: nat, q: nat, behind: seq<Bracket>)
    requires p < q <= |js| && !AtEnd(js, p) && js[p] != '"' && js[p] != '}' && js[p] != ']'
    requires Outside(js, p + 1) == WordBrackets(js, p + 1, q) + behind
    ensures Outside(js, p) == WordBrackets(js, p, q) + behind
  {
    OneBracketMore(BracketOf(js[p]), WordBrackets(js, p + 1, q), behind);
    assert WordBrackets(js, p, q) == BracketOf(js[p]) + WordBrackets(js, p + 1, q);
  }

  lemma {:induction false} OutsideWord(js: string, p: nat, q: nat)
    requires p <= |js| && ScanPrimitive(js, p) == Found(q) && forall i :: p <= i < q ==> js[i] != '"'
    ensures Outside(js, p) == WordBrackets(js, p, q) + Outside(js, q)
    decreases |js| - p
  {
    if p == q {
      assert [] + Outside(js, q) == Outside(js, q);
    } else {
      OutsideWord(js, p + 1, q);
      OutsideChar(js, p, q, Outside(js, q));
    }
  }

  // ---------------------------------------------------------------- whole texts

  /** No bare word holds a quotation mark. */
  predicate WordsAreUnquoted(js: string, p: nat)
    decreases |js| - p
  {
    AtEnd(js, p) ||
    var x := Lex(js, p);
    x.Bad?
    || ((x.Text? && x.token.kind == Primitive ==> forall i :: x.token.start <= i < x.token.end ==> js[i] != '"')
        && WordsAreUnquoted(js, Next(x, p)))
  }

  lemma OutsideSymbol(js: string, p: nat)
    requires !AtEnd(js, p) && !Lex(js, p).Bad? && !Lex(js, p).Text?
    ensures js[p] != '"' && BracketOf(js[p]) == Sign(Lex(js, p))
  {
  }

  lemma OutsideString(js: string, p: nat)
    requires !AtEnd(js, p) && Lex(js, p).Text? && Lex(js, p).token.kind == String
    ensures Outside(js, p) == Outside(js, Lex(js, p).next)
  {
    InsideString(js, p + 1);
  }

  lemma OutsideBareWord(js: string, p: nat)
    requires !AtEnd(js, p) && Lex(js, p).Text? && Lex(js, p).token.kind == Primitive
    requires forall i :: p <= i < Lex(js, p).next ==> js[i] != '"'
    ensures var x := Lex(js, p);
      && x.token.start == p && x.token.end == x.next
      && Outside(js, p) == WordBrackets(js, p, x.next) + Outside(js, x.next)
  {
    OutsideWord(js, p, Lex(js, p).next);
  }

  /** One lexeme. */
  lemma OutsideLexeme(js: string, p: nat, x: Lexeme)
    requires !AtEnd(js, p) && x == Lex(js, p) && !x.Bad? && WordsAreUnquoted(js, p)
    ensures Outside(js, p) == SignOutsideStrings(js, x) + Outside(js, Next(x, p))
  {
    if !x.Text? {
      OutsideSymbol(js, p);
    } else if x.token.kind == String {
      OutsideString(js, p);
      assert [] + Outside(js, x.next) == Outside(js, x.next);
    } else {
      assert x.token.start == p && x.token.end == x.next;
      OutsideBareWord(js, p);
    }
  }

  /** Both readings agree on a text without lexical errors. */
  lemma {:induction false} ReadingsAgree(js: string, p: nat, count: nat)
    requires CountRun(js, p, count) >= 0 && WordsAreUnquoted(js, p)
    ensures Outside(js, p) == BracketsOutsideStrings(js, p)
    decreases |js| - p
  {
    if !AtEnd(js, p) {
      var x := Lex(js, p);
      OutsideLexeme(js, p, x);
      ReadingsAgree(js, Next(x, p), if x.Open? || x.Text? then count + 1 else count);
    }
  }

  /** Of an accepted text whose bare words hold no quotation mark, the brackets outside quotation
      marks are balanced if and only if no bare word holds an opening bracket. */
  lemma BalancedOutsideQuotes(js: string, cap: nat)
    requires Run(js, INIT, cap).code >= 0 && WordsAreUnquoted(js, 0)
    ensures Balanced(Outside(js, 0)) <==> WordsAreClean(js, 0)
  {
    Accepts(js, cap);
    ReadingsAgree(js, 0, 0);
    BalancedOutsideStrings(js, cap);
  }

  lemma BracketWord(js: string)
    requires js == "[a[]"
    ensures Lex(js, 1) == Text(Token(Primitive, 1, 3, 0), 3) && !WordsAreClean(js, 0) && WordsAreUnquoted(js, 0)
  {
    assert ScanPrimitive(js, 3) == Found(3);
    assert ScanPrimitive(js, 2) == Found(3);
    assert Lex(js, 1) == Text(Token(Primitive, 1, 3, 0), 3);
    assert js[2] == '[';
    assert !WordsAreClean(js, 1);
    assert WordsAreUnquoted(js, 4) && WordsAreUnquoted(js, 3) && WordsAreUnquoted(js, 1);
  }

  /** The tokenizer accepts `[a[]`: the bare word `a[` swallows a bracket. */
  lemma UnbalancedTextIsAccepted()
    ensures var js := "[a[]";
      Run(js, INIT, 2).code == 2 && WordsAreUnquoted(js, 0) && !Balanced(Outside(js, 0))
  {
    var js := "[a[]";
    BracketWord(js);
    OneWordIsAccepted(js);
    BalancedOutsideQuotes(js, 2);
  }

  lemma QuotedWordOpens(js: string)
    requires js == "[a\"]"
    ensures Outside(js, 0) == [Opening(Array)] && !Balanced([Opening(Array)])
  {
    assert Inside(js, 4) == [] && Inside(js, 3) == [] && Outside(js, 2) == [];
    assert Outside(js, 1) == [] + [];
    assert Outside(js, 0) == [Opening(Array)] + [];
    ReduceOne(Opening(Array), Stack([]));
  }

  lemma QuotedWordIsClean(js: string)
    requires js == "[a\"]"
    ensures Lex(js, 1) == Text(Token(Primitive, 1, 3, 0), 3) && WordsAreClean(js, 0)
  {
    assert ScanPrimitive(js, 3) == Found(3);
    assert ScanPrimitive(js, 2) == Found(3);
    assert Lex(js, 1) == Text(Token(Primitive, 1, 3, 0), 3);
    assert WordsAreClean(js, 4) && WordsAreClean(js, 3) && WordsAreClean(js, 1);
  }

  /** With a quotation mark in a bare word that need not hold: the tokenizer accepts `[a"]`, whose
      last bracket stands inside quotation marks. */
  lemma QuotedWordIsAccepted()
    ensures var js := "[a\"]";
      Run(js, INIT, 2).code == 2 && WordsAreClean(js, 0) && !Balanced(Outside(js, 0))
  {
    var js := "[a\"]";
    QuotedWordOpens(js);
    QuotedWordIsClean(js);
    OneWordIsAccepted(js);
  }
}
