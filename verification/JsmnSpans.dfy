/** What the token array looks like after any run on arbitrary text: bounds, order, nesting, the
    bracket pair behind every container token, and the accounting of token sizes. */
module JsmnSpans {
  import opened JsmnSpec
  import opened JsmnRuns

  // ---------------------------------------------------------------- bounds and delimiters

  function OpeningChar(kind: Kind): char {
    if kind == Object then '{' else '['
  }

  function ClosingChar(kind: Kind): char {
    if kind == Object then '}' else ']'
  }

  /** Token t lies in js before pos and has the delimiters of its kind. */
  predicate Placed(js: string, pos: nat, t: Token) {
    && 0 <= t.start < |js| && t.start <= pos <= |js|
    && (t.end == -1 ==> IsContainer(t))
    && (t.end != -1 ==> t.start <= t.end <= pos)
    && match t.kind
       case Undefined => false
       case String => t.start > 0 && js[t.start - 1] == '"' && t.end < pos && js[t.end] == '"'
       case Primitive =>
         t.start < t.end && forall i :: t.start <= i < t.end ==> IsPrintable(js[i]) && !IsDelimiter(js[i])
       case _ =>
         t.start < pos && js[t.start] == OpeningChar(t.kind)
         && (t.end != -1 ==> t.start + 2 <= t.end && js[t.end - 1] == ClosingChar(t.kind))
  }

  /** A later token starts later, and lies behind an earlier one or, if that is a container,
      inside it. */
  predicate Follows(t: Token, later: Token) {
    && t.start < later.start
    && (t.end != -1 ==> later.start >= t.end || (IsContainer(t) && later.end != -1 && later.end < t.end))
  }

  ghost predicate Shape(js: string, st: State) {
    && Scoped(st) && st.pos <= |js|
    && (forall i :: 0 <= i < |st.toks| ==> Placed(js, st.pos, st.toks[i]))
    && forall i, j :: 0 <= i < j < |st.toks| ==> Follows(st.toks[i], st.toks[j])
  }

  lemma AddKeepsShape(js: string, st: State, t: Token, next: nat, super: int)
    requires Shape(js, st) && st.pos < next <= |js| && Placed(js, next, t) && t.start >= st.pos
    requires -1 <= super <= |st.toks|
    requires forall i :: 0 <= i < |st.toks| ==> st.toks[i].start < t.start
    ensures Shape(js, State(next, Add(st, t), super))
  {
    var toks := Add(st, t);
    forall i | 0 <= i < |st.toks| ensures toks[i] == st.toks[i].(size := toks[i].size) {
    }
    forall i, j | 0 <= i < j < |toks| ensures Follows(toks[i], toks[j]) {
      if j < |st.toks| {
        assert Follows(st.toks[i], st.toks[j]);
      } else {
        assert Placed(js, st.pos, st.toks[i]);
      }
    }
    forall i | 0 <= i < |toks| ensures Placed(js, next, toks[i]) {
      if i < |st.toks| {
        assert Placed(js, st.pos, st.toks[i]);
      }
    }
  }

  lemma CloseKeepsShape(js: string, st: State)
    requires Shape(js, st) && !AtEnd(js, st.pos)
    requires var i := LastOpen(st.toks, |st.toks|); i != -1 && Lex(js, st.pos) == Close(st.toks[i].kind)
    ensures var i := LastOpen(st.toks, |st.toks|);
      Shape(js, State(st.pos + 1, st.toks[i := st.toks[i].(end := st.pos + 1)], LastOpen(st.toks, i)))
  {
    var k := LastOpen(st.toks, |st.toks|);
    var toks := st.toks[k := st.toks[k].(end := st.pos + 1)];
    forall i | 0 <= i < |toks| ensures Placed(js, st.pos + 1, toks[i]) {
      assert Placed(js, st.pos, st.toks[i]);
    }
    forall i, j | 0 <= i < j < |toks| ensures Follows(toks[i], toks[j]) {
      assert Follows(st.toks[i], st.toks[j]);
      assert Placed(js, st.pos, st.toks[i]) && Placed(js, st.pos, st.toks[j]);
    }
  }

  lemma LexPlaces(js: string, p: nat)
    requires !AtEnd(js, p) && Lex(js, p).Text?
    ensures var x := Lex(js, p); Placed(js, x.next, x.token) && p <= x.token.start
  {
  }

  lemma StaysPlaced(js: string, pos: nat, t: Token, next: nat)
    requires Placed(js, pos, t) && pos < next <= |js|
    ensures Placed(js, next, t) && t.start < pos
  {
  }

  /** One iteration of the main loop keeps the shape. */
  lemma StepKeepsShape(js: string, st: State, cap: nat)
    requires Shape(js, st) && !AtEnd(js, st.pos) && Step(js, st, cap).Go?
    ensures Shape(js, Step(js, st, cap).state)
  {
    var next := Step(js, st, cap).state;
    forall i | 0 <= i < |st.toks| ensures st.toks[i].start < st.pos && Placed(js, next.pos, st.toks[i]) {
      StaysPlaced(js, st.pos, st.toks[i], next.pos);
    }
    match Lex(js, st.pos)
    case Open(kind) => AddKeepsShape(js, st, Token(kind, st.pos, -1, 0), next.pos, next.super);
    case Text(token, _) =>
      LexPlaces(js, st.pos);
      AddKeepsShape(js, st, token, next.pos, next.super);
    case Close(kind) => CloseKeepsShape(js, st);
    case _ =>
  }

  // ---------------------------------------------------------------- matching pairs

  /** The brackets met between p and q, if q is a position the main loop reaches from p. */
  function BracketsTo(js: string, p: nat, q: nat): (r: (bool, seq<Bracket>))
    decreases |js| - p
  {
    if p == q then (true, [])
    else if p > q || AtEnd(js, p) || Lex(js, p).Bad? then (false, [])
    else
      var rest := BracketsTo(js, Next(Lex(js, p), p), q);
      (rest.0, Sign(Lex(js, p)) + rest.1)
  }

  lemma {:induction false} OneMore(js: string, p: nat, q: nat)
    requires BracketsTo(js, p, q).0 && !AtEnd(js, q) && !Lex(js, q).Bad?
    ensures BracketsTo(js, p, Next(Lex(js, q), q)) == (true, BracketsTo(js, p, q).1 + Sign(Lex(js, q)))
    decreases |js| - p
  {
    var x := Lex(js, q);
    if p == q {
      assert BracketsTo(js, Next(x, q), Next(x, q)) == (true, []);
      assert Sign(x) + [] == [] + Sign(x);
    } else {
      OneMore(js, Next(Lex(js, p), p), q);
      var rest := BracketsTo(js, Next(Lex(js, p), p), q).1;
      assert Sign(Lex(js, p)) + (rest + Sign(x)) == (Sign(Lex(js, p)) + rest) + Sign(x);
    }
  }

  /** The brackets from p to q leave exactly the given kinds open. */
  predicate Leaves(js: string, p: nat, q: nat, kinds: seq<Kind>) {
    BracketsTo(js, p, q).0 && Reduce(BracketsTo(js, p, q).1, Stack([])) == Stack(kinds)
  }

  lemma LeavesMore(js: string, p: nat, q: nat, kinds: seq<Kind>, kinds': seq<Kind>)
    requires Leaves(js, p, q, kinds) && !AtEnd(js, q) && !Lex(js, q).Bad?
    requires Reduce(Sign(Lex(js, q)), Stack(kinds)) == Stack(kinds')
    ensures Leaves(js, p, Next(Lex(js, q), q), kinds')
  {
    OneMore(js, p, q);
    ReduceCat(BracketsTo(js, p, q).1, Sign(Lex(js, q)), Stack([]));
  }

  /** A closed container encloses a text in which all brackets match; the text behind the bracket
      of an open one leaves exactly the later open tokens unmatched. */
  predicate Paired(js: string, st: State, i: nat)
    requires i < |st.toks|
  {
    var t := st.toks[i];
    t.start >= 0 && IsContainer(t) ==>
      if t.end == -1 then Leaves(js, t.start + 1, st.pos, OpenKinds(st.toks, i + 1, |st.toks|))
      else t.end > t.start + 1 && Leaves(js, t.start + 1, t.end - 1, [])
  }

  ghost predicate AllPaired(js: string, st: State) {
    forall i :: 0 <= i < |st.toks| ==> Paired(js, st, i)
  }

  /** Closing the innermost container completes its pair. */
  lemma ClosePairs(js: string, st: State, i: nat)
    requires Shape(js, st) && i == LastOpen(st.toks, |st.toks|) && Paired(js, st, i)
    ensures Leaves(js, st.toks[i].start + 1, st.pos, [])
  {
    assert Placed(js, st.pos, st.toks[i]);
    OpenKindsClosed(st.toks, i + 1, i + 1, |st.toks|);
  }

  /** What a step does to an old token. */
  lemma StepEnds(js: string, st: State, cap: nat, i: nat)
    requires Scoped(st) && i < |st.toks| && !AtEnd(js, st.pos) && Step(js, st, cap).Go?
    ensures var next := Step(js, st, cap).state;
      && !Lex(js, st.pos).Bad? && next.pos == Next(Lex(js, st.pos), st.pos) && i < |next.toks|
      && next.toks[i].kind == st.toks[i].kind && next.toks[i].start == st.toks[i].start
      && next.toks[i].end == if Lex(js, st.pos).Close? && i == LastOpen(st.toks, |st.toks|) then st.pos + 1
                             else st.toks[i].end
  {
  }

  function StepKinds(js: string, st: State, cap: nat, m: nat): seq<Kind>
    requires Scoped(st) && m <= |st.toks| && !AtEnd(js, st.pos) && Step(js, st, cap).Go?
  {
    var toks := Step(js, st, cap).state.toks;
    OpenKinds(toks, m, |toks|)
  }

  lemma OpenBelowLast(toks: seq<Token>, i: nat)
    requires i < |toks| && IsOpen(toks[i]) && i != LastOpen(toks, |toks|)
    ensures i + 1 <= LastOpen(toks, |toks|)
  {
  }

  /** What a step that does not close token i pushes or pops, as token i sees it. */
  lemma StepReduces(js: string, st: State, cap: nat, i: nat)
    requires Scoped(st) && !AtEnd(js, st.pos) && Step(js, st, cap).Go?
    requires i < |st.toks| && IsOpen(st.toks[i]) && !(Lex(js, st.pos).Close? && i == LastOpen(st.toks, |st.toks|))
    ensures !Lex(js, st.pos).Bad?
    ensures Reduce(Sign(Lex(js, st.pos)), Stack(OpenKinds(st.toks, i + 1, |st.toks|)))
         == Stack(StepKinds(js, st, cap, i + 1))
  {
    if Lex(js, st.pos).Close? {
      OpenBelowLast(st.toks, i);
    }
    StepIsPush(js, st, cap, i + 1);
  }

  /** Such a step extends what token i leaves open. */
  lemma StepLeaves(js: string, st: State, cap: nat, i: nat, p: nat)
    requires Scoped(st) && !AtEnd(js, st.pos) && Step(js, st, cap).Go?
    requires i < |st.toks| && IsOpen(st.toks[i]) && !(Lex(js, st.pos).Close? && i == LastOpen(st.toks, |st.toks|))
    requires Leaves(js, p, st.pos, OpenKinds(st.toks, i + 1, |st.toks|))
    ensures !Lex(js, st.pos).Bad? && Leaves(js, p, Next(Lex(js, st.pos), st.pos), StepKinds(js, st, cap, i + 1))
  {
    StepReduces(js, st, cap, i);
    LeavesMore(js, p, st.pos, OpenKinds(st.toks, i + 1, |st.toks|), StepKinds(js, st, cap, i + 1));
  }

  lemma PairedOpen(js: string, next: State, i: nat)
    requires i < |next.toks| && next.toks[i].start >= 0 && IsOpen(next.toks[i])
    requires Leaves(js, next.toks[i].start + 1, next.pos, OpenKinds(next.toks, i + 1, |next.toks|))
    ensures Paired(js, next, i)
  {
  }

  lemma PairedClosed(js: string, st: State, next: State, i: nat)
    requires i < |st.toks| && i < |next.toks| && Paired(js, st, i) && !IsOpen(next.toks[i])
    requires next.toks[i].kind == st.toks[i].kind && next.toks[i].start == st.toks[i].start >= 0
    requires next.toks[i].end == st.toks[i].end
          || (next.toks[i].end > st.toks[i].start + 1 && Leaves(js, st.toks[i].start + 1, next.toks[i].end - 1, []))
    ensures Paired(js, next, i)
  {
  }

  /** An old token that a step leaves as it is, closes, or leaves open. */
  lemma PairKept(js: string, st: State, next: State, i: nat, closes: bool)
    requires Shape(js, st) && i < |st.toks| && i < |next.toks| && Paired(js, st, i)
    requires next.toks[i].kind == st.toks[i].kind && next.toks[i].start == st.toks[i].start
    requires next.toks[i].end == if closes then st.pos + 1 else st.toks[i].end
    requires closes ==> i == LastOpen(st.toks, |st.toks|)
    requires IsOpen(st.toks[i]) && !closes ==>
      Leaves(js, st.toks[i].start + 1, next.pos, OpenKinds(next.toks, i + 1, |next.toks|))
    ensures Paired(js, next, i)
  {
    assert Placed(js, st.pos, st.toks[i]);
    if closes {
      ClosePairs(js, st, i);
      PairedClosed(js, st, next, i);
    } else if IsOpen(st.toks[i]) {
      PairedOpen(js, next, i);
    } else {
      PairedClosed(js, st, next, i);
    }
  }

  /** One iteration of the main loop keeps the pairing of an old token. */
  lemma StepKeepsPair(js: string, st: State, cap: nat, i: nat, next: State)
    requires Shape(js, st) && !AtEnd(js, st.pos) && Step(js, st, cap) == Go(next)
    requires i < |st.toks| && Paired(js, st, i)
    ensures i < |next.toks| && Paired(js, next, i)
  {
    var closes := Lex(js, st.pos).Close? && i == LastOpen(st.toks, |st.toks|);
    StepEnds(js, st, cap, i);
    if IsOpen(st.toks[i]) && !closes {
      assert Placed(js, st.pos, st.toks[i]);
      StepLeaves(js, st, cap, i, st.toks[i].start + 1);
    }
    PairKept(js, st, next, i, closes);
  }

  lemma StepKeepsPairs(js: string, st: State, cap: nat)
    requires Shape(js, st) && AllPaired(js, st) && !AtEnd(js, st.pos) && Step(js, st, cap).Go?
    ensures AllPaired(js, Step(js, st, cap).state)
  {
    var next := Step(js, st, cap).state;
    forall i | 0 <= i < |next.toks| ensures Paired(js, next, i) {
      if i < |st.toks| {
        StepKeepsPair(js, st, cap, i, next);
      }
    }
  }

  /** After any successful run every token is closed, lies in the text with its own delimiters,
      spans nest or are disjoint, and each container token spans one matching pair of brackets. */
  lemma {:induction false} RunKeepsPairs(js: string, st: State, cap: nat)
    requires Shape(js, st) && AllPaired(js, st)
    ensures var o := Run(js, st, cap);
      && Shape(js, o.state) && AllPaired(js, o.state)
      && (o.code >= 0 ==> forall i :: 0 <= i < |o.state.toks| ==> !IsOpen(o.state.toks[i]))
    decreases |js| - st.pos
  {
    if !AtEnd(js, st.pos) && Step(js, st, cap).Go? {
      StepKeepsShape(js, st, cap);
      StepKeepsPairs(js, st, cap);
      RunKeepsPairs(js, Step(js, st, cap).state, cap);
    }
  }

  // ---------------------------------------------------------------- token sizes

  function TotalSize(toks: seq<Token>, n: nat): int
    requires n <= |toks|
  {
    if n == 0 then 0 else TotalSize(toks, n - 1) + toks[n - 1].size
  }

  /** How many tokens the run from st creates while no token is superior. */
  function Roots(js: string, st: State, cap: nat): nat
    requires Scoped(st)
    decreases |js| - st.pos
  {
    if AtEnd(js, st.pos) || Step(js, st, cap).Stop? then 0
    else
      var next := Step(js, st, cap).state;
      Roots(js, next, cap) + if |next.toks| > |st.toks| && st.super == -1 then 1 else 0
  }

  lemma {:induction false} TotalSizeSame(a: seq<Token>, b: seq<Token>, n: nat)
    requires n <= |a| && n <= |b| && forall i :: 0 <= i < n ==> a[i].size == b[i].size
    ensures TotalSize(a, n) == TotalSize(b, n)
    decreases n
  {
    if n > 0 {
      TotalSizeSame(a, b, n - 1);
    }
  }

  lemma {:induction false} TotalSizeBump(toks: seq<Token>, k: nat, n: nat)
    requires k < n <= |toks|
    ensures TotalSize(Bump(toks, k), n) == TotalSize(toks, n) + 1
    decreases n
  {
    if k == n - 1 {
      TotalSizeSame(toks, Bump(toks, k), n - 1);
    } else {
      TotalSizeBump(toks, k, n - 1);
    }
  }

  lemma TotalSizeAdd(st: State, t: Token)
    requires Scoped(st) && t.size == 0
    ensures TotalSize(Add(st, t), |st.toks| + 1)
         == TotalSize(st.toks, |st.toks|) + if st.super == -1 then 0 else 1
  {
    TotalSizeSame(Add(st, t), Bump(st.toks, st.super), |st.toks|);
    if st.super != -1 {
      TotalSizeBump(st.toks, st.super, |st.toks|);
    }
  }

  lemma StepSize(js: string, st: State, cap: nat, next: State)
    requires Scoped(st) && !AtEnd(js, st.pos) && Step(js, st, cap) == Go(next)
    ensures TotalSize(next.toks, |next.toks|) - |next.toks|
         == TotalSize(st.toks, |st.toks|) - |st.toks| - if |next.toks| > |st.toks| && st.super == -1 then 1 else 0
  {
    match Lex(js, st.pos)
    case Open(kind) => TotalSizeAdd(st, Token(kind, st.pos, -1, 0));
    case Text(token, _) => TotalSizeAdd(st, token);
    case Close(_) => TotalSizeSame(st.toks, next.toks, |st.toks|);
    case _ =>
  }

  /** Every token is a root or counted once in the size of its superior token. */
  lemma {:induction false} SizesAddUp(js: string, st: State, cap: nat)
    requires Scoped(st)
    ensures var toks := Run(js, st, cap).state.toks;
      TotalSize(toks, |toks|) + Roots(js, st, cap) - |toks| == TotalSize(st.toks, |st.toks|) - |st.toks|
    decreases |js| - st.pos
  {
    if !AtEnd(js, st.pos) && Step(js, st, cap).Go? {
      var next := Step(js, st, cap).state;
      StepSize(js, st, cap, next);
      SizesAddUp(js, next, cap);
    }
  }

  // ---------------------------------------------------------------- from a fresh parser

  /** Arbitrary text, fresh parser, any array. */
  lemma FreshRun(js: string, cap: nat)
    ensures var o := Run(js, INIT, cap);
      && Shape(js, o.state) && AllPaired(js, o.state)
      && TotalSize(o.state.toks, |o.state.toks|) + Roots(js, INIT, cap) == |o.state.toks| <= cap
      && (o.code >= 0 ==> o.code == |o.state.toks|)
      && (o.code >= 0 ==> forall i :: 0 <= i < |o.state.toks| ==> !IsOpen(o.state.toks[i]))
  {
    RunKeepsPairs(js, INIT, cap);
    SizesAddUp(js, INIT, cap);
  }

  // ---------------------------------------------------------------- brackets outside strings

  /** The opening brackets inside a bare word; it cannot hold closing ones. */
  function WordBrackets(js: string, p: nat, q: nat): seq<Bracket>
    requires p <= q <= |js|
    decreases q - p
  {
    if p == q then []
    else
      (if js[p] == '{' then [Opening(Object)] else if js[p] == '[' then [Opening(Array)] else [])
      + WordBrackets(js, p + 1, q)
  }

  function SignOutsideStrings(js: string, x: Lexeme): seq<Bracket>
    requires x.Text? ==> 0 <= x.token.start <= x.token.end <= |js|
  {
    if x.Text? && x.token.kind == Primitive then WordBrackets(js, x.token.start, x.token.end) else Sign(x)
  }

  /** All brackets of the text that stand outside strings. */
  function BracketsOutsideStrings(js: string, p: nat): seq<Bracket>
    decreases |js| - p
  {
    if AtEnd(js, p) then []
    else
      var x := Lex(js, p);
      if x.Bad? then [] else SignOutsideStrings(js, x) + BracketsOutsideStrings(js, Next(x, p))
  }

  /** No bare word holds an opening bracket. */
  predicate WordsAreClean(js: string, p: nat)
    decreases |js| - p
  {
    AtEnd(js, p) ||
    var x := Lex(js, p);
    x.Bad?
    || ((x.Text? && x.token.kind == Primitive ==>
           forall i :: x.token.start <= i < x.token.end ==> js[i] != '{' && js[i] != '[')
        && WordsAreClean(js, Next(x, p)))
  }

  /** Openings minus closings. */
  function Surplus(word: seq<Bracket>): int {
    if word == [] then 0 else (if word[0].Opening? then 1 else -1) + Surplus(word[1..])
  }

  lemma {:induction false} SurplusCat(a: seq<Bracket>, b: seq<Bracket>)
    ensures Surplus(a + b) == Surplus(a) + Surplus(b)
    decreases |a|
  {
    if a == [] {
      assert a + b == b;
    } else {
      assert (a + b)[1..] == a[1..] + b;
      SurplusCat(a[1..], b);
    }
  }

  lemma SurplusOpens(kind: Kind, rest: seq<Bracket>)
    ensures Surplus([Opening(kind)] + rest) == Surplus(rest) + 1
  {
    assert ([Opening(kind)] + rest)[1..] == rest;
  }

  lemma {:induction false} ReduceSurplus(word: seq<Bracket>, kinds: seq<Kind>)
    requires Reduce(word, Stack(kinds)).Stack?
    ensures |Reduce(word, Stack(kinds)).kinds| == |kinds| + Surplus(word)
    decreases |word|
  {
    if word != [] {
      var s := Push(Stack(kinds), word[0]);
      if s.Mismatch? {
        ReduceMismatch(word[1..]);
      } else {
        ReduceSurplus(word[1..], s.kinds);
      }
    }
  }

  lemma {:induction false} WordSurplus(js: string, p: nat, q: nat)
    requires p <= q <= |js|
    ensures Surplus(WordBrackets(js, p, q)) >= 0
    ensures Surplus(WordBrackets(js, p, q)) == 0 <==> forall i :: p <= i < q ==> js[i] != '{' && js[i] != '['
    ensures Surplus(WordBrackets(js, p, q)) == 0 ==> WordBrackets(js, p, q) == []
    decreases q - p
  {
    if p < q {
      var rest := WordBrackets(js, p + 1, q);
      WordSurplus(js, p + 1, q);
      if js[p] == '{' {
        SurplusOpens(Object, rest);
      } else if js[p] == '[' {
        SurplusOpens(Array, rest);
      } else {
        assert [] + rest == rest;
      }
    }
  }

  lemma {:induction false} OutsideSurplus(js: string, p: nat)
    ensures Surplus(BracketsOutsideStrings(js, p)) >= Surplus(Brackets(js, p))
    ensures Surplus(BracketsOutsideStrings(js, p)) == Surplus(Brackets(js, p)) <==> WordsAreClean(js, p)
    ensures WordsAreClean(js, p) ==> BracketsOutsideStrings(js, p) == Brackets(js, p)
    decreases |js| - p
  {
    if !AtEnd(js, p) && !Lex(js, p).Bad? {
      var x := Lex(js, p);
      var next := Next(x, p);
      OutsideSurplus(js, next);
      SurplusCat(Sign(x), Brackets(js, next));
      SurplusCat(SignOutsideStrings(js, x), BracketsOutsideStrings(js, next));
      if x.Text? && x.token.kind == Primitive {
        WordSurplus(js, x.token.start, x.token.end);
      }
    }
  }

  /** Of an accepted text, the brackets outside strings are balanced if and only if no bare word
      holds an opening bracket. */
  lemma BalancedOutsideStrings(js: string, cap: nat)
    requires Run(js, INIT, cap).code >= 0
    ensures Balanced(BracketsOutsideStrings(js, 0)) <==> WordsAreClean(js, 0)
  {
    Accepts(js, cap);
    OutsideSurplus(js, 0);
    ReduceSurplus(Brackets(js, 0), []);
    if Balanced(BracketsOutsideStrings(js, 0)) {
      ReduceSurplus(BracketsOutsideStrings(js, 0), []);
    }
  }

  /** An array of one bare word of two characters. */
  lemma OneWordIsAccepted(js: string)
    requires |js| == 4 && js[0] == '[' && js[3] == ']' && js[1] != '\0'
    requires Lex(js, 1) == Text(Token(Primitive, 1, 3, 0), 3)
    ensures Run(js, INIT, 2).code == 2
  {
    var st1 := State(1, [Token(Array, 0, -1, 0)], 0);
    assert Step(js, INIT, 2) == Go(st1);
    var st2 := State(3, [Token(Array, 0, -1, 1), Token(Primitive, 1, 3, 0)], 0);
    assert Step(js, st1, 2) == Go(st2);
    OneWordIsClosed(js, st2);
  }

  lemma OneWordIsClosed(js: string, st: State)
    requires |js| == 4 && js[3] == ']'
    requires st == State(3, [Token(Array, 0, -1, 1), Token(Primitive, 1, 3, 0)], 0)
    ensures Run(js, st, 2).code == 2
  {
    assert LastOpen(st.toks, 1) == 0;
    var end := State(4, [Token(Array, 0, 4, 1), Token(Primitive, 1, 3, 0)], -1);
    assert Step(js, st, 2) == Go(end);
    assert LastOpen(end.toks, 1) == -1;
  }
}
