/** What the tokenizer does on arbitrary text: exactly which texts it accepts, how counting and
    filling agree, and how a run is resumed in a larger array. */
module JsmnRuns {
  import opened JsmnSpec

  // ---------------------------------------------------------------- bracket words

  datatype Bracket = Opening(kind: Kind) | Closing(kind: Kind)

  datatype Stack = Stack(kinds: seq<Kind>) | Mismatch

  /** Reads one bracket with an explicit stack of open kinds, innermost last. */
  function Push(s: Stack, b: Bracket): Stack {
    match s
    case Mismatch => Mismatch
    case Stack(kinds) =>
      if b.Opening? then Stack(kinds + [b.kind])
      else if kinds != [] && kinds[|kinds| - 1] == b.kind then Stack(kinds[..|kinds| - 1])
      else Mismatch
  }

  function Reduce(word: seq<Bracket>, s: Stack): Stack {
    if word == [] then s else Reduce(word[1..], Push(s, word[0]))
  }

  /** Every bracket of the word is matched by one of its own kind, properly nested. */
  predicate Balanced(word: seq<Bracket>) {
    Reduce(word, Stack([])) == Stack([])
  }

  function Sign(x: Lexeme): seq<Bracket> {
    match x
    case Open(kind) => [Opening(kind)]
    case Close(kind) => [Closing(kind)]
    case _ => []
  }

  /** The brackets that the main loop meets from p on, up to the end or the first lexical error. */
  function Brackets(js: string, p: nat): seq<Bracket>
    decreases |js| - p
  {
    if AtEnd(js, p) then []
    else
      var x := Lex(js, p);
      if x.Bad? then [] else Sign(x) + Brackets(js, Next(x, p))
  }

  // ---------------------------------------------------------------- the implicit stack

  /** The kinds of the open tokens from index m to n, outermost first. */
  function OpenKinds(toks: seq<Token>, m: nat, n: nat): seq<Kind>
    requires m <= n <= |toks|
  {
    if n == m then []
    else OpenKinds(toks, m, n - 1) + if IsOpen(toks[n - 1]) then [toks[n - 1].kind] else []
  }

  /** The stack that the open tokens stand for. */
  function OpenStack(toks: seq<Token>): Stack {
    Stack(OpenKinds(toks, 0, |toks|))
  }

  lemma {:induction false} OpenKindsSame(a: seq<Token>, b: seq<Token>, m: nat, n: nat)
    requires m <= n <= |a| && n <= |b|
    requires forall i :: m <= i < n ==> a[i].kind == b[i].kind && (IsOpen(a[i]) <==> IsOpen(b[i]))
    ensures OpenKinds(a, m, n) == OpenKinds(b, m, n)
    decreases n
  {
    if n > m {
      OpenKindsSame(a, b, m, n - 1);
    }
  }

  lemma {:induction false} OpenKindsClosed(toks: seq<Token>, m: nat, k: nat, n: nat)
    requires m <= k <= n <= |toks| && forall i :: k <= i < n ==> !IsOpen(toks[i])
    ensures OpenKinds(toks, m, n) == OpenKinds(toks, m, k)
    decreases n
  {
    if k < n {
      OpenKindsClosed(toks, m, k, n - 1);
    }
  }

  /** The last open token is the top of the stack. */
  lemma OpenKindsTop(toks: seq<Token>, m: nat)
    requires m <= |toks|
    ensures var i := LastOpen(toks, |toks|);
      OpenKinds(toks, m, |toks|) == if i < m then [] else OpenKinds(toks, m, i) + [toks[i].kind]
  {
    var i := LastOpen(toks, |toks|);
    OpenKindsClosed(toks, m, if i < m then m else i + 1, |toks|);
  }

  lemma AddIsPush(st: State, t: Token, m: nat)
    requires Scoped(st) && m <= |st.toks|
    ensures OpenKinds(Add(st, t), m, |st.toks| + 1)
         == OpenKinds(st.toks, m, |st.toks|) + if IsOpen(t) then [t.kind] else []
  {
    OpenKindsSame(st.toks, Add(st, t), m, |st.toks|);
  }

  lemma CloseIsPop(toks: seq<Token>, end: nat, m: nat)
    requires m <= LastOpen(toks, |toks|)
    ensures var i := LastOpen(toks, |toks|);
      OpenKinds(toks, m, |toks|) == OpenKinds(toks[i := toks[i].(end := end)], m, |toks|) + [toks[i].kind]
  {
    var i := LastOpen(toks, |toks|);
    var after := toks[i := toks[i].(end := end)];
    OpenKindsTop(toks, m);
    OpenKindsSame(toks, after, m, i);
    OpenKindsClosed(after, m, i, |toks|);
  }

  lemma ReduceOne(b: Bracket, s: Stack)
    ensures Reduce([b], s) == Push(s, b)
  {
    assert [b][1..] == [];
  }

  /** A step treats the open tokens from index m on as an explicit stack. */
  lemma StepIsPush(js: string, st: State, cap: nat, m: nat)
    requires Scoped(st) && m <= |st.toks| && !AtEnd(js, st.pos) && Step(js, st, cap).Go?
    requires Lex(js, st.pos).Close? ==> m <= LastOpen(st.toks, |st.toks|)
    ensures var toks := Step(js, st, cap).state.toks;
      Reduce(Sign(Lex(js, st.pos)), Stack(OpenKinds(st.toks, m, |st.toks|))) == Stack(OpenKinds(toks, m, |toks|))
  {
    var s := Stack(OpenKinds(st.toks, m, |st.toks|));
    match Lex(js, st.pos)
    case Open(kind) =>
      AddIsPush(st, Token(kind, st.pos, -1, 0), m);
      ReduceOne(Opening(kind), s);
    case Text(token, next) =>
      AddIsPush(st, token, m);
    case Close(kind) =>
      ReduceOne(Closing(kind), s);
      CloseIsPop(st.toks, st.pos + 1, m);
    case _ =>
  }

  lemma StopIsMismatch(js: string, st: State, cap: nat)
    requires Scoped(st) && !AtEnd(js, st.pos) && Lex(js, st.pos).Close? && Step(js, st, cap).Stop?
    ensures Reduce(Sign(Lex(js, st.pos)), OpenStack(st.toks)) == Mismatch
  {
    OpenKindsTop(st.toks, 0);
    ReduceOne(Closing(Lex(js, st.pos).kind), OpenStack(st.toks));
  }

  lemma {:induction false} ReduceCat(a: seq<Bracket>, b: seq<Bracket>, s: Stack)
    ensures Reduce(a + b, s) == Reduce(b, Reduce(a, s))
    decreases |a|
  {
    if a == [] {
      assert a + b == b;
    } else {
      assert (a + b)[1..] == a[1..] + b;
      ReduceCat(a[1..], b, Push(s, a[0]));
    }
  }

  lemma {:induction false} ReduceMismatch(a: seq<Bracket>)
    ensures Reduce(a, Mismatch) == Mismatch
    decreases |a|
  {
    if a != [] {
      ReduceMismatch(a[1..]);
    }
  }

  // ---------------------------------------------------------------- acceptance

  /** A step counts one token exactly when it adds one; running out means one too many. */
  lemma StepCounts(js: string, st: State, cap: nat)
    requires Scoped(st) && !AtEnd(js, st.pos) && |st.toks| <= cap
    ensures var r, n := Step(js, st, cap), CountRun(js, st.pos, |st.toks|);
      && (r.Go? ==> n == CountRun(js, r.state.pos, |r.state.toks|)
                    && Brackets(js, st.pos) == Sign(Lex(js, st.pos)) + Brackets(js, r.state.pos))
      && (r.Stop? && r.code == NOMEM ==> n < 0 || n > cap)
  {
  }

  /** The tokenizer without a stack accepts exactly what the recogniser with one accepts: no
      lexical error, room for every token, and a bracket word that empties the stack. */
  lemma {:induction false} AcceptsFrom(js: string, st: State, cap: nat)
    requires Scoped(st) && |st.toks| <= cap
    ensures var n := CountRun(js, st.pos, |st.toks|);
      Run(js, st, cap).code >= 0 <==> 0 <= n <= cap && Reduce(Brackets(js, st.pos), OpenStack(st.toks)) == Stack([])
    decreases |js| - st.pos
  {
    if AtEnd(js, st.pos) {
      OpenKindsTop(st.toks, 0);
    } else if !Lex(js, st.pos).Bad? {
      var x, r := Lex(js, st.pos), Step(js, st, cap);
      StepCounts(js, st, cap);
      if r.Go? {
        StepIsPush(js, st, cap, 0);
        ReduceCat(Sign(x), Brackets(js, r.state.pos), OpenStack(st.toks));
        AcceptsFrom(js, r.state, cap);
      } else if x.Close? {
        StopIsMismatch(js, st, cap);
        ReduceCat(Sign(x), Brackets(js, st.pos + 1), OpenStack(st.toks));
        ReduceMismatch(Brackets(js, st.pos + 1));
      }
    }
  }

  lemma Accepts(js: string, cap: nat)
    ensures var n := CountRun(js, 0, 0);
      Run(js, INIT, cap).code >= 0 <==> 0 <= n <= cap && Balanced(Brackets(js, 0))
  {
    AcceptsFrom(js, INIT, cap);
  }

  // ---------------------------------------------------------------- counting and filling

  /** A successful filling run returns the count; an array with room for the count never runs
      out, and what it gives does not depend on how much room is left. */
  lemma {:induction false} CountAgreesFrom(js: string, st: State, cap: nat, cap': nat)
    requires Scoped(st) && |st.toks| <= cap
    ensures var n := CountRun(js, st.pos, |st.toks|);
      && (Run(js, st, cap).code >= 0 ==> Run(js, st, cap).code == n <= cap)
      && (0 <= n <= cap ==> Run(js, st, cap).code != NOMEM)
      && (0 <= n <= cap && n <= cap' ==> Run(js, st, cap') == Run(js, st, cap))
    decreases |js| - st.pos
  {
    if !AtEnd(js, st.pos) && Step(js, st, cap).Go? {
      StepCounts(js, st, cap);
      CountAgreesFrom(js, Step(js, st, cap).state, cap, cap');
    }
  }

  lemma CountAgrees(js: string, cap: nat)
    ensures var n, r := CountRun(js, 0, 0), Run(js, INIT, cap).code;
      && (r >= 0 ==> r == n)
      && (0 <= n <= cap ==> r != NOMEM)
      && (cap < n ==> r < 0)
  {
    CountAgreesFrom(js, INIT, cap, cap);
  }

  // ---------------------------------------------------------------- resuming

  /** After NOMEM the parser and the used tokens are a state from which a larger array finishes
      the job as if it had been there from the start. */
  lemma {:induction false} Resumes(js: string, st: State, cap: nat, larger: nat)
    requires Scoped(st) && cap <= larger && Run(js, st, cap).code == NOMEM
    ensures Run(js, Run(js, st, cap).state, larger) == Run(js, st, larger)
    decreases |js| - st.pos
  {
    var r := Step(js, st, cap);
    if r.Go? {
      assert Step(js, st, larger) == r;
      Resumes(js, r.state, cap, larger);
    }
  }

  /** Any number of resumptions, in arrays of growing size. */
  function RunAll(js: string, st: State, caps: seq<nat>): Outcome
    requires Scoped(st) && caps != []
    decreases |caps|
  {
    var o := Run(js, st, caps[0]);
    if o.code == NOMEM && |caps| > 1 then RunAll(js, o.state, caps[1..]) else o
  }

  lemma {:induction false} ResumesRepeatedly(js: string, st: State, caps: seq<nat>)
    requires Scoped(st) && caps != [] && forall i, j :: 0 <= i < j < |caps| ==> caps[i] <= caps[j]
    ensures RunAll(js, st, caps).code != NOMEM ==> exists cap :: cap in caps && RunAll(js, st, caps) == Run(js, st, cap)
    ensures RunAll(js, st, caps).code == NOMEM ==> RunAll(js, st, caps) == Run(js, st, caps[|caps| - 1])
    decreases |caps|
  {
    var o := Run(js, st, caps[0]);
    if o.code == NOMEM && |caps| > 1 {
      ResumesRepeatedly(js, o.state, caps[1..]);
      forall cap | cap in caps[1..] ensures Run(js, o.state, cap) == Run(js, st, cap) {
        Resumes(js, st, caps[0], cap);
      }
      Resumes(js, st, caps[0], caps[|caps| - 1]);
    } else {
      assert caps[0] in caps;
    }
  }
}
