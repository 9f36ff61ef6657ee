/** The main theorem about the tokenizer: on the text of a JSON document it produces the preorder
    token array of the tree, although it keeps no stack.

    The induction on values rests on two facts. The innermost open container is always the last
    open token. And `toksuper` after a value is either unchanged (scalar) or that container; the
    comma case makes the two agree again. */
module JsonTokens {
  import opened JsmnSpec
  import opened JsonText

  // ---------------------------------------------------------------- text at a position

  predicate At(js: string, p: nat, t: string) {
    p + |t| <= |js| && forall i {:trigger t[i]} :: 0 <= i < |t| ==> js[p + i] == t[i]
  }

  /** The text ends at p, or a character that stops a bare word stands there. */
  ghost predicate Stops(js: string, p: nat) {
    AtEnd(js, p) || IsDelimiter(js[p])
  }

  lemma AtCat(js: string, p: nat, a: string, b: string)
    requires At(js, p, a + b)
    ensures At(js, p, a) && At(js, p + |a|, b)
  {
    forall i | 0 <= i < |a| ensures js[p + i] == a[i] {
      assert (a + b)[i] == a[i];
    }
    forall i | 0 <= i < |b| ensures js[p + |a| + i] == b[i] {
      assert (a + b)[|a| + i] == b[i];
    }
  }

  lemma AtChar(js: string, p: nat, t: string)
    requires At(js, p, t) && t != ""
    ensures js[p] == t[0]
  {
  }

  // ---------------------------------------------------------------- lexing the pieces

  lemma {:induction false} ScanWord(js: string, p: nat, w: string)
    requires At(js, p, w) && Stops(js, p + |w|)
    requires IsPlain(w)
    ensures ScanPrimitive(js, p) == Found(p + |w|)
    decreases |w|
  {
    if w != "" {
      AtCat(js, p, w[..1], w[1..]);
      assert w == w[..1] + w[1..];
      AtChar(js, p, w);
      ScanWord(js, p + 1, w[1..]);
    }
  }

  lemma {:induction false} ScanDigits(js: string, p: nat, h: string)
    requires At(js, p, h) && forall c <- h :: IsHex(c)
    ensures ScanHex(js, p, |h|) == Found(p + |h|)
    decreases |h|
  {
    if h != "" {
      AtCat(js, p, h[..1], h[1..]);
      assert h == h[..1] + h[1..];
      AtChar(js, p, h);
      assert h[0] in h;
      ScanDigits(js, p + 1, h[1..]);
    }
  }

  lemma {:induction false} ScanBody(js: string, p: nat, body: string)
    requires IsBody(body) && At(js, p, body + "\"")
    ensures ScanString(js, p) == Found(p + |body|)
    decreases |body|
  {
    AtChar(js, p, body + "\"");
    if body == "" {
      assert js[p + 0] == '"';
    } else {
      var n := if body[0] != '\\' then 1 else if body[1] == 'u' then 6 else 2;
      assert body + "\"" == body[..n] + (body[n..] + "\"");
      AtCat(js, p, body[..n], body[n..] + "\"");
      if n > 1 {
        assert js[p + 1] == body[1];
      }
      if n == 6 {
        assert body[..6] == body[..2] + body[2..6];
        AtCat(js, p, body[..2], body[2..6]);
        ScanDigits(js, p + 2, body[2..6]);
      }
      ScanBody(js, p + n, body[n..]);
    }
  }

  lemma LexQuoted(js: string, p: nat, body: string)
    requires IsBody(body) && At(js, p, Quoted(body))
    ensures !AtEnd(js, p)
    ensures Lex(js, p) == Text(Token(String, p + 1, p + 1 + |body|, 0), p + |Quoted(body)|)
  {
    AtCat(js, p, "\"", body + "\"");
    AtChar(js, p, Quoted(body));
    assert js[p + 0] == '"';
    ScanBody(js, p + 1, body);
  }

  /** Characters that a bare word runs through. */
  predicate IsPlain(s: string) {
    forall i :: 0 <= i < |s| ==> IsPrintable(s[i]) && !IsDelimiter(s[i])
  }

  lemma DigitsArePlain(s: string)
    requires IsDigits(s)
    ensures IsPlain(s) && '0' <= s[0] <= '9'
  {
    forall i | 0 <= i < |s| ensures '0' <= s[i] <= '9' {
      assert s[i] in s;
    }
  }

  lemma FracIsPlain(s: string)
    requires IsFrac(s)
    ensures IsPlain(s)
  {
    if s != "" {
      DigitsArePlain(s[1..]);
      assert forall i :: 1 <= i < |s| ==> s[i] == s[1..][i - 1];
    }
  }

  lemma ExpIsPlain(s: string)
    requires IsExp(s)
    ensures IsPlain(s)
  {
    if s != "" {
      var k := if s[1] == '+' || s[1] == '-' then 2 else 1;
      DigitsArePlain(s[k..]);
      assert forall i :: k <= i < |s| ==> s[i] == s[k..][i - k];
    }
  }

  lemma WordIsPlain(v: Json)
    requires IsWord(v) && WellFormed(v)
    ensures Word(v) != "" && Word(v)[0] != '{' && Word(v)[0] != '[' && Word(v)[0] != '"'
    ensures IsPlain(Word(v))
  {
    if v.Number? {
      DigitsArePlain(v.whole);
      FracIsPlain(v.frac);
      ExpIsPlain(v.exp);
    }
  }

  lemma LexWord(js: string, p: nat, v: Json)
    requires IsWord(v) && WellFormed(v) && At(js, p, Word(v)) && Stops(js, p + |Word(v)|)
    ensures !AtEnd(js, p)
    ensures Lex(js, p) == Text(Token(Primitive, p, p + |Word(v)|, 0), p + |Word(v)|)
  {
    var w := Word(v);
    WordIsPlain(v);
    AtChar(js, p, w);
    ScanWord(js, p, w);
  }

  // ---------------------------------------------------------------- runs

  /** An observation of states that no step of the tokenizer changes, such as the outcome of the
      run that starts there. The lemmas below speak of an arbitrary one. */
  ghost predicate Constant(f: State -> Outcome, js: string, cap: nat) {
    forall st: State {:trigger Step(js, st, cap)} | Scoped(st) && !AtEnd(js, st.pos) && Step(js, st, cap).Go? ::
      f(st) == f(Step(js, st, cap).state)
  }

  lemma Tick(f: State -> Outcome, js: string, st: State, cap: nat, next: State)
    requires Constant(f, js, cap)
    requires Scoped(st) && !AtEnd(js, st.pos) && Step(js, st, cap) == Go(next)
    ensures f(st) == f(next)
  {
  }

  lemma {:induction false} SkipSpace(f: State -> Outcome, js: string, st: State, cap: nat, ws: string)
    requires Constant(f, js, cap)
    requires Scoped(st) && IsSpace(ws) && At(js, st.pos, ws)
    ensures f(st) == f(st.(pos := st.pos + |ws|))
    decreases |ws|
  {
    if ws != "" {
      assert ws == ws[..1] + ws[1..];
      AtCat(js, st.pos, ws[..1], ws[1..]);
      AtChar(js, st.pos, ws);
      assert js[st.pos + 0] == ws[0] && ws[0] in ws;
      Tick(f, js, st, cap, st.(pos := st.pos + 1));
      SkipSpace(f, js, st.(pos := st.pos + 1), cap, ws[1..]);
    }
  }

  // ---------------------------------------------------------------- open tokens

  predicate AllClosed(toks: seq<Token>) {
    forall t <- toks :: !IsOpen(t)
  }

  lemma LastOpenUnique(a: seq<Token>, m: nat, b: seq<Token>, n: nat)
    requires m <= |a| && n <= |b| && m <= n
    requires forall i :: 0 <= i < m ==> (IsOpen(a[i]) <==> IsOpen(b[i]))
    requires forall i :: m <= i < n ==> !IsOpen(b[i])
    ensures LastOpen(a, m) == LastOpen(b, n)
  {
  }

  lemma {:induction false} TokensClosed(v: Json, at: nat)
    ensures AllClosed(Tokens(v, at)) && |Tokens(v, at)| == Nodes(v)
    decreases v, 1
  {
    match v
    case Arr(pad, items) => ItemTokensClosed(items, at + 1 + |pad|);
    case Obj(pad, members) => MemberTokensClosed(members, at + 1 + |pad|);
    case _ =>
  }

  lemma {:induction false} ItemTokensClosed(items: Items, at: nat)
    ensures AllClosed(ItemTokens(items, at)) && |ItemTokens(items, at)| == ItemNodes(items)
    decreases items, 0
  {
    match items
    case NoItems =>
    case Item(before, value, after, rest) =>
      var start := at + |before|;
      TokensClosed(value, start);
      ItemTokensClosed(rest, start + |Print(value)| + |after| + 1);
  }

  lemma {:induction false} MemberTokensClosed(ms: Members, at: nat)
    ensures AllClosed(MemberTokens(ms, at)) && |MemberTokens(ms, at)| == MemberNodes(ms)
    decreases ms, 0
  {
    match ms
    case NoMembers =>
    case Member(before, key, colonBefore, colonAfter, value, after, rest) =>
      var start := at + |before| + |key| + 2 + |colonBefore| + 1 + |colonAfter|;
      TokensClosed(value, start);
      MemberTokensClosed(rest, start + |Print(value)| + |after| + 1);
  }

  // ---------------------------------------------------------------- values

  /** The state in which the tokenizer leaves a value that it met in state `st`. */
  function After(st: State, v: Json): State
    requires Scoped(st)
  {
    State(st.pos + |Print(v)|, Bump(st.toks, st.super) + Tokens(v, st.pos),
          if v.Arr? || v.Obj? then LastOpen(st.toks, |st.toks|) else st.super)
  }

  /** Container n is the innermost open one. */
  predicate Innermost(toks: seq<Token>, n: nat, kind: Kind) {
    && n < |toks| && toks[n].kind == kind && IsOpen(toks[n])
    && forall i :: n < i < |toks| ==> !IsOpen(toks[i])
  }

  lemma InnermostIsLast(toks: seq<Token>, n: nat, kind: Kind)
    requires Innermost(toks, n, kind)
    ensures LastOpen(toks, |toks|) == n
  {
  }

  lemma InnermostStays(toks: seq<Token>, super: int, n: nat, kind: Kind, more: seq<Token>)
    requires -1 <= super < |toks| && Innermost(toks, n, kind) && AllClosed(more)
    ensures Innermost(Bump(toks, super) + more, n, kind) && LastOpen(toks, |toks|) == n
  {
    InnermostIsLast(toks, n, kind);
    StaysInnermost(toks, Bump(toks, super), n, kind, more);
  }

  lemma StaysInnermost(toks: seq<Token>, bumped: seq<Token>, n: nat, kind: Kind, more: seq<Token>)
    requires Innermost(toks, n, kind) && AllClosed(more) && |bumped| == |toks|
    requires forall i :: 0 <= i < |toks| ==> bumped[i].kind == toks[i].kind && IsOpen(bumped[i]) == IsOpen(toks[i])
    ensures Innermost(bumped + more, n, kind)
  {
    forall i | n < i < |bumped + more| ensures !IsOpen((bumped + more)[i]) {
      if i < |toks| {
        assert (bumped + more)[i] == bumped[i] && !IsOpen(toks[i]);
      } else {
        assert (bumped + more)[i] == more[i - |toks|];
      }
    }
  }

  /** Container n with `more` further children and, now, an end. */
  function Sealed(toks: seq<Token>, n: nat, more: nat, end: nat): seq<Token>
    requires n < |toks|
  {
    toks[n := toks[n].(size := toks[n].size + more, end := end)]
  }

  lemma OpenStep(js: string, st: State, cap: nat, kind: Kind)
    requires Scoped(st) && |st.toks| < cap && (kind == Array || kind == Object)
    requires st.pos < |js| && js[st.pos] == if kind == Array then '[' else '{'
    ensures Step(js, st, cap) == Go(State(st.pos + 1, Add(st, Token(kind, st.pos, -1, 0)), |st.toks|))
  {
  }

  lemma Enter(f: State -> Outcome, js: string, st: State, cap: nat, kind: Kind, pad: string)
    requires Constant(f, js, cap)
    requires Scoped(st) && |st.toks| < cap && IsSpace(pad) && (kind == Array || kind == Object)
    requires At(js, st.pos, if kind == Array then "[" else "{") && At(js, st.pos + 1, pad)
    ensures var toks := Bump(st.toks, st.super) + [Token(kind, st.pos, -1, 0)];
            && f(st) == f(State(st.pos + 1 + |pad|, toks, |st.toks|))
            && Innermost(toks, |st.toks|, kind)
  {
    var bracket := if kind == Array then "[" else "{";
    AtChar(js, st.pos, bracket);
    var toks := Bump(st.toks, st.super) + [Token(kind, st.pos, -1, 0)];
    var inner := State(st.pos + 1, toks, |st.toks|);
    OpenStep(js, st, cap, kind);
    Tick(f, js, st, cap, inner);
    SkipSpace(f, js, inner, cap, pad);
  }

  lemma Leave(f: State -> Outcome, js: string, st: State, cap: nat, n: nat, kind: Kind)
    requires Constant(f, js, cap)
    requires Scoped(st) && Innermost(st.toks, n, kind) && (kind == Array || kind == Object)
    requires At(js, st.pos, if kind == Array then "]" else "}")
    ensures f(st)
         == f(State(st.pos + 1, Sealed(st.toks, n, 0, st.pos + 1), LastOpen(st.toks, n)))
  {
    var bracket := if kind == Array then "]" else "}";
    AtChar(js, st.pos, bracket);
    Tick(f, js, st, cap, State(st.pos + 1, Sealed(st.toks, n, 0, st.pos + 1), LastOpen(st.toks, n)));
  }

  /** A comma inside container n brings `toksuper` back to n. */
  lemma Continue(f: State -> Outcome, js: string, st: State, cap: nat, n: nat, kind: Kind)
    requires Constant(f, js, cap)
    requires Scoped(st) && Innermost(st.toks, n, kind) && (kind == Array || kind == Object)
    requires st.super == n || (st.super >= 0 && !IsContainer(st.toks[st.super]))
    requires At(js, st.pos, ",")
    ensures f(st) == f(st.(pos := st.pos + 1, super := n))
  {
    AtChar(js, st.pos, ",");
    assert js[st.pos + 0] == ',';
    assert LastOpenContainer(st.toks, |st.toks|) == n;
    Tick(f, js, st, cap, st.(pos := st.pos + 1, super := n));
  }

  /** The same with the text behind the comma. */
  lemma ContinueWith(f: State -> Outcome, js: string, st: State, cap: nat, n: nat, kind: Kind, tail: string)
    requires Constant(f, js, cap)
    requires Scoped(st) && Innermost(st.toks, n, kind) && (kind == Array || kind == Object)
    requires st.super == n || (st.super >= 0 && !IsContainer(st.toks[st.super]))
    requires At(js, st.pos, "," + tail)
    ensures f(st) == f(st.(pos := st.pos + 1, super := n)) && At(js, st.pos + 1, tail)
  {
    AtCat(js, st.pos, ",", tail);
    Continue(f, js, st, cap, n, kind);
  }

  lemma {:induction false} RunValue(f: State -> Outcome, js: string, st: State, cap: nat, v: Json)
    requires Constant(f, js, cap)
    requires WellFormed(v) && At(js, st.pos, Print(v)) && Stops(js, st.pos + |Print(v)|)
    requires Scoped(st) && |st.toks| + Nodes(v) <= cap
    ensures f(st) == f(After(st, v))
    decreases v, 1
  {
    match v
    case Arr(pad, items) => RunArray(f, js, st, cap, pad, items);
    case Obj(pad, members) => RunObject(f, js, st, cap, pad, members);
    case Str(body) =>
      LexQuoted(js, st.pos, body);
      Tick(f, js, st, cap, After(st, v));
    case _ =>
      LexWord(js, st.pos, v);
      Tick(f, js, st, cap, After(st, v));
  }

  lemma SealedNew(a: seq<Token>, t: Token, more: nat, end: nat, b: seq<Token>)
    ensures Sealed(a + [t], |a|, more, end) + b == a + ([t.(size := t.size + more, end := end)] + b)
  {
  }

  lemma {:induction false} RunArray(f: State -> Outcome, js: string, st: State, cap: nat, pad: string, items: Items)
    requires Constant(f, js, cap)
    requires WellFormed(Arr(pad, items)) && At(js, st.pos, Print(Arr(pad, items)))
    requires Scoped(st) && |st.toks| + Nodes(Arr(pad, items)) <= cap
    ensures f(st) == f(After(st, Arr(pad, items)))
    decreases items, 2
  {
    var n := |st.toks|;
    AtCat(js, st.pos, "[", pad + PrintItems(items));
    AtCat(js, st.pos + 1, pad, PrintItems(items));
    Enter(f, js, st, cap, Array, pad);
    var st1 := State(st.pos + 1 + |pad|, Bump(st.toks, st.super) + [Token(Array, st.pos, -1, 0)], n);
    RunItems(f, js, st1, cap, n, items);
    LastOpenUnique(st.toks, n, st1.toks, n);
    SealedNew(Bump(st.toks, st.super), Token(Array, st.pos, -1, 0), Length(items),
              st1.pos + |PrintItems(items)|, ItemTokens(items, st1.pos));
  }

  lemma {:induction false} RunObject(f: State -> Outcome, js: string, st: State, cap: nat, pad: string, ms: Members)
    requires Constant(f, js, cap)
    requires WellFormed(Obj(pad, ms)) && At(js, st.pos, Print(Obj(pad, ms)))
    requires Scoped(st) && |st.toks| + Nodes(Obj(pad, ms)) <= cap
    ensures f(st) == f(After(st, Obj(pad, ms)))
    decreases ms, 4
  {
    var n := |st.toks|;
    AtCat(js, st.pos, "{", pad + PrintMembers(ms));
    AtCat(js, st.pos + 1, pad, PrintMembers(ms));
    Enter(f, js, st, cap, Object, pad);
    var st1 := State(st.pos + 1 + |pad|, Bump(st.toks, st.super) + [Token(Object, st.pos, -1, 0)], n);
    RunMembers(f, js, st1, cap, n, ms);
    LastOpenUnique(st.toks, n, st1.toks, n);
    SealedNew(Bump(st.toks, st.super), Token(Object, st.pos, -1, 0), KeyCount(ms),
              st1.pos + |PrintMembers(ms)|, MemberTokens(ms, st1.pos));
  }

  /** A value with the white space around it, up to a character that may follow it. */
  function AfterPadded(st: State, before: string, v: Json, after: string): State
    requires Scoped(st)
  {
    var st1 := After(st.(pos := st.pos + |before|), v);
    st1.(pos := st1.pos + |after|)
  }

  lemma {:induction false} RunPadded(f: State -> Outcome, js: string, st: State, cap: nat,
                                     before: string, v: Json, after: string, tail: string)
    requires Constant(f, js, cap)
    requires IsSpace(before) && WellFormed(v) && IsSpace(after) && tail != "" && IsDelimiter(tail[0])
    requires At(js, st.pos, before + (Print(v) + (after + tail)))
    requires Scoped(st) && |st.toks| + Nodes(v) <= cap
    ensures var st' := AfterPadded(st, before, v, after);
            f(st) == f(st') && Scoped(st') && At(js, st'.pos, tail)
    decreases v, 2
  {
    AtCat(js, st.pos, before, Print(v) + (after + tail));
    SkipSpace(f, js, st, cap, before);
    var st1 := st.(pos := st.pos + |before|);
    AtCat(js, st1.pos, Print(v), after + tail);
    SpaceStops(js, st1.pos + |Print(v)|, after, tail);
    RunValue(f, js, st1, cap, v);
    var st2 := After(st1, v);
    AtCat(js, st2.pos, after, tail);
    SkipSpace(f, js, st2, cap, after);
  }

  /** Space, and what can follow it inside a container, stops a bare word. */
  lemma SpaceStops(js: string, p: nat, ws: string, tail: string)
    requires IsSpace(ws) && At(js, p, ws + tail)
    requires tail != "" && IsDelimiter(tail[0])
    ensures Stops(js, p)
  {
    AtChar(js, p, ws + tail);
    if ws != "" {
      assert ws[0] in ws;
    }
  }

  /** Sealing after one more child with tokens `a` and then `more` with tokens `b`. */
  lemma SealedSplit(toks: seq<Token>, n: nat, a: seq<Token>, more: nat, b: seq<Token>, end: nat)
    requires n < |toks|
    ensures Sealed(Bump(toks, n) + a, n, more, end) + b == Sealed(toks, n, more + 1, end) + (a + b)
    ensures LastOpen(Bump(toks, n) + a, n) == LastOpen(toks, n)
  {
    LastOpenUnique(toks, n, Bump(toks, n) + a, n);
  }

  /** The state behind the closing bracket of the array whose items start at st. */
  function AfterItems(st: State, n: nat, items: Items): State
    requires n < |st.toks|
  {
    var end := st.pos + |PrintItems(items)|;
    State(end, Sealed(st.toks, n, Length(items), end) + ItemTokens(items, st.pos), LastOpen(st.toks, n))
  }

  lemma ItemFirst(st: State, n: nat, items: Items)
    requires items.Item? && st.super == n < |st.toks|
    ensures var st1 := AfterPadded(st, items.before, items.value, items.after);
      AfterItems(st, n, items) ==
        if items.rest.NoItems? then
          State(st1.pos + 1, Sealed(st1.toks, n, 0, st1.pos + 1), LastOpen(st1.toks, n))
        else AfterItems(st1.(pos := st1.pos + 1), n, items.rest)
  {
    var at := st.pos + |items.before|;
    var st1 := AfterPadded(st, items.before, items.value, items.after);
    var mine := Tokens(items.value, at);
    var others := ItemTokens(items.rest, st1.pos + 1);
    var end := st.pos + |PrintItems(items)|;
    assert st1.toks == Bump(st.toks, n) + mine;
    SealedSplit(st.toks, n, mine, Length(items.rest), others, end);
    assert ItemTokens(items, st.pos) == mine + others;
    if items.rest.NoItems? {
      assert Sealed(st1.toks, n, 0, end) == Sealed(st1.toks, n, 0, end) + others;
    }
  }

  lemma NoItemsLeft(st: State, n: nat)
    requires n < |st.toks|
    ensures AfterItems(st, n, NoItems)
         == State(st.pos + 1, Sealed(st.toks, n, 0, st.pos + 1), LastOpen(st.toks, n))
  {
    assert AfterItems(st, n, NoItems).toks == Sealed(st.toks, n, 0, st.pos + 1);
  }

  lemma ItemStays(st: State, n: nat, items: Items)
    requires items.Item? && st.super == n && Innermost(st.toks, n, Array)
    ensures var st1 := AfterPadded(st, items.before, items.value, items.after);
      Innermost(st1.toks, n, Array) && |st1.toks| == |st.toks| + Nodes(items.value) && st1.super == n
  {
    var mine := Tokens(items.value, st.pos + |items.before|);
    TokensClosed(items.value, st.pos + |items.before|);
    InnermostStays(st.toks, n, n, Array, mine);
  }

  /** One item, and the comma if another one follows. */
  lemma {:induction false} RunItem(f: State -> Outcome, js: string, st: State, cap: nat, n: nat, items: Items)
    requires Constant(f, js, cap)
    requires items.Item? && WellFormedItems(items) && At(js, st.pos, PrintItems(items))
    requires st.super == n && Innermost(st.toks, n, Array) && |st.toks| + Nodes(items.value) <= cap
    ensures var st1 := AfterPadded(st, items.before, items.value, items.after);
      && Innermost(st1.toks, n, Array) && |st1.toks| == |st.toks| + Nodes(items.value) && st1.super == n
      && if items.rest.NoItems? then f(st) == f(st1) && At(js, st1.pos, "]")
         else f(st) == f(st1.(pos := st1.pos + 1)) && At(js, st1.pos + 1, PrintItems(items.rest))
    decreases items, 0
  {
    var tail := if items.rest.NoItems? then "]" else "," + PrintItems(items.rest);
    RunPadded(f, js, st, cap, items.before, items.value, items.after, tail);
    ItemStays(st, n, items);
    var st1 := AfterPadded(st, items.before, items.value, items.after);
    if !items.rest.NoItems? {
      ContinueWith(f, js, st1, cap, n, Array, PrintItems(items.rest));
      assert st1.(pos := st1.pos + 1, super := n) == st1.(pos := st1.pos + 1);
    }
  }

  lemma {:induction false} RunItems(f: State -> Outcome, js: string, st: State, cap: nat, n: nat, items: Items)
    requires Constant(f, js, cap)
    requires WellFormedItems(items) && At(js, st.pos, PrintItems(items))
    requires st.super == n && Innermost(st.toks, n, Array) && |st.toks| + ItemNodes(items) <= cap
    ensures f(st) == f(AfterItems(st, n, items))
    decreases items, 1
  {
    if items.NoItems? {
      NoItemsLeft(st, n);
      Leave(f, js, st, cap, n, Array);
    } else {
      RunItem(f, js, st, cap, n, items);
      ItemFirst(st, n, items);
      var st1 := AfterPadded(st, items.before, items.value, items.after);
      if items.rest.NoItems? {
        Leave(f, js, st1, cap, n, Array);
      } else {
        RunItems(f, js, st1.(pos := st1.pos + 1), cap, n, items.rest);
      }
    }
  }

  /** The state behind a member's key and colon. */
  function AfterKey(st: State, m: Members): State
    requires Scoped(st) && m.Member?
  {
    var k := st.pos + |m.before|;
    State(k + |Quoted(m.key)| + |m.colonBefore| + 1,
          Bump(st.toks, st.super) + [Token(String, k + 1, k + 1 + |m.key|, 0)], |st.toks|)
  }

  lemma {:induction false} RunKey(f: State -> Outcome, js: string, st: State, cap: nat, m: Members, tail: string)
    requires Constant(f, js, cap)
    requires m.Member? && IsSpace(m.before) && IsBody(m.key) && IsSpace(m.colonBefore)
    requires At(js, st.pos, m.before + (Quoted(m.key) + (m.colonBefore + (":" + tail))))
    requires Scoped(st) && |st.toks| < cap
    ensures f(st) == f(AfterKey(st, m)) && At(js, AfterKey(st, m).pos, tail)
  {
    AtCat(js, st.pos, m.before, Quoted(m.key) + (m.colonBefore + (":" + tail)));
    SkipSpace(f, js, st, cap, m.before);
    var k := st.pos + |m.before|;
    AtCat(js, k, Quoted(m.key), m.colonBefore + (":" + tail));
    LexQuoted(js, k, m.key);
    var st2 := State(k + |Quoted(m.key)|, AfterKey(st, m).toks, st.super);
    Tick(f, js, st.(pos := k), cap, st2);
    AtCat(js, st2.pos, m.colonBefore, ":" + tail);
    SkipSpace(f, js, st2, cap, m.colonBefore);
    var st3 := st2.(pos := st2.pos + |m.colonBefore|);
    AtCat(js, st3.pos, ":", tail);
    AtChar(js, st3.pos, ":");
    assert js[st3.pos + 0] == ':';
    Tick(f, js, st3, cap, AfterKey(st, m));
  }

  /** The state behind the closing brace of the object whose members start at st. */
  function AfterMembers(st: State, n: nat, ms: Members): State
    requires n < |st.toks|
  {
    var end := st.pos + |PrintMembers(ms)|;
    State(end, Sealed(st.toks, n, KeyCount(ms), end) + MemberTokens(ms, st.pos), LastOpen(st.toks, n))
  }

  function AfterMember(st: State, m: Members): State
    requires Scoped(st) && m.Member?
  {
    AfterPadded(AfterKey(st, m), m.colonAfter, m.value, m.after)
  }

  /** The tokens of a member that starts at offset `at`: its key, then its value. */
  function OwnTokens(m: Members, at: nat): seq<Token>
    requires m.Member?
  {
    var k := at + |m.before|;
    [Token(String, k + 1, k + 1 + |m.key|, 1)] + Tokens(m.value, k + |m.key| + 2 + |m.colonBefore| + 1 + |m.colonAfter|)
  }

  lemma BumpLast(toks: seq<Token>, t: Token, more: seq<Token>)
    ensures Bump(toks + [t], |toks|) + more == toks + ([t.(size := t.size + 1)] + more)
  {
    assert Bump(toks + [t], |toks|) == toks + [t.(size := t.size + 1)];
  }

  lemma MemberOwns(st: State, m: Members)
    requires m.Member? && Scoped(st)
    ensures AfterMember(st, m).toks == Bump(st.toks, st.super) + OwnTokens(m, st.pos)
  {
    var k := st.pos + |m.before|;
    var key := Token(String, k + 1, k + 1 + |m.key|, 0);
    BumpLast(Bump(st.toks, st.super), key, Tokens(m.value, AfterKey(st, m).pos + |m.colonAfter|));
  }

  lemma TokensOfMember(st: State, ms: Members)
    requires ms.Member? && Scoped(st)
    ensures MemberTokens(ms, st.pos) == OwnTokens(ms, st.pos) + MemberTokens(ms.rest, AfterMember(st, ms).pos + 1)
  {
  }

  lemma MemberSplits(st: State, n: nat, ms: Members)
    requires ms.Member? && st.super == n < |st.toks|
    ensures var st1, end := AfterMember(st, ms), st.pos + |PrintMembers(ms)|;
      AfterMembers(st, n, ms)
      == State(end, Sealed(st1.toks, n, KeyCount(ms.rest), end) + MemberTokens(ms.rest, st1.pos + 1),
               LastOpen(st1.toks, n))
  {
    var st1, own := AfterMember(st, ms), OwnTokens(ms, st.pos);
    var others := MemberTokens(ms.rest, st1.pos + 1);
    var end := st.pos + |PrintMembers(ms)|;
    MemberOwns(st, ms);
    TokensOfMember(st, ms);
    SealedSplit(st.toks, n, own, KeyCount(ms.rest), others, end);
  }

  /** Where a member ends, and where the object does. */
  lemma MemberEnds(st: State, ms: Members)
    requires ms.Member? && Scoped(st)
    ensures st.pos + |PrintMembers(ms)|
         == AfterMember(st, ms).pos + 1 + if ms.rest.NoMembers? then 0 else |PrintMembers(ms.rest)|
  {
  }

  /** The state behind the object, when st1 is the one behind its first member. */
  function BehindFirst(st1: State, n: nat, rest: Members): State
    requires n < |st1.toks|
  {
    if rest.NoMembers? then State(st1.pos + 1, Sealed(st1.toks, n, 0, st1.pos + 1), LastOpen(st1.toks, n))
    else AfterMembers(st1.(pos := st1.pos + 1, super := n), n, rest)
  }

  lemma BehindLast(st1: State, n: nat, rest: Members)
    requires n < |st1.toks| && rest.NoMembers?
    ensures var end := st1.pos + 1;
      BehindFirst(st1, n, rest)
      == State(end, Sealed(st1.toks, n, KeyCount(rest), end) + MemberTokens(rest, end), LastOpen(st1.toks, n))
  {
    var sealed := Sealed(st1.toks, n, 0, st1.pos + 1);
    assert sealed + [] == sealed;
  }

  lemma BehindOther(st1: State, n: nat, rest: Members)
    requires n < |st1.toks| && rest.Member?
    ensures var end := st1.pos + 1 + |PrintMembers(rest)|;
      BehindFirst(st1, n, rest)
      == State(end, Sealed(st1.toks, n, KeyCount(rest), end) + MemberTokens(rest, st1.pos + 1), LastOpen(st1.toks, n))
  {
  }

  lemma BehindFirstIs(st2: State, st1: State, n: nat, rest: Members, end: nat)
    requires n < |st1.toks| && end == st1.pos + 1 + if rest.NoMembers? then 0 else |PrintMembers(rest)|
    requires st2 == State(end, Sealed(st1.toks, n, KeyCount(rest), end) + MemberTokens(rest, st1.pos + 1),
                          LastOpen(st1.toks, n))
    ensures st2 == BehindFirst(st1, n, rest)
  {
    if rest.NoMembers? {
      BehindLast(st1, n, rest);
    } else {
      BehindOther(st1, n, rest);
    }
  }

  lemma MemberFirst(st: State, n: nat, ms: Members)
    requires ms.Member? && st.super == n < |st.toks|
    ensures n < |AfterMember(st, ms).toks| && AfterMembers(st, n, ms) == BehindFirst(AfterMember(st, ms), n, ms.rest)
  {
    var st1, st2, end := MemberJoins(st, n, ms);
    BehindFirstIs(st2, st1, n, ms.rest, end);
  }

  lemma MemberJoins(st: State, n: nat, ms: Members) returns (st1: State, st2: State, end: nat)
    requires ms.Member? && st.super == n < |st.toks|
    ensures st1 == AfterMember(st, ms) && st2 == AfterMembers(st, n, ms) && n < |st1.toks|
    ensures end == st1.pos + 1 + if ms.rest.NoMembers? then 0 else |PrintMembers(ms.rest)|
    ensures st2 == State(end, Sealed(st1.toks, n, KeyCount(ms.rest), end) + MemberTokens(ms.rest, st1.pos + 1),
                         LastOpen(st1.toks, n))
  {
    st1, st2, end := AfterMember(st, ms), AfterMembers(st, n, ms), st.pos + |PrintMembers(ms)|;
    MemberEnds(st, ms);
    MemberSplits(st, n, ms);
  }

  lemma KeyStays(st: State, n: nat, m: Members)
    requires m.Member? && st.super == n && Innermost(st.toks, n, Object)
    ensures Innermost(AfterKey(st, m).toks, n, Object)
  {
  }

  lemma MemberStays(st: State, n: nat, m: Members)
    requires m.Member? && st.super == n && Innermost(st.toks, n, Object)
    ensures var st1 := AfterMember(st, m);
      && Innermost(st1.toks, n, Object) && |st1.toks| == |st.toks| + 1 + Nodes(m.value)
      && (st1.super == n || (st1.super == |st.toks| && !IsContainer(st1.toks[|st.toks|])))
  {
    KeyStays(st, n, m);
    var st1 := AfterKey(st, m);
    var values := Tokens(m.value, st1.pos + |m.colonAfter|);
    TokensClosed(m.value, st1.pos + |m.colonAfter|);
    InnermostStays(st1.toks, |st.toks|, n, Object, values);
  }

  lemma NoMembersLeft(st: State, n: nat)
    requires n < |st.toks|
    ensures AfterMembers(st, n, NoMembers)
         == State(st.pos + 1, Sealed(st.toks, n, 0, st.pos + 1), LastOpen(st.toks, n))
  {
    assert AfterMembers(st, n, NoMembers).toks == Sealed(st.toks, n, 0, st.pos + 1);
  }

  /** One member, up to the comma or the closing brace. */
  lemma {:induction false} RunMember(f: State -> Outcome, js: string, st: State, cap: nat, m: Members)
    requires Constant(f, js, cap)
    requires WellFormedMembers(m) && m.Member?
    requires At(js, st.pos, PrintMembers(m))
    requires Scoped(st) && |st.toks| + 1 + Nodes(m.value) <= cap
    ensures f(st) == f(AfterMember(st, m))
    ensures At(js, AfterMember(st, m).pos, if m.rest.NoMembers? then "}" else "," + PrintMembers(m.rest))
    decreases m, 0
  {
    var tail := if m.rest.NoMembers? then "}" else "," + PrintMembers(m.rest);
    var text := m.colonAfter + (Print(m.value) + (m.after + tail));
    RunKey(f, js, st, cap, m, text);
    RunPadded(f, js, AfterKey(st, m), cap, m.colonAfter, m.value, m.after, tail);
  }

  /** The comma behind a member, if another one follows. */
  lemma PassComma(f: State -> Outcome, js: string, st1: State, cap: nat, n: nat, rest: Members)
    requires Constant(f, js, cap) && Scoped(st1) && Innermost(st1.toks, n, Object)
    requires st1.super == n || (st1.super >= 0 && !IsContainer(st1.toks[st1.super]))
    requires At(js, st1.pos, if rest.NoMembers? then "}" else "," + PrintMembers(rest))
    ensures rest.Member? ==>
      f(st1) == f(st1.(pos := st1.pos + 1, super := n)) && At(js, st1.pos + 1, PrintMembers(rest))
  {
    if rest.Member? {
      ContinueWith(f, js, st1, cap, n, Object, PrintMembers(rest));
    }
  }

  /** One member, and the comma if another one follows. */
  lemma {:induction false} RunMemberOn(f: State -> Outcome, js: string, st: State, cap: nat, n: nat, m: Members)
    requires Constant(f, js, cap)
    requires WellFormedMembers(m) && m.Member? && At(js, st.pos, PrintMembers(m))
    requires st.super == n && Innermost(st.toks, n, Object) && |st.toks| + 1 + Nodes(m.value) <= cap
    ensures var st1 := AfterMember(st, m);
      && Innermost(st1.toks, n, Object) && |st1.toks| == |st.toks| + 1 + Nodes(m.value)
      && if m.rest.NoMembers? then f(st) == f(st1) && At(js, st1.pos, "}")
         else f(st) == f(st1.(pos := st1.pos + 1, super := n)) && At(js, st1.pos + 1, PrintMembers(m.rest))
    decreases m, 1
  {
    RunMember(f, js, st, cap, m);
    MemberStays(st, n, m);
    PassComma(f, js, AfterMember(st, m), cap, n, m.rest);
  }

  lemma {:induction false} RunMembers(f: State -> Outcome, js: string, st: State, cap: nat, n: nat, ms: Members)
    requires Constant(f, js, cap)
    requires WellFormedMembers(ms) && At(js, st.pos, PrintMembers(ms))
    requires st.super == n && Innermost(st.toks, n, Object) && |st.toks| + MemberNodes(ms) <= cap
    ensures f(st) == f(AfterMembers(st, n, ms))
    decreases ms, 3
  {
    if ms.NoMembers? {
      NoMembersLeft(st, n);
      Leave(f, js, st, cap, n, Object);
    } else {
      RunFirst(f, js, st, AfterMember(st, ms), cap, n, ms);
      MemberFirst(st, n, ms);
    }
  }

  /** A first member, behind which the state is st1, and the rest of the object. */
  lemma {:induction false} RunFirst(f: State -> Outcome, js: string, st: State, st1: State, cap: nat, n: nat,
                                    ms: Members)
    requires Constant(f, js, cap)
    requires ms.Member? && WellFormedMembers(ms) && At(js, st.pos, PrintMembers(ms))
    requires st.super == n && Innermost(st.toks, n, Object) && |st.toks| + MemberNodes(ms) <= cap
    requires st1 == AfterMember(st, ms)
    ensures n < |st1.toks| && f(st) == f(BehindFirst(st1, n, ms.rest))
    decreases ms, 2
  {
    RunMemberOn(f, js, st, cap, n, ms);
    RunBehind(f, js, st1, cap, n, ms.rest);
  }

  /** The rest of an object behind one of its members. */
  lemma {:induction false} RunBehind(f: State -> Outcome, js: string, st1: State, cap: nat, n: nat, rest: Members)
    requires Constant(f, js, cap) && WellFormedMembers(rest) && Scoped(st1)
    requires Innermost(st1.toks, n, Object) && |st1.toks| + MemberNodes(rest) <= cap
    requires if rest.NoMembers? then At(js, st1.pos, "}") else At(js, st1.pos + 1, PrintMembers(rest))
    ensures f(if rest.NoMembers? then st1 else st1.(pos := st1.pos + 1, super := n)) == f(BehindFirst(st1, n, rest))
    decreases rest, 4
  {
    if rest.NoMembers? {
      Leave(f, js, st1, cap, n, Object);
    } else {
      RunMembers(f, js, st1.(pos := st1.pos + 1, super := n), cap, n, rest);
    }
  }

  // ---------------------------------------------------------------- documents

  /** A JSON text: `ws value ws` (section 2 of RFC 8259). */
  function Document(before: string, v: Json, after: string): string {
    before + (Print(v) + after)
  }

  lemma RunDocument(f: State -> Outcome, js: string, cap: nat, before: string, v: Json, after: string)
    requires IsSpace(before) && WellFormed(v) && IsSpace(after) && Nodes(v) <= cap
    requires At(js, 0, before + (Print(v) + after)) && |js| == |before| + |Print(v)| + |after|
    requires Constant(f, js, cap)
    ensures f(INIT) == f(After(INIT.(pos := |before|), v).(pos := |js|))
  {
    AtCat(js, 0, before, Print(v) + after);
    SkipSpace(f, js, INIT, cap, before);
    AtCat(js, |before|, Print(v), after);
    var st := INIT.(pos := |before|);
    if after != "" {
      AtChar(js, |before| + |Print(v)|, after);
      assert after[0] in after;
    }
    RunValue(f, js, st, cap, v);
    SkipSpace(f, js, After(st, v), cap, after);
  }

  lemma RunIsConstant(js: string, cap: nat) returns (f: State -> Outcome)
    ensures Constant(f, js, cap)
    ensures forall st: State :: Scoped(st) ==> f(st) == Run(js, st, cap)
  {
    f := st => if Scoped(st) then Run(js, st, cap) else Outcome(0, st);
  }

  /** Given room for every node, the tokenizer returns the number of nodes of the document and
      exactly its preorder tokens. */
  lemma ParsesEveryDocument(before: string, v: Json, after: string, cap: nat)
    requires IsSpace(before) && WellFormed(v) && IsSpace(after) && Nodes(v) <= cap
    ensures var js := Document(before, v, after);
            Run(js, INIT, cap) == Outcome(Nodes(v), State(|js|, Tokens(v, |before|), -1))
  {
    var js := Document(before, v, after);
    var f := RunIsConstant(js, cap);
    RunDocument(f, js, cap, before, v, after);
    TokensClosed(v, |before|);
    assert After(INIT.(pos := |before|), v).(pos := |js|) == State(|js|, Tokens(v, |before|), -1);
    assert LastOpen(Tokens(v, |before|), Nodes(v)) == -1;
  }
}
