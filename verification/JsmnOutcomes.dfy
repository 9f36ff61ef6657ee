/** Which lexemes the tokenizer takes for well-formed, character by character, what a comma does, and
    when a run ends with which code. Characters and codes are written out here, not taken from the
    scanners. */
module JsmnOutcomes {
  import opened JsmnSpec
  import opened JsmnRuns
  import JsonText

  // ---------------------------------------------------------------- strings

  /** What the tokenizer takes for the inside of a string: escapes as in RFC 8259, and any other
      characters, control characters included. */
  predicate IsLoose(s: string) {
    if s == "" then true
    else if s[0] == '\\' then
      |s| > 1 &&
      if s[1] == 'u' then |s| >= 6 && (forall c <- s[2..6] :: JsonText.IsHexDigit(c)) && IsLoose(s[6..])
      else JsonText.IsEscaped(s[1]) && IsLoose(s[2..])
    else s[0] != '\0' && s[0] != '"' && IsLoose(s[1..])
  }

  /** The first k characters from p on are hexadecimal digits. */
  predicate HexRun(js: string, p: nat, k: nat) {
    forall j :: p <= j < p + k ==> j < |js| && JsonText.IsHexDigit(js[j])
  }

  predicate Ended(js: string, p: nat) {
    p >= |js| || js[p] == '\0'
  }

  /** One of four digits is something else. */
  ghost predicate WrongDigit(js: string, p: nat) {
    exists k: nat :: k < 4 && HexRun(js, p, k) && !Ended(js, p + k) && !JsonText.IsHexDigit(js[p + k])
  }

  /** The text ends before the fourth digit. */
  ghost predicate MissingDigit(js: string, p: nat) {
    exists k: nat :: k < 4 && HexRun(js, p, k) && Ended(js, p + k)
  }

  /** A backslash with something behind it that is no escape. */
  ghost predicate BadEscape(js: string, p: nat) {
    && p + 1 < |js| && js[p] == '\\'
    && if js[p + 1] == 'u' then WrongDigit(js, p + 2) else !JsonText.IsEscaped(js[p + 1])
  }

  /** The end of the text, also in the middle of an escape. */
  ghost predicate Unfinished(js: string, p: nat) {
    || Ended(js, p)
    || (js[p] == '\\' && (p + 1 == |js| || (js[p + 1] == 'u' && MissingDigit(js, p + 2))))
  }

  /** How many digits a scan for n digits passes, and why it stops. */
  lemma {:induction false} HexScan(js: string, p: nat, n: nat) returns (k: nat)
    requires p <= |js|
    ensures k <= n && HexRun(js, p, k)
    ensures ScanHex(js, p, n) == if k == n || Ended(js, p + k) then Found(p + k) else Failed(-2)
    ensures k < n && !Ended(js, p + k) ==> !JsonText.IsHexDigit(js[p + k])
    decreases n
  {
    k := 0;
    if n > 0 && !Ended(js, p) && JsonText.IsHexDigit(js[p]) {
      k := HexScan(js, p + 1, n - 1);
      k := k + 1;
    }
  }

  /** The length of the escape or character that opens a loose string. */
  function ItemLength(s: string): nat
    requires s != "" && IsLoose(s)
  {
    if s[0] != '\\' then 1 else if s[1] == 'u' then 6 else 2
  }

  lemma DigitAt(js: string, p: nat, n: nat, i: nat)
    requires HexRun(js, p, n) && i < n
    ensures !Ended(js, p + i) && JsonText.IsHexDigit(js[p + i])
  {
  }

  lemma HexItem(js: string, p: nat)
    requires p + 6 <= |js| && forall c <- js[p + 2..p + 6] :: JsonText.IsHexDigit(c)
    ensures HexRun(js, p + 2, 4) && ScanHex(js, p + 2, 4) == Found(p + 6)
  {
    forall j | p + 2 <= j < p + 6 ensures JsonText.IsHexDigit(js[j]) {
      assert js[j] == js[p + 2..p + 6][j - p - 2];
    }
    var k := HexScan(js, p + 2, 4);
    if k < 4 {
      DigitAt(js, p + 2, 4, k);
    }
  }

  lemma SliceOfSlice(js: string, p: nat, q: nat, i: nat, j: nat)
    requires p <= q <= |js| && i <= j && p + j <= q
    ensures js[p..q][i..j] == js[p + i..p + j]
  {
    var a, b := js[p..q][i..j], js[p + i..p + j];
    forall k | 0 <= k < j - i ensures a[k] == b[k] {
      assert a[k] == js[p..q][i + k];
    }
  }

  lemma ScanItem(js: string, p: nat, q: nat)
    requires p < q <= |js| && IsLoose(js[p..q])
    ensures var n := ItemLength(js[p..q]);
      p + n <= q && IsLoose(js[p + n..q]) && ScanString(js, p) == ScanString(js, p + n)
  {
    var s := js[p..q];
    var n := ItemLength(s);
    assert s[n..] == js[p + n..q];
    if n == 6 {
      SliceOfSlice(js, p, q, 2, 6);
      HexItem(js, p);
    }
  }

  /** A loose string is scanned through. */
  lemma {:induction false} ScansLoose(js: string, p: nat, q: nat)
    requires p <= q <= |js| && IsLoose(js[p..q])
    ensures ScanString(js, p) == ScanString(js, q)
    decreases q - p
  {
    if p < q {
      ScanItem(js, p, q);
      ScansLoose(js, p + ItemLength(js[p..q]), q);
    }
  }

  /** What stops the scan at q. */
  ghost predicate StopsScan(js: string, q: nat) {
    (q < |js| && js[q] == '"') || BadEscape(js, q) || Unfinished(js, q)
  }

  lemma StopsWith(js: string, q: nat)
    requires q <= |js| && StopsScan(js, q)
    ensures ScanString(js, q) ==
      if q < |js| && js[q] == '"' then Found(q) else if BadEscape(js, q) then Failed(-2) else Failed(-3)
    ensures !(BadEscape(js, q) && Unfinished(js, q))
  {
    if q + 1 < |js| && js[q] == '\\' && js[q + 1] == 'u' {
      DigitsStop(js, q + 2);
    }
  }

  lemma SameStop(js: string, p: nat, j: nat, k: nat)
    requires HexRun(js, p, j) && HexRun(js, p, k) && j < 4 && k <= 4
    requires Ended(js, p + j) || !JsonText.IsHexDigit(js[p + j])
    requires k == 4 || Ended(js, p + k) || !JsonText.IsHexDigit(js[p + k])
    ensures j == k
  {
    if j < k {
      DigitAt(js, p, k, j);
    } else if k < j {
      DigitAt(js, p, j, k);
    }
  }

  lemma DigitsStop(js: string, p: nat)
    requires p <= |js| && (WrongDigit(js, p) || MissingDigit(js, p))
    ensures WrongDigit(js, p) <==> !MissingDigit(js, p)
    ensures if WrongDigit(js, p) then ScanHex(js, p, 4) == Failed(-2)
      else ScanHex(js, p, 4).Found? && Ended(js, ScanHex(js, p, 4).at)
  {
    var k := HexScan(js, p, 4);
    if WrongDigit(js, p) {
      var j: nat :| j < 4 && HexRun(js, p, j) && !Ended(js, p + j) && !JsonText.IsHexDigit(js[p + j]);
      SameStop(js, p, j, k);
    }
    if MissingDigit(js, p) {
      var j: nat :| j < 4 && HexRun(js, p, j) && Ended(js, p + j);
      SameStop(js, p, j, k);
    }
  }

  /** A character or an escape of n characters that a loose string may start with. */
  predicate IsItem(js: string, p: nat, n: nat) {
    && p + n <= |js|
    && match n
       case 1 => js[p] != '\\' && js[p] != '\0' && js[p] != '"'
       case 2 => js[p] == '\\' && js[p + 1] != 'u' && JsonText.IsEscaped(js[p + 1])
       case 6 => js[p] == '\\' && js[p + 1] == 'u' && HexRun(js, p + 2, 4)
       case _ => false
  }

  lemma LongerLoose(js: string, p: nat, n: nat, q: nat)
    requires IsItem(js, p, n) && p + n <= q <= |js| && IsLoose(js[p + n..q])
    ensures IsLoose(js[p..q])
  {
    var s := js[p..q];
    assert s[n..] == js[p + n..q];
    if n == 6 {
      SliceOfSlice(js, p, q, 2, 6);
      forall c | c in s[2..6] ensures JsonText.IsHexDigit(c) {
      }
    }
  }

  /** Either the scan stops at p or there is an item of a loose string. */
  lemma ItemOrStop(js: string, p: nat) returns (n: nat)
    requires p <= |js|
    ensures if n == 0 then StopsScan(js, p) else IsItem(js, p, n)
  {
    if Ended(js, p) || js[p] == '"' || (js[p] == '\\' && p + 1 == |js|) {
      return 0;
    }
    if js[p] != '\\' {
      n := 1;
    } else if js[p + 1] != 'u' {
      n := if JsonText.IsEscaped(js[p + 1]) then 2 else 0;
    } else {
      var k := HexScan(js, p + 2, 4);
      n := if k == 4 then 6 else 0;
      if k < 4 {
        assert if Ended(js, p + 2 + k) then MissingDigit(js, p + 2) else WrongDigit(js, p + 2);
      }
    }
  }

  lemma {:induction false} StringStops(js: string, p: nat) returns (q: nat)
    requires p <= |js|
    ensures p <= q <= |js| && IsLoose(js[p..q]) && StopsScan(js, q)
    decreases |js| - p
  {
    var n := ItemOrStop(js, p);
    if n == 0 {
      q := p;
    } else {
      q := StringStops(js, p + n);
      LongerLoose(js, p, n, q);
    }
  }

  /** What a string lexeme is: a loose string up to a quotation mark. It is invalid exactly when a
      loose string leads to a bad escape, and unfinished exactly when one leads to the end. */
  lemma StringScan(js: string, p: nat, q: nat)
    requires p <= |js|
    ensures ScanString(js, p) == Found(q) <==> p <= q < |js| && js[q] == '"' && IsLoose(js[p..q])
    ensures ScanString(js, p) == Failed(-2) <==> exists i :: p <= i <= |js| && IsLoose(js[p..i]) && BadEscape(js, i)
    ensures ScanString(js, p) == Failed(-3) <==> exists i :: p <= i <= |js| && IsLoose(js[p..i]) && Unfinished(js, i)
  {
    var k := StringStops(js, p);
    ScansLoose(js, p, k);
    StopsWith(js, k);
    forall i | p <= i <= |js| && IsLoose(js[p..i]) && StopsScan(js, i)
      ensures ScanString(js, p) ==
        if i < |js| && js[i] == '"' then Found(i) else if BadEscape(js, i) then Failed(-2) else Failed(-3)
      ensures !(BadEscape(js, i) && Unfinished(js, i))
    {
      ScansLoose(js, p, i);
      StopsWith(js, i);
    }
  }

  // ---------------------------------------------------------------- bare words

  /** The characters that a bare word holds: printable ASCII except those at which it stops. */
  predicate InWord(c: char) {
    '!' <= c <= '~' && c != ':' && c != ',' && c != ']' && c != '}'
  }

  predicate EndsWord(js: string, p: nat) {
    Ended(js, p) || js[p] in [' ', '\t', '\r', '\n', ':', ',', ']', '}']
  }

  lemma {:induction false} WordStops(js: string, p: nat) returns (q: nat)
    requires p <= |js|
    ensures p <= q <= |js| && AllInWord(js, p, q) && (EndsWord(js, q) || !InWord(js[q]))
    ensures ScanPrimitive(js, p) == if EndsWord(js, q) then Found(q) else Failed(-2)
    decreases |js| - p
  {
    if EndsWord(js, p) || !InWord(js[p]) {
      q := p;
    } else {
      q := WordStops(js, p + 1);
    }
  }

  predicate AllInWord(js: string, p: nat, q: nat)
    requires q <= |js|
  {
    forall i :: p <= i < q ==> InWord(js[i])
  }

  lemma WordGoesOn(js: string, p: nat, q: nat, i: nat)
    requires q <= |js| && AllInWord(js, p, q) && p <= i < q
    ensures InWord(js[i]) && !EndsWord(js, i)
  {
  }

  /** What a bare word is, and that it is invalid exactly when it leads to another character. */
  lemma WordScan(js: string, p: nat, q: nat)
    requires p <= |js|
    ensures ScanPrimitive(js, p) == Found(q) <==> p <= q <= |js| && AllInWord(js, p, q) && EndsWord(js, q)
    ensures ScanPrimitive(js, p) == Failed(-2) <==>
      exists i :: p <= i < |js| && AllInWord(js, p, i) && !InWord(js[i]) && !EndsWord(js, i)
  {
    var k := WordStops(js, p);
    forall i | p <= i <= |js| && AllInWord(js, p, i) && (EndsWord(js, i) || !InWord(js[i])) ensures i == k {
      if i < k {
        WordGoesOn(js, p, k, i);
      } else if k < i {
        WordGoesOn(js, p, i, k);
      }
    }
  }

  // ---------------------------------------------------------------- how a run ends

  /** The main loop comes from p to q without a lexical error. */
  predicate Reaches(js: string, p: nat, q: nat)
    decreases |js| - p
  {
    p == q || (p < q && !AtEnd(js, p) && !Lex(js, p).Bad? && Reaches(js, Next(Lex(js, p), p), q))
  }

  /** How many tokens it needs on the way. */
  function Needed(js: string, p: nat, q: nat): nat
    requires Reaches(js, p, q)
    decreases |js| - p
  {
    if p == q then 0
    else
      var x := Lex(js, p);
      Needed(js, Next(x, p), q) + if x.Open? || x.Text? then 1 else 0
  }

  /** The brackets it meets on the way. */
  function Word(js: string, p: nat, q: nat): seq<Bracket>
    requires Reaches(js, p, q)
    decreases |js| - p
  {
    if p == q then [] else Sign(Lex(js, p)) + Word(js, Next(Lex(js, p), p), q)
  }

  /** It comes to q with an array of `cap` tokens and matching brackets. */
  predicate Arrives(js: string, cap: nat, q: nat) {
    Reaches(js, 0, q) && Needed(js, 0, q) <= cap && Reduce(Word(js, 0, q), Stack([])) != Mismatch
  }

  /** One step on the way. */
  lemma ArrivalStep(js: string, st: State, cap: nat, word: seq<Bracket>)
    requires Scoped(st) && !AtEnd(js, st.pos) && !Lex(js, st.pos).Bad?
    requires Lex(js, st.pos).Open? || Lex(js, st.pos).Text? ==> |st.toks| < cap
    requires Reduce(Sign(Lex(js, st.pos)) + word, OpenStack(st.toks)) != Mismatch
    ensures var r := Step(js, st, cap);
      && r.Go? && r.state.pos == Next(Lex(js, st.pos), st.pos)
      && |r.state.toks| == |st.toks| + (if Lex(js, st.pos).Open? || Lex(js, st.pos).Text? then 1 else 0)
      && Reduce(Sign(Lex(js, st.pos)) + word, OpenStack(st.toks)) == Reduce(word, OpenStack(r.state.toks))
  {
    var x, r := Lex(js, st.pos), Step(js, st, cap);
    ReduceCat(Sign(x), word, OpenStack(st.toks));
    ReduceMismatch(word);
    if r.Stop? {
      StopIsMismatch(js, st, cap);
    }
    StepIsPush(js, st, cap, 0);
  }

  lemma {:induction false} Arrival(js: string, st: State, cap: nat, q: nat) returns (st': State)
    requires Scoped(st) && Reaches(js, st.pos, q) && |st.toks| + Needed(js, st.pos, q) <= cap
    requires Reduce(Word(js, st.pos, q), OpenStack(st.toks)) != Mismatch
    ensures Scoped(st') && st'.pos == q && |st'.toks| == |st.toks| + Needed(js, st.pos, q)
    ensures OpenStack(st'.toks) == Reduce(Word(js, st.pos, q), OpenStack(st.toks))
    ensures Run(js, st, cap) == Run(js, st', cap)
    decreases |js| - st.pos
  {
    st' := st;
    if st.pos != q {
      ArrivalStep(js, st, cap, Word(js, Next(Lex(js, st.pos), st.pos), q));
      st' := Arrival(js, Step(js, st, cap).state, cap, q);
    }
  }

  /** Where the run ends, and with which code. */
  ghost predicate EndsAt(js: string, cap: nat, q: nat, code: int) {
    && Arrives(js, cap, q)
    && var n, s := Needed(js, 0, q), Reduce(Word(js, 0, q), Stack([]));
      if AtEnd(js, q) then code == if s == Stack([]) then n else -3
      else
        match Lex(js, q)
        case Bad(c) => code == c
        case Open(_) => n == cap && code == -1
        case Text(_, _) => n == cap && code == -1
        case Close(kind) => Push(s, Closing(kind)) == Mismatch && code == -2
        case _ => false
  }

  /** The parser is left there, with the tokens it needed on the way. */
  lemma EndsWithCode(js: string, cap: nat, q: nat, code: int)
    requires EndsAt(js, cap, q, code)
    ensures var o := Run(js, INIT, cap);
      o.code == code && o.state.pos == q && |o.state.toks| == Needed(js, 0, q)
  {
    var st := Arrival(js, INIT, cap, q);
    OpenKindsTop(st.toks, 0);
    if !AtEnd(js, q) && Lex(js, q).Close? && Step(js, st, cap).Go? {
      StepIsPush(js, st, cap, 0);
      ReduceOne(Closing(Lex(js, q).kind), OpenStack(st.toks));
    }
  }

  lemma {:induction false} ReachesOne(js: string, p: nat, q: nat)
    requires Reaches(js, p, q) && !AtEnd(js, q) && !Lex(js, q).Bad?
    ensures var x, r := Lex(js, q), Next(Lex(js, q), q);
      && Reaches(js, p, r) && Word(js, p, r) == Word(js, p, q) + Sign(x)
      && Needed(js, p, r) == Needed(js, p, q) + if x.Open? || x.Text? then 1 else 0
    decreases |js| - p
  {
    if p == q {
      assert Sign(Lex(js, q)) + [] == Sign(Lex(js, q));
    } else {
      var x := Lex(js, p);
      var next := Next(x, p);
      ReachesOne(js, next, q);
      assert Sign(x) + (Word(js, next, q) + Sign(Lex(js, q))) == (Sign(x) + Word(js, next, q)) + Sign(Lex(js, q));
    }
  }

  /** From wherever the run comes to, it ends somewhere. */
  lemma {:induction false} EndsSomewhere(js: string, cap: nat, q: nat) returns (end: nat, code: int)
    requires Arrives(js, cap, q)
    ensures EndsAt(js, cap, end, code)
    decreases |js| - q
  {
    end, code := q, -3;
    if AtEnd(js, q) {
      code := if Reduce(Word(js, 0, q), Stack([])) == Stack([]) then Needed(js, 0, q) else -3;
    } else {
      var x := Lex(js, q);
      if x.Bad? {
        code := x.code;
      } else if (x.Open? || x.Text?) && Needed(js, 0, q) == cap {
        code := -1;
      } else if x.Close? && Push(Reduce(Word(js, 0, q), Stack([])), Closing(x.kind)) == Mismatch {
        code := -2;
      } else {
        ReachesOne(js, 0, q);
        ReduceCat(Word(js, 0, q), Sign(x), Stack([]));
        if x.Open? || x.Close? {
          ReduceOne(Sign(x)[0], Reduce(Word(js, 0, q), Stack([])));
        }
        end, code := EndsSomewhere(js, cap, Next(x, q));
      }
    }
  }

  /** A run from a fresh parser returns a code and leaves the parser at a position if and only if it
      ends there with it: -1 where the array is full and the next lexeme needs a token, -2 at an
      invalid lexeme or a closing bracket without its opening one, -3 at an unfinished string or at
      the end of the text with a bracket open, and otherwise the number of tokens. */
  lemma RunEnds(js: string, cap: nat, q: nat, code: int)
    ensures var o := Run(js, INIT, cap);
      o.code == code && o.state.pos == q <==> EndsAt(js, cap, q, code)
  {
    var end, c := EndsSomewhere(js, cap, 0);
    EndsWithCode(js, cap, end, c);
    if EndsAt(js, cap, q, code) {
      EndsWithCode(js, cap, q, code);
    }
  }

  /** Counting mode ends at the first lexical error with its code, and otherwise counts. */
  lemma {:induction false} CountEnds(js: string, p: nat, count: nat) returns (q: nat)
    ensures Reaches(js, p, q) && (AtEnd(js, q) || Lex(js, q).Bad?)
    ensures CountRun(js, p, count) == if AtEnd(js, q) then count + Needed(js, p, q) else Lex(js, q).code
    decreases |js| - p
  {
    if AtEnd(js, p) || Lex(js, p).Bad? {
      q := p;
    } else {
      var x := Lex(js, p);
      q := CountEnds(js, Next(x, p), if x.Open? || x.Text? then count + 1 else count);
    }
  }

  // ---------------------------------------------------------------- commas

  predicate IsOpenContainer(t: Token) {
    (t.kind == Object || t.kind == Array) && t.start != -1 && t.end == -1
  }

  /** At a comma only the superior index changes, and only if a string or a bare word is superior and
      some container is open; then the last one is superior. */
  lemma CommaMeans(js: string, st: State, cap: nat)
    requires Scoped(st) && st.pos < |js| && js[st.pos] == ','
    ensures Step(js, st, cap).Go?
    ensures var r := Step(js, st, cap).state;
      && r.pos == st.pos + 1 && r.toks == st.toks
      && if st.super == -1 || st.toks[st.super].kind == Object || st.toks[st.super].kind == Array
            || (forall t <- st.toks :: !IsOpenContainer(t))
         then r.super == st.super
         else
           && 0 <= r.super < |st.toks| && IsOpenContainer(st.toks[r.super])
           && forall i :: r.super < i < |st.toks| ==> !IsOpenContainer(st.toks[i])
  {
    var i := LastOpenContainer(st.toks, |st.toks|);
    if i >= 0 {
      assert st.toks[i] in st.toks;
    }
  }
}
