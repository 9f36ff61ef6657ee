/** The JSON tokenizer as a transition system over loop-head states (`jsmn_parse`, built without
    JSMN_STRICT and without JSMN_PARENT_LINKS).

    A character of `js` stands for one byte. One `Step` is one iteration of the main loop: the
    state before it is what the C variables hold at the loop head, the state after it is what they
    hold once the `for` increment has run. */
module JsmnSpec {

  const NOMEM := -1
  const INVAL := -2
  const PART := -3

  datatype Kind = Undefined | Object | Array | String | Primitive

  datatype Token = Token(kind: Kind, start: int, end: int, size: int)

  /** `toknext` is |toks|: the spec only holds the tokens that have been allocated. */
  datatype State = State(pos: nat, toks: seq<Token>, super: int)

  const INIT := State(0, [], -1)

  // ---------------------------------------------------------------- characters

  predicate AtEnd(js: string, p: nat) {
    p >= |js| || js[p] == '\0'
  }

  predicate IsBlank(c: char) {
    c == '\t' || c == '\r' || c == '\n' || c == ' '
  }

  /** The characters at which a bare word stops. */
  predicate IsDelimiter(c: char) {
    IsBlank(c) || c == ':' || c == ',' || c == ']' || c == '}'
  }

  predicate IsPrintable(c: char) {
    32 as char <= c < 127 as char
  }

  predicate IsEscape(c: char) {
    c == '"' || c == '/' || c == '\\' || c == 'b' || c == 'f' || c == 'r' || c == 'n' || c == 't'
  }

  predicate IsHex(c: char) {
    '0' <= c <= '9' || 'A' <= c <= 'F' || 'a' <= c <= 'f'
  }

  // ---------------------------------------------------------------- lexemes

  /** Where a sub-scanner stopped, or the error code it returns. */
  datatype Scan = Found(at: nat) | Failed(code: int)

  /** Scans a bare word: the position of the delimiter or end that follows it. */
  function ScanPrimitive(js: string, p: nat): (r: Scan)
    requires p <= |js|
    ensures r.Found? ==> p <= r.at <= |js|
    ensures r.Failed? ==> r.code == INVAL
    ensures r.Found? ==> forall i :: p <= i < r.at ==> IsPrintable(js[i]) && !IsDelimiter(js[i])
    ensures r.Found? ==> AtEnd(js, r.at) || IsDelimiter(js[r.at])
    decreases |js| - p
  {
    if AtEnd(js, p) || IsDelimiter(js[p]) then Found(p)
    else if !IsPrintable(js[p]) then Failed(INVAL)
    else ScanPrimitive(js, p + 1)
  }

  /** Scans up to n hexadecimal digits; the end of the text stops the scan early. */
  function ScanHex(js: string, p: nat, n: nat): (r: Scan)
    requires p <= |js|
    ensures r.Found? ==> p <= r.at <= |js| && r.at <= p + n
    ensures r.Found? && r.at < p + n ==> AtEnd(js, r.at)
    ensures r.Failed? ==> r.code == INVAL
    decreases n
  {
    if n == 0 || AtEnd(js, p) then Found(p)
    else if !IsHex(js[p]) then Failed(INVAL)
    else ScanHex(js, p + 1, n - 1)
  }

  /** Scans a string body from behind the opening quote: the position of the closing quote. */
  function ScanString(js: string, p: nat): (r: Scan)
    requires p <= |js|
    ensures r.Found? ==> p <= r.at < |js| && js[r.at] == '"'
    ensures r.Failed? ==> r.code == INVAL || r.code == PART
    decreases |js| - p
  {
    if AtEnd(js, p) then Failed(PART)
    else if js[p] == '"' then Found(p)
    else if js[p] == '\\' && p + 1 < |js| then
      if IsEscape(js[p + 1]) then ScanString(js, p + 2)
      else if js[p + 1] == 'u' then
        var h := ScanHex(js, p + 2, 4);
        if h.Failed? then h else ScanString(js, h.at)
      else Failed(INVAL)
    else ScanString(js, p + 1)
  }

  datatype Lexeme =
    | Open(kind: Kind)
    | Close(kind: Kind)
    | Blank
    | Colon
    | Comma
    | Text(token: Token, next: nat)
    | Bad(code: int)

  /** What the character at p makes the main loop do. It depends on the text alone. */
  function Lex(js: string, p: nat): (x: Lexeme)
    requires !AtEnd(js, p)
    ensures x.Open? || x.Close? ==> x.kind == Object || x.kind == Array
    ensures x.Text? ==> p < x.next <= |js| && x.token.size == 0
    ensures x.Text? ==> p <= x.token.start <= x.token.end <= x.next
    ensures x.Text? ==> x.token.kind == String || x.token.kind == Primitive
    ensures x.Bad? ==> x.code == INVAL || x.code == PART
  {
    var c := js[p];
    if c == '{' then Open(Object)
    else if c == '[' then Open(Array)
    else if c == '}' then Close(Object)
    else if c == ']' then Close(Array)
    else if c == '"' then
      var s := ScanString(js, p + 1);
      if s.Failed? then Bad(s.code) else Text(Token(String, p + 1, s.at, 0), s.at + 1)
    else if IsBlank(c) then Blank
    else if c == ':' then Colon
    else if c == ',' then Comma
    else
      var s := ScanPrimitive(js, p);
      if s.Failed? then Bad(s.code) else Text(Token(Primitive, p, s.at, 0), s.at)
  }

  function Next(x: Lexeme, p: nat): nat {
    if x.Text? then x.next else p + 1
  }

  // ---------------------------------------------------------------- tokens

  predicate IsContainer(t: Token) {
    t.kind == Object || t.kind == Array
  }

  predicate IsOpen(t: Token) {
    t.start != -1 && t.end == -1
  }

  /** The last of the first n tokens that is still open, or -1. */
  function LastOpen(toks: seq<Token>, n: nat): (r: int)
    requires n <= |toks|
    ensures -1 <= r < n
    ensures r >= 0 ==> IsOpen(toks[r])
    ensures forall i :: r < i < n ==> !IsOpen(toks[i])
  {
    if n == 0 then -1 else if IsOpen(toks[n - 1]) then n - 1 else LastOpen(toks, n - 1)
  }

  /** The last of the first n tokens that is a container and still open, or -1. */
  function LastOpenContainer(toks: seq<Token>, n: nat): (r: int)
    requires n <= |toks|
    ensures -1 <= r < n
    ensures r >= 0 ==> IsOpen(toks[r]) && IsContainer(toks[r])
    ensures forall i :: r < i < n ==> !(IsOpen(toks[i]) && IsContainer(toks[i]))
  {
    if n == 0 then -1
    else if IsContainer(toks[n - 1]) && IsOpen(toks[n - 1]) then n - 1
    else LastOpenContainer(toks, n - 1)
  }

  /** The tokens with the size of the superior token, if there is one, counted up. */
  function Bump(toks: seq<Token>, super: int): (r: seq<Token>)
    requires -1 <= super < |toks|
    ensures |r| == |toks|
    ensures forall i :: 0 <= i < |toks| && i != super ==> r[i] == toks[i]
    ensures super >= 0 ==> r[super] == toks[super].(size := toks[super].size + 1)
  {
    if super == -1 then toks else toks[super := toks[super].(size := toks[super].size + 1)]
  }

  // ---------------------------------------------------------------- filling mode

  predicate Scoped(st: State) {
    -1 <= st.super < |st.toks|
  }

  datatype Result = Go(state: State) | Stop(code: int)

  function Add(st: State, t: Token): seq<Token>
    requires Scoped(st)
  {
    Bump(st.toks, st.super) + [t]
  }

  /** One iteration of the main loop with an array of `cap` tokens. */
  function Step(js: string, st: State, cap: nat): (r: Result)
    requires Scoped(st) && !AtEnd(js, st.pos)
    ensures r.Go? ==> Scoped(r.state) && st.pos < r.state.pos <= |js|
    ensures r.Go? && |st.toks| <= cap ==> |st.toks| <= |r.state.toks| <= cap
    ensures r.Stop? ==> r.code == NOMEM || r.code == INVAL || r.code == PART
  {
    var n := |st.toks|;
    var x := Lex(js, st.pos);
    match x
    case Bad(code) => Stop(code)
    case Open(kind) =>
      if n >= cap then Stop(NOMEM)
      else Go(State(st.pos + 1, Add(st, Token(kind, st.pos, -1, 0)), n))
    case Text(token, next) =>
      if n >= cap then Stop(NOMEM)
      else Go(State(next, Add(st, token), st.super))
    case Close(kind) =>
      var i := LastOpen(st.toks, n);
      if i == -1 || st.toks[i].kind != kind then Stop(INVAL)
      else Go(State(st.pos + 1, st.toks[i := st.toks[i].(end := st.pos + 1)], LastOpen(st.toks, i)))
    case Blank => Go(st.(pos := st.pos + 1))
    case Colon => Go(st.(pos := st.pos + 1, super := n - 1))
    case Comma => Go(st.(pos := st.pos + 1, super := SuperAfterComma(st)))
  }

  function SuperAfterComma(st: State): (r: int)
    requires Scoped(st)
    ensures -1 <= r < |st.toks|
  {
    if st.super != -1 && !IsContainer(st.toks[st.super]) then
      var i := LastOpenContainer(st.toks, |st.toks|);
      if i == -1 then st.super else i
    else st.super
  }

  /** The return value of `jsmn_parse` together with the state it leaves behind. */
  datatype Outcome = Outcome(code: int, state: State)

  /** The whole main loop followed by the search for unclosed tokens. */
  function Run(js: string, st: State, cap: nat): (o: Outcome)
    requires Scoped(st)
    ensures Scoped(o.state)
    ensures |st.toks| <= cap ==> |st.toks| <= |o.state.toks| <= cap
    ensures o.code == NOMEM || o.code == INVAL || o.code == PART || o.code == |o.state.toks|
    decreases |js| - st.pos
  {
    if AtEnd(js, st.pos) then
      Outcome(if LastOpen(st.toks, |st.toks|) == -1 then |st.toks| else PART, st)
    else
      match Step(js, st, cap)
      case Stop(code) => Outcome(code, st)
      case Go(next) => Run(js, next, cap)
  }

  // ---------------------------------------------------------------- counting mode

  /** `jsmn_parse` with `tokens == NULL`: brackets are not matched, nothing is stored. */
  function CountRun(js: string, p: nat, count: nat): (code: int)
    ensures code == INVAL || code == PART || code >= count
    decreases |js| - p
  {
    if AtEnd(js, p) then count
    else
      var x := Lex(js, p);
      if x.Bad? then x.code
      else CountRun(js, Next(x, p), if x.Open? || x.Text? then count + 1 else count)
  }
}
