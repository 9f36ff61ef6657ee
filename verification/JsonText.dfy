/** JSON documents (RFC 8259) as trees that carry their own white space, their text, and the
    preorder token array that the tokenizer promises for them.

    White space is part of the tree, so a statement about every tree is a statement about every
    well-formed printing of every JSON value. */
module JsonText {
  import opened JsmnSpec

  datatype Json =
    | Null | True | False
    | Number(minus: bool, whole: string, frac: string, exp: string)
    | Str(body: string)
    | Arr(pad: string, items: Items)
    | Obj(pad: string, members: Members)

  datatype Items =
    | NoItems
    | Item(before: string, value: Json, after: string, rest: Items)

  datatype Members =
    | NoMembers
    | Member(before: string, key: string, colonBefore: string, colonAfter: string,
             value: Json, after: string, rest: Members)

  // ---------------------------------------------------------------- RFC 8259 grammar

  /** Section 2: ws */
  predicate IsWhiteSpace(c: char) {
    c == ' ' || c == '\t' || c == '\n' || c == '\r'
  }

  predicate IsSpace(s: string) {
    forall c <- s :: IsWhiteSpace(c)
  }

  predicate IsDigits(s: string) {
    |s| > 0 && forall c <- s :: '0' <= c <= '9'
  }

  /** Section 6: int, frac and exp */
  predicate IsWhole(s: string) {
    IsDigits(s) && (s[0] == '0' ==> |s| == 1)
  }

  predicate IsFrac(s: string) {
    s == "" || (s[0] == '.' && IsDigits(s[1..]))
  }

  predicate IsExp(s: string) {
    s == "" || (|s| > 1 && (s[0] == 'e' || s[0] == 'E')
                && IsDigits(if s[1] == '+' || s[1] == '-' then s[2..] else s[1..]))
  }

  /** Section 7: what may follow a backslash, other than the u of four hexadecimal digits */
  predicate IsEscaped(c: char) {
    || c == '"' || c == '\\' || c == '/' || c == 'b' || c == 'f' || c == 'n' || c == 'r' || c == 't'
  }

  predicate IsHexDigit(c: char) {
    '0' <= c <= '9' || 'a' <= c <= 'f' || 'A' <= c <= 'F'
  }

  /** Section 7: the characters between the quotation marks */
  predicate IsBody(s: string) {
    if s == "" then true
    else if s[0] == '\\' then
      |s| > 1 &&
      if s[1] == 'u' then |s| >= 6 && (forall c <- s[2..6] :: IsHexDigit(c)) && IsBody(s[6..])
      else IsEscaped(s[1]) && IsBody(s[2..])
    else s[0] >= ' ' && s[0] != '"' && IsBody(s[1..])
  }

  predicate WellFormed(v: Json) {
    match v
    case Null => true
    case True => true
    case False => true
    case Number(_, whole, frac, exp) => IsWhole(whole) && IsFrac(frac) && IsExp(exp)
    case Str(body) => IsBody(body)
    case Arr(pad, items) => IsSpace(pad) && WellFormedItems(items)
    case Obj(pad, members) => IsSpace(pad) && WellFormedMembers(members)
  }

  predicate WellFormedItems(items: Items) {
    items.Item? ==>
      IsSpace(items.before) && WellFormed(items.value) && IsSpace(items.after) && WellFormedItems(items.rest)
  }

  predicate WellFormedMembers(ms: Members) {
    ms.Member? ==>
      && IsSpace(ms.before) && IsBody(ms.key) && IsSpace(ms.colonBefore) && IsSpace(ms.colonAfter)
      && WellFormed(ms.value) && IsSpace(ms.after) && WellFormedMembers(ms.rest)
  }

  // ---------------------------------------------------------------- text

  function Quoted(body: string): string {
    "\"" + (body + "\"")
  }

  predicate IsWord(v: Json) {
    v.Null? || v.True? || v.False? || v.Number?
  }

  function Word(v: Json): string
    requires IsWord(v)
  {
    match v
    case Null => "null"
    case True => "true"
    case False => "false"
    case Number(minus, whole, frac, exp) => (if minus then "-" else "") + whole + frac + exp
  }

  function Print(v: Json): string {
    match v
    case Str(body) => Quoted(body)
    case Arr(pad, items) => "[" + (pad + PrintItems(items))
    case Obj(pad, members) => "{" + (pad + PrintMembers(members))
    case _ => Word(v)
  }

  /** The items and the closing bracket. */
  function PrintItems(items: Items): string {
    match items
    case NoItems => "]"
    case Item(before, value, after, rest) =>
      before + (Print(value) + (after + if rest.NoItems? then "]" else "," + PrintItems(rest)))
  }

  /** The members and the closing brace. */
  function PrintMembers(ms: Members): string {
    match ms
    case NoMembers => "}"
    case Member(before, key, colonBefore, colonAfter, value, after, rest) =>
      before + (Quoted(key) + (colonBefore + (":" + (colonAfter + (Print(value) + (after
      + if rest.NoMembers? then "}" else "," + PrintMembers(rest)))))))
  }

  // ---------------------------------------------------------------- promised tokens

  function Length(items: Items): nat {
    if items.NoItems? then 0 else 1 + Length(items.rest)
  }

  function KeyCount(ms: Members): nat {
    if ms.NoMembers? then 0 else 1 + KeyCount(ms.rest)
  }

  /** The tree in preorder, printed at offset `at`: a node, then its children; a key, then its value. */
  function Tokens(v: Json, at: nat): seq<Token> {
    var end := at + |Print(v)|;
    match v
    case Str(body) => [Token(String, at + 1, end - 1, 0)]
    case Arr(pad, items) => [Token(Array, at, end, Length(items))] + ItemTokens(items, at + 1 + |pad|)
    case Obj(pad, members) => [Token(Object, at, end, KeyCount(members))] + MemberTokens(members, at + 1 + |pad|)
    case _ => [Token(Primitive, at, end, 0)]
  }

  function ItemTokens(items: Items, at: nat): seq<Token> {
    match items
    case NoItems => []
    case Item(before, value, after, rest) =>
      var start := at + |before|;
      Tokens(value, start) + ItemTokens(rest, start + |Print(value)| + |after| + 1)
  }

  function MemberTokens(ms: Members, at: nat): seq<Token> {
    match ms
    case NoMembers => []
    case Member(before, key, colonBefore, colonAfter, value, after, rest) =>
      var k := at + |before|;
      var start := k + |key| + 2 + |colonBefore| + 1 + |colonAfter|;
      [Token(String, k + 1, k + 1 + |key|, 1)] + Tokens(value, start)
      + MemberTokens(rest, start + |Print(value)| + |after| + 1)
  }

  /** The number of nodes of the tree, keys included. */
  function Nodes(v: Json): nat {
    match v
    case Arr(_, items) => 1 + ItemNodes(items)
    case Obj(_, members) => 1 + MemberNodes(members)
    case _ => 1
  }

  function ItemNodes(items: Items): nat {
    if items.NoItems? then 0 else Nodes(items.value) + ItemNodes(items.rest)
  }

  function MemberNodes(ms: Members): nat {
    if ms.NoMembers? then 0 else 1 + Nodes(ms.value) + MemberNodes(ms.rest)
  }
}
