/** The parser of where-clauses: one procedure per precedence level, over the lexemes that are left.
    From the loosest to the tightest: `in`, `or`, `and`, equality, order, and the expressions without
    operators. The first three associate to the left; the comparisons take two operands and do not
    associate. A procedure gives a tree and the lexemes it has left, throws, or goes on for ever. */
module WhereParser {
  import opened WhereLexer
  import opened Characters

  datatype Value = Bool(b: bool) | Num(n: nat) | Str(s: string)

  /** Syntax trees. `Missing` is the null the parser leaves where an operand should be. */
  datatype Node =
    | Missing
    | Scalar(value: Value)
    | Ident(name: string)
    | Call(name: string, args: seq<Node>)
    | Binary(lhs: Node, op: Kind, rhs: Node)
    | Among(lhs: Node, list: seq<Node>)

  /** What the parser throws: a text or what follows an expression does not start one, `in` has no list
      or an open one, a call or a parenthesis is not closed. */
  datatype Fault = BadStart | NoList | OpenList | OpenCall | OpenParen

  datatype Outcome<T> = Parsed(value: T, rest: seq<Lexeme>) | Throws(fault: Fault) | Diverges

  predicate At(ls: seq<Lexeme>, k: Kind) {
    ls != [] && ls[0].kind == k
  }

  /** A lexeme an expression can begin with. */
  predicate Starts(ls: seq<Lexeme>) {
    ls != [] && ls[0].kind in {Identifier, False, LParen, Number, String, True}
  }

  predicate IsEquality(k: Kind) {
    k == Equal || k == NotEqual
  }

  predicate IsRelational(k: Kind) {
    k == Less || k == LessEqual || k == Greater || k == GreaterEqual
  }

  function Inside(text: string): string {
    if |text| < 2 then "" else text[1..|text| - 1]
  }

  /** What the procedures promise: they take lexemes off the front, at least one if the first can
      begin an expression. */
  ghost predicate Advances<T>(o: Outcome<T>, ls: seq<Lexeme>) {
    o.Parsed? ==> |o.rest| <= |ls| && (Starts(ls) ==> |o.rest| < |ls|)
  }

  // --------------------------------------------------------------- procedures

  function ParseMember(ls: seq<Lexeme>): (o: Outcome<Node>)
    ensures Advances(o, ls)
    decreases |ls|, 0
  {
    if ls == [] then Parsed(Missing, ls)
    else
      var l, rest := ls[0], ls[1..];
      match l.kind
      case Identifier => if At(rest, LParen) then ParseArguments(l.text, [], rest[1..]) else Parsed(Ident(l.text), rest)
      case True => Parsed(Scalar(Bool(true)), rest)
      case False => Parsed(Scalar(Bool(false)), rest)
      case Number => Parsed(Scalar(Num(NumberOf(l.text))), rest)
      case String => Parsed(Scalar(Str(Inside(l.text))), rest)
      case LParen =>
        var inner := ParseOr(rest);
        if !inner.Parsed? then inner
        else if At(inner.rest, RParen) then Parsed(inner.value, inner.rest[1..])
        else Throws(OpenParen)
      case _ => Parsed(Missing, ls)
  }

  /** The loop over the arguments of a call. When a turn takes no lexeme, neither will the next. */
  function ParseArguments(name: string, args: seq<Node>, ls: seq<Lexeme>): (o: Outcome<Node>)
    ensures o.Parsed? ==> |o.rest| < |ls|
    decreases |ls|, 7
  {
    if ls == [] then Throws(OpenCall)
    else if ls[0].kind == RParen then Parsed(Call(name, args), ls[1..])
    else
      var arg := ParseOr(ls);
      if !arg.Parsed? then arg
      else
        var rest := if At(arg.rest, Comma) then arg.rest[1..] else arg.rest;
        if |rest| < |ls| then ParseArguments(name, args + [arg.value], rest) else Diverges
  }

  function ParseRelational(ls: seq<Lexeme>): (o: Outcome<Node>)
    ensures Advances(o, ls)
    decreases |ls|, 1
  {
    var lhs := ParseMember(ls);
    if !lhs.Parsed? || lhs.rest == [] || !IsRelational(lhs.rest[0].kind) then lhs
    else
      var rhs := ParseMember(lhs.rest[1..]);
      if rhs.Parsed? then Parsed(Binary(lhs.value, lhs.rest[0].kind, rhs.value), rhs.rest) else rhs
  }

  function ParseEquality(ls: seq<Lexeme>): (o: Outcome<Node>)
    ensures Advances(o, ls)
    decreases |ls|, 2
  {
    var lhs := ParseRelational(ls);
    if !lhs.Parsed? || lhs.rest == [] || !IsEquality(lhs.rest[0].kind) then lhs
    else
      var rhs := ParseRelational(lhs.rest[1..]);
      if rhs.Parsed? then Parsed(Binary(lhs.value, lhs.rest[0].kind, rhs.value), rhs.rest) else rhs
  }

  function AndLoop(lhs: Node, ls: seq<Lexeme>): (o: Outcome<Node>)
    ensures o.Parsed? ==> |o.rest| <= |ls|
    decreases |ls|, 3
  {
    if !At(ls, And) then Parsed(lhs, ls)
    else
      var rhs := ParseEquality(ls[1..]);
      if rhs.Parsed? then AndLoop(Binary(lhs, And, rhs.value), rhs.rest) else rhs
  }

  function ParseAnd(ls: seq<Lexeme>): (o: Outcome<Node>)
    ensures Advances(o, ls)
    decreases |ls|, 4
  {
    var lhs := ParseEquality(ls);
    if lhs.Parsed? then AndLoop(lhs.value, lhs.rest) else lhs
  }

  function OrLoop(lhs: Node, ls: seq<Lexeme>): (o: Outcome<Node>)
    ensures o.Parsed? ==> |o.rest| <= |ls|
    decreases |ls|, 5
  {
    if !At(ls, Or) then Parsed(lhs, ls)
    else
      var rhs := ParseAnd(ls[1..]);
      if rhs.Parsed? then OrLoop(Binary(lhs, Or, rhs.value), rhs.rest) else rhs
  }

  function ParseOr(ls: seq<Lexeme>): (o: Outcome<Node>)
    ensures Advances(o, ls)
    decreases |ls|, 6
  {
    var lhs := ParseAnd(ls);
    if lhs.Parsed? then OrLoop(lhs.value, lhs.rest) else lhs
  }

  function ParseList(list: seq<Node>, ls: seq<Lexeme>): (o: Outcome<seq<Node>>)
    ensures o.Parsed? ==> |o.rest| <= |ls|
    decreases |ls|
  {
    if ls == [] then Parsed(list, ls)
    else
      var item := ParseOr(ls);
      match item
      case Throws(f) => Throws(f)
      case Diverges => Diverges
      case Parsed(v, rest) => if At(rest, Comma) then ParseList(list + [v], rest[1..]) else Parsed(list + [v], rest)
  }

  function InLoop(lhs: Node, ls: seq<Lexeme>): (o: Outcome<Node>)
    ensures o.Parsed? ==> |o.rest| <= |ls|
    decreases |ls|
  {
    if !At(ls, In) then Parsed(lhs, ls)
    else if !At(ls[1..], LParen) then Throws(NoList)
    else
      match ParseList([], ls[2..])
      case Throws(f) => Throws(f)
      case Diverges => Diverges
      case Parsed(list, rest) => if At(rest, RParen) then InLoop(Among(lhs, list), rest[1..]) else Throws(OpenList)
  }

  function ParseIn(ls: seq<Lexeme>): (o: Outcome<Node>)
    ensures Advances(o, ls)
  {
    var lhs := ParseOr(ls);
    if lhs.Parsed? then InLoop(lhs.value, lhs.rest) else lhs
  }

  /** The loop of `parse`: as long as lexemes are left, parse again and forget what was parsed before. */
  function ParseAll(result: Node, ls: seq<Lexeme>): Outcome<Node>
    decreases |ls|
  {
    if ls == [] then Parsed(result, [])
    else if !Starts(ls) then Throws(BadStart)
    else
      var o := ParseIn(ls);
      if o.Parsed? then ParseAll(o.value, o.rest) else o
  }

  function Parse(source: string): Outcome<Node> {
    ParseAll(Missing, Lex(source))
  }
}
