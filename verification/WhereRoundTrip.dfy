/** Where-clauses written with as few parentheses as the grammar allows, and read back. */
module WhereRoundTrip {
  import opened Basics
  import opened WhereLexer
  import opened WhereParser
  import opened Characters

  // ------------------------------------------------------------------ writing

  /** How the words of a clause are spelled: `and` or `&&`, in any case. */
  datatype Style = Style(conj: string, disj: string, member: string, yes: string, no: string)

  ghost predicate StyleOk(st: Style) {
    && LexemeOk(Lexeme(And, st.conj)) && LexemeOk(Lexeme(Or, st.disj)) && LexemeOk(Lexeme(In, st.member))
    && LexemeOk(Lexeme(True, st.yes)) && LexemeOk(Lexeme(False, st.no))
  }

  function Digits(n: nat): (s: string)
    ensures All(IsDigit, s) && (n > 0 ==> s != "" && s[0] != '0')
  {
    if n == 0 then "" else Digits(n / 10) + ['0' + (n % 10) as char]
  }

  /** The precedence of a tree: 0 or, 1 and, 2 equality, 3 relational, 4 the rest. */
  function Level(e: Node): (n: nat)
    ensures n <= 4
  {
    if e.Binary? then
      if e.op == Or then 0 else if e.op == And then 1 else if IsEquality(e.op) then 2
      else if IsRelational(e.op) then 3 else 4
    else 4
  }

  const OPEN := Lexeme(LParen, "(")
  const CLOSE := Lexeme(RParen, ")")
  const COMMA := Lexeme(Comma, ",")

  function Quote(s: string): string {
    if WellEscaped(s, '\'') then "'" + s + "'" else "\"" + s + "\""
  }

  function Symbol(st: Style, op: Kind): Lexeme {
    match op
    case And => Lexeme(And, st.conj)
    case Or => Lexeme(Or, st.disj)
    case Equal => Lexeme(Equal, "=")
    case NotEqual => Lexeme(NotEqual, "!=")
    case Less => Lexeme(Less, "<")
    case LessEqual => Lexeme(LessEqual, "<=")
    case Greater => Lexeme(Greater, ">")
    case _ => Lexeme(GreaterEqual, ">=")
  }

  function ScalarLexeme(st: Style, v: Value): Lexeme {
    match v
    case Bool(b) => if b then Lexeme(True, st.yes) else Lexeme(False, st.no)
    case Num(n) => Lexeme(Number, Digits(n))
    case Str(s) => Lexeme(String, Quote(s))
  }

  /** The levels at which the operands are written: `or` and `and` associate to the left, the others
      do not associate. */
  function LeftLevel(op: Kind): nat {
    if op == Or then 0 else if op == And then 1 else if IsEquality(op) then 3 else 4
  }

  function RightLevel(op: Kind): nat {
    if op == Or then 1 else if op == And then 2 else if IsEquality(op) then 3 else 4
  }

  /** The expression where a certain precedence is demanded. */
  function Print(st: Style, e: Node, level: nat): seq<Lexeme>
    decreases e, 1
  {
    if Level(e) < level then [OPEN] + Body(st, e) + [CLOSE] else Body(st, e)
  }

  function Body(st: Style, e: Node): seq<Lexeme>
    decreases e, 0
  {
    match e
    case Scalar(v) => [ScalarLexeme(st, v)]
    case Ident(name) => [Lexeme(Identifier, name)]
    case Call(name, args) => [Lexeme(Identifier, name), OPEN] + PrintList(st, args) + [CLOSE]
    case Binary(l, op, r) => Print(st, l, LeftLevel(op)) + [Symbol(st, op)] + Print(st, r, RightLevel(op))
    case _ => []
  }

  function PrintList(st: Style, list: seq<Node>): seq<Lexeme>
    decreases list, 0
  {
    if list == [] then []
    else if |list| == 1 then Print(st, list[0], 0)
    else Print(st, list[0], 0) + [COMMA] + PrintList(st, list[1..])
  }

  function PrintClause(st: Style, e: Node): seq<Lexeme> {
    if e.Among? then PrintClause(st, e.lhs) + [MemberLexeme(st), OPEN] + PrintList(st, e.list) + [CLOSE] else Print(st, e, 0)
  }

  function MemberLexeme(st: Style): Lexeme {
    Lexeme(In, st.member)
  }

  /** Trees that can be written. */
  ghost predicate Printable(e: Node) {
    match e
    case Missing => false
    case Scalar(v) => if v.Num? then v.n > 0 else v.Str? ==> WellEscaped(v.s, '\'') || WellEscaped(v.s, '"')
    case Ident(name) => NameOk(Lexeme(Identifier, name))
    case Call(name, args) => NameOk(Lexeme(Identifier, name)) && forall a <- args :: Printable(a)
    case Binary(l, op, r) => (op in {And, Or} || IsEquality(op) || IsRelational(op)) && Printable(l) && Printable(r)
    case Among(_, _) => false
  }

  /** A chain of `in` over an expression, each with a list that is not empty. */
  ghost predicate PrintableClause(e: Node) {
    if e.Among? then PrintableClause(e.lhs) && e.list != [] && forall a <- e.list :: Printable(a) else Printable(e)
  }

  // ---------------------------------------------------------------- the lexemes

  lemma {:induction false} NumberOfDigits(n: nat)
    ensures NumberOf(Digits(n)) == n
  {
    if n > 0 {
      var front, last := Digits(n / 10), '0' + (n % 10) as char;
      assert Digits(n)[..|Digits(n)| - 1] == front;
      NumberOfDigits(n / 10);
    }
  }

  lemma QuoteOk(s: string)
    requires WellEscaped(s, '\'') || WellEscaped(s, '"')
    ensures LexemeOk(Lexeme(String, Quote(s))) && Inside(Quote(s)) == s
  {
    var t := Quote(s);
    assert t[1..|t| - 1] == s;
  }

  ghost predicate AllOk(ls: seq<Lexeme>) {
    forall l <- ls :: LexemeOk(l)
  }

  lemma SymbolsOk(st: Style)
    requires StyleOk(st)
    ensures LexemeOk(OPEN) && LexemeOk(CLOSE) && LexemeOk(COMMA)
    ensures forall op :: op in {And, Or} || IsEquality(op) || IsRelational(op) ==> LexemeOk(Symbol(st, op))
  {
    forall op | op in {And, Or} || IsEquality(op) || IsRelational(op) ensures LexemeOk(Symbol(st, op)) {
      SymbolIsOk(st, op);
    }
  }

  lemma SymbolIsOk(st: Style, op: Kind)
    requires StyleOk(st) && (op in {And, Or} || IsEquality(op) || IsRelational(op))
    ensures LexemeOk(Symbol(st, op))
  {
    hide WordOk;
  }

  lemma {:induction false} PrintOk(st: Style, e: Node, level: nat)
    requires StyleOk(st) && Printable(e)
    ensures AllOk(Print(st, e, level)) && AllOk(Body(st, e))
    decreases e, 1
  {
    hide LexemeOk;
    SymbolsOk(st);
    match e {
      case Scalar(v) => ScalarOk(st, v);
      case Ident(name) => NameLexemeOk(name);
      case Call(name, args) =>
        NameLexemeOk(name);
        ListOk(st, args);
      case Binary(l, op, r) =>
        PrintOk(st, l, LeftLevel(op));
        PrintOk(st, r, RightLevel(op));
    }
  }

  lemma ScalarOk(st: Style, v: Value)
    requires StyleOk(st) && Printable(Scalar(v))
    ensures LexemeOk(ScalarLexeme(st, v))
  {
    if v.Str? {
      QuoteOk(v.s);
    }
  }

  lemma NameLexemeOk(name: string)
    requires NameOk(Lexeme(Identifier, name))
    ensures LexemeOk(Lexeme(Identifier, name))
  {
  }

  lemma {:induction false} ListOk(st: Style, list: seq<Node>)
    requires StyleOk(st) && forall a <- list :: Printable(a)
    ensures AllOk(PrintList(st, list))
    decreases list, 0
  {
    hide LexemeOk;
    SymbolsOk(st);
    if list != [] {
      PrintOk(st, list[0], 0);
      if |list| > 1 {
        ListOk(st, list[1..]);
      }
    }
  }

  lemma {:induction false} ClauseOk(st: Style, e: Node)
    requires StyleOk(st) && PrintableClause(e)
    ensures AllOk(PrintClause(st, e))
  {
    if e.Among? {
      SymbolsOk(st);
      hide LexemeOk;
      ClauseOk(st, e.lhs);
      ListOk(st, e.list);
    } else {
      PrintOk(st, e, 0);
    }
  }

  /** An expression is never empty, and begins as the parser expects one to. */
  lemma {:induction false} PrintStarts(st: Style, e: Node, level: nat)
    requires Printable(e)
    ensures Starts(Print(st, e, level)) && Starts(Body(st, e))
  {
    if e.Binary? {
      PrintStarts(st, e.lhs, LeftLevel(e.op));
    }
  }

  // ------------------------------------------------------------------ reading

  function ParseAt(level: nat, ls: seq<Lexeme>): Outcome<Node> {
    if level == 0 then ParseOr(ls) else if level == 1 then ParseAnd(ls) else if level == 2 then ParseEquality(ls)
    else if level == 3 then ParseRelational(ls) else ParseMember(ls)
  }

  /** A lexeme that would continue an expression read at this level. */
  predicate Continues(level: nat, k: Kind) {
    k == LParen || (level <= 3 && IsRelational(k)) || (level <= 2 && IsEquality(k)) || (level <= 1 && k == And) || (level == 0 && k == Or)
  }

  predicate Ends(level: nat, rest: seq<Lexeme>) {
    rest == [] || !Continues(level, rest[0].kind)
  }

  /** What is read at one level is read at the levels below it, if nothing continues it. */
  lemma {:induction false} ReadLower(ls: seq<Lexeme>, e: Node, rest: seq<Lexeme>, from: nat, to: nat)
    requires to <= from <= 4 && ParseAt(from, ls) == Parsed(e, rest) && Ends(to, rest)
    ensures ParseAt(to, ls) == Parsed(e, rest)
    decreases from
  {
    if to < from {
      ReadOneLower(ls, e, rest, from - 1);
      ReadLower(ls, e, rest, from - 1, to);
    }
  }

  lemma ReadOneLower(ls: seq<Lexeme>, e: Node, rest: seq<Lexeme>, level: nat)
    requires level < 4 && ParseAt(level + 1, ls) == Parsed(e, rest) && Ends(level, rest)
    ensures ParseAt(level, ls) == Parsed(e, rest)
  {
    if level == 0 {
      assert OrLoop(e, rest) == Parsed(e, rest);
    } else if level == 1 {
      assert AndLoop(e, rest) == Parsed(e, rest);
    } else if level == 2 {
      assert ParseEquality(ls) == Parsed(e, rest);
    }
  }

  lemma EndsAbove(level: nat, rest: seq<Lexeme>, above: nat)
    requires Ends(level, rest) && level <= above
    ensures Ends(above, rest)
  {
  }

  /** An expression is read back, whatever follows that does not continue it. */
  lemma {:induction false} ReadBack(st: Style, e: Node, level: nat, rest: seq<Lexeme>)
    requires StyleOk(st) && Printable(e) && level <= 4 && Ends(level, rest)
    ensures ParseAt(level, Print(st, e, level) + rest) == Parsed(e, rest)
    decreases e, 10
  {
    hide StyleOk;
    hide Printable;
    hide ParseOr;
    hide Body;
    if Level(e) < level {
      Closed(rest);
      ReadBody(st, e, 0, [CLOSE] + rest);
      hide Ends;
      var inner := Body(st, e) + ([CLOSE] + rest);
      Parenthesized(inner, e, rest);
      ReadLower([OPEN] + inner, e, rest, 4, level);
      hide ParseAt;
      hide ParseMember;
      assert [OPEN] + Body(st, e) + [CLOSE] + rest == [OPEN] + inner;
    } else {
      ReadBody(st, e, level, rest);
    }
  }

  lemma Parenthesized(inner: seq<Lexeme>, e: Node, rest: seq<Lexeme>)
    requires ParseOr(inner) == Parsed(e, [CLOSE] + rest)
    ensures ParseMember([OPEN] + inner) == Parsed(e, rest)
  {
    var ls := [OPEN] + inner;
    assert ls[0] == OPEN && ls[1..] == inner;
    assert ([CLOSE] + rest)[1..] == rest;
  }

  /** The same without parentheses, at the expression's own level or below. */
  lemma {:induction false} ReadBody(st: Style, e: Node, level: nat, rest: seq<Lexeme>)
    requires StyleOk(st) && Printable(e) && level <= Level(e) && Ends(level, rest)
    ensures ParseAt(level, Body(st, e) + rest) == Parsed(e, rest)
    decreases e, 9
  {
    var own := Level(e);
    EndsAbove(level, rest, own);
    if own == 0 {
      OrSpine(st, e, rest);
      assert OrLoop(e, rest) == Parsed(e, rest);
    } else if own == 1 {
      AndSpine(st, e, rest);
      assert AndLoop(e, rest) == Parsed(e, rest);
    } else if own < 4 {
      ReadOperands(st, e, rest);
    } else {
      ReadAtom(st, e, rest);
    }
    ReadLower(Body(st, e) + rest, e, rest, own, level);
  }

  lemma BodySplits(st: Style, e: Node, rest: seq<Lexeme>)
    requires e.Binary?
    ensures Body(st, e) + rest ==
            Print(st, e.lhs, LeftLevel(e.op)) + ([Symbol(st, e.op)] + (Print(st, e.rhs, RightLevel(e.op)) + rest))
  {
    var l, s, r := Print(st, e.lhs, LeftLevel(e.op)), [Symbol(st, e.op)], Print(st, e.rhs, RightLevel(e.op));
    AppendAssociates(l + s, r, rest);
    AppendAssociates(l, s, r + rest);
  }

  /** A comparison: its operands are read one level up. */
  lemma {:induction false} ReadOperands(st: Style, e: Node, rest: seq<Lexeme>)
    requires StyleOk(st) && Printable(e) && e.Binary? && 2 <= Level(e) <= 3 && Ends(Level(e), rest)
    ensures ParseAt(Level(e), Body(st, e) + rest) == Parsed(e, rest)
    decreases e, 0
  {
    var up := Level(e) + 1;
    var right := Print(st, e.rhs, up) + rest;
    var middle := [Symbol(st, e.op)] + right;
    EndsAbove(Level(e), rest, up);
    BodySplits(st, e, rest);
    assert middle[0].kind == e.op && middle[1..] == right;
    ReadBack(st, e.lhs, up, middle);
    ReadBack(st, e.rhs, up, rest);
  }

  /** A chain of `and`: reading it comes to the same as having read it as a left operand. */
  lemma {:induction false} AndSpine(st: Style, e: Node, rest: seq<Lexeme>)
    requires StyleOk(st) && Printable(e) && Ends(2, rest)
    ensures ParseAnd(Print(st, e, 1) + rest) == AndLoop(e, rest)
    decreases e, if Level(e) == 1 then 0 else 11
  {
    if Level(e) == 1 {
      var right := Print(st, e.rhs, 2) + rest;
      var middle := [Symbol(st, And)] + right;
      BodySplits(st, e, rest);
      assert middle[0].kind == And && middle[1..] == right;
      AndSpine(st, e.lhs, middle);
      ReadBack(st, e.rhs, 2, rest);
    } else {
      ReadBack(st, e, 2, rest);
    }
  }

  lemma {:induction false} OrSpine(st: Style, e: Node, rest: seq<Lexeme>)
    requires StyleOk(st) && Printable(e) && Ends(1, rest)
    ensures ParseOr(Print(st, e, 0) + rest) == OrLoop(e, rest)
    decreases e, if Level(e) == 0 then 0 else 11
  {
    if Level(e) == 0 {
      var right := Print(st, e.rhs, 1) + rest;
      var middle := [Symbol(st, Or)] + right;
      BodySplits(st, e, rest);
      assert middle[0].kind == Or && middle[1..] == right;
      OrSpine(st, e.lhs, middle);
      ReadBack(st, e.rhs, 1, rest);
    } else {
      ReadBack(st, e, 1, rest);
    }
  }

  lemma {:induction false} ReadAtom(st: Style, e: Node, rest: seq<Lexeme>)
    requires StyleOk(st) && Printable(e) && Level(e) == 4 && Ends(4, rest)
    ensures ParseMember(Body(st, e) + rest) == Parsed(e, rest)
    decreases e, 0
  {
    match e {
      case Scalar(v) => ReadScalar(st, v, rest);
      case Ident(name) =>
        var ls := [Lexeme(Identifier, name)] + rest;
        assert ls[0] == Lexeme(Identifier, name) && ls[1..] == rest;
      case Call(name, args) =>
        var more := PrintList(st, args) + ([CLOSE] + rest);
        var ls := Body(st, e) + rest;
        assert ls == [Lexeme(Identifier, name), OPEN] + more;
        assert ls[0] == Lexeme(Identifier, name) && ls[1] == OPEN && ls[1..][1..] == more;
        ReadArguments(st, name, [], args, rest);
        AppendNothing(args);
    }
  }

  lemma ReadScalar(st: Style, v: Value, rest: seq<Lexeme>)
    requires StyleOk(st) && Printable(Scalar(v))
    ensures ParseMember([ScalarLexeme(st, v)] + rest) == Parsed(Scalar(v), rest)
  {
    if v.Num? {
      NumberOfDigits(v.n);
    } else if v.Str? {
      QuoteOk(v.s);
    }
    hide StyleOk;
    hide Printable;
    hide Quote;
    ReadOne(ScalarLexeme(st, v), rest);
  }

  lemma ReadOne(l: Lexeme, rest: seq<Lexeme>)
    requires l.kind in {True, False, Number, String}
    ensures ParseMember([l] + rest) == Parsed(Scalar(
              if l.kind == True then Bool(true) else if l.kind == False then Bool(false)
              else if l.kind == Number then Num(NumberOf(l.text)) else Str(Inside(l.text))), rest)
  {
    var ls := [l] + rest;
    assert ls[0] == l && ls[1..] == rest;
  }

  /** One turn of the loop over the arguments. */
  lemma ArgumentTurn(name: string, done: seq<Node>, item: seq<Lexeme>, tail: seq<Lexeme>, v: Node)
    requires Starts(item) && ParseOr(item + tail) == Parsed(v, tail)
    ensures ParseArguments(name, done, item + tail) ==
            ParseArguments(name, done + [v], if At(tail, Comma) then tail[1..] else tail)
  {
    hide ParseOr;
    assert (item + tail)[0] == item[0];
  }

  lemma ListTurn(done: seq<Node>, item: seq<Lexeme>, tail: seq<Lexeme>, v: Node)
    requires Starts(item) && ParseOr(item + tail) == Parsed(v, tail)
    ensures ParseList(done, item + tail) == if At(tail, Comma) then ParseList(done + [v], tail[1..]) else Parsed(done + [v], tail)
  {
    hide ParseOr;
  }

  /** The text of a list after its first item, which ends the item whatever it is. */
  function ListTail(st: Style, list: seq<Node>, closed: seq<Lexeme>): seq<Lexeme>
    requires list != []
  {
    if |list| == 1 then closed else [COMMA] + (PrintList(st, list[1..]) + closed)
  }

  /** What ends a list: nothing, or a lexeme that does not continue its last item, and no comma. */
  predicate ListEnds(closed: seq<Lexeme>) {
    Ends(0, closed) && !At(closed, Comma)
  }

  lemma ListSplits(st: Style, list: seq<Node>, closed: seq<Lexeme>)
    requires list != [] && Ends(0, closed)
    ensures var tail := ListTail(st, list, closed);
            && PrintList(st, list) + closed == Print(st, list[0], 0) + tail
            && (At(tail, Comma) <==> |list| > 1 || At(closed, Comma)) && Ends(0, tail)
            && (|list| > 1 ==> tail[1..] == PrintList(st, list[1..]) + closed)
  {
    var item := Print(st, list[0], 0);
    if |list| > 1 {
      var more := PrintList(st, list[1..]);
      hide Print;
      assert ([COMMA] + (more + closed))[0] == COMMA && ([COMMA] + (more + closed))[1..] == more + closed;
      AppendAssociates(item + [COMMA], more, closed);
      AppendAssociates(item, [COMMA], more + closed);
    }
  }

  lemma Closed(rest: seq<Lexeme>)
    ensures ([CLOSE] + rest)[0] == CLOSE && ([CLOSE] + rest)[1..] == rest && ListEnds([CLOSE] + rest)
  {
  }

  lemma ArgumentsEnd(name: string, args: seq<Node>, rest: seq<Lexeme>)
    ensures ParseArguments(name, args, [CLOSE] + rest) == Parsed(Call(name, args), rest)
  {
    Closed(rest);
  }

  lemma {:induction false} ReadArguments(st: Style, name: string, done: seq<Node>, list: seq<Node>, rest: seq<Lexeme>)
    requires StyleOk(st) && forall a <- list :: Printable(a)
    ensures ParseArguments(name, done, PrintList(st, list) + ([CLOSE] + rest)) == Parsed(Call(name, done + list), rest)
    decreases list, 0
  {
    hide StyleOk;
    hide Continues;
    var closed := [CLOSE] + rest;
    if list == [] {
      AppendNothing(closed);
      AppendNothing(done);
      ArgumentsEnd(name, done, rest);
    } else {
      var tail := ListTail(st, list, closed);
      Closed(rest);
      ListSplits(st, list, closed);
      PrintStarts(st, list[0], 0);
      ReadBack(st, list[0], 0, tail);
      ArgumentTurn(name, done, Print(st, list[0], 0), tail, list[0]);
      AppendAssociates(done, [list[0]], list[1..]);
      hide Print;
      hide PrintList;
      hide ParseArguments;
      assert [list[0]] + list[1..] == list;
      if |list| == 1 {
        assert tail == closed && done + [list[0]] == done + list;
        ArgumentsEnd(name, done + list, rest);
      } else {
        ReadArguments(st, name, done + [list[0]], list[1..], rest);
      }
    }
  }

  lemma {:induction false} ReadList(st: Style, done: seq<Node>, list: seq<Node>, closed: seq<Lexeme>)
    requires StyleOk(st) && list != [] && ListEnds(closed) && forall a <- list :: Printable(a)
    ensures ParseList(done, PrintList(st, list) + closed) == Parsed(done + list, closed)
    decreases list
  {
    hide StyleOk;
    hide Continues;
    var tail := ListTail(st, list, closed);
    ListSplits(st, list, closed);
    PrintStarts(st, list[0], 0);
    ReadBack(st, list[0], 0, tail);
    ListTurn(done, Print(st, list[0], 0), tail, list[0]);
    AppendAssociates(done, [list[0]], list[1..]);
    hide Print;
    hide PrintList;
    hide ParseList;
    assert [list[0]] + list[1..] == list;
    if |list| == 1 {
      assert tail == closed && done + [list[0]] == done + list;
    } else {
      ReadList(st, done + [list[0]], list[1..], closed);
    }
  }

  /** One turn of the loop over `in`. */
  lemma InTurn(lhs: Node, member: Lexeme, items: seq<Lexeme>, list: seq<Node>, rest: seq<Lexeme>)
    requires member.kind == In && ParseList([], items) == Parsed(list, [CLOSE] + rest)
    ensures InLoop(lhs, [member, OPEN] + items) == InLoop(Among(lhs, list), rest)
  {
    hide ParseList;
    var ls := [member, OPEN] + items;
    assert ls[0] == member && ls[1..][0] == OPEN && ls[2..] == items;
    Closed(rest);
  }

  /** A chain of `in`, by its left spine. */
  lemma {:induction false} InSpine(st: Style, e: Node, rest: seq<Lexeme>)
    requires StyleOk(st) && PrintableClause(e) && Ends(0, rest)
    ensures ParseIn(PrintClause(st, e) + rest) == InLoop(e, rest)
    decreases e
  {
    hide StyleOk;
    hide InLoop;
    hide Printable;
    hide Print;
    hide PrintList;
    if e.Among? {
      var closed := [CLOSE] + rest;
      var front, items := [MemberLexeme(st), OPEN], PrintList(st, e.list);
      var tail := front + (items + closed);
      Closed(rest);
      ReadList(st, [], e.list, closed);
      AppendNothing(e.list);
      InTurn(e.lhs, MemberLexeme(st), items + closed, e.list, rest);
      InSpine(st, e.lhs, tail);
      ClauseSplits(PrintClause(st, e.lhs), front, items, rest);
    } else {
      ReadBack(st, e, 0, rest);
    }
  }

  lemma ClauseSplits(lhs: seq<Lexeme>, front: seq<Lexeme>, items: seq<Lexeme>, rest: seq<Lexeme>)
    ensures lhs + front + items + [CLOSE] + rest == lhs + (front + (items + ([CLOSE] + rest)))
  {
  }

  lemma {:induction false} ClauseStarts(st: Style, e: Node)
    requires PrintableClause(e)
    ensures Starts(PrintClause(st, e))
  {
    if e.Among? {
      ClauseStarts(st, e.lhs);
    } else {
      PrintStarts(st, e, 0);
    }
  }

  /** Parsing a written clause gives back its tree: for every tree of `or`, `and`, comparisons,
      calls and a chain of `in`, every spelling of the words and every spacing. */
  lemma ParseInvertsPrint(st: Style, e: Node, gaps: seq<string>)
    requires StyleOk(st) && PrintableClause(e)
    requires |gaps| == |PrintClause(st, e)| + 1 && GapsOk(PrintClause(st, e), gaps)
    ensures Parse(Text(PrintClause(st, e), gaps)) == Parsed(e, [])
  {
    var ls := PrintClause(st, e);
    ClauseOk(st, e);
    LexText(ls, gaps);
    ClauseStarts(st, e);
    InSpine(st, e, []);
    AppendNothing(ls);
    assert InLoop(e, []) == Parsed(e, []);
    assert ParseAll(e, []) == Parsed(e, []);
  }

  function Singles(n: nat): (gaps: seq<string>)
    ensures |gaps| == n
  {
    seq(n, i => " ")
  }

  /** A space everywhere will do. */
  lemma {:induction false} SinglesOk(ls: seq<Lexeme>)
    ensures GapsOk(ls, Singles(|ls| + 1))
  {
    if ls != [] {
      assert Singles(|ls| + 1)[1..] == Singles(|ls[1..]| + 1);
      SinglesOk(ls[1..]);
    }
  }
}
