/** What the parser makes of clauses that are not as they should be: several after one another, cut off,
    not closed, with commas missing or too many. */
module WhereFaults {
  import opened Basics
  import opened WhereLexer
  import opened WhereParser
  import opened WhereRoundTrip
  import opened Characters

  // ------------------------------------------------------ after a whole clause

  ghost predicate ClauseEnds(rest: seq<Lexeme>) {
    Ends(0, rest) && !At(rest, In)
  }

  /** After a clause, what can begin another one is parsed in its place, and anything else is refused. */
  lemma AfterClause(st: Style, before: Node, e: Node, rest: seq<Lexeme>)
    requires StyleOk(st) && PrintableClause(e) && ClauseEnds(rest)
    ensures ParseAll(before, PrintClause(st, e) + rest) ==
            if rest == [] then Parsed(e, []) else if Starts(rest) then ParseAll(e, rest) else Throws(BadStart)
  {
    var ls := PrintClause(st, e) + rest;
    InSpine(st, e, rest);
    ClauseStarts(st, e);
    hide StyleOk;
    hide PrintableClause;
    hide PrintClause;
    hide ParseIn;
    assert InLoop(e, rest) == Parsed(e, rest);
    assert Starts(ls);
  }

  /** Of two clauses one after the other the parser gives the second. */
  lemma LastClauseWins(st: Style, a: Node, b: Node)
    requires StyleOk(st) && PrintableClause(a) && PrintableClause(b) && !At(PrintClause(st, b), LParen)
    ensures ParseAll(Missing, PrintClause(st, a) + PrintClause(st, b)) == Parsed(b, [])
  {
    ClauseStarts(st, b);
    AfterClause(st, Missing, a, PrintClause(st, b));
    AfterClause(st, a, b, []);
    AppendNothing(PrintClause(st, b));
  }

  lemma InThrows(st: Style, before: Node, e: Node, rest: seq<Lexeme>, f: Fault)
    requires StyleOk(st) && PrintableClause(e) && Ends(0, rest) && InLoop(e, rest) == Throws(f)
    ensures ParseAll(before, PrintClause(st, e) + rest) == Throws(f)
  {
    InSpine(st, e, rest);
    ClauseStarts(st, e);
    hide StyleOk;
    hide PrintableClause;
    hide PrintClause;
    hide ParseIn;
    assert Starts(PrintClause(st, e) + rest);
  }

  /** `in` must be followed by an opening parenthesis. */
  lemma InWithoutList(st: Style, before: Node, e: Node, more: seq<Lexeme>)
    requires StyleOk(st) && PrintableClause(e) && !At(more, LParen)
    ensures ParseAll(before, PrintClause(st, e) + ([MemberLexeme(st)] + more)) == Throws(NoList)
  {
    var rest := [MemberLexeme(st)] + more;
    assert rest[1..] == more;
    InThrows(st, before, e, rest, NoList);
  }

  /** The list of an `in` must be closed. */
  lemma InNotClosed(st: Style, before: Node, e: Node, list: seq<Node>, more: seq<Lexeme>)
    requires StyleOk(st) && PrintableClause(e) && list != [] && (forall a <- list :: Printable(a))
    requires ListEnds(more) && !At(more, RParen)
    ensures ParseAll(before, PrintClause(st, e) + ([MemberLexeme(st), OPEN] + (PrintList(st, list) + more))) == Throws(OpenList)
  {
    var items := PrintList(st, list) + more;
    var rest := [MemberLexeme(st), OPEN] + items;
    assert rest[1..][0] == OPEN && rest[2..] == items;
    ReadList(st, [], list, more);
    AppendNothing(list);
    hide PrintList;
    hide ParseList;
    InThrows(st, before, e, rest, OpenList);
  }

  /** A comma before the closing parenthesis of an `in` adds an operand that is missing; so does an empty list. */
  lemma CommaBeforeClose(st: Style, list: seq<Node>, rest: seq<Lexeme>)
    requires StyleOk(st) && list != [] && forall a <- list :: Printable(a)
    ensures ParseList([], PrintList(st, list) + [COMMA, CLOSE] + rest) == Parsed(list + [Missing], [CLOSE] + rest)
    ensures ParseList([], [CLOSE] + rest) == Parsed([Missing], [CLOSE] + rest)
  {
    NothingInList([], rest);
    AppendNothing([Missing]);
    CommaAtEnd(st, [], list, rest);
    assert PrintList(st, list) + [COMMA, CLOSE] + rest == PrintList(st, list) + ([COMMA] + ([CLOSE] + rest));
    AppendNothing(list);
  }

  lemma NothingInList(done: seq<Node>, rest: seq<Lexeme>)
    ensures ParseList(done, [CLOSE] + rest) == Parsed(done + [Missing], [CLOSE] + rest)
  {
    var ls := [CLOSE] + rest;
    Closed(rest);
    NothingThere(ls);
    assert ls != [] && ls[0] == CLOSE && !At(ls, Comma);
    hide ParseOr;
  }

  /** Where no expression begins, an operand is missing and nothing is taken. */
  lemma NothingThere(ls: seq<Lexeme>)
    requires (ls == [] || !Starts(ls)) && Ends(0, ls)
    ensures ParseOr(ls) == ParseAnd(ls) == ParseEquality(ls) == ParseRelational(ls) == ParseMember(ls) == Parsed(Missing, ls)
  {
    assert ParseMember(ls) == Parsed(Missing, ls);
    assert ParseRelational(ls) == Parsed(Missing, ls);
    assert ParseEquality(ls) == Parsed(Missing, ls);
    assert ParseAnd(ls) == AndLoop(Missing, ls) == Parsed(Missing, ls);
    assert ParseOr(ls) == OrLoop(Missing, ls) == Parsed(Missing, ls);
  }

  lemma {:induction false} CommaAtEnd(st: Style, done: seq<Node>, list: seq<Node>, rest: seq<Lexeme>)
    requires StyleOk(st) && list != [] && forall a <- list :: Printable(a)
    ensures ParseList(done, PrintList(st, list) + ([COMMA] + ([CLOSE] + rest))) == Parsed(done + list + [Missing], [CLOSE] + rest)
    decreases list
  {
    hide StyleOk;
    hide Continues;
    var closed := [COMMA] + ([CLOSE] + rest);
    CommaCloses(rest);
    var tail := ListTail(st, list, closed);
    ListSplits(st, list, closed);
    PrintStarts(st, list[0], 0);
    ReadBack(st, list[0], 0, tail);
    ListTurn(done, Print(st, list[0], 0), tail, list[0]);
    AppendAssociates(done, [list[0]], list[1..]);
    hide Print;
    hide PrintList;
    hide ParseList;
    assert [list[0]] + list[1..] == list;
    if |list| == 1 {
      assert tail == closed && done + [list[0]] == done + list;
      CommaCloses(rest);
      NothingInList(done + list, rest);
    } else {
      CommaAtEnd(st, done + [list[0]], list[1..], rest);
    }
  }

  lemma CommaCloses(rest: seq<Lexeme>)
    ensures var closed := [COMMA] + ([CLOSE] + rest);
            Ends(0, closed) && At(closed, Comma) && closed[1..] == [CLOSE] + rest
  {
  }

  // ------------------------------------------------------------------ not closed

  lemma MemberThrows(before: Node, ls: seq<Lexeme>, f: Fault)
    requires Starts(ls) && ParseMember(ls) == Throws(f)
    ensures ParseAll(before, ls) == Throws(f)
  {
    hide ParseMember;
    assert ParseRelational(ls) == Throws(f);
    assert ParseEquality(ls) == Throws(f);
    assert ParseAnd(ls) == Throws(f);
    assert ParseOr(ls) == Throws(f);
    assert ParseIn(ls) == Throws(f);
  }

  /** A parenthesis must be closed. */
  lemma ParenNotClosed(st: Style, before: Node, e: Node, more: seq<Lexeme>)
    requires StyleOk(st) && Printable(e) && Ends(0, more) && !At(more, RParen)
    ensures ParseAll(before, [OPEN] + (Print(st, e, 0) + more)) == Throws(OpenParen)
  {
    var inner := Print(st, e, 0) + more;
    var ls := [OPEN] + inner;
    ReadBack(st, e, 0, more);
    hide Print;
    hide ParseOr;
    assert ls[0] == OPEN && ls[1..] == inner;
    MemberThrows(before, ls, OpenParen);
  }

  /** So must a call. */
  lemma CallNotClosed(st: Style, before: Node, name: string, args: seq<Node>)
    requires StyleOk(st) && forall a <- args :: Printable(a)
    ensures ParseAll(before, [Lexeme(Identifier, name), OPEN] + PrintList(st, args)) == Throws(OpenCall)
  {
    var more := PrintList(st, args);
    var ls := [Lexeme(Identifier, name), OPEN] + more;
    assert ls[0] == Lexeme(Identifier, name) && ls[1..][0] == OPEN && ls[1..][1..] == more;
    ArgumentsCutOff(st, name, [], args);
    hide PrintList;
    hide ParseArguments;
    MemberThrows(before, ls, OpenCall);
  }

  lemma {:induction false} ArgumentsCutOff(st: Style, name: string, done: seq<Node>, list: seq<Node>)
    requires StyleOk(st) && forall a <- list :: Printable(a)
    ensures ParseArguments(name, done, PrintList(st, list)) == Throws(OpenCall)
    decreases list
  {
    hide StyleOk;
    hide Continues;
    if list != [] {
      var tail := ListTail(st, list, []);
      ListSplits(st, list, []);
      AppendNothing(PrintList(st, list));
      PrintStarts(st, list[0], 0);
      ReadBack(st, list[0], 0, tail);
      ArgumentTurn(name, done, Print(st, list[0], 0), tail, list[0]);
      if |list| > 1 {
        AppendNothing(PrintList(st, list[1..]));
        ArgumentsCutOff(st, name, done + [list[0]], list[1..]);
      }
    }
  }

  // ----------------------------------------------------------------------- commas

  /** The arguments of a call with the commas that are there, perhaps one after the last. */
  function FreeList(st: Style, list: seq<Node>, commas: seq<bool>): seq<Lexeme>
    requires |commas| == |list|
    decreases |list|
  {
    if list == [] then []
    else Print(st, list[0], 0) + ((if commas[0] then [COMMA] else []) + FreeList(st, list[1..], commas[1..]))
  }

  /** Without a comma before it, an argument does not begin with a parenthesis, which would call the one before. */
  ghost predicate CommasOk(st: Style, list: seq<Node>, commas: seq<bool>) {
    |commas| == |list| && forall i :: 0 <= i < |list| - 1 && !commas[i] ==> !At(Print(st, list[i + 1], 0), LParen)
  }

  lemma CommasRest(st: Style, list: seq<Node>, commas: seq<bool>)
    requires CommasOk(st, list, commas) && list != []
    ensures CommasOk(st, list[1..], commas[1..])
  {
    forall i | 0 <= i < |list[1..]| - 1 && !commas[1..][i] ensures !At(Print(st, list[1..][i + 1], 0), LParen) {
      assert !commas[i + 1] && list[1..][i + 1] == list[i + 1 + 1];
    }
  }

  /** The commas between the arguments of a call can be left out. */
  lemma {:induction false} CommasOptional(st: Style, name: string, done: seq<Node>, list: seq<Node>, commas: seq<bool>, rest: seq<Lexeme>)
    requires StyleOk(st) && (forall a <- list :: Printable(a)) && |commas| == |list| && CommasOk(st, list, commas)
    ensures ParseArguments(name, done, FreeList(st, list, commas) + ([CLOSE] + rest)) == Parsed(Call(name, done + list), rest)
    decreases |list|
  {
    hide *;
    var closed := [CLOSE] + rest;
    if list == [] {
      FreeNone(st, rest);
      AppendNothing(done);
      ArgumentsEnd(name, done, rest);
    } else {
      var item, more := Print(st, list[0], 0), FreeList(st, list[1..], commas[1..]) + closed;
      var tail := if commas[0] then [COMMA] + more else more;
      FreeTail(st, list, commas, rest);
      PrintStarts(st, list[0], 0);
      ReadOr(st, list[0], tail);
      ArgumentTurn(name, done, item, tail, list[0]);
      CommasRest(st, list, commas);
      CommasOptional(st, name, done + [list[0]], list[1..], commas[1..], rest);
      AppendAssociates(done, [list[0]], list[1..]);
      assert [list[0]] + list[1..] == list;
    }
  }

  lemma FreeNone(st: Style, rest: seq<Lexeme>)
    ensures FreeList(st, [], []) + ([CLOSE] + rest) == [CLOSE] + rest
  {
  }

  lemma ReadOr(st: Style, e: Node, rest: seq<Lexeme>)
    requires StyleOk(st) && Printable(e) && Ends(0, rest)
    ensures ParseOr(Print(st, e, 0) + rest) == Parsed(e, rest)
  {
    ReadBack(st, e, 0, rest);
    hide ParseOr;
    hide Print;
  }

  lemma FreeTail(st: Style, list: seq<Node>, commas: seq<bool>, rest: seq<Lexeme>)
    requires (forall a <- list :: Printable(a)) && CommasOk(st, list, commas) && list != []
    ensures var more := FreeList(st, list[1..], commas[1..]) + ([CLOSE] + rest);
            var tail := if commas[0] then [COMMA] + more else more;
            && FreeList(st, list, commas) + ([CLOSE] + rest) == Print(st, list[0], 0) + tail
            && Ends(0, tail) && (At(tail, Comma) <==> commas[0]) && (commas[0] ==> tail[1..] == more)
  {
    var item, others, closed := Print(st, list[0], 0), FreeList(st, list[1..], commas[1..]), [CLOSE] + rest;
    var mid := if commas[0] then [COMMA] else [];
    FreeStarts(st, list, commas, closed);
    FreeCons(st, list, commas);
    hide *;
    AppendAssociates(item, mid + others, closed);
    AppendAssociates(mid, others, closed);
    AppendNothing(others + closed);
    CommaOrNot(commas[0], others + closed);
  }

  lemma FreeCons(st: Style, list: seq<Node>, commas: seq<bool>)
    requires list != [] && |commas| == |list|
    ensures FreeList(st, list, commas)
         == Print(st, list[0], 0) + ((if commas[0] then [COMMA] else []) + FreeList(st, list[1..], commas[1..]))
  {
    hide Print;
  }

  lemma CommaOrNot(comma: bool, more: seq<Lexeme>)
    requires !comma ==> Ends(0, more) && !At(more, Comma)
    ensures var tail := if comma then [COMMA] + more else more;
            Ends(0, tail) && (At(tail, Comma) <==> comma) && (comma ==> tail[1..] == more)
  {
  }

  lemma FreeStarts(st: Style, list: seq<Node>, commas: seq<bool>, closed: seq<Lexeme>)
    requires (forall a <- list :: Printable(a)) && CommasOk(st, list, commas) && list != [] && At(closed, RParen)
    ensures var more := FreeList(st, list[1..], commas[1..]) + closed;
            !commas[0] ==> Ends(0, more) && !At(more, Comma)
  {
    if |list| > 1 && !commas[0] {
      PrintStarts(st, list[1], 0);
      FreeCons(st, list[1..], commas[1..]);
      assert list[1..][0] == list[1];
      assert !At(Print(st, list[0 + 1], 0), LParen);
      hide Print;
      hide FreeList;
    }
  }

  // ------------------------------------------------------------- missing operands

  /** A clause that ends in an operator gets an operand that is missing. */
  lemma OperandMissing(st: Style, e: Node, op: Kind)
    requires StyleOk(st) && Printable(e) && (op in {And, Or} || IsEquality(op) || IsRelational(op))
    ensures ParseAll(Missing, Print(st, e, LeftLevel(op)) + [Symbol(st, op)]) == Parsed(Binary(e, op, Missing), [])
  {
    var e', ls := Binary(e, op, Missing), Print(st, e, LeftLevel(op)) + [Symbol(st, op)];
    PrintStarts(st, e, LeftLevel(op));
    if op in {And, Or} {
      JunctionMissing(st, e, op);
    } else {
      ComparisonMissing(st, e, op);
    }
    hide *;
    Upwards(ls, e', LevelOf(op));
  }

  lemma JunctionMissing(st: Style, e: Node, op: Kind)
    requires StyleOk(st) && Printable(e) && op in {And, Or}
    ensures ParseAt(LevelOf(op), Print(st, e, LeftLevel(op)) + [Symbol(st, op)]) == Parsed(Binary(e, op, Missing), [])
  {
    var rest := [Symbol(st, op)];
    assert rest[1..] == [];
    NothingThere([]);
    if op == Or {
      OrSpine(st, e, rest);
      hide ParseAnd;
    } else {
      AndSpine(st, e, rest);
      hide ParseEquality;
    }
    hide Print;
  }

  lemma ComparisonMissing(st: Style, e: Node, op: Kind)
    requires StyleOk(st) && Printable(e) && (IsEquality(op) || IsRelational(op))
    ensures ParseAt(LevelOf(op), Print(st, e, LeftLevel(op)) + [Symbol(st, op)]) == Parsed(Binary(e, op, Missing), [])
  {
    hide Print;
    hide ParseMember;
    hide StyleOk;
    hide Printable;
    hide Starts;
    var rest := [Symbol(st, op)];
    assert rest[1..] == [];
    NothingThere([]);
    ReadBack(st, e, LevelOf(op) + 1, rest);
  }

  function LevelOf(op: Kind): (n: nat)
    ensures n <= 3
  {
    if op == Or then 0 else if op == And then 1 else if IsEquality(op) then 2 else 3
  }

  lemma Upwards(ls: seq<Lexeme>, e: Node, level: nat)
    requires Starts(ls) && level <= 4 && ParseAt(level, ls) == Parsed(e, [])
    ensures ParseAll(Missing, ls) == Parsed(e, [])
  {
    ReadLower(ls, e, [], level, 0);
    hide ParseOr;
    assert ParseIn(ls) == Parsed(e, []);
  }

  // ------------------------------------------------------------------ no lexeme

  lemma {:induction false} QuotedIff(s: string, q: char)
    ensures Quoted(s, q).Some? <==> q in s
    decreases |s|
  {
    if s != "" {
      QuotedIff(s[1..], q);
      assert s == [s[0]] + s[1..];
      if |s| > 1 {
        QuotedIff(s[2..], q);
        assert s[1..] == [s[1]] + s[2..];
      }
    }
  }

  /** What a lexeme can begin with. */
  predicate Begins(s: string)
    requires s != ""
  {
    || IsSpace(s[0]) || IsLetter(s[0]) || '1' <= s[0] <= '9' || s[0] in "<>=,()"
    || "&&" <= s || "||" <= s || "!=" <= s || (s[0] in "'\"" && s[0] in s[1..])
  }

  /** Where nothing of that kind stands, everything that is left is one bad lexeme: so with a leading zero, a
      single `&`, or a quote that is not closed. */
  lemma ErrorIff(s: string)
    requires s != ""
    ensures First(s).kind == Error <==> !Begins(s)
    ensures !Begins(s) ==> Lex(s) == [Lexeme(Error, s)]
  {
    if !IsLetter(s[0]) {
      NotKeyword(s);
    }
    QuotedIff(s[1..], s[0]);
    OperatorIff(s);
    hide Keyword;
    hide Operator;
    hide Quoted;
    if !Begins(s) {
      assert First(s) == Lexeme(Error, s);
      AppendNothing([Lexeme(Error, s)]);
    }
  }

  lemma OperatorIff(s: string)
    requires s != ""
    ensures Operator(s).Some? <==> s[0] in "<>=,()" || "&&" <= s || "||" <= s || "!=" <= s
    ensures Operator(s).Some? ==> Operator(s).value.kind != Error
  {
  }

  /** Keywords are compared in lower case. */
  lemma LowerIs(c: char, i: nat)
    requires i < 26
    ensures LowerChar("ABCDEFGHIJKLMNOPQRSTUVWXYZ"[i]) == "abcdefghijklmnopqrstuvwxyz"[i]
    ensures c !in "ABCDEFGHIJKLMNOPQRSTUVWXYZ" ==> LowerChar(c) == c
  {
  }

  /** A keyword right before a digit or an underscore is read as a name; before everything else that is no
      letter it is the keyword. */
  lemma KeywordCut(word: string, kind: Kind, c: char, rest: string)
    requires WordOk(Lexeme(kind, word)) && !IsLetter(c)
    ensures First(word + ([c] + rest)) == Lexeme(if IsDigit(c) || c == '_' then Identifier else kind, word)
  {
    var s := word + ([c] + rest);
    if IsDigit(c) || c == '_' {
      LowerWord(word);
      assert s[0] == word[0] && s[..|word|] == word;
      NotOperator(s);
      NotSpelled(word, c, rest);
      RunIs(IsLetter, word, [c] + rest);
      NameFirst(s, |word|);
    } else {
      WordRead(Lexeme(kind, word), [c] + rest);
    }
  }

  lemma NotSpelled(word: string, c: char, rest: string)
    requires All(IsLetter, word) && (IsDigit(c) || c == '_')
    ensures Keyword(word + ([c] + rest)) == None
  {
    var s := word + ([c] + rest);
    assert s[|word|] == c;
    forall k | k in {"true", "or", "in", "false", "and"} ensures !Spells(s, k) {
      SpellsWord(word, [c] + rest, k);
    }
  }

  lemma NameFirst(s: string, n: nat)
    requires 0 < n <= |s| && IsLetter(s[0])
    requires Run(IsSpace, s) == 0 && Operator(s) == None && Keyword(s) == None && Run(IsLetter, s) == n
    ensures First(s) == Lexeme(Identifier, s[..n])
  {
    hide Operator;
    hide Keyword;
    hide Quoted;
    assert Run(IsDigit, s) == 0;
    hide Run;
  }
}
