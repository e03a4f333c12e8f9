/** The lexer and the parser of where-clauses as the objects that change: the lexer takes characters
    off its source and keeps the current lexeme, and the parser's procedures pull lexemes from it. */
module WhereObjects {
  import opened Basics
  import opened WhereLexer
  import opened WhereParser
  import opened Characters

  class Lexer {
    var source: string
    var current: Option<Lexeme>
    /** How often `advance` took a lexeme away. */
    var taken: nat
    /** The current lexeme and all that are still in the source. */
    ghost var left: seq<Lexeme>

    ghost predicate Valid()
      reads this
    {
      if current == None then source == "" && left == []
      else left != [] && left[0] == current.value && left[1..] == Lex(source)
    }

    constructor ()
      ensures Valid()
    {
      source, current, taken, left := "", None, 0, [];
    }

    /** `setSource`, and the first `advance`. */
    method Start(text: string)
      modifies this
      ensures Valid() && left == Lex(text)
    {
      source := text;
      Read();
    }

    /** The loop of `advance`, which skips white space. */
    method Read()
      modifies this`source, this`current, this`left
      ensures Valid() && left == Lex(old(source))
    {
      ghost var all := Lex(source);
      var inWhitespace := true;
      var result := None;
      while inWhitespace
        invariant !inWhitespace && result == None ==> source == ""
        invariant !inWhitespace && result.Some? ==> all != [] && all[0] == result.value
        invariant Lex(source) == if inWhitespace || result == None then all else all[1..]
        decreases inWhitespace, |source|
      {
        inWhitespace := false;
        result := None;
        if source != "" {
          var l := First(source);
          LexStep(source);
          result := Some(l);
          source := source[|l.text|..];
          if l.kind == Whitespace {
            inWhitespace := true;
          }
        }
      }
      current := result;
      left := all;
    }

    method Advance()
      requires Valid()
      modifies this
      ensures Valid() && taken + |left| == old(taken + |left|)
      ensures left == if old(left) == [] then [] else old(left)[1..]
    {
      if current.Some? {
        taken := taken + 1;
      }
      Read();
    }

    predicate Has(k: Kind)
      requires Valid()
      reads this
      ensures Has(k) == At(left, k)
    {
      current.Some? && current.value.kind == k
    }
  }

  /** How a procedure ended. It is looping when the original would go on for ever. */
  datatype Status = Done | Thrown(fault: Fault) | Looping

  ghost predicate Gives<T(!new)>(o: Outcome<T>, status: Status, result: T, rest: seq<Lexeme>) {
    match o
    case Parsed(v, r) => status == Done && v == result && r == rest
    case Throws(f) => status == Thrown(f)
    case Diverges => status == Looping
  }

  /** The procedures of the parser. Each ends as the function of its level says, with the lexemes
      that function leaves. */
  class Parser {
    const lexer: Lexer

    constructor ()
      ensures fresh(lexer) && lexer.Valid()
    {
      lexer := new Lexer();
    }

    method ParseText(text: string) returns (status: Status, result: Node)
      modifies lexer
      ensures lexer.Valid() && Gives(Parse(text), status, result, lexer.left)
    {
      hide ParseIn;
      hide Lex;
      ghost var goal := Parse(text);
      result := Missing;
      lexer.Start(text);
      status := Done;
      while lexer.current.Some?
        invariant lexer.Valid() && status == Done && goal == ParseAll(result, lexer.left)
        decreases |lexer.left|
      {
        if lexer.current.value.kind !in {Identifier, False, LParen, Number, String, True} {
          return Thrown(BadStart), result;
        }
        status, result := ParseInExpression();
        if status != Done { return; }
      }
    }

    method ParseInExpression() returns (status: Status, result: Node)
      requires lexer.Valid()
      modifies lexer
      ensures lexer.Valid() && lexer.taken + |lexer.left| == old(lexer.taken + |lexer.left|)
      ensures Gives(ParseIn(old(lexer.left)), status, result, lexer.left)
    {
      hide ParseOr;
      hide ParseList;
      ghost var goal := ParseIn(lexer.left);
      status, result := ParseOrExpression();
      if status != Done { return; }
      while lexer.Has(In)
        invariant lexer.Valid() && lexer.taken + |lexer.left| == old(lexer.taken + |lexer.left|)
        invariant status == Done && goal == InLoop(result, lexer.left)
        decreases |lexer.left|
      {
        lexer.Advance();
        if !lexer.Has(LParen) { return Thrown(NoList), result; }
        lexer.Advance();
        var rhs;
        status, rhs := ParseItems();
        if status != Done { return; }
        if !lexer.Has(RParen) { return Thrown(OpenList), result; }
        lexer.Advance();
        result := Among(result, rhs);
      }
    }

    /** The list after `in (`. */
    method ParseItems() returns (status: Status, rhs: seq<Node>)
      requires lexer.Valid()
      modifies lexer
      ensures lexer.Valid() && lexer.taken + |lexer.left| == old(lexer.taken + |lexer.left|)
      ensures Gives(ParseList([], old(lexer.left)), status, rhs, lexer.left)
    {
      hide ParseOr;
      ghost var goal := ParseList([], lexer.left);
      rhs, status := [], Done;
      while lexer.current.Some?
        invariant lexer.Valid() && lexer.taken + |lexer.left| == old(lexer.taken + |lexer.left|)
        invariant status == Done && goal == ParseList(rhs, lexer.left)
        decreases |lexer.left|
      {
        var item;
        status, item := ParseOrExpression();
        if status != Done { return; }
        rhs := rhs + [item];
        if lexer.Has(Comma) {
          lexer.Advance();
        } else {
          return;
        }
      }
    }

    method ParseOrExpression() returns (status: Status, result: Node)
      requires lexer.Valid()
      modifies lexer
      ensures lexer.Valid() && lexer.taken + |lexer.left| == old(lexer.taken + |lexer.left|)
      ensures Gives(ParseOr(old(lexer.left)), status, result, lexer.left)
      decreases |lexer.left|, 6
    {
      hide ParseAnd;
      ghost var goal := ParseOr(lexer.left);
      status, result := ParseAndExpression();
      if status != Done { return; }
      while lexer.Has(Or)
        invariant lexer.Valid() && lexer.taken + |lexer.left| == old(lexer.taken + |lexer.left|)
        invariant status == Done && |lexer.left| <= old(|lexer.left|) && goal == OrLoop(result, lexer.left)
        decreases |lexer.left|
      {
        lexer.Advance();
        var rhs;
        status, rhs := ParseAndExpression();
        if status != Done { return; }
        result := Binary(result, Or, rhs);
      }
    }

    method ParseAndExpression() returns (status: Status, result: Node)
      requires lexer.Valid()
      modifies lexer
      ensures lexer.Valid() && lexer.taken + |lexer.left| == old(lexer.taken + |lexer.left|)
      ensures Gives(ParseAnd(old(lexer.left)), status, result, lexer.left)
      decreases |lexer.left|, 5
    {
      hide ParseEquality;
      ghost var goal := ParseAnd(lexer.left);
      status, result := ParseEqualityExpression();
      if status != Done { return; }
      while lexer.Has(And)
        invariant lexer.Valid() && lexer.taken + |lexer.left| == old(lexer.taken + |lexer.left|)
        invariant status == Done && |lexer.left| <= old(|lexer.left|) && goal == AndLoop(result, lexer.left)
        decreases |lexer.left|
      {
        lexer.Advance();
        var rhs;
        status, rhs := ParseEqualityExpression();
        if status != Done { return; }
        result := Binary(result, And, rhs);
      }
    }

    method ParseEqualityExpression() returns (status: Status, result: Node)
      requires lexer.Valid()
      modifies lexer
      ensures lexer.Valid() && lexer.taken + |lexer.left| == old(lexer.taken + |lexer.left|)
      ensures Gives(ParseEquality(old(lexer.left)), status, result, lexer.left)
      decreases |lexer.left|, 4
    {
      hide ParseRelational;
      status, result := ParseRelationalExpression();
      if status != Done || lexer.current == None { return; }
      var kind := lexer.current.value.kind;
      if IsEquality(kind) {
        lexer.Advance();
        var rhs;
        status, rhs := ParseRelationalExpression();
        result := Binary(result, kind, rhs);
      }
    }

    method ParseRelationalExpression() returns (status: Status, result: Node)
      requires lexer.Valid()
      modifies lexer
      ensures lexer.Valid() && lexer.taken + |lexer.left| == old(lexer.taken + |lexer.left|)
      ensures Gives(ParseRelational(old(lexer.left)), status, result, lexer.left)
      decreases |lexer.left|, 3
    {
      hide ParseMember;
      status, result := ParseMemberExpression();
      if status != Done || lexer.current == None { return; }
      var kind := lexer.current.value.kind;
      if IsRelational(kind) {
        lexer.Advance();
        var rhs;
        status, rhs := ParseMemberExpression();
        result := Binary(result, kind, rhs);
      }
    }

    method ParseMemberExpression() returns (status: Status, result: Node)
      requires lexer.Valid()
      modifies lexer
      ensures lexer.Valid() && lexer.taken + |lexer.left| == old(lexer.taken + |lexer.left|)
      ensures Gives(ParseMember(old(lexer.left)), status, result, lexer.left)
      decreases |lexer.left|, 2
    {
      hide ParseOr;
      hide ParseArguments;
      hide NumberOf;
      hide Lex;
      status, result := Done, Missing;
      if lexer.current == None { return; }
      var l := lexer.current.value;
      match l.kind {
        case Identifier =>
          result := Ident(l.text);
          lexer.Advance();
          if lexer.Has(LParen) {
            lexer.Advance();
            status, result := ParseCallArguments(l.text);
          }
        case True =>
          result := Scalar(Bool(true));
          lexer.Advance();
        case False =>
          result := Scalar(Bool(false));
          lexer.Advance();
        case Number =>
          result := Scalar(Num(NumberOf(l.text)));
          lexer.Advance();
        case String =>
          result := Scalar(Str(Inside(l.text)));
          lexer.Advance();
        case LParen =>
          lexer.Advance();
          status, result := ParseOrExpression();
          if status != Done { return; }
          if !lexer.Has(RParen) { return Thrown(OpenParen), result; }
          lexer.Advance();
        case _ =>
      }
    }

    /** The loop over the arguments of a call. */
    method ParseCallArguments(name: string) returns (status: Status, result: Node)
      requires lexer.Valid()
      modifies lexer
      ensures lexer.Valid() && lexer.taken + |lexer.left| == old(lexer.taken + |lexer.left|)
      ensures Gives(ParseArguments(name, [], old(lexer.left)), status, result, lexer.left)
      decreases |lexer.left|, 7
    {
      hide ParseOr;
      ghost var goal := ParseArguments(name, [], lexer.left);
      var args: seq<Node> := [];
      result := Missing;
      while lexer.current.Some? && !lexer.Has(RParen)
        invariant lexer.Valid() && lexer.taken + |lexer.left| == old(lexer.taken + |lexer.left|)
        invariant |lexer.left| <= old(|lexer.left|) && goal == ParseArguments(name, args, lexer.left)
        decreases |lexer.left|
      {
        var before := lexer.taken;
        var arg;
        status, arg := ParseOrExpression();
        if status != Done { return; }
        args := args + [arg];
        if lexer.Has(Comma) {
          lexer.Advance();
        }
        if lexer.taken == before { return Looping, result; }
      }
      if lexer.current == None { return Thrown(OpenCall), result; }
      lexer.Advance();
      return Done, Call(name, args);
    }
  }

  lemma LexStep(s: string)
    requires s != ""
    ensures var l := First(s); var rest := Lex(s[|l.text|..]);
            if l.kind == Whitespace then Lex(s) == rest else Lex(s) != [] && Lex(s)[0] == l && Lex(s)[1..] == rest
  {
    AppendNothing(Lex(s[|First(s).text|..]));
  }
}
