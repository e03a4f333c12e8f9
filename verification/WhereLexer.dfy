/** The lexer of where-clauses. A clause is text; at each step the patterns are tried in a fixed order
    at the beginning of what is left, and white space is skipped. */
module WhereLexer {
  import opened Basics
  import opened Characters

  datatype Kind =
    | Error | And | Comma | Equal | False | Greater | GreaterEqual | Identifier | In | Less | LessEqual
    | LParen | NotEqual | Number | RParen | String | True | Or | Whitespace

  datatype Lexeme = Lexeme(kind: Kind, text: string)

  /** A character that continues a word, for the boundary after a keyword. */
  predicate IsWord(c: char) {
    IsLetter(c) || IsDigit(c) || c == '_'
  }

  /** A character that `.` does not match. */
  predicate IsNewline(c: char) {
    c as nat in {10, 13, 8232, 8233}
  }

  function LowerChar(c: char): char {
    if 'A' <= c <= 'Z' then c - 'A' + 'a' else c
  }

  function Lower(s: string): (r: string)
    ensures |r| == |s|
  {
    seq(|s|, i requires 0 <= i < |s| => LowerChar(s[i]))
  }

  /** How many characters at the beginning satisfy `p`. */
  function Run(p: char -> bool, s: string): (n: nat)
    ensures n <= |s|
  {
    if s == "" || !p(s[0]) then 0 else 1 + Run(p, s[1..])
  }

  // ---------------------------------------------------------------- patterns

  function Operator(s: string): Option<Lexeme> {
    if "&&" <= s then Some(Lexeme(And, "&&"))
    else if "||" <= s then Some(Lexeme(Or, "||"))
    else if "<=" <= s then Some(Lexeme(LessEqual, "<="))
    else if "<" <= s then Some(Lexeme(Less, "<"))
    else if "=" <= s then Some(Lexeme(Equal, "="))
    else if "!=" <= s then Some(Lexeme(NotEqual, "!="))
    else if ">=" <= s then Some(Lexeme(GreaterEqual, ">="))
    else if ">" <= s then Some(Lexeme(Greater, ">"))
    else if "," <= s then Some(Lexeme(Comma, ","))
    else if "(" <= s then Some(Lexeme(LParen, "("))
    else if ")" <= s then Some(Lexeme(RParen, ")"))
    else None
  }

  /** The word `k` in any case, up to a word boundary. */
  predicate Spells(s: string, k: string) {
    |k| <= |s| && Lower(s[..|k|]) == k && (|s| == |k| || !IsWord(s[|k|]))
  }

  function Keyword(s: string): Option<Lexeme> {
    if Spells(s, "true") then Some(Lexeme(True, s[..4]))
    else if Spells(s, "or") then Some(Lexeme(Or, s[..2]))
    else if Spells(s, "in") then Some(Lexeme(In, s[..2]))
    else if Spells(s, "false") then Some(Lexeme(False, s[..5]))
    else if Spells(s, "and") then Some(Lexeme(And, s[..3]))
    else None
  }

  /** A backslash and the character it escapes. */
  predicate Escape(s: string) {
    |s| >= 2 && s[0] == '\\' && !IsNewline(s[1])
  }

  /** How much of `s` the pattern `(\\.|[^q])*q` matches: the alternatives in order, backtracking. */
  function Quoted(s: string, q: char): (n: Option<nat>)
    ensures n.Some? ==> 1 <= n.value <= |s|
  {
    if Escape(s) && Quoted(s[2..], q).Some? then Some(2 + Quoted(s[2..], q).value)
    else if s != "" && s[0] != q && Quoted(s[1..], q).Some? then Some(1 + Quoted(s[1..], q).value)
    else if s != "" && s[0] == q then Some(1)
    else None
  }

  function Quotation(s: string): (n: Option<nat>)
    ensures n.Some? ==> 2 <= n.value <= |s|
  {
    if s != "" && s[0] in "'\"" && Quoted(s[1..], s[0]).Some? then Some(1 + Quoted(s[1..], s[0]).value) else None
  }

  // --------------------------------------------------------------- lexemes

  /** What the lexer finds at the beginning. What no pattern matches is one error, to the end. */
  function First(s: string): (l: Lexeme)
    requires s != ""
    ensures l.text != "" && l.text <= s
  {
    if Run(IsSpace, s) > 0 then Lexeme(Whitespace, s[..Run(IsSpace, s)])
    else if Operator(s).Some? then Operator(s).value
    else if Keyword(s).Some? then Keyword(s).value
    else if Quotation(s).Some? then Lexeme(String, s[..Quotation(s).value])
    else if s[0] != '0' && Run(IsDigit, s) > 0 then Lexeme(Number, s[..Run(IsDigit, s)])
    else if Run(IsLetter, s) > 0 then Lexeme(Identifier, s[..Run(IsLetter, s)])
    else Lexeme(Error, s)
  }

  /** All lexemes of a text. */
  function Lex(s: string): seq<Lexeme>
    decreases |s|
  {
    if s == "" then []
    else
      var l := First(s);
      (if l.kind == Whitespace then [] else [l]) + Lex(s[|l.text|..])
  }

  // --------------------------------------------- writing lexemes and reading them

  /** Content that reads as a string between quotes `q`: every `q` in it is escaped and no backslash
      escapes the quote after it. */
  predicate WellEscaped(s: string, q: char) {
    s == "" || if Escape(s) then WellEscaped(s[2..], q) else s[0] != q && s != "\\" && WellEscaped(s[1..], q)
  }

  predicate All(p: char -> bool, s: string) {
    forall c <- s :: p(c)
  }

  predicate IsKeyword(s: string) {
    Lower(s) in {"true", "or", "in", "false", "and"}
  }

  predicate WordOk(l: Lexeme) {
    match l.kind
    case And => Lower(l.text) == "and"
    case Or => Lower(l.text) == "or"
    case In => Lower(l.text) == "in"
    case True => Lower(l.text) == "true"
    case False => Lower(l.text) == "false"
    case _ => false
  }

  predicate SymbolOk(l: Lexeme) {
    match l.kind
    case And => l.text == "&&"
    case Or => l.text == "||"
    case LessEqual => l.text == "<="
    case Less => l.text == "<"
    case Equal => l.text == "="
    case NotEqual => l.text == "!="
    case GreaterEqual => l.text == ">="
    case Greater => l.text == ">"
    case Comma => l.text == ","
    case LParen => l.text == "("
    case RParen => l.text == ")"
    case _ => false
  }

  predicate NameOk(l: Lexeme) {
    l.kind == Identifier && l.text != "" && All(IsLetter, l.text) && !IsKeyword(l.text)
  }

  predicate NumberOk(l: Lexeme) {
    l.kind == Number && l.text != "" && All(IsDigit, l.text) && l.text[0] != '0'
  }

  predicate StringOk(l: Lexeme) {
    && l.kind == String && |l.text| >= 2 && l.text[0] in "'\"" && l.text[|l.text| - 1] == l.text[0]
    && WellEscaped(l.text[1..|l.text| - 1], l.text[0])
  }

  /** A lexeme as it can stand in a text. */
  predicate LexemeOk(l: Lexeme) {
    WordOk(l) || SymbolOk(l) || NameOk(l) || NumberOk(l) || StringOk(l)
  }

  /** The character `c` right after the lexeme does not become a part of it. */
  predicate CanTouch(l: Lexeme, c: char) {
    if WordOk(l) then !IsWord(c)
    else match l.kind
      case Less => c != '='
      case Greater => c != '='
      case Identifier => !IsLetter(c)
      case Number => !IsDigit(c)
      case _ => true
  }

  /** The lexemes one after the other, with white space before, between and after them. */
  function Text(lexemes: seq<Lexeme>, gaps: seq<string>): string
    requires |gaps| == |lexemes| + 1
    decreases |lexemes|
  {
    gaps[0] + if lexemes == [] then "" else lexemes[0].text + Text(lexemes[1..], gaps[1..])
  }

  /** The gaps are white space, and not empty where lexemes would run together. */
  ghost predicate GapsOk(lexemes: seq<Lexeme>, gaps: seq<string>)
    requires |gaps| == |lexemes| + 1
    decreases |lexemes|
  {
    && All(IsSpace, gaps[0])
    && (lexemes == [] ||
        (&& GapsOk(lexemes[1..], gaps[1..])
         && (|lexemes| > 1 && gaps[1] == "" ==> lexemes[1].text != "" && CanTouch(lexemes[0], lexemes[1].text[0]))))
  }

  lemma {:induction false} RunIs(p: char -> bool, a: string, b: string)
    requires All(p, a) && (b == "" || !p(b[0]))
    ensures Run(p, a + b) == |a|
  {
    if a == "" {
      AppendNothing(b);
    } else {
      assert (a + b)[0] == a[0] && (a + b)[1..] == a[1..] + b;
      RunIs(p, a[1..], b);
    }
  }

  lemma {:induction false} QuotedIs(s: string, q: char, rest: string)
    requires q != '\\' && WellEscaped(s, q)
    ensures Quoted(s + [q] + rest, q) == Some(|s| + 1)
    decreases |s|
  {
    var t := s + [q] + rest;
    if s == "" {
      assert t[0] == q;
    } else if Escape(s) {
      assert t[0] == s[0] && t[1] == s[1] && t[2..] == s[2..] + [q] + rest;
      QuotedIs(s[2..], q, rest);
    } else {
      assert t[0] == s[0] && t[1..] == s[1..] + [q] + rest;
      assert |s| > 1 ==> t[1] == s[1];
      QuotedIs(s[1..], q, rest);
    }
  }

  predicate Follows(l: Lexeme, rest: string) {
    rest == "" || CanTouch(l, rest[0])
  }

  lemma SymbolRead(l: Lexeme, rest: string)
    requires SymbolOk(l) && Follows(l, rest)
    ensures First(l.text + rest) == l
  {
    hide Keyword;
    hide Quotation;
    var s := l.text + rest;
    assert s[..|l.text|] == l.text;
    assert s[0] == l.text[0];
    if |l.text| == 2 {
      assert s[1] == l.text[1];
    } else if rest != "" {
      assert s[1] == rest[0];
    }
  }

  lemma LowerAppend(a: string, b: string)
    ensures Lower((a + b)[..|a|]) == Lower(a)
  {
    assert (a + b)[..|a|] == a;
  }

  /** A text that begins with a letter, digit or quote is no white space and no operator. */
  lemma NotOperator(s: string)
    requires s != "" && (IsLetter(s[0]) || IsDigit(s[0]) || s[0] in "'\"")
    ensures Run(IsSpace, s) == 0 && Operator(s) == None
  {
  }

  /** What follows a whole word is not part of a keyword. */
  lemma SpellsWord(word: string, rest: string, k: string)
    requires All(IsLetter, word) && k != "" && (rest == "" || !IsLetter(rest[0])) && All(IsLetter, k)
    ensures Spells(word + rest, k) ==> Lower(word) == k
    ensures Lower(word) == k && (rest == "" || !IsWord(rest[0])) ==> Spells(word + rest, k)
  {
    var s := word + rest;
    LowerAppend(word, rest);
    if |k| < |word| {
      assert s[|k|] == word[|k|];
    } else if |word| < |k| <= |s| {
      LowerLetter(rest[0]);
      assert Lower(s[..|k|])[|word|] == LowerChar(rest[0]);
      assert IsLetter(k[|word|]);
    } else if |k| == |word| && |k| < |s| {
      assert s[|k|] == rest[0];
    }
  }

  lemma LowerLetter(c: char)
    ensures IsLetter(LowerChar(c)) <==> IsLetter(c)
  {
  }

  lemma {:induction false} WordRead(l: Lexeme, rest: string)
    requires WordOk(l) && Follows(l, rest)
    ensures First(l.text + rest) == l
  {
    var s := l.text + rest;
    LowerWord(l.text);
    assert s[0] == l.text[0];
    NotOperator(s);
    SpellsWord(l.text, rest, "true");
    SpellsWord(l.text, rest, "or");
    SpellsWord(l.text, rest, "in");
    SpellsWord(l.text, rest, "false");
    SpellsWord(l.text, rest, "and");
    assert s[..|l.text|] == l.text;
  }

  lemma LowerWord(s: string)
    requires IsKeyword(s)
    ensures All(IsLetter, s) && s != ""
  {
    forall i | 0 <= i < |s| ensures IsLetter(s[i]) {
      LowerLetter(s[i]);
      assert Lower(s)[i] == LowerChar(s[i]);
    }
  }

  lemma {:induction false} NameRead(l: Lexeme, rest: string)
    requires NameOk(l) && Follows(l, rest)
    ensures First(l.text + rest) == l
  {
    var s := l.text + rest;
    assert s[0] == l.text[0];
    NotOperator(s);
    SpellsWord(l.text, rest, "true");
    SpellsWord(l.text, rest, "or");
    SpellsWord(l.text, rest, "in");
    SpellsWord(l.text, rest, "false");
    SpellsWord(l.text, rest, "and");
    RunIs(IsLetter, l.text, rest);
    assert s[..|l.text|] == l.text;
  }

  lemma {:induction false} NumberRead(l: Lexeme, rest: string)
    requires NumberOk(l) && Follows(l, rest)
    ensures First(l.text + rest) == l
  {
    var s := l.text + rest;
    assert s[0] == l.text[0];
    assert l.text[0] in l.text;
    NotOperator(s);
    NotKeyword(s);
    RunIs(IsDigit, l.text, rest);
    assert s[..|l.text|] == l.text;
  }

  lemma NotKeyword(s: string)
    requires s != "" && !IsLetter(s[0])
    ensures Keyword(s) == None
  {
    LowerLetter(s[0]);
    forall k | k in {"true", "or", "in", "false", "and"} ensures !Spells(s, k) {
      if |k| <= |s| {
        assert Lower(s[..|k|])[0] == LowerChar(s[0]);
        assert IsLetter(k[0]);
      }
    }
  }

  lemma StringRead(l: Lexeme, rest: string)
    requires StringOk(l)
    ensures First(l.text + rest) == l
  {
    var s := l.text + rest;
    var q, content := l.text[0], l.text[1..|l.text| - 1];
    assert s[0] == q;
    NotOperator(s);
    NotKeyword(s);
    QuotedIs(content, q, rest);
    assert s[1..] == content + [q] + rest;
    assert s[..|l.text|] == l.text;
  }

  lemma LexemeRead(l: Lexeme, rest: string)
    requires LexemeOk(l) && Follows(l, rest)
    ensures First(l.text + rest) == l && l.text != "" && !IsSpace(l.text[0]) && l.kind != Whitespace
  {
    if WordOk(l) {
      WordRead(l, rest);
      LowerWord(l.text);
    } else if SymbolOk(l) {
      SymbolRead(l, rest);
    } else if NameOk(l) {
      NameRead(l, rest);
    } else if NumberOk(l) {
      NumberRead(l, rest);
    } else {
      StringRead(l, rest);
    }
  }

  lemma GapRead(gap: string, rest: string)
    requires All(IsSpace, gap) && (rest == "" || !IsSpace(rest[0]))
    ensures Lex(gap + rest) == Lex(rest)
  {
    if gap == "" {
      AppendNothing(rest);
    } else {
      RunIs(IsSpace, gap, rest);
      var s := gap + rest;
      assert s[..|gap|] == gap && s[|gap|..] == rest;
      assert First(s) == Lexeme(Whitespace, gap);
      AppendNothing(Lex(rest));
    }
  }

  lemma TextStart(lexemes: seq<Lexeme>, gaps: seq<string>)
    requires |gaps| == |lexemes| + 1
    ensures gaps[0] != "" ==> Text(lexemes, gaps) != "" && Text(lexemes, gaps)[0] == gaps[0][0]
    ensures gaps[0] == "" && lexemes == [] ==> Text(lexemes, gaps) == ""
    ensures gaps[0] == "" && lexemes != [] && lexemes[0].text != "" ==> Text(lexemes, gaps) != "" && Text(lexemes, gaps)[0] == lexemes[0].text[0]
  {
  }

  lemma SpaceSeparates(l: Lexeme, c: char)
    requires IsSpace(c)
    ensures CanTouch(l, c)
  {
  }

  /** Lexing gives back the lexemes of a text, however they are spaced. */
  lemma {:induction false} LexText(lexemes: seq<Lexeme>, gaps: seq<string>)
    requires |gaps| == |lexemes| + 1 && GapsOk(lexemes, gaps) && forall l <- lexemes :: LexemeOk(l)
    ensures Lex(Text(lexemes, gaps)) == lexemes
    decreases |lexemes|
  {
    if lexemes == [] {
      assert gaps[0] + "" == gaps[0];
      GapRead(gaps[0], "");
    } else {
      var l, after := lexemes[0], Text(lexemes[1..], gaps[1..]);
      TextStart(lexemes[1..], gaps[1..]);
      if gaps[1] != "" {
        SpaceSeparates(l, gaps[1][0]);
      }
      LexemeRead(l, after);
      var rest := l.text + after;
      GapRead(gaps[0], rest);
      assert rest[|l.text|..] == after;
      LexText(lexemes[1..], gaps[1..]);
      assert [l] + lexemes[1..] == lexemes;
    }
  }
}
