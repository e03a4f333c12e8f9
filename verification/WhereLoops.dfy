/** When the parser of where-clauses goes on for ever. */
module WhereLoops {
  import opened Basics
  import opened WhereLexer
  import opened WhereParser
  import opened Characters

  // No procedure below the top level takes an `in` or an unreadable lexeme. Where one of them stands in
  // the place of a call's next argument, the loop over the arguments takes nothing, turn after turn. The
  // text up to there, by itself, is a call that is not closed.

  /** Lexemes that no expression takes. */
  predicate Stops(l: Lexeme) {
    l.kind in {In, Error, Whitespace}
  }

  predicate StopsAt(ls: seq<Lexeme>) {
    ls != [] && Stops(ls[0])
  }

  ghost predicate NoStops(ls: seq<Lexeme>) {
    forall i :: 0 <= i < |ls| ==> !Stops(ls[i])
  }

  // ------------------------------------------------------------ a stop in the text

  /** What becomes of an outcome when a stop and more follow: an open call goes on for ever. */
  ghost predicate Cut<T(!new)>(o: Outcome<T>, whole: Outcome<T>, tail: seq<Lexeme>) {
    match o
    case Parsed(v, r) => whole == Parsed(v, r + tail)
    case Throws(f) => whole == if f == OpenCall then Diverges else Throws(f)
    case Diverges => whole == Diverges
  }

  lemma Heads(pre: seq<Lexeme>, tail: seq<Lexeme>)
    requires pre != []
    ensures (pre + tail)[0] == pre[0] && (pre + tail)[1..] == pre[1..] + tail
  {
  }

  lemma {:induction false} MemberCut(pre: seq<Lexeme>, tail: seq<Lexeme>)
    requires StopsAt(tail)
    ensures Cut(ParseMember(pre), ParseMember(pre + tail), tail)
    decreases |pre|, 0
  {
    hide *;
    if pre == [] {
      NothingCut(tail);
      assert pre + tail == tail;
    } else if pre[0].kind == LParen {
      OrCut(pre[1..], tail);
      ParenthesesCut(pre, tail);
    } else if pre[0].kind == Identifier {
      if At(pre[1..], LParen) {
        AtIs(pre[1..], LParen);
        ArgumentsCut(pre[0].text, [], pre[1..][1..], tail);
      }
      NameCut(pre, tail);
    } else {
      OtherCut(pre, tail);
    }
  }

  lemma AtIs(ls: seq<Lexeme>, k: Kind)
    requires At(ls, k)
    ensures ls != [] && ls[0].kind == k
  {
  }

  lemma NothingCut(tail: seq<Lexeme>)
    requires StopsAt(tail)
    ensures Cut(ParseMember([]), ParseMember(tail), tail)
  {
    hide NumberOf;
  }

  lemma OtherCut(pre: seq<Lexeme>, tail: seq<Lexeme>)
    requires pre != [] && pre[0].kind != LParen && pre[0].kind != Identifier
    ensures Cut(ParseMember(pre), ParseMember(pre + tail), tail)
  {
    hide NumberOf;
    Heads(pre, tail);
  }

  lemma ParenthesesCut(pre: seq<Lexeme>, tail: seq<Lexeme>)
    requires StopsAt(tail) && pre != [] && pre[0].kind == LParen
    requires Cut(ParseOr(pre[1..]), ParseOr(pre[1..] + tail), tail)
    ensures Cut(ParseMember(pre), ParseMember(pre + tail), tail)
  {
    hide ParseOr;
    Heads(pre, tail);
    var inner := ParseOr(pre[1..]);
    if inner.Parsed? {
      if inner.rest != [] {
        Heads(inner.rest, tail);
      } else {
        assert inner.rest + tail == tail;
      }
    }
  }

  lemma NameCut(pre: seq<Lexeme>, tail: seq<Lexeme>)
    requires StopsAt(tail) && pre != [] && pre[0].kind == Identifier
    requires At(pre[1..], LParen) ==>
               var more := pre[1..][1..];
               Cut(ParseArguments(pre[0].text, [], more), ParseArguments(pre[0].text, [], more + tail), tail)
    ensures Cut(ParseMember(pre), ParseMember(pre + tail), tail)
  {
    hide ParseArguments;
    Heads(pre, tail);
    if pre[1..] != [] {
      Heads(pre[1..], tail);
    }
  }

  lemma {:induction false} ArgumentsCut(name: string, args: seq<Node>, pre: seq<Lexeme>, tail: seq<Lexeme>)
    requires StopsAt(tail)
    ensures Cut(ParseArguments(name, args, pre), ParseArguments(name, args, pre + tail), tail)
    decreases |pre|, 7
  {
    if pre == [] {
      assert pre + tail == tail;
      StuckInArguments(name, args, tail);
    } else {
      Heads(pre, tail);
      OrCut(pre, tail);
      hide ParseOr;
      var arg := ParseOr(pre);
      if pre[0].kind != RParen && arg.Parsed? {
        if arg.rest != [] {
          Heads(arg.rest, tail);
        } else {
          assert arg.rest + tail == tail;
        }
        var rest := if At(arg.rest, Comma) then arg.rest[1..] else arg.rest;
        if |rest| < |pre| {
          ArgumentsCut(name, args + [arg.value], rest, tail);
        }
      }
    }
  }

  lemma {:induction false} RelationalCut(pre: seq<Lexeme>, tail: seq<Lexeme>)
    requires StopsAt(tail)
    ensures Cut(ParseRelational(pre), ParseRelational(pre + tail), tail)
    decreases |pre|, 1
  {
    MemberCut(pre, tail);
    hide ParseMember;
    var lhs := ParseMember(pre);
    if lhs.Parsed? && lhs.rest != [] {
      Heads(lhs.rest, tail);
      MemberCut(lhs.rest[1..], tail);
    }
  }

  lemma {:induction false} EqualityCut(pre: seq<Lexeme>, tail: seq<Lexeme>)
    requires StopsAt(tail)
    ensures Cut(ParseEquality(pre), ParseEquality(pre + tail), tail)
    decreases |pre|, 2
  {
    RelationalCut(pre, tail);
    hide ParseRelational;
    var lhs := ParseRelational(pre);
    if lhs.Parsed? && lhs.rest != [] {
      Heads(lhs.rest, tail);
      RelationalCut(lhs.rest[1..], tail);
    }
  }

  lemma {:induction false} AndLoopCut(lhs: Node, pre: seq<Lexeme>, tail: seq<Lexeme>)
    requires StopsAt(tail)
    ensures Cut(AndLoop(lhs, pre), AndLoop(lhs, pre + tail), tail)
    decreases |pre|, 3
  {
    hide ParseEquality;
    if pre != [] {
      Heads(pre, tail);
      EqualityCut(pre[1..], tail);
      var rhs := ParseEquality(pre[1..]);
      if rhs.Parsed? {
        AndLoopCut(Binary(lhs, And, rhs.value), rhs.rest, tail);
      }
    }
  }

  lemma {:induction false} AndCut(pre: seq<Lexeme>, tail: seq<Lexeme>)
    requires StopsAt(tail)
    ensures Cut(ParseAnd(pre), ParseAnd(pre + tail), tail)
    decreases |pre|, 4
  {
    EqualityCut(pre, tail);
    hide ParseEquality;
    hide AndLoop;
    var lhs := ParseEquality(pre);
    if lhs.Parsed? {
      AndLoopCut(lhs.value, lhs.rest, tail);
    }
  }

  lemma {:induction false} OrLoopCut(lhs: Node, pre: seq<Lexeme>, tail: seq<Lexeme>)
    requires StopsAt(tail)
    ensures Cut(OrLoop(lhs, pre), OrLoop(lhs, pre + tail), tail)
    decreases |pre|, 5
  {
    hide ParseAnd;
    if pre != [] {
      Heads(pre, tail);
      AndCut(pre[1..], tail);
      var rhs := ParseAnd(pre[1..]);
      if rhs.Parsed? {
        OrLoopCut(Binary(lhs, Or, rhs.value), rhs.rest, tail);
      }
    }
  }

  lemma {:induction false} OrCut(pre: seq<Lexeme>, tail: seq<Lexeme>)
    requires StopsAt(tail)
    ensures Cut(ParseOr(pre), ParseOr(pre + tail), tail)
    decreases |pre|, 6
  {
    AndCut(pre, tail);
    hide ParseAnd;
    hide OrLoop;
    var lhs := ParseAnd(pre);
    if lhs.Parsed? {
      OrLoopCut(lhs.value, lhs.rest, tail);
    }
  }

  // ---------------------------------------------------------- a turn of the loop

  lemma TakesNothing(ls: seq<Lexeme>)
    requires ls != [] && (Stops(ls[0]) || ls[0].kind in {RParen, Comma})
    ensures ParseOr(ls) == Parsed(Missing, ls)
  {
    assert ParseMember(ls) == Parsed(Missing, ls);
    assert ParseEquality(ls) == Parsed(Missing, ls);
    assert ParseAnd(ls) == Parsed(Missing, ls);
  }

  lemma TakesSome(ls: seq<Lexeme>)
    requires ls != [] && !Stops(ls[0]) && ls[0].kind !in {RParen, Comma}
    ensures ParseOr(ls).Parsed? ==> |ParseOr(ls).rest| < |ls|
  {
    if !Starts(ls) {
      assert ParseMember(ls) == Parsed(Missing, ls);
      if IsRelational(ls[0].kind) {
        TakesRelational(ls);
      } else {
        assert ParseRelational(ls) == Parsed(Missing, ls);
        if IsEquality(ls[0].kind) {
          TakesEquality(ls);
        } else {
          assert ParseEquality(ls) == Parsed(Missing, ls);
          assert ls[0].kind in {And, Or};
          TakesOperator(ls);
        }
      }
    }
  }

  lemma TakesRelational(ls: seq<Lexeme>)
    requires ls != [] && IsRelational(ls[0].kind) && ParseMember(ls) == Parsed(Missing, ls)
    ensures ParseOr(ls).Parsed? ==> |ParseOr(ls).rest| < |ls|
  {
    hide ParseMember;
    assert ParseRelational(ls).Parsed? ==> |ParseRelational(ls).rest| < |ls|;
    hide ParseRelational;
    assert ParseEquality(ls).Parsed? ==> |ParseEquality(ls).rest| < |ls|;
    hide ParseEquality;
    assert ParseAnd(ls).Parsed? ==> |ParseAnd(ls).rest| < |ls|;
    hide ParseAnd;
  }

  lemma TakesEquality(ls: seq<Lexeme>)
    requires ls != [] && IsEquality(ls[0].kind) && ParseRelational(ls) == Parsed(Missing, ls)
    ensures ParseOr(ls).Parsed? ==> |ParseOr(ls).rest| < |ls|
  {
    hide ParseRelational;
    assert ParseEquality(ls).Parsed? ==> |ParseEquality(ls).rest| < |ls|;
    hide ParseEquality;
    assert ParseAnd(ls).Parsed? ==> |ParseAnd(ls).rest| < |ls|;
    hide ParseAnd;
  }

  lemma TakesOperator(ls: seq<Lexeme>)
    requires ls != [] && ls[0].kind in {And, Or} && ParseEquality(ls) == Parsed(Missing, ls)
    ensures ParseOr(ls).Parsed? ==> |ParseOr(ls).rest| < |ls|
  {
    hide ParseEquality;
    var rest := ls[1..];
    assert ParseAnd(ls) == AndLoop(Missing, ls);
    if ls[0].kind == And {
      var rhs := ParseEquality(rest);
      if rhs.Parsed? {
        assert AndLoop(Missing, ls) == AndLoop(Binary(Missing, And, rhs.value), rhs.rest);
      }
    } else {
      assert ParseAnd(ls) == Parsed(Missing, ls);
      var rhs := ParseAnd(rest);
      if rhs.Parsed? {
        assert OrLoop(Missing, ls) == OrLoop(Binary(Missing, Or, rhs.value), rhs.rest);
      }
    }
  }

  /** What is left after a turn of the loop over the arguments. */
  function AfterTurn(rest: seq<Lexeme>): seq<Lexeme> {
    if At(rest, Comma) then rest[1..] else rest
  }

  /** A turn takes nothing exactly in front of a lexeme that no expression takes. */
  lemma TurnTakesNothingIff(ls: seq<Lexeme>)
    requires ls != [] && ls[0].kind != RParen && ParseOr(ls).Parsed?
    ensures |AfterTurn(ParseOr(ls).rest)| >= |ls| <==> Stops(ls[0])
  {
    if Stops(ls[0]) || ls[0].kind == Comma {
      TakesNothing(ls);
    } else {
      TakesSome(ls);
    }
  }

  lemma StuckInArguments(name: string, args: seq<Node>, ls: seq<Lexeme>)
    requires StopsAt(ls)
    ensures ParseArguments(name, args, ls) == Diverges
  {
    TakesNothing(ls);
    hide ParseOr;
  }

  // -------------------------------------------------------------- without a stop

  /** Without a stop an outcome is final, and there is none in what is left. */
  ghost predicate Ends<T(!new)>(o: Outcome<T>) {
    o != Diverges && (o.Parsed? ==> NoStops(o.rest))
  }

  lemma Fewer(ls: seq<Lexeme>)
    requires ls != [] && NoStops(ls)
    ensures !Stops(ls[0]) && NoStops(ls[1..])
  {
  }

  lemma {:induction false} MemberEnds(ls: seq<Lexeme>)
    requires NoStops(ls)
    ensures Ends(ParseMember(ls))
    decreases |ls|, 0
  {
    hide NoStops;
    hide NumberOf;
    hide ParseOr;
    hide ParseArguments;
    if ls != [] {
      Fewer(ls);
      var rest := ls[1..];
      if ls[0].kind == LParen {
        OrEnds(rest);
        var inner := ParseOr(rest);
        if inner.Parsed? && inner.rest != [] {
          Fewer(inner.rest);
        }
      } else if ls[0].kind == Identifier && rest != [] {
        Fewer(rest);
        if At(rest, LParen) {
          ArgumentsEnd(ls[0].text, [], rest[1..]);
        }
      }
    }
  }

  lemma {:induction false} ArgumentsEnd(name: string, args: seq<Node>, ls: seq<Lexeme>)
    requires NoStops(ls)
    ensures Ends(ParseArguments(name, args, ls))
    decreases |ls|, 7
  {
    hide NoStops;
    if ls != [] {
      Fewer(ls);
      OrEnds(ls);
      if ls[0].kind != RParen && ParseOr(ls).Parsed? {
        TurnTakesNothingIff(ls);
        hide ParseOr;
        var arg := ParseOr(ls);
        if arg.rest != [] {
          Fewer(arg.rest);
        }
        ArgumentsEnd(name, args + [arg.value], AfterTurn(arg.rest));
      }
    }
  }

  lemma {:induction false} RelationalEnds(ls: seq<Lexeme>)
    requires NoStops(ls)
    ensures Ends(ParseRelational(ls))
    decreases |ls|, 1
  {
    hide NoStops;
    MemberEnds(ls);
    hide ParseMember;
    var lhs := ParseMember(ls);
    if lhs.Parsed? && lhs.rest != [] {
      Fewer(lhs.rest);
      MemberEnds(lhs.rest[1..]);
    }
  }

  lemma {:induction false} EqualityEnds(ls: seq<Lexeme>)
    requires NoStops(ls)
    ensures Ends(ParseEquality(ls))
    decreases |ls|, 2
  {
    hide NoStops;
    RelationalEnds(ls);
    hide ParseRelational;
    var lhs := ParseRelational(ls);
    if lhs.Parsed? && lhs.rest != [] {
      Fewer(lhs.rest);
      RelationalEnds(lhs.rest[1..]);
    }
  }

  lemma {:induction false} AndLoopEnds(lhs: Node, ls: seq<Lexeme>)
    requires NoStops(ls)
    ensures Ends(AndLoop(lhs, ls))
    decreases |ls|, 3
  {
    hide NoStops;
    hide ParseEquality;
    if ls != [] {
      Fewer(ls);
      EqualityEnds(ls[1..]);
      var rhs := ParseEquality(ls[1..]);
      if rhs.Parsed? {
        AndLoopEnds(Binary(lhs, And, rhs.value), rhs.rest);
      }
    }
  }

  lemma {:induction false} AndEnds(ls: seq<Lexeme>)
    requires NoStops(ls)
    ensures Ends(ParseAnd(ls))
    decreases |ls|, 4
  {
    EqualityEnds(ls);
    hide ParseEquality;
    hide AndLoop;
    if ParseEquality(ls).Parsed? {
      AndLoopEnds(ParseEquality(ls).value, ParseEquality(ls).rest);
    }
  }

  lemma {:induction false} OrLoopEnds(lhs: Node, ls: seq<Lexeme>)
    requires NoStops(ls)
    ensures Ends(OrLoop(lhs, ls))
    decreases |ls|, 5
  {
    hide NoStops;
    hide ParseAnd;
    if ls != [] {
      Fewer(ls);
      AndEnds(ls[1..]);
      var rhs := ParseAnd(ls[1..]);
      if rhs.Parsed? {
        OrLoopEnds(Binary(lhs, Or, rhs.value), rhs.rest);
      }
    }
  }

  lemma {:induction false} OrEnds(ls: seq<Lexeme>)
    requires NoStops(ls)
    ensures Ends(ParseOr(ls))
    decreases |ls|, 6
  {
    AndEnds(ls);
    hide ParseAnd;
    hide OrLoop;
    if ParseAnd(ls).Parsed? {
      OrLoopEnds(ParseAnd(ls).value, ParseAnd(ls).rest);
    }
  }

  lemma {:induction false} ListEnds(list: seq<Node>, ls: seq<Lexeme>)
    requires NoStops(ls)
    ensures Ends(ParseList(list, ls))
    decreases |ls|
  {
    hide NoStops;
    hide ParseOr;
    if ls != [] {
      OrEnds(ls);
      var item := ParseOr(ls);
      if item.Parsed? && item.rest != [] {
        Fewer(item.rest);
        if At(item.rest, Comma) {
          ListEnds(list + [item.value], item.rest[1..]);
        }
      }
    }
  }

  // --------------------------------------------------------- lists, `in` and texts

  /** As Cut, except that an item is read in front of the stop where there was none at the end. */
  ghost predicate CutList(o: Outcome<seq<Node>>, whole: Outcome<seq<Node>>, tail: seq<Lexeme>) {
    if o.Parsed? && o.rest == [] then whole.Parsed? && whole.rest == tail else Cut(o, whole, tail)
  }

  lemma {:induction false} ListCut(list: seq<Node>, pre: seq<Lexeme>, tail: seq<Lexeme>)
    requires StopsAt(tail)
    ensures CutList(ParseList(list, pre), ParseList(list, pre + tail), tail)
    decreases |pre|
  {
    if pre == [] {
      assert pre + tail == tail;
      TakesNothing(tail);
      hide ParseOr;
    } else {
      hide ParseOr;
      OrCut(pre, tail);
      var item := ParseOr(pre);
      if item.Parsed? {
        if item.rest == [] {
          assert item.rest + tail == tail;
        } else {
          Heads(item.rest, tail);
          if At(item.rest, Comma) {
            ListCut(list + [item.value], item.rest[1..], tail);
          }
        }
      }
    }
  }

  /** The loop over `in`, one list at a time. */
  lemma InLoopTurn(lhs: Node, ls: seq<Lexeme>)
    ensures InLoop(lhs, ls) ==
            if !At(ls, In) then Parsed(lhs, ls)
            else if |ls| < 2 || ls[1].kind != LParen then Throws(NoList)
            else
              var o := ParseList([], ls[2..]);
              if o.Throws? then Throws(o.fault)
              else if o == Diverges then Diverges
              else if At(o.rest, RParen) then InLoop(Among(lhs, o.value), o.rest[1..])
              else Throws(OpenList)
  {
    hide ParseList;
  }

  /** As Cut, but only as long as the stop is not reached: at the top level an `in` is taken. */
  ghost predicate CutBefore(o: Outcome<Node>, whole: Outcome<Node>, tail: seq<Lexeme>) {
    && (o == Throws(OpenCall) ==> whole == Diverges)
    && (o.Parsed? && o.rest != [] ==> whole == Parsed(o.value, o.rest + tail))
  }

  lemma {:induction false} InLoopCut(lhs: Node, pre: seq<Lexeme>, tail: seq<Lexeme>)
    requires StopsAt(tail)
    ensures CutBefore(InLoop(lhs, pre), InLoop(lhs, pre + tail), tail)
    decreases |pre|
  {
    hide ParseList;
    hide InLoop;
    InLoopTurn(lhs, pre);
    InLoopTurn(lhs, pre + tail);
    if pre != [] {
      Heads(pre, tail);
      if |pre| >= 2 {
        Heads(pre[1..], tail);
        var more := pre[2..];
        assert (pre + tail)[2..] == more + tail;
        ListCut([], more, tail);
        var o := ParseList([], more);
        if At(pre, In) && o.Parsed? && At(o.rest, RParen) {
          Heads(o.rest, tail);
          InLoopCut(Among(lhs, o.value), o.rest[1..], tail);
        }
      }
    }
  }

  lemma InCut(pre: seq<Lexeme>, tail: seq<Lexeme>)
    requires StopsAt(tail)
    ensures CutBefore(ParseIn(pre), ParseIn(pre + tail), tail)
  {
    OrCut(pre, tail);
    hide ParseOr;
    hide InLoop;
    if ParseOr(pre).Parsed? {
      InLoopCut(ParseOr(pre).value, ParseOr(pre).rest, tail);
    }
  }

  /** Where the text up to a stop is an open call, the parser goes on for ever. */
  lemma {:induction false} AllCut(result: Node, pre: seq<Lexeme>, tail: seq<Lexeme>)
    requires StopsAt(tail) && ParseAll(result, pre) == Throws(OpenCall)
    ensures ParseAll(result, pre + tail) == Diverges
    decreases |pre|
  {
    Heads(pre, tail);
    InCut(pre, tail);
    hide ParseIn;
    var o := ParseIn(pre);
    if o.Parsed? {
      AllCut(o.value, o.rest, tail);
    }
  }

  /** The lexemes up to the first stop. */
  function BeforeStop(ls: seq<Lexeme>): (k: nat)
    ensures k <= |ls| && (k < |ls| ==> Stops(ls[k]))
    ensures forall i :: 0 <= i < k ==> !Stops(ls[i])
  {
    if ls == [] || Stops(ls[0]) then 0 else 1 + BeforeStop(ls[1..])
  }

  lemma SplitAtStop(ls: seq<Lexeme>) returns (pre: seq<Lexeme>, tail: seq<Lexeme>)
    ensures ls == pre + tail && NoStops(pre) && (tail == [] || StopsAt(tail))
  {
    var k := BeforeStop(ls);
    pre, tail := ls[..k], ls[k..];
  }

  /** A stop behind `r` is one in the tail, `m` lexemes into it. */
  lemma StopInTail(r: seq<Lexeme>, tail: seq<Lexeme>, j: nat) returns (m: nat)
    requires NoStops(r) && j < |r| + |tail| && Stops((r + tail)[j])
    ensures m < |tail| && Stops(tail[m]) && (r + tail)[..j] == r + tail[..m]
  {
    m := j - |r|;
  }

  lemma Rejoin(pre: seq<Lexeme>, tail: seq<Lexeme>, m: nat)
    requires m < |tail|
    ensures (pre + tail)[..|pre| + m] == pre + tail[..m] && (pre + tail)[|pre| + m] == tail[m]
  {
  }

  /** Reading up to any place in the tail, or to its beginning. */
  lemma OrBefore(pre: seq<Lexeme>, cut: seq<Lexeme>)
    requires cut == [] || StopsAt(cut)
    ensures var o, whole := ParseOr(pre), ParseOr(pre + cut);
            && (o.Parsed? ==> whole == Parsed(o.value, o.rest + cut))
            && (o.Throws? ==> !whole.Parsed? && (whole == Diverges ==> cut != [] && o == Throws(OpenCall)))
  {
    if cut == [] {
      AppendNothing(pre);
      if ParseOr(pre).Parsed? {
        AppendNothing(ParseOr(pre).rest);
      }
    } else {
      OrCut(pre, cut);
    }
  }

  lemma ListBefore(pre: seq<Lexeme>, cut: seq<Lexeme>)
    requires cut == [] || StopsAt(cut)
    ensures var o, whole := ParseList([], pre), ParseList([], pre + cut);
            && (o.Parsed? && o.rest != [] ==> whole == Parsed(o.value, o.rest + cut))
            && (o.Parsed? && o.rest == [] ==> whole.Parsed? && whole.rest == cut)
            && (o.Throws? ==> !whole.Parsed? && (whole == Diverges ==> cut != [] && o == Throws(OpenCall)))
  {
    if cut == [] {
      AppendNothing(pre);
      if ParseList([], pre).Parsed? {
        AppendNothing(ParseList([], pre).rest);
      }
    } else {
      ListCut([], pre, cut);
    }
  }

  lemma {:induction false} InLoopStuck(lhs: Node, ls: seq<Lexeme>) returns (i: nat)
    requires InLoop(lhs, ls) == Diverges
    ensures i < |ls| && Stops(ls[i]) && InLoop(lhs, ls[..i]) == Throws(OpenCall)
    decreases |ls|
  {
    hide ParseList;
    hide InLoop;
    hide NoStops;
    InLoopTurn(lhs, ls);
    var head := ls[..2];
    var pre, tail := SplitAtStop(ls[2..]);
    ListEnds([], pre);
    ListBefore(pre, tail);
    var o, m := ParseList([], pre), 0;
    if o.Parsed? {
      Heads(o.rest, tail);
      Fewer(o.rest);
      var j := InLoopStuck(Among(lhs, o.value), o.rest[1..] + tail);
      m := StopInTail(o.rest[1..], tail, j);
    }
    i := 2 + |pre| + m;
    BehindHead(ls, pre, tail, m);
    InLoopTurn(lhs, ls[..i]);
    ListUpTo(pre, tail, m);
  }

  lemma BehindHead(ls: seq<Lexeme>, pre: seq<Lexeme>, tail: seq<Lexeme>, m: nat)
    requires |ls| >= 2 && ls[2..] == pre + tail && m < |tail|
    ensures var i := 2 + |pre| + m;
            i < |ls| && ls[i] == tail[m] && |ls[..i]| >= 2 && ls[..i][2..] == pre + tail[..m] && ls[..i][0] == ls[0] && ls[..i][1] == ls[1]
  {
    assert ls[2..][|pre| + m] == tail[m];
    Rejoin(pre, tail, m);
    assert ls[..2 + |pre| + m][2..] == ls[2..][..|pre| + m];
  }

  /** A list that is closed before the tail, or an open call, up to any place in the tail. */
  lemma ListUpTo(pre: seq<Lexeme>, tail: seq<Lexeme>, m: nat)
    requires m <= |tail| && StopsAt(tail)
    ensures var o, part := ParseList([], pre), ParseList([], pre + tail[..m]);
            && (o.Parsed? && o.rest != [] ==> part.Parsed? && part.value == o.value && part.rest != []
                                              && part.rest[0] == o.rest[0] && part.rest[1..] == o.rest[1..] + tail[..m])
            && (o == Throws(OpenCall) && m == 0 ==> part == Throws(OpenCall))
  {
    ListBefore(pre, tail[..m]);
    var o := ParseList([], pre);
    if o.Parsed? && o.rest != [] {
      Heads(o.rest, tail[..m]);
    }
    if m == 0 {
      AppendNothing(pre);
    }
  }

  lemma {:induction false} InStuck(ls: seq<Lexeme>) returns (i: nat)
    requires ParseIn(ls) == Diverges
    ensures i < |ls| && Stops(ls[i]) && ParseIn(ls[..i]) == Throws(OpenCall)
  {
    hide ParseOr;
    hide InLoop;
    hide NoStops;
    var pre, tail := SplitAtStop(ls);
    OrEnds(pre);
    OrBefore(pre, tail);
    var o, m := ParseOr(pre), 0;
    if o.Parsed? {
      var j := InLoopStuck(o.value, o.rest + tail);
      m := StopInTail(o.rest, tail, j);
    }
    i := |pre| + m;
    Rejoin(pre, tail, m);
    OrBefore(pre, tail[..m]);
    if m == 0 {
      AppendNothing(pre);
    }
  }

  /** What has been read before some place in what is left does not depend on what follows that place. */
  lemma {:induction false} InLoopUpTo(lhs: Node, ls: seq<Lexeme>, j: nat)
    requires InLoop(lhs, ls).Parsed? && 0 < j < |InLoop(lhs, ls).rest| && Stops(InLoop(lhs, ls).rest[j])
    ensures var o := InLoop(lhs, ls); var i := |ls| - |o.rest| + j;
            i < |ls| && ls[i] == o.rest[j] && InLoop(lhs, ls[..i]) == Parsed(o.value, o.rest[..j])
    decreases |ls|
  {
    hide ParseList;
    hide InLoop;
    hide NoStops;
    InLoopTurn(lhs, ls);
    if At(ls, In) {
      var left := InLoop(lhs, ls).rest;
      var pre, tail := SplitAtStop(ls[2..]);
      ListEnds([], pre);
      ListBefore(pre, tail);
      var o := ParseList([], pre);
      Heads(o.rest, tail);
      Fewer(o.rest);
      var next := o.rest[1..] + tail;
      InLoopUpTo(Among(lhs, o.value), next, j);
      var m := StopInTail(o.rest[1..], tail, |next| - |left| + j);
      BehindHead(ls, pre, tail, m);
      InLoopTurn(lhs, ls[..2 + |pre| + m]);
      ListUpTo(pre, tail, m);
    } else {
      InLoopTurn(lhs, ls[..j]);
    }
  }

  lemma InUpTo(ls: seq<Lexeme>, j: nat)
    requires ParseIn(ls).Parsed? && 0 < j < |ParseIn(ls).rest| && Stops(ParseIn(ls).rest[j])
    ensures var o := ParseIn(ls); var i := |ls| - |o.rest| + j;
            i < |ls| && ls[i] == o.rest[j] && ParseIn(ls[..i]) == Parsed(o.value, o.rest[..j])
  {
    hide ParseOr;
    hide InLoop;
    hide NoStops;
    var pre, tail := SplitAtStop(ls);
    OrEnds(pre);
    OrBefore(pre, tail);
    var o := ParseOr(pre);
    var next, left := o.rest + tail, ParseIn(ls).rest;
    InLoopUpTo(o.value, next, j);
    var m := StopInTail(o.rest, tail, |next| - |left| + j);
    Rejoin(pre, tail, m);
    OrBefore(pre, tail[..m]);
  }

  lemma {:induction false} AllStuck(result: Node, ls: seq<Lexeme>) returns (i: nat)
    requires ParseAll(result, ls) == Diverges
    ensures i < |ls| && Stops(ls[i]) && ParseAll(result, ls[..i]) == Throws(OpenCall)
    decreases |ls|
  {
    hide ParseIn;
    var o := ParseIn(ls);
    if o == Diverges {
      i := InStuck(ls);
    } else {
      var j := AllStuck(o.value, o.rest);
      InUpTo(ls, j);
      i := |ls| - |o.rest| + j;
    }
    assert i > 0;
  }

  // ------------------------------------------------------------------------ texts

  lemma {:induction false} NoSpaceLexed(s: string)
    ensures forall l <- Lex(s) :: l.kind != Whitespace
    decreases |s|
  {
    if s != "" {
      var l := First(s);
      hide First;
      NoSpaceLexed(s[|l.text|..]);
    }
  }

  /** An `in` or something unreadable stands where a call's next argument is read: what precedes it, by
      itself, is thrown out as a call that is not closed. */
  ghost predicate EndsArguments(ls: seq<Lexeme>, i: nat) {
    i < |ls| && ls[i].kind in {In, Error} && ParseAll(Missing, ls[..i]) == Throws(OpenCall)
  }

  lemma AllLoopsIff(ls: seq<Lexeme>)
    requires forall l <- ls :: l.kind != Whitespace
    ensures ParseAll(Missing, ls) == Diverges <==> exists i: nat :: EndsArguments(ls, i)
  {
    hide ParseAll;
    if ParseAll(Missing, ls) == Diverges {
      var i := AllStuck(Missing, ls);
      assert ls[i] in ls;
      assert EndsArguments(ls, i);
    }
    if i: nat :| EndsArguments(ls, i) {
      assert ls == ls[..i] + ls[i..];
      AllCut(Missing, ls[..i], ls[i..]);
    }
  }

  /** Parsing a text never ends if and only if there is such a place in it. */
  lemma LoopsIff(s: string)
    ensures Parse(s) == Diverges <==> exists i: nat :: EndsArguments(Lex(s), i)
  {
    var ls := Lex(s);
    NoSpaceLexed(s);
    AllLoopsIff(ls);
    assert forall i: nat :: EndsArguments(Lex(s), i) <==> EndsArguments(ls, i);
  }

  /** The shortest kind of text that is never parsed. */
  lemma CallOfIn()
    ensures Parse("f(in") == Diverges
  {
    var f, p, n := Lexeme(Identifier, "f"), Lexeme(LParen, "("), Lexeme(In, "in");
    assert Lower("f") == "f" && Lower("in") == "in";
    assert LexemeOk(f) && LexemeOk(p) && LexemeOk(n);
    LexedThree(f, p, n);
    assert "f" + ("(" + "in") == "f(in";
    CallStuck(f, p, n);
  }

  lemma LexedThree(a: Lexeme, b: Lexeme, c: Lexeme)
    requires LexemeOk(a) && LexemeOk(b) && LexemeOk(c) && b.text != "" && c.text != ""
    requires CanTouch(a, b.text[0]) && CanTouch(b, c.text[0])
    ensures Lex(a.text + (b.text + c.text)) == [a, b, c]
  {
    hide LexemeOk;
    hide CanTouch;
    LexedOne(c, "", []);
    AppendNothing(c.text);
    LexedOne(b, c.text, [c]);
    LexedOne(a, b.text + c.text, [b, c]);
  }

  lemma LexedOne(l: Lexeme, rest: string, ls: seq<Lexeme>)
    requires LexemeOk(l) && (rest == "" || CanTouch(l, rest[0])) && Lex(rest) == ls
    ensures Lex(l.text + rest) == [l] + ls
  {
    LexemeRead(l, rest);
    assert (l.text + rest)[|l.text|..] == rest;
  }

  lemma CallStuck(f: Lexeme, p: Lexeme, n: Lexeme)
    requires f.kind == Identifier && p.kind == LParen && Stops(n)
    ensures ParseAll(Missing, [f, p, n]) == Diverges
  {
    StuckInArguments(f.text, [], [n]);
    hide ParseArguments;
    assert [f, p, n][1..] == [p, n] && [p, n][1..] == [n];
    assert ParseMember([f, p, n]) == Diverges;
    hide ParseMember;
    assert ParseEquality([f, p, n]) == Diverges;
    assert ParseOr([f, p, n]) == Diverges;
  }
}
