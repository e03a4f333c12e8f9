/** The parser understands every markup that DomMarkup describes, and refuses what is not well formed. */
module DomReading {
  import opened Basics
  import opened DomTree
  import opened DomParser
  import opened DomNormal
  import opened DomMarkup
  import opened Characters

  // ------------------------------------------------------------------- entities

  lemma {:induction false} RunIs(s: string, from: nat, n: nat)
    requires from + n < |s| && !IsAlnum(s[from + n])
    requires forall i :: from <= i < from + n ==> IsAlnum(s[i])
    ensures AlnumRun(s, from) == n
    decreases n
  {
    if n > 0 {
      RunIs(s, from + 1, n - 1);
    }
  }

  lemma {:induction false} DigitsSnoc(s: string, c: char, radix: nat, sofar: nat)
    requires DigitValue(c) < radix && forall i :: 0 <= i < |s| ==> DigitValue(s[i]) < radix
    ensures ParseDigits(s + [c], radix, sofar) == ParseDigits(s, radix, sofar) * radix + DigitValue(c)
    decreases |s|
  {
    if s == "" {
      assert (s + [c])[0] == c && (s + [c])[1..] == "";
    } else {
      assert (s + [c])[0] == s[0] && (s + [c])[1..] == s[1..] + [c];
      DigitsSnoc(s[1..], c, radix, sofar * radix + DigitValue(s[0]));
    }
  }

  lemma {:induction false} DigitsRead(numeral: string, base: nat, n: nat)
    requires Writes(numeral, base, n) && base <= 16
    ensures ParseDigits(numeral, base, 0) == n && forall i :: 0 <= i < |numeral| ==> DigitValue(numeral[i]) < base
    decreases |numeral|
  {
    var front, last := numeral[..|numeral| - 1], numeral[|numeral| - 1];
    DigitIs(last, n % base);
    assert numeral == front + [last];
    QuotientAndRest(n, base);
    if front == "" {
      DigitsSnoc("", last, base, 0);
    } else {
      DigitsRead(front, base, n / base);
      DigitsSnoc(front, last, base, 0);
      assert forall i :: 0 <= i < |front| ==> numeral[i] == front[i];
    }
    hide ParseDigits;
    hide DigitValue;
  }

  /** A character written in any of the ways is read back, whatever follows it. */
  lemma PieceRead(p: Piece, mark: char, t: string)
    requires PieceOk(p, mark)
    ensures Unescape(p.text + t) == Prepend(p.value, Unescape(t))
  {
    if p.text == [p.value] && p.value != '&' {
      assert (p.text + t)[0] == p.value && (p.text + t)[1..] == t;
    } else if IsNamed(p) {
      NamedRead(p, t);
    } else {
      var numeral, n :| IsReference(p, numeral, n);
      ReferenceRead(p, numeral, n, t);
    }
  }

  lemma NamedRead(p: Piece, t: string)
    requires IsNamed(p)
    ensures Unescape(p.text + t) == Prepend(p.value, Unescape(t))
  {
    var e := p.text;
    var name := NameOf(p);
    var s := e + t;
    RunIs(s, 1, |name|);
    assert s[1..1 + |name|] == name && s[|e|..] == t;
    NamedIs(p);
  }

  function NameOf(p: Piece): string {
    if |p.text| < 2 then "" else p.text[1..|p.text| - 1]
  }

  lemma NamedIs(p: Piece)
    requires IsNamed(p)
    ensures NamedEntity(NameOf(p)) == Some(p.value)
  {
    var name := if p.value == '&' then "amp" else if p.value == '\'' then "apos" else if p.value == '"' then "quot"
                else if p.value == '<' then "lt" else "gt";
    Enclosed(p.text, name);
    assert "lt"[0] == 'l' && "gt"[0] == 'g' && "quot"[0] == 'q' && "apos"[..2] == "ap" && "amp"[..2] == "am";
    assert name[0] == if p.value == '&' || p.value == '\'' then 'a' else if p.value == '"' then 'q' else if p.value == '<' then 'l' else 'g';
  }

  lemma Enclosed(e: string, name: string)
    requires |e| == |name| + 2 && forall i :: 0 <= i < |name| ==> e[i + 1] == name[i]
    ensures e[1..|e| - 1] == name
  {
  }

  /** Decimal and hexadecimal references to any character. */
  lemma ReferenceRead(p: Piece, numeral: string, n: nat, t: string)
    requires IsReference(p, numeral, n)
    ensures Unescape(p.text + t) == Prepend(p.value, Unescape(t))
  {
    if p.text == "&#" + numeral + ";" {
      NumeralAlnum(numeral, 10, n);
      DigitsRead(numeral, 10, n);
      ReferenceParts("&#", numeral, t);
      DecimalMatch(numeral, t);
    } else {
      var head := if p.text == "&#x" + numeral + ";" then "&#x" else "&#X";
      NumeralAlnum(numeral, 16, n);
      DigitsRead(numeral, 16, n);
      ReferenceParts(head, numeral, t);
      HexMatch(head, numeral, t);
    }
  }

  lemma ReferenceParts(head: string, numeral: string, t: string)
    ensures var s := head + numeral + ";" + t;
            && |s| > |head| + |numeral| && s[..|head|] == head && s[|head| + |numeral|] == ';'
            && s[|head|..|head| + |numeral|] == numeral && s[|head| + |numeral| + 1..] == t
            && forall i :: 0 <= i < |numeral| ==> s[|head| + i] == numeral[i]
  {
  }

  lemma DecimalMatch(numeral: string, t: string)
    requires numeral != "" && numeral[0] !in "xX" && forall i :: 0 <= i < |numeral| ==> IsAlnum(numeral[i])
    ensures var s := "&#" + numeral + ";" + t;
            s != "" && s[0] == '&' && MatchEntity(s) == Some(EntityMatch(true, false, numeral, ';', |numeral| + 3))
  {
    var s := "&#" + numeral + ";" + t;
    ReferenceParts("&#", numeral, t);
    assert s[2] == s[2 + 0] == numeral[0] && s[0] == '&' && s[1] == '#';
    ScanTo(s, 2, numeral);
  }

  lemma HexMatch(head: string, numeral: string, t: string)
    requires (head == "&#x" || head == "&#X") && numeral != "" && forall i :: 0 <= i < |numeral| ==> IsAlnum(numeral[i])
    ensures var s := head + numeral + ";" + t;
            s != "" && s[0] == '&' && MatchEntity(s) == Some(EntityMatch(true, true, numeral, ';', |numeral| + 4))
  {
    var s := head + numeral + ";" + t;
    ReferenceParts(head, numeral, t);
    assert s[0] == head[0] && s[1] == head[1] && s[2] == head[2];
    ScanTo(s, 3, numeral);
  }

  lemma {:induction false} DigitsStop(s: string, junk: string, radix: nat, sofar: nat)
    requires (forall i :: 0 <= i < |s| ==> DigitValue(s[i]) < radix) && (junk == "" || DigitValue(junk[0]) >= radix)
    ensures ParseDigits(s + junk, radix, sofar) == ParseDigits(s, radix, sofar)
    decreases |s|
  {
    if s == "" {
      AppendNothing(junk);
    } else {
      assert (s + junk)[0] == s[0] && (s + junk)[1..] == s[1..] + junk;
      DigitsStop(s[1..], junk, radix, sofar * radix + DigitValue(s[0]));
    }
  }

  ghost predicate Digits(numeral: string, base: nat, n: nat) {
    if numeral == "" then n == 0 else Writes(numeral, base, n)
  }

  /** What stands between `&#` and the semicolon: perhaps `x`, for base 16, and there perhaps `0x` again; then a
      numeral, and other letters and digits that are passed over. Without any digit the number is 0. */
  ghost predicate IsNumeric(x: string, prefix: string, numeral: string, n: nat, junk: string) {
    var base := if x == "" then 10 else 16;
    && x in {"", "x", "X"} && (prefix == "" || (x != "" && prefix in {"0x", "0X"}))
    && Digits(numeral, base, n)
    && (forall i :: 0 <= i < |junk| ==> IsAlnum(junk[i])) && (junk == "" || DigitValue(junk[0]) >= base)
    && (prefix == "" ==> numeral + junk != "" && (junk == "" || junk[0] !in "xX" || (numeral != "" && (x == "" || numeral != "0"))))
  }

  lemma AllAlnum(a: string, b: string)
    requires (forall i :: 0 <= i < |a| ==> IsAlnum(a[i])) && (forall i :: 0 <= i < |b| ==> IsAlnum(b[i]))
    ensures forall i :: 0 <= i < |a + b| ==> IsAlnum((a + b)[i])
  {
    hide IsAlnum;
  }

  lemma NumericParts(x: string, prefix: string, numeral: string, n: nat, junk: string)
    requires IsNumeric(x, prefix, numeral, n, junk)
    ensures var name := prefix + numeral + junk;
            && name != "" && (forall i :: 0 <= i < |name| ==> IsAlnum(name[i])) && (x == "" ==> name[0] !in "xX")
    ensures var name := prefix + numeral + junk;
            var again := |name| > 1 && name[0] == '0' && name[1] in "xX";
            x != "" ==> again == (prefix != "") && (again ==> name[2..] == numeral + junk)
  {
    var name, rest := prefix + numeral + junk, numeral + junk;
    assert name == prefix + rest;
    if numeral != "" {
      NumeralAlnum(numeral, if x == "" then 10 else 16, n);
    }
    assert junk != "" ==> junk[0] != '0';
    AllAlnum(numeral, junk);
    AllAlnum(prefix, rest);
    hide IsAlnum;
    hide Digits;
    hide DigitValue;
    if prefix == "" {
      assert name == rest;
      FirstTwo(numeral, junk);
    } else {
      assert name[0] == prefix[0] && name[1] == prefix[1] && name[2..] == rest;
    }
  }

  /** Where the first two characters of a numeral and what follows it stand. */
  lemma FirstTwo(numeral: string, junk: string)
    requires (forall i :: 0 <= i < |numeral| ==> numeral[i] !in "xX") && (junk == "" || junk[0] !in "0xX" || numeral != "")
    ensures var rest := numeral + junk;
            && (rest != "" ==> rest[0] !in "xX")
            && (|rest| > 1 && rest[0] == '0' && rest[1] in "xX" ==> junk != "" && junk[0] in "xX" && numeral == "0")
  {
    var rest := numeral + junk;
    if |rest| > 1 {
      assert rest[1] == if |numeral| > 1 then numeral[1] else junk[1 - |numeral|];
      assert |numeral| == 1 ==> numeral == [rest[0]];
    }
  }

  lemma LeadingDigits(base: nat, numeral: string, n: nat, junk: string)
    requires Digits(numeral, base, n) && base <= 16 && (junk == "" || DigitValue(junk[0]) >= base)
    ensures ParseDigits(numeral + junk, base, 0) == n
  {
    if numeral != "" {
      DigitsRead(numeral, base, n);
    }
    DigitsStop(numeral, junk, base, 0);
    hide Writes;
    hide DigitValue;
    assert ParseDigits("", base, 0) == 0;
  }

  lemma NumericValue(x: string, prefix: string, numeral: string, n: nat, junk: string, length: nat)
    requires IsNumeric(x, prefix, numeral, n, junk)
    ensures var code := n % 0x1_0000;
            NumericEntity(EntityMatch(true, x != "", prefix + numeral + junk, ';', length))
              == if code < 0xD800 || code > 0xDFFF then code as char else '\U{FFFD}'
  {
    var base, name := if x == "" then 10 else 16, prefix + numeral + junk;
    NumericParts(x, prefix, numeral, n, junk);
    LeadingDigits(base, numeral, n, junk);
    assert prefix == "" ==> name == numeral + junk;
    assert x == "" ==> prefix == "";
    hide IsNumeric;
    hide ParseDigits;
  }

  /** Numeric references, in all their forms: the number is taken modulo 2^16, and only its leading digits count. */
  lemma NumericRead(x: string, prefix: string, numeral: string, n: nat, junk: string, t: string)
    requires IsNumeric(x, prefix, numeral, n, junk)
    ensures var code := n % 0x1_0000;
            Unescape("&#" + x + (prefix + numeral + junk) + ";" + t)
              == Prepend(if code < 0xD800 || code > 0xDFFF then code as char else '\U{FFFD}', Unescape(t))
  {
    var head, name := "&#" + x, prefix + numeral + junk;
    NumericParts(x, prefix, numeral, n, junk);
    NumericValue(x, prefix, numeral, n, junk, |name| + |head| + 1);
    ReferenceParts(head, name, t);
    if x == "" {
      assert head == "&#";
      DecimalMatch(name, t);
    } else {
      HexMatch(head, name, t);
    }
    hide IsNumeric;
    hide NumericEntity;
    hide MatchEntity;
  }

  /** The characters of names, the ends of lines and the upper case, written out. */
  lemma CharactersAre(c: char, i: nat)
    requires i < 26
    ensures NameChar(c) <==> IsAlnum(c) || c in "_:-"
    ensures IsLineEnd(c) <==> c in "\n\r\U{2028}\U{2029}"
    ensures Upper("abcdefghijklmnopqrstuvwxyz"[i]) == "ABCDEFGHIJKLMNOPQRSTUVWXYZ"[i]
    ensures c !in "abcdefghijklmnopqrstuvwxyz" ==> Upper(c) == c
  {
  }

  lemma ScanTo(s: string, from: nat, numeral: string)
    requires from + |numeral| < |s| && s[from + |numeral|] == ';' && s[from..from + |numeral|] == numeral && numeral != ""
    requires forall i :: 0 <= i < |numeral| ==> s[from + i] == numeral[i] && IsAlnum(numeral[i])
    ensures forall hash, hex :: MatchRun(s, from, hash, hex)
              == Some(EntityMatch(hash, hex, numeral, ';', from + |numeral| + 1))
  {
    forall i | from <= i < from + |numeral| ensures IsAlnum(s[i]) {
      assert s[from + (i - from)] == numeral[i - from];
    }
    RunIs(s, from, |numeral|);
  }

  lemma {:induction false} PiecesRead(ps: seq<Piece>, mark: char)
    requires PiecesOk(ps, mark)
    ensures Unescape(Raw(ps)) == Some(Value(ps))
  {
    if ps != [] {
      PieceRead(ps[0], mark, Raw(ps[1..]));
      PiecesRead(ps[1..], mark);
    }
  }

  lemma PieceFree(p: Piece, mark: char)
    requires PieceOk(p, mark) && mark in "<'\""
    ensures mark !in p.text && p.text != ""
  {
    if !(p.text == [p.value]) && !IsNamed(p) {
      var numeral, n :| IsReference(p, numeral, n);
      NumeralAlnum(numeral, if p.text == "&#" + numeral + ";" then 10 else 16, n);
    }
  }

  lemma {:induction false} PiecesFree(ps: seq<Piece>, mark: char)
    requires PiecesOk(ps, mark) && mark in "<'\""
    ensures mark !in Raw(ps) && (ps != [] ==> Raw(ps) != "")
  {
    if ps != [] {
      PieceFree(ps[0], mark);
      PiecesFree(ps[1..], mark);
    }
  }

  lemma {:induction false} PiecesAppend(a: seq<Piece>, b: seq<Piece>)
    ensures Raw(a + b) == Raw(a) + Raw(b) && Value(a + b) == Value(a) + Value(b)
  {
    if a == [] {
      assert a + b == b;
    } else {
      assert (a + b)[0] == a[0] && (a + b)[1..] == a[1..] + b;
      PiecesAppend(a[1..], b);
      AppendAssociates(a[0].text, Raw(a[1..]), Raw(b));
      AppendAssociates([a[0].value], Value(a[1..]), Value(b));
    }
  }

  // --------------------------------------------------------------------- tokens

  lemma {:induction false} NameRead(pre: string, mid: string, c: char, rest: string)
    requires AllName(pre) && AllName(mid) && pre + mid != "" && !NameChar(c)
    ensures ParseNodeName(pre, mid + [c] + rest) == Success(Token(pre + mid, c, rest))
    decreases |mid|
  {
    var s := mid + [c] + rest;
    if mid == "" {
      assert s[0] == c && s[1..] == rest;
      assert (pre + [c])[|pre|] == c;
      assert pre + mid == pre;
    } else {
      assert s[0] == mid[0] && s[1..] == mid[1..] + [c] + rest;
      assert pre + [mid[0]] + mid[1..] == pre + mid;
      NameRead(pre + [mid[0]], mid[1..], c, rest);
    }
  }

  /** The name after its first character has been read. */
  lemma NameReadFrom(name: string, c: char, rest: string)
    requires AllName(name) && name != "" && !NameChar(c)
    ensures ParseNodeName([name[0]], name[1..] + [c] + rest) == Success(Token(name, c, rest))
  {
    assert [name[0]] + name[1..] == name;
    NameRead([name[0]], name[1..], c, rest);
  }

  /** The terminators in use end in a character that occurs nowhere else in them. */
  ghost predicate IsTerminator(end: string) {
    end == "-->" || end == "]]>" || end == "?>" || end == "\"" || end == "'" || end == ">"
  }

  lemma {:induction false} UntilRead(pre: string, mid: string, end: string, rest: string)
    requires IsTerminator(end) && !Occurs(end, pre + mid)
    ensures ParseUntil(pre, mid + end + rest, end) == Success(Token(pre + mid, end[|end| - 1], rest))
    decreases |mid|
  {
    if mid == "" {
      assert mid + end + rest == end + rest && pre + mid == pre;
      EndRead(pre, end, |end|, rest);
      assert pre + end[..|end| - |end|] == pre && end[|end| - |end|..] == end;
    } else {
      var s := mid + end + rest;
      var pre' := pre + [mid[0]];
      assert s[0] == mid[0] && s[1..] == mid[1..] + end + rest;
      assert pre' + mid[1..] == pre + mid;
      NotEnded(pre', mid[1..], end);
      UntilRead(pre', mid[1..], end, rest);
    }
  }

  lemma NotEnded(a: string, b: string, end: string)
    requires !Occurs(end, a + b)
    ensures !EndsWith(a, end)
  {
    if EndsWith(a, end) {
      var i := |a| - |end|;
      assert i + |end| <= |a + b| && (a + b)[i..i + |end|] == end by {
        assert (a + b)[i..i + |end|] == a[i..];
      }
      assert OccursAt(end, a + b, i);
    }
  }

  /** The last `k` characters of the terminator: only the very last one ends the token. */
  lemma {:induction false} EndRead(pre: string, end: string, k: nat, rest: string)
    requires IsTerminator(end) && 0 < k <= |end|
    ensures ParseUntil(pre + end[..|end| - k], end[|end| - k..] + rest, end)
         == Success(Token(pre, end[|end| - 1], rest))
    decreases k
  {
    var i := |end| - k;
    var str, s := pre + end[..i], end[i..] + rest;
    assert s[0] == end[i] && s[1..] == end[i + 1..] + rest;
    assert str + [s[0]] == pre + end[..i + 1];
    if k == 1 {
      assert pre + end[..i + 1] == pre + end;
      assert (pre + end)[|pre + end| - |end|..] == end && (pre + end)[..|pre + end| - |end|] == pre;
      assert s[1..] == rest;
    } else {
      assert s[0] != end[|end| - 1];
      EndRead(pre, end, k - 1, rest);
    }
  }

  lemma UntilReadAll(data: string, end: string, rest: string)
    requires IsTerminator(end) && !Occurs(end, data)
    ensures ParseUntil("", data + end + rest, end) == Success(Token(data, end[|end| - 1], rest))
  {
    AppendNothing(data);
    UntilRead("", data, end, rest);
  }

  // ----------------------------------------------------------------- attributes

  lemma {:induction false} SetNewAttribute(attributes: seq<Attr>, a: Attr)
    requires forall i :: 0 <= i < |attributes| ==> attributes[i].name != a.name
    ensures SetAttribute(attributes, a) == attributes + [a]
  {
    if attributes != [] {
      SetNewAttribute(attributes[1..], a);
    }
  }

  lemma TopOperations(base: seq<Open>, top: Open, a: Attr, n: Node)
    ensures SetTopAttribute(base + [top], a) == base + [top.(attributes := SetAttribute(top.attributes, a))]
    ensures AppendTop(base + [top], n) == base + [top.(childNodes := top.childNodes + [n])]
  {
  }

  lemma {:induction false} SpacesSkipped(space: string, c: char, rest: string)
    requires AllSpace(space) && !IsSpace(c)
    ensures ParseWhitespace(space + ([c] + rest)) == Success(Token("", c, rest))
    decreases |space|
  {
    var s := space + ([c] + rest);
    if space == "" {
      assert s[0] == c && s[1..] == rest;
    } else {
      assert s[0] == space[0] && s[1..] == space[1..] + ([c] + rest);
      SpacesSkipped(space[1..], c, rest);
    }
  }

  lemma OneCharacter(mark: char, s: string)
    requires mark !in s
    ensures !Occurs([mark], s)
  {
    forall i: nat ensures !OccursAt([mark], s, i) {
      if i < |s| {
        assert s[i..i + 1][0] == s[i];
      }
    }
  }

  /** The `=`, with or without white space before it. */
  lemma EqualsRead(before: string, tail: string)
    requires AllSpace(before)
    ensures var s := before + ("=" + tail); ParseEquals(s[0], s[1..]) == Success(tail)
  {
    var s := before + ("=" + tail);
    assert "=" == ['='];
    if before == "" {
      assert s[0] == '=' && s[1..] == tail;
    } else {
      assert s[0] == before[0] && s[1..] == before[1..] + (['='] + tail);
      assert s[0] != '=';
      SpacesSkipped(before[1..], '=', tail);
    }
  }

  /** The value in either kind of quotes, with or without white space before it. */
  lemma ValueRead(path: seq<Open>, s: Setting, rest: string)
    requires path != [] && SettingOk(s)
    ensures ParseValue(path, s.name, s.after + ([s.quote] + (Raw(s.value) + [s.quote] + rest)))
         == Success(Progress(SetTopAttribute(path, Attr(s.name, Value(s.value))), rest))
  {
    var raw := Raw(s.value);
    SpacesSkipped(s.after, s.quote, raw + [s.quote] + rest);
    PiecesFree(s.value, s.quote);
    OneCharacter(s.quote, raw);
    UntilReadAll(raw, [s.quote], rest);
    PiecesRead(s.value, s.quote);
  }

  lemma SettingSplits(s: Setting, rest: string)
    requires s.name != ""
    ensures SettingText(s) != "" && SettingText(s)[0] == s.name[0]
    ensures SettingText(s)[1..] + rest
         == s.name[1..] + (s.before + ("=" + (s.after + ([s.quote] + (Raw(s.value) + [s.quote] + rest)))))
  {
  }

  lemma NameEnds(name: string, more: string)
    requires AllName(name) && name != "" && more != "" && !NameChar(more[0])
    ensures ParseNodeName([name[0]], name[1..] + more) == Success(Token(name, more[0], more[1..]))
  {
    NameReadFrom(name, more[0], more[1..]);
    assert name[1..] + [more[0]] + more[1..] == name[1..] + more;
  }

  /** One attribute is read into the element on top of the path. */
  lemma AttributeRead(s: Setting, rest: string, path: seq<Open>)
    requires path != [] && SettingOk(s)
    ensures ParseAttribute(s.name[0], Progress(path, SettingText(s)[1..] + rest))
         == Success(Progress(SetTopAttribute(path, Attr(s.name, Value(s.value))), rest))
  {
    var tail := s.after + ([s.quote] + (Raw(s.value) + [s.quote] + rest));
    var more := s.before + ("=" + tail);
    SettingSplits(s, rest);
    assert more[0] == if s.before == "" then '=' else s.before[0];
    NameEnds(s.name, more);
    EqualsRead(s.before, tail);
    ValueRead(path, s, rest);
    hide ParseValue;
    hide ParseEquals;
    hide SettingText;
  }

  lemma NameCharIsNoMark(c: char)
    requires NameChar(c)
    ensures !IsSpace(c) && c != '>' && c != '/' && c != '!' && c != '?' && c != '<'
  {
  }

  lemma AttributeStep(path: seq<Open>, s: string, c: char, more: string, path': seq<Open>, tail: string)
    requires |path| > 1 && c != '>' && c != '/'
    requires ParseWhitespace(s) == Success(Token("", c, more))
    requires ParseAttribute(c, Progress(path, more)) == Success(Progress(path', tail))
    ensures |path'| == |path| && ParseAttributes(Progress(path, s)) == ParseAttributes(Progress(path', tail))
  {
  }

  lemma SettingStarts(s: Setting, tail: string)
    requires SettingOk(s)
    ensures s.name != "" && SettingText(s) != "" && AllSpace(s.space)
    ensures !IsSpace(s.name[0]) && s.name[0] != '>' && s.name[0] != '/'
    ensures SettingText(s) + tail == [s.name[0]] + (SettingText(s)[1..] + tail)
  {
    SettingSplits(s, tail);
    NameCharIsNoMark(s.name[0]);
    hide SettingText;
  }

  /** White space, one attribute, and whatever comes after it. */
  lemma OneMoreAttribute(s: Setting, tail: string, path: seq<Open>)
    requires |path| > 1 && SettingOk(s)
    ensures ParseAttributes(Progress(path, s.space + (SettingText(s) + tail)))
         == ParseAttributes(Progress(SetTopAttribute(path, Attr(s.name, Value(s.value))), tail))
  {
    hide *;
    SettingStarts(s, tail);
    var c, more := s.name[0], SettingText(s)[1..] + tail;
    AttributeRead(s, tail, path);
    SpacesSkipped(s.space, c, more);
    AttributeStep(path, s.space + (SettingText(s) + tail), c, more, SetTopAttribute(path, Attr(s.name, Value(s.value))), tail);
  }

  lemma MoveOne<T>(before: seq<T>, after: seq<T>)
    requires after != []
    ensures before + after == (before + [after[0]]) + after[1..]
  {
  }

  /** The attribute loop reads all attributes and stops at the end of the tag. */
  lemma {:induction false} AttributesRead(base: seq<Open>, name: string, before: seq<Attr>, settings: seq<Setting>, end: string)
    requires base != [] && SettingsOk(settings)
    requires forall i, j :: 0 <= i < |before| && 0 <= j < |settings| ==> before[i].name != settings[j].name
    ensures ParseAttributes(Progress(base + [Open(name, before, [])], SettingsText(settings) + end))
         == ParseAttributes(Progress(base + [Open(name, before + Attributes(settings), [])], end))
    decreases |settings|
  {
    if settings == [] {
      AppendNothing(before);
      AppendNothing(end);
    } else {
      var s, a := settings[0], Attr(settings[0].name, Value(settings[0].value));
      var tail := SettingsText(settings[1..]) + end;
      OneMoreAttribute(s, tail, base + [Open(name, before, [])]);
      SetNewAttribute(before, a);
      TopOperations(base, Open(name, before, []), a, Text(""));
      AppendAssociates(s.space, SettingText(s) + SettingsText(settings[1..]), end);
      AppendAssociates(SettingText(s), SettingsText(settings[1..]), end);
      AttributesRead(base, name, before + [a], settings[1..], end);
      AppendAssociates(before, [a], Attributes(settings[1..]));
    }
  }

  // ---------------------------------------------------------------------- tags

  /** The main loop with nothing collected. */
  function Run(path: seq<Open>, s: string): Result<seq<Open>, Error>
    requires path != []
  {
    ParseChildNodes(Progress(path, s), "")
  }

  /** After `<`, a node is parsed and the loop goes on. */
  lemma RunTag(path: seq<Open>, s: string, path': seq<Open>, rest: string)
    requires path != [] && path' != []
    requires s != "" && s[0] == '<' && ParseNode(Progress(path, s[1..])) == Success(Progress(path', rest))
    ensures Run(path, s) == Run(path', rest)
  {
  }

  lemma PopsTo(path: seq<Open>, top: Open)
    requires path != []
    ensures Pop(path + [top]) == AppendTop(path, Element(top.name, top.attributes, top.childNodes))
  {
    assert (path + [top])[..|path|] == path;
  }

  /** The end of a start tag, once the attributes have been read. */
  lemma TagEnds(path: seq<Open>, top: Open, space: string, within: bool, rest: string)
    requires path != [] && AllSpace(space)
    ensures ParseAttributes(Progress(path + [top], space + ((if within then "/>" else ">") + rest)))
         == Success(Progress(if within then AppendTop(path, Element(top.name, top.attributes, top.childNodes))
                             else path + [top], rest))
  {
    if within {
      var more := ">" + rest;
      assert "/>" + rest == ['/'] + more;
      assert more[0] == '>' && more[1..] == rest;
      SpacesSkipped(space, '/', more);
      PopsTo(path, top);
    } else {
      assert ">" + rest == ['>'] + rest;
      SpacesSkipped(space, '>', rest);
    }
  }

  /** The path after a start tag. */
  function Started(path: seq<Open>, name: string, attributes: seq<Attr>, within: bool): (r: seq<Open>)
    requires path != []
    ensures r != []
  {
    if within then AppendTop(path, Element(name, attributes, [])) else path + [Open(name, attributes, [])]
  }

  /** What follows the name decides how the tag goes on. */
  lemma TagTail(path: seq<Open>, name: string, settings: seq<Setting>, space: string, within: bool, rest: string)
    requires path != [] && SettingsOk(settings) && AllSpace(space)
    ensures ParseAttributes(Progress(path + [Open(name, [], [])], SettingsText(settings) + (space + ((if within then "/>" else ">") + rest))))
         == Success(Progress(Started(path, name, Attributes(settings), within), rest))
  {
    var end := space + ((if within then "/>" else ">") + rest);
    AttributesRead(path, name, [], settings, end);
    assert [] + Attributes(settings) == Attributes(settings);
    TagEnds(path, Open(name, Attributes(settings), []), space, within, rest);
  }

  lemma FirstOfTail(settings: seq<Setting>, space: string, end: string)
    requires SettingsOk(settings) && AllSpace(space) && end != ""
    ensures var more := SettingsText(settings) + (space + end);
            && more != "" && (if settings == [] && space == "" then more == end else IsSpace(more[0]))
  {
    if settings != [] {
      assert SettingOk(settings[0]);
    }
  }

  lemma SkipFirst(s: string, path: seq<Open>)
    requires |path| > 1 && s != "" && IsSpace(s[0])
    ensures ParseAttributes(Progress(path, s)) == ParseAttributes(Progress(path, s[1..]))
  {
    assert ParseWhitespace(s) == ParseWhitespace(s[1..]);
  }

  lemma SpaceIsNoMark(c: char)
    requires IsSpace(c)
    ensures !NameChar(c) && c != '>' && c != '/'
  {
  }

  /** An open tag pushes its element; a tag that closes itself appends it. */
  lemma StartTagRead(path: seq<Open>, name: string, settings: seq<Setting>, space: string, within: bool, rest: string)
    requires path != [] && PlainName(name) && SettingsOk(settings) && AllSpace(space)
    ensures Run(path, StartText(name, settings, space) + ((if within then "/>" else ">") + rest))
         == Run(Started(path, name, Attributes(settings), within), rest)
  {
    var end := (if within then "/>" else ">") + rest;
    var more := SettingsText(settings) + (space + end);
    var after := Started(path, name, Attributes(settings), within);
    FirstOfTail(settings, space, end);
    if IsSpace(more[0]) {
      SpaceIsNoMark(more[0]);
      TagTail(path, name, settings, space, within, rest);
      SkipFirst(more, path + [Open(name, [], [])]);
    } else {
      TagCloses(path, name, within, rest);
    }
    NameEnds(name, more);
    ElementParts(path, name, more, after, rest);
    StartSplits(name, settings, space, end);
    RunTag(path, "<" + (name + more), after, rest);
  }

  lemma StartSplits(name: string, settings: seq<Setting>, space: string, end: string)
    ensures StartText(name, settings, space) + end == "<" + (name + (SettingsText(settings) + (space + end)))
  {
  }

  lemma TagCloses(path: seq<Open>, name: string, within: bool, rest: string)
    requires path != []
    ensures var more := (if within then "/>" else ">") + rest;
            if within then
              && more[0] == '/'
              && ParseAutoclose(Progress(path + [Open(name, [], [])], more[1..])) == Success(Progress(Started(path, name, [], true), rest))
            else more[0] == '>' && more[1..] == rest
  {
    var more := (if within then "/>" else ">") + rest;
    if within {
      assert more[1..] == ">" + rest && (">" + rest)[1..] == rest;
      PopsTo(path, Open(name, [], []));
    }
  }

  lemma ElementParts(path: seq<Open>, name: string, more: string, after: seq<Open>, rest: string)
    requires path != [] && PlainName(name) && more != "" && after != []
    requires ParseNodeName([name[0]], name[1..] + more) == Success(Token(name, more[0], more[1..]))
    requires var open := path + [Open(name, [], [])];
             if more[0] == '>' then after == open && rest == more[1..]
             else if more[0] == '/' then ParseAutoclose(Progress(open, more[1..])) == Success(Progress(after, rest))
             else ParseAttributes(Progress(open, more[1..])) == Success(Progress(after, rest))
    ensures var s := "<" + (name + more); ParseNode(Progress(path, s[1..])) == Success(Progress(after, rest))
  {
    hide ParseNode;
    hide ParseNodeName;
    hide ParseAutoclose;
    hide ParseAttributes;
    var s := "<" + (name + more);
    assert s[1..] == [name[0]] + (name[1..] + more);
    NameCharIsNoMark(name[0]);
    ElementStarts(path, name[0], name[1..] + more);
  }

  lemma ElementStarts(path: seq<Open>, c: char, rest: string)
    requires path != [] && c != '!' && c != '?' && c != '/'
    ensures ParseNode(Progress(path, [c] + rest)) == ParseElement(c, Progress(path, rest))
  {
    assert ([c] + rest)[1..] == rest;
  }

  /** What the parser makes of an end tag with this name. */
  function Closed(path: seq<Open>, name: string, rest: string): Result<seq<Open>, Error>
    requires path != []
  {
    if |path| > 1 && path[|path| - 1].name == name then Run(Pop(path), rest) else Failure(Close)
  }

  /** An end tag pops its element, which then stands complete in its parent; with any other name, and
      outside all elements, it is refused. */
  lemma EndTagRead(path: seq<Open>, name: string, ending: Ending, rest: string)
    requires path != [] && PlainName(name) && ending.Tag? && EndingOk(ending, false)
    ensures Run(path, EndText(name, ending) + rest) == Closed(path, name, rest)
  {
    var more := ending.tail + (">" + rest);
    var s := EndText(name, ending) + rest;
    var start := ending.space + ([name[0]] + (name[1..] + more));
    assert s == ['<'] + (['/'] + start);
    NameCharIsNoMark(name[0]);
    SpacesSkipped(ending.space, name[0], name[1..] + more);
    assert more[0] == if ending.tail == "" then '>' else ending.tail[0];
    NameEnds(name, more);
    TailRead(ending.tail, rest);
    EndTagParts(path, name, start, more, rest);
    assert s[1..] == ['/'] + start;
  }

  /** The characters up to the end of the tag. */
  lemma TailRead(tail: string, rest: string)
    requires '>' !in tail
    ensures var more := tail + (">" + rest);
            if tail == "" then more[0] == '>' && more[1..] == rest
            else more[0] != '>' && ParseUntil("", more[1..], ">") == Success(Token(tail[1..], '>', rest))
  {
    var more := tail + (">" + rest);
    if tail == "" {
      assert more == ['>'] + rest;
    } else {
      assert '>' !in tail[1..];
      OneCharacter('>', tail[1..]);
      assert [ '>' ] == ">";
      UntilReadAll(tail[1..], ">", rest);
      assert more[1..] == tail[1..] + ">" + rest;
    }
  }

  lemma EndTagParts(path: seq<Open>, name: string, start: string, more: string, rest: string)
    requires path != [] && PlainName(name) && more != ""
    requires ParseWhitespace(start) == Success(Token("", name[0], name[1..] + more))
    requires ParseNodeName([name[0]], name[1..] + more) == Success(Token(name, more[0], more[1..]))
    requires if more[0] == '>' then more[1..] == rest else exists t :: ParseUntil("", more[1..], ">") == Success(Token(t, '>', rest))
    ensures var r := ParseNode(Progress(path, ['/'] + start));
            if |path| > 1 && path[|path| - 1].name == name then r == Success(Progress(Pop(path), rest)) else r == Failure(Close)
  {
    var s := ['/'] + start;
    assert s[0] == '/' && s[1..] == start;
    assert ParseNode(Progress(path, s)) == ParseElementEnd(Progress(path, start));
    hide ParseNode;
    hide ParseUntil;
  }

  // --------------------------------------------------------------- other nodes

  lemma {:induction false} TextCollected(path: seq<Open>, pre: string, mid: string, rest: string)
    requires path != [] && '<' !in mid
    ensures ParseChildNodes(Progress(path, mid + rest), pre) == ParseChildNodes(Progress(path, rest), pre + mid)
    decreases |mid|
  {
    if mid == "" {
      AppendNothing(rest);
      AppendNothing(pre);
    } else {
      var s := mid + rest;
      assert s[0] == mid[0] && s[1..] == mid[1..] + rest;
      TextCollected(path, pre + [mid[0]], mid[1..], rest);
      assert pre + [mid[0]] + mid[1..] == pre + mid;
    }
  }

  /** A tag follows, or nothing. */
  ghost predicate TagOrEnd(rest: string) {
    rest == "" || rest[0] == '<'
  }

  /** Text before a tag or at the end becomes a text node; at document level it disappears. */
  lemma TextRead(path: seq<Open>, ps: seq<Piece>, rest: string)
    requires path != [] && ps != [] && PiecesOk(ps, '<') && TagOrEnd(rest)
    ensures Run(path, Raw(ps) + rest) == Run(if |path| == 1 then path else AppendTop(path, Text(Value(ps))), rest)
  {
    var after := if |path| == 1 then path else AppendTop(path, Text(Value(ps)));
    PiecesFree(ps, '<');
    TextCollected(path, "", Raw(ps), rest);
    AppendNothing(Raw(ps));
    PiecesRead(ps, '<');
    assert Flush(path, Raw(ps)) == Success(after);
    assert Flush(after, "") == Success(after);
  }

  lemma DataParts(path: seq<Open>, comment: bool, data: string, rest: string)
    requires path != [] && !Occurs(if comment then "-->" else "]]>", data)
    ensures var end := if comment then "-->" else "]]>";
            ParseData(Progress(path, data + end + rest), end)
            == Success(Progress(AppendTop(path, if comment then Comment(data) else CData(data)), rest))
  {
    UntilReadAll(data, if comment then "-->" else "]]>", rest);
  }

  lemma RemarkRead(path: seq<Open>, data: string, rest: string)
    requires path != [] && !Occurs("-->", data)
    ensures Run(path, MarkupText(Remark(data)) + rest) == Run(AppendTop(path, Comment(data)), rest)
  {
    var body := data + "-->" + rest;
    var s := MarkupText(Remark(data)) + rest;
    DataParts(path, true, data, rest);
    var two := "--" + body;
    assert s == ['<'] + (['!'] + two);
    assert Chars(two, 2) == "--" && two[2..] == body;
    assert s[1..] == ['!'] + two && (['!'] + two)[1..] == two;
    hide ParseData;
    RunTag(path, s, AppendTop(path, Comment(data)), rest);
  }

  /** A CDATA section, its keyword in any case. */
  lemma SectionRead(path: seq<Open>, keyword: string, data: string, rest: string)
    requires path != [] && UpperCase(keyword) == "CDATA" && !Occurs("]]>", data)
    ensures Run(path, MarkupText(Section(keyword, data)) + rest) == Run(AppendTop(path, CData(data)), rest)
  {
    var body := data + "]]>" + rest;
    var s := MarkupText(Section(keyword, data)) + rest;
    DataParts(path, false, data, rest);
    SectionSplits(keyword, data, rest);
    KeywordUpper(keyword);
    var start := "[" + (keyword + ("[" + body));
    assert Chars(start, 2) == ['[', keyword[0]] && start[2..] == keyword[1..] + ("[" + body);
    assert Chars(start[2..], 5) == keyword[1..] + "[" && start[2..][5..] == body;
    assert (['!'] + start)[1..] == start;
    hide ParseData;
    hide UpperCase;
    SectionParts(path, start, body);
    RunTag(path, s, AppendTop(path, CData(data)), rest);
  }

  lemma SectionSplits(keyword: string, data: string, rest: string)
    ensures var s := MarkupText(Section(keyword, data)) + rest;
            s != "" && s[0] == '<' && s[1..] == ['!'] + ("[" + (keyword + ("[" + (data + "]]>" + rest))))
  {
  }

  lemma KeywordUpper(keyword: string)
    requires UpperCase(keyword) == "CDATA"
    ensures |keyword| == 5 && UpperCase(['[', keyword[0]]) == "[C" && UpperCase(keyword[1..] + "[") == "DATA["
    ensures keyword[0] != '-'
  {
    assert |keyword| == |"CDATA"|;
    forall i | 0 <= i < 5 ensures Upper(keyword[i]) == "CDATA"[i] {
      assert UpperCase(keyword)[i] == Upper(keyword[i]);
    }
  }

  lemma SectionParts(path: seq<Open>, start: string, body: string)
    requires path != [] && |start| >= 7 && start[0] == '[' && UpperCase(Chars(start, 2)) == "[C"
    requires UpperCase(Chars(start[2..], 5)) == "DATA[" && start[2..][5..] == body
    ensures ParseNode(Progress(path, ['!'] + start)) == ParseData(Progress(path, body), "]]>")
  {
    assert (['!'] + start)[1..] == start;
    assert Chars(start, 2)[0] == '[';
    hide ParseData;
    hide UpperCase;
  }

  /** A processing instruction becomes a node; an XML declaration leaves no trace at document level and is
      refused elsewhere. */
  lemma ProcessRead(path: seq<Open>, target: string, separator: char, data: string, rest: string)
    requires path != [] && ProcessOk(target, separator, data)
    ensures Run(path, MarkupText(Process(target, separator, data)) + rest)
         == if UpperCase(target) != "XML" then Run(AppendTop(path, Instruction(target, data)), rest)
            else if |path| == 1 then Run(path, rest) else Failure(Xml)
  {
    var named := target + [separator] + (data + "?>" + rest);
    var s := MarkupText(Process(target, separator, data)) + rest;
    assert s == ['<'] + (['?'] + named);
    assert s[1..] == ['?'] + named && (['?'] + named)[1..] == named;
    InstructionParts(path, target, separator, data, rest);
    hide UpperCase;
    hide ParseInstruction;
    assert ParseNode(Progress(path, s[1..])) == ParseInstruction(Progress(path, named));
    hide ParseNode;
  }

  lemma InstructionParts(path: seq<Open>, target: string, separator: char, data: string, rest: string)
    requires path != [] && ProcessOk(target, separator, data)
    ensures ParseInstruction(Progress(path, target + [separator] + (data + "?>" + rest)))
         == if UpperCase(target) != "XML" then Success(Progress(AppendTop(path, Instruction(target, data)), rest))
            else if |path| == 1 then Success(Progress(path, rest)) else Failure(Xml)
  {
    SpaceIsNoMark(separator);
    NameRead("", target, separator, data + "?>" + rest);
    AppendNothing(target);
    UntilReadAll(data, "?>", rest);
    hide UpperCase;
  }

  function AppendAll(path: seq<Open>, nodes: seq<Node>): (r: seq<Open>)
    requires path != []
    ensures |r| == |path|
    decreases |nodes|
  {
    if nodes == [] then path else AppendAll(AppendTop(path, nodes[0]), nodes[1..])
  }

  lemma {:induction false} AppendAllTo(path: seq<Open>, top: Open, nodes: seq<Node>)
    ensures AppendAll(path + [top], nodes) == path + [top.(childNodes := top.childNodes + nodes)]
    decreases |nodes|
  {
    if nodes == [] {
      AppendNothing(top.childNodes);
    } else {
      TopOperations(path, top, Attr("", ""), nodes[0]);
      AppendAllTo(path, top.(childNodes := top.childNodes + [nodes[0]]), nodes[1..]);
      assert top.childNodes + [nodes[0]] + nodes[1..] == top.childNodes + nodes;
    }
  }

  // ------------------------------------------------------------- main induction

  lemma MarkupOpens(m: Markup)
    requires !m.Words?
    ensures MarkupText(m) != "" && MarkupText(m)[0] == '<'
  {
  }

  lemma ElemSplits(name: string, settings: seq<Setting>, space: string, content: seq<Markup>, ending: Ending, rest: string)
    ensures MarkupText(Elem(name, settings, space, content, ending)) + rest
         == StartText(name, settings, space)
            + ((if ending.Within? then "/>" else ">")
               + if ending.Within? then rest else ContentText(content) + (EndText(name, ending) + rest))
  {
    hide StartText;
    hide EndText;
    hide ContentText;
    if ending.Tag? {
      AppendAssociates(">", ContentText(content) + EndText(name, ending), rest);
      AppendAssociates(ContentText(content), EndText(name, ending), rest);
    }
  }

  /** Reading a node's markup, whatever follows it, appends its normal form to the element on top of the
      path and goes on with what follows. */
  lemma {:induction false} NodeRead(path: seq<Open>, m: Markup, rest: string)
    requires path != [] && MarkupOk(m) && !m.Words?
    ensures Run(path, MarkupText(m) + rest) == Run(AppendTop(path, NormalForm(Meaning(m))), rest)
    decreases m, 1
  {
    match m
    case Elem(name, settings, space, content, ending) =>
      ElemSplits(name, settings, space, content, ending, rest);
      if ending.Within? {
        StartTagRead(path, name, settings, space, true, rest);
      } else {
        ElementRead(path, m, rest);
      }
    case Section(keyword, data) => SectionRead(path, keyword, data, rest);
    case Remark(data) => RemarkRead(path, data, rest);
    case Process(target, separator, data) => ProcessRead(path, target, separator, data, rest);
  }

  lemma {:induction false} ElementRead(path: seq<Open>, m: Markup, rest: string)
    requires path != [] && MarkupOk(m) && m.Elem? && m.ending.Tag?
    ensures Run(path, MarkupText(m) + rest) == Run(AppendTop(path, NormalForm(Meaning(m))), rest)
    decreases m, 0
  {
    var name, attributes := m.name, Attributes(m.settings);
    var open, close := Open(name, attributes, []), EndText(name, m.ending) + rest;
    var nodes := Merged("", NormalForms(Meanings(m.content)));
    ElemSplits(name, m.settings, m.space, m.content, m.ending, rest);
    hide MarkupText;
    StartTagRead(path, name, m.settings, m.space, false, ContentText(m.content) + close);
    assert close[0] == '<';
    ContentRead(path + [open], [], m.content, close);
    hide EndText;
    AppendNothing(ContentText(m.content) + close);
    AppendAllTo(path, open, nodes);
    AppendNothing(nodes);
    EndTagRead(path + [Open(name, attributes, nodes)], name, m.ending, rest);
    PopsTo(path, Open(name, attributes, nodes));
  }

  /** The content of an element, after text that has been read but not yet made a node. */
  lemma {:induction false} ContentRead(path: seq<Open>, pending: seq<Piece>, ms: seq<Markup>, rest: string)
    requires |path| > 1 && ContentOk(ms) && PiecesOk(pending, '<') && TagOrEnd(rest)
    ensures Run(path, Raw(pending) + (ContentText(ms) + rest))
         == Run(AppendAll(path, Merged(Value(pending), NormalForms(Meanings(ms)))), rest)
    decreases ms, 2
  {
    if ms == [] {
      AppendNothing(rest);
      PendingRead(path, pending, rest);
      AppendNothing(TextIf(Value(pending)));
    } else {
      var tail := ContentText(ms[1..]) + rest;
      AppendAssociates(MarkupText(ms[0]), ContentText(ms[1..]), rest);
      var forms := NormalForms(Meanings(ms));
      assert forms[0] == NormalForm(Meaning(ms[0])) && forms[1..] == NormalForms(Meanings(ms[1..]));
      if ms[0].Words? {
        PiecesAppend(pending, ms[0].pieces);
        AppendAssociates(Raw(pending), Raw(ms[0].pieces), tail);
        ContentRead(path, pending + ms[0].pieces, ms[1..], rest);
      } else {
        MarkupOpens(ms[0]);
        PendingRead(path, pending, MarkupText(ms[0]) + tail);
        var p := AppendAll(path, TextIf(Value(pending)));
        NodeRead(p, ms[0], tail);
        AppendNothing(tail);
        ContentRead(AppendTop(p, forms[0]), [], ms[1..], rest);
        AppendParts(path, TextIf(Value(pending)), forms[0], Merged("", forms[1..]));
      }
    }
  }

  /** Text that is read before a tag becomes a node, if there is any. */
  lemma PendingRead(path: seq<Open>, pending: seq<Piece>, rest: string)
    requires |path| > 1 && PiecesOk(pending, '<') && TagOrEnd(rest)
    ensures |AppendAll(path, TextIf(Value(pending)))| == |path|
    ensures Run(path, Raw(pending) + rest) == Run(AppendAll(path, TextIf(Value(pending))), rest)
  {
    if pending == [] {
      AppendNothing(rest);
    } else {
      TextRead(path, pending, rest);
      var text := Text(Value(pending));
      assert [text][1..] == [];
      assert AppendAll(AppendTop(path, text), []) == AppendTop(path, text);
    }
  }

  lemma {:induction false} AppendParts(path: seq<Open>, a: seq<Node>, n: Node, b: seq<Node>)
    requires path != []
    ensures AppendAll(path, a) != []
    ensures AppendAll(path, a + [n] + b) == AppendAll(AppendTop(AppendAll(path, a), n), b)
    decreases |a|
  {
    if a == [] {
      AppendNothing([n] + b);
      AppendNothing([n]);
      assert ([n] + b)[0] == n && ([n] + b)[1..] == b;
    } else {
      var all := a + [n] + b;
      assert all[0] == a[0] && all[1..] == a[1..] + [n] + b;
      AppendParts(AppendTop(path, a[0]), a[1..], n, b);
    }
  }

  // ------------------------------------------------------------------- document

  /** The children of the document, after text that has been read. */
  lemma {:induction false} TopRead(path: seq<Open>, pending: seq<Piece>, ms: seq<Markup>)
    requires |path| == 1 && TopOk(ms) && PiecesOk(pending, '<')
    ensures Run(path, Raw(pending) + ContentText(ms)) == Success(AppendAll(path, NormalForms(TopMeanings(ms))))
    decreases |ms|
  {
    if ms == [] {
      DroppedRead(path, pending, "");
      assert Run(path, "") == Success(path);
    } else {
      var tail := ContentText(ms[1..]);
      AppendNothing(TopMeanings(ms[1..]));
      if ms[0].Words? {
        PiecesAppend(pending, ms[0].pieces);
        AppendAssociates(Raw(pending), Raw(ms[0].pieces), tail);
        TopRead(path, pending + ms[0].pieces, ms[1..]);
      } else {
        MarkupOpens(ms[0]);
        DroppedRead(path, pending, MarkupText(ms[0]) + tail);
        AppendNothing(tail);
        if IsDeclaration(ms[0]) {
          ProcessRead(path, ms[0].target, ms[0].separator, ms[0].data, tail);
          TopRead(path, [], ms[1..]);
        } else {
          var form := NormalForm(Meaning(ms[0]));
          NodeRead(path, ms[0], tail);
          TopRead(AppendTop(path, form), [], ms[1..]);
          FirstForm(Meaning(ms[0]), TopMeanings(ms[1..]));
        }
      }
    }
  }

  lemma FirstForm(n: Node, nodes: seq<Node>)
    ensures var forms := NormalForms([n] + nodes);
            forms != [] && forms[0] == NormalForm(n) && forms[1..] == NormalForms(nodes)
  {
    assert ([n] + nodes)[1..] == nodes;
  }

  lemma DroppedRead(path: seq<Open>, pending: seq<Piece>, rest: string)
    requires |path| == 1 && PiecesOk(pending, '<') && TagOrEnd(rest)
    ensures Run(path, Raw(pending) + rest) == Run(path, rest)
  {
    if pending == [] {
      AppendNothing(rest);
    } else {
      TextRead(path, pending, rest);
    }
  }

  /** Every markup is understood: parsing it gives the tree it stands for, in normal form. */
  lemma ParseReads(ms: seq<Markup>)
    requires TopOk(ms)
    ensures Parse(ContentText(ms)) == Success(NormalForms(TopMeanings(ms)))
  {
    var path, forms := [DOCUMENT], NormalForms(TopMeanings(ms));
    TopRead(path, [], ms);
    AppendNothing(ContentText(ms));
    AppendAllTo([], DOCUMENT, forms);
    assert [] + [DOCUMENT] == path;
    AppendNothing(forms);
  }

  // -------------------------------------------------------------------- refusals

  /** An element whose end tag has another name is refused, whatever follows. */
  lemma WrongEndTag(name: string, settings: seq<Setting>, space: string, content: seq<Markup>, other: string, ending: Ending, rest: string)
    requires PlainName(name) && SettingsOk(settings) && AllSpace(space) && ContentOk(content)
    requires PlainName(other) && other != name && ending.Tag? && EndingOk(ending, false)
    ensures Parse(StartText(name, settings, space) + (">" + (ContentText(content) + (EndText(other, ending) + rest))))
         == Failure(Close)
  {
    var path, open, close := [DOCUMENT], Open(name, Attributes(settings), []), EndText(other, ending) + rest;
    var nodes := Merged("", NormalForms(Meanings(content)));
    StartTagRead(path, name, settings, space, false, ContentText(content) + close);
    assert close[0] == '<';
    ContentRead(path + [open], [], content, close);
    hide EndText;
    hide StartText;
    AppendNothing(ContentText(content) + close);
    AppendAllTo(path, open, nodes);
    AppendNothing(nodes);
    EndTagRead(path + [open.(childNodes := nodes)], other, ending, rest);
  }

  /** An element without its end tag is refused at the end of the text. */
  lemma NoEndTag(name: string, settings: seq<Setting>, space: string, content: seq<Markup>)
    requires PlainName(name) && SettingsOk(settings) && AllSpace(space) && ContentOk(content)
    ensures Parse(StartText(name, settings, space) + (">" + ContentText(content))) == Failure(Eof)
  {
    var path, open := [DOCUMENT], Open(name, Attributes(settings), []);
    var nodes := Merged("", NormalForms(Meanings(content)));
    StartTagRead(path, name, settings, space, false, ContentText(content));
    AppendNothing(ContentText(content));
    ContentRead(path + [open], [], content, "");
    hide StartText;
    AppendAllTo(path, open, nodes);
    assert Run(path + [open.(childNodes := open.childNodes + nodes)], "") == Success(path + [open.(childNodes := open.childNodes + nodes)]);
  }

  /** What begins like a named reference, up to the first character that is neither letter nor digit: it is
      refused unless it is one of the five and ends in a semicolon. At the end of the text, and at the end of
      a line, a single letter or digit is taken as it stands. */
  lemma AmpersandRead(name: string, rest: string)
    requires (forall i :: 0 <= i < |name| ==> IsAlnum(name[i])) && (rest != "" ==> !IsAlnum(rest[0]))
    requires name == "" && rest != "" ==> rest[0] != '#'
    ensures var ends := rest == "" || IsLineEnd(rest[0]);
            Unescape("&" + (name + rest)) ==
              if name == "" || (ends && |name| == 1) then Prepend('&', Unescape(name + rest))
              else if !ends && rest[0] == ';' && IsFive(name) then Prepend(TheFive(name), Unescape(rest[1..]))
              else None
  {
    var s, n := "&" + (name + rest), |name|;
    if name == "" {
      NotAnyRun(s);
    } else {
      FirstIsAlnum(name, rest);
      if rest == "" {
        RunToEnd(s, 1, n);
      } else {
        RunIs(s, 1, n);
        assert s[1 + n] == rest[0];
      }
      assert s[1..1 + n] == name && s[1..] == name + rest;
      assert s[1..1 + n - 1] == name[..n - 1] && s[n] == name[n - 1];
      if rest != "" {
        assert s[n + 2..] == rest[1..];
      }
    }
  }

  lemma NotAnyRun(s: string)
    requires s != "" && s[0] == '&' && (|s| > 1 ==> !IsAlnum(s[1]) && s[1] != '#')
    ensures Unescape(s) == Prepend('&', Unescape(s[1..]))
  {
    assert AlnumRun(s, 1) == 0;
  }

  lemma FirstIsAlnum(name: string, rest: string)
    requires name != "" && forall i :: 0 <= i < |name| ==> IsAlnum(name[i])
    ensures var s := "&" + (name + rest);
            s[1] != '#' && forall i :: 1 <= i < 1 + |name| ==> s[i] == name[i - 1] && IsAlnum(s[i])
  {
    var s := "&" + (name + rest);
    assert s[1] == name[0];
  }

  lemma {:induction false} RunToEnd(s: string, from: nat, n: nat)
    requires from + n == |s| && forall i :: from <= i < |s| ==> IsAlnum(s[i])
    ensures AlnumRun(s, from) == n
    decreases n
  {
    if n > 0 {
      RunToEnd(s, from + 1, n - 1);
    }
  }

  predicate IsFive(name: string) {
    name in ["lt", "gt", "quot", "apos", "amp"]
  }

  function TheFive(name: string): char
    requires IsFive(name)
  {
    if name == "lt" then '<' else if name == "gt" then '>' else if name == "quot" then '"' else if name == "apos" then '\'' else '&'
  }

  /** Text with a bad reference is refused, wherever it stands. */
  lemma BadText(path: seq<Open>, raw: string, rest: string)
    requires path != [] && '<' !in raw && Unescape(raw) == None && TagOrEnd(rest)
    ensures Run(path, raw + rest) == Failure(Entity)
  {
    TextCollected(path, "", raw, rest);
    AppendNothing(raw);
    assert raw != "";
  }

  /** So is an attribute with a bad reference, without quotes, or without `=`. */
  lemma BadAttribute(path: seq<Open>, name: string, before: string, after: string, c: char, rest: string)
    requires path != [] && PlainName(name) && AllSpace(before) && AllSpace(after) && !IsSpace(c)
    ensures c != '=' && !(before == "" && NameChar(c)) ==>
              ParseAttribute(name[0], Progress(path, name[1..] + (before + ([c] + rest)))) == Failure(Generic)
    ensures c !in "'\"" ==>
              ParseAttribute(name[0], Progress(path, name[1..] + (before + ("=" + (after + ([c] + rest)))))) == Failure(Generic)
  {
    if c != '=' && !(before == "" && NameChar(c)) {
      var more := before + ([c] + rest);
      assert more[0] == if before == "" then c else before[0];
      NameEnds(name, more);
      if before != "" {
        SpaceIsNoMark(before[0]);
        assert more[1..] == before[1..] + ([c] + rest);
        SpacesSkipped(before[1..], c, rest);
      }
    }
    if c !in "'\"" {
      var tail := after + ([c] + rest);
      var more := before + ("=" + tail);
      assert more[0] == if before == "" then '=' else before[0];
      NameEnds(name, more);
      EqualsRead(before, tail);
      SpacesSkipped(after, c, rest);
      hide ParseEquals;
    }
  }

  lemma BadValue(path: seq<Open>, name: string, quote: char, raw: string, rest: string)
    requires path != [] && quote in "'\"" && quote !in raw && Unescape(raw) == None
    ensures ParseValue(path, name, [quote] + (raw + [quote] + rest)) == Failure(Entity)
  {
    AppendNothing([quote] + (raw + [quote] + rest));
    SpacesSkipped("", quote, raw + [quote] + rest);
    OneCharacter(quote, raw);
    UntilReadAll(raw, [quote], rest);
  }

  /** A declaration that is neither a comment nor a section is refused, a document type by its own error. */
  lemma BadDeclaration(path: seq<Open>, s: string)
    requires path != [] && !("--" <= s) && UpperCase(Chars(s, 7)) != "[CDATA["
    ensures ParseNode(Progress(path, "!" + s)) == Failure(if UpperCase(Chars(s, 7)) == "DOCTYPE" then Doctype else Generic)
  {
    var two := Chars(s, 2);
    var five := Chars(s[|two|..], 5);
    assert ("!" + s)[0] == '!' && ("!" + s)[1..] == s;
    assert UpperCase(Chars(s, 7)) == UpperCase(two) + UpperCase(five);
    var all := UpperCase(two) + UpperCase(five);
    assert |two| == 2 ==> all[..2] == UpperCase(two) && all[2..] == UpperCase(five);
    assert |two| < 2 ==> |all| < 2;
    assert "[CDATA["[..2] == "[C" && "[CDATA["[2..] == "DATA[" && "DOCTYPE"[..2] == "DO" && "DOCTYPE"[2..] == "CTYPE";
    hide UpperCase;
    hide ParseData;
  }
}
