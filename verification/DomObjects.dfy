/** The parser and serializer objects: loops over an index, a last character and a path of open
    elements, each proved to compute the functions of DomParser and DomTree. */
module DomObjects {
  import opened Basics
  import opened DomTree
  import P = DomParser
  import DomMarkup
  import opened DomNormal
  import opened DomRoundTrip
  import opened Characters

  type Error = P.Error

  class DOMParser {
    var source: string
    var index: int
    var lastChar: char
    var path: seq<P.Open>

    constructor ()
      ensures Valid()
    {
      source, index, lastChar, path := "", -1, '\0', [P.DOCUMENT];
    }

    ghost predicate Valid()
      reads this
    {
      -1 <= index < |source| && path != []
    }

    /** The source still to be read. */
    ghost function Rest(): string
      requires Valid()
      reads this
    {
      source[index + 1..]
    }

    ghost function State(): P.Progress
      requires Valid()
      reads this
    {
      P.Progress(path, Rest())
    }

    /** The token `t` has been read. */
    ghost predicate Reads(t: Result<P.Token, Error>, r: Result<string, Error>)
      requires Valid()
      reads this
    {
      match t
      case Failure(e) => r == Failure(e)
      case Success(token) => r == Success(token.text) && lastChar == token.last && Rest() == token.rest
    }

    /** The parser has reached the state `p`, or thrown. */
    ghost predicate Reaches(p: Result<P.Progress, Error>, thrown: Option<Error>)
      requires Valid()
      reads this
    {
      match p
      case Failure(e) => thrown == Some(e)
      case Success(state) => thrown == None && State() == state
    }

    method GetChar() returns (ch: Option<char>)
      requires Valid()
      modifies this`index, this`lastChar
      ensures Valid()
      ensures if old(Rest()) == "" then ch == None && Rest() == old(Rest()) && lastChar == old(lastChar)
              else ch == Some(old(Rest())[0]) && Rest() == old(Rest())[1..] && lastChar == ch.value
    {
      if index + 1 == |source| { return None; }
      index := index + 1;
      lastChar := source[index];
      return Some(lastChar);
    }

    method GetChars(amount: nat) returns (str: string)
      requires Valid()
      modifies this`index, this`lastChar
      ensures Valid() && str == P.Chars(old(Rest()), amount) && Rest() == old(Rest())[|str|..]
    {
      str := "";
      for i := 0 to amount
        invariant Valid()
        invariant str == P.Chars(old(Rest()), i) && Rest() == old(Rest())[|str|..]
      {
        var ch := GetChar();
        if ch.Some? { str := str + [ch.value]; }
      }
    }

    method ParseUntil(end: string) returns (r: Result<string, Error>)
      requires Valid() && end != ""
      modifies this`index, this`lastChar
      ensures Valid() && Reads(P.ParseUntil("", old(Rest()), end), r)
    {
      var str := "";
      var e := end[|end| - 1];
      while true
        invariant Valid()
        invariant P.ParseUntil(str, Rest(), end) == P.ParseUntil("", old(Rest()), end)
        decreases |Rest()|
      {
        var ch := GetChar();
        if ch == None { return Failure(P.Eof); }
        str := str + [ch.value];
        if ch.value == e && P.EndsWith(str, end) { break; }
      }
      return Success(str[..|str| - |end|]);
    }

    method ParseNodeName(initial: string) returns (r: Result<string, Error>)
      requires Valid() && (initial == "" || initial == [lastChar])
      modifies this`index, this`lastChar
      ensures Valid() && Reads(P.ParseNodeName(initial, old(Rest())), r)
    {
      var str := initial;
      while true
        invariant Valid() && (str == "" || str[|str| - 1] == lastChar)
        invariant P.ParseNodeName(str, Rest()) == P.ParseNodeName(initial, old(Rest()))
        decreases |Rest()|
      {
        if |str| > 0 && !P.AllName(str) {
          return Success(if |str| > 1 then str[..|str| - 1] else str);
        }
        var ch := GetChar();
        if ch == None { return Failure(P.Eof); }
        str := str + [ch.value];
      }
    }

    /** The first other character is in `lastChar`. */
    method ParseWhitespace() returns (r: Result<string, Error>)
      requires Valid()
      modifies this`index, this`lastChar
      ensures Valid() && Reads(P.ParseWhitespace(old(Rest())), r)
    {
      while true
        invariant Valid() && P.ParseWhitespace(Rest()) == P.ParseWhitespace(old(Rest()))
        decreases |Rest()|
      {
        var ch := GetChar();
        if ch == None { return Failure(P.Eof); }
        if !IsSpace(ch.value) { return Success(""); }
      }
    }

    method ParseQuoted(separator: char) returns (r: Result<string, Error>)
      requires Valid()
      modifies this`index, this`lastChar
      ensures Valid() && Reads(P.ParseQuoted(separator, old(Rest())), r)
    {
      if separator != '\'' && separator != '"' { return Failure(P.Generic); }
      r := ParseUntil([separator]);
    }

    /** `=` after a name, or the thrown error. */
    method ParseEquals() returns (thrown: Option<Error>)
      requires Valid()
      modifies this`index, this`lastChar
      ensures Valid()
      ensures match P.ParseEquals(old(lastChar), old(Rest()))
              case Failure(e) => thrown == Some(e)
              case Success(rest) => thrown == None && Rest() == rest
    {
      if lastChar != '=' {
        if !IsSpace(lastChar) { return Some(P.Generic); }
        var space := ParseWhitespace();
        if space.Failure? { return Some(space.error); }
        if lastChar != '=' { return Some(P.Generic); }
      }
      return None;
    }

    method ParseAttribute() returns (thrown: Option<Error>)
      requires Valid()
      modifies this`index, this`lastChar, this`path
      ensures Valid() && Reaches(P.ParseAttribute(old(lastChar), old(State())), thrown)
    {
      var name := ParseNodeName([lastChar]);
      if name.Failure? { return Some(name.error); }
      thrown := ParseEquals();
      if thrown.Some? { return; }
      thrown := ParseValue(name.value);
    }

    method ParseValue(name: string) returns (thrown: Option<Error>)
      requires Valid()
      modifies this`index, this`lastChar, this`path
      ensures Valid() && Reaches(P.ParseValue(old(path), name, old(Rest())), thrown)
    {
      var separator := ParseWhitespace();
      if separator.Failure? { return Some(separator.error); }
      var quoted := ParseQuoted(lastChar);
      if quoted.Failure? { return Some(quoted.error); }
      var value := UnescapeEntities(quoted.value);
      if value == None { return Some(P.Entity); }
      path := P.SetTopAttribute(path, Attr(name, value.value));
      return None;
    }

    method ParseAutoclose() returns (thrown: Option<Error>)
      requires Valid() && |path| > 1
      modifies this`index, this`lastChar, this`path
      ensures Valid() && Reaches(P.ParseAutoclose(old(State())), thrown)
    {
      var ch := GetChar();
      if ch == Some('>') {
        path := P.Pop(path);
        return None;
      }
      return Some(P.Generic);
    }

    method ParseElement() returns (thrown: Option<Error>)
      requires Valid()
      modifies this`index, this`lastChar, this`path
      ensures Valid() && Reaches(P.ParseElement(old(lastChar), old(State())), thrown)
    {
      var name := ParseNodeName([lastChar]);
      if name.Failure? { return Some(name.error); }
      path := path + [P.Open(name.value, [], [])];
      if lastChar == '>' { return None; }
      if lastChar == '/' {
        thrown := ParseAutoclose();
        return;
      }
      ghost var goal := P.ParseAttributes(State());
      while true
        invariant Valid() && |path| > 1 && P.ParseAttributes(State()) == goal
        decreases |Rest()|
      {
        var space := ParseWhitespace();
        if space.Failure? { return Some(space.error); }
        if lastChar == '>' { return None; }
        if lastChar == '/' {
          thrown := ParseAutoclose();
          return;
        }
        thrown := ParseAttribute();
        if thrown.Some? { return; }
      }
    }

    method ParseElementEnd() returns (thrown: Option<Error>)
      requires Valid()
      modifies this`index, this`lastChar, this`path
      ensures Valid() && Reaches(P.ParseElementEnd(old(State())), thrown)
    {
      var space := ParseWhitespace();
      if space.Failure? { return Some(space.error); }
      var name := ParseNodeName([lastChar]);
      if name.Failure? { return Some(name.error); }
      thrown := CloseElement(name.value);
    }

    method CloseElement(name: string) returns (thrown: Option<Error>)
      requires Valid()
      modifies this`index, this`lastChar, this`path
      ensures Valid() && Reaches(P.CloseElement(old(path), P.Token(name, old(lastChar), old(Rest()))), thrown)
    {
      if |path| == 1 || path[|path| - 1].name != name { return Some(P.Close); }
      path := P.Pop(path);
      if lastChar != '>' {
        var more := ParseUntil(">");
        if more.Failure? { return Some(more.error); }
      }
      return None;
    }

    method ParseInstruction() returns (thrown: Option<Error>)
      requires Valid()
      modifies this`index, this`lastChar, this`path
      ensures Valid() && Reaches(P.ParseInstruction(old(State())), thrown)
    {
      var name := ParseNodeName("");
      if name.Failure? { return Some(name.error); }
      var data := ParseUntil("?>");
      if data.Failure? { return Some(data.error); }
      if P.UpperCase(name.value) == "XML" {
        if |path| != 1 { return Some(P.Xml); }
      } else {
        path := P.AppendTop(path, Instruction(name.value, data.value));
      }
      return None;
    }

    method ParseData(end: string) returns (thrown: Option<Error>)
      requires Valid() && end in {"-->", "]]>"}
      modifies this`index, this`lastChar, this`path
      ensures Valid() && Reaches(P.ParseData(old(State()), end), thrown)
    {
      var data := ParseUntil(end);
      if data.Failure? { return Some(data.error); }
      path := P.AppendTop(path, if end == "-->" then Comment(data.value) else CData(data.value));
      return None;
    }

    method ParseNode() returns (thrown: Option<Error>)
      requires Valid()
      modifies this`index, this`lastChar, this`path
      ensures Valid() && Reaches(P.ParseNode(old(State())), thrown)
    {
      var ch := GetChar();
      if ch == None { return Some(P.Eof); }
      if ch.value == '!' {
        thrown := ParseDeclaration();
      } else if ch.value == '?' {
        thrown := ParseInstruction();
      } else if ch.value == '/' {
        thrown := ParseElementEnd();
      } else {
        thrown := ParseElement();
      }
    }

    /** A comment, CDATA section or DOCTYPE, after `<!`. */
    method ParseDeclaration() returns (thrown: Option<Error>)
      requires Valid()
      modifies this`index, this`lastChar, this`path
      ensures Valid() && Reaches(P.ParseNode(P.Progress(old(path), "!" + old(Rest()))), thrown)
    {
      assert ("!" + Rest())[1..] == Rest();
      var str := GetChars(2);
      if str == "--" {
        thrown := ParseData("-->");
        return;
      }
      if P.UpperCase(str) == "[C" || P.UpperCase(str) == "DO" {
        var more := GetChars(5);
        if P.UpperCase(str) == "[C" && P.UpperCase(more) == "DATA[" {
          thrown := ParseData("]]>");
          return;
        }
        if P.UpperCase(str) == "DO" && P.UpperCase(more) == "CTYPE" { return Some(P.Doctype); }
      }
      return Some(P.Generic);
    }

    /** The collected text, if any, as a node of the current element. */
    method Flush(buffer: string) returns (thrown: Option<Error>)
      requires Valid()
      modifies this`path
      ensures Valid() && Rest() == old(Rest())
      ensures match P.Flush(old(path), buffer)
              case Failure(e) => thrown == Some(e)
              case Success(p) => thrown == None && path == p
    {
      if |buffer| == 0 { return None; }
      var data := UnescapeEntities(buffer);
      if data == None { return Some(P.Entity); }
      if |path| != 1 { path := P.AppendTop(path, Text(data.value)); }
      return None;
    }

    method ParseChildNodes() returns (thrown: Option<Error>)
      requires Valid()
      modifies this`index, this`lastChar, this`path
      ensures Valid()
      ensures match P.ParseChildNodes(old(State()), "")
              case Failure(e) => thrown == Some(e)
              case Success(p) => thrown == None && path == p
    {
      var buffer := "";
      while true
        invariant Valid() && P.ParseChildNodes(State(), buffer) == P.ParseChildNodes(old(State()), "")
        decreases |Rest()|
      {
        ghost var s := State();
        var ch := GetChar();
        if ch == None { break; }
        if ch.value == '<' {
          thrown := Flush(buffer);
          if thrown.Some? { return; }
          buffer := "";
          thrown := ParseNode();
          if thrown.Some? { return; }
        } else {
          buffer := buffer + [ch.value];
        }
      }
      thrown := Flush(buffer);
    }

    method ParseFromString(str: string) returns (r: Result<seq<Node>, Error>)
      modifies this
      ensures r == P.Parse(str)
    {
      source, index, lastChar, path := str, -1, '\0', [P.DOCUMENT];
      var thrown := ParseChildNodes();
      if thrown.Some? { return Failure(thrown.value); }
      if |path| != 1 { return Failure(P.Eof); }
      return Success(path[0].childNodes);
    }
  }

  /** `_unescapeEntities`: a scan from left to right that copies or replaces. */
  method UnescapeEntities(str: string) returns (r: Option<string>)
    ensures r == P.Unescape(str)
  {
    var rest, done := str, "";
    JoinedNothing(P.Unescape(str));
    while rest != ""
      invariant P.Unescape(str) == Joined(done, P.Unescape(rest))
      decreases |rest|
    {
      var u := P.FirstUnit(rest);
      if u.value == None { return None; }
      PrependJoined(done, u.value.value, P.Unescape(rest[u.length..]));
      done, rest := done + [u.value.value], rest[u.length..];
    }
    AppendNothing(done);
    return Some(done);
  }

  lemma JoinedNothing(b: Option<string>)
    ensures Joined("", b) == b
  {
    if b.Some? {
      AppendNothing(b.value);
    }
  }

  function Joined(a: string, b: Option<string>): Option<string> {
    match b
    case None => None
    case Some(t) => Some(a + t)
  }

  lemma PrependJoined(a: string, c: char, b: Option<string>)
    ensures Joined(a, P.Prepend(c, b)) == Joined(a + [c], b)
  {
    if b.Some? {
      AppendAssociates(a, [c], b.value);
    }
  }

  // ---------------------------------------------------------------- serializer

  /** The text of the nodes as children of the document or of an element. */
  function Texts(nodes: seq<Node>, top: bool): string {
    if top then TopText(nodes) else ChildrenText(nodes)
  }

  function LineEnd(n: Node, top: bool): string {
    if top && (n.Comment? || n.Instruction?) then "\n" else ""
  }

  lemma {:induction false} TextsSnoc(nodes: seq<Node>, n: Node, top: bool)
    ensures Texts(nodes + [n], top) == Texts(nodes, top) + (NodeText(n) + LineEnd(n, top))
  {
    if nodes == [] {
      assert [n][1..] == [] && [] + [n] == [n];
      AppendNothing(NodeText(n) + LineEnd(n, top));
      AppendNothing(NodeText(n));
    } else {
      assert (nodes + [n])[0] == nodes[0] && (nodes + [n])[1..] == nodes[1..] + [n];
      TextsSnoc(nodes[1..], n, top);
      AppendAssociates(NodeText(nodes[0]) + LineEnd(nodes[0], top), Texts(nodes[1..], top), NodeText(n) + LineEnd(n, top));
      AppendNothing(NodeText(nodes[0]));
    }
  }

  method SerializeChildNodes(nodes: seq<Node>, top: bool) returns (str: string)
    ensures str == Texts(nodes, top)
    decreases nodes, 0
  {
    str := "";
    for i := 0 to |nodes|
      invariant str == Texts(nodes[..i], top)
    {
      var part := SerializeNode(nodes[i], top);
      str := str + part;
      TextsSnoc(nodes[..i], nodes[i], top);
      assert nodes[..i + 1] == nodes[..i] + [nodes[i]];
    }
    assert nodes[..|nodes|] == nodes;
  }

  /** One node; a comment or instruction of the document itself ends its line. */
  method SerializeNode(n: Node, top: bool) returns (str: string)
    ensures str == NodeText(n) + LineEnd(n, top)
    decreases n, 1
  {
    match n
    case Element(name, attributes, childNodes) =>
      str := "<" + name;
      var list := [];
      for i := 0 to |attributes|
        invariant |list| == i
        invariant forall j :: 0 <= j < i ==> list[j] == AttributeText(attributes[j])
      {
        EscapeEntitiesIsEscape(attributes[i].name);
        EscapeEntitiesIsEscape(attributes[i].value);
        list := list + [EscapeEntities(attributes[i].name) + "=\"" + EscapeEntities(attributes[i].value) + "\""];
      }
      JoinedAttributes(attributes, list);
      if |list| > 0 { str := str + " " + Join(list); }
      assert str == "<" + name + AttributesText(attributes);
      if |childNodes| > 0 {
        var children := SerializeChildNodes(childNodes, false);
        str := str + (">" + children + "</" + name + ">");
      } else {
        str := str + "/>";
      }
      AppendNothing(str);
    case Text(data) =>
      EscapeEntitiesIsEscape(data);
      str := EscapeEntities(data);
      AppendNothing(str);
    case CData(data) =>
      str := "<![CDATA[" + data + "]]>";
      AppendNothing(str);
    case Comment(data) =>
      str := "<!--" + data + "-->";
      if top { str := str + "\n"; } else { AppendNothing(str); }
    case Instruction(target, data) =>
      str := "<?" + target + " " + data + "?>";
      if top { str := str + "\n"; } else { AppendNothing(str); }
  }

  /** `join(" ")` */
  function Join(list: seq<string>): string {
    if list == [] then "" else if |list| == 1 then list[0] else list[0] + " " + Join(list[1..])
  }

  lemma {:induction false} JoinedAttributes(attributes: seq<Attr>, list: seq<string>)
    requires |list| == |attributes| && forall j :: 0 <= j < |list| ==> list[j] == AttributeText(attributes[j])
    ensures AttributesText(attributes) == if list == [] then "" else " " + Join(list)
  {
    if list != [] {
      JoinedAttributes(attributes[1..], list[1..]);
      JoinCons(list);
    }
  }

  lemma JoinCons(list: seq<string>)
    requires list != []
    ensures " " + Join(list) == " " + list[0] + if list[1..] == [] then "" else " " + Join(list[1..])
  {
    if |list| == 1 {
      AppendNothing(" " + list[0]);
    } else {
      AppendAssociates(" ", list[0], " " + Join(list[1..]));
      AppendAssociates(list[0], " ", Join(list[1..]));
    }
  }

  method SerializeToString(d: Document) returns (str: string)
    ensures str == DocumentText(d)
  {
    str := "<?xml version=\"" + d.xmlVersion + "\" encoding=\"" + d.xmlEncoding + "\"?>\n";
    var children := SerializeChildNodes(d.childNodes, true);
    str := str + children + "\n";
  }

  /** Serializing and parsing again: the round trip of the two objects. */
  method Reparse(d: Document) returns (nodes: seq<Node>)
    requires ChildrenOk(d.childNodes) && !DomMarkup.Occurs("?>", PrologData(d))
    ensures nodes == NormalForms(NoTexts(d.childNodes))
    ensures nodes == d.childNodes <==>
              AllNormal(d.childNodes) && forall i :: 0 <= i < |d.childNodes| ==> !d.childNodes[i].Text?
  {
    var str := SerializeToString(d);
    var parser := new DOMParser();
    var r := parser.ParseFromString(str);
    ParseGivesNormalForm(d);
    ParseInvertsSerializeIff(d);
    return r.value;
  }
}
