/** XML trees as values, and the text XMLSerializer writes for them. */
module DomTree {
  import opened Basics

  datatype Attr = Attr(name: string, value: string)

  datatype Node =
    | Element(name: string, attributes: seq<Attr>, childNodes: seq<Node>)
    | Text(data: string)
    | CData(data: string)
    | Comment(data: string)
    | Instruction(target: string, data: string)

  datatype Document = Document(xmlVersion: string, xmlEncoding: string, childNodes: seq<Node>)

  // ---------------------------------------------------------------- escaping

  function EscapeChar(c: char): string {
    if c == '&' then "&amp;"
    else if c == '\'' then "&apos;"
    else if c == '"' then "&quot;"
    else if c == '<' then "&lt;"
    else if c == '>' then "&gt;"
    else [c]
  }

  /** Every special character replaced, all at once. */
  function Escape(s: string): string {
    if s == "" then "" else EscapeChar(s[0]) + Escape(s[1..])
  }

  /** A global replacement of one character, as one `replace` call does it. */
  function Replace(s: string, c: char, with: string): string {
    if s == "" then "" else (if s[0] == c then with else [s[0]]) + Replace(s[1..], c, with)
  }

  /** The serializer's five replacements, one after the other. */
  function EscapeEntities(s: string): string {
    Replace(Replace(Replace(Replace(Replace(s, '&', "&amp;"), '\'', "&apos;"), '"', "&quot;"), '<', "&lt;"), '>', "&gt;")
  }

  lemma {:induction false} ReplaceAppend(a: string, b: string, c: char, with: string)
    ensures Replace(a + b, c, with) == Replace(a, c, with) + Replace(b, c, with)
  {
    if a == "" {
      AppendNothing(b);
    } else {
      assert (a + b)[0] == a[0] && (a + b)[1..] == a[1..] + b;
      ReplaceAppend(a[1..], b, c, with);
      AppendAssociates(if a[0] == c then with else [a[0]], Replace(a[1..], c, with), Replace(b, c, with));
    }
  }

  lemma {:induction false} ReplaceAbsent(s: string, c: char, with: string)
    requires c !in s
    ensures Replace(s, c, with) == s
  {
    if s != "" {
      ReplaceAbsent(s[1..], c, with);
    }
  }

  lemma EscapeEntitiesAppend(a: string, b: string)
    ensures EscapeEntities(a + b) == EscapeEntities(a) + EscapeEntities(b)
  {
    ReplaceAppend(a, b, '&', "&amp;");
    var a1, b1 := Replace(a, '&', "&amp;"), Replace(b, '&', "&amp;");
    ReplaceAppend(a1, b1, '\'', "&apos;");
    var a2, b2 := Replace(a1, '\'', "&apos;"), Replace(b1, '\'', "&apos;");
    ReplaceAppend(a2, b2, '"', "&quot;");
    var a3, b3 := Replace(a2, '"', "&quot;"), Replace(b2, '"', "&quot;");
    ReplaceAppend(a3, b3, '<', "&lt;");
    ReplaceAppend(Replace(a3, '<', "&lt;"), Replace(b3, '<', "&lt;"), '>', "&gt;");
  }

  lemma ReplaceOne(c: char, d: char, with: string)
    ensures Replace([c], d, with) == if c == d then with else [c]
  {
    assert Replace([c], d, with) == (if c == d then with else [c]) + Replace([], d, with);
    AppendNothing(if c == d then with else [c]);
  }

  lemma EscapeEntitiesOne(c: char)
    ensures EscapeEntities([c]) == EscapeChar(c)
  {
    var t1 := ReplaceKept([c], c, '&', "&amp;");
    var t2 := ReplaceKept(t1, c, '\'', "&apos;");
    var t3 := ReplaceKept(t2, c, '"', "&quot;");
    var t4 := ReplaceKept(t3, c, '<', "&lt;");
    var t5 := ReplaceKept(t4, c, '>', "&gt;");
  }

  /** One replacement on a single character, or on an entity that an earlier one inserted. */
  lemma ReplaceKept(s: string, c: char, d: char, with: string) returns (t: string)
    requires s == [c] || (c != d && IsEntity(s) && d in "'\"<>")
    ensures t == Replace(s, d, with)
    ensures t == if s == [c] && c == d then with else s
  {
    t := Replace(s, d, with);
    if s == [c] {
      ReplaceOne(c, d, with);
    } else {
      EntityPlain(s, d);
      ReplaceAbsent(s, d, with);
    }
  }

  ghost predicate IsEntity(s: string) {
    s == "&amp;" || s == "&apos;" || s == "&quot;" || s == "&lt;" || s == "&gt;"
  }

  lemma EntityPlain(s: string, d: char)
    requires IsEntity(s) && d in "'\"<>"
    ensures d !in s
  {
  }

  /** The chained replacements escape every character independently of the others: no replacement
      touches what an earlier one inserted. */
  lemma {:induction false} EscapeEntitiesIsEscape(s: string)
    ensures EscapeEntities(s) == Escape(s)
  {
    if s != "" {
      assert s == [s[0]] + s[1..];
      EscapeEntitiesAppend([s[0]], s[1..]);
      EscapeEntitiesOne(s[0]);
      EscapeEntitiesIsEscape(s[1..]);
    }
  }

  lemma {:induction false} EscapeIsPlain(s: string)
    ensures forall i :: 0 <= i < |Escape(s)| ==> Escape(s)[i] !in "<>\"'"
  {
    if s != "" {
      EscapeIsPlain(s[1..]);
      assert forall i :: 0 <= i < |EscapeChar(s[0])| ==> EscapeChar(s[0])[i] !in "<>\"'";
    }
  }

  // ------------------------------------------------------------- serializing

  function AttributeText(a: Attr): string {
    Escape(a.name) + "=\"" + Escape(a.value) + "\""
  }

  function AttributesText(attributes: seq<Attr>): string {
    if attributes == [] then "" else " " + AttributeText(attributes[0]) + AttributesText(attributes[1..])
  }

  function NodeText(n: Node): string {
    match n
    case Element(name, attributes, childNodes) =>
      "<" + name + AttributesText(attributes)
      + (if childNodes == [] then "/>" else ">" + ChildrenText(childNodes) + "</" + name + ">")
    case Text(data) => Escape(data)
    case CData(data) => "<![CDATA[" + data + "]]>"
    case Comment(data) => "<!--" + data + "-->"
    case Instruction(target, data) => "<?" + target + " " + data + "?>"
  }

  function ChildrenText(nodes: seq<Node>): string {
    if nodes == [] then "" else NodeText(nodes[0]) + ChildrenText(nodes[1..])
  }

  /** Children of the document: comments and instructions end their line. */
  function TopText(nodes: seq<Node>): string {
    if nodes == [] then ""
    else
      NodeText(nodes[0]) + (if nodes[0].Comment? || nodes[0].Instruction? then "\n" else "")
      + TopText(nodes[1..])
  }

  function PrologText(d: Document): string {
    "<?xml version=\"" + d.xmlVersion + "\" encoding=\"" + d.xmlEncoding + "\"?>\n"
  }

  function DocumentText(d: Document): string {
    PrologText(d) + TopText(d.childNodes) + "\n"
  }
}
