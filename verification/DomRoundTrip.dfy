/** Parsing what the serializer wrote gives back the tree. */
module DomRoundTrip {
  import opened Basics
  import opened DomTree
  import opened DomParser
  import opened DomNormal
  import opened Characters
  import M = DomMarkup
  import R = DomReading

  // ------------------------------------------------------- trees in the theorem

  ghost predicate AttributesOk(attributes: seq<Attr>) {
    && (forall i :: 0 <= i < |attributes| ==> M.PlainName(attributes[i].name) && attributes[i].name != "xmlns")
    && (forall i, j :: 0 <= i < j < |attributes| ==> attributes[i].name != attributes[j].name)
  }

  ghost predicate NodeOk(n: Node) {
    match n
    case Element(name, attributes, childNodes) => M.PlainName(name) && AttributesOk(attributes) && ChildrenOk(childNodes)
    case Text(_) => true
    case CData(data) => !M.Occurs("]]>", data)
    case Comment(data) => !M.Occurs("-->", data)
    case Instruction(target, data) => M.PlainName(target) && UpperCase(target) != "XML" && !M.Occurs("?>", data)
  }

  ghost predicate ChildrenOk(nodes: seq<Node>) {
    nodes == [] || (NodeOk(nodes[0]) && ChildrenOk(nodes[1..]))
  }

  /** What is left of the document's children: text among them is not read back. */
  function NoTexts(nodes: seq<Node>): (r: seq<Node>)
    ensures |r| <= |nodes| && (|r| == |nodes| <==> forall i :: 0 <= i < |nodes| ==> !nodes[i].Text?)
    ensures |r| == |nodes| ==> r == nodes
  {
    if nodes == [] then []
    else
      assert forall i :: 0 < i < |nodes| ==> nodes[i] == nodes[1..][i - 1];
      assert [nodes[0]] + nodes[1..] == nodes;
      (if nodes[0].Text? then [] else [nodes[0]]) + NoTexts(nodes[1..])
  }

  // ------------------------------------------ the serializer's way of writing

  function Pieces(s: string): seq<M.Piece> {
    if s == "" then [] else [M.Piece(s[0], EscapeChar(s[0]))] + Pieces(s[1..])
  }

  lemma {:induction false} PiecesAre(s: string, mark: char)
    requires mark in "\"<"
    ensures M.Raw(Pieces(s)) == Escape(s) && M.Value(Pieces(s)) == s && M.PiecesOk(Pieces(s), mark)
  {
    if s != "" {
      PiecesAre(s[1..], mark);
      var p := M.Piece(s[0], EscapeChar(s[0]));
      assert s[0] in "&'\"<>" ==> M.IsNamed(p);
      assert Pieces(s)[1..] == Pieces(s[1..]);
      assert forall i :: 0 < i < |Pieces(s)| ==> Pieces(s)[i] == Pieces(s[1..])[i - 1];
    }
  }

  /** Unescaping undoes escaping, for every string. */
  lemma UnescapeEscape(s: string)
    ensures Unescape(Escape(s)) == Some(s)
  {
    PiecesAre(s, '<');
    R.PiecesRead(Pieces(s), '<');
  }

  function Settings(attributes: seq<Attr>): seq<M.Setting> {
    if attributes == [] then []
    else [M.Setting(" ", attributes[0].name, "", "", '"', Pieces(attributes[0].value))] + Settings(attributes[1..])
  }

  function Written(n: Node): M.Markup {
    match n
    case Element(name, attributes, childNodes) =>
      M.Elem(name, Settings(attributes), "", AllWritten(childNodes), if childNodes == [] then M.Within else M.Tag("", ""))
    case Text(data) => M.Words(Pieces(data))
    case CData(data) => M.Section("CDATA", data)
    case Comment(data) => M.Remark(data)
    case Instruction(target, data) => M.Process(target, ' ', data)
  }

  function AllWritten(nodes: seq<Node>): (r: seq<M.Markup>)
    ensures |r| == |nodes|
  {
    if nodes == [] then [] else [Written(nodes[0])] + AllWritten(nodes[1..])
  }

  lemma {:induction false} NamesNeedNoEscape(name: string)
    requires AllName(name)
    ensures Escape(name) == name
  {
    if name != "" {
      NamesNeedNoEscape(name[1..]);
      assert EscapeChar(name[0]) == [name[0]];
    }
  }

  lemma SettingIs(a: Attr)
    requires M.PlainName(a.name)
    ensures var s := M.Setting(" ", a.name, "", "", '"', Pieces(a.value));
            " " + M.SettingText(s) == " " + AttributeText(a)
  {
    PiecesAre(a.value, '"');
    NamesNeedNoEscape(a.name);
    hide Escape;
    var v := Escape(a.value);
    assert ['"'] + (v + ['"']) == "\"" + v + "\"";
    assert "=" + ("\"" + v + "\"") == "=\"" + v + "\"";
  }

  lemma {:induction false} SettingsAre(attributes: seq<Attr>)
    requires AttributesOk(attributes)
    ensures M.SettingsText(Settings(attributes)) == AttributesText(attributes)
    ensures M.Attributes(Settings(attributes)) == attributes && M.SettingsOk(Settings(attributes))
    ensures |Settings(attributes)| == |attributes|
    ensures forall i :: 0 <= i < |attributes| ==> Settings(attributes)[i].name == attributes[i].name
  {
    if attributes != [] {
      var a := attributes[0];
      SettingsAre(attributes[1..]);
      SettingIs(a);
      PiecesAre(a.value, '"');
      AppendAssociates(" ", AttributeText(a), AttributesText(attributes[1..]));
      AppendAssociates(" ", M.SettingText(Settings(attributes)[0]), AttributesText(attributes[1..]));
      hide M.SettingText;
      hide AttributeText;
      hide Pieces;
      var all, rest := Settings(attributes), Settings(attributes[1..]);
      assert all[1..] == rest;
      forall i | 0 <= i < |all| ensures M.SettingOk(all[i]) && all[i].name == attributes[i].name {
        if i > 0 {
          assert all[i] == rest[i - 1] && attributes[i] == attributes[1..][i - 1];
        }
      }
    }
  }

  lemma {:induction false} WrittenIs(n: Node)
    requires NodeOk(n)
    ensures M.MarkupText(Written(n)) == NodeText(n) && M.Meaning(Written(n)) == n && M.MarkupOk(Written(n))
    decreases n, 1
  {
    match n
    case Element(name, attributes, childNodes) =>
      SettingsAre(attributes);
      AllWrittenAre(childNodes);
      ElementText(name, attributes, childNodes);
    case Text(data) => PiecesAre(data, '<');
    case CData(data) =>
      assert "<![" + ("CDATA" + ("[" + (data + "]]>"))) == "<![CDATA[" + data + "]]>";
      assert UpperCase("CDATA") == "CDATA";
    case Comment(data) =>
    case Instruction(target, data) =>
      assert "<?" + (target + ([' '] + (data + "?>"))) == "<?" + target + " " + data + "?>";
  }

  lemma {:induction false} AllWrittenAre(nodes: seq<Node>)
    requires ChildrenOk(nodes)
    ensures M.ContentText(AllWritten(nodes)) == ChildrenText(nodes)
    ensures M.Meanings(AllWritten(nodes)) == nodes && M.ContentOk(AllWritten(nodes))
    decreases nodes, 0
  {
    if nodes != [] {
      WrittenIs(nodes[0]);
      AllWrittenAre(nodes[1..]);
      assert AllWritten(nodes)[1..] == AllWritten(nodes[1..]);
    }
  }

  lemma ElementText(name: string, attributes: seq<Attr>, childNodes: seq<Node>)
    requires M.SettingsText(Settings(attributes)) == AttributesText(attributes)
    requires M.ContentText(AllWritten(childNodes)) == ChildrenText(childNodes)
    ensures M.MarkupText(Written(Element(name, attributes, childNodes))) == NodeText(Element(name, attributes, childNodes))
  {
    var a, c := AttributesText(attributes), ChildrenText(childNodes);
    hide AttributesText;
    hide ChildrenText;
    hide M.SettingsText;
    hide M.ContentText;
    AppendNothing(a);
    AppendAssociates("<", name, a);
    EndIs(c, name);
  }

  lemma EndIs(c: string, name: string)
    ensures ">" + (c + ("</" + ("" + (name + ("" + ">"))))) == ">" + c + "</" + name + ">"
  {
    assert "" + ">" == ">";
    AppendNothing(name + ">");
    AppendAssociates(">" + c, "</", name + ">");
  }

  // ------------------------------------------------------------------- document

  /** The markup of the document's children, and the line breaks between them. */
  function TopWritten(nodes: seq<Node>): seq<M.Markup> {
    if nodes == [] then [LineBreak()]
    else
      [Written(nodes[0])] + (if nodes[0].Comment? || nodes[0].Instruction? then [LineBreak()] else [])
      + TopWritten(nodes[1..])
  }

  function LineBreak(): M.Markup {
    M.Words([M.Piece('\n', "\n")])
  }

  lemma LineBreakIs()
    ensures M.MarkupText(LineBreak()) == "\n" && M.MarkupOk(LineBreak())
  {
    assert M.PieceOk(M.Piece('\n', "\n"), '<');
    assert M.Raw([M.Piece('\n', "\n")]) == "\n" + "";
  }

  lemma OneMore(m: M.Markup, ms: seq<M.Markup>)
    requires M.TopOk(ms) && (M.MarkupOk(m) || M.IsDeclaration(m))
    ensures M.TopOk([m] + ms) && M.ContentText([m] + ms) == M.MarkupText(m) + M.ContentText(ms)
    ensures M.TopMeanings([m] + ms)
         == (if m.Words? || (m.Process? && UpperCase(m.target) == "XML") then [] else [M.Meaning(m)]) + M.TopMeanings(ms)
  {
    assert ([m] + ms)[1..] == ms;
  }

  lemma {:induction false} TopWrittenIs(nodes: seq<Node>)
    requires ChildrenOk(nodes)
    ensures M.TopOk(TopWritten(nodes)) && M.ContentText(TopWritten(nodes)) == TopText(nodes) + "\n"
    ensures M.TopMeanings(TopWritten(nodes)) == NoTexts(nodes)
  {
    LineBreakIs();
    if nodes == [] {
      OneMore(LineBreak(), []);
      assert [LineBreak()] + [] == [LineBreak()];
    } else {
      var m, ms := Written(nodes[0]), TopWritten(nodes[1..]);
      var again := nodes[0].Comment? || nodes[0].Instruction?;
      var mid := if again then [LineBreak()] + ms else ms;
      WrittenIs(nodes[0]);
      TopWrittenIs(nodes[1..]);
      OneMore(LineBreak(), ms);
      OneMore(m, mid);
      assert TopWritten(nodes) == [m] + mid;
      TopTextCons(nodes);
      hide M.MarkupText;
      hide NodeText;
      hide TopText;
      AppendNothing(NoTexts(nodes[1..]));
    }
  }

  lemma TopTextCons(nodes: seq<Node>)
    requires nodes != []
    ensures TopText(nodes) + "\n"
         == NodeText(nodes[0]) + if nodes[0].Comment? || nodes[0].Instruction? then "\n" + (TopText(nodes[1..]) + "\n") else TopText(nodes[1..]) + "\n"
  {
    var n, t := NodeText(nodes[0]), TopText(nodes[1..]);
    hide NodeText;
    if nodes[0].Comment? || nodes[0].Instruction? {
      assert TopText(nodes) == n + "\n" + t;
      AppendAssociates(n, "\n", t);
      AppendAssociates(n, "\n" + t, "\n");
      AppendAssociates("\n", t, "\n");
    } else {
      assert TopText(nodes) == n + "" + t;
      AppendNothing(n);
      AppendAssociates(n, t, "\n");
    }
  }

  function PrologData(d: Document): string {
    "version=\"" + d.xmlVersion + "\" encoding=\"" + d.xmlEncoding + "\""
  }

  function Prolog(d: Document): M.Markup {
    M.Process("xml", ' ', PrologData(d))
  }

  lemma PrologIs(d: Document)
    requires !M.Occurs("?>", PrologData(d))
    ensures M.IsDeclaration(Prolog(d)) && M.MarkupText(Prolog(d)) + "\n" == PrologText(d) && UpperCase("xml") == "XML"
  {
    assert UpperCase("xml") == "XML";
    var data := PrologData(d);
    assert "<?" + ("xml" + ([' '] + (data + "?>"))) + "\n" == "<?xml " + data + "?>\n";
    assert "<?xml " + data == "<?xml version=\"" + d.xmlVersion + "\" encoding=\"" + d.xmlEncoding + "\"";
  }

  /** For every document, parsing its serialization gives its tree in normal form, without the text at
      document level. */
  lemma ParseGivesNormalForm(d: Document)
    requires ChildrenOk(d.childNodes) && !M.Occurs("?>", PrologData(d))
    ensures Parse(DocumentText(d)) == Success(NormalForms(NoTexts(d.childNodes)))
  {
    var top := TopWritten(d.childNodes);
    var text := TopText(d.childNodes) + "\n";
    PrologIs(d);
    LineBreakIs();
    TopWrittenIs(d.childNodes);
    OneMore(LineBreak(), top);
    OneMore(Prolog(d), [LineBreak()] + top);
    R.ParseReads([Prolog(d)] + ([LineBreak()] + top));
    AppendNothing(NoTexts(d.childNodes));
    AppendAssociates(M.MarkupText(Prolog(d)), "\n", text);
    AppendAssociates(PrologText(d), TopText(d.childNodes), "\n");
  }

  /** Parsing inverts serializing exactly for the documents in which no text node is empty, next to another
      one, or a child of the document. */
  lemma ParseInvertsSerializeIff(d: Document)
    requires ChildrenOk(d.childNodes) && !M.Occurs("?>", PrologData(d))
    ensures Parse(DocumentText(d)) == Success(d.childNodes)
       <==> AllNormal(d.childNodes) && forall i :: 0 <= i < |d.childNodes| ==> !d.childNodes[i].Text?
  {
    ParseGivesNormalForm(d);
    AllNormalForms(d.childNodes);
  }

  // --------------------------------------------------------------- how it looks

  /** A document as it is written, line breaks included. */
  lemma SampleText(v: string, e: string, c: string, n: string, a: string, w: string, t: string, d: string)
    requires AllName(a)
    ensures DocumentText(Document(v, e, [Comment(c), Element(n, [Attr(a, w)], []), Instruction(t, d), Element(n, [], [Text("x"), CData(d)])]))
         == "<?xml version=\"" + v + "\" encoding=\"" + e + "\"?>\n"
            + (("<!--" + c + "-->") + "\n"
               + (("<" + n + (" " + (a + "=\"" + Escape(w) + "\"")) + "/>")
                  + (("<?" + t + " " + d + "?>") + "\n"
                     + ("<" + n + (">" + ("x" + ("<![CDATA[" + d + "]]>")) + "</" + n + ">")))))
            + "\n"
  {
    var one, two, three := Element(n, [Attr(a, w)], []), Instruction(t, d), Element(n, [], [Text("x"), CData(d)]);
    SampleAttribute(n, a, w);
    SampleContent(n, d);
    PlainTexts(c, t, d);
    TopFour(Comment(c), one, two, three);
    hide NodeText;
    hide Escape;
    hide TopText;
    AppendNothing(NodeText(one));
    AppendNothing(NodeText(three));
  }

  /** A child of the document with what ends its line. */
  function Line(n: Node): string {
    NodeText(n) + if n.Comment? || n.Instruction? then "\n" else ""
  }

  lemma TopFour(a: Node, b: Node, c: Node, d: Node)
    ensures TopText([a, b, c, d]) == Line(a) + (Line(b) + (Line(c) + Line(d)))
  {
    hide NodeText;
    assert [a, b, c, d][1..] == [b, c, d] && [b, c, d][1..] == [c, d] && [c, d][1..] == [d] && [d][1..] == [];
    TopTexts([d], []);
    TopTexts([c, d], [d]);
    TopTexts([b, c, d], [c, d]);
    TopTexts([a, b, c, d], [b, c, d]);
    AppendNothing(Line(d));
  }

  lemma PlainTexts(c: string, t: string, d: string)
    ensures NodeText(Comment(c)) == "<!--" + c + "-->" && NodeText(Instruction(t, d)) == "<?" + t + " " + d + "?>"
  {
  }

  lemma TopTexts(nodes: seq<Node>, rest: seq<Node>)
    requires nodes != [] && nodes[1..] == rest
    ensures TopText(nodes) == Line(nodes[0]) + TopText(rest) && TopText([]) == ""
  {
    hide NodeText;
  }

  lemma SampleAttribute(n: string, a: string, w: string)
    requires AllName(a)
    ensures NodeText(Element(n, [Attr(a, w)], [])) == "<" + n + (" " + (a + "=\"" + Escape(w) + "\"")) + "/>"
  {
    NamesNeedNoEscape(a);
    hide Escape;
    var at := Attr(a, w);
    assert [at][1..] == [];
    AppendNothing(" " + AttributeText(at));
    hide AttributeText;
    assert AttributesText([at]) == " " + AttributeText(at) + "";
  }

  lemma SampleContent(n: string, d: string)
    ensures NodeText(Element(n, [], [Text("x"), CData(d)])) == "<" + n + (">" + ("x" + ("<![CDATA[" + d + "]]>")) + "</" + n + ">")
  {
    ContentTexts(d);
    hide ChildrenText;
    AppendNothing("<" + n);
  }

  lemma ContentTexts(d: string)
    ensures ChildrenText([Text("x"), CData(d)]) == "x" + ("<![CDATA[" + d + "]]>")
  {
    assert "x"[1..] == "" && Escape("x") == "x" + "";
    assert [Text("x"), CData(d)][1..] == [CData(d)] && [CData(d)][1..] == [];
    AppendNothing("<![CDATA[" + d + "]]>");
    assert ChildrenText([CData(d)]) == ("<![CDATA[" + d + "]]>") + "";
  }
}
