/** XML text as a free hand may write it: what the parser must understand, said without the parser. A
    character may be written as itself, as one of the five named references, or as a decimal or hexadecimal
    reference; a value may stand in either kind of quotes; white space may stand around `=`, before the end
    of a tag and in an end tag. */
module DomMarkup {
  import opened Basics
  import opened DomTree
  import opened DomParser
  import opened DomNormal
  import opened Characters

  // ---------------------------------------------------------------------- text

  /** A character and how it is written. */
  datatype Piece = Piece(value: char, text: string)

  ghost predicate IsNamed(p: Piece) {
    p in {Piece('<', "&lt;"), Piece('>', "&gt;"), Piece('"', "&quot;"), Piece('\'', "&apos;"), Piece('&', "&amp;")}
  }

  /** A reference by number; numbers are taken modulo 2^16. */
  ghost predicate IsReference(p: Piece, numeral: string, n: nat) {
    n % 0x1_0000 == p.value as nat
    && if p.text == "&#" + numeral + ";" then Writes(numeral, 10, n)
       else (p.text == "&#x" + numeral + ";" || p.text == "&#X" + numeral + ";") && Writes(numeral, 16, n)
  }

  /** The piece may stand where `mark` would end the text. */
  ghost predicate PieceOk(p: Piece, mark: char) {
    || (p.text == [p.value] && p.value != '&' && p.value != mark)
    || IsNamed(p)
    || exists numeral, n :: IsReference(p, numeral, n)
  }

  ghost predicate PiecesOk(ps: seq<Piece>, mark: char) {
    forall i :: 0 <= i < |ps| ==> PieceOk(ps[i], mark)
  }

  function Value(ps: seq<Piece>): string {
    if ps == [] then "" else [ps[0].value] + Value(ps[1..])
  }

  function Raw(ps: seq<Piece>): string {
    if ps == [] then "" else ps[0].text + Raw(ps[1..])
  }

  // ---------------------------------------------------------------------- nodes

  /** An attribute with the white space before it and around its `=`. */
  datatype Setting = Setting(space: string, name: string, before: string, after: string, quote: char, value: seq<Piece>)

  /** How an element ends: within its start tag, or with an end tag, `tail` being what stands in that after
      the name. */
  datatype Ending = Within | Tag(space: string, tail: string)

  datatype Markup =
    | Elem(name: string, settings: seq<Setting>, space: string, content: seq<Markup>, ending: Ending)
    | Words(pieces: seq<Piece>)
    | Section(keyword: string, data: string)
    | Remark(data: string)
    | Process(target: string, separator: char, data: string)

  ghost predicate OccursAt(part: string, s: string, i: nat) {
    i + |part| <= |s| && s[i..i + |part|] == part
  }

  ghost predicate Occurs(part: string, s: string) {
    exists i: nat :: OccursAt(part, s, i)
  }

  ghost predicate AllSpace(s: string) {
    forall i :: 0 <= i < |s| ==> IsSpace(s[i])
  }

  /** A name without a namespace prefix. */
  ghost predicate PlainName(s: string) {
    s != "" && AllName(s) && ':' !in s
  }

  ghost predicate SettingOk(s: Setting) {
    && s.space != "" && AllSpace(s.space) && AllSpace(s.before) && AllSpace(s.after)
    && PlainName(s.name) && s.name != "xmlns" && s.quote in "'\"" && PiecesOk(s.value, s.quote)
  }

  ghost predicate SettingsOk(settings: seq<Setting>) {
    && (forall i :: 0 <= i < |settings| ==> SettingOk(settings[i]))
    && (forall i, j :: 0 <= i < j < |settings| ==> settings[i].name != settings[j].name)
  }

  ghost predicate EndingOk(e: Ending, empty: bool) {
    match e
    case Within => empty
    case Tag(space, tail) => AllSpace(space) && '>' !in tail && (tail != "" ==> !NameChar(tail[0]))
  }

  ghost predicate MarkupOk(m: Markup) {
    match m
    case Elem(name, settings, space, content, ending) =>
      PlainName(name) && SettingsOk(settings) && AllSpace(space) && EndingOk(ending, content == []) && ContentOk(content)
    case Words(pieces) => PiecesOk(pieces, '<')
    case Section(keyword, data) => UpperCase(keyword) == "CDATA" && !Occurs("]]>", data)
    case Remark(data) => !Occurs("-->", data)
    case Process(target, separator, data) => ProcessOk(target, separator, data) && UpperCase(target) != "XML"
  }

  ghost predicate ProcessOk(target: string, separator: char, data: string) {
    PlainName(target) && IsSpace(separator) && !Occurs("?>", data)
  }

  ghost predicate ContentOk(ms: seq<Markup>) {
    ms == [] || (MarkupOk(ms[0]) && ContentOk(ms[1..]))
  }

  ghost predicate IsDeclaration(m: Markup) {
    m.Process? && ProcessOk(m.target, m.separator, m.data) && UpperCase(m.target) == "XML"
  }

  /** Children of the document; XML declarations may stand there. */
  ghost predicate TopOk(ms: seq<Markup>) {
    ms == [] || ((MarkupOk(ms[0]) || IsDeclaration(ms[0])) && TopOk(ms[1..]))
  }

  // ----------------------------------------------------------------------- text

  function SettingText(s: Setting): string {
    s.name + (s.before + ("=" + (s.after + ([s.quote] + (Raw(s.value) + [s.quote])))))
  }

  function SettingsText(settings: seq<Setting>): string {
    if settings == [] then "" else settings[0].space + (SettingText(settings[0]) + SettingsText(settings[1..]))
  }

  function StartText(name: string, settings: seq<Setting>, space: string): string {
    "<" + (name + (SettingsText(settings) + space))
  }

  function EndText(name: string, ending: Ending): string
    requires ending.Tag?
  {
    "</" + (ending.space + (name + (ending.tail + ">")))
  }

  function MarkupText(m: Markup): string {
    match m
    case Elem(name, settings, space, content, ending) =>
      StartText(name, settings, space)
      + if ending.Within? then "/>" else ">" + (ContentText(content) + EndText(name, ending))
    case Words(pieces) => Raw(pieces)
    case Section(keyword, data) => "<![" + (keyword + ("[" + (data + "]]>")))
    case Remark(data) => "<!--" + (data + "-->")
    case Process(target, separator, data) => "<?" + (target + ([separator] + (data + "?>")))
  }

  function ContentText(ms: seq<Markup>): string {
    if ms == [] then "" else MarkupText(ms[0]) + ContentText(ms[1..])
  }

  // -------------------------------------------------------------------- meaning

  function Attributes(settings: seq<Setting>): seq<Attr> {
    if settings == [] then [] else [Attr(settings[0].name, Value(settings[0].value))] + Attributes(settings[1..])
  }

  function Meaning(m: Markup): Node {
    match m
    case Elem(name, settings, _, content, _) => Element(name, Attributes(settings), Meanings(content))
    case Words(pieces) => Text(Value(pieces))
    case Section(_, data) => CData(data)
    case Remark(data) => Comment(data)
    case Process(target, _, data) => Instruction(target, data)
  }

  function Meanings(ms: seq<Markup>): (r: seq<Node>)
    ensures |r| == |ms|
  {
    if ms == [] then [] else [Meaning(ms[0])] + Meanings(ms[1..])
  }

  /** Text at document level and XML declarations leave no trace. */
  function TopMeanings(ms: seq<Markup>): seq<Node> {
    if ms == [] then []
    else (if ms[0].Words? || (ms[0].Process? && UpperCase(ms[0].target) == "XML") then [] else [Meaning(ms[0])]) + TopMeanings(ms[1..])
  }
}
