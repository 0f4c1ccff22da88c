/**
 * Pages written as text, references, tags, declarations, comments and elements whose content is not page text, and
 * what the scanner reads of them (live/src/lib/html-text-space.ts, `htmlSourceTextSpace`).
 */
module HtmlPage {
  import opened Wrappers
  import opened Text
  import opened TextSpaces
  import opened HtmlTextSpace

  /** What stands between a tag's name and its ">": plain text, and quoted values. */
  datatype Part = Bare(text: string) | Quoted(quote: char, value: string)

  /**
   * One piece of a page. `Character` is text, escaped where it has to be; `Referenced` a character reference with or
   * without its semicolon; `LessThan` and `Ampersand` are signs that start nothing; `Declared` is a `<!..>` or `<?..>`;
   * `Hidden` an element such as a script, with its content and its closing tag.
   */
  datatype Node =
    | Character(c: char)
    | Referenced(body: string, closed: bool)
    | LessThan
    | Ampersand
    | Opening(name: string, parts: seq<Part>)
    | Closing(name: string)
    | Declared(mark: char, parts: seq<Part>)
    | Comment(body: string)
    | Hidden(name: string, parts: seq<Part>, body: string)

  // --- Writing a page ------------------------------------------------------------------------

  function PrintPart(p: Part): string {
    match p
    case Bare(text) => text
    case Quoted(quote, value) => [quote] + (value + [quote])
  }

  function PrintParts(parts: seq<Part>): string {
    if parts == [] then "" else PrintPart(parts[0]) + PrintParts(parts[1..])
  }

  function PrintReference(body: string, closed: bool): string {
    "&" + (body + if closed then ";" else "")
  }

  function PrintOpening(name: string, parts: seq<Part>): string {
    "<" + (name + (PrintParts(parts) + ">"))
  }

  function PrintClosing(name: string): string {
    "</" + (name + ">")
  }

  function PrintDeclared(mark: char, parts: seq<Part>): string {
    ['<', mark] + (PrintParts(parts) + ">")
  }

  function PrintNode(node: Node): (r: string)
    ensures r != ""
  {
    match node
    case Character(c) => EscapeChar(c)
    case Referenced(body, closed) => PrintReference(body, closed)
    case LessThan => "<"
    case Ampersand => "&"
    case Opening(name, parts) => PrintOpening(name, parts)
    case Closing(name) => PrintClosing(name)
    case Declared(mark, parts) => PrintDeclared(mark, parts)
    case Comment(body) => "<!--" + (body + "-->")
    case Hidden(name, parts, body) => PrintOpening(name, parts) + (body + PrintClosing(name))
  }

  function Print(nodes: seq<Node>): string {
    if nodes == [] then "" else PrintNode(nodes[0]) + Print(nodes[1..])
  }

  // --- Pages that are well written ---------------------------------------------------------------

  predicate NameOk(name: string) {
    name != "" && Letter(name[0]) && forall c | c in name :: NameChar(c)
  }

  /** A value may hold anything but its own quote, a ">" for example. */
  predicate PartOk(p: Part) {
    match p
    case Bare(text) => forall c | c in text :: c !in "\"'>"
    case Quoted(quote, value) => quote in "\"'" && quote !in value
  }

  predicate PartsOk(parts: seq<Part>) {
    forall p | p in parts :: PartOk(p)
  }

  /** What follows a name does not belong to it. */
  predicate TagOk(name: string, parts: seq<Part>) {
    NameOk(name) && PartsOk(parts) && (PrintParts(parts) != "" ==> !NameChar(PrintParts(parts)[0]))
  }

  /** A tag such as `<svg/>` closes itself. */
  predicate ClosesItself(parts: seq<Part>) {
    PrintParts(parts) != "" && PrintParts(parts)[|PrintParts(parts)| - 1] == '/'
  }

  predicate IsDecimal(body: string) {
    |body| > 1 && body[0] == '#' && forall c | c in body[1..] :: Digit(c)
  }

  predicate IsHexadecimal(body: string) {
    |body| > 2 && body[0] == '#' && body[1] in "xX" && forall c | c in body[2..] :: Hex(c)
  }

  predicate IsName(body: string) {
    body != "" && Letter(body[0]) && forall c | c in body :: Alnum(c)
  }

  /** A character after a reference that would be read as part of it. */
  predicate Continues(body: string, c: char) {
    if IsDecimal(body) then Digit(c) else if IsHexadecimal(body) then Hex(c) else Alnum(c)
  }

  /** A reference, and what comes after it on the page. */
  predicate ReferenceOk(body: string, closed: bool, rest: string) {
    && (IsDecimal(body) || IsHexadecimal(body) || IsName(body))
    && (!closed && rest != "" ==> rest[0] != ';' && !Continues(body, rest[0]))
  }

  /** An ampersand before `rest` starts no reference that stands for something else. */
  ghost predicate StartsNoReference(rules: Rules, rest: string) {
    forall body, closed, after: string |
      rest == body + ((if closed then ";" else "") + after) && ReferenceOk(body, closed, after) ::
      rules.decode(PrintReference(body, closed)) == PrintReference(body, closed)
  }

  /** A less-than sign before `rest` starts no tag, declaration or comment. */
  predicate StartsNoTag(rest: string) {
    rest == "" || (!Letter(rest[0]) && rest[0] !in "!?" && !(rest[0] == '/' && |rest| > 1 && Letter(rest[1])))
  }

  /** What ends an element or a comment is not written earlier in it; `rest` is what is written behind the piece. */
  ghost predicate NodeOk(rules: Rules, node: Node, rest: string) {
    match node
    case Character(_) => true
    case Referenced(body, closed) =>
      ReferenceOk(body, closed, rest) && rules.decode(PrintReference(body, closed)) != PrintReference(body, closed)
    case LessThan => StartsNoTag(rest)
    case Ampersand => StartsNoReference(rules, rest)
    case Opening(name, parts) => TagOk(name, parts) && (Lowered(name) in rules.skip ==> ClosesItself(parts))
    case Closing(name) => NameOk(name)
    case Declared(mark, parts) => mark in "!?" && PartsOk(parts) && !(mark == '!' && "--" <= PrintParts(parts))
    case Comment(body) => forall x | 0 <= x < |body| :: !MatchesAt(body + "-->", "-->", x)
    case Hidden(name, parts, body) =>
      && TagOk(name, parts) && !ClosesItself(parts) && Lowered(name) in rules.skip - rules.block
      && forall x | 0 <= x < |body| :: !MatchesAt(Lowered(body + "</" + name), "</" + Lowered(name), x)
  }

  /** Some pieces, with `tail` written behind them. */
  ghost predicate PageOk(rules: Rules, nodes: seq<Node>, tail: string)
    decreases |nodes|
  {
    nodes != [] ==> NodeOk(rules, nodes[0], Print(nodes[1..]) + tail) && PageOk(rules, nodes[1..], tail)
  }

  // --- What is read ------------------------------------------------------------------------------------

  predicate OfBlock(rules: Rules, node: Node) {
    (node.Opening? || node.Closing?) && Lowered(node.name) in rules.block
  }

  /**
   * What a piece shows after `text`: a character itself, a reference what it stands for, the tags of a block one
   * newline, but not at the start and not after a newline, and everything else nothing.
   */
  function Reads(rules: Rules, text: string, node: Node): string {
    match node
    case Character(c) => [c]
    case Referenced(body, closed) => rules.decode(PrintReference(body, closed))
    case LessThan => "<"
    case Ampersand => "&"
    case _ => if OfBlock(rules, node) && text != "" && text[|text| - 1] != '\n' then "\n" else ""
  }

  /** The text of the page. */
  function Read(rules: Rules, text: string, nodes: seq<Node>): string
    decreases |nodes|
  {
    if nodes == [] then text else Read(rules, text + Reads(rules, text, nodes[0]), nodes[1..])
  }

  /** The same, with the offset of its piece for each character. The pieces are written from `at` on. */
  function ReadOut(rules: Rules, out: Out, nodes: seq<Node>, at: nat): Out
    decreases |nodes|
  {
    if nodes == [] then out
    else ReadOut(rules, Add(out, Reads(rules, out.text, nodes[0]), at), nodes[1..], at + |PrintNode(nodes[0])|)
  }

  /** Which piece each character read comes from; the first piece has number `n`. */
  function PieceOf(rules: Rules, text: string, nodes: seq<Node>, n: nat): seq<nat>
    decreases |nodes|
  {
    if nodes == [] then []
    else
      var shown := Reads(rules, text, nodes[0]);
      Repeat(n, |shown|) + PieceOf(rules, text + shown, nodes[1..], n + 1)
  }

  /** What a piece can show. */
  predicate Shows(rules: Rules, node: Node, c: char) {
    match node
    case Character(own) => c == own
    case Referenced(body, closed) => c in rules.decode(PrintReference(body, closed))
    case LessThan => c == '<'
    case Ampersand => c == '&'
    case _ => OfBlock(rules, node) && c == '\n'
  }

  /** What the scan emits where the piece is written. */
  function EmitOf(rules: Rules, node: Node): Emit {
    match node
    case Character(c) => Chars([c])
    case Referenced(body, closed) => Chars(rules.decode(PrintReference(body, closed)))
    case LessThan => Chars("<")
    case Ampersand => Chars("&")
    case _ => if OfBlock(rules, node) then Break else Nothing
  }

  lemma EmitShows(rules: Rules, text: string, node: Node)
    ensures Shown(text, EmitOf(rules, node)) == Reads(rules, text, node)
  {
  }

  // --- Tags ----------------------------------------------------------------------------------------------

  lemma LettersArePlain(name: string, c: char)
    requires (forall x | x in name :: NameChar(x)) && c in name
    ensures c !in "\"'>"
  {
    assert NameChar(c);
  }

  lemma ValueSkipped(html: string, q: nat, value: string)
    requires q + 1 + |value| < |html| && html[q] in "\"'" && html[q + 1 + |value|] == html[q]
    requires MatchesAt(html, value, q + 1) && html[q] !in value
    ensures TagEnd(html, q, None) == TagEnd(html, q + 2 + |value|, None)
  {
    forall x | q < x < q + 1 + |value| ensures html[x] != html[q] {
      MatchedChar(html, value, q + 1, x - q - 1);
      assert value[x - q - 1] in value;
    }
    QuotedSkipped(html, q, q + 1 + |value|);
  }

  /** Where the parts of a quoted value are written. */
  lemma QuotedParts(html: string, q: nat, quote: char, value: string)
    requires MatchesAt(html, [quote] + (value + [quote]), q)
    ensures q + 1 + |value| < |html| && html[q] == quote == html[q + 1 + |value|] && MatchesAt(html, value, q + 1)
  {
    MatchesParts(html, [quote], value + [quote], q);
    MatchesParts(html, value, [quote], q + 1);
    MatchesChar(html, quote, q);
    MatchesChar(html, quote, q + 1 + |value|);
  }

  lemma BareSkipped(html: string, j: nat, text: string)
    requires MatchesAt(html, text, j) && forall c | c in text :: c !in "\"'>"
    ensures TagEnd(html, j, None) == TagEnd(html, j + |text|, None)
  {
    forall x | j <= x < j + |text| ensures html[x] !in "\"'>" {
      MatchedChar(html, text, j, x - j);
      assert text[x - j] in text;
    }
    PlainSkipped(html, j, j + |text|);
  }

  lemma PartSkipped(html: string, j: nat, next: nat, p: Part)
    requires PartOk(p) && MatchesAt(html, PrintPart(p), j) && next == j + |PrintPart(p)|
    ensures TagEnd(html, j, None) == TagEnd(html, next, None)
  {
    match p
    case Bare(text) => BareSkipped(html, j, text);
    case Quoted(quote, value) =>
      QuotedParts(html, j, quote, value);
      ValueSkipped(html, j, value);
  }

  lemma FirstPart(parts: seq<Part>, printed: string, first: Part, others: seq<Part>, rest: string)
    requires parts != [] && PartsOk(parts) && printed == PrintParts(parts)
    requires first == parts[0] && others == parts[1..] && rest == PrintParts(others)
    ensures printed == PrintPart(first) + rest && PartOk(first) && PartsOk(others)
  {
  }

  /** Past the first part, the others are written. */
  lemma FirstPartSkipped(html: string, j: nat, next: nat, p: Part, first: string, rest: string)
    requires PartOk(p) && first == PrintPart(p) && MatchesAt(html, first + rest, j) && next == j + |first|
    ensures MatchesAt(html, rest, next) && TagEnd(html, j, None) == TagEnd(html, next, None)
  {
    MatchesParts(html, first, rest, j);
    PartSkipped(html, j, next, p);
  }

  lemma {:induction false} PartsSkipped(html: string, j: nat, end: nat, parts: seq<Part>, printed: string)
    requires PartsOk(parts) && printed == PrintParts(parts) && MatchesAt(html, printed, j) && end == j + |printed|
    ensures TagEnd(html, j, None) == TagEnd(html, end, None)
    decreases |parts|
  {
    if parts != [] {
      var first, others, rest := parts[0], parts[1..], PrintParts(parts[1..]);
      var next := j + |PrintPart(first)|;
      FirstPart(parts, printed, first, others, rest);
      FirstPartSkipped(html, j, next, first, PrintPart(first), rest);
      PartsSkipped(html, next, end, others, rest);
    }
  }

  lemma NamePlain(html: string, j: nat, name: string)
    requires (forall c | c in name :: NameChar(c)) && MatchesAt(html, name, j)
    ensures TagEnd(html, j, None) == TagEnd(html, j + |name|, None)
  {
    forall c | c in name ensures c !in "\"'>" {
      LettersArePlain(name, c);
    }
    BareSkipped(html, j, name);
  }

  /** Where the parts of an opening tag are written. */
  lemma OpeningParts(html: string, i: nat, name: string, printed: string)
    requires MatchesAt(html, "<" + (name + (printed + ">")), i)
    ensures i + 1 + |name| + |printed| < |html| && html[i] == '<' && MatchesAt(html, name, i + 1)
    ensures MatchesAt(html, printed, i + 1 + |name|) && html[i + 1 + |name| + |printed|] == '>'
  {
    MatchesParts(html, "<", name + (printed + ">"), i);
    MatchesParts(html, name, printed + ">", i + 1);
    MatchesParts(html, printed, ">", i + 1 + |name|);
    MatchesChar(html, '<', i);
    MatchesChar(html, '>', i + 1 + |name| + |printed|);
  }

  /** An opening tag ends at its own ">". */
  lemma OpeningEnd(html: string, i: nat, name: string, parts: seq<Part>)
    requires TagOk(name, parts) && MatchesAt(html, PrintOpening(name, parts), i)
    ensures TagEnd(html, i + 1, None) == i + |PrintOpening(name, parts)| - 1
  {
    OpeningEndAt(html, i, name, parts, PrintParts(parts));
  }

  lemma OpeningEndAt(html: string, i: nat, name: string, parts: seq<Part>, printed: string)
    requires NameOk(name) && PartsOk(parts) && printed == PrintParts(parts) && MatchesAt(html, "<" + (name + (printed + ">")), i)
    ensures TagEnd(html, i + 1, None) == i + 1 + |name| + |printed|
  {
    OpeningParts(html, i, name, printed);
    OpeningSkipped(html, i + 1, i + 1 + |name|, i + 1 + |name| + |printed|, name, parts, printed);
  }

  lemma OpeningSkipped(html: string, i: nat, n: nat, end: nat, name: string, parts: seq<Part>, printed: string)
    requires NameOk(name) && MatchesAt(html, name, i) && n == i + |name|
    requires PartsOk(parts) && printed == PrintParts(parts) && MatchesAt(html, printed, n) && end == n + |printed|
    requires end < |html| && html[end] == '>'
    ensures TagEnd(html, i, None) == end
  {
    NamePlain(html, i, name);
    PartsSkipped(html, n, end, parts, printed);
    TagEndHere(html, end);
  }

  lemma TagEndHere(html: string, j: nat)
    requires j < |html| && html[j] == '>'
    ensures TagEnd(html, j, None) == j
  {
  }

  /** What follows the name does not belong to it, and it shows whether the tag closes itself. */
  lemma OpeningRead(html: string, i: nat, name: string, parts: seq<Part>)
    requires TagOk(name, parts) && MatchesAt(html, PrintOpening(name, parts), i)
    ensures OpensTag(html, i, name)
    ensures html[i + |PrintOpening(name, parts)| - 2] == '/' <==> ClosesItself(parts)
  {
    var printed, n := PrintParts(parts), i + 1 + |name|;
    OpeningParts(html, i, name, printed);
    if printed != "" {
      MatchedChar(html, printed, n, 0);
      MatchedChar(html, printed, n, |printed| - 1);
    } else {
      MatchedChar(html, name, i + 1, |name| - 1);
      assert NameChar(name[|name| - 1]);
    }
  }

  /** What a comment starts with. */
  lemma CommentMark(html: string, i: nat)
    ensures MatchesAt(html, "<!--", i) ==> i + 3 < |html| && html[i + 1] == '!' && html[i + 2] == html[i + 3] == '-'
  {
    if MatchesAt(html, "<!--", i) {
      MatchedChar(html, "<!--", i, 1);
      MatchedChar(html, "<!--", i, 2);
      MatchedChar(html, "<!--", i, 3);
    }
  }

  /** Where the parts of a closing tag are written. */
  lemma ClosingParts(html: string, i: nat, name: string)
    requires MatchesAt(html, PrintClosing(name), i)
    ensures i + 2 + |name| < |html| && html[i] == '<' && html[i + 1] == '/' && html[i + 2 + |name|] == '>'
    ensures MatchesAt(html, name, i + 2)
  {
    MatchesParts(html, "</", name + ">", i);
    MatchesParts(html, name, ">", i + 2);
    MatchesPair(html, '<', '/', i);
    MatchesChar(html, '>', i + 2 + |name|);
  }

  lemma ClosingEnd(html: string, i: nat, name: string)
    requires NameOk(name) && MatchesAt(html, PrintClosing(name), i)
    ensures TagEnd(html, i + 1, None) == i + 2 + |name|
  {
    ClosingParts(html, i, name);
    PlainSkipped(html, i + 1, i + 2);
    NamePlain(html, i + 2, name);
  }

  lemma ClosingTag(html: string, i: nat, name: string)
    requires NameOk(name) && MatchesAt(html, PrintClosing(name), i)
    ensures i < |html| && html[i] == '<' && TagAt(html, i) == Some(Tag(true, name)) && !MatchesAt(html, "<!--", i)
  {
    ClosingParts(html, i, name);
    MatchedChar(html, name, i + 2, 0);
    SpanIs(html, i + 2, name, NameChar);
    CommentMark(html, i);
  }

  lemma ClosingRead(html: string, rules: Rules, i: nat, name: string)
    requires NameOk(name) && MatchesAt(html, PrintClosing(name), i)
    ensures StepAt(html, rules, i) == Step(i + |PrintClosing(name)|, if Lowered(name) in rules.block then Break else Nothing)
  {
    ClosingTag(html, i, name);
    ClosingEnd(html, i, name);
  }

  /** The content of a hidden element ends at its closing tag, in whatever case. */
  lemma HiddenEnd(html: string, b: nat, name: string, body: string)
    requires NameOk(name) && MatchesAt(html, body + PrintClosing(name), b)
    requires forall x | 0 <= x < |body| :: !MatchesAt(Lowered(body + "</" + name), "</" + Lowered(name), x)
    ensures FirstAt(Lowered(html), "</" + Lowered(name), b, b + |body|)
  {
    var inner, tag := body + "</" + name, "</" + Lowered(name);
    assert body + PrintClosing(name) == inner + ">";
    MatchesParts(html, inner, ">", b);
    LoweredMatches(html, inner, b);
    LoweredParts(body, "</", name);
    assert Lowered("</") == "</";
    forall x | b <= x <= b + |body| ensures MatchesAt(Lowered(html), tag, x) <==> MatchesAt(Lowered(inner), tag, x - b) {
      MatchesInside(Lowered(html), Lowered(inner), b, tag, x - b);
    }
    assert Lowered(inner)[|body|..|body| + |tag|] == tag;
  }

  lemma LoweredMatches(html: string, t: string, i: nat)
    requires MatchesAt(html, t, i)
    ensures MatchesAt(Lowered(html), Lowered(t), i)
  {
    forall k | 0 <= k < |t| ensures Lowered(html)[i + k] == Lowered(t)[k] {
      MatchedChar(html, t, i, k);
    }
    assert Lowered(html)[i..i + |t|] == Lowered(t);
  }

  lemma LoweredParts(x: string, y: string, z: string)
    ensures Lowered(x + y + z) == Lowered(x) + (Lowered(y) + Lowered(z))
  {
  }

  // --- One piece at a time ------------------------------------------------------------------------------------

  lemma OneStep(html: string, rules: Rules, i: nat, next: nat, emit: Emit, out: Out)
    requires i < |html| && StepAt(html, rules, i) == Step(next, emit)
    ensures Scan(html, rules, i, out) == Scan(html, rules, next, Add(out, Shown(out.text, emit), i))
  {
  }

  /** One step goes over one piece, unless it is hidden, and emits what the piece is read as. */
  lemma NodeStep(html: string, rules: Rules, i: nat, next: nat, node: Node)
    requires MatchesAt(html, PrintNode(node), i) && next == i + |PrintNode(node)|
    requires DecodesXml(rules) && NodeOk(rules, node, html[next..]) && !node.Hidden?
    ensures i < |html| && StepAt(html, rules, i) == Step(next, EmitOf(rules, node))
  {
    match node
    case Character(c) => EscapedStep(html, rules, i, c);
    case Referenced(body, closed) => ReferenceRead(html, rules, i, next, body, closed);
    case LessThan => LessThanRead(html, rules, i);
    case Ampersand => AmpersandRead(html, rules, i);
    case Opening(name, parts) =>
      OpeningRead(html, i, name, parts);
      OpeningEnd(html, i, name, parts);
      OpenTagMeaning(html, rules, i, name, 0);
    case Closing(name) => ClosingRead(html, rules, i, name);
    case Declared(mark, parts) => DeclaredRead(html, rules, i, next, mark, parts);
    case Comment(body) => CommentRead(html, rules, i, body);
  }

  // --- References and signs ------------------------------------------------------------------------------------

  /** Where the parts of a reference are written. */
  lemma ReferenceParts(html: string, i: nat, n: nat, body: string, closed: bool)
    requires MatchesAt(html, PrintReference(body, closed), i) && n == i + 1 + |body|
    ensures n <= |html| && html[i] == '&' && html[i + 1..n] == body && (closed ==> n < |html| && html[n] == ';')
  {
    MatchesParts(html, "&", body + if closed then ";" else "", i);
    MatchesParts(html, body, if closed then ";" else "", i + 1);
    MatchesChar(html, '&', i);
    MatchesChar(html, ';', n);
  }

  /** The digits or letters of a reference run up to its end. */
  lemma ReferenceSpan(html: string, i: nat, n: nat, body: string)
    requires i < n <= |html| && n == i + 1 + |body| && html[i + 1..n] == body
    requires IsDecimal(body) || IsHexadecimal(body) || IsName(body)
    requires n < |html| ==> !Continues(body, html[n])
    ensures Reference(html, i) == Some(PastSemicolon(html, n))
  {
    if IsDecimal(body) {
      DecimalSpan(html, i, n, body);
    } else if IsHexadecimal(body) {
      HexadecimalSpan(html, i, n, body);
    } else {
      assert html[i + 1] == html[i + 1..n][0];
      SpanIs(html, i + 1, body, Alnum);
    }
  }

  lemma BodyChar(html: string, a: nat, n: nat, body: string, k: nat)
    requires a <= n <= |html| && html[a..n] == body && k < |body|
    ensures html[a + k] == body[k]
  {
    assert html[a..n][k] == html[a + k];
  }

  lemma DecimalSpan(html: string, i: nat, n: nat, body: string)
    requires i < n <= |html| && n == i + 1 + |body| && html[i + 1..n] == body
    requires IsDecimal(body) && (n < |html| ==> !Digit(html[n]))
    ensures Reference(html, i) == Some(PastSemicolon(html, n))
  {
    SliceOfSlice(html, i + 1, n, 1, |body|);
    SpanIs(html, i + 2, body[1..], Digit);
    BodyChar(html, i + 1, n, body, 0);
    DecimalAt(html, i, n);
  }

  lemma DecimalAt(html: string, i: nat, n: nat)
    requires i + 2 < n <= |html| && html[i + 1] == '#' && SpanEnd(html, i + 2, Digit) == n
    ensures Reference(html, i) == Some(PastSemicolon(html, n))
  {
  }

  lemma HexadecimalSpan(html: string, i: nat, n: nat, body: string)
    requires i < n <= |html| && n == i + 1 + |body| && html[i + 1..n] == body
    requires IsHexadecimal(body) && (n < |html| ==> !Hex(html[n]))
    ensures Reference(html, i) == Some(PastSemicolon(html, n))
  {
    SliceOfSlice(html, i + 1, n, 2, |body|);
    SpanIs(html, i + 3, body[2..], Hex);
    BodyChar(html, i + 1, n, body, 0);
    BodyChar(html, i + 1, n, body, 1);
    HexadecimalAt(html, i, n);
  }

  lemma HexadecimalAt(html: string, i: nat, n: nat)
    requires i + 3 < n <= |html| && html[i + 1] == '#' && html[i + 2] in "xX" && SpanEnd(html, i + 3, Hex) == n
    ensures Reference(html, i) == Some(PastSemicolon(html, n))
  {
  }

  lemma ReferenceRead(html: string, rules: Rules, i: nat, next: nat, body: string, closed: bool)
    requires MatchesAt(html, PrintReference(body, closed), i) && next == i + |PrintReference(body, closed)|
    requires ReferenceOk(body, closed, html[next..])
    requires rules.decode(PrintReference(body, closed)) != PrintReference(body, closed)
    ensures StepAt(html, rules, i) == Step(next, Chars(rules.decode(PrintReference(body, closed))))
  {
    var n := i + 1 + |body|;
    ReferenceParts(html, i, n, body, closed);
    if n < |html| {
      assert !closed ==> html[next..][0] == html[n];
      assert !Continues(body, ';');
    }
    ReferenceSpan(html, i, n, body);
  }

  lemma DecimalRead(html: string, i: nat, m: nat)
    requires i + 2 < |html| && html[i + 1] == '#' && Digit(html[i + 2]) && m == SpanEnd(html, i + 2, Digit)
    ensures i + 2 < m && IsDecimal(html[i + 1..m])
  {
    SpanHolds(html, i + 2, Digit);
    assert html[i + 1..m][1..] == html[i + 2..m];
  }

  lemma HexadecimalRead(html: string, i: nat, m: nat)
    requires i + 3 < |html| && html[i + 1] == '#' && html[i + 2] in "xX" && Hex(html[i + 3]) && m == SpanEnd(html, i + 3, Hex)
    ensures i + 3 < m && IsHexadecimal(html[i + 1..m]) && !IsDecimal(html[i + 1..m])
  {
    SpanHolds(html, i + 3, Hex);
    assert html[i + 1..m][2..] == html[i + 3..m];
    assert html[i + 2] == html[i + 1..m][1..][0] && html[i + 1..m][1..][0] in html[i + 1..m][1..];
  }

  lemma NameRead(html: string, i: nat, m: nat)
    requires i + 1 < |html| && Letter(html[i + 1]) && m == SpanEnd(html, i + 1, Alnum)
    ensures i + 1 < m && IsName(html[i + 1..m]) && html[i + 1..m][0] != '#'
  {
    SpanHolds(html, i + 1, Alnum);
  }

  /** What is read as a reference is one, without its semicolon up to `m`. */
  lemma ReferenceWritten(html: string, i: nat, n: nat) returns (m: nat)
    requires i < |html| && Reference(html, i) == Some(n)
    ensures i < m <= n <= |html| && n == PastSemicolon(html, m) && ReferenceOk(html[i + 1..m], m < n, html[n..])
  {
    if i + 2 < |html| && html[i + 1] == '#' && Digit(html[i + 2]) {
      m := SpanEnd(html, i + 2, Digit);
      DecimalRead(html, i, m);
    } else if i + 3 < |html| && html[i + 1] == '#' && html[i + 2] in "xX" && Hex(html[i + 3]) {
      m := SpanEnd(html, i + 3, Hex);
      HexadecimalRead(html, i, m);
    } else {
      m := SpanEnd(html, i + 1, Alnum);
      NameRead(html, i, m);
    }
  }

  /** It is written as the piece of the page it is. */
  lemma ReferenceText(html: string, i: nat, m: nat, n: nat)
    requires i < m <= n <= |html| && html[i] == '&' && n == PastSemicolon(html, m)
    ensures PrintReference(html[i + 1..m], m < n) == html[i..n]
    ensures html[i + 1..] == html[i + 1..m] + ((if m < n then ";" else "") + html[n..])
  {
  }

  lemma AmpersandRead(html: string, rules: Rules, i: nat)
    requires MatchesAt(html, "&", i) && StartsNoReference(rules, html[i + 1..])
    ensures StepAt(html, rules, i) == Step(i + 1, Chars("&"))
  {
    MatchesChar(html, '&', i);
    var end := Reference(html, i);
    if end.Some? {
      var m := ReferenceWritten(html, i, end.value);
      ReferenceText(html, i, m, end.value);
    }
  }

  lemma LessThanRead(html: string, rules: Rules, i: nat)
    requires MatchesAt(html, "<", i) && StartsNoTag(html[i + 1..])
    ensures StepAt(html, rules, i) == Step(i + 1, Chars("<"))
  {
    MatchesChar(html, '<', i);
    var rest := html[i + 1..];
    assert forall k | 0 <= k < |rest| :: rest[k] == html[i + 1 + k];
    CommentMark(html, i);
  }

  // --- Declarations ----------------------------------------------------------------------------------------------

  /** Where the parts of a declaration are written. */
  lemma DeclaredParts(html: string, i: nat, mark: char, printed: string)
    requires MatchesAt(html, ['<', mark] + (printed + ">"), i)
    ensures i + 2 + |printed| < |html| && html[i] == '<' && html[i + 1] == mark && html[i + 2 + |printed|] == '>'
    ensures MatchesAt(html, printed, i + 2)
  {
    MatchesParts(html, ['<', mark], printed + ">", i);
    MatchesParts(html, printed, ">", i + 2);
    MatchesPair(html, '<', mark, i);
    MatchesChar(html, '>', i + 2 + |printed|);
  }

  /** A declaration is not a comment. */
  lemma DeclaredNoComment(html: string, i: nat, mark: char, printed: string)
    requires MatchesAt(html, ['<', mark] + (printed + ">"), i) && !(mark == '!' && "--" <= printed)
    ensures !MatchesAt(html, "<!--", i)
  {
    DeclaredParts(html, i, mark, printed);
    CommentMark(html, i);
  }

  lemma DeclaredEnd(html: string, i: nat, mark: char, parts: seq<Part>)
    requires MatchesAt(html, PrintDeclared(mark, parts), i) && mark in "!?" && PartsOk(parts)
    ensures TagEnd(html, i + 1, None) == i + |PrintDeclared(mark, parts)| - 1
  {
    var printed := PrintParts(parts);
    DeclaredParts(html, i, mark, printed);
    DeclaredSkipped(html, i + 2, i + 2 + |printed|, parts, printed);
  }

  lemma DeclaredSkipped(html: string, n: nat, end: nat, parts: seq<Part>, printed: string)
    requires 0 < n && PartsOk(parts) && printed == PrintParts(parts) && MatchesAt(html, printed, n) && end == n + |printed|
    requires end < |html| && html[n - 1] in "!?" && html[end] == '>'
    ensures TagEnd(html, n - 1, None) == end
  {
    MarkSkipped(html, n - 1);
    PartsSkipped(html, n, end, parts, printed);
    TagEndHere(html, end);
  }

  lemma MarkSkipped(html: string, j: nat)
    requires j < |html| && html[j] in "!?"
    ensures TagEnd(html, j, None) == TagEnd(html, j + 1, None)
  {
  }

  lemma DeclaredRead(html: string, rules: Rules, i: nat, next: nat, mark: char, parts: seq<Part>)
    requires MatchesAt(html, PrintDeclared(mark, parts), i) && next == i + |PrintDeclared(mark, parts)|
    requires mark in "!?" && PartsOk(parts) && !(mark == '!' && "--" <= PrintParts(parts))
    ensures StepAt(html, rules, i) == Step(next, Nothing)
  {
    DeclaredEnd(html, i, mark, parts);
    DeclaredNoComment(html, i, mark, PrintParts(parts));
    DeclaredParts(html, i, mark, PrintParts(parts));
    DeclaredStep(html, rules, i, next - 1);
  }

  /** A declaration shows as nothing, and the scan goes on after it. */
  lemma DeclaredStep(html: string, rules: Rules, i: nat, end: nat)
    requires i + 1 < |html| && html[i] == '<' && html[i + 1] in "!?" && !MatchesAt(html, "<!--", i)
    requires end == TagEnd(html, i + 1, None)
    ensures StepAt(html, rules, i) == Step(end + 1, Nothing)
  {
  }

  lemma CommentRead(html: string, rules: Rules, i: nat, body: string)
    requires (forall x | 0 <= x < |body| :: !MatchesAt(body + "-->", "-->", x)) && MatchesAt(html, PrintNode(Comment(body)), i)
    ensures StepAt(html, rules, i) == Step(i + |PrintNode(Comment(body))|, Nothing)
  {
    var inner := body + "-->";
    MatchesParts(html, "<!--", inner, i);
    forall x | i + 4 <= x <= i + 4 + |body| ensures MatchesAt(html, "-->", x) <==> MatchesAt(inner, "-->", x - i - 4) {
      MatchesInside(html, inner, i + 4, "-->", x - i - 4);
    }
    assert inner[|body|..|body| + 3] == "-->";
    CommentMeaning(html, rules, i, i + 4 + |body|);
  }

  /** Where the parts of a hidden element are written. */
  lemma HiddenParts(html: string, i: nat, opening: string, body: string, closing: string)
    requires MatchesAt(html, opening + (body + closing), i)
    ensures MatchesAt(html, opening, i) && MatchesAt(html, body + closing, i + |opening|)
    ensures MatchesAt(html, closing, i + |opening| + |body|)
  {
    MatchesParts(html, opening, body + closing, i);
    MatchesParts(html, body, closing, i + |opening|);
  }

  /** From its opening tag the scan goes on at its closing tag. */
  lemma HiddenStep(html: string, rules: Rules, i: nat, name: string, j: nat, close: nat)
    requires OpensTag(html, i, name) && TagEnd(html, i + 1, None) == j && 0 < j <= |html| && html[j - 1] != '/'
    requires Lowered(name) in rules.skip && Lowered(name) !in rules.block && FirstAt(Lowered(html), "</" + Lowered(name), j + 1, close)
    ensures StepAt(html, rules, i) == Step(close, Nothing)
  {
    OpenTagMeaning(html, rules, i, name, close);
  }

  /** Two steps that show nothing. */
  lemma TwoSteps(html: string, rules: Rules, i: nat, close: nat, n: nat, out: Out)
    requires i < |html| && close < |html|
    requires StepAt(html, rules, i) == Step(close, Nothing) && StepAt(html, rules, close) == Step(n, Nothing)
    ensures Scan(html, rules, i, out) == Scan(html, rules, n, out)
  {
    OneStep(html, rules, i, close, Nothing, out);
    OneStep(html, rules, close, n, Nothing, out);
    NothingAdded(out, i);
    NothingAdded(out, close);
  }

  lemma HiddenScanned(html: string, rules: Rules, i: nat, next: nat, name: string, parts: seq<Part>, body: string, out: Out)
    requires NodeOk(rules, Hidden(name, parts, body), "") && MatchesAt(html, PrintNode(Hidden(name, parts, body)), i)
    requires next == i + |PrintNode(Hidden(name, parts, body))|
    ensures Scan(html, rules, i, out) == Scan(html, rules, next, out)
  {
    var opening, closing := PrintOpening(name, parts), PrintClosing(name);
    HiddenParts(html, i, opening, body, closing);
    HiddenAt(html, rules, i, i + |opening| - 1, i + |opening| + |body|, next, name, parts, body, out);
  }

  /** A hidden element whose opening tag ends at `j` and whose closing tag starts at `close`. */
  lemma HiddenAt(html: string, rules: Rules, i: nat, j: nat, close: nat, next: nat, name: string, parts: seq<Part>, body: string, out: Out)
    requires NodeOk(rules, Hidden(name, parts, body), "") && j == i + |PrintOpening(name, parts)| - 1
    requires close == j + 1 + |body| && next == close + |PrintClosing(name)|
    requires MatchesAt(html, PrintOpening(name, parts), i) && MatchesAt(html, body + PrintClosing(name), j + 1)
    requires MatchesAt(html, PrintClosing(name), close)
    ensures Scan(html, rules, i, out) == Scan(html, rules, next, out)
  {
    OpeningNotClosed(html, i, j, name, parts);
    HiddenOpens(html, rules, i, j, name, body);
    HiddenBoth(html, rules, i, close, next, name, out);
  }

  lemma OpeningNotClosed(html: string, i: nat, j: nat, name: string, parts: seq<Part>)
    requires TagOk(name, parts) && !ClosesItself(parts) && MatchesAt(html, PrintOpening(name, parts), i)
    requires j == i + |PrintOpening(name, parts)| - 1
    ensures OpensTag(html, i, name) && 0 < j < |html| && TagEnd(html, i + 1, None) == j && html[j - 1] != '/'
  {
    OpeningRead(html, i, name, parts);
    OpeningEnd(html, i, name, parts);
  }

  /** The step over the opening tag and the content of a hidden element. */
  lemma HiddenOpens(html: string, rules: Rules, i: nat, j: nat, name: string, body: string)
    requires NameOk(name) && Lowered(name) in rules.skip - rules.block && MatchesAt(html, body + PrintClosing(name), j + 1)
    requires forall x | 0 <= x < |body| :: !MatchesAt(Lowered(body + "</" + name), "</" + Lowered(name), x)
    requires OpensTag(html, i, name) && 0 < j < |html| && TagEnd(html, i + 1, None) == j && html[j - 1] != '/'
    ensures StepAt(html, rules, i) == Step(j + 1 + |body|, Nothing)
  {
    HiddenEnd(html, j + 1, name, body);
    HiddenStep(html, rules, i, name, j, j + 1 + |body|);
  }

  lemma HiddenBoth(html: string, rules: Rules, i: nat, close: nat, next: nat, name: string, out: Out)
    requires i < |html| && StepAt(html, rules, i) == Step(close, Nothing) && NameOk(name) && Lowered(name) !in rules.block
    requires MatchesAt(html, PrintClosing(name), close) && next == close + |PrintClosing(name)|
    ensures Scan(html, rules, i, out) == Scan(html, rules, next, out)
  {
    ClosingRead(html, rules, close, name);
    TwoSteps(html, rules, i, close, next, out);
  }

  lemma NothingAdded(out: Out, at: nat)
    ensures Add(out, "", at) == out
  {
  }

  /** The scan goes over one piece that is written at `i`, and shows what the piece is read as. */
  lemma NodeScanned(html: string, rules: Rules, i: nat, next: nat, node: Node, out: Out, last: Out)
    requires MatchesAt(html, PrintNode(node), i) && next == i + |PrintNode(node)|
    requires DecodesXml(rules) && NodeOk(rules, node, html[next..])
    requires last == Add(out, Reads(rules, out.text, node), i)
    ensures Scan(html, rules, i, out) == Scan(html, rules, next, last)
  {
    if node.Hidden? {
      HiddenScanned(html, rules, i, next, node.name, node.parts, node.body, out);
      NothingAdded(out, i);
    } else {
      NodeStep(html, rules, i, next, node);
      OneStep(html, rules, i, next, EmitOf(rules, node), out);
      EmitShows(rules, out.text, node);
    }
  }

  lemma ReadOutNext(rules: Rules, out: Out, nodes: seq<Node>, at: nat)
    requires nodes != []
    ensures ReadOut(rules, out, nodes, at)
            == ReadOut(rules, Add(out, Reads(rules, out.text, nodes[0]), at), nodes[1..], at + |PrintNode(nodes[0])|)
  {
  }

  lemma ReadOutStep(rules: Rules, out: Out, nodes: seq<Node>, at: nat, next: Out, after: nat, last: Out)
    requires nodes != [] && last == ReadOut(rules, out, nodes, at)
    requires next == Add(out, Reads(rules, out.text, nodes[0]), at) && after == at + |PrintNode(nodes[0])|
    ensures last == ReadOut(rules, next, nodes[1..], after)
  {
    ReadOutNext(rules, out, nodes, at);
  }

  /** Where the first of some pieces, and what follows it, are written. */
  lemma FirstWritten(html: string, before: string, nodes: seq<Node>, tail: string)
    requires nodes != [] && html == before + (Print(nodes) + tail)
    ensures html == before + PrintNode(nodes[0]) + (Print(nodes[1..]) + tail)
    ensures MatchesAt(html, PrintNode(nodes[0]), |before|)
    ensures html[|before| + |PrintNode(nodes[0])|..] == Print(nodes[1..]) + tail
  {
    Regroup(PrintNode(nodes[0]), Print(nodes[1..]), tail);
    WrittenAfter(before, PrintNode(nodes[0]), Print(nodes[1..]) + tail);
  }

  /** The scan reads some pieces that are written after `before`, and goes on behind them. */
  lemma {:induction false} PiecesScanned(html: string, before: string, at: nat, rules: Rules, nodes: seq<Node>, tail: string, out: Out, last: Out)
    requires DecodesXml(rules) && PageOk(rules, nodes, tail)
    requires html == before + (Print(nodes) + tail) && at == |before| && last == ReadOut(rules, out, nodes, at)
    ensures Scan(html, rules, at, out) == Scan(html, rules, |html| - |tail|, last)
    decreases |nodes|
  {
    if nodes != [] {
      var node, after := nodes[0], at + |PrintNode(nodes[0])|;
      var next := Add(out, Reads(rules, out.text, node), at);
      FirstWritten(html, before, nodes, tail);
      ReadOutStep(rules, out, nodes, at, next, after, last);
      NodeScanned(html, rules, at, after, node, out, next);
      PiecesScanned(html, before + PrintNode(node), after, rules, nodes[1..], tail, next, last);
    }
  }

  lemma {:induction false} ReadOutText(rules: Rules, out: Out, nodes: seq<Node>, at: nat)
    ensures ReadOut(rules, out, nodes, at).text == Read(rules, out.text, nodes)
    decreases |nodes|
  {
    if nodes != [] {
      ReadOutText(rules, Add(out, Reads(rules, out.text, nodes[0]), at), nodes[1..], at + |PrintNode(nodes[0])|);
    }
  }

  lemma {:induction false} PrintConcat(x: seq<Node>, y: seq<Node>)
    ensures Print(x + y) == Print(x) + Print(y)
  {
    if x == [] {
      assert x + y == y;
    } else {
      assert (x + y)[1..] == x[1..] + y;
      PrintConcat(x[1..], y);
      Regroup(PrintNode(x[0]), Print(x[1..]), Print(y));
    }
  }

  lemma PrintOneMore(nodes: seq<Node>, i: nat)
    requires i < |nodes|
    ensures Print(nodes[..i + 1]) == Print(nodes[..i]) + PrintNode(nodes[i])
  {
    assert nodes[..i + 1] == nodes[..i] + [nodes[i]];
    PrintConcat(nodes[..i], [nodes[i]]);
    assert [nodes[i]][1..] == [] && PrintNode(nodes[i]) + "" == PrintNode(nodes[i]);
  }

  /** The characters from `m` on come from these pieces: each shows what its piece shows, at the place where the piece is written. */
  ghost predicate FromPieces(rules: Rules, nodes: seq<Node>, r: Out, pieces: seq<nat>, m: nat) {
    && |r.text| == |r.pos| == m + |pieces|
    && forall k | 0 <= k < |pieces| ::
         pieces[k] < |nodes| && r.pos[m + k] == |Print(nodes[..pieces[k]])| && Shows(rules, nodes[pieces[k]], r.text[m + k])
  }

  lemma PieceOfNext(rules: Rules, text: string, nodes: seq<Node>, n: nat, shown: string)
    requires nodes != [] && shown == Reads(rules, text, nodes[0])
    ensures PieceOf(rules, text, nodes, n) == Repeat(n, |shown|) + PieceOf(rules, text + shown, nodes[1..], n + 1)
  {
  }

  lemma {:induction false} ReadOutPlaces(rules: Rules, out: Out, nodes: seq<Node>, i: nat, rest: seq<Node>, at: nat, r: Out, pieces: seq<nat>)
    requires i <= |nodes| && rest == nodes[i..] && at == |Print(nodes[..i])| && |out.text| == |out.pos|
    requires r == ReadOut(rules, out, rest, at) && pieces == PieceOf(rules, out.text, rest, i)
    ensures out.text <= r.text && out.pos <= r.pos && FromPieces(rules, nodes, r, pieces, |out.text|)
    decreases |rest|
  {
    if rest != [] {
      var shown, after := Reads(rules, out.text, rest[0]), at + |PrintNode(rest[0])|;
      var next, more := Add(out, shown, at), PieceOf(rules, out.text + shown, rest[1..], i + 1);
      PrintOneMore(nodes, i);
      ReadOutStep(rules, out, rest, at, next, after, r);
      PieceOfNext(rules, out.text, rest, i, shown);
      ReadOutPlaces(rules, next, nodes, i + 1, rest[1..], after, r, more);
      ShownFromPiece(rules, out, next, nodes, i, shown);
      PiecesJoined(rules, nodes, r, next, Repeat(i, |shown|), more, |out.text|);
    }
  }

  lemma ShownFromPiece(rules: Rules, out: Out, next: Out, nodes: seq<Node>, i: nat, shown: string)
    requires i < |nodes| && |out.text| == |out.pos| && shown == Reads(rules, out.text, nodes[i])
    requires next == Add(out, shown, |Print(nodes[..i])|)
    ensures FromPieces(rules, nodes, next, Repeat(i, |shown|), |out.text|)
  {
  }

  lemma PiecesJoined(rules: Rules, nodes: seq<Node>, r: Out, next: Out, first: seq<nat>, rest: seq<nat>, m: nat)
    requires FromPieces(rules, nodes, next, first, m) && FromPieces(rules, nodes, r, rest, |next.text|)
    requires next.text <= r.text && next.pos <= r.pos
    ensures FromPieces(rules, nodes, r, first + rest, m)
  {
    forall k | 0 <= k < |first + rest|
      ensures var p := (first + rest)[k];
              p < |nodes| && r.pos[m + k] == |Print(nodes[..p])| && Shows(rules, nodes[p], r.text[m + k])
    {
      if k < |first| {
        assert r.pos[m + k] == next.pos[m + k] && r.text[m + k] == next.text[m + k];
      } else {
        assert (first + rest)[k] == rest[k - |first|];
      }
    }
  }

  /**
   * A page reads as the text of its pieces, whatever tags, declarations, comments and scripts are between them, and each
   * character read has the place of its own piece.
   */
  lemma PageReads(rules: Rules, nodes: seq<Node>, page: Out)
    requires DecodesXml(rules) && PageOk(rules, nodes, "") && page == PageText(Print(nodes), rules)
    ensures page.text == Read(rules, "", nodes)
    ensures FromPieces(rules, nodes, page, PieceOf(rules, "", nodes, 0), 0)
  {
    var html, last := Print(nodes), ReadOut(rules, Out("", []), nodes, 0);
    assert "" + (html + "") == html;
    PiecesScanned(html, "", 0, rules, nodes, "", Out("", []), last);
    ScanDone(html, rules, last);
    ReadOutText(rules, Out("", []), nodes, 0);
    assert nodes[0..] == nodes && nodes[..0] == [];
    ReadOutPlaces(rules, Out("", []), nodes, 0, nodes, 0, last, PieceOf(rules, "", nodes, 0));
  }

  /** So each character read is on the line its piece starts on. */
  lemma PageLines(rules: Rules, nodes: seq<Node>, page: Out, pieces: seq<nat>, k: nat)
    requires DecodesXml(rules) && PageOk(rules, nodes, "") && page == PageText(Print(nodes), rules)
    requires pieces == PieceOf(rules, "", nodes, 0) && k < |page.text|
    ensures |pieces| == |page.text| && pieces[k] < |nodes|
    ensures LineOfIndex(Print(nodes), page, k) == Some(1 + Newlines(Print(nodes[..pieces[k]])))
  {
    PageReads(rules, nodes, page);
    PieceLine(rules, nodes, page, pieces, k);
  }

  lemma PieceLine(rules: Rules, nodes: seq<Node>, page: Out, pieces: seq<nat>, k: nat)
    requires FromPieces(rules, nodes, page, pieces, 0) && k < |page.text|
    ensures |pieces| == |page.text| && pieces[k] < |nodes|
    ensures LineOfIndex(Print(nodes), page, k) == Some(1 + Newlines(Print(nodes[..pieces[k]])))
  {
    PieceStart(rules, nodes, page, pieces, k, pieces[k]);
    LineAtPiece(nodes, page, k, nodes[..pieces[k]], nodes[pieces[k]..]);
  }

  lemma PieceStart(rules: Rules, nodes: seq<Node>, page: Out, pieces: seq<nat>, k: nat, p: nat)
    requires FromPieces(rules, nodes, page, pieces, 0) && k < |pieces| && p == pieces[k]
    ensures p < |nodes| && page.pos[k] == |Print(nodes[..p])| && nodes == nodes[..p] + nodes[p..]
  {
    assert page.pos[0 + k] == |Print(nodes[..p])|;
  }

  lemma LineAtPiece(nodes: seq<Node>, page: Out, k: nat, before: seq<Node>, rest: seq<Node>)
    requires nodes == before + rest && k < |page.pos| && page.pos[k] == |Print(before)|
    ensures LineOfIndex(Print(nodes), page, k) == Some(1 + Newlines(Print(before)))
  {
    PrintConcat(before, rest);
    LineAtPlace(Print(nodes), page, k, Print(before), Print(rest));
  }

  lemma LineAtPlace(html: string, page: Out, k: nat, before: string, rest: string)
    requires html == before + rest && k < |page.pos| && page.pos[k] == |before|
    ensures LineOfIndex(html, page, k) == Some(1 + Newlines(before))
  {
    LineOfIndexIs(html, page, k);
    LineAfter(html, before, rest, page.pos[k]);
  }

  /** A comment that is never closed hides the rest of the page. */
  lemma UnclosedCommentHides(rules: Rules, nodes: seq<Node>, rest: string)
    requires DecodesXml(rules) && PageOk(rules, nodes, "<!--" + rest)
    requires forall x | 0 <= x :: !MatchesAt(rest, "-->", x)
    ensures PageText(Print(nodes) + ("<!--" + rest), rules).text == Read(rules, "", nodes)
  {
    var html, last := Print(nodes) + ("<!--" + rest), ReadOut(rules, Out("", []), nodes, 0);
    assert "" + html == html;
    PiecesScanned(html, "", 0, rules, nodes, "<!--" + rest, Out("", []), last);
    ReadOutText(rules, Out("", []), nodes, 0);
    UnclosedAfter(Print(nodes), rest);
    UnclosedScanned(html, rules, |Print(nodes)|, last);
  }

  lemma UnclosedScanned(html: string, rules: Rules, n: nat, out: Out)
    requires MatchesAt(html, "<!--", n) && forall x | n + 4 <= x :: !MatchesAt(html, "-->", x)
    ensures Scan(html, rules, n, out) == out
  {
    UnclosedComment(html, rules, n);
    OneStep(html, rules, n, |html|, Nothing, out);
    NothingAdded(out, n);
    ScanDone(html, rules, out);
  }

  lemma UnclosedAfter(before: string, rest: string)
    requires forall x | 0 <= x :: !MatchesAt(rest, "-->", x)
    ensures MatchesAt(before + ("<!--" + rest), "<!--", |before|)
    ensures forall x | |before| + 4 <= x :: !MatchesAt(before + ("<!--" + rest), "-->", x)
  {
    WrittenAfter(before, "<!--", rest);
    var html, n := before + "<!--" + rest, |before| + 4;
    assert MatchesAt(html, rest, n);
    forall x | n <= x ensures !MatchesAt(html, "-->", x) {
      if x + 3 <= |html| {
        MatchesInside(html, rest, n, "-->", x - n);
      }
    }
  }
}
