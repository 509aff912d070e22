/**
 Exactly which documents the parser reads back: all but those with an element whose last nodes before its
 closing tag hide that tag.
 */
module XmlTheorems {
  import opened Outcome
  import opened Text
  import opened XmlSpec

  /**
   An attribute as it may be written: whitespace, a name, and unless it is bare an equals sign and a quoted
   value, with whitespace on either side of the sign.
   */
  datatype Attr =
    | Valued(lead: string, name: string, gap: string, after: string, value: string)
    | Bare(lead: string, name: string)

  /** What a document is made of: attributes in writing order, a name possibly more than once, and closing tags with any name. */
  datatype Node =
    | Elem(tag: string, attrs: seq<Attr>, pad: string, content: seq<Node>, close: string)
    | Words(text: string)
    | Blanks(space: string)
    | Section(body: string)        // <![CDATA[...]]>
    | Comment(body: string)        // <!--...-->
    | Instruction(body: string)    // <?...?>
    | Declaration(body: string)    // <!...>

  function AttrText(attrs: seq<Attr>, pad: string): (s: string) {
    if attrs == [] then pad else AttrPiece(attrs[0]) + AttrText(attrs[1..], pad)
  }

  /** A value is written between double quotes, or between single ones if it holds a double one. */
  function QuoteOf(value: string): (c: char) {
    if '"' in value then '\'' else '"'
  }

  function AttrPiece(a: Attr): (s: string) {
    a.lead + (a.name + Behind(a))
  }

  /** What follows the name. */
  function Behind(a: Attr): (s: string) {
    if a.Bare? then "" else a.gap + ("=" + (a.after + QuotedPiece(a.value)))
  }

  function QuotedPiece(value: string): (s: string) {
    [QuoteOf(value)] + (value + [QuoteOf(value)])
  }

  function Opening(n: Node): (s: string)
    requires !n.Elem? && !n.Words? && !n.Blanks?
  {
    match n
    case Section(_) => "<![CDATA["
    case Comment(_) => "<!--"
    case Instruction(_) => "<?"
    case Declaration(_) => "<!"
  }

  function Terminator(n: Node): (s: string)
    requires !n.Elem? && !n.Words? && !n.Blanks?
  {
    match n
    case Section(_) => "]]>"
    case Comment(_) => "-->"
    case Instruction(_) => "?>"
    case Declaration(_) => ">"
  }

  function Close(name: string): (s: string) {
    "</" + (name + ">")
  }

  /** The text of a node: a self-closing tag for an empty element, or its content and a closing tag. */
  function Serialize(n: Node): (s: string) {
    match n
    case Elem(tag, attrs, pad, content, close) =>
      "<" + tag + AttrText(attrs, pad) + if content == [] then "/>" else ">" + (SerializeAll(content) + Close(close))
    case Words(text) => text
    case Blanks(space) => space
    case _ => Opening(n) + (n.body + Terminator(n))
  }

  function SerializeAll(ns: seq<Node>): (s: string) {
    if ns == [] then "" else Serialize(ns[0]) + SerializeAll(ns[1..])
  }

  /** What written text stands for: itself, or if it holds an ampersand what replacing the entities makes of it. */
  function Spoken(s: string, entities: string -> string): (t: string) {
    if '&' in s then entities(s) else s
  }

  /** Attributes with a value, entered one after another: a later value replaces an earlier one. */
  function Entered(attrs: seq<Attr>, entities: string -> string, m: map<string, string>): (r: map<string, string>) {
    if attrs == [] then m else Entered(attrs[1..], entities, WithAttr(attrs[0], entities, m))
  }

  function WithAttr(a: Attr, entities: string -> string, m: map<string, string>): (r: map<string, string>) {
    if a.Bare? then m else m[a.name := Spoken(a.value, entities)]
  }

  predicate IsChild(n: Node) {
    n.Elem? || n.Section?
  }

  /** What a node stands for: an element with its children and its text, all pieces of text joined and trimmed. */
  function Meaning(n: Node, entities: string -> string): (e: Element)
    requires IsChild(n)
  {
    match n
    case Elem(tag, attrs, _, content, _) => Element(tag, Entered(attrs, entities, map[]), Children(content, entities), Trim(TextOf(content, entities)))
    case Section(body) => Element("#cdata", map[], [], body)
  }

  function Children(ns: seq<Node>, entities: string -> string): (es: seq<Element>) {
    if ns == [] then [] else (if IsChild(ns[0]) then [Meaning(ns[0], entities)] else []) + Children(ns[1..], entities)
  }

  function TextOf(ns: seq<Node>, entities: string -> string): (s: string) {
    if ns == [] then "" else (if ns[0].Words? then Spoken(ns[0].text, entities) else "") + TextOf(ns[1..], entities)
  }

  // ---- Plain documents ----

  predicate PlainTag(tag: string) {
    tag != "" && tag[0] != '!' && tag[0] != '?' && forall c | c in tag :: !EndsTag(c)
  }

  predicate PlainName(name: string) {
    name != "" && IsTrimmed(name) && name[0] != '?' && forall c | c in name :: !EndsName(c)
  }

  predicate IsBlanks(s: string) {
    forall c | c in s :: IsBlank(c)
  }

  predicate PlainAttr(a: Attr) {
    && a.lead != "" && IsBlanks(a.lead) && PlainName(a.name)
    && (a.Valued? ==> IsBlanks(a.gap) && StartsWithSpace(a.gap) && IsBlanks(a.after) && QuoteOf(a.value) !in a.value)
  }

  /** Of all whitespace only a space ends a name. */
  predicate StartsWithSpace(s: string) {
    s == "" || s[0] == ' '
  }

  predicate PlainAttrs(attrs: seq<Attr>, pad: string) {
    if attrs == [] then IsBlanks(pad) else
      PlainAttr(attrs[0]) && (attrs[0].Bare? ==> StartsWithSpace(AttrText(attrs[1..], pad))) && PlainAttrs(attrs[1..], pad)
  }

  predicate PlainText(text: string) {
    text != "" && !IsBlank(text[0]) && '<' !in text
  }

  /** The terminator does not occur before the end of the body. */
  predicate EndsAt(body: string, terminator: string) {
    forall i | 0 <= i < |body| :: !MatchesAt(body + terminator, terminator, i)
  }

  /** Plain names, values with one kind of quotes at most, text that starts with no whitespace and holds no markup, bodies without their terminator, all the way down. */
  predicate Plain(n: Node) {
    match n
    case Elem(tag, attrs, pad, content, close) => PlainTag(tag) && PlainAttrs(attrs, pad) && AllPlain(content) && '>' !in close
    case Words(text) => PlainText(text)
    case Blanks(space) => IsBlanks(space)
    case Declaration(body) => EndsAt(body, ">") && !("--" <= body) && !("[CDATA[" <= body)
    case _ => EndsAt(n.body, Terminator(n))
  }

  /** Plain nodes, no text or whitespace directly behind text: it would belong to the text. */
  predicate AllPlain(ns: seq<Node>) {
    ns == [] || (Plain(ns[0]) && (ns[0].Words? && |ns| > 1 ==> !ns[1].Words? && !ns[1].Blanks?) && AllPlain(ns[1..]))
  }

  // ---- Hidden closing tags ----

  /** Nodes the parser skips while it looks for the next element. */
  predicate IsSkipped(n: Node) {
    n.Blanks? || n.Comment? || n.Instruction? || n.Declaration?
  }

  /** Nodes that make it look for the next element: behind them a closing tag is not expected. */
  predicate Hides(n: Node) {
    n.Instruction? || n.Declaration?
  }

  /** Behind the last text or child there is an instruction or a declaration. */
  predicate HidesEnd(ns: seq<Node>) {
    exists i | 0 <= i < |ns| :: Hides(ns[i]) && OnlySkipped(ns[i..])
  }

  predicate OnlySkipped(ns: seq<Node>) {
    forall j | 0 <= j < |ns| :: IsSkipped(ns[j])
  }

  /** No element, at any depth, has its closing tag hidden. */
  predicate Sound(n: Node) {
    n.Elem? ==> !HidesEnd(n.content) && AllSound(n.content)
  }

  predicate AllSound(ns: seq<Node>) {
    ns == [] || (Sound(ns[0]) && AllSound(ns[1..]))
  }

  /** The closing tag behind these nodes is hidden if the parser is, or is not, looking for an element before them. */
  predicate Spoils(ns: seq<Node>, searching: bool) {
    HidesEnd(ns) || (searching && OnlySkipped(ns))
  }

  lemma SpoilsStep(ns: seq<Node>, searching: bool)
    requires ns != []
    ensures Spoils(ns, searching) <==> Spoils(ns[1..], IsSkipped(ns[0]) && (searching || Hides(ns[0])))
  {
    var rest := ns[1..];
    OnlySkippedStep(ns);
    hide OnlySkipped, Hides, IsSkipped;
    assert ns[0..] == ns;
    HidesIsSkipped(ns[0]);
    if i :| 0 <= i < |ns| && Hides(ns[i]) && OnlySkipped(ns[i..]) {
      if i > 0 {
        assert rest[i - 1] == ns[i] && rest[i - 1..] == ns[i..];
      }
    }
    if k :| 0 <= k < |rest| && Hides(rest[k]) && OnlySkipped(rest[k..]) {
      assert ns[k + 1] == rest[k] && ns[k + 1..] == rest[k..];
    }
  }

  lemma HidesIsSkipped(n: Node)
    ensures Hides(n) ==> IsSkipped(n)
  {}

  lemma OnlySkippedStep(ns: seq<Node>)
    requires ns != []
    ensures OnlySkipped(ns) <==> IsSkipped(ns[0]) && OnlySkipped(ns[1..])
  {
    if IsSkipped(ns[0]) && OnlySkipped(ns[1..]) {
      forall j | 0 <= j < |ns| ensures IsSkipped(ns[j]) {
        if j > 0 {
          assert ns[j] == ns[1..][j - 1];
        }
      }
    }
  }

  // ---- Scanning ----

  /** A scan over text that does not stop it ends behind the text if the next character does. */
  lemma {:induction false} ScanOver(xml: string, s: string, pos: nat, stop: char -> bool)
    requires MatchesAt(xml, s, pos) && (forall c | c in s :: !stop(c))
    requires pos + |s| < |xml| && stop(xml[pos + |s|])
    ensures ScanTo(xml, pos, stop) == pos + |s|
    decreases |s|
  {
    if s != "" {
      MatchesChar(xml, s, pos, 0);
      assert s == [s[0]] + s[1..];
      MatchesParts(xml, [s[0]], s[1..], pos);
      ScanOver(xml, s[1..], pos + 1, stop);
    }
  }

  lemma UntilOver(xml: string, s: string, pos: nat, c: char)
    requires MatchesAt(xml, s, pos) && c !in s && pos + |s| < |xml| && xml[pos + |s|] == c
    ensures Until(xml, pos, [c]) == (s, pos + |s|)
  {
    var k := IndexOf(xml, [c], pos);
    assert MatchesAt(xml, [c], pos + |s|);
    forall i: nat | pos <= i < pos + |s| ensures !MatchesAt(xml, [c], i) {
      MatchesChar(xml, s, pos, i - pos);
      NoMatch(xml, [c], i, 0);
    }
  }

  /** A body that does not hold its terminator is read to its end. */
  lemma UntilEnd(xml: string, start: nat, body: string, terminator: string)
    requires terminator != "" && EndsAt(body, terminator) && MatchesAt(xml, body + terminator, start)
    ensures Until(xml, start, terminator) == (body, start + |body|)
  {
    hide IndexOf;
    MatchesParts(xml, body, terminator, start);
    var k := IndexOf(xml, terminator, start);
    forall i: nat | start <= i < start + |body| ensures !MatchesAt(xml, terminator, i) {
      if MatchesAt(xml, terminator, i) {
        MatchWithin(xml, body + terminator, start, terminator, i - start);
      }
    }
  }

  lemma MatchWithin(xml: string, s: string, start: nat, t: string, i: nat)
    requires MatchesAt(xml, s, start) && MatchesAt(xml, t, start + i) && i + |t| <= |s|
    ensures MatchesAt(s, t, i)
  {
    forall k | 0 <= k < |t| ensures s[i + k] == t[k] {
      MatchesChar(xml, s, start, i + k);
      MatchesChar(xml, t, start + i, k);
    }
    assert s[i..i + |t|] == t;
  }

  // ---- Whitespace ----

  lemma SolidStays(xml: string, pos: nat)
    requires pos < |xml| && !IsBlank(xml[pos])
    ensures Skip(xml, pos) == pos
  {}

  /** Whitespace may be skipped first. */
  lemma {:induction false} SkipBlanks(xml: string, s: string, pos: nat)
    requires IsBlanks(s) && MatchesAt(xml, s, pos)
    ensures Skip(xml, pos) == Skip(xml, pos + |s|)
    decreases |s|
  {
    if s != "" {
      MatchesChar(xml, s, pos, 0);
      assert s[0] in s && s == [s[0]] + s[1..];
      MatchesParts(xml, [s[0]], s[1..], pos);
      SkipBlanks(xml, s[1..], pos + 1);
    }
  }

  lemma SkipTwice(xml: string, pos: nat)
    ensures Skip(xml, Skip(xml, pos)) == Skip(xml, pos)
  {}

  /** Whitespace up to something else. */
  lemma SkipTo(xml: string, s: string, pos: nat)
    requires IsBlanks(s) && MatchesAt(xml, s, pos) && pos + |s| < |xml| && !IsBlank(xml[pos + |s|])
    ensures Skip(xml, pos) == pos + |s|
  {
    hide Skip;
    SkipBlanks(xml, s, pos);
    SolidStays(xml, pos + |s|);
  }

  // ---- Attributes ----

  lemma {:induction false} AttributesReadBack(xml: string, entities: string -> string, pos: nat, attrs: seq<Attr>, pad: string, m: map<string, string>)
    requires PlainAttrs(attrs, pad) && MatchesAt(xml, AttrText(attrs, pad), pos)
    requires var q := pos + |AttrText(attrs, pad)|; q < |xml| && (xml[q] == '>' || xml[q] == '/')
    ensures Attributes(xml, entities, pos, m) == (Entered(attrs, entities, m), pos + |AttrText(attrs, pad)|)
    decreases |attrs|
  {
    hide Attributes, AttrPiece, WithAttr, PlainAttr;
    if attrs == [] {
      SkipTo(xml, pad, pos);
      AttributesEnd(xml, entities, pos, m);
    } else {
      var piece, rest := AttrPiece(attrs[0]), AttrText(attrs[1..], pad);
      MatchesParts(xml, piece, rest, pos);
      NextName(xml, pos + |piece|, attrs[1..], pad);
      OneAttribute(xml, entities, pos, attrs[0], rest, m);
      AttributesReadBack(xml, entities, pos + |piece|, attrs[1..], pad, WithAttr(attrs[0], entities, m));
    }
  }

  lemma AttributesEnd(xml: string, entities: string -> string, pos: nat, m: map<string, string>)
    requires pos < |xml| && (CharIs(xml, Skip(xml, pos), '>') || CharIs(xml, Skip(xml, pos), '/'))
    ensures Attributes(xml, entities, pos, m) == (m, Skip(xml, pos))
  {
    hide Skip;
  }

  lemma AttributesStep(xml: string, entities: string -> string, pos: nat, p: nat, e: nat, name: string, m: map<string, string>)
    requires pos < |xml| && Skip(xml, pos) == p && p < |xml| && xml[p] != '>' && xml[p] != '/' && xml[p] != '?'
    requires ScanTo(xml, p, EndsName) == e <= |xml| && p < e && Trim(xml[p..e]) == name && name != []
    ensures var (m', p') := Value(xml, entities, e, name, m);
            Attributes(xml, entities, pos, m) == Attributes(xml, entities, p', m')
  {
    hide Value, Skip, Trim;
  }

  /** No equals sign stands where further attributes, or the end of the tag, are written. */
  lemma NextName(xml: string, pos: nat, attrs: seq<Attr>, pad: string)
    requires PlainAttrs(attrs, pad) && MatchesAt(xml, AttrText(attrs, pad), pos)
    requires var q := pos + |AttrText(attrs, pad)|; q < |xml| && (xml[q] == '>' || xml[q] == '/')
    ensures Skip(xml, pos) < |xml| && xml[Skip(xml, pos)] != '='
  {
    hide Skip, AttrPiece, PlainAttr, MatchesAt;
    if attrs == [] {
      SkipTo(xml, pad, pos);
    } else {
      MatchesParts(xml, AttrPiece(attrs[0]), AttrText(attrs[1..], pad), pos);
      NameComes(xml, pos, attrs[0]);
    }
  }

  lemma NameComes(xml: string, pos: nat, a: Attr)
    requires PlainAttr(a) && MatchesAt(xml, AttrPiece(a), pos)
    ensures Skip(xml, pos) < |xml| && xml[Skip(xml, pos)] != '='
  {
    hide Skip, PlainName, IsBlanks, Behind, MatchesAt;
    MatchesParts(xml, a.lead, a.name + Behind(a), pos);
    NameStart(xml, pos, a.lead, a.name, Behind(a));
  }

  lemma OneAttribute(xml: string, entities: string -> string, pos: nat, a: Attr, rest: string, m: map<string, string>)
    requires PlainAttr(a) && MatchesAt(xml, AttrPiece(a), pos)
    requires var e := pos + |AttrPiece(a)|; MatchesAt(xml, rest, e) && Skip(xml, e) < |xml| && xml[Skip(xml, e)] != '='
    requires a.Bare? ==> StartsWithSpace(rest) && (rest == "" ==> var e := pos + |AttrPiece(a)|; xml[e] == '>' || xml[e] == '/')
    ensures Attributes(xml, entities, pos, m) == Attributes(xml, entities, pos + |AttrPiece(a)|, WithAttr(a, entities, m))
  {
    hide Value, Attributes, MatchesAt, ScanTo, Trim, Skip, Behind, PlainAttr, AttrPiece, EndsName;
    var p := pos + |a.lead|;
    var e := p + |a.name|;
    PieceLength(a);
    NameRead(xml, pos, p, e, a, rest);
    AttributesStep(xml, entities, pos, p, e, a.name, m);
    if a.Bare? {
      NoValue(xml, entities, e, a.name, m);
    } else {
      QuotedValue(xml, entities, e, a, m);
    }
  }

  lemma PieceLength(a: Attr)
    ensures |AttrPiece(a)| == |a.lead| + |a.name| + |Behind(a)| && (a.Bare? ==> Behind(a) == "")
  {}

  lemma NameRead(xml: string, pos: nat, p: nat, e: nat, a: Attr, rest: string)
    requires PlainAttr(a) && MatchesAt(xml, AttrPiece(a), pos) && p == pos + |a.lead| && e == p + |a.name|
    requires MatchesAt(xml, rest, e + |Behind(a)|)
    requires a.Bare? ==> StartsWithSpace(rest) && (rest == "" ==> e < |xml| && (xml[e] == '>' || xml[e] == '/'))
    ensures pos < |xml| && Skip(xml, pos) == p && p < |xml| && xml[p] != '>' && xml[p] != '/' && xml[p] != '?'
    ensures ScanTo(xml, p, EndsName) == e <= |xml| && p < e && Trim(xml[p..e]) == a.name && a.name != []
    ensures MatchesAt(xml, Behind(a), e)
  {
    hide MatchesAt, ScanTo, Trim, Skip, Behind, PlainName, EndsName, IsBlanks, StartsWithSpace;
    NameThere(a.name);
    MatchesParts(xml, a.lead, a.name + Behind(a), pos);
    MatchesParts(xml, a.name, Behind(a), p);
    NameStart(xml, pos, a.lead, a.name, Behind(a));
    NameFollowed(xml, e, a, rest);
    NameEnd(xml, p, a.name);
  }

  lemma NameThere(name: string)
    requires PlainName(name)
    ensures name != ""
  {}

  /** What follows a name ends it. */
  lemma NameFollowed(xml: string, e: nat, a: Attr, rest: string)
    requires PlainAttr(a) && MatchesAt(xml, Behind(a), e) && MatchesAt(xml, rest, e + |Behind(a)|)
    requires a.Bare? ==> StartsWithSpace(rest) && (rest == "" ==> e < |xml| && (xml[e] == '>' || xml[e] == '/'))
    ensures e < |xml| && EndsName(xml[e])
  {
    if a.Valued? {
      MatchesChar(xml, Behind(a), e, 0);
    } else if rest != "" {
      MatchesChar(xml, rest, e, 0);
    }
  }

  /** Nothing is entered for a name without an equals sign. */
  lemma NoValue(xml: string, entities: string -> string, e: nat, name: string, m: map<string, string>)
    requires Skip(xml, e) < |xml| && xml[Skip(xml, e)] != '='
    ensures var (m', p) := Value(xml, entities, e, name, m);
            Attributes(xml, entities, p, m') == Attributes(xml, entities, e, m)
  {
    hide Skip, ScanTo, Trim;
    SkipTwice(xml, e);
  }

  lemma NameEnd(xml: string, start: nat, name: string)
    requires PlainName(name) && MatchesAt(xml, name, start)
    requires var e := start + |name|; e < |xml| && EndsName(xml[e])
    ensures start + |name| <= |xml| && xml[start..start + |name|] == name && Trim(name) == name
    ensures ScanTo(xml, start, EndsName) == start + |name|
  {
    hide ScanTo, Trim;
    ScanOver(xml, name, start, EndsName);
    TrimKeeps(name);
  }

  lemma NameStart(xml: string, pos: nat, lead: string, name: string, behind: string)
    requires PlainName(name) && IsBlanks(lead) && MatchesAt(xml, lead, pos) && MatchesAt(xml, name + behind, pos + |lead|)
    ensures var p := pos + |lead|; p < |xml| && Skip(xml, pos) == p && xml[p] != '>' && xml[p] != '/' && xml[p] != '?' && xml[p] != '='
  {
    hide Skip;
    MatchesChar(xml, name + behind, pos + |lead|, 0);
    assert name[0] in name && !EndsName(name[0]) && !IsBlank(name[0]);
    SkipTo(xml, lead, pos);
  }

  lemma QuotedValue(xml: string, entities: string -> string, e: nat, a: Attr, m: map<string, string>)
    requires a.Valued? && PlainAttr(a) && MatchesAt(xml, Behind(a), e)
    ensures Value(xml, entities, e, a.name, m) == (m[a.name := Spoken(a.value, entities)], e + |Behind(a)|)
  {
    hide Value, Quoted, MatchesAt, Skip, QuoteOf, IsBlanks, Spoken;
    var p := e + |a.gap|;
    var q := p + 1 + |a.after|;
    BehindIs(a);
    EqualsStands(xml, e, a.gap, a.after + QuotedPiece(a.value));
    QuoteStands(xml, p + 1, a);
    hide Behind, QuotedPiece, PlainAttr;
    ValueIsQuoted(xml, entities, e, p, q, a.name, m);
    QuotedText(xml, entities, q, a.name, a.value, m);
  }

  lemma BehindIs(a: Attr)
    requires a.Valued? && PlainAttr(a)
    ensures IsBlanks(a.gap) && QuoteOf(a.value) !in a.value
    ensures Behind(a) == a.gap + ("=" + (a.after + QuotedPiece(a.value))) && |Behind(a)| == |a.gap| + |a.after| + |a.value| + 3
  {}

  lemma EqualsStands(xml: string, e: nat, gap: string, rest: string)
    requires IsBlanks(gap) && MatchesAt(xml, gap + ("=" + rest), e)
    ensures Skip(xml, e) == e + |gap| && CharIs(xml, e + |gap|, '=') && MatchesAt(xml, rest, e + |gap| + 1)
  {
    hide MatchesAt, Skip, IsBlanks;
    MatchesParts(xml, gap, "=" + rest, e);
    MatchesParts(xml, "=", rest, e + |gap|);
    MatchesChar(xml, "=", e + |gap|, 0);
    SkipTo(xml, gap, e);
  }

  lemma ValueIsQuoted(xml: string, entities: string -> string, e: nat, p: nat, q: nat, name: string, m: map<string, string>)
    requires Skip(xml, e) == p && CharIs(xml, p, '=') && Skip(xml, p + 1) == q && (CharIs(xml, q, '"') || CharIs(xml, q, '\''))
    ensures Value(xml, entities, e, name, m) == Quoted(xml, entities, q, name, m)
  {
    hide Skip, Quoted;
  }

  /** The quotes stand behind the whitespace, with the value between them. */
  lemma QuoteStands(xml: string, pos: nat, a: Attr)
    requires a.Valued? && PlainAttr(a) && MatchesAt(xml, a.after + QuotedPiece(a.value), pos)
    ensures var q, c := pos + |a.after|, QuoteOf(a.value);
            && Skip(xml, pos) == q && CharIs(xml, q, c) && (c == '"' || c == '\'')
            && MatchesAt(xml, a.value, q + 1) && MatchesAt(xml, [c], q + 1 + |a.value|)
  {
    hide MatchesAt, Skip, IsBlanks;
    var q, c := pos + |a.after|, QuoteOf(a.value);
    MatchesParts(xml, a.after, QuotedPiece(a.value), pos);
    MatchesParts(xml, [c], a.value + [c], q);
    MatchesParts(xml, a.value, [c], q + 1);
    MatchesChar(xml, [c], q, 0);
    SkipTo(xml, a.after, pos);
  }

  lemma QuotedText(xml: string, entities: string -> string, q: nat, name: string, value: string, m: map<string, string>)
    requires QuoteOf(value) !in value && CharIs(xml, q, QuoteOf(value))
    requires MatchesAt(xml, value, q + 1) && MatchesAt(xml, [QuoteOf(value)], q + 1 + |value|)
    ensures Quoted(xml, entities, q, name, m) == (m[name := Spoken(value, entities)], q + |value| + 2)
  {
    hide ScanTo;
    MatchesChar(xml, [QuoteOf(value)], q + 1 + |value|, 0);
    ScanOver(xml, value, q + 1, if QuoteOf(value) == '"' then IsDoubleQuote else IsSingleQuote);
  }

  // ---- Skipped nodes ----

  lemma NotThere(xml: string, t: string, pos: nat, c: char)
    requires pos + 1 < |xml| && xml[pos + 1] == c && |t| > 1 && t[1] != c
    ensures !MatchesAt(xml, t, pos)
  {
    NoMatch(xml, t, pos, 1);
  }

  lemma CommentSkipped(xml: string, pos: nat, body: string)
    requires EndsAt(body, "-->") && MatchesAt(xml, "<!--" + (body + "-->"), pos)
    ensures CharIs(xml, pos, '<') && CharIs(xml, pos + 1, '!') && MatchesAt(xml, "<!--", pos)
    ensures pos + 4 <= |xml| && Until(xml, pos + 4, "-->").1 == pos + 4 + |body|
    ensures SkipProlog(xml, pos) == SkipProlog(xml, Skip(xml, pos + |body| + 7))
  {
    hide Skip, Until, EndsAt, MatchesAt;
    MatchesParts(xml, "<!--", body + "-->", pos);
    MatchesChar(xml, "<!--", pos, 0);
    MatchesChar(xml, "<!--", pos, 1);
    UntilEnd(xml, pos + 4, body, "-->");
  }

  lemma InstructionSkipped(xml: string, pos: nat, body: string)
    requires EndsAt(body, "?>") && MatchesAt(xml, "<?" + (body + "?>"), pos)
    ensures CharIs(xml, pos, '<') && CharIs(xml, pos + 1, '?') && !MatchesAt(xml, "<!--", pos)
    ensures SkipProlog(xml, pos) == SkipProlog(xml, Skip(xml, pos + |body| + 4))
  {
    hide Skip, Until, EndsAt, MatchesAt;
    MatchesParts(xml, "<?", body + "?>", pos);
    MatchesChar(xml, "<?", pos, 0);
    MatchesChar(xml, "<?", pos, 1);
    NotThere(xml, "<!--", pos, '?');
    NotThere(xml, "<![CDATA[", pos, '?');
    UntilEnd(xml, pos + 2, body, "?>");
  }

  lemma DeclarationSkipped(xml: string, pos: nat, body: string)
    requires Plain(Declaration(body)) && MatchesAt(xml, "<!" + (body + ">"), pos)
    ensures CharIs(xml, pos, '<') && CharIs(xml, pos + 1, '!') && !MatchesAt(xml, "<!--", pos)
    ensures SkipProlog(xml, pos) == SkipProlog(xml, Skip(xml, pos + |body| + 3))
  {
    hide Skip, Until, EndsAt, MatchesAt;
    MatchesParts(xml, "<!", body + ">", pos);
    MatchesChar(xml, "<!", pos, 0);
    MatchesChar(xml, "<!", pos, 1);
    NotOpening(xml, pos, body, "--");
    NotOpening(xml, pos, body, "[CDATA[");
    assert "<!" + "--" == "<!--" && "<!" + "[CDATA[" == "<![CDATA[";
    NotThere(xml, "<?", pos, '!');
    UntilEnd(xml, pos + 2, body, ">");
  }

  /** A declaration does not start like a comment or a CDATA section. */
  lemma NotOpening(xml: string, pos: nat, body: string, mark: string)
    requires !(mark <= body) && '>' !in mark && MatchesAt(xml, body + ">", pos + 2)
    ensures !MatchesAt(xml, "<!" + mark, pos)
  {
    if MatchesAt(xml, "<!" + mark, pos) {
      MatchesParts(xml, "<!", mark, pos);
      MarkInBody(xml, pos + 2, body, mark);
    }
  }

  lemma MarkInBody(xml: string, start: nat, body: string, mark: string)
    requires '>' !in mark && MatchesAt(xml, body + ">", start) && MatchesAt(xml, mark, start)
    ensures mark <= body
  {
    if |mark| > |body| {
      MatchesChar(xml, body + ">", start, |body|);
      MatchesChar(xml, mark, start, |body|);
      assert false;
    }
    MatchesParts(xml, body, ">", start);
    forall k | 0 <= k < |mark| ensures mark[k] == body[k] {
      MatchesChar(xml, body, start, k);
      MatchesChar(xml, mark, start, k);
    }
  }

  lemma SkippedNode(xml: string, entities: string -> string, pos: nat, n: Node)
    requires Plain(n) && IsSkipped(n) && !n.Blanks? && MatchesAt(xml, Serialize(n), pos)
    ensures CharIs(xml, pos, '<') && !CharIs(xml, pos + 1, '/') && (Hides(n) ==> !MatchesAt(xml, "<!--", pos))
    ensures XmlSpec.ParseElement(xml, entities, pos) == XmlSpec.ParseElement(xml, entities, pos + |Serialize(n)|)
  {
    hide XmlSpec.ParseElement, EndsAt, SkipProlog, MatchesAt;
    match n {
      case Comment(body) => CommentSkipped(xml, pos, body);
      case Instruction(body) => InstructionSkipped(xml, pos, body);
      case Declaration(body) => DeclarationSkipped(xml, pos, body);
    }
    SkippedTo(xml, entities, pos, pos + |Serialize(n)|);
  }

  lemma SkippedTo(xml: string, entities: string -> string, pos: nat, q: nat)
    requires CharIs(xml, pos, '<') && SkipProlog(xml, pos) == SkipProlog(xml, Skip(xml, q))
    ensures XmlSpec.ParseElement(xml, entities, pos) == XmlSpec.ParseElement(xml, entities, q)
  {
    hide ParseTag, Skip, SkipProlog;
    SolidStays(xml, pos);
    if !CharIs(xml, Skip(xml, q), '<') {
      NothingSkipped(xml, Skip(xml, q));
    }
  }

  lemma NothingSkipped(xml: string, q: nat)
    requires !CharIs(xml, q, '<')
    ensures SkipProlog(xml, q) == Skipped(q)
  {}

  /** Whitespace is skipped before an element and before content alike. */
  lemma BlanksStep(xml: string, entities: string -> string, pos: nat, space: string, searching: bool)
    requires IsBlanks(space) && MatchesAt(xml, space, pos)
    ensures XmlSpec.ParseElement(xml, entities, pos) == XmlSpec.ParseElement(xml, entities, pos + |space|)
    ensures From(xml, entities, pos, searching) == From(xml, entities, pos + |space|, searching)
  {
    hide Skip, SkipProlog, Until;
    SkipBlanks(xml, space, pos);
    ElementSkips(xml, entities, pos, pos + |space|);
    ContentSkips(xml, entities, pos, pos + |space|);
    hide XmlSpec.ParseElement, ParseContent;
  }

  lemma ElementSkips(xml: string, entities: string -> string, pos: nat, q: nat)
    requires Skip(xml, pos) == Skip(xml, q)
    ensures XmlSpec.ParseElement(xml, entities, pos) == XmlSpec.ParseElement(xml, entities, q)
  {
    hide Skip, SkipProlog, ParseAfterProlog;
  }

  lemma ContentSkips(xml: string, entities: string -> string, pos: nat, q: nat)
    requires Skip(xml, pos) == Skip(xml, q)
    ensures ParseContent(xml, entities, pos) == ParseContent(xml, entities, q)
  {
    hide Skip, XmlSpec.ParseElement, Until, MatchesAt;
  }

  // ---- Tags ----

  lemma OpeningTag(xml: string, entities: string -> string, pos: nat, n: Node)
    requires n.Elem? && PlainTag(n.tag) && PlainAttrs(n.attrs, n.pad) && MatchesAt(xml, "<" + n.tag + AttrText(n.attrs, n.pad), pos)
    requires var q := pos + 1 + |n.tag| + |AttrText(n.attrs, n.pad)|; q < |xml| && (xml[q] == '>' || xml[q] == '/')
    ensures pos + 1 <= |xml| && XmlSpec.ParseElement(xml, entities, pos) == ParseTag(xml, entities, pos + 1)
    ensures ScanTo(xml, pos + 1, EndsTag) == pos + 1 + |n.tag| && xml[pos + 1..pos + 1 + |n.tag|] == n.tag
    ensures Attributes(xml, entities, pos + 1 + |n.tag|, map[]) == (Entered(n.attrs, entities, map[]), pos + 1 + |n.tag| + |AttrText(n.attrs, n.pad)|)
  {
    hide ParseTag, SkipProlog, Attributes, XmlSpec.ParseElement, PlainAttrs, PlainTag, AttrText, Entered, ScanTo, MatchesAt;
    var a := AttrText(n.attrs, n.pad);
    Associate("<", n.tag, a);
    MatchesParts(xml, "<", n.tag + a, pos);
    MatchesParts(xml, n.tag, a, pos + 1);
    MatchesChar(xml, "<", pos, 0);
    TagStart(xml, pos, n.tag);
    TagEnd(xml, pos + 1, n.tag, n.attrs, n.pad);
    AttributesReadBack(xml, entities, pos + 1 + |n.tag|, n.attrs, n.pad, map[]);
    ElementStep(xml, entities, pos);
  }

  lemma Associate(a: string, b: string, c: string)
    ensures a + b + c == a + (b + c)
  {}

  lemma TagStart(xml: string, pos: nat, tag: string)
    requires PlainTag(tag) && CharIs(xml, pos, '<') && MatchesAt(xml, tag, pos + 1)
    ensures SkipProlog(xml, pos) == Skipped(pos) && !CharIs(xml, pos + 1, '/')
  {
    MatchesChar(xml, tag, pos + 1, 0);
    assert !EndsTag(tag[0]);
    NotProlog(xml, pos, tag[0]);
  }

  lemma TagEnd(xml: string, start: nat, tag: string, attrs: seq<Attr>, pad: string)
    requires PlainTag(tag) && PlainAttrs(attrs, pad) && MatchesAt(xml, tag, start) && MatchesAt(xml, AttrText(attrs, pad), start + |tag|)
    requires var q := start + |tag| + |AttrText(attrs, pad)|; q < |xml| && (xml[q] == '>' || xml[q] == '/')
    ensures ScanTo(xml, start, EndsTag) == start + |tag| && xml[start..start + |tag|] == tag
  {
    var text := AttrText(attrs, pad);
    if text != "" {
      assert text[0] == if attrs == [] then pad[0] else attrs[0].lead[0];
      assert IsBlank(text[0]);
      MatchesChar(xml, text, start + |tag|, 0);
    }
    ScanOver(xml, tag, start, EndsTag);
  }

  lemma ElementStep(xml: string, entities: string -> string, pos: nat)
    requires CharIs(xml, pos, '<') && SkipProlog(xml, pos) == Skipped(pos) && !CharIs(xml, pos + 1, '/')
    ensures XmlSpec.ParseElement(xml, entities, pos) == ParseTag(xml, entities, pos + 1)
  {
    hide ParseTag, SkipProlog;
  }

  lemma ClosedTagStep(xml: string, entities: string -> string, start: nat, e: nat, attrs: map<string, string>, q: nat)
    requires 0 < start <= |xml| && ScanTo(xml, start, EndsTag) == e && Attributes(xml, entities, e, map[]) == (attrs, q)
    requires CharIs(xml, q, '/') && CharIs(xml, q + 1, '>')
    ensures start <= e <= |xml| && ParseTag(xml, entities, start) == (Some(Element(xml[start..e], attrs, [], "")), q + 2)
  {
    hide Attributes, ParseContent;
  }

  lemma OpenTagStep(xml: string, entities: string -> string, start: nat, e: nat, attrs: map<string, string>, q: nat)
    requires 0 < start <= |xml| && ScanTo(xml, start, EndsTag) == e && Attributes(xml, entities, e, map[]) == (attrs, q)
    requires CharIs(xml, q, '>')
    ensures start <= e <= |xml|
    ensures var c := ParseContent(xml, entities, q + 1);
            ParseTag(xml, entities, start) == (Some(Element(xml[start..e], attrs, c.children, Trim(c.text))), c.next)
  {
    hide Attributes, ParseContent;
  }

  lemma NotProlog(xml: string, pos: nat, c: char)
    requires pos + 1 < |xml| && xml[pos] == '<' && xml[pos + 1] == c && c != '!' && c != '?'
    ensures SkipProlog(xml, pos) == Skipped(pos)
  {
    NoMatch(xml, "<!--", pos, 1);
    NoMatch(xml, "<![CDATA[", pos, 1);
    NoMatch(xml, "<?", pos, 1);
    NoMatch(xml, "<!", pos, 1);
  }

  // ---- Content ----

  /** What the parser makes of the content from a position on, when it expects anything there or when it looks for an element. */
  ghost function From(xml: string, entities: string -> string, pos: nat, searching: bool): (c: Content) {
    if !searching then ParseContent(xml, entities, pos) else
      var (child, q) := XmlSpec.ParseElement(xml, entities, pos);
      WithChild(child, ParseContent(xml, entities, q))
  }

  function WithChild(child: Option<Element>, c: Content): (r: Content) {
    Content((if child.Some? then [child.value] else []) + c.children, c.text, c.next)
  }

  /** At an angle bracket of anything but a closing tag or a comment the parser looks for an element anyway. */
  lemma SearchesAt(xml: string, entities: string -> string, pos: nat, searching: bool)
    requires CharIs(xml, pos, '<') && !CharIs(xml, pos + 1, '/') && !MatchesAt(xml, "<!--", pos)
    ensures From(xml, entities, pos, searching) == From(xml, entities, pos, true)
  {
    hide XmlSpec.ParseElement, MatchesAt;
    assert Skip(xml, pos) == pos;
  }

  lemma SkippedStep(xml: string, entities: string -> string, pos: nat, n: Node, searching: bool)
    requires Plain(n) && IsSkipped(n) && MatchesAt(xml, Serialize(n), pos)
    ensures From(xml, entities, pos, searching) == From(xml, entities, pos + |Serialize(n)|, searching || Hides(n))
  {
    hide XmlSpec.ParseElement, ParseContent, MatchesAt, Plain, Serialize;
    if n.Blanks? {
      BlanksAre(n);
      BlanksStep(xml, entities, pos, n.space, searching);
      return;
    }
    SkippedNode(xml, entities, pos, n);
    if Hides(n) {
      SearchesAt(xml, entities, pos, searching);
    } else if !searching {
      CommentStep(xml, entities, pos, n);
    }
  }

  lemma BlanksAre(n: Node)
    requires n.Blanks? && Plain(n)
    ensures IsBlanks(n.space) && Serialize(n) == n.space && !Hides(n)
  {}

  lemma CommentStep(xml: string, entities: string -> string, pos: nat, n: Node)
    requires n.Comment? && Plain(n) && MatchesAt(xml, Serialize(n), pos)
    ensures ParseContent(xml, entities, pos) == ParseContent(xml, entities, pos + |Serialize(n)|)
  {
    hide EndsAt, SkipProlog, XmlSpec.ParseElement, Until, MatchesAt;
    CommentSkipped(xml, pos, n.body);
    assert Skip(xml, pos) == pos;
  }

  lemma WordsStep(xml: string, entities: string -> string, pos: nat, text: string, searching: bool)
    requires PlainText(text) && MatchesAt(xml, text, pos) && CharIs(xml, pos + |text|, '<')
    ensures var rest := ParseContent(xml, entities, pos + |text|);
            From(xml, entities, pos, searching) == Content(rest.children, Spoken(text, entities) + rest.text, rest.next)
  {
    hide ParseContent, IndexOf, Until;
    MatchesChar(xml, text, pos, 0);
    assert text[0] in text && !IsBlank(text[0]);
    UntilOver(xml, text, pos, '<');
    TextStep(xml, entities, pos, text, pos + |text|);
    assert Skip(xml, pos) == pos;
    assert XmlSpec.ParseElement(xml, entities, pos) == (None, pos);
  }

  lemma TextStep(xml: string, entities: string -> string, pos: nat, text: string, q: nat)
    requires pos < |xml| && !IsBlank(xml[pos]) && xml[pos] != '<' && Until(xml, pos, "<") == (text, q)
    ensures var rest := ParseContent(xml, entities, q);
            ParseContent(xml, entities, pos) == Content(rest.children, DecodeEntities(text, entities) + rest.text, rest.next)
  {
    hide Until, Skip, DecodeEntities;
    assert Skip(xml, pos) == pos;
  }

  lemma SectionParses(xml: string, entities: string -> string, pos: nat, body: string)
    requires EndsAt(body, "]]>") && MatchesAt(xml, "<![CDATA[" + (body + "]]>"), pos)
    ensures XmlSpec.ParseElement(xml, entities, pos) == (Some(Element("#cdata", map[], [], body)), pos + |body| + 12)
    ensures CharIs(xml, pos, '<') && !CharIs(xml, pos + 1, '/') && !MatchesAt(xml, "<!--", pos)
  {
    hide Until, EndsAt, IndexOf;
    MatchesParts(xml, "<![CDATA[", body + "]]>", pos);
    MatchesChar(xml, "<![CDATA[", pos, 0);
    MatchesChar(xml, "<![CDATA[", pos, 1);
    MatchesChar(xml, "<![CDATA[", pos, 2);
    NoMatch(xml, "<!--", pos, 2);
    UntilEnd(xml, pos + 9, body, "]]>");
    assert Skip(xml, pos) == pos;
  }

  lemma ElemStart(xml: string, pos: nat, n: Node)
    requires n.Elem? && Plain(n) && MatchesAt(xml, Serialize(n), pos)
    ensures CharIs(xml, pos, '<') && !CharIs(xml, pos + 1, '/') && !MatchesAt(xml, "<!--", pos)
  {
    hide AttrText, SerializeAll, AllPlain, PlainAttrs;
    var tail := AttrText(n.attrs, n.pad) + if n.content == [] then "/>" else ">" + (SerializeAll(n.content) + Close(n.close));
    assert Serialize(n) == "<" + (n.tag + tail);
    MatchesParts(xml, "<", n.tag + tail, pos);
    MatchesParts(xml, n.tag, tail, pos + 1);
    MatchesChar(xml, "<", pos, 0);
    MatchesChar(xml, n.tag, pos + 1, 0);
    assert n.tag[0] in n.tag && !EndsTag(n.tag[0]);
    NotThere(xml, "<!--", pos, n.tag[0]);
  }

  // ---- Closing tags ----

  lemma ClosingTag(xml: string, entities: string -> string, pos: nat, tag: string)
    requires '>' !in tag && MatchesAt(xml, Close(tag), pos)
    ensures ParseContent(xml, entities, pos) == Content([], "", pos + |tag| + 3)
    ensures CharIs(xml, pos, '<') && CharIs(xml, pos + 1, '/')
  {
    hide Until, IndexOf, SkipProlog, XmlSpec.ParseElement;
    MatchesParts(xml, "</", tag + ">", pos);
    MatchesParts(xml, tag, ">", pos + 2);
    MatchesChar(xml, "</", pos, 0);
    MatchesChar(xml, "</", pos, 1);
    MatchesChar(xml, ">", pos + 2 + |tag|, 0);
    UntilOver(xml, tag, pos + 2, '>');
    assert Skip(xml, pos) == pos;
  }

  /** Replacing entities leaves what stands before the first ampersand. */
  ghost predicate KeepsStart(entities: string -> string) {
    forall a: string, b: string | '&' !in a :: a <= entities(a + b)
  }

  /** Looking for an element, the parser takes a closing tag's angle bracket and reads the rest as text. */
  lemma ClosingTagHidden(xml: string, entities: string -> string, pos: nat)
    requires CharIs(xml, pos, '<') && CharIs(xml, pos + 1, '/')
    ensures From(xml, entities, pos, true) == ParseContent(xml, entities, pos + 1)
    ensures KeepsStart(entities) ==> "/" <= ParseContent(xml, entities, pos + 1).text
  {
    hide ParseContent, Until, DecodeEntities, XmlSpec.ParseElement, KeepsStart;
    NoElementAt(xml, entities, pos);
    var (t, q) := Until(xml, pos + 1, "<");
    SlashFirst(xml, pos + 1);
    TextStep(xml, entities, pos + 1, t, q);
    SlashStays(t, entities);
  }

  lemma SlashFirst(xml: string, pos: nat)
    requires CharIs(xml, pos, '/')
    ensures "/" <= Until(xml, pos, "<").0
  {
    hide IndexOf;
    UntilAdvances(xml, pos);
  }

  lemma SlashStays(t: string, entities: string -> string)
    requires "/" <= t
    ensures KeepsStart(entities) ==> "/" <= DecodeEntities(t, entities)
  {
    assert t == "/" + t[1..];
  }

  lemma NoElementAt(xml: string, entities: string -> string, pos: nat)
    requires CharIs(xml, pos, '<') && CharIs(xml, pos + 1, '/')
    ensures XmlSpec.ParseElement(xml, entities, pos) == (None, pos + 1)
  {
    hide ParseTag, MatchesAt;
    NotProlog(xml, pos, '/');
    assert Skip(xml, pos) == pos;
  }

  // ---- What is made of a list of nodes ----

  /** The content parsed is not what the nodes mean: a child differs, or text the nodes do not have was read. */
  ghost predicate Wrong(c: Content, ns: seq<Node>, entities: string -> string) {
    !(Children(ns, entities) <= c.children) || TextOf(ns, entities) + "/" <= c.text
  }

  /** The content parsed is what the nodes mean if all is fine, and wrong otherwise, as long as entity replacement keeps what it should. */
  ghost predicate Parsed(c: Content, ns: seq<Node>, entities: string -> string, fine: bool, keeps: bool, end: nat) {
    && (fine ==> c == Content(Children(ns, entities), TextOf(ns, entities), end))
    && (!fine && keeps ==> Wrong(c, ns, entities))
  }

  lemma ParsedSkipped(c: Content, ns: seq<Node>, entities: string -> string, fine: bool, keeps: bool, end: nat)
    requires ns != [] && IsSkipped(ns[0]) && Parsed(c, ns[1..], entities, fine, keeps, end)
    ensures Parsed(c, ns, entities, fine, keeps, end)
  {
    assert Children(ns, entities) == Children(ns[1..], entities) && TextOf(ns, entities) == TextOf(ns[1..], entities);
  }

  lemma ParsedWords(c: Content, ns: seq<Node>, entities: string -> string, fine: bool, keeps: bool, end: nat)
    requires ns != [] && ns[0].Words? && Parsed(c, ns[1..], entities, fine, keeps, end)
    ensures Parsed(Content(c.children, Spoken(ns[0].text, entities) + c.text, c.next), ns, entities, fine, keeps, end)
  {
    var t, u := Spoken(ns[0].text, entities), TextOf(ns[1..], entities);
    assert Children(ns, entities) == Children(ns[1..], entities) && TextOf(ns, entities) == t + u;
    assert (t + u) + "/" == t + (u + "/");
    if u + "/" <= c.text {
      assert t + (u + "/") <= t + c.text;
    }
  }

  lemma ParsedChild(child: Element, c: Content, ns: seq<Node>, entities: string -> string, sound: bool, fine: bool, keeps: bool, end: nat)
    requires ns != [] && IsChild(ns[0])
    requires if sound then child == Meaning(ns[0], entities) && Parsed(c, ns[1..], entities, fine, keeps, end) else keeps ==> child != Meaning(ns[0], entities)
    ensures Parsed(WithChild(Some(child), c), ns, entities, sound && fine, keeps, end)
  {
    hide Meaning;
    var es := Children(ns[1..], entities);
    assert Children(ns, entities) == [Meaning(ns[0], entities)] + es && TextOf(ns, entities) == TextOf(ns[1..], entities);
    if [Meaning(ns[0], entities)] + es <= [child] + c.children {
      assert ([child] + c.children)[0] == Meaning(ns[0], entities);
      assert ([child] + c.children)[1..] == c.children && ([Meaning(ns[0], entities)] + es)[1..] == es;
      assert es <= c.children;
    }
  }

  lemma WordsArePlain(n: Node)
    requires n.Words? && Plain(n)
    ensures PlainText(n.text)
  {}

  /** Text with a slash behind other text is more than that text, also when both are trimmed. */
  lemma {:induction false} TrimKeepsSlash(t: string, s: string)
    requires t + "/" <= s
    ensures Trim(s) != Trim(t)
  {
    assert s[|t|] == '/' && !IsSpace('/');
    if t != "" && IsSpace(t[0]) {
      assert s[0] == t[0] && t[1..] + "/" <= s[1..];
      TrimKeepsSlash(t[1..], s[1..]);
    } else {
      assert s[0] == if t == "" then '/' else t[0];
      TrimEndKeeps(s, |t|);
    }
  }

  lemma {:induction false} TrimEndKeeps(s: string, i: nat)
    requires i < |s| && !IsSpace(s[i])
    ensures |TrimEnd(s)| > i
    decreases |s|
  {
    if IsSpace(s[|s| - 1]) {
      TrimEndKeeps(s[..|s| - 1], i);
    }
  }

  // ---- Whole documents ----

  /** Everything is read back from here on: no closing tag below is hidden, nor the one at the end. */
  predicate Fine(ns: seq<Node>, searching: bool) {
    AllSound(ns) && !Spoils(ns, searching)
  }

  lemma FineStep(ns: seq<Node>, searching: bool)
    requires ns != []
    ensures Fine(ns, searching) <==> Sound(ns[0]) && Fine(ns[1..], IsSkipped(ns[0]) && (searching || Hides(ns[0])))
  {
    hide Spoils, Sound, Hides, IsSkipped;
    SpoilsStep(ns, searching);
  }

  lemma FineEnd(searching: bool)
    ensures Fine([], searching) <==> !searching
  {}

  /** Content from any of its nodes on: read back if all is fine, wrong otherwise. */
  lemma {:induction false} NodesParse(xml: string, entities: string -> string, pos: nat, ns: seq<Node>, tag: string, searching: bool)
    requires AllPlain(ns) && '>' !in tag && MatchesAt(xml, SerializeAll(ns) + Close(tag), pos)
    ensures Parsed(From(xml, entities, pos, searching), ns, entities, Fine(ns, searching), KeepsStart(entities), pos + |SerializeAll(ns)| + |tag| + 3)
    decreases ns
  {
    hide From, Parsed, Fine, Serialize, SerializeAll, AllPlain, MatchesAt, PlainTag, Plain, Sound, Close, Hides, IsSkipped, KeepsStart, IsChild, ReadsBack;
    if ns == [] {
      SerializedNothing(tag);
      EndParses(xml, entities, pos, tag, searching);
    } else {
      var first := Serialize(ns[0]);
      SerializedFirst(ns, tag);
      MatchesParts(xml, first, SerializeAll(ns[1..]) + Close(tag), pos);
      FirstStands(xml, pos + |first|, ns[1..], tag);
      NodesParse(xml, entities, pos + |first|, ns[1..], tag, IsSkipped(ns[0]) && (searching || Hides(ns[0])));
      if IsChild(ns[0]) {
        NodeParses(xml, entities, pos, ns[0]);
      }
      FirstParses(xml, entities, pos, ns, tag, searching);
    }
  }

  lemma FirstParses(xml: string, entities: string -> string, pos: nat, ns: seq<Node>, tag: string, searching: bool)
    requires ns != [] && AllPlain(ns) && MatchesAt(xml, Serialize(ns[0]), pos)
    requires var q := pos + |Serialize(ns[0])|; |ns| == 1 || !StandsApart(ns[1]) ==> CharIs(xml, q, '<')
    requires IsChild(ns[0]) ==>
               ReadsBack(XmlSpec.ParseElement(xml, entities, pos), ns[0], entities, pos + |Serialize(ns[0])|, KeepsStart(entities))
    requires var next, q := IsSkipped(ns[0]) && (searching || Hides(ns[0])), pos + |Serialize(ns[0])|;
             Parsed(From(xml, entities, q, next), ns[1..], entities, Fine(ns[1..], next), KeepsStart(entities), q + |SerializeAll(ns[1..])| + |tag| + 3)
    ensures Parsed(From(xml, entities, pos, searching), ns, entities, Fine(ns, searching), KeepsStart(entities), pos + |SerializeAll(ns)| + |tag| + 3)
  {
    hide From, Parsed, Fine, Serialize, SerializeAll, AllPlain, MatchesAt, Sound, Hides, IsSkipped, KeepsStart, IsChild, ReadsBack;
    SerializedFirst(ns, tag);
    FineStep(ns, searching);
    var fine, end := Fine(ns[1..], IsSkipped(ns[0]) && (searching || Hides(ns[0]))), pos + |SerializeAll(ns)| + |tag| + 3;
    if IsChild(ns[0]) {
      ChildParses(xml, entities, pos, ns, searching, fine, end);
    } else {
      OtherParses(xml, entities, pos, ns, searching, fine, end);
    }
  }

  lemma SerializedNothing(tag: string)
    ensures SerializeAll([]) + Close(tag) == Close(tag)
  {}

  lemma SerializedFirst(ns: seq<Node>, tag: string)
    requires ns != [] && AllPlain(ns)
    ensures Plain(ns[0]) && AllPlain(ns[1..])
    ensures SerializeAll(ns) + Close(tag) == Serialize(ns[0]) + (SerializeAll(ns[1..]) + Close(tag))
    ensures |SerializeAll(ns)| == |Serialize(ns[0])| + |SerializeAll(ns[1..])|
  {
    hide Serialize, Plain, Close;
  }

  lemma EndParses(xml: string, entities: string -> string, pos: nat, tag: string, searching: bool)
    requires '>' !in tag && MatchesAt(xml, Close(tag), pos)
    ensures Parsed(From(xml, entities, pos, searching), [], entities, Fine([], searching), KeepsStart(entities), pos + |tag| + 3)
  {
    hide XmlSpec.ParseElement, ParseContent, MatchesAt, PlainTag, Fine, KeepsStart;
    FineEnd(searching);
    ClosingTag(xml, entities, pos, tag);
    if searching {
      ClosingTagHidden(xml, entities, pos);
    }
  }

  /** Nodes that start with no angle bracket. */
  predicate StandsApart(n: Node) {
    n.Words? || n.Blanks?
  }

  /** What stands where a list of nodes or its closing tag begins. */
  lemma FirstStands(xml: string, pos: nat, ns: seq<Node>, tag: string)
    requires AllPlain(ns) && MatchesAt(xml, SerializeAll(ns) + Close(tag), pos)
    ensures ns == [] || !StandsApart(ns[0]) ==> CharIs(xml, pos, '<')
  {
    hide MatchesAt, Plain;
    var all := SerializeAll(ns) + Close(tag);
    if ns == [] {
      assert all[0] == '<';
      MatchesChar(xml, all, pos, 0);
    } else if !StandsApart(ns[0]) {
      SerializedStart(ns[0]);
      assert all[0] == Serialize(ns[0])[0];
      MatchesChar(xml, all, pos, 0);
    }
  }

  lemma SerializedStart(n: Node)
    requires !StandsApart(n)
    ensures Serialize(n) != "" && Serialize(n)[0] == '<'
  {
    hide SerializeAll, AttrText;
  }

  lemma ChildParses(xml: string, entities: string -> string, pos: nat, ns: seq<Node>, searching: bool, fine: bool, end: nat)
    requires ns != [] && IsChild(ns[0]) && Plain(ns[0]) && MatchesAt(xml, Serialize(ns[0]), pos)
    requires ReadsBack(XmlSpec.ParseElement(xml, entities, pos), ns[0], entities, pos + |Serialize(ns[0])|, KeepsStart(entities))
    requires Parsed(From(xml, entities, pos + |Serialize(ns[0])|, IsSkipped(ns[0]) && (searching || Hides(ns[0]))), ns[1..], entities, fine, KeepsStart(entities), end)
    ensures Parsed(From(xml, entities, pos, searching), ns, entities, Sound(ns[0]) && fine, KeepsStart(entities), end)
  {
    hide XmlSpec.ParseElement, ParseContent, MatchesAt, Plain, Serialize, Meaning, Sound, KeepsStart, Parsed;
    ChildStart(xml, entities, pos, ns[0]);
    SearchesAt(xml, entities, pos, searching);
    var (child, q) := XmlSpec.ParseElement(xml, entities, pos);
    ParsedChild(child.value, ParseContent(xml, entities, q), ns, entities, Sound(ns[0]), fine, KeepsStart(entities), end);
  }

  lemma ChildStart(xml: string, entities: string -> string, pos: nat, n: Node)
    requires IsChild(n) && Plain(n) && MatchesAt(xml, Serialize(n), pos)
    ensures CharIs(xml, pos, '<') && !CharIs(xml, pos + 1, '/') && !MatchesAt(xml, "<!--", pos)
  {
    hide XmlSpec.ParseElement, MatchesAt, AttrText, SerializeAll, AllPlain, PlainAttrs, EndsAt;
    if n.Elem? {
      ElemStart(xml, pos, n);
    } else {
      SectionParses(xml, entities, pos, n.body);
    }
  }

  lemma OtherParses(xml: string, entities: string -> string, pos: nat, ns: seq<Node>, searching: bool, fine: bool, end: nat)
    requires ns != [] && !IsChild(ns[0]) && AllPlain(ns) && MatchesAt(xml, Serialize(ns[0]), pos)
    requires var q := pos + |Serialize(ns[0])|; |ns| == 1 || !StandsApart(ns[1]) ==> CharIs(xml, q, '<')
    requires Parsed(From(xml, entities, pos + |Serialize(ns[0])|, IsSkipped(ns[0]) && (searching || Hides(ns[0]))), ns[1..], entities, fine, KeepsStart(entities), end)
    ensures Parsed(From(xml, entities, pos, searching), ns, entities, Sound(ns[0]) && fine, KeepsStart(entities), end)
  {
    hide XmlSpec.ParseElement, ParseContent, MatchesAt, Plain, KeepsStart, Parsed, Spoken;
    var q := pos + |Serialize(ns[0])|;
    assert Sound(ns[0]);
    if ns[0].Words? {
      WordsArePlain(ns[0]);
      WordsStep(xml, entities, pos, ns[0].text, searching);
      ParsedWords(ParseContent(xml, entities, q), ns, entities, fine, KeepsStart(entities), end);
    } else {
      SkippedStep(xml, entities, pos, ns[0], searching);
      ParsedSkipped(From(xml, entities, pos, searching), ns, entities, fine, KeepsStart(entities), end);
    }
  }

  /** An element or section was parsed to its meaning, up to its end, if no closing tag in it is hidden, and to another element otherwise. */
  ghost predicate ReadsBack(r: (Option<Element>, nat), n: Node, entities: string -> string, end: nat, keeps: bool)
    requires IsChild(n)
  {
    && r.0.Some?
    && (Sound(n) ==> r == (Some(Meaning(n, entities)), end))
    && (!Sound(n) && keeps ==> r.0 != Some(Meaning(n, entities)))
  }

  /** Wherever a plain element stands, it is parsed to its meaning and its end if and only if no closing tag in it is hidden. */
  lemma {:induction false} NodeParses(xml: string, entities: string -> string, pos: nat, n: Node)
    requires IsChild(n) && Plain(n) && MatchesAt(xml, Serialize(n), pos)
    ensures ReadsBack(XmlSpec.ParseElement(xml, entities, pos), n, entities, pos + |Serialize(n)|, KeepsStart(entities))
    decreases n
  {
    hide XmlSpec.ParseElement, ParseContent, SerializeAll, AttrText, MatchesAt, Meaning, KeepsStart, Close, PlainAttrs, PlainTag, EndsAt;
    if n.Section? {
      SectionParses(xml, entities, pos, n.body);
      SectionMeans(n, entities);
    } else {
      var head := "<" + n.tag + AttrText(n.attrs, n.pad);
      if n.content == [] {
        MatchesParts(xml, head, "/>", pos);
        EmptyParses(xml, entities, pos, n, head);
      } else {
        var inner := SerializeAll(n.content) + Close(n.close);
        Associate(head, ">", inner);
        MatchesParts(xml, head, ">" + inner, pos);
        MatchesParts(xml, ">", inner, pos + |head|);
        NodesParse(xml, entities, pos + |head| + 1, n.content, n.close, false);
        FilledLength(n, head);
        FilledParses(xml, entities, pos, n, head);
      }
    }
  }

  lemma FilledLength(n: Node, head: string)
    requires n.Elem? && n.content != [] && head == "<" + n.tag + AttrText(n.attrs, n.pad)
    ensures |Serialize(n)| == |head| + 1 + |SerializeAll(n.content)| + |n.close| + 3
  {
    hide SerializeAll, AttrText;
  }

  lemma SectionMeans(n: Node, entities: string -> string)
    requires n.Section?
    ensures Sound(n) && Meaning(n, entities) == Element("#cdata", map[], [], n.body)
  {}

  lemma ElemMeans(n: Node, entities: string -> string)
    requires n.Elem?
    ensures Meaning(n, entities) == Element(n.tag, Entered(n.attrs, entities, map[]), Children(n.content, entities), Trim(TextOf(n.content, entities)))
    ensures Sound(n) <==> Fine(n.content, false)
  {}

  lemma EmptyParses(xml: string, entities: string -> string, pos: nat, n: Node, head: string)
    requires n.Elem? && Plain(n) && n.content == [] && head == "<" + n.tag + AttrText(n.attrs, n.pad)
    requires MatchesAt(xml, head, pos) && MatchesAt(xml, "/>", pos + |head|)
    ensures Sound(n) && XmlSpec.ParseElement(xml, entities, pos) == (Some(Meaning(n, entities)), pos + |head| + 2)
  {
    hide XmlSpec.ParseElement, Attributes, ParseTag, AttrText, Entered, ScanTo, PlainTag, PlainAttrs, Meaning, Sound;
    var q := pos + |head|;
    MatchesChar(xml, "/>", q, 0);
    MatchesChar(xml, "/>", q, 1);
    OpeningTag(xml, entities, pos, n);
    ClosedTagStep(xml, entities, pos + 1, pos + 1 + |n.tag|, Entered(n.attrs, entities, map[]), q);
    ElemMeans(n, entities);
    FineEnd(false);
  }

  lemma FilledParses(xml: string, entities: string -> string, pos: nat, n: Node, head: string)
    requires n.Elem? && Plain(n) && n.content != [] && head == "<" + n.tag + AttrText(n.attrs, n.pad)
    requires MatchesAt(xml, head, pos) && MatchesAt(xml, ">", pos + |head|)
    requires Parsed(ParseContent(xml, entities, pos + |head| + 1), n.content, entities, Fine(n.content, false), KeepsStart(entities), pos + |Serialize(n)|)
    ensures ReadsBack(XmlSpec.ParseElement(xml, entities, pos), n, entities, pos + |Serialize(n)|, KeepsStart(entities))
  {
    hide XmlSpec.ParseElement, Attributes, ParseTag, ParseContent, AttrText, Entered, ScanTo, PlainTag, PlainAttrs;
    hide Trim, Meaning, Sound, Fine, Serialize, KeepsStart, Parsed, SerializeAll, Close;
    var q := pos + |head|;
    MatchesChar(xml, ">", q, 0);
    OpeningTag(xml, entities, pos, n);
    OpenTagStep(xml, entities, pos + 1, pos + 1 + |n.tag|, Entered(n.attrs, entities, map[]), q);
    ElemMeans(n, entities);
    TrimmedContent(ParseContent(xml, entities, q + 1), n.content, entities, Fine(n.content, false), KeepsStart(entities), pos + |Serialize(n)|);
  }

  lemma TrimmedContent(c: Content, ns: seq<Node>, entities: string -> string, fine: bool, keeps: bool, end: nat)
    requires Parsed(c, ns, entities, fine, keeps, end)
    ensures fine ==> (c.children, Trim(c.text), c.next) == (Children(ns, entities), Trim(TextOf(ns, entities)), end)
    ensures !fine && keeps ==> (c.children, Trim(c.text)) != (Children(ns, entities), Trim(TextOf(ns, entities)))
  {
    hide Trim, Children, TextOf;
    if !fine && keeps && TextOf(ns, entities) + "/" <= c.text {
      TrimKeepsSlash(TextOf(ns, entities), c.text);
    }
  }

  /** What stands before the root element. */
  predicate IsProlog(ns: seq<Node>) {
    OnlySkipped(ns) && AllPlain(ns)
  }

  lemma {:induction false} PrologSkipped(xml: string, entities: string -> string, pos: nat, prolog: seq<Node>, root: Node)
    requires IsProlog(prolog) && root.Elem? && Plain(root) && MatchesAt(xml, SerializeAll(prolog) + Serialize(root), pos)
    ensures XmlSpec.ParseElement(xml, entities, pos) == XmlSpec.ParseElement(xml, entities, pos + |SerializeAll(prolog)|)
    ensures MatchesAt(xml, Serialize(root), pos + |SerializeAll(prolog)|)
    decreases |prolog|
  {
    hide XmlSpec.ParseElement, MatchesAt, Plain, Serialize, IsSkipped;
    if prolog == [] {
      assert SerializeAll(prolog) + Serialize(root) == Serialize(root);
    } else {
      var first, others := Serialize(prolog[0]), SerializeAll(prolog[1..]) + Serialize(root);
      assert SerializeAll(prolog) + Serialize(root) == first + others;
      MatchesParts(xml, first, others, pos);
      OnlySkippedStep(prolog);
      PrologSkipped(xml, entities, pos + |first|, prolog[1..], root);
      if prolog[0].Blanks? {
        BlanksAre(prolog[0]);
        BlanksStep(xml, entities, pos, prolog[0].space, false);
      } else {
        SkippedNode(xml, entities, pos, prolog[0]);
      }
    }
  }

  /**
   Every plain document - whitespace, comments, instructions and declarations, then the root element, then
   anything - is parsed to its meaning if and only if no element in it has an instruction or a
   declaration, with nothing but whitespace, comments, instructions and declarations behind it, right before its closing tag.
   */
  lemma DocumentReadsBackIff(prolog: seq<Node>, root: Node, entities: string -> string, rest: string)
    requires IsProlog(prolog) && root.Elem? && Plain(root)
    ensures var r := XmlSpec.ParseXml(SerializeAll(prolog) + Serialize(root) + rest, entities);
            && (Sound(root) ==> r == Ok(Meaning(root, entities)))
            && (KeepsStart(entities) ==> (r == Ok(Meaning(root, entities)) <==> Sound(root)))
  {
    hide XmlSpec.ParseElement, Serialize, SerializeAll, Plain, Meaning, Sound, KeepsStart;
    var text := SerializeAll(prolog) + Serialize(root);
    var xml := text + rest;
    assert MatchesAt(xml, text, 0);
    PrologSkipped(xml, entities, 0, prolog, root);
    NodeParses(xml, entities, |SerializeAll(prolog)|, root);
  }

  /** The smallest such element: its own closing tag becomes its text. */
  lemma InstructionSpoilsClosingTag(tag: string, body: string, entities: string -> string)
    requires PlainTag(tag) && '&' !in tag && '<' !in tag && EndsAt(body, "?>")
    ensures var n := Elem(tag, [], "", [Instruction(body)], tag);
            && Plain(n) && Meaning(n, entities) == Element(tag, map[], [], "")
            && XmlSpec.ParseXml(Serialize(n), entities) == Ok(Element(tag, map[], [], "/" + tag + ">"))
  {
    hide XmlSpec.ParseElement, PlainTag, EndsAt, MatchesAt, Plain, Meaning, Serialize;
    var n, head, inner := Elem(tag, [], "", [Instruction(body)], tag), "<" + tag + "", "<?" + (body + "?>");
    var xml := head + (">" + (inner + Close(tag)));
    InstructionAlone(n, body, entities);
    WholeMatches(xml);
    MatchesParts(xml, head, ">" + (inner + Close(tag)), 0);
    MatchesParts(xml, ">", inner + Close(tag), |head|);
    MatchesParts(xml, inner, Close(tag), |head| + 1);
    SpoiledElement(xml, entities, tag, body);
  }

  lemma SpoiledElement(xml: string, entities: string -> string, tag: string, body: string)
    requires PlainTag(tag) && '&' !in tag && '<' !in tag && EndsAt(body, "?>")
    requires MatchesAt(xml, "<" + tag + "", 0) && MatchesAt(xml, ">", |tag| + 1)
    requires MatchesAt(xml, "<?" + (body + "?>"), |tag| + 2) && MatchesAt(xml, Close(tag), |tag| + |body| + 6)
    requires |xml| == |tag| + |body| + 6 + |Close(tag)|
    ensures XmlSpec.ParseElement(xml, entities, 0).0 == Some(Element(tag, map[], [], "/" + tag + ">"))
  {
    hide XmlSpec.ParseElement, ParseContent, PlainTag, EndsAt, MatchesAt, ScanTo, Attributes, Trim;
    MatchesChar(xml, ">", |tag| + 1, 0);
    OpeningTag(xml, entities, 0, Elem(tag, [], "", [], tag));
    OpenTagStep(xml, entities, 1, 1 + |tag|, map[], |tag| + 1);
    SpoiledContent(xml, entities, |tag| + 2, tag, body);
    Associate("/", tag, ">");
    TrimKeeps("/" + (tag + ">"));
  }

  lemma WholeMatches(s: string)
    ensures MatchesAt(s, s, 0)
  {}

  lemma InstructionAlone(n: Node, body: string, entities: string -> string)
    requires n.Elem? && n.attrs == [] && n.pad == "" && n.content == [Instruction(body)] && n.close == n.tag && PlainTag(n.tag) && EndsAt(body, "?>")
    ensures Plain(n) && Meaning(n, entities) == Element(n.tag, map[], [], "")
    ensures Serialize(n) == "<" + n.tag + "" + (">" + ("<?" + (body + "?>") + Close(n.tag)))
  {
    hide PlainTag, EndsAt;
    assert n.content[1..] == [] && n.content[0] == Instruction(body);
    assert Plain(n.content[0]) && AllPlain([]);
    NameHasNoEnd(n.tag);
    assert SerializeAll(n.content) == Serialize(Instruction(body)) + SerializeAll([]);
    assert SerializeAll(n.content) == "<?" + (body + "?>");
    assert Children([], entities) == [] && TextOf([], entities) == "";
  }

  lemma NameHasNoEnd(tag: string)
    requires PlainTag(tag)
    ensures '>' !in tag
  {}

  lemma SpoiledContent(xml: string, entities: string -> string, pos: nat, tag: string, body: string)
    requires PlainTag(tag) && '&' !in tag && '<' !in tag && EndsAt(body, "?>")
    requires MatchesAt(xml, "<?" + (body + "?>"), pos) && MatchesAt(xml, Close(tag), pos + |body| + 4)
    requires |xml| == pos + |body| + 4 + |Close(tag)|
    ensures ParseContent(xml, entities, pos) == Content([], "/" + (tag + ">"), |xml|)
  {
    hide XmlSpec.ParseElement, ParseContent, PlainTag, EndsAt, MatchesAt, Until, DecodeEntities;
    var q, text := pos + |body| + 4, "/" + (tag + ">");
    SlashTextPlain(tag, text, entities);
    assert Close(tag) == "<" + text;
    MatchesParts(xml, "<", text, q);
    MatchesChar(xml, "<", q, 0);
    MatchesChar(xml, text, q + 1, 0);
    SkippedStep(xml, entities, pos, Instruction(body), false);
    ClosingTagHidden(xml, entities, q);
    UntilTheEnd(xml, q + 1, text);
    TextStep(xml, entities, q + 1, text, |xml|);
    assert ParseContent(xml, entities, |xml|) == Content([], "", |xml|) by { NothingLeft(xml, entities); }
  }

  lemma SlashTextPlain(tag: string, text: string, entities: string -> string)
    requires '&' !in tag && '<' !in tag && text == "/" + (tag + ">")
    ensures '<' !in text && DecodeEntities(text, entities) == text
  {}

  lemma UntilTheEnd(xml: string, pos: nat, s: string)
    requires MatchesAt(xml, s, pos) && pos + |s| == |xml| && '<' !in s
    ensures Until(xml, pos, "<") == (s, |xml|)
  {
    forall i: nat | pos <= i ensures !MatchesAt(xml, "<", i) {
      if i < |xml| {
        MatchesChar(xml, s, pos, i - pos);
        assert s[i - pos] in s;
        NoMatch(xml, "<", i, 0);
      }
    }
    assert IndexOf(xml, "<", pos) == -1;
    assert xml[pos..pos + |s|] == xml[pos..];
  }

  lemma NothingLeft(xml: string, entities: string -> string)
    ensures ParseContent(xml, entities, |xml|) == Content([], "", |xml|)
  {}
}
