/**
 The recursive XML parser of src/pcml/xml.js. `XmlSpec` says what every string parses to; the
 parser's methods, which share one position, are proved to follow it and to terminate.
 */
module XmlSpec {
  import opened Outcome
  import opened Text

  datatype Element = Element(tag: string, attrs: map<string, string>, children: seq<Element>, text: string)

  /** How much of the input is left. */
  function Left(xml: string, pos: nat): (n: nat) {
    if pos < |xml| then |xml| - pos else 0
  }

  // ---- Scanning ----

  predicate IsBlank(c: char) {
    c == ' ' || c == '\t' || c == '\n' || c == '\r'
  }

  predicate NotBlank(c: char) {
    !IsBlank(c)
  }

  predicate EndsTag(c: char) {
    IsBlank(c) || c == '>' || c == '/'
  }

  predicate EndsName(c: char) {
    c == '=' || c == ' ' || c == '>' || c == '/'
  }

  predicate IsDoubleQuote(c: char) {
    c == '"'
  }

  predicate IsSingleQuote(c: char) {
    c == '\''
  }

  /** The first position from `pos` on whose character stops the scan, or the end. */
  function ScanTo(xml: string, pos: nat, stop: char -> bool): (e: nat)
    ensures e >= pos && (e > |xml| ==> e == pos)
    ensures forall i | pos <= i < e :: i < |xml| && !stop(xml[i])
    ensures e < |xml| ==> stop(xml[e])
    decreases Left(xml, pos)
  {
    if pos < |xml| && !stop(xml[pos]) then ScanTo(xml, pos + 1, stop) else pos
  }

  function Skip(xml: string, pos: nat): (e: nat)
    ensures e >= pos && (pos < |xml| && !IsBlank(xml[pos]) ==> e == pos)
  {
    ScanTo(xml, pos, NotBlank)
  }

  /** `readUntil`: the text up to the terminator, or all of it, and the position there. */
  function Until(xml: string, pos: nat, terminator: string): (r: (string, nat))
    requires pos <= |xml|
    ensures pos <= r.1 <= |xml|
  {
    var k := IndexOf(xml, terminator, pos);
    if k == -1 then (xml[pos..], |xml|) else (xml[pos..k], k)
  }

  /** The character at a position, if there is one. */
  predicate CharIs(xml: string, pos: nat, c: char) {
    pos < |xml| && xml[pos] == c
  }

  /** `decodeEntities`; the replacements themselves are the parameter `entities`. */
  function DecodeEntities(s: string, entities: string -> string): (r: string) {
    if '&' in s then entities(s) else s
  }

  // ---- Attributes ----

  function Attributes(xml: string, entities: string -> string, pos: nat, attrs: map<string, string>): (r: (map<string, string>, nat))
    ensures r.1 >= pos
    decreases Left(xml, pos)
  {
    if pos >= |xml| then (attrs, pos) else
      var p := Skip(xml, pos);
      if p >= |xml| || xml[p] == '>' || xml[p] == '/' || xml[p] == '?' then (attrs, p) else
        var e := ScanTo(xml, p, EndsName);
        var name := Trim(xml[p..e]);
        if name == [] then (attrs, e) else
          assert e > p;
          var (attrs', p') := Value(xml, entities, e, name, attrs);
          Attributes(xml, entities, p', attrs')
  }

  /** A quoted value from its quote on, entered under the name. */
  function Quoted(xml: string, entities: string -> string, q: nat, name: string, attrs: map<string, string>): (r: (map<string, string>, nat))
    requires q < |xml|
    ensures r.1 >= q
  {
    var v := ScanTo(xml, q + 1, if xml[q] == '"' then IsDoubleQuote else IsSingleQuote);
    (attrs[name := DecodeEntities(xml[q + 1..v], entities)], if v < |xml| then v + 1 else v)
  }

  /** What follows an attribute's name: an equals sign and a quoted value, or something that is skipped. */
  function Value(xml: string, entities: string -> string, e: nat, name: string, attrs: map<string, string>): (r: (map<string, string>, nat))
    ensures r.1 >= e
  {
    var p := Skip(xml, e);
    if !CharIs(xml, p, '=') then (attrs, p) else
      var q := Skip(xml, p + 1);
      if !(CharIs(xml, q, '"') || CharIs(xml, q, '\'')) then (attrs, q) else Quoted(xml, entities, q, name, attrs)
  }

  // ---- Elements ----

  datatype Prolog = Cdata(data: string, next: nat) | Skipped(next: nat)

  /** Comments, processing instructions and declarations before an element; a CDATA section ends the search. */
  function SkipProlog(xml: string, pos: nat): (r: Prolog)
    ensures r.next >= pos
    ensures r.Cdata? ==> r.next > pos
    ensures r.Skipped? ==> r.next > pos || !CharIs(xml, pos, '<') || (!MatchesAt(xml, "<!", pos) && !MatchesAt(xml, "<?", pos))
    decreases Left(xml, pos)
  {
    if !CharIs(xml, pos, '<') then Skipped(pos)
    else if MatchesAt(xml, "<!--", pos) then SkipProlog(xml, Skip(xml, Until(xml, pos + 4, "-->").1 + 3))
    else if MatchesAt(xml, "<![CDATA[", pos) then
      var r := Until(xml, pos + 9, "]]>");
      Cdata(r.0, r.1 + 3)
    else if MatchesAt(xml, "<?", pos) then SkipProlog(xml, Skip(xml, Until(xml, pos + 2, "?>").1 + 2))
    else if MatchesAt(xml, "<!", pos) then SkipProlog(xml, Skip(xml, Until(xml, pos + 2, ">").1 + 1))
    else Skipped(pos)
  }

  /** `parseElement`: the element at a position, if there is one, and the position behind it. */
  function ParseElement(xml: string, entities: string -> string, pos: nat): (r: (Option<Element>, nat))
    ensures r.1 >= pos
    ensures CharIs(xml, pos, '<') ==> r.1 > pos
    decreases Left(xml, pos), 3
  {
    var p := Skip(xml, pos);
    if !CharIs(xml, p, '<') then (None, p) else
      match SkipProlog(xml, p)
      case Cdata(data, next) => (Some(Element("#cdata", map[], [], data)), next)
      case Skipped(q) => ParseAfterProlog(xml, entities, q)
  }

  /** The element behind what was skipped, unless there is none or a closing tag. */
  function ParseAfterProlog(xml: string, entities: string -> string, q: nat): (r: (Option<Element>, nat))
    ensures r.1 >= q && (CharIs(xml, q, '<') ==> r.1 > q)
    decreases Left(xml, q), 2
  {
    if !CharIs(xml, q, '<') then (None, q)
    else if CharIs(xml, q + 1, '/') then (None, q + 1)
    else ParseTag(xml, entities, q + 1)
  }

  /** An element from its name on. */
  function ParseTag(xml: string, entities: string -> string, start: nat): (r: (Option<Element>, nat))
    requires 0 < start <= |xml|
    ensures r.1 >= start
    decreases Left(xml, start - 1), 1
  {
    var e := ScanTo(xml, start, EndsTag);
    var tag := xml[start..e];
    var (attrs, q) := Attributes(xml, entities, e, map[]);
    var p := Skip(xml, q);
    if CharIs(xml, p, '/') then
      (Some(Element(tag, attrs, [], "")), if CharIs(xml, p + 1, '>') then p + 2 else p + 1)
    else
      var c := ParseContent(xml, entities, if CharIs(xml, p, '>') then p + 1 else p);
      (Some(Element(tag, attrs, c.children, Trim(c.text))), c.next)
  }

  datatype Content = Content(children: seq<Element>, text: string, next: nat)

  /** Children and text up to the closing tag or the end of the input. */
  function ParseContent(xml: string, entities: string -> string, pos: nat): (r: Content)
    ensures r.next >= pos
    decreases Left(xml, pos), 4
  {
    var p := Skip(xml, pos);
    if p >= |xml| then Content([], "", p)
    else if xml[p] == '<' then
      if CharIs(xml, p + 1, '/') then Content([], "", Until(xml, p + 2, ">").1 + 1)
      else if MatchesAt(xml, "<!--", p) then ParseContent(xml, entities, Until(xml, p + 4, "-->").1 + 3)
      else
        var (child, q) := ParseElement(xml, entities, p);
        var rest := ParseContent(xml, entities, q);
        Content((if child.Some? then [child.value] else []) + rest.children, rest.text, rest.next)
    else
      var (t, q) := Until(xml, p, "<");
      UntilAdvances(xml, p);
      var rest := ParseContent(xml, entities, q);
      Content(rest.children, DecodeEntities(t, entities) + rest.text, rest.next)
  }

  lemma UntilAdvances(xml: string, p: nat)
    requires p < |xml| && xml[p] != '<'
    ensures Until(xml, p, "<").1 > p
  {
    assert MatchesAt(xml, "<", p) ==> xml[p..p + 1][0] == '<';
  }

  function ParseXml(xml: string, entities: string -> string): (r: Result<Element>) {
    var root := ParseElement(xml, entities, 0).0;
    if root.Some? then Ok(root.value) else Err(NoRootElement)
  }
}

module Xml {
  import opened Outcome
  import opened Text
  import opened XmlSpec

  /** The closure of `parseXml`: nested functions that share the input and advance one position. */
  class Parser {
    const xml: string
    const entities: string -> string
    var pos: nat

    constructor (xml: string, entities: string -> string)
      ensures this.xml == xml && this.entities == entities && pos == 0
    {
      this.xml, this.entities, pos := xml, entities, 0;
    }

    /** `while (pos < len && !stop(xml[pos])) pos++`. */
    method Advance(stop: char -> bool)
      modifies this
      ensures pos == ScanTo(xml, old(pos), stop)
    {
      while pos < |xml| && !stop(xml[pos])
        invariant ScanTo(xml, pos, stop) == ScanTo(xml, old(pos), stop)
        decreases Left(xml, pos)
      {
        pos := pos + 1;
      }
    }

    method SkipWhitespace()
      modifies this
      ensures pos == Skip(xml, old(pos))
    {
      Advance(NotBlank);
    }

    method ReadUntil(terminator: string) returns (s: string)
      requires pos <= |xml|
      modifies this
      ensures (s, pos) == Until(xml, old(pos), terminator)
    {
      var start := pos;
      var idx := IndexOf(xml, terminator, pos);
      if idx == -1 {
        pos := |xml|;
        return xml[start..];
      }
      pos := idx;
      s := xml[start..idx];
    }

    method ParseQuoted(name: string, attrs: map<string, string>) returns (attrs': map<string, string>)
      requires pos < |xml|
      modifies this
      ensures (attrs', pos) == Quoted(xml, entities, old(pos), name, attrs)
    {
      var quote := xml[pos];
      pos := pos + 1;
      var valStart := pos;
      Advance(if quote == '"' then IsDoubleQuote else IsSingleQuote);
      attrs' := attrs[name := DecodeEntities(xml[valStart..pos], entities)];
      if pos < |xml| {
        pos := pos + 1;
      }
    }

    method ParseValue(name: string, attrs: map<string, string>) returns (attrs': map<string, string>)
      modifies this
      ensures (attrs', pos) == Value(xml, entities, old(pos), name, attrs)
    {
      hide Quoted;
      attrs' := attrs;
      SkipWhitespace();
      if pos < |xml| && xml[pos] == '=' {
        pos := pos + 1;
        SkipWhitespace();
        if pos < |xml| && (xml[pos] == '"' || xml[pos] == '\'') {
          attrs' := ParseQuoted(name, attrs);
        }
      }
    }

    method ParseAttributes() returns (attrs: map<string, string>)
      modifies this
      ensures (attrs, pos) == Attributes(xml, entities, old(pos), map[])
    {
      hide Value;
      attrs := map[];
      while pos < |xml|
        invariant pos >= old(pos)
        invariant Attributes(xml, entities, pos, attrs) == Attributes(xml, entities, old(pos), map[])
        decreases Left(xml, pos)
      {
        ghost var before := pos;
        SkipWhitespace();
        if pos >= |xml| || xml[pos] == '>' || xml[pos] == '/' || xml[pos] == '?' {
          return;
        }
        var nameStart := pos;
        Advance(EndsName);
        var name := Trim(xml[nameStart..pos]);
        if name == [] {
          return;
        }
        assert pos > nameStart;
        attrs := ParseValue(name, attrs);
      }
    }

    /** The loop that skips comments, processing instructions and declarations. */
    method ParseProlog() returns (cdata: Option<string>)
      modifies this
      ensures SkipProlog(xml, old(pos)) == if cdata.Some? then Cdata(cdata.value, pos) else Skipped(pos)
    {
      hide Until, Skip, IndexOf, MatchesAt;
      while pos < |xml| && xml[pos] == '<'
        invariant pos >= old(pos) && SkipProlog(xml, pos) == SkipProlog(xml, old(pos))
        decreases Left(xml, pos)
      {
        if MatchesAt(xml, "<!--", pos) {
          SkipThrough("<!--", "-->");
        } else if MatchesAt(xml, "<![CDATA[", pos) {
          var data := ReadCdata();
          return Some(data);
        } else if MatchesAt(xml, "<?", pos) {
          SkipThrough("<?", "?>");
        } else if MatchesAt(xml, "<!", pos) {
          SkipThrough("<!", ">");
        } else {
          break;
        }
      }
      cdata := None;
    }

    method ReadCdata() returns (data: string)
      requires MatchesAt(xml, "<![CDATA[", pos)
      modifies this
      ensures old(pos) + 9 <= |xml| && Cdata(data, pos) == Cdata(Until(xml, old(pos) + 9, "]]>").0, Until(xml, old(pos) + 9, "]]>").1 + 3)
    {
      pos := pos + 9;
      data := ReadUntil("]]>");
      pos := pos + 3;
    }

    /** Past an opening, its terminator and the whitespace behind it. */
    method SkipThrough(opening: string, terminator: string)
      requires MatchesAt(xml, opening, pos)
      modifies this
      ensures old(pos) + |opening| <= |xml|
      ensures pos == Skip(xml, Until(xml, old(pos) + |opening|, terminator).1 + |terminator|)
    {
      pos := pos + |opening|;
      var _ := ReadUntil(terminator);
      pos := pos + |terminator|;
      SkipWhitespace();
    }

    method ParseElement() returns (element: Option<Element>)
      modifies this
      ensures (element, pos) == XmlSpec.ParseElement(xml, entities, old(pos))
      decreases Left(xml, pos), 2
    {
      hide SkipProlog, XmlSpec.ParseTag;
      SkipWhitespace();
      if pos >= |xml| || xml[pos] != '<' {
        return None;
      }
      var cdata := ParseProlog();
      if cdata.Some? {
        return Some(Element("#cdata", map[], [], cdata.value));
      }
      if pos >= |xml| || xml[pos] != '<' {
        return None;
      }
      pos := pos + 1;
      if pos < |xml| && xml[pos] == '/' {
        return None;
      }
      element := ParseTag();
    }

    /** From the name of a tag on. */
    method ParseTag() returns (element: Option<Element>)
      requires 0 < pos <= |xml|
      modifies this
      ensures (element, pos) == XmlSpec.ParseTag(xml, entities, old(pos))
      decreases Left(xml, pos - 1), 1
    {
      hide XmlSpec.ParseContent, Attributes;
      var tagStart := pos;
      Advance(EndsTag);
      var tag := xml[tagStart..pos];
      var attrs := ParseAttributes();
      SkipWhitespace();
      if pos < |xml| && xml[pos] == '/' {
        pos := pos + 1;
        if pos < |xml| && xml[pos] == '>' {
          pos := pos + 1;
        }
        return Some(Element(tag, attrs, [], ""));
      }
      if pos < |xml| && xml[pos] == '>' {
        pos := pos + 1;
      }
      var children, text := ParseContent();
      element := Some(Element(tag, attrs, children, Trim(text)));
    }

    /** The loop over children and text up to the closing tag. */
    method ParseContent() returns (children: seq<Element>, text: string)
      modifies this
      ensures Content(children, text, pos) == XmlSpec.ParseContent(xml, entities, old(pos))
      decreases Left(xml, pos), 3
    {
      hide XmlSpec.ParseContent;
      children, text := [], "";
      var open := true;
      while open
        invariant pos >= old(pos)
        invariant Prepend(children, text, if open then XmlSpec.ParseContent(xml, entities, pos) else Content([], "", pos))
               == XmlSpec.ParseContent(xml, entities, old(pos))
        decreases open, Left(xml, pos)
      {
        var child, t;
        open, child, t := ParsePiece();
        PrependTwice(children, text, AsList(child), t, if open then XmlSpec.ParseContent(xml, entities, pos) else Content([], "", pos));
        children := children + AsList(child);
        text := text + t;
      }
    }

    /** One turn of the loop: a child, a piece of text, a comment, or the end. */
    method ParsePiece() returns (more: bool, child: Option<Element>, text: string)
      modifies this
      ensures pos >= old(pos) && (more ==> pos > old(pos) && old(pos) < |xml|)
      ensures Prepend(AsList(child), text, if more then XmlSpec.ParseContent(xml, entities, pos) else Content([], "", pos))
           == XmlSpec.ParseContent(xml, entities, old(pos))
      decreases Left(xml, pos), 3, 1
    {
      hide XmlSpec.ParseElement, XmlSpec.ParseContent, Until, Skip, MatchesAt, DecodeEntities;
      child, text := None, "";
      SkipWhitespace();
      if pos >= |xml| {
        ContentAtEnd(xml, entities, old(pos));
        return false, None, "";
      }
      if xml[pos] == '<' {
        if pos + 1 < |xml| && xml[pos + 1] == '/' {
          ContentAtClose(xml, entities, old(pos), pos);
          pos := pos + 2;
          var _ := ReadUntil(">");
          pos := pos + 1;
          return false, None, "";
        }
        if MatchesAt(xml, "<!--", pos) {
          ContentAtComment(xml, entities, old(pos), pos);
          pos := pos + 4;
          var _ := ReadUntil("-->");
          pos := pos + 3;
          return true, None, "";
        }
        ContentAtChild(xml, entities, old(pos), pos);
        child := ParseElement();
        return true, child, "";
      }
      ContentAtText(xml, entities, old(pos), pos);
      UntilAdvances(xml, pos);
      var t := ReadUntil("<");
      more, text := true, DecodeEntities(t, entities);
    }
  }

  // What content starts with, case by case.

  lemma ContentAtEnd(xml: string, entities: string -> string, pos: nat)
    requires Skip(xml, pos) >= |xml|
    ensures XmlSpec.ParseContent(xml, entities, pos) == Content([], "", Skip(xml, pos))
  {
    hide XmlSpec.ParseElement, Until, Skip, DecodeEntities;
  }

  lemma ContentAtClose(xml: string, entities: string -> string, pos: nat, p: nat)
    requires p == Skip(xml, pos) && CharIs(xml, p, '<') && CharIs(xml, p + 1, '/')
    ensures XmlSpec.ParseContent(xml, entities, pos) == Content([], "", Until(xml, p + 2, ">").1 + 1)
  {
    hide XmlSpec.ParseElement, Until, Skip, DecodeEntities;
  }

  lemma ContentAtComment(xml: string, entities: string -> string, pos: nat, p: nat)
    requires p == Skip(xml, pos) && CharIs(xml, p, '<') && !CharIs(xml, p + 1, '/') && MatchesAt(xml, "<!--", p)
    ensures p + 4 <= |xml|
    ensures XmlSpec.ParseContent(xml, entities, pos) == XmlSpec.ParseContent(xml, entities, Until(xml, p + 4, "-->").1 + 3)
  {
    hide XmlSpec.ParseElement, Until, Skip, DecodeEntities;
  }

  lemma ContentAtChild(xml: string, entities: string -> string, pos: nat, p: nat)
    requires p == Skip(xml, pos) && CharIs(xml, p, '<') && !CharIs(xml, p + 1, '/') && !MatchesAt(xml, "<!--", p)
    ensures var (child, q) := XmlSpec.ParseElement(xml, entities, p);
            XmlSpec.ParseContent(xml, entities, pos) == Prepend(AsList(child), "", XmlSpec.ParseContent(xml, entities, q))
  {
    hide XmlSpec.ParseElement, Until, Skip, DecodeEntities, MatchesAt;
  }

  lemma ContentAtText(xml: string, entities: string -> string, pos: nat, p: nat)
    requires p == Skip(xml, pos) && p < |xml| && xml[p] != '<'
    ensures var (t, q) := Until(xml, p, "<");
            XmlSpec.ParseContent(xml, entities, pos) == Prepend([], DecodeEntities(t, entities), XmlSpec.ParseContent(xml, entities, q))
  {
    hide XmlSpec.ParseElement, Until, Skip, DecodeEntities;
  }

  function AsList(o: Option<Element>): (r: seq<Element>) {
    if o.Some? then [o.value] else []
  }

  /** Content put before other content. */
  ghost function Prepend(children: seq<Element>, text: string, c: Content): (r: Content) {
    Content(children + c.children, text + c.text, c.next)
  }

  lemma PrependTwice(a: seq<Element>, s: string, b: seq<Element>, t: string, c: Content)
    ensures Prepend(a, s, Prepend(b, t, c)) == Prepend(a + b, s + t, c)
  {
    assert a + (b + c.children) == (a + b) + c.children;
    assert s + (t + c.text) == (s + t) + c.text;
  }

  /** Parsing ends on every input, with the root element or the error that there is none. */
  method ParseXml(source: string, entities: string -> string) returns (r: Result<Element>)
    ensures r == XmlSpec.ParseXml(source, entities)
  {
    var p := new Parser(source, entities);
    var root := p.ParseElement();
    r := if root.Some? then Ok(root.value) else Err(NoRootElement);
  }
}
