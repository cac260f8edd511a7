/**
 * The linky filter: it finds links in plain text and hands the text to an HTML writer as
 * character runs and `<a href=…>` elements. The writer is modelled by the calls made on it.
 */
module Linky {
  import opened Wrappers
  import opened UrlPattern
  import opened Slices

  /** A call made on the HTML writer. */
  datatype Event = Chars(text: string) | Start(tag: string, href: string) | End(tag: string)

  const Anchor: string := "a"
  const FtpWord: string := "ftp"
  const HttpWord: string := "http"
  const HttpsWord: string := "https"
  const MailtoWord: string := "mailto:"

  /** The sanitizing HTML writer, reduced to the calls it receives. */
  class EventWriter {
    var events: seq<Event>

    constructor ()
      ensures events == []
    {
      events := [];
    }

    /** `writer.chars(text)` */
    method WriteChars(text: string)
      modifies this
      ensures events == old(events) + [Chars(text)]
    {
      events := events + [Chars(text)];
    }

    /** `writer.start(tag, {href: href})` */
    method WriteStart(tag: string, href: string)
      modifies this
      ensures events == old(events) + [Start(tag, href)]
    {
      events := events + [Start(tag, href)];
    }

    /** `writer.end(tag)` */
    method WriteEnd(tag: string)
      modifies this
      ensures events == old(events) + [End(tag)]
    {
      events := events + [End(tag)];
    }
  }

  /**
   * Groups 2 and 3 of a match: the scheme word when the lead is a scheme, and "mailto:"
   * when the lead is a mailto address; a group that did not take part is None.
   */
  function Groups(url: string, kind: Kind): (r: (Option<string>, Option<string>))
    ensures r.0.Some? <==> kind == Scheme
    ensures r.1 == (if kind == Mailto then Some(MailtoWord) else None)
  {
    match kind
    case Scheme =>
      (Some(if StartsWith(url, 0, Ftp) then FtpWord else if StartsWith(url, 0, Https) then HttpsWord else HttpWord), None)
    case Mailto => (None, Some(MailtoWord))
    case Bare => (None, None)
  }

  /** The link target: a match with neither a scheme nor "mailto:" gets "mailto:" put in front. */
  function Href(url: string, kind: Kind): string {
    var groups := Groups(url, kind);
    if groups.0 == groups.1 then MailtoPrefix + url else url
  }

  /** The link label: the matched text with a leading "mailto:" removed. */
  function Label(url: string): string {
    if StartsWith(url, 0, MailtoPrefix) then url[|MailtoPrefix|..] else url
  }

  /** A stretch of the input: text copied as characters, or a matched link. */
  datatype Piece = Plain(text: string) | Link(url: string, kind: Kind)

  /** The loop of the filter on values: plain text up to the leftmost link, the link, and the rest. */
  function Pieces(raw: string): seq<Piece>
    decreases |raw|
  {
    match FindUrl(raw)
    case None => [Plain(raw)]
    case Some(m) => [Plain(raw[..m.start]), Link(raw[m.start..m.end], m.kind)] + Pieces(raw[m.end..])
  }

  /** The input text a piece stands for. */
  function PieceSource(p: Piece): string {
    match p
    case Plain(text) => text
    case Link(url, _) => url
  }

  function Source(ps: seq<Piece>): string {
    if ps == [] then "" else PieceSource(ps[0]) + Source(ps[1..])
  }

  /** The writer calls for one piece. */
  function PieceEvents(p: Piece): seq<Event> {
    match p
    case Plain(text) => [Chars(text)]
    case Link(url, kind) => [Start(Anchor, Href(url, kind)), Chars(Label(url)), End(Anchor)]
  }

  function EventsOf(ps: seq<Piece>): seq<Event> {
    if ps == [] then [] else PieceEvents(ps[0]) + EventsOf(ps[1..])
  }

  /** The filter's result: its input when that is empty, or the HTML the writer received. */
  datatype LinkyOutput = Unchanged(text: string) | Html(events: seq<Event>)

  /** One turn of the loop on values: the plain text before the leftmost link, the link, the rest. */
  lemma PiecesStep(raw: string)
    requires FindUrl(raw).Some?
    ensures var m := FindUrl(raw).value;
      Pieces(raw) == [Plain(raw[..m.start]), Link(raw[m.start..m.end], m.kind)] + Pieces(raw[m.end..])
  {
  }

  /** A text without a link is one plain piece. */
  lemma PiecesNone(raw: string)
    requires FindUrl(raw).None?
    ensures Pieces(raw) == [Plain(raw)]
  {
  }

  /** The loop ends: a text without a link is written as characters. */
  lemma PiecesLast(raw: string)
    requires FindUrl(raw).None?
    ensures EventsOf(Pieces(raw)) == [Chars(raw)]
  {
    PiecesNone(raw);
  }

  lemma EventsOfPair(a: Piece, b: Piece, rest: seq<Piece>)
    ensures EventsOf([a, b] + rest) == PieceEvents(a) + PieceEvents(b) + EventsOf(rest)
  {
    var ps := [a, b] + rest;
    assert ps[1..] == [b] + rest;
    assert ps[1..][1..] == rest;
  }

  /** One turn of the loop: the events of a text with a link. */
  lemma EventsStep(raw: string)
    requires FindUrl(raw).Some?
    ensures var m := FindUrl(raw).value;
      var url := raw[m.start..m.end];
      EventsOf(Pieces(raw)) ==
        [Chars(raw[..m.start]), Start(Anchor, Href(url, m.kind)), Chars(Label(url)), End(Anchor)]
        + EventsOf(Pieces(raw[m.end..]))
  {
    var m := FindUrl(raw).value;
    PiecesStep(raw);
    EventsOfPair(Plain(raw[..m.start]), Link(raw[m.start..m.end], m.kind), Pieces(raw[m.end..]));
  }

  /** The loop invariant survives one turn: the four writer calls account for the first link. */
  lemma LoopStep(done: seq<Event>, raw: string)
    requires FindUrl(raw).Some?
    ensures var m := FindUrl(raw).value;
      var url := raw[m.start..m.end];
      done + [Chars(raw[..m.start])] + [Start(Anchor, Href(url, m.kind))] + [Chars(Label(url))] + [End(Anchor)]
        + EventsOf(Pieces(raw[m.end..]))
      == done + EventsOf(Pieces(raw))
  {
    EventsStep(raw);
  }

  /** `angularFilter.linky`: empty text is returned as it is; other text becomes writer calls. */
  method Linky(text: string) returns (r: LinkyOutput)
    ensures text == "" ==> r == Unchanged(text)
    ensures text != "" ==> r == Html(EventsOf(Pieces(text)))
  {
    if text == "" {
      return Unchanged(text);
    }
    var raw := text;
    var writer := new EventWriter();
    var found := FindUrl(raw);
    while found.Some?
      invariant found == FindUrl(raw)
      invariant writer.events + EventsOf(Pieces(raw)) == EventsOf(Pieces(text))
      decreases |raw|
    {
      var m := found.value;
      var url := raw[m.start..m.end];
      LoopStep(writer.events, raw);
      writer.WriteChars(raw[..m.start]);
      writer.WriteStart(Anchor, Href(url, m.kind));
      writer.WriteChars(Label(url));
      writer.WriteEnd(Anchor);
      raw := raw[m.end..];
      found := FindUrl(raw);
    }
    PiecesLast(raw);
    writer.WriteChars(raw);
    r := Html(writer.events);
  }

  lemma SourcePair(a: Piece, b: Piece, rest: seq<Piece>)
    ensures Source([a, b] + rest) == PieceSource(a) + PieceSource(b) + Source(rest)
  {
    var ps := [a, b] + rest;
    assert ps[1..] == [b] + rest;
    assert ps[1..][1..] == rest;
  }

  /** The text before a link, the link and pieces that rebuild the rest together rebuild the text. */
  lemma SourceThree(raw: string, start: nat, end: nat, kind: Kind, rest: seq<Piece>)
    requires start <= end <= |raw| && Source(rest) == raw[end..]
    ensures Source([Plain(raw[..start]), Link(raw[start..end], kind)] + rest) == raw
  {
    SourcePair(Plain(raw[..start]), Link(raw[start..end], kind), rest);
    SliceParts(raw, start, end, |raw|);
    assert raw[..|raw|] == raw;
  }

  /** Putting the pieces back together gives the input: nothing is lost or repeated. */
  lemma {:induction false} PiecesSource(raw: string)
    ensures Source(Pieces(raw)) == raw
    decreases |raw|
  {
    var found := FindUrl(raw);
    if found.Some? {
      var m := found.value;
      PiecesStep(raw);
      PiecesSource(raw[m.end..]);
      SourceThree(raw, m.start, m.end, m.kind, Pieces(raw[m.end..]));
    } else {
      PiecesNone(raw);
    }
  }

  /** Even pieces are plain text; odd pieces are links, each on its own a whole match. */
  predicate PieceShapeAt(ps: seq<Piece>, i: nat)
    requires i < |ps|
  {
    (i % 2 == 0 ==> ps[i].Plain?) &&
    (i % 2 == 1 ==> ps[i].Link? && IsWholeMatch(ps[i].url, ps[i].kind))
  }

  /**
   * Pieces alternate, plain text first and last (the last piece is plain, so there is an
   * odd number of them); every link is on its own a whole match of the pattern; and the
   * text after the last link contains no match.
   */
  lemma {:induction false} PiecesShape(raw: string)
    ensures |Pieces(raw)| >= 1
    ensures forall i :: 0 <= i < |Pieces(raw)| ==> PieceShapeAt(Pieces(raw), i)
    ensures var last := Pieces(raw)[|Pieces(raw)| - 1]; last.Plain? && FindUrl(last.text).None?
    decreases |raw|
  {
    var found := FindUrl(raw);
    if found.Some? {
      var m := found.value;
      PiecesStep(raw);
      PiecesShape(raw[m.end..]);
      MatchedTextIsWholeMatch(raw, m);
      var a, b, rest := Plain(raw[..m.start]), Link(raw[m.start..m.end], m.kind), Pieces(raw[m.end..]);
      forall i | 0 <= i < |rest| + 2 ensures PieceShapeAt([a, b] + rest, i) {
        PieceShapeStep(a, b, rest, i);
      }
      PieceShapeStep(a, b, rest, |rest| + 1);
    } else {
      PiecesNone(raw);
    }
  }

  /** Piece `i` of [a, b] + rest, given a and b and the pieces of rest. */
  lemma PieceShapeStep(a: Piece, b: Piece, rest: seq<Piece>, i: nat)
    requires a.Plain? && b.Link? && IsWholeMatch(b.url, b.kind)
    requires forall j :: 0 <= j < |rest| ==> PieceShapeAt(rest, j)
    requires i < |rest| + 2
    ensures PieceShapeAt([a, b] + rest, i)
    ensures i >= 2 ==> ([a, b] + rest)[i] == rest[i - 2]
  {
    var ps := [a, b] + rest;
    if i >= 2 {
      assert ps[i] == rest[i - 2];
      assert PieceShapeAt(rest, i - 2);
    } else {
      assert ps[0] == a && ps[1] == b;
    }
  }

  /**
   * At plain piece `i`, the leftmost match of the text that remains from there on starts
   * right after the plain text, no match starts inside it, and piece i + 1 is that match.
   */
  predicate LinkFollows(ps: seq<Piece>, i: nat)
    requires i + 1 < |ps| && ps[i].Plain?
  {
    var rest := Source(ps[i..]);
    var f := FindUrl(rest);
    f.Some? && f.value.start == |ps[i].text| &&
    (forall p :: 0 <= p < f.value.start ==> MatchAt(rest, p).None?) &&
    ps[i + 1] == Link(rest[f.value.start..f.value.end], f.value.kind)
  }

  /** Every link is the leftmost match of the text remaining after the pieces before it. */
  lemma {:induction false} PiecesLeftmost(raw: string)
    ensures forall i :: 0 <= i && i + 1 < |Pieces(raw)| && i % 2 == 0 ==>
      Pieces(raw)[i].Plain? && LinkFollows(Pieces(raw), i)
    decreases |raw|
  {
    var found := FindUrl(raw);
    if found.Some? {
      var m := found.value;
      PiecesStep(raw);
      PiecesLeftmost(raw[m.end..]);
      LinkFollowsHead(raw);
      var a, b, rest := Plain(raw[..m.start]), Link(raw[m.start..m.end], m.kind), Pieces(raw[m.end..]);
      forall i | 2 <= i && i + 1 < |rest| + 2 && i % 2 == 0
        ensures ([a, b] + rest)[i].Plain? && LinkFollows([a, b] + rest, i)
      {
        LinkFollowsShift(a, b, rest, i);
      }
    } else {
      PiecesNone(raw);
    }
  }

  /** The first link is the leftmost match of the whole text. */
  lemma LinkFollowsHead(raw: string)
    requires FindUrl(raw).Some?
    ensures Pieces(raw)[0].Plain? && |Pieces(raw)| >= 2 && LinkFollows(Pieces(raw), 0)
  {
    PiecesStep(raw);
    PiecesSource(raw);
    FindUrlLeftmost(raw);
    var ps := Pieces(raw);
    assert ps[0..] == ps;
  }

  lemma LinkFollowsShift(a: Piece, b: Piece, rest: seq<Piece>, i: nat)
    requires 2 <= i && i + 1 < |rest| + 2 && rest[i - 2].Plain? && LinkFollows(rest, i - 2)
    ensures ([a, b] + rest)[i].Plain? && LinkFollows([a, b] + rest, i)
  {
    var ps := [a, b] + rest;
    assert ps[i..] == rest[i - 2..];
    assert ps[i] == rest[i - 2] && ps[i + 1] == rest[i - 1];
  }

  /**
   * For a link the pattern found: a scheme link points at itself; an address points at
   * "mailto:" followed by the address, whether or not the text said "mailto:"; and the
   * label is the text without that prefix.
   */
  lemma HrefAndLabel(url: string, kind: Kind)
    requires IsWholeMatch(url, kind)
    ensures kind == Scheme ==> Href(url, kind) == url && Label(url) == url
    ensures kind == Mailto ==> Href(url, kind) == url && MailtoPrefix + Label(url) == url
    ensures kind == Bare ==> Href(url, kind) == MailtoPrefix + url && Label(url) == url
  {
    var m := MatchAt(url, 0).value;
    MatchAtSpec(url, 0);
    LeadAtSpec(url, 0);
    match kind
    case Scheme =>
      var prefix := if m.lead == 6 then Ftp else if m.lead == 7 then Http else Https;
      CharAt(url, 0, prefix, 0);
      if StartsWith(url, 0, MailtoPrefix) {
        CharAt(url, 0, MailtoPrefix, 0);
      }
    case Mailto =>
      assert url[..7] == MailtoPrefix;
      assert MailtoPrefix + url[7..] == url;
    case Bare =>
  }

  /** Event `j` in the cycle text, `<a href>`, label, `</a>`. */
  predicate EventShapeAt(ev: seq<Event>, j: nat)
    requires j < |ev|
  {
    (j % 4 == 0 || j % 4 == 2 ==> ev[j].Chars?) &&
    (j % 4 == 1 ==> ev[j].Start? && ev[j].tag == Anchor) &&
    (j % 4 == 3 ==> ev[j] == End(Anchor))
  }

  /**
   * The writer receives a character run, then zero or more groups of an opening anchor,
   * its label and the closing anchor each followed by a character run: every `<a>` is
   * closed before the next one opens, and the output ends with text.
   */
  lemma EventsShape(raw: string)
    ensures |EventsOf(Pieces(raw))| % 4 == 1
    ensures forall j :: 0 <= j < |EventsOf(Pieces(raw))| ==> EventShapeAt(EventsOf(Pieces(raw)), j)
  {
    var ps := Pieces(raw);
    PiecesShape(raw);
    assert forall i :: 0 <= i < |ps| ==> (ps[i].Plain? <==> i % 2 == 0) by {
      forall i | 0 <= i < |ps| ensures ps[i].Plain? <==> i % 2 == 0 {
        assert PieceShapeAt(ps, i);
      }
    }
    EventsOfShape(ps);
  }

  /** The event shape of any alternating sequence of pieces that starts and ends with text. */
  lemma {:induction false} EventsOfShape(ps: seq<Piece>)
    requires |ps| >= 1 && ps[|ps| - 1].Plain?
    requires forall i :: 0 <= i < |ps| ==> (ps[i].Plain? <==> i % 2 == 0)
    ensures |EventsOf(ps)| % 4 == 1
    ensures forall j :: 0 <= j < |EventsOf(ps)| ==> EventShapeAt(EventsOf(ps), j)
    decreases |ps|
  {
    if |ps| == 1 {
      assert EventsOf(ps) == [Chars(ps[0].text)] + EventsOf(ps[1..]);
    } else {
      assert ps[1].Link?;
      var rest := ps[2..];
      assert forall i :: 0 <= i < |rest| ==> rest[i] == ps[i + 2];
      EventsOfShape(rest);
      assert ps == [ps[0], ps[1]] + rest;
      EventsOfPair(ps[0], ps[1], rest);
      var head := PieceEvents(ps[0]) + PieceEvents(ps[1]);
      forall j | 0 <= j < |EventsOf(ps)| ensures EventShapeAt(EventsOf(ps), j) {
        EventShapeStep(head, EventsOf(rest), j);
      }
    }
  }

  lemma EventShapeStep(head: seq<Event>, rest: seq<Event>, j: nat)
    requires |head| == 4 && head[0].Chars? && head[1].Start? && head[1].tag == Anchor
    requires head[2].Chars? && head[3] == End(Anchor)
    requires forall k :: 0 <= k < |rest| ==> EventShapeAt(rest, k)
    requires j < |head| + |rest|
    ensures EventShapeAt(head + rest, j)
  {
    if j >= 4 {
      assert (head + rest)[j] == rest[j - 4];
      assert EventShapeAt(rest, j - 4);
    }
  }

  /** In "new http://link." no match starts inside the word "new ". */
  lemma ExampleNoEarlyMatch(s: string, p: nat)
    requires s == "new http://link." && p < 4
    ensures MatchAt(s, p).None?
  {
    NoPrefixAt(s, p);
    LocalRunEndAt(s, p, 3);
    NoLeadNoMatch(s, p);
  }

  /** At index 4 of "new http://link." the lead is "http://" and the body stops before the final '.'. */
  lemma ExampleMatchAt(s: string)
    requires s == "new http://link."
    ensures MatchAt(s, 4) == Some(UrlMatch(4, 7, 15, Scheme))
  {
    assert StartsWith(s, 4, Http);
    NotStartsWith(s, 4, Ftp, 0);
    NotStartsWith(s, 4, Https, 4);
    assert SpaceFreeEnd(s, 11) == 16;
    assert LastEndChar(s, 11, 16) == Some(15);
  }

  /** In "new http://link." the leftmost match starts at 4 and stops before the final '.'. */
  lemma ExampleMatch(s: string)
    requires s == "new http://link."
    ensures FindUrl(s) == Some(UrlMatch(4, 7, 15, Scheme))
  {
    forall p: nat | p < 4 ensures MatchAt(s, p).None? {
      ExampleNoEarlyMatch(s, p);
    }
    ExampleMatchAt(s);
    FindUrlAt(s, 4);
  }

  /** "." holds no link. */
  lemma ExampleRest(t: string)
    requires t == "."
    ensures FindUrl(t).None?
  {
    assert MatchAt(t, 0).None?;
    assert MatchAt(t, 1).None?;
    FindUrlAt(t, 2);
  }

  /** "new http://link." splits into "new ", the link "http://link" and ".". */
  lemma ExamplePieces(s: string)
    requires s == "new http://link."
    ensures Pieces(s) == [Plain(s[..4]), Link(s[4..15], Scheme), Plain(s[15..])]
    ensures s[..4] == "new " && s[4..15] == "http://link" && s[15..] == "."
  {
    ExampleMatch(s);
    PiecesStep(s);
    ExampleRest(s[15..]);
    PiecesNone(s[15..]);
  }

  /** The events of a plain text, a link with a scheme and a plain text. */
  lemma SchemeLinkEvents(a: string, url: string, c: string)
    requires !StartsWith(url, 0, MailtoPrefix)
    ensures EventsOf([Plain(a), Link(url, Scheme), Plain(c)]) ==
      [Chars(a), Start(Anchor, url), Chars(url), End(Anchor), Chars(c)]
  {
    EventsOfPair(Plain(a), Link(url, Scheme), [Plain(c)]);
    assert EventsOf([Plain(c)]) == [Chars(c)] + EventsOf([]);
  }

  /** The scenario of the filter's documentation: "new http://link." links only "http://link". */
  lemma ExampleLinky(s: string)
    requires s == "new http://link."
    ensures var a, url, c := s[..4], s[4..15], s[15..];
      EventsOf(Pieces(s)) == [Chars(a), Start(Anchor, url), Chars(url), End(Anchor), Chars(c)]
  {
    var a, url, c := s[..4], s[4..15], s[15..];
    ExamplePieces(s);
    assert url[0] == 'h';
    NotStartsWith(url, 0, MailtoPrefix, 0);
    SchemeLinkEvents(a, url, c);
  }

  /** In the documentation snippet, "http://angularjs.org/," is matched without the ','. */
  lemma SnippetSchemeMatch(s: string)
    requires s == "http://angularjs.org/,\n"
    ensures MatchAt(s, 0) == Some(UrlMatch(0, 7, 21, Scheme)) && s[..21] == "http://angularjs.org/"
  {
    assert StartsWith(s, 0, Http);
    NotStartsWith(s, 0, Ftp, 0);
    NotStartsWith(s, 0, Https, 4);
    SpaceFreeEndAt(s, 7, 22);
    assert LastEndChar(s, 7, 22) == Some(21);
  }

  /** "mailto:us@somewhere.org," starts with a mailto lead that ends after the '@'. */
  lemma SnippetMailtoLead(s: string)
    requires s == "mailto:us@somewhere.org,\n"
    ensures LeadAt(s, 0) == Some((10, Mailto))
  {
    NotStartsWith(s, 0, Ftp, 0);
    NotStartsWith(s, 0, Https, 0);
    NotStartsWith(s, 0, Http, 0);
    assert StartsWith(s, 0, MailtoPrefix);
    LocalRunEndAt(s, 7, 9);
  }

  /** After its lead, the body of "mailto:us@somewhere.org," stops before the ','. */
  lemma SnippetMailtoBody(s: string)
    requires s == "mailto:us@somewhere.org,\n"
    ensures BodyEnd(s, 10) == Some(23)
  {
    SpaceFreeEndAt(s, 10, 24);
    assert LastEndChar(s, 10, 24) == Some(23);
  }

  /** "mailto:us@somewhere.org," is matched without the ','. */
  lemma SnippetMailtoMatch(s: string)
    requires s == "mailto:us@somewhere.org,\n"
    ensures MatchAt(s, 0) == Some(UrlMatch(0, 10, 23, Mailto)) && s[..23] == "mailto:us@somewhere.org"
  {
    SnippetMailtoLead(s);
    SnippetMailtoBody(s);
    MatchFromParts(s, 0, 10, Mailto, 23);
  }

  /** "another@somewhere.org," starts with a bare address lead that ends after the '@'. */
  lemma SnippetBareLead(s: string)
    requires s == "another@somewhere.org,\n"
    ensures LeadAt(s, 0) == Some((8, Bare))
  {
    NoPrefixAt(s, 0);
    LocalRunEndAt(s, 0, 7);
  }

  /** After its lead, the body of "another@somewhere.org," stops before the ','. */
  lemma SnippetBareBody(s: string)
    requires s == "another@somewhere.org,\n"
    ensures BodyEnd(s, 8) == Some(21)
  {
    SpaceFreeEndAt(s, 8, 22);
    assert LastEndChar(s, 8, 22) == Some(21);
  }

  /** "another@somewhere.org," is matched, as a bare address, without the ','. */
  lemma SnippetBareMatch(s: string)
    requires s == "another@somewhere.org,\n"
    ensures MatchAt(s, 0) == Some(UrlMatch(0, 8, 21, Bare)) && s[..21] == "another@somewhere.org"
  {
    SnippetBareLead(s);
    SnippetBareBody(s);
    MatchFromParts(s, 0, 8, Bare, 21);
  }

  /** "ftp://127.0.0.1/." is matched without the final '.'. */
  lemma SnippetFtpMatch(s: string)
    requires s == "ftp://127.0.0.1/."
    ensures MatchAt(s, 0) == Some(UrlMatch(0, 6, 16, Scheme)) && s[..16] == "ftp://127.0.0.1/"
  {
    assert StartsWith(s, 0, Ftp);
    SpaceFreeEndAt(s, 6, 17);
    assert LastEndChar(s, 6, 17) == Some(16);
  }

  /** The snippet's links point at themselves when they name a scheme or "mailto:". */
  lemma SnippetSchemeAndMailtoLinks(http: string, ftp: string, mailto: string)
    requires http == "http://angularjs.org/" && ftp == "ftp://127.0.0.1/" && mailto == "mailto:us@somewhere.org"
    ensures Href(http, Scheme) == http && Label(http) == http
    ensures Href(ftp, Scheme) == ftp && Label(ftp) == ftp
    ensures Href(mailto, Mailto) == mailto && Label(mailto) == "us@somewhere.org"
  {
    NotStartsWith(http, 0, MailtoPrefix, 0);
    NotStartsWith(ftp, 0, MailtoPrefix, 0);
    assert StartsWith(mailto, 0, MailtoPrefix);
  }

  /** The snippet's bare address gets "mailto:" in its href and keeps its text as the label. */
  lemma SnippetBareLink(url: string)
    requires url == "another@somewhere.org"
    ensures Href(url, Bare) == "mailto:another@somewhere.org" && Label(url) == url
  {
    NotStartsWith(url, 0, MailtoPrefix, 0);
  }
}
