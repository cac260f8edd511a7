/**
 * The link pattern of the linky filter,
 *   /((ftp|https?):\/\/|(mailto:)?[A-Za-z0-9._%+-]+@)\S*[^\s\.\;\,\(\)\{\}\<\>]/,
 * written out as functions: which lead the pattern accepts at a position, how far the
 * greedy body reaches, and where the leftmost match of a string lies.
 */
module UrlPattern {
  import opened Wrappers

  /**
   * `\s` of JavaScript regular expressions: the white space and line terminators of
   * ECMAScript 5, with the space separators of Unicode before version 6.3 (U+180E among them).
   */
  predicate IsSpace(c: char) {
    c == ' ' || c == '\t' || c == '\n' || c == '\r' || c == '\U{000B}' || c == '\U{000C}' ||
    c == '\U{00A0}' || c == '\U{1680}' || c == '\U{180E}' || ('\U{2000}' <= c <= '\U{200A}') ||
    c == '\U{2028}' || c == '\U{2029}' || c == '\U{202F}' || c == '\U{205F}' ||
    c == '\U{3000}' || c == '\U{FEFF}'
  }

  /** `[A-Za-z0-9._%+-]`: a character of an e-mail local part. */
  predicate IsLocalChar(c: char) {
    ('A' <= c <= 'Z') || ('a' <= c <= 'z') || ('0' <= c <= '9') ||
    c == '.' || c == '_' || c == '%' || c == '+' || c == '-'
  }

  /** Characters a link may not end in because they often close a sentence. */
  predicate IsTrailingPunctuation(c: char) {
    c == '.' || c == ';' || c == ',' || c == '(' || c == ')' || c == '{' || c == '}' || c == '<' || c == '>'
  }

  /** `[^\s\.\;\,\(\)\{\}\<\>]`: the class of the last character of a link. */
  predicate IsEndChar(c: char) {
    !IsSpace(c) && !IsTrailingPunctuation(c)
  }

  predicate StartsWith(s: string, p: nat, t: string) {
    p + |t| <= |s| && s[p..p + |t|] == t
  }

  predicate AllLocal(s: string, i: nat, j: nat)
    requires i <= j <= |s|
  {
    forall k :: i <= k < j ==> IsLocalChar(s[k])
  }

  predicate NoSpaceIn(s: string, i: nat, j: nat)
    requires i <= j <= |s|
  {
    forall k :: i <= k < j ==> !IsSpace(s[k])
  }

  const Ftp: string := "ftp://"
  const Http: string := "http://"
  const Https: string := "https://"
  const MailtoPrefix: string := "mailto:"

  /** Which alternative of the pattern's first group matched. */
  datatype Kind = Scheme | Mailto | Bare

  /**
   * The first group spans s[p..p+n] as alternative `kind`: `ftp://`, `http://` or `https://`;
   * `mailto:` followed by local characters and '@'; or local characters and '@' alone.
   */
  predicate IsLead(s: string, p: nat, n: nat, kind: Kind) {
    p + n <= |s| &&
    match kind
    case Scheme =>
      (n == 6 && StartsWith(s, p, Ftp)) || (n == 7 && StartsWith(s, p, Http)) ||
      (n == 8 && StartsWith(s, p, Https))
    case Mailto =>
      n >= 9 && StartsWith(s, p, MailtoPrefix) && AllLocal(s, p + 7, p + n - 1) && s[p + n - 1] == '@'
    case Bare =>
      n >= 2 && AllLocal(s, p, p + n - 1) && s[p + n - 1] == '@'
  }

  /** `\S*[^\s\.\;\,\(\)\{\}\<\>]` matches s[q..e]. */
  predicate IsBody(s: string, q: nat, e: nat) {
    q < e <= |s| && NoSpaceIn(s, q, e) && IsEndChar(s[e - 1])
  }

  ghost predicate HasBody(s: string, q: nat) {
    exists e: nat :: IsBody(s, q, e)
  }

  /** s[q..e] is the longest body that starts at `q`. */
  ghost predicate LongestBody(s: string, q: nat, e: nat) {
    IsBody(s, q, e) && forall e': nat :: IsBody(s, q, e') ==> e' <= e
  }

  /** The end of the longest run of local characters from `i`. */
  function LocalRunEnd(s: string, i: nat): (j: nat)
    requires i <= |s|
    ensures i <= j <= |s| && AllLocal(s, i, j)
    ensures j < |s| ==> !IsLocalChar(s[j])
    decreases |s| - i
  {
    if i == |s| || !IsLocalChar(s[i]) then i else LocalRunEnd(s, i + 1)
  }

  /** A run of local characters that stops at a non-local character ends there. */
  lemma LocalRunEndAt(s: string, i: nat, j: nat)
    requires i <= j < |s| && AllLocal(s, i, j) && !IsLocalChar(s[j])
    ensures LocalRunEnd(s, i) == j
    decreases j - i
  {
    if i < j {
      LocalRunEndAt(s, i + 1, j);
    }
  }

  /** The '@' lead alternative tried at `i` (after `mailto:` or bare): its end, if it matches. */
  function AtLeadEnd(s: string, i: nat): (r: Option<nat>)
    requires i <= |s|
    ensures r.Some? ==> i < r.value <= |s|
  {
    var j := LocalRunEnd(s, i);
    if j > i && j < |s| && s[j] == '@' then Some(j + 1) else None
  }

  /**
   * The alternative `[A-Za-z0-9._%+-]+@` matches s[i..r] exactly when AtLeadEnd gives r:
   * the run of local characters cannot stop anywhere else before an '@'.
   */
  lemma AtLeadEndSpec(s: string, i: nat)
    requires i <= |s|
    ensures var r := AtLeadEnd(s, i);
      r.Some? ==> AllLocal(s, i, r.value - 1) && s[r.value - 1] == '@'
    ensures forall k :: i < k < |s| && AllLocal(s, i, k) && s[k] == '@' ==> AtLeadEnd(s, i) == Some(k + 1)
  {
    forall k | i < k < |s| && AllLocal(s, i, k) && s[k] == '@' ensures AtLeadEnd(s, i) == Some(k + 1) {
      LocalRunEndAt(s, i, k);
    }
  }

  lemma CharAt(s: string, p: nat, t: string, k: nat)
    requires StartsWith(s, p, t) && k < |t|
    ensures s[p + k] == t[k]
  {
    assert s[p..p + |t|][k] == t[k];
  }

  /** A text differs from `t` at one of its positions, so it does not start with `t` there. */
  lemma NotStartsWith(s: string, p: nat, t: string, k: nat)
    requires k < |t| && p + k < |s| && s[p + k] != t[k]
    ensures !StartsWith(s, p, t)
  {
    if StartsWith(s, p, t) {
      CharAt(s, p, t, k);
    }
  }

  /** A character other than 'f', 'h' and 'm' starts neither a scheme nor "mailto:". */
  lemma NoPrefixAt(s: string, p: nat)
    requires p < |s| && s[p] != 'f' && s[p] != 'h' && s[p] != 'm'
    ensures !StartsWith(s, p, Ftp) && !StartsWith(s, p, Https) && !StartsWith(s, p, Http)
    ensures !StartsWith(s, p, MailtoPrefix)
  {
    NotStartsWith(s, p, Ftp, 0);
    NotStartsWith(s, p, Https, 0);
    NotStartsWith(s, p, Http, 0);
    NotStartsWith(s, p, MailtoPrefix, 0);
  }

  /** Where no alternative of the lead matches, there is no match. */
  lemma NoLeadNoMatch(s: string, p: nat)
    requires p <= |s|
    requires !StartsWith(s, p, Ftp) && !StartsWith(s, p, Https) && !StartsWith(s, p, Http)
    requires !StartsWith(s, p, MailtoPrefix) && AtLeadEnd(s, p).None?
    ensures MatchAt(s, p).None?
  {
  }

  /** A lowercase word followed by ':' is not an e-mail address. */
  lemma WordColonIsNoAddress(s: string, p: nat, t: string, colon: nat)
    requires StartsWith(s, p, t) && 1 <= colon < |t| && t[colon] == ':'
    requires forall k :: 0 <= k < colon ==> 'a' <= t[k] <= 'z'
    ensures AtLeadEnd(s, p).None?
  {
    forall k | p <= k < p + colon ensures IsLocalChar(s[k]) {
      CharAt(s, p, t, k - p);
    }
    CharAt(s, p, t, colon);
    LocalRunEndAt(s, p, p + colon);
  }

  /**
   * The lead at `p`, in the order the pattern tries its alternatives: a scheme, then
   * `mailto:` with an address, then a bare address.
   */
  function LeadAt(s: string, p: nat): (r: Option<(nat, Kind)>)
    requires p <= |s|
    ensures r.Some? ==> p + r.value.0 <= |s|
  {
    if StartsWith(s, p, Ftp) then Some((6, Scheme))
    else if StartsWith(s, p, Https) then Some((8, Scheme))
    else if StartsWith(s, p, Http) then Some((7, Scheme))
    else if StartsWith(s, p, MailtoPrefix) then
      match AtLeadEnd(s, p + 7)
      case Some(j) => Some((j - p, Mailto))
      case None => None
    else
      match AtLeadEnd(s, p)
      case Some(j) => Some((j - p, Bare))
      case None => None
  }

  /**
   * LeadAt finds a lead of the pattern, and it is the only one at `p`: the alternatives
   * exclude each other, so trying them in order cannot lose a match.
   */
  lemma LeadAtSpec(s: string, p: nat)
    requires p <= |s|
    ensures var r := LeadAt(s, p); r.Some? ==> IsLead(s, p, r.value.0, r.value.1)
    ensures forall n: nat, k :: IsLead(s, p, n, k) ==> LeadAt(s, p) == Some((n, k))
  {
    if StartsWith(s, p, Ftp) {
      FtpLead(s, p);
    } else if StartsWith(s, p, Https) {
      HttpsLead(s, p);
    } else if StartsWith(s, p, Http) {
      HttpLead(s, p);
    } else if StartsWith(s, p, MailtoPrefix) {
      WordColonIsNoAddress(s, p, MailtoPrefix, 6);
      AtLeadEndSpec(s, p + 7);
    } else {
      AtLeadEndSpec(s, p);
    }
  }

  lemma FtpLead(s: string, p: nat)
    requires StartsWith(s, p, Ftp)
    ensures LeadAt(s, p) == Some((6, Scheme))
    ensures forall n: nat, k :: IsLead(s, p, n, k) ==> n == 6 && k == Scheme
  {
    WordColonIsNoAddress(s, p, Ftp, 3);
    CharAt(s, p, Ftp, 0);
    CharAt(s, p, Ftp, 1);
  }

  lemma HttpsLead(s: string, p: nat)
    requires StartsWith(s, p, Https) && !StartsWith(s, p, Ftp)
    ensures LeadAt(s, p) == Some((8, Scheme))
    ensures forall n: nat, k :: IsLead(s, p, n, k) ==> n == 8 && k == Scheme
  {
    WordColonIsNoAddress(s, p, Https, 5);
    CharAt(s, p, Https, 0);
    CharAt(s, p, Https, 4);
  }

  lemma HttpLead(s: string, p: nat)
    requires StartsWith(s, p, Http) && !StartsWith(s, p, Ftp) && !StartsWith(s, p, Https)
    ensures LeadAt(s, p) == Some((7, Scheme))
    ensures forall n: nat, k :: IsLead(s, p, n, k) ==> n == 7 && k == Scheme
  {
    WordColonIsNoAddress(s, p, Http, 4);
    CharAt(s, p, Http, 0);
  }

  /** The end of the run of non-white-space characters from `q`. */
  function SpaceFreeEnd(s: string, q: nat): (e: nat)
    requires q <= |s|
    ensures q <= e <= |s| && NoSpaceIn(s, q, e)
    ensures e < |s| ==> IsSpace(s[e])
    decreases |s| - q
  {
    if q == |s| || IsSpace(s[q]) then q else SpaceFreeEnd(s, q + 1)
  }

  /** A run without white space that stops at white space or at the end is the run SpaceFreeEnd finds. */
  lemma {:induction false} SpaceFreeEndAt(s: string, q: nat, e: nat)
    requires q <= e <= |s| && NoSpaceIn(s, q, e) && (e == |s| || IsSpace(s[e]))
    ensures SpaceFreeEnd(s, q) == e
    decreases e - q
  {
    if q < e {
      SpaceFreeEndAt(s, q + 1, e);
    }
  }

  /** One past the last character of s[q..e] that may end a link, if any. */
  function LastEndChar(s: string, q: nat, e: nat): (r: Option<nat>)
    requires q <= e <= |s|
    ensures r.Some? ==> q < r.value <= e && IsEndChar(s[r.value - 1])
    ensures forall k :: (if r.Some? then r.value else q) <= k < e ==> !IsEndChar(s[k])
    decreases e - q
  {
    if e == q then None
    else if IsEndChar(s[e - 1]) then Some(e)
    else LastEndChar(s, q, e - 1)
  }

  /**
   * Where the greedy body `\S*[^\s\.\;\,\(\)\{\}\<\>]` starting at `q` ends: the
   * longest body there is, or none when no body can start at `q`.
   */
  function BodyEnd(s: string, q: nat): (r: Option<nat>)
    requires q <= |s|
    ensures r.Some? ==> q < r.value <= |s|
  {
    LastEndChar(s, q, SpaceFreeEnd(s, q))
  }

  /** BodyEnd gives the longest body at `q`, and gives none exactly when there is none. */
  lemma BodyEndSpec(s: string, q: nat)
    requires q <= |s|
    ensures BodyEnd(s, q).Some? ==> LongestBody(s, q, BodyEnd(s, q).value)
    ensures BodyEnd(s, q).None? ==> !HasBody(s, q)
  {
  }

  /** A match of the whole pattern: s[start..end], whose first `lead` characters are the lead. */
  datatype UrlMatch = UrlMatch(start: nat, lead: nat, end: nat, kind: Kind)

  /**
   * The match of the pattern that starts at `p`, if there is one. The lead is the only one
   * possible at `p` and the body is the longest one after it.
   */
  function MatchAt(s: string, p: nat): (r: Option<UrlMatch>)
    ensures r.Some? ==> r.value.start == p && p + r.value.lead < r.value.end <= |s|
  {
    if p > |s| then None else
    match LeadAt(s, p)
    case None => None
    case Some((n, kind)) =>
      match BodyEnd(s, p + n)
      case None => None
      case Some(e) => Some(UrlMatch(p, n, e, kind))
  }

  /**
   * What MatchAt finds is a match of the whole pattern at `p` with the only possible lead
   * and the longest body; when it finds none, no lead at `p` is followed by a body.
   */
  lemma MatchAtSpec(s: string, p: nat)
    ensures var r := MatchAt(s, p);
      r.Some? ==> IsLead(s, p, r.value.lead, r.value.kind) && LongestBody(s, p + r.value.lead, r.value.end)
    ensures var r := MatchAt(s, p);
      r.Some? ==> forall n: nat, k :: IsLead(s, p, n, k) ==> n == r.value.lead && k == r.value.kind
    ensures MatchAt(s, p).None? ==> forall n: nat, k :: IsLead(s, p, n, k) ==> !HasBody(s, p + n)
  {
    if p <= |s| {
      LeadAtSpec(s, p);
      var lead := LeadAt(s, p);
      if lead.Some? {
        BodyEndSpec(s, p + lead.value.0);
      }
    }
  }

  /** The first position in [i, n] at which `found` holds, or n + 1 when there is none. */
  function FirstFrom(found: nat -> bool, i: nat, n: nat): (r: nat)
    requires i <= n + 1
    ensures i <= r <= n + 1
    ensures r <= n ==> found(r)
    ensures forall p :: i <= p < r ==> !found(p)
    decreases n + 1 - i
  {
    if i > n || found(i) then i else FirstFrom(found, i + 1, n)
  }

  /** FirstFrom stops at the first position where `found` holds. */
  lemma {:induction false} FirstFromAt(found: nat -> bool, i: nat, n: nat, k: nat)
    requires i <= k <= n + 1
    requires k <= n ==> found(k)
    requires forall p :: i <= p < k ==> !found(p)
    ensures FirstFrom(found, i, n) == k
    decreases k - i
  {
    if i < k {
      FirstFromAt(found, i + 1, n, k);
    }
  }

  /** FindUrl gives the match at the first position where one starts. */
  lemma FindUrlAt(s: string, k: nat)
    requires k <= |s| + 1
    requires k <= |s| ==> MatchAt(s, k).Some?
    requires forall p :: 0 <= p < k ==> MatchAt(s, p).None?
    ensures k <= |s| ==> FindUrl(s) == MatchAt(s, k)
    ensures k > |s| ==> FindUrl(s).None?
  {
    var found := (p: nat) => MatchAt(s, p).Some?;
    assert forall p: nat :: found(p) == MatchAt(s, p).Some?;
    FirstFromAt(found, 0, |s|, k);
  }

  /** `raw.match(LINKY_URL_REGEXP)`: the match that starts leftmost in `s`. */
  function FindUrl(s: string): (r: Option<UrlMatch>)
    ensures r.Some? ==> r.value.start <= |s| && MatchAt(s, r.value.start) == r
  {
    var start := FirstFrom((p: nat) => MatchAt(s, p).Some?, 0, |s|);
    if start <= |s| then MatchAt(s, start) else None
  }

  /** No match starts before the one FindUrl gives, and none at all when it gives none. */
  lemma FindUrlLeftmost(s: string)
    ensures FindUrl(s).Some? ==> forall p :: 0 <= p < FindUrl(s).value.start ==> MatchAt(s, p).None?
    ensures FindUrl(s).None? ==> forall p :: 0 <= p <= |s| ==> MatchAt(s, p).None?
  {
    var found := (p: nat) => MatchAt(s, p).Some?;
    var start := FirstFrom(found, 0, |s|);
    assert forall p: nat :: found(p) == MatchAt(s, p).Some?;
  }

  /** None of the characters of a lead is white space. */
  lemma LeadHasNoSpace(s: string, p: nat, n: nat, kind: Kind)
    requires IsLead(s, p, n, kind)
    ensures NoSpaceIn(s, p, p + n)
  {
    var prefix := if kind == Mailto then MailtoPrefix
      else if n == 6 then Ftp else if n == 7 then Http else Https;
    forall k | p <= k < p + n ensures !IsSpace(s[k]) {
      if kind != Bare && k < p + |prefix| {
        CharAt(s, p, prefix, k - p);
      }
    }
  }

  /** A longest body cannot be followed by a link character before the next white space. */
  lemma BodyExtends(s: string, q: nat, e: nat, k: nat)
    requires IsBody(s, q, e) && e <= k < |s| && NoSpaceIn(s, e, k + 1) && IsEndChar(s[k])
    ensures IsBody(s, q, k + 1)
  {
  }

  /** A lead stays a lead in any slice that starts with it. */
  lemma LeadInSlice(s: string, p: nat, n: nat, kind: Kind, e: nat)
    requires IsLead(s, p, n, kind) && p + n <= e <= |s|
    ensures IsLead(s[p..e], 0, n, kind)
  {
    var t := s[p..e];
    match kind
    case Scheme =>
      assert t[..n] == s[p..p + n];
    case Mailto =>
      assert t[..7] == s[p..p + 7];
      assert forall k :: 7 <= k < n ==> t[k] == s[p + k];
    case Bare =>
      assert forall k :: 0 <= k < n ==> t[k] == s[p + k];
  }

  /** What follows a longest body up to the next white space is trailing punctuation. */
  lemma AfterLongestBody(s: string, q: nat, e: nat)
    requires LongestBody(s, q, e)
    ensures forall k :: e <= k < SpaceFreeEnd(s, e) ==> IsTrailingPunctuation(s[k])
  {
    var w := SpaceFreeEnd(s, e);
    forall k | e <= k < w ensures IsTrailingPunctuation(s[k]) {
      if IsEndChar(s[k]) {
        BodyExtends(s, q, e, k);
      }
    }
  }

  /**
   * The text of a match: the lead, then a body without white space that ends in a
   * character allowed last.
   */
  lemma MatchText(s: string, m: UrlMatch)
    requires MatchAt(s, m.start) == Some(m)
    ensures m.start + m.lead < m.end <= |s|
    ensures IsLead(s[m.start..m.end], 0, m.lead, m.kind)
    ensures NoSpaceIn(s, m.start, m.end) && IsEndChar(s[m.end - 1])
  {
    MatchAtSpec(s, m.start);
    LeadHasNoSpace(s, m.start, m.lead, m.kind);
    LeadInSlice(s, m.start, m.lead, m.kind, m.end);
  }

  /** A match stops only where the rest of the non-white-space run is trailing punctuation. */
  lemma MatchStopsAtPunctuation(s: string, m: UrlMatch)
    requires MatchAt(s, m.start) == Some(m)
    ensures m.end <= |s|
    ensures forall k :: m.end <= k < SpaceFreeEnd(s, m.end) ==> IsTrailingPunctuation(s[k])
  {
    MatchAtSpec(s, m.start);
    AfterLongestBody(s, m.start + m.lead, m.end);
  }

  /** `url` on its own is one match of the pattern, from its first character to its last. */
  predicate IsWholeMatch(url: string, kind: Kind) {
    var m := MatchAt(url, 0);
    m.Some? && m.value.end == |url| && m.value.kind == kind
  }

  /** A text whose tail from `q` has no white space and ends with an end character is all body. */
  lemma BodyToEnd(t: string, q: nat)
    requires q < |t| && NoSpaceIn(t, q, |t|) && IsEndChar(t[|t| - 1])
    ensures BodyEnd(t, q) == Some(|t|)
  {
    BodyEndSpec(t, q);
    assert IsBody(t, q, |t|);
  }

  /** A slice of a text without white space has none either. */
  lemma NoSpaceInSlice(s: string, a: nat, b: nat, q: nat)
    requires a + q <= b <= |s| && NoSpaceIn(s, a, b)
    ensures NoSpaceIn(s[a..b], q, b - a)
  {
    var t := s[a..b];
    forall k | q <= k < b - a ensures !IsSpace(t[k]) {
      assert t[k] == s[a + k];
    }
  }

  /** The text of any match, taken on its own, is again a whole match of the same kind. */
  lemma MatchedTextIsWholeMatch(s: string, m: UrlMatch)
    requires MatchAt(s, m.start) == Some(m)
    ensures IsWholeMatch(s[m.start..m.end], m.kind)
  {
    MatchText(s, m);
    var t := s[m.start..m.end];
    LeadAtSpec(t, 0);
    assert LeadAt(t, 0) == Some((m.lead, m.kind));
    NoSpaceInSlice(s, m.start, m.end, m.lead);
    assert t[|t| - 1] == s[m.end - 1];
    BodyToEnd(t, m.lead);
    MatchFromParts(t, 0, m.lead, m.kind, |t|);
  }

  /** A lead and a body after it make a match. */
  lemma MatchFromParts(t: string, p: nat, n: nat, kind: Kind, e: nat)
    requires p + n <= |t| && LeadAt(t, p) == Some((n, kind)) && BodyEnd(t, p + n) == Some(e)
    ensures MatchAt(t, p) == Some(UrlMatch(p, n, e, kind))
  {
  }
}
