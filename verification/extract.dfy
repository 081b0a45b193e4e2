/**
 The link extraction of lines 255-279: a global `exec` loop over the rewritten text of an
 HTML document with `/(?:href|src|data-src)=(["'])(.*?)\1/g`, or of a style sheet with
 `/url\(['"]?([^'"\)]+)['"]?\)/g`. Each loop yields the captured values in text order.

 Neither expression can match the empty string, so the loop always moves on: it looks
 for the leftmost match from its current index and continues where that match ended.
 */
module Extract {
  import opened Wrappers
  import opened JsString

  predicate IsQuote(c: char) {
    c == '"' || c == '\''
  }

  /** A match at the start of a text: the captured link and the number of characters consumed. */
  datatype Match = Match(value: string, length: nat)

  /**
   A matcher: the match of a regular expression at the start of a text, if there is one.
   It never matches the empty string, so the `exec` loop always moves on.
   */
  type Matcher = f: string -> Option<Match> | forall s :: f(s).Some? ==> 0 < f(s).value.length <= |s|
    witness NeverMatches

  function NeverMatches(s: string): Option<Match> {
    None
  }

  // ---------------------------------------------------------------------------------------
  // HTML attributes

  datatype Attribute = Href | Src | DataSrc

  function AttributeName(a: Attribute): string {
    match a
    case Href => "href"
    case Src => "src"
    case DataSrc => "data-src"
  }

  /** The alternative of `(?:href|src|data-src)=` that matches at the start of `s`. */
  function AttributeAt(s: string): (r: Option<Attribute>)
    ensures r.Some? ==> StartsWith(s, AttributeName(r.value) + "=")
    ensures r.None? ==> forall a: Attribute :: !StartsWith(s, AttributeName(a) + "=")
  {
    if StartsWith(s, "href=") then Some(Href)
    else if StartsWith(s, "src=") then Some(Src)
    else if StartsWith(s, "data-src=") then Some(DataSrc)
    else None
  }

  /** The alternatives start with different letters, so at most one of them applies. */
  lemma AttributeAtUnique(s: string, a: Attribute)
    requires StartsWith(s, AttributeName(a) + "=")
    ensures AttributeAt(s) == Some(a)
  {
    assert s[0] == AttributeName(a)[0];
  }

  /** What `(.*?)\1` can capture for the quote `q`: no `q` and no line terminator. */
  predicate QuotedValue(v: string, q: char) {
    forall k :: 0 <= k < |v| ==> v[k] != q && !IsLineTerminator(v[k])
  }

  /**
   The lazy `(.*?)` followed by the quote `q`: the index of the first `q` in `t`, unless a
   line terminator, which `.` does not match, comes before it.
   */
  function ClosingQuote(t: string, q: char): (r: Option<nat>)
    ensures r.Some? ==> r.value < |t| && t[r.value] == q && QuotedValue(t[..r.value], q)
    ensures r.None? ==> forall k :: 0 <= k < |t| && t[k] == q ==> !QuotedValue(t[..k], q)
    decreases |t|
  {
    if |t| == 0 then None
    else if t[0] == q then
      assert QuotedValue(t[..0], q);
      Some(0)
    else if IsLineTerminator(t[0]) then
      assert forall k :: 0 < k <= |t| ==> t[..k][0] == t[0];
      None
    else
      match ClosingQuote(t[1..], q)
      case None =>
        forall k | 0 < k < |t| && t[k] == q ensures !QuotedValue(t[..k], q) {
          assert t[1..][k - 1] == q;
          var u := t[1..][..k - 1];
          assert !QuotedValue(u, q);
          var i :| 0 <= i < |u| && !(u[i] != q && !IsLineTerminator(u[i]));
          assert t[..k][i + 1] == u[i];
        }
        None
      case Some(k) =>
        assert t[..k + 1] == [t[0]] + t[1..][..k];
        Some(k + 1)
  }

  /** The lazy scan stops at the first quote of its kind. */
  lemma {:induction false} ClosingQuoteOf(v: string, q: char, rest: string)
    requires QuotedValue(v, q)
    ensures ClosingQuote(v + [q] + rest, q) == Some(|v|)
    decreases |v|
  {
    var t := v + [q] + rest;
    if |v| > 0 {
      assert t[0] == v[0];
      assert QuotedValue(v[1..], q) by {
        assert forall k :: 0 <= k < |v[1..]| ==> v[1..][k] == v[k + 1];
      }
      ClosingQuoteOf(v[1..], q, rest);
      assert t[1..] == v[1..] + [q] + rest;
    }
  }

  /** `href="v"`, `src='v'` and the like. */
  function RenderAttribute(a: Attribute, q: char, v: string): string {
    AttributeName(a) + "=" + [q] + v + [q]
  }

  /** A match of the HTML expression at the start of `s`. */
  function HtmlMatch(s: string): (r: Option<Match>)
    ensures r.Some? ==> 0 < r.value.length <= |s|
  {
    match AttributeAt(s)
    case None => None
    case Some(a) =>
      var n := |AttributeName(a)| + 1;
      if n < |s| && IsQuote(s[n]) then
        match ClosingQuote(s[n + 1..], s[n])
        case None => None
        case Some(k) => Some(Match(s[n + 1..][..k], n + k + 2))
      else None
  }

  /** Round trip: a rendered attribute is matched and gives back its value. */
  lemma HtmlMatchRender(a: Attribute, q: char, v: string, rest: string)
    requires IsQuote(q) && QuotedValue(v, q)
    ensures HtmlMatch(RenderAttribute(a, q, v) + rest) == Some(Match(v, |RenderAttribute(a, q, v)|))
  {
    var s := RenderAttribute(a, q, v) + rest;
    RenderedAttributeParts(s, a, q, v, rest);
    AttributeAtUnique(s, a);
    ClosingQuoteOf(v, q, rest);
    assert (v + [q] + rest)[..|v|] == v;
  }

  /** Where the pieces of a rendered attribute sit. */
  lemma RenderedAttributeParts(s: string, a: Attribute, q: char, v: string, rest: string)
    requires s == RenderAttribute(a, q, v) + rest
    ensures StartsWith(s, AttributeName(a) + "=")
    ensures |AttributeName(a)| + 1 < |s| && s[|AttributeName(a)| + 1] == q
    ensures s[|AttributeName(a)| + 2..] == v + [q] + rest
  {
    QuotedParts(s, AttributeName(a) + "=", q, v, rest);
  }

  lemma QuotedParts(s: string, name: string, q: char, v: string, rest: string)
    requires s == name + [q] + v + [q] + rest
    ensures StartsWith(s, name) && |name| < |s| && s[|name|] == q
    ensures s[|name| + 1..] == v + [q] + rest
  {
    assert s == name + ([q] + v + [q] + rest);
    assert s[..|name|] == name;
  }

  /** Soundness: every HTML match is a rendered attribute at the start of the text. */
  lemma HtmlMatchSound(s: string)
    requires HtmlMatch(s).Some?
    ensures exists a: Attribute, q: char ::
      (IsQuote(q) && QuotedValue(HtmlMatch(s).value.value, q)
       && StartsWith(s, RenderAttribute(a, q, HtmlMatch(s).value.value))
       && HtmlMatch(s).value.length == |RenderAttribute(a, q, HtmlMatch(s).value.value)|)
  {
    var m := HtmlMatch(s).value;
    var a := AttributeAt(s).value;
    HtmlMatchParts(s);
    var q := s[|AttributeName(a)| + 1];
    AttributeRendered(s, a, q, m.value, m.length);
  }

  /** What a successful HTML match consists of. */
  lemma HtmlMatchParts(s: string)
    requires HtmlMatch(s).Some?
    ensures var n := |AttributeName(AttributeAt(s).value)| + 1;
      var m := HtmlMatch(s).value;
      n + 1 < m.length && m.length <= |s| && IsQuote(s[n]) && s[m.length - 1] == s[n]
      && m.value == s[n + 1..m.length - 1] && QuotedValue(m.value, s[n])
  {
  }

  /** A text that starts with `a=` and a quoted value starts with their rendering. */
  lemma AttributeRendered(s: string, a: Attribute, q: char, v: string, len: nat)
    requires StartsWith(s, AttributeName(a) + "=")
    requires |AttributeName(a)| + 3 <= len <= |s|
    requires s[|AttributeName(a)| + 1] == q && s[len - 1] == q
    requires v == s[|AttributeName(a)| + 2..len - 1]
    ensures StartsWith(s, RenderAttribute(a, q, v)) && len == |RenderAttribute(a, q, v)|
  {
    var name := AttributeName(a) + "=";
    var n := |name|;
    var r := RenderAttribute(a, q, v);
    assert s[..len] == s[..n] + [s[n]] + s[n + 1..len - 1] + [s[len - 1]];
    assert s[..len] == r;
  }

  // ---------------------------------------------------------------------------------------
  // CSS url()

  /** A character of `[^'"\)]`. */
  predicate IsUrlChar(c: char) {
    c != '\'' && c != '"' && c != ')'
  }

  /** What `([^'"\)]+)` can capture: at least one character, none a quote or `)`. */
  predicate UrlValue(v: string) {
    |v| > 0 && forall k :: 0 <= k < |v| ==> IsUrlChar(v[k])
  }

  /** `s` starts with `url(`. */
  predicate OpensUrl(s: string) {
    |s| >= 4 && s[0] == 'u' && s[1] == 'r' && s[2] == 'l' && s[3] == '('
  }

  /** The length of the longest run of `[^'"\)]` at the start of `t`. */
  function RunLength(t: string): (n: nat)
    ensures n <= |t|
    ensures forall k :: 0 <= k < n ==> IsUrlChar(t[k])
    ensures n < |t| ==> !IsUrlChar(t[n])
    decreases |t|
  {
    if |t| > 0 && IsUrlChar(t[0]) then 1 + RunLength(t[1..]) else 0
  }

  /** The run stops at the first quote or `)`. */
  lemma {:induction false} RunLengthOf(v: string, rest: string)
    requires forall k :: 0 <= k < |v| ==> IsUrlChar(v[k])
    requires |rest| > 0 && !IsUrlChar(rest[0])
    ensures RunLength(v + rest) == |v|
    decreases |v|
  {
    if |v| > 0 {
      assert (v + rest)[1..] == v[1..] + rest;
      RunLengthOf(v[1..], rest);
    } else {
      assert v + rest == rest;
    }
  }

  /**
   A match of the CSS expression at the start of `s`. The optional opening quote is taken
   when present and the run is as long as possible; giving either back never helps, since
   the run cannot contain a quote and must be followed by `)` or by a quote and `)`.
   */
  function CssMatch(s: string): (r: Option<Match>)
    ensures r.Some? ==> 0 < r.value.length <= |s|
  {
    if !OpensUrl(s) then None
    else
      var o := if |s| > 4 && IsQuote(s[4]) then 5 else 4;
      var n := RunLength(s[o..]);
      var e := o + n;
      if n == 0 then None
      else if e < |s| && s[e] == ')' then Some(Match(s[o..e], e + 1))
      else if e + 1 < |s| && IsQuote(s[e]) && s[e + 1] == ')' then Some(Match(s[o..e], e + 2))
      else None
  }

  /** `"" ` or the one quote character. */
  function OptionalQuote(c: Option<char>): string {
    match c
    case None => ""
    case Some(q) => [q]
  }

  predicate QuoteOrNone(c: Option<char>) {
    c.Some? ==> IsQuote(c.value)
  }

  /** `url(v)`, `url("v")`, `url('v")` and the like: the two quotes are independent. */
  function RenderUrl(open: Option<char>, v: string, close: Option<char>): string {
    "url(" + OptionalQuote(open) + v + OptionalQuote(close) + ")"
  }

  /** Round trip: a rendered `url()` is matched and gives back its value. */
  lemma CssMatchRender(open: Option<char>, v: string, close: Option<char>, rest: string)
    requires QuoteOrNone(open) && QuoteOrNone(close) && UrlValue(v)
    ensures CssMatch(RenderUrl(open, v, close) + rest) == Some(Match(v, |RenderUrl(open, v, close)|))
  {
    CssMatchRendered(RenderUrl(open, v, close) + rest, open, v, close, rest);
  }

  lemma CssMatchRendered(s: string, open: Option<char>, v: string, close: Option<char>, rest: string)
    requires s == RenderUrl(open, v, close) + rest
    requires QuoteOrNone(open) && QuoteOrNone(close) && UrlValue(v)
    ensures CssMatch(s) == Some(Match(v, |RenderUrl(open, v, close)|))
  {
    var o := 4 + |OptionalQuote(open)|;
    var tail := OptionalQuote(close) + ")" + rest;
    assert OpensUrl(s) && o == (if |s| > 4 && IsQuote(s[4]) then 5 else 4) && s[o..] == v + tail by {
      assert s == "url(" + OptionalQuote(open) + (v + tail);
      assert s[..4] == "url(";
      assert s[4] == if open.Some? then open.value else v[0];
    }
    assert RunLength(s[o..]) == |v| by {
      RunLengthOf(v, tail);
    }
    CssMatchOf(s, o, v, tail, |OptionalQuote(close)| + 1);
  }

  /** `CssMatch` on a text whose opening, run and closing are known. */
  lemma CssMatchOf(s: string, o: nat, v: string, tail: string, closing: nat)
    requires OpensUrl(s) && o == (if |s| > 4 && IsQuote(s[4]) then 5 else 4)
    requires s[o..] == v + tail && RunLength(s[o..]) == |v| && |v| > 0
    requires closing == 1 || closing == 2
    requires closing == 1 ==> |tail| > 0 && tail[0] == ')'
    requires closing == 2 ==> |tail| > 1 && IsQuote(tail[0]) && tail[1] == ')'
    ensures CssMatch(s) == Some(Match(v, o + |v| + closing))
  {
    var e := o + |v|;
    assert s[o..e] == v && s[e] == tail[0] by {
      assert s[o..][..|v|] == v;
      assert s[o..][|v|] == tail[0];
    }
    if closing == 2 {
      assert s[e + 1] == s[o..][|v| + 1] == tail[1];
    }
  }

  /** Soundness: every CSS match is a rendered `url()` at the start of the text. */
  lemma CssMatchSound(s: string)
    requires CssMatch(s).Some?
    ensures exists open: Option<char>, close: Option<char> ::
      (QuoteOrNone(open) && QuoteOrNone(close) && UrlValue(CssMatch(s).value.value)
       && StartsWith(s, RenderUrl(open, CssMatch(s).value.value, close))
       && CssMatch(s).value.length == |RenderUrl(open, CssMatch(s).value.value, close)|)
  {
    var m := CssMatch(s).value;
    CssMatchParts(s);
    var o := if |s| > 4 && IsQuote(s[4]) then 5 else 4;
    var open := if o == 5 then Some(s[4]) else None;
    var e := o + |m.value|;
    var close := if m.length == e + 1 then None else Some(s[e]);
    UrlRendered(s, open, m.value, close, m.length);
  }

  /** What a successful CSS match consists of. */
  lemma CssMatchParts(s: string)
    requires CssMatch(s).Some?
    ensures var o := if |s| > 4 && IsQuote(s[4]) then 5 else 4;
      var m := CssMatch(s).value;
      var e := o + |m.value|;
      && OpensUrl(s) && UrlValue(m.value) && e < m.length <= |s| && m.value == s[o..e]
      && (m.length == e + 1 ==> s[e] == ')')
      && (m.length != e + 1 ==> m.length == e + 2 && IsQuote(s[e]) && s[e + 1] == ')')
  {
    var o := if |s| > 4 && IsQuote(s[4]) then 5 else 4;
    var n := RunLength(s[o..]);
    var e := o + n;
    var m := CssMatch(s).value;
    assert m.value == s[o..e];
    assert UrlValue(s[o..e]) by {
      forall k | 0 <= k < n ensures IsUrlChar(s[o..e][k]) {
        assert s[o..e][k] == s[o..][k];
      }
    }
    if e < |s| && s[e] == ')' {
      assert m.length == e + 1;
    } else {
      assert m.length == e + 2;
    }
  }

  /** A text laid out as `url(`, an optional quote, a value, an optional quote and `)`. */
  lemma UrlRendered(s: string, open: Option<char>, v: string, close: Option<char>, len: nat)
    requires OpensUrl(s)
    requires open.Some? ==> |s| > 4 && s[4] == open.value
    requires 4 + |OptionalQuote(open)| + |v| + |OptionalQuote(close)| + 1 == len <= |s|
    requires s[4 + |OptionalQuote(open)|..4 + |OptionalQuote(open)| + |v|] == v
    requires close.Some? ==> s[4 + |OptionalQuote(open)| + |v|] == close.value
    requires s[len - 1] == ')'
    ensures StartsWith(s, RenderUrl(open, v, close)) && len == |RenderUrl(open, v, close)|
  {
    var o := 4 + |OptionalQuote(open)|;
    var e := o + |v|;
    assert s[..4] == "url(";
    assert s[..o] == "url(" + OptionalQuote(open);
    assert s[..e] == s[..o] + v;
    assert s[..len - 1] == s[..e] + OptionalQuote(close);
    assert s[..len] == s[..len - 1] + ")";
  }

  // ---------------------------------------------------------------------------------------
  // The exec loop

  /** The match of `f` that starts at index `i` of `s`. */
  function MatchFrom(f: Matcher, s: string, i: nat): Option<Match>
    requires i <= |s|
  {
    f(s[i..])
  }

  /** The values a global `exec` loop with the matcher `f` yields on `s`, in order. */
  function Links(f: Matcher, s: string): (r: seq<string>)
    ensures |r| <= |s|
    decreases |s|
  {
    if |s| == 0 then []
    else match f(s)
      case Some(m) => [m.value] + Links(f, s[m.length..])
      case None => Links(f, s[1..])
  }

  /** After a match the loop continues right behind it. */
  lemma LinksAfterMatch(f: Matcher, p: string, rest: string, v: string)
    requires f(p + rest) == Some(Match(v, |p|))
    ensures Links(f, p + rest) == [v] + Links(f, rest)
  {
    assert (p + rest)[|p|..] == rest;
  }

  /** Text in front of which no match starts yields nothing. */
  lemma {:induction false} LinksSkip(f: Matcher, p: string, rest: string)
    requires forall i :: 0 <= i < |p| ==> MatchFrom(f, p + rest, i).None?
    ensures Links(f, p + rest) == Links(f, rest)
    decreases |p|
  {
    if |p| > 0 {
      var s := p + rest;
      assert f(s).None? by {
        assert MatchFrom(f, s, 0).None?;
        assert s[0..] == s;
      }
      assert s[1..] == p[1..] + rest;
      forall i | 0 <= i < |p[1..]| ensures MatchFrom(f, p[1..] + rest, i).None? {
        assert (p[1..] + rest)[i..] == s[i + 1..];
        assert MatchFrom(f, s, i + 1).None?;
      }
      LinksSkip(f, p[1..], rest);
    } else {
      assert p + rest == rest;
    }
  }

  /** Every value the loop yields is the value of a match at some index of the text. */
  lemma LinksSound(f: Matcher, s: string, j: nat)
    requires j < |Links(f, s)|
    ensures exists i :: 0 <= i < |s| && MatchFrom(f, s, i).Some? && MatchFrom(f, s, i).value.value == Links(f, s)[j]
  {
    var i := LinksWitness(f, s, j);
  }

  /** The index of the match that yields the `j`-th value. */
  lemma {:induction false} LinksWitness(f: Matcher, s: string, j: nat) returns (i: nat)
    requires j < |Links(f, s)|
    ensures i < |s| && MatchFrom(f, s, i).Some? && MatchFrom(f, s, i).value.value == Links(f, s)[j]
    decreases |s|
  {
    LinksUnfold(f, s);
    if f(s).Some? && j == 0 {
      assert s[0..] == s;
      i := 0;
    } else {
      var d := if f(s).Some? then f(s).value.length else 1;
      var k := if f(s).Some? then j - 1 else j;
      assert Links(f, s)[j] == Links(f, s[d..])[k];
      var i' := LinksWitness(f, s[d..], k);
      MatchFromShift(f, s, d, i');
      i := d + i';
    }
  }

  /** One step of the loop on a non-empty text. */
  lemma LinksUnfold(f: Matcher, s: string)
    requires |s| > 0
    ensures f(s).Some? ==> Links(f, s) == [f(s).value.value] + Links(f, s[f(s).value.length..])
    ensures f(s).None? ==> Links(f, s) == Links(f, s[1..])
  {
  }

  lemma MatchFromShift(f: Matcher, s: string, d: nat, i: nat)
    requires d + i <= |s|
    ensures MatchFrom(f, s[d..], i) == MatchFrom(f, s, d + i)
  {
    assert s[d..][i..] == s[d + i..];
  }

  /** The matcher of the HTML loop (line 259). */
  const HtmlLinks: Matcher := HtmlMatch

  /** The matcher of the CSS loop (line 270). */
  const CssLinks: Matcher := CssMatch

  /** `href="v"` in front of the rest of a document yields `v` first. */
  lemma HtmlLinksRender(a: Attribute, q: char, v: string, rest: string)
    requires IsQuote(q) && QuotedValue(v, q)
    ensures Links(HtmlLinks, RenderAttribute(a, q, v) + rest) == [v] + Links(HtmlLinks, rest)
  {
    HtmlMatchRender(a, q, v, rest);
    LinksAfterMatch(HtmlLinks, RenderAttribute(a, q, v), rest, v);
  }

  /** `url(v)` in front of the rest of a style sheet yields `v` first. */
  lemma CssLinksRender(open: Option<char>, v: string, close: Option<char>, rest: string)
    requires QuoteOrNone(open) && QuoteOrNone(close) && UrlValue(v)
    ensures Links(CssLinks, RenderUrl(open, v, close) + rest) == [v] + Links(CssLinks, rest)
  {
    CssMatchRender(open, v, close, rest);
    LinksAfterMatch(CssLinks, RenderUrl(open, v, close), rest, v);
  }

  lemma AttributeHasEquals(s: string)
    requires AttributeAt(s).Some?
    ensures '=' in s
  {
    assert s[|AttributeName(AttributeAt(s).value)|] == '=';
  }

  /** A document without `=` has no HTML links. */
  lemma {:induction false} HtmlLinksNeedEquals(s: string)
    requires '=' !in s
    ensures Links(HtmlLinks, s) == []
    decreases |s|
  {
    if |s| > 0 {
      if AttributeAt(s).Some? {
        AttributeHasEquals(s);
      }
      HtmlLinksNeedEquals(s[1..]);
    }
  }

  /** A style sheet without `(` has no `url()` links. */
  lemma {:induction false} CssLinksNeedParenthesis(s: string)
    requires '(' !in s
    ensures Links(CssLinks, s) == []
    decreases |s|
  {
    if |s| > 0 {
      assert !OpensUrl(s);
      CssLinksNeedParenthesis(s[1..]);
    }
  }

  /**
   Lines 253-280: which expression applies to a text document, by its file type;
   `/^html?$/` and `/^css$/` match the whole type. Other types yield no links.
   */
  function LinksFor(fileType: string, text: string): (r: seq<string>)
    ensures |r| <= |text|
    ensures r != [] ==> fileType == "html" || fileType == "htm" || fileType == "css"
  {
    if fileType == "html" || fileType == "htm" then Links(HtmlLinks, text)
    else if fileType == "css" then Links(CssLinks, text)
    else []
  }
}
