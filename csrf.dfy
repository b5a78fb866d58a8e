// The CSRF-token scraper of DeepRacerManager (`extractCSRFToken`). It tries two
// regular expressions in order and cleans the matched attribute up with two
// literal removals. Both expressions are modelled here by explicit scans with
// the leftmost, greedy, backtracking semantics of the platform's regex engine.

module Csrf {
  import opened Wrappers
  import opened Search

  const QUOTE: char := '"'
  /** The part of the meta pattern before its content attribute. */
  const META_HEAD: string := "<meta name=\"csrf-token\" "
  const CONTENT_ATTR: string := "content=\""
  /** The literal that opens the meta pattern. */
  const META_OPEN: string := META_HEAD + CONTENT_ATTR
  const INPUT_OPEN: string := "<input"
  const NAME_ATTR: string := "name=\"csrf_token\""
  const VALUE_ATTR: string := "value=\""

  /**
   * At `b`, the regex `attr([^"]+)"` matches: `attr`, then a non-empty run
   * without quotes, then a quote. The run is greedy, so it is the whole run
   * up to the next quote.
   */
  predicate QuotedAt(s: string, b: nat, attr: string)
  {
    && HasAt(s, b, attr)
    && var e := IndexOf(s, QUOTE, b + |attr|);
       e.Some? && e.value > b + |attr|
  }

  /** The closing quote of the match at `b`. */
  function CloseQuote(s: string, b: nat, attr: string): (e: nat)
    requires QuotedAt(s, b, attr)
    ensures b + |attr| < e < |s| && s[e] == QUOTE
  {
    IndexOf(s, QUOTE, b + |attr|).value
  }

  /** The text matched at `b`. */
  function Matched(s: string, b: nat, attr: string): string
    requires QuotedAt(s, b, attr)
  {
    s[b..CloseQuote(s, b, attr) + 1]
  }

  /** The capture group of the match at `b`. */
  function Captured(s: string, b: nat, attr: string): string
    requires QuotedAt(s, b, attr)
  {
    s[b + |attr|..CloseQuote(s, b, attr)]
  }

  /** A match is the attribute, a non-empty quote-free capture, and the closing quote. */
  lemma MatchedShape(s: string, b: nat, attr: string)
    requires QuotedAt(s, b, attr)
    ensures Matched(s, b, attr) == attr + Captured(s, b, attr) + [QUOTE]
    ensures |Captured(s, b, attr)| > 0 && QUOTE !in Captured(s, b, attr)
  {
    var e := CloseQuote(s, b, attr);
    IndexOfFirst(s, QUOTE, b + |attr|);
    assert s[b..b + |attr|] == attr;
    assert s[b..e + 1] == s[b..b + |attr|] + s[b + |attr|..e] + [s[e]];
    forall c | c in Captured(s, b, attr) ensures c != QUOTE {
      var k :| 0 <= k < |Captured(s, b, attr)| && Captured(s, b, attr)[k] == c;
      assert c == s[b + |attr| + k];
    }
  }

  /** A quote-free capture between the attribute and a quote is a match. */
  lemma QuotedOfShape(s: string, b: nat, attr: string, t: string)
    requires |t| > 0 && QUOTE !in t
    requires b + |attr| + |t| < |s| && s[b..b + |attr| + |t| + 1] == attr + t + [QUOTE]
    ensures QuotedAt(s, b, attr) && CloseQuote(s, b, attr) == b + |attr| + |t|
    ensures Captured(s, b, attr) == t
  {
    var e := b + |attr| + |t|;
    var m := s[b..e + 1];
    forall k | 0 <= k < |attr| ensures s[b + k] == attr[k] {
      assert s[b + k] == m[k];
    }
    assert s[b..b + |attr|] == attr;
    forall k | 0 <= k < |t| ensures s[b + |attr| + k] == t[k] {
      assert s[b + |attr| + k] == m[|attr| + k];
    }
    forall k | b + |attr| <= k < e ensures s[k] != QUOTE {
      assert s[k] == t[k - b - |attr|];
    }
    assert s[e] == m[e - b];
    IndexOfIs(s, QUOTE, b + |attr|, e);
    assert s[b + |attr|..e] == t;
  }

  /** The leftmost match of `attr([^"]+)"` at or after `from`. */
  function FirstQuoted(s: string, attr: string, from: nat): (r: Option<nat>)
    decreases |s| - from
    ensures r.Some? ==> from <= r.value && QuotedAt(s, r.value, attr)
  {
    if from >= |s| then None
    else if QuotedAt(s, from, attr) then Some(from)
    else FirstQuoted(s, attr, from + 1)
  }

  /** `FirstQuoted` finds the leftmost match, and fails only when there is none. */
  lemma {:induction false} FirstQuotedFirst(s: string, attr: string, from: nat)
    decreases |s| - from
    ensures FirstQuoted(s, attr, from).Some? ==>
      forall k :: from <= k < FirstQuoted(s, attr, from).value ==> !QuotedAt(s, k, attr)
    ensures FirstQuoted(s, attr, from).None? ==> forall k :: from <= k ==> !QuotedAt(s, k, attr)
  {
    if from < |s| && !QuotedAt(s, from, attr) {
      FirstQuotedFirst(s, attr, from + 1);
    }
  }

  /** A match with none before it (from `from` on) is what `FirstQuoted` returns. */
  lemma FirstQuotedIs(s: string, attr: string, from: nat, b: nat)
    requires from <= b && QuotedAt(s, b, attr)
    requires forall k :: from <= k < b ==> !QuotedAt(s, k, attr)
    ensures FirstQuoted(s, attr, from) == Some(b)
  {
    FirstQuotedFirst(s, attr, from);
  }

  /** The rightmost match of `attr([^"]+)"` starting in [lo, hi). */
  function LastQuotedBelow(s: string, attr: string, lo: nat, hi: nat): (r: Option<nat>)
    decreases hi
    ensures r.Some? ==> lo <= r.value < hi && QuotedAt(s, r.value, attr)
  {
    if hi <= lo then None
    else if QuotedAt(s, hi - 1, attr) then Some(hi - 1)
    else LastQuotedBelow(s, attr, lo, hi - 1)
  }

  /** `LastQuotedBelow` finds the rightmost match, and fails only when there is none. */
  lemma {:induction false} LastQuotedBelowLast(s: string, attr: string, lo: nat, hi: nat)
    decreases hi
    ensures LastQuotedBelow(s, attr, lo, hi).Some? ==>
      forall k :: LastQuotedBelow(s, attr, lo, hi).value < k < hi ==> !QuotedAt(s, k, attr)
    ensures LastQuotedBelow(s, attr, lo, hi).None? ==> forall k :: lo <= k < hi ==> !QuotedAt(s, k, attr)
  {
    if lo < hi && !QuotedAt(s, hi - 1, attr) {
      LastQuotedBelowLast(s, attr, lo, hi - 1);
    }
  }

  /** Where a `[^>]*` run starting at `from` must stop: the first '>' at or after `from`, or the end. */
  function TagLimit(html: string, from: nat): (g: nat)
    ensures g == |html| || (from <= g < |html| && html[g] == '>')
  {
    match IndexOf(html, '>', from)
    case Some(g) => g
    case None => |html|
  }

  /**
   * The end of the match of `<input[^>]*name="csrf_token"[^>]*value="([^"]+)"`
   * starting at `p`, if there is one. Neither `[^>]*` can pass the first '>'
   * after `<input`. Both are greedy, so the engine backtracks from the longest
   * runs and settles on the LAST `value="…"` starting before that '>'; the match
   * exists when the first `name="csrf_token"` after `<input` ends no later than
   * where that value starts.
   */
  function InputMatchEnd(html: string, p: nat): (r: Option<nat>)
    ensures r.Some? ==> p + |INPUT_OPEN| < r.value <= |html|
  {
    if !HasAt(html, p, INPUT_OPEN) then None
    else
      var from := p + |INPUT_OPEN|;
      match LastQuotedBelow(html, VALUE_ATTR, from, TagLimit(html, from))
      case None => None
      case Some(b) =>
        match Find(html, NAME_ATTR, from)
        case None => None
        case Some(a) =>
          if a + |NAME_ATTR| <= b then Some(CloseQuote(html, b, VALUE_ATTR) + 1) else None
  }

  /** The input pattern matches at `p`. */
  predicate InputAt(html: string, p: nat)
  {
    InputMatchEnd(html, p).Some?
  }

  /** The leftmost start at or after `from` where the input pattern matches. */
  function FindInput(html: string, from: nat): (r: Option<nat>)
    ensures r.Some? ==> from <= r.value && InputMatchEnd(html, r.value).Some?
  {
    FirstWhere((k: nat) => InputAt(html, k), from, |html|)
  }

  /**
   * The input pattern matches at `p` when `<input` is there and, before the
   * first '>' after it, `name="csrf_token"` is followed by a `value="…"` match.
   */
  lemma InputAtWhen(html: string, p: nat, a: nat, b: nat)
    requires HasAt(html, p, INPUT_OPEN) && p + |INPUT_OPEN| <= a && HasAt(html, a, NAME_ATTR)
    requires a + |NAME_ATTR| <= b < TagLimit(html, p + |INPUT_OPEN|) && QuotedAt(html, b, VALUE_ATTR)
    ensures InputAt(html, p)
  {
    var from := p + |INPUT_OPEN|;
    FindFirst(html, NAME_ATTR, from);
    LastQuotedBelowLast(html, VALUE_ATTR, from, TagLimit(html, from));
  }

  /** Conversely, a match of the input pattern has such a name attribute and value. */
  lemma InputAtWitness(html: string, p: nat) returns (a: nat, b: nat)
    requires InputAt(html, p)
    ensures HasAt(html, p, INPUT_OPEN) && p + |INPUT_OPEN| <= a && HasAt(html, a, NAME_ATTR)
    ensures a + |NAME_ATTR| <= b < TagLimit(html, p + |INPUT_OPEN|) && QuotedAt(html, b, VALUE_ATTR)
  {
    var from := p + |INPUT_OPEN|;
    a := Find(html, NAME_ATTR, from).value;
    b := LastQuotedBelow(html, VALUE_ATTR, from, TagLimit(html, from)).value;
  }

  /** `FindInput` returns the leftmost match: the pattern matches nowhere before it. */
  lemma FindInputLeftmost(html: string, p: nat, k: nat)
    requires FindInput(html, 0) == Some(p) && k < p
    ensures !InputAt(html, k)
  {
    FirstWhereBefore((k: nat) => InputAt(html, k), 0, |html|, k);
  }

  /** With no match anywhere, `FindInput` fails. */
  lemma FindInputNone(html: string)
    requires forall k: nat :: !InputAt(html, k)
    ensures FindInput(html, 0).None?
  {
    FirstWhereNone((k: nat) => InputAt(html, k), 0, |html|);
  }

  /** The attribute text an inner match found, and the attribute literal the code then strips from it. */
  datatype Scraped = Scraped(text: string, attr: string)

  /** The leftmost match of `attr([^"]+)"` inside `tag`, with the attribute the code strips from it. */
  function InnerMatch(tag: string, attr: string): (r: Option<Scraped>)
    ensures r.Some? ==> r.value.attr == attr && |attr| < |r.value.text|
  {
    match FirstQuoted(tag, attr, 0)
    case None => None
    case Some(c) => Some(Scraped(Matched(tag, c, attr), attr))
  }

  /**
   * The meta strategy: the leftmost match of the meta pattern, then the
   * leftmost match of `content="([^"]+)"` inside the matched tag.
   */
  function MetaInner(html: string): (r: Option<Scraped>)
    ensures r.Some? ==> r.value.attr == CONTENT_ATTR && |r.value.attr| < |r.value.text|
  {
    match FirstQuoted(html, META_OPEN, 0)
    case None => None
    case Some(p) => InnerMatch(Matched(html, p, META_OPEN), CONTENT_ATTR)
  }

  /**
   * The hidden-input strategy: the leftmost match of the input pattern, then
   * the leftmost match of `value="([^"]+)"` inside the matched text.
   */
  function InputInner(html: string): (r: Option<Scraped>)
    ensures r.Some? ==> r.value.attr == VALUE_ATTR && |r.value.attr| < |r.value.text|
  {
    match FindInput(html, 0)
    case None => None
    case Some(p) => InnerMatch(html[p..InputMatchEnd(html, p).value], VALUE_ATTR)
  }

  /** The meta strategy first; the input strategy only when it yields nothing. */
  function Scrape(html: string): (r: Option<Scraped>)
    ensures r.Some? ==> (r.value.attr == CONTENT_ATTR || r.value.attr == VALUE_ATTR)
    ensures r.Some? ==> |r.value.attr| < |r.value.text|
  {
    match MetaInner(html)
    case Some(m) => Some(m)
    case None => InputInner(html)
  }

  /** `replacingOccurrences(of: attr, with: "")` and then of the quote. */
  function StripAttr(s: string, attr: string): string
    requires |attr| > 0
  {
    RemoveAll(RemoveAll(s, attr), [QUOTE])
  }

  /** `extractCSRFToken` as written: the inner match with the attribute and the quotes removed. */
  function ExtractCsrfToken(html: string): (r: Option<string>)
    ensures r.None? <==> Scrape(html).None?
  {
    match Scrape(html)
    case None => None
    case Some(m) => Some(StripAttr(m.text, m.attr))
  }

  /** The capture group of the inner match: what the scraper evidently means to return. */
  function ExtractCsrfTokenIntended(html: string): (r: Option<string>)
    ensures r.None? <==> Scrape(html).None?
  {
    match Scrape(html)
    case None => None
    case Some(m) => Some(m.text[|m.attr|..|m.text| - 1])
  }

  /** A match inside a slice is a match of the whole text at the shifted index. */
  lemma QuotedFromSlice(s: string, lo: nat, hi: nat, c: nat, attr: string)
    requires lo <= hi <= |s| && QuotedAt(s[lo..hi], c, attr)
    ensures QuotedAt(s, lo + c, attr)
  {
    var t := s[lo..hi];
    var e := CloseQuote(t, c, attr);
    MatchedShape(t, c, attr);
    SliceOfSlice(s, lo, hi, c, e + 1);
    QuotedOfShape(s, lo + c, attr, Captured(t, c, attr));
  }

  /** A match of the whole text that closes inside a slice is a match of the slice, with the same text. */
  lemma QuotedInSlice(s: string, lo: nat, hi: nat, b: nat, attr: string)
    requires lo <= b && hi <= |s| && QuotedAt(s, b, attr) && CloseQuote(s, b, attr) < hi
    ensures QuotedAt(s[lo..hi], b - lo, attr)
    ensures Matched(s[lo..hi], b - lo, attr) == Matched(s, b, attr)
  {
    var t := s[lo..hi];
    var e := CloseQuote(s, b, attr);
    MatchedShape(s, b, attr);
    SliceOfSlice(s, lo, hi, b - lo, e - lo + 1);
    QuotedOfShape(t, b - lo, attr, Captured(s, b, attr));
    MatchedShape(t, b - lo, attr);
  }

  /** No `content="` starts inside the head of the meta literal. */
  lemma NoContentInHead(tag: string)
    requires |tag| >= |META_OPEN| && tag[..|META_OPEN|] == META_OPEN
    ensures forall k :: 0 <= k < |META_HEAD| ==> !HasAt(tag, k, CONTENT_ATTR)
  {
    forall k | 0 <= k < |META_HEAD| ensures !HasAt(tag, k, CONTENT_ATTR) {
      assert tag[k] == META_OPEN[k] && tag[k + 1] == META_OPEN[k + 1];
    }
  }

  /** In a meta tag matched with capture `t`, the leftmost `content="…"` match sits right after the head. */
  lemma ContentAfterHead(tag: string, t: string)
    requires |t| > 0 && QUOTE !in t && tag == META_OPEN + t + [QUOTE]
    ensures FirstQuoted(tag, CONTENT_ATTR, 0) == Some(|META_HEAD|)
    ensures Matched(tag, |META_HEAD|, CONTENT_ATTR) == CONTENT_ATTR + t + [QUOTE]
  {
    var h := |META_HEAD|;
    assert tag == META_HEAD + (CONTENT_ATTR + t + [QUOTE]);
    assert tag[h..h + |CONTENT_ATTR| + |t| + 1] == CONTENT_ATTR + t + [QUOTE];
    QuotedOfShape(tag, h, CONTENT_ATTR, t);
    assert tag[..|META_OPEN|] == META_OPEN;
    NoContentInHead(tag);
    FirstQuotedIs(tag, CONTENT_ATTR, 0, h);
    MatchedShape(tag, h, CONTENT_ATTR);
  }

  /** Inside a matched meta tag, `content="…"` is found right after the head, with the same capture. */
  lemma MetaInnerAt(html: string, p: nat)
    requires FirstQuoted(html, META_OPEN, 0) == Some(p)
    ensures MetaInner(html) == Some(Scraped(CONTENT_ATTR + Captured(html, p, META_OPEN) + [QUOTE], CONTENT_ATTR))
  {
    var tag := Matched(html, p, META_OPEN);
    MatchedShape(html, p, META_OPEN);
    ContentAfterHead(tag, Captured(html, p, META_OPEN));
    InnerMatchAt(tag, CONTENT_ATTR, |META_HEAD|);
  }

  /** An earlier `value="…"` match closes no later than the quote that ends a later `value="`. */
  lemma EarlierValueClosesFirst(html: string, b: nat, b2: nat)
    requires b < b2 && QuotedAt(html, b, VALUE_ATTR) && QuotedAt(html, b2, VALUE_ATTR)
    ensures CloseQuote(html, b, VALUE_ATTR) < CloseQuote(html, b2, VALUE_ATTR)
  {
    var q := b2 + |VALUE_ATTR| - 1;
    assert html[q] == html[b2..b2 + |VALUE_ATTR|][|VALUE_ATTR| - 1] == QUOTE;
    IndexOfFirst(html, QUOTE, b + |VALUE_ATTR|);
  }

  /** The input match at `p` ends just after the closing quote of some `value="…"` match from `p` on. */
  lemma InputMatchLast(html: string, p: nat) returns (last: nat)
    requires InputAt(html, p)
    ensures p <= last && QuotedAt(html, last, VALUE_ATTR)
    ensures InputMatchEnd(html, p).value == CloseQuote(html, last, VALUE_ATTR) + 1
  {
    var from := p + |INPUT_OPEN|;
    last := LastQuotedBelow(html, VALUE_ATTR, from, TagLimit(html, from)).value;
  }

  /** With a `value="…"` match at `last`, the first one from `p` on exists and closes no later. */
  lemma FirstValueNoLater(html: string, p: nat, last: nat) returns (b: nat)
    requires p <= last && QuotedAt(html, last, VALUE_ATTR)
    ensures FirstQuoted(html, VALUE_ATTR, p) == Some(b)
    ensures CloseQuote(html, b, VALUE_ATTR) <= CloseQuote(html, last, VALUE_ATTR)
  {
    FirstQuotedFirst(html, VALUE_ATTR, p);
    b := FirstQuoted(html, VALUE_ATTR, p).value;
    if b < last {
      EarlierValueClosesFirst(html, b, last);
    }
  }

  /** The first match in `html[p..end]` is the first match of `html` from `p` on, when that one closes inside. */
  lemma FirstQuotedInSlice(html: string, p: nat, end: nat, attr: string, b: nat)
    requires FirstQuoted(html, attr, p) == Some(b)
    requires CloseQuote(html, b, attr) < end <= |html|
    ensures FirstQuoted(html[p..end], attr, 0) == Some(b - p)
    ensures Matched(html[p..end], b - p, attr) == Matched(html, b, attr)
  {
    var tag := html[p..end];
    FirstQuotedFirst(html, attr, p);
    QuotedInSlice(html, p, end, b, attr);
    forall k | 0 <= k < b - p ensures !QuotedAt(tag, k, attr) {
      if QuotedAt(tag, k, attr) {
        QuotedFromSlice(html, p, end, k, attr);
      }
    }
    FirstQuotedIs(tag, attr, 0, b - p);
  }

  /** The inner match found at `c`. */
  lemma InnerMatchAt(tag: string, attr: string, c: nat)
    requires FirstQuoted(tag, attr, 0) == Some(c)
    ensures InnerMatch(tag, attr) == Some(Scraped(Matched(tag, c, attr), attr))
  {
  }

  /** The input strategy looks inside the text the input pattern matched. */
  lemma InputInnerIs(html: string, p: nat, end: nat)
    requires FindInput(html, 0) == Some(p) && InputMatchEnd(html, p) == Some(end)
    ensures InputInner(html) == InnerMatch(html[p..end], VALUE_ATTR)
  {
  }

  /** The text the input strategy searches ends at the closing quote of some `value="…"` match from `p` on. */
  lemma InputTagEnd(html: string, p: nat) returns (last: nat)
    requires FindInput(html, 0) == Some(p)
    ensures p <= last && QuotedAt(html, last, VALUE_ATTR)
    ensures InputInner(html) == InnerMatch(html[p..CloseQuote(html, last, VALUE_ATTR) + 1], VALUE_ATTR)
  {
    last := InputMatchLast(html, p);
    InputInnerIs(html, p, CloseQuote(html, last, VALUE_ATTR) + 1);
  }

  /**
   * In the text from `p` through the closing quote of a `value="…"` match at
   * `last`, the leftmost `value="…"` match is the first one of the whole page
   * from `p` on, with the same text.
   */
  lemma ValueInside(html: string, p: nat, last: nat) returns (b: nat)
    requires p <= last && QuotedAt(html, last, VALUE_ATTR)
    ensures FirstQuoted(html, VALUE_ATTR, p) == Some(b)
    ensures InnerMatch(html[p..CloseQuote(html, last, VALUE_ATTR) + 1], VALUE_ATTR)
         == Some(Scraped(Matched(html, b, VALUE_ATTR), VALUE_ATTR))
  {
    b := FirstValueNoLater(html, p, last);
    var end := CloseQuote(html, last, VALUE_ATTR) + 1;
    FirstQuotedInSlice(html, p, end, VALUE_ATTR, b);
    InnerMatchAt(html[p..end], VALUE_ATTR, b - p);
  }

  /**
   * Inside the text the input pattern matched at `p`, `value="…"` is found at
   * the first `value="…"` match of the whole page from `p` on, with the same text.
   */
  lemma InputInnerAt(html: string, p: nat) returns (b: nat)
    requires FindInput(html, 0) == Some(p)
    ensures FirstQuoted(html, VALUE_ATTR, p) == Some(b)
    ensures InputInner(html) == Some(Scraped(Matched(html, b, VALUE_ATTR), VALUE_ATTR))
  {
    var last := InputTagEnd(html, p);
    b := ValueInside(html, p, last);
  }

  /** Stripping `body` + quote and then quotes from `body"T"` leaves `T`, less a trailing `body`. */
  lemma StripMatched(t: string, body: string)
    requires QUOTE !in t && QUOTE !in body && |body| > 0
    ensures StripAttr(body + [QUOTE] + t + [QUOTE], body + [QUOTE]) == DropSuffix(t, body)
  {
    var attr := body + [QUOTE];
    var s := attr + t + [QUOTE];
    assert s[0..|attr|] == attr;
    assert s[|attr|..] == t + [QUOTE];
    RemoveClosing(t, body, QUOTE);
    var d := DropSuffix(t, body);
    if EndsWith(t, body) {
      forall c | c in d ensures c != QUOTE {
        var k :| 0 <= k < |d| && d[k] == c;
        assert d[k] == t[k];
      }
      assert d + [] == d;
      RemoveAbsent(d, QUOTE);
    } else {
      RemoveTrailing(t, QUOTE);
    }
  }

  /** The meta strategy's result decides the scrape whenever it yields something. */
  lemma ScrapeMeta(html: string, m: Scraped)
    requires MetaInner(html) == Some(m)
    ensures Scrape(html) == Some(m)
  {
  }

  /** The input strategy's result is the scrape when the meta strategy yields nothing. */
  lemma ScrapeInput(html: string)
    requires MetaInner(html).None?
    ensures Scrape(html) == InputInner(html)
  {
  }

  /**
   * When the scrape found `body"T"`, the intended token is `T`, and the
   * token as written is `T` less a trailing `body`.
   */
  lemma TokenFromScrape(html: string, body: string, t: string)
    requires |body| > 0 && QUOTE !in body && |t| > 0 && QUOTE !in t
    requires Scrape(html) == Some(Scraped(body + [QUOTE] + t + [QUOTE], body + [QUOTE]))
    ensures ExtractCsrfTokenIntended(html) == Some(t)
    ensures ExtractCsrfToken(html) == Some(DropSuffix(t, body))
  {
    var attr := body + [QUOTE];
    var text := attr + t + [QUOTE];
    assert text[|attr|..|text| - 1] == t;
    StripMatched(t, body);
  }

  /**
   * A page with a meta match yields that match's capture as the intended
   * token; as written, the token loses a trailing `content=`.
   */
  lemma MetaWins(html: string, p: nat)
    requires FirstQuoted(html, META_OPEN, 0) == Some(p)
    ensures ExtractCsrfTokenIntended(html) == Some(Captured(html, p, META_OPEN))
    ensures ExtractCsrfToken(html) == Some(DropSuffix(Captured(html, p, META_OPEN), "content="))
  {
    var t := Captured(html, p, META_OPEN);
    MetaInnerAt(html, p);
    ScrapeMeta(html, Scraped(CONTENT_ATTR + t + [QUOTE], CONTENT_ATTR));
    MatchedShape(html, p, META_OPEN);
    assert CONTENT_ATTR == "content=" + [QUOTE];
    TokenFromScrape(html, "content=", t);
  }

  /** Without a meta match, the meta strategy yields nothing. */
  lemma MetaInnerNone(html: string)
    requires FirstQuoted(html, META_OPEN, 0).None?
    ensures MetaInner(html).None?
  {
  }

  /**
   * A page without a meta match but with an input match at `p` yields the
   * capture of the first `value="…"` match from `p` on; as written, the token
   * loses a trailing `value=`.
   */
  lemma InputFallback(html: string, p: nat) returns (b: nat)
    requires FirstQuoted(html, META_OPEN, 0).None? && FindInput(html, 0) == Some(p)
    ensures FirstQuoted(html, VALUE_ATTR, p) == Some(b)
    ensures ExtractCsrfTokenIntended(html) == Some(Captured(html, b, VALUE_ATTR))
    ensures ExtractCsrfToken(html) == Some(DropSuffix(Captured(html, b, VALUE_ATTR), "value="))
  {
    b := InputInnerAt(html, p);
    MetaInnerNone(html);
    ScrapeInput(html);
    MatchedShape(html, b, VALUE_ATTR);
    assert VALUE_ATTR == "value=" + [QUOTE];
    TokenFromScrape(html, "value=", Captured(html, b, VALUE_ATTR));
  }

  /** Without an input match, the input strategy yields nothing. */
  lemma InputInnerNone(html: string)
    requires FindInput(html, 0).None?
    ensures InputInner(html).None?
  {
  }

  /** Extraction fails exactly when neither pattern matches anywhere in the page. */
  lemma NoTokenIff(html: string)
    ensures ExtractCsrfTokenIntended(html).None?
        <==> FirstQuoted(html, META_OPEN, 0).None? && FindInput(html, 0).None?
  {
    match FirstQuoted(html, META_OPEN, 0)
    case Some(p) => MetaWins(html, p);
    case None =>
      MetaInnerNone(html);
      ScrapeInput(html);
      match FindInput(html, 0)
      case Some(p) => var b := InputFallback(html, p);
      case None => InputInnerNone(html);
  }

  /** A token, when there is one, is non-empty and free of quotes. */
  lemma TokenShape(html: string)
    ensures ExtractCsrfTokenIntended(html).Some? ==>
      |ExtractCsrfTokenIntended(html).value| > 0 && QUOTE !in ExtractCsrfTokenIntended(html).value
  {
    match FirstQuoted(html, META_OPEN, 0)
    case Some(p) =>
      MetaWins(html, p);
      MatchedShape(html, p, META_OPEN);
    case None =>
      match FindInput(html, 0)
      case Some(p) =>
        var b := InputFallback(html, p);
        MatchedShape(html, b, VALUE_ATTR);
      case None => NoTokenIff(html);
  }

  /**
   * The token as written holds no quote, and it is empty exactly when the
   * capture is the attribute's own name: `content=` in a meta match,
   * `value=` in an input match.
   */
  lemma TokenShapeAsWritten(html: string)
    ensures ExtractCsrfToken(html).Some? ==> QUOTE !in ExtractCsrfToken(html).value
    ensures FirstQuoted(html, META_OPEN, 0).Some? ==>
      (ExtractCsrfToken(html) == Some([]) <==> ExtractCsrfTokenIntended(html) == Some("content="))
    ensures FirstQuoted(html, META_OPEN, 0).None? ==>
      (ExtractCsrfToken(html) == Some([]) <==> ExtractCsrfTokenIntended(html) == Some("value="))
  {
    match FirstQuoted(html, META_OPEN, 0)
    case Some(p) =>
      MetaWins(html, p);
      MatchedShape(html, p, META_OPEN);
      DropSuffixPrefix(Captured(html, p, META_OPEN), "content=");
    case None =>
      match FindInput(html, 0)
      case Some(p) =>
        var b := InputFallback(html, p);
        MatchedShape(html, b, VALUE_ATTR);
        DropSuffixPrefix(Captured(html, b, VALUE_ATTR), "value=");
      case None => NoTokenIff(html);
  }

  /** Unless the token ends with the attribute's name, the code as written returns it unchanged. */
  lemma AsWrittenAgrees(html: string)
    requires ExtractCsrfTokenIntended(html).Some?
    requires !EndsWith(ExtractCsrfTokenIntended(html).value, "content=")
    requires !EndsWith(ExtractCsrfTokenIntended(html).value, "value=")
    ensures ExtractCsrfToken(html) == ExtractCsrfTokenIntended(html)
  {
    match FirstQuoted(html, META_OPEN, 0)
    case Some(p) => MetaWins(html, p);
    case None =>
      match FindInput(html, 0)
      case Some(p) => var b := InputFallback(html, p);
      case None => NoTokenIff(html);
  }

  /**
   * Any page that opens with `<meta name="csrf-token" content="content="`: the
   * token `content=` comes out empty.
   */
  lemma TokenEndingInAttrIsCut(rest: string)
    ensures ExtractCsrfTokenIntended(META_OPEN + "content=" + [QUOTE] + rest) == Some("content=")
    ensures ExtractCsrfToken(META_OPEN + "content=" + [QUOTE] + rest) == Some("")
  {
    var t := "content=";
    var html := META_OPEN + t + [QUOTE] + rest;
    assert html[0..|META_OPEN| + |t| + 1] == META_OPEN + t + [QUOTE];
    QuotedOfShape(html, 0, META_OPEN, t);
    FirstQuotedIs(html, META_OPEN, 0, 0);
    MetaWins(html, 0);
    assert t[|t| - |t|..] == t;
  }
}
