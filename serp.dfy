/**
  The result normalisation of the search client (src/services/serp.ts): the
  first `num` organic results of a response, each reduced to a title, a
  snippet and a link with JavaScript `||` fallbacks. The HTTP request that
  produces the response is not modelled.
 */
module Serp {
  import opened Wrappers

  /** One entry of `organic_results`, with the fields the client reads; a
      missing field is `None`. */
  datatype OrganicEntry = OrganicEntry(
    title: Option<string>,
    position: Option<int>,
    snippet: Option<string>,
    excerpt: Option<string>,
    link: Option<string>,
    url: Option<string>)

  /** The response body, with its optional `organic_results` array. */
  datatype SearchResponse = SearchResponse(organicResults: Option<seq<OrganicEntry>>)

  /** The `SerpResult` record. */
  datatype SerpResult = SerpResult(title: string, snippet: string, link: string)

  /** `a || b` for an optional string: a missing or empty string is falsy. */
  function OrElse(a: Option<string>, b: string): (r: string)
    ensures r == b || (a.Some? && r == a.value && r != "")
    ensures a.Some? && a.value != "" ==> r == a.value
  {
    if a.Some? && a.value != "" then a.value else b
  }

  function DigitChar(d: nat): (c: char)
    requires d < 10
    ensures '0' <= c <= '9' && c as int - '0' as int == d
  {
    ('0' as int + d) as char
  }

  /** Decimal digits of a natural number, most significant first. */
  function NatToDecimal(n: nat): (s: string)
    ensures s != []
    ensures forall k :: 0 <= k < |s| ==> '0' <= s[k] <= '9'
    ensures |s| > 1 ==> s[0] != '0'
  {
    if n < 10 then [DigitChar(n)] else NatToDecimal(n / 10) + [DigitChar(n % 10)]
  }

  /** `Number.prototype.toString()` for an integer position whose magnitude
      is below 10^21 (and exactly representable as a double): plain decimal
      digits with a `-` for negative values. Larger magnitudes print in
      exponent form in JavaScript and are outside this model. */
  function IntToDecimal(i: int): (s: string)
    ensures s != []
    ensures i >= 0 ==> (forall k :: 0 <= k < |s| ==> '0' <= s[k] <= '9') && (|s| > 1 ==> s[0] != '0')
    ensures i < 0 ==> |s| >= 2 && s[0] == '-' && s[1] != '0' && forall k :: 1 <= k < |s| ==> '0' <= s[k] <= '9'
  {
    if i < 0 then "-" + NatToDecimal(-i) else NatToDecimal(i)
  }

  /** The value of a string of decimal digits. */
  function DigitsValue(s: string): nat
    requires forall k :: 0 <= k < |s| ==> '0' <= s[k] <= '9'
  {
    if s == [] then 0 else 10 * DigitsValue(s[..|s| - 1]) + (s[|s| - 1] as int - '0' as int)
  }

  /** The value of an optionally signed decimal string. */
  function DecimalValue(s: string): int
    requires s != []
    requires forall k :: 0 <= k < |s| ==> '0' <= s[k] <= '9' || (k == 0 && s[k] == '-')
  {
    if s[0] == '-' then 0 - DigitsValue(s[1..]) as int else DigitsValue(s) as int
  }

  lemma {:induction false} NatToDecimalRoundTrip(n: nat)
    ensures DigitsValue(NatToDecimal(n)) == n
  {
    if n >= 10 {
      NatToDecimalRoundTrip(n / 10);
      var s := NatToDecimal(n);
      assert s[..|s| - 1] == NatToDecimal(n / 10);
    }
  }

  /** The decimal text of a position reads back as that position. */
  lemma IntToDecimalRoundTrip(i: int)
    ensures var s := IntToDecimal(i);
            (forall k :: 0 <= k < |s| ==> '0' <= s[k] <= '9' || (k == 0 && s[k] == '-'))
            && DecimalValue(s) == i
  {
    if i < 0 {
      NatToDecimalRoundTrip(-i);
      NegatedDecimal(NatToDecimal(-i));
    } else {
      NatToDecimalRoundTrip(i);
    }
  }

  /** A `-` in front of a digit string negates its value. */
  lemma NegatedDecimal(digits: string)
    requires digits != [] && forall k :: 0 <= k < |digits| ==> '0' <= digits[k] <= '9'
    ensures var s := "-" + digits;
            (forall k :: 0 <= k < |s| ==> '0' <= s[k] <= '9' || (k == 0 && s[k] == '-'))
            && DecimalValue(s) == 0 - DigitsValue(digits) as int
  {
    var s := "-" + digits;
    assert s[0] == '-' && s[1..] == digits;
    assert forall k :: 1 <= k < |s| ==> s[k] == digits[k - 1];
  }

  /** One entry as serp.ts:34-36 maps it. */
  function NormalizeEntry(e: OrganicEntry): (r: SerpResult)
    ensures e.title.Some? && e.title.value != "" ==> r.title == e.title.value
    ensures !(e.title.Some? && e.title.value != "") && e.position.Some? ==> r.title == IntToDecimal(e.position.value)
    ensures !(e.title.Some? && e.title.value != "") && e.position.None? ==> r.title == ""
    ensures r.snippet == (if e.snippet.Some? && e.snippet.value != "" then e.snippet.value
                          else if e.excerpt.Some? then e.excerpt.value else "")
    ensures r.link == (if e.link.Some? && e.link.value != "" then e.link.value
                       else if e.url.Some? then e.url.value else "")
  {
    var positionText := if e.position.Some? then Some(IntToDecimal(e.position.value)) else None;
    SerpResult(
      OrElse(e.title, OrElse(positionText, "")),
      OrElse(e.snippet, OrElse(e.excerpt, "")),
      OrElse(e.link, OrElse(e.url, "")))
  }

  /** The title is empty exactly when the entry has neither a non-empty title
      nor a position; a position of 0 still gives the title "0". */
  lemma TitleEmptyOnlyWithoutSources(e: OrganicEntry)
    ensures NormalizeEntry(e).title == "" <==> (e.title.None? || e.title.value == "") && e.position.None?
    ensures e.title.None? && e.position == Some(0) ==> NormalizeEntry(e).title == "0"
  {
    assert NatToDecimal(0) == "0";
  }

  /** The organic entries of a response, with `data || {}` and
      `organic_results || []` for missing parts. */
  function Organic(data: Option<SearchResponse>): seq<OrganicEntry> {
    if data.Some? && data.value.organicResults.Some? then data.value.organicResults.value else []
  }

  /** The end index of `slice(0, num)` on `len` elements. */
  function SliceEnd(len: nat, num: int): (end: nat)
    ensures end <= len
    ensures num >= 0 ==> end == if num < len then num else len
    ensures num < 0 ==> end + (if -num < len then -num else len) == len
  {
    if num >= 0 then (if num < len then num else len)
    else if len + num > 0 then len + num else 0
  }

  /** The normalisation of serp.ts:30-37. */
  function NormalizeResults(data: Option<SearchResponse>, num: int): (results: seq<SerpResult>)
    ensures |results| <= |Organic(data)|
    ensures num >= 0 ==> |results| <= num
    ensures num >= 0 ==> |results| == if num < |Organic(data)| then num else |Organic(data)|
    ensures data.None? || data.value.organicResults.None? ==> results == []
    ensures forall k :: 0 <= k < |results| ==> results[k] == NormalizeEntry(Organic(data)[k])
  {
    var organic := Organic(data);
    var kept := organic[..SliceEnd(|organic|, num)];
    seq(|kept|, k requires 0 <= k < |kept| => NormalizeEntry(kept[k]))
  }

  /** Asking for more results never reorders or changes the ones already
      returned: a smaller `num` gives a prefix. */
  lemma NormalizeResultsPrefix(data: Option<SearchResponse>, fewer: nat, more: nat)
    requires fewer <= more
    ensures NormalizeResults(data, fewer) == NormalizeResults(data, more)[..|NormalizeResults(data, fewer)|]
  {
  }
}
