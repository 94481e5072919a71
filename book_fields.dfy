/**
 * The text helpers of the profile-page extractor: the quoted book name, the
 * "N stars" score, the first number of a screen-reader text, and the first
 * title or author anchor of a heading.
 */
module BookFields {
  import opened Opt
  import opened PyStr

  const Quote := "\""
  const StarsWord := " stars"
  const UnknownAuthor := "Unknown author"

  // ---- parse_book_name ----

  /** `parse_book_name`: from after the first `"` up to the next `"`, with Python's find and slice rules. */
  function ParseBookName(s: string): string {
    var start := Find(s, Quote);
    var end := FindFrom(s, Quote, start + 1);
    PySlice(s, start + 1, end)
  }

  /**
   * No quote occurs in `s` before index `hi`, from `lo` on. The feed
   * extractor has a general form of this fact; BookFields does not depend on
   * that module, so the one-character case is proved here.
   */
  lemma NoQuoteBetween(s: string, lo: nat, hi: nat)
    requires lo <= hi <= |s|
    requires '"' !in s[lo..hi]
    ensures forall j :: lo <= j < hi ==> !IsAt(s, j, Quote)
  {
    forall j | lo <= j < hi ensures !IsAt(s, j, Quote) {
      IsAtChar(s, j, '"');
      assert s[j] == s[lo..hi][j - lo];
    }
  }

  /** With two quotes or more: exactly the text between the first two, which holds no quote. */
  lemma BookNameBetweenQuotes(s: string, a: string, b: string, c: string)
    requires s == a + Quote + b + Quote + c
    requires '"' !in a && '"' !in b
    ensures ParseBookName(s) == b
    ensures '"' !in ParseBookName(s)
  {
    var k := |a| + 1 + |b|;
    assert s[..|a|] == a && s[|a| + 1..k] == b;
    NoQuoteBetween(s, 0, |a|);
    IsAtChar(s, |a|, '"');
    FindIsFirst(s, Quote, |a|);
    NoQuoteBetween(s, |a| + 1, k);
    IsAtChar(s, k, '"');
    FindFromIsFirst(s, Quote, |a| + 1, k);
  }

  /** With no quote: `s[0:-1]`, that is `s` without its last character. */
  lemma BookNameNoQuote(s: string)
    requires '"' !in s
    ensures ParseBookName(s) == if s == [] then [] else s[..|s| - 1]
  {
    assert s[0..|s|] == s;
    NoQuoteBetween(s, 0, |s|);
    FindAbsent(s, Quote);
    FindFromAbsent(s, Quote, 0);
  }

  /** With exactly one quote, at `k`: `s[k+1:-1]`, the rest after the quote without its last character. */
  lemma BookNameOneQuote(s: string, a: string, b: string)
    requires s == a + Quote + b
    requires '"' !in a && '"' !in b
    ensures ParseBookName(s) == if b == [] then [] else b[..|b| - 1]
  {
    assert s[..|a|] == a && s[|a| + 1..] == b;
    NoQuoteBetween(s, 0, |a|);
    IsAtChar(s, |a|, '"');
    FindIsFirst(s, Quote, |a|);
    NoQuoteBetween(s, |a| + 1, |s|);
    FindFromAbsent(s, Quote, |a| + 1);
    if b != [] {
      assert s[|a| + 1..|s| - 1] == b[..|b| - 1];
    }
  }

  // ---- parse_score ----

  /** A match of `\d+ stars` starts at `i`: a run of digits there, then " stars". */
  predicate StarsMatchAt(s: string, i: int) {
    0 <= i < |s| && DigitRun(s, i) > 0 && IsAt(s, i + DigitRun(s, i), StarsWord)
  }

  /** The number a match at `i` carries. */
  function MatchValue(s: string, i: nat): nat
    requires i <= |s|
  {
    DigitsValue(s[i..i + DigitRun(s, i)])
  }

  /** The value of the leftmost match at or after `i`, or 0. */
  function ScoreFrom(s: string, i: nat): nat
    requires i <= |s|
    decreases |s| - i
  {
    if i == |s| then 0
    else if StarsMatchAt(s, i) then MatchValue(s, i)
    else ScoreFrom(s, i + 1)
  }

  /** `parse_score`: the number in the leftmost match of `\d+ stars`, or 0 when there is none. */
  function ParseScore(s: string): nat {
    ScoreFrom(s, 0)
  }

  lemma {:induction false} ScoreFromFirst(s: string, start: nat, i: nat)
    requires start <= i < |s| && StarsMatchAt(s, i)
    requires forall j :: start <= j < i ==> !StarsMatchAt(s, j)
    ensures ScoreFrom(s, start) == MatchValue(s, i)
    decreases i - start
  {
    if start < i {
      ScoreFromFirst(s, start + 1, i);
    }
  }

  lemma {:induction false} ScoreFromNone(s: string, start: nat)
    requires start <= |s|
    requires forall j :: start <= j < |s| ==> !StarsMatchAt(s, j)
    ensures ScoreFrom(s, start) == 0
    decreases |s| - start
  {
    if start < |s| {
      ScoreFromNone(s, start + 1);
    }
  }

  /** The score is the number of the leftmost `N stars` match. */
  lemma ParseScoreLeftmost(s: string, i: nat)
    requires StarsMatchAt(s, i)
    requires forall j :: 0 <= j < i ==> !StarsMatchAt(s, j)
    ensures ParseScore(s) == MatchValue(s, i)
  {
    ScoreFromFirst(s, 0, i);
  }

  /** Without any match the score is 0. */
  lemma ParseScoreNoMatch(s: string)
    requires forall j :: 0 <= j < |s| ==> !StarsMatchAt(s, j)
    ensures ParseScore(s) == 0
  {
    ScoreFromNone(s, 0);
  }

  /** A run of digits stops at the first non-digit. */
  lemma {:induction false} DigitRunStops(s: string, i: nat, k: nat)
    requires i <= k < |s| && !IsDigit(s[k])
    ensures i + DigitRun(s, i) <= k
    decreases k - i
  {
    if i < k && IsDigit(s[i]) {
      DigitRunStops(s, i + 1, k);
    }
  }

  /** Digit runs look only forward, so in `p + q` they are the runs of `q` shifted by `|p|`. */
  lemma {:induction false} DigitRunShift(p: string, q: string, k: nat)
    requires k <= |q|
    ensures DigitRun(p + q, |p| + k) == DigitRun(q, k)
    decreases |q| - k
  {
    if k < |q| {
      assert (p + q)[|p| + k] == q[k];
      if IsDigit(q[k]) {
        DigitRunShift(p, q, k + 1);
      }
    }
  }

  /** A match at `|p| + k` in `p + q` is a match at `k` in `q`, with the same number. */
  lemma MatchShift(p: string, q: string, k: nat)
    requires k < |q|
    ensures StarsMatchAt(p + q, |p| + k) == StarsMatchAt(q, k)
    ensures MatchValue(p + q, |p| + k) == MatchValue(q, k)
  {
    var s := p + q;
    DigitRunShift(p, q, k);
    var n := DigitRun(q, k);
    assert s[|p| + k..|p| + k + n] == q[k..k + n];
    if k + n + |StarsWord| <= |q| {
      assert s[|p| + k + n..|p| + k + n + |StarsWord|] == q[k + n..k + n + |StarsWord|];
    }
  }

  lemma {:induction false} ScoreFromShift(p: string, q: string, k: nat)
    requires k <= |q|
    ensures ScoreFrom(p + q, |p| + k) == ScoreFrom(q, k)
    decreases |q| - k
  {
    if k < |q| {
      MatchShift(p, q, k);
      ScoreFromShift(p, q, k + 1);
    }
  }

  lemma {:induction false} ScoreFromSkip(s: string, start: nat, stop: nat)
    requires start <= stop <= |s|
    requires forall j :: start <= j < stop ==> !StarsMatchAt(s, j)
    ensures ScoreFrom(s, start) == ScoreFrom(s, stop)
    decreases stop - start
  {
    if start < stop {
      ScoreFromSkip(s, start + 1, stop);
    }
  }

  /**
   * Numbers before the rating, such as one in a book title, are ignored: a
   * prefix `p` that does not end in a digit and in which no " stars" starts
   * leaves the score to the rest of the text.
   */
  lemma ParseScoreIgnoresPrefix(p: string, q: string)
    requires p == [] || !IsDigit(p[|p| - 1])
    requires forall k :: 0 <= k < |p| ==> !IsAt(p + q, k, StarsWord)
    ensures ParseScore(p + q) == ParseScore(q)
  {
    var s := p + q;
    forall j | 0 <= j < |p| ensures !StarsMatchAt(s, j) {
      if DigitRun(s, j) > 0 {
        DigitRunStops(s, j, |p| - 1);
      }
    }
    ScoreFromSkip(s, 0, |p|);
    ScoreFromShift(p, q, 0);
  }

  // ---- the first number of a text ----

  /** The first run of digits at or after `i`, as a number. */
  function FirstNumberFrom(t: string, i: nat): (r: Option<nat>)
    requires i <= |t|
    ensures r.None? <==> forall j :: i <= j < |t| ==> !IsDigit(t[j])
    decreases |t| - i
  {
    if i == |t| then None
    else if IsDigit(t[i]) then Some(DigitsValue(t[i..i + DigitRun(t, i)]))
    else FirstNumberFrom(t, i + 1)
  }

  /** `int(re.findall(r'\d+', t)[0])`: the first number in `t`, or None where the index raises. */
  function FirstNumber(t: string): (r: Option<nat>)
    ensures r.None? <==> forall j :: 0 <= j < |t| ==> !IsDigit(t[j])
  {
    FirstNumberFrom(t, 0)
  }

  lemma {:induction false} FirstNumberFromRun(pre: string, ds: string, rest: string, start: nat)
    requires start <= |pre|
    requires forall j :: start <= j < |pre| ==> !IsDigit(pre[j])
    requires |ds| > 0 && AllDigits(ds)
    requires rest == [] || !IsDigit(rest[0])
    ensures FirstNumberFrom(pre + ds + rest, start) == Some(DigitsValue(ds))
    decreases |pre| - start
  {
    var t := pre + ds + rest;
    if start < |pre| {
      assert t[start] == pre[start];
      FirstNumberFromRun(pre, ds, rest, start + 1);
    } else {
      assert t[start] == ds[0];
      assert t[start..start + |ds|] == ds;
      if rest != [] {
        assert t[start + |ds|] == rest[0];
      }
      DigitRunExact(t, start, ds);
    }
  }

  /** The run of digits at `i` is exactly `ds` when `ds` stands there and a non-digit or the end follows. */
  lemma {:induction false} DigitRunExact(t: string, i: nat, ds: string)
    requires i + |ds| <= |t| && t[i..i + |ds|] == ds && AllDigits(ds)
    requires |t| == i + |ds| || !IsDigit(t[i + |ds|])
    ensures DigitRun(t, i) == |ds|
    decreases |ds|
  {
    if |ds| > 0 {
      assert t[i] == ds[0];
      assert t[i + 1..i + 1 + |ds[1..]|] == ds[1..];
      DigitRunExact(t, i + 1, ds[1..]);
    }
  }

  /** Text without digits before a run `ds` that ends at a non-digit: the number is the value of `ds`. */
  lemma FirstNumberOfRun(pre: string, ds: string, rest: string)
    requires forall j :: 0 <= j < |pre| ==> !IsDigit(pre[j])
    requires |ds| > 0 && AllDigits(ds)
    requires rest == [] || !IsDigit(rest[0])
    ensures FirstNumber(pre + ds + rest) == Some(DigitsValue(ds))
  {
    FirstNumberFromRun(pre, ds, rest, 0);
  }

  // ---- find_book_title / find_book_author ----

  /** An `<a>` tag of a heading or section: its href, if it has one, and its text. */
  datatype Anchor = Anchor(href: Option<string>, text: string)

  /** The filter `href and part in href`. */
  predicate HrefHas(a: Anchor, part: string) {
    a.href.Some? && Contains(a.href.value, part)
  }

  /** The index of the first anchor at or after `i` whose href contains `part`. */
  function FindAnchorFrom(anchors: seq<Anchor>, part: string, i: nat): (r: Option<nat>)
    requires i <= |anchors|
    ensures r.Some? ==> i <= r.value < |anchors| && HrefHas(anchors[r.value], part)
    ensures r.Some? ==> forall j :: i <= j < r.value ==> !HrefHas(anchors[j], part)
    ensures r.None? ==> forall j :: i <= j < |anchors| ==> !HrefHas(anchors[j], part)
    decreases |anchors| - i
  {
    if i == |anchors| then None
    else if HrefHas(anchors[i], part) then Some(i)
    else FindAnchorFrom(anchors, part, i + 1)
  }

  /** `entry.find('a', href=lambda href: href and part in href)`, as an index. */
  function FindAnchor(anchors: seq<Anchor>, part: string): (r: Option<nat>)
    ensures r.Some? ==> r.value < |anchors| && HrefHas(anchors[r.value], part)
    ensures r.Some? ==> forall j :: 0 <= j < r.value ==> !HrefHas(anchors[j], part)
    ensures r.None? ==> forall j :: 0 <= j < |anchors| ==> !HrefHas(anchors[j], part)
  {
    FindAnchorFrom(anchors, part, 0)
  }

  /** The first matching anchor is the one found. */
  lemma FindAnchorIsFirst(anchors: seq<Anchor>, part: string, k: nat)
    requires k < |anchors| && HrefHas(anchors[k], part)
    requires forall j :: 0 <= j < k ==> !HrefHas(anchors[j], part)
    ensures FindAnchor(anchors, part) == Some(k)
  {
  }

  /**
   * `find_book_title`: the trimmed text of the first anchor whose href
   * contains "/book/", and None (the function falling off its end) when there
   * is none. Its `'Unknown book'` branch answers an exception that nothing in
   * its body can raise.
   */
  function FindBookTitle(anchors: seq<Anchor>): (r: Option<string>)
    ensures r.None? <==> forall j :: 0 <= j < |anchors| ==> !HrefHas(anchors[j], "/book/")
  {
    match FindAnchor(anchors, "/book/")
    case None => None
    case Some(k) => Some(Strip(anchors[k].text))
  }

  /**
   * `find_book_author`: with no anchor whose href contains "/author/",
   * `'Unknown author'`; otherwise the first such anchor's trimmed text, or None
   * when that text is empty.
   */
  function FindBookAuthor(anchors: seq<Anchor>): (r: Option<string>)
    ensures (forall j :: 0 <= j < |anchors| ==> !HrefHas(anchors[j], "/author/")) ==> r == Some(UnknownAuthor)
  {
    match FindAnchor(anchors, "/author/")
    case None => Some(UnknownAuthor)
    case Some(k) =>
      var name := Strip(anchors[k].text);
      if name != [] then Some(name) else None
  }

  /** The title is the first "/book/" anchor's trimmed text; later ones are ignored. */
  lemma TitleOfFirstBookAnchor(anchors: seq<Anchor>, k: nat)
    requires k < |anchors| && HrefHas(anchors[k], "/book/")
    requires forall j :: 0 <= j < k ==> !HrefHas(anchors[j], "/book/")
    ensures FindBookTitle(anchors) == Some(Strip(anchors[k].text))
  {
    FindAnchorIsFirst(anchors, "/book/", k);
  }

  /** The author is the first "/author/" anchor's trimmed text, or None when it trims to nothing. */
  lemma AuthorOfFirstAuthorAnchor(anchors: seq<Anchor>, k: nat)
    requires k < |anchors| && HrefHas(anchors[k], "/author/")
    requires forall j :: 0 <= j < k ==> !HrefHas(anchors[j], "/author/")
    ensures Strip(anchors[k].text) == [] ==> FindBookAuthor(anchors) == None
    ensures Strip(anchors[k].text) != [] ==> FindBookAuthor(anchors) == Some(Strip(anchors[k].text))
  {
    FindAnchorIsFirst(anchors, "/author/", k);
  }

  /** None comes back only from an author anchor whose text trims to nothing. */
  lemma NoAuthorMeansEmptyAnchor(anchors: seq<Anchor>)
    requires FindBookAuthor(anchors) == None
    ensures exists k :: 0 <= k < |anchors| && HrefHas(anchors[k], "/author/") && Strip(anchors[k].text) == []
  {
    var k := FindAnchor(anchors, "/author/").value;
    assert HrefHas(anchors[k], "/author/") && Strip(anchors[k].text) == [];
  }
}
