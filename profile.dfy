/**
 * The heading loop of the profile-page extractor, over a page that has
 * already been parsed. Each bold heading is tested for " rated " and then,
 * independently, for " reviewed "; only the second test adds a record. Any
 * failed lookup makes the whole extraction return None (the outer `except`),
 * and the last book link found stays in `book_url` from one heading to the
 * next, because it is a local of the whole function.
 */
module Profile {
  import opened Opt
  import opened PyStr
  import opened Record
  import opened BookFields

  const RatedWord := " rated "
  const ReviewedWord := " reviewed "
  const BookPart := "/book/"
  const CoverPlaceholder := "https://cover2coverbookdesign.com/site/wp-content/uploads/2019/03/geometric1.jpg"

  /**
   * The `card-content` section that follows a heading: its anchors, the src
   * of its `book-cover` image (None when there is no such image) and the text
   * of its first `is-sr-only` span (None when there is no such span).
   */
  datatype Section = Section(anchors: seq<Anchor>, cover: Option<string>, srText: Option<string>)

  /**
   * A `has-text-weight-bold` heading: its text, the text of its
   * `itemprop=name` span, its anchors, the text of its `.stars .is-sr-only`
   * element, and the section that follows it in the page.
   */
  datatype Heading = Heading(
    text: string,
    username: Option<string>,
    anchors: seq<Anchor>,
    starsText: Option<string>,
    section: Option<Section>)

  /** The page: the src of its avatar image (None when there is none) and its headings in order. */
  datatype Page = Page(avatar: Option<string>, headings: seq<Heading>)

  /** What every heading sees: the profile URL, its scheme and host, and the page's avatar. */
  datatype Ctx = Ctx(profileUrl: string, scheme: string, host: string, avatar: string)

  /** The loop's variables: the records so far and the last book link found. */
  datatype LoopState = LoopState(reviews: seq<Review>, bookUrl: Option<string>)

  /**
   * How the anchor loop ends: at the first "/book/" anchor, at an anchor
   * without href (where `in` on None raises), or at the end of the anchors.
   */
  datatype Scan = Found(at: nat) | Broken(at: nat) | NotFound

  // ---- the anchor loop ----

  /** The anchor loop started at anchor `i`. */
  function ScanFrom(anchors: seq<Anchor>, i: nat): (r: Scan)
    requires i <= |anchors|
    ensures r.Found? ==> i <= r.at < |anchors| && HrefHas(anchors[r.at], BookPart)
    ensures r.Broken? ==> i <= r.at < |anchors| && anchors[r.at].href.None?
    ensures !r.NotFound? ==> forall j :: i <= j < r.at ==> anchors[j].href.Some? && !HrefHas(anchors[j], BookPart)
    ensures r.NotFound? ==> forall j :: i <= j < |anchors| ==> anchors[j].href.Some? && !HrefHas(anchors[j], BookPart)
    decreases |anchors| - i
  {
    if i == |anchors| then NotFound
    else if anchors[i].href.None? then Broken(i)
    else if Contains(anchors[i].href.value, BookPart) then Found(i)
    else ScanFrom(anchors, i + 1)
  }

  /** The anchor loop over a whole section. */
  function ScanAnchors(anchors: seq<Anchor>): Scan {
    ScanFrom(anchors, 0)
  }

  /** When every anchor has an href, the loop stops where `find_book_title`'s search does. */
  lemma ScanAgreesWithFind(anchors: seq<Anchor>)
    requires forall j :: 0 <= j < |anchors| ==> anchors[j].href.Some?
    ensures ScanAnchors(anchors) == match FindAnchor(anchors, BookPart)
      case None => NotFound
      case Some(k) => Found(k)
  {
    match FindAnchor(anchors, BookPart)
    case None =>
    case Some(k) =>
      var r := ScanAnchors(anchors);
      if r.Found? {
        assert !(r.at < k) && !(k < r.at);
      }
  }

  /** The link of a book anchor: `f"{scheme}://{host}{href}"`. */
  function BookUrl(ctx: Ctx, href: string): (u: string)
    ensures |LinkBase(ctx)| <= |u| && u[..|LinkBase(ctx)|] == LinkBase(ctx)
  {
    LinkBase(ctx) + href
  }

  /** What every book link starts with. */
  function LinkBase(ctx: Ctx): string {
    ctx.scheme + "://" + ctx.host
  }

  /** The url the anchor loop leaves in `book_url`: a new link when it found one, else the old value. */
  function LinkAfter(ctx: Ctx, anchors: seq<Anchor>, prev: Option<string>): Option<string> {
    match ScanAnchors(anchors)
    case Found(k) => Some(BookUrl(ctx, anchors[k].href.value))
    case _ => prev
  }

  // ---- one heading ----

  /** The " rated " branch: it stores nothing but can fail, and its anchor loop can set `book_url`. */
  function RatedStep(ctx: Ctx, st: LoopState, h: Heading): Option<LoopState> {
    if !Contains(h.text, RatedWord) then Some(st)
    else if h.username.None? || h.starsText.None? || FirstNumber(Strip(h.starsText.value)).None?
      || h.section.None? || ScanAnchors(h.section.value.anchors).Broken?
    then None
    else Some(st.(bookUrl := LinkAfter(ctx, h.section.value.anchors, st.bookUrl)))
  }

  /** The record a " reviewed " heading yields, given its score and book link. */
  function RecordOf(ctx: Ctx, h: Heading, sec: Section, score: nat, url: string): Review
    requires h.username.Some?
  {
    Review(
      FindBookTitle(h.anchors), score, FindBookAuthor(h.anchors), url,
      sec.cover.GetOr(CoverPlaceholder), ctx.profileUrl, Strip(h.username.value), ctx.avatar)
  }

  /**
   * The " reviewed " branch: it fails without a username, a section, a score
   * span, a number in that span, on an anchor without href before the first
   * book link, and when no book link has been found yet; otherwise it
   * appends one record.
   */
  function ReviewedStep(ctx: Ctx, st: LoopState, h: Heading): Option<LoopState> {
    if !Contains(h.text, ReviewedWord) then Some(st)
    else if h.username.None? || h.section.None? || h.section.value.srText.None? then None
    else
      var sec := h.section.value;
      var score := FirstNumber(Strip(sec.srText.value));
      var url := LinkAfter(ctx, sec.anchors, st.bookUrl);
      if score.None? || ScanAnchors(sec.anchors).Broken? || url.None? then None
      else Some(LoopState(st.reviews + [RecordOf(ctx, h, sec, score.value, url.value)], url))
  }

  /** One pass of the heading loop: both tests, in order. */
  function HeadingStep(ctx: Ctx, st: LoopState, h: Heading): Option<LoopState> {
    match RatedStep(ctx, st, h)
    case None => None
    case Some(m) => ReviewedStep(ctx, m, h)
  }

  /** The heading loop, None as soon as one heading fails. */
  function RunHeadings(ctx: Ctx, st: LoopState, hs: seq<Heading>): Option<LoopState>
    decreases |hs|
  {
    if hs == [] then Some(st)
    else match HeadingStep(ctx, st, hs[0])
      case None => None
      case Some(m) => RunHeadings(ctx, m, hs[1..])
  }

  /**
   * `parse_user_profile` on a parsed page: no avatar image fails the whole
   * call, as does any failing heading; otherwise the records in heading order.
   */
  function ParseUserProfile(profileUrl: string, scheme: string, host: string, page: Page): (r: Option<seq<Review>>)
    ensures page.avatar.None? ==> r.None?
  {
    match page.avatar
    case None => None
    case Some(avatar) =>
      match RunHeadings(Ctx(profileUrl, scheme, host, avatar), LoopState([], None), page.headings)
      case None => None
      case Some(st) => Some(st.reviews)
  }

  // ---- what the loop promises ----

  /** The number of headings whose text contains " reviewed ". */
  function ReviewedCount(hs: seq<Heading>): nat
    decreases |hs|
  {
    if hs == [] then 0
    else (if Contains(hs[0].text, ReviewedWord) then 1 else 0) + ReviewedCount(hs[1..])
  }

  /** A record belongs to this profile: its user URL and avatar, a book link on the profile's host, a score of 0 or more. */
  predicate FromProfile(ctx: Ctx, r: Review) {
    && r.userUrl == ctx.profileUrl
    && r.userImageUrl == ctx.avatar
    && r.score >= 0
    && |LinkBase(ctx)| <= |r.url| && r.url[..|LinkBase(ctx)|] == LinkBase(ctx)
  }

  /** The loop invariant: every record is from the profile, and so is the current book link. */
  predicate Good(ctx: Ctx, st: LoopState) {
    && (forall i :: 0 <= i < |st.reviews| ==> FromProfile(ctx, st.reviews[i]))
    && (st.bookUrl.Some? ==> |LinkBase(ctx)| <= |st.bookUrl.value| && st.bookUrl.value[..|LinkBase(ctx)|] == LinkBase(ctx))
  }

  lemma LinkAfterGood(ctx: Ctx, anchors: seq<Anchor>, st: LoopState)
    requires Good(ctx, st)
    ensures Good(ctx, st.(bookUrl := LinkAfter(ctx, anchors, st.bookUrl)))
  {
  }

  /** One heading keeps the invariant and appends exactly one record when its text contains " reviewed ", none otherwise. */
  lemma HeadingStepKeeps(ctx: Ctx, st: LoopState, h: Heading)
    requires Good(ctx, st) && HeadingStep(ctx, st, h).Some?
    ensures var st' := HeadingStep(ctx, st, h).value;
      && Good(ctx, st')
      && |st'.reviews| == |st.reviews| + (if Contains(h.text, ReviewedWord) then 1 else 0)
      && st'.reviews[..|st.reviews|] == st.reviews
  {
    var m := RatedStep(ctx, st, h).value;
    assert m.reviews == st.reviews;
    LinkAfterGood(ctx, if h.section.Some? then h.section.value.anchors else [], st);
    assert Good(ctx, m);
    if Contains(h.text, ReviewedWord) {
      var sec := h.section.value;
      var url := LinkAfter(ctx, sec.anchors, m.bookUrl);
      var rec := RecordOf(ctx, h, sec, FirstNumber(Strip(sec.srText.value)).value, url.value);
      LinkAfterGood(ctx, sec.anchors, m);
      assert FromProfile(ctx, rec);
      var st' := LoopState(m.reviews + [rec], url);
      assert st'.reviews[..|st.reviews|] == st.reviews;
      assert Good(ctx, st');
    }
  }

  /** The loop keeps the invariant, appends one record per " reviewed " heading, and never drops one. */
  lemma {:induction false} RunHeadingsKeeps(ctx: Ctx, st: LoopState, hs: seq<Heading>)
    requires Good(ctx, st) && RunHeadings(ctx, st, hs).Some?
    ensures var st' := RunHeadings(ctx, st, hs).value;
      && Good(ctx, st')
      && |st'.reviews| == |st.reviews| + ReviewedCount(hs)
      && st'.reviews[..|st.reviews|] == st.reviews
    decreases |hs|
  {
    if hs != [] {
      var m := HeadingStep(ctx, st, hs[0]).value;
      HeadingStepKeeps(ctx, st, hs[0]);
      RunHeadingsKeeps(ctx, m, hs[1..]);
      var st' := RunHeadings(ctx, m, hs[1..]).value;
      assert st'.reviews[..|st.reviews|] == m.reviews[..|st.reviews|];
    }
  }

  /** The heading loop over `a + b` is the loop over `a`, then over `b` from where it stopped. */
  lemma {:induction false} RunHeadingsAppend(ctx: Ctx, st: LoopState, a: seq<Heading>, b: seq<Heading>)
    ensures RunHeadings(ctx, st, a + b) == match RunHeadings(ctx, st, a)
      case None => None
      case Some(m) => RunHeadings(ctx, m, b)
    decreases |a|
  {
    if a == [] {
      assert a + b == b;
    } else {
      assert (a + b)[0] == a[0] && (a + b)[1..] == a[1..] + b;
      match HeadingStep(ctx, st, a[0])
      case None =>
      case Some(m) => RunHeadingsAppend(ctx, m, a[1..], b);
    }
  }

  /** One failing heading loses the whole page, whatever the headings before and after it held. */
  lemma FailureLosesPage(ctx: Ctx, st: LoopState, before: seq<Heading>, h: Heading, after: seq<Heading>)
    requires RunHeadings(ctx, st, before + [h]) == None
    ensures RunHeadings(ctx, st, before + [h] + after) == None
  {
    RunHeadingsAppend(ctx, st, before + [h], after);
  }

  /**
   * The records of a successful call: one per " reviewed " heading, each with
   * the profile URL, the page's avatar, a link on the profile's host and a
   * score of 0 or more; a page without such headings gives no records.
   */
  lemma ProfileRecords(profileUrl: string, scheme: string, host: string, page: Page)
    requires ParseUserProfile(profileUrl, scheme, host, page).Some?
    ensures var rs := ParseUserProfile(profileUrl, scheme, host, page).value;
      && |rs| == ReviewedCount(page.headings)
      && forall i :: 0 <= i < |rs| ==>
        && rs[i].userUrl == profileUrl
        && rs[i].userImageUrl == page.avatar.value
        && rs[i].score >= 0
        && |scheme + "://" + host| <= |rs[i].url|
        && rs[i].url[..|scheme + "://" + host|] == scheme + "://" + host
  {
    var ctx := Ctx(profileUrl, scheme, host, page.avatar.value);
    RunHeadingsKeeps(ctx, LoopState([], None), page.headings);
    var rs := ParseUserProfile(profileUrl, scheme, host, page).value;
    forall i | 0 <= i < |rs|
      ensures |scheme + "://" + host| <= |rs[i].url|
      ensures rs[i].url[..|scheme + "://" + host|] == scheme + "://" + host
    {
      assert FromProfile(ctx, rs[i]);
    }
  }

  /** Headings without " reviewed " add nothing, even when they are " rated " ones. */
  lemma OnlyReviewedHeadingsAdd(ctx: Ctx, st: LoopState, h: Heading)
    requires !Contains(h.text, ReviewedWord) && HeadingStep(ctx, st, h).Some?
    ensures HeadingStep(ctx, st, h).value.reviews == st.reviews
  {
  }

  /**
   * What a " reviewed " heading appends when its lookups succeed: the trimmed
   * username, the title and author of its own anchors, the first number of
   * the score span, the cover or the placeholder when there is no cover
   * image, and the link of the first "/book/" anchor of its section, which
   * also becomes the current book link; later "/book/" anchors are ignored.
   */
  lemma ReviewedRecord(ctx: Ctx, st: LoopState, h: Heading, user: string, sec: Section, score: nat, k: nat)
    requires Contains(h.text, ReviewedWord) && RatedStep(ctx, st, h).Some?
    requires h.username == Some(user) && h.section == Some(sec)
    requires sec.srText.Some? && FirstNumber(Strip(sec.srText.value)) == Some(score)
    requires k < |sec.anchors| && HrefHas(sec.anchors[k], BookPart)
    requires forall j :: 0 <= j < k ==> sec.anchors[j].href.Some? && !HrefHas(sec.anchors[j], BookPart)
    ensures var url := ctx.scheme + "://" + ctx.host + sec.anchors[k].href.value;
      var image := if sec.cover.None? then CoverPlaceholder else sec.cover.value;
      HeadingStep(ctx, st, h) == Some(LoopState(
        st.reviews + [Review(FindBookTitle(h.anchors), score, FindBookAuthor(h.anchors), url,
                             image, ctx.profileUrl, Strip(user), ctx.avatar)],
        Some(url)))
  {
    var s := ScanAnchors(sec.anchors);
    assert !(s.at < k) && !(k < s.at);
  }

  /** Without a "/book/" anchor in its section, a " reviewed " heading's record takes the link an earlier heading left. */
  lemma EarlierLinkCarriesOver(ctx: Ctx, st: LoopState, h: Heading, u: string)
    requires Contains(h.text, ReviewedWord) && HeadingStep(ctx, st, h).Some?
    requires st.bookUrl == Some(u) && h.section.Some? && ScanAnchors(h.section.value.anchors).NotFound?
    ensures |HeadingStep(ctx, st, h).value.reviews| == |st.reviews| + 1
    ensures HeadingStep(ctx, st, h).value.reviews[|st.reviews|].url == u
  {
  }

  /** A " reviewed " heading whose section has no book link fails when no earlier heading left one. */
  lemma NoBookLinkFails(ctx: Ctx, st: LoopState, h: Heading)
    requires Contains(h.text, ReviewedWord) && st.bookUrl.None?
    requires h.section.Some? && ScanAnchors(h.section.value.anchors).NotFound?
    ensures HeadingStep(ctx, st, h) == None
  {
  }

  /** A " reviewed " heading without a number in its score span fails. */
  lemma NoScoreFails(ctx: Ctx, st: LoopState, h: Heading)
    requires Contains(h.text, ReviewedWord) && h.section.Some?
    requires h.section.value.srText.None? || forall j :: 0 <= j < |Strip(h.section.value.srText.value)| ==> !IsDigit(Strip(h.section.value.srText.value)[j])
    ensures HeadingStep(ctx, st, h) == None
  {
  }

  // ---- the loops as the source writes them ----

  /** The anchor loop with its `break`. */
  method ScanSection(anchors: seq<Anchor>) returns (r: Scan)
    ensures r == ScanAnchors(anchors)
  {
    r := NotFound;
    var i := 0;
    while i < |anchors|
      invariant 0 <= i <= |anchors|
      invariant ScanFrom(anchors, i) == ScanAnchors(anchors)
    {
      if anchors[i].href.None? {
        return Broken(i);
      }
      if Contains(anchors[i].href.value, BookPart) {
        r := Found(i);
        break;
      }
      i := i + 1;
    }
  }

  /** One pass of the heading loop: the " rated " test, then the " reviewed " test. */
  method ReadHeading(ctx: Ctx, st: LoopState, h: Heading) returns (r: Option<LoopState>)
    ensures r == HeadingStep(ctx, st, h)
  {
    var bookUrl := st.bookUrl;
    if Contains(h.text, RatedWord) {
      if h.username.None? || h.starsText.None? || FirstNumber(Strip(h.starsText.value)).None? || h.section.None? {
        return None;
      }
      var scan := ScanSection(h.section.value.anchors);
      if scan.Broken? {
        return None;
      }
      if scan.Found? {
        bookUrl := Some(BookUrl(ctx, h.section.value.anchors[scan.at].href.value));
      }
    }
    if Contains(h.text, ReviewedWord) {
      if h.username.None? || h.section.None? || h.section.value.srText.None? {
        return None;
      }
      var sec := h.section.value;
      var score := FirstNumber(Strip(sec.srText.value));
      if score.None? {
        return None;
      }
      var scan := ScanSection(sec.anchors);
      if scan.Broken? {
        return None;
      }
      if scan.Found? {
        bookUrl := Some(BookUrl(ctx, sec.anchors[scan.at].href.value));
      }
      if bookUrl.None? {
        return None;
      }
      return Some(LoopState(st.reviews + [RecordOf(ctx, h, sec, score.value, bookUrl.value)], bookUrl));
    }
    return Some(LoopState(st.reviews, bookUrl));
  }

  /** `parse_user_profile`'s loop over the headings, appending to `reviews`. */
  method ParseUserProfileLoop(profileUrl: string, scheme: string, host: string, page: Page)
    returns (r: Option<seq<Review>>)
    ensures r == ParseUserProfile(profileUrl, scheme, host, page)
  {
    if page.avatar.None? {
      return None;
    }
    var ctx := Ctx(profileUrl, scheme, host, page.avatar.value);
    var hs := page.headings;
    var st := LoopState([], None);
    var i := 0;
    while i < |hs|
      invariant 0 <= i <= |hs|
      invariant RunHeadings(ctx, LoopState([], None), hs) == RunHeadings(ctx, st, hs[i..])
    {
      assert hs[i..][0] == hs[i] && hs[i..][1..] == hs[i + 1..];
      var next := ReadHeading(ctx, st, hs[i]);
      if next.None? {
        return None;
      }
      st := next.value;
      i := i + 1;
    }
    return Some(st.reviews);
  }
}
