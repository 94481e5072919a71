/**
 * Field extraction from one feed entry's description, a raw HTML fragment
 * searched with `find` and sliced, never parsed. Every function here is one
 * expression of `RSSHelper.get_rss_data`, kept with Python's slice rules.
 */
module FeedText {
  import opened Opt
  import opened PyStr
  import opened Record

  const StarMarker := "star to <a class=\"bookTitle\""
  const StarsMarker := "stars to <a class=\"bookTitle\""
  const AuthorMarker := "<a class=\"authorName\""
  const UpdatesSuffix := "'s Updates"
  const Host := "https://www.goodreads.com/"
  const UserBase := Host + "user/"
  const AvatarPlaceholder := "https://i.imgur.com/9pNffkj.png"

  /** The feed address requested for a user id. */
  function FeedUrl(userId: nat): string {
    UserBase + "updates_rss" + "/" + NatToString(userId)
  }

  /** The reviewer's display name: the feed title before the first "'s Updates", right-trimmed. */
  function Username(feedTitle: string): string {
    RStrip(PySlice(feedTitle, 0, Find(feedTitle, UpdatesSuffix)))
  }

  /** The reviewer's profile address: the feed address with "updates_rss" replaced by "show". */
  function UserUrl(userId: nat): string {
    Replace(FeedUrl(userId), "updates_rss", "show")
  }

  /** An entry is a starred review exactly when one of the two markers occurs in it. */
  function IsStarred(info: string): (b: bool)
    ensures b <==> (exists j :: IsAt(info, j, StarMarker)) || (exists j :: IsAt(info, j, StarsMarker))
  {
    FindFirst(info, StarMarker);
    FindFirst(info, StarsMarker);
    Find(info, StarMarker) != -1 || Find(info, StarsMarker) != -1
  }

  /** The position the score is read before: the "star to" marker when present, else the "stars to" marker. */
  function StarPosition(info: string): (p: int)
    ensures IsStarred(info) ==> 0 <= p
  {
    var star := Find(info, StarMarker);
    if star != -1 then star else Find(info, StarsMarker)
  }

  /** The two characters before the marker, trimmed. */
  function ScoreText(info: string): string {
    var p := StarPosition(info);
    Strip(PySlice(info, p - 2, p))
  }

  /** From whichever href follows the first one, in a frame computed relative to the wrong string. */
  function SecondHref(info: string): string {
    var first := Find(info, "href");
    PySliceFrom(info, Find(PySliceFrom(info, first + 1), "href"))
  }

  /** Everything from `start` up to the first `close`, with Python's slice rules. */
  function CutBefore(s: string, start: int, close: string): string {
    PySlice(s, start, Find(s, close))
  }

  /** The text of the anchor the frame's first `>` closes. */
  function TitleIn(frame: string): string {
    CutBefore(frame, Find(frame, ">") + 1, "</a>")
  }

  /** The text of the anchor that starts with the author marker. */
  function AuthorIn(frame: string): string {
    var tail := PySliceFrom(frame, Find(frame, AuthorMarker));
    CutBefore(tail, Find(tail, ">") + 1, "</a>")
  }

  function Title(info: string): string {
    TitleIn(SecondHref(info))
  }

  function Author(info: string): string {
    AuthorIn(SecondHref(info))
  }

  function ImageUrl(info: string): string {
    CutBefore(info, Find(info, "src=") + 5, "\" title")
  }

  function Permalink(info: string): string {
    CutBefore(info, 9, "\">")
  }

  /**
   * The record a starred entry yields, or None when `int(score)` raises.
   * `avatar` is the result of the avatar lookup; None falls back to the placeholder.
   */
  function ExtractReview(userId: nat, username: string, avatar: Option<string>, info: string): (r: Option<Review>)
    ensures r.Some? <==> ParseInt(ScoreText(info)).Some?
    ensures r.Some? ==> r.value.score == ParseInt(ScoreText(info)).value
    ensures r.Some? ==> r.value.userImageUrl == (if avatar.Some? then avatar.value else AvatarPlaceholder)
  {
    match ParseInt(ScoreText(info))
    case None => None
    case Some(score) =>
      Some(Review(Some(Title(info)), score, Some(Author(info)), Permalink(info), ImageUrl(info),
                  UserUrl(userId), username, avatar.GetOr(AvatarPlaceholder)))
  }

  // ---- Lemmas ----

  /** One mismatching character rules out an occurrence. */
  lemma NotAtByChar(s: string, k: int, pat: string, m: nat)
    requires m < |pat|
    requires k < 0 || k + m >= |s| || s[k + m] != pat[m]
    ensures !IsAt(s, k, pat)
  {
    if 0 <= k && k + |pat| <= |s| {
      assert s[k..k + |pat|][m] == s[k + m];
    }
  }

  /** An occurrence preceded by none is what `find` returns. */
  lemma FindAfter(s: string, pre: string, pat: string, rest: string)
    requires s == pre + pat + rest
    requires forall k :: 0 <= k < |pre| ==> !IsAt(s, k, pat)
    ensures Find(s, pat) == |pre|
  {
    assert s[|pre|..|pre| + |pat|] == pat;
    FindIsFirst(s, pat, |pre|);
  }

  /** No occurrence of `pat` starts where its first character is absent. */
  lemma NoStartWithout(s: string, pat: string, lo: nat, hi: nat)
    requires |pat| > 0 && lo <= hi <= |s|
    requires pat[0] !in s[lo..hi]
    ensures forall k :: lo <= k < hi ==> !IsAt(s, k, pat)
  {
    forall k | lo <= k < hi ensures !IsAt(s, k, pat) {
      assert s[lo..hi][k - lo] == s[k];
      NotAtByChar(s, k, pat, 0);
    }
  }

  /** `CutBefore` returns exactly the text between `start` and the first `close`. */
  lemma CutBetween(s: string, pre: string, t: string, close: string, rest: string)
    requires s == pre + t + close + rest
    requires forall k :: 0 <= k < |pre| + |t| ==> !IsAt(s, k, close)
    ensures CutBefore(s, |pre|, close) == t
  {
    assert s == (pre + t) + close + rest;
    FindAfter(s, pre + t, close, rest);
    assert s[|pre|..|pre| + |t|] == t;
  }

  /** Replacing in `a + pat + b` where `pat` starts nowhere in `a` and nowhere in `b`. */
  lemma ReplaceOnce(a: string, pat: string, b: string, rep: string)
    requires |pat| > 0
    requires forall k :: 0 <= k < |a| ==> !IsAt(a + pat + b, k, pat)
    requires forall j :: !IsAt(b, j, pat)
    ensures Replace(a + pat + b, pat, rep) == a + rep + b
  {
    var s := a + pat + b;
    FindAfter(s, a, pat, b);
    assert s[..|a|] == a;
    assert s[|a| + |pat|..] == b;
  }

  /** Scenario: the feed titled "Jane's Updates" belongs to "Jane". */
  lemma JaneUsername()
    ensures Username("Jane's Updates") == "Jane"
  {
    var t := "Jane" + UpdatesSuffix + "";
    assert t == "Jane's Updates";
    assert t[..4] == "Jane";
    NoStartWithout(t, UpdatesSuffix, 0, 4);
    UsernameBeforeSuffix("Jane", "");
  }

  /** Scenario: an apostrophe in the name itself is kept: "O'Brien's Updates" belongs to "O'Brien". */
  lemma ApostropheUsername()
    ensures Username("O'Brien's Updates") == "O'Brien"
  {
    var t := "O'Brien" + UpdatesSuffix + "";
    assert t == "O'Brien's Updates";
    assert t[..1] == "O" && t[2..7] == "Brien";
    NoStartWithout(t, UpdatesSuffix, 0, 1);
    NotAtByChar(t, 1, UpdatesSuffix, 1);
    NoStartWithout(t, UpdatesSuffix, 2, 7);
    UsernameBeforeSuffix("O'Brien", "");
    assert RStrip("O'Brien") == "O'Brien";
  }

  /** The username is the title's part before the first "'s Updates", right-trimmed. */
  lemma UsernameBeforeSuffix(name: string, rest: string)
    requires forall k :: 0 <= k < |name| ==> !IsAt(name + UpdatesSuffix + rest, k, UpdatesSuffix)
    ensures Username(name + UpdatesSuffix + rest) == RStrip(name)
  {
    var t := name + UpdatesSuffix + rest;
    assert t[..|name|] == name;
    FindAfter(t, name, UpdatesSuffix, rest);
  }

  /** Without "'s Updates" the slice `[:-1]` drops the last character of the title. */
  lemma UsernameWithoutSuffix(feedTitle: string)
    requires !Contains(feedTitle, UpdatesSuffix)
    ensures Username(feedTitle) == if feedTitle == [] then [] else RStrip(feedTitle[..|feedTitle| - 1])
  {
  }

  /** The profile address is the "show" page of the same user. */
  lemma UserUrlIsShowPage(userId: nat)
    ensures UserUrl(userId) == UserBase + "show" + "/" + NatToString(userId)
  {
    var pat := "updates_rss";
    var digits := NatToString(userId);
    var tail := "/" + digits;
    var s := UserBase + pat + tail;
    assert FeedUrl(userId) == s;
    NoneInUserBase(s, tail);
    NoneInTail(digits);
    ReplaceOnce(UserBase, pat, tail, "show");
    assert UserBase + "show" + tail == UserBase + "show" + "/" + digits;
  }

  /** "updates_rss" starts nowhere inside "https://www.goodreads.com/user/". */
  lemma NoneInUserBase(s: string, tail: string)
    requires s == UserBase + "updates_rss" + tail
    ensures forall k :: 0 <= k < |UserBase| ==> !IsAt(s, k, "updates_rss")
  {
    var pat := "updates_rss";
    assert |Host| == 26 && 'u' !in Host;
    assert s[..26] == Host;
    NoStartWithout(s, pat, 0, 26);
    assert s[26..31] == "user/";
    assert s[27] == 's';
    NotAtByChar(s, 26, pat, 1);
    assert s[27..31] == "ser/";
    assert 'u' !in "ser/";
    NoStartWithout(s, pat, 27, 31);
  }

  /** "updates_rss" starts nowhere in a slash followed by digits. */
  lemma NoneInTail(digits: string)
    requires AllDigits(digits)
    ensures forall j :: !IsAt("/" + digits, j, "updates_rss")
  {
    var tail := "/" + digits;
    forall j ensures !IsAt(tail, j, "updates_rss") {
      if 0 < j < |tail| { assert tail[j] == digits[j - 1]; }
      NotAtByChar(tail, j, "updates_rss", 0);
    }
  }

  /**
   * The score is read before the first "star to" marker when there is one,
   * and before the first "stars to" marker only when there is none.
   */
  lemma StarMarkerTakesPriority(info: string)
    requires IsStarred(info)
    ensures var p := StarPosition(info);
      if Contains(info, StarMarker) then
        IsAt(info, p, StarMarker) && forall j :: 0 <= j < p ==> !IsAt(info, j, StarMarker)
      else
        IsAt(info, p, StarsMarker) && forall j :: 0 <= j < p ==> !IsAt(info, j, StarsMarker)
  {
    FindFirst(info, StarMarker);
    FindFirst(info, StarsMarker);
  }

  /** The score slice covers at most two characters. */
  lemma ScoreTextShort(info: string)
    ensures |ScoreText(info)| <= 2
  {
    var p := StarPosition(info);
    var n := |info|;
    var lo := SliceBound(p - 2, n);
    var hi := SliceBound(p, n);
    assert lo < hi ==> hi - lo <= 2;
  }

  /** When the marker sits at position 0 or 1, the negative slice start wraps to the end and the score text is empty. */
  lemma ScoreTextNearStart(info: string)
    requires IsStarred(info) && StarPosition(info) < 2
    ensures ScoreText(info) == []
    ensures ParseInt(ScoreText(info)) == None
  {
  }

  /** Otherwise the score text is the two characters before the marker, trimmed. */
  lemma ScoreTextBeforeMarker(info: string)
    requires IsStarred(info) && StarPosition(info) >= 2
    ensures ScoreText(info) == Strip(info[StarPosition(info) - 2..StarPosition(info)])
  {
  }

  /** The rating as Goodreads writes it, a digit and a space, trims to the digit. */
  lemma DigitSpaceStrips(d: char)
    requires IsDigit(d)
    ensures Strip([d, ' ']) == [d]
  {
    assert [d, ' '][..1] == [d];
    assert RStrip([d, ' ']) == RStrip([d]) == [d];
    assert LStrip([d]) == [d];
  }

  /** "gave d star to ...": the score is the digit `d` before the singular marker. */
  lemma SingularScore(info: string, pre: string, d: char, rest: string)
    requires info == pre + [d, ' '] + StarMarker + rest
    requires IsDigit(d)
    requires forall j :: 0 <= j < |pre| + 2 ==> !IsAt(info, j, StarMarker)
    ensures IsStarred(info)
    ensures ParseInt(ScoreText(info)) == Some(d as int - '0' as int)
  {
    FindAfter(info, pre + [d, ' '], StarMarker, rest);
    var p := |pre| + 2;
    assert StarPosition(info) == p;
    assert PySlice(info, p - 2, p) == [d, ' '] by {
      assert info[p - 2..p] == [d, ' '];
    }
    assert ScoreText(info) == [d] by {
      DigitSpaceStrips(d);
    }
    ParseIntDigits([d]);
  }

  /**
   * "gave d stars to ...": with no singular marker anywhere, the score is the
   * digit `d` before the first plural marker.
   */
  lemma PluralScore(info: string, pre: string, d: char, rest: string)
    requires info == pre + [d, ' '] + StarsMarker + rest
    requires IsDigit(d)
    requires forall j :: !IsAt(info, j, StarMarker)
    requires forall j :: 0 <= j < |pre| + 2 ==> !IsAt(info, j, StarsMarker)
    ensures IsStarred(info)
    ensures ParseInt(ScoreText(info)) == Some(d as int - '0' as int)
  {
    FindAbsent(info, StarMarker);
    FindAfter(info, pre + [d, ' '], StarsMarker, rest);
    var p := |pre| + 2;
    assert StarPosition(info) == p;
    assert PySlice(info, p - 2, p) == [d, ' '] by {
      assert info[p - 2..p] == [d, ' '];
    }
    assert ScoreText(info) == [d] by {
      DigitSpaceStrips(d);
    }
    ParseIntDigits([d]);
  }

  /** A record's score is the parse of at most two characters, so it lies in [-9, 99]. */
  lemma ScoreRange(userId: nat, username: string, avatar: Option<string>, info: string)
    requires ExtractReview(userId, username, avatar, info).Some?
    ensures -9 <= ExtractReview(userId, username, avatar, info).value.score <= 99
  {
    ScoreTextShort(info);
    ParseIntShort(ScoreText(info));
  }

  /**
   * A description that opens with `<a href="` has its first href at 3, so the
   * frame starts four characters BEFORE the second href (at q - 4), not at it.
   */
  lemma HrefFrameOffset(info: string, q: nat)
    requires |info| >= 9 && info[..9] == "<a href=\""
    requires 4 <= q && IsAt(info, q, "href")
    requires forall j :: 4 <= j < q ==> !IsAt(info, j, "href")
    ensures SecondHref(info) == info[q - 4..]
  {
    assert info[..3] == "<a ";
    assert info == info[..3] + "href" + info[7..];
    NoStartWithout(info, "href", 0, 3);
    FindAfter(info, info[..3], "href", info[7..]);
    var suffix := info[4..];
    assert PySliceFrom(info, 4) == suffix;
    SuffixWindow(info, 4, q - 4, 4);
    forall j | 0 <= j < q - 4 ensures !IsAt(suffix, j, "href") {
      assert !IsAt(info, j + 4, "href");
      if j + 4 <= |suffix| {
        SuffixWindow(info, 4, j, 4);
      }
    }
    FindIsFirst(suffix, "href", q - 4);
  }

  /** A window of a suffix is the window of the whole string shifted by the cut. */
  lemma SuffixWindow(s: string, cut: nat, j: nat, len: nat)
    requires cut + j + len <= |s|
    ensures s[cut..][j..j + len] == s[cut + j..cut + j + len]
  {
  }

  /**
   * In a frame `pre>t</a>...` where `pre` holds no `>` and no `</a>` starts
   * before the one after `t`, the title is `t`.
   */
  lemma TitleOfFrame(frame: string, pre: string, t: string, rest: string)
    requires frame == pre + ">" + t + "</a>" + rest
    requires '>' !in pre
    requires forall k :: 0 <= k < |pre| + 1 + |t| ==> !IsAt(frame, k, "</a>")
    ensures TitleIn(frame) == t
  {
    assert frame == pre + ">" + (t + "</a>" + rest);
    assert frame[..|pre|] == pre;
    NoStartWithout(frame, ">", 0, |pre|);
    FindAfter(frame, pre, ">", t + "</a>" + rest);
    assert frame == (pre + ">" + t) + "</a>" + rest;
    CutBetween(frame, pre + ">", t, "</a>", rest);
  }

  /** After the first author marker, the author is the text between its `>` and the next `</a>`. */
  lemma AuthorOfFrame(frame: string, pre: string, attrs: string, t: string, rest: string)
    requires frame == pre + AuthorMarker + attrs + ">" + t + "</a>" + rest
    requires forall k :: 0 <= k < |pre| ==> !IsAt(frame, k, AuthorMarker)
    requires '>' !in attrs && '<' !in attrs && '<' !in t
    ensures AuthorIn(frame) == t
  {
    var after := attrs + ">" + t + "</a>" + rest;
    assert frame == pre + AuthorMarker + after;
    FindAfter(frame, pre, AuthorMarker, after);
    assert frame[|pre|..] == AuthorMarker + attrs + ">" + t + "</a>" + rest;
    AfterMarker(frame[|pre|..], attrs, t, rest);
  }

  lemma AfterMarker(tail: string, attrs: string, t: string, rest: string)
    requires tail == AuthorMarker + attrs + ">" + t + "</a>" + rest
    requires '>' !in attrs && '<' !in attrs && '<' !in t
    ensures CutBefore(tail, Find(tail, ">") + 1, "</a>") == t
  {
    var head := AuthorMarker + attrs;
    var body := head + ">" + t;
    assert tail == head + ">" + (t + "</a>" + rest);
    assert tail == body + "</a>" + rest;
    GtAfterHead(tail, head, attrs, t + "</a>" + rest);
    NoCloseInBody(tail, attrs, t, body, rest);
    CutBetween(tail, head + ">", t, "</a>", rest);
  }

  lemma GtAfterHead(tail: string, head: string, attrs: string, after: string)
    requires tail == head + ">" + after
    requires head == AuthorMarker + attrs && '>' !in attrs
    ensures Find(tail, ">") == |head|
  {
    MarkerNoClose();
    assert '>' !in head;
    assert tail[..|head|] == head;
    NoStartWithout(tail, ">", 0, |head|);
    FindAfter(tail, head, ">", after);
  }

  lemma NoCloseInBody(tail: string, attrs: string, t: string, body: string, rest: string)
    requires body == AuthorMarker + attrs + ">" + t
    requires tail == body + "</a>" + rest
    requires '<' !in attrs && '<' !in t
    ensures forall k :: 0 <= k < |body| ==> !IsAt(tail, k, "</a>")
  {
    assert tail[..|body|] == body;
    assert body[1] == 'a';
    NotAtByChar(tail, 0, "</a>", 1);
    MarkerTailNoOpen();
    assert body[1..] == AuthorMarker[1..] + attrs + ">" + t;
    assert tail[1..|body|] == body[1..];
    NoStartWithout(tail, "</a>", 1, |body|);
  }

  /** The author marker closes no tag. */
  lemma MarkerNoClose()
    ensures '>' !in AuthorMarker
  {
  }

  /** Only the author marker's first character opens a tag. */
  lemma MarkerTailNoOpen()
    ensures '<' !in AuthorMarker[1..]
  {
  }

  /** A description `<a href="u">...` with a plain address `u` has permalink `u`. */
  lemma PermalinkOfAnchor(info: string, u: string, rest: string)
    requires info == "<a href=\"" + u + "\">" + rest
    requires '"' !in u && '>' !in u
    ensures Permalink(info) == u
  {
    var pre := "<a href=\"" + u;
    assert info == pre + "\">" + rest;
    assert info[..|pre|] == pre;
    assert '"' !in info[..8];
    forall k | 0 <= k < |pre| ensures !IsAt(info, k, "\">") {
      if k < 8 {
        assert info[..8][k] == info[k];
        NotAtByChar(info, k, "\">", 0);
      } else if k == 8 {
        assert info[9] == (if u == [] then '"' else u[0]);
        NotAtByChar(info, k, "\">", 1);
      } else {
        assert info[k] == u[k - 9];
        NotAtByChar(info, k, "\">", 0);
      }
    }
    FindAfter(info, pre, "\">", rest);
    assert info[9..|pre|] == u;
  }

  /** Before the first `src=` and the first `" title` after it: the image address is the text between them. */
  lemma ImageUrlOfCover(info: string, pre: string, u: string, rest: string)
    requires info == pre + "src=\"" + u + "\" title" + rest
    requires forall k :: 0 <= k < |pre| ==> !IsAt(info, k, "src=")
    requires forall k :: 0 <= k < |pre| + 5 + |u| ==> !IsAt(info, k, "\" title")
    ensures ImageUrl(info) == u
  {
    var after := "\"" + u + "\" title" + rest;
    assert info == pre + "src=" + after;
    FindAfter(info, pre, "src=", after);
    var head := pre + "src=\"" + u;
    assert info == head + "\" title" + rest;
    FindAfter(info, head, "\" title", rest);
    assert info[|pre| + 5..|head|] == u;
  }

  /**
   * A description that opens with the review anchor `<a href="u">` and later
   * holds the cover `src="img" title`: its permalink is `u` and its image is `img`.
   */
  lemma PermalinkAndCover(info: string, u: string, mid: string, img: string, rest: string)
    requires info == "<a href=\"" + u + "\">" + mid + "src=\"" + img + "\" title" + rest
    requires '"' !in u && '>' !in u
    requires forall k :: 0 <= k < 11 + |u| + |mid| ==> !IsAt(info, k, "src=")
    requires forall k :: 0 <= k < 16 + |u| + |mid| + |img| ==> !IsAt(info, k, "\" title")
    ensures Permalink(info) == u
    ensures ImageUrl(info) == img
  {
    var pre := "<a href=\"" + u + "\">" + mid;
    assert info == "<a href=\"" + u + "\">" + (mid + "src=\"" + img + "\" title" + rest);
    PermalinkOfAnchor(info, u, mid + "src=\"" + img + "\" title" + rest);
    assert info == pre + "src=\"" + img + "\" title" + rest;
    ImageUrlOfCover(info, pre, img, rest);
  }

  /** In a frame holding the book anchor's end and then an author anchor, both fields are read off it. */
  lemma FrameFields(frame: string, pre: string, t: string, mid: string, attrs: string, a: string, rest: string)
    requires frame == pre + ">" + t + "</a>" + mid + AuthorMarker + attrs + ">" + a + "</a>" + rest
    requires '>' !in pre
    requires forall k :: 0 <= k < |pre| + 1 + |t| ==> !IsAt(frame, k, "</a>")
    requires forall k :: 0 <= k < |pre| + |t| + 5 + |mid| ==> !IsAt(frame, k, AuthorMarker)
    requires '>' !in attrs && '<' !in attrs && '<' !in a
    ensures TitleIn(frame) == t
    ensures AuthorIn(frame) == a
  {
    var tail := mid + AuthorMarker + attrs + ">" + a + "</a>" + rest;
    assert frame == pre + ">" + t + "</a>" + tail;
    TitleOfFrame(frame, pre, t, tail);
    var head := pre + ">" + t + "</a>" + mid;
    assert frame == head + AuthorMarker + attrs + ">" + a + "</a>" + rest;
    AuthorOfFrame(frame, head, attrs, a, rest);
  }

  /**
   * A description that opens with `<a href="` and whose second href is the
   * book anchor's: the frame starts inside that anchor, the title is the
   * anchor's text, and the author is the text of the first author anchor
   * after it.
   */
  lemma TitleAndAuthor(info: string, q: nat, frame: string, pre: string, t: string, mid: string, attrs: string, a: string, rest: string)
    requires |info| >= 9 && info[..9] == "<a href=\""
    requires 4 <= q && IsAt(info, q, "href")
    requires forall j :: 4 <= j < q ==> !IsAt(info, j, "href")
    requires info[q - 4..] == frame
    requires frame == pre + ">" + t + "</a>" + mid + AuthorMarker + attrs + ">" + a + "</a>" + rest
    requires '>' !in pre
    requires forall k :: 0 <= k < |pre| + 1 + |t| ==> !IsAt(frame, k, "</a>")
    requires forall k :: 0 <= k < |pre| + |t| + 5 + |mid| ==> !IsAt(frame, k, AuthorMarker)
    requires '>' !in attrs && '<' !in attrs && '<' !in a
    ensures Title(info) == t
    ensures Author(info) == a
  {
    HrefFrameOffset(info, q);
    FrameFields(frame, pre, t, mid, attrs, a, rest);
  }

  /** A pattern whose first character is missing from `b` starts nowhere inside `b` in `a + b + c`. */
  lemma NoStartInPiece(a: string, b: string, c: string, pat: string)
    requires |pat| > 0 && pat[0] !in b
    ensures forall k :: |a| <= k < |a| + |b| ==> !IsAt(a + b + c, k, pat)
  {
    assert (a + b + c)[|a|..|a| + |b|] == b;
    NoStartWithout(a + b + c, pat, |a|, |a| + |b|);
  }

  // Scenario: the description `<a href="/r/1">x</a> gave 3 stars to <a class="bookTitle"
  // href="/b/1">Dune</a> by <a class="authorName" href="/a/1">Frank Herbert</a>`, whose
  // second `href` is the one at 4 + |DuneGap| + 4.
  const DuneGap := "ref=\"" + "/r/1\">x" + "</a> gave" + " 3 stars" + " to <a c" + "lass=\"bo" + "okTit"
  const DunePre := "le\" " + "href=\"/b/1\""
  const DuneAttrs := " href=\"/a/1\""
  const DuneTitled := DunePre + ">" + "Dune"
  const DuneCredit := AuthorMarker + DuneAttrs + ">" + "Frank Herbert" + "</a>"
  const DuneFrame := DuneTitled + "<" + "/a> by " + DuneCredit
  const DuneInfo := "<a h" + DuneGap + DuneFrame

  /** The scenario opens with an anchor, and the frame of its second `href` is `DuneFrame`. */
  lemma DuneOpening()
    ensures |DuneInfo| >= 9 && DuneInfo[..9] == "<a href=\""
    ensures IsAt(DuneInfo, 4 + |DuneGap| + 4, "href")
    ensures DuneInfo[4 + |DuneGap|..] == DuneFrame
  {
    assert DuneInfo[..9] == "<a h" + DuneGap[..5];
    var q := 4 + |DuneGap| + 4;
    assert DuneInfo[q..q + 4] == DuneFrame[4..8];
  }

  /** No `href` starts in the scenario between its first and its second one. */
  lemma DuneNoHrefBetween()
    ensures forall j :: 4 <= j < 4 + |DuneGap| + 4 ==> !IsAt(DuneInfo, j, "href")
  {
    assert 'h' !in DuneGap;
    NoStartInPiece("<a h", DuneGap, DuneFrame, "href");
    var rest := "href=\"/b/1\"" + ">" + "Dune" + "<" + "/a> by " + DuneCredit;
    assert DuneInfo == "<a h" + DuneGap + "le\" " + rest;
    NoStartInPiece("<a h" + DuneGap, "le\" ", rest, "href");
  }

  /** Neither an author marker nor `</a>` starts in the scenario's title anchor. */
  lemma DuneNoMarkerInTitle()
    ensures forall k :: 0 <= k < |DuneTitled| ==> !IsAt(DuneFrame, k, AuthorMarker)
    ensures forall k :: 0 <= k < |DuneTitled| ==> !IsAt(DuneFrame, k, "</a>")
  {
    assert '<' !in DuneTitled;
    assert DuneFrame == "" + DuneTitled + ("<" + "/a> by " + DuneCredit);
    NoStartInPiece("", DuneTitled, "<" + "/a> by " + DuneCredit, AuthorMarker);
    NoStartInPiece("", DuneTitled, "<" + "/a> by " + DuneCredit, "</a>");
  }

  /** No author marker starts in the scenario's frame before its ` by `. */
  lemma DuneAuthorMarkerFirst()
    ensures forall k :: 0 <= k < |DunePre| + 4 + 5 + 4 ==> !IsAt(DuneFrame, k, AuthorMarker)
  {
    DuneNoMarkerInTitle();
    assert DuneFrame[|DuneTitled| + 1] == '/';
    NotAtByChar(DuneFrame, |DuneTitled|, AuthorMarker, 1);
    assert '<' !in "/a> by ";
    NoStartInPiece(DuneTitled + "<", "/a> by ", DuneCredit, AuthorMarker);
  }

  /** The scenario's frame has the shape `TitleAndAuthor` reads. */
  lemma DuneFrameShape()
    ensures DuneFrame == DunePre + ">" + "Dune" + "</a>" + " by " + AuthorMarker + DuneAttrs + ">" + "Frank Herbert" + "</a>" + ""
    ensures '>' !in DunePre && |DuneTitled| == |DunePre| + 1 + |"Dune"|
    ensures '>' !in DuneAttrs && '<' !in DuneAttrs && '<' !in "Frank Herbert"
  {
    var head := DunePre + ">" + "Dune" + "</a>" + " by ";
    assert ("<" + "/a> by ") == "</a>" + " by ";
    assert DuneTitled + "<" + "/a> by " == head;
    assert DuneFrame == head + DuneCredit;
  }

  /** The scenario's title is "Dune" and its author "Frank Herbert". */
  lemma DuneTitleAndAuthor()
    ensures Title(DuneInfo) == "Dune" && Author(DuneInfo) == "Frank Herbert"
  {
    DuneOpening();
    DuneNoHrefBetween();
    DuneNoMarkerInTitle();
    DuneAuthorMarkerFirst();
    DuneFrameShape();
    TitleAndAuthor(DuneInfo, 4 + |DuneGap| + 4, DuneFrame, DunePre, "Dune", " by ", DuneAttrs, "Frank Herbert", "");
  }
}
