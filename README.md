# Goodreads / BookWyrm review extractors, modelled in Dafny

The bot announces new book reviews. Two extractors build its review records:

* **Feed extractor** (`RSSHelper.get_rss_data`). It reads a Goodreads
  "updates" feed for each configured user id. It tests each entry's raw HTML
  description for a star-rating marker and cuts the fields out of it with
  `find`, slicing, `strip`, `replace` and `int`. For every starred entry it
  advances a counter that keys the result. It also applies a freshness rule
  to the persisted per-user table: a stored timestamp is raised when the
  entry is newer.
* **Profile extractor** (`parse_user_profile` and its helpers). It reads a
  BookWyrm profile page. It walks the bold headings, tests each for
  " rated " and " reviewed ", and builds one record per reviewed heading from
  the heading's anchors and the section after it.

Both produce the same record shape, `Record.Review`.

Modules:

* `Opt`: the `Option` type.
* `PyStr`: Python's `str.find`, slicing with negative and out-of-range
  bounds, `strip`/`rstrip`, `replace`, `int(...)` and `str(...)`.
* `Record`: the review record.
* `FeedText`: the feed extractor's field expressions.
* `UserStore`: the user table and the freshness rule. `UserTable` holds the
  table and updates it in place.
* `FeedReader`: `get_rss_data`'s loops. They are specification folds plus
  methods with `while` loops that are proved equal to them.
* `BookFields`: `parse_book_name`, `parse_score`, `find_book_title`,
  `find_book_author`, and the first-integer lookup `re.findall(r'\d+', t)[0]`.
* `Profile`: `parse_user_profile`'s heading loop and anchor loop. They run
  over an already-parsed page and are imperative methods proved equal to
  specification folds.

The model follows the code where its documented intent differs:

* A state document that is empty, undecodable or missing is not an empty
  table. `data["users"]` raises, or the open raises. Each starred entry then
  yields no record, though the counter still advances
  (`UserTable.hasUsers == false`).
* For the feed extractor, the freshness rule updates the table but filters
  nothing. With a "users" list present, every starred entry that is dated
  and whose score parses is returned, new or not. A starred entry whose date
  does not parse yields no record, and neither does any entry when the
  document has no "users" list: the exception is caught for that entry
  alone.
* In the profile extractor, a score text without a digit does not give 0.
  The index raises, and the whole call returns `None`. Any other failed
  lookup does the same; no call returns a partial list.

## Model

| member | source | states |
|---|---|---|
| PyStr.FindFrom | bookwyrm.py:45 | `s.find(sub, start)` is -1 or an index at or after `start` where `sub` occurs |
| PyStr.FindFromFirst | bookwyrm.py:45 | from `start` on: -1 exactly when `sub` occurs nowhere, otherwise the first occurrence |
| PyStr.Find | rss_helper.py:101-102 | `s.find(sub)` is -1 or an index where `sub` occurs |
| PyStr.FindFirst | rss_helper.py:101-102 | -1 exactly when `sub` does not occur; otherwise no occurrence starts earlier |
| PyStr.FindIsFirst | rss_helper.py:89 | the first occurrence is the index `find` returns |
| PyStr.FindAbsent | rss_helper.py:89 | nothing found when the pattern is absent |
| PyStr.FindFromIsFirst | bookwyrm.py:45 | the first occurrence at or after `start` is what `find(sub, start)` returns |
| PyStr.FindFromAbsent | bookwyrm.py:45 | -1 when nothing occurs at or after `start` |
| PyStr.IsAtChar | bookwyrm.py:43 | a one-character pattern occurs exactly where that character stands |
| PyStr.Contains | bookwyrm.py:108 | `sub in s` holds exactly when `sub` occurs somewhere in `s` |
| PyStr.SliceBound | rss_helper.py:144 | a slice bound normalises to [0, len]: a negative bound counts from the end, an oversized one clamps |
| PyStr.PySlice | bookwyrm.py:48 | `s[a:b]` is never longer than `s` and equals `s[a..b]` for in-range bounds |
| PyStr.PySliceFrom | rss_helper.py:100 | `s[a:]` is never longer than `s` and is the suffix from `a` for an in-range `a` |
| PyStr.IsSpace | rss_helper.py:90 | the character set of `str.isspace` that `strip` and `rstrip` remove; no contract of its own, RStripShape, LStripShape and StripTrimmed state what is removed |
| PyStr.RStrip | rss_helper.py:90 | `rstrip` never lengthens its input |
| PyStr.RStripShape | rss_helper.py:90 | `rstrip` keeps a prefix, ends on a non-space, and removed only whitespace |
| PyStr.LStrip | rss_helper.py:144 | `lstrip` never lengthens its input |
| PyStr.LStripShape | rss_helper.py:144 | `lstrip` keeps a suffix, starts on a non-space, and removed only whitespace |
| PyStr.Strip | rss_helper.py:144 | `strip` never lengthens its input |
| PyStr.StripTrimmed | rss_helper.py:144 | the result of `strip` neither starts nor ends with whitespace |
| PyStr.StripOfTrimmed | bookwyrm.py:78 | text without surrounding whitespace is unchanged by `strip` |
| PyStr.DigitsValue | rss_helper.py:164 | the decimal value of a run of ASCII digits; no contract of its own, ShortDigitsValue, ParseIntDigits and NatToString state it |
| PyStr.ShortDigitsValue | rss_helper.py:164 | one or two digits are worth less than 100 |
| PyStr.DigitRun | bookwyrm.py:61 | the run of digits at `i` stays in bounds, is all digits and is maximal |
| PyStr.ParseInt | rss_helper.py:164 | `int()`: strip, an optional sign, then digits; no contract of its own, ParseIntShort, ParseIntDigits and ParseIntCases state what it yields |
| PyStr.ParseIntCases | bookwyrm.py:140 | `int(" 7")` is 7, `int("05")` is 5, `int("-5")` is -5, and `int("x5")` and `int("+")` fail |
| PyStr.ParseIntShort | rss_helper.py:164 | `int` of at most two characters lies in [-9, 99] and fails on blank text |
| PyStr.ParseIntDigits | rss_helper.py:164 | `int` of a run of digits is its decimal value |
| PyStr.NatToString | rss_helper.py:81 | `str(n)` is a non-empty run of digits whose value is `n` |
| PyStr.Replace | rss_helper.py:155 | `replace` leaves text without the pattern unchanged |
| FeedText.FeedUrl | rss_helper.py:81 | the feed address; no contract of its own, NoneInUserBase and NoneInTail state that "updates_rss" occurs in it once |
| FeedText.Username | rss_helper.py:89-90 | the username expression; no contract of its own, UsernameBeforeSuffix, UsernameWithoutSuffix, JaneUsername and ApostropheUsername state what it yields |
| FeedText.UserUrl | rss_helper.py:155 | the user URL expression; no contract of its own, UserUrlIsShowPage states its value |
| FeedText.ScoreText | rss_helper.py:143-146 | the score text; no contract of its own, ScoreTextShort, ScoreTextNearStart, ScoreTextBeforeMarker, SingularScore and PluralScore state what it yields |
| FeedText.SecondHref | rss_helper.py:100 | the second-href frame; no contract of its own, HrefFrameOffset states where it starts |
| FeedText.CutBefore | rss_helper.py:135 | a `[start:find(close)]` slice; no contract of its own, CutBetween states its value |
| FeedText.TitleIn | rss_helper.py:135 | the title cut from a frame; no contract of its own, TitleOfFrame states its value |
| FeedText.AuthorIn | rss_helper.py:139-140 | the author cut from a frame; no contract of its own, AuthorOfFrame states its value |
| FeedText.Title | rss_helper.py:100-135 | the title of a description; no contract of its own, TitleAndAuthor and DuneTitleAndAuthor state its value |
| FeedText.Author | rss_helper.py:100-140 | the author of a description; no contract of its own, TitleAndAuthor and DuneTitleAndAuthor state its value |
| FeedText.ImageUrl | rss_helper.py:149 | the cover URL expression; no contract of its own, ImageUrlOfCover and PermalinkAndCover state its value |
| FeedText.Permalink | rss_helper.py:152 | the review URL expression; no contract of its own, PermalinkOfAnchor and PermalinkAndCover state its value |
| FeedText.IsStarred | rss_helper.py:101-103 | an entry is starred exactly when its description contains `star to <a class="bookTitle"` or `stars to <a class="bookTitle"` |
| FeedText.StarPosition | rss_helper.py:143-146 | for a starred entry the score position is a real index |
| FeedText.StarMarkerTakesPriority | rss_helper.py:143-146 | the score is read before the first singular marker when one occurs, and before the first plural marker only otherwise |
| FeedText.ScoreTextShort | rss_helper.py:144 | the score text has at most two characters |
| FeedText.ScoreTextNearStart | rss_helper.py:144 | a marker at index 0 or 1 makes the `p-2` bound negative, the slice empty and `int` fail |
| FeedText.ScoreTextBeforeMarker | rss_helper.py:144-146 | otherwise the score text is the two characters before the marker, stripped |
| FeedText.SingularScore | rss_helper.py:143-144 | "d star to ..." is starred and scores the digit d |
| FeedText.PluralScore | rss_helper.py:145-146 | "d stars to ..." with no singular marker is starred and scores the digit d |
| FeedText.ExtractReview | rss_helper.py:135-171 | a starred entry yields a record exactly when its score text parses; the score is that parse; the avatar falls back to `https://i.imgur.com/9pNffkj.png` |
| FeedText.ScoreRange | rss_helper.py:164 | every record's score lies in [-9, 99] |
| FeedText.JaneUsername | rss_helper.py:89-90 | the feed titled "Jane's Updates" belongs to "Jane" |
| FeedText.UsernameBeforeSuffix | rss_helper.py:89-90 | when "'s Updates" first occurs right after `name`, the username is `name` right-trimmed, whatever `name` holds, apostrophes included |
| FeedText.ApostropheUsername | rss_helper.py:89-90 | the feed titled "O'Brien's Updates" belongs to "O'Brien" |
| FeedText.UsernameWithoutSuffix | rss_helper.py:89-90 | without "'s Updates" the `[:-1]` slice drops the title's last character |
| FeedText.UserUrlIsShowPage | rss_helper.py:155 | the user URL is `https://www.goodreads.com/user/show/<id>` |
| FeedText.ReplaceOnce | rss_helper.py:155 | replacing a pattern that occurs once swaps exactly that occurrence |
| FeedText.NoneInUserBase | rss_helper.py:81 | "updates_rss" starts nowhere inside the `https://www.goodreads.com/user/` prefix |
| FeedText.NoneInTail | rss_helper.py:81 | "updates_rss" does not occur in the `/<digits>` tail |
| FeedText.FindAfter | rss_helper.py:135 | an occurrence with none before it is what `find` returns |
| FeedText.CutBetween | rss_helper.py:135 | a `[start:find(close)]` slice is exactly the text up to the first `close` |
| FeedText.HrefFrameOffset | rss_helper.py:100 | for a description opening with `<a href="`, the second-href frame starts 4 characters before the second `href` (the index is taken on the suffix but applied to the whole text) |
| FeedText.TitleOfFrame | rss_helper.py:135 | the title is the text between the frame's first `>` and the first `</a>`, given only that `pre` holds no `>` and no `</a>` starts earlier |
| FeedText.AuthorOfFrame | rss_helper.py:139-140 | the author is the text of the anchor at the first `<a class="authorName"` of the frame, whatever precedes it |
| FeedText.FrameFields | rss_helper.py:135-140 | a frame holding the title anchor's tail and then the author anchor yields both texts |
| FeedText.TitleAndAuthor | rss_helper.py:100-140 | for a description opening with `<a href="`, whose second `href` starts such a frame, the title and the author are those anchors' texts |
| FeedText.DuneTitleAndAuthor | rss_helper.py:100-140 | the description `<a href="/r/1">x</a> gave 3 stars to <a class="bookTitle" href="/b/1">Dune</a> by <a class="authorName" href="/a/1">Frank Herbert</a>` has title "Dune" and author "Frank Herbert" |
| FeedText.PermalinkOfAnchor | rss_helper.py:152 | for `<a href="u">...`, the permalink is `u` |
| FeedText.ImageUrlOfCover | rss_helper.py:149 | the image URL is the text between the first `src="` and the first `" title` after it, whatever precedes them |
| FeedText.PermalinkAndCover | rss_helper.py:149-152 | a description opening with its review anchor and holding a cover image yields both URLs at once |
| UserStore.RefreshEntry | rss_helper.py:123-129 | the rule for one row; no contract of its own, RefreshedAt states what it does to each row |
| UserStore.Refreshed | rss_helper.py:118-132 | the freshness rule keeps the number of rows |
| UserStore.RefreshedAt | rss_helper.py:118-132 | exactly the rows of this user with an older timestamp are set to the candidate; every other row is unchanged |
| UserStore.RefreshedAdvances | rss_helper.py:125-129 | stored timestamps never decrease and rows keep their ids |
| UserStore.RefreshedWithoutUser | rss_helper.py:123 | a user with no row leaves the table unchanged |
| UserStore.IsNew | rss_helper.py:123-126 | the source's test: some row of this user holds a strictly older timestamp; no contract of its own, RefreshedChangesIffNew and StaleRowsIffNew state it |
| UserStore.RefreshedChangesIffNew | rss_helper.py:123-129 | the table changes exactly when some row of this user is strictly older |
| UserStore.SecondRefreshIsOld | rss_helper.py:125-126 | after the update, the same timestamp is no longer new |
| UserStore.RefreshedIdempotent | rss_helper.py:125-129 | applying the update twice with one candidate equals applying it once |
| UserStore.StaleRows | rss_helper.py:128-130 | the number of rewrites is at most the number of rows |
| UserStore.StaleRowsIffNew | rss_helper.py:128-130 | the document is rewritten at least once exactly when the candidate is new |
| UserStore.AdvancedTransitive | rss_helper.py:118-132 | "timestamps only raised" composes over successive updates |
| UserStore.UserTable.constructor | rss_helper.py:56-63 | the loaded document, with or without a "users" list, not yet rewritten |
| UserStore.UserTable.Refresh | rss_helper.py:118-130 | in place: the new table is the rule applied to the old one, with one rewrite per changed row |
| FeedReader.EntryStep | rss_helper.py:101-171 | one entry as a specification step; no contract of its own, the case lemmas below and EntryStepKeeps state it |
| FeedReader.RunEntries | rss_helper.py:95-175 | the entry loop as a fold; no contract of its own, RunEntriesKeeps states it |
| FeedReader.UserStep | rss_helper.py:79-178 | one user as a specification step; no contract of its own, FailedFeedChangesNothing and RunEntriesKeeps state it |
| FeedReader.RunUsers | rss_helper.py:79-180 | the user loop as a fold; no contract of its own, RunUsersKeeps and GetRssDataProperties state it |
| FeedReader.EntryWrites | rss_helper.py:118-130 | document rewrites for one entry; no contract of its own, EntryWritesIffChanged states it |
| FeedReader.RunEntriesWrites | rss_helper.py:95-175 | document rewrites over one feed; no contract of its own, RunEntriesWritesIffChanged states it |
| FeedReader.RunUsersWrites | rss_helper.py:79-180 | document rewrites over all users; no contract of its own, RunUsersWritesIffChanged and GetRssDataWrites state it |
| FeedReader.CountStarred | rss_helper.py:107-110 | there are no more starred entries than entries |
| FeedReader.NotStarredChangesNothing | rss_helper.py:103-107 | a non-starred entry changes nothing: no counter step, no table load or update, no record |
| FeedReader.GoodScoreIsStored | rss_helper.py:162-171 | a starred, dated entry with a record stores it under the next counter value, after the freshness update |
| FeedReader.NoRecordStillCounts | rss_helper.py:164-175 | a starred, dated entry whose score is not an integer stores nothing, but the counter has advanced and the table was updated |
| FeedReader.UndatedOnlyCounts | rss_helper.py:114 | a starred entry whose date does not parse only advances the counter |
| FeedReader.NoUsersListOnlyCounts | rss_helper.py:118 | without a "users" list, a starred entry only advances the counter |
| FeedReader.EntryStepKeeps | rss_helper.py:107-171 | one entry advances the counter by one exactly when starred, only appends results, only raises timestamps, and keeps keys ordered and scores in range |
| FeedReader.AppendKeeps | rss_helper.py:162 | storing under the next counter value keeps keys strictly increasing and within 1..counter |
| FeedReader.RunEntriesKeeps | rss_helper.py:95-175 | one feed advances the counter by its number of starred entries and keeps the invariants |
| FeedReader.FailedFeedChangesNothing | rss_helper.py:176-178 | a user whose feed could not be had changes nothing |
| FeedReader.RunUsersKeeps | rss_helper.py:79-178 | all users advance the counter by the total number of starred entries and keep the invariants |
| FeedReader.GetRssDataProperties | rss_helper.py:76-180 | result keys strictly increase within 1..(number of starred entries), scores lie in [-9, 99], and the table keeps its rows with non-decreasing timestamps |
| FeedReader.EntryWritesIffChanged | rss_helper.py:123-130 | one entry rewrites the document exactly when it changes the table, and then some timestamp is strictly higher |
| FeedReader.RunEntriesWritesIffChanged | rss_helper.py:95-175 | one feed without rewrites leaves the table as it was; with any rewrite some timestamp ends strictly higher |
| FeedReader.RunUsersWritesIffChanged | rss_helper.py:79-178 | the same over all users |
| FeedReader.GetRssDataWrites | rss_helper.py:76-180 | the document is rewritten at least once exactly when the run changes the table, and a changed table has some timestamp strictly higher |
| FeedReader.NoUsersListEntriesNoWrites | rss_helper.py:118 | without a "users" list one feed never rewrites the document |
| FeedReader.NoUsersListNoWrites | rss_helper.py:118 | without a "users" list the document is never rewritten |
| FeedReader.RunEntriesFirst | rss_helper.py:95 | the entry loop, and its rewrite count, from entry `j` is the step for `j`, then the rest |
| FeedReader.GetRssData | rss_helper.py:76-180 | the imperative loops over users return the records of the specification fold, leave the store holding its table and add its rewrite count to the store's |
| FeedReader.ReadFeed | rss_helper.py:95-175 | the loop over one feed's entries is the fold over them, table and rewrite count included |
| FeedReader.ReadEntry | rss_helper.py:96-175 | the loop body for one entry is the one-entry step, with that entry's rewrites |
| FeedReader.ReadStarred | rss_helper.py:118-171 | a starred, dated entry with a users list: the rule applied in place with one rewrite per changed row, then the record, if any, stored under the current key |
| BookFields.ParseBookName | bookwyrm.py:43-48 | the book name expression; no contract of its own, BookNameBetweenQuotes, BookNameNoQuote and BookNameOneQuote state what it yields |
| BookFields.BookNameBetweenQuotes | bookwyrm.py:43-48 | with two or more quotes, the book name is exactly the text between the first two, and holds no quote |
| BookFields.BookNameNoQuote | bookwyrm.py:43-48 | with no quote, the result is `s[0:-1]`: `s` without its last character |
| BookFields.BookNameOneQuote | bookwyrm.py:43-48 | with one quote at k, the result is `s[k+1:-1]` |
| BookFields.ScoreFrom | bookwyrm.py:61-68 | the regex scan from an index on; ScoreFromFirst and ScoreFromNone state it |
| BookFields.ParseScore | bookwyrm.py:61-71 | the score expression; no contract of its own, ParseScoreLeftmost, ParseScoreNoMatch and ParseScoreIgnoresPrefix state what it yields |
| BookFields.StarsMatchAt | bookwyrm.py:61-62 | a match of `\d+ stars` starts at `i`: a digit run, then " stars"; no contract of its own, ScoreFromFirst and ParseScoreLeftmost state the scan over it |
| BookFields.MatchValue | bookwyrm.py:65-67 | the number a match carries, `int(stars_string.split()[0])`; no contract of its own, ParseScoreLeftmost states it |
| BookFields.ParseScoreLeftmost | bookwyrm.py:61-68 | the score is the value of the digit run of the leftmost `\d+ stars` match |
| BookFields.ParseScoreNoMatch | bookwyrm.py:69-71 | without a match the score is 0 |
| BookFields.ParseScoreIgnoresPrefix | bookwyrm.py:65 | digits in a prefix without " stars", such as a title number, do not change the score |
| BookFields.DigitRunStops | bookwyrm.py:61 | a digit run ends at the first non-digit |
| BookFields.ScoreFromShift | bookwyrm.py:62 | scanning `p + q` from `|p|` on finds what scanning `q` finds |
| BookFields.FirstNumberFrom | bookwyrm.py:112 | scanning from `i`, no number exactly when no digit lies at or after `i` |
| BookFields.FirstNumber | bookwyrm.py:112 | `re.findall(r'\d+', t)[0]` fails exactly when `t` has no digit |
| BookFields.FirstNumberOfRun | bookwyrm.py:140 | after digit-free text, the first number is the value of the first digit run |
| BookFields.HrefHas | bookwyrm.py:76 | the `href and part in href` filter; no contract of its own, FindAnchorFrom and FindAnchor state the search over it |
| BookFields.FindAnchorFrom | bookwyrm.py:76 | from `i` on: the first anchor passing the filter, or None when none does |
| BookFields.FindAnchor | bookwyrm.py:76 | the anchor found is the first whose href exists and contains the part; None when there is none |
| BookFields.FindAnchorIsFirst | bookwyrm.py:84 | the first matching anchor is the one found |
| BookFields.FindBookTitle | bookwyrm.py:74-80 | the title is None exactly when no anchor href contains "/book/" |
| BookFields.TitleOfFirstBookAnchor | bookwyrm.py:76-78 | the title is the stripped text of the first "/book/" anchor |
| BookFields.FindBookAuthor | bookwyrm.py:89-90 | with no "/author/" anchor the author is `'Unknown author'` |
| BookFields.AuthorOfFirstAuthorAnchor | bookwyrm.py:84-88 | the author is the first "/author/" anchor's stripped text, or None when that text is empty |
| BookFields.NoAuthorMeansEmptyAnchor | bookwyrm.py:84-88 | a None author comes only from an author anchor whose text strips to nothing |
| Profile.LinkAfter | bookwyrm.py:149-154 | the book link after a section; no contract of its own, LinkAfterGood, EarlierLinkCarriesOver and NoBookLinkFails state it |
| Profile.RatedStep | bookwyrm.py:108-130 | a " rated " heading; no contract of its own, OnlyReviewedHeadingsAdd states that it adds nothing |
| Profile.RecordOf | bookwyrm.py:155-164 | the record built for a reviewed heading; ReviewedRecord states its fields |
| Profile.ReviewedStep | bookwyrm.py:132-166 | a " reviewed " heading; no contract of its own, ReviewedRecord, NoScoreFails and NoBookLinkFails state it |
| Profile.HeadingStep | bookwyrm.py:107-166 | one heading; no contract of its own, HeadingStepKeeps states it |
| Profile.RunHeadings | bookwyrm.py:107-168 | the heading loop as a fold; no contract of its own, RunHeadingsKeeps, RunHeadingsAppend and FailureLosesPage state it |
| Profile.ScanFrom | bookwyrm.py:149-154 | the anchor loop stops at the first "/book/" anchor, or raises at an earlier anchor without href, or finds nothing |
| Profile.ScanAnchors | bookwyrm.py:149-154 | the anchor loop over the whole section; no contract of its own, ScanFrom, ScanAgreesWithFind and ScanSection state it |
| Profile.ScanAgreesWithFind | bookwyrm.py:150 | when every anchor has an href, the loop stops where the "/book/" search stops |
| Profile.BookUrl | bookwyrm.py:151 | the book URL starts with `scheme://host` |
| Profile.ParseUserProfile | bookwyrm.py:94-173 | a page without an avatar image gives None |
| Profile.HeadingStepKeeps | bookwyrm.py:107-166 | one heading appends one record if its text contains " reviewed " and none otherwise, keeps earlier records, and keeps every record tied to the profile |
| Profile.RunHeadingsKeeps | bookwyrm.py:107-166 | the loop appends one record per " reviewed " heading, in heading order, dropping none |
| Profile.RunHeadingsAppend | bookwyrm.py:107 | the loop over `a + b` is the loop over `a`, then over `b` from the state it reached |
| Profile.FailureLosesPage | bookwyrm.py:171-173 | one failing heading makes the whole call None, whatever follows |
| Profile.ProfileRecords | bookwyrm.py:94-168 | a successful call returns one record per " reviewed " heading, each with `user_url` = the profile URL, the page avatar, a score of 0 or more and a URL starting `scheme://host` |
| Profile.OnlyReviewedHeadingsAdd | bookwyrm.py:108-130 | a heading without " reviewed ", " rated " ones included, adds nothing |
| Profile.ReviewedRecord | bookwyrm.py:132-166 | a reviewed heading appends exactly one record: its fields come from the heading's own anchors and the section's score and cover, the cover falls back to the placeholder, the URL comes from the first "/book/" anchor, and that URL becomes the current book link |
| Profile.EarlierLinkCarriesOver | bookwyrm.py:149-159 | a section without a "/book/" anchor reuses the link left by an earlier heading |
| Profile.NoBookLinkFails | bookwyrm.py:149-159 | with no "/book/" anchor and no earlier link, the heading fails (`book_url` unbound) |
| Profile.NoScoreFails | bookwyrm.py:139-140 | a reviewed heading without a digit in its score span fails |
| Profile.ScanSection | bookwyrm.py:149-154 | the anchor `for` loop with its `break` computes the anchor scan |
| Profile.ReadHeading | bookwyrm.py:107-166 | the loop body, both `if`s, computes one heading step |
| Profile.ParseUserProfileLoop | bookwyrm.py:94-173 | the heading loop returns what the specification gives, None on the first failing heading |

## Left out

- HTTP fetching of feeds, profile pages and avatar pages is network I/O. The fetched feed (None when the fetch or its title fails), the parsed page and each avatar lookup's answer are inputs.
- feedparser and BeautifulSoup are foreign libraries. Entries, headings, sections and anchors are abstract datatypes. The section `find_next` reaches is each heading's `section` field.
- `get_user_image` is a foreign call. An entry's `avatar` field is its answer, and None stands for a raised exception.
- JSON load and save are file I/O. The document is `UserTable`, and the number of rewrites is its `writes` field.
- UserStore.SecondRefreshIsOld, UserStore.RefreshedIdempotent: the stored value is treated as the same instant that was written. The source writes Madrid wall-clock text and reads it back as host-local time, so on a host outside that zone, or around a daylight-saving change, the value read back can differ from the one written, and a review can be seen as new again. Time zones are not modelled.
- UserStore.Refreshed, UserStore.UserTable.Refresh: stored rows are assumed well-formed, each with an integer `id` and a `last_review_ts` that parses. In the source, the debug line at rss_helper.py:120-121 parses every row's timestamp, other users' rows included, before the id test. So one row that is malformed or lacks the field raises partway through the table, after earlier rows may already have been updated and written. The exception is caught for that entry (rss_helper.py:173), so the entry yields no record. The model has no such rows.
- User ids are natural numbers. A JSON document can hold string ids, which never equal the integer ids of the call, so that user's rows are never updated. The model does not represent such ids.
- Dates are abstract integers. `datetime.strptime`, the pytz conversion and `.timestamp()` are library arithmetic, and a date that fails to parse is `published == None`.
- Logging, the rich console, `pprint` and the module-level call have no logic.
- `urlparse` is a library call, so the scheme and host are parameters. A missing hostname printing as "None" is not modelled.
- The profile page is fetched from the module-level profile URL rather than from the argument. That choice is part of fetching, so it is not modelled.
- `int(...)` and `\d` accept all Unicode decimal digits and `int` also accepts underscores. The model accepts ASCII digits only.
- A `book-cover` image without `src`, or an avatar image without `src`, puts Python's `None` into a string field. The model has no such value.
- Profile.ReviewedRecord: the image is the placeholder exactly when there is no cover image, unless the cover's `src` is the placeholder text itself.
- `find_book_title`'s `'Unknown book'` and `find_book_author`'s exception branch answer exceptions nothing in their bodies raises.
- Entries without a description and other missing feed attributes are not modelled.
- The result dictionary is a sequence of (key, record) pairs in insertion order. Keys never repeat, so nothing is overwritten.
