/**
 * `RSSHelper.get_rss_data`: for every configured user id, the fetched feed's
 * entries are scanned in order; every starred entry advances a counter that
 * keys the result, applies the freshness rule to the stored table, and then
 * yields a record unless its score text does not parse. Fetching is an input:
 * each user comes with the feed that was fetched (None when the fetch or the
 * feed's title failed), and each entry with the result of the avatar lookup
 * made while it is handled.
 */
module FeedReader {
  import opened Opt
  import opened PyStr
  import opened Record
  import opened FeedText
  import opened UserStore

  /**
   * One feed entry: its raw description, its publication time (None when the
   * date does not parse) and what the avatar lookup made for it answers
   * (None when the lookup raises).
   */
  datatype Entry = Entry(description: string, published: Option<int>, avatar: Option<string>)
  datatype Feed = Feed(title: string, entries: seq<Entry>)
  /** One item of the result dictionary, in insertion order. */
  datatype Keyed = Keyed(id: nat, review: Review)
  /** The state the loops carry: the counter, the results so far and the stored table. */
  datatype Acc = Acc(counter: nat, reviews: seq<Keyed>, table: seq<UserEntry>)

  /**
   * One entry of one user's feed. `rec` is what the entry's description
   * yields (`ExtractReview`); it is consulted only for a starred entry whose
   * date parsed while the document has a users list.
   */
  function EntryStep(hasUsers: bool, userId: nat, acc: Acc, e: Entry, rec: Option<Review>): Acc {
    if !IsStarred(e.description) then acc
    else
      var id := acc.counter + 1;
      if !hasUsers || e.published.None? then acc.(counter := id)
      else
        var table := Refreshed(acc.table, userId, e.published.value);
        match rec
        case None => Acc(id, acc.reviews, table)
        case Some(r) => Acc(id, acc.reviews + [Keyed(id, r)], table)
  }

  function RunEntries(hasUsers: bool, userId: nat, username: string, acc: Acc, es: seq<Entry>): Acc
    decreases |es|
  {
    if es == [] then acc
    else
      var rec := ExtractReview(userId, username, es[0].avatar, es[0].description);
      RunEntries(hasUsers, userId, username, EntryStep(hasUsers, userId, acc, es[0], rec), es[1..])
  }

  /** One user: nothing when the feed could not be had, else all of its entries. */
  function UserStep(hasUsers: bool, acc: Acc, userId: nat, f: Option<Feed>): Acc {
    match f
    case None => acc
    case Some(feed) => RunEntries(hasUsers, userId, Username(feed.title), acc, feed.entries)
  }

  function RunUsers(hasUsers: bool, acc: Acc, users: seq<nat>, fetched: seq<Option<Feed>>): Acc
    requires |users| == |fetched|
    decreases |users|
  {
    if users == [] then acc
    else RunUsers(hasUsers, UserStep(hasUsers, acc, users[0], fetched[0]), users[1..], fetched[1..])
  }

  function CountStarred(es: seq<Entry>): (n: nat)
    ensures n <= |es|
  {
    if es == [] then 0 else (if IsStarred(es[0].description) then 1 else 0) + CountStarred(es[1..])
  }

  /** The number of starred entries over all feeds that could be had. */
  function StarredTotal(fetched: seq<Option<Feed>>): nat {
    if fetched == [] then 0
    else (if fetched[0].Some? then CountStarred(fetched[0].value.entries) else 0) + StarredTotal(fetched[1..])
  }

  /** How many times one entry makes the table file be rewritten: once per row the freshness rule changes. */
  function EntryWrites(hasUsers: bool, userId: nat, table: seq<UserEntry>, e: Entry): nat {
    if IsStarred(e.description) && hasUsers && e.published.Some? then StaleRows(table, userId, e.published.value)
    else 0
  }

  /** The rewrites over one feed's entries, with the table as `RunEntries` carries it. */
  function RunEntriesWrites(hasUsers: bool, userId: nat, username: string, acc: Acc, es: seq<Entry>): nat
    decreases |es|
  {
    if es == [] then 0
    else
      var rec := ExtractReview(userId, username, es[0].avatar, es[0].description);
      EntryWrites(hasUsers, userId, acc.table, es[0])
        + RunEntriesWrites(hasUsers, userId, username, EntryStep(hasUsers, userId, acc, es[0], rec), es[1..])
  }

  /** The rewrites over all users, with the table as `RunUsers` carries it. */
  function RunUsersWrites(hasUsers: bool, acc: Acc, users: seq<nat>, fetched: seq<Option<Feed>>): nat
    requires |users| == |fetched|
    decreases |users|
  {
    if users == [] then 0
    else
      var w := if fetched[0].Some?
        then RunEntriesWrites(hasUsers, users[0], Username(fetched[0].value.title), acc, fetched[0].value.entries)
        else 0;
      w + RunUsersWrites(hasUsers, UserStep(hasUsers, acc, users[0], fetched[0]), users[1..], fetched[1..])
  }

  /** `t2` is `t1` advanced, with at least one timestamp strictly raised. */
  predicate Raised(t1: seq<UserEntry>, t2: seq<UserEntry>) {
    Advanced(t1, t2) && exists i :: 0 <= i < |t1| && t1[i].lastReviewTs < t2[i].lastReviewTs
  }

  /** Keys strictly increase in insertion order and lie in 1..counter. */
  predicate KeysInOrder(acc: Acc) {
    (forall k :: 0 <= k < |acc.reviews| ==> 1 <= acc.reviews[k].id <= acc.counter)
    && (forall k, l :: 0 <= k < l < |acc.reviews| ==> acc.reviews[k].id < acc.reviews[l].id)
  }

  /** Every stored score is the parse of at most two characters. */
  predicate ScoresInRange(acc: Acc) {
    forall k :: 0 <= k < |acc.reviews| ==> -9 <= acc.reviews[k].review.score <= 99
  }

  /** What a run keeps: keys in order, scores in range, results only appended, the table only advanced. */
  predicate Keeps(before: Acc, after: Acc) {
    && before.counter <= after.counter
    && before.reviews <= after.reviews
    && Advanced(before.table, after.table)
    && (KeysInOrder(before) ==> KeysInOrder(after))
    && (ScoresInRange(before) ==> ScoresInRange(after))
  }

  // ---- One entry ----

  /** A non-starred entry changes nothing: no counter step, no table load, no record. */
  lemma NotStarredChangesNothing(hasUsers: bool, userId: nat, acc: Acc, e: Entry, rec: Option<Review>)
    requires !IsStarred(e.description)
    ensures EntryStep(hasUsers, userId, acc, e, rec) == acc
  {
  }

  /** A starred, dated entry with a record stores it under the next counter value. */
  lemma GoodScoreIsStored(userId: nat, acc: Acc, e: Entry, r: Review)
    requires IsStarred(e.description) && e.published.Some?
    ensures EntryStep(true, userId, acc, e, Some(r)) ==
      Acc(acc.counter + 1, acc.reviews + [Keyed(acc.counter + 1, r)], Refreshed(acc.table, userId, e.published.value))
  {
  }

  /**
   * A starred, dated entry that yields no record (its score text is not an
   * integer) still advances the counter and applies the freshness rule.
   */
  lemma NoRecordStillCounts(userId: nat, acc: Acc, e: Entry)
    requires IsStarred(e.description) && e.published.Some?
    ensures EntryStep(true, userId, acc, e, None) ==
      Acc(acc.counter + 1, acc.reviews, Refreshed(acc.table, userId, e.published.value))
  {
  }

  /** A starred entry whose date does not parse only advances the counter. */
  lemma UndatedOnlyCounts(userId: nat, acc: Acc, e: Entry, rec: Option<Review>)
    requires IsStarred(e.description) && e.published.None?
    ensures EntryStep(true, userId, acc, e, rec) == acc.(counter := acc.counter + 1)
  {
  }

  /** Without a users list in the document, a starred entry only advances the counter. */
  lemma NoUsersListOnlyCounts(userId: nat, acc: Acc, e: Entry, rec: Option<Review>)
    requires IsStarred(e.description)
    ensures EntryStep(false, userId, acc, e, rec) == acc.(counter := acc.counter + 1)
  {
  }

  lemma EntryStepKeeps(hasUsers: bool, userId: nat, acc: Acc, e: Entry, rec: Option<Review>)
    requires rec.Some? ==> -9 <= rec.value.score <= 99
    ensures Keeps(acc, EntryStep(hasUsers, userId, acc, e, rec))
    ensures EntryStep(hasUsers, userId, acc, e, rec).counter == acc.counter + (if IsStarred(e.description) then 1 else 0)
  {
    if IsStarred(e.description) && hasUsers && e.published.Some? {
      RefreshedAdvances(acc.table, userId, e.published.value);
      if rec.Some? {
        AppendKeeps(acc, rec.value, Refreshed(acc.table, userId, e.published.value));
      }
    }
  }

  /** Storing a record under the next counter value keeps the keys in order. */
  lemma AppendKeeps(acc: Acc, r: Review, table: seq<UserEntry>)
    requires Advanced(acc.table, table)
    requires -9 <= r.score <= 99
    ensures Keeps(acc, Acc(acc.counter + 1, acc.reviews + [Keyed(acc.counter + 1, r)], table))
  {
  }

  // ---- Whole runs ----

  lemma {:induction false} RunEntriesKeeps(hasUsers: bool, userId: nat, username: string, acc: Acc, es: seq<Entry>)
    ensures Keeps(acc, RunEntries(hasUsers, userId, username, acc, es))
    ensures RunEntries(hasUsers, userId, username, acc, es).counter == acc.counter + CountStarred(es)
    decreases |es|
  {
    if es != [] {
      var rec := ExtractReview(userId, username, es[0].avatar, es[0].description);
      if rec.Some? {
        ScoreRange(userId, username, es[0].avatar, es[0].description);
      }
      var mid := EntryStep(hasUsers, userId, acc, es[0], rec);
      EntryStepKeeps(hasUsers, userId, acc, es[0], rec);
      RunEntriesKeeps(hasUsers, userId, username, mid, es[1..]);
      AdvancedTransitive(acc.table, mid.table, RunEntries(hasUsers, userId, username, mid, es[1..]).table);
    }
  }

  /** A user whose feed could not be had changes nothing. */
  lemma FailedFeedChangesNothing(hasUsers: bool, acc: Acc, userId: nat, f: Option<Feed>)
    requires f.None?
    ensures UserStep(hasUsers, acc, userId, f) == acc
  {
  }

  lemma {:induction false} RunUsersKeeps(hasUsers: bool, acc: Acc, users: seq<nat>, fetched: seq<Option<Feed>>)
    requires |users| == |fetched|
    ensures Keeps(acc, RunUsers(hasUsers, acc, users, fetched))
    ensures RunUsers(hasUsers, acc, users, fetched).counter == acc.counter + StarredTotal(fetched)
    decreases |users|
  {
    if users != [] {
      var mid := UserStep(hasUsers, acc, users[0], fetched[0]);
      if fetched[0].Some? {
        var feed := fetched[0].value;
        RunEntriesKeeps(hasUsers, users[0], Username(feed.title), acc, feed.entries);
      }
      RunUsersKeeps(hasUsers, mid, users[1..], fetched[1..]);
      AdvancedTransitive(acc.table, mid.table, RunUsers(hasUsers, mid, users[1..], fetched[1..]).table);
    }
  }

  /**
   * The whole result: keys strictly increase and lie in 1..(number of starred
   * entries), scores lie in [-9, 99], and the table keeps its rows with
   * timestamps that never decrease.
   */
  lemma GetRssDataProperties(hasUsers: bool, table: seq<UserEntry>, users: seq<nat>, fetched: seq<Option<Feed>>)
    requires |users| == |fetched|
    ensures var out := RunUsers(hasUsers, Acc(0, [], table), users, fetched);
      && out.counter == StarredTotal(fetched)
      && KeysInOrder(out)
      && ScoresInRange(out)
      && Advanced(table, out.table)
  {
    RunUsersKeeps(hasUsers, Acc(0, [], table), users, fetched);
  }

  /** Running the entries from `j` on is the step for entry `j`, then the entries after it. */
  lemma RunEntriesFirst(hasUsers: bool, userId: nat, username: string, acc: Acc, es: seq<Entry>, j: nat)
    requires j < |es|
    ensures RunEntries(hasUsers, userId, username, acc, es[j..]) ==
      RunEntries(hasUsers, userId, username,
                 EntryStep(hasUsers, userId, acc, es[j], ExtractReview(userId, username, es[j].avatar, es[j].description)),
                 es[j + 1..])
    ensures RunEntriesWrites(hasUsers, userId, username, acc, es[j..]) ==
      EntryWrites(hasUsers, userId, acc.table, es[j]) +
      RunEntriesWrites(hasUsers, userId, username,
                       EntryStep(hasUsers, userId, acc, es[j], ExtractReview(userId, username, es[j].avatar, es[j].description)),
                       es[j + 1..])
  {
    assert es[j..][0] == es[j];
    assert es[j..][1..] == es[j + 1..];
  }

  // ---- Rewrites of the table file ----

  /** One entry rewrites the file exactly when it changes the table. */
  lemma EntryWritesIffChanged(hasUsers: bool, userId: nat, acc: Acc, e: Entry, rec: Option<Review>)
    ensures EntryWrites(hasUsers, userId, acc.table, e) > 0 <==> EntryStep(hasUsers, userId, acc, e, rec).table != acc.table
    ensures EntryWrites(hasUsers, userId, acc.table, e) > 0 ==> Raised(acc.table, EntryStep(hasUsers, userId, acc, e, rec).table)
  {
    if IsStarred(e.description) && hasUsers && e.published.Some? {
      var c := e.published.value;
      StaleRowsIffNew(acc.table, userId, c);
      RefreshedChangesIffNew(acc.table, userId, c);
      if StaleRows(acc.table, userId, c) > 0 {
        var i :| 0 <= i < |acc.table| && acc.table[i].id == userId && acc.table[i].lastReviewTs < c;
        RefreshedAt(acc.table, userId, c);
        RefreshedAdvances(acc.table, userId, c);
        assert Refreshed(acc.table, userId, c)[i].lastReviewTs == c;
      }
    }
  }

  /** A strict raise followed by an advance, or an advance followed by a strict raise, is a strict raise. */
  lemma RaisedThen(t1: seq<UserEntry>, t2: seq<UserEntry>, t3: seq<UserEntry>)
    requires (Raised(t1, t2) && Advanced(t2, t3)) || (Advanced(t1, t2) && Raised(t2, t3))
    ensures Raised(t1, t3)
  {
    AdvancedTransitive(t1, t2, t3);
    if Raised(t1, t2) && Advanced(t2, t3) {
      var i :| 0 <= i < |t1| && t1[i].lastReviewTs < t2[i].lastReviewTs;
      assert t1[i].lastReviewTs < t3[i].lastReviewTs;
    } else {
      var i :| 0 <= i < |t2| && t2[i].lastReviewTs < t3[i].lastReviewTs;
      assert t1[i].lastReviewTs < t3[i].lastReviewTs;
    }
  }

  /** Over one feed: no rewrite leaves the table as it was, and any rewrite strictly raises it. */
  lemma {:induction false} RunEntriesWritesIffChanged(hasUsers: bool, userId: nat, username: string, acc: Acc, es: seq<Entry>)
    ensures RunEntriesWrites(hasUsers, userId, username, acc, es) == 0 ==>
      RunEntries(hasUsers, userId, username, acc, es).table == acc.table
    ensures RunEntriesWrites(hasUsers, userId, username, acc, es) > 0 ==>
      Raised(acc.table, RunEntries(hasUsers, userId, username, acc, es).table)
    decreases |es|
  {
    if es != [] {
      var rec := ExtractReview(userId, username, es[0].avatar, es[0].description);
      var mid := EntryStep(hasUsers, userId, acc, es[0], rec);
      var out := RunEntries(hasUsers, userId, username, mid, es[1..]);
      EntryWritesIffChanged(hasUsers, userId, acc, es[0], rec);
      RunEntriesWritesIffChanged(hasUsers, userId, username, mid, es[1..]);
      RunEntriesKeeps(hasUsers, userId, username, mid, es[1..]);
      if EntryWrites(hasUsers, userId, acc.table, es[0]) > 0 {
        RaisedThen(acc.table, mid.table, out.table);
      }
    }
  }

  /** Over all users: no rewrite leaves the table as it was, and any rewrite strictly raises it. */
  lemma {:induction false} RunUsersWritesIffChanged(hasUsers: bool, acc: Acc, users: seq<nat>, fetched: seq<Option<Feed>>)
    requires |users| == |fetched|
    ensures RunUsersWrites(hasUsers, acc, users, fetched) == 0 ==> RunUsers(hasUsers, acc, users, fetched).table == acc.table
    ensures RunUsersWrites(hasUsers, acc, users, fetched) > 0 ==> Raised(acc.table, RunUsers(hasUsers, acc, users, fetched).table)
    decreases |users|
  {
    if users != [] {
      var mid := UserStep(hasUsers, acc, users[0], fetched[0]);
      var out := RunUsers(hasUsers, mid, users[1..], fetched[1..]);
      var w := 0;
      if fetched[0].Some? {
        var feed := fetched[0].value;
        w := RunEntriesWrites(hasUsers, users[0], Username(feed.title), acc, feed.entries);
        RunEntriesWritesIffChanged(hasUsers, users[0], Username(feed.title), acc, feed.entries);
      }
      RunUsersWritesIffChanged(hasUsers, mid, users[1..], fetched[1..]);
      RunUsersKeeps(hasUsers, mid, users[1..], fetched[1..]);
      if w > 0 {
        RaisedThen(acc.table, mid.table, out.table);
      }
    }
  }

  /**
   * The file is rewritten at least once exactly when the run changes the
   * table, and a run that changes it leaves some timestamp strictly higher.
   */
  lemma GetRssDataWrites(hasUsers: bool, table: seq<UserEntry>, users: seq<nat>, fetched: seq<Option<Feed>>)
    requires |users| == |fetched|
    ensures var out := RunUsers(hasUsers, Acc(0, [], table), users, fetched);
      && (RunUsersWrites(hasUsers, Acc(0, [], table), users, fetched) == 0 <==> out.table == table)
      && (out.table != table ==> Raised(table, out.table))
  {
    var out := RunUsers(hasUsers, Acc(0, [], table), users, fetched);
    RunUsersWritesIffChanged(hasUsers, Acc(0, [], table), users, fetched);
    if RunUsersWrites(hasUsers, Acc(0, [], table), users, fetched) > 0 {
      var i :| 0 <= i < |table| && table[i].lastReviewTs < out.table[i].lastReviewTs;
      assert out.table[i] != table[i];
    }
  }

  /** Without a users list in the document, one feed never rewrites the file. */
  lemma {:induction false} NoUsersListEntriesNoWrites(userId: nat, username: string, acc: Acc, es: seq<Entry>)
    ensures RunEntriesWrites(false, userId, username, acc, es) == 0
    decreases |es|
  {
    if es != [] {
      var rec := ExtractReview(userId, username, es[0].avatar, es[0].description);
      NoUsersListEntriesNoWrites(userId, username, EntryStep(false, userId, acc, es[0], rec), es[1..]);
    }
  }

  /** Without a users list in the document, the file is never rewritten. */
  lemma {:induction false} NoUsersListNoWrites(acc: Acc, users: seq<nat>, fetched: seq<Option<Feed>>)
    requires |users| == |fetched|
    ensures RunUsersWrites(false, acc, users, fetched) == 0
    decreases |users|
  {
    if users != [] {
      if fetched[0].Some? {
        NoUsersListEntriesNoWrites(users[0], Username(fetched[0].value.title), acc, fetched[0].value.entries);
      }
      NoUsersListNoWrites(UserStep(false, acc, users[0], fetched[0]), users[1..], fetched[1..]);
    }
  }

  /** The loops of `get_rss_data`, with the table held by `store` and updated in place. */
  method GetRssData(store: UserTable, users: seq<nat>, fetched: seq<Option<Feed>>) returns (reviews: seq<Keyed>)
    requires |users| == |fetched|
    modifies store
    ensures var out := RunUsers(store.hasUsers, Acc(0, [], old(store.entries)), users, fetched);
      reviews == out.reviews && store.entries == out.table
    ensures store.writes == old(store.writes) + RunUsersWrites(store.hasUsers, Acc(0, [], old(store.entries)), users, fetched)
  {
    ghost var goal := RunUsers(store.hasUsers, Acc(0, [], store.entries), users, fetched);
    ghost var total := store.writes + RunUsersWrites(store.hasUsers, Acc(0, [], store.entries), users, fetched);
    var id: nat := 0;
    reviews := [];
    var i := 0;
    while i < |users|
      invariant 0 <= i <= |users|
      invariant goal == RunUsers(store.hasUsers, Acc(id, reviews, store.entries), users[i..], fetched[i..])
      invariant total == store.writes + RunUsersWrites(store.hasUsers, Acc(id, reviews, store.entries), users[i..], fetched[i..])
    {
      ghost var here := Acc(id, reviews, store.entries);
      var f := fetched[i];
      if f.Some? {
        id, reviews := ReadFeed(store, users[i], Username(f.value.title), f.value.entries, id, reviews);
      }
      assert Acc(id, reviews, store.entries) == UserStep(store.hasUsers, here, users[i], f);
      assert users[i..][1..] == users[i + 1..];
      assert fetched[i..][1..] == fetched[i + 1..];
      i := i + 1;
    }
  }

  /** The inner loop of `get_rss_data`: the entries of one user's feed, in order. */
  method ReadFeed(store: UserTable, userId: nat, username: string, entries: seq<Entry>,
                  id0: nat, reviews0: seq<Keyed>) returns (id: nat, reviews: seq<Keyed>)
    modifies store
    ensures Acc(id, reviews, store.entries) ==
      RunEntries(store.hasUsers, userId, username, Acc(id0, reviews0, old(store.entries)), entries)
    ensures store.writes ==
      old(store.writes) + RunEntriesWrites(store.hasUsers, userId, username, Acc(id0, reviews0, old(store.entries)), entries)
  {
    ghost var goal := RunEntries(store.hasUsers, userId, username, Acc(id0, reviews0, store.entries), entries);
    ghost var total := store.writes + RunEntriesWrites(store.hasUsers, userId, username, Acc(id0, reviews0, store.entries), entries);
    id, reviews := id0, reviews0;
    var j := 0;
    while j < |entries|
      invariant 0 <= j <= |entries|
      invariant goal == RunEntries(store.hasUsers, userId, username, Acc(id, reviews, store.entries), entries[j..])
      invariant total == store.writes + RunEntriesWrites(store.hasUsers, userId, username, Acc(id, reviews, store.entries), entries[j..])
    {
      ghost var acc := Acc(id, reviews, store.entries);
      // The source cuts the fields only for a starred entry, after the freshness
      // rule. The cut is pure and ReadEntry stores it only in that case, so
      // computing it here changes nothing and keeps ReadEntry's proof small.
      var rec := ExtractReview(userId, username, entries[j].avatar, entries[j].description);
      ghost var mid := EntryStep(store.hasUsers, userId, acc, entries[j], rec);
      ghost var w := EntryWrites(store.hasUsers, userId, acc.table, entries[j]);
      RunEntriesFirst(store.hasUsers, userId, username, acc, entries, j);
      assert goal == RunEntries(store.hasUsers, userId, username, mid, entries[j + 1..]);
      assert total == store.writes + w + RunEntriesWrites(store.hasUsers, userId, username, mid, entries[j + 1..]);
      id, reviews := ReadEntry(store, userId, entries[j], id, reviews, rec);
      assert Acc(id, reviews, store.entries) == mid;
      j := j + 1;
    }
    assert entries[j..] == [];
  }

  /**
   * The body of the inner loop: one entry. `rec` is what the entry's
   * description yields; it is stored only in the starred, dated case.
   */
  method ReadEntry(store: UserTable, userId: nat, e: Entry, id0: nat, reviews0: seq<Keyed>,
                   rec: Option<Review>) returns (id: nat, reviews: seq<Keyed>)
    modifies store
    ensures Acc(id, reviews, store.entries) == EntryStep(store.hasUsers, userId, Acc(id0, reviews0, old(store.entries)), e, rec)
    ensures store.writes == old(store.writes) + EntryWrites(store.hasUsers, userId, old(store.entries), e)
  {
    ghost var before := Acc(id0, reviews0, store.entries);
    id, reviews := id0, reviews0;
    if IsStarred(e.description) {
      id := id + 1;
      if store.hasUsers && e.published.Some? {
        reviews := ReadStarred(store, userId, e, id, reviews0, rec);
        if rec.Some? {
          GoodScoreIsStored(userId, before, e, rec.value);
        } else {
          NoRecordStillCounts(userId, before, e);
        }
      } else if store.hasUsers {
        UndatedOnlyCounts(userId, before, e, rec);
      } else {
        NoUsersListOnlyCounts(userId, before, e, rec);
      }
    } else {
      NotStarredChangesNothing(store.hasUsers, userId, before, e, rec);
    }
  }

  /**
   * A starred, dated entry while the document has a users list: the freshness
   * rule, then the entry's record `r`, if any, stored under `id`.
   */
  method ReadStarred(store: UserTable, userId: nat, e: Entry, id: nat, reviews0: seq<Keyed>,
                     r: Option<Review>) returns (reviews: seq<Keyed>)
    requires e.published.Some?
    modifies store
    ensures store.entries == Refreshed(old(store.entries), userId, e.published.value)
    ensures store.writes == old(store.writes) + StaleRows(old(store.entries), userId, e.published.value)
    ensures reviews == if r.Some? then reviews0 + [Keyed(id, r.value)] else reviews0
  {
    store.Refresh(userId, e.published.value);
    if r.Some? {
      reviews := reviews0 + [Keyed(id, r.value)];
    } else {
      reviews := reviews0;
    }
  }
}
