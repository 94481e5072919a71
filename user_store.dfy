/**
 * The per-user "last review announced" table and the freshness rule that
 * `get_rss_data` applies to it for every starred entry: each row of the
 * entry's user whose stored timestamp is strictly older than the entry's
 * publication time is raised to it, and the file is rewritten after each
 * such change. Timestamps are abstract integers (epoch seconds).
 */
module UserStore {
  /** One row of the persisted table. */
  datatype UserEntry = UserEntry(id: nat, lastReviewTs: int)

  /** The rule for one row. */
  function RefreshEntry(e: UserEntry, userId: nat, candidate: int): UserEntry {
    if e.id == userId && e.lastReviewTs < candidate then e.(lastReviewTs := candidate) else e
  }

  /** The table after the rule has visited every row in order. */
  function Refreshed(t: seq<UserEntry>, userId: nat, candidate: int): (r: seq<UserEntry>)
    ensures |r| == |t|
    decreases |t|
  {
    if t == [] then [] else [RefreshEntry(t[0], userId, candidate)] + Refreshed(t[1..], userId, candidate)
  }

  /** The rule classifies the candidate as new: some row of this user is strictly older. */
  predicate IsNew(t: seq<UserEntry>, userId: nat, candidate: int) {
    exists i :: 0 <= i < |t| && t[i].id == userId && t[i].lastReviewTs < candidate
  }

  /** The number of rows the rule changes, which is the number of times the file is rewritten. */
  function StaleRows(t: seq<UserEntry>, userId: nat, candidate: int): (n: nat)
    ensures n <= |t|
    decreases |t|
  {
    if t == [] then 0
    else (if t[0].id == userId && t[0].lastReviewTs < candidate then 1 else 0) + StaleRows(t[1..], userId, candidate)
  }

  /** `t2` is `t1` with the same rows, each timestamp possibly raised. */
  predicate Advanced(t1: seq<UserEntry>, t2: seq<UserEntry>) {
    |t1| == |t2| && forall i :: 0 <= i < |t1| ==> t2[i].id == t1[i].id && t1[i].lastReviewTs <= t2[i].lastReviewTs
  }

  /**
   * Exactly the rows of this user with an older timestamp are changed, each to
   * the candidate; every other row and the number of rows stay as they were.
   */
  lemma {:induction false} RefreshedAt(t: seq<UserEntry>, userId: nat, candidate: int)
    ensures |Refreshed(t, userId, candidate)| == |t|
    ensures forall i :: 0 <= i < |t| ==>
      Refreshed(t, userId, candidate)[i] ==
        if t[i].id == userId && t[i].lastReviewTs < candidate then UserEntry(t[i].id, candidate) else t[i]
    decreases |t|
  {
    if t != [] {
      RefreshedAt(t[1..], userId, candidate);
      var r := Refreshed(t, userId, candidate);
      forall i | 0 <= i < |t|
        ensures r[i] == if t[i].id == userId && t[i].lastReviewTs < candidate then UserEntry(t[i].id, candidate) else t[i]
      {
        if i > 0 { assert r[i] == Refreshed(t[1..], userId, candidate)[i - 1]; }
      }
    }
  }

  /** Visiting one more row extends the refreshed table by that row, refreshed. */
  lemma {:induction false} RefreshedAppend(t: seq<UserEntry>, e: UserEntry, userId: nat, candidate: int)
    ensures Refreshed(t + [e], userId, candidate) == Refreshed(t, userId, candidate) + [RefreshEntry(e, userId, candidate)]
    decreases |t|
  {
    if t == [] {
      assert [e][1..] == [];
    } else {
      assert (t + [e])[1..] == t[1..] + [e];
      RefreshedAppend(t[1..], e, userId, candidate);
    }
  }

  /** Stored timestamps never decrease and no row changes identity. */
  lemma RefreshedAdvances(t: seq<UserEntry>, userId: nat, candidate: int)
    ensures Advanced(t, Refreshed(t, userId, candidate))
  {
    RefreshedAt(t, userId, candidate);
  }

  /** A user with no row leaves the table unchanged. */
  lemma RefreshedWithoutUser(t: seq<UserEntry>, userId: nat, candidate: int)
    requires forall i :: 0 <= i < |t| ==> t[i].id != userId
    ensures Refreshed(t, userId, candidate) == t
  {
    RefreshedAt(t, userId, candidate);
  }

  /** The table changes exactly when the candidate is classified as new. */
  lemma RefreshedChangesIffNew(t: seq<UserEntry>, userId: nat, candidate: int)
    ensures Refreshed(t, userId, candidate) != t <==> IsNew(t, userId, candidate)
  {
    RefreshedAt(t, userId, candidate);
    var r := Refreshed(t, userId, candidate);
    if IsNew(t, userId, candidate) {
      var i :| 0 <= i < |t| && t[i].id == userId && t[i].lastReviewTs < candidate;
      assert r[i] != t[i];
    }
  }

  /** After the rule, the same candidate is an old review for that user. */
  lemma SecondRefreshIsOld(t: seq<UserEntry>, userId: nat, candidate: int)
    ensures !IsNew(Refreshed(t, userId, candidate), userId, candidate)
  {
    RefreshedAt(t, userId, candidate);
  }

  /** Applying the rule twice with the same candidate is applying it once. */
  lemma RefreshedIdempotent(t: seq<UserEntry>, userId: nat, candidate: int)
    ensures Refreshed(Refreshed(t, userId, candidate), userId, candidate) == Refreshed(t, userId, candidate)
  {
    SecondRefreshIsOld(t, userId, candidate);
    RefreshedChangesIffNew(Refreshed(t, userId, candidate), userId, candidate);
  }

  /** The rule changes a row at most once per stale row, and rewrites happen exactly when it is new. */
  lemma {:induction false} StaleRowsIffNew(t: seq<UserEntry>, userId: nat, candidate: int)
    ensures StaleRows(t, userId, candidate) > 0 <==> IsNew(t, userId, candidate)
    decreases |t|
  {
    if t != [] {
      StaleRowsIffNew(t[1..], userId, candidate);
      if IsNew(t[1..], userId, candidate) {
        var i :| 0 <= i < |t[1..]| && t[1..][i].id == userId && t[1..][i].lastReviewTs < candidate;
        assert t[i + 1] == t[1..][i];
      }
      if IsNew(t, userId, candidate) && !(t[0].id == userId && t[0].lastReviewTs < candidate) {
        var i :| 0 <= i < |t| && t[i].id == userId && t[i].lastReviewTs < candidate;
        assert t[1..][i - 1] == t[i];
      }
    }
  }

  lemma AdvancedTransitive(t1: seq<UserEntry>, t2: seq<UserEntry>, t3: seq<UserEntry>)
    requires Advanced(t1, t2) && Advanced(t2, t3)
    ensures Advanced(t1, t3)
  {
  }

  /**
   * The persisted document. `hasUsers` is false when it holds no "users"
   * list (an empty or undecodable file loads as `{}`); the table is then
   * never read nor written.
   */
  class UserTable {
    const hasUsers: bool
    var entries: seq<UserEntry>
    /** How many times the document has been rewritten. */
    var writes: nat

    constructor (hasUsers: bool, entries: seq<UserEntry>)
      ensures this.hasUsers == hasUsers && this.entries == entries && writes == 0
    {
      this.hasUsers := hasUsers;
      this.entries := entries;
      writes := 0;
    }

    /** The freshness rule over the loaded table, in place, rewriting the document after each change. */
    method Refresh(userId: nat, candidate: int)
      modifies this
      ensures entries == Refreshed(old(entries), userId, candidate)
      ensures writes == old(writes) + StaleRows(old(entries), userId, candidate)
    {
      ghost var t0 := entries;
      var i := 0;
      while i < |entries|
        invariant 0 <= i <= |entries| == |t0|
        invariant entries == Refreshed(t0[..i], userId, candidate) + t0[i..]
        invariant writes == old(writes) + StaleRows(t0[..i], userId, candidate)
      {
        RefreshedAppend(t0[..i], t0[i], userId, candidate);
        StaleRowsAppend(t0[..i], t0[i], userId, candidate);
        assert t0[..i + 1] == t0[..i] + [t0[i]];
        ghost var done := Refreshed(t0[..i], userId, candidate);
        assert entries == done + [t0[i]] + t0[i + 1..];
        if entries[i].id == userId && entries[i].lastReviewTs < candidate {
          Splice(done, t0[i], t0[i + 1..], RefreshEntry(t0[i], userId, candidate));
          entries := entries[i := entries[i].(lastReviewTs := candidate)];
          writes := writes + 1;
        }
        i := i + 1;
      }
      assert t0[..i] == t0;
    }
  }

  /** Overwriting the element after `a` in `a + [x] + b`. */
  lemma Splice(a: seq<UserEntry>, x: UserEntry, b: seq<UserEntry>, y: UserEntry)
    ensures (a + [x] + b)[|a| := y] == a + [y] + b
  {
  }

  lemma {:induction false} StaleRowsAppend(t: seq<UserEntry>, e: UserEntry, userId: nat, candidate: int)
    ensures StaleRows(t + [e], userId, candidate) ==
      StaleRows(t, userId, candidate) + (if e.id == userId && e.lastReviewTs < candidate then 1 else 0)
    decreases |t|
  {
    if t == [] {
      assert [e][1..] == [];
    } else {
      assert (t + [e])[1..] == t[1..] + [e];
      StaleRowsAppend(t[1..], e, userId, candidate);
    }
  }
}
