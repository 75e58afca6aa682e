/** The session history table that the session-limiting policy reads and writes,
    and the adapter queries it issues against that table. */
module SessionHistory {

  datatype Option<T> = None | Some(value: T)

  /** Identity of the account (the `owner` of a session row). */
  type AccountId = nat

  /** One persisted session; `lastAccessedAt` is a timestamp in whole seconds, or nil. */
  datatype SessionRecord = SessionRecord(owner: AccountId, active: bool, lastAccessedAt: Option<int>)

  /** Conditions of an adapter query; a key that is absent does not filter. */
  datatype Conditions = Conditions(owner: Option<AccountId>, active: Option<bool>)

  predicate Matches(c: Conditions, r: SessionRecord) {
    (c.owner.Some? ==> r.owner == c.owner.value) && (c.active.Some? ==> r.active == c.active.value)
  }

  /** The unordered answer of `find_all(c)`: the positions of the matching rows, in table order. */
  function Matching(rows: seq<SessionRecord>, c: Conditions): (ids: seq<nat>)
    ensures forall k :: 0 <= k < |ids| ==> ids[k] < |rows| && Matches(c, rows[ids[k]])
    ensures forall i :: 0 <= i < |rows| && Matches(c, rows[i]) ==> i in ids
    ensures forall k, l :: 0 <= k < l < |ids| ==> ids[k] < ids[l]
  {
    if rows == [] then []
    else
      var init := Matching(rows[..|rows| - 1], c);
      if Matches(c, rows[|rows| - 1]) then init + [|rows| - 1] else init
  }

  /** Every position a listing names is a row of the table. */
  predicate InRange(rows: seq<SessionRecord>, listing: seq<nat>) {
    forall k :: 0 <= k < |listing| ==> listing[k] < |rows|
  }

  /** `listing` is an answer the store may give to `find_all(c)` ordered by
      `last_accessed_at` ascending: the same rows as the unordered answer, and every two
      known timestamps in ascending order. Where rows without a timestamp fall, and how
      ties are broken, is the store's choice and left open. */
  predicate AscendingAnswer(rows: seq<SessionRecord>, c: Conditions, listing: seq<nat>): (a: bool)
    ensures a ==> |listing| == |Matching(rows, c)|
  {
    assert |multiset(listing)| == |listing| && |multiset(Matching(rows, c))| == |Matching(rows, c)|;
    InRange(rows, listing) &&
    multiset(listing) == multiset(Matching(rows, c)) &&
    forall k, l :: 0 <= k < l < |listing| ==>
      var a, b := rows[listing[k]].lastAccessedAt, rows[listing[l]].lastAccessedAt;
      a.Some? && b.Some? ==> a.value <= b.value
  }

  /** The table after row `i` has been saved with `active = false`. */
  function Deactivated(rows: seq<SessionRecord>, i: nat): seq<SessionRecord>
    requires i < |rows|
  {
    rows[i := rows[i].(active := false)]
  }

  lemma {:induction false} StrictlyIncreasingCountsOnce(ids: seq<nat>, x: nat)
    requires forall k, l :: 0 <= k < l < |ids| ==> ids[k] < ids[l]
    ensures multiset(ids)[x] <= 1
  {
    if ids != [] {
      StrictlyIncreasingCountsOnce(ids[1..], x);
      assert ids == [ids[0]] + ids[1..];
      if ids[0] == x {
        assert x !in ids[1..];
      }
    }
  }

  lemma RepeatCountsTwice(s: seq<nat>, k: nat, l: nat)
    requires k < l < |s| && s[k] == s[l]
    ensures multiset(s)[s[k]] >= 2
  {
    assert s == s[..k] + [s[k]] + s[k + 1..l] + [s[l]] + s[l + 1..];
  }

  /** An ordered answer names every matching row exactly once, and nothing else. */
  lemma AnswerIsExact(rows: seq<SessionRecord>, c: Conditions, listing: seq<nat>)
    requires AscendingAnswer(rows, c, listing)
    ensures |listing| == |Matching(rows, c)|
    ensures forall k :: 0 <= k < |listing| ==> Matches(c, rows[listing[k]])
    ensures forall i :: 0 <= i < |rows| && Matches(c, rows[i]) ==> i in listing
    ensures forall k, l :: 0 <= k < l < |listing| ==> listing[k] != listing[l]
  {
    var ids := Matching(rows, c);
    assert |listing| == |multiset(listing)| == |multiset(ids)| == |ids|;
    forall k | 0 <= k < |listing|
      ensures Matches(c, rows[listing[k]])
    {
      assert listing[k] in multiset(listing);
      assert listing[k] in ids;
    }
    forall i | 0 <= i < |rows| && Matches(c, rows[i])
      ensures i in listing
    {
      assert i in multiset(ids);
    }
    forall k, l | 0 <= k < l < |listing|
      ensures listing[k] != listing[l]
    {
      if listing[k] == listing[l] {
        RepeatCountsTwice(listing, k, l);
        StrictlyIncreasingCountsOnce(ids, listing[k]);
        assert false;
      }
    }
  }

  /** Saving one matching row as inactive takes exactly that row out of the
      answer to a query for active rows. */
  lemma {:induction false} DeactivatingLowersCount(rows: seq<SessionRecord>, c: Conditions, i: nat)
    requires c.active == Some(true)
    requires i < |rows| && Matches(c, rows[i])
    ensures |Matching(Deactivated(rows, i), c)| == |Matching(rows, c)| - 1
  {
    var n := |rows|;
    var after := Deactivated(rows, i);
    if i == n - 1 {
      assert after[..n - 1] == rows[..n - 1];
    } else {
      assert after[..n - 1] == Deactivated(rows[..n - 1], i);
      DeactivatingLowersCount(rows[..n - 1], c, i);
    }
  }

  /** The session history table. The policy writes rows one at a time with
      `save(validate: false)`; `accepted` is whether the store takes the write. */
  class SessionTable {
    var rows: seq<SessionRecord>

    constructor (rows: seq<SessionRecord>)
      ensures this.rows == rows
    {
      this.rows := rows;
    }

    /** `find_all(c)` without an order: a scan of the table. */
    method FindAll(c: Conditions) returns (ids: seq<nat>)
      ensures ids == Matching(rows, c)
    {
      ids := [];
      var i := 0;
      while i < |rows|
        invariant 0 <= i <= |rows|
        invariant ids == Matching(rows[..i], c)
      {
        assert rows[..i + 1][..i] == rows[..i];
        if Matches(c, rows[i]) {
          ids := ids + [i];
        }
        i := i + 1;
      }
      assert rows[..|rows|] == rows;
    }

    /** `session.active = false` followed by `session.save(validate: false)`. */
    method Deactivate(i: nat, accepted: bool) returns (saved: bool)
      requires i < |rows|
      modifies this
      ensures saved == accepted
      ensures rows == if accepted then Deactivated(old(rows), i) else old(rows)
    {
      saved := accepted;
      if accepted {
        rows := rows[i := rows[i].(active := false)];
      }
    }
  }
}
