/** What the admission policy guarantees, stated over `Admit`, the function that
    `Account.AllowLimitableAuthentication` is proved to compute. */
module AdmissionProperties {
  import opened SessionHistory
  import opened SessionLimitable

  /** Under the limit, the login is admitted and no session changes. */
  lemma UnderLimitAdmitsUnchanged(rows: seq<SessionRecord>, owner: AccountId, s: Settings,
                                  listing: seq<nat>, now: int, refused: set<nat>)
    requires s.maxActiveSessions >= 1
    requires AscendingAnswer(rows, ActiveOwnedBy(owner), listing)
    requires ActiveCount(rows, owner) < s.maxActiveSessions
    ensures Admit(rows, owner, s, listing, now, refused) == Decision(true, rows)
  {
  }

  /** At or over the limit without `limit_sessions`, the first session of the ascending
      answer is evicted: it is an active session of the account, no known last access
      is earlier than its own, and when its save goes through the login is admitted,
      that one row turns inactive and the active count drops by exactly one. */
  lemma EvictsLeastRecentlyAccessed(rows: seq<SessionRecord>, owner: AccountId, s: Settings,
                                    listing: seq<nat>, now: int, refused: set<nat>)
    requires s.maxActiveSessions >= 1
    requires AscendingAnswer(rows, ActiveOwnedBy(owner), listing)
    requires ActiveCount(rows, owner) >= s.maxActiveSessions && !s.limitSessions
    ensures |listing| > 0
    ensures var oldest, d := listing[0], Admit(rows, owner, s, listing, now, refused);
      rows[oldest].owner == owner && rows[oldest].active &&
      (rows[oldest].lastAccessedAt.Some? ==>
        forall j :: 0 <= j < |rows| && rows[j].owner == owner && rows[j].active && rows[j].lastAccessedAt.Some? ==>
          rows[oldest].lastAccessedAt.value <= rows[j].lastAccessedAt.value) &&
      d.allowed == (oldest !in refused) &&
      d.rows == (if d.allowed then Deactivated(rows, oldest) else rows) &&
      (d.allowed ==> ActiveCount(d.rows, owner) == ActiveCount(rows, owner) - 1)
  {
    var c := ActiveOwnedBy(owner);
    AnswerIsExact(rows, c, listing);
    var oldest := listing[0];
    forall j | 0 <= j < |rows| && rows[j].owner == owner && rows[j].active && rows[j].lastAccessedAt.Some?
      ensures rows[oldest].lastAccessedAt.Some? ==> rows[oldest].lastAccessedAt.value <= rows[j].lastAccessedAt.value
    {
      assert Matches(c, rows[j]);
      var l :| 0 <= l < |listing| && listing[l] == j;
    }
    DeactivatingLowersCount(rows, c, oldest);
  }

  /** At or over the limit with `limit_sessions`, when some active session of the account
      has expired and its save goes through, the sweep stops at the first such session
      in ascending order: it is deactivated and the login is admitted; every other row,
      later expired ones included, is left as it was. */
  lemma SweepDeactivatesFirstExpired(rows: seq<SessionRecord>, owner: AccountId, s: Settings,
                                     listing: seq<nat>, now: int, refused: set<nat>, e: nat)
    requires s.maxActiveSessions >= 1
    requires AscendingAnswer(rows, ActiveOwnedBy(owner), listing)
    requires ActiveCount(rows, owner) >= s.maxActiveSessions && s.limitSessions
    requires e < |listing| && SweepSaves(rows, listing[e], s.timeoutIn, now, refused)
    ensures var pos, d := FirstTimedOut(rows, listing, 0, s.timeoutIn, now, refused),
                          Admit(rows, owner, s, listing, now, refused);
      pos.Some? && pos.value <= e && Expired(rows[listing[pos.value]], s.timeoutIn, now) &&
      d.allowed && |d.rows| == |rows| && !d.rows[listing[pos.value]].active &&
      forall i :: 0 <= i < |rows| && i != listing[pos.value] ==> d.rows[i] == rows[i]
  {
  }

  /** With `limit_sessions` and more than one session whose sweep would be saved, only the
      first is deactivated: `any?` stops there, so every later one stays active. */
  lemma SweepStopsAtFirst(rows: seq<SessionRecord>, owner: AccountId, s: Settings,
                          listing: seq<nat>, now: int, refused: set<nat>, k: nat, l: nat)
    requires s.maxActiveSessions >= 1
    requires AscendingAnswer(rows, ActiveOwnedBy(owner), listing)
    requires ActiveCount(rows, owner) >= s.maxActiveSessions && s.limitSessions
    requires k < l < |listing|
    requires SweepSaves(rows, listing[k], s.timeoutIn, now, refused)
    requires SweepSaves(rows, listing[l], s.timeoutIn, now, refused)
    ensures Admit(rows, owner, s, listing, now, refused).rows[listing[l]].active
  {
    AnswerIsExact(rows, ActiveOwnedBy(owner), listing);
    var pos := FirstTimedOut(rows, listing, 0, s.timeoutIn, now, refused);
    assert pos.Some? && pos.value <= k;
    assert listing[pos.value] != listing[l];
  }

  /** At or over the limit with `limit_sessions` and no session the sweep can save
      (in particular when `timeout_in` is nil), the login is refused and nothing changes. */
  lemma SweepWithoutExpiredRefuses(rows: seq<SessionRecord>, owner: AccountId, s: Settings,
                                   listing: seq<nat>, now: int, refused: set<nat>)
    requires s.maxActiveSessions >= 1
    requires AscendingAnswer(rows, ActiveOwnedBy(owner), listing)
    requires ActiveCount(rows, owner) >= s.maxActiveSessions && s.limitSessions
    requires s.timeoutIn.None? || forall k :: 0 <= k < |listing| ==> !SweepSaves(rows, listing[k], s.timeoutIn, now, refused)
    ensures Admit(rows, owner, s, listing, now, refused) == Decision(false, rows)
  {
  }

  /** The policy changes at most one row, and only by turning an active session of this
      account inactive; nothing is reactivated and other accounts' sessions are untouched.
      A change means the login was admitted, and a session the sweep turns off had a
      known last access at or before `timeout_in` ago. */
  lemma OnlyDeactivatesOwnActiveSession(rows: seq<SessionRecord>, owner: AccountId, s: Settings,
                                        listing: seq<nat>, now: int, refused: set<nat>)
    requires s.maxActiveSessions >= 1
    requires AscendingAnswer(rows, ActiveOwnedBy(owner), listing)
    ensures var d := Admit(rows, owner, s, listing, now, refused);
      |d.rows| == |rows| &&
      (forall i :: 0 <= i < |rows| && d.rows[i] != rows[i] ==>
        rows[i].owner == owner && rows[i].active && d.rows[i] == rows[i].(active := false) && d.allowed &&
        (s.limitSessions ==> rows[i].lastAccessedAt.Some? && Expired(rows[i], s.timeoutIn, now))) &&
      (forall i, j :: 0 <= i < j < |rows| ==> d.rows[i] == rows[i] || d.rows[j] == rows[j])
  {
    AnswerIsExact(rows, ActiveOwnedBy(owner), listing);
  }

  /** Right after an eviction that brought the account down from exactly its limit, a
      second check, whatever the store's order, admits the login without touching anything. */
  lemma AdmitsAgainAfterEviction(rows: seq<SessionRecord>, owner: AccountId, s: Settings,
                                 listing: seq<nat>, now: int, refused: set<nat>, now2: int, refused2: set<nat>)
    requires s.maxActiveSessions >= 1
    requires AscendingAnswer(rows, ActiveOwnedBy(owner), listing)
    requires ActiveCount(rows, owner) == s.maxActiveSessions && !s.limitSessions
    ensures var d := Admit(rows, owner, s, listing, now, refused);
      d.allowed ==> forall listing2 :: AscendingAnswer(d.rows, ActiveOwnedBy(owner), listing2) ==>
        Admit(d.rows, owner, s, listing2, now2, refused2) == Decision(true, d.rows)
  {
    EvictsLeastRecentlyAccessed(rows, owner, s, listing, now, refused);
  }
}
