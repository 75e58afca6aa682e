/** The session-limiting concern of an account model: on each login it counts the
    account's active sessions and admits the login, sweeps out one idle session, or
    evicts the least recently accessed one. */
module SessionLimitable {
  import opened SessionHistory

  /** The class-level options `max_active_sessions`, `timeout_in` (seconds, or nil)
      and `limit_sessions`. */
  datatype Settings = Settings(maxActiveSessions: int, timeoutIn: Option<int>, limitSessions: bool)

  datatype Error = NotPersistedError

  datatype Outcome = Pass | Fail(error: Error)

  /** What one admission check answers, with the session table it leaves behind. */
  datatype Decision = Decision(allowed: bool, rows: seq<SessionRecord>)

  /** `session_limitable_condition(active: true)` for the account `owner`. */
  function ActiveOwnedBy(owner: AccountId): Conditions {
    Conditions(Some(owner), Some(true))
  }

  /** The number of active sessions of `owner`, as `find_all(...).size` reports it. */
  function ActiveCount(rows: seq<SessionRecord>, owner: AccountId): nat {
    |Matching(rows, ActiveOwnedBy(owner))|
  }

  /** The sweep's test: the last access is known, a timeout is configured, and the
      last access is at or before `timeout_in` ago. */
  predicate Expired(r: SessionRecord, timeoutIn: Option<int>, now: int): (e: bool)
    ensures e ==> r.lastAccessedAt.Some? && timeoutIn.Some?
    ensures r.lastAccessedAt.Some? && timeoutIn.Some? && r.lastAccessedAt.value + timeoutIn.value <= now ==> e
  {
    r.lastAccessedAt.Some? && timeoutIn.Some? && r.lastAccessedAt.value <= now - timeoutIn.value
  }

  /** The sweep's block is truthy for row `i`: the row expired and its save went through. */
  predicate SweepSaves(rows: seq<SessionRecord>, i: nat, timeoutIn: Option<int>, now: int, refused: set<nat>)
    requires i < |rows|
  {
    Expired(rows[i], timeoutIn, now) && i !in refused
  }

  /** The position in `listing`, from `from` on, at which the sweep's `any?` stops. */
  function FirstTimedOut(rows: seq<SessionRecord>, listing: seq<nat>, from: nat,
                         timeoutIn: Option<int>, now: int, refused: set<nat>): (pos: Option<nat>)
    requires InRange(rows, listing) && from <= |listing|
    decreases |listing| - from
    ensures pos.Some? ==> from <= pos.value < |listing| && SweepSaves(rows, listing[pos.value], timeoutIn, now, refused)
    ensures forall k :: from <= k < |listing| && (pos.None? || k < pos.value) ==>
      !SweepSaves(rows, listing[k], timeoutIn, now, refused)
  {
    if from == |listing| then None
    else if SweepSaves(rows, listing[from], timeoutIn, now, refused) then Some(from)
    else FirstTimedOut(rows, listing, from + 1, timeoutIn, now, refused)
  }

  /** What `allow_limitable_authentication?` decides, and the table it leaves, for the
      account `owner` with settings `s` at time `now`. `listing` is the store's ascending
      answer for the account's active sessions; `refused` the rows whose save fails. */
  function Admit(rows: seq<SessionRecord>, owner: AccountId, s: Settings, listing: seq<nat>,
                 now: int, refused: set<nat>): (d: Decision)
    requires s.maxActiveSessions >= 1
    requires AscendingAnswer(rows, ActiveOwnedBy(owner), listing)
    ensures |d.rows| == |rows|
    ensures d.rows != rows ==> d.allowed
    ensures s.maxActiveSessions > ActiveCount(rows, owner) ==> d.allowed
  {
    if s.maxActiveSessions > ActiveCount(rows, owner) then Decision(true, rows)
    else if s.limitSessions then
      match FirstTimedOut(rows, listing, 0, s.timeoutIn, now, refused)
      case None => Decision(false, rows)
      case Some(k) => Decision(true, Deactivated(rows, listing[k]))
    else
      var oldest := listing[0];
      if oldest in refused then Decision(false, rows) else Decision(true, Deactivated(rows, oldest))
  }

  /** An account model with the session-limiting concern mixed in. */
  class Account {
    const id: AccountId
    const settings: Settings
    var persisted: bool
    var uniqueSessionId: string

    constructor (id: AccountId, settings: Settings, persisted: bool, uniqueSessionId: string)
      ensures this.id == id && this.settings == settings
      ensures this.persisted == persisted && this.uniqueSessionId == uniqueSessionId
    {
      this.id := id;
      this.settings := settings;
      this.persisted := persisted;
      this.uniqueSessionId := uniqueSessionId;
    }

    /** `update_unique_session_id!`: only a persisted record takes the token. */
    method UpdateUniqueSessionId(token: string) returns (outcome: Outcome)
      modifies this`uniqueSessionId
      ensures !persisted ==> outcome == Fail(NotPersistedError) && uniqueSessionId == old(uniqueSessionId)
      ensures persisted ==> outcome == Pass && uniqueSessionId == token
    {
      if !persisted {
        return Fail(NotPersistedError);
      }
      uniqueSessionId := token;
      outcome := Pass;
    }

    /** `skip_session_limitable?`: the policy applies unless an application overrides this. */
    function SkipSessionLimitable(): (skip: bool)
      ensures !skip
    {
      false
    }

    /** `session_limitable_condition(options)`: the options with the owner forced to this account. */
    function SessionLimitableCondition(options: Conditions): (c: Conditions)
      ensures forall r :: Matches(c, r) <==>
        r.owner == id && (options.active.Some? ==> r.active == options.active.value)
    {
      options.(owner := Some(id))
    }

    /** `allow_limitable_authentication?` */
    method AllowLimitableAuthentication(table: SessionTable, listing: seq<nat>, now: int, refused: set<nat>)
      returns (allowed: bool)
      requires settings.maxActiveSessions >= 1
      requires AscendingAnswer(table.rows, ActiveOwnedBy(id), listing)
      modifies table
      ensures Decision(allowed, table.rows) == Admit(old(table.rows), id, settings, listing, now, refused)
    {
      var opts := SessionLimitableCondition(Conditions(None, Some(true)));
      assert opts == ActiveOwnedBy(id);
      var active := table.FindAll(opts);
      if settings.maxActiveSessions > |active| {
        return true;
      }
      if settings.limitSessions {
        allowed := DeactivateTimeoutSessions(table, listing, now, refused);
        return;
      }
      AnswerIsExact(table.rows, opts, listing);
      var oldest := listing[0];
      allowed := table.Deactivate(oldest, oldest !in refused);
    }

    /** `deactivate_timeout_sessions!`: walk the ascending answer and stop at the first
        row whose deactivation is saved. */
    method DeactivateTimeoutSessions(table: SessionTable, listing: seq<nat>, now: int, refused: set<nat>)
      returns (any: bool)
      requires InRange(table.rows, listing)
      modifies table
      ensures var pos := FirstTimedOut(old(table.rows), listing, 0, settings.timeoutIn, now, refused);
        any == pos.Some? &&
        table.rows == if pos.Some? then Deactivated(old(table.rows), listing[pos.value]) else old(table.rows)
    {
      ghost var rows0 := table.rows;
      var k := 0;
      while k < |listing|
        invariant 0 <= k <= |listing|
        invariant table.rows == rows0
        invariant FirstTimedOut(rows0, listing, 0, settings.timeoutIn, now, refused)
               == FirstTimedOut(rows0, listing, k, settings.timeoutIn, now, refused)
      {
        var i := listing[k];
        var session := table.rows[i];
        if Expired(session, settings.timeoutIn, now) {
          var saved := table.Deactivate(i, i !in refused);
          if saved {
            return true;
          }
        }
        k := k + 1;
      }
      return false;
    }
  }
}
