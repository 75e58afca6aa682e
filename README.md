# Session limitable: a Dafny model of the session admission policy

This project models the session-limiting concern of devise-security
(`lib/devise-security/models/session_limitable.rb`). An account model mixes it in.
On every login, `allow_limitable_authentication?` counts the account's active
sessions in the session history table, then does one of three things:

- it admits the login when the count is strictly below `max_active_sessions`;
- otherwise, when `limit_sessions` is set, it runs the timeout sweep
  `deactivate_timeout_sessions!`;
- otherwise it evicts the active session with the earliest `last_accessed_at`.

`update_unique_session_id!` records the current session token, but only on a
persisted record.

Layout:

- `session_history.dfy` (module `SessionHistory`): session rows, query
  conditions, the adapter's `find_all` as a filter over the table, the shape of
  an answer ordered by `last_accessed_at` ascending, and the `SessionTable` class
  whose rows the policy saves one at a time.
- `session_limitable.dfy` (module `SessionLimitable`): the class-level settings,
  the pure specification `Admit` of one admission check, and the `Account` class
  with the concern's methods. `Account.AllowLimitableAuthentication` and
  `Account.DeactivateTimeoutSessions` are imperative. They change the table in
  place and are proved to compute `Admit` and `FirstTimedOut`.
- `admission_properties.dfy` (module `AdmissionProperties`): what the policy
  guarantees, as lemmas over `Admit`.

Modelling choices:

- Time is an integer number of seconds. The current time `now` is a parameter,
  and `timeout_in.ago` is `now - timeoutIn`.
- The store orders by `last_accessed_at`, and that order is store-dependent. So
  the ordered answer is a parameter, `listing`, constrained by `AscendingAnswer`:
  it names the same rows as the unordered answer, and any two known timestamps
  appear in ascending order. Where nil timestamps fall, and how ties break, is
  left open. `find_first` with that order is `listing[0]`.
- Whether a `save(validate: false)` goes through is a parameter too: `refused`
  is the set of rows whose save fails. A failed save leaves its row as it was.
  The sweep's `any?` then carries on to the next row, and the eviction branch
  returns false.
- `max_active_sessions` and `limit_sessions` read the class-level option. In the
  model they are reads of the account's `settings` constant.

The sweep uses `any?`, which stops at the first truthy block. So it turns off at
most one session: the first expired one, in ascending order, whose save goes
through. The sweep does not deactivate every timed-out session; `SweepStopsAtFirst`
states this.

## Model

| member | source | states |
|---|---|---|
| `SessionHistory.Matching` | lib/devise-security/models/session_limitable.rb:43-44 | the unordered `find_all` answer is exactly the positions of the rows matching the conditions, in increasing table order |
| `SessionHistory.SessionTable.FindAll` | lib/devise-security/models/session_limitable.rb:44 | a scan of the table returns exactly that answer, so its size is the active-session count |
| `SessionHistory.AnswerIsExact` | lib/devise-security/models/session_limitable.rb:64-65 | an answer ordered by `last_accessed_at` has as many entries as the unordered one, names only matching rows, names every matching row, and names none twice |
| `SessionHistory.AscendingAnswer` | lib/devise-security/models/session_limitable.rb:47-48 | defines the answers the store may give to the query ordered by `last_accessed_at` ascending (also used at line 64): every entry is a row of the table, the entries are the matching rows as a multiset, and known timestamps ascend; its contract states that such an answer is as long as the unordered one |
| `SessionHistory.SessionTable.Deactivate` | lib/devise-security/models/session_limitable.rb:49-50 | `active = false` then `save(validate: false)`: the result is whether the store took the write, and only then is that one row inactive |
| `SessionHistory.DeactivatingLowersCount` | lib/devise-security/models/session_limitable.rb:49-50 | saving one active row of the account as inactive lowers the active count by exactly one |
| `SessionLimitable.Expired` | lib/devise-security/models/session_limitable.rb:66 | the sweep's test: it holds only when both the last access and `timeout_in` are known, and then exactly when the last access is at or before `timeout_in` ago (the bound is inclusive) |
| `SessionLimitable.Admit` | lib/devise-security/models/session_limitable.rb:42-71 | defines the whole decision: admit under the limit (line 44); with `limit_sessions`, the sweep's result and the row it turned off (lines 45, 63-71); otherwise evict the first row of the ascending answer and return its save result (lines 47-50). Its own contract says only that the table keeps its length, that a change implies admission, and that it admits under the limit; the `AdmissionProperties` lemmas state the rest |
| `SessionLimitable.FirstTimedOut` | lib/devise-security/models/session_limitable.rb:65-70 | the position where `any?` stops is a row that expired (known last access, configured timeout, last access at or before `timeout_in` ago) and whose save went through; no earlier position qualifies; with no result, no position qualifies |
| `SessionLimitable.Account.SkipSessionLimitable` | lib/devise-security/models/session_limitable.rb:33-35 | the policy is not skipped by default |
| `SessionLimitable.Account.SessionLimitableCondition` | lib/devise-security/models/session_limitable.rb:77-79 | the merged conditions match exactly the rows owned by this account that meet the given `active` condition |
| `SessionLimitable.Account.UpdateUniqueSessionId` | lib/devise-security/models/session_limitable.rb:22-25 | on a record that is not persisted, it fails with `NotPersistedError` and writes nothing; otherwise the token is stored; no other field can change |
| `SessionLimitable.Account.AllowLimitableAuthentication` | lib/devise-security/models/session_limitable.rb:42-51 | the answer and the table it leaves are those of `Admit` on the old table |
| `SessionLimitable.Account.DeactivateTimeoutSessions` | lib/devise-security/models/session_limitable.rb:63-71 | returns whether the sweep found a row to turn off; exactly that row (the `FirstTimedOut` position) is deactivated, and the table is unchanged otherwise |
| `AdmissionProperties.UnderLimitAdmitsUnchanged` | lib/devise-security/models/session_limitable.rb:43-44 | strictly under the limit, the login is admitted and no session changes |
| `AdmissionProperties.EvictsLeastRecentlyAccessed` | lib/devise-security/models/session_limitable.rb:47-50 | at or over the limit without `limit_sessions`, the evicted session is an active session of the account, and no known last access is earlier than its own; the login is admitted exactly when its save goes through; only that row changes, and the active count drops by one |
| `AdmissionProperties.SweepDeactivatesFirstExpired` | lib/devise-security/models/session_limitable.rb:63-70 | at or over the limit with `limit_sessions`, if some session can be swept, the first such one in ascending order is deactivated, the login is admitted, and every other row is unchanged |
| `AdmissionProperties.SweepStopsAtFirst` | lib/devise-security/models/session_limitable.rb:65-70 | when two sessions could be swept, the later one stays active |
| `AdmissionProperties.SweepWithoutExpiredRefuses` | lib/devise-security/models/session_limitable.rb:45-66 | at or over the limit with `limit_sessions`, if no session can be swept (always the case when `timeout_in` is nil), the login is refused and nothing changes |
| `AdmissionProperties.OnlyDeactivatesOwnActiveSession` | lib/devise-security/models/session_limitable.rb:42-79 | at most one row changes. A changed row was an active session of this account, and only its `active` flag turns false. A change implies admission. A swept session had a known last access at or before `timeout_in` ago |
| `AdmissionProperties.AdmitsAgainAfterEviction` | lib/devise-security/models/session_limitable.rb:42-50 | after an eviction from exactly the limit, a second check admits the login and changes nothing |

## Left out

- Debug logging of the new token (`Rails.logger.debug`) has no effect on behaviour.
- How the adapter is found (`session_history_class.constantize.to_adapter`) is not modelled. The adapter is the `SessionTable` class, and its `find_all` is a filter.
- The store's sort is left open. The model allows any answer that `AscendingAnswer` accepts; it does not fix where nil timestamps go or how ties break.
- Concern registration, the class-level option declaration and `required_fields` are framework glue, with no decision logic.
- The wall clock is a parameter. The source reads `timeout_in.ago` once per swept row, but the model reads one `now` for the whole sweep.
- Settings with `max_active_sessions` below one are excluded entirely: every entry point requires `maxActiveSessions >= 1`. The source would crash on a nil `find_first` result in one such case, with no active sessions. With active sessions, though, it handles such settings without crashing, because line 44 is false and lines 45-50 sweep or evict. The model does not cover that case.
- Exceptions from the store (connection errors, a save that raises) are not modelled. Only a save that returns false is.
- Concurrent logins for the same account are not modelled. That race is left to the store.
- `SessionLimitable.Account.UpdateUniqueSessionId`: the source skips validation and callbacks and returns whatever the store's update returns. The model returns `Pass` or `Fail(NotPersistedError)`, and the store's own write is assumed to succeed.
- The test bootstrap in `test/test_helper.rb` is not part of this model.
