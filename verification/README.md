# A verified model of the session service

The repository is a Go web service whose centre is a credential protocol: a user
service that registers accounts, signs them in, rotates refresh tokens, detects
replayed ones, changes passwords, deletes accounts, sweeps expired tokens and
lists sessions, over a table of users (soft deleted, unique address) and a table
of refresh tokens (really deleted, unique digest). Around it stand a transaction
manager that carries a transaction through the context, a migration ledger, a
per-client rate limiter, a signed CSRF token and an error type.

This project states those parts in Dafny and proves what they guarantee over all
inputs and all runs.

* `Arithmetic`, `Entities`, `Credentials`, `Listing`, `Protocol`: the tables, the tokens, and
  what each service call does to the tables. A call is one read outside its
  transaction (`Look`) followed by one atomic change (`Act`). Clock readings,
  fresh identifiers and failing steps are arguments, so a statement about all
  runs covers every schedule of failures.
* `Repository`, `Service`: the repositories and the service as classes that
  update the tables in place, statement by statement, each method proved to
  leave exactly the tables and the reply `Protocol.Serve` prescribes.
* `Frames`, `Runs`, `Decisions`, `Refusals`, `SessionTheorems`, `Janitor`: serial
  runs, their invariant, exactly when each call succeeds or fails and why, and the
  guarantees over whole runs.
* `Interleaving`, `OverlappingLogins`, `OverlappingSweeps`: the same calls
  overlapping between read and change; what survives, and exactly when the serial
  guarantees are lost.
* `Transactions`: nested units of work as a small language with a flattening
  theorem, and the transaction manager that runs it.
* `Migrations`, `Ledger`: the validator and the apply-and-record protocol, run
  by one instance and by any number at once.
* `RateLimiter`, `LimiterRefinement`, `LimiterBounds`: the limiter, the
  comparison with one that never forgets a client, and its bounds.
* `Encoding`, `Csrf`: hexadecimal, dots and big-endian numbers, and the parser
  that accepts exactly what the printer prints.
* `Errors`: derived errors and the walks along their causes.

Facts about the code that the proofs turn up:

* Sweeping expired rows is invisible exactly when a signed token outlives its
  row by at most one nanosecond, or is minted already expired. The container
  passes one lifetime for both (`internal/di/container.go:156-173`), which is
  enough; with a longer token lifetime a sweep turns "expired" into a theft
  alarm that ends every session of the user.
* Single use, the finality of account deletion and the cut-off of a password
  change hold in serial runs. They do not hold for overlapping calls, because
  Refresh looks its row up outside the transaction and deleting a missing row
  succeeds. The comments in `delete_account.service.go` and
  `change_password.service.go` that no old session outlives the change therefore
  hold only without overlap: `Interleaving.OneTokenTwoPairs`,
  `SessionOfADeletedAccount` and `SessionOfTheOldPassword` are the runs.
  `RenewedExactlyByOverlap` is the exact condition for a token whose row is gone,
  `DeletionIsFinalExactly` the exact condition for a deleted account, and
  `OverlappingLogins.StaleLoginIsExactlyOverlap` the one for an old password.
* The replay alarm is about texts: the decoder ignores the unused bits of a
  token's last character, so a changed text of a live token verifies, has no
  row, and ends every session of its user.
* Forgetting an idle rate-limit bucket is invisible exactly when the burst is
  zero or at most rate times lifetime.
* A page number beyond 2^63/limit wraps the offset; exactly when it wraps to zero
  or below, a listing that is not empty shows the first page again.
* The CSRF window is exact for every issue time unless the lifetime is the
  largest duration there is, where saturating subtraction admits ancient tokens,
  or the clock stands at one of the two ends of representable time.
* Sweeps do not stay invisible when calls overlap, even with equal lifetimes. A
  refresh that validates its token just before expiry and looks for the row after a
  sweep has taken it raises the theft alarm (`OverlappingSweeps.SweepRaisesTheAlarm`);
  `SweepsAreInvisibleExactly` says this is the only way an answer other than a
  listing's changes. A listing can lose a session that was live at its own clock
  reading, from its total or from its page.
* bcrypt looks at 72 bytes of the password and a NUL byte, over and over. A
  password that is longer is refused when it is set, yet logs in if its first 72
  bytes are the stored ones, and so does the stored password written twice around
  a NUL byte. The request layer limits characters, not bytes, and lets both
  through.

## Model

| member | source | states |
|---|---|---|
| `Protocol.FindByEmail` | internal/repository/implementations/user/find_by_email.gorm.go:14-30 | finds the first visible account with the address in key order; finding none means no visible account has it |
| `Credentials.NumericDate` | internal/service/token/generate_refresh.service.go:24-25 | the expiry of a signed token is the instant cut down to a whole second, never later and less than a second earlier |
| `Credentials.ValidateRefreshToken` | internal/service/token/validate_refresh.service.go:10-28 | accepts exactly the properly signed tokens whose expiry is still ahead, and returns their claims |
| `Credentials.StreamIsExact` | internal/service/user/login.service.go:38-40 | bcrypt tells passwords of at most 72 bytes without a NUL byte apart exactly |
| `Credentials.RepeatedIsTheSame` | internal/service/user/login.service.go:38-40 | it never tells a password from itself written twice around a NUL byte |
| `Credentials.OverlongIsCut` | internal/service/user/change_password.service.go:53-60 | of a password that long or longer it sees the first 72 bytes |
| `Repository.Database.UpdateUser` | internal/repository/implementations/user/update.gorm.go:13-28 | writes only the non-zero fields of the patch, only to a visible row, and fails exactly when the unique index refuses the address |
| `Repository.Database.CreateUser` | internal/repository/implementations/user/create.gorm.go:13-25 | inserts unless the key or the address is taken, also by a deleted row |
| `Repository.Database.DeleteUser` | internal/repository/implementations/user/delete.gorm.go:12-24 | hides the row and keeps it in the unique index |
| `Repository.Database.CreateToken` | internal/repository/implementations/refresh_token/create.gorm.go:13-24 | inserts under the digest unless the digest or the key is taken |
| `Repository.Database.DeleteByTokenHash` | internal/repository/implementations/refresh_token/delete_by_token_hash.gorm.go:16-29 | removes at most the one row, without failing when it is not there |
| `Repository.Database.DeleteByUserId` | internal/repository/implementations/refresh_token/delete_by_user_id.gorm.go:13-24 | removes all rows of the user and no others |
| `Repository.Database.DeleteExpired` | internal/repository/implementations/refresh_token/delete_expired.gorm.go:14-29 | removes exactly the rows strictly past their expiry and reports how many |
| `Repository.Database.ListActive` | internal/repository/implementations/refresh_token/list_active_by_user_id.gorm.go:26-49 | the requested window of the user's unexpired rows in the one strict newest-first order |
| `Repository.Database.CountActive` | internal/repository/implementations/refresh_token/count_active_by_user_id.gorm.go:20-40 | counting matching rows one by one gives the size of the set of sessions the listing pages through: no row is met twice and no two rows are one session |
| `Service.UserService.StoreRefreshToken` | internal/service/user/store_refresh_token.service.go:22-40 | stores the digest, never the token, and touches nothing else; a cancelled context and a failed insert are told apart |
| `Service.UserService.IssueTokens` | internal/service/user/user.service.go:76-93 | mints a pair and one row for it, or leaves the tables alone and says why |
| `Service.UserService.Register` | internal/service/user/register.service.go:19-85 | in-place execution agrees with the protocol step on every table, failure and input |
| `Service.UserService.Login` | internal/service/user/login.service.go:16-58 | in-place execution agrees with the protocol step |
| `Service.UserService.Refresh` | internal/service/user/refresh.service.go:24-82 | in-place execution, rotation and both clean-up branches, agrees with the protocol step |
| `Service.UserService.HandleReuse` | internal/service/user/refresh.service.go:95-108 | refuses the token whether or not ending the user's sessions worked |
| `Service.UserService.GetUser` | internal/service/user/refresh.service.go:111-136 | shows a visible account and nothing else |
| `Service.UserService.ChangePassword` | internal/service/user/change_password.service.go:28-100 | in-place execution of update, revocation and reissue agrees with the protocol step, rolled back as one |
| `Service.UserService.DeleteAccount` | internal/service/user/delete_account.service.go:26-54 | in-place execution of both deletes agrees with the protocol step, rolled back as one |
| `Service.UserService.RevokeRefreshTokens` | internal/service/user/revoke_refresh_tokens.service.go:14-25 | ends every session of the user |
| `Service.UserService.PurgeExpiredRefreshTokens` | internal/service/user/purge_expired_refresh_tokens.service.go:16-28 | sweeps exactly the expired rows and reports their number |
| `Service.UserService.ListSessions` | internal/service/user/list_sessions.service.go:25-78 | when nothing comes between its reads, the loop builds the page the protocol prescribes, with the total and the caller's own session marked |
| `Service.UserService.FinishListing` | internal/service/user/list_sessions.service.go:50-77 | the second read and the reply, given any total counted on an earlier table, agree with the protocol's second half |
| `Frames.ActFrame` | internal/service/user/user.service.go:76-93 | whatever a call saw and whatever fails, it alters no row: rows are removed or minted under the digest of the token in the reply; accounts are never removed, renamed or undeleted |
| `Runs.InvIsKept` | internal/service/user/user.service.go:42-51 | every call keeps: rows belong to visible users, digests and keys are unique and old, addresses are unique, families have at most one row |
| `Runs.InvThroughout` | internal/service/user/user.service.go:42-51 | the invariant holds in every world of every serial run |
| `Runs.OnlyDeletionHides` | internal/service/user/delete_account.service.go:41-53 | no call hides an account without taking all its rows along |
| `Decisions.RowRemovedExactly` | internal/service/user/refresh.service.go:43-73 | a row leaves the table in exactly seven ways (rotation, expiry, replay, password change, deletion, logout, sweep), and otherwise stays as it is |
| `Decisions.RegisterDecides` | internal/service/user/register.service.go:26-78 | succeeds exactly when nothing fails, the password can be hashed and no account, deleted or not, holds the address; adds that one account |
| `Decisions.ChangePasswordDecides` | internal/service/user/change_password.service.go:39-94 | succeeds exactly for a visible account, a matching current password and a hashable new one, when nothing fails |
| `Decisions.DeleteAccountDecides` | internal/service/user/delete_account.service.go:33-53 | succeeds exactly for a visible account when nothing fails; hides that account and no other |
| `Decisions.IssuedPairNamesTheAccount` | internal/service/user/user.service.go:76-93 | an issued pair, its row and its access token name one visible account; after Refresh only the identifier is preserved |
| `Decisions.SessionSurvives` | internal/service/user/refresh.service.go:57-73 | along a run a session stays, unaltered, until one of the seven ways retires it |
| `Refusals.IssueDecides` | internal/service/user/user.service.go:76-93 | tokens are issued unless signing or storing fails or the digest or key is taken; every claim and every column of what is issued |
| `Refusals.IssuedExactly` | internal/service/user/store_refresh_token.service.go:29-34 | the pair and the row of any call that issues, claim by claim and column by column: expiry in whole seconds, row expiry from the reading at storing |
| `Refusals.RegisterReplies` | internal/service/user/register.service.go:20-78 | which failure a registration gives when: a conflict exactly for an address that is held, by a deleted account too |
| `Refusals.LoginReplies` | internal/service/user/login.service.go:17-51 | which failure a login gives when: invalid credentials exactly when no undeleted account with the address has the password |
| `Refusals.FailedLoginsLookAlike` | internal/service/user/login.service.go:29-40 | any two logins that fail without faults get the same answer, so that none tells which addresses are registered |
| `Refusals.RefreshReplies` | internal/service/user/refresh.service.go:25-76 | which failure a refresh gives when: invalid, revoked, expired, cancelled, internal and failed commit, each exactly for its cause |
| `Refusals.RotationEffect` | internal/service/user/refresh.service.go:57-73 | a rotation replaces the presented row by the new one and touches nothing else |
| `Refusals.ChangePasswordReplies` | internal/service/user/change_password.service.go:33-94 | which failure a password change gives when: a missing account is answered like a wrong password |
| `Refusals.DeleteAccountReplies` | internal/service/user/delete_account.service.go:27-53 | which failure a deletion gives when: not found exactly for an account that is missing or deleted |
| `Refusals.CleanupReplies` | internal/service/user/revoke_refresh_tokens.service.go:14-25 | a logout and a sweep fail only for outside reasons, and say which |
| `Refusals.GetUserReplies` | internal/service/user/refresh.service.go:112-135 | the answer to a profile request in every case, column by column |
| `Refusals.ListSessionsReplies` | internal/service/user/list_sessions.service.go:31-77 | when a listing fails, and the page and limit it echoes: 1 and 20 unless asked otherwise, never more than 100 |
| `Refusals.UpdateWrites` | internal/repository/implementations/user/update.gorm.go:20-23 | an update writes exactly the columns the patch names, to that one undeleted row, unless another row has the address |
| `SessionTheorems.FaultAtomicity` | internal/service/user/change_password.service.go:62-94 | a failed call changes nothing, for every set of failures, except Refresh's two clean-ups: the presented expired row, or all rows of the claimed user |
| `SessionTheorems.DeadForever` | internal/service/token/generate_refresh.service.go:10-23 | a digest without a row whose identifier was handed out never gets a row again |
| `SessionTheorems.RefreshSucceedsExactly` | internal/service/user/refresh.service.go:31-76 | a pair is handed out exactly for an unexpired token with an unexpired row when nothing fails |
| `SessionTheorems.SingleUse` | internal/service/user/refresh.service.go:57-73 | in a serial run no refresh token is exchanged twice |
| `SessionTheorems.FamiliesAreSingleThroughout` | internal/service/user/refresh.service.go:57-73 | two stored rows never descend from the same sign-in |
| `SessionTheorems.NothingForTheDeleted` | internal/service/user/login.service.go:24-40 | with the account deleted it has no rows, and no call issues for it, shows it, logs it in or registers its address |
| `SessionTheorems.DeletedAccountStaysDead` | internal/service/user/delete_account.service.go:26-54 | after a successful deletion that holds at every later point of the run |
| `SessionTheorems.ReuseEndsEverySession` | internal/service/user/refresh.service.go:84-108 | the alarm is raised exactly for a valid token without a row; if revocation works, the user has no rows and everyone else has theirs |
| `SessionTheorems.ReplayEndsEverything` | internal/service/user/refresh.service.go:84-108 | after it, no token of the user handed out before is ever exchanged in the rest of the run |
| `SessionTheorems.RespelledTokenEndsEverySession` | internal/service/token/validate_refresh.service.go:10-28 | another text that decodes to the claims of a valid token, live or not, is taken for a replay and ends every session of the user |
| `SessionTheorems.FalseAlarmExactly` | internal/service/user/refresh.service.go:36-45 | presenting a live, unexpired session raises the alarm if and only if the text is not the one handed out |
| `SessionTheorems.PasswordChangeEffect` | internal/service/user/change_password.service.go:70-91 | only that password changes; the account's one row is the returned token's; other users' rows are kept |
| `SessionTheorems.LoginSucceedsExactly` | internal/service/user/login.service.go:23-51 | login succeeds exactly when the password matches the stored hash of the one visible account with the address and nothing fails |
| `SessionTheorems.PasswordChangeCutsOff` | internal/service/user/change_password.service.go:16-27 | in a serial run every earlier token of the account is refused for good |
| `SessionTheorems.NewPasswordLogsIn` | internal/service/user/change_password.service.go:53-75 | until the next change or deletion login takes exactly the passwords bcrypt does not tell from the new one; among those without a NUL byte that fit, the new one alone |
| `SessionTheorems.RegisteredPasswordLogsIn` | internal/service/user/register.service.go:41-47 | the same for the password given at registration, and the profile is the registered one |
| `SessionTheorems.OverlongPasswordLogsIn` | internal/service/user/login.service.go:38-40 | a password of 37 two-byte characters that cannot be registered logs in to the account that registered 36 of them |
| `SessionTheorems.RepeatedPasswordLogsIn` | internal/service/user/login.service.go:38-40 | any password written twice around a NUL byte logs in to the account that registered it once |
| `SessionTheorems.IssuedTokenIsRenewable` | internal/service/user/user.service.go:53-56 | a token handed out can be exchanged until its expiry unless something retired its row, if the row lives as long as the token |
| `SessionTheorems.RegisteredProfileIsShown` | internal/service/user/refresh.service.go:111-136 | at any later time the account is shown with the profile it registered, or reported missing once deleted |
| `SessionTheorems.SweepAccounts` | internal/service/user/purge_expired_refresh_tokens.service.go:16-28 | the number reported is the number of rows the table lost, and what stays is exactly the unexpired rows |
| `SessionTheorems.SessionPagesPartition` | internal/service/user/list_sessions.service.go:37-77 | in every world of a run the replies for pages that cover the reported total show each active session once, newest first, and every page reports that total |
| `SessionTheorems.ListedExactly` | internal/repository/implementations/refresh_token/list_active_by_user_id.gorm.go:39-44 | in every world of a run, over covering pages, a session is listed to a user if and only if it shows the columns of an unexpired row of that user, once and in order of creation and key; the total is the number of those rows |
| `SessionTheorems.CurrentIsTheCallers` | internal/service/user/list_sessions.service.go:55-72 | over all those pages at most one session is current, and one is exactly when the presented token's row is an active session of the user |
| `Janitor.SameStep` | internal/service/user/refresh.service.go:31-55 | a call gives the same reply on the swept and the unswept table and keeps them related |
| `Janitor.JanitorIsTransparent` | internal/service/user/purge_expired_refresh_tokens.service.go:10-28 | with agreeing lifetimes, sweeps inserted anywhere change no reply, no account and no live row |
| `Janitor.SweptTokenFailsFirst` | internal/service/user/refresh.service.go:31-45 | a token whose row was swept fails on its own expiry, changes nothing and never raises the alarm |
| `Janitor.TransparencyIsExact` | internal/di/container.go:156-173 | all runs from empty tables are unaffected by sweeps if and only if the lifetimes agree |
| `Interleaving.RemovalIsFinal` | internal/service/token/generate_refresh.service.go:10-23 | however calls overlap, a removed row never comes back |
| `Interleaving.RefreshIsDecidedByItsRead` | internal/service/user/refresh.service.go:36-76 | an overlapping refresh succeeds exactly when the row was there, unexpired, in the world its read happened in |
| `Interleaving.LateRefreshIsRefused` | internal/service/user/refresh.service.go:36-45 | a refresh that starts after the removal committed never returns a pair |
| `Interleaving.RenewedExactlyByOverlap` | internal/service/user/refresh.service.go:36-76 | once a row is gone, by whatever call, a fault-free refresh of its token is renewed if and only if it read the live row before the removal committed |
| `Interleaving.SecondExchangeIsExactlyOverlap` | internal/service/user/refresh.service.go:38-73 | after one exchange, another of the same token succeeds if and only if it read the live row before the first committed |
| `Interleaving.OneTokenTwoPairs` | internal/repository/implementations/refresh_token/delete_by_token_hash.gorm.go:12-16 | from empty tables, a registered account overlaps two refreshes of its token and both return a pair |
| `Interleaving.UninterruptedIsSerial` | internal/service/user/refresh.service.go:24-82 | a call with nothing between its halves does what the serial protocol says |
| `Interleaving.ListingIsTwoReads` | internal/service/user/list_sessions.service.go:40-53 | the total is that of the table at the first read, the page that of the table at the second |
| `Interleaving.DeletionIsFinalExactly` | internal/service/user/delete_account.service.go:12-18 | when a deletion has committed, some continuation gives the account a row again if and only if a call in flight has already read what it needs to issue for it |
| `Interleaving.SurvivingSessionIsExactlyOverlap` | internal/service/user/delete_account.service.go:41-53 | after a deletion an older token is renewed if and only if the refresh read its live row before the commit, and then the deleted account has a row |
| `Interleaving.SessionOfADeletedAccount` | internal/service/user/delete_account.service.go:41-53 | a run from empty tables in which that happens |
| `Interleaving.SessionOfTheOldPassword` | internal/service/user/change_password.service.go:18-24 | a run from empty tables in which a refresh survives the password change that removed its row |
| `OverlappingLogins.LoginIsDecidedByItsRead` | internal/service/user/login.service.go:23-51 | an overlapping login succeeds exactly when nothing fails and the account found in the world of its read matches |
| `OverlappingLogins.StaleLoginIsExactlyOverlap` | internal/service/user/change_password.service.go:18-24 | after a committed change a login with another password succeeds if and only if it read the account, with that password, before the commit |
| `OverlappingLogins.LoginWithTheOldPassword` | internal/service/user/change_password.service.go:62-68 | a run from empty tables in which a login with the old password gets a session after the change |
| `OverlappingSweeps.UnsweptExists` | internal/service/user/purge_expired_refresh_tokens.service.go:10-28 | every overlapping run has its counterpart in which the sweeps do nothing and every other event happens |
| `OverlappingSweeps.SweepsAreInvisibleExactly` | internal/service/user/refresh.service.go:31-45 | for any lifetimes and any overlap, up to any event, the two runs answer every call but listings alike if and only if no refresh that validated its token missed its row because a sweep had taken it |
| `OverlappingSweeps.RobbedRaisesTheAlarm` | internal/service/user/refresh.service.go:36-45 | such a refresh raises the theft alarm and ends every session of its user, and without the sweeps there is no alarm |
| `OverlappingSweeps.RobbedInBetween` | internal/service/user/refresh.service.go:31-38 | the first one lost its row to a sweep that committed before the lookup and, where lifetimes agree, entered after the token was validated |
| `OverlappingSweeps.PromptCallsSeeNoSweep` | internal/di/container.go:156-173 | with agreeing lifetimes no refresh is robbed in a run in which nobody has read a later time than a call when it makes its lookup |
| `OverlappingSweeps.SweepRaisesTheAlarm` | internal/service/user/refresh.service.go:31-45 | a run from empty tables, with equal lifetimes, in which a sweep between validation and lookup turns an expired session into an alarm |
| `OverlappingSweeps.TotalsAgreeExactly` | internal/service/user/list_sessions.service.go:37-48 | the total of a listing is the same with and without the sweeps if and only if no row live at its reading was swept before the count |
| `OverlappingSweeps.PagesAgreeExactly` | internal/repository/implementations/refresh_token/list_active_by_user_id.gorm.go:18-44 | the pages of a listing agree with and without the sweeps if and only if no row live at its own reading was swept |
| `OverlappingSweeps.ListingLosesARow` | internal/service/user/list_sessions.service.go:37-53 | a run from empty tables in which a listing counts one live session and shows none |
| `Transactions.NestedUnitsErase` | internal/repository/implementations/tx/tx.gorm.go:21-30 | inside a transaction every nested unit may be erased |
| `Transactions.FlatteningPreservesMeaning` | internal/repository/implementations/tx/tx.gorm.go:21-35 | in any context a program means the same with its inner units erased |
| `Transactions.FlattenFlattens` | internal/repository/implementations/tx/tx.gorm.go:21-30 | what is left after flattening has no unit inside a unit, and nothing else has changed |
| `Transactions.CellsFollowWrites` | internal/repository/dbtx/dbtx.go:31-41 | inside a unit every cell holds what the unit last wrote to it, or what it held when the unit began |
| `Transactions.ReadYourWrites` | internal/repository/dbtx/dbtx.go:31-41 | a read after any part of a unit sees the value last written there, or the value from when the unit began |
| `Transactions.PlainAccess` | internal/repository/dbtx/dbtx.go:36-41 | outside a unit reads see and writes change the committed table |
| `Transactions.UnitsAreIsolated` | internal/repository/dbtx/dbtx.go:36-41 | a unit does the same whatever the committed table is: it sees only its own |
| `Transactions.ErrorsSkipAhead` | internal/repository/implementations/tx/tx.gorm.go:27-35 | a failing statement does nothing, an error skips what follows, and a handler continues from the state reached |
| `Transactions.JournalAgrees` | internal/repository/dbtx/dbtx.go:26-41 | inside a transaction reads and writes resolve to the ambient one: execution is a log replayed over the table it began on |
| `Transactions.AllWritesOrNone` | internal/repository/implementations/tx/tx.gorm.go:27-35 | an outermost unit commits all its writes in order, or none, exactly by its result and the commit's |
| `Transactions.HandledErrorLosesNothing` | internal/repository/implementations/tx/tx.gorm.go:27-35 | what was written before a handled error is part of what the unit commits |
| `Transactions.SwallowedInnerErrorStillCommits` | internal/repository/implementations/tx/tx.gorm.go:27-30 | a write of an inner unit whose error is handled is committed with the outer one |
| `Transactions.TxManager.WithinTx` | internal/repository/implementations/tx/tx.gorm.go:27-35 | joining, opening, committing and rolling back in place agree with the meaning of the unit |
| `Migrations.ValidateMigrations` | internal/platform/migrate.go:138-162 | accepts exactly the lists with positive, strictly ascending versions and every Up present, for any sort; otherwise names the first defect of the sorted copy, which the list really has |
| `Ledger.ApplyDecides` | internal/platform/migrate.go:115-132 | a migration commits exactly when nothing outside fails, its Up succeeds and its version is new; then schema and ledger both move |
| `Ledger.ApplyExtendsPrefix` | internal/platform/migrate.go:115-132 | on a prefix only the next migration can commit, and it leads to the next prefix |
| `Ledger.ConcurrentMigrationIsSafe` | internal/platform/migrate.go:76-113 | for any number of instances and any failures the ledger is a prefix of the list, each version commits once and in order, the schema is the fold of Up over it, and a finished instance has seen the whole list |
| `Ledger.FaultStopsTheInstance` | internal/platform/migrate.go:97-110 | an instance that meets a fault, a failing Up or a recorded version stops and changes nothing |
| `Ledger.SomebodyGetsThrough` | internal/platform/migrate.go:76-87 | without outside faults, on a list whose Ups succeed in turn, some instance always stands at the front, so that once all have stopped the whole list is applied |
| `Ledger.LoneInstanceFinishes` | internal/platform/migrate.go:97-113 | an instance that boots on whatever the others have applied and is left alone without faults finishes, on a list whose Ups succeed in turn |
| `Ledger.Database.ApplyMigration` | internal/platform/migrate.go:115-132 | Up and the ledger row take effect together or not at all |
| `Ledger.Database.Migrate` | internal/platform/migrate.go:87-113 | on any ledger, does the missing migrations in list order up to the one it names as failed, never past one that meets a fault; touches nothing for an invalid list, naming a defect it has, or an unreadable ledger; without outside failures succeeds exactly when every missing Up does |
| `Ledger.RunExtendsPrefix` | internal/platform/migrate.go:97-112 | on a ledger the list itself has written, such a run leads to a longer prefix, and a complete one to the whole list |
| `RateLimiter.IPRateLimiter.Gc` | internal/api/middleware/rate_limit.go:84-94 | at most once per lifetime, drops exactly the buckets idle for longer than it |
| `RateLimiter.IPRateLimiter.Allow` | internal/api/middleware/rate_limit.go:65-80 | the in-place decision and the new map are those of the specification |
| `RateLimiter.IPRateLimiter.constructor` | internal/api/middleware/rate_limit.go:51-62 | a lifetime that is not positive becomes ten minutes |
| `RateLimiter.SpendLevel` | internal/api/middleware/rate_limit.go:72-79 | a decision depends on the bucket's level alone and costs exactly what it grants |
| `RateLimiter.SweepsWhenDue` | internal/api/middleware/rate_limit.go:84-94 | a call sweeps exactly when there was no sweep or the last is a lifetime ago; it then forgets exactly the other clients quiet for longer, and otherwise nobody |
| `RateLimiter.AllowsExactly` | internal/api/middleware/rate_limit.go:69-79 | the decision and the bucket it leaves, from the tokens left, the rate and the time since |
| `LimiterRefinement.EvictionIsInvisible` | internal/api/middleware/rate_limit.go:82-94 | when the burst is at most rate times lifetime, every request sequence gets the decisions of a limiter that never forgets |
| `LimiterRefinement.EvictionInvisibleExactly` | internal/api/middleware/rate_limit.go:82-94 | that holds for all sequences if and only if the burst is zero or at most rate times lifetime |
| `LimiterBounds.WindowBound` | internal/api/middleware/rate_limit.go:64-94 | a window of length T with k evictions of the client allows at most burst*(k+1) + rate*T requests, and k evictions take more than k lifetimes |
| `LimiterBounds.ReachedWindowBound` | internal/api/middleware/rate_limit.go:51-94 | that holds for every window of every request sequence to a new limiter |
| `LimiterBounds.AllowedAreGranted` | internal/api/middleware/rate_limit.go:65-80 | the requests the bound counts are those the decisions let through |
| `LimiterBounds.MapStaysFresh` | internal/api/middleware/rate_limit.go:82-94 | after every call each bucket was last used, by a request of that client, less than two lifetimes ago |
| `Listing.Normalized` | internal/model/request/pagination.go:51-62 | a page below 1 becomes 1, a limit below 1 becomes 20, one above 100 becomes 100, and a valid request is left alone |
| `Listing.OffsetExactness` | internal/model/request/pagination.go:64-71 | the 64-bit offset is the mathematical one exactly while that fits, in particular while page-1 is at most (2^63-1)/100 |
| `Listing.SortedIsExact` | internal/repository/implementations/refresh_token/list_active_by_user_id.gorm.go:23-44 | the order lists every matching row once, strictly newest first |
| `Listing.DescendingIsUnique` | internal/repository/implementations/refresh_token/list_active_by_user_id.gorm.go:23-26 | there is only one such order, so paging is deterministic |
| `Listing.PagesPartition` | internal/repository/implementations/refresh_token/count_active_by_user_id.gorm.go:15-35 | pages that cover the total concatenate to every active row once, newest first |
| `Listing.LaterPageIsEmpty` | internal/model/request/pagination.go:68-71 | a page past the end is empty exactly when its offset did not wrap to before the end, or there is nothing to list |
| `Listing.RepeatsTheFirstExactly` | internal/model/request/pagination.go:64-71 | a page shows the first page exactly when its offset is zero or wrapped below it, or there is nothing to list |
| `Listing.SomePageWraps` | internal/model/request/pagination.go:68-71 | a page whose offset wraps to zero |
| `Encoding.HexRoundTrip` | internal/service/csrf/generate.service.go:28-30 | decoding what was encoded gives the bytes back |
| `Encoding.EncodedDigits` | internal/service/csrf/generate.service.go:28-30 | a byte is written as its high and its low digit, in lower case |
| `Encoding.DecodeExact` | internal/service/csrf/validate.service.go:19-32 | text decodes to given bytes exactly when it is their encoding up to letter case |
| `Encoding.BigEndianRoundTrip` | internal/service/csrf/generate.service.go:25-26 | eight big-endian bytes read back as the number written |
| `Encoding.BigEndianDigit` | internal/service/csrf/generate.service.go:25-26 | byte i is the digit of that weight, the most significant first |
| `Csrf.FreshExactly` | internal/service/csrf/validate.service.go:41-45 | for every clock and lifetime there is, the code applies the exact window to every issue time if and only if the lifetime is not the largest duration and the clock stays a lifetime and the skew away from the ends of time |
| `Csrf.ParserAcceptsPrinterImage` | internal/service/csrf/validate.service.go:13-46 | a string validates if and only if it is, up to hexadecimal case, a printed token over some nonce and fresh issue time; where the clock fits, fresh means at most 60 seconds ahead and at most a lifetime old |
| `Csrf.ValidShape` | internal/service/csrf/validate.service.go:14-32 | a string that validates is 64 hexadecimal digits, 16 more and those of the signature, between dots |
| `Csrf.OneReading` | internal/service/csrf/validate.service.go:14-32 | a token names one nonce and one issue time |
| `Csrf.PutUint64` | internal/service/csrf/generate.service.go:25-26 | fills the buffer with the big-endian form of the number |
| `Csrf.GenerateToken` | internal/service/csrf/generate.service.go:19-38 | prints a token for the drawn nonce and the current second, or fails with the random source |
| `Csrf.IssuedTokenWindow` | internal/service/csrf/validate.service.go:41-45 | a token issued at any instant validates at any other exactly from 60 seconds before to a lifetime after its whole second; the largest lifetime never ends |
| `Errors.IsMeansSomeNode` | internal/apperr/apperr.go:68-78 | an error matches a sentinel exactly when some node of its chain is the sentinel or derives from it |
| `Errors.FromFindsOutermost` | internal/apperr/apperr.go:116-123 | finds the outermost application error of the chain, and none only if there is none |
| `Errors.OnlyTheOutermostShows` | internal/apperr/apperr.go:125-183 | two chains whose first application errors agree in code and message show the same message and the same status, which is the number of that code: 400, 401, 403, 404, 409, 429, 503, 504, else 500 |
| `Errors.UnclassifiedIsOpaque` | internal/apperr/apperr.go:130-151 | a chain without one shows only whether a deadline passed or the request was cancelled |
| `Errors.Derive` | internal/apperr/apperr.go:80-114 | after any sequence of With calls the result derives from the sentinel itself, keeps its code, carries the last value of everything else, and matches exactly itself, the sentinel and what its cause matches |

## Left out

- HTTP handlers, router, cookies, CORS, headers, body limit, timeouts, access log: plumbing with one-branch behaviour.
- SHA-256, HMAC, bcrypt, JWT encoding, UUIDs, random numbers: abstract. A digest is injective on the texts of tokens, a presented text is either properly signed or not, texts that decode alike differ in a number only, identifiers never repeat, the keyed hash is any function. A signed token may carry claims never minted, which only makes the statements stronger.
- GORM, SQL drivers, pooling, stored time precision: tables are maps with unique keys, a transaction is a snapshot kept or discarded. Ordering and first-match queries are specified by their result.
- Login timing (`dummyPasswordHash`): timing is not functional behaviour.
- Cancellation in the middle of a call: shown as a failure of the next step; where that is a nested StoreRefreshToken or RevokeRefreshTokens, the bare context error it passes through is told apart from an internal failure, elsewhere both are internal, as in the code.
- Service.UserService.ListSessions: makes both reads on one table; a table that changed in between is covered by FinishListing and Interleaving.ListingIsTwoReads.
- Interleaving: each call is split once, between its first read and its one atomic change, and its clock readings fall anywhere; database isolation levels weaker than that are not covered.
- Transactions: a closure that ignores the context it is given, panics, or rolls back to a savepoint; local variables keep their values through a rollback, as captured variables do.
- Migrations.ValidateMigrations: takes the sorted copy as any ascending rearrangement instead of running a sort, since the claim is for every sort; the text of the messages is reduced to the kind of complaint and the version.
- Ledger: the three concrete Up functions (schema, demo rows, legacy column) are arbitrary partial functions on the schema; all instances share one list.
- RateLimiter: exact reals and one clock reading per call instead of floating point and a second reading inside the bucket; an infinite rate and a negative burst.
- Errors.Derive: With calls set the field while building the copy instead of assigning it afterwards, so error objects are immutable by construction; errors that wrap several others at once are not covered.
- Counter, message and health services, configuration, logging, tracing, metrics, wiring and main: thin or observational, they would only add easy members.
