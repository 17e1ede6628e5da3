# Archery: verified models of its stateful core

Archery is a Django application through which developers query and change databases under review.
This project models six parts of it that hold state, parse text or count, and proves what they
promise for every input and every run. Objects whose fields the program updates are classes, loops
are loops, and each method is proved equal to a function of the old state; the laws are lemmas about
those functions.

**Query privileges** (`PrivilegeChecks`, `PrivilegeStore`, `PrivilegeRuns`, `PrivilegeFields`). Users apply for
databases or tables; when an application is passed, the callback inserts one row per name; rows can
be changed or deleted in batches; a checker with two passes reads them when a query arrives. A run
is a list of such steps and of passing days. The main result follows an allowed query back to the
application the same user made and to the step that passed it and inserted the row, and forward from
an approval to the queries it allows, on every database engine. Limits of 0 count as "no privilege", and lookups take the matching row with the
lowest id.

**The review chain** (`ApprovalChain`, `ReviewedRuns`). Each application is reviewed by the groups of
a chain, one after the other. `ReviewedRuns` puts both halves together: an allowed query implies that
every group of the chain behind its row had passed the application, in order, when the row was
inserted. It also counts how often an application is granted.

**The DDL splitter** (`Text`, `Pattern`, `DdlParser`, `DdlLaws`, `DdlComments`,
`DdlHeader`, `DdlHeaderExact`, `DdlOther`). A submitted text is cut
at semicolons, cleaned of comments and classified; the head of ALTER TABLE and CREATE INDEX is read
by two regular expressions, which run here in a small backtracking matcher with the order of
alternatives and the greediness of Python's `re`.

**The login lock** (`Lockout`), **the configuration cache** (`SysConfig`), **the SQL export**
(`ExportSql`, `ExportCheck`), **the binlog readers** (`Binlog`) and **the dashboard pivot**
(`StackChart`). The export writes text literals with doubled quotes, as section 5.3 of
ISO/IEC 9075-2 has them, and is proved readable by an independent reader of such literals.

Some promises do not hold of the code as it stands. For each there is a lemma that says exactly when
they do, or names the case:

- Names that hold a comma are split into other names (`ApprovedNamesExactly`).
- A table without name and with only a table privilege passes the first pass and raises in the second
  (`PrivilegeChecks.VerdictExactly`).
- Rejecting an application that was passed leaves the rows it was given: a rejected application is
  without rows exactly when it was never passed (`RejectionLeavesGrants`).
- A live row with limit 0 hides later rows for the same database (`ZeroLimitHides`): a live row is
  enough exactly when the one with the lowest id has a nonzero limit (`AllowedExactly`).
- The review page also accepts the execution actions, which ask for no approval group, on a
  passed application, and each inserts its rows again, even deleted ones: an application is granted
  more than once exactly when there was one (`GrantedAgainExactly`, `ExecutionGrantsAgain`).
- A chain that names a group twice can never be passed, because the place of a group is looked up by
  its first occurrence (`PassableExactly`).
- A target in backticks is read as another one when its names have dots in the wrong places
  (`TickedTargetExactly`).
- A lock count above 127 never locks, because the stored counter stops at 127 (`RateBoundedExactly`).
- Settings stored as blanks, or as spellings of a boolean that only one of the two normalisers knows,
  make the cache disagree with the table (`StepCoherentExactly`).
- The two binlog readers differ when fewer than one row is asked for (`ReadersAgreeExactly`).
- Repeated pairs of environment and type are overwritten, not added, in the pivot (`PivotConserves`
  says by how much).

`dafny verify dfyconfig.toml` checks the whole project.

## Model

| member | source | states |
|---|---|---|
| PrivilegeChecks.SkipsExactly | sql/query_privileges.py:70-72 | a statement is exempt from the check exactly when it starts with `explain`, or with `show`, one or more blanks and `create`, in any letter case |
| PrivilegeChecks.FirstIsLowestId | sql/query_privileges.py:511-522 | the row a lookup takes is the matching live row with the lowest id |
| PrivilegeChecks.FirstLimitHasRow | sql/query_privileges.py:534-549 | a nonzero answer comes from an undeleted, unexpired row of that user and instance for that name, with that limit |
| PrivilegeChecks.VerdictExactly | sql/query_privileges.py:76-93 | denied iff some table has neither privilege; allowed iff every table has one and none is nameless with only a table privilege; the second pass raises after a successful first one in exactly that last case |
| PrivilegeChecks.LimitOverIsLeast | sql/query_privileges.py:87-93 | the second pass ends with the least of the running limit and the limits of all tables, and never with 0 |
| PrivilegeChecks.AllowedLimit | sql/query_privileges.py:552-573 | the limit of an allowed query is a least element of the nonzero request and the first live database and table limits of all its tables |
| PrivilegeChecks.OrderIrrelevant | sql/query_privileges.py:76-93 | status and limit are the same for any two lists naming the same tables |
| PrivilegeChecks.FirstLimitExactly | sql/query_privileges.py:512-522 | with increasing ids, a lookup finds a privilege iff there is a live matching row and the one with the lowest id has a nonzero limit |
| PrivilegeChecks.CheckExactly | sql/query_privileges.py:67-130 | on every engine, a query that is checked at all is allowed iff each table or database it needs has a limit, and with the limit of the second pass |
| PrivilegeChecks.DeniedExactly | sql/query_privileges.py:76-86 | the first pass refuses a table iff neither it nor its database has a live row whose lowest id carries a nonzero limit |
| PrivilegeChecks.MoreRowsNeverDeny | sql/query_privileges.py:39-130 | for every user, engine and query, rows added behind the others never deny an allowed query and never raise its limit |
| PrivilegeChecks.SortedDistinctExactly | sql/query_privileges.py:112-115 | the list of needed databases is strictly increasing and has exactly the names given |
| PrivilegeChecks.OtherEngineExactly | sql/query_privileges.py:101-129 | on other engines a query is allowed iff the user has every needed database, with the least of their limits; the second pass never raises |
| PrivilegeStore.Store.constructor | sql/models.py:643-660 | the tables start empty, with the first id to come |
| PrivilegeStore.Store.NextDay | sql/query_privileges.py:516 | a day passes and no row changes, so expiry is by date alone |
| PrivilegeStore.Store.QueryApplyAuditCallBack | sql/query_privileges.py:576-621 | the status is stored, and on a pass one row per name is inserted with fresh ids; an unknown type raises after the status is stored |
| PrivilegeStore.Store.QueryPrivApply | sql/query_privileges.py:193-303 | an application is stored exactly when it is complete, the instance is readable, nothing asked for is there already, and an audit exists; else nothing changes |
| PrivilegeStore.Store.QueryPrivAudit | sql/query_privileges.py:436-471 | the review outcome goes to the callback, and a callback that raises leaves all as it was |
| PrivilegeStore.Store.DeletePrivileges | sql/query_privileges.py:416-426 | exactly the rows with the given ids are marked deleted; refused when there is none |
| PrivilegeStore.Store.ChangePrivileges | sql/query_privileges.py:416-432 | exactly the rows with the given ids get the new day and limit; refused when there is none |
| PrivilegeStore.Store.TwoPasses | sql/query_privileges.py:75-93 | the two loops over tables reach the verdict of the specification, whose exact conditions are proved |
| PrivilegeStore.Store.TwoDbPasses | sql/query_privileges.py:116-129 | the two loops over databases reach the verdict of the specification |
| PrivilegeStore.Store.QueryPrivCheck | sql/query_privileges.py:39-130 | the whole checker, with both bypasses, the exempt statements and the unparsable ones, on the stored rows |
| PrivilegeRuns.RunKeeps | sql/query_privileges.py:423-432 | in every run no row disappears or changes owner, instance, database, table or type, and a deleted row stays deleted; no application changes but for its status |
| PrivilegeRuns.RunKeepsIds | sql/models.py:648 | in every run the ids increase and the next id is fresh |
| PrivilegeRuns.RowOrigin | sql/query_privileges.py:588-621 | every row of every run was inserted by the very step that passed an application stored in that run, which asks for the row's name, user and instance |
| PrivilegeRuns.WholeRunSafety | sql/query_privileges.py:67-130 | in every run and on every engine, an allowed query that is checked at all has, for each table or database it needs, a live unexpired row that the same user asked for on that instance, inserted by the step that passed the application |
| PrivilegeRuns.AllowedExactly | sql/query_privileges.py:67-130 | in every run, such a query is allowed iff each table or database it needs has a live row, for itself or its database, whose lowest id carries a nonzero limit |
| PrivilegeRuns.DeniedInRunsExactly | sql/query_privileges.py:76-86 | in every run, the first pass refuses a table iff neither it nor its database has such a row |
| PrivilegeFields.LookupsByColumns | sql/query_privileges.py:511-549 | both lookups find a privilege iff the set of rows their queries select, column by column, has a row of lowest id with a nonzero limit |
| PrivilegeFields.BypassByColumns | sql/query_privileges.py:52-65 | superusers and the two administrators get the limit for administrators, or their own nonzero request if that is smaller |
| PrivilegeFields.SkippedByText | sql/query_privileges.py:68-72 | of an ordinary user, MySQL statements that start with `explain` or `show create` are allowed without limit |
| PrivilegeFields.TablesByColumns | sql/query_privileges.py:68-99 | every other MySQL query of an ordinary user fails when it cannot be parsed, is refused iff some table has no such row for itself or its database, and allowed iff each has one for its database, or a name and one for itself |
| PrivilegeFields.NeededExactly | sql/query_privileges.py:102-115 | another engine needs the selected database and, but for Redis, SQL Server and PostgreSQL, those of the statement without backticks |
| PrivilegeFields.DatabasesByColumns | sql/query_privileges.py:101-129 | a query of an ordinary user on another engine is allowed iff each needed database has such a row, and refused otherwise |
| PrivilegeFields.NamesFirstTable | sql/query_privileges.py:76-86 | a refusal names the first refused table |
| PrivilegeFields.NamesFirstDb | sql/query_privileges.py:117-124 | on other engines, the first refused database |
| PrivilegeFields.NoLiveRowRefused | sql/query_privileges.py:511-549 | when each row of a user on an instance is deleted or expired, both lookups find nothing and every query that is checked and needs something is refused |
| PrivilegeFields.DeletedStaysRefused | sql/query_privileges.py:416-426 | deleting a user's rows on an instance takes those queries away at once, and for good, whatever happens, until a row is inserted for that user there |
| PrivilegeFields.DeletedInRunRefused | sql/query_privileges.py:416-426 | every run that ends in such a deletion refuses them |
| PrivilegeFields.ExpiredRefused | sql/query_privileges.py:516 | so does every state once enough days have passed |
| PrivilegeFields.ModifiedByColumns | sql/query_privileges.py:416-432 | delete sets the mark, change the day and limit, of exactly the rows with the ids, and nothing else |
| PrivilegeFields.StoredByColumns | sql/query_privileges.py:213-269 | an application of an ordinary user is stored iff it is complete, its instance readable, and no row the checker would find covers what it asks for; else nothing changes |
| PrivilegeFields.StoredBySuperuser | sql/query_privileges.py:243-269 | a superuser's application is never stored while the limit for administrators is not 0 |
| PrivilegeFields.AppliedIsReviewed | sql/query_privileges.py:301-303 | the status of the new audit acts like a review with that outcome |
| PrivilegeFields.RequestGranted | sql/query_privileges.py:271-290 | an application that is stored and passed gives its user one live row on its instance per name, with the day and limit of the form |
| PrivilegeFields.UnknownTypeNeverGranted | sql/query_privileges.py:588-621 | a pass of an application of no known type raises, and the transaction undoes all |
| PrivilegeRuns.AskedByName | sql/query_privileges.py:285-290 | with comma-free names, the name of such a row is literally one the request listed |
| PrivilegeRuns.ApprovedNamesExactly | sql/query_privileges.py:285-290 | joining names at apply time and splitting them in the callback gives them back iff none holds a comma |
| PrivilegeRuns.ApprovalGrantsExactly | sql/query_privileges.py:588-621 | passing appends one live row per name, in order, with the application's user, instance, day and limit, and nothing else changes |
| PrivilegeRuns.ApprovedQueriesAllowed | sql/query_privileges.py:39-130 | after a pass, with nonzero limits, every query that needs only approved names, of which `*` approves every database, is allowed to that user on every engine and on each day up to the expiry, through any later steps that leave the new rows alone |
| PrivilegeRuns.NoSecondApplication | sql/query_privileges.py:243-269 | meanwhile the same application is refused as a duplicate |
| PrivilegeRuns.ReviewNeverDenies | sql/query_privileges.py:583-621 | no review outcome denies an allowed query or raises its limit, on any engine |
| PrivilegeRuns.ReviewsGrantExactly | sql/query_privileges.py:583-621 | after any list of review outcomes, an application has the last status, its names have been granted once for each pass in the list, and nothing else has changed |
| PrivilegeRuns.RejectionLeavesGrants | sql/query_privileges.py:583-588 | after any list of outcomes that ends in a rejection, the rows added number the names times the passes, so there are none iff no outcome was a pass |
| PrivilegeRuns.ZeroLimitHides | sql/query_privileges.py:520-522 | a run: two applications for one database, the first with limit 0, both passed and live, and the first pass refuses the tables of the database |
| ApprovalChain.AuditV2.CreateAudit | sql/utils/workflow_audit.py:293-388 | the record starts at the first group of the setting, with the second one next, waiting |
| ApprovalChain.AuditV2.OperatePass | sql/utils/workflow_audit.py:484-509 | a pass moves on to the next group, looked up by its first place, or passes the record after the last; a group out of the chain raises |
| ApprovalChain.AuditV2.OperateOn | sql/utils/workflow_audit.py:390-475 | an operation has its effect exactly when status, actor and group allow it, else nothing changes; the execution actions are allowed on a passed record and leave it as it is |
| ApprovalChain.PassedOnlyByWholeChain | sql/utils/workflow_audit.py:484-509 | in every run of a chain of distinct groups, the passes that took effect came from entitled members of its groups one after the other, never from a plain applicant under the self-review ban, and the record is passed only when all groups have |
| ApprovalChain.SelfReviewBanned | sql/utils/workflow_audit.py:415-424 | in every run of any chain, no pass by the applicant takes effect while self-review is banned, but for a superuser's |
| ApprovalChain.WaitingExactly | sql/utils/workflow_audit.py:390-475 | on a record waiting for a group, by fields: a superuser or an entitled reviewer can pass it on or reject it, leaving no current and no next group, the applicant can withdraw it, and nothing else has effect |
| ApprovalChain.PassedExactly | sql/utils/workflow_audit.py:115-127 | on a passed record: any reviewer can still reject it, the applicant withdraw it, anybody execute it, and nobody pass it |
| ApprovalChain.EndIsFinal | sql/utils/workflow_audit.py:128-130 | after a reject or an abort no operation of any run takes effect |
| ApprovalChain.EndedNeverPasses | sql/utils/workflow_audit.py:540-571 | so a record rejected by who speaks for its group, or withdrawn, while it waits, ends rejected or aborted in every run |
| ApprovalChain.RepeatedChainNeverPasses | sql/utils/workflow_audit.py:496-508 | in every run of a chain that repeats a group, the record stays before the repeated place and is never passed |
| ApprovalChain.PassableExactly | sql/utils/workflow_audit.py:496-508 | some run passes the application iff its chain names no group twice |
| ReviewedRuns.RunOfTables | sql/query_privileges.py:436-471 | a run of the whole system acts on the tables as the run of its apply, review, delete, change and day steps, so all laws of those runs hold of it |
| ReviewedRuns.PassedStepIsApproved | sql/query_privileges.py:461-471 | in every run of the whole system, execution actions included, an application handed to the callback as passed has a chain of distinct groups that have all passed it |
| ReviewedRuns.SystemRowOrigin | sql/query_privileges.py:461-471 | every row of every such run was inserted by an operation on an application asking for it that every group of its chain had passed by then |
| ReviewedRuns.AllowedOnlyAfterWholeChain | sql/query_privileges.py:436-471 | in every run of the whole system and on every engine, each table or database an allowed and checked query needs has a live row from an application of the same user that every group of its chain had passed, in order, when the row was inserted |
| ReviewedRuns.GrantedAgainExactly | sql/utils/workflow_audit.py:452-458 | in every run, an application is granted more than once iff an execution action was carried out on it, then exactly once more per action, and the rows inserted for it number its names times its grantings |
| ReviewedRuns.ExecutedOnlyAfterWholeChain | sql/utils/workflow_audit.py:121-127 | an execution action is carried out only on an application that its whole chain has passed |
| ReviewedRuns.ExecutionGrantsAgain | sql/query_privileges.py:463-471 | an execution action by any reviewer on a passed application inserts all its rows again, live and with their first day and limit, whatever was deleted or changed |
| ReviewedRuns.EndedStays | sql/query_privileges.py:461-471 | after an application is rejected or withdrawn, no step of any run changes its review, grants it or inserts a row for it |
| ReviewedRuns.EndedNeverGranted | sql/query_privileges.py:461-471 | one that is rejected or withdrawn while it waits is never granted, before or after, and no row is inserted for it |
| ReviewedRuns.StatusAgrees | sql/query_privileges.py:469-471 | in every run the status of each application is that of its review record |
| ReviewedRuns.OnlyReviewersOperate | sql/query_privileges.py:435 | an operation by somebody who is neither superuser nor reviewer changes nothing |
| DdlParser.KeepLines | scripts/_w3_dba_bug11_verify.py:93-98 | the inner loop keeps exactly the lines that are neither blank nor comments |
| DdlParser.ParseAllStatements | scripts/_w3_dba_bug11_verify.py:46-123 | both versions of the parser compute the specification whose laws follow |
| DdlLaws.ParseConcat | scripts/_w3_dba_bug11_verify.py:91 | parsing is a homomorphism: two texts joined by a semicolon parse to the two lists joined |
| DdlLaws.StripIsIdle | scripts/_w3_dba_bug11_verify.py:91-99 | trimming a piece before its lines are read changes neither the cleaned text nor the content of the kept lines |
| DdlLaws.CleanIdempotent | scripts/_w3_dba_bug11_verify.py:93-99 | cleaning a cleaned text does nothing, and cleaning keeps the content of every kept line |
| DdlLaws.PrintParseRoundTrip | scripts/_w3_dba_bug11_verify.py:86-123 | clean statements joined by semicolons parse to exactly themselves |
| DdlLaws.ParsePrintRoundTrip | scripts/_w3_dba_bug11_verify.py:86-123 | for every text, joining the `full` fields of its parse and parsing again gives the same statements, kind, schema and table included |
| DdlLaws.LosesNothing | scripts/_w3_dba_bug11_verify.py:91-101 | the trimmed lines of all statements are exactly the trimmed lines of the text's pieces that are neither blank nor comments, in order |
| DdlComments.DroppedExactly | scripts/_w3_dba_bug11_verify.py:93-97 | on its characters, a line is left out iff it is blank, or starts after blanks with two dashes or, in the new version, two hash signs |
| DdlComments.CommentLineIgnored | scripts/_w3_dba_bug11_verify.py:93-99 | inserting a line of blanks, two dashes, or for the new version two hash signs, and anything without semicolon at any line boundary leaves the result as it is |
| DdlComments.CommentAlone | scripts/_w3_dba_bug11_verify.py:99-101 | such a line alone gives no statement |
| DdlComments.NoCommentSurvives | scripts/_w3_dba_bug11_verify.py:93-99 | no line of any `full` field is blank or starts, after blanks, with a comment mark |
| DdlComments.ContentSurvives | scripts/_w3_dba_bug11_verify.py:93-101 | every other line of every piece is, trimmed, a line of some `full` field |
| DdlLaws.CommentInvariance | scripts/_w3_dba_bug11_verify.py:93-99 | inserting a whole blank or comment line without semicolon at any line boundary never changes the result |
| DdlLaws.CommentAtEnd | scripts/_w3_dba_bug11_verify.py:93-99 | nor does appending one behind a last line that is not ended |
| DdlLaws.VersionsAgreeExactly | scripts/_w3_dba_bug11_verify.py:46-99 | the old and the new parser give the same result on a text iff no line of a piece between semicolons starts with two hash signs |
| DdlHeader.AlterHeadReadsTarget | scripts/_w3_dba_bug11_verify.py:102-110 | ALTER TABLE in any case, with any blanks and each spelling of `db.table` or `table`, with or without backticks, gives exactly that schema and table: for plain names, and in backticks for all names the pattern does not take apart, whatever follows a closing backtick but what would make the name a schema |
| DdlHeaderExact.TickedTargetExactly | scripts/_w3_dba_bug11_verify.py:32-36 | whatever names are written in backticks, the head gives back exactly them iff the table is not empty and has no backtick, blank or opening parenthesis, the schema is one or two plain names, and a table alone does not look qualified |
| DdlHeaderExact.AlterHeadReads | scripts/_w3_dba_bug11_verify.py:32-36 | whatever text ALTER TABLE matches, its table is such a table name and its schema, if any, one or two plain names |
| DdlHeader.SecondNameFails | scripts/_w3_dba_bug11_verify.py:33 | the optional second name of the schema group, which first swallows the table, finds no dot and is given up |
| DdlHeader.CreateIndexHeadReadsTarget | scripts/_w3_dba_bug11_verify.py:111-119 | CREATE INDEX in any case, with or without a kind, a USING clause and backticks, gives exactly the target it names, under the same conditions |
| DdlOther.OtherKindReadsWord | scripts/_w3_dba_bug11_verify.py:120-122 | the kind of other statements is their first word in any case, when it is one of the five known |
| DdlOther.OtherStatementsClassified | scripts/_w3_dba_bug11_verify.py:102-122 | INSERT, UPDATE, DELETE and USE statements match neither head pattern and are classified by their word, without a target |
| DdlOther.CreateOtherClassified | scripts/_w3_dba_bug11_verify.py:111-122 | CREATE and a word that is neither INDEX nor one of its three kinds, in any letter case, is classified CREATE, without a target |
| DdlOther.OtherwiseOther | scripts/_w3_dba_bug11_verify.py:120-122 | a statement whose first word is neither ALTER nor one of the five kinds is OTHER, without a target |
| DdlOther.AlterOtherIsOther | scripts/_w3_dba_bug11_verify.py:102-122 | so is ALTER and a word that is not TABLE |
| Pattern.MatchLit | scripts/_w3_dba_bug11_verify.py:32-43 | a keyword matches exactly the text that spells it in any letter case |
| Pattern.RunTakenWhole | scripts/_w3_dba_bug11_verify.py:32-43 | a repetition takes the whole run when the rest matches behind it |
| Pattern.MatchEnds | scripts/_w3_dba_bug11_verify.py:32-43 | a match of an expression and what follows it is a match of what follows at a later place, with the same groups if the expression has none |
| Pattern.RunFails | scripts/_w3_dba_bug11_verify.py:32-43 | a repetition fails when the rest fails behind every length it may take |
| Text.SplitJoinExactly | sql/query_privileges.py:604 | splitting undoes joining by a separator iff no part holds it |
| Lockout.User.Save | sql/models.py:77-80 | the stored counter is kept between 0 and 127 |
| Lockout.User.Challenge | common/auth.py:54-63 | a right password clears the counter, a wrong one changes nothing |
| Lockout.User.TryLogin | common/auth.py:65-116 | one attempt, with the lock, its expiry and the failure count, as a function of the record |
| Lockout.RunKeepsSound | common/auth.py:89-116 | in every run the counter stays within the lock count, a nonzero counter has a time of last failure, and that time is not ahead of the clock |
| Lockout.WindowBound | common/auth.py:89-116 | from any reachable state, a half-open window of at most the lock time without a success holds no more failed checks than are left before the lock |
| Lockout.RateBound | common/auth.py:89-116 | from a fresh account, D seconds without a success hold at most lock count times D / lock time, rounded up, failed checks |
| Lockout.BoundAttained | common/auth.py:89-116 | for every D some run reaches that number, so it is the maximum |
| Lockout.LockTimesRoundUp | common/auth.py:95-98 | the number of lock times in D seconds is D / lock time rounded up |
| Lockout.RateBoundRounded | common/auth.py:89-116 | so there are at most lock count * (D / lock time + 1) failed checks |
| Lockout.LockExpiresByItself | common/auth.py:92-116 | attempts made while locked are all turned away and change nothing, so the first right password at or after last failure plus lock time succeeds and clears the counter |
| Lockout.RightPasswordClears | common/auth.py:54-63 | from any record, a right password while the lock does not hold succeeds and clears the counter, also one below the lock count |
| Lockout.WrongPasswordCounts | common/auth.py:105-116 | a wrong password while the lock does not hold counts one more, or as the first once the lock has run out, and keeps its time |
| Lockout.LockNeedsFailures | common/auth.py:89-116 | between a success and the next attempt the lock turns away there are at least lock count failed checks, whatever came before |
| Lockout.RateBoundedExactly | sql/models.py:77-80 | the lock bounds the failures of a window at all iff the lock count is at most 127 |
| SysConfig.Config.GetAllConfig | common/config.py:19-33 | the cache becomes a fresh load of the table |
| SysConfig.Config.GetValue | common/config.py:35-50 | the answer and the cache after it: a truthy cached value first, else the normalised row, else the default |
| SysConfig.Config.Set | common/config.py:60-70 | one row and one cache entry change |
| SysConfig.Config.Purge | common/config.py:94-101 | table and cache are emptied |
| SysConfig.Config.BulkCreate | common/config.py:78-85 | the rows are built exactly when the text is a list of pairs whose trimmed keys differ |
| SysConfig.Config.Replace | common/config.py:72-92 | the table becomes exactly the given list, or stays as it was on malformed or colliding items, and either way the cache ends as a fresh load |
| SysConfig.LookupStored | common/config.py:67-69 | storing changes the answer for its own item only |
| SysConfig.LoadLooksUp | common/config.py:22-30 | a fresh load holds exactly the items of the table, each with its loaded value |
| SysConfig.RowsAt | common/config.py:79-84 | each new row is the trimmed pair at its place in the list |
| SysConfig.TransparentExactly | common/config.py:35-50 | `get` answers as an uncached read iff the cache agrees with the table on that key |
| SysConfig.StepCoherentExactly | common/config.py:19-101 | an operation keeps a coherent cache coherent iff it is plain: it sets a boolean, the empty string or a non-blank string that spells no boolean, or loads strings both normalisers read alike |
| SysConfig.RunTransparent | common/config.py:19-101 | after any run of plain operations from a coherent state, `get` answers every key as an uncached read would |
| SysConfig.FreshRunTransparent | common/config.py:16-101 | so does a fresh object over any table with distinct items |
| SysConfig.AnsweredFromTable | common/config.py:35-58 | a key that is not cached is answered, on the characters of its row: a boolean in any letter case, the default for blanks, else the string |
| SysConfig.AnsweredAfterLoad | common/config.py:19-50 | after a load: the four usual spellings as booleans, the default for the empty string, every other string as it is |
| SysConfig.AnswerIsCached | common/config.py:45-50 | an answer is kept in the cache under its key alone, a default is not |
| SysConfig.SetGetRoundTrip | common/config.py:35-70 | what is set is what is read: both booleans and every non-blank string that spells none come back after any plain operations that leave the setting alone |
| SysConfig.ReplaceByItems | common/config.py:72-92 | exactly a list of pairs whose trimmed keys differ is stored, trimmed and in order; all else leaves the table |
| ExportSql.SaveSql | sql/offlinedownload.py:460-487 | the file holds one statement per row, in order |
| ExportSql.ReadUndoesWrite | sql/offlinedownload.py:467-487 | a reader of quoted literals recovers exactly the written rows in order, whatever the texts hold, and NULL is never taken for a text |
| ExportSql.WriteIsInjective | sql/offlinedownload.py:467-487 | two results with the same file have the same cells |
| ExportSql.ReadBackExactly | sql/offlinedownload.py:467-487 | a file reads back as its rows iff no text written without quotes is `NULL`, starts with a quote or holds a comma or closing parenthesis, and no row is one empty such text |
| ExportSql.StatementsReadBack | sql/offlinedownload.py:467-487 | a reader of INSERT statements gets back exactly the columns and the rows of the file, for bare column names |
| ExportCheck.ReviewSet.PreCountCheck | sql/offlinedownload.py:157-329 | every return leaves exactly one row, and the error count is 1 iff that row has level 2 |
| ExportCheck.VerdictExactly | sql/offlinedownload.py:248-321 | by counting, by the fallback fetch and on engines without counting, a result of n rows is accepted iff n is at most the limit, and then reported as n |
| ExportCheck.AcceptedExactly | sql/offlinedownload.py:176-321 | for every submission and every answer: accepted iff it is one statement, not objected to, whose count or fetched rows are found without error and within the limit; that number, or 0, is reported |
| ExportCheck.PathsAgree | sql/offlinedownload.py:248-321 | any two submissions with the same number of rows get the same verdict, whichever path each takes |
| Binlog.ReadOneFile | sql/binlog.py:50-57 | the inner loop stops right after the row that fills the answer |
| Binlog.ReadOutputFiles | sql/binlog.py:41-58 | the file reader returns the first rows of the unbounded parse of all visible `.sql` files, at least one if there is any |
| Binlog.ReadStream | sql/binlog.py:223-235 | the streaming loop returns the first num rows of the unbounded parse |
| Binlog.ReadersAgreeExactly | sql/binlog.py:41-58 | on the same lines both return the same rows iff at least one row is asked for or there is none |
| Binlog.RowsCarryNearestComment | sql/binlog.py:27-38 | the unbounded parse is the statement lines in order, each with the nearest comment line before it, across files |
| Binlog.CommentLine | sql/binlog.py:28-31 | blanks, a hash sign and anything is no row, and comes into force as the comment |
| Binlog.TextLine | sql/binlog.py:28-38 | a line whose text starts with INSERT, DELETE or UPDATE in any letter case is a row with that text, closed by a semicolon, and the comment in force; any other text is none |
| Binlog.BlankLine | sql/binlog.py:28-38 | a blank line is no row |
| Binlog.FirstRows | sql/binlog.py:54-57 | both readers return the first rows, as many as asked for of those there are, the file reader at least one |
| Binlog.FilesRead | sql/binlog.py:45-47 | exactly the lines of files with the ending `.sql` that are not hidden are read |
| Binlog.CommentExactly | sql/binlog.py:30-36 | a row has no comment iff no comment line comes before it, else that of the last one |
| StackChart.Fill | common/dashboard.py:276-286 | the table has one entry per pair, the count of its last row or 0 |
| StackChart.AppendEntries | common/dashboard.py:291-292 | one environment adds one entry to every series |
| StackChart.GenStackChart | common/dashboard.py:275-292 | there is one series per type with one entry per environment, each the count of its pair or 0, in whatever order the sets are listed |
| StackChart.AxesByRows | common/dashboard.py:277-278 | the environments are the first cells of rows that have one, the types the second cells |
| StackChart.ChartShowsRow | common/dashboard.py:282-292 | the chart shows the count of each row whose pair does not come again |
| StackChart.ChartShowsZero | common/dashboard.py:279 | and 0 for a pair without row |
| StackChart.PivotConserves | common/dashboard.py:282-292 | the sum of all series is the sum of the counts read in, less those that a later row of the same pair replaced |
| StackChart.DistinctPairsConserved | common/dashboard.py:282-292 | for distinct pairs the two sums are equal |

## Left out

- HTTP requests and responses, page rendering, permission decorators, notifications, audit logs and charts.
- Libraries: table extraction and SQL parsing (their results are inputs), password hashing, the ORM and its transactions (commit and rollback are taken as given), and the csv, spreadsheet, xml and zip writers.
- Parsing of ids, days and limits out of request strings, and of integers out of configuration strings.
- PrivilegeStore.Store.QueryPrivCheck: one check reads one snapshot of rows and one day; a midnight or a write between its lookups is not modelled.
- PrivilegeStore.Store.QueryPrivApply: the audit's initial status is an input, and two applications at the same time are not modelled.
- PrivilegeChecks.VerdictExactly: names are compared character by character, while a database with a case-insensitive collation compares them loosely; a user marked inactive is not modelled.
- ApprovalChain.AuditV2.OperateOn: only the review of query applications, so not automatic passes and rejects, which exist for SQL workflows alone; whether an approval group exists and has members is an input.
- ReviewedRuns.SystemRowOrigin: operations come through the review page; the REST interface, which passes applications by the same code but without a transaction around the callback, is not modelled.
- ApprovalChain.PassableExactly: assumes that no approval group has the id -1, which the program uses for "no group".
- DdlParser.ParseAllStatements: the word class of the USING clause is its ASCII part, and upper-casing covers the letters that become ASCII, which are all that the known kinds need.
- DdlHeader.AlterHeadReadsTarget: a name without backticks around it, and a table behind such a schema, must be plain; the matcher itself runs on every text.
- Lockout.User.TryLogin: users who do not exist locally, directory logins, two-factor sessions, concurrent logins and administrative edits of the counter.
- SysConfig.Config.Set: values that are neither booleans nor strings, length limits of the columns, and other writers to the table.
- SysConfig.Config.GetAllConfig: database errors while reading or deleting, after which the program logs and goes on.
- ExportSql.ReadUndoesWrite: the reader follows the standard, without backslash escapes; values printed without quotes must be bare, as numbers are, and ReadBackExactly says exactly what that excludes, a duration of a day or more for one.
- ExportSql.StatementsReadBack: column names are written as they are, so a name with a comma or a closing parenthesis is not covered.
- ExportSql.SaveSql: the text of dates and numbers is an input.
- ExportCheck.VerdictExactly: the engine's answers are inputs, assumed truthful about the number of rows; splitting the submitted text into statements is an input too.
- Binlog.ReadOutputFiles: the files come in the order they are walked and sorted; decoding is left out.
- Inner loops of the parser, the file reader and the pivot are methods of their own with the same steps.
- The SQL workflow life cycle, online schema change, archiving, slow logs and reports.
