# Flotestro, modelled in Dafny

Flotestro is a fleet-management panel with agents on the managed hosts. This project models the parts of it that hold
real algorithms and protocols, and proves what they promise:

- **The shared screen layout** (`Widgets`, `ScreenLayout`, `LayoutTransactions`, `LayoutProgress`,
  `ResetStatements`, `LayoutHandlers`). One row with a
  revision, an undo history and a reset, written by any number of transactions under READ COMMITTED. `ScreenLayout` is
  the serial view; `LayoutTransactions` interleaves the real statements and proves that every run amounts to a serial log;
  `LayoutProgress` is the converse.
- **The redaction of a support bundle** (`Text`, `Environment`, `EnvironmentValues`, `Documents`, `DeclaredKeys`,
  `DocumentHeap`, `ManifestCounts`). `Documents`
  is the drop of a path on document values; `DocumentHeap` is the in-place code over mappings and slices, proved against
  it; `ManifestCounts` is what the manifest reports.
  `Environment` holds the reader, the redactor and the proof that they commute.
- **Budget keys as SQL patterns** (`BudgetPattern`). A small compiler whose meaning is preserved.
- **Reading the fleet** (`Order`, `FleetPaging`, `HostFilter`, `Lists`). Keyset pages, the loop that collects them, and
  sweeps that are cut and resumed.
- **Group member rewrites** (`GroupMembers`, `GroupRewrites`). The checks of one request, and the protocol among others.
- **The write-ahead trail** (`ChangeTrail`). Intents, outcomes, crashes, reconcilers and the retention sweep.
- **The bulk host edit** (`Sorting`, `Tags`, `BulkEdit`). A chain of conditional writes under arbitrary interference.
- **Campaign orders** (`Targets`, `RetryOrder`). Strict target lists, exclusions, and retrying as a fixpoint.
- **The bill of materials** (`BuildList`, `Bill`). The line parser and its inverse, and a canonical bill.

Verify everything with `dafny verify dfyconfig.toml`.

## Where a promise does not hold as written

The model follows the code. Where a comment or a document promises more, the project gives an input that shows it and
the exact condition under which the promise does hold:

- *A layout the screen could not draw is refused.* The last column of a widget is a 64-bit sum that wraps around:
  `Widgets.WrappedPlaceIsAccepted`; exactly what passes: `Widgets.Validate`, `Widgets.DrawableUnlessWrapped`.
- *What a layout write replaces is kept first.* After a reset the revisions restart and the trim compares them with the
  old ones: `ScreenLayout.UndoLostAfterReset`; exactly when it holds: `ScreenLayout.OverwriteKeepsIff`.
- *A reset keeps what it deletes.* The reset is two statements, and a write that commits while the first one runs is lost:
  `ResetStatements.SplitResetLosesTheWrite`. Exactly when the deleted row is kept, over every log and everything that can
  commit around the two statements: `ResetStatements.SplitResetOverLogs`, `ResetStatements.PromptKeepIff`.
- *A redacted environment file reads like the original.* A hidden line can outgrow the reader's 64 KiB line buffer:
  `Environment.HiddenLineOutgrows`; the condition: `Environment.RedactionCommutes`.
- *The counts of the manifest.* The document does not depend on the order of the keys, its counts do:
  `Documents.OrderShowsInTheCounts`; every order reports the same exactly when no key addresses a position below another
  one: `ManifestCounts.CountsCanonicalIff`.
- *Too broad means more than 10000 hosts.* The error comes from 10500 matches on, or when the five-hundredth match has no
  host name, because an empty name means "from the start": `FleetPaging.PageHosts`, `FleetPaging.NamelessFleet`. Resumed sweeps compose exactly on
  fleets whose hosts all have names: `FleetPaging.SweepsComposeIff`.
- *An idempotency key is spent for good* (`db/migrations/0129_audit_intent.sql`). The retention sweep removes an answered
  beginning and its key can be used again: `ChangeTrail.KeyUsedTwice`; exactly when: `ChangeTrail.AdmittedIff`.
- *A change without an outcome keeps its beginning on the trail.* The second use of a key seems answered by the outcome of
  the first and its beginning can be swept: `ChangeTrail.SecondBeginningLost`; exactly when a beginning is on the trail:
  `ChangeTrail.OnTheTrailIff`.
- *A bulk edit of several facts lands only while nobody else wrote the host.* The read-back after each write is a
  statement of its own: `BulkEdit.MeddledEdit`; it holds for every interference exactly when the change is a single
  write: `BulkEdit.ExactIff`, `BulkEdit.WholeExactIff`.
- *A host named twice is answered once.* Texts are compared as they are written; the counters count hosts exactly when no
  host is named in two spellings: `BulkEdit.TwoSpellingsAnsweredTwice`, `BulkEdit.AnsweredPerHostIff`.
- *A listed host outside the scope is refused as such.* A host in scope named by another spelling of its identifier is
  refused with the same reason: `Targets.OtherSpellingRefused`; each reason both ways: `Targets.ReasonIff`.
- *A retry carries the deadline.* Minutes beyond what a 64-bit duration holds wrap around: `RetryOrder.DeadlineWraps`;
  which campaigns are carried whole: `RetryOrder.RetryIff`.
- *Build settings survive the round trip.* Values with blanks or quotes are printed quoted and read back quoted:
  `BuildList.LinkerFlagsComeBackQuoted`; the condition: `BuildList.ShownIff`.
- *The component list is canonical.* The references and the serial always are; the list itself is not for a module listed
  with two sums: `Bill.TwoSumsShow`. It is exactly when no two dependencies share a reference and differ otherwise:
  `Bill.ComponentsCanonicalIff`.

## Model

| member | source | states |
|---|---|---|
| Widgets.Validate | internal/adminapi/dashboard.go:158-197 | the loop accepts exactly the layouts a screen can draw (1 to 40 drawable widgets, no key twice) and those drawable but for a widget whose last column wraps around in 64 bits; otherwise it names the first fault and where it is |
| Widgets.DrawableUnlessWrapped | internal/adminapi/dashboard.go:187-189 | what passes is drawable exactly when no placed widget ends beyond the largest 64-bit integer |
| Widgets.WrappedPlaceIsAccepted | internal/adminapi/dashboard.go:187-189 | the place 9223372036854775807 passes every check, and no screen can draw it |
| ScreenLayout.RevisionsCount | internal/adminapi/dashboard.go:104-116 | after every serial log the stored revision is the number of writes since the last reset, and the row holds the last write |
| ScreenLayout.OneCommitPerRevision | internal/adminapi/dashboard.go:104-116 | two committed writes naming one revision always have a reset between them |
| ScreenLayout.ReplacesWhatItNamed | internal/adminapi/dashboard.go:270-317 | a committed write replaces exactly the arrangement stored at the revision it named, by the event just before it |
| ScreenLayout.OverwriteMovesWindow | internal/adminapi/dashboard.go:119-127 | keep and trim move the window of ten kept revisions by one and change no other entry |
| ScreenLayout.HistoryWithoutReset | internal/adminapi/dashboard.go:117-127 | without resets the history is exactly the last ten replaced revisions, each with the arrangement stored then |
| ScreenLayout.TrimmedSize | internal/adminapi/dashboard.go:124-127 | a trimmed history holds at most ten entries, whatever was in it |
| ScreenLayout.HistoryBound | internal/adminapi/dashboard.go:119-127 | over all logs with resets: at most ten entries after an overwrite, at most twelve ever |
| ScreenLayout.TwelveIsReached | internal/adminapi/dashboard.go:356-378 | a log that reaches twelve, so the bound is tight |
| ScreenLayout.OverwriteKeepsIff | internal/adminapi/dashboard.go:290-299 | exactly when the arrangement an overwrite replaces is in the history afterwards |
| ScreenLayout.ResetKeepsIff | internal/adminapi/dashboard.go:356-378 | exactly when a reset keeps the arrangement it deletes, and that it never loses another entry |
| ScreenLayout.OverwriteKeepsWithoutReset | internal/adminapi/dashboard.go:290-299 | in a first epoch every replaced arrangement is kept |
| ScreenLayout.UndoLostAfterReset | internal/adminapi/dashboard.go:124-127 | after any reset that left a revision above ten, the second write loses the first one's undo entry |
| ScreenLayout.ElevenWritesThenReset | internal/adminapi/dashboard.go:341-387 | such a history is reachable |
| LayoutTransactions.NextKeeps | internal/adminapi/dashboard.go:270-317 | every statement of every transaction keeps the invariant tying locks, uncommitted changes and the committed log together |
| LayoutTransactions.RunIsSerial | internal/adminapi/dashboard.go:270-317 | in every interleaving of any number of transactions, crashes and resets, the committed tables are the replay of the log of commits |
| LayoutTransactions.NobodyOverwrittenUnseen | internal/adminapi/dashboard.go:104-116 | in every run two commits naming one revision have a reset between them |
| LayoutTransactions.OnlyTheHolderCommits | internal/adminapi/dashboard.go:270-317 | a commit is made by the lock holder or the sole inserter, names the committed revision, stores the next one, and leaves nobody else ready to commit |
| LayoutTransactions.RunHistory | internal/adminapi/dashboard.go:117-127 | in every reset-free run the history is exactly the window of the last ten replaced revisions |
| LayoutTransactions.RunBound | internal/adminapi/dashboard.go:119-127 | every reachable state holds at most twelve history entries, ten under a row that was overwritten |
| LayoutTransactions.FirstWritersRace | internal/adminapi/dashboard.go:104-116 | two first writers both read no row; one becomes revision 1 and the guard refuses the other |
| LayoutProgress.AloneIff | internal/adminapi/dashboard.go:270-317 | from every reachable state in which nobody holds the row or its key, a write runs through if and only if it names the stored revision; it then stores the next one, with the exact condition for the replaced arrangement to be put back |
| LayoutProgress.AloneIsSerial | internal/adminapi/dashboard.go:270-317 | the statements of a writer left alone leave exactly what the serial write leaves, and nothing else changes |
| LayoutProgress.EveryLogIsRun | internal/adminapi/dashboard.go:270-317 | every legal log of writes and resets is the log of some run, which ends in the tables of its replay |
| ResetStatements.SplitResetAlone | internal/adminapi/dashboard.go:356-378 | the two statements of a reset are the one-step reset when nothing commits between them |
| ResetStatements.SplitResetKeepsIff | internal/adminapi/dashboard.go:119-123 | for any three tables (read by the keep, inserted into, found by the delete), exactly when the deleted row is kept |
| ResetStatements.InsertedExcludes | internal/adminapi/dashboard.go:119-123 | a keep that inserted what it read lets nothing commit before the delete, because every change keeps the row first and waits for the key |
| ResetStatements.SplitResetOverLogs | internal/adminapi/dashboard.go:356-378 | over every log and all commits around the statements, resets included: the deleted row is kept exactly when its revision already holds it, or is free and the keep inserted that very row |
| ResetStatements.PromptKeepIff | internal/adminapi/dashboard.go:356-378 | a keep that does not wait keeps a free revision exactly when nothing committed before the delete |
| ResetStatements.WithoutResetIff | internal/adminapi/dashboard.go:356-378 | the same for a keep that waited, among commits without a reset |
| ResetStatements.FirstEpochIff | internal/adminapi/dashboard.go:356-378 | in a first epoch the row is kept exactly when nothing committed in between, the first write included |
| ResetStatements.FirstWriteIff | internal/adminapi/dashboard.go:356-378 | a first write after the keep found no row is kept exactly when an older epoch left the same arrangement at revision 1 |
| ResetStatements.SplitResetLosesTheWrite | internal/adminapi/dashboard.go:356-378 | in a first epoch every write committed while the keep runs is deleted and not kept |
| ResetStatements.SameRowComesBack | internal/adminapi/dashboard.go:117-127 | commits in between need not lose the row: a keep that waited, and a reset and a first write that bring the same row back |
| LayoutHandlers.Screen.SetLayout | internal/adminapi/dashboard.go:219-332 | the handler stores exactly what the serial write says, or changes nothing, with each answer's exact condition |
| LayoutHandlers.Screen.ResetLayout | internal/adminapi/dashboard.go:341-387 | the handler does the serial reset, and reports a screen with nothing stored |
| Environment.ReadEnvironment | cmd/agentctl/environment.go:45-80 | the scanner loop computes the variables the file stands for, the last line of a key winning |
| Environment.MatchIff | cmd/agentctl/supportbundle.go:293-293 | the matcher finds exactly the groups the assignment expression describes |
| Environment.RedactEnvironment | cmd/agentctl/supportbundle.go:298-321 | the loop returns the redacted file or the refusal, and for a file it accepts counts each name's hidden lines exactly |
| Environment.AssignmentReads | cmd/agentctl/environment.go:45-80 | how the reader reads every line the redactor takes for an assignment, whatever its export group and blanks |
| Environment.PartCommutes | cmd/agentctl/supportbundle.go:298-321 | one accepted line reads the same before and after redaction, but for a secret's value |
| Environment.RedactedRawLines | cmd/agentctl/supportbundle.go:298-321 | the redacted file has the same lines, each redacted in its place |
| Environment.RedactionCommutes | cmd/agentctl/supportbundle.go:298-321 | redaction commutes with reading; the redacted file cannot be read exactly when a hidden line outgrew the buffer |
| Environment.IdentifiersCommute | cmd/agentctl/supportbundle.go:293-321 | every identifier reads as before, except that secret names present read as the redacted value |
| Environment.HiddenLineOutgrows | cmd/agentctl/environment.go:45-80 | files that are read and accepted and whose redacted form is not read |
| EnvironmentValues.QuotedReads | cmd/agentctl/environment.go:57-76 | a value between two equal quotes, exported or not and with blanks around it, is read as the text between them |
| EnvironmentValues.PlainReads | cmd/agentctl/environment.go:57-76 | any other tight value is read as it stands, a lone quote included |
| EnvironmentValues.QuotedFile | cmd/agentctl/environment.go:45-80 | a file of one quoted assignment holds that variable with that text and no other |
| EnvironmentValues.PlainFile | cmd/agentctl/environment.go:45-80 | the same for a value without quotes |
| EnvironmentValues.CommentReadsNothing | cmd/agentctl/environment.go:58-60 | a comment of either kind assigns nothing |
| EnvironmentValues.NoEqualsReadsNothing | cmd/agentctl/environment.go:62-65 | a line without an equals sign assigns nothing |
| EnvironmentValues.LastLineWins | cmd/agentctl/environment.go:56-76 | a key is read exactly when a line assigns it, with the value of the last such line |
| EnvironmentValues.RefusedIff | cmd/agentctl/supportbundle.go:298-321 | a file is refused exactly when a line is neither blank, a comment nor an assignment |
| EnvironmentValues.OtherLinesShip | cmd/agentctl/supportbundle.go:298-321 | a line that assigns no secret ships byte for byte, in its place |
| EnvironmentValues.NothingSecretShips | cmd/agentctl/supportbundle.go:298-321 | with nothing secret an accepted file ships as it was |
| Documents.AtDrop | cmd/agentctl/supportbundle.go:352-382 | dropping a path sets exactly the addressed positions to the redacted value and leaves every other position as it was |
| Documents.TargetsIff | cmd/agentctl/supportbundle.go:352-382 | the collected positions are exactly those the path addresses |
| Documents.TargetsSize | cmd/agentctl/supportbundle.go:352-382 | the count returned is the number of addressed positions |
| Documents.DropCommutes | cmd/agentctl/supportbundle.go:327-347 | two drops commute, also where one path is a prefix of the other |
| Documents.OrderDoesNotMatter | cmd/agentctl/supportbundle.go:327-347 | the resulting document depends only on the set of declared keys |
| Documents.NothingSecretLeft | cmd/agentctl/supportbundle.go:327-347 | after the loop no position a key addresses holds anything but the redacted value |
| Documents.RestUntouched | cmd/agentctl/supportbundle.go:327-347 | positions no key covers show after the loop what they showed before |
| Documents.SurvivesIff | cmd/agentctl/supportbundle.go:327-347 | a position survives the loop exactly when it lies below none of the keys |
| Documents.CountAfter | cmd/agentctl/supportbundle.go:327-347 | a key counts exactly the positions it addresses that lie below none of the earlier keys |
| Documents.FullCountIff | cmd/agentctl/supportbundle.go:327-347 | earlier keys leave a key its full count exactly when none of its positions lies below one of theirs |
| Documents.OrderShowsInTheCounts | cmd/agentctl/supportbundle.go:327-347 | for every key and one below it, the counts depend on the order and the document does not |
| Documents.NothingDroppedIff | cmd/agentctl/supportbundle.go:327-347 | nothing is counted exactly when no key addresses anything, and then the document is the same |
| DeclaredKeys.PathBack | cmd/agentctl/supportbundle.go:335-356 | every path of names without dots, spelled with dots and "[]", is read back from its key |
| DeclaredKeys.ListKeyTargets | cmd/agentctl/supportbundle.go:335-382 | the key a[].b targets exactly the field b of every element of the list a the document has |
| DeclaredKeys.PlainKeyTargets | cmd/agentctl/supportbundle.go:335-382 | the key a.b targets exactly that field |
| DeclaredKeys.DescribedIsHidden | cmd/agentctl/supportbundle.go:327-347 | after the loop a position a key describes shows nothing but the redacted value |
| DocumentHeap.DropPath | cmd/agentctl/supportbundle.go:352-382 | the recursive in-place drop leaves the heap holding the dropped document, writes only inside the document, and returns the count |
| DocumentHeap.DropValue | cmd/agentctl/supportbundle.go:352-416 | the value under the first name is hidden, walked as a list or walked on, as the specification says |
| DocumentHeap.HideAll | cmd/agentctl/supportbundle.go:352-382 | the loop over a final list segment overwrites every element |
| DocumentHeap.DropItems | cmd/agentctl/supportbundle.go:352-382 | the loop over an inner list segment drops the rest of the path in every element |
| DocumentHeap.RedactDocument | cmd/agentctl/supportbundle.go:327-347 | the loop over the keys drops them all, reports each key's count, ships the original bytes exactly when nothing was addressed, and leaves no secret where a key spelled a[].b or a.b points |
| ManifestCounts.ReportedAt | cmd/agentctl/supportbundle.go:327-347 | a key declared once reports what it counts after the keys before it |
| ManifestCounts.ApartReports | cmd/agentctl/supportbundle.go:327-347 | keys none of which addresses a position below another report every position they address |
| ManifestCounts.BelowReportsLess | cmd/agentctl/supportbundle.go:327-347 | a key with a position below another one reports less behind it than before it |
| ManifestCounts.CountsCanonicalIff | cmd/agentctl/supportbundle.go:327-347 | for keys without repeats, every order reports the same counts if and only if no key addresses a position below another |
| BudgetPattern.CompiledTokens | internal/adminapi/budgets.go:253-259 | no compiled pattern is malformed, and each character reads back as itself or as any sequence |
| BudgetPattern.CompilerPreservesMeaning | internal/adminapi/budgets.go:219-223 | LIKE with the compiled pattern matches s exactly when the asterisks of the key can be filled to make s |
| BudgetPattern.ExactKey | internal/adminapi/budgets.go:253-259 | a key without an asterisk matches only itself, percent signs, underscores and backslashes included |
| BudgetPattern.KeyMatchesItself | internal/adminapi/budgets.go:219-223 | every key matches its own pattern |
| BudgetPattern.CompilerInjective | internal/adminapi/budgets.go:253-259 | two keys with one pattern are one key |
| BudgetPattern.PatternStandsFor | internal/budgets/budgets.go:165-184 | the default pattern of a key stands for the key |
| BudgetPattern.HeldIsTotal | internal/adminapi/budgets.go:219-229 | the number a refused delete reports is the weight of the live leases the key stands for |
| BudgetPattern.BudgetStore.DeleteBudget | internal/adminapi/budgets.go:207-251 | the delete refuses exactly while a live lease is on a key the row stands for, and so never leaves a live lease without a limit |
| BudgetPattern.StillDescribed | internal/adminapi/budgets.go:207-251 | removing a row undescribes only keys it stands for |
| BudgetPattern.PatternIsWider | internal/budgets/budgets.go:165-184 | the delete's pattern covers keys the policy of the row does not govern, exactly those with a further colon |
| FleetPaging.ResumeFrom | internal/hosts/hosts.go:1446-1468 | the query behind the key of a match returns the matches after it, or everything when it has no name |
| FleetPaging.ResumeByName | internal/hosts/hosts.go:1453-1458 | a name without an identifier resumes at the hosts of that name and behind it |
| FleetPaging.PageHosts | internal/adminapi/groups.go:611-630 | success returns exactly the plain ordered query; too broad exactly from 10500 matches on or with a nameless five-hundredth match |
| FleetPaging.NamelessFleet | internal/hosts/hosts.go:1453-1458 | fleets of any size without names, which make that error come with as few as five hundred matches |
| FleetPaging.SweepFleet | internal/adminapi/hosts_filters.go:170-202 | the loop visits what the sweep specification says and leaves the key of the last host visited |
| FleetPaging.SweepVisits | internal/adminapi/hosts_filters.go:170-202 | on a named fleet a sweep from any match on visits the matches in order, all of them unless it was cut |
| FleetPaging.SweepsCompose | internal/adminapi/hosts_filters.go:170-202 | any chain of cut and resumed sweeps visits the fleet in order, each host once, and all of it once it finishes |
| FleetPaging.SweepsComposeIff | internal/adminapi/hosts_filters.go:170-202 | sweeps compose exactly on fleets in which every host has a name |
| FleetPaging.NamelessStartsOver | internal/adminapi/hosts_filters.go:170-202 | with a nameless host a sweep cut after its first host is repeated |
| FleetPaging.EndsWithoutTheClock | internal/adminapi/hosts_filters.go:170-202 | on a named fleet a call ends within the pages of the matches remaining after its key |
| FleetPaging.NamelessNeverEnds | internal/adminapi/hosts_filters.go:170-202 | with a nameless host at the end of a full first page only the clock ends a call |
| HostFilter.MatchingOrdered | internal/hosts/hosts.go:1242-1284 | narrowing the query to identifiers keeps the key order and repeats no host |
| HostFilter.SeenIff | internal/adminapi/groups.go:561-606 | a text is found in the narrowed query exactly when it is the canonical identifier of a host in scope |
| GroupMembers.VisibleHosts | internal/adminapi/groups.go:561-606 | the hosts of a request are returned only when every text is the identifier of a host in scope, and then exactly those; each error's condition |
| GroupMembers.RequireMembersInScope | internal/adminapi/groups.go:481-513 | comparing two lengths decides whether every current member is a host the caller sees |
| GroupMembers.CountDecides | internal/adminapi/groups.go:481-513 | the pigeonhole argument behind that comparison, both ways |
| GroupRewrites.NextKeeps | internal/adminapi/groups.go:386-436 | every statement of every request, edit and host removal keeps the invariant: a request at the current version has read every current member |
| GroupRewrites.NobodyRemovedUnseen | internal/adminapi/groups.go:386-436 | in every interleaving a committed rewrite removed and added only hosts its writer sees, and each version was replaced at most once |
| GroupRewrites.LockMeansFresh | internal/selector/store.go:250-304 | a conditional update that goes through finds no member its request did not count |
| GroupRewrites.EditInvalidates | internal/selector/store.go:195-234 | an edit on the current version goes through, and no request opened before it can write any more |
| GroupRewrites.LeaveLetsGo | internal/selector/store.go:272-304 | a request that ends at any statement lets the row go and changes nothing |
| GroupRewrites.HostsComeAndGo | internal/selector/store.go:293-304 | a registered host can be named, a removed one is no member |
| GroupRewrites.AloneIff | internal/adminapi/groups.go:386-436 | a request left alone replaces the list exactly when it sees every member and every host it names |
| ChangeTrail.NextKeeps | internal/adminapi/authorize.go:110-169 | every step of requests, reconcilers and the sweep keeps the trail's invariant |
| ChangeTrail.NoBodyBeforeIntent | internal/adminapi/authorize.go:118-144 | in every run no body runs before the beginning its own request wrote was durable |
| ChangeTrail.OneOutcome | internal/audit/audit.go:128-144 | the trail never holds two beginnings or two outcomes of one change |
| ChangeTrail.ReconcilesIff | internal/adminapi/pki_reconcile.go:23-58 | a reconciler closes a change exactly when it began and nothing answers it, with one outcome |
| ChangeTrail.EndedDoesNothing | internal/adminapi/authorize.go:110-169 | a request that ended at any statement leaves the trail as it is and makes no change |
| ChangeTrail.ChangesPerKey | internal/adminapi/authorize.go:110-169 | a key makes at most one change plus one for each time the sweep removed its beginning, likewise for outcomes |
| ChangeTrail.OnTheTrailIff | db/migrations/0130_audit_intent_outcome.sql:17-48 | a request's beginning is on the trail exactly as long as no beginning of its key was swept after it, and each sweep of one found an outcome of the key on the trail |
| ChangeTrail.UnansweredStaysOnTheTrail | db/migrations/0130_audit_intent_outcome.sql:17-48 | for every change made, also under a reused key: its beginning is on the trail exactly when none of its key was swept since, and certainly while no outcome of its key stood there |
| ChangeTrail.SecondBeginningLost | db/migrations/0130_audit_intent_outcome.sql:17-48 | a run in which the second change under a key wrote no outcome and nothing of it is left on the trail |
| ChangeTrail.AdmittedIff | internal/audit/audit.go:107-126 | a request gets as far as its body exactly when every earlier beginning under its key was removed |
| ChangeTrail.KeyUsedTwice | db/migrations/0130_audit_intent_outcome.sql:17-48 | a run in which one key makes the change twice and the second change is answered by the first one's outcome |
| ChangeTrail.Trail.BeganChange | internal/adminapi/authorize.go:118-144 | the handler's first half makes the machine's steps, and lets the change go on exactly when its beginning was written and confirmed |
| ChangeTrail.Trail.FinishedChange | internal/adminapi/authorize.go:150-169 | the second half makes the machine's step, and reports success only with an outcome on the trail |
| Tags.NormalizeTags | internal/hosts/hosts.go:1960-1985 | the loop returns the normal form of a tag list, or the refusal |
| Tags.NormalTagsMeans | internal/hosts/hosts.go:1960-1985 | the normal form is strictly sorted and holds exactly the tags given |
| Tags.NormalTagsIff | internal/hosts/hosts.go:1960-1985 | a list is accepted exactly when every text is a tag and at most 32 are different |
| Tags.NormalTagsIdle | internal/hosts/hosts.go:1960-1985 | normalising twice is normalising once |
| Sorting.SortedUnique | cmd/sbom/cyclonedx.go:268-275 | there is one sorted arrangement of a multiset |
| Order.FirstDifference | cmd/sbom/cyclonedx.go:268-270 | the first difference decides the order of two texts, and a proper beginning comes first |
| BulkEdit.WritesMakeTheChange | internal/adminapi/hosts_bulk.go:300-351 | the writes of a change, one after the other, make the whole change and nothing else |
| BulkEdit.TagRequested | internal/adminapi/hosts_bulk.go:304-318 | a host ends with a tag exactly when it was added, or was there and was not removed |
| BulkEdit.ChainPrefix | internal/adminapi/hosts_bulk.go:300-351 | under any interference the writes that landed are a prefix, all of them on success and fewer after "changed", the first on the facts read |
| BulkEdit.OneAnswers | internal/hosts/facts.go:83-111 | what one write answers, each answer both ways: not-found, changed, refused, done |
| BulkEdit.ChainEnds | internal/adminapi/hosts_bulk.go:300-351 | the same for a chain: not-found means the row is gone, success that all landed and was read back, any other end is the answer to one write after a successful run |
| BulkEdit.WholeEditEnds | internal/adminapi/hosts_bulk.go:300-351 | the same for the whole edit with its window |
| BulkEdit.QuietEdit | internal/adminapi/hosts_bulk.go:293-351 | with quiet read-backs, success leaves the requested change applied to the facts first read, and "changed" leaves exactly a prefix of it |
| BulkEdit.MeddledEdit | internal/hosts/facts.go:83-96 | with two or more writes an edit between a write and its read-back goes unnoticed |
| BulkEdit.ExactIff | internal/hosts/facts.go:83-96 | a success is exact under every interference if and only if the change is at most one write |
| BulkEdit.HostRow.WriteFacts | internal/hosts/facts.go:83-111 | one conditional write and its read-back, with the exact condition of each answer and the row it leaves |
| BulkEdit.HostRow.SetMaintenanceWindow | internal/hosts/hosts.go:1932-1948 | the row found is handed on with nothing but the window changed, no fact lands, and not-found comes exactly when the row is gone at one of the two statements |
| BulkEdit.WindowMeans | internal/hosts/hosts.go:1932-1948 | the same of the specification, for any interference |
| BulkEdit.QuietWindow | internal/hosts/hosts.go:1932-1948 | with a quiet read-back the facts returned are the facts found |
| BulkEdit.WholeEditLands | internal/adminapi/hosts_bulk.go:343-350 | the window step adds no write and hides no refusal |
| BulkEdit.QuietWholeEdit | internal/adminapi/hosts_bulk.go:300-351 | what the whole edit returns with quiet read-backs: all of the change landed and, without a window, a row with the requested facts on success (with one, the facts the window was set on); a proper prefix and no window after "changed" |
| BulkEdit.WholeExactIff | internal/adminapi/hosts_bulk.go:300-351 | a success of the whole edit is exact under every interference if and only if the change writes at most one fact |
| BulkEdit.HostRow.WriteBulkChange | internal/adminapi/hosts_bulk.go:300-351 | the code makes exactly the run of its chain of writes, then the window |
| BulkEdit.EditHosts | internal/adminapi/hosts_bulk.go:127-140 | every distinct text is answered once, in order, and applied plus failed is the number of distinct texts |
| BulkEdit.AnsweredPerHostIff | internal/adminapi/hosts_bulk.go:127-140 | the counters of the answer add up to the number of hosts exactly when no host is named in two spellings |
| BulkEdit.TwoSpellingsAnsweredTwice | internal/adminapi/hosts_bulk.go:127-140 | one host in small letters and in capitals is answered twice |
| Targets.ResolveListedHosts | internal/adminapi/campaigns.go:775-829 | success returns exactly the distinct ids in first-mention order, all in scope and none excluded; otherwise every refusal in order |
| Lists.WantedMeans | internal/adminapi/campaigns.go:780-785 | the texts looked up are the trimmed ones that are not blank |
| Lists.FirstMentionsOrder | internal/adminapi/campaigns.go:780-792 | the distinct texts stand in the order of first mention |
| Targets.RefusalsMean | internal/adminapi/campaigns.go:775-829 | the refusals are exactly the verdicts on the texts that are not carried |
| Targets.RefusedOnce | internal/adminapi/campaigns.go:775-829 | no text is refused twice |
| Targets.CarriedOrRefused | internal/adminapi/campaigns.go:775-829 | every text named is carried or refused with exactly one reason |
| Targets.ReasonIff | internal/adminapi/campaigns.go:804-824 | which reason a text gets, in terms of the host it names, each both ways |
| Targets.OtherSpellingRefused | internal/adminapi/campaigns.go:804-824 | a host in scope named in capitals is refused as out of scope |
| Targets.ExcludeHosts | internal/adminapi/campaigns.go:843-859 | the candidates are split into disjoint, order-preserving kept and closed parts that make up the whole |
| RetryOrder.DeadlineCarriedIff | internal/adminapi/campaigns.go:493-497 | a deadline comes through a retry unchanged exactly when it is a whole, positive number of minutes a duration holds |
| RetryOrder.RetryIff | internal/adminapi/campaigns.go:465-499 | one retry of any stored campaign carries its whole policy exactly when each number is one an order can carry |
| RetryOrder.FieldsCarriedIff | internal/adminapi/campaigns.go:296-331 | number by number, exactly when an accepted retry carries it |
| RetryOrder.PlacedIsCarriable | internal/adminapi/campaigns.go:300-331 | what any order ends in can be ordered again as it is, exactly when its stored deadline is at least a minute |
| RetryOrder.ChainCarries | internal/adminapi/campaigns.go:465-499 | such a campaign is carried by chains of retries of any length |
| RetryOrder.OrderedOnceCarriedForEver | internal/adminapi/campaigns.go:296-331 | an order with a deadline in range is a fixpoint under every chain of retries |
| RetryOrder.SettlesAtOnce | internal/adminapi/campaigns.go:465-499 | any stored campaign settles after one retry |
| RetryOrder.DefaultsSpelled | internal/adminapi/campaigns.go:296-331 | leaving a number out and writing its default are one order |
| RetryOrder.DeadlineWraps | internal/campaigns/model.go:342-347 | the first number of minutes that does not survive the duration |
| RetryOrder.QuotientIs | internal/adminapi/campaigns.go:493-497 | whole minutes are rounded towards zero, whatever the sign |
| BuildList.ParseModules | cmd/sbom/cyclonedx.go:75-137 | the scanner loop with its current binary computes the specified list, or the error |
| BuildList.RefusedLineIff | cmd/sbom/cyclonedx.go:82-127 | exactly which lines end the reading in an error |
| BuildList.OtherRecordsPass | cmd/sbom/cyclonedx.go:105-128 | unknown records and empty build records change nothing |
| BuildList.NothingListed | cmd/sbom/cyclonedx.go:130-136 | a list without a binary is an error |
| BuildList.ScansCRLF | cmd/sbom/cyclonedx.go:80-83 | lines ended by a carriage return and a newline are the same lines |
| BuildList.HeaderTrims | cmd/sbom/cyclonedx.go:87-97 | blanks around the parts of a header do not count |
| BuildList.BaseOf | cmd/sbom/cyclonedx.go:94-94 | a binary is called by its file name, in whatever directory it was listed |
| BuildList.BaseOfDirectory | cmd/sbom/cyclonedx.go:94-94 | slashes at the end of a path do not count, and the names of nothing and of the root |
| BuildList.SettingWithoutValue | cmd/sbom/cyclonedx.go:122-127 | a setting without an equals sign has no value |
| BuildList.ReadDep | cmd/sbom/cyclonedx.go:105-121 | a printed dependency is read back with its own replacement attached |
| BuildList.RoundTrip | cmd/sbom/cyclonedx.go:75-151 | for every list of well-formed binaries, printing then reading returns them with settings as printed, and fails exactly when a line does not fit the buffer |
| BuildList.ShownIff | cmd/sbom/cyclonedx.go:122-127 | a binary comes back whole exactly when none of its settings had to be quoted |
| BuildList.QuotedIsNotWhole | cmd/sbom/cyclonedx.go:122-127 | a well-formed binary with a setting that was quoted is never read back as it was |
| BuildList.LinkerFlagsComeBackQuoted | cmd/sbom/cyclonedx.go:122-127 | such a binary: linker flags with a blank between them |
| BuildList.ShownWhole | cmd/sbom/cyclonedx.go:75-151 | without quoted settings the list comes back as it was |
| Bill.PurlNames | cmd/sbom/cyclonedx.go:302-308 | a reference determines the version and the escaped path |
| Bill.PurlSpelled | cmd/sbom/cyclonedx.go:302-308 | how a reference is spelled, with and without a version |
| Bill.EscapedAt | cmd/sbom/cyclonedx.go:302-304 | every at sign of a path is escaped |
| Bill.Written | cmd/sbom/cyclonedx.go:237-275 | the loops build the components and the references: the standard library with the toolchain's version first, then for every dependency the module that entered the binary with its sum and what it replaces, and nothing else |
| Bill.ArrangedRefs | cmd/sbom/cyclonedx.go:268-275 | the stable sort of the components sorts their references |
| Bill.BillCanonical | cmd/sbom/cyclonedx.go:247-275 | permuting the dependencies changes neither the dependsOn sequence nor the serial number |
| Bill.ArrangedCanonicalIff | cmd/sbom/cyclonedx.go:268-270 | the component list is the same for every arrangement exactly when no two different components share a reference |
| Bill.ComponentsCanonicalIff | cmd/sbom/cyclonedx.go:247-270 | every order of the dependencies gives the same component list of the bill exactly when no two of them share a reference and differ otherwise |
| Bill.TwoSumsShow | cmd/sbom/cyclonedx.go:247-270 | one module listed with two sums: the order of the two shows |
| Bill.SerialNumber | cmd/sbom/cyclonedx.go:311-324 | the digest loop and the two edits in place compute the specified serial |
| Bill.PreimageInjective | cmd/sbom/cyclonedx.go:311-317 | different content is hashed differently, as long as nothing in it holds the separator |
| Bill.SerialMarks | cmd/sbom/cyclonedx.go:318-323 | every serial is 45 characters with version 8 and the standard variant, whatever the digest |
| Bill.MarkedKeeps | cmd/sbom/cyclonedx.go:319-322 | the marks change six bits of the digest and no other |
| Bill.DigitIs | cmd/sbom/cyclonedx.go:323-323 | a hexadecimal digit is the one at its place |
| Bill.SerialTells | cmd/sbom/cyclonedx.go:323-323 | different first sixteen bytes give different serials |

## Left out

- HTTP decoding, problem documents, headers, route tables, entity tags of the request and audit detail maps: plumbing.
- SQL text and the aggregate queries: only the layout statements, the LIKE pattern, the keyset page, the conditional fact write and the member rewrite are modelled, as relations on the rows they touch.
- Authorisation, step-up and scopes as roles: a scope is the set of hosts a caller sees, fixed for the length of a request.
- Regular expressions of the bundle other than the assignment expression, and JSON, YAML, tar and gzip encoding: the parser's answer and the marshalled bytes are parameters. Two names for one YAML node (anchors) are not modelled: documents are trees.
- The counts of an environment file that is refused: they may be partial, so only accepted files are counted.
- LayoutTransactions.Next: a reset is one atomic step there; its two statements are modelled in `ResetStatements`, where the other changes are whole committed events.
- FleetPaging.KeyLess: host names are compared by code points; a database collation may order them otherwise, and the proofs use only that the order is total.
- FleetPaging.SweepFleet: the visitor is the number of hosts it accepts and the clock a number of pages; store errors end a call and are not modelled.
- GroupRewrites.Next: versions are timestamps that a later write exceeds, so a clock that repeats is not modelled; the pages of one count never repeat a host, so a host renamed between two pages is not either. Deleting a group checks no member and is left out.
- GroupMembers.VisibleHosts: parsing an identifier is a parameter, and every text it accepts is one the query can cast; the "urn:uuid:" spelling, which the query refuses, is a store error.
- ChangeTrail.Next: the sweep may remove any answered row, whatever its age; what the reconciler reads from the trust store is left out.
- BulkEdit.EditHosts: the outcome of one host is a parameter of the loop; reading the host, its permissions and the check of the request's values are left out.
- Tags.NormalizeTags: the shape and length of one tag is a parameter.
- Targets.ResolveListedHosts: store errors are not modelled.
- RetryOrder.Normalized: the reboot policy, the offline policy, the health checks, the payload and the selector are copied without arithmetic and left out.
- BuildList.RoundTrip: how a value is quoted is a parameter; keys of settings that would be quoted are not well-formed. All errors of the reader are one value.
- Bill.Serial: the hash and the encoding of text as bytes are one parameter. Metadata, properties of the application and the JSON of the bill are left out.
- Text is a sequence of code points; invalid UTF-8 is not modelled.
- The agent, the relay, the helper, the simulator, certificates, sockets and process control.
