# Verified model of spconnect

A Dafny model of the parts of spconnect where being interrupted, or being answered strangely, must
not cost data: the resumable replication of SharePoint lists into JSONL files, incremental sync,
the fallback pager, the walk over webs, the authentication protocol, and the encodings that have to
undo each other. `dafny verify dfyconfig.toml` checks everything. Nothing of spconnect itself is run:
the results are about the model, which follows the cited lines.

How the model is built:

- **Disk and memory.** A JSONL file is a sequence of finished lines (`Entry`, `Junk`, `Blank`) and
  a tail: nothing, text that does not parse, or a whole row without its newline. The durable
  checkpoint is on the disk, the volatile one in the process. Every single replacement or append is
  one step, so a process can die between any two of them, or inside an append.
- **Machines and methods.** Crawl, sync and pull each have a step relation (`CrawlMachine`,
  `SyncMachine`, `PullMachine`), and the results are about every state of every run, over any
  number of processes. The source's loops are classes and methods beside them (`Crawl.Crawler`,
  `Sync.Syncer`, `Pull.Puller`); their contracts say that the process *is* a run of the machine, and
  that everything the disk held on the way was held by a state of that run. What is proved of the
  machines therefore holds of the disk wherever the methods are killed.
- **The server** is a parameter: any answers at all (`Anything`), a list that never changes
  (`Fixed`), or one that changes at will but keeps certain ids (`Changing`). Where a result needs an
  assumption about it, the `requires` clause says so.
- **Where a law does not hold** for every input, the model keeps the code as it is and proves
  exactly when it holds. The main such results:
  - a crawl restarted without `--resume` is safe if and only if there is no checkpoint to lose,
    because `writer.reset()` comes before the state is saved (`CrawlRestart.RestartSafeExactly`);
  - the raw file can be *ahead* of the decoded one when a resume is itself killed between its two
    truncations (`CrawlRestart.StepCanBreak`), which the next resume repairs;
  - `items_written` is exact after a sync if and only if no line was dropped, or every line was and
    none written (`SyncTheorems.CounterExactExactly`);
  - `pull` over a file with an unfinished last line loses a row (`PullLimits.AppendsIntactExactly`): over
    any number of runs at most two for every one that died inside a line (`PullTorn.FewAreLost`), and two
    it can be (`PullTorn.TwoAreLost`);
  - a sync that fails and is resumed as a crawl is `complete` with touched rows missing, which the next
    sync brings back (`Mixed.SyncBringsBack`), unless it failed on the last byte of a row the truncation
    keeps (`Mixed.UnfinishedRowSwallowsNext`);
  - escaping round-trips exactly up to U+FFFF, though it stays injective beyond
    (`Names.RoundTripExactly`, `Names.EscapeInjective`);
  - a lone secret can survive scrubbing exactly when it can share text with the marker word
    (`Secrets.SafeExactly`), and of several one is replaced without a fragment left exactly when none
    that lies in it was taken before it (`Secrets.WholeSecretExactly`);
  - read from Atom an empty collection becomes an empty text and a date keeps its ISO text, so that the
    parity with verbose JSON the reader's comments aim at (src/spconnect/services/odata.py:98-106) holds
    exactly without both (`AtomParity.EntryParityExactly`);
  - of a date the two texts are read to one moment exactly when it is a whole number of milliseconds and
    less than a hundred minutes off UTC, because the minutes of an offset are read as hours and minutes
    (`Dates.OneMomentExactly`);
  - the two forms of an entity are mapped alike exactly under a condition on the last member of each
    column (`MappedAlike.BothFormsMapAlike`); a lookup whose label is a date is not
    (`MappedAlike.DatedLabelDiffers`), and one whose label reads as a date loses its id
    (`RowTheorems.IdIsKeptExactly`).

| module | what it models |
|---|---|
| Landing, Storage, CrawlState | the JSONL files, `ListWriter`, `StateStore` |
| Paging, CrawlMachine, CrawlSafety, CrawlTheorems, CrawlSteps, CrawlRestart, Crawl | paging, the crawl and its runs |
| SyncMachine, SyncTheorems, Sync | incremental sync and its replay |
| Mixed | a resumed crawl over anything on disk, and behind a failed sync |
| PullMachine, PullSafety, PullLimits, PullTorn, Pull | the fallback pager |
| Webs | the bounded breadth-first walk |
| Transport, Limiter, Ntlm | `post_soap`, priming and the version probe, the rate limiter, the NTLM challenge |
| Names, Codecs, Secrets | `_xHHHH_` names, `;#` values, secret scrubbing |
| Atom, AtomParity, Dates, DateForms | Atom against JSON entities, the two texts of a date |
| Rows, RowTheorems, RowParity, MappedAlike | `map_row`, and what it makes of the two forms |
| Join, Sampling | attaching comments to tickets, the attachment samples |

## Model

| member | source | states |
|---|---|---|
| CrawlTheorems.KilledCrawlEqualsUninterrupted | src/spconnect/crawl.py:366-489 | From a list without a checkpoint and an unchanging server that fills its pages: any number of kills, failures and resumes, at any step, that ends in status `complete` leaves both files with every row once, in order, and the checkpoint an uninterrupted crawl leaves. |
| CrawlTheorems.LastingItemsWrittenOnce | src/spconnect/crawl.py:424-475 | If the server changes between requests, both files end with the same ascending rows; no id occurs twice, and every id present at every request occurs once. |
| CrawlTheorems.UndisturbedHasAll | src/spconnect/crawl.py:366-489 | One process that gets to its final save has the whole list in both files and counted: without `--resume` over any files and any checkpoint, with it from anything the crawl of the list can have left. |
| CrawlSteps.InStepExactly | src/spconnect/landing.py:110-152 | At every step of every run that began without files, or is behind its first checkpoint: at most one file ends in an unfinished line, and the raw lines are a prefix of the decoded ones, at most one behind, if and only if no process stopped half way through cutting back or removing the two files while the raw one is the longer. |
| CrawlSteps.InStepWhilePaging | src/spconnect/landing.py:110-120 | At every reachable step of the paging loop, over any old files, both files hold finished lines only, in step. |
| CrawlSteps.AlwaysRecoverable | src/spconnect/landing.py:134-144 | At every reachable step behind a checkpoint, wherever a process stands or died: truncating both files to the checkpoint gives the same rows, as many as `items_written`, none beyond `last_item_id`, and everything the checkpoint covers. |
| CrawlTheorems.ReachableInv | src/spconnect/crawl.py:366-489 | Every state reachable from a fresh list satisfies the recovery invariant, whatever died or failed before it. |
| CrawlTheorems.TokenUntouched | src/spconnect/crawl.py:388-396 | No step of a crawl changes the stored change token. |
| CrawlSafety.StepKeepsInv | src/spconnect/crawl.py:366-521 | Each of the crawl's steps, its kills, its handled errors and its torn writes keeps the recovery invariant. |
| CrawlSafety.CutRecovers | src/spconnect/landing.py:199-222 | Truncating to the checkpoint undoes any surplus rows and any unfinished line a kill left. |
| CrawlSafety.FailStep | src/spconnect/crawl.py:658-666 | An error that the crawl handles and saves as `failed` leaves a state from which the checkpoint is recoverable. |
| CrawlMachine.PageCovers | src/spconnect/crawl.py:424-475 | A page requested behind a covered prefix extends the coverage to its greatest id; a short or empty page means everything is covered. |
| CrawlMachine.PageIsRun | src/spconnect/crawl.py:491-521 | Writing the rows of a page is a run of single steps through every intermediate content of both files. |
| CrawlRestart.ResumeCompletes | src/spconnect/crawl.py:377-489 | From anything on disk, one undisturbed resume leads to status `complete`. |
| CrawlRestart.RestartSafeExactly | src/spconnect/crawl.py:377-396 | Starting over without `--resume` is safe against kills if and only if the entry has no last id and is not complete. |
| CrawlRestart.StepCanBreak | src/spconnect/landing.py:134-144 | A concrete run: the raw file is ahead of the decoded one when a resume is killed between its two truncations. |
| Crawl.QuietIsFine | src/spconnect/crawl.py:424-475 | Against a list that does not change, answered and collected without fail, nothing stands in the way of any request. |
| Crawl.Crawler.CrawlList | src/spconnect/crawl.py:366-489 | Terminates for every server with bounded ids; when it raises, the request that stopped it is named, its answer is one that stops a crawl, and the exception is a refused credential exactly when the page was unauthorized or the first row whose attachments cannot be collected was denied; is a run of the crawl machine through everything the disk held; skips exactly a complete list under `--resume` and counts it; returns the saved counter. |
| Crawl.Crawler.CrawlGuarded | src/spconnect/crawl.py:653-666 | A crawl that is stopped is stopped by the answer to one request, asked behind the saved last id: if that refuses the credential the list stays in progress and the run ends, if it is any other answer that is not fine the list is saved as `failed`. Anything else is `complete`, and then both files hold the whole list: without `resume` over any files and any checkpoint, with it from anything a crawl of the list can have left. |
| Crawl.Crawler.Begin | src/spconnect/crawl.py:368-424 | Resume cuts both files back to the checkpoint, otherwise both go; the entry is saved before the files are opened. |
| Crawl.Crawler.PageThrough | src/spconnect/crawl.py:425-475 | The paging loop ends for every server with bounded ids, and ends either ready for the final save or where an exception left it. |
| Crawl.Crawler.OnePage | src/spconnect/crawl.py:427-475 | It raises exactly for a refused request, a page that does not advance past the last id (before anything is written), or an attachment that fails, and as a refused credential exactly for an unauthorized request or an attachment that is denied first; a page that is taken moves the last id strictly up. |
| Crawl.Crawler.WritePage | src/spconnect/crawl.py:491-521 | Rows without an id are passed over, the others go to both files; everything on disk in between is listed; an attachment error stops it at its row. |
| Crawl.Crawler.SaveProgress | src/spconnect/crawl.py:457-460 | The checkpoint behind a page has its greatest id and the lines written so far. |
| Crawl.Crawler.SaveFailed | src/spconnect/crawl.py:658-666 | The handler changes the durable status to `failed`, and neither files nor counters. |
| Landing.RewriteFile | src/spconnect/landing.py:199-247 | The loops of both rewrites keep exactly the parsed lines their rule keeps, count the others, and leave an untouched file alone. |
| Landing.KeepsExactly | src/spconnect/landing.py:199-247 | A truncation keeps the rows with an id up to the last one, a delete those without one of the ids. |
| Landing.DroppedExactly | src/spconnect/landing.py:199-247 | What a rewrite counts is exactly the lines that are neither blank nor kept. |
| Landing.RewriteRecovers | src/spconnect/landing.py:199-247 | A rewrite brings a file back to the lines it should keep, whatever unwanted or unfinished text follows them, and counts that text. |
| Landing.RewriteIdempotent | src/spconnect/landing.py:199-247 | A second rewrite under the same rule changes and counts nothing. |
| Storage.ListWriter.Write | src/spconnect/landing.py:110-120 | One row goes to the decoded file first and to the raw file second, each a separate effect on disk. |
| Storage.ListWriter.Reset | src/spconnect/landing.py:125-132 | Both files are removed, one after the other. |
| Storage.ListWriter.TruncateAfter | src/spconnect/landing.py:134-144 | Both files are cut back to a last id, one after the other; the removed lines of both are counted. |
| Storage.ListWriter.DeleteItems | src/spconnect/landing.py:146-152 | Without ids nothing happens; otherwise every line with one of the ids leaves both files, and the lines of both are counted. |
| Storage.StateStore.Get | src/spconnect/state.py:64-66 | Asking creates an entry in memory only. |
| Storage.StateStore.Save | src/spconnect/state.py:75-90 | The durable states become exactly those in memory, in one effect. |
| Paging.MaxIdLoop | src/spconnect/services/lists.py:98-109 | The greatest id of a page is on the page and bounds every id on it; there is none only if no row has one. |
| Paging.MaxIdIsLast | src/spconnect/services/lists.py:98-109 | On an ascending page the greatest id is the last row's. |
| Paging.BehindSplits | src/spconnect/services/lists.py:60-80 | `ID > last` splits an ascending list in two. |
| SyncTheorems.ReplayEqualsUninterrupted | src/spconnect/crawl.py:735-789 | However many syncs from one token were killed, and wherever, the one that finishes leaves both files as if it had been alone: untouched rows in their order, then the changed rows. |
| SyncTheorems.CheckpointMovesLast | src/spconnect/crawl.py:775-789 | Until a sync is done the durable entry, token included, is the one it started from. |
| SyncTheorems.SyncedMap | src/spconnect/crawl.py:762-774 | The id-to-row map afterwards is the old one without changed and deleted ids, plus the changed rows; untouched ids keep their rows. |
| SyncTheorems.DeletedIsGoneExactly | src/spconnect/crawl.py:762-774 | A deleted id is gone from both files if and only if it was not reported as changed too. |
| SyncTheorems.OneLinePerIdExactly | src/spconnect/crawl.py:762-774 | Over files with distinct ids, ids stay distinct if and only if no id was reported as changed twice. |
| SyncTheorems.CounterExactExactly | src/spconnect/crawl.py:786 | An exact `items_written` stays exact if and only if no line was dropped, or every line was and none written. |
| SyncTheorems.CountedOnce | src/spconnect/landing.py:146-152 | What an undisturbed sync counts as removed is twice the number of dropped rows. |
| SyncTheorems.ResumeSkipsKilledSync | src/spconnect/crawl.py:372-375 | Behind a killed sync the status is still `complete`, so a `crawl --resume` does nothing to the files, whatever the sync left. |
| SyncTheorems.KilledSyncCanBeHalfDone | src/spconnect/crawl.py:762-765 | A concrete killed sync that leaves a row in one file and not in the other. |
| Mixed.ResumeKeepsAndAdds | src/spconnect/crawl.py:377-489 | Whatever both files hold behind a last id, and however often resumed crawls die on the way: the one that completes leaves in each file what its truncation kept, then everything the server holds beyond that id; the counter grows by that much and the token stays. |
| Mixed.ResumeWholeExactly | src/spconnect/crawl.py:377-489 | So both files are the server's list if and only if truncation left in each what the server holds up to the stored last id. |
| Mixed.SyncBringsBack | src/spconnect/crawl.py:694-697 | A sync that failed anywhere, saved as `failed`, resumed as a crawl until that is complete: the next sync that finishes from the kept token leaves both files as one sync of the old and the crawled rows would have, if truncation leaves no unfinished line. |
| Mixed.UnfinishedRowSwallowsNext | src/spconnect/landing.py:199-222 | That condition is needed: a concrete sync that breaks off one byte short, and a resumed crawl behind it that completes with a row in the raw file that the decoded one will never have. |
| SyncMachine.StepKeepsInv | src/spconnect/crawl.py:735-789 | Every step of a sync, kills and torn writes included, leaves files the next filter can bring back. |
| SyncMachine.FilterRestores | src/spconnect/landing.py:225-247 | Whatever earlier attempts left among the untouched rows, finished or not, deleting at least the ids they touched gives the same file. |
| SyncMachine.Furthest | src/spconnect/crawl.py:775 | The new last id is the old one or a changed id, and bounds them all. |
| Sync.GatherChanges | src/spconnect/crawl.py:731-760 | At most 500 batches are joined: rows in order, deletes as a set, the last non-empty token; a fault or an invalid token rejects the whole. |
| Sync.GatheredExactly | src/spconnect/crawl.py:731-760 | What is gathered is what was said: the rows and deletes of at most 500 batches in order, each asked for with the last non-empty token before it, the last one final or the 500th; or a refused token; or a request that never came back. Nothing else, and nothing twice. |
| Sync.Syncer.DropTouched | src/spconnect/crawl.py:762-765 | Every changed or deleted id leaves both files before anything is appended. |
| Sync.Syncer.ApplyChanges | src/spconnect/crawl.py:762-789 | From files an earlier sync may have left half done: both files hold the updated rows, and the entry is saved as `complete` with the new token; or, stopped by an error, nothing is saved, the files are fit for a replay, and the credential was refused exactly when the first row that was not collected was denied. |
| Sync.Syncer.SyncList | src/spconnect/crawl.py:708-797 | It is a full crawl exactly without token support, without a usable token, behind an unfinished crawl, or when the token is rejected, and if nothing is raised both files then hold the whole list, over any files; otherwise it raises exactly when the changes or an attachment cannot be had, as a refused credential exactly when that was what was lost first; else both files hold the updated rows, the written rows and the deletes are counted, and the list can be synced from its new token. A rejected token is never kept. |
| Sync.Syncer.SyncGuarded | src/spconnect/crawl.py:685-703 | A sync that raises leaves the entry, so that the next one replays, exactly when the credential was refused; any other error is saved as `failed`, which makes the next sync a full crawl. A full crawl in its place is `complete`, or stopped by the answer to one request and saved as that calls for. |
| Sync.Syncer.PrimeChangeToken | src/spconnect/crawl.py:799-813 | Only a non-empty token is stored; the files and the rest of the entry stay. |
| Sync.FurthestLoop | src/spconnect/crawl.py:775 | The loop computes the new last id. |
| PullSafety.EveryRowOnce | scripts/pull_tickets_and_comments.py:679-844 | Any number of runs over a server that pages a fixed list in key order, killed after any line, refused at any page, falling back to continuations: the file is always a prefix of the list without duplicates, and a run that ends by itself has all of it. |
| PullSafety.FileOnlyGrows | scripts/pull_tickets_and_comments.py:760-834 | No run removes or reorders what an earlier one wrote. |
| PullSafety.StepKeepsInv | scripts/pull_tickets_and_comments.py:760-834 | Every step, the fallback to continuation paging included, keeps the file right before the next row to come. |
| PullMachine.FailureCosts | scripts/pull_tickets_and_comments.py:767-800 | Every survived failure uses up some of the budget, and no page gets smaller than 25. |
| PullMachine.BudgetIsSpent | scripts/pull_tickets_and_comments.py:767-800 | The budget is exact: against a server that never completes a request all of it is used. |
| PullMachine.StartBudget | scripts/pull_tickets_and_comments.py:756-760 | A run starts with at most h + 2 survivable failures, and with exactly that many for a keyed collection with expansions. |
| PullMachine.HalvingsIsLog | scripts/pull_tickets_and_comments.py:774-779 | h is the logarithm: 25 * 2^h <= size < 25 * 2^(h+1). |
| Pull.Puller.Run | scripts/pull_tickets_and_comments.py:679-839 | Terminates by a lexicographic measure when ids are bounded and continuations finite. Its log is all its requests, a session: it starts behind the greatest id on disk; a page with rows is followed by a request behind its greatest id, or by its continuation, unless the limit is reached by the rows appended so far; a request that did not complete by one for half the rows while that is 25 or more, and before any row came a refused one by one without expansions, then without key; and the run ends for exactly one stated reason when none of these applies. At most h + 2 failures are survived. The file grows by exactly the fresh rows, as many as are reported written. It is a run of the pull machine through everything the file held. |
| Pull.FewAreSurvived | scripts/pull_tickets_and_comments.py:760-800 | Against any server and wherever the run stops, the failures survived so far and those still survivable are at most h + 2 together. |
| Pull.RequestsBounded | scripts/pull_tickets_and_comments.py:760-800 | Any beginning of a run's requests obeys the retry bound and the page-size floor. |
| Pull.RoundsEnd | scripts/pull_tickets_and_comments.py:760-834 | Every round that goes on lowers the measure: key mode, then expansions, then page size, then ids to come or the continuation's rank. |
| Pull.Puller.TakePage | scripts/pull_tickets_and_comments.py:801-834 | A page's fresh rows are appended one by one; it is the last one exactly when the limit is reached by the rows written, when a key-paged one has no id beyond the last, or when there is no continuation; otherwise the next request is behind its greatest id, or its continuation. |
| Pull.FreshExactly | scripts/pull_tickets_and_comments.py:805-811 | A key-paged page is appended whole; of a continuation of a keyed collection exactly the rows at or below the greatest id that was on disk are left out. |
| Pull.HighestIdOnDisk | scripts/pull_tickets_and_comments.py:640-661 | The scan finds the greatest id on disk, or zero: it is zero or on disk, and bounds every id there. |
| PullLimits.KeylessOnceExactly | scripts/pull_tickets_and_comments.py:801-834 | Without a key a run that ends by itself appends the whole list, so the file holds it once if and only if it was empty. |
| PullLimits.AppendsIntactExactly | scripts/pull_tickets_and_comments.py:760-815 | All appended rows are readable behind the old lines if and only if the file ended in a finished line, or nothing was appended. |
| PullTorn.FewAreLost | scripts/pull_tickets_and_comments.py:640-661 | Over any number of runs that may also die inside a line: the readable rows are rows of the list in order, none twice; of those up to the last of them at most two are missing for every death inside a line, and a run that ends by itself has all the others. |
| PullTorn.TwoAreLost | scripts/pull_tickets_and_comments.py:760-815 | The bound is met: a concrete run dies inside a line, and the next one ends by itself with two rows lost for good. |
| PullTorn.StepKeepsInv | scripts/pull_tickets_and_comments.py:640-844 | Every step, deaths inside a line included, keeps what is readable in order and the missing rows within two for every line that does not parse. |
| Webs.Walk | src/spconnect/services/webs.py:134-184 | Ends on every finitely branching graph, cyclic or infinite; finds exactly the webs within `max_depth` readable steps, each once; lists exactly those it could not read and those on the limit; raises exactly for an unreadable root, and exactly when a web within the limit refuses the credential; the depth reached is the greatest distance of a web that was read. |
| Webs.ReachIsDistance | src/spconnect/services/webs.py:134-184 | Being within k layers is being at the end of a chain of at most k readable steps from the root. |
| Webs.WalkStep | src/spconnect/services/webs.py:141-175 | First-in-first-out keeps the queue in two layers, so no web is found late. |
| Webs.LayerDone | src/spconnect/services/webs.py:141-147 | When a layer's last web is read, everything within that depth is known. |
| Webs.AddChildren | src/spconnect/services/webs.py:168-175 | Children are queued once each, one deeper; a web keeps the title it has, and one without gets the first that a child entry lends it. |
| Transport.PostBounded | src/spconnect/transport.py:1286-1324 | For every server one `post_soap` makes at most 2 * max(1, max_retries) + 2 requests and as many as there are priming URLs, of which at most three are refused; there is a second call only when a credential has been accepted, before or in the exchange right before it. |
| Transport.LadderBounded | src/spconnect/transport.py:1168-1284 | The priming ladder makes at most two exchanges and one per URL, at most two of them refused, one if it succeeds; success has a credential accepted. |
| Transport.CallBounded | src/spconnect/transport.py:991-1078 | One call, retries included, is refused at most once, and that ends it. |
| Transport.CallIsDetermined | src/spconnect/transport.py:991-1078 | The server's answers leave exactly one number of attempts. |
| Transport.Client.PostSoap | src/spconnect/transport.py:1286-1324 | By the answers' statuses: a call goes on exactly behind a broken connection, 502, 503, 504, or a 500 without a SOAP fault, up to max(1, max_retries) times; the ladder is tried exactly behind a 401 or 403 in the modes it can help, one more call behind a ladder that succeeded; content is handed back only for a status that is none of those, no 404 and no redirect, and every other outcome is its status. Before a second call some earlier exchange carried a credential and was not refused. |
| Transport.CallExactly | src/spconnect/transport.py:1058-1078 | Which exchanges are tried again, and what each last status is taken for. |
| Transport.LadderExactly | src/spconnect/transport.py:1168-1284 | How far the ladder goes, by which exchanges are served with a credential and which are refused. |
| Transport.Client.PrimeConnection | src/spconnect/transport.py:1168-1284 | The endpoint twice, and only if neither was refused the URLs, up to the first clear answer; the flag is up afterwards if it was before or the ladder succeeded. |
| Transport.Client.PrimeAttempt | src/spconnect/transport.py:1105-1148 | Refusal is checked first and never raises the flag; then evidence from the exchange itself; then the flag. |
| Transport.Client.Request | src/spconnect/transport.py:991-1078 | Only broken connections and 500, 502, 503, 504 are sent again, a 500 with a SOAP fault not, up to max(1, max_retries) times; everything else ends it and is told by its status. |
| Transport.Client.Authenticated | src/spconnect/transport.py:1080-1103 | Asked behind the refusal check, it is true exactly for an accepted exchange, and raises the flag only then. |
| Transport.Client.StatusOf | src/spconnect/transport.py:1433-1462 | One exchange; it counts as authenticated exactly when it carried a credential and was not refused. |
| Transport.Client.ProbeVersion | src/spconnect/transport.py:1633-1655 | A HEAD, a GET if that says too little, the web service if a page is missing, and nothing else; the answer is the last exchange's, and the flag is raised exactly when that carried a credential. |
| Transport.ProbeBounded | src/spconnect/transport.py:1633-1655 | A version probe is at most three calls, refused at most once, and then at its end. |
| Transport.ProbeExactly | src/spconnect/transport.py:1633-1655 | When the probe goes on: behind a page with an error status or without the version header, and behind a 404; what it says about the version and the credential. |
| Transport.EvidenceGrows | src/spconnect/transport.py:1080-1103 | The flag's meaning, for all three callers: some exchange it was asked about carried a credential and was not refused. |
| Limiter.WindowBound | src/spconnect/transport.py:810-827 | Under any thread interleaving a window of length T holds at most floor(T / interval) + 1 grants. |
| Limiter.RateBound | src/spconnect/transport.py:813-827 | At a rate of r requests a second a window of T seconds holds at most one grant more than r * T. |
| Limiter.GrantsSpaced | src/spconnect/transport.py:818-827 | Consecutive grants are at least one interval apart in every reachable state. |
| Limiter.BoundIsReached | src/spconnect/transport.py:810-827 | The window bound is tight: for every interval and window there is a run of the limiter with floor(T / interval) + 1 grants inside it. |
| Limiter.RateLimiter.Acquire | src/spconnect/transport.py:818-827 | The critical section does to the shared field what the machine's step does; without a rate it does nothing. |
| Ntlm.ParseChallenge | src/spconnect/transport.py:273-325 | Ends and stays inside the buffer for all bytes; gives a target exactly for a challenge message that names something. |
| Ntlm.ReadPairs | src/spconnect/transport.py:300-312 | The cursor loop finds under every id the last readable value of the pairs in the region. |
| Ntlm.RegionRoundTrip | src/spconnect/transport.py:300-312 | A written AV list is read back whole, wherever it lies and whatever follows its end marker. |
| Ntlm.CutListIsPrefix | src/spconnect/transport.py:302-306 | A list cut off anywhere gives the pairs before the cut and no others. |
| Ntlm.CutIsLongestPrefix | src/spconnect/transport.py:302-306 | Those are the longest run of leading pairs that has room before the cut. |
| Ntlm.ChallengeRoundTrip | src/spconnect/transport.py:273-325 | With distinct ids, every known attribute with a readable value is recovered into its field. |
| Ntlm.MessageIsRead | src/spconnect/transport.py:273-325 | A whole challenge as a server writes it, field by field, is parsed to the last readable names sent under the ids 2, 4, 1 and 3; without a NetBIOS domain among them, to the target name, in the encoding of the lowest flag. |
| Names.RoundTripExactly | src/spconnect/schema.py:44-67 | Unescaping undoes escaping if and only if every code point is at most U+FFFF, even where the name itself looks like an escape. |
| Names.EscapedForm | src/spconnect/schema.py:55-67 | ASCII letters and digits stay; any other character is `_x`, its code in lower-case hexadecimal with four digits at least, and `_`. |
| Names.EscapeIsRead | src/spconnect/schema.py:44-52 | Any `_x` with four hexadecimal digits of either case and `_` is read as that character. |
| Names.EscapeInjective | src/spconnect/schema.py:55-67 | No two names have the same escaped form, whatever their code points. |
| Names.EscapeName | src/spconnect/schema.py:55-67 | The loop computes the escaped form character by character. |
| Names.UnescapeOne | src/spconnect/schema.py:44-52 | An escaped character in front does not disturb the matching behind it. |
| Codecs.LookupMultiExactly | src/spconnect/decode.py:268-278 | A list of references is recovered if and only if every text is free of `;#`, an empty one counting as missing, and the last one is there and does not end in a blank. |
| Codecs.LookupMultiReads | src/spconnect/decode.py:268-278 | Otherwise, with clean texts: the last one loses its trailing blanks, and is lost itself when nothing remains. |
| Codecs.LookupExactly | src/spconnect/decode.py:243-265 | One reference, text with `;#` included, is recovered if and only if the text is not empty and ends in neither a blank nor `;#`; a missing text if and only if the id is not negative. |
| Codecs.LookupReads | src/spconnect/decode.py:243-265 | What one reference reads back, for every id and text. |
| Codecs.BareLookup | src/spconnect/decode.py:243-265 | A value without a delimiter is an id if it is all digits, and a text otherwise. |
| Codecs.UnreadableId | src/spconnect/decode.py:234-240 | Where the id does not parse, the whole is a text. |
| Codecs.MultiChoiceExactly | src/spconnect/decode.py:217-221 | A wrapped list of choices is recovered if and only if every choice is non-empty and free of `;#`. |
| Codecs.SplitJoinExactly | src/spconnect/decode.py:117-134 | Splitting undoes joining if and only if no part holds a delimiter, parts ending in `;` or starting with `#` included. |
| Codecs.JoinSplit | src/spconnect/decode.py:117-134 | Splitting loses nothing of any text. |
| Codecs.DecodedAreClean | src/spconnect/decode.py:268-278 | No decoded reference with an id has an empty value or one that holds a delimiter. |
| Secrets.NoSecretLeft | src/spconnect/config.py:60-71 | No registered secret occurs in a scrubbed text, in whatever order they were replaced, if none touches the marker. |
| Secrets.NothingNew | src/spconnect/config.py:68-70 | Replacing one secret never makes another one appear. |
| Secrets.ScrubTwice | src/spconnect/config.py:60-71 | A second scrub changes nothing. |
| Secrets.PlainSecretsAreSafe | src/spconnect/config.py:60-71 | Secrets without an asterisk that are no part of the marker word touch it nowhere. |
| Secrets.SafeExactly | src/spconnect/config.py:60-71 | A single secret is gone from every text if and only if it does not touch the marker. |
| Secrets.WholeSecretExactly | src/spconnect/config.py:60-71 | A secret becomes the bare marker, with no fragment of it beside, if and only if no secret taken before it lies in it. |
| Secrets.LongestFirstLeavesNone | src/spconnect/config.py:60-71 | Longest first, every secret becomes the bare marker. |
| Secrets.Registry.Scrub | src/spconnect/config.py:60-71 | The loop replaces every secret, longest first; none that was registered is left when none touches the marker. |
| Secrets.Registry.Register | src/spconnect/config.py:41-57 | A value shorter than three is not registered; any other comes with its quoted and encoded forms, and never an empty text. |
| AtomParity.EntryParityExactly | src/spconnect/services/odata.py:98-191 | At any depth, an entity read from Atom is its JSON dictionary without annotations if and only if no collection of values in it is empty and no date in it is written differently in the two forms. |
| AtomParity.FeedParityExactly | src/spconnect/services/odata.py:194-206 | A feed gives exactly the rows of its JSON page and its own next link, never those of an inlined feed, under the same condition on every row. |
| AtomParity.EntryIsRead | src/spconnect/services/odata.py:98-191 | What the Atom form of any entity is read as: an empty collection as an empty text, a date as its ISO text, everything else as in JSON. |
| AtomParity.OwnPropertiesFound | src/spconnect/services/odata.py:140-157 | An entry's own properties are found under `content` or beside it, whatever else it carries and inlines. |
| AtomParity.RelationNames | src/spconnect/services/odata.py:171-176 | The name behind the last `/related/` is the property's. |
| AtomParity.TypesAreRead | src/spconnect/services/odata.py:119-137 | Which types are read as truth values, whole numbers and numbers; any other, 64-bit and decimal numbers and dates included, as its text. |
| AtomParity.UnexpandedIsRead | src/spconnect/services/odata.py:169-183 | A link that is not expanded is read as a deferred one with its address. |
| AtomParity.NextIsOwn | src/spconnect/services/odata.py:200-205 | The next link is the feed's own. |
| Dates.OneMomentExactly | src/spconnect/services/odata.py:133-136 | The two texts of a point of time are read to one moment if and only if it is a whole number of milliseconds and its zone less than a hundred minutes off. |
| Dates.AtomIsRead | src/spconnect/services/odata.py:265-270 | The ISO text is read to the time's own moment, for every date, fraction and zone. |
| Dates.JsonMomentExactly | src/spconnect/services/odata.py:257-264 | The `/Date(..)/` text is read to the time's own moment under that condition: `+0120` is read as one hour and twenty minutes. |
| DateForms.DateExactly | src/spconnect/services/odata.py:54 | A text is read as `/Date(..)/` if and only if whole milliseconds stand between the brackets, with or without a sign and four digits behind them, and then to those milliseconds less that many hours and minutes. |
| DateForms.IsoExactly | src/spconnect/services/odata.py:265-270 | A text is read in the ISO form if and only if it is a clock's text with or without a fraction and an offset behind it, and then to that clock's microseconds less the offset. |
| DateForms.FractionCounts | src/spconnect/services/odata.py:265-270 | The first six digits of a fraction are its microseconds, whatever follows. |
| Dates.ByExample | tests/test_odata.py:51 | The milliseconds of one well-known date. |
| MappedAlike.BothFormsMapAlike | src/spconnect/services/odata.py:651-715 | The Atom and the verbose-JSON form of an entity are mapped to the same row if and only if, for every column, the last member written to it is converted alike, both texts of a date being read to one moment, and the row's own id, where it is needed, is the same in both. |
| MappedAlike.AnnotationsLeaveNoTrace | src/spconnect/services/odata.py:651-715 | Annotations at any depth leave a mapped row unchanged under the same condition. |
| MappedAlike.MappedExactly | src/spconnect/services/odata.py:651-715 | The rows of two forms are equal if and only if every column is alike, a date when its two texts are read to one moment, or are no dates and become one value of the column's type; keys and their order never differ. |
| MappedAlike.ShallowMapsAlike | src/spconnect/crawl.py:342-348 | With links expanded one level deep, as the crawl asks for, no empty collection of values, and dates whose two texts are read to one moment: both forms are mapped alike, whatever the links are called, unless a link or a date stands in the place of the row's own id, or a date in that of a lookup's id or label. |
| MappedAlike.StampIsReadExactly | src/spconnect/services/odata.py:700-702 | Which dates those are: whole milliseconds, less than a hundred minutes off UTC. |
| MappedAlike.DatedLabelDiffers | src/spconnect/services/odata.py:706-711 | A concrete row with a lookup whose label is a date: its two forms are mapped to different rows, under every schema. |
| RowParity.EntityExactly | src/spconnect/services/odata.py:699-715 | An inlined entity, at any depth, is converted alike if and only if: with an id, the id is sent the same and the label alike, for these are not decoded; without one, every member that is kept is, a date when its two texts are read to one moment. |
| RowParity.LabelExactly | src/spconnect/services/odata.py:707-711 | The label is alike if and only if it is taken from one member that is sent the same in both forms, which a date is not, or from an empty collection of values in the one and of rows in the other. |
| MappedAlike.NestedLabelDiffers | src/spconnect/services/odata.py:707-711 | A concrete entity with two levels of expansion whose two forms are mapped to different rows, under every schema. |
| RowTheorems.ColumnDecoded | src/spconnect/services/odata.py:651-681 | Column by column, what a row holds: the last value brought for it with the last id beside it, and the row's own id. |
| RowTheorems.NothingIsDropped | src/spconnect/services/odata.py:657-668 | Every property but an unexpanded link has its column, or its own name when none is known. |
| RowTheorems.TextArrives | src/spconnect/services/odata.py:683-702 | A text that no later item claims the column of arrives as the moment it is read to; in a Number or Currency column as its number, in an Integer or Counter column as that number cut off behind the point; otherwise as it is. |
| RowTheorems.LookupArrives | src/spconnect/services/odata.py:706-711 | An inlined entity with an id arrives as that id and the first of title, value and name that says something. |
| RowTheorems.CollectionArrives | src/spconnect/services/odata.py:704-705 | A collection of texts arrives as the list of them, dates read. |
| RowTheorems.InlinedArrives | src/spconnect/services/odata.py:706-712 | An inlined entity without an id arrives member by member, without the service's keys. |
| RowTheorems.IdColumnExactly | src/spconnect/services/odata.py:661-665 | An item is a column's id exactly when its key is a name of that column followed by `Id` and its value is a number. |
| RowTheorems.UnmappedExactly | src/spconnect/services/odata.py:666-668 | The keys remembered as unmapped are those written under their own name, but `Id`. |
| RowTheorems.IdStandsBeside | src/spconnect/services/odata.py:670-678 | A column's id stands beside the label that arrived for it, or beside nothing. |
| RowTheorems.IdIsKeptExactly | src/spconnect/services/odata.py:670-678 | A lookup keeps its id if and only if its column is missing, null, a text, or a dictionary without another id. |
| Rows.RowMapper.MapRow | src/spconnect/services/odata.py:651-681 | The two loops compute that row, and the unmapped keys grow by exactly those without a column. |
| Rows.RowMapper.PatchIds | src/spconnect/services/odata.py:670-678 | The second loop puts each id where the value can hold one. |
| Join.JoinRows | scripts/pull_tickets_and_comments.py:1281-1333 | One line per ticket in order, with the sorted thread of exactly its comments; orphans counted; parents without a ticket listed. |
| Join.JoinConservesExactly | scripts/pull_tickets_and_comments.py:1305-1325 | Attached, orphaned and stray comments together are never fewer than all comments, and are exactly all if and only if no ticket with comments is there twice. |
| Join.DistinctTicketsConserve | scripts/pull_tickets_and_comments.py:1305-1325 | With distinct ticket ids attached, orphaned and stray comments are exactly all comments, and none is written out twice. |
| Join.SortIsStable | scripts/pull_tickets_and_comments.py:1255-1278 | A thread holds the same comments, undated ones first, then by date and on one date by id; comments with one sort key keep their order. |
| Join.GroupByParent | scripts/pull_tickets_and_comments.py:1305-1312 | The groups hold each parent's comments in reading order; no group is empty. |
| Sampling.RoundRobin | scripts/pull_tickets_and_comments.py:1109-1118 | Ends with exactly min(sample, total) rows, none twice, and no kind more than one pick ahead of a kind that still has rows. |
| Sampling.OneRound | scripts/pull_tickets_and_comments.py:1115-1118 | The inner loop takes one row of each kind that has one while there is room, in order. |
| Sampling.ProbedExactly | scripts/pull_tickets_and_comments.py:1083-1087 | The stride sample has exactly min(probe, n) items, none for a non-positive probe, evenly spaced; what lies behind the last step is shorter than the sample. |

## Left out

- Power loss: the JSONL files are flushed and not synced to disk; only the death of the process is modelled.
- A write torn inside a multi-byte character: every later truncation would raise `UnicodeDecodeError`; a torn line here is one that decodes and does not parse.
- Rows whose id is spelled so that `coerce_item_id`, `_extract_id` and `max_id` disagree, such as `;#5`: a row has one id or none.
- The decoding of rows for the landing zone, attachments and other files: a line stands for its row, and collecting attachments for one row ends well, in an error, or in a refusal.
- Mixed.SyncBringsBack: for a server that does not change while the failed sync is resumed as a crawl, and replays that report every id an earlier attempt was told about; a sync that is killed instead keeps status `complete`, and a resumed crawl skips the list (`SyncTheorems.ResumeSkipsKilledSync`).
- More than one list at a time in the crawl; the report, the warnings, the manifest and the statistics.
- Choosing between the SOAP and the OData backend; both are one source of pages.
- Changes on the server between a full crawl's last page and the priming of the change token: the code does not cover them.
- SyncTheorems.ReplayEqualsUninterrupted: assumes that a replay from the same token reports every id an earlier attempt was told about; a server that forgets one is not modelled.
- CrawlTheorems.KilledCrawlEqualsUninterrupted: assumes a server that fills its pages while rows remain, because the loop stops at a short page; and a start without an earlier checkpoint (`CrawlRestart.RestartSafeExactly` says why).
- PullSafety.EveryRowOnce: kills at line boundaries; kills inside a line are in `PullTorn`, for keyed collections, because an unfinished line is not repaired by the code.
- Which integer key and which expansions `pull` uses (its schema discovery): parameters.
- The sorting of the record of a walk; reading a web is a function of its URL, the same at every read.
- What `probe_version` makes of the version, the diagnosis of endpoints and every log line of the transport; `_send`'s body is a status, whether a credential was carried, whether the body is a SOAP fault, and whether a version is named.
- The real clock, floats and their rounding in the limiter: times are reals.
- Ntlm.ChallengeRoundTrip: decoding bytes to text is a parameter, so that it speaks of readable values instead of trimmed ones.
- Codecs: digits outside ASCII, and numbers too long for Python's `int`, in ids.
- Secrets.NoSecretLeft: for several secrets the condition is sufficient; it is exact for one (`Secrets.SafeExactly`).
- The recursion of `scrub_value` over nested values; URL quoting and base64 are parameters.
- Text parsing of XML and JSON: elements and dictionaries are given. Floats and the matching of property names are parameters; infinite and not-a-number floats are not modelled. A collection of values holds texts.
- Dates: `fromisoformat` is known for the form Atom writes and a parameter for any other text; moments outside the years 1 to 9999, where Python raises, and digits outside ASCII are not modelled.
- An expanded link whose inline part is empty: the reader leaves no key, and the entities here have none.
- MappedAlike.BothFormsMapAlike: for a JSON body that lists its members in the same order, properties first, and where no inlined entity has a member called `__metadata`, because a dictionary has each key once.
- `detect_parent_key`: the parent property of a comment is known.
- Sampling.RoundRobin: the rows come grouped by kind; the order among the picks of one round is that of the kinds, and is not stated.
- The lookup graph, permissions, user groups, the command line and all console output.
