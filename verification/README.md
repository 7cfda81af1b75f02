# porthawk, verified

porthawk looks at every socket of a host once a second and says which process
owns it, what its remote address is called and how much it has moved. Almost
all of its difficulty is the state it keeps between two looks: who held a
socket whose process has exited, which sockets died a moment ago, how long a
socket has gone without an owner, how far a counter had got before it
restarted. This project models that state in Dafny and proves what it means.

Times are whole nanoseconds and bytes whole numbers. Everything outside the
program is an input: the socket tables, the entries of `/proc`, the process
table (which may change between any two readings), the clocks, the lookups,
the kernel's counters. Objects the program updates in place are classes, each
proved against a relation on plain values; the theorems about runs are about
those relations.

## How it is laid out

| modules | what they cover |
|---|---|
| `Common`, `Conns`, `Strings`, `Numerals`, `Net` | shared vocabulary: socket rows, numerals, network prefixes |
| `Scanner`, `ScanHistory` | the scan, the ageing of sockets nobody holds, and what the ageing maps mean over a run |
| `LastOwner`, `Ghosts` | the memory of owners and the table of vanished connections, as objects |
| `GhostHistory`, `Attribution`, `StalePid` | what those maps mean over a run; which name and pid a row may show, and exactly which pids are checked and how long |
| `Pipeline`, `Monitor` | scanner and ghost table together, from end to end, and the tick loop over the objects |
| `RuleList`, `Rules`, `RuleBook`, `RuleMeaning` | the user's rules: stored, compiled, edited, applied, and what they mean in bits and letters |
| `RuleEdits`, `RuleLaws`, `SkippedLookups` | what a session of edits leaves in force; what annotating promises, and exactly where it falls short |
| `OwnerCache`, `CymruNames` | the cache of address owners, its trip to disk, and the names it queries |
| `LookupQueue`, `LookupProgress`, `Pacing` | the concurrent lookup queue, safe and never stuck, and the pacing of queries, as interleaved steps |
| `Counters`, `TcpStats`, `UdpStats`, `Hogs` | accumulating counters that may restart |
| `UdpHistory`, `UdpLimits`, `MissedReadings` | UDP totals against the traffic that moved, and exactly how far that bound and a missed reading reach |
| `SocketKeys` | the two renderings of a socket's key that must meet |
| `Table`, `Layout`, `FilterTerms`, `TypedTerms`, `OpenQuotes` | the table of the web page and its filter box |
| `Systemd`, `ProcStat` | two decoders of text the kernel or systemd wrote |

A run is a sequence of states with a sequence of steps between them. Most main
results say that a map, after any run, answers a question about the whole run:
an id is a ghost iff ..., a label reads "kernel" iff ....

## What turned out differently

Where the code and its comments disagree the model follows the code. Each entry
names the exact condition under which the promise holds.

* **Which rows memory may name.** A socket that lost its owner is not always
  shown under the owner's name. `Pipeline.NamedExactly` and
  `Pipeline.GhostNamedExactly` say when, in terms of the scans alone: the row
  has no inode; or nobody holds the inode, no process refused us, and somebody
  was seen to hold it in its current run of presences or that run is less than
  ten seconds old. A socket held by a process whose name is blank is none of
  these.
* **A ghost's pid.** ghosts.go promises to recheck a ghost's pid on every tick.
  The recheck compares with the memory of owners, which forgets after 120 s
  while the window may be 600 s, and which never held a process whose name is
  blank. By the last row of the ghost, in every run with a given window and a
  given gap between the last owned tick and the promotion: a row refused to us
  shows no pid; a row with its owner's name, or left to memory, keeps the
  promise iff window and gap together are at most 120 s or it never had an
  owner; for a row held under a blank name no window will do
  (`StalePid.AlwaysKeptExactly`), its number staying on show unless it was the
  last owner's (`Pipeline.BlankGhostKeepsPid`).
* **The second try at a ghost's name** (ghosts.go:147-155) finds one for no
  ghost in any run: what memory could not name when the socket was last live it
  never learns while the socket is away (`Attribution.GhostIsItsRow`).
* **Aliases are not recomputed.** rules.go:198-201 says annotation recomputes
  what it sets. It does so for the hide flag, not for the aliases: an alias
  the row already carries survives the deletion of its rule, and keeps the row
  hidden if a hide rule matches it. `RuleLaws.StaleAliasExactly` and
  `RuleLaws.StaleHideExactly` say exactly when that shows.
* **Skipping lookups can leave a row visible.** A user's alias on an address
  stops the lookups for it. That never changes an alias, but a name pattern
  that would have hidden the row may then have nothing to match.
  `SkippedLookups.SkippingShowsExactly` says for which answers,
  `SkippedLookups.NeverMattersExactly` for which rules.
* **A failed reading of the UDP counters** changes nothing when it happens. The
  next total is the one a successful reading would have led to iff missing it
  is moot in the sense of `UdpLimits.MissIsMoot`
  (`UdpLimits.FailureMattersExactly`): it is if the counters only grew, it
  need not be if the kernel evicted the socket around it. A total that is right
  then may be wrong later, because a socket seen earlier is forgotten earlier
  (`MissedReadings.AgreementEnds`). All later totals are right iff the miss is
  moot for good, `MissedReadings.MootForGood`
  (`MissedReadings.FailureNeverMattersExactly`).
* **IPv4 and IPv4-mapped sockets** between the same ends have the same key. UDP
  totals never exceed what moved, in every run over a set of sockets, iff no
  IPv4 socket is among them together with its IPv4-mapped form
  (`UdpLimits.RealKeysNeverOver`).
* **Unmasked prefixes.** The search of the owner cache gives one answer in every
  order of its entries iff no two live entries tie unbeaten
  (`OwnerCache.OrderFreeExactly`), and a restart changes no answer under the
  same condition (`OwnerCache.RestartExactly`). Masked prefixes never tie; one
  network cached under two spellings does.
* **Quotes in filter terms.** A term that begins with a quote, or holds both
  white space and a double quote, is added in a form that is not read back;
  given a text without an open quote those and the empty term are the only ones
  (`FilterTerms.AddReadsBackExactly`). Into an open quote a new term is read
  back in one odd case only: the text ends in that double quote and the term is
  the blank that closing it makes (`OpenQuotes.AddToOpenBoxExactly`).
* **Huge ghost windows.** The number of seconds asked for is multiplied in 64
  bits before it is clamped: 9223372037 seconds becomes no window at all
  (`Ghosts.WindowForExactly`, `Ghosts.WindowForWraps`).

## Model

| member | source | states |
|---|---|---|
| Pipeline.NameOutlivesProcess | main.go:453-506 | From end to end: after any run of scans and ticks, every emitted row of a 4-tuple, live or ghost, without an owner of its own carries the name of the last owner seen, for 120 s, as long as the scans leave the rows of that 4-tuple to memory |
| Pipeline.NoNameInvented | conns.go:278-290 | A row scanned as "denied" or "kernel" is emitted nameless and without a pid, whatever memory holds |
| Pipeline.NoNameInventedForGhost | ghosts.go:100-112 | A ghost promoted from such a row never gets a name while it is held |
| Pipeline.AnswerableExactly | conns.go:258-268 | A tracked row is one memory may speak for iff the scans leave it unexplained; its pid is then -1 |
| Pipeline.NamedExactly | ghosts.go:86-112 | A nameless live row whose 4-tuple was owned within 120 s is emitted with that owner's name iff the scans leave it unexplained |
| Pipeline.GhostNamedExactly | ghosts.go:83-112 | The same of a ghost, by its last live row |
| Pipeline.KeptInodeIsUnexplained | conns.go:298-313 | A socket that keeps an inode somebody was seen to hold, with nobody holding it now and nothing refused, is left to memory |
| Pipeline.GhostPidKept | lastowner.go:157-170 | In a run of scans and ticks, for 120 s from its last owner: a ghost last seen owned, left to memory, or held by that owner under a blank name, shows the owner's pid only if matched this tick, else -1 with the number in wasPid; any other ghost shows its last row as it was |
| Pipeline.BlankGhostKeepsPid | lastowner.go:161-166 | A ghost last held under a blank name, by a process other than the last owner, shows that pid unchecked for as long as it is held |
| Attribution.GhostId | ghosts.go:129-140 | Over any run a ghost is filed under its own row id |
| Monitor.Monitor.Tick | main.go:453-517 | One tick over the real objects continues the run by a scan of the given tables and entries; what is sent is the rows tracked then the ghosts, unchanged in attribution, ghosts disconnected; the current rules would change none of them; and each live row has the protocol and ends decoded, the names the lookups gave wherever no alias rule names the address and no interface has it, else those decoded, and the aliases and hide flag the stored rules say |
| Monitor.Monitor.Observe | main.go:453-504 | The rows handed to the tracker are those scanned, same identity and attribution; when somebody watches, named by the lookups and annotated as above |
| Monitor.Monitor.Follow | main.go:505-509 | Tracking continues the run of ticks and emits the live rows first, resolved, then the ghosts |
| Monitor.Monitor.Prepare | main.go:472-498 | Looks names up for both ends except where an address rule gives an alias or an interface of this host owns the address; a holder is asked for only when the name fails |
| Monitor.FinishedIsPresented | main.go:472-502 | A row looked up and annotated has the names the lookups gave, the holder only where there is no host, exactly at the ends that no alias rule names and no interface has |
| Monitor.Monitor.Reannotate | main.go:510-517 | The ghost suffix is annotated by the rules as they now stand; the live prefix is untouched |
| Monitor.Monitor.SetGhostSeconds | main.go:399-415 | The window becomes the product of the seconds in 64 bits, clamped; the run and every invariant stay |
| Monitor.Monitor.EditRules | rules.go:270-331 | Editing rules between ticks keeps the run and every invariant |
| Monitor.ShippedNameOutlivesProcess | main.go:453-517 | The end-to-end naming guarantee for the rows actually sent |
| Monitor.AttributingKeepsUpToDate | ghosts.go:106-112 | Handing a name back never makes a row's annotation out of date |
| GhostHistory.GhostSetIsHistory | ghosts.go:113-172 | After any run, with the window changing at will, an id is held as a ghost iff it is not live, was established when last live, and every window since its death has covered it |
| GhostHistory.LiveAndDeadDisjoint | ghosts.go:129-135 | Between ticks no id is both live and a ghost, so the "already held" test never fires |
| GhostHistory.HeldHasHistory | ghosts.go:129-146 | A ghost's age counts from the first tick that missed it |
| GhostHistory.HistoryIsHeld | ghosts.go:124-146 | Whatever the history calls for is held, with that age |
| GhostHistory.MemoryIsHistory | lastowner.go:102-123 | The memory holds an id iff some tick of the last 120 s owned it |
| GhostHistory.HistoryIsRemembered | lastowner.go:102-123 | What it holds is the last owned row of the last owning tick, with a start time read then |
| GhostHistory.NamedRowIsRemembered | lastowner.go:107-117 | A row with a pid above 0 and a name is remembered with both and its application, if it is the last of its id |
| GhostHistory.NamelessRowsChangeNothing | lastowner.go:107-110 | Rows without a pid or without a name change nothing that is remembered |
| Attribution.LiveRowNamed | ghosts.go:106-112 | An answerable live row is named after the last owner of its 4-tuple within 120 s |
| Attribution.GhostNamed | ghosts.go:83-112 | A ghost carries the name of the last owner of its 4-tuple as long as it is held |
| Attribution.GhostKeepsName | ghosts.go:141-166 | A ghost has the name it was promoted with for as long as it is held, and none if it was promoted with none |
| Attribution.NeverNamed | ghosts.go:100-112 | A ghost of a "denied" or "kernel" row stays nameless over any run |
| Attribution.InheritedPidIsVerified | lastowner.go:133-147 | A live row that got its pid from memory has it only if that pid ran with the recorded start time this very tick |
| Attribution.ReadingsDecidePid | lastowner.go:133-147 | A row left to memory shows its owner's pid if every reading of this tick finds the process that owned it, and parks it in WasPID if none does |
| Attribution.UnreadPidIsParked | lastowner.go:91-118 | A pid whose start time could not be read when it was last seen to own the 4-tuple never comes back |
| Attribution.GhostPidIsVerified | lastowner.go:157-170 | While its last owner is within 120 s, a ghost whose last row was owned, left to memory, or held by that owner without a name shows the owner's pid only if matched this tick with the run that owned the 4-tuple, else -1 with the number in wasPid; every other ghost is its last row as it was |
| Attribution.ReadingsDecideGhost | lastowner.go:157-170 | So does a ghost: it keeps its owner's pid through a tick whose readings all match, and parks it in one, within 120 s, where none does |
| Attribution.StrangersGhost | lastowner.go:161-166 | A row refused to us, or held under a blank name by a process other than the last owner, is never rechecked as a ghost, whatever memory holds and however long |
| Attribution.GhostPidWithinWindow | ghosts.go:136-166 | The same from what a caller can check: window plus the gap from the last owned tick to the promotion at most 120 s |
| Attribution.DemotedForGood | lastowner.go:157-170 | A ghost without a pid never shows one again and never changes |
| Attribution.GhostIsItsRow | ghosts.go:129-166 | In every run a ghost is the row it was promoted from as a corpse, at most demoted: the retry of the name never names one |
| Attribution.GhostShows | ghosts.go:136-166 | What that says field by field: a ghost is shown as disconnected with no rates, under the name and all else of its last live row, its pid as it was promoted with or parked in WasPID |
| Attribution.GhostsReturnedOnce | ghosts.go:141-166 | Past the live rows a tick returns each ghost the history calls for exactly once, and nothing else |
| Attribution.GhostUncheckedWhenForgotten | lastowner.go:118-122 | Past 120 s from its last owner any ghost is no longer checked: it stays as it was |
| StalePid.AlwaysKeptExactly | ghosts.go:157-163 | For every kind of last row, window and gap (or no owner at all): all runs keep the promise that a ghost shows no pid or its last owner's, matched this tick, iff the row was refused to us, or it was owned or left to memory and window plus gap is at most 120 s or there was no owner |
| StalePid.StalePidShown | lastowner.go:16-16 | For every window and gap beyond that, a run at the end of which an exited process's pid is on display |
| StalePid.InheritedPidShown | lastowner.go:133-147 | The same where the socket had lost its owner before it died and got the pid back from memory |
| StalePid.BlankPidShown | lastowner.go:107-110 | For every window and gap, and without any owner, a run whose ghost, last held under a blank name, shows a pid that no reading ever answers for |
| Ghosts.ClampGhostTTL | ghosts.go:42-50 | The window is always between 0 and 600 s, and a length in range is kept |
| Ghosts.WindowForExactly | main.go:411-412 | The window is the one asked for, brought into range, iff the 64-bit product does not wrap to the other side of the range; up to 9223372036 seconds either way it does not |
| Ghosts.WindowForWraps | main.go:411-412 | One second beyond that it is the other extreme |
| Ghosts.GhostTable.SetTTL | ghosts.go:55-59 | Sets the clamped window and touches nothing else |
| Ghosts.GhostTable.Track | ghosts.go:71-173 | One tick: memory, named live rows, exactly the ghosts to be kept, each refreshed, and the rows returned, of which all past the live ones are disconnected and without rates |
| Ghosts.GhostTable.ResolveLive | ghosts.go:106-112 | Exactly the answerable live rows are resolved, in place |
| Ghosts.GhostTable.Bury | ghosts.go:116-172 | Cancel, promote, expire, refresh, and keep the live set; with a zero window drop everything |
| Ghosts.GhostTable.CancelReturned | ghosts.go:124-127 | A live id cancels its ghost and no other |
| Ghosts.GhostTable.Promote | ghosts.go:129-140 | Exactly the vanished established sockets not held already are promoted, each to its last row shown as disconnected and without rates; the others stay |
| Ghosts.GhostTable.Expire | ghosts.go:142-166 | Exactly the ghosts within the window stay, refreshed, each once in the output |
| Ghosts.GhostTable.TakeLive | ghosts.go:168-171 | The set kept for the next diff; the last row of an id wins |
| LastOwner.LastOwners.Record | lastowner.go:102-123 | Each owner's start time is read once per tick; the last owned row of an id is remembered; old entries go |
| LastOwner.LastOwners.Resolve | lastowner.go:133-147 | Names a row from memory; the pid comes back only if a reading matched the recorded start |
| LastOwner.LastOwners.Verify | lastowner.go:157-170 | Demotes a pid whose process is no longer the remembered one |
| LastOwner.LastOwners.Alive | lastowner.go:91-97 | True only on a reading that matched, false only on one that did not or when there is nothing to compare |
| LastOwner.RememberOwned | lastowner.go:102-118 | The last owned row of an id is what one recording leaves |
| LastOwner.RememberUnowned | lastowner.go:102-118 | An id without an owned row keeps what was known |
| Scanner.SocketScanner.Scan | conns.go:191-274 | One scan: whether to sweep, the sweep, the ageing, the labelled rows |
| Scanner.SocketScanner.FindMissing | conns.go:191-199 | Finds a socket worth a sweep iff there is one |
| Scanner.SocketScanner.Sweep | conns.go:317-377 | A sweep replaces the inode map and the count of refusals by what the entries of `/proc` say, or does nothing if it cannot be listed |
| Scanner.SocketScanner.Survey | conns.go:323-355 | The loop over processes and descriptors: the last holder of every socket, and how many refused |
| Scanner.RefusedIsCount | conns.go:331-341 | The count of refusals is how many processes listed refused us |
| Scanner.HolderIsLast | conns.go:342-351 | A socket held by several processes goes to the last one listed |
| Scanner.NobodyHolds | conns.go:342-351 | A socket that is nobody's descriptor has no holder |
| Scanner.SocketScanner.Age | conns.go:208-235 | Unowned inodes keep their first sighting, owned ones are remembered as such, absent ones are forgotten |
| Scanner.SocketScanner.Label | conns.go:237-272 | Each row's owner or the reason it has none |
| ScanHistory.LabelIsHistory | conns.go:278-313 | A present unmapped inode is "kernel" iff nothing was refused, no scan of its current run of presences had it mapped, and that run began at least 10 s ago; "denied" iff something was refused |
| ScanHistory.AnswerableIsHistory | conns.go:258-313 | A row is handed to memory iff it has no inode, or nobody holds it, nothing was refused, and a holder was seen in its current run of presences or that run is under 10 s old |
| ScanHistory.MapIsLastSweep | conns.go:317-377 | Over any run of scans the holders known and the refusals counted are those of the last sweep that could list `/proc`, and of no other |
| ScanHistory.NoSweepYet | conns.go:138-147 | Before the first such sweep nobody holds anything and nothing was refused |
| ScanHistory.WalkedExactly | conns.go:191-202 | A scan sweeps iff some socket could still be explained when it was asked about, or no sweep has succeeded, or the last is over 30 s old |
| ScanHistory.MappedIsHeld | conns.go:342-351 | A socket counts as held iff some process of the listing last swept holds it, and its owner is then the last of them |
| ScanHistory.BlockedIsRefused | conns.go:331-354 | What was refused is how many processes of that listing refused |
| ScanHistory.RowSays | conns.go:237-272 | A row has the ends, state and figures of its table line, and the holder known with its names, or none and a reason |
| ScanHistory.RowIsHolders | conns.go:191-272 | From end to end: a row with an inode is attributed iff some process of the listing last swept holds it, and then to the last such; else it has no pid |
| ScanHistory.EverOwnedIsHistory | conns.go:208-235 | The ever-owned set answers whether a scan of the current run of presences found a holder |
| ScanHistory.UnownedSinceFirstSight | conns.go:208-230 | The age of a never-owned inode counts from the first scan of that run |
| ScanHistory.MapsArePruned | conns.go:226-235 | Both ageing maps stay within the inodes of the last scan |
| ScanHistory.ForcedWalkIsYoung | conns.go:191-202 | A sweep outside the 30 s schedule has a culprit, and one never owned is either new or less than 10 s old |
| ScanHistory.YoungSocketForcesWalk | conns.go:191-202 | And a socket nobody holds or was seen to hold, new or less than 10 s old, always causes one |
| ScanHistory.OnceOwnedNeverKernel | conns.go:298-313 | A socket that keeps its inode after someone held it is never taken for the kernel's |
| Rules.CompiledIsDirect | rules.go:103-138 | Annotating by the compiled tables is annotating by the stored lists read directly: longest network, earliest on ties, first name pattern only if nothing else, parked rules ignored |
| Rules.DirectReadingIsUnique | rules.go:190-254 | The direct reading admits one result only |
| RuleMeaning.TargetMeans | rules.go:142-151 | A target that reads as a network names exactly the addresses of its family that share its first bits, and ranks by their number; one that reads as an address names that address alone; any other is a name |
| RuleMeaning.MatchMeans | rules.go:258-265 | A name pattern matches iff it occurs somewhere in a name that is not empty, letter case aside |
| RuleMeaning.AnnotatingMeans | rules.go:190-254 | So the direct reading, in bits and letters: each end's alias from the rule in force that shares most bits, the earliest on ties, else the one it had, else from the first rule whose name occurs; hidden iff a hide rule or an exclusion in force catches it |
| RuleMeaning.CompiledMeans | rules.go:103-254 | And so do the compiled tables |
| Rules.BestNetIsDirect | rules.go:171-179 | The best-so-far scan finds the longest network's alias, the earliest on ties |
| Rules.StrAliasIsDirect | rules.go:209-216 | The pattern scan finds the first matching rule's alias |
| Rules.HiddenIsDirect | rules.go:231-244 | Hide networks and patterns together match iff some stored hide rule does |
| Rules.ExcludedIsDirect | rules.go:245-253 | Exclusion patterns match iff some stored exclusion does, as a name even when it reads as a network |
| RuleBook.Book.Apply | rules.go:190-254 | Annotates a row in place as the stored lists, read directly, say; and, where addresses are read whole, as they mean in bits and letters |
| RuleBook.Book.Compile | rules.go:103-138 | Rebuilds the tables to be what the lists compile to |
| RuleBook.Book.constructor | rules.go:89-100 | Starts from the file's lists, compiled |
| RuleBook.Book.Make | rules.go:270-331 | Each edit changes its list, nothing else, and the tables follow |
| RuleBook.Book.MakeAll | rules.go:270-331 | A session of edits leaves the lists every edit in turn leads to, compiled |
| RuleBook.Book.AliasNet | rules.go:171-179 | The most specific network's alias |
| RuleBook.Book.AliasFor | rules.go:158-166 | The alias the address rules alone give: that of the rule in force naming the address by most bits, the earliest on ties, else none |
| RuleList.List.Replace | rules.go:336-347 | In place, though it overwrites the slice it reads, the result is filter then append |
| RuleList.List.Park | rules.go:317-331 | Parks or revives every entry of the target, in place |
| RuleList.ReplaceUpdates | rules.go:336-347 | As a map: the edited key reads as written or deleted, the others as before |
| RuleList.ReplaceKeepsUnique | rules.go:336-347 | One entry per case-folded match stays one entry |
| RuleList.ParkKeepsUnique | rules.go:317-331 | So does parking |
| RuleList.ParkUpdates | rules.go:317-331 | As a map, parking changes the off flag of its key's rule and nothing else |
| RuleList.ListIsInForce | rules.go:270-347 | Over any writes and parkings of any list, the list holds exactly the rules in force: the last write of each target, or an original rule nothing was written over, parked or not by the last parking since |
| RuleList.LastWriteWins | rules.go:270-347 | Over any writes and parkings, a key reads as its last write left it, with the last parking since, and there is one rule for it |
| RuleEdits.SessionEdits | rules.go:270-331 | In a session each of the three lists undergoes its own edits and no others |
| RuleEdits.AliasSet | rules.go:270-279 | An alias set is the one rule there then is for its target, a blank one leaves none; all other rules of all lists stay |
| RuleEdits.HiddenSet | rules.go:283-296 | A target hidden has one hide rule, in force, one shown again none; all else stays |
| RuleEdits.ExclusionSet | rules.go:300-313 | The same of exclusions |
| RuleEdits.ExclusionParked | rules.go:317-331 | Every exclusion of the target is parked or revived in its place; all else stays |
| RuleEdits.SessionHides | rules.go:190-331 | After any session a row is hidden iff a hide rule in force matches it or an exclusion in force matches an owner |
| RuleEdits.SessionAliases | rules.go:158-331 | After any session an address gets the alias of a rule in force than which none is closer, and none iff no rule in force names it |
| RuleEdits.SessionPatterns | rules.go:209-331 | The alias from name patterns is that of a pattern in force that matches, and none iff none does |
| RuleLaws.ApplyTwice | rules.go:190-254 | Annotating twice is annotating once |
| RuleLaws.HideIsRecomputed | rules.go:198-202 | The hide flag a row came with never matters |
| RuleLaws.StaleAliasExactly | rules.go:198-229 | A row carrying aliases is annotated like a fresh one, hide flag and all, iff at both ends an address rule names it, it carried none, or the patterns give the same |
| RuleLaws.StaleHideExactly | rules.go:198-253 | The hide flag alone comes out the same iff the row is hidden anyway, or the alias it carried is moot, or the hide patterns judge it as they judge the alias the name patterns give |
| RuleLaws.DeletedAliasStillHides | rules.go:198-282 | Set an alias, annotate, delete it: the frozen row stays hidden under it while a fresh one shows |
| SkippedLookups.SkippingLookupsKeepsAlias | main.go:475-502 | Not looking an aliased address up changes neither alias |
| SkippedLookups.SkippingLookupsHidesNoMore | main.go:475-502 | It never hides a row that would have been visible |
| SkippedLookups.SkippingShowsExactly | main.go:475-502 | It leaves visibility alone iff the row is hidden all the same or no pattern matches the names skipped |
| SkippedLookups.NeverMattersExactly | main.go:475-502 | By the rules alone, for every answer of the lookups: iff the user named neither end; or the remote one and the hide rules catch the row without a name or there are no name patterns; or only the local one and no owner is excluded or the hide rules catch the row without a name and under the name in each alias pattern |
| SkippedLookups.HiddenAsAnythingExactly | rules.go:209-244 | A row is hidden whatever its remote end is called iff it is hidden without a name and under the name in each alias pattern in force |
| SkippedLookups.SkippingLookupsCanShow | main.go:475-502 | Compiled rules and a row for which it matters |
| Net.MaskedTwinsAreOne | rules.go:142-151 | Masked, as rule targets are, a network has one spelling |
| Net.MaskingKeepsNetwork | rules.go:142-151 | Masking a prefix changes nothing about what it contains |
| OwnerCache.FindsBest | owner.go:181-206 | The search returns a live entry that none beats, named before unnamed then longest, the first of ties; and misses only when there is none |
| OwnerCache.FoundIsClosest | owner.go:181-206 | Bit by bit: what is found covers the address and has not expired; it has a name if any such entry has, and none that is no worse named is longer; nothing is found iff none covers it |
| OwnerCache.OrderIsIrrelevant | owner.go:185-206 | With every network under one spelling the answer does not depend on the order |
| OwnerCache.MaskedHasNoTwins | owner.go:185-206 | Masked prefixes are enough for that |
| OwnerCache.OrderFreeExactly | owner.go:185-206 | For a given address and time all orders of the entries give one answer iff no two live entries tie unbeaten |
| OwnerCache.TwinsMakeOrderMatter | owner.go:185-206 | Two spellings of any one network, cached together, make some orders answer differently |
| OwnerCache.FailureHidesNoName | owner.go:181-206 | A failed probe of another prefix never hides a known name |
| OwnerCache.RestartExactly | owner.go:460-500 | For a given address and later time: after writing and reading back, in all orders, the search answers as the old cache with expiries cut to seconds iff no two of its live entries tie unbeaten |
| OwnerCache.FlooredWithin | owner.go:493-500 | The trip to disk keeps an entry's name and costs it less than a second |
| OwnerCache.WrittenSays | owner.go:489-500 | The file holds each entry's name and the second in which it expires, and nothing else |
| OwnerCache.RestartKeeps | owner.go:460-515 | A restart keeps every entry with a second left, under its name and until the second it would expire in; drops every expired one; adds none |
| OwnerCache.RestartAnswersAlike | owner.go:460-500 | So it always does where every network has one spelling, and what survives says the same |
| OwnerCache.OwnerTable.Load | owner.go:460-485 | Reads back exactly the good entries of the file, in any order |
| OwnerCache.OwnerTable.Find | owner.go:185-206 | The loop computes that search |
| OwnerCache.OwnerTable.Put | owner.go:210-216 | Order and cache keep the same prefixes |
| OwnerCache.OwnerTable.Flush | owner.go:489-515 | Writes exactly the cached entries, and only when something changed; a write that fails leaves the old file and is not tried again before the next change |
| LookupQueue.StepKeepsInvariant | dns.go:47-93 | Every atomic step of every interleaving of callers and workers keeps the invariant, although the send precedes the mark |
| LookupQueue.QueuedIsOutstanding | dns.go:47-93 | Whenever the mutex is free the queued set is exactly what is in the channel or with a worker |
| LookupQueue.NeverLookedUpTwiceAtOnce | dns.go:47-93 | At every instant no address is with two workers, or with one and in the channel, or in the channel twice |
| LookupQueue.QueuedIsBounded | dns.go:47-93 | Outstanding work is at most the channel's capacity plus the workers |
| LookupQueue.NotAskedAgain | dns.go:70-93 | Once answered, an address is not asked for again for ten minutes |
| LookupQueue.CacheIsHistory | dns.go:47-68 | Over any run the cache holds the last answer to each address ever answered, as found and when |
| LookupQueue.ReplyIsLastAnswer | dns.go:70-93 | A caller is told that answer while it is good, an hour with a name and ten minutes without, and nothing otherwise |
| LookupQueue.SendExactly | dns.go:70-93 | A caller enqueues an address iff it has no good answer, is neither in the channel nor with a worker, and there is room |
| LookupProgress.SomethingIsDue | dns.go:47-93 | In every state the invariant allows, with a worker left, some step already due strikes an outstanding address off or brings it nearer to that |
| LookupProgress.NeverStuck | dns.go:47-93 | Every run with a worker left can go on, by steps already due alone and within the stated number, until a given address is neither queued, in the channel nor with a worker |
| Pacing.StepKeepsInvariant | owner.go:328-342 | Every step, cancellations included, keeps grants 200 ms apart and one waiter inside |
| Pacing.WindowIsBounded | owner.go:328-342 | Any window of length w holds at most w / 200 ms + 1 grants |
| Pacing.GrantedWhenDue | owner.go:328-342 | A waiter that goes in is let through after exactly what is left of the 200 ms since the last grant |
| Pacing.NotGrantedEarly | owner.go:328-342 | And not before |
| Pacing.CancelledLeavesNothing | owner.go:334-340 | A cancelled wait leaves the way free and counts as no grant |
| Counters.WrapIsNeverCredited | tcpstats.go:93-101 | The wrapped 64-bit difference is never credited |
| Counters.TotalIsPeaks | nethogs.go:193-213 | A total is the sum of the last reading of every nondecreasing stretch, less the baseline |
| Counters.TotalGrows | nethogs.go:193-213 | Totals never go down |
| Counters.NeverOverCounts | tcpstats.go:79-101 | Restarts, noticed or not, can only make a total too small; it is exact iff each reading shows all that moved since the one before, or since a restart that was noticed |
| TcpStats.TCPStats.Apply | tcpstats.go:38-128 | One listing folds into the table and fills the rows; no listing changes nothing |
| TcpStats.TCPStats.Read | tcpstats.go:79-106 | One line: new sockets count in full once primed, known ones by their difference on wrapping words |
| TcpStats.TrackedAddsUp | tcpstats.go:79-114 | Over any run, a tracked socket's totals add up its readings since it was first listed |
| TcpStats.TrackedConserves | tcpstats.go:79-114 | In closed form: peaks of the nondecreasing stretches, minus the first reading if it was the priming baseline |
| TcpStats.TrackedNeverOverCounts | tcpstats.go:79-114 | Over any run no tracked socket is shown with more than moved while it was tracked, since the baseline if it has one; and with exactly that iff no reading lost any |
| TcpStats.RowShowsTotals | tcpstats.go:116-128 | Over any run, a TCP row shows what its socket sent as up and received as down, and is otherwise as it was |
| TcpStats.OthersUntouched | tcpstats.go:116-128 | Rows of UDP, and of sockets not tracked, are left alone |
| TcpStats.TrackedExactly | tcpstats.go:79-114 | A socket is tracked iff it was ever listed and no listing since is more than a minute after the last that had it |
| Hogs.HogTable.Commit | nethogs.go:184-228 | A block is folded in whole and idle or gone processes dropped |
| Hogs.HogTable.Accumulate | nethogs.go:193-213 | Every process of the block gets its difference, or the whole reading after a restart |
| Hogs.HogTable.Purge | nethogs.go:216-225 | Exactly the gone, or idle with nothing moved, are dropped |
| Hogs.TotalsSurviveRestarts | nethogs.go:184-228 | Over any run, totals of a process kept without a break are the peaks of its readings |
| Hogs.KeptExactly | nethogs.go:216-225 | A process is in the table iff some block listed it and no block since found it gone, or idle for over a minute with nothing moved; its totals are those of that block |
| Hogs.TrackedNeverOverCounts | nethogs.go:184-228 | Nor more than it moved in that time, and exactly that iff no block lost any |
| UdpStats.UDPStats.Apply | udpstats.go:152-239 | The first reading primes; later ones fold in and fill the rows; a failed one changes nothing |
| UdpStats.UDPStats.Iterate | udpstats.go:163-174 | The reading holds the kernel's counters under their rendered keys |
| UdpStats.UDPStats.Accumulate | udpstats.go:189-213 | Every socket the map knows grows by its increment |
| UdpStats.UDPStats.Delta | udpstats.go:190-198 | The increment on wrapping words: all of a new counter, none of one that went backwards |
| UdpStats.UDPStats.Fill | udpstats.go:225-238 | Exactly the UDP rows with a total get it, in place |
| UdpStats.UDPStats.Purge | udpstats.go:216-223 | Exactly the sockets the map dropped a minute ago are forgotten |
| UdpHistory.StepKeepsSafe | bpf/udp.c:88-109 | Counting, failing to count, evicting and reading each keep the bound |
| UdpHistory.NeverOverCounts | udpstats.go:163-223 | Whatever is evicted and whenever it is read, no total exceeds what truly moved since priming |
| UdpLimits.RowShowsItsSocket | udpstats.go:225-268 | A row decoded from the lines the kernel prints for a socket shows that socket's total |
| UdpLimits.OthersUntouched | udpstats.go:225-238 | TCP rows, and rows without a total, are left alone; no row changes but in its totals |
| UdpLimits.RowsNeverOverCount | udpstats.go:163-240 | So no UDP row ever shows more than its socket truly moved since priming |
| UdpHistory.ExactWithoutEviction | udpstats.go:163-223 | With nothing lost, every reading leaves each total equal to it |
| UdpLimits.MissedReadingExactly | udpstats.go:172-223 | For any account and any two readings: skipping the first leaves the total after the second alone iff that is moot |
| UdpLimits.ReadingsAgreeExactly | udpstats.go:189-213 | The increments of two readings add up to that of the second alone iff the counter only grew, or one of them repeats its neighbour, or none of the three adds anything |
| UdpLimits.GrowthCatchesUp | udpstats.go:172-174 | A missed reading is made good if the counters only grew |
| UdpLimits.FailureMattersExactly | udpstats.go:172-223 | Of two runs alike but for a reading the second one misses, the totals after the next reading agree iff missing it is moot, whatever is counted and evicted |
| UdpLimits.MissedReadingMatters | udpstats.go:172-174 | Such a pair of runs in which they differ: the socket is evicted before the next reading |
| MissedReadings.MissedForGoodExactly | udpstats.go:172-223 | For any account and any two readings: skipping the first leaves every later total alone, whatever is read and when, iff that is moot for good |
| MissedReadings.FailureNeverMattersExactly | udpstats.go:172-223 | Of two runs alike but for a reading the second one misses, every total from the next reading on agrees, however both go on, iff the miss is moot for good |
| MissedReadings.AgreementEnds | udpstats.go:216-223 | For any socket and traffic, such a pair of runs whose totals agree after the next reading and differ a minute later |
| UdpLimits.NeverOverExactly | udpstats.go:163-223 | No run over a set of sockets over-counts any of them iff no two of them are rendered alike |
| UdpLimits.SharedKeyOverCounts | udpstats.go:169-198 | For any two sockets rendered alike, a run without losses in which one is credited all that moved on the other |
| UdpLimits.RealKeysExactly | bpf/udp.c:62-86 | Real keys are told apart iff no IPv4 socket is among them together with its IPv4-mapped form |
| UdpLimits.RealKeysNeverOver | udpstats.go:163-261 | So runs over real sockets never over-count iff the same holds of them |
| SocketKeys.ParseHexAddr | conns.go:427-461 | The byte-filling parser computes the specification, errors and short inputs included |
| SocketKeys.KeysMeet | udpstats.go:243-281 | For all words and ports, the parsed line and the kernel's key are rendered alike, IPv4-mapped ones included |
| SocketKeys.IdInjective | udpstats.go:243-261 | Equal renderings come from equal keys, up to IPv4-mapped confusion |
| SocketKeys.IdExactly | udpstats.go:243-261 | Renderings are equal iff the keys are, or one is the IPv4-mapped form of the other |
| SocketKeys.EndRoundTrip | conns.go:427-461 | Parsing what the kernel prints for an address and a port gives them back |
| SocketKeys.PairsBackwards | conns.go:436-444 | The bytes of an IPv4 address are the pairs of its digits, the last first |
| SocketKeys.PortReads | conns.go:433-434 | A port is the number its digits make, 65535 as soon as they make more, 0 if none stand there or something else comes before that |
| SocketKeys.EndReads | conns.go:427-461 | Without a colon there is neither address nor port; any other width, or a foreign character, gives no address, the port being read all the same |
| SocketKeys.UnreadableHasNoKey | udpstats.go:263-268 | A row has a key iff its local end can be read, and with an unreadable remote end never a real socket's |
| SocketKeys.JoinedNamesEnds | udpstats.go:263-268 | The joined key determines both ends |
| Table.Body.ApplySeq | web/index.html:2295-2303 | For any prior children and any duplicate-free sequence, the children end up being that sequence |
| Table.Bucket | web/index.html:1664-1693 | The two loops, finding where something listens and bucketing by a map, compute the groups |
| Table.ListensAt | web/index.html:1664-1670 | A port counts as listened on iff some visible row listens there |
| Table.GroupsPartition | web/index.html:1674-1699 | Every visible row is in exactly one group, the group sums add up to the visible sum, and every header counts its listening, incoming and outgoing rows |
| Table.HeaderCounts | web/index.html:1664-1693 | A header counts its rows that listen, those that end where some visible row listens, and the rest |
| Table.EachFigureAdds | web/index.html:1561-1566 | A sum adds up each of the four figures, and each by itself |
| Layout.BucketedIsProper | web/index.html:1674-1693 | Groups are nonempty, hold only their own key's rows, none twice |
| Layout.GroupedExactly | web/index.html:1674-1684 | Two visible rows are in one group iff they belong to one application or, having none, to one pid under one name |
| Layout.SequenceDistinct | web/index.html:1725-1743 | A render never lays out an element twice, whatever is sorted and collapsed |
| Layout.ShownExactly | web/index.html:1725-1743 | A header is laid out iff its group has several rows, a row iff it is alone in its group or the group is open |
| Layout.LaidOutInOrder | web/index.html:1725-1743 | Each group has its place after those before it, header first, its rows following in order |
| Layout.Render | web/index.html:1674-1745 | Bucket, sort, lay out, apply: the table ends up being the layout |
| FilterTerms.ParseTerms | web/index.html:1513-1533 | The index-advancing parser terminates on every string and computes the terms |
| FilterTerms.FilterBox.AddFilterTerm | web/index.html:1535-1542 | The box afterwards: unchanged if the term was there, else trimmed and extended |
| FilterTerms.AddReadsBack | web/index.html:1535-1542 | With no open quote and a printable term, parsing afterwards yields the old terms plus exactly that one |
| FilterTerms.AddTwice | web/index.html:1535-1542 | Adding it again changes nothing |
| FilterTerms.AddReadsBackExactly | web/index.html:1535-1542 | Given a text without an open quote a new term is read back iff it is printable |
| OpenQuotes.AddToOpenExactly | web/index.html:1535-1542 | Into a text with an open quote a new term is read back, after the terms of the trimmed text, iff that text ends in the double quote and the term is the blank that closing it makes |
| OpenQuotes.AddToOpenBoxExactly | web/index.html:1535-1542 | After the terms the box showed before trimming: iff besides nothing blank followed that quote |
| FilterTerms.TermsConcat | web/index.html:1513-1533 | Parsing splits at a blank outside quotes |
| FilterTerms.TrimKeeps | web/index.html:1536-1536 | Trimming changes no term |
| TypedTerms.LineReadsBack | web/index.html:1513-1533 | A line of words, bare or in quotes of either kind, with or without a minus, reads back as exactly those that are not empty |
| TypedTerms.OpenQuoteTakesAll | web/index.html:1520-1525 | A quote that is never closed takes all that follows |
| TypedTerms.EveryTextIsALine | web/index.html:1513-1533 | Every text is such a line with at most white space and an open quote after it, so those two settle what any text reads as |
| Systemd.UnescapeSystemd | procinfo.go:390-407 | The loop with its early exit computes the decoding |
| Systemd.DecodingUndoesEncoding | procinfo.go:390-407 | It undoes any encoder that escapes whatever bytes it likes, in digits of either case, and every backslash that could be taken for an escape |
| Systemd.RawBackslashIsTaken | procinfo.go:390-407 | A backslash left raw that could be taken for an escape is: for every byte, digits and rest |
| ProcStat.StartTimeIsField22 | lastowner.go:68-86 | The start time is field 22 for every process name, spaces and parentheses included |
| ProcStat.ShortStatHasNone | lastowner.go:68-86 | A line with too few fields gives none |
| ProcStat.BadFieldHasNone | lastowner.go:81-84 | Nor does one whose field 22 is not a number |
| ProcStat.NoCommandHasNone | lastowner.go:73-76 | Nor one without a parenthesis |
| CymruNames.CymruOriginName | owner.go:349-367 | The loop lays out reversed octets (section 3.5 of RFC 1035) or nibbles (section 2.5 of RFC 3596) |
| CymruNames.NameIsReversed | owner.go:349-367 | Label by label, the name is the address written out backwards, octets in decimal or hexadecimal digits, then the zone |
| CymruNames.NameIsInjective | owner.go:349-367 | Different addresses have different query names |

## Left out

- OwnerCache.RestartExactly: asks that reading a prefix undoes writing it; the parsing and printing of addresses themselves are taken as given.
- LookupQueue.NotAskedAgain: covers the reverse-DNS cache; the owner queue differs by its prefix cache, which `OwnerCache` covers on its own.
- Pacing.WindowIsBounded: counts grants; the query itself is sent some time after its grant.
- UdpHistory.NeverOverCounts: a reading of the kernel map is one step, counters that move while the map is iterated are not modelled; what moved is what the kernel probe was asked to count, sends that fail afterwards included.
- UdpLimits.FailureMattersExactly: compares the totals after the next reading only; `MissedReadings.FailureNeverMattersExactly` compares all later ones.
- TcpStats.TCPStats.Apply: takes the lines of `ss` already read; splitting them is not modelled.
- SocketKeys.KeysMeet: the printing of addresses is a parameter; it need not be known, only used by both sides.
- Scanner.SocketScanner.Sweep: takes the entries of `/proc` and what their descriptors point at as read; the caches of process names, applications and users it prunes are not modelled.
- Scanner.SocketScanner.Label: takes each table line already split and decoded; the address field's decoding is in `SocketKeys`.
- RuleBook.Book.Make: the saving of the rules file, and two saves racing, are not modelled.
- RuleEdits.SessionAliases: does not say which of several equally close rules wins; `Rules.BestNetIsDirect` does, by the order of the list.
- Rules.CompiledIsDirect: trimming, lower case, case folding and the reading of addresses are parameters.
- Monitor.Monitor.Tick: rules and window change between ticks only, while the program takes its locks row by row; the traffic columns, the process totals and the clients' connections are not part of the tick; lookups are inputs per row.
- Table.GroupsPartition: adds whole numbers where the page adds floating-point ones.
- Rates and the clock differences behind them; only totals are modelled.
- The `ss` and `nethogs` output parsers, and the snapshot that sums the totals of nethogs.
- `parseCymruOrigin`, `parseCymruASName`, `ownerAddr` and `ownerNetKey`: picking fields out of TXT answers and classifying addresses.
- The naming of applications (`friendly`, `knownApp`, `trimVersionSuffix` and their tables), geography, interface names, process killing and privilege elevation.
- HTTP handlers, cookies, the WebSocket, preferences, the instance lock, and everything on the page besides grouping, laying out and filtering terms.
