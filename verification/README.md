# Models of dagq's scripts and small cores

This project models the algorithms of the repository that decide something from data
alone, and proves what they are for. Each module is one component; methods follow the
loops of the source, and the functions and predicates beside them say what the loops
compute. The main results, component by component:

- **Landing test selection** (`LandingHelpers`, `LandingSelect`, `LandingTests`, `Wall`; graphs and
  sums in `Graphs` and `Sums`). The helper closures are reachability and the least fixpoint; the
  users of a union of changed helpers are the union of their users. The filtersets `choose`
  gives pick exactly the tests of a description written on paths and test names
  (`LandingTests.ChoiceExactly`), and adding paths to a diff never drops an integration test. That monotonicity goes through the reasons to run everything,
  table lookups, widening, helper filters and the wall-time threshold. The wall-time estimate is a lower
  bound of every schedule, a greedy schedule finishes within twice it, and it never decreases
  when tests are added.
- **Counting allocators** (`CountingAllocator`, `LimitAllocator`). The state machines have
  one step per atomic operation, any number of threads, and every interleaving. Counters are
  never negative; when no thread is in a call they are exactly the live blocks and the largest
  values ever held. A thread that passes the limit never returns, so BYTES was never past the
  limit when nobody is inside `grew`.
- **Supertrait walk** (`TraitMethods`). The recursive walk over a shared visited set
  terminates on every graph and counts each reachable trait once.
- **Lexer and test-item skipper** (`Lexer`, `LexerRoundTrip`, `LexerEnds`, `TestItems`,
  `EmittedText`). The cursor
  program refines a specification on any input. Lexing inverts printing, for every kind
  of literal and nested comments. Test items are skipped exactly, and writing one into a
  source changes nothing but the module it declares.
- **Event-log rollback** (`Rollback`). Undoing events from a later snapshot gives back the
  state at the cutoff exactly when no event of the log is one the rollback does not read, also
  when each snapshot is read at its own time with events in between.
- **Partition of work** (`Boundaries`). Each execution falls at one boundary, and counts and
  token totals are conserved.
- **Ask spans** (`AskSpans`, sorting in `Sorting`). The merged spans are apart and cover
  exactly the instants of the original ones; the overlap is their measure in a window.
- **Coverage parts and table** (`CoverageParts`, `CoverageRuns`, `CoverageTable`). The merge
  reports no problem exactly when the parts are one whole run; its result does not depend on
  their order; a run split into parts, merged and built is the table built at once.
- **Shell quoting** (`Shell`). A POSIX shell splits the joined arguments back into exactly
  those arguments.
- **Migration numbering** (`Migrations`). `ordered` and `postgres_series` succeed exactly on
  the directories the module's documentation describes, and renumbering within four digits
  never changes the second series.
- **Handoff arguments** (`Handoff`). After any number of failed execs the arguments are those
  of one rewrite of the original ones.

## Conventions

Instants and durations of the scripts are integers (milliseconds, or seconds where the source
compares whole seconds), the wall-time estimate is in reals, and the counters of the
allocators are integers, proved never to be negative. Their `Ordering::Relaxed` atomics are
modelled as one interleaving of all variables: an operation sees what every earlier operation
of any thread wrote. Paths are sequences of segments.
Python's strings and Rust's `&str` are sequences of characters; what an operation does on
bytes only touches ASCII there. Filtersets are the sets of tests they denote. What the
scripts read from Git, JSON, SQLite or regular expressions is given as data. The durations of a
coverage table are taken not to be negative where a run is compared with that of a larger diff
(`LandingSelect.OverThresholdGrows`, `LandingSelect.RunsAllGrows`,
`LandingSelect.MorePathsRunMore`, `LandingSelect.MoreIsChosen`).

## Where the code and what it promises differ

- `scripts/follow-up-membership.py:133-174` does not undo two events the queue writes without
  a status event: `run_claimed` takes a ready task to in progress, and `goal_reopened` makes a
  closed goal open. A task out of every goal is in no snapshot either, so its status is
  taken for draft. `Rollback.RollbackExact` and `Rollback.RollbackOfLog` say exactly which logs
  are rolled back right; `Rollback.ClaimIsMisread`, `Rollback.LeavingIsMisread` and
  `Rollback.ReopeningIsMisread` are the shortest logs that are not. The tasks left to do are
  right even with claims, but for a finished task that left its goal
  (`Rollback.RemainingExact`, `Rollback.LeavingIsUnfinished`), and `Rollback.OpenGoalsExact` says exactly
  when the open goals are.
- `src/emitted_text.rs:22-24` says lifetimes are dropped. The code drops the apostrophe and
  returns the name as a word (`LexerRoundTrip.LexLifetime`). The literal of an escaped
  apostrophe ends one character early (`LexerRoundTrip.EscapedApostropheEndsEarly`), so two
  character literals can be read as a string (`LexerRoundTrip.EscapedApostropheMakesString`).
  A literal with an escape is dropped whatever follows exactly when it is not that one
  (`LexerRoundTrip.EscapedCharDroppedExact`).
- `scripts/docs-metrics.py:1061-1066` takes a worker's time that may differ by a second from
  its span. What is left of it without the asks is never negative, whatever asks hold the run,
  exactly when the time is at least as long as the span (`AskSpans.WorkLeftExact`). For a span
  that does not end before it starts it can be as low as minus one second
  (`AskSpans.WorkLeft`, `AskSpans.WorkLeftCanBeNegative`); for another it is the time itself.
  The other waits are negative exactly when they end before they start.
- `scripts/it-coverage-map.py:368-426` accepts a part whose index is past the count
  (`CoverageRuns.PartsAsCounted`, `CoverageRuns.IndexPastTheCount`), and its coverage depends on
  the order of the parts exactly for a test two parts give different files
  (`CoverageRuns.CoverageAnyOrder`, `CoverageRuns.CoverageByOrder`); two such parts can be
  without a problem (`CoverageRuns.CoveredTwiceIsTaken`).
- `scripts/it-coverage-map.py:306-335` joins binary and test name with `::` for the key of a
  row. Every test keeps its own row exactly when no two are written alike
  (`CoverageTable.RowsKept`, `CoverageTable.KeysCanMeet`).
- `src/migration_numbers.rs:41-49` writes at least four digits. A number past 9999 gets five,
  and the file is then no migration and changes its name (`Migrations.RenumberedExact`):
  `ordered` refuses its directory (`Migrations.FiveDigitsRefused`), and `postgres_series` by
  itself would not match it (`Migrations.FiveDigitsChangeSeries`).
- `src/main.rs:5797-5821` compares options as text, so the rewrite by itself keeps an argument
  `--mode=...` with bytes that are no UTF-8 (`Handoff.ModeGone`, `Handoff.RawModeStays`). `run`
  never gives it one: it parses the arguments first, and the parser refuses such a value for
  the text option of line 955. Without one no turn of `run` goes on with a mode or hands one
  over (`Handoff.ModeNeverHandedOn`).

## Model

| member | source | states |
|---|---|---|
| LandingHelpers.ReachedHelpers | scripts/landing-it.py:243-248 | The first loop ends with exactly the helpers that a chain of naming leads to from a changed one. |
| LandingHelpers.DirectUsers | scripts/landing-it.py:249-250 | The modules that themselves name a reached helper. |
| LandingHelpers.HelperUsers | scripts/landing-it.py:237-261 | Both loops end, and a module is a user exactly when a chain of helpers and then of modules, by reference or macro call, leads to it from a changed helper. |
| LandingHelpers.UsersAreLeast | scripts/landing-it.py:237-261 | The users are within every set that holds the modules naming an affected helper and is closed under module use. |
| LandingHelpers.UsersOfUnion | scripts/landing-it.py:270-292 | The users of a union of changed helpers are the union of their users, so one path at a time loses no module. |
| LandingHelpers.ChooseHelper | scripts/landing-it.py:282-291 | A path under tests/common runs everything exactly when it is no helper's file or its users hold more than a quarter of the tests; otherwise it selects its users. |
| LandingHelpers.HelperChoice | scripts/landing-it.py:270-292 | Over a diff: a reason exactly when some path gives one, and the modules that some path selects. |
| LandingHelpers.HelperOfExact | scripts/landing-it.py:134-138 | A path under tests/common is of helper h exactly when h is a name and the path is tests/common/h.rs or an .rs file at any depth under tests/common/h. |
| LandingHelpers.UsersExact | scripts/landing-it.py:237-261 | The users are the least set that holds the modules naming a helper of the least set of affected helpers and the tests/it modules that name a user or call a macro it defines, written on the tree itself. |
| LandingSelect.FindingFilters | scripts/landing-it.py:485-501 | The filtersets of the known failures are those the test findings name, with a binary or by name alone. |
| LandingSelect.ListCurrentIts | scripts/landing-it.py:504-516 | The listed tests by key, a later one replacing an earlier one of its key. |
| LandingSelect.FullReasons | scripts/landing-it.py:369-392 | There is a reason exactly when the run is forced, the table is missing, unreadable or too old, or a path is a common file or a helper's that runs everything. |
| LandingSelect.ReadPaths | scripts/landing-it.py:543-566 | The table's tests and the filtersets the paths select are those selected by some path, its own entry and, when widened, its neighbours' included. |
| LandingSelect.ExceedsThreshold | scripts/landing-it.py:567-571 | The threshold test does not depend on the order in which the durations are added. |
| LandingSelect.Narrow | scripts/landing-it.py:578-588 | A narrowed run has exactly the filtersets of the selected table tests, the paths' own, the helper users', the tests the table does not know and the findings kept for a task. |
| LandingSelect.Choose | scripts/landing-it.py:519-601 | The choice is full exactly when some reason holds, and otherwise has exactly the filtersets of the description. |
| LandingSelect.ChoicePicks | scripts/landing-it.py:584-601 | The filterset of the choice picks an integration test exactly when the description runs it, known failures left out. |
| LandingSelect.OverThresholdGrows | scripts/landing-it.py:567-575 | More selected tests never go from above the threshold to below it. |
| LandingSelect.RunsAllGrows | scripts/landing-it.py:519-601 | A diff that runs everything still does with more paths. |
| LandingSelect.MorePathsRunMore | scripts/landing-it.py:519-601 | Adding any paths to the diff never drops an integration test from the run. |
| LandingSelect.MoreIsChosen | scripts/landing-it.py:519-601 | The choice for a larger diff is full when the smaller one's is, and picks every integration test the smaller one's picks. |
| LandingSelect.ReachedTestsRun | scripts/landing-it.py:409-459 | A test that reaches a changed file without a broad entry runs, and so do the tests of the neighbours of a widened one, unless a known failure. |
| LandingSelect.UnknownTestsRun | scripts/landing-it.py:578-583 | A listed test the table does not know runs whatever the diff, when its key is its own. |
| LandingTests.TestFileExact | scripts/landing-it.py:319-335 | A changed test file selects exactly the tests it defines: of tests/it those whose names start with its modules, of plugin.rs and of a crate's tests directory those of its binary. |
| LandingTests.ReadersExact | scripts/landing-it.py:101-106 | A changed file selects exactly the tests that read it: plugins, the migration check, dagq.toml and the agents. |
| LandingTests.CommonExact | scripts/landing-it.py:49-60 | The common files, written out on paths. |
| LandingTests.HelperForAllExact | scripts/landing-it.py:270-292 | A path under tests/common runs everything exactly when each helper it is the file of is used by modules with more than a quarter of the tests. |
| LandingTests.ModuleTestsExact | scripts/landing-it.py:264-267 | The filterset of a module picks the tests of binary id dagq::it that begin with its name and `::`, and of the plugin module those of dagq::plugin. |
| LandingTests.HelpersExact | scripts/landing-it.py:264-292 | The users of the changed helpers select exactly the tests of the modules that use a changed helper not used broadly. |
| LandingTests.TableExact | scripts/landing-it.py:409-459 | A path selects a test of the table exactly when an entry that is not broad maps the path to it or, for a widened source file, an entry of a source file beside it. |
| LandingTests.FindingsExact | scripts/landing-it.py:485-501 | Findings name a test exactly by its binary id and name with a space between, or by its name alone when that has no space. |
| LandingTests.UnknownExact | scripts/landing-it.py:504-516 | The unknown tests are the listed ones, the last of their key, whose key the table lacks. |
| LandingTests.ThresholdExact | scripts/landing-it.py:567-571 | The threshold is on the durations of the tests, each once and in any order, a missing one as 0: twice the selected estimate is more than that of all. |
| LandingTests.AllRunExact | scripts/landing-it.py:369-392 | Everything runs exactly for the reasons written out: forced, no table, a table older than seven days, a common file or broad helper, a stale table without its history, or the threshold. |
| LandingTests.NarrowedExact | scripts/landing-it.py:578-588 | A narrowed run has a test exactly when the table, a changed test file, a reader, a helper's users, an unknown listing or a kept finding gives it. |
| LandingTests.RunsExactly | scripts/landing-it.py:519-601 | The tests a landing runs, with no filterset in between: an integration test that no known failure names, when everything runs or a narrowed run has it, and no other. |
| LandingTests.ChoiceExactly | scripts/landing-it.py:519-601 | The filtersets of the choice pick exactly those tests. |
| Wall.WallAtMost | scripts/landing-it.py:351-356 | The estimate is the least time that holds the even share and the longest test. |
| Wall.WallExact | scripts/landing-it.py:351-356 | A time holds the estimate exactly when it holds each test and, as often as there are threads, all of them; below one thread it is one, and no tests take no time. |
| Wall.LoadsAddUp | scripts/landing-it.py:351-356 | The loads of a schedule's threads add up to the tests' durations. |
| Wall.WallIsLowerBound | scripts/landing-it.py:351-356 | No assignment of the tests to the threads is done before the estimate. |
| Wall.GreedyIsWithinTwice | scripts/landing-it.py:351-356 | Giving each test to a freest thread is done within twice the estimate. |
| Wall.WallGrows | scripts/landing-it.py:351-356 | The estimate never decreases when tests are added, in any order. |
| Wall.WallOfPermutation | scripts/landing-it.py:351-356 | The order of the durations does not matter. |
| CountingAllocator.Counting.Grew | examples/supervisor_startup_memory.rs:73-78 | The counters in numbers: both grow, and each peak is the larger of itself and the new count; as the four atomic operations run with no other thread in between. |
| CountingAllocator.Counting.Alloc | examples/supervisor_startup_memory.rs:82-98 | In numbers: the size and one block more, each peak the larger of itself and the new count; nothing when the system gives no block. |
| CountingAllocator.Counting.Dealloc | examples/supervisor_startup_memory.rs:100-105 | In numbers: the size and one block less, the peaks as they were. |
| CountingAllocator.Counting.Realloc | examples/supervisor_startup_memory.rs:107-118 | In numbers: BYTES changes by the new size less the old and COUNT not at all; the peaks are raised by a growth and left by a shrinking; nothing changes when the system moves nothing. |
| CountingAllocator.Counting.ResetPeak | examples/supervisor_startup_memory.rs:129-132 | The peaks are set to what is in use. |
| CountingAllocator.GrewAlone | examples/supervisor_startup_memory.rs:73-78 | `grew` alone adds to both counters and raises both peaks to the new counts. |
| CountingAllocator.NextKeepsAccount | examples/supervisor_startup_memory.rs:81-119 | Every step of every thread keeps: the counters are the live blocks plus what is pending in calls, and each block is one thread's or live. |
| CountingAllocator.SeenBefore | examples/supervisor_startup_memory.rs:73-78 | A step's peaks and seen counts come from counts held before or now. |
| CountingAllocator.PeaksKnownStep | examples/supervisor_startup_memory.rs:73-119 | Every step keeps: the peaks are counts once held, and every count held is within the peak or about to be raised by some thread. |
| CountingAllocator.CountersNeverNegative | examples/supervisor_startup_memory.rs:73-119 | Under every interleaving no counter is below zero at any step. |
| CountingAllocator.QuietCountsAreExact | examples/supervisor_startup_memory.rs:73-127 | With no thread in a call, BYTES and COUNT are the size and number of the live blocks and the peaks are exactly the largest values they ever held. |
| CountingAllocator.ResetStartsAgain | examples/supervisor_startup_memory.rs:129-132 | `reset_peak` with no call under way is the start of a new run. |
| CountingAllocator.StepsAllowed | examples/supervisor_startup_memory.rs:81-119 | Which steps may happen, written out: an allocation, release or growing or shrinking reallocation by any thread at rest, and any operation of a call under way. |
| CountingAllocator.CallMakesBlock | examples/supervisor_startup_memory.rs:81-119 | In every run, an allocation or reallocation that returns has made its block live with the size it was called with. |
| LimitAllocator.Counting.Grew | examples/kpi_read_memory.rs:63-69 | In numbers: BYTES grows, PEAK is the larger of itself and the new count, and the process is stopped exactly when that is more than 3 GiB; as its operations run alone. |
| LimitAllocator.Counting.Alloc | examples/kpi_read_memory.rs:73-89 | In numbers: the size more, with the peak and the stop of a growth; nothing when the system gives no block. |
| LimitAllocator.Counting.Dealloc | examples/kpi_read_memory.rs:91-95 | In numbers: the size less, and the peak as it was. |
| LimitAllocator.Counting.Realloc | examples/kpi_read_memory.rs:97-109 | In numbers: BYTES changes by the new size less the old; a growth raises the peak and stops the process past 3 GiB, a shrinking does neither. |
| LimitAllocator.GrewAlone | examples/kpi_read_memory.rs:63-69 | `grew` alone raises BYTES and PEAK, and stops the process exactly when the new count is past the limit. |
| LimitAllocator.PastLimitStays | examples/kpi_read_memory.rs:53-69 | A thread past the limit is past it after every step of any thread. |
| LimitAllocator.PastLimitNeverReturns | examples/kpi_read_memory.rs:53-109 | An allocation that takes the count past the limit never returns in any run. |
| LimitAllocator.NeverPastLimit | examples/kpi_read_memory.rs:53-109 | While the process runs on and no thread is inside `grew`, BYTES has never been past the limit. |
| LimitAllocator.PastLimitHeadsToExit | examples/kpi_read_memory.rs:53-69 | Each own operation of a thread past the limit brings it nearer to stopping the process, and no other thread sets it back. |
| LimitAllocator.PeakWithinLimit | examples/kpi_read_memory.rs:53-69 | PEAK is then within the limit too. |
| LimitAllocator.NextKeepsAccount | examples/kpi_read_memory.rs:71-109 | Every step of every thread keeps: BYTES is the live blocks plus what is pending in calls, and each block is one thread's or live. |
| LimitAllocator.BytesAreLive | examples/kpi_read_memory.rs:63-115 | In every run BYTES is never below zero, and it is the sum of the live blocks whenever no thread is in a call. |
| LimitAllocator.StepsAllowed | examples/kpi_read_memory.rs:71-109 | Which steps may happen while the process runs, written out. |
| LimitAllocator.CallMakesBlock | examples/kpi_read_memory.rs:71-109 | In every run, an allocation or reallocation that returns has made its block live with the size it was called with. |
| TraitMethods.Walk | scripts/architecture-boundaries.py:260-282 | One call adds to the shared set exactly what it walks and totals the own methods of what it added. |
| TraitMethods.TraitMethods | scripts/architecture-boundaries.py:260-282 | From a root the total is the sum of own methods over the reachable traits, Send and Sync excluded, each once, whatever the cycles and diamonds. |
| TraitMethods.WalkedIsReachable | scripts/architecture-boundaries.py:276-280 | The set of a finished walk is exactly the traits reachable from the root. |
| TraitMethods.ReachableExactly | scripts/architecture-boundaries.py:260-282 | What is reachable: the root, every supertrait but `Send` and `Sync` of a reachable trait, and no other. |
| TraitMethods.ReachableIsLeast | scripts/architecture-boundaries.py:260-282 | It is the least such set. |
| TraitMethods.ExtraEdgeCountsNothing | scripts/architecture-boundaries.py:276-280 | An edge between traits already reachable changes no total. |
| Lexer.SkipComment | src/emitted_text.rs:36-51 | A block comment is skipped to the end its nesting depth says. |
| Lexer.ReadString | src/emitted_text.rs:52-75 | A string body is read with escapes kept and line continuations dropped, to its closing quote or the end. |
| Lexer.ReadRaw | src/emitted_text.rs:93-105 | A raw string is read to the first closing of as many hashes. |
| Lexer.NextPiece | src/emitted_text.rs:29-115 | One turn of the loop, any branch, takes at least one character and gives that piece's tokens. |
| Lexer.Tokens | src/emitted_text.rs:25-117 | On any source the cursor advances to the end, no index is out of range, and the tokens are those of the specification. |
| LexerRoundTrip.LexStr | src/emitted_text.rs:52-75 | A string literal of plain characters, escapes and line continuations gives one token with its text. |
| LexerRoundTrip.LexRaw | src/emitted_text.rs:93-105 | A raw string of n hashes gives its body exactly. |
| LexerRoundTrip.LexBytePrefix | src/emitted_text.rs:106-108 | The prefix of a byte string leaves no token. |
| LexerRoundTrip.LexBlock | src/emitted_text.rs:36-51 | A properly nested block comment leaves no token. |
| LexerRoundTrip.LexLine | src/emitted_text.rs:32-35 | A line comment leaves no token. |
| LexerRoundTrip.LexEscapedChar | src/emitted_text.rs:76-82 | An escaped character literal leaves no token, when what is escaped is no apostrophe. |
| LexerRoundTrip.EscapedCharDroppedExact | src/emitted_text.rs:76-82 | A character literal with an escape is dropped whatever follows exactly when what it escapes is no apostrophe. |
| LexerRoundTrip.LexChar | src/emitted_text.rs:83-84 | A character literal leaves no token. |
| LexerRoundTrip.LexLifetime | src/emitted_text.rs:85-91 | A lifetime leaves its name as a word, against the documentation of lines 22-24, before anything it does not run into. |
| LexerRoundTrip.LexPiece | src/emitted_text.rs:25-117 | Every well-formed piece lexes to its tokens, whatever follows that it does not run into. |
| LexerEnds.LexCutString | src/emitted_text.rs:52-75 | A string literal that nothing closes is its text up to the end of the source, a last lone backslash in it. |
| LexerEnds.LexCutRaw | src/emitted_text.rs:94-105 | A raw string that nothing closes is its body up to the end, for any number of hashes. |
| LexerEnds.LexCutComment | src/emitted_text.rs:36-51 | A block comment that nothing closes takes the rest of the source. |
| LexerEnds.LexCutLine | src/emitted_text.rs:32-35 | So does a line comment without a newline. |
| LexerEnds.LexCutEscape | src/emitted_text.rs:76-82 | So does an escaped character literal that nothing closes. |
| LexerEnds.LexApostrophe | src/emitted_text.rs:76-87 | An apostrophe that begins no character literal is dropped alone. |
| LexerEnds.LexCfg | src/emitted_text.rs:122-130 | Whatever follows it, `#[cfg(test)]` lexes to the tokens a test item is found by. |
| LexerRoundTrip.SpacedItemsOk | src/emitted_text.rs:25-117 | Pieces with whitespace after each never run together. |
| LexerRoundTrip.LexInvertsPrint | src/emitted_text.rs:25-117 | Pieces of every kind in any order, with whitespace only where two would run together, lex to exactly their tokens. |
| LexerRoundTrip.TokensRoundTrip | src/emitted_text.rs:25-117 | Any list of well-formed words, punctuation and escaped bodies, printed with separating spaces, lexes back to itself. |
| LexerRoundTrip.LexedAreProduced | src/emitted_text.rs:88-114 | Whatever the source, each word is of word characters and each mark is neither that nor a space. |
| LexerRoundTrip.LexIsStable | src/emitted_text.rs:25-117 | Printing and lexing again changes nothing when the string texts are escaped ones. |
| LexerRoundTrip.EscapedApostropheEndsEarly | src/emitted_text.rs:76-82 | The literal of an escaped apostrophe ends one character early. |
| LexerRoundTrip.EscapedApostropheMakesString | src/emitted_text.rs:76-87 | Two character literals are read as one string literal. |
| TestItems.FindHeaderEnd | src/emitted_text.rs:145-181 | The header scan stops at the first separator outside brackets, or at the end. |
| TestItems.FindBodyEnd | src/emitted_text.rs:161-177 | The body scan stops at the brace that closes the body, or at the end. |
| TestItems.Skip | src/emitted_text.rs:143-182 | The skip of an item ends at or after its start and gives the module it declares. |
| TestItems.ProductionStrings | src/emitted_text.rs:121-185 | On any tokens the scan ends with the strings and modules of the specification. |
| TestItems.SkipItemIs | src/emitted_text.rs:143-182 | A well-formed item is taken whole with its end, and declares a module exactly for `mod name;`. |
| TestItems.ProductionIsExpected | src/emitted_text.rs:121-185 | A source of plain tokens and well-formed items gives the strings of the plain tokens and the modules of the items. |
| TestItems.InsertedItemIsSkipped | src/emitted_text.rs:121-185 | Inserting a well-formed item between production tokens leaves the strings as they are and adds just the module it declares. |
| TestItems.FoundExactly | src/emitted_text.rs:121-185 | The strings are exactly the texts of the string literals outside test items, in their order and number, and the modules the names of the items whose header ends in `mod name` before a `;`, in theirs. |
| TestItems.NoTestItems | src/emitted_text.rs:121-140 | Without a `#[cfg(test)]` in the tokens the strings are exactly the texts of the string tokens, in their order and number, and there is no module. |
| TestItems.HeaderLenExact | src/emitted_text.rs:146-166 | On any tokens a header ends before the first `,`, `}`, `;` or `{` with as many round and square brackets closed as opened before it. |
| TestItems.BodyLenExact | src/emitted_text.rs:163-180 | On any tokens a body ends with the first `}` up to which as many braces are closed as opened. |
| TestItems.UnendedItem | src/emitted_text.rs:142-183 | A last item that nothing ends, in its header or its body, leaves no string and no module. |
| EmittedText.SourceStrings | src/emitted_text.rs:217-219 | On any source, the tokens and then the scan give the strings and modules of the specification. |
| EmittedText.InsertedInSource | src/emitted_text.rs:217-219 | Writing a well-formed test item into a source, with any comments and whitespace around, leaves the strings found as they are and adds just the module it declares. |
| Rollback.Rollback.UndoEvent | scripts/follow-up-membership.py:163-174 | One event undone, in the branch of its kind, with the defaults for what no snapshot shows. |
| Rollback.Rollback.RollBack | scripts/follow-up-membership.py:156-174 | The loop undoes, newest first, the events from the cutoff up to each snapshot's read. |
| Rollback.TaskExact | scripts/follow-up-membership.py:154-168 | A task is rolled back to its status and goal exactly when it was not claimed first and not left out of every goal unseen. |
| Rollback.GoalExact | scripts/follow-up-membership.py:134-174 | A goal is rolled back exactly when no reopening comes before its first close, nor, of a draft, before its first status event. |
| Rollback.RollbackExact | scripts/follow-up-membership.py:133-174 | For every valid log, undoing it gives back all goals and all tasks in goals exactly when none is misread. |
| Rollback.LogSplits | scripts/follow-up-membership.py:156-162 | With no event between the readings, the events undone are exactly those between the cutoff and the readings. |
| Rollback.RollbackOfLog | scripts/follow-up-membership.py:133-174 | The same for the whole log and a cutoff in it, with no event between the readings, as when all is read at one instant. |
| Rollback.TaskSplits | scripts/follow-up-membership.py:156-162 | A task's events undone are exactly its events between the cutoff and its own reading. |
| Rollback.GoalSplits | scripts/follow-up-membership.py:156-162 | A goal's events undone are exactly its events between the cutoff and its own reading. |
| Rollback.RollbackOfReads | scripts/follow-up-membership.py:133-174 | With each goal and task read at its own time, events between the readings, and each shown as it was when read, the rollback gives back all goals and all tasks in goals at the cutoff exactly when none is misread up to its own reading. |
| Rollback.RemainingExact | scripts/follow-up-membership.py:178-179 | The tasks left to do are right for every goal and task but a finished one out of every goal and unseen. |
| Rollback.OpenGoalsRight | scripts/follow-up-membership.py:177 | The open goals are those at the cutoff when no goal is misread. |
| Rollback.OpenExact | scripts/follow-up-membership.py:134-177 | A goal is open after the rollback exactly as it was unless it was not open and a reopening, unread, leaves it open. |
| Rollback.OpenGoalsExact | scripts/follow-up-membership.py:177 | The open goals are those at the cutoff exactly when no goal is misread in its openness. |
| Rollback.ClaimIsMisread | scripts/follow-up-membership.py:163-174 | A ready task claimed after the cutoff is rolled back to in progress. |
| Rollback.LeavingIsMisread | scripts/follow-up-membership.py:163-174 | A ready task taken out of its goal after the cutoff is rolled back to a draft. |
| Rollback.LeavingIsUnfinished | scripts/follow-up-membership.py:163-179 | A completed task taken out of its goal after the cutoff is reported left to do there. |
| Rollback.ReopeningIsMisread | scripts/follow-up-membership.py:163-177 | A goal closed at the cutoff and reopened after it is reported open then. |
| Boundaries.FindPlace | scripts/follow-up-membership.py:252-270 | The loop over the tasks gives the first boundary, in their order, that any task gives. |
| Boundaries.TurnInsideSpan | scripts/follow-up-membership.py:252-270 | A planner turn is in adopt_to_ready exactly when it lies wholly inside the span of some task it served. |
| Boundaries.ReviewBeginsInsideSpan | scripts/follow-up-membership.py:252-270 | A review is there exactly when it begins inside such a span. |
| Boundaries.PlaceExactly | scripts/follow-up-membership.py:252-270 | Each of the six boundaries on times alone: inside the time of some task, else across the adoption of some, else across the ready of some, else before the adoption of some, else after the ready of some, and the last exactly when no task it served was adopted and ready. |
| Boundaries.SpansExact | scripts/follow-up-membership.py:229-230 | A task's span is that of the last of its rows adopted and then ready, and it has none without one. |
| Boundaries.TurnExactly | scripts/follow-up-membership.py:236-242 | A planner turn runs from its start, or its end when none is known, and served the tasks its planner was opened for and those of the proposals it revised. |
| Boundaries.ReviewExactly | scripts/follow-up-membership.py:243-249 | A review runs from its start event, the start it records, or its end, and served the tasks of its proposal. |
| Boundaries.SumTokens | scripts/follow-up-membership.py:205-218 | Executions counted, those with tokens measured and added to their provider's parts, and the total over providers. |
| Boundaries.PartsAdd | scripts/follow-up-membership.py:213-216 | A provider's parts begin at nothing, and each of its executions with tokens adds its four parts, and their sum to the total. |
| Boundaries.MeasuredExact | scripts/follow-up-membership.py:209-212 | The measured executions are as many as those with tokens. |
| Boundaries.TotalsAddUp | scripts/follow-up-membership.py:217 | The providers' totals add up to the total of all measured executions. |
| Boundaries.ByBoundary | scripts/follow-up-membership.py:227-271 | Each boundary has the token sums of exactly the executions that fall at it. |
| Boundaries.FallingExact | scripts/follow-up-membership.py:250-271 | An execution is listed at its boundary as often as it is given, and at no other. |
| Boundaries.BoundariesConserve | scripts/follow-up-membership.py:221-271 | Whatever is added up, the sums at the boundaries add up to the sum over all executions. |
| Boundaries.CountsConserve | scripts/follow-up-membership.py:205-271 | Execution counts, measured counts and token totals of the boundaries add up to those of the inputs. |
| AskSpans.FirstEvents | scripts/docs-metrics.py:931-940 | The first opening and the first end of each ask. |
| AskSpans.FirstExact | scripts/docs-metrics.py:931-940 | The first opening or end of an ask has none before it in the events, and there is none only when no event is one. |
| AskSpans.FirstIsEarliest | scripts/docs-metrics.py:921-940 | On the events as given, it is the earliest by time and id. |
| AskSpans.Union | scripts/docs-metrics.py:956-964 | The merged spans are ordered with a gap between and cover exactly the instants of the spans, open-ended and inverted ones included. |
| AskSpans.AskSpans | scripts/docs-metrics.py:927-965 | Each run's spans are apart and cover exactly the instants at which some ask holds the run. |
| AskSpans.HeldExactly | scripts/docs-metrics.py:921-965 | A run is held at an instant exactly when the earliest opening of some ask was for it, holds it and is by then, and the earliest answer or close of that ask, if any, is later and not the runtime's. |
| AskSpans.Overlap | scripts/docs-metrics.py:968-975 | The overlap is the number of covered instants of the window. |
| AskSpans.OverlapIsAdditive | scripts/docs-metrics.py:968-975 | It is additive over adjacent windows and never exceeds the window. |
| AskSpans.WaitsWithoutAsks | scripts/docs-metrics.py:1044-1050 | Each wait without asks is not negative exactly when it does not end before it starts, and what is left and what is taken are the whole waits. |
| AskSpans.WorkLeft | scripts/docs-metrics.py:1061-1066 | A worker's time without asks is at least minus one second when it does not end before it starts. |
| AskSpans.WorkLeftExact | scripts/docs-metrics.py:1061-1066 | Whatever asks hold the run, a worker's time without them is not negative exactly when the time is at least as long as its span. |
| AskSpans.WorkLeftCanBeNegative | scripts/docs-metrics.py:1061-1066 | It can be minus one second. |
| CoverageParts.MakePart | scripts/it-coverage-map.py:345-358 | A part lists its run's tests, results and coverage, each test once. |
| CoverageParts.AddResults | scripts/it-coverage-map.py:402-406 | A part's results join the earlier ones, with a problem exactly for a test there already, each such test named. |
| CoverageParts.AddCoverage | scripts/it-coverage-map.py:407-408 | A part's coverage replaces what was there, its last entry of a test deciding. |
| CoverageParts.CheckPart | scripts/it-coverage-map.py:383-401 | The checks of a part by itself and against the parts before: each problem is reported exactly when it is so. |
| CoverageParts.MergePart | scripts/it-coverage-map.py:379-408 | One turn of the loop: a part of another version is reported and otherwise left alone; of another part every problem and nothing else is reported, and its index, platform, list, results and coverage are added. |
| CoverageParts.TogetherMore | scripts/it-coverage-map.py:379-408 | A further part is without problem exactly when it is by itself and beside each earlier part. |
| CoverageParts.CheckAll | scripts/it-coverage-map.py:409-424 | The checks over all parts: no index missing, one platform, the tests run are those listed; each problem is reported exactly when it is so, with exactly its indexes or tests. |
| CoverageParts.MergeParts | scripts/it-coverage-map.py:368-426 | There is no problem exactly when the parts are one whole run; the results, coverage, list and platform are then theirs. |
| CoverageRuns.WholeRun | scripts/it-coverage-map.py:368-426 | Without a problem each index is in exactly one part, the parts agree on commit, platform and list, no test ran in two, and the tests run are those listed. |
| CoverageRuns.PartsAsCounted | scripts/it-coverage-map.py:409-411 | There are then as many parts as the count exactly when no index is out of its range. |
| CoverageRuns.IndexPastTheCount | scripts/it-coverage-map.py:409-411 | A part with an index past the count is accepted. |
| CoverageRuns.SoundAnyOrder | scripts/it-coverage-map.py:368-426 | Having no problem does not depend on the order of the parts. |
| CoverageRuns.ResultsAnyOrder | scripts/it-coverage-map.py:402-406 | Nor do the merged results. |
| CoverageRuns.CoverageAnyOrder | scripts/it-coverage-map.py:407-408 | Nor does the merged coverage when no two parts give a test different files. |
| CoverageRuns.MergeTwice | scripts/it-coverage-map.py:368-426 | Merged in two orders, parts have no problem in one exactly when in the other, and then one list, results and platform, and one coverage when no two parts give a test different files. |
| CoverageRuns.CoverageByOrder | scripts/it-coverage-map.py:407-408 | Otherwise it does: either part's files are merged when that part is last. |
| CoverageRuns.CoveredTwiceIsTaken | scripts/it-coverage-map.py:368-426 | Two parts that give one test different files can be without a problem. |
| CoverageRuns.SplitIsSound | scripts/it-coverage-map.py:345-426 | The parts of a split run have no problem exactly when every listed test ran and no other, and each piece that ran tests has coverage. |
| CoverageRuns.SplitGivesBack | scripts/it-coverage-map.py:345-426 | The merge gives back the run's own results and coverage. |
| CoverageTable.AddFiles | scripts/it-coverage-map.py:323-324 | A covered test's key is appended to the list of each of its files and no other. |
| CoverageTable.BuildTable | scripts/it-coverage-map.py:306-335 | The rows and the index of the tests in sorted order. |
| CoverageTable.OneTable | scripts/it-coverage-map.py:306-335 | One material makes one table, whatever order its sets and maps are listed in. |
| CoverageTable.RowsKept | scripts/it-coverage-map.py:311-322 | Every test has its own row, with its own binary, name, duration, status, coverage and number of files field by field, exactly when no two are written alike. |
| CoverageTable.RowsExactly | scripts/it-coverage-map.py:311-322 | Of tests written alike the row is that of the last in the order of binary and name, field by field: its own duration and status, or none and `not_run` when it did not run, coverage exactly when it has an export, and the number of its files. |
| CoverageTable.NoOtherRows | scripts/it-coverage-map.py:307-322 | Every row is of a listed, run or covered test. |
| CoverageTable.KeysCanMeet | scripts/it-coverage-map.py:313 | Two tests of different binaries may be written alike. |
| CoverageTable.RowsOnly | scripts/it-coverage-map.py:311-322 | There is no row but those of the tests. |
| CoverageTable.IndexTurnsRound | scripts/it-coverage-map.py:311-334 | The index holds a key under a file exactly when a test of that key covers it, and its lists are sorted and not empty. |
| CoverageTable.IndexedOnce | scripts/it-coverage-map.py:323-334 | The index has a key under a file once for each test so written that covers it. |
| CoverageTable.InParts | scripts/it-coverage-map.py:338-426 | A run split into parts, made, merged and built gives the table assembled at once, and is refused exactly when it is not full. |
| Shell.PassQuoted | src/application/naming.rs:16-18 | A quoted argument is read into one token, whatever is around it. |
| Shell.UnquotedQuoted | src/application/naming.rs:16-18 | Quote removal gives back the argument. |
| Shell.QuotedExactly | src/application/naming.rs:9-18 | The text written: single quotes around, each apostrophe in double quotes between two quoted parts, and a space between arguments. |
| Shell.SplitJoined | src/application/naming.rs:9-18 | Splitting the join gives back exactly the arguments, empty ones and ones with quotes, blanks or newlines included. |
| Shell.JoinedOnce | src/application/naming.rs:9-18 | The join is injective. |
| Shell.SplitAfter | src/application/naming.rs:7-14 | After any text that is whole words, the words are those of the text and then the arguments. |
| Migrations.DigitsValue | src/migration_numbers.rs:41-44 | The digits written for a number read back as it. |
| Migrations.NumberExact | src/migration_numbers.rs:30-39 | A file has number n exactly when it is four digits that write n, an underscore, a name that is not empty, and .sql. |
| Migrations.NoZerosPastFour | src/migration_numbers.rs:41-44 | A number of more than four digits is written with no zero before it. |
| Migrations.RenumberedExact | src/migration_numbers.rs:30-49 | A renumbered migration has its new number and its old name exactly up to 9999. |
| Migrations.Read | src/migration_numbers.rs:56-66 | The .sql files that are no migration's are each reported, and the others kept. |
| Migrations.FilesExact | src/migration_numbers.rs:56-66 | The .sql files, and the well named among them, are kept each as often as it is given, and no other. |
| Migrations.SharingExact | src/migration_numbers.rs:73-78 | The files said to share a number are those that have it, each as often as it is given. |
| Migrations.CheckNumbers | src/migration_numbers.rs:67-108 | The loop over the sorted numbers reports nothing exactly when file i has number i + 1 and no other file shares it, and leaves out no shared or missing number and no 0000. |
| Migrations.Ordered | src/migration_numbers.rs:51-117 | It succeeds exactly when every .sql file is well named and the numbers are 1 to n, each once; file i then has number i + 1. The problems are otherwise each so, and no misnamed file, shared number, number missing before the last, or number 0000 is left out. |
| Migrations.GoodIsOneToN | src/migration_numbers.rs:67-108 | Sorted files are at their places exactly when their numbers are 1 to n, each once. |
| Migrations.OneOrder | src/migration_numbers.rs:109-113 | There is one such order. |
| Migrations.NextRenumbered | src/migration_numbers.rs:46-49 | A migration renumbered to come next makes the order one longer. |
| Migrations.MatchNames | src/migration_numbers.rs:157-174 | The loop reports exactly the migrations whose name is the base's or an earlier one's, and of the others those without a file; so nothing exactly when the names are different, none is the base's, and each has its file. |
| Migrations.PostgresSeries | src/migration_numbers.rs:133-187 | It succeeds exactly when the .sql files are the base and, one to one, the names of the migrations after it, in their order; otherwise it reports exactly what is wrong. |
| Migrations.SeriesExact | src/migration_numbers.rs:157-174 | The series is the names of the migrations after the base, one for each, from after its number and underscore. |
| Migrations.RenumberingKeepsSeries | src/migration_numbers.rs:10-16 | For `postgres_series` by itself, renumbering migrations after the base, position by position and within four digits, changes neither success nor the series. |
| Migrations.RenumberedLands | src/migration_numbers.rs:3-16 | A migration renumbered to come next, its file of the series added: the directory is in order, the series grows by just its name, and the two match exactly when that name is free. |
| Migrations.FiveDigitsChangeSeries | src/migration_numbers.rs:41-49 | For `postgres_series` by itself, a number of five digits does. |
| Migrations.FiveDigitsRefused | src/migration_numbers.rs:51-66 | `ordered` refuses every directory with a file renumbered past 9999. |
| Migrations.FirstFourExact | src/migration_numbers.rs:189-198 | The search gives the first four digits with a leading zero that no digit stands beside, and none only when there are none. |
| Migrations.SpelledExact | src/migration_numbers.rs:189-198 | The own number is found wherever it stands, or else the first such four digits; what is found stands in the text, and nothing is found exactly when there is neither. |
| Handoff.HandoffArguments | src/main.rs:5797-5821 | The kept arguments are those at no dropped position, in their order, and then the token. |
| Handoff.PairDropped | src/main.rs:5801-5808 | An option goes with its value, whatever that is, and nothing else goes with it. |
| Handoff.KeptExactly | src/main.rs:5797-5821 | Of arguments written as ones of their own, options with a value after them or joined by an equals sign, and perhaps a last option without its value, exactly those of their own are kept, in order. |
| Handoff.MeantSo | src/main.rs:5797-5821 | All arguments can be written so. |
| Handoff.KeptJoin | src/main.rs:5797-5821 | Arguments after one that waits for no value are kept or dropped by themselves. |
| Handoff.RewritingAbsorbs | src/main.rs:5794-5821 | A rewrite of a rewrite is one rewrite with the last token. |
| Handoff.Run | src/main.rs:5840-5873 | After any failed execs the loop's arguments are one rewrite of the original ones with the last token, and each exec is handed the rewrite of its turn. |
| Handoff.RewrittenHolds | src/main.rs:5783-5821 | A rewrite ends with its token, the only one, has no dropped option in either spelling before it, and is at most two longer. |
| Handoff.AfterHolds | src/main.rs:5840-5873 | So have the arguments after any number of turns, never more than two longer than the original ones. |
| Handoff.HandedOptional | src/main.rs:5851-5864 | A binary that does not take `--codex` gets no argument that is it or begins with `--codex=`; one that takes it, or when there was none, gets what this process goes on with. |
| Handoff.ModeGone | src/main.rs:5809-5815 | For the rewrite by itself, the mode is gone from what is kept exactly when it was not spelled with bytes that are no text. |
| Handoff.ModeNeverHandedOn | src/main.rs:5840-5873 | With no mode given as bytes that are no text, which the parser refuses, no turn goes on with a mode or hands one over in either spelling. |
| Handoff.RawModeStays | src/main.rs:5809-5815 | The rewrite by itself keeps such an argument; `run` refuses it before. |

## Left out

- The I/O around the cores: Git, cargo, SQLite and Postgres calls, HTTP, exec, files and JSON. Their results are inputs.
- Reading Rust sources by regular expressions, in `test_tree` of scripts/landing-it.py and in `trait_methods`: the graphs they find are inputs. `opener_args` and `hunks_of` are not modelled.
- What `choose` only prints: the texts of reasons, `stale`, `widened`, `left_to_ci`, the unit filter, and the order of the printed lists.
- Paths with a newline, which the globs of scripts/landing-it.py do not match across.
- Floating-point rounding, medians and percentiles; exact numbers are used.
- CountingAllocator.QuietCountsAreExact: counters are unbounded integers, so wrap-around at the machine's word is not modelled; it is proved that they never go below zero.
- CountingAllocator.ResetStartsAgain: `reset_peak` racing with other threads is not modelled, because it is not atomic and promises nothing then.
- LimitAllocator.NeverPastLimit: BYTES is an unbounded integer, so a count that wraps around before it is compared is not modelled.
- Lexer.Tokens: which characters are alphanumeric or whitespace is a parameter of the model, not Unicode's tables.
- Rollback.RollbackOfReads: a task that moves, between two readings, into a goal read before is in no snapshot, and so not shown as it was when read; the list of such events, `snapshot_race_events`, is not modelled.
- Boundaries.ByBoundary: the cohort's rows, their durations and the other metrics of `evaluate` are not modelled; rows and times are inputs.
- AskSpans.AskSpans: the printed counts of asks are not modelled.
- AskSpans.HeldExactly: it is stated for events with ids of their own, as the queue gives them; `AskSpans.FirstIsEarliest` covers events that share time and id as well.
- CoverageTable.BuildTable: the fields of the table that are copied as given (version, time, URL, filter, gated files) are not modelled.
- Migrations.Ordered: the texts of the messages are not modelled, only what each is about; file names are characters, of which the source splits only ASCII ones.
- Migrations.PostgresSeries: the version on the base's first line is an input; reading it from the text is not modelled.
- Handoff.Run: what the supervisor does between handoffs, and how it finds whether a binary takes an option, are inputs.
- `repository_name` of src/application/naming.rs: it only asks the path library for a file name.
- src/build_id.rs: it puts a version string together from what Git answers.
- src/history_citation.rs: one search of a string for two fixed forms, on which no modelled component depends.
- The command definitions of src/main.rs: one match arm for each command, with no state between them.
