# dockpatrol reconciliation core, modelled in Dafny

dockpatrol is a single-host agent. It keeps a host's containers in line with
docker-compose manifests kept in a Git repository. Each cycle (`run_sync`)
does four things in order:

1. Fetch the repository.
2. Launch every stack: decrypt a stack's `.env.enc` when one exists, then run
   `docker compose up -d` in its directory.
3. Enforce: stop every container that no manifest declares, unless its
   `dockpatrol_prune` label says to keep it.
4. Prune unused Docker resources.

`main` runs one cycle when `INTERVAL` is 0. Otherwise it runs cycles forever,
with a sleep between them.

The model turns the process into a trace of side-effecting actions
(`Actions.Action`: fetch, decrypt, compose-up, stop, prune, sleep). The trace
is computed by pure functions of what the process observes. The observations
are:

- the `os.walk` trace of the stacks directory;
- which paths exist;
- what `docker compose ps --services` answers in each stack directory;
- the container listing, with each container's label lookup.

Modules follow the program's structure:

- `PyText`: the Python string behaviour the code relies on. It covers
  `str.strip()` with Python's whitespace set, `str.splitlines()` with Python's
  line-boundary set (`\r\n` counts as one boundary), and lower-casing.
- `PyPath`: POSIX `os.path.join` and `dirname`, which the program calls, and
  `basename`, which it never calls: the model uses it only to state which file
  name a path ends in.
- `Scanner`: `find_compose_files`.
- `Launcher`: the decisions of `start_containers`.
- `Resolver`: `list_expected_containers`, including the crash when a query
  fails.
- `Enforcer`: the per-container decision and the pass of
  `stop_unexpected_containers`.
- `Scheduler`: `stop_unexpected_containers` as a whole, `run_sync`, and the
  loop and exit behaviour of `main`.

Three behaviours of the code shape the model:

- **A failed query or container listing ends the process.** A failed `docker
  compose ps --services` makes `run_command` return `None`, and
  `None.splitlines()` then raises outside any `try` (lines 93-94). A raising
  `containers.list` (line 102) does the same. Either exception escapes
  `run_sync` and `main`, so the cycle issues no stop and no prune, and in loop
  mode no further cycle starts.
- **Any non-zero interval loops.** `main` enters the `while True` loop for
  every non-zero `INTERVAL`. A negative one makes `time.sleep` raise after the
  first cycle (lines 139-146).
- **A failed container lookup is skipped.** When `containers.get` raises, the
  `except` at line 121 logs it, the container is passed over, and the pass
  goes on.

## Model

| member | source | states |
|---|---|---|
| PyText.Strip | dockpatrol/dockpatrol.py:26 | The stripped output is a contiguous slice of the input, everything cut off on either side is whitespace, the result neither starts nor ends with whitespace, and it is empty exactly when the input is all whitespace. |
| PyText.StripSurrounded | dockpatrol/dockpatrol.py:26 | Stripping text surrounded by any whitespace gives back exactly that text, when the text itself has no whitespace at either end. |
| PyText.SplitLines | dockpatrol/dockpatrol.py:94 | No line holds a line boundary; the lines written one after the other are the text with its boundary characters removed; only the empty text has no lines. |
| PyText.SplitJoinLines | dockpatrol/dockpatrol.py:94 | Splitting newline-joined lines gives back the lines, provided no line holds a boundary and the last line is not empty. |
| PyText.JoinSplitLines | dockpatrol/dockpatrol.py:94 | Joining the lines of a text with `\n` gives back the text, when `\n` is its only boundary and it does not end with one. |
| PyText.LowerMatchesIgnoringCase | dockpatrol/dockpatrol.py:110 | Comparing the lower-cased value with an all-lower-case word holds exactly when the two are equal ignoring letter case. |
| PyPath.JoinPutsOneSeparator | dockpatrol/dockpatrol.py:62 | An absolute second part replaces the first. Otherwise the result starts with the first part and ends with the second, with one `/` between them exactly when the first part is non-empty and does not already end with one. |
| PyPath.DirnameIsDirectoryPart | dockpatrol/dockpatrol.py:73 | The dirname is a prefix of the path followed only by slashes up to the basename. It is empty exactly when the path has no slash, and ends with a slash only when it is all slashes, in which case it is the whole directory part. |
| PyPath.BasenameIsLastComponent | dockpatrol/dockpatrol.py:60-62 | A helper for stating properties, not a call the program makes: it reads back the file name that lines 60-62 append to a walked directory. The basename is the longest slash-free suffix of the path: it has no slash, and the character before it, if any, is a slash. |
| PyPath.BasenameOfJoin | dockpatrol/dockpatrol.py:62 | Joining a directory with a slash-free file name and taking the basename gives back the file name. |
| PyPath.DirnameOfJoin | dockpatrol/dockpatrol.py:73 | The dirname of a joined manifest path is the walked directory without its trailing slashes, or the directory itself when it is all slashes. |
| Scanner.FindComposeFiles | dockpatrol/dockpatrol.py:59-64 | A path is reported if and only if some walked directory holds a file named exactly `docker-compose.yml` or `docker-compose.yaml` and the path joins that directory with that name. There are at most twice as many paths as walked directories. |
| Scanner.FindComposeFilesAppend | dockpatrol/dockpatrol.py:59-64 | Manifests keep walk order: scanning two stretches of a walk gives the first stretch's manifests followed by the second's. |
| Scanner.ScanByDirectory | dockpatrol/dockpatrol.py:59-64 | Each walked directory contributes its own block of at most two paths, placed between the paths of the directories before it and those after it. The block holds exactly the manifests that directory names, each of them once. |
| Scanner.ReportsOnlyManifests | dockpatrol/dockpatrol.py:60-62 | Every reported path's basename is `docker-compose.yml` or `docker-compose.yaml`. |
| Scanner.YmlBeforeYaml | dockpatrol/dockpatrol.py:60-62 | A directory holding both spellings contributes its `.yml` path immediately followed by its `.yaml` path. |
| Launcher.LaunchOne | dockpatrol/dockpatrol.py:73-84 | One manifest gives exactly one compose-up, in the manifest's directory. It is directly preceded by a decrypt exactly when that directory holds a `.env.enc`. |
| Launcher.Launch | dockpatrol/dockpatrol.py:72-84 | Launching issues only decrypts and compose-ups, at least one and at most two times as many as there are manifests. Every decrypt is directly followed by the compose-up of the directory it decrypted into. |
| Launcher.LaunchAppend | dockpatrol/dockpatrol.py:72-84 | The manifests are launched in order: launching two runs of manifests one after the other issues the first run's actions, then the second's. |
| Launcher.LaunchByManifest | dockpatrol/dockpatrol.py:72-84 | Each manifest contributes its own block of one or two actions, placed between the actions of the manifests before it and those after it. |
| Launcher.ComposeUpForEveryManifest | dockpatrol/dockpatrol.py:72-84 | The compose-up directories are exactly the manifests' directories, one per manifest, in manifest order, whether or not a decryption happened. |
| Launcher.DecryptOnlyWhenEncrypted | dockpatrol/dockpatrol.py:73-79 | Per manifest, the i-th compose-up is directly preceded by a decrypt exactly when the i-th manifest's directory holds a `.env.enc`. Every decrypt reads an existing `.env.enc` in some manifest's directory, and every manifest directory that holds one gets a decrypt into its `.env`. |
| Resolver.ServiceNames | dockpatrol/dockpatrol.py:93-94 | No reported name holds a line boundary, and an output reports no name exactly when it is all whitespace. |
| Resolver.Accumulate | dockpatrol/dockpatrol.py:92-94 | Adding the outputs one by one either raises, exactly when some query failed, or yields exactly the starting names plus every name some query reported. |
| Resolver.ExpectedContainers | dockpatrol/dockpatrol.py:87-98 | The expected set is exactly the union of the names every query reported. The call raises exactly when some query failed. |
| Resolver.ExpectedOfOne | dockpatrol/dockpatrol.py:93-94 | With one manifest, the expected set is exactly that query's lines. |
| Resolver.SameExpected | dockpatrol/dockpatrol.py:92-94 | Two query lists give the same result when they agree up to order, repetition and queries that reported nothing. |
| Resolver.ExpectedOrderIndependent | dockpatrol/dockpatrol.py:92-94 | Reordering the manifests never changes the expected set or whether the call raises. |
| Resolver.BlankOutputAddsNothing | dockpatrol/dockpatrol.py:93-94 | A query whose output is only whitespace adds nothing, wherever it comes in the order. |
| Resolver.ServiceNamesOfListing | dockpatrol/dockpatrol.py:93-94 | A query printing whitespace-free service names one per line, with any surrounding whitespace, yields exactly those names. |
| Enforcer.LabelValue | dockpatrol/dockpatrol.py:110 | The label value is the mapped `dockpatrol_prune` value when the labels are a map holding that key, and `""` when they are `None` or lack it. |
| Enforcer.KeepMatchIgnoresCase | dockpatrol/dockpatrol.py:110-115 | Lower-casing the label and looking it up among `false`, `off`, `0`, `no` is the same as a case-insensitive match against them. |
| Enforcer.ExemptSpellings | dockpatrol/dockpatrol.py:110-115 | `FALSE`, `No`, `oFF` and `0` all exempt a container. |
| Enforcer.NonExemptSpellings | dockpatrol/dockpatrol.py:110-115 | `true`, a missing label and `nO ` (with a trailing blank) do not exempt. |
| Enforcer.Classify | dockpatrol/dockpatrol.py:106-122 | Each of the four outcomes holds if and only if its condition does. A failed lookup means skipped. A declared name means kept, whatever the label. An undeclared name with a keep label means kept. Otherwise the container is stopped. |
| Enforcer.StopsOf | dockpatrol/dockpatrol.py:106-119 | An id is stopped if and only if some listed container with that id was looked up, is undeclared and is not exempted. There are at most as many stops as listed containers. |
| Enforcer.Enforce | dockpatrol/dockpatrol.py:106-119 | The pass issues only stops, and a stop for an id exactly when some listed container with that id should be stopped. |
| Enforcer.StopsEachOnce | dockpatrol/dockpatrol.py:106-119 | With distinct ids, each container that should be stopped gets exactly one stop and every other container none. |
| Enforcer.StopsOfAppend | dockpatrol/dockpatrol.py:106-122 | Enforcing a listing equals enforcing its first part, then its rest: each container's fate depends on that container alone. |
| Enforcer.FailureIsIsolated | dockpatrol/dockpatrol.py:107-122 | A container whose lookup raises is passed over, and the containers around it are dealt with as if it had not been listed. |
| Enforcer.StopsInListingOrder | dockpatrol/dockpatrol.py:106-119 | For two containers that are both stopped, the earlier-listed one's stop comes first. |
| Scheduler.StopUnexpected | dockpatrol/dockpatrol.py:100-119 | Enforcement raises exactly when listing the containers failed or some service query failed, the listing failure first. Otherwise it issues only stops, and stops an id exactly when some listed container with that id was looked up, was reported by no query and is not exempted by its label. The stops are exactly one enforcer pass over the listing, against a set holding exactly the names the queries reported, so `Enforcer.StopsEachOnce` and `Enforcer.StopsInListingOrder` apply to them. |
| Scheduler.RunSync | dockpatrol/dockpatrol.py:129-135 | A cycle fetches first, then launches, enforces and prunes in that order. It starts a stack in every manifest's directory, in manifest order. Each start is directly preceded by a decrypt of that directory's own `.env.enc` into its `.env` exactly when the directory holds one, and there are no other decrypts. It completes exactly when the listing and every query succeeded. A completed cycle is the fetch, the launch of the scanned manifests, one enforcer pass over the listing against exactly the reported names, and the prune, and it stops exactly the unexpected containers. An aborted cycle is the fetch and the launch, with no stop or prune. |
| Scheduler.CycleCounts | dockpatrol/dockpatrol.py:129-135 | A cycle fetches exactly once, prunes exactly once if it completed and never otherwise, and never sleeps. |
| Scheduler.DeclaredStaysOrphanStops | dockpatrol/dockpatrol.py:129-135 | A stack declaring `svc` on a host running `svc` and an unlabelled orphan gives fetch, compose-up, a stop of the orphan alone, then prune. |
| Scheduler.Loop | dockpatrol/dockpatrol.py:143-146 | The loop never returns. It ends by an exception exactly when some cycle raises or the interval is negative, after at least one cycle. When it is still running, its cycle count is the number of observed cycles. Its trace is given by `Scheduler.LoopOfOne` and `Scheduler.LoopAppend`. |
| Scheduler.LoopOfOne | dockpatrol/dockpatrol.py:143-146 | The loop over a single cycle gives that cycle's actions. If the cycle completed and the interval is not negative, a sleep follows and the process is still running. Otherwise the process has crashed. |
| Scheduler.LoopAppend | dockpatrol/dockpatrol.py:143-146 | With a non-negative interval, after cycles that all completed the loop carries on unchanged: its trace over `a + b` is its trace over `a` followed by its trace over `b`. |
| Scheduler.CyclesOf | dockpatrol/dockpatrol.py:143-145 | Every observed state's cycle has the shape of a cycle, and all of them complete exactly when every state lets its cycle complete. |
| Scheduler.Main | dockpatrol/dockpatrol.py:137-146 | The process returns only in run-once mode after a cycle that completed. A zero or negative interval runs the first cycle alone, and a negative one then crashes. A positive one keeps running, after one cycle per observed state, exactly when every cycle completes. The trace starts with the first cycle's actions and is nothing more if that cycle raised. With a positive interval and a completed first cycle, it continues with a sleep and then the loop over the later states. |
| Scheduler.RunOnceWhenIntervalZero | dockpatrol/dockpatrol.py:139-141 | A zero interval gives exactly one cycle with one fetch and no sleep, and the process ends. |
| Scheduler.LoopOverCompleted | dockpatrol/dockpatrol.py:143-146 | The loop over cycles that all complete keeps running. It fetches, prunes and sleeps once per cycle. Every sleep follows a prune and every later fetch follows a sleep. |
| Scheduler.LoopRepeatsCycles | dockpatrol/dockpatrol.py:143-146 | With a positive interval and no cycle raising, the loop fetches, prunes and sleeps once per observed state, and a sleep separates each cycle's prune from the next cycle's fetch. What each cycle does is stated by `Scheduler.ForeverByCycle`. |
| Scheduler.ForeverByCycle | dockpatrol/dockpatrol.py:143-146 | In the loop, each observed state gets exactly its own `run_sync`. After the states before it, all of which completed, come that state's cycle actions. Then come a sleep and the loop over the later states if the cycle completed, and nothing more if it raised. |
| Scheduler.LoopUntilCrash | dockpatrol/dockpatrol.py:143-146 | When cycle j is the first to raise, the loop runs exactly j+1 cycles, prunes j times and crashes. |
| Scheduler.CrashEndsTheLoop | dockpatrol/dockpatrol.py:143-146 | In loop mode, the first observed state whose cycle raises ends the process after exactly that many cycles. The crashing cycle prunes nothing and no later cycle starts. |

## Left out

- Shell execution (`run_command`, lines 21-29) is not modelled as a process. Each command is either an action in the trace or, for `docker compose ps --services`, a given outcome: its stdout, or a failure that becomes `None`. A failing `docker stop`, `sops` or `docker compose up` is logged and ignored by the code. The model therefore issues the action whatever its outcome.
- Fetching the repository (`clone_or_update_repo`, lines 31-50) is one opaque `Fetch` action. Git, credentials and the on-disk result are not modelled. Line 38's command string lacks the `f` prefix, so it names the ref `origin/{GITHUB_BRANCH}`, which does not exist. `git reset --hard` then exits non-zero, and `run_command` logs the error and returns `None` (lines 27-29): no reset happens. `git fetch --all` (line 37) moves only the remote-tracking refs, and `git clean -xdf` (line 39) only deletes untracked files. So once `.git` exists, the checkout stays at the commit cloned at line 48. The walk each cycle observes is the tree on disk, which therefore never moves past that first clone. The model takes the walk as an unconstrained input, so it holds either way.
- Decryption by `sops`, compose, the Docker SDK and `docker system prune` (lines 79, 84, 102, 109, 127) are external. The model keeps only their inputs (paths, labels, listing) and the order of their calls.
- Logging, the length of a sleep and the clock are left out. Observations are finite, so the loop is modelled over a finite sequence of observed host states. While no cycle raises, the process is still running when they run out.
- Environment parsing (lines 12-18) is left out. The interval is a parameter, so the crash of `int()` on a missing or non-numeric `INTERVAL` is not modelled.
- `env_option` (line 81) is computed and never used, so it has no effect and is not modelled.
- Python's full Unicode `str.lower()` is modelled as ASCII lower-casing. For membership in `false`, `off`, `0`, `no` the two agree. Only U+212A lowers to an ASCII letter (`k`), and U+0130 lowers to `i` plus a combining dot. Neither letter appears in a keep word.
- `find_compose_files` runs twice per cycle (lines 68 and 90). The model gives both runs the same walk, since launching only writes `.env` files.
- The `ps --services` answer is a function of the stack directory within one cycle. Different cycles may answer differently.
- The stop uses the fetched container's id (line 119), which is the id the listing gave (line 109). The model uses the listed id.
- Enforcer.StopsEachOnce: requires the listing's ids to be distinct, as the daemon's container ids are. With repeated ids, each repeat is handled on its own. The contract of `Enforcer.StopsOf` covers that case.
- Repeated cycles converging, meaning a second cycle against an unchanged host stops nothing new, is not stated. It depends on what `docker compose up` and `docker stop` do to the host, and those are outside the model.
- Scheduler.Loop: does not model the `OverflowError` that `time.sleep` raises for an `INTERVAL` too large for the platform's timeout (about 9.2e9 seconds). The model sleeps and goes on.
