# timebox focus-session enforcer, modelled in Dafny

timebox runs a one-minute "focus session" on macOS. A worker thread loops
until the session is over, or until the process exits (closing the whitelist
window ends it). Each time round, it reads the command line of the
frontmost application and the time elapsed since the start. It stops at the
first reading whose elapsed time has reached the session length. Otherwise,
when the name is not exactly one of the whitelisted paths, it blocks it: it
asks `pgrep -f` for the matching PIDs and sends `kill -9` to each of them.

This project models that decision logic, with every operating-system answer
turned into an input:

- `selection.dfy` (module `Selection`): filtering a sequence in order. This
  is defined once and characterised exactly: one output per kept position,
  in order, and nothing else (`IsSelection`, in both directions).
- `rust_str.dfy` (module `RustStr`): the Rust string operations the kill batch
  uses. These are `str::trim` (Unicode White_Space, as `char::is_whitespace`
  defines it) and `str::split` on one character. `Join` is added as the
  inverse of `Split`.
- `focus_session.dfy` (module `FocusSession`): one `Tick` per loop iteration.
  A tick carries the clock reading, the frontmost command line and the text
  `pgrep -f` prints for that name. The methods `BlockUnauthorizedLaunch` (the
  kill loop) and `RunSession` (the enforcement loop) have the source's own
  loops, early return and `break`. Each is proved equal to a specification
  function. The lemmas around those functions state what the program promises.

Facts about the code that the model makes explicit:

- The loop samples the frontmost application (`src/main.rs:117`) before it
  reads the clock (line 119). So the tick that ends the session still
  samples, but it does not block.
- Line 37 is only a comment about other Electron apps. The whitelist holds
  raw executable paths (lines 107-110), and the test at line 127 is exact
  equality with one of them.
- The `pids.is_empty()` half of the early-return guard (line 56) can never
  hold, because splitting yields at least one piece (`Pieces`). The
  empty-first-piece half holds exactly when the trimmed output is empty
  (`EmptyFirstPieceMeansNoMatch`, `NoKillIffNoMatch`). The guard is kept as
  written.
- The output of `kill` is only logged (line 70). The model's output is the
  sequence of PIDs that a kill was issued for.
- Nothing guards against an empty sampled name. If the frontmost process
  exits between the `osascript` query and `ps -p` (lines 16-35), `ps` prints
  nothing and line 38 returns "". That name is not whitelisted
  (`EmptyNameIsBlocked`), so line 129 calls `block_unauthorized_launch("")`, which runs `pgrep -f ""` (lines 44-48). What `pgrep` does
  with an empty pattern is not modelled.

## Model

| member | source | states |
|---|---|---|
| FocusSession.RunSession | src/main.rs:113-133 | The loop reports expiry exactly when some tick has elapsed time >= duration. Its samples are the names of every tick it ran, the expiring tick included. Its block requests are the active ticks' non-whitelisted names, in order. Its kills are those ticks' kill batches, concatenated. |
| FocusSession.RunStep | src/main.rs:116-130 | One iteration on an active tick: it samples the tick's name, breaks exactly when the tick is expired (and then the loop has run the active ticks plus this one), and otherwise adds one block request and that tick's kill batch exactly when the name is not whitelisted. |
| FocusSession.TicksRun | src/main.rs:116-126 | The number of iterations the loop runs: the active ticks plus the expiring one, when there is one. |
| FocusSession.Names | src/main.rs:117 | The names sampled on the first n ticks, in tick order. `NamesAt` gives element i. |
| FocusSession.ActiveTicks | src/main.rs:119-126 | The session ends at the first tick whose elapsed time is >= the duration. Every earlier tick is unexpired, and that tick is expired. With no such tick, all ticks are active. |
| FocusSession.FocusDuration | src/main.rs:114 | The session lasts one minute, written in nanoseconds. |
| FocusSession.Whitelist | src/main.rs:107-110 | The two hard-coded whitelist entries: the VS Code Electron binary and the Chrome binary, as raw paths. |
| FocusSession.Elapsed | src/main.rs:119 | The saturating `duration_since` of line 119. `InProgress` and `HasExpired` give its closed forms in terms of the raw clock. |
| FocusSession.InProgress | src/main.rs:120 | The "in progress" branch is taken exactly when the clock reading is at most start + duration. |
| FocusSession.HasExpired | src/main.rs:123 | The ending branch is taken exactly when the clock reading is at least start + duration, or the duration is zero. |
| FocusSession.ProgressLogged | src/main.rs:120-126 | Every active tick takes the "in progress" branch. The tick that ends the session takes it too exactly when its elapsed time equals the duration. |
| FocusSession.Unauthorized | src/main.rs:127 | Line 127's `!contains`, which is exact equality with an entry. `BlockedTicks` proves that a block happens exactly on those names. |
| FocusSession.SessionKills | src/main.rs:127-130 | Every PID the session kills is a kill target of the query for some active tick whose name is not whitelisted. |
| FocusSession.SessionKillsComplete | src/main.rs:127-130 | Conversely, every kill target of every active tick whose name is not whitelisted is killed. |
| FocusSession.SessionKillsInTickOrder | src/main.rs:116-130 | The kills come in tick order. Tick i's whole batch directly follows the kills of all earlier ticks, and later ticks' kills come after it. |
| FocusSession.EmptyNameIsBlocked | src/main.rs:127-129 | The empty name is not whitelisted, so an empty sample is blocked. |
| FocusSession.BoundaryIsExpired | src/main.rs:120-125 | A tick whose elapsed time equals the duration exactly ends the session there or earlier, after taking the "in progress" branch. |
| FocusSession.SamplesPerTick | src/main.rs:116-126 | Each tick that runs samples once. With an expiry, the sample count is the number of active ticks plus one, and the last sample is the expired tick's name. Without one, every tick is sampled. |
| FocusSession.BlockedTicks | src/main.rs:127-130 | On an active tick, a block request is made for the sample exactly when the sample is not equal to any whitelist entry. Requests appear once per such tick, in tick order, and never for the expired tick. |
| FocusSession.StopsAtFirstExpiry | src/main.rs:123-126 | Ticks after the first expired one change neither how many ticks run, nor the samples, nor the block requests, nor the kills. |
| FocusSession.NoBlockNoKill | src/main.rs:127-130 | Kills happen only through block requests. If no sample was blocked, nothing was killed. |
| FocusSession.BlockUnauthorizedLaunch | src/main.rs:41-73 | The kill loop, early return included, kills exactly KillTargets of the query output. That is the non-empty pieces of the trimmed output split on newlines, in order. |
| FocusSession.Pieces | src/main.rs:50-56 | Splitting the trimmed output always yields at least one piece, so `pids.is_empty()` never holds. |
| FocusSession.NonEmpty | src/main.rs:62 | The `!pid.is_empty()` test. |
| FocusSession.KillTargets | src/main.rs:53-62 | The batch never kills more PIDs than there are pieces. |
| FocusSession.KillsFollowPieces | src/main.rs:61-72 | There is exactly one kill per non-empty piece, in the order of the pieces. Empty pieces get none. The kill count therefore equals the number of non-empty pieces. |
| FocusSession.EmptyFirstPieceMeansNoMatch | src/main.rs:50-59 | An empty first piece occurs only when the trimmed output is empty. Nothing would be killed then, so the early return loses nothing. |
| FocusSession.NoKillIffNoMatch | src/main.rs:50-59 | The batch kills nothing exactly when the trimmed query output is empty. |
| FocusSession.DefaultSessionScenario | src/main.rs:107-133 | A case with the program's one-minute duration and whitelist. Chrome is not blocked. Safari is blocked and both of its PIDs are killed. The tick at exactly 60 s samples Safari but ends the session. |
| FocusSession.SafariIsNotWhitelisted | src/main.rs:107-110 | The Safari path is not one of the two hard-coded whitelist entries. |
| FocusSession.TwoPidQuery | src/main.rs:50-72 | The query output "412\n413\n" produces exactly the kills "412" and "413". |
| RustStr.Trim | src/main.rs:50-52 | The trimmed output neither starts nor ends with whitespace (Unicode White_Space). It is empty exactly when the output is all whitespace. |
| RustStr.TrimIsInfix | src/main.rs:50-52 | Trimming removes only whitespace, and only at the two ends. |
| RustStr.TrimIdempotent | src/main.rs:50-52 | Trimming twice is the same as trimming once. |
| RustStr.Split | src/main.rs:53 | Splitting yields at least one piece, and no piece contains the separator. |
| RustStr.JoinSplit | src/main.rs:53 | Joining the pieces with the separator gives back the string that was split. |
| RustStr.SplitJoin | src/main.rs:53 | Splitting the join of separator-free pieces gives back the same pieces, so `split` loses nothing. |
| RustStr.SplitFirstEmpty | src/main.rs:53-56 | The first piece is empty exactly when the string is empty or starts with the separator. |
| Selection.Filter | src/main.rs:61-62 | The filtered output is never longer than its input. |
| Selection.FilterSelects | src/main.rs:61-72 | Filtering picks every kept position exactly once, in increasing order, and no other position. |
| Selection.SelectionIsFilter | src/main.rs:61-72 | Any output that picks exactly the kept positions in order is the filtered output. The characterisation is therefore exact. |

## Left out

- Spawning `osascript`, `ps`, `pgrep` and `kill`, and decoding their output from UTF-8. Their answers are fields of `Tick` (`frontmost`, `matches`), and the kills are an output sequence.
- The `.expect` panics: in the sampler (`src/main.rs:20`, 22, 23, 31, 33, for example when `osascript` prints no PID and `parse()` fails) and in the kill batch (lines 48, 51, 67). These are failure paths of foreign calls. Each panic ends the worker thread, and with it enforcement, while the window stays open. The model's sampler and query always answer.
- The extended-regular-expression matching that `pgrep -f` does on the whole command line. It happens inside an external tool, so the query's output is an input. A name that contains regular-expression metacharacters (`.`, `(`, `+` and so on) may match nothing, or other processes.
- The kill command's own output and exit status. The source logs them and ignores them.
- The GTK window listing the whitelist (`initialize_gui`). This is user interface.
- `thread::spawn`, the one-second `thread::sleep` between ticks, `Instant::now` and the logging. The clock is the `time` field of each tick, in nanoseconds. The loop runs over a finite sequence of ticks and reports whether it stopped on expiry or because the ticks ran out. The real loop stops on expiry, when one of the panics above ends the thread, or when the process exits. Closing the window ends `gtk::main` (lines 96-102) and `main` returns, which takes the detached worker thread (line 113) with it. A failed `gtk::init` (line 77) does the same.
