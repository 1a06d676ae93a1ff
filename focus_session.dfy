/** The focus-session enforcer of `src/main.rs`: a worker loop that samples
    the frontmost application once per tick, ends the session at the first
    tick whose elapsed time has reached the configured duration, and asks for
    every sampled name that is not on the whitelist to be blocked; blocking
    kills, one by one, the PIDs printed by the process-matching query.

    Every answer the operating system gives (the clock, the frontmost
    application's command line, the query's standard output) is an input:
    a tick carries the answers of one loop iteration.
 */
module FocusSession {
  import opened Selection
  import opened RustStr

  /** One iteration's view of the world: `time` is the monotonic clock's
      reading, `frontmost` the command line of the frontmost process, and
      `matches` what `pgrep -f frontmost` would print at that moment (only
      consulted when the name is blocked). Times are in nanoseconds. */
  datatype Tick = Tick(time: nat, frontmost: string, matches: string)

  /** The session length used by the program: one minute. */
  const FocusDuration: nat := 60 * 1_000_000_000

  /** The whitelist hard-coded in the program. */
  const Whitelist: seq<string> := [
    "/Applications/Visual Studio Code.app/Contents/MacOS/Electron",
    "/Applications/Google Chrome.app/Contents/MacOS/Google Chrome"
  ]

  /** `Instant::duration_since`, which saturates at zero. */
  function Elapsed(now: nat, start: nat): (e: nat)
  {
    if now >= start then now - start else 0
  }

  /** The "in progress" branch: it only logs. In terms of the raw clock, it
      is taken up to and including the instant `start + duration`. */
  predicate InProgress(t: Tick, start: nat, duration: nat): (b: bool)
    ensures b <==> t.time <= start + duration
  {
    Elapsed(t.time, start) <= duration
  }

  /** The branch that ends the session. In terms of the raw clock, it is
      taken from the instant `start + duration` on, and always for a session
      of length zero (a clock reading before `start` counts as no time). */
  predicate HasExpired(t: Tick, start: nat, duration: nat): (b: bool)
    ensures b <==> t.time >= start + duration || duration == 0
  {
    Elapsed(t.time, start) >= duration
  }

  /** A tick whose elapsed time equals the duration exactly ends the
      session: the loop breaks there or earlier, and that tick still logs
      "in progress" first. */
  lemma BoundaryIsExpired(ticks: seq<Tick>, k: nat, start: nat, duration: nat)
    requires k < |ticks| && Elapsed(ticks[k].time, start) == duration
    ensures ActiveTicks(ticks, start, duration) <= k
    ensures InProgress(ticks[k], start, duration)
  {
  }

  /** The number of ticks before the first expired one, that is, the ticks
      on which the loop may enforce. */
  function ActiveTicks(ticks: seq<Tick>, start: nat, duration: nat): (n: nat)
    ensures n <= |ticks|
    ensures forall i :: 0 <= i < n ==> !HasExpired(ticks[i], start, duration)
    ensures n < |ticks| ==> HasExpired(ticks[n], start, duration)
  {
    if ticks == [] || HasExpired(ticks[0], start, duration) then 0
    else 1 + ActiveTicks(ticks[1..], start, duration)
  }

  /** The "in progress" message is logged on every active tick, and on the
      tick that ends the session exactly when its elapsed time equals the
      duration. */
  lemma ProgressLogged(ticks: seq<Tick>, start: nat, duration: nat)
    ensures forall i :: 0 <= i < ActiveTicks(ticks, start, duration) ==> InProgress(ticks[i], start, duration)
    ensures var n := ActiveTicks(ticks, start, duration);
            n < |ticks| ==> (InProgress(ticks[n], start, duration) <==> Elapsed(ticks[n].time, start) == duration)
  {
  }

  /** The number of ticks the loop runs: the active ones plus the expired
      tick that ends it, which still samples. */
  function TicksRun(ticks: seq<Tick>, start: nat, duration: nat): (k: nat)
  {
    var n := ActiveTicks(ticks, start, duration);
    if n < |ticks| then n + 1 else n
  }

  /** The names sampled on the first `n` ticks, in order. */
  function Names(ticks: seq<Tick>, n: nat): (r: seq<string>)
    requires n <= |ticks|
    ensures |r| == n
  {
    if n == 0 then [] else Names(ticks, n - 1) + [ticks[n - 1].frontmost]
  }

  /** The name sampled on tick `i` is the frontmost application of tick `i`. */
  lemma {:induction false} NamesAt(ticks: seq<Tick>, n: nat, i: nat)
    requires i < n <= |ticks|
    ensures Names(ticks, n)[i] == ticks[i].frontmost
  {
    if i < n - 1 {
      NamesAt(ticks, n - 1, i);
    }
  }

  /** The negation of `Vec::contains` on the whitelist: exact equality with
      some entry, no substring or case-insensitive match. */
  function Unauthorized(whitelist: seq<string>): string -> bool
  {
    name => name !in whitelist
  }

  /** The PID pieces the kill batch works on: the query output, trimmed and
      split on newlines. */
  function Pieces(matches: string): (r: seq<string>)
    ensures |r| >= 1
  {
    Split(Trim(matches), '\n')
  }

  predicate NonEmpty(p: string)
  {
    p != []
  }

  /** The PIDs the kill batch sends `kill -9` to, in order. */
  function KillTargets(matches: string): (r: seq<string>)
    ensures |r| <= |Pieces(matches)|
  {
    Filter(Pieces(matches), NonEmpty)
  }

  /** The kills the session issues on the first `n` ticks: for each tick
      whose sample is not whitelisted, the kill batch of its query. */
  function SessionKills(ticks: seq<Tick>, n: nat, whitelist: seq<string>): (r: seq<string>)
    requires n <= |ticks|
    ensures forall p :: p in r ==>
              exists i :: 0 <= i < n && ticks[i].frontmost !in whitelist && p in KillTargets(ticks[i].matches)
  {
    if n == 0 then []
    else
      SessionKills(ticks, n - 1, whitelist)
      + (if Unauthorized(whitelist)(ticks[n - 1].frontmost) then KillTargets(ticks[n - 1].matches) else [])
  }

  /** Conversely, every kill target of an active tick whose name is not
      whitelisted is killed. */
  lemma {:induction false} SessionKillsComplete(ticks: seq<Tick>, n: nat, whitelist: seq<string>, i: nat, p: string)
    requires i < n <= |ticks|
    requires ticks[i].frontmost !in whitelist && p in KillTargets(ticks[i].matches)
    ensures p in SessionKills(ticks, n, whitelist)
  {
    if i < n - 1 {
      SessionKillsComplete(ticks, n - 1, whitelist, i, p);
    }
  }

  /** The kills come tick by tick: the batch of tick `i` follows, as one
      block, the kills of all earlier ticks, and what later ticks kill comes
      after it. */
  lemma {:induction false} SessionKillsInTickOrder(ticks: seq<Tick>, n: nat, whitelist: seq<string>, i: nat)
    requires i < n <= |ticks|
    ensures SessionKills(ticks, i, whitelist)
            + (if ticks[i].frontmost !in whitelist then KillTargets(ticks[i].matches) else [])
            <= SessionKills(ticks, n, whitelist)
  {
    if i < n - 1 {
      SessionKillsInTickOrder(ticks, n - 1, whitelist, i);
    }
  }

  /** `block_unauthorized_launch`, from the point where the query has
      answered: trim, split on newlines, return early when the first piece is
      empty, otherwise kill every non-empty piece in turn. The result is the
      sequence of PIDs killed. */
  method BlockUnauthorizedLaunch(matches: string) returns (kills: seq<string>)
    ensures kills == KillTargets(matches)
  {
    var pids := Split(Trim(matches), '\n');
    if |pids| == 0 || pids[0] == [] {
      EmptyFirstPieceMeansNoMatch(matches);
      kills := [];
      return;
    }
    kills := [];
    for j := 0 to |pids|
      invariant kills == Filter(pids[..j], NonEmpty)
    {
      var pid := pids[j];
      FilterPrefix(pids, j, NonEmpty);
      if pid != [] {
        kills := kills + [pid];
      }
    }
    assert pids[..|pids|] == pids;
  }

  /** The enforcement loop of `main` run over the given ticks. It returns
      the names sampled, the names it asked to block, the PIDs killed while
      blocking, and whether it stopped because the session expired (rather
      than because the ticks ran out). */
  method RunSession(ticks: seq<Tick>, start: nat, duration: nat, whitelist: seq<string>)
    returns (samples: seq<string>, blocks: seq<string>, kills: seq<string>, ended: bool)
    ensures ended <==> ActiveTicks(ticks, start, duration) < |ticks|
    ensures samples == Names(ticks, TicksRun(ticks, start, duration))
    ensures blocks == Filter(Names(ticks, ActiveTicks(ticks, start, duration)), Unauthorized(whitelist))
    ensures kills == SessionKills(ticks, ActiveTicks(ticks, start, duration), whitelist)
  {
    samples, blocks, kills, ended := [], [], [], false;
    var i := 0;
    while i < |ticks|
      invariant 0 <= i <= |ticks|
      invariant !ended
      invariant i <= ActiveTicks(ticks, start, duration)
      invariant samples == Names(ticks, i)
      invariant blocks == Filter(Names(ticks, i), Unauthorized(whitelist))
      invariant kills == SessionKills(ticks, i, whitelist)
    {
      var tick := ticks[i];
      RunStep(ticks, start, duration, whitelist, i);
      samples := samples + [tick.frontmost];
      var elapsed := Elapsed(tick.time, start);
      if elapsed >= duration {
        ended := true;
        break;
      }
      if Unauthorized(whitelist)(tick.frontmost) {
        blocks := blocks + [tick.frontmost];
        var batch := BlockUnauthorizedLaunch(tick.matches);
        kills := kills + batch;
      }
      i := i + 1;
    }
  }

  /** What one more iteration of the enforcement loop adds on tick `i`. */
  lemma RunStep(ticks: seq<Tick>, start: nat, duration: nat, whitelist: seq<string>, i: nat)
    requires i < |ticks| && i <= ActiveTicks(ticks, start, duration)
    ensures HasExpired(ticks[i], start, duration) ==>
              ActiveTicks(ticks, start, duration) == i && TicksRun(ticks, start, duration) == i + 1
    ensures !HasExpired(ticks[i], start, duration) ==> i + 1 <= ActiveTicks(ticks, start, duration)
    ensures Names(ticks, i + 1) == Names(ticks, i) + [ticks[i].frontmost]
    ensures Filter(Names(ticks, i + 1), Unauthorized(whitelist))
            == if Unauthorized(whitelist)(ticks[i].frontmost)
               then Filter(Names(ticks, i), Unauthorized(whitelist)) + [ticks[i].frontmost]
               else Filter(Names(ticks, i), Unauthorized(whitelist))
    ensures SessionKills(ticks, i + 1, whitelist)
            == SessionKills(ticks, i, whitelist)
               + if Unauthorized(whitelist)(ticks[i].frontmost) then KillTargets(ticks[i].matches) else []
  {
    FilterSnoc(Names(ticks, i), ticks[i].frontmost, Unauthorized(whitelist));
  }

  /** Every tick that runs samples once, the expired tick that ends the
      session included: with an expiry the loop samples one name more than
      it has active ticks, the last being the expired tick's; without one
      it samples every tick. */
  lemma SamplesPerTick(ticks: seq<Tick>, start: nat, duration: nat)
    ensures var n := ActiveTicks(ticks, start, duration);
            var samples := Names(ticks, TicksRun(ticks, start, duration));
            && (n < |ticks| ==> |samples| == n + 1 && samples[n] == ticks[n].frontmost)
            && (n == |ticks| ==> |samples| == |ticks|)
  {
  }

  /** An empty first piece happens only when the trimmed output is empty,
      and then there is nothing to kill: the early return changes nothing. */
  lemma EmptyFirstPieceMeansNoMatch(matches: string)
    requires Pieces(matches)[0] == []
    ensures Trim(matches) == [] && KillTargets(matches) == []
  {
    var t := Trim(matches);
    SplitFirstEmpty(t, '\n');
    assert Pieces(matches) == [[]];
  }

  /** Exactly one kill per non-empty piece, in the order of the pieces;
      empty pieces are skipped. */
  lemma KillsFollowPieces(matches: string) returns (idx: seq<nat>)
    ensures |idx| == |KillTargets(matches)|
    ensures forall j :: 0 <= j < |idx| ==>
              idx[j] < |Pieces(matches)| && KillTargets(matches)[j] == Pieces(matches)[idx[j]]
    ensures forall j, k :: 0 <= j < k < |idx| ==> idx[j] < idx[k]
    ensures forall i :: 0 <= i < |Pieces(matches)| ==> (Pieces(matches)[i] != [] <==> i in idx)
  {
    var ps := Pieces(matches);
    idx := FilterSelects(ps, NonEmpty);
    assert IsSelection(KillTargets(matches), ps, NonEmpty, idx);
    forall i | 0 <= i < |ps|
      ensures ps[i] != [] <==> i in idx
    {
      assert NonEmpty(ps[i]) <==> i in idx;
    }
  }

  /** The batch kills nothing exactly when the trimmed query output is
      empty: a non-empty trimmed output cannot start with a newline, so its
      first piece is non-empty and is killed. */
  lemma NoKillIffNoMatch(matches: string)
    ensures KillTargets(matches) == [] <==> Trim(matches) == []
  {
    var t := Trim(matches);
    if t == [] {
      assert Pieces(matches) == [[]];
    } else {
      assert t[0] != '\n';
      SplitFirstEmpty(t, '\n');
      var idx := FilterSelects(Pieces(matches), NonEmpty);
      assert 0 in idx;
    }
  }

  /** Block requests are exactly the active samples that are not on the
      whitelist: one per such tick, in tick order, none for a whitelisted
      sample and none for the tick that ends the session. */
  lemma BlockedTicks(ticks: seq<Tick>, start: nat, duration: nat, whitelist: seq<string>)
    returns (idx: seq<nat>)
    ensures var n := ActiveTicks(ticks, start, duration);
            var blocks := Filter(Names(ticks, n), Unauthorized(whitelist));
            && |idx| == |blocks|
            && (forall j :: 0 <= j < |idx| ==> idx[j] < n && blocks[j] == ticks[idx[j]].frontmost)
            && (forall j, k :: 0 <= j < k < |idx| ==> idx[j] < idx[k])
            && (forall i :: 0 <= i < n ==> (ticks[i].frontmost !in whitelist <==> i in idx))
  {
    var n := ActiveTicks(ticks, start, duration);
    var names := Names(ticks, n);
    var blocks := Filter(names, Unauthorized(whitelist));
    idx := FilterSelects(names, Unauthorized(whitelist));
    forall j | 0 <= j < |idx|
      ensures idx[j] < n && blocks[j] == ticks[idx[j]].frontmost
    {
      NamesAt(ticks, n, idx[j]);
    }
    forall i | 0 <= i < n
      ensures ticks[i].frontmost !in whitelist <==> i in idx
    {
      NamesAt(ticks, n, i);
      assert Unauthorized(whitelist)(names[i]) <==> i in idx;
    }
  }

  /** Once a tick has expired the loop has broken: appending further ticks
      changes none of the session's outputs. */
  lemma {:induction false} StopsAtFirstExpiry(ticks: seq<Tick>, more: seq<Tick>, start: nat, duration: nat,
                                              whitelist: seq<string>)
    requires ActiveTicks(ticks, start, duration) < |ticks|
    ensures ActiveTicks(ticks + more, start, duration) == ActiveTicks(ticks, start, duration)
    ensures TicksRun(ticks + more, start, duration) == TicksRun(ticks, start, duration)
    ensures var k := TicksRun(ticks, start, duration);
            Names(ticks + more, k) == Names(ticks, k)
    ensures var n := ActiveTicks(ticks, start, duration);
            Filter(Names(ticks + more, n), Unauthorized(whitelist)) == Filter(Names(ticks, n), Unauthorized(whitelist))
    ensures var n := ActiveTicks(ticks, start, duration);
            SessionKills(ticks + more, n, whitelist) == SessionKills(ticks, n, whitelist)
  {
    ActiveOfLonger(ticks, more, start, duration);
    var k := TicksRun(ticks, start, duration);
    SamePrefix(ticks + more, ticks, k, whitelist);
    SamePrefix(ticks + more, ticks, k - 1, whitelist);
  }

  /** The first expired tick of `ticks` is the first expired tick of any
      extension of `ticks`. */
  lemma {:induction false} ActiveOfLonger(ticks: seq<Tick>, more: seq<Tick>, start: nat, duration: nat)
    requires ActiveTicks(ticks, start, duration) < |ticks|
    ensures ActiveTicks(ticks + more, start, duration) == ActiveTicks(ticks, start, duration)
  {
    if !HasExpired(ticks[0], start, duration) {
      assert (ticks + more)[1..] == ticks[1..] + more;
      ActiveOfLonger(ticks[1..], more, start, duration);
    }
  }

  /** The outputs on the first `k` ticks depend on those ticks only. */
  lemma {:induction false} SamePrefix(a: seq<Tick>, b: seq<Tick>, k: nat, whitelist: seq<string>)
    requires k <= |a| && k <= |b|
    requires forall i :: 0 <= i < k ==> a[i] == b[i]
    ensures Names(a, k) == Names(b, k)
    ensures SessionKills(a, k, whitelist) == SessionKills(b, k, whitelist)
  {
    if k > 0 {
      SamePrefix(a, b, k - 1, whitelist);
      assert a[k - 1] == b[k - 1];
    }
  }

  /** Nothing is killed in a session that asked for no block. */
  lemma {:induction false} NoBlockNoKill(ticks: seq<Tick>, n: nat, whitelist: seq<string>)
    requires n <= |ticks|
    requires Filter(Names(ticks, n), Unauthorized(whitelist)) == []
    ensures SessionKills(ticks, n, whitelist) == []
  {
    if n > 0 {
      FilterSnoc(Names(ticks, n - 1), ticks[n - 1].frontmost, Unauthorized(whitelist));
      NoBlockNoKill(ticks, n - 1, whitelist);
    }
  }

  /** A one-minute session with the program's whitelist: Chrome in the
      foreground is left alone, Safari is blocked and its two PIDs killed,
      and the tick at exactly one minute samples Safari again but ends the
      session instead of blocking it. */
  lemma DefaultSessionScenario(start: nat)
    ensures var ticks := [Tick(start, Whitelist[1], "311\n"),
                          Tick(start + 1_000_000_000, Safari, "412\n413\n"),
                          Tick(start + FocusDuration, Safari, "412\n413\n")];
            && ActiveTicks(ticks, start, FocusDuration) == 2
            && TicksRun(ticks, start, FocusDuration) == 3
            && Filter(Names(ticks, 2), Unauthorized(Whitelist)) == [Safari]
            && SessionKills(ticks, 2, Whitelist) == ["412", "413"]
  {
    var chrome := Whitelist[1];
    var out := "412\n413\n";
    var ticks := [Tick(start, chrome, "311\n"),
                  Tick(start + 1_000_000_000, Safari, out),
                  Tick(start + FocusDuration, Safari, out)];
    // The tick at exactly one minute is the first expired one.
    assert ActiveTicks(ticks[2..], start, FocusDuration) == 0;
    assert ticks[1..][1..] == ticks[2..];
    assert ActiveTicks(ticks[1..], start, FocusDuration) == 1;
    assert ActiveTicks(ticks, start, FocusDuration) == 2;
    // Only Safari is blocked.
    SafariIsNotWhitelisted();
    assert Names(ticks, 2) == [chrome] + [Safari];
    FilterSnoc([], chrome, Unauthorized(Whitelist));
    FilterSnoc([chrome], Safari, Unauthorized(Whitelist));
    // Chrome's tick kills nothing; Safari's kills both PIDs.
    TwoPidQuery();
    assert SessionKills(ticks, 1, Whitelist) == [];
  }

  const Safari: string := "/Applications/Safari.app/Contents/MacOS/Safari"

  /** Safari's path is shorter than both whitelist entries. */
  lemma SafariIsNotWhitelisted()
    ensures Unauthorized(Whitelist)(Safari)
  {
    var vscode := "/Applications/Visual Studio Code.app/Contents/MacOS/Electron";
    var chrome := "/Applications/Google Chrome.app/Contents/MacOS/Google Chrome";
    assert Whitelist == [vscode, chrome];
    assert |Safari| == 46 && |vscode| == 60 && |chrome| == 60;
  }

  /** A name that came back empty (the frontmost process exited between
      the two queries) is not whitelisted, so it is blocked. */
  lemma EmptyNameIsBlocked()
    ensures Unauthorized(Whitelist)("")
  {
  }

  /** The query output "412\n413\n" yields the two kills "412" and "413". */
  lemma TwoPidQuery()
    ensures KillTargets("412\n413\n") == ["412", "413"]
  {
    TwoPidPieces();
    FilterSnoc([], "412", NonEmpty);
    FilterSnoc(["412"], "413", NonEmpty);
    assert ["412"] + ["413"] == ["412", "413"];
  }

  /** "412\n413\n" trims to "412\n413", which splits into "412" and "413". */
  lemma TwoPidPieces()
    ensures Pieces("412\n413\n") == ["412", "413"]
  {
    TwoPidTrim();
    TwoPidSplit();
  }

  /** Only the trailing newline is trimmed. */
  lemma TwoPidTrim()
    ensures Trim("412\n413\n") == "412\n413"
  {
    var out := "412\n413\n";
    var body := "412\n413";
    assert out == body + ['\n'];
    assert StartIndex(out) == 0 by {
      assert !IsWhitespace(out[0]);
    }
    assert out[..|out| - 1] == body;
    assert EndIndex(body, 0) == |body| by {
      assert !IsWhitespace(body[|body| - 1]);
    }
    assert EndIndex(out, 0) == |body|;
    assert out[0..|body|] == body;
  }

  /** One newline, two pieces. */
  lemma TwoPidSplit()
    ensures Split("412\n413", '\n') == ["412", "413"]
  {
    assert Join(["412", "413"], '\n') == "412\n413" by {
      assert ["412", "413"][1..] == ["413"];
    }
    SplitJoin(["412", "413"], '\n');
  }
}
