/** The one-time start of the logger (src/log.c): any number of threads enter `log_init`, one of them
    claims the initialization with a compare-and-swap, and the others spin until it is done.
 */
module LogInit {
  import opened Wrappers

  const UNINITIALIZED: int := 0
  const INITIALIZING: int := 1
  const READY: int := 2
  const LEVEL_NONE: int := -1
  const LEVEL_FATAL: int := 0
  const LEVEL_TRACE: int := 1

  datatype Stream = Null | StandardError | File

  /** What the environment says: the two variables, and whether the log file can be opened. */
  datatype Environment = Environment(level: Option<string>, file: Option<string>, opens: bool)

  /** The static variables. */
  datatype Shared = Shared(state: int, level: int, stream: Stream)

  /** Where a thread is.  `Set` is the second half of a claim that is not atomic. */
  datatype Pc = Outside | Load | Claim | Set | Spin | ReadLevel | SetStream | OpenFile | Publish

  datatype World = World(shared: Shared, pcs: seq<Pc>)

  function Lower(c: char): char {
    if 'A' <= c <= 'Z' then c - 'A' + 'a' else c
  }

  predicate SameIgnoringCase(a: string, b: string) {
    |a| == |b| && forall i :: 0 <= i < |a| ==> Lower(a[i]) == Lower(b[i])
  }

  /** `log_strcasecmp`: zero exactly for strings that differ in case only.  A C string holds no zero. */
  method Compare(a: string, b: string) returns (d: int)
    requires '\0' !in a && '\0' !in b
    ensures d == 0 <==> SameIgnoringCase(a, b)
  {
    var i := 0;
    while i < |a| && i < |b|
      invariant i <= |a| && i <= |b| && forall j :: 0 <= j < i ==> Lower(a[j]) == Lower(b[j])
    {
      var ca, cb := Lower(a[i]), Lower(b[i]);
      if ca != cb {
        return ca as int - cb as int;
      }
      i := i + 1;
    }
    var ra := if i < |a| then a[i] as int else 0;
    var rb := if i < |b| then b[i] as int else 0;
    d := ra - rb;
    assert i < |a| ==> a[i] in a;
    assert i < |b| ==> b[i] in b;
  }

  function LevelFor(env: Environment, initial: int): int {
    if env.level.None? then initial
    else if SameIgnoringCase(env.level.value, "none") || SameIgnoringCase(env.level.value, "off") then LEVEL_NONE
    else if SameIgnoringCase(env.level.value, "fatal") then LEVEL_FATAL
    else LEVEL_TRACE
  }

  /** A log file is wanted when it is named and logging is on. */
  predicate WantsFile(env: Environment, level: int) {
    env.file.Some? && env.file.value != "" && level != LEVEL_NONE
  }

  /** The values every message must be logged with. */
  function Configured(env: Environment): Shared {
    var level := LevelFor(env, LEVEL_TRACE);
    Shared(READY, level, if WantsFile(env, level) && env.opens then File else StandardError)
  }

  /** The word, each of its lower-case letters in either case. */
  predicate Spells(s: string, word: string) {
    |s| == |word| && forall i :: 0 <= i < |s| ==> s[i] == word[i] || s[i] as int + 32 == word[i] as int
  }

  /** What the environment asks for: -1 for "none" and "off", 0 for "fatal", 1 for anything else and for
      nothing, and the file when it is named, can be opened and logging is on. */
  ghost predicate Resolved(env: Environment, s: Shared) {
    var none := env.level.Some? && (Spells(env.level.value, "none") || Spells(env.level.value, "off"));
    var fatal := env.level.Some? && Spells(env.level.value, "fatal");
    && s.level == (if none then -1 else if fatal then 0 else 1)
    && (s.stream == File <==> !none && env.file.Some? && |env.file.value| > 0 && env.opens)
    && (s.stream != File ==> s.stream == StandardError)
  }

  lemma SpellsIff(s: string, word: string)
    requires forall i :: 0 <= i < |word| ==> 'a' <= word[i] <= 'z'
    ensures SameIgnoringCase(s, word) <==> Spells(s, word)
  {
    forall i | 0 <= i < |s| && |s| == |word|
      ensures Lower(s[i]) == Lower(word[i]) <==> s[i] == word[i] || s[i] as int + 32 == word[i] as int
    {
      assert 'a' as int == 97 && 'z' as int == 122 && 'A' as int == 65 && 'Z' as int == 90;
    }
  }

  lemma ConfiguredIsResolved(env: Environment)
    ensures Resolved(env, Configured(env))
  {
    hide SameIgnoringCase, Spells;
    if env.level.Some? {
      SpellsIff(env.level.value, "none");
      SpellsIff(env.level.value, "off");
      SpellsIff(env.level.value, "fatal");
    }
  }

  ghost predicate Initial(w: World) {
    w.shared == Shared(UNINITIALIZED, LEVEL_TRACE, Null) && forall t :: 0 <= t < |w.pcs| ==> w.pcs[t] == Outside
  }

  /** One atomic step of one thread: its next position and the variables it leaves. */
  function Act(env: Environment, atomic: bool, s: Shared, pc: Pc): (Pc, Shared) {
    match pc
    case Outside => (Load, s)
    case Load => (if s.state == READY then Outside else Claim, s)
    case Claim =>
      if s.state != UNINITIALIZED then (Spin, s)
      else if atomic then (ReadLevel, s.(state := INITIALIZING))
      else (Set, s)
    case Set => (ReadLevel, s.(state := INITIALIZING))
    case Spin => (if s.state == READY then Outside else Spin, s)
    case ReadLevel => (SetStream, s.(level := LevelFor(env, s.level)))
    case SetStream => (OpenFile, s.(stream := StandardError))
    case OpenFile => (Publish, if WantsFile(env, s.level) && env.opens then s.(stream := File) else s)
    case Publish => (Outside, s.(state := READY))
  }

  function Step(env: Environment, atomic: bool, w: World, t: nat): World
    requires t < |w.pcs|
  {
    var (pc, s) := Act(env, atomic, w.shared, w.pcs[t]);
    World(s, w.pcs[t := pc])
  }

  /** A run: an initial world and a thread for each step. */
  function Run(env: Environment, atomic: bool, w: World, schedule: seq<nat>): World
    requires forall i :: 0 <= i < |schedule| ==> schedule[i] < |w.pcs|
    ensures |Run(env, atomic, w, schedule).pcs| == |w.pcs|
  {
    if |schedule| == 0 then w else
      var n := |schedule| - 1;
      Step(env, atomic, Run(env, atomic, w, schedule[..n]), schedule[n])
  }

  /** The section that only the claiming thread runs. */
  predicate Initializing(pc: Pc) {
    pc == ReadLevel || pc == SetStream || pc == OpenFile || pc == Publish
  }

  /** How far the variables have come when the initializing thread stands at `pc`. */
  ghost predicate Partial(env: Environment, s: Shared, pc: Pc) {
    var final := Configured(env);
    match pc
    case ReadLevel => s == Shared(INITIALIZING, LEVEL_TRACE, Null)
    case SetStream => s == Shared(INITIALIZING, final.level, Null)
    case OpenFile => s == Shared(INITIALIZING, final.level, StandardError)
    case Publish => s == Shared(INITIALIZING, final.level, final.stream)
    case _ => true
  }

  /** What holds in every reachable world. */
  ghost predicate Invariant(env: Environment, w: World) {
    && (forall t, u :: 0 <= t < u < |w.pcs| && Initializing(w.pcs[t]) ==> !Initializing(w.pcs[u]))
    && (forall t :: 0 <= t < |w.pcs| ==> w.pcs[t] != Set && Partial(env, w.shared, w.pcs[t]))
    && (w.shared == Shared(UNINITIALIZED, LEVEL_TRACE, Null)
        || (w.shared.state == INITIALIZING && exists t :: 0 <= t < |w.pcs| && Initializing(w.pcs[t]))
        || w.shared == Configured(env))
    && (w.shared.state != INITIALIZING ==> forall t :: 0 <= t < |w.pcs| ==> !Initializing(w.pcs[t]))
  }

  /** A step keeps the invariant: every case of the acting thread against every other thread. */
  lemma StepKeepsInvariant(env: Environment, w: World, t: nat)
    requires t < |w.pcs| && Invariant(env, w)
    ensures Invariant(env, Step(env, true, w, t))
  {
    var w' := Step(env, true, w, t);
    forall u | 0 <= u < |w'.pcs|
      ensures w'.pcs[u] != Set && Partial(env, w'.shared, w'.pcs[u])
      ensures u != t ==> w'.pcs[u] == w.pcs[u]
    {
    }
    if w'.shared.state == INITIALIZING {
      if Initializing(w'.pcs[t]) {
      } else {
        var u :| 0 <= u < |w.pcs| && Initializing(w.pcs[u]);
        assert Initializing(w'.pcs[u]);
      }
    }
  }

  lemma {:induction false} RunKeepsInvariant(env: Environment, w: World, schedule: seq<nat>)
    requires Initial(w) && forall i :: 0 <= i < |schedule| ==> schedule[i] < |w.pcs|
    ensures Invariant(env, Run(env, true, w, schedule))
  {
    hide Invariant, Step;
    if |schedule| == 0 {
      StartsInvariant(env, w);
    } else {
      var n := |schedule| - 1;
      RunKeepsInvariant(env, w, schedule[..n]);
      StepKeepsInvariant(env, Run(env, true, w, schedule[..n]), schedule[n]);
    }
  }

  lemma StartsInvariant(env: Environment, w: World)
    requires Initial(w)
    ensures Invariant(env, w)
  {
  }

  /** In every run of any number of threads, whoever leaves `log_init` leaves with the final stream and
      level in place. */
  lemma NobodyLeavesEarly(env: Environment, w: World, schedule: seq<nat>)
    requires Initial(w) && |schedule| > 0 && forall i :: 0 <= i < |schedule| ==> schedule[i] < |w.pcs|
    ensures var n := |schedule| - 1; var t := schedule[n];
            var before, after := Run(env, true, w, schedule[..n]), Run(env, true, w, schedule);
            before.pcs[t] != Outside && after.pcs[t] == Outside ==>
              after.shared == Configured(env) && Resolved(env, after.shared)
  {
    ConfiguredIsResolved(env);
    hide Resolved;
    var n := |schedule| - 1;
    RunKeepsInvariant(env, w, schedule[..n]);
    RunKeepsInvariant(env, w, schedule);
    var before := Run(env, true, w, schedule[..n]);
    assert Partial(env, before.shared, before.pcs[schedule[n]]);
  }

  lemma {:induction false} RunSplits(env: Environment, atomic: bool, w: World, schedule: seq<nat>, n: nat)
    requires n <= |schedule| && forall i :: 0 <= i < |schedule| ==> schedule[i] < |w.pcs|
    ensures Run(env, atomic, w, schedule) == Run(env, atomic, Run(env, atomic, w, schedule[..n]), schedule[n..])
    decreases |schedule|
  {
    hide Step;
    if n == |schedule| {
      assert schedule[..n] == schedule && schedule[n..] == [];
    } else {
      var last := |schedule| - 1;
      RunSplits(env, atomic, w, schedule[..last], n);
      assert schedule[..last][..n] == schedule[..n] && schedule[..last][n..] == schedule[n..][..last - n];
    }
  }

  /** Once the logger is ready, nothing any thread does changes the variables. */
  lemma {:induction false} ReadyIsFinal(env: Environment, w: World, schedule: seq<nat>)
    requires Invariant(env, w) && w.shared.state == READY && forall i :: 0 <= i < |schedule| ==> schedule[i] < |w.pcs|
    ensures Run(env, true, w, schedule).shared == w.shared && Invariant(env, Run(env, true, w, schedule))
  {
    if |schedule| > 0 {
      var n := |schedule| - 1;
      ReadyIsFinal(env, w, schedule[..n]);
      StepKeepsInvariant(env, Run(env, true, w, schedule[..n]), schedule[n]);
    }
  }

  /** The step that wins the claim. */
  predicate Claims(w: World, t: nat)
    requires t < |w.pcs|
  {
    w.pcs[t] == Claim && w.shared.state == UNINITIALIZED
  }

  lemma {:induction false} StateNeverReturns(env: Environment, w: World, schedule: seq<nat>)
    requires Invariant(env, w) && w.shared.state != UNINITIALIZED && forall i :: 0 <= i < |schedule| ==>
              schedule[i] < |w.pcs|
    ensures Run(env, true, w, schedule).shared.state != UNINITIALIZED && Invariant(env, Run(env, true, w, schedule))
  {
    if |schedule| > 0 {
      var n := |schedule| - 1;
      StateNeverReturns(env, w, schedule[..n]);
      StepKeepsInvariant(env, Run(env, true, w, schedule[..n]), schedule[n]);
    }
  }

  /** At most one thread ever enters the initializing section: no run has two winning claims. */
  lemma ClaimedOnce(env: Environment, w: World, schedule: seq<nat>, i: nat, j: nat)
    requires Initial(w) && i < j < |schedule| && forall n :: 0 <= n < |schedule| ==> schedule[n] < |w.pcs|
    ensures !(&& Claims(Run(env, true, w, schedule[..i]), schedule[i])
              && Claims(Run(env, true, w, schedule[..j]), schedule[j]))
  {
    var at := Run(env, true, w, schedule[..i]);
    if Claims(at, schedule[i]) {
      RunKeepsInvariant(env, w, schedule[..i]);
      StepKeepsInvariant(env, at, schedule[i]);
      assert schedule[..i + 1][..i] == schedule[..i];
      var next := Run(env, true, w, schedule[..i + 1]);
      assert schedule[..j][..i + 1] == schedule[..i + 1];
      RunSplits(env, true, w, schedule[..j], i + 1);
      StateNeverReturns(env, next, schedule[..j][i + 1..]);
    }
  }

  /** A spinning thread is never left behind: while it spins, either the logger is ready or some thread
      is initializing, and letting that thread run at most four steps makes it ready. */
  lemma SpinnersAreReleased(env: Environment, w: World, t: nat) returns (u: nat, steps: nat)
    requires Invariant(env, w) && t < |w.pcs| && w.pcs[t] == Spin && w.shared.state == INITIALIZING
    ensures u < |w.pcs| && steps <= 4
    ensures Run(env, true, w, seq(steps, _ => u)).shared.state == READY
  {
    u :| 0 <= u < |w.pcs| && Initializing(w.pcs[u]);
    steps := StepsLeft(w.pcs[u]);
    Publishes(env, w, u, steps);
  }

  /** The steps left until the initializing thread publishes. */
  function StepsLeft(pc: Pc): nat {
    if pc == ReadLevel then 4 else if pc == SetStream then 3 else if pc == OpenFile then 2 else 1
  }

  lemma {:induction false} Publishes(env: Environment, w: World, u: nat, steps: nat)
    requires u < |w.pcs| && Initializing(w.pcs[u])
    requires steps == StepsLeft(w.pcs[u])
    ensures Run(env, true, w, seq(steps, _ => u)).shared.state == READY
    decreases steps
  {
    var all := seq(steps, _ => u);
    RunSplits(env, true, w, all, 1);
    assert all[..1] == [u] && all[1..] == seq(steps - 1, _ => u);
    assert Run(env, true, w, [u]) == Step(env, true, w, u) by { assert [u][..0] == []; }
    if steps > 1 {
      Publishes(env, Step(env, true, w, u), u, steps - 1);
    } else {
      assert all[1..] == [];
    }
  }

  // ---- A claim that is a plain test and a plain store ----

  /** Steps `i` and `j` of a run both win the claim. */
  ghost predicate ClaimedTwice(env: Environment, atomic: bool, w: World, schedule: seq<nat>, i: nat, j: nat) {
    && i < j < |schedule| && (forall n :: 0 <= n < |schedule| ==> schedule[n] < |w.pcs|)
    && Claims(Run(env, atomic, w, schedule[..i]), schedule[i])
    && Claims(Run(env, atomic, w, schedule[..j]), schedule[j])
  }

  /** The fallback for compilers without atomics starts the logger once exactly when there is at most one
      thread. */
  lemma PlainClaimOnceIff(env: Environment, w: World)
    requires Initial(w)
    ensures (exists schedule, i, j :: ClaimedTwice(env, false, w, schedule, i, j)) <==> |w.pcs| > 1
  {
    if |w.pcs| > 1 {
      var schedule := TwoClaims(env, w);
      assert ClaimedTwice(env, false, w, schedule, 4, 5);
    } else {
      forall schedule, i, j | ClaimedTwice(env, false, w, schedule, i, j)
        ensures false
      {
        LonelyClaim(env, w, schedule, i, j);
      }
    }
  }

  /** With the compare-and-swap nobody claims after a claim, however many threads there are. */
  lemma AtomicClaimOnce(env: Environment, w: World, schedule: seq<nat>, i: nat, j: nat)
    requires Initial(w)
    ensures !ClaimedTwice(env, true, w, schedule, i, j)
  {
    if ClaimedTwice(env, true, w, schedule, i, j) {
      ClaimedOnce(env, w, schedule, i, j);
    }
  }

  /** What holds of a single thread after its claim. */
  ghost predicate Claimed(w: World) {
    |w.pcs| == 1 && (w.shared.state != UNINITIALIZED || w.pcs[0] == Set)
  }

  lemma {:induction false} StaysClaimed(env: Environment, w: World, schedule: seq<nat>)
    requires Claimed(w) && forall n :: 0 <= n < |schedule| ==> schedule[n] < |w.pcs|
    ensures Claimed(Run(env, false, w, schedule))
  {
    if |schedule| > 0 {
      var n := |schedule| - 1;
      StaysClaimed(env, w, schedule[..n]);
    }
  }

  lemma LonelyClaim(env: Environment, w: World, schedule: seq<nat>, i: nat, j: nat)
    requires |w.pcs| <= 1
    ensures !ClaimedTwice(env, false, w, schedule, i, j)
  {
    if ClaimedTwice(env, false, w, schedule, i, j) {
      var at := Run(env, false, w, schedule[..i]);
      assert schedule[..i + 1][..i] == schedule[..i];
      var next := Run(env, false, w, schedule[..i + 1]);
      assert Claimed(next);
      assert schedule[..j][..i + 1] == schedule[..i + 1];
      RunSplits(env, false, w, schedule[..j], i + 1);
      StaysClaimed(env, next, schedule[..j][i + 1..]);
    }
  }

  /** The first two threads at given places, before anything is stored. */
  function Pair(w: World, a: Pc, b: Pc): World
    requires |w.pcs| > 1
  {
    World(w.shared, w.pcs[0 := a][1 := b])
  }

  /** One more step of one of the first two threads, which stores nothing. */
  lemma PairStep(env: Environment, w: World, schedule: seq<nat>, t: nat, a: Pc, b: Pc, a': Pc, b': Pc)
    requires |w.pcs| > 1 && t < 2 && forall n :: 0 <= n < |schedule| ==> schedule[n] < |w.pcs|
    requires Run(env, false, w, schedule) == Pair(w, a, b)
    requires Act(env, false, w.shared, if t == 0 then a else b) == (if t == 0 then a' else b', w.shared)
    requires if t == 0 then b' == b else a' == a
    ensures Run(env, false, w, schedule + [t]) == Pair(w, a', b')
  {
    hide Run, Act;
    RunPush(env, w, schedule, t);
    assert Pair(w, a, b).pcs[t := if t == 0 then a' else b'] == Pair(w, a', b').pcs;
  }

  /** Two threads that load, test and store in turn both claim. */
  lemma TwoClaims(env: Environment, w: World) returns (schedule: seq<nat>)
    requires Initial(w) && |w.pcs| > 1
    ensures ClaimedTwice(env, false, w, schedule, 4, 5)
  {
    hide Run;
    RunNothing(env, w);
    assert w.pcs == w.pcs[0 := Outside][1 := Outside];
    PairStep(env, w, [], 0, Outside, Outside, Load, Outside);
    PairStep(env, w, [] + [0], 1, Load, Outside, Load, Load);
    PairStep(env, w, [] + [0] + [1], 0, Load, Load, Claim, Load);
    PairStep(env, w, [] + [0] + [1] + [0], 1, Claim, Load, Claim, Claim);
    var four: seq<nat> := [] + [0] + [1] + [0] + [1];
    PairStep(env, w, four, 0, Claim, Claim, Set, Claim);
    schedule := four + [0] + [1];
    assert schedule[..4] == four && schedule[..5] == four + [0];
  }

  lemma RunNothing(env: Environment, w: World)
    ensures Run(env, false, w, []) == w
  {
  }

  lemma RunPush(env: Environment, w: World, schedule: seq<nat>, t: nat)
    requires t < |w.pcs| && forall i :: 0 <= i < |schedule| ==> schedule[i] < |w.pcs|
    ensures Run(env, false, w, schedule + [t]) == Step(env, false, Run(env, false, w, schedule), t)
  {
    assert (schedule + [t])[..|schedule|] == schedule;
  }
}
