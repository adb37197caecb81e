/**
 Several processes on one table file. A checkpoint renumbers rows, so a process that loaded
 before it must not append frames under its old numbers. The guard is a 32-bit generation
 counter beside the file, compared under the file's exclusive lock. A checkpoint compacts
 memory, replaces the base file, removes the log and only then counts: it may fail, or its
 process may die, between any two of these.
 */
module Generations {
  import opened Values

  /** How far a checkpoint got. */
  datatype Reached = Compacted | Dumped | Removed | Counted

  /** The counter a process remembers, its row numbering, and (history) the counted checkpoints it has seen. */
  datatype Local = Local(gen: nat, numbering: nat, seen: nat)

  /**
   The counter on disk, the numbering of the base file, (history) the counted checkpoints so far,
   the numbering each frame was written under, the processes, and the next unused numbering.
   */
  datatype System = System(gen: nat, numbering: nat, counted: nat, frames: seq<nat>, procs: map<nat, Local>, next: nat)

  /** The locked sections. A commit appends one frame per changed row; a checkpoint without a gap renumbers nothing. */
  datatype Action = Load(p: nat) | Exit(p: nat) | Commit(p: nat, rows: nat) | Checkpoint(p: nat, renumbers: bool, reached: Reached)

  function Bump(gen: nat): nat {
    (gen + 1) % TWO_32
  }

  predicate Stale(s: System, p: nat)
    requires p in s.procs
  {
    s.procs[p].gen != s.gen
  }

  /** The numbering of the process after it compacted its table. */
  function AfterCompaction(s: System, p: nat, renumbers: bool): nat
    requires p in s.procs
  {
    if renumbers then s.next else s.procs[p].numbering
  }

  function Checkpointed(s: System, p: nat, renumbers: bool, reached: Reached): System
    requires p in s.procs
  {
    var n := AfterCompaction(s, p, renumbers);
    var local := s.procs[p].(numbering := n);
    var compacted := s.(procs := s.procs[p := local], next := s.next + 1);
    match reached
    case Compacted => compacted
    case Dumped => compacted.(numbering := n)
    case Removed => compacted.(numbering := n, frames := [])
    case Counted =>
      var gen := Bump(s.gen);
      compacted.(numbering := n, frames := [], gen := gen, counted := s.counted + 1,
                 procs := s.procs[p := Local(gen, n, s.counted + 1)])
  }

  predicate Step(s: System, a: Action, s': System) {
    match a
    case Load(p) =>
      s' == s.(procs := s.procs[p := Local(s.gen, s.numbering, s.counted)])
    case Exit(p) =>
      s' == s.(procs := s.procs - {p})
    case Commit(p, rows) =>
      && p in s.procs
      // a commit that finds the counter changed is refused; any other may still fail to write
      && (s' == s || (!Stale(s, p) && s' == s.(frames := s.frames + seq(rows, _ => s.procs[p].numbering))))
    case Checkpoint(p, renumbers, reached) =>
      p in s.procs && s' == Checkpointed(s, p, renumbers, reached)
  }

  datatype Event = Event(action: Action, after: System)

  function StateAfter(start: System, run: seq<Event>): System {
    if run == [] then start else run[|run| - 1].after
  }

  predicate IsRun(start: System, run: seq<Event>) {
    run == [] || (
      var rest, e := run[..|run| - 1], run[|run| - 1];
      IsRun(start, rest) && Step(StateAfter(start, rest), e.action, e.after))
  }

  /** Nothing loaded yet; whatever the log holds refers to the base file. */
  predicate Initial(s: System) {
    s.gen < TWO_32 && s.numbering < s.next && s.counted == 0 && s.procs == map[] && FramesCurrent(s)
  }

  /** Every frame in the log was numbered against the base file on disk. */
  predicate FramesCurrent(s: System) {
    forall k :: 0 <= k < |s.frames| ==> s.frames[k] == s.numbering
  }

  /******* What the counter tells *******/

  /** The counter a process or the disk holds after n counted checkpoints, when it was gen0 at first. */
  function GenAt(gen0: nat, n: nat): nat {
    (gen0 + n) % TWO_32
  }

  predicate Accounted(gen0: nat, s: System) {
    && s.gen == GenAt(gen0, s.counted) && s.numbering < s.next
    && forall p :: p in s.procs ==>
         s.procs[p].gen == GenAt(gen0, s.procs[p].seen) && s.procs[p].seen <= s.counted && s.procs[p].numbering < s.next
  }

  lemma BumpCounts(gen0: nat, n: nat)
    ensures Bump(GenAt(gen0, n)) == GenAt(gen0, n + 1)
  {
  }

  lemma StepKeepsAccounted(gen0: nat, s: System, a: Action, s': System)
    requires Accounted(gen0, s) && Step(s, a, s')
    ensures Accounted(gen0, s') && s.counted <= s'.counted <= s.counted + 1
  {
    BumpCounts(gen0, s.counted);
  }

  lemma {:induction false} RunKeepsAccounted(start: System, run: seq<Event>)
    requires Initial(start) && IsRun(start, run)
    ensures Accounted(start.gen, StateAfter(start, run))
  {
    if run != [] {
      var rest, e := run[..|run| - 1], run[|run| - 1];
      RunKeepsAccounted(start, rest);
      StepKeepsAccounted(start.gen, StateAfter(start, rest), e.action, e.after);
    }
  }

  lemma SameCounter(gen0: nat, a: nat, b: nat)
    requires a <= b
    ensures GenAt(gen0, a) == GenAt(gen0, b) <==> (b - a) % TWO_32 == 0
  {
    var x, y := gen0 + a, gen0 + b;
    assert x == TWO_32 * (x / TWO_32) + x % TWO_32;
    assert y == TWO_32 * (y / TWO_32) + y % TWO_32;
    assert b - a == TWO_32 * ((b - a) / TWO_32) + (b - a) % TWO_32;
    var q := y / TWO_32 - x / TWO_32;
    if x % TWO_32 == y % TWO_32 {
      assert b - a == TWO_32 * q;
    }
    if (b - a) % TWO_32 == 0 {
      assert y == x + TWO_32 * ((b - a) / TWO_32);
    }
  }

  /** The guard refuses a process exactly unless the counted checkpoints since it loaded are a multiple of 2^32. */
  lemma StaleExactly(start: System, run: seq<Event>, p: nat)
    requires Initial(start) && IsRun(start, run) && p in StateAfter(start, run).procs
    ensures var s := StateAfter(start, run);
      s.procs[p].seen <= s.counted && (Stale(s, p) <==> (s.counted - s.procs[p].seen) % TWO_32 != 0)
  {
    var s := StateAfter(start, run);
    RunKeepsAccounted(start, run);
    SameCounter(start.gen, s.procs[p].seen, s.counted);
  }

  /******* When the guard is enough *******/

  /** Every frame is current, and so would be every frame that the guard lets anyone write. */
  predicate Safe(s: System) {
    FramesCurrent(s) && forall p :: p in s.procs && !Stale(s, p) ==> s.procs[p].numbering == s.numbering
  }

  /** In an unsafe state a frame is wrong already, or one commit makes it so. */
  lemma UnsafeIsOneCommitAway(s: System)
    requires !Safe(s)
    ensures !FramesCurrent(s) || exists p, s' :: Step(s, Commit(p, 1), s') && !FramesCurrent(s')
  {
    if FramesCurrent(s) {
      var p :| p in s.procs && !Stale(s, p) && s.procs[p].numbering != s.numbering;
      var s' := s.(frames := s.frames + seq(1, _ => s.procs[p].numbering));
      assert s'.frames[|s.frames|] == s.procs[p].numbering;
      assert Step(s, Commit(p, 1), s') && !FramesCurrent(s');
    }
  }

  /** Whoever else the guard would let write. */
  predicate OthersStale(s: System, p: nat) {
    forall q :: q in s.procs && q != p ==> Stale(s, q)
  }

  /**
   What a checkpoint may do to a safe system. Counted, it is harmless. Cut short, it is harmless if the
   base keeps its numbering; if not, the renumbering must concern nobody: before the dump, a process that
   is stale itself; after the dump, no process the guard lets through, and no frame left in the log.
   */
  predicate Harmless(s: System, a: Action) {
    a.Checkpoint? && a.p in s.procs ==>
      match a.reached
      case Counted => true
      case Compacted => Stale(s, a.p) || !a.renumbers
      case Dumped => AfterCompaction(s, a.p, a.renumbers) == s.numbering || (s.frames == [] && OthersStale(s, a.p))
      case Removed => AfterCompaction(s, a.p, a.renumbers) == s.numbering || OthersStale(s, a.p)
  }

  /** With fewer than 2^32 counted checkpoints a counted one leaves every other process stale. */
  lemma CountingRefusesOthers(gen0: nat, s: System, a: Action, s': System, q: nat)
    requires Accounted(gen0, s) && Step(s, a, s') && a.Checkpoint? && a.reached.Counted? && s'.counted < TWO_32
    requires q in s'.procs && q != a.p
    ensures Stale(s', q)
  {
    BumpCounts(gen0, s.counted);
    SameCounter(gen0, s.procs[q].seen, s'.counted);
  }

  /** A step keeps the system safe exactly if it is harmless. */
  lemma StepSafeExactly(gen0: nat, s: System, a: Action, s': System)
    requires Accounted(gen0, s) && Safe(s) && Step(s, a, s') && s'.counted < TWO_32
    ensures Safe(s') <==> Harmless(s, a)
  {
    if a.Checkpoint? {
      var n := AfterCompaction(s, a.p, a.renumbers);
      forall q | q in s.procs && q != a.p
        ensures q in s'.procs && s'.procs[q] == s.procs[q] && (a.reached.Counted? ==> Stale(s', q)) && (!a.reached.Counted? ==> (Stale(s', q) <==> Stale(s, q))) {
        if a.reached.Counted? {
          CountingRefusesOthers(gen0, s, a, s', q);
        }
      }
      assert a.p in s'.procs && s'.procs[a.p].numbering == n;
      if a.reached.Dumped? && n != s.numbering && s.frames != [] {
        assert s'.frames[0] == s.numbering;
        assert !FramesCurrent(s');
      }
    }
  }

  ghost predicate HarmlessRun(start: System, run: seq<Event>) {
    forall k :: 0 <= k < |run| ==> Harmless(StateAfter(start, run[..k]), run[k].action)
  }

  /**
   With fewer than 2^32 counted checkpoints, in every interleaving in which each checkpoint that was cut short
   was harmless, every frame refers to the base file on disk; and the first harmful one ends that.
   */
  lemma {:induction false} FramesStayCurrent(start: System, run: seq<Event>)
    requires Initial(start) && IsRun(start, run) && StateAfter(start, run).counted < TWO_32
    ensures HarmlessRun(start, run) ==> Safe(StateAfter(start, run)) && FramesCurrent(StateAfter(start, run))
    ensures run != [] && HarmlessRun(start, run[..|run| - 1]) && !Harmless(StateAfter(start, run[..|run| - 1]), run[|run| - 1].action)
      ==> !Safe(StateAfter(start, run))
  {
    if run != [] {
      var rest, e := run[..|run| - 1], run[|run| - 1];
      var s := StateAfter(start, rest);
      RunKeepsAccounted(start, rest);
      StepKeepsAccounted(start.gen, s, e.action, e.after);
      FramesStayCurrent(start, rest);
      if HarmlessRun(start, run) {
        forall k | 0 <= k < |rest| ensures Harmless(StateAfter(start, rest[..k]), rest[k].action) {
          assert rest[..k] == run[..k];
        }
        assert run[..|run| - 1] == rest && Harmless(s, e.action);
      }
      if Safe(s) {
        StepSafeExactly(start.gen, s, e.action, e.after);
      }
    }
  }

  /******* Runs that break it *******/

  lemma ExtendRun(start: System, run: seq<Event>, a: Action, s': System)
    requires IsRun(start, run) && Step(StateAfter(start, run), a, s')
    ensures IsRun(start, run + [Event(a, s')]) && StateAfter(start, run + [Event(a, s')]) == s'
  {
    assert (run + [Event(a, s')])[..|run|] == run;
  }

  /** Two processes load; a checkpoint of the second dumps, removes the log and fails to count; the first commits. */
  lemma UncountedCheckpointLetsStaleFramesIn(start: System) returns (run: seq<Event>)
    requires Initial(start)
    ensures IsRun(start, run) && StateAfter(start, run).counted == 0 && !FramesCurrent(StateAfter(start, run))
  {
    var one := start.(procs := start.procs[0 := Local(start.gen, start.numbering, start.counted)]);
    var two := one.(procs := one.procs[1 := Local(one.gen, one.numbering, one.counted)]);
    var cut := Checkpointed(two, 1, true, Removed);
    var after := cut.(frames := cut.frames + seq(1, _ => cut.procs[0].numbering));
    ExtendRun(start, [], Load(0), one);
    var r1 := [] + [Event(Load(0), one)];
    ExtendRun(start, r1, Load(1), two);
    var r2 := r1 + [Event(Load(1), two)];
    ExtendRun(start, r2, Checkpoint(1, true, Removed), cut);
    var r3 := r2 + [Event(Checkpoint(1, true, Removed), cut)];
    assert after.frames[0] == start.numbering && after.numbering == start.next;
    ExtendRun(start, r3, Commit(0, 1), after);
    run := r3 + [Event(Commit(0, 1), after)];
  }

  lemma {:induction false} ManyCheckpoints(start: System, run: seq<Event>, p: nat, n: nat) returns (longer: seq<Event>)
    requires IsRun(start, run) && p in StateAfter(start, run).procs && StateAfter(start, run).numbering < StateAfter(start, run).next
    ensures IsRun(start, longer)
    ensures var s, s' := StateAfter(start, run), StateAfter(start, longer);
      && s'.counted == s.counted + n && p in s'.procs && s.next <= s'.next && s'.numbering < s'.next && (n > 0 ==> s'.numbering >= s.next)
      && s'.procs.Keys == s.procs.Keys && forall q :: q in s.procs && q != p ==> s'.procs[q] == s.procs[q]
    decreases n
  {
    hide IsRun, StateAfter, Bump;
    if n == 0 {
      longer := run;
    } else {
      var shorter := ManyCheckpoints(start, run, p, n - 1);
      var s := StateAfter(start, shorter);
      var next := Checkpointed(s, p, true, Counted);
      ExtendRun(start, shorter, Checkpoint(p, true, Counted), next);
      longer := shorter + [Event(Checkpoint(p, true, Counted), next)];
    }
  }

  /** The bound is tight: after 2^32 checkpoints of another process the counter is back, and a stale commit is let through. */
  lemma WrapAroundLetsStaleFramesIn(start: System) returns (run: seq<Event>)
    requires Initial(start)
    ensures IsRun(start, run) && StateAfter(start, run).counted == TWO_32 && !FramesCurrent(StateAfter(start, run))
  {
    var one := start.(procs := start.procs[0 := Local(start.gen, start.numbering, 0)]);
    var two := one.(procs := one.procs[1 := Local(one.gen, one.numbering, 0)]);
    ExtendRun(start, [], Load(0), one);
    ExtendRun(start, [] + [Event(Load(0), one)], Load(1), two);
    run := ManyCheckpoints(start, [] + [Event(Load(0), one)] + [Event(Load(1), two)], 1, TWO_32);
    var s := StateAfter(start, run);
    StaleExactly(start, run, 0);
    var after := s.(frames := s.frames + seq(1, _ => s.procs[0].numbering));
    assert after.frames[|s.frames|] == start.numbering;
    ExtendRun(start, run, Commit(0, 1), after);
    run := run + [Event(Commit(0, 1), after)];
  }
}
