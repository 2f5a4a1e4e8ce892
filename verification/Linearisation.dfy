/** Every interleaving of the reservation processes has the outcome of running whole
    commands one after the other. */
module Linearisation {
  import opened Tables
  import opened Protocol
  import opened Safety

  // ----- The sequential system -----

  datatype Plan = Plan(todo: seq<Command>, log: seq<Done>)

  datatype Serial = Serial(tables: seq<Table>, plans: seq<Plan>)

  predicate CanRun(a: Serial, p: nat)
  {
    |a.tables| == 20 && p < |a.plans| && a.plans[p].todo != []
  }

  function Rest(todo: seq<Command>): seq<Command>
    requires todo != []
  {
    if todo[0].Exit? then [] else todo[1..]
  }

  function Complete(plan: Plan, out: seq<Output>): Plan
    requires plan.todo != []
  {
    Plan(Rest(plan.todo), plan.log + [Done(plan.todo[0], out)])
  }

  /** Process p runs its next command from start to end. */
  function RunCommand(a: Serial, p: nat): (a': Serial)
    requires CanRun(a, p)
    ensures |a'.tables| == 20 && |a'.plans| == |a.plans|
  {
    var (t, out) := Atomic(a.tables, a.plans[p].todo[0]);
    Serial(t, a.plans[p := Complete(a.plans[p], out)])
  }

  predicate SerialRun(a: Serial, order: seq<nat>)
    requires |a.tables| == 20
    decreases |order|, 0
  {
    order == [] ||
    (SerialRun(a, order[..|order| - 1]) && CanRun(SerialAfter(a, order[..|order| - 1]), order[|order| - 1]))
  }

  function SerialAfter(a: Serial, order: seq<nat>): (a': Serial)
    requires |a.tables| == 20 && SerialRun(a, order)
    ensures |a'.tables| == 20 && |a'.plans| == |a.plans|
    decreases |order|, 1
  {
    if order == [] then a else RunCommand(SerialAfter(a, order[..|order| - 1]), order[|order| - 1])
  }

  // ----- When a command takes effect -----

  /** The current command has taken effect: `init` with its second wait, `status` and
      failing searches with the end of the loop, a booking with the copied name. */
  predicate Committed(l: Process)
    requires TypedProcess(l)
  {
    match l.pc
    case Loop(i, _) =>
      (match l.todo[0]
       case Init => true
       case ReserveSpecific(section, no, _) => ValidNumber(section, no) && RowOf(no) < i
       case _ => false)
    case Leave(_) => true
    case PostB(_) => true
    case _ => false
  }

  function PlanOf(l: Process): Plan
    requires TypedProcess(l)
  {
    if Committed(l) then Complete(Plan(l.todo, l.log), l.pc.out) else Plan(l.todo, l.log)
  }

  predicate SomeInInit(procs: seq<Process>)
  {
    exists p :: 0 <= p < |procs| && InInit(procs[p])
  }

  function Plans(procs: seq<Process>): seq<Plan>
    requires forall p :: 0 <= p < |procs| ==> TypedProcess(procs[p])
  {
    seq(|procs|, p requires 0 <= p < |procs| => PlanOf(procs[p]))
  }

  /** The sequential state that a state stands for. */
  ghost function Abs(w: World): (a: Serial)
    requires Typed(w)
    ensures |a.tables| == 20
  {
    Serial(if SomeInInit(w.procs) then Fresh() else w.tables, Plans(w.procs))
  }

  /** The step is the one with which a command takes effect. */
  predicate Commits(w: World, p: nat)
    requires Typed(w) && Enabled(w, p)
  {
    |PlanOf(Step(w, p).procs[p]).log| > |PlanOf(w.procs[p]).log|
  }

  // ----- One step -----

  lemma FirstFreeIs(t: seq<Table>, section: char, i: nat)
    requires |t| == 20 && i <= 20 && forall j: nat :: j < i ==> !IsFree(t, section, j)
    requires i < 20 ==> IsFree(t, section, i)
    ensures FirstFree(t, section, 0) == i
  {
  }

  /** A step that is no commit leaves the plan alone. */
  lemma LocalStutter(t: seq<Table>, l: Process)
    requires Consistent(t, l) && l.todo != []
    requires |PlanOf(LocalStep(l, t).0).log| <= |PlanOf(l).log|
    ensures PlanOf(LocalStep(l, t).0) == PlanOf(l)
    ensures LocalStep(l, t).1 == t || (InInit(l) && InInit(LocalStep(l, t).0))
    ensures InInit(LocalStep(l, t).0) ==> InInit(l)
    ensures InInit(l) && !InInit(LocalStep(l, t).0) ==> t == Fresh()
  {
  }

  /** A commit is the whole command. */
  lemma LocalCommit(t: seq<Table>, l: Process)
    requires Consistent(t, l) && l.todo != []
    requires |PlanOf(LocalStep(l, t).0).log| > |PlanOf(l).log|
    ensures !Committed(l) && PlanOf(LocalStep(l, t).0) == Complete(PlanOf(l), Atomic(t, l.todo[0]).1)
    ensures InInit(LocalStep(l, t).0) <==> l.todo[0].Init?
    ensures !l.todo[0].Init? ==> LocalStep(l, t).1 == Atomic(t, l.todo[0]).0
  {
    var cmd := l.todo[0];
    if l.pc.Loop? || l.pc.Claim? {
      if cmd.ReserveSome? {
        FirstFreeIs(t, cmd.section, l.pc.i);
        assert l.pc.out + [NoEmptyTable] == [NoEmptyTable];
      } else if cmd.Status? {
        assert Rows(t)[..20] == Rows(t);
      } else if cmd.ReserveSpecific? && !Committed(l) {
        assert l.pc.out + [CannotReserve] == [CannotReserve] && l.pc.out + [InvalidNumber] == [InvalidNumber];
      }
    }
  }

  predicate AnotherInInit(procs: seq<Process>, p: nat)
  {
    exists q :: 0 <= q < |procs| && q != p && InInit(procs[q])
  }

  /** While one process is in its `init` loop every other holds nothing. */
  lemma OthersIdle(w: World, p: nat)
    requires Inv(w) && p < |w.procs| && AnotherInInit(w.procs, p)
    ensures w.procs[p].pc.Idle?
  {
    var q: nat :| q < |w.procs| && q != p && InInit(w.procs[q]);
    HoldersDiffer(w, p, q, 'A');
    HoldersDiffer(w, p, q, 'B');
  }

  lemma PlansAfter(w: World, p: nat)
    requires Typed(w) && Enabled(w, p)
    ensures Plans(Step(w, p).procs) == Plans(w.procs)[p := PlanOf(Step(w, p).procs[p])]
  {
  }

  lemma InitAfter(procs: seq<Process>, p: nat, l: Process)
    requires p < |procs|
    ensures SomeInInit(procs) <==> AnotherInInit(procs, p) || InInit(procs[p])
    ensures SomeInInit(procs[p := l]) <==> AnotherInInit(procs, p) || InInit(l)
  {
    var procs' := procs[p := l];
    assert procs'[p] == l;
    assert forall q :: 0 <= q < |procs| && q != p ==> procs'[q] == procs[q];
  }

  /** A step that is no commit is invisible. */
  lemma StepStutters(w: World, p: nat)
    requires Inv(w) && Enabled(w, p) && !Commits(w, p)
    ensures Abs(Step(w, p)) == Abs(w)
  {
    var l, l' := w.procs[p], Step(w, p).procs[p];
    LocalStutter(w.tables, l);
    PlansAfter(w, p);
    InitAfter(w.procs, p, l');
    if AnotherInInit(w.procs, p) {
      OthersIdle(w, p);
    }
  }

  /** A commit is one whole command of the sequential system. */
  lemma StepRuns(w: World, p: nat)
    requires Inv(w) && Enabled(w, p) && Commits(w, p)
    ensures CanRun(Abs(w), p) && Abs(Step(w, p)) == RunCommand(Abs(w), p)
  {
    var l, l' := w.procs[p], Step(w, p).procs[p];
    LocalCommit(w.tables, l);
    PlansAfter(w, p);
    InitAfter(w.procs, p, l');
    if AnotherInInit(w.procs, p) {
      OthersIdle(w, p);
    }
  }

  // ----- Runs -----

  /** The processes whose steps commit, in order of commitment: a command takes effect
      after its process has begun it and before it ends it. */
  function Order(w: World, s: seq<nat>): seq<nat>
    requires Typed(w) && Schedule(w, s)
  {
    if s == [] then []
    else
      var before, p := s[..|s| - 1], s[|s| - 1];
      if Commits(After(w, before), p) then Order(w, before) + [p] else Order(w, before)
  }

  /** The serial run in that order leads to the state that `w` stands for. */
  ghost predicate Explains(a: Serial, order: seq<nat>, w: World)
    requires Typed(w) && |a.tables| == 20
  {
    SerialRun(a, order) && SerialAfter(a, order) == Abs(w)
  }

  lemma SerialSnoc(a: Serial, order: seq<nat>, p: nat)
    requires |a.tables| == 20 && SerialRun(a, order) && CanRun(SerialAfter(a, order), p)
    ensures SerialRun(a, order + [p]) && SerialAfter(a, order + [p]) == RunCommand(SerialAfter(a, order), p)
  {
    assert (order + [p])[..|order|] == order;
  }

  lemma StepExplained(a: Serial, order: seq<nat>, w: World, p: nat)
    requires Inv(w) && Enabled(w, p) && |a.tables| == 20 && Explains(a, order, w)
    ensures Explains(a, if Commits(w, p) then order + [p] else order, Step(w, p))
  {
    if Commits(w, p) {
      StepRuns(w, p);
      SerialSnoc(a, order, p);
    } else {
      StepStutters(w, p);
    }
  }

  /** After any interleaving the state is what running the commands one by one in their
      order of commitment gives. */
  lemma {:induction false} Linearises(w: World, s: seq<nat>)
    requires Inv(w) && Schedule(w, s)
    ensures Explains(Abs(w), Order(w, s), After(w, s))
  {
    if s == [] {
    } else {
      var before, p := s[..|s| - 1], s[|s| - 1];
      Linearises(w, before);
      RunInv(w, before);
      StepExplained(Abs(w), Order(w, before), After(w, before), p);
    }
  }

  function SerialStart(memory: seq<Table>, programs: seq<seq<Command>>): (a: Serial)
    requires |memory| == 20
    ensures |a.tables| == 20
  {
    Serial(memory, seq(|programs|, p requires 0 <= p < |programs| => Plan([Init] + programs[p], [])))
  }

  predicate LegalPrograms(programs: seq<seq<Command>>)
  {
    forall p, k :: 0 <= p < |programs| && 0 <= k < |programs[p]| ==> Legal(programs[p][k])
  }

  /** The log is that of the commands `q` up to the first `exit`, or of all. */
  ghost predicate HasRun(log: seq<Done>, q: seq<Command>)
  {
    EndsAfter(q, |log|) && forall k :: 0 <= k < |log| ==> log[k].cmd == q[k]
  }

  /** Once all have finished: same tables, and every process has printed the same, as in
      the sequential run in order of commitment; and every process has run its program. */
  lemma FinishedIsSerial(memory: seq<Table>, programs: seq<seq<Command>>, s: seq<nat>)
    requires |memory| == 20 && LegalPrograms(programs)
    requires Schedule(Start(memory, programs), s) && Finished(After(Start(memory, programs), s))
    ensures
      var order := Order(Start(memory, programs), s);
      && SerialRun(SerialStart(memory, programs), order)
      && var a, w := SerialAfter(SerialStart(memory, programs), order), After(Start(memory, programs), s);
         a.tables == w.tables && |a.plans| == |w.procs| &&
         forall p :: 0 <= p < |w.procs| ==> a.plans[p] == Plan([], w.procs[p].log)
    ensures forall p :: 0 <= p < |programs| ==>
      HasRun(After(Start(memory, programs), s).procs[p].log, [Init] + programs[p])
  {
    forall p | 0 <= p < |programs|
      ensures HasRun(After(Start(memory, programs), s).procs[p].log, [Init] + programs[p])
    {
      ProgramOrder(memory, programs, s, p);
    }
    var w := Start(memory, programs);
    StartInv(memory, programs);
    assert Abs(w) == SerialStart(memory, programs);
    Linearises(w, s);
    var order := Order(w, s);
    assert SerialAfter(SerialStart(memory, programs), order) == Abs(After(w, s));
  }

  /** The order of commitment only grows. In it, at any time, is every command that has
      ended, and of those that have not just the ones that have taken effect: none that
      has not begun. */
  lemma {:induction false} OrderKeepsTime(w: World, s: seq<nat>, later: seq<nat>, p: nat)
    requires Inv(w) && s <= later && Schedule(w, later) && p < |w.procs|
    ensures Schedule(w, s) && Order(w, s) <= Order(w, later)
    ensures SerialRun(Abs(w), Order(w, s))
    ensures SerialAfter(Abs(w), Order(w, s)).plans[p] == PlanOf(After(w, s).procs[p])
  {
    if s == later {
      Linearises(w, s);
      assert Abs(After(w, s)).plans[p] == PlanOf(After(w, s).procs[p]);
    } else {
      OrderKeepsTime(w, s, later[..|later| - 1], p);
    }
  }

  /** How often process p occurs in an order. */
  function Count(order: seq<nat>, p: nat): nat
  {
    if order == [] then 0
    else if order[|order| - 1] == p then Count(order[..|order| - 1], p) + 1
    else Count(order[..|order| - 1], p)
  }

  /** Commands are numbered by their place in the log of their process: the one that runs
      at place i of an order. */
  function CommandAt(a: Serial, order: seq<nat>, i: nat): nat
    requires i < |order| && order[i] < |a.plans|
  {
    |a.plans[order[i]].log| + Count(order[..i], order[i])
  }

  /** So many commands of the process have ended, and so many have begun. */
  function Ended(l: Process): nat
  {
    |l.log|
  }

  function Begun(l: Process): nat
  {
    if l.pc.Idle? then |l.log| else |l.log| + 1
  }

  lemma {:induction false} CountMonotone(order: seq<nat>, i: nat, j: nat, p: nat)
    requires i <= j <= |order|
    ensures Count(order[..i], p) <= Count(order[..j], p)
    ensures i < j && order[i] == p ==> Count(order[..i], p) < Count(order[..j], p)
    decreases j
  {
    if i == j {
    } else {
      assert order[..j][..j - 1] == order[..j - 1];
      CountMonotone(order, i, j - 1, p);
    }
  }

  lemma {:induction false} CountIsLog(a: Serial, order: seq<nat>, p: nat)
    requires |a.tables| == 20 && SerialRun(a, order) && p < |a.plans|
    ensures |SerialAfter(a, order).plans[p].log| == |a.plans[p].log| + Count(order, p)
  {
    if order == [] {
    } else {
      CountIsLog(a, order[..|order| - 1], p);
    }
  }

  lemma {:induction false} OrderedProcesses(a: Serial, order: seq<nat>, i: nat)
    requires |a.tables| == 20 && SerialRun(a, order) && i < |order|
    ensures order[i] < |a.plans|
  {
    if i == |order| - 1 {
    } else {
      OrderedProcesses(a, order[..|order| - 1], i);
    }
  }

  /** The first so many places of the final order hold all commands that have ended after `s`
      and none that has not begun. */
  lemma EndedAndBegun(w: World, s: seq<nat>, later: seq<nat>, i: nat, n: nat)
    requires Inv(w) && s <= later && Schedule(w, later) && Schedule(w, s)
    requires i < |Order(w, later)| && n == |Order(w, s)|
    ensures Order(w, later)[i] < |w.procs| == |Abs(w).plans|
    ensures CommandAt(Abs(w), Order(w, later), i) < Ended(After(w, s).procs[Order(w, later)[i]]) ==> i < n
    ensures i < n ==> CommandAt(Abs(w), Order(w, later), i) < Begun(After(w, s).procs[Order(w, later)[i]])
  {
    Linearises(w, later);
    var order, a := Order(w, later), Abs(w);
    OrderedProcesses(a, order, i);
    var p := order[i];
    OrderKeepsTime(w, s, later, p);
    assert order[..n] == Order(w, s);
    CountIsLog(a, order[..n], p);
    if i < n {
      CountMonotone(order, i, n, p);
    } else {
      CountMonotone(order, n, i, p);
    }
  }

  /** Real time: a command that had ended after the steps `s` comes before every command
      that had not begun then, in the order of any longer run. */
  lemma RealTime(w: World, s: seq<nat>, later: seq<nat>, i: nat, j: nat)
    requires Inv(w) && s <= later && Schedule(w, later) && Schedule(w, s)
    requires i < |Order(w, later)| && j < |Order(w, later)|
    requires Order(w, later)[i] < |w.procs| && Order(w, later)[j] < |w.procs| == |Abs(w).plans|
    requires CommandAt(Abs(w), Order(w, later), i) < Ended(After(w, s).procs[Order(w, later)[i]])
    requires Begun(After(w, s).procs[Order(w, later)[j]]) <= CommandAt(Abs(w), Order(w, later), j)
    ensures i < j
  {
    var n := |Order(w, s)|;
    EndedAndBegun(w, s, later, i, n);
    EndedAndBegun(w, s, later, j, n);
  }

  /** A command that ran when the commands of `before` had run printed `e.out`. */
  predicate PrintedAfter(a: Serial, before: seq<nat>, e: Done)
    requires |a.tables| == 20
  {
    SerialRun(a, before) && e.out == Atomic(SerialAfter(a, before).tables, e.cmd).1
  }

  lemma {:induction false} SerialLog(a: Serial, order: seq<nat>, p: nat, k: nat) returns (before: seq<nat>)
    requires |a.tables| == 20 && SerialRun(a, order) && p < |a.plans| && a.plans[p].log == []
    requires k < |SerialAfter(a, order).plans[p].log|
    ensures before <= order && PrintedAfter(a, before, SerialAfter(a, order).plans[p].log[k])
  {
    var shorter := order[..|order| - 1];
    if k < |SerialAfter(a, shorter).plans[p].log| {
      before := SerialLog(a, shorter, p, k);
    } else {
      before := shorter;
    }
  }

  /** Each `status` prints all twenty tables as they were at one moment of the sequential run. */
  lemma StatusIsSnapshot(w: World, s: seq<nat>, p: nat, k: nat) returns (before: seq<nat>)
    requires Inv(w) && Schedule(w, s) && p < |w.procs| && w.procs[p] == w.procs[p].(pc := Idle, log := [])
    requires k < |After(w, s).procs[p].log| && After(w, s).procs[p].log[k].cmd.Status?
    ensures before <= Order(w, s) && SerialRun(Abs(w), before)
    ensures
      var out, t := After(w, s).procs[p].log[k].out, SerialAfter(Abs(w), before).tables;
      |out| == |t| == 20 && forall i :: 0 <= i < 20 ==> out[i] == Row(t[i].num, Shown(t[i].name))
  {
    OrderKeepsTime(w, s, s, p);
    assert After(w, s).procs[p].log <= SerialAfter(Abs(w), Order(w, s)).plans[p].log;
    before := SerialLog(Abs(w), Order(w, s), p, k);
    StatusIs(SerialAfter(Abs(w), before).tables);
  }
}
