/** The reservation processes as a transition system (Reservation system/main.c): one step
    is one semaphore wait, one loop iteration, one copied name, or one semaphore post. */
module Protocol {
  import opened Tables

  /** Where a process is in its current command, with the lines printed so far. */
  datatype Pc =
    | Idle                                // has fetched a command, or has none left
    | HoldsA                              // `init`, `status`: has A, waits for B
    | Loop(i: nat, out: seq<Output>)      // about to run iteration i
    | Claim(i: nat, out: seq<Output>)     // row i was seen to be free, its name is not yet written
    | Leave(out: seq<Output>)             // about to post its semaphore, for `init` and `status` A
    | PostB(out: seq<Output>)             // `init`, `status`: about to post B

  /** A completed command and what it printed. */
  datatype Done = Done(cmd: Command, out: seq<Output>)

  datatype Process = Process(todo: seq<Command>, pc: Pc, log: seq<Done>)

  datatype World = World(mutexA: nat, mutexB: nat, tables: seq<Table>, procs: seq<Process>)

  // ----- Steps -----

  /** The program counter fits the command. */
  predicate TypedProcess(l: Process)
  {
    l.pc.Idle? ||
    (l.todo != [] &&
     match l.pc
     case Idle => true
     case HoldsA => NeedsBoth(l.todo[0])
     case Loop(i, _) => (NeedsBoth(l.todo[0]) || Reserves(l.todo[0])) && i <= 20
     case Claim(i, _) => Reserves(l.todo[0]) && i < 20
     case Leave(_) => NeedsBoth(l.todo[0]) || Reserves(l.todo[0])
     case PostB(_) => NeedsBoth(l.todo[0]))
  }

  predicate Typed(w: World)
  {
    |w.tables| == 20 && forall p :: 0 <= p < |w.procs| ==> TypedProcess(w.procs[p])
  }

  function Mutex(w: World, section: char): nat
  {
    if section == 'A' then w.mutexA else w.mutexB
  }

  /** What the next step of a process does to a semaphore. */
  function NextSync(l: Process): Sync
    requires TypedProcess(l) && l.todo != []
  {
    var cmd := l.todo[0];
    match l.pc
    case Idle => if NeedsBoth(cmd) then Wait('A') else if Reserves(cmd) then Wait(cmd.section) else Nothing
    case HoldsA => Wait('B')
    case Loop(_, _) => Nothing
    case Claim(_, _) => Nothing
    case Leave(_) => Post(if NeedsBoth(cmd) then 'A' else cmd.section)
    case PostB(_) => Post('B')
  }

  /** A process with work left runs on unless its next step waits at a semaphore of value 0. */
  predicate Runnable(w: World, l: Process)
    requires TypedProcess(l)
  {
    l.todo != [] && (NextSync(l).Wait? ==> Mutex(w, NextSync(l).section) > 0)
  }

  predicate Enabled(w: World, p: nat)
    requires Typed(w)
  {
    p < |w.procs| && Runnable(w, w.procs[p])
  }

  /** One iteration of the command's loop, or its end. */
  function Iterate(cmd: Command, t: seq<Table>, i: nat, out: seq<Output>): (r: (Pc, seq<Table>))
    requires |t| == 20 && i <= 20 && (NeedsBoth(cmd) || Reserves(cmd))
    ensures |r.1| == 20
  {
    match cmd
    case Init => if i < 20 then (Loop(i + 1, out), t[i := Table(NumberOf(i), EMPTY)]) else (Leave(out), t)
    case Status => (if i < 20 then Loop(i + 1, out + [Row(t[i].num, Shown(t[i].name))]) else Leave(out), t)
    case ReserveSome(section, _) =>
      (if i == 20 then Leave(out + [NoEmptyTable])
       else if IsFree(t, section, i) then Claim(i, out)
       else Loop(i + 1, out), t)
    case ReserveSpecific(section, no, _) =>
      (if !ValidNumber(section, no) then Leave(out + [InvalidNumber])
       else if i == 20 then Leave(out)
       else if t[i].num != no then Loop(i + 1, out)
       else if t[i].name == EMPTY then Claim(i, out)
       else Loop(i + 1, out + [CannotReserve]), t)
  }

  /** The current command is over: `exit` ends the process. */
  function Finish(l: Process, out: seq<Output>): Process
    requires l.todo != []
  {
    Process(if l.todo[0].Exit? then [] else l.todo[1..], Idle, l.log + [Done(l.todo[0], out)])
  }

  /** The process after its next step, and the tables. */
  function LocalStep(l: Process, t: seq<Table>): (r: (Process, seq<Table>))
    requires TypedProcess(l) && l.todo != [] && |t| == 20
    ensures TypedProcess(r.0) && |r.1| == 20
  {
    var cmd := l.todo[0];
    match l.pc
    case Idle =>
      (if NeedsBoth(cmd) then l.(pc := HoldsA)
       else if Reserves(cmd) then l.(pc := Loop(0, []))
       else Finish(l, []), t)
    case HoldsA => (l.(pc := Loop(0, [])), t)
    case Loop(i, out) => var (pc, t') := Iterate(cmd, t, i, out); (l.(pc := pc), t')
    case Claim(i, out) => (l.(pc := if cmd.ReserveSome? then Leave(out) else Loop(i + 1, out)), Book(t, i, cmd.name))
    case Leave(out) => (if NeedsBoth(cmd) then l.(pc := PostB(out)) else Finish(l, out), t)
    case PostB(out) => (Finish(l, out), t)
  }

  /** The step that copies the name writes that name to the row claimed, and nothing else. */
  lemma ClaimWrites(l: Process, t: seq<Table>)
    requires TypedProcess(l) && l.todo != [] && l.pc.Claim? && |t| == 20
    ensures StoresName(t, LocalStep(l, t).1, l.pc.i, l.todo[0].name)
  {
  }

  /** No other step but one of `init` writes to the tables. */
  lemma OthersWriteNothing(l: Process, t: seq<Table>)
    requires TypedProcess(l) && l.todo != [] && |t| == 20
    requires !l.pc.Claim? && !(l.pc.Loop? && l.todo[0].Init?)
    ensures LocalStep(l, t).1 == t
  {
  }

  function Synchronise(value: nat, sync: Sync, section: char): nat
    requires sync == Wait(section) ==> value > 0
  {
    if sync == Wait(section) then value - 1 else if sync == Post(section) then value + 1 else value
  }

  function Step(w: World, p: nat): (w': World)
    requires Typed(w) && Enabled(w, p)
    ensures Typed(w') && |w'.procs| == |w.procs|
  {
    var l := w.procs[p];
    var (l', t') := LocalStep(l, w.tables);
    World(Synchronise(w.mutexA, NextSync(l), 'A'), Synchronise(w.mutexB, NextSync(l), 'B'), t', w.procs[p := l'])
  }

  // ----- Runs -----

  /** The start: each process runs `init` first, then its own commands, on memory with any content. */
  function Start(memory: seq<Table>, programs: seq<seq<Command>>): (w: World)
    requires |memory| == 20
    ensures Typed(w)
  {
    World(1, 1, memory, seq(|programs|, p requires 0 <= p < |programs| => Process([Init] + programs[p], Idle, [])))
  }

  /** The processes named in `s` can step one after the other. */
  predicate Schedule(w: World, s: seq<nat>)
    requires Typed(w)
    decreases |s|, 0
  {
    s == [] || (Schedule(w, s[..|s| - 1]) && Enabled(After(w, s[..|s| - 1]), s[|s| - 1]))
  }

  function After(w: World, s: seq<nat>): (w': World)
    requires Typed(w) && Schedule(w, s)
    ensures Typed(w') && |w'.procs| == |w.procs|
    decreases |s|, 1
  {
    if s == [] then w else Step(After(w, s[..|s| - 1]), s[|s| - 1])
  }

  predicate Finished(w: World)
  {
    forall p :: 0 <= p < |w.procs| ==> w.procs[p].todo == []
  }

  // ----- Semaphores -----

  /** The process has waited for the semaphore of the section and not yet posted it. */
  predicate Holds(l: Process, section: char)
    requires TypedProcess(l)
  {
    match l.pc
    case Idle => false
    case HoldsA => section == 'A'
    case PostB(_) => section == 'B'
    case _ => NeedsBoth(l.todo[0]) || l.todo[0].section == section
  }

  function Holding(w: World, section: char): seq<bool>
    requires Typed(w)
  {
    seq(|w.procs|, p requires 0 <= p < |w.procs| => Holds(w.procs[p], section))
  }

  predicate OnlyHolder(hs: seq<bool>, q: nat)
  {
    q < |hs| && hs[q] && forall p :: 0 <= p < |hs| && p != q ==> !hs[p]
  }

  /** The semaphore is free, or exactly one process holds it. */
  ghost predicate Exclusive(value: nat, hs: seq<bool>)
  {
    if value == 0 then exists q: nat :: OnlyHolder(hs, q)
    else value == 1 && forall p :: 0 <= p < |hs| ==> !hs[p]
  }

  lemma SyncIsHolding(l: Process, t: seq<Table>, section: char)
    requires TypedProcess(l) && l.todo != [] && |t| == 20 && IsSection(section)
    ensures
      var l', sync := LocalStep(l, t).0, NextSync(l);
      && (sync == Wait(section) <==> !Holds(l, section) && Holds(l', section))
      && (sync == Post(section) <==> Holds(l, section) && !Holds(l', section))
  {
  }

  lemma SyncKeepsExclusive(value: nat, hs: seq<bool>, p: nat, sync: Sync, section: char, after: bool)
    requires Exclusive(value, hs) && p < |hs|
    requires sync == Wait(section) ==> value > 0
    requires sync == Wait(section) <==> !hs[p] && after
    requires sync == Post(section) <==> hs[p] && !after
    ensures Exclusive(Synchronise(value, sync, section), hs[p := after])
  {
    var hs' := hs[p := after];
    if value == 0 {
      var q: nat :| OnlyHolder(hs, q);
      assert hs'[q] ==> OnlyHolder(hs', q);
    } else {
      assert after ==> OnlyHolder(hs', p);
    }
  }

  lemma StepExclusive(w: World, p: nat, section: char)
    requires Typed(w) && Enabled(w, p) && IsSection(section)
    requires Exclusive(Mutex(w, section), Holding(w, section))
    ensures Exclusive(Mutex(Step(w, p), section), Holding(Step(w, p), section))
  {
    var l, l' := w.procs[p], LocalStep(w.procs[p], w.tables).0;
    SyncIsHolding(l, w.tables, section);
    SyncKeepsExclusive(Mutex(w, section), Holding(w, section), p, NextSync(l), section, Holds(l', section));
    assert Holding(Step(w, p), section) == Holding(w, section)[p := Holds(l', section)];
  }

  /** Value plus holders is 1. */
  lemma Counting(value: nat, hs: seq<bool>)
    requires Exclusive(value, hs)
    ensures value + |set p | 0 <= p < |hs| && hs[p]| == 1
  {
    var holders := set p | 0 <= p < |hs| && hs[p];
    if value == 0 {
      var q: nat :| OnlyHolder(hs, q);
      assert holders == {q as int};
    } else {
      assert holders == {};
    }
  }

  /** The waits and posts that are left of the current command. */
  function Remaining(l: Process): seq<Sync>
    requires TypedProcess(l)
  {
    if l.todo == [] then []
    else
      var locking := Locking(l.todo[0]);
      match l.pc
      case Idle => locking
      case HoldsA => locking[1..]
      case PostB(_) => locking[3..]
      case _ => if NeedsBoth(l.todo[0]) then locking[2..] else locking[1..]
  }

  /** The steps of a command do the waits and posts of the command as written, in that order. */
  lemma StepsFollowLocking(l: Process, t: seq<Table>)
    requires TypedProcess(l) && l.todo != [] && |t| == 20
    ensures
      var l', sync := LocalStep(l, t).0, NextSync(l);
      Remaining(l) == (if sync.Nothing? then [] else [sync]) + if l'.pc.Idle? then [] else Remaining(l')
  {
    var l' := LocalStep(l, t).0;
    if l'.pc.Idle? {
      assert Remaining(l) == if NextSync(l).Nothing? then [] else [NextSync(l)];
    } else {
      assert l'.todo == l.todo;
    }
  }
}
