/** What every reachable state of the reservation processes keeps, and that they all finish. */
module Safety {
  import opened Tables
  import opened Protocol

  /** The section of row i. */
  function SectionOf(i: nat): char
  {
    if i < 10 then 'A' else 'B'
  }

  /** What a process knows of the tables in the middle of a command. */
  predicate Knows(t: seq<Table>, cmd: Command, pc: Pc)
    requires |t| == 20 && (pc.Loop? ==> pc.i <= 20) && (pc.Claim? ==> pc.i < 20 && Reserves(cmd))
  {
    match pc
    case Loop(i, out) =>
      (match cmd
       case Init => out == [] && forall j :: 0 <= j < i ==> t[j] == Fresh()[j]
       case Status => out == Rows(t)[..i]
       case ReserveSome(section, _) => out == [] && forall j: nat :: j < i ==> !IsFree(t, section, j)
       case ReserveSpecific(section, no, _) => (ValidNumber(section, no) && RowOf(no) < i) || out == []
       case _ => true)
    case Claim(i, out) =>
      && out == [] && IsFree(t, cmd.section, i)
      && (cmd.ReserveSome? ==> forall j: nat :: j < i ==> !IsFree(t, cmd.section, j))
      && (cmd.ReserveSpecific? ==> ValidNumber(cmd.section, cmd.tableNo) && RowOf(cmd.tableNo) == i)
    case _ => true
  }

  /** The process has completed its first `init`, or at least left its loop. */
  predicate Initialised(l: Process)
  {
    l.log != [] || l.pc.Leave? || l.pc.PostB?
  }

  ghost predicate Consistent(t: seq<Table>, l: Process)
  {
    && |t| == 20 && TypedProcess(l)
    && (forall k :: 0 <= k < |l.todo| ==> Legal(l.todo[k]))
    && (l.log == [] ==> l.todo != [] && l.todo[0].Init?)
    && (Initialised(l) ==> Numbered(t))
    && (!l.pc.Idle? ==> Knows(t, l.todo[0], l.pc))
  }

  ghost predicate Inv(w: World)
  {
    && Typed(w)
    && (forall p :: 0 <= p < |w.procs| ==> Consistent(w.tables, w.procs[p]))
    && Exclusive(w.mutexA, Holding(w, 'A'))
    && Exclusive(w.mutexB, Holding(w, 'B'))
  }

  // ----- Lock discipline -----

  /** The tables agree on every row whose section the process holds. */
  predicate AgreeFor(t: seq<Table>, t': seq<Table>, l: Process)
    requires TypedProcess(l)
  {
    |t| == |t'| == 20 && forall i :: 0 <= i < 20 && Holds(l, SectionOf(i)) ==> t[i] == t'[i]
  }

  /** A step writes only rows whose section the process holds. */
  lemma WritesUnderLock(t: seq<Table>, l: Process, i: nat)
    requires Consistent(t, l) && l.todo != [] && i < 20 && LocalStep(l, t).1[i] != t[i]
    ensures Holds(l, SectionOf(i))
  {
  }

  /** A step reads only names in rows whose section the process holds: any other names there
      make no difference to what it does next, prints or writes. */
  lemma ReadsUnderLock(t: seq<Table>, t2: seq<Table>, l: Process, i: nat)
    requires Consistent(t, l) && Consistent(t2, l) && l.todo != [] && AgreeFor(t, t2, l) && i < 20
    ensures LocalStep(l, t).0 == LocalStep(l, t2).0
    ensures LocalStep(l, t).1[i] == t[i] <==> LocalStep(l, t2).1[i] == t2[i]
    ensures LocalStep(l, t).1[i] != t[i] ==> LocalStep(l, t).1[i] == LocalStep(l, t2).1[i]
  {
  }

  // ----- The invariant -----

  lemma StartInv(memory: seq<Table>, programs: seq<seq<Command>>)
    requires |memory| == 20
    requires forall p, k :: 0 <= p < |programs| && 0 <= k < |programs[p]| ==> Legal(programs[p][k])
    ensures Inv(Start(memory, programs))
  {
  }

  /** What a process knows stays true while others leave its rows alone. */
  lemma KnowledgeIsStable(t: seq<Table>, t': seq<Table>, l: Process)
    requires Consistent(t, l) && AgreeFor(t, t', l) && (Numbered(t) ==> Numbered(t'))
    ensures Consistent(t', l)
  {
    if l.pc.Loop? || l.pc.Claim? {
      var cmd := l.todo[0];
      if NeedsBoth(cmd) {
        assert t' == t;
      } else {
        assert forall j: nat :: j < 20 && InSection(cmd.section, NumberOf(j)) ==> t'[j] == t[j];
        assert forall j: nat :: j < 20 && IsFree(t', cmd.section, j) ==> IsFree(t, cmd.section, j);
      }
    }
  }

  lemma IterateConsistent(t: seq<Table>, l: Process)
    requires Consistent(t, l) && l.pc.Loop?
    ensures Consistent(LocalStep(l, t).1, LocalStep(l, t).0)
    ensures Numbered(t) ==> Numbered(LocalStep(l, t).1)
  {
  }

  /** A step keeps what the process knows true. */
  lemma StepConsistent(t: seq<Table>, l: Process)
    requires Consistent(t, l) && l.todo != []
    ensures Consistent(LocalStep(l, t).1, LocalStep(l, t).0)
    ensures Numbered(t) ==> Numbered(LocalStep(l, t).1)
  {
    if l.pc.Loop? {
      IterateConsistent(t, l);
    }
  }

  lemma StepInv(w: World, p: nat)
    requires Inv(w) && Enabled(w, p)
    ensures Inv(Step(w, p))
  {
    var l, w' := w.procs[p], Step(w, p);
    StepConsistent(w.tables, l);
    forall q | 0 <= q < |w.procs|
      ensures Consistent(w'.tables, w'.procs[q])
    {
      if q != p {
        OthersAgree(w, p, q);
        KnowledgeIsStable(w.tables, w'.tables, w.procs[q]);
      }
    }
    StepExclusive(w, p, 'A');
    StepExclusive(w, p, 'B');
  }

  /** Two processes never hold the same semaphore. */
  lemma HoldersDiffer(w: World, p: nat, q: nat, section: char)
    requires Inv(w) && IsSection(section) && p < |w.procs| && q < |w.procs| && p != q
    ensures !(Holds(w.procs[p], section) && Holds(w.procs[q], section))
  {
    var hs := Holding(w, section);
    assert hs[p] == Holds(w.procs[p], section) && hs[q] == Holds(w.procs[q], section);
  }

  /** A step leaves the rows that other processes hold as they were. */
  lemma OthersAgree(w: World, p: nat, q: nat)
    requires Inv(w) && Enabled(w, p) && q < |w.procs| && q != p
    ensures AgreeFor(w.tables, Step(w, p).tables, w.procs[q])
  {
    forall i | 0 <= i < 20 && Holds(w.procs[q], SectionOf(i))
      ensures w.tables[i] == Step(w, p).tables[i]
    {
      HoldersDiffer(w, p, q, SectionOf(i));
      if LocalStep(w.procs[p], w.tables).1[i] != w.tables[i] {
        WritesUnderLock(w.tables, w.procs[p], i);
      }
    }
  }

  /** The invariant holds in every reachable state. */
  lemma {:induction false} RunInv(w: World, s: seq<nat>)
    requires Inv(w) && Schedule(w, s)
    ensures Inv(After(w, s))
  {
    if s == [] {
    } else {
      RunInv(w, s[..|s| - 1]);
      StepInv(After(w, s[..|s| - 1]), s[|s| - 1]);
    }
  }

  // ----- No deadlock -----

  /** A process that holds B runs on, and so does one that holds A unless it waits for B. */
  lemma HolderRuns(w: World, p: nat, section: char)
    requires Inv(w) && p < |w.procs| && Holds(w.procs[p], section) && IsSection(section)
    requires section == 'A' && w.procs[p].pc.HoldsA? ==> w.mutexB > 0
    ensures Enabled(w, p)
  {
  }

  /** In every reachable state with an unfinished process some process can step. */
  lemma NoDeadlock(w: World) returns (p: nat)
    requires Inv(w) && !Finished(w)
    ensures Enabled(w, p)
  {
    if w.mutexB == 0 {
      p :| OnlyHolder(Holding(w, 'B'), p);
      HolderRuns(w, p, 'B');
    } else if w.mutexA == 0 {
      p :| OnlyHolder(Holding(w, 'A'), p);
      HolderRuns(w, p, 'A');
    } else {
      p :| p < |w.procs| && w.procs[p].todo != [];
    }
  }

  // ----- Termination -----

  /** More than the steps that a process still has to take. */
  function Work(l: Process): nat
    requires TypedProcess(l)
  {
    50 * |l.todo| - match l.pc
                    case Idle => 0
                    case HoldsA => 1
                    case Loop(i, _) => 2 + 2 * i
                    case Claim(i, _) => 3 + 2 * i
                    case Leave(_) => 43
                    case PostB(_) => 44
  }

  function TotalWork(procs: seq<Process>): nat
    requires forall p :: 0 <= p < |procs| ==> TypedProcess(procs[p])
  {
    if procs == [] then 0 else TotalWork(procs[..|procs| - 1]) + Work(procs[|procs| - 1])
  }

  lemma {:induction false} LessWork(procs: seq<Process>, p: nat, l: Process)
    requires forall q :: 0 <= q < |procs| ==> TypedProcess(procs[q])
    requires p < |procs| && TypedProcess(l) && Work(l) < Work(procs[p])
    ensures TotalWork(procs[p := l]) < TotalWork(procs)
  {
    var n, procs' := |procs| - 1, procs[p := l];
    if p == n {
      assert procs'[..n] == procs[..n];
    } else {
      assert procs'[..n] == procs[..n][p := l];
      LessWork(procs[..n], p, l);
    }
  }

  lemma StepWorks(w: World, p: nat)
    requires Typed(w) && Enabled(w, p)
    ensures TotalWork(Step(w, p).procs) < TotalWork(w.procs)
  {
    LessWork(w.procs, p, Step(w, p).procs[p]);
  }

  /** No run is longer than the work at its start. */
  lemma {:induction false} RunsAreBounded(w: World, s: seq<nat>)
    requires Typed(w) && Schedule(w, s)
    ensures |s| + TotalWork(After(w, s).procs) <= TotalWork(w.procs)
  {
    if s == [] {
    } else {
      RunsAreBounded(w, s[..|s| - 1]);
      StepWorks(After(w, s[..|s| - 1]), s[|s| - 1]);
    }
  }

  /** Every run can be continued until all processes have finished. */
  lemma {:induction false} RunsFinish(w: World, s: seq<nat>) returns (more: seq<nat>)
    requires Inv(w) && Schedule(w, s)
    ensures s <= more && Schedule(w, more) && Finished(After(w, more))
    decreases TotalWork(After(w, s).procs)
  {
    more := s;
    var now := After(w, s);
    if !Finished(now) {
      RunInv(w, s);
      var p := NoDeadlock(now);
      assert (s + [p])[..|s|] == s;
      StepWorks(now, p);
      more := RunsFinish(w, s + [p]);
    }
  }

  // ----- No overbooking -----

  predicate InInit(l: Process)
  {
    l.pc.Loop? && l.todo != [] && l.todo[0].Init?
  }

  /** Outside `init` a taken table is left alone, and a table that changes gets a name that is not a free one's. */
  lemma StepKeepsBookings(w: World, p: nat, i: nat)
    requires Inv(w) && Enabled(w, p) && !InInit(w.procs[p]) && i < 20
    ensures w.tables[i].name != EMPTY ==> Step(w, p).tables[i] == w.tables[i]
    ensures Step(w, p).tables[i] != w.tables[i] ==> Step(w, p).tables[i].name != EMPTY
  {
  }

  /** No step of the run is part of an `init` loop. */
  predicate WithoutInit(w: World, s: seq<nat>)
    requires Typed(w) && Schedule(w, s)
  {
    s == [] ||
    (WithoutInit(w, s[..|s| - 1]) && !InInit(After(w, s[..|s| - 1]).procs[s[|s| - 1]]))
  }

  lemma {:induction false} RunKeepsBookings(w: World, s: seq<nat>, i: nat)
    requires Inv(w) && Schedule(w, s) && WithoutInit(w, s) && i < 20 && w.tables[i].name != EMPTY
    ensures After(w, s).tables[i] == w.tables[i]
  {
    if s == [] {
    } else {
      RunKeepsBookings(w, s[..|s| - 1], i);
      RunInv(w, s[..|s| - 1]);
      StepKeepsBookings(After(w, s[..|s| - 1]), s[|s| - 1], i);
    }
  }

  /** Two reservations with no `init` between them never take the same table. */
  lemma BookingsDiffer(w: World, p: nat, s: seq<nat>, q: nat)
    requires Inv(w) && Enabled(w, p) && w.procs[p].pc.Claim?
    requires Schedule(Step(w, p), s) && WithoutInit(Step(w, p), s)
    requires q < |w.procs| && After(Step(w, p), s).procs[q].pc.Claim?
    ensures After(Step(w, p), s).procs[q].pc.i != w.procs[p].pc.i
  {
    var w1, i := Step(w, p), w.procs[p].pc.i;
    StepInv(w, p);
    RunInv(w1, s);
    assert w1.tables[i].name != EMPTY;
    RunKeepsBookings(w1, s, i);
  }

  // ----- The commands of a process -----

  /** How far a process given the commands `q` has come: it has completed the first ones in
      order, and the rest is to do unless the last one was `exit`. */
  ghost predicate Follows(l: Process, q: seq<Command>)
  {
    && |l.log| <= |q| && (forall k :: 0 <= k < |l.log| ==> l.log[k].cmd == q[k])
    && (forall k :: 0 <= k < |l.log| - 1 ==> !q[k].Exit?)
    && l.todo == if l.log != [] && q[|l.log| - 1].Exit? then [] else q[|l.log|..]
  }

  lemma StepFollows(l: Process, t: seq<Table>, q: seq<Command>)
    requires TypedProcess(l) && l.todo != [] && |t| == 20 && Follows(l, q)
    ensures Follows(LocalStep(l, t).0, q)
  {
  }

  lemma {:induction false} RunFollows(memory: seq<Table>, programs: seq<seq<Command>>, s: seq<nat>, p: nat)
    requires |memory| == 20 && Schedule(Start(memory, programs), s) && p < |programs|
    ensures Follows(After(Start(memory, programs), s).procs[p], [Init] + programs[p])
  {
    var w, q := Start(memory, programs), [Init] + programs[p];
    if s == [] {
      assert q[0..] == q;
    } else {
      var now := After(w, s[..|s| - 1]);
      RunFollows(memory, programs, s[..|s| - 1], p);
      if s[|s| - 1] == p {
        StepFollows(now.procs[p], now.tables, q);
      }
    }
  }

  /** In every reachable state a process has completed, in order, the first of `init` and its
      own commands; when all have finished, every process has completed them all, or all up
      to its first `exit`. */
  lemma ProgramOrder(memory: seq<Table>, programs: seq<seq<Command>>, s: seq<nat>, p: nat)
    requires |memory| == 20 && Schedule(Start(memory, programs), s) && p < |programs|
    ensures
      var log, q := After(Start(memory, programs), s).procs[p].log, [Init] + programs[p];
      && |log| <= |q| && (forall k :: 0 <= k < |log| ==> log[k].cmd == q[k])
      && (forall k :: 0 <= k < |log| - 1 ==> !q[k].Exit?)
      && (Finished(After(Start(memory, programs), s)) ==>
            EndsAfter(q, |log|) && (|log| == |q| || (log != [] && q[|log| - 1].Exit?)))
  {
    RunFollows(memory, programs, s, p);
    var l, q := After(Start(memory, programs), s).procs[p], [Init] + programs[p];
    assert Finished(After(Start(memory, programs), s)) ==> l.todo == [];
    assert |q[|l.log|..]| == |q| - |l.log|;
  }
}
