/** Counting: the free tables of a section and the bookings since the last `init` make ten. */
module Bookings {
  import opened Tables
  import opened Protocol
  import opened Safety
  import opened Linearisation

  lemma FreshRows(section: char)
    requires IsSection(section)
    ensures |FreeRows(Fresh(), section)| == 10
  {
    var rows: set<nat> :=
      if section == 'A' then {0, 1, 2, 3, 4, 5, 6, 7, 8, 9} else {10, 11, 12, 13, 14, 15, 16, 17, 18, 19};
    assert |rows| == 10;
    assert FreeRows(Fresh(), section) == rows;
  }

  lemma BookFreeRows(t: seq<Table>, i: nat, name: Name, section: char)
    requires Numbered(t) && i < 20 && name != EMPTY && t[i].name == EMPTY
    ensures |FreeRows(Book(t, i, name), section)| ==
      |FreeRows(t, section)| - if InSection(section, t[i].num) then 1 else 0
  {
    assert FreeRows(Book(t, i, name), section) == FreeRows(t, section) - {i};
    assert i in FreeRows(t, section) <==> InSection(section, t[i].num);
  }

  /** A booking takes one table from its own section, `init` frees all ten, nothing else changes the count. */
  lemma CommandCounts(t: seq<Table>, cmd: Command, section: char)
    requires Numbered(t) && Legal(cmd) && IsSection(section)
    ensures
      var (t', out) := Atomic(t, cmd);
      |FreeRows(t', section)| ==
        if cmd.Init? then 10
        else |FreeRows(t, section)| - if Booked(cmd, out) && cmd.section == section then 1 else 0
  {
    if cmd.Init? {
      FreshRows(section);
    } else if Booked(cmd, Atomic(t, cmd).1) {
      var i := ReservationTakesOneFreeTable(t, cmd);
      assert Atomic(t, cmd).0 == Book(t, i, cmd.name);
      BookFreeRows(t, i, cmd.name, section);
    }
  }

  /** Successful reservations in the section since the last `init`. */
  function BookedSince(a: Serial, order: seq<nat>, section: char): nat
    requires |a.tables| == 20 && SerialRun(a, order)
  {
    if order == [] then 0
    else
      var before, p := order[..|order| - 1], order[|order| - 1];
      var b := SerialAfter(a, before);
      var cmd := b.plans[p].todo[0];
      var booked := Booked(cmd, Atomic(b.tables, cmd).1) && cmd.section == section;
      if cmd.Init? then 0
      else if booked then BookedSince(a, before, section) + 1
      else BookedSince(a, before, section)
  }

  predicate LegalPlans(a: Serial)
  {
    forall p, k :: 0 <= p < |a.plans| && 0 <= k < |a.plans[p].todo| ==> Legal(a.plans[p].todo[k])
  }

  lemma {:induction false} SerialKeepsLegal(a: Serial, order: seq<nat>)
    requires |a.tables| == 20 && SerialRun(a, order) && LegalPlans(a)
    ensures LegalPlans(SerialAfter(a, order))
  {
    if order == [] {
    } else {
      SerialKeepsLegal(a, order[..|order| - 1]);
    }
  }

  lemma {:induction false} SerialCounts(a: Serial, order: seq<nat>, section: char)
    requires |a.tables| == 20 && SerialRun(a, order) && LegalPlans(a) && IsSection(section)
    requires order != [] && order[0] < |a.plans| && a.plans[order[0]].todo != [] && a.plans[order[0]].todo[0].Init?
    ensures Numbered(SerialAfter(a, order).tables)
    ensures |FreeRows(SerialAfter(a, order).tables, section)| + BookedSince(a, order, section) == 10
  {
    var before, p := order[..|order| - 1], order[|order| - 1];
    var b := SerialAfter(a, before);
    if before == [] {
      FreshRows(section);
    } else {
      SerialCounts(a, before, section);
      SerialKeepsLegal(a, before);
      CommandCounts(b.tables, b.plans[p].todo[0], section);
    }
  }

  /** In every reachable state outside an `init` loop: free tables of a section, and
      reservations in it that have taken effect since the last `init`, make ten. */
  lemma RunCounts(memory: seq<Table>, programs: seq<seq<Command>>, s: seq<nat>, section: char)
    requires |memory| == 20 && LegalPrograms(programs) && IsSection(section)
    requires
      var w := Start(memory, programs);
      Schedule(w, s) && Order(w, s) != [] && !SomeInInit(After(w, s).procs)
    ensures
      var w := Start(memory, programs);
      SerialRun(Abs(w), Order(w, s)) &&
      |FreeRows(After(w, s).tables, section)| + BookedSince(Abs(w), Order(w, s), section) == 10
  {
    var w := Start(memory, programs);
    StartInv(memory, programs);
    Linearises(w, s);
    FirstCommand(Abs(w), Order(w, s));
    SerialCounts(Abs(w), Order(w, s), section);
  }

  lemma {:induction false} FirstCommand(a: Serial, order: seq<nat>)
    requires |a.tables| == 20 && SerialRun(a, order) && order != []
    ensures CanRun(a, order[0])
  {
    if |order| > 1 {
      FirstCommand(a, order[..|order| - 1]);
    } else {
      assert order[..0] == [];
    }
  }
}
