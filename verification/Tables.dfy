/** The twenty shared tables and the commands on them (Reservation system/main.c:33-240),
    each command as one uninterrupted action. Protocol.dfy splits them into steps. */
module Tables {
  /** The ten bytes of `name[10]`. */
  type Name = s: string | |s| == 10 witness "empty     "

  /** What `initTables` writes and every reservation looks for. */
  const EMPTY: Name := "empty     "

  datatype Table = Table(num: int, name: Name)

  datatype Command =
    | Init
    | Status
    | ReserveSome(section: char, name: Name)
    | ReserveSpecific(section: char, tableNo: int, name: Name)
    | Exit
    | Other

  /** A line that a command prints. */
  datatype Output = Row(num: int, name: string) | CannotReserve | InvalidNumber | NoEmptyTable

  // ----- Names and commands -----

  /** What `strtok` with a blank yields. */
  predicate Token(s: string)
  {
    s != "" && forall k :: 0 <= k < |s| ==> s[k] != ' ' && s[k] != '\0'
  }

  /** The ten bytes copied from a token: it, its terminator, and what follows it in the buffer. */
  function TenBytes(token: string, after: string): Name
    requires |after| >= 10
  {
    (token + ['\0'] + after)[..10]
  }

  /** `%s`: the bytes before the first zero. */
  function Shown(name: string): (r: string)
    ensures r <= name && (r != name ==> name[|r|] == '\0') && forall k :: 0 <= k < |r| ==> r[k] != '\0'
  {
    if name == "" || name[0] == '\0' then ""
    else
      var rest := Shown(name[1..]);
      assert name[..1 + |rest|] == [name[0]] + rest;
      [name[0]] + rest
  }

  /** A name that was copied never looks like a free table. */
  lemma CopiedNameIsTaken(token: string, after: string)
    requires Token(token) && |after| >= 10
    ensures TenBytes(token, after) != EMPTY
  {
    var name := TenBytes(token, after);
    if |token| < 10 {
      assert name[|token|] == '\0';
    } else {
      assert name[5] == token[5];
    }
  }

  /** `status` shows the first ten characters of the name that was given. */
  lemma CopiedNameIsShown(token: string, after: string)
    requires Token(token) && |after| >= 10
    ensures Shown(TenBytes(token, after)) == if |token| < 10 then token else token[..10]
  {
    var name, r := TenBytes(token, after), Shown(TenBytes(token, after));
    forall k | 0 <= k < 10 && k < |token|
      ensures name[k] == token[k]
    {
    }
    if |token| < 10 {
      assert name[|token|] == '\0';
      assert |r| == |token|;
    }
  }

  /** `processCmd` chooses by first characters. `number` is the value of the fourth
      token, if there is one; a reservation has a name and a section. */
  function Dispatch(tokens: seq<string>, after: string, number: int): (cmd: Command)
    requires tokens != [] && |after| >= 10
    requires forall k :: 0 <= k < |tokens| ==> tokens[k] != "" && Token(tokens[k])
    requires tokens[0][0] == 'r' ==> |tokens| >= 3
    ensures Legal(cmd)
  {
    match tokens[0][0]
    case 'r' =>
      CopiedNameIsTaken(tokens[1], after);
      var name, section := TenBytes(tokens[1], after), tokens[2][0];
      if |tokens| > 3 then ReserveSpecific(section, number, name) else ReserveSome(section, name)
    case 's' => Status
    case 'i' => Init
    case 'e' => Exit
    case _ => Other
  }

  /** No command writes the name of a free table. */
  predicate Legal(cmd: Command)
  {
    cmd.ReserveSome? || cmd.ReserveSpecific? ==> cmd.name != EMPTY
  }

  // ----- Commands as atomic actions -----

  function NumberOf(i: nat): int
  {
    if i < 10 then 100 + i else 190 + i
  }

  function Fresh(): (t: seq<Table>)
    ensures Numbered(t)
  {
    seq(20, i requires 0 <= i < 20 => Table(NumberOf(i), EMPTY))
  }

  predicate Numbered(t: seq<Table>)
  {
    |t| == 20 && forall i :: 0 <= i < 20 ==> t[i].num == NumberOf(i)
  }

  predicate IsSection(section: char)
  {
    section == 'A' || section == 'B'
  }

  /** The test of `reserveSomeTable`. */
  predicate InSection(section: char, num: int)
  {
    if section == 'A' then num < 200 else num > 199
  }

  /** The test of `reserveSpecificTable`. */
  predicate ValidNumber(section: char, no: int)
  {
    if section == 'A' then 99 < no < 110 else 199 < no < 210
  }

  predicate IsFree(t: seq<Table>, section: char, i: nat)
    requires i < |t|
  {
    InSection(section, t[i].num) && t[i].name == EMPTY
  }

  /** The least free table of the section from row `i` on, or the number of rows. */
  function FirstFree(t: seq<Table>, section: char, i: nat): (r: nat)
    requires i <= |t|
    ensures i <= r <= |t| && (r < |t| ==> IsFree(t, section, r))
    ensures forall j :: i <= j < r ==> !IsFree(t, section, j)
    decreases |t| - i
  {
    if i == |t| || IsFree(t, section, i) then i else FirstFree(t, section, i + 1)
  }

  function Book(t: seq<Table>, i: nat, name: Name): (t': seq<Table>)
    requires i < |t|
    ensures |t'| == |t| && (Numbered(t) ==> Numbered(t'))
  {
    t[i := t[i].(name := name)]
  }

  /** The row that carries number `no`. */
  function RowOf(no: int): int
  {
    if no < 200 then no - 100 else no - 190
  }

  function Rows(t: seq<Table>): seq<Output>
  {
    seq(|t|, i requires 0 <= i < |t| => Row(t[i].num, Shown(t[i].name)))
  }

  /** The tables after a command, and the lines it prints. */
  function Atomic(t: seq<Table>, cmd: Command): (r: (seq<Table>, seq<Output>))
    requires |t| == 20
    ensures |r.0| == 20 && (Numbered(t) || cmd.Init? ==> Numbered(r.0))
  {
    match cmd
    case Init => (Fresh(), [])
    case Status => (t, Rows(t))
    case ReserveSome(section, name) =>
      if !IsSection(section) then (t, [])
      else
        var i := FirstFree(t, section, 0);
        if i < 20 then (Book(t, i, name), []) else (t, [NoEmptyTable])
    case ReserveSpecific(section, no, name) =>
      if !IsSection(section) then (t, [])
      else if !ValidNumber(section, no) then (t, [InvalidNumber])
      else if t[RowOf(no)].name == EMPTY then (Book(t, RowOf(no), name), [])
      else (t, [CannotReserve])
    case Exit => (t, [])
    case Other => (t, [])
  }

  /** A reservation that took a table prints nothing. */
  predicate Booked(cmd: Command, out: seq<Output>)
  {
    Reserves(cmd) && out == []
  }

  /** The rows of a section that are free. */
  ghost function FreeRows(t: seq<Table>, section: char): set<nat>
  {
    set i: nat | i < |t| && IsFree(t, section, i)
  }

  // ----- The same in plain terms -----

  /** Row i has number 100 + i in section A, and 200 and up in section B. */
  ghost predicate PlainNumbers(t: seq<Table>)
  {
    |t| == 20 && forall i :: 0 <= i < 20 ==> t[i].num == if i < 10 then 100 + i else 200 + (i - 10)
  }

  lemma NumberedIsPlain(t: seq<Table>)
    ensures Numbered(t) <==> PlainNumbers(t)
  {
  }

  /** Row `i` has got the name, and nothing else has changed. */
  ghost predicate StoresName(was: seq<Table>, now: seq<Table>, i: nat, name: string)
  {
    && |now| == |was| && i < |was| && now[i].num == was[i].num && now[i].name == name
    && forall j :: 0 <= j < |was| && j != i ==> now[j] == was[j]
  }

  /** `init` numbers all tables and marks them empty. */
  lemma InitIs(t: seq<Table>)
    requires |t| == 20
    ensures var (t', out) := Atomic(t, Init);
      out == [] && PlainNumbers(t') && forall i :: 0 <= i < 20 ==> t'[i].name == "empty     "
  {
  }

  /** `status` changes nothing and prints each table's number and name. */
  lemma StatusIs(t: seq<Table>)
    requires |t| == 20
    ensures var (t', out) := Atomic(t, Status);
      t' == t && |out| == 20 && forall i :: 0 <= i < 20 ==> out[i] == Row(t[i].num, Shown(t[i].name))
  {
  }

  lemma OthersDoNothing(t: seq<Table>)
    requires |t| == 20
    ensures Atomic(t, Exit) == (t, []) && Atomic(t, Other) == (t, [])
  {
  }

  /** Reserving any table gives the name to the first empty one of the section's ten rows;
      when none is empty it says so. In any other section nothing happens. */
  lemma ReserveSomeIs(t: seq<Table>, section: char, name: Name) returns (i: nat)
    requires PlainNumbers(t)
    ensures
      var (t', out) := Atomic(t, ReserveSome(section, name));
      var lo := if section == 'A' then 0 else 10;
      if section != 'A' && section != 'B' then t' == t && out == []
      else
        && lo <= i <= lo + 10 && (forall j :: lo <= j < i ==> t[j].name != "empty     ")
        && if i < lo + 10 then t[i].name == "empty     " && out == [] && StoresName(t, t', i, name)
           else t' == t && out == [NoEmptyTable]
  {
    var lo := if section == 'A' then 0 else 10;
    var r := FirstFree(t, section, 0);
    i := if r < lo + 10 then r else lo + 10;
    if IsSection(section) {
      forall j | lo <= j < i
        ensures t[j].name != "empty     "
      {
        assert !IsFree(t, section, j);
      }
      assert r < 20 ==> IsFree(t, section, r);
    }
  }

  /** Reserving a given table: a number outside 100-109 in section A, outside 200-209 in
      section B, is invalid; a taken table cannot be reserved; an empty one gets the name. */
  lemma ReserveSpecificIs(t: seq<Table>, section: char, no: int, name: Name) returns (i: nat)
    requires PlainNumbers(t)
    ensures
      var (t', out) := Atomic(t, ReserveSpecific(section, no, name));
      if section != 'A' && section != 'B' then t' == t && out == []
      else if !(if section == 'A' then 100 <= no <= 109 else 200 <= no <= 209) then t' == t && out == [InvalidNumber]
      else
        && i < 20 && t[i].num == no
        && if t[i].name == "empty     " then out == [] && StoresName(t, t', i, name)
           else t' == t && out == [CannotReserve]
  {
    i := if section == 'A' && 100 <= no <= 109 then no - 100
         else if section == 'B' && 200 <= no <= 209 then no - 200 + 10
         else 0;
  }

  /** A reservation that prints nothing has given its name to one empty table of its
      section: to the first one, or to the one with the number asked for. */
  lemma ReservationTakesOneFreeTable(t: seq<Table>, cmd: Command) returns (i: nat)
    requires Numbered(t) && Booked(cmd, Atomic(t, cmd).1)
    ensures i < 20 && t[i].name == "empty     " && (if cmd.section == 'A' then i < 10 else 10 <= i)
    ensures StoresName(t, Atomic(t, cmd).0, i, cmd.name)
    ensures cmd.ReserveSome? ==>
      forall j :: (if cmd.section == 'A' then 0 else 10) <= j < i ==> t[j].name != "empty     "
    ensures cmd.ReserveSpecific? ==> t[i].num == cmd.tableNo
  {
    NumberedIsPlain(t);
    if cmd.ReserveSome? {
      i := ReserveSomeIs(t, cmd.section, cmd.name);
    } else {
      i := ReserveSpecificIs(t, cmd.section, cmd.tableNo, cmd.name);
    }
  }

  /** A `status` right after a booking shows the first ten characters of the customer's
      token in the row booked, and all other rows as before. */
  lemma StatusAfterBooking(t: seq<Table>, cmd: Command, token: string, after: string) returns (i: nat)
    requires PlainNumbers(t) && Booked(cmd, Atomic(t, cmd).1)
    requires Token(token) && |after| >= 10 && cmd.name == TenBytes(token, after)
    ensures
      var out := Atomic(Atomic(t, cmd).0, Status).1;
      && i < 20 && t[i].name == "empty     " && |out| == 20
      && out[i] == Row(t[i].num, if |token| < 10 then token else token[..10])
      && forall j :: 0 <= j < 20 && j != i ==> out[j] == Row(t[j].num, Shown(t[j].name))
  {
    NumberedIsPlain(t);
    i := ReservationTakesOneFreeTable(t, cmd);
    StatusIs(Atomic(t, cmd).0);
    CopiedNameIsShown(token, after);
  }

  /** The command of a line by its first character, with the name and the section in their places. */
  lemma DispatchIs(tokens: seq<string>, after: string, number: int)
    requires tokens != [] && |after| >= 10 && forall k :: 0 <= k < |tokens| ==> tokens[k] != "" && Token(tokens[k])
    requires tokens[0][0] == 'r' ==> |tokens| >= 3
    ensures
      var cmd := Dispatch(tokens, after, number);
      && (tokens[0][0] == 's' ==> cmd == Status) && (tokens[0][0] == 'i' ==> cmd == Init)
      && (tokens[0][0] == 'e' ==> cmd == Exit)
      && (tokens[0][0] !in {'r', 's', 'i', 'e'} ==> cmd == Other)
      && (tokens[0][0] == 'r' ==>
            && (if |tokens| == 3 then cmd.ReserveSome? else cmd.ReserveSpecific? && cmd.tableNo == number)
            && cmd.section == tokens[2][0]
            && Shown(cmd.name) == if |tokens[1]| < 10 then tokens[1] else tokens[1][..10])
  {
    if tokens[0][0] == 'r' {
      CopiedNameIsShown(tokens[1], after);
    }
  }

  /** `reserveSomeTable` fails exactly when its section has no free table. */
  lemma ReserveSomeFails(t: seq<Table>, section: char, name: Name)
    requires Numbered(t) && IsSection(section)
    ensures Atomic(t, ReserveSome(section, name)).1 == [NoEmptyTable] <==> FreeRows(t, section) == {}
  {
    var i := FirstFree(t, section, 0);
    if i < 20 {
      assert i in FreeRows(t, section);
    }
  }

  /** `reserveSpecificTable` books exactly when the number is one of its section's and that table is free. */
  lemma ReserveSpecificBooks(t: seq<Table>, section: char, no: int, name: Name)
    requires Numbered(t) && IsSection(section)
    ensures Atomic(t, ReserveSpecific(section, no, name)).1 == [] <==>
      exists i: nat :: i in FreeRows(t, section) && t[i].num == no
  {
    if ValidNumber(section, no) && t[RowOf(no)].name == EMPTY {
      assert RowOf(no) in FreeRows(t, section);
    }
  }

  // ----- The commands of a process -----

  /** A process given the commands `cmds` ends after `n` of them: after the first `exit`,
      or after all when there is none. */
  ghost predicate EndsAfter(cmds: seq<Command>, n: nat)
  {
    && n <= |cmds| && (forall k :: 0 <= k < n - 1 ==> !cmds[k].Exit?)
    && (n < |cmds| ==> n > 0 && cmds[n - 1].Exit?)
  }

  /** Commands one after the other: the tables, and what each prints. */
  function RunAll(t: seq<Table>, cmds: seq<Command>): (r: (seq<Table>, seq<seq<Output>>))
    requires |t| == 20
    ensures |r.0| == 20 && |r.1| == |cmds|
  {
    if cmds == [] then (t, [])
    else
      var (t1, outs) := RunAll(t, cmds[..|cmds| - 1]);
      var (t2, out) := Atomic(t1, cmds[|cmds| - 1]);
      (t2, outs + [out])
  }

  // ----- Semaphores -----

  /** What a step does to a semaphore. */
  datatype Sync = Nothing | Wait(section: char) | Post(section: char)

  predicate NeedsBoth(cmd: Command)
  {
    cmd.Init? || cmd.Status?
  }

  predicate Reserves(cmd: Command)
  {
    (cmd.ReserveSome? || cmd.ReserveSpecific?) && IsSection(cmd.section)
  }

  /** The waits and posts of a command, in order: `init` and `status` take A, then B,
      and give them back in the same order. */
  function Locking(cmd: Command): seq<Sync>
  {
    if NeedsBoth(cmd) then [Wait('A'), Wait('B'), Post('A'), Post('B')]
    else if Reserves(cmd) then [Wait(cmd.section), Post(cmd.section)]
    else []
  }

  // ----- The commands as written -----

  /** The shared memory and its two semaphores, with no other process at work. */
  class Restaurant {
    const base: array<Table>
    var mutexA: nat
    var mutexB: nat
    ghost var trace: seq<Sync>  // every wait and post so far

    predicate Unlocked()
      reads this
    {
      mutexA == 1 && mutexB == 1 && base.Length == 20
    }

    /** Attach to shared memory with any content and initialise it. */
    constructor (memory: seq<Table>)
      requires |memory| == 20
      ensures Unlocked() && fresh(base) && base[..] == Fresh()
    {
      base := new Table[20](i requires 0 <= i < 20 => memory[i]);
      mutexA, mutexB, trace := 1, 1, [];
      new;
      InitTables();
    }

    method SemWait(section: char)
      requires IsSection(section) && (if section == 'A' then mutexA else mutexB) > 0
      modifies this
      ensures trace == old(trace) + [Wait(section)]
      ensures mutexA == old(mutexA) - (if section == 'A' then 1 else 0)
      ensures mutexB == old(mutexB) - (if section == 'B' then 1 else 0)
    {
      if section == 'A' {
        mutexA := mutexA - 1;
      } else {
        mutexB := mutexB - 1;
      }
      trace := trace + [Wait(section)];
    }

    method SemPost(section: char)
      requires IsSection(section)
      modifies this
      ensures trace == old(trace) + [Post(section)]
      ensures mutexA == old(mutexA) + (if section == 'A' then 1 else 0)
      ensures mutexB == old(mutexB) + (if section == 'B' then 1 else 0)
    {
      if section == 'A' {
        mutexA := mutexA + 1;
      } else {
        mutexB := mutexB + 1;
      }
      trace := trace + [Post(section)];
    }

    method InitTables()
      requires Unlocked()
      modifies this, base
      ensures Unlocked() && base[..] == Atomic(old(base[..]), Init).0
      ensures PlainNumbers(base[..]) && forall i :: 0 <= i < 20 ==> base[i].name == "empty     "
      ensures trace == old(trace) + Locking(Init) == old(trace) + [Wait('A'), Wait('B'), Post('A'), Post('B')]
    {
      SemWait('A');
      SemWait('B');
      for i := 0 to 20
        invariant mutexA == 0 && mutexB == 0 && trace == old(trace) + [Wait('A')] + [Wait('B')]
        invariant forall j :: 0 <= j < i ==> base[j] == Fresh()[j]
      {
        base[i] := base[i].(name := EMPTY);
        if i < 10 {
          base[i] := base[i].(num := 100 + i);
        } else {
          base[i] := base[i].(num := 190 + i);
        }
      }
      SemPost('A');
      SemPost('B');
    }

    method PrintTableInfo() returns (out: seq<Output>)
      requires Unlocked()
      modifies this
      ensures Unlocked() && out == Atomic(base[..], Status).1
      ensures |out| == 20 && forall i :: 0 <= i < 20 ==> out[i] == Row(base[i].num, Shown(base[i].name))
      ensures trace == old(trace) + Locking(Status) == old(trace) + [Wait('A'), Wait('B'), Post('A'), Post('B')]
    {
      SemWait('A');
      SemWait('B');
      out := [];
      for i := 0 to 20
        invariant out == Rows(base[..])[..i]
      {
        out := out + [Row(base[i].num, Shown(base[i].name))];
      }
      SemPost('A');
      SemPost('B');
    }

    method ReserveSpecificTable(name: Name, section: char, tableNo: int) returns (out: seq<Output>)
      requires Unlocked() && Numbered(base[..])
      modifies this, base
      ensures Unlocked() && (base[..], out) == Atomic(old(base[..]), ReserveSpecific(section, tableNo, name))
      ensures trace == old(trace) + Locking(ReserveSpecific(section, tableNo, name))
      ensures IsSection(section) ==> trace == old(trace) + [Wait(section), Post(section)]
    {
      out := [];
      if section == 'A' {
        SemWait('A');
        out := ScanForNumber(name, section, tableNo);
        SemPost('A');
      } else if section == 'B' {
        SemWait('B');
        out := ScanForNumber(name, section, tableNo);
        SemPost('B');
      }
    }

    /** The body of either case: the loop goes on after a match. */
    method ScanForNumber(name: Name, section: char, tableNo: int) returns (out: seq<Output>)
      requires Numbered(base[..]) && IsSection(section)
      modifies base
      ensures (base[..], out) == Atomic(old(base[..]), ReserveSpecific(section, tableNo, name))
      ensures if out == [] then exists i: nat ::
                i < 20 && old(base[..])[i].name == "empty     " && old(base[..])[i].num == tableNo &&
                StoresName(old(base[..]), base[..], i, name)
              else base[..] == old(base[..])
    {
      ghost var target := Atomic(base[..], ReserveSpecific(section, tableNo, name));
      out := [];
      if ValidNumber(section, tableNo) {
        for i := 0 to 20
          invariant Numbered(base[..])
          invariant base[..] == if i <= RowOf(tableNo) then old(base[..]) else target.0
          invariant out == if i <= RowOf(tableNo) then [] else target.1
        {
          assert base[..][i].num == NumberOf(i);
          if base[i].num == tableNo {
            if base[i].name == EMPTY {
              base[i] := base[i].(name := name);
            } else {
              out := out + [CannotReserve];
            }
          }
        }
      } else {
        out := [InvalidNumber];
      }
    }

    method ReserveSomeTable(name: Name, section: char) returns (out: seq<Output>)
      requires Unlocked()
      modifies this, base
      ensures Unlocked() && (base[..], out) == Atomic(old(base[..]), ReserveSome(section, name))
      ensures trace == old(trace) + Locking(ReserveSome(section, name))
      ensures IsSection(section) ==> trace == old(trace) + [Wait(section), Post(section)]
    {
      out := [];
      if section == 'A' {
        SemWait('A');
        out := ScanForFree(name, section);
        SemPost('A');
      } else if section == 'B' {
        SemWait('B');
        out := ScanForFree(name, section);
        SemPost('B');
      }
    }

    /** The body of either case: the loop stops at the first free table. */
    method ScanForFree(name: Name, section: char) returns (out: seq<Output>)
      requires base.Length == 20 && IsSection(section)
      modifies base
      ensures (base[..], out) == Atomic(old(base[..]), ReserveSome(section, name))
      ensures if out == [] then exists i: nat ::
                i < 20 && old(base[..])[i].name == "empty     " && StoresName(old(base[..]), base[..], i, name)
              else base[..] == old(base[..])
    {
      var fail := true;
      out := [];
      for i := 0 to 20
        invariant fail && base[..] == old(base[..])
        invariant forall j: nat :: j < i ==> !IsFree(base[..], section, j)
      {
        if InSection(section, base[i].num) {
          if base[i].name == EMPTY {
            assert IsFree(base[..], section, i) && FirstFree(base[..], section, 0) == i;
            base[i] := base[i].(name := name);
            fail := false;
            break;
          }
        }
      }
      if fail {
        out := [NoEmptyTable];
      }
    }

    /** One round of the main loop; the answer 0 ends the process. */
    method ProcessCmd(cmd: Command) returns (ret: int, out: seq<Output>)
      requires Unlocked() && Numbered(base[..])
      modifies this, base
      ensures Unlocked() && Numbered(base[..]) && (base[..], out) == Atomic(old(base[..]), cmd)
      ensures trace == old(trace) + Locking(cmd)
      ensures ret == if cmd.Exit? then 0 else 1
    {
      ret, out := 1, [];
      match cmd
      case ReserveSpecific(section, no, name) => out := ReserveSpecificTable(name, section, no);
      case ReserveSome(section, name) => out := ReserveSomeTable(name, section);
      case Status => out := PrintTableInfo();
      case Init => InitTables();
      case Exit => ret := 0;
      case Other =>
    }

    /** The main loop: command by command until one answers 0, or there are no more. */
    method RunProcess(cmds: seq<Command>) returns (n: nat, outs: seq<seq<Output>>)
      requires Unlocked() && Numbered(base[..])
      modifies this, base
      ensures Unlocked() && Numbered(base[..])
      ensures EndsAfter(cmds, n) && (base[..], outs) == RunAll(old(base[..]), cmds[..n])
    {
      var ret := 1;
      n, outs := 0, [];
      while ret != 0 && n < |cmds|
        invariant Unlocked() && Numbered(base[..]) && n <= |cmds| && (ret == 0 <==> n > 0 && cmds[n - 1].Exit?)
        invariant forall k :: 0 <= k < n - 1 ==> !cmds[k].Exit?
        invariant (base[..], outs) == RunAll(old(base[..]), cmds[..n])
        decreases |cmds| - n
      {
        var out;
        ret, out := ProcessCmd(cmds[n]);
        assert cmds[..n + 1][..n] == cmds[..n];
        n, outs := n + 1, outs + [out];
      }
    }
  }
}
