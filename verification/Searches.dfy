/** The search for the functions around a pc as the program runs it, for as long as it takes, against the
    search that knows when it would never end. */
module Searches {
  import opened Words
  import opened Sections
  import opened Abbrevs
  import opened Dies
  import opened Walks
  import opened FunctionLookup

  /** `find_pc` as coded, given up after `fuel` calls and turns of its loop. */
  function RunFind(c: CompUnit, d: Entry, pc: word, fuel: nat): Option<Result<seq<Entry>>>
    requires IsRead(c.u, d)
    decreases fuel
  {
    if fuel == 0 then None
    else
      var below :=
        if d.abbrev.None? || !d.abbrev.value.children then Some(Ok([]))
        else
          match ReadDie(c.u, d.next)
          case Err(e) => Some(Err(e))
          case Ok(first) => RunAmong(c, first, pc, fuel - 1);
      if below.None? || below.value.Err? then below
      else Some(Ok(WithItself(c, d, pc, below.value.value)))
  }

  /** What is found below an entry, and the entry itself if it is a function around the pc. */
  function WithItself(c: CompUnit, d: Entry, pc: word, below: seq<Entry>): seq<Entry>
    requires IsRead(c.u, d)
  {
    below + if IsFunction(d) && (below != [] || PcCovered(c, d, pc) == Ok(true)) then [d] else []
  }

  /** Its loop over siblings. */
  function RunAmong(c: CompUnit, d: Entry, pc: word, fuel: nat): Option<Result<seq<Entry>>>
    requires IsRead(c.u, d)
    decreases fuel
  {
    if fuel == 0 then None
    else if d.abbrev.None? then Some(Ok([]))
    else
      var found := RunFind(c, d, pc, fuel - 1);
      if found.None? || found.value.Err? || found.value.value != [] then found
      else
        match Run(c.u, d, fuel - 1)
        case None => None
        case Some(Err(e)) => Some(Err(e))
        case Some(Ok(n)) => RunAmong(c, n, pc, fuel - 1)
  }

  lemma {:induction false} FindMoreFuel(c: CompUnit, d: Entry, pc: word, fuel: nat)
    requires IsRead(c.u, d)
    ensures RunFind(c, d, pc, fuel).Some? ==> RunFind(c, d, pc, fuel + 1) == RunFind(c, d, pc, fuel)
    ensures RunAmong(c, d, pc, fuel).Some? ==> RunAmong(c, d, pc, fuel + 1) == RunAmong(c, d, pc, fuel)
    decreases fuel
  {
    hide ReadDie, Run, WithItself;
    if fuel > 0 {
      if ReadDie(c.u, d.next).Ok? {
        ReadIsRead(c.u, d.next);
        FindMoreFuel(c, ReadDie(c.u, d.next).value, pc, fuel - 1);
      }
      FindMoreFuel(c, d, pc, fuel - 1);
      MoreFuel(c.u, d, fuel - 1);
      var n := Run(c.u, d, fuel - 1);
      if n.Some? && n.value.Ok? { FindMoreFuel(c, n.value.value, pc, fuel - 1); }
    }
  }

  lemma {:induction false} FindMuchFuel(c: CompUnit, d: Entry, pc: word, fuel: nat, more: nat)
    requires IsRead(c.u, d) && fuel <= more
    ensures RunFind(c, d, pc, fuel).Some? ==> RunFind(c, d, pc, more) == RunFind(c, d, pc, fuel)
    ensures RunAmong(c, d, pc, fuel).Some? ==> RunAmong(c, d, pc, more) == RunAmong(c, d, pc, fuel)
    decreases more
  {
    hide RunFind, RunAmong;
    if fuel < more {
      FindMuchFuel(c, d, pc, fuel, more - 1);
      FindMoreFuel(c, d, pc, more - 1);
    }
  }

  /** No search from an entry at one of the offsets comes to an end on that fuel. */
  predicate NoneFinds(c: CompUnit, pc: word, gone: set<nat>, fuel: nat) {
    forall x :: x in gone ==> ReadDie(c.u, x).Ok? && ReadDie(c.u, x).value.offset == x ==>
      RunFind(c, ReadDie(c.u, x).value, pc, fuel).None?
  }

  predicate NoneFindsAmong(c: CompUnit, pc: word, gone: set<nat>, fuel: nat) {
    forall x :: x in gone ==> ReadDie(c.u, x).Ok? && ReadDie(c.u, x).value.offset == x ==>
      RunAmong(c, ReadDie(c.u, x).value, pc, fuel).None?
  }

  lemma FindLessFuel(c: CompUnit, pc: word, open: set<nat>, seen: set<nat>, fuel: nat)
    requires fuel > 0
    ensures NoneFinds(c, pc, open, fuel) ==> NoneFinds(c, pc, open, fuel - 1)
    ensures NoneFindsAmong(c, pc, seen, fuel) ==> NoneFindsAmong(c, pc, seen, fuel - 1)
  {
    hide RunFind, RunAmong, ReadDie;
    forall x | x in open + seen && ReadDie(c.u, x).Ok? && ReadDie(c.u, x).value.offset == x
      ensures RunFind(c, ReadDie(c.u, x).value, pc, fuel - 1).Some? ==>
                RunFind(c, ReadDie(c.u, x).value, pc, fuel).Some?
      ensures RunAmong(c, ReadDie(c.u, x).value, pc, fuel - 1).Some? ==>
                RunAmong(c, ReadDie(c.u, x).value, pc, fuel).Some?
    {
      FindMoreFuel(c, ReadDie(c.u, x).value, pc, fuel - 1);
    }
  }

  lemma FindNotAmong(c: CompUnit, d: Entry, pc: word, gone: set<nat>, fuel: nat)
    requires IsRead(c.u, d)
    ensures NoneFinds(c, pc, gone, fuel) && RunFind(c, d, pc, fuel).Some? ==> d.offset !in gone
    ensures NoneFindsAmong(c, pc, gone, fuel) && RunAmong(c, d, pc, fuel).Some? ==> d.offset !in gone
  {
    hide ReadDie, RunFind, RunAmong;
  }

  lemma FindOneMore(c: CompUnit, d: Entry, pc: word, gone: set<nat>, fuel: nat)
    requires IsRead(c.u, d)
    ensures NoneFinds(c, pc, gone, fuel) && RunFind(c, d, pc, fuel).None? ==>
              NoneFinds(c, pc, gone + {d.offset}, fuel)
    ensures NoneFindsAmong(c, pc, gone, fuel) && RunAmong(c, d, pc, fuel).None? ==>
              NoneFindsAmong(c, pc, gone + {d.offset}, fuel)
  {
    hide ReadDie, RunFind, RunAmong;
  }

  lemma NothingSearched(c: CompUnit, pc: word, fuel: nat)
    ensures NoneFindsAmong(c, pc, {}, fuel) && NoneFinds(c, pc, {}, fuel)
  {}

  /** A search that ends never meets itself: on the least fuel that suffices, what it goes through ends on
      less, and what it is inside of does not. */
  lemma {:induction false} EndedIsFind(c: CompUnit, d: Entry, pc: word, open: set<nat>, fuel: nat)
    requires IsRead(c.u, d) && RunFind(c, d, pc, fuel).Some? && NoneFinds(c, pc, open, fuel)
    ensures FindIn(c, d, pc, open) == RunFind(c, d, pc, fuel).value
    decreases fuel, 0
  {
    hide ReadDie, FindAmong, RunAmong, NoneFinds, NoneFindsAmong, PcCovered;
    FindLessFuel(c, pc, open, {}, fuel);
    FindNotAmong(c, d, pc, open, fuel);
    if RunFind(c, d, pc, fuel - 1).Some? {
      FindMoreFuel(c, d, pc, fuel - 1);
      EndedIsFind(c, d, pc, open, fuel - 1);
    } else if d.abbrev.Some? && d.abbrev.value.children && ReadDie(c.u, d.next).Ok? {
      ReadIsRead(c.u, d.next);
      FindOneMore(c, d, pc, open, fuel - 1);
      NothingSearched(c, pc, fuel - 1);
      EndedIsAmong(c, ReadDie(c.u, d.next).value, pc, open + {d.offset}, {}, fuel - 1);
    }
  }

  lemma {:induction false} EndedIsAmong(c: CompUnit, d: Entry, pc: word, open: set<nat>, seen: set<nat>, fuel: nat)
    requires IsRead(c.u, d) && RunAmong(c, d, pc, fuel).Some?
    requires NoneFinds(c, pc, open, fuel) && NoneFindsAmong(c, pc, seen, fuel)
    ensures FindAmong(c, d, pc, open, seen) == RunAmong(c, d, pc, fuel).value
    decreases fuel, 1
  {
    hide ReadDie, Next, FindIn, RunFind, Run, NoneFinds, NoneFindsAmong;
    FindLessFuel(c, pc, open, seen, fuel);
    if RunAmong(c, d, pc, fuel - 1).Some? {
      FindMoreFuel(c, d, pc, fuel - 1);
      EndedIsAmong(c, d, pc, open, seen, fuel - 1);
    } else if d.abbrev.Some? {
      FindNotAmong(c, d, pc, seen, fuel);
      FindOneMore(c, d, pc, seen, fuel - 1);
      EndedIsFind(c, d, pc, open, fuel - 1);
      if FindIn(c, d, pc, open) == Ok([]) {
        EndsExactlyWhen(c.u, d);
        var n := Next(c.u, d);
        if n.Ok? { EndedIsAmong(c, n.value, pc, open, seen + {d.offset}, fuel - 1); }
      }
    }
  }

  /** And a search that meets nothing again is one that ends. */
  lemma {:induction false} FindEnds(c: CompUnit, d: Entry, pc: word, open: set<nat>) returns (fuel: nat)
    requires IsRead(c.u, d) && FindIn(c, d, pc, open) != Err(NoEnd)
    ensures RunFind(c, d, pc, fuel) == Some(FindIn(c, d, pc, open))
    decreases Left(c.u, open), 0
  {
    hide ReadDie, FindAmong, RunAmong, PcCovered, Left;
    fuel := 1;
    OneLess(c.u, open, d);
    if d.abbrev.Some? && d.abbrev.value.children && ReadDie(c.u, d.next).Ok? {
      var inner := AmongEnds(c, ReadDie(c.u, d.next).value, pc, open + {d.offset}, {});
      fuel := inner + 1;
    }
  }

  lemma {:induction false} AmongEnds(c: CompUnit, d: Entry, pc: word, open: set<nat>, seen: set<nat>)
    returns (fuel: nat)
    requires IsRead(c.u, d) && FindAmong(c, d, pc, open, seen) != Err(NoEnd)
    ensures RunAmong(c, d, pc, fuel) == Some(FindAmong(c, d, pc, open, seen))
    decreases Left(c.u, open), 1, Left(c.u, seen)
  {
    hide ReadDie, Next, FindIn, RunFind, Run, Left;
    fuel := 1;
    if d.abbrev.Some? {
      OneLess(c.u, seen, d);
      var one := FindEnds(c, d, pc, open);
      fuel := one + 1;
      if FindIn(c, d, pc, open) == Ok([]) {
        EndsExactlyWhen(c.u, d);
        var step: nat :| Run(c.u, d, step).Some?;
        var n, rest := Next(c.u, d), 0;
        if n.Ok? { rest := AmongEnds(c, n.value, pc, open, seen + {d.offset}); }
        var much := one + step + rest;
        fuel := much + 1;
        FindMuchFuel(c, d, pc, one, much);
        MuchFuel(c.u, d, step, much);
        if n.Ok? { FindMuchFuel(c, n.value, pc, rest, much); }
      }
    }
  }

  lemma {:induction false} FindErrors(c: CompUnit, d: Entry, pc: word, fuel: nat)
    requires IsRead(c.u, d)
    ensures RunFind(c, d, pc, fuel) != Some(Err(NoEnd)) && RunAmong(c, d, pc, fuel) != Some(Err(NoEnd))
    decreases fuel
  {
    hide ReadDie, Run, WithItself;
    if fuel > 0 {
      ReadErrors(c.u, d.next);
      if ReadDie(c.u, d.next).Ok? {
        ReadIsRead(c.u, d.next);
        FindErrors(c, ReadDie(c.u, d.next).value, pc, fuel - 1);
      }
      FindErrors(c, d, pc, fuel - 1);
      RunErrors(c.u, d, fuel - 1);
      var n := Run(c.u, d, fuel - 1);
      if n.Some? && n.value.Ok? { FindErrors(c, n.value.value, pc, fuel - 1); }
    }
  }

  /** On any bytes: the code's search comes to an end if and only if the search does not report that it has
      none, and then with the same functions. */
  lemma SearchEndsExactlyWhen(c: CompUnit, d: Entry, pc: word)
    requires IsRead(c.u, d)
    ensures (exists fuel :: RunFind(c, d, pc, fuel).Some?) <==> FindPc(c, d, pc) != Err(NoEnd)
    ensures forall fuel :: RunFind(c, d, pc, fuel).Some? ==> RunFind(c, d, pc, fuel).value == FindPc(c, d, pc)
  {
    hide RunFind, FindIn, ReadDie;
    forall fuel | RunFind(c, d, pc, fuel).Some?
      ensures RunFind(c, d, pc, fuel).value == FindPc(c, d, pc) && FindPc(c, d, pc) != Err(NoEnd)
    {
      NothingSearched(c, pc, fuel);
      EndedIsFind(c, d, pc, {}, fuel);
      FindErrors(c, d, pc, fuel);
    }
    if FindPc(c, d, pc) != Err(NoEnd) {
      var fuel := FindEnds(c, d, pc, {});
    }
  }
}
