/** The sibling walk as the program runs it, for as long as it takes, against the walk that knows when it
    would never end. */
module Walks {
  import opened Words
  import opened Sections
  import opened Abbrevs
  import opened Dies

  /** `++` as coded, given up after `fuel` calls and turns of a loop. */
  function Run(u: Unit, d: Entry, fuel: nat): (r: Option<Result<Entry>>)
    requires IsRead(u, d)
    ensures r.Some? && r.value.Ok? ==> IsRead(u, r.value.value)
    decreases fuel
  {
    if fuel == 0 then None
    else if d.abbrev.None? then Some(Ok(d))
    else if !d.abbrev.value.children then Some(ReadDie(u, d.next))
    else if Has(d, AT_SIBLING) then
      match SiblingTarget(u, d)
      case Err(e) => Some(Err(e))
      case Ok(off) => Some(ReadDie(u, off))
    else
      match ReadDie(u, d.next)
      case Err(e) => Some(Err(e))
      case Ok(first) =>
        match RunTo(u, first, fuel - 1)
        case None => None
        case Some(Err(e)) => Some(Err(e))
        case Some(Ok(last)) => Some(ReadDie(u, last.next))
  }

  /** The loop to the terminator. */
  function RunTo(u: Unit, d: Entry, fuel: nat): (r: Option<Result<Entry>>)
    requires IsRead(u, d)
    ensures r.Some? && r.value.Ok? ==> IsRead(u, r.value.value)
    decreases fuel
  {
    if fuel == 0 then None
    else if d.abbrev.None? then Some(Ok(d))
    else
      match Run(u, d, fuel - 1)
      case None => None
      case Some(Err(e)) => Some(Err(e))
      case Some(Ok(n)) => RunTo(u, n, fuel - 1)
  }

  lemma {:induction false} MoreFuel(u: Unit, d: Entry, fuel: nat)
    requires IsRead(u, d)
    ensures Run(u, d, fuel).Some? ==> Run(u, d, fuel + 1) == Run(u, d, fuel)
    ensures RunTo(u, d, fuel).Some? ==> RunTo(u, d, fuel + 1) == RunTo(u, d, fuel)
    decreases fuel
  {
    hide ReadDie, SiblingTarget, Has;
    if fuel > 0 {
      if ReadDie(u, d.next).Ok? {
        ReadIsRead(u, d.next);
        MoreFuel(u, ReadDie(u, d.next).value, fuel - 1);
      }
      MoreFuel(u, d, fuel - 1);
      if Run(u, d, fuel - 1).Some? && Run(u, d, fuel - 1).value.Ok? {
        MoreFuel(u, Run(u, d, fuel - 1).value.value, fuel - 1);
      }
    }
  }

  lemma {:induction false} MuchFuel(u: Unit, d: Entry, fuel: nat, more: nat)
    requires IsRead(u, d) && fuel <= more
    ensures Run(u, d, fuel).Some? ==> Run(u, d, more) == Run(u, d, fuel)
    ensures RunTo(u, d, fuel).Some? ==> RunTo(u, d, more) == RunTo(u, d, fuel)
    decreases more
  {
    hide Run, RunTo;
    if fuel < more {
      MuchFuel(u, d, fuel, more - 1);
      MoreFuel(u, d, more - 1);
    }
  }

  /** No `++` on an entry at one of the offsets comes to an end on that fuel. */
  predicate NoneRuns(u: Unit, gone: set<nat>, fuel: nat) {
    forall x :: x in gone ==> ReadDie(u, x).Ok? && ReadDie(u, x).value.offset == x ==>
      Run(u, ReadDie(u, x).value, fuel).None?
  }

  predicate NoneRunsTo(u: Unit, gone: set<nat>, fuel: nat) {
    forall x :: x in gone ==> ReadDie(u, x).Ok? && ReadDie(u, x).value.offset == x ==>
      RunTo(u, ReadDie(u, x).value, fuel).None?
  }

  lemma LessFuel(u: Unit, open: set<nat>, seen: set<nat>, fuel: nat)
    requires fuel > 0
    ensures NoneRuns(u, open, fuel) ==> NoneRuns(u, open, fuel - 1)
    ensures NoneRunsTo(u, seen, fuel) ==> NoneRunsTo(u, seen, fuel - 1)
  {
    hide Run, RunTo, ReadDie;
    forall x | x in open + seen && ReadDie(u, x).Ok? && ReadDie(u, x).value.offset == x
      ensures Run(u, ReadDie(u, x).value, fuel - 1).Some? ==> Run(u, ReadDie(u, x).value, fuel).Some?
      ensures RunTo(u, ReadDie(u, x).value, fuel - 1).Some? ==> RunTo(u, ReadDie(u, x).value, fuel).Some?
    {
      MoreFuel(u, ReadDie(u, x).value, fuel - 1);
    }
  }

  /** A run that ends never meets itself: on the least fuel that suffices, what it goes through ends on
      less, and what it is inside of does not. */
  lemma {:induction false} EndedIsNext(u: Unit, d: Entry, open: set<nat>, fuel: nat)
    requires IsRead(u, d) && Run(u, d, fuel).Some? && NoneRuns(u, open, fuel)
    ensures NextIn(u, d, open) == Run(u, d, fuel).value
    decreases fuel, 0
  {
    hide ReadDie, SiblingTarget, Has, SkipIn, RunTo, NoneRuns;
    LessFuel(u, open, {}, fuel);
    if Run(u, d, fuel - 1).Some? {
      MoreFuel(u, d, fuel - 1);
      EndedIsNext(u, d, open, fuel - 1);
    } else if d.abbrev.Some? && d.abbrev.value.children && !Has(d, AT_SIBLING) {
      NotAmong(u, d, open, fuel);
      if ReadDie(u, d.next).Ok? {
        var first := ReadDie(u, d.next).value;
        ReadIsRead(u, d.next);
        OneMore(u, d, open, fuel - 1);
        NothingYet(u, fuel - 1);
        EndedIsSkip(u, first, open + {d.offset}, {}, fuel - 1);
      }
    }
  }

  lemma NotAmong(u: Unit, d: Entry, gone: set<nat>, fuel: nat)
    requires IsRead(u, d)
    ensures NoneRuns(u, gone, fuel) && Run(u, d, fuel).Some? ==> d.offset !in gone
    ensures NoneRunsTo(u, gone, fuel) && RunTo(u, d, fuel).Some? ==> d.offset !in gone
  {
    hide ReadDie, Run, RunTo;
  }

  lemma OneMore(u: Unit, d: Entry, gone: set<nat>, fuel: nat)
    requires IsRead(u, d)
    ensures NoneRuns(u, gone, fuel) && Run(u, d, fuel).None? ==> NoneRuns(u, gone + {d.offset}, fuel)
    ensures NoneRunsTo(u, gone, fuel) && RunTo(u, d, fuel).None? ==> NoneRunsTo(u, gone + {d.offset}, fuel)
  {
    hide ReadDie, Run, RunTo;
  }

  lemma NothingYet(u: Unit, fuel: nat)
    ensures NoneRunsTo(u, {}, fuel) && NoneRuns(u, {}, fuel)
  {}

  lemma {:induction false} EndedIsSkip(u: Unit, d: Entry, open: set<nat>, seen: set<nat>, fuel: nat)
    requires IsRead(u, d) && RunTo(u, d, fuel).Some? && NoneRuns(u, open, fuel) && NoneRunsTo(u, seen, fuel)
    ensures SkipIn(u, d, open, seen) == RunTo(u, d, fuel).value
    decreases fuel, 1
  {
    hide ReadDie, NextIn, Run, NoneRuns, NoneRunsTo;
    LessFuel(u, open, seen, fuel);
    if RunTo(u, d, fuel - 1).Some? {
      MoreFuel(u, d, fuel - 1);
      EndedIsSkip(u, d, open, seen, fuel - 1);
    } else if d.abbrev.Some? {
      NotAmong(u, d, seen, fuel);
      OneMore(u, d, seen, fuel - 1);
      EndedIsNext(u, d, open, fuel - 1);
      var n := NextIn(u, d, open);
      if n.Ok? { EndedIsSkip(u, n.value, open, seen + {d.offset}, fuel - 1); }
    }
  }

  /** And a walk that meets nothing again is one that ends. */
  lemma {:induction false} NextEnds(u: Unit, d: Entry, open: set<nat>) returns (fuel: nat)
    requires IsRead(u, d) && NextIn(u, d, open) != Err(NoEnd)
    ensures Run(u, d, fuel) == Some(NextIn(u, d, open))
    decreases Left(u, open), 0
  {
    hide ReadDie, SiblingTarget, Has, SkipIn, RunTo, Left;
    fuel := 1;
    if d.abbrev.Some? && d.abbrev.value.children && !Has(d, AT_SIBLING) && ReadDie(u, d.next).Ok? {
      OneLess(u, open, d);
      var inner := SkipEnds(u, ReadDie(u, d.next).value, open + {d.offset}, {});
      fuel := inner + 1;
    }
  }

  lemma {:induction false} SkipEnds(u: Unit, d: Entry, open: set<nat>, seen: set<nat>) returns (fuel: nat)
    requires IsRead(u, d) && SkipIn(u, d, open, seen) != Err(NoEnd)
    ensures RunTo(u, d, fuel) == Some(SkipIn(u, d, open, seen))
    decreases Left(u, open), 1, Left(u, seen)
  {
    hide ReadDie, NextIn, Run, Left;
    fuel := 1;
    if d.abbrev.Some? {
      OneLess(u, seen, d);
      var one := NextEnds(u, d, open);
      fuel := one + 1;
      var n := NextIn(u, d, open);
      if n.Ok? {
        var rest := SkipEnds(u, n.value, open, seen + {d.offset});
        fuel := one + rest + 1;
        MuchFuel(u, d, one, one + rest);
        MuchFuel(u, n.value, rest, one + rest);
      }
    }
  }

  lemma {:induction false} RunErrors(u: Unit, d: Entry, fuel: nat)
    requires IsRead(u, d)
    ensures Run(u, d, fuel) != Some(Err(NoEnd)) && RunTo(u, d, fuel) != Some(Err(NoEnd))
    decreases fuel
  {
    hide ReadDie, SiblingTarget, Has;
    if fuel > 0 {
      ReadErrors(u, d.next);
      if Has(d, AT_SIBLING) {
        SiblingErrors(u, d);
        if SiblingTarget(u, d).Ok? { ReadErrors(u, SiblingTarget(u, d).value); }
      }
      if ReadDie(u, d.next).Ok? {
        var first := ReadDie(u, d.next).value;
        RunErrors(u, first, fuel - 1);
        var last := RunTo(u, first, fuel - 1);
        if last.Some? && last.value.Ok? { ReadErrors(u, last.value.value.next); }
      }
      RunErrors(u, d, fuel - 1);
      var n := Run(u, d, fuel - 1);
      if n.Some? && n.value.Ok? { RunErrors(u, n.value.value, fuel - 1); }
    }
  }

  /** On any bytes: the code's `++` comes to an end if and only if the walk does not report that it has
      none, and then with the walk's result. */
  lemma EndsExactlyWhen(u: Unit, d: Entry)
    requires IsRead(u, d)
    ensures (exists fuel :: Run(u, d, fuel).Some?) <==> Next(u, d) != Err(NoEnd)
    ensures forall fuel :: Run(u, d, fuel).Some? ==> Run(u, d, fuel).value == Next(u, d)
  {
    hide Run, NextIn, ReadDie;
    forall fuel | Run(u, d, fuel).Some?
      ensures Run(u, d, fuel).value == Next(u, d) && Next(u, d) != Err(NoEnd)
    {
      NothingYet(u, fuel);
      EndedIsNext(u, d, {}, fuel);
      RunErrors(u, d, fuel);
    }
    if Next(u, d) != Err(NoEnd) {
      var fuel := NextEnds(u, d, {});
    }
  }
}
