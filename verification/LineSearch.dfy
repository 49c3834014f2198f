/** Searching the emitted rows for the one that covers an address. */
module LineSearch {
  import opened Words
  import opened Sections
  import opened LineProgram

  /** Row `i` and its successor bracket the address. */
  predicate Covers(rows: seq<Entry>, i: nat, addr: word) {
    i + 1 < |rows| && rows[i].row.address <= addr < rows[i + 1].row.address && !rows[i].row.endSequence
  }

  /** The first covering row whose successor is among the first `n` rows. */
  function FirstCover(rows: seq<Entry>, n: nat, addr: word): (r: Option<nat>)
    requires n <= |rows|
    ensures r.Some? ==> r.value + 1 < n && Covers(rows, r.value, addr)
    ensures r.Some? ==> forall j :: 0 <= j < r.value ==> !Covers(rows, j, addr)
    ensures r.None? ==> forall j :: 0 <= j && j + 1 < n ==> !Covers(rows, j, addr)
  {
    if n < 2 then None
    else
      var before := FirstCover(rows, n - 1, addr);
      if before.Some? then before
      else if Covers(rows, n - 2, addr) then Some(n - 2)
      else None
  }

  /** The rows an iteration can stand on. The position after the table's last row is the position of
      `end()`, so the last row is never seen; a row followed by a decoding error is. */
  function Visible(t: Table): nat {
    if t.error.None? && |t.entries| > 0 then |t.entries| - 1 else |t.entries|
  }

  function FindIn(t: Table, addr: word): Result<Option<nat>> {
    match FirstCover(t.entries, Visible(t), addr)
    case Some(i) => Ok(Some(i))
    case None => if t.error.Some? then Err(t.error.value) else Ok(None)
  }

  lemma FirstCoverIs(rows: seq<Entry>, n: nat, addr: word, i: nat)
    requires n <= |rows| && i + 1 < n && Covers(rows, i, addr) && forall j :: 0 <= j < i ==> !Covers(rows, j, addr)
    ensures FirstCover(rows, n, addr) == Some(i)
  {}

  lemma FirstCoverNone(rows: seq<Entry>, n: nat, addr: word)
    requires n <= |rows| && forall j :: 0 <= j && j + 1 < n ==> !Covers(rows, j, addr)
    ensures FirstCover(rows, n, addr) == None
  {}

  // ---------- the search as a scan ----------

  /** After the first `k` pairs: none of them covers, and `rest` is what is still to be read. */
  ghost predicate Scan(t: Table, k: nat, rest: Table, addr: word) {
    && k + 1 < |t.entries| && t.entries[k + 2..] == rest.entries && t.error == rest.error
    && forall j :: 0 <= j < k ==> !Covers(t.entries, j, addr)
  }

  lemma ScanNext(t: Table, k: nat, rest: Table, addr: word, e: Entry, rest': Table)
    requires Scan(t, k, rest, addr) && !Covers(t.entries, k, addr)
    requires rest.entries == [e] + rest'.entries && rest.error == rest'.error
    ensures Scan(t, k + 1, rest', addr) && t.entries[k + 2] == e
  {
    assert t.entries[k + 2..][0] == e;
    assert t.entries[k + 3..] == t.entries[k + 2..][1..] == rest'.entries;
  }

  lemma ScanFound(t: Table, k: nat, rest: Table, addr: word)
    requires Scan(t, k, rest, addr) && Covers(t.entries, k, addr) && (rest.entries != [] || rest.error.Some?)
    ensures FindIn(t, addr) == Ok(Some(k))
  {
    assert |t.entries[k + 2..]| == |rest.entries|;
    FirstCoverIs(t.entries, Visible(t), addr, k);
  }

  lemma ScanDone(t: Table, k: nat, rest: Table, addr: word)
    requires Scan(t, k, rest, addr) && rest.entries == []
    requires rest.error.Some? ==> !Covers(t.entries, k, addr)
    ensures FindIn(t, addr) == if rest.error.Some? then Err(rest.error.value) else Ok(None)
  {
    assert |t.entries[k + 2..]| == 0;
    FirstCoverNone(t.entries, Visible(t), addr);
  }

  // ---------- sorted, disjoint sequences ----------

  /** Rows `s..e` form one sequence: they end in the only end_sequence row among them. */
  predicate IsSequence(rows: seq<Entry>, s: nat, e: nat) {
    && s <= e < |rows| && rows[e].row.endSequence
    && (forall i :: s <= i < e ==> !rows[i].row.endSequence)
    && (s == 0 || rows[s - 1].row.endSequence)
  }

  /** Addresses do not decrease inside a sequence, different sequences cover disjoint ranges, and the
      table is cut into sequences completely. */
  ghost predicate SortedDisjoint(rows: seq<Entry>) {
    && (forall i :: 0 <= i && i + 1 < |rows| && !rows[i].row.endSequence ==>
          rows[i].row.address <= rows[i + 1].row.address)
    && (forall s: nat, e: nat, s': nat, e': nat :: IsSequence(rows, s, e) && IsSequence(rows, s', e') && e < s' ==>
          rows[e].row.address <= rows[s'].row.address || rows[e'].row.address <= rows[s].row.address)
    && (|rows| > 0 ==> rows[|rows| - 1].row.endSequence)
  }

  lemma {:induction false} SequenceStart(rows: seq<Entry>, i: nat) returns (s: nat)
    requires i < |rows|
    ensures s <= i && (s == 0 || rows[s - 1].row.endSequence)
    ensures forall j :: s <= j < i ==> !rows[j].row.endSequence
  {
    s := i;
    while s > 0 && !rows[s - 1].row.endSequence
      invariant s <= i && forall j :: s <= j < i ==> !rows[j].row.endSequence
    {
      s := s - 1;
    }
  }

  lemma SequenceEnd(rows: seq<Entry>, i: nat) returns (e: nat)
    requires i < |rows| && rows[|rows| - 1].row.endSequence
    ensures i <= e < |rows| && rows[e].row.endSequence
    ensures forall j :: i <= j < e ==> !rows[j].row.endSequence
  {
    e := i;
    while !rows[e].row.endSequence
      invariant i <= e < |rows| && forall j :: i <= j < e ==> !rows[j].row.endSequence
      decreases |rows| - e
    {
      e := e + 1;
    }
  }

  lemma {:induction false} Ascends(rows: seq<Entry>, i: nat, j: nat)
    requires SortedDisjoint(rows) && i <= j < |rows| && forall k :: i <= k < j ==> !rows[k].row.endSequence
    ensures rows[i].row.address <= rows[j].row.address
    decreases j
  {
    if i < j { Ascends(rows, i, j - 1); }
  }

  /** In a sorted table with disjoint sequences at most one row covers an address. */
  lemma CoverIsUnique(rows: seq<Entry>, i: nat, j: nat, addr: word)
    requires SortedDisjoint(rows) && Covers(rows, i, addr) && Covers(rows, j, addr)
    ensures i == j
  {
    if i < j { CoverNotLater(rows, i, j, addr); }
    if j < i { CoverNotLater(rows, j, i, addr); }
  }

  lemma TableEnds(rows: seq<Entry>)
    requires SortedDisjoint(rows)
    ensures |rows| > 0 ==> rows[|rows| - 1].row.endSequence
  {}

  /** A covering row lies inside a sequence whose whole range has the address. */
  lemma SequenceAround(rows: seq<Entry>, i: nat, addr: word) returns (s: nat, e: nat)
    requires SortedDisjoint(rows) && Covers(rows, i, addr)
    ensures IsSequence(rows, s, e) && s <= i < e < |rows| && rows[s].row.address <= addr < rows[e].row.address
  {
    hide SortedDisjoint;
    TableEnds(rows);
    s := SequenceStart(rows, i);
    e := SequenceEnd(rows, i);
    Ascends(rows, s, i);
    Ascends(rows, i + 1, e);
  }

  lemma CoverNotLater(rows: seq<Entry>, i: nat, j: nat, addr: word)
    requires SortedDisjoint(rows) && Covers(rows, i, addr) && i < j
    ensures !Covers(rows, j, addr)
  {
    hide SortedDisjoint, IsSequence;
    if Covers(rows, j, addr) {
      var s, e := SequenceAround(rows, i, addr);
      var s', e' := SequenceAround(rows, j, addr);
      if j <= e {
        InsideOne(rows, s, e, i, j);
      } else {
        Separate(rows, s, e, s', e', j);
      }
    }
  }

  lemma InsideOne(rows: seq<Entry>, s: nat, e: nat, i: nat, j: nat)
    requires SortedDisjoint(rows) && IsSequence(rows, s, e) && s <= i < j <= e
    ensures rows[i + 1].row.address <= rows[j].row.address
  {
    hide SortedDisjoint;
    Ascends(rows, i + 1, j);
  }

  lemma Separate(rows: seq<Entry>, s: nat, e: nat, s': nat, e': nat, j: nat)
    requires SortedDisjoint(rows) && IsSequence(rows, s, e) && IsSequence(rows, s', e') && e < j && s' <= j < e'
    ensures s <= e < |rows| && s' < |rows| && e' < |rows|
    ensures rows[e].row.address <= rows[s'].row.address || rows[e'].row.address <= rows[s].row.address
  {
    assert e < s';
  }

  lemma {:induction false} SomeRowCovers(rows: seq<Entry>, i: nat, e: nat, addr: word) returns (k: nat)
    requires i < e < |rows| && forall j :: i <= j < e ==> !rows[j].row.endSequence
    requires rows[i].row.address <= addr < rows[e].row.address
    ensures i <= k < e && Covers(rows, k, addr)
    decreases e - i
  {
    if addr < rows[i + 1].row.address {
      k := i;
    } else {
      k := SomeRowCovers(rows, i + 1, e, addr);
    }
  }

  /** `addr` is in the range of the sequence of rows `s..e`. */
  predicate InSequence(rows: seq<Entry>, s: nat, e: nat, addr: word) {
    IsSequence(rows, s, e) && rows[s].row.address <= addr < rows[e].row.address
  }

  /** In such a table some row covers an address exactly when the address is in the range of some sequence,
      its first address included and its last one not. */
  lemma CoveredExactlyWhen(rows: seq<Entry>, addr: word)
    requires SortedDisjoint(rows)
    ensures (exists i: nat :: Covers(rows, i, addr)) <==> exists s: nat, e: nat :: InSequence(rows, s, e, addr)
  {
    hide SortedDisjoint;
    if i: nat :| Covers(rows, i, addr) {
      var s, e := SequenceAround(rows, i, addr);
      assert InSequence(rows, s, e, addr);
    }
    if s: nat, e: nat :| InSequence(rows, s, e, addr) {
      var k := SomeRowCovers(rows, s, e, addr);
    }
  }

  /** The search is complete for every covering row but the one paired with the table's last row:
      in a sorted, disjoint table that decodes to its end, the covering row `i` is found exactly when
      its successor is not the last row. */
  lemma FoundExactlyWhen(t: Table, i: nat, addr: word)
    requires t.error == None && SortedDisjoint(t.entries) && Covers(t.entries, i, addr)
    ensures FindIn(t, addr) == Ok(Some(i)) <==> i + 2 < |t.entries|
    ensures i + 2 == |t.entries| ==> FindIn(t, addr) == Ok(None)
  {
    var r := FirstCover(t.entries, Visible(t), addr);
    if r.Some? { CoverIsUnique(t.entries, i, r.value, addr); }
  }
}
