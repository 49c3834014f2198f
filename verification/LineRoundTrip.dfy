/** Assembling rows into the bytes of a line-number program and reading it gives the same rows back. */
module LineRoundTrip {
  import opened Words
  import opened Sections
  import opened LineProgram
  import opened LineAssembler
  import opened LineRows
  import opened LineExpressible

  function EncodeAll(h: Header, sec: Section, prog: seq<Instr>): seq<byte>
    requires AllEncodable(h, sec, prog)
  {
    if prog == [] then [] else Encode(h, sec, prog[0]) + EncodeAll(h, sec, prog[1..])
  }

  lemma {:induction false} EncodeAppend(h: Header, sec: Section, a: seq<Instr>, b: seq<Instr>)
    requires AllEncodable(h, sec, a) && AllEncodable(h, sec, b)
    ensures AllEncodable(h, sec, a + b)
    ensures EncodeAll(h, sec, a + b) == EncodeAll(h, sec, a) + EncodeAll(h, sec, b)
  {
    hide Encode, Encodable;
    if a == [] {
      assert a + b == b;
    } else {
      EncodeAppend(h, sec, a[1..], b);
      assert (a + b)[1..] == a[1..] + b;
    }
  }

  predicate Emits(i: Instr) { i.Special? || i.Copy? || i.EndSequence? }

  lemma ExecEmits(h: Header, i: Instr, g: Row)
    requires h.Accepted()
    ensures Exec(h, i, g).1.Some? <==> Emits(i)
  {
    hide Advance;
  }

  /** Running the encoded instructions of one row steps silently to its emitter. */
  lemma {:induction false} RunToRow(h: Header, sec: Section, pos: nat, prog: seq<Instr>,
      g: Row, fs: Files, t: Row, r: Row)
    requires h.Accepted() && AllEncodable(h, sec, prog) && |sec.data| < TWO63
    requires At(sec.data, pos, EncodeAll(h, sec, prog))
    requires prog != [] && Emits(prog[|prog| - 1]) && Runs(h, prog, g, t, [r])
    ensures StepToRow(h, sec, pos, Machine(g, fs))
            == Emitted(Machine(t, fs), r, pos + |EncodeAll(h, sec, prog)|)
    decreases prog
  {
    hide Exec, Encode, Encodable, Decode, At;
    var i, rest := prog[0], prog[1..];
    AtSplit(sec.data, pos, Encode(h, sec, i), EncodeAll(h, sec, rest));
    DecodeInvertsEncode(h, sec, pos, i);
    ExecEmits(h, i, g);
    var (g1, o) := Exec(h, i, g);
    if rest == [] {
      assert prog == [i];
      SingleRun(h, i, g, t, r);
    } else {
      LastEmits(h, rest, g1);
      RunToRow(h, sec, pos + |Encode(h, sec, i)|, rest, g1, fs, t, r);
    }
  }

  lemma SingleRun(h: Header, i: Instr, g: Row, t: Row, r: Row)
    requires h.Accepted() && Runs(h, [i], g, t, [r])
    ensures Exec(h, i, g) == (t, Some(r))
  {
    hide Exec;
    var (g1, o) := Exec(h, i, g);
    assert [i][1..] == [];
    assert ExecAll(h, [i], g) == (g1, Rows(o) + []);
    assert (Rows(o) + [])[0] == [r][0];
  }

  /** A program that ends in an emitter emits something. */
  lemma {:induction false} LastEmits(h: Header, prog: seq<Instr>, g: Row)
    requires h.Accepted() && prog != [] && Emits(prog[|prog| - 1])
    ensures ExecAll(h, prog, g).1 != []
    decreases prog
  {
    hide Exec;
    ExecEmits(h, prog[0], g);
    if |prog| > 1 { LastEmits(h, prog[1..], Exec(h, prog[0], g).0); }
  }

  lemma AssembledEndsInEmitter(h: Header, sec: Section, g: Row, r: Row)
    requires h.Accepted() && Holds(h, g)
    ensures var prog := Assemble(h, sec, g, r); prog != [] && Emits(prog[|prog| - 1])
  {
    hide SpecialFits, OpDelta, Move, Opt, FirstLanding;
    var f := Finish(h, sec, g, r);
    assert f != [] && Emits(f[|f| - 1]);
  }

  /** The table of the rows, each with the file its index names. */
  function Entries(rows: seq<Row>, files: seq<File>): seq<Entry>
    requires forall r :: r in rows ==> r.fileIndex < |files|
  {
    if rows == [] then [] else [Entry(rows[0], files[rows[0].fileIndex])] + Entries(rows[1..], files)
  }

  /** The program the assembler writes for rows that the header can express. */
  function ProgramBytes(h: Header, sec: Section, g: Row, rows: seq<Row>): seq<byte>
    requires h.Accepted() && Holds(h, g) && ExpressibleAll(h, sec, g, rows)
  {
    AssemblesAll(h, sec, g, rows);
    EncodeAll(h, sec, AssembleAll(h, sec, g, rows))
  }

  /** Round trip: whatever rows the header can express, and no program expresses others, reading the
      assembled program emits exactly those rows in order, each with its file, and then stands at the
      end of the section. */
  lemma {:induction false} LineRoundTrip(h: Header, sec: Section, pos: nat, g: Row, rows: seq<Row>, fs: Files)
    requires h.Accepted() && Holds(h, g) && Clean(g) && |sec.data| < TWO63
    requires ExpressibleAll(h, sec, g, rows) && forall r :: r in rows ==> r.fileIndex < |fs.names|
    requires pos <= |sec.data| && sec.data[pos..] == ProgramBytes(h, sec, g, rows)
    ensures var table := AllRows(h, sec, pos, Machine(g, fs));
      table.error == None && table.entries == Entries(rows, fs.names) && table.m.files.names == fs.names
    decreases rows
  {
    hide Assemble, Encodable, Encode, StepToRow, Exec, Runs, Holds, Clean, Expressible;
    if rows != [] {
      var r, rest := rows[0], rows[1..];
      AssemblesAll(h, sec, g, rows);
      AfterIsClean(h, r);
      var prog, tail := Assemble(h, sec, g, r), AssembleAll(h, sec, After(h, r), rest);
      SplitEncodable(h, sec, prog, tail);
      EncodeAppend(h, sec, prog, tail);
      AtJoinedEnd(sec.data, pos, EncodeAll(h, sec, prog), EncodeAll(h, sec, tail));
      AssembleEmits(h, sec, g, r);
      AssembledEndsInEmitter(h, sec, g, r);
      RunToRow(h, sec, pos, prog, g, fs, After(h, r), r);
      var next := pos + |EncodeAll(h, sec, prog)|;
      var fs' := if next >= |sec.data| then fs.(complete := true) else fs;
      LineRoundTrip(h, sec, next, After(h, r), rest, fs');
      assert Increment(h, sec, pos, Machine(g, fs))
        == Next(Machine(After(h, r), fs'), Entry(r, fs.names[r.fileIndex]), next);
    }
  }

  lemma SplitEncodable(h: Header, sec: Section, a: seq<Instr>, b: seq<Instr>)
    requires AllEncodable(h, sec, a + b)
    ensures AllEncodable(h, sec, a) && AllEncodable(h, sec, b)
  {
    hide Encodable;
    forall i | i in a || i in b ensures Encodable(h, sec, i) && !i.DefineFile? { assert i in a + b; }
  }

  lemma AtJoinedEnd(data: seq<byte>, pos: nat, a: seq<byte>, b: seq<byte>)
    requires pos <= |data| && data[pos..] == a + b
    ensures At(data, pos, a) && pos + |a| <= |data| && data[pos + |a|..] == b
  {
    assert data[pos..pos + |a|] == (a + b)[..|a|];
    assert data[pos + |a|..] == (a + b)[|a|..];
  }
}
