/** The converse for data dependences: every register edge of a trace goes from the last record that wrote a register
    to a parameter record that reads it. */
module TraceOrigins {
  import opened Collections
  import opened ExecNodes
  import C = ControlDependence
  import M = MemoryDependence
  import R = RegisterDependence
  import opened TraceParsing
  import opened CallForwarding
  import opened TraceLinks
  import opened TraceDataflow

  /** Record `k` forwards an argument that came from a register to register `x` of `f`. */
  ghost predicate PassesTo(trace: seq<Record>, k: nat, f: R.DynFunction, x: string)
    requires k < |trace|
  {
    && ForwardedTo(trace, k, f, x)
    && var c := ParseAll(trace[..k]).at; c.op == Call && c.args != [] && c.args[0].isReg
  }

  /** Record `k` is the address operand of a load or store. */
  ghost predicate AddressIn(trace: seq<Record>, k: nat, f: R.DynFunction, x: string)
    requires k < |trace|
  {
    && ReadIn(trace, k, f, x)
    && var op := ParseAll(trace[..k]).at.op; (op == Load && trace[k].tag == 1) || (op == Store && trace[k].tag == 2)
  }

  /** Record `k` makes `writer` the writer of register `x` of `f`. */
  ghost predicate WrittenAt(trace: seq<Record>, k: nat, f: R.DynFunction, x: string, writer: nat) {
    && k < |trace| && ReadableAt(trace, k)
    && (|| (ResultIn(trace, k, f, x) && writer == NodeAt(trace[..k]))
        || (PassesTo(trace, k, f, x) && writer == ParseAll(trace[..k]).at.args[0].last)
        || (AddressIn(trace, k, f, x) && writer == NodeAt(trace[..k]) && R.Register(f, x) !in WriterTable(trace, k)))
  }

  /** No result and no argument from a register goes to register `x` of `f` in `trace[a..b]`. */
  ghost predicate NotRewritten(trace: seq<Record>, a: nat, b: nat, f: R.DynFunction, x: string)
    requires b <= |trace|
  {
    forall k: nat :: a <= k < b && ReadableAt(trace, k) ==> !ResultIn(trace, k, f, x) && !PassesTo(trace, k, f, x)
  }

  // ----- writers

  type Table = map<R.Register, nat>

  /** Between the tables before and after record `k`, the writer of a register is the one that the record makes it, or
      stays the same, and then the record does not write the register. */
  ghost predicate Carries(trace: seq<Record>, k: nat, f: R.DynFunction, x: string, w: Table, after: Table)
    requires k < |trace|
  {
    var reg := R.Register(f, x);
    reg in after ==>
      || WrittenAt(trace, k, f, x, after[reg])
      || (reg in w && after[reg] == w[reg] && !ResultIn(trace, k, f, x) && !PassesTo(trace, k, f, x))
      || (reg in w && after[reg] == w[reg] && !ReadableAt(trace, k))
  }

  lemma WriterStep(trace: seq<Record>, k: nat, n: nat, f: R.DynFunction, x: string)
    requires k < |trace| && n == k + 1
    ensures Carries(trace, k, f, x, WriterTable(trace, k), WriterTable(trace, n))
  {
    ParseStep(trace, k);
    CursorNode(trace[..k]);
    var p, r := ParseAll(trace[..k]), trace[k];
    if Parsable(p, r) { RecordCarries(trace, k, p, r, f, x, R.Writers(p.reg), R.Writers(ParseOne(p, r).reg)); }
  }

  lemma RecordCarries(trace: seq<Record>, k: nat, p: Parse, r: Record, f: R.DynFunction, x: string, w: Table,
                      after: Table)
    requires k < |trace| && p == ParseAll(trace[..k]) && r == trace[k] && Parsable(p, r) && ReadableAt(trace, k)
    requires w == R.Writers(p.reg) && after == R.Writers(ParseOne(p, r).reg) && p.at.id == NodeAt(trace[..k])
    ensures Carries(trace, k, f, x, w, after)
  {
    match r
    case Instruction(_, _, _, _) =>
    case EntryDeclaration =>
    case Parameter(_, _, _, _, _, _) => if R.Register(f, x) in after { ParameterStep(trace, k, p, r, f, x); }
    case Result(size, value, name) => ResultStep(p, size, value, name);
    case Forward(name) => ForwardStep(p, name);
  }

  lemma ResultStep(p: Parse, size: nat, value: nat, name: string)
    requires ResultReadable(p.at, value)
    ensures R.Writers(AfterResult(p, size, value, name).reg) ==
      R.Writers(p.reg)[R.Register(p.at.func, name) := p.at.id]
  {
    WritersAppended(p.reg, R.Write(R.Register(p.at.func, name), p.at.id));
  }

  /** A forward record writes only as a call's, with a register argument left. */
  lemma ForwardStep(p: Parse, name: string)
    requires p.at.op.Call? || TakesNoArguments(p.at.op)
    ensures R.Writers(AfterForwarding(p, name).reg) ==
      if p.at.op.Call? && p.at.args != [] && p.at.args[0].isReg
      then R.Writers(p.reg)[R.Register(p.at.calleeFunction, name) := p.at.args[0].last] else R.Writers(p.reg)
  {
    if ForwardEvents(p.at, name) == [] {
      assert p.reg + [] == p.reg;
    } else {
      WritersAppended(p.reg, R.Write(R.Register(p.at.calleeFunction, name), p.at.args[0].last));
    }
  }

  lemma ParameterStep(trace: seq<Record>, k: nat, p: Parse, r: Record, f: R.DynFunction, x: string)
    requires k < |trace| && p == ParseAll(trace[..k]) && r == trace[k] && r.Parameter? && Parsable(p, r)
    requires R.Register(f, x) in R.Writers(ParseOne(p, r).reg) && p.at.id == NodeAt(trace[..k])
    ensures
      || WrittenAt(trace, k, f, x, R.Writers(ParseOne(p, r).reg)[R.Register(f, x)])
      || (R.Register(f, x) in R.Writers(p.reg) &&
          R.Writers(ParseOne(p, r).reg)[R.Register(f, x)] == R.Writers(p.reg)[R.Register(f, x)])
  {
    var reg := R.Register(f, x);
    if reg in R.Writers(p.reg) {
      if !Ignored(p.at, r.fromBlock) { ParameterWrites(p, r.tag, r.size, r.value, r.isReg, r.name, reg); }
    } else {
      NewWriter(p, r.tag, r.size, r.value, r.isReg, r.name, reg);
    }
  }

  /** A parameter record adds a writer only for the address of a load or store. */
  lemma NewWriter(p: Parse, tag: nat, size: nat, value: nat, isReg: bool, name: string, reg: R.Register)
    requires reg !in R.Writers(p.reg)
    ensures var w := R.Writers(AfterParameter(p, tag, size, value, isReg, name).reg);
      reg in w ==>
        && isReg && reg == R.Register(p.at.func, name) && w[reg] == p.at.id
        && ((p.at.op == Load && tag == 1) || (p.at.op == Store && tag == 2))
  {
    ParameterCursorKeeps(p.at, R.Writers(p.reg), tag, size, value, isReg, name);
    var c := ParameterCursor(p.at, R.Writers(p.reg), tag, size, value, isReg, name);
    var own := R.Register(c.func, name);
    if !isReg {
      assert p.reg + [] == p.reg;
    } else {
      WritersAppended(p.reg, R.Read(own, c.id, tag));
      WritersAppended(p.reg + [R.Read(own, c.id, tag)], R.Write(own, c.id));
      assert p.reg + [R.Read(own, c.id, tag), R.Write(own, c.id)] ==
        p.reg + [R.Read(own, c.id, tag)] + [R.Write(own, c.id)];
    }
  }

  lemma NoWriterYet(trace: seq<Record>)
    ensures WriterTable(trace, 0) == map[]
  {
    assert trace[..0] == [];
  }

  lemma NotRewrittenNext(trace: seq<Record>, a: nat, k: nat, n: nat, f: R.DynFunction, x: string)
    requires k < |trace| && n == k + 1 && NotRewritten(trace, a, k, f, x)
    requires ReadableAt(trace, k) ==> !ResultIn(trace, k, f, x) && !PassesTo(trace, k, f, x)
    ensures NotRewritten(trace, a, n, f, x)
  {
  }

  /** The writer of a register is that of the last record to write it. */
  lemma {:induction false} WriterOrigin(trace: seq<Record>, n: nat, f: R.DynFunction, x: string, w: Table)
    returns (a: nat)
    requires n <= |trace| && w == WriterTable(trace, n) && R.Register(f, x) in w
    ensures a < n && WrittenAt(trace, a, f, x, w[R.Register(f, x)]) && NotRewritten(trace, a + 1, n, f, x)
    decreases n
  {
    NoWriterYet(trace);
    var k := n - 1;
    var before := WriterTable(trace, k);
    WriterStep(trace, k, n, f, x);
    if WrittenAt(trace, k, f, x, w[R.Register(f, x)]) {
      a := k;
    } else {
      a := WriterOrigin(trace, k, f, x, before);
      NotRewrittenNext(trace, a + 1, k, n, f, x);
    }
  }

  // ----- edges

  lemma EdgesAppended(events: seq<R.Event>, e: R.Event, q: R.RegEdge)
    requires q in R.RegisterEdges(events + [e]) && q !in R.RegisterEdges(events)
    ensures e.Read? && e.reg in R.Writers(events) && q == R.RegEdge(R.Writers(events)[e.reg], e.id, e.tag)
  {
    assert (events + [e])[..|events|] == events;
  }

  /** A new edge comes with a parameter that is read. */
  lemma EdgeStep(p: Parse, r: Record, q: R.RegEdge)
    requires Parsable(p, r) && q in R.RegisterEdges(ParseOne(p, r).reg) && q !in R.RegisterEdges(p.reg)
    ensures r.Parameter? && r.isReg && !Ignored(p.at, r.fromBlock)
    ensures var reg := R.Register(p.at.func, r.name);
      reg in R.Writers(p.reg) && q == R.RegEdge(R.Writers(p.reg)[reg], p.at.id, r.tag)
  {
    assert p.reg + [] == p.reg;
    match r
    case Instruction(_, _, _, _) =>
    case EntryDeclaration =>
    case Parameter(tag, size, value, isReg, name, fromBlock) =>
      if !Ignored(p.at, fromBlock) { ParameterEdge(p, tag, size, value, isReg, name, q); }
    case Result(_, _, _) => WriteAddsNoEdge(p, r);
    case Forward(_) => WriteAddsNoEdge(p, r);
  }

  lemma WriteAddsNoEdge(p: Parse, r: Record)
    requires Parsable(p, r) && (r.Result? || r.Forward?)
    ensures R.RegisterEdges(ParseOne(p, r).reg) == R.RegisterEdges(p.reg)
  {
    var events := if r.Result? then [R.Write(R.Register(p.at.func, r.name), p.at.id)] else ForwardEvents(p.at, r.name);
    assert ParseOne(p, r).reg == p.reg + events;
    if events == [] {
      assert p.reg + events == p.reg;
    } else {
      assert |events| == 1 && events[0].Write? && (p.reg + events)[..|p.reg|] == p.reg;
    }
  }

  lemma ParameterEdge(p: Parse, tag: nat, size: nat, value: nat, isReg: bool, name: string, q: R.RegEdge)
    requires q in R.RegisterEdges(AfterParameter(p, tag, size, value, isReg, name).reg)
    requires q !in R.RegisterEdges(p.reg)
    ensures isReg && R.Register(p.at.func, name) in R.Writers(p.reg)
    ensures q == R.RegEdge(R.Writers(p.reg)[R.Register(p.at.func, name)], p.at.id, tag)
  {
    ParameterCursorKeeps(p.at, R.Writers(p.reg), tag, size, value, isReg, name);
    var own := R.Register(p.at.func, name);
    var read := R.Read(own, p.at.id, tag);
    assert p.reg + [] == p.reg;
    if isReg {
      assert p.reg + [read, R.Write(own, p.at.id)] == p.reg + [read] + [R.Write(own, p.at.id)];
      if q in R.RegisterEdges(p.reg + [read]) {
        EdgesAppended(p.reg, read, q);
      } else {
        EdgesAppended(p.reg + [read], R.Write(own, p.at.id), q);
      }
    }
  }

  /** Edge `q` goes from the last record to write a register, `a`, to a parameter record that reads it, `b`. */
  ghost predicate FlowsTo(trace: seq<Record>, a: nat, b: nat, f: R.DynFunction, x: string, q: R.RegEdge) {
    && a < b < |trace| && WrittenAt(trace, a, f, x, q.src) && NotRewritten(trace, a + 1, b, f, x)
    && ReadableAt(trace, b) && ReadIn(trace, b, f, x) && q.dst == NodeAt(trace[..b]) && q.tag == trace[b].tag
  }

  lemma {:induction false} EdgeOrigin(trace: seq<Record>, n: nat, q: R.RegEdge)
    returns (a: nat, b: nat, f: R.DynFunction, x: string)
    requires n <= |trace| && q in R.RegisterEdges(ParseAll(trace[..n]).reg)
    ensures FlowsTo(trace, a, b, f, x, q)
    decreases n
  {
    assert trace[..0] == [];
    var k := n - 1;
    ParseStep(trace, k);
    var p := ParseAll(trace[..k]);
    if q in R.RegisterEdges(p.reg) {
      a, b, f, x := EdgeOrigin(trace, k, q);
    } else {
      EdgeStep(p, trace[k], q);
      CursorNode(trace[..k]);
      b, f, x := k, p.at.func, trace[k].name;
      a := WriterOrigin(trace, k, f, x, WriterTable(trace, k));
    }
  }

  lemma FlowIsEdge(trace: seq<Record>, a: nat, b: nat, f: R.DynFunction, x: string, q: R.RegEdge)
    requires FlowsTo(trace, a, b, f, x, q)
    ensures q in R.RegisterEdges(ParseAll(trace).reg)
  {
    WrittenMeans(trace, a, f, x, q.src);
    WriterKept(trace, a + 1, b, f, x);
    ReadHasEdge(trace, b, f, x, q);
  }

  lemma WrittenMeans(trace: seq<Record>, a: nat, f: R.DynFunction, x: string, writer: nat)
    requires WrittenAt(trace, a, f, x, writer)
    ensures R.Register(f, x) in WriterTable(trace, a + 1) && WriterTable(trace, a + 1)[R.Register(f, x)] == writer
  {
    if ResultIn(trace, a, f, x) {
      ResultWrites(trace, a, f, x);
    } else if PassesTo(trace, a, f, x) {
      ParseStep(trace, a);
      ForwardStep(ParseAll(trace[..a]), trace[a].name);
    } else {
      AddressWrites(trace, a, f, x);
    }
  }

  lemma {:induction false} WriterKept(trace: seq<Record>, a: nat, b: nat, f: R.DynFunction, x: string)
    requires a <= b <= |trace| && R.Register(f, x) in WriterTable(trace, a) && NotRewritten(trace, a, b, f, x)
    ensures R.Register(f, x) in WriterTable(trace, b)
    ensures WriterTable(trace, b)[R.Register(f, x)] == WriterTable(trace, a)[R.Register(f, x)]
    decreases b
  {
    if a < b {
      var k := b - 1;
      WriterKept(trace, a, k, f, x);
      ParseStep(trace, k);
      var p := ParseAll(trace[..k]);
      if Parsable(p, trace[k]) { KeptByRecord(trace, k, p, f, x); }
    }
  }

  lemma KeptByRecord(trace: seq<Record>, k: nat, p: Parse, f: R.DynFunction, x: string)
    requires k < |trace| && p == ParseAll(trace[..k]) && Parsable(p, trace[k]) && R.Register(f, x) in R.Writers(p.reg)
    requires !ResultIn(trace, k, f, x) && !PassesTo(trace, k, f, x)
    ensures var w := R.Writers(ParseOne(p, trace[k]).reg);
      R.Register(f, x) in w && w[R.Register(f, x)] == R.Writers(p.reg)[R.Register(f, x)]
  {
    if ForwardedTo(trace, k, f, x) {
      ForwardStep(p, trace[k].name);
    } else {
      RecordWrites(p, trace[k], R.Register(f, x));
    }
  }

  /** There is a register edge from node `u` to node `v` with operand number `tag` if and only if, by the records of
      the trace, `v` reads as that operand a register that `u` wrote last. */
  lemma RegisterEdgeIff(trace: seq<Record>, q: R.RegEdge)
    ensures q in R.RegisterEdges(ParseAll(trace).reg) <==>
      exists a: nat, b: nat, f: R.DynFunction, x: string :: FlowsTo(trace, a, b, f, x, q)
  {
    if q in R.RegisterEdges(ParseAll(trace).reg) {
      assert trace[..|trace|] == trace;
      var a, b, f, x := EdgeOrigin(trace, |trace|, q);
    }
    if a: nat, b: nat, f: R.DynFunction, x: string :| FlowsTo(trace, a, b, f, x, q) {
      FlowIsEdge(trace, a, b, f, x, q);
    }
  }
}
