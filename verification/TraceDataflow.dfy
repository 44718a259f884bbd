/** Data dependences, said with the records of a trace: a register parameter waits for the last record that wrote
    its register in the same invocation. */
module TraceDataflow {
  import opened Collections
  import opened ExecNodes
  import opened DependenceGraph
  import C = ControlDependence
  import M = MemoryDependence
  import R = RegisterDependence
  import opened TraceParsing
  import opened TraceLinks
  import opened CallForwarding
  import opened InitialGraph
  import AlapCorrect

  /** The node that records at the end of the trace belong to: that of its last instruction record. */
  function NodeAt(trace: seq<Record>): nat {
    if trace == [] then 0
    else if trace[|trace| - 1].Instruction? then trace[|trace| - 1].id
    else NodeAt(trace[..|trace| - 1])
  }

  lemma {:induction false} CursorNode(trace: seq<Record>)
    ensures ParseAll(trace).at.id == NodeAt(trace)
  {
    if trace != [] {
      var n := |trace| - 1;
      CursorNode(trace[..n]);
      if trace[n].Instruction? {
        NextCursor(ParseAll(trace[..n]).at, trace[n].id, trace[n].op, trace[n].func, trace[n].block);
      }
    }
  }

  /** The invocation that record `k` belongs to, and the one that arguments are forwarded to there. */
  function InvocationAt(trace: seq<Record>, k: nat): R.DynFunction
    requires k <= |trace|
  {
    ParseAll(trace[..k]).at.func
  }

  function CalleeAt(trace: seq<Record>, k: nat): R.DynFunction
    requires k <= |trace|
  {
    ParseAll(trace[..k]).at.calleeFunction
  }

  // ----- records that write and read a register

  /** Record `k` is the result of an instruction of `f`, in register `x`. */
  ghost predicate ResultIn(trace: seq<Record>, k: nat, f: R.DynFunction, x: string)
    requires k < |trace|
  {
    trace[k].Result? && trace[k].name == x && InvocationAt(trace, k) == f
  }

  /** Record `k` forwards an argument to register `x` of `f`. */
  ghost predicate ForwardedTo(trace: seq<Record>, k: nat, f: R.DynFunction, x: string)
    requires k < |trace|
  {
    trace[k].Forward? && trace[k].name == x && CalleeAt(trace, k) == f
  }

  /** Record `k` is a parameter that an instruction of `f` reads from register `x`. */
  ghost predicate ReadIn(trace: seq<Record>, k: nat, f: R.DynFunction, x: string)
    requires k < |trace|
  {
    && trace[k].Parameter? && trace[k].isReg && trace[k].name == x && InvocationAt(trace, k) == f
    && !Ignored(ParseAll(trace[..k]).at, trace[k].fromBlock)
  }

  /** Neither a result nor a forwarded argument goes to register `x` of `f` in `trace[a..b]`. */
  ghost predicate NotWritten(trace: seq<Record>, a: nat, b: nat, f: R.DynFunction, x: string)
    requires b <= |trace|
  {
    forall k: nat :: a <= k < b ==> !ResultIn(trace, k, f, x) && !ForwardedTo(trace, k, f, x)
  }

  // ----- the last writer

  function WriterTable(trace: seq<Record>, n: nat): map<R.Register, nat>
    requires n <= |trace|
  {
    R.Writers(ParseAll(trace[..n]).reg)
  }

  lemma WritersAppended(events: seq<R.Event>, e: R.Event)
    ensures R.Writers(events + [e]) == if e.Write? then R.Writers(events)[e.reg := e.id] else R.Writers(events)
  {
    assert (events + [e])[..|events|] == events;
  }

  /** A record writes no register but the one it names. */
  lemma RecordWrites(p: Parse, r: Record, reg: R.Register)
    requires Parsable(p, r) && reg in R.Writers(p.reg)
    requires !(r.Result? && reg == R.Register(p.at.func, r.name))
    requires !(r.Forward? && reg == R.Register(p.at.calleeFunction, r.name))
    ensures var w := R.Writers(ParseOne(p, r).reg); reg in w && w[reg] == R.Writers(p.reg)[reg]
  {
    match r
    case Instruction(_, _, _, _) =>
    case EntryDeclaration =>
    case Parameter(tag, size, value, isReg, name, fromBlock) =>
      if !Ignored(p.at, fromBlock) { ParameterWrites(p, tag, size, value, isReg, name, reg); }
    case Result(size, value, name) => WritersAppended(p.reg, R.Write(R.Register(p.at.func, name), p.at.id));
    case Forward(name) =>
      if ForwardEvents(p.at, name) == [] {
        assert ParseOne(p, r).reg == p.reg;
      } else {
        WritersAppended(p.reg, R.Write(R.Register(p.at.calleeFunction, name), p.at.args[0].last));
      }
  }

  lemma ParameterWrites(p: Parse, tag: nat, size: nat, value: nat, isReg: bool, name: string, reg: R.Register)
    requires reg in R.Writers(p.reg)
    ensures var w := R.Writers(AfterParameter(p, tag, size, value, isReg, name).reg);
      reg in w && w[reg] == R.Writers(p.reg)[reg]
  {
    ParameterCursorKeeps(p.at, R.Writers(p.reg), tag, size, value, isReg, name);
    var c := ParameterCursor(p.at, R.Writers(p.reg), tag, size, value, isReg, name);
    var own := R.Register(c.func, name);
    if !isReg {
      assert p.reg + [] == p.reg;
    } else {
      WritersAppended(p.reg, R.Read(own, c.id, tag));
      WritersAppended(p.reg + [R.Read(own, c.id, tag)], R.Write(own, c.id));
      assert p.reg + [R.Read(own, c.id, tag), R.Write(own, c.id)] ==
        p.reg + [R.Read(own, c.id, tag)] + [R.Write(own, c.id)];
    }
  }

  lemma ParseStep(trace: seq<Record>, k: nat)
    requires k < |trace|
    ensures ParseAll(trace[..k + 1]) ==
      if Parsable(ParseAll(trace[..k]), trace[k]) then ParseOne(ParseAll(trace[..k]), trace[k])
        else ParseAll(trace[..k])
  {
    assert trace[..k + 1][..k] == trace[..k];
  }

  lemma {:induction false} WriterStays(trace: seq<Record>, a: nat, b: nat, f: R.DynFunction, x: string)
    requires a <= b <= |trace| && R.Register(f, x) in WriterTable(trace, a) && NotWritten(trace, a, b, f, x)
    ensures R.Register(f, x) in WriterTable(trace, b)
    ensures WriterTable(trace, b)[R.Register(f, x)] == WriterTable(trace, a)[R.Register(f, x)]
    decreases b
  {
    if a < b {
      var k := b - 1;
      WriterStays(trace, a, k, f, x);
      ParseStep(trace, k);
      assert !ResultIn(trace, k, f, x) && !ForwardedTo(trace, k, f, x);
      var p := ParseAll(trace[..k]);
      if Parsable(p, trace[k]) { RecordWrites(p, trace[k], R.Register(f, x)); }
    }
  }

  lemma ResultWrites(trace: seq<Record>, a: nat, f: R.DynFunction, x: string)
    requires a < |trace| && ResultIn(trace, a, f, x) && ReadableAt(trace, a)
    ensures R.Register(f, x) in WriterTable(trace, a + 1)
    ensures WriterTable(trace, a + 1)[R.Register(f, x)] == NodeAt(trace[..a])
  {
    ParseStep(trace, a);
    CursorNode(trace[..a]);
    var p := ParseAll(trace[..a]);
    WritersAppended(p.reg, R.Write(R.Register(p.at.func, trace[a].name), p.at.id));
  }

  // ----- edges

  lemma {:induction false} EdgesGrow(events: seq<R.Event>, n: nat, e: R.RegEdge)
    requires n <= |events| && e in R.RegisterEdges(events[..n])
    ensures e in R.RegisterEdges(events)
    decreases |events|
  {
    if n == |events| {
      assert events[..n] == events;
    } else {
      assert events[..|events| - 1][..n] == events[..n];
      EdgesGrow(events[..|events| - 1], n, e);
    }
  }

  lemma StepAppends(p: Parse, r: Record)
    requires Parsable(p, r)
    ensures p.reg <= ParseOne(p, r).reg
  {
  }

  lemma {:induction false} EventsGrow(trace: seq<Record>, n: nat)
    requires n <= |trace|
    ensures ParseAll(trace[..n]).reg <= ParseAll(trace).reg
    decreases |trace|
  {
    if n == |trace| {
      assert trace[..n] == trace;
    } else {
      var m := |trace| - 1;
      EventsGrow(trace[..m], n);
      assert trace[..m][..n] == trace[..n];
      if Parsable(ParseAll(trace[..m]), trace[m]) { StepAppends(ParseAll(trace[..m]), trace[m]); }
    }
  }

  /** A register parameter gets an edge from whoever wrote its register last. */
  lemma ReadHasEdge(trace: seq<Record>, b: nat, f: R.DynFunction, x: string, e: R.RegEdge)
    requires b < |trace| && ReadIn(trace, b, f, x) && ReadableAt(trace, b)
    requires R.Register(f, x) in WriterTable(trace, b)
    requires e == R.RegEdge(WriterTable(trace, b)[R.Register(f, x)], NodeAt(trace[..b]), trace[b].tag)
    ensures e in R.RegisterEdges(ParseAll(trace).reg)
  {
    ReadAddsEdge(trace, b, b + 1, f, x, e);
    EdgeStays(trace, b + 1, e);
  }

  lemma EdgeStays(trace: seq<Record>, n: nat, e: R.RegEdge)
    requires n <= |trace| && e in R.RegisterEdges(ParseAll(trace[..n]).reg)
    ensures e in R.RegisterEdges(ParseAll(trace).reg)
  {
    EventsGrow(trace, n);
    PrefixEdges(ParseAll(trace[..n]).reg, ParseAll(trace).reg, e);
  }

  lemma ReadAddsEdge(trace: seq<Record>, b: nat, n: nat, f: R.DynFunction, x: string, e: R.RegEdge)
    requires b < |trace| && n == b + 1 && ReadIn(trace, b, f, x) && ReadableAt(trace, b)
    requires R.Register(f, x) in WriterTable(trace, b)
    requires e == R.RegEdge(WriterTable(trace, b)[R.Register(f, x)], NodeAt(trace[..b]), trace[b].tag)
    ensures e in R.RegisterEdges(ParseAll(trace[..n]).reg)
  {
    var p, r := ParseAll(trace[..b]), trace[b];
    ParseStep(trace, b);
    CursorNode(trace[..b]);
    ReadGetsEdge(p, r.tag, r.size, r.value, r.name);
  }

  lemma PrefixEdges(early: seq<R.Event>, events: seq<R.Event>, e: R.RegEdge)
    requires early <= events && e in R.RegisterEdges(early)
    ensures e in R.RegisterEdges(events)
  {
    assert events[..|early|] == early;
    EdgesGrow(events, |early|, e);
  }

  lemma RegisterEdgeIsEdge(trace: seq<Record>, readyMode: bool, edges: map<Pair, nat>, e: R.RegEdge)
    requires TraceEdges(trace, readyMode, edges) && e in R.RegisterEdges(ParseAll(trace).reg) && e.src != e.dst
    ensures (e.src, e.dst) in edges
  {
    var p := ParseAll(trace);
    var es := R.RegisterEdges(p.reg);
    var j :| 0 <= j < |es| && es[j] == e;
    assert Kind(edges, es, M.MemoryEdges(p.mem, readyMode), C.ControlEdges(p.insts), (e.src, e.dst));
  }

  /** Whoever wrote a register, a parameter that reads it waits for them unless it was written in between. */
  lemma WrittenReachesRead(trace: seq<Record>, readyMode: bool, edges: map<Pair, nat>, a: nat, b: nat,
                           f: R.DynFunction, x: string, writer: nat)
    requires TraceEdges(trace, readyMode, edges) && a <= b < |trace| && ReadableAt(trace, b)
    requires R.Register(f, x) in WriterTable(trace, a) && WriterTable(trace, a)[R.Register(f, x)] == writer
    requires ReadIn(trace, b, f, x) && NotWritten(trace, a, b, f, x) && writer != NodeAt(trace[..b])
    ensures (writer, NodeAt(trace[..b])) in edges
  {
    var e := R.RegEdge(writer, NodeAt(trace[..b]), trace[b].tag);
    WriterStays(trace, a, b, f, x);
    ReadHasEdge(trace, b, f, x, e);
    RegisterEdgeIsEdge(trace, readyMode, edges, e);
  }

  /** In the edges of every trace: a parameter that reads register `x` waits for the node whose result record wrote
      `x` last in the same invocation. */
  lemma ResultReachesRead(trace: seq<Record>, readyMode: bool, edges: map<Pair, nat>, a: nat, b: nat,
                          f: R.DynFunction, x: string)
    requires TraceEdges(trace, readyMode, edges) && a < b < |trace| && ReadableAt(trace, a) && ReadableAt(trace, b)
    requires ResultIn(trace, a, f, x) && ReadIn(trace, b, f, x) && NotWritten(trace, a + 1, b, f, x)
    requires NodeAt(trace[..a]) != NodeAt(trace[..b])
    ensures (NodeAt(trace[..a]), NodeAt(trace[..b])) in edges
  {
    ResultWrites(trace, a, f, x);
    WrittenReachesRead(trace, readyMode, edges, a + 1, b, f, x, NodeAt(trace[..a]));
  }

  /** A parameter that reads a forwarded argument waits for the node that produced it before the call. */
  lemma ForwardReachesRead(trace: seq<Record>, readyMode: bool, edges: map<Pair, nat>, a: nat, b: nat,
                           f: R.DynFunction, x: string)
    requires TraceEdges(trace, readyMode, edges) && a < b < |trace| && ReadableAt(trace, a) && ReadableAt(trace, b)
    requires ForwardedTo(trace, a, f, x) && ReadIn(trace, b, f, x) && NotWritten(trace, a + 1, b, f, x)
    requires var c := ParseAll(trace[..a]).at;
      c.op == Call && c.args != [] && c.args[0].isReg && c.args[0].last != NodeAt(trace[..b])
    ensures (ParseAll(trace[..a]).at.args[0].last, NodeAt(trace[..b])) in edges
  {
    var p := ParseAll(trace[..a]);
    ParseStep(trace, a);
    WritersAppended(p.reg, R.Write(R.Register(f, x), p.at.args[0].last));
    WrittenReachesRead(trace, readyMode, edges, a + 1, b, f, x, p.at.args[0].last);
  }

  /** The address operand of a load or store that nobody has written counts as written by it. */
  lemma AddressReachesRead(trace: seq<Record>, readyMode: bool, edges: map<Pair, nat>, a: nat, b: nat,
                           f: R.DynFunction, x: string)
    requires TraceEdges(trace, readyMode, edges) && a < b < |trace| && ReadableAt(trace, a) && ReadableAt(trace, b)
    requires ReadIn(trace, a, f, x) && R.Register(f, x) !in WriterTable(trace, a)
    requires var op := ParseAll(trace[..a]).at.op;
      (op == Load && trace[a].tag == 1) || (op == Store && trace[a].tag == 2)
    requires ReadIn(trace, b, f, x) && NotWritten(trace, a + 1, b, f, x) && NodeAt(trace[..a]) != NodeAt(trace[..b])
    ensures (NodeAt(trace[..a]), NodeAt(trace[..b])) in edges
  {
    AddressWrites(trace, a, f, x);
    WrittenReachesRead(trace, readyMode, edges, a + 1, b, f, x, NodeAt(trace[..a]));
  }

  lemma AddressWrites(trace: seq<Record>, a: nat, f: R.DynFunction, x: string)
    requires a < |trace| && ReadableAt(trace, a) && ReadIn(trace, a, f, x) && R.Register(f, x) !in WriterTable(trace, a)
    requires var op := ParseAll(trace[..a]).at.op;
      (op == Load && trace[a].tag == 1) || (op == Store && trace[a].tag == 2)
    ensures R.Register(f, x) in WriterTable(trace, a + 1)
    ensures WriterTable(trace, a + 1)[R.Register(f, x)] == NodeAt(trace[..a])
  {
    var p, r := ParseAll(trace[..a]), trace[a];
    var reg := R.Register(f, x);
    ParseStep(trace, a);
    CursorNode(trace[..a]);
    ParameterCursorKeeps(p.at, R.Writers(p.reg), r.tag, r.size, r.value, r.isReg, r.name);
    WritersAppended(p.reg + [R.Read(reg, p.at.id, r.tag)], R.Write(reg, p.at.id));
    assert p.reg + [R.Read(reg, p.at.id, r.tag), R.Write(reg, p.at.id)] ==
      p.reg + [R.Read(reg, p.at.id, r.tag)] + [R.Write(reg, p.at.id)];
  }

  /** In the schedule of every trace, a node starts no earlier than the node whose result it reads completes. */
  lemma ResultScheduled(g: Graph, trace: seq<Record>, readyMode: bool, hostDma: nat -> bool, place: nat -> Placement,
                        start: seq<int>, complete: seq<int>, a: nat, b: nat, f: R.DynFunction, x: string, u: nat,
                        v: nat)
    requires IsTraceGraph(g, trace, readyMode, hostDma, place) && AlapCorrect.Precedence(g, start, complete)
    requires a < b < |trace| && ReadableAt(trace, a) && ReadableAt(trace, b)
    requires ResultIn(trace, a, f, x) && ReadIn(trace, b, f, x) && NotWritten(trace, a + 1, b, f, x)
    requires u < |Instructions(trace)| && v < |Instructions(trace)|
    requires Instructions(trace)[u].id == NodeAt(trace[..a]) != NodeAt(trace[..b]) == Instructions(trace)[v].id
    ensures u < |complete| && v < |start| && complete[u] <= start[v]
  {
    var edges :| TraceEdges(trace, readyMode, edges) && g == GraphOf(Instructions(trace), edges, hostDma, place);
    ResultReachesRead(trace, readyMode, edges, a, b, f, x);
    GraphHasEdges(Instructions(trace), edges, hostDma, place, g, u, v);
  }
}
