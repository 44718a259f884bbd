/** Every event of a parsed trace names one of its nodes, and reads and accesses come in trace order. */
module TraceLinks {
  import opened Collections
  import opened ExecNodes
  import C = ControlDependence
  import M = MemoryDependence
  import R = RegisterDependence
  import opened MemoryTracking
  import opened TraceParsing

  function Opcodes(insts: seq<C.Inst>): map<nat, MicroOp> {
    if insts == [] then map[]
    else Opcodes(insts[..|insts| - 1])[insts[|insts| - 1].id := insts[|insts| - 1].op]
  }

  predicate Increasing(insts: seq<C.Inst>) {
    forall i, j :: 0 <= i < j < |insts| ==> insts[i].id < insts[j].id
  }

  lemma {:induction false} OpcodesBounded(insts: seq<C.Inst>, x: nat)
    requires Increasing(insts) && x in Opcodes(insts)
    ensures insts != [] && x <= insts[|insts| - 1].id
  {
    var n := |insts| - 1;
    if x != insts[n].id {
      OpcodesBounded(insts[..n], x);
    }
  }

  lemma {:induction false} OpcodesContain(insts: seq<C.Inst>, i: nat)
    requires Increasing(insts) && i < |insts|
    ensures insts[i].id in Opcodes(insts) && Opcodes(insts)[insts[i].id] == insts[i].op
  {
    var n := |insts| - 1;
    if i < n {
      OpcodesContain(insts[..n], i);
    }
  }

  lemma {:induction false} OpcodePosition(insts: seq<C.Inst>, x: nat) returns (i: nat)
    requires x in Opcodes(insts)
    ensures i < |insts| && insts[i].id == x
  {
    var n := |insts| - 1;
    if x == insts[n].id {
      i := n;
    } else {
      i := OpcodePosition(insts[..n], x);
    }
  }

  ghost predicate RegistersKnown(events: seq<R.Event>, nodes: map<nat, MicroOp>) {
    forall e :: e in events ==> e.id in nodes
  }

  ghost predicate ArgsKnown(args: seq<CallerArg>, nodes: map<nat, MicroOp>) {
    forall k :: 0 <= k < |args| && args[k].isReg ==> args[k].last in nodes
  }

  ghost predicate MemoryLinked(mem: seq<M.Event>, nodes: map<nat, MicroOp>) {
    EventsKnown(mem, nodes) && M.IdsGrow(mem)
  }

  ghost predicate RegistersLinked(reg: seq<R.Event>, nodes: map<nat, MicroOp>) {
    RegistersKnown(reg, nodes) && R.ReadsNewest(reg)
  }

  /** The current instruction is the last one. */
  predicate Current(p: Parse) {
    p.insts != [] ==> p.insts[|p.insts| - 1] == C.Inst(p.at.id, p.at.op)
  }

  ghost predicate Linked(p: Parse) {
    && Increasing(p.insts) && Current(p)
    && MemoryLinked(p.mem, Opcodes(p.insts)) && RegistersLinked(p.reg, Opcodes(p.insts))
    && ArgsKnown(p.at.args, Opcodes(p.insts))
  }

  // ----- one more instruction

  lemma IncreasingExtend(insts: seq<C.Inst>, x: C.Inst)
    requires Increasing(insts) && (insts != [] ==> insts[|insts| - 1].id < x.id)
    ensures Increasing(insts + [x])
  {
    forall i | 0 <= i < |insts| ensures insts[i].id < x.id {
      assert i == |insts| - 1 || insts[i].id < insts[|insts| - 1].id;
    }
  }

  lemma OpcodesExtend(insts: seq<C.Inst>, x: C.Inst)
    requires Increasing(insts) && (insts != [] ==> insts[|insts| - 1].id < x.id)
    ensures Opcodes(insts + [x]) == Opcodes(insts)[x.id := x.op] && x.id !in Opcodes(insts)
  {
    if x.id in Opcodes(insts) { OpcodesBounded(insts, x.id); }
    assert (insts + [x])[..|insts|] == insts;
  }

  lemma KnownExtends(mem: seq<M.Event>, reg: seq<R.Event>, nodes: map<nat, MicroOp>, x: C.Inst)
    requires MemoryLinked(mem, nodes) && RegistersLinked(reg, nodes) && x.id !in nodes
    ensures MemoryLinked(mem, nodes[x.id := x.op]) && RegistersLinked(reg, nodes[x.id := x.op])
  {
  }

  lemma InstructionLinks(p: Parse, id: nat, op: MicroOp, func: string, block: string)
    requires Linked(p) && (p.insts != [] ==> id > p.at.id)
    ensures Linked(AfterInstruction(p, id, op, func, block))
  {
    NextCursor(p.at, id, op, func, block);
    IncreasingExtend(p.insts, C.Inst(id, op));
    OpcodesExtend(p.insts, C.Inst(id, op));
    KnownExtends(p.mem, p.reg, Opcodes(p.insts), C.Inst(id, op));
  }

  // ----- one more event

  lemma {:induction false} MemoryExtends(insts: seq<C.Inst>, mem: seq<M.Event>, e: M.Event)
    requires Increasing(insts) && insts != [] && MemoryLinked(mem, Opcodes(insts)) && e.id == insts[|insts| - 1].id
    requires e.HostLoad? <==> IsHostLoad(insts[|insts| - 1].op)
    ensures MemoryLinked(mem + [e], Opcodes(insts))
  {
    OpcodesContain(insts, |insts| - 1);
    forall i | 0 <= i < |mem| ensures mem[i].id <= e.id {
      assert mem[i] in mem;
      OpcodesBounded(insts, mem[i].id);
    }
  }

  lemma {:induction false} RegistersExtend(insts: seq<C.Inst>, reg: seq<R.Event>, e: R.Event)
    requires Increasing(insts) && insts != [] && RegistersLinked(reg, Opcodes(insts)) && e.id in Opcodes(insts)
    requires e.Read? ==> e.id == insts[|insts| - 1].id
    ensures RegistersLinked(reg + [e], Opcodes(insts))
  {
    forall i | 0 <= i < |reg| && e.Read? ensures reg[i].id <= e.id {
      assert reg[i] in reg;
      OpcodesBounded(insts, reg[i].id);
    }
  }

  lemma {:induction false} WritersInside(reg: seq<R.Event>, nodes: map<nat, MicroOp>, r: R.Register)
    requires RegistersKnown(reg, nodes) && r in R.Writers(reg)
    ensures R.Writers(reg)[r] in nodes
  {
    var n := |reg| - 1;
    assert reg[n] in reg;
    if !(reg[n].Write? && reg[n].reg == r) {
      WritersInside(reg[..n], nodes, r);
    }
  }

  lemma OperandLinks(p: Parse, c: Cursor, tag: nat, reg: R.Register)
    requires Linked(p) && p.insts != [] && c.id == p.at.id
    ensures RegistersLinked(p.reg + OperandEvents(c, R.Writers(p.reg), tag, reg), Opcodes(p.insts))
  {
    var read, write := R.Read(reg, p.at.id, tag), R.Write(reg, p.at.id);
    OpcodesContain(p.insts, |p.insts| - 1);
    RegistersExtend(p.insts, p.reg, read);
    RegistersExtend(p.insts, p.reg + [read], write);
    assert p.reg + [read, write] == p.reg + [read] + [write];
  }

  lemma ParameterCursorKeeps(c: Cursor, writers: map<R.Register, nat>, tag: nat, size: nat, value: nat,
                             isReg: bool, name: string)
    ensures var d := ParameterCursor(c, writers, tag, size, value, isReg, name);
      && d.id == c.id && d.op == c.op && d.func == c.func && d.inEntry == c.inEntry
      && (d.args == c.args || d.args == c.args + [CallerArg(0, false)] ||
          d.args == c.args + [CallerArg(ProducerOf(c, writers, R.Register(c.func, name)), true)])
  {
  }

  lemma ArgumentLinks(p: Parse, tag: nat, size: nat, value: nat, isReg: bool, name: string)
    requires Linked(p) && p.insts != []
    ensures ArgsKnown(ParameterCursor(p.at, R.Writers(p.reg), tag, size, value, isReg, name).args, Opcodes(p.insts))
  {
    var reg := R.Register(p.at.func, name);
    ParameterCursorKeeps(p.at, R.Writers(p.reg), tag, size, value, isReg, name);
    OpcodesContain(p.insts, |p.insts| - 1);
    if reg in R.Writers(p.reg) { WritersInside(p.reg, Opcodes(p.insts), reg); }
  }

  lemma StoreLinks(p: Parse, c: Cursor, tag: nat, size: nat)
    requires Linked(p) && p.insts != [] && c.id == p.at.id && c.op == p.at.op
    ensures MemoryLinked(p.mem + StoreEvents(c, tag, size), Opcodes(p.insts))
  {
    var es := StoreEvents(c, tag, size);
    if es != [] { MemoryExtends(p.insts, p.mem, es[0]); } else { assert p.mem + es == p.mem; }
  }

  lemma ParameterLinks(p: Parse, tag: nat, size: nat, value: nat, isReg: bool, name: string)
    requires Linked(p) && p.insts != []
    ensures Linked(AfterParameter(p, tag, size, value, isReg, name))
  {
    var c := ParameterCursor(p.at, R.Writers(p.reg), tag, size, value, isReg, name);
    ParameterCursorKeeps(p.at, R.Writers(p.reg), tag, size, value, isReg, name);
    ArgumentLinks(p, tag, size, value, isReg, name);
    StoreLinks(p, c, tag, size);
    OperandLinks(p, c, tag, R.Register(c.func, name));
    assert p.reg + [] == p.reg;
  }

  lemma ResultLinks(p: Parse, size: nat, value: nat, name: string)
    requires Linked(p) && p.insts != [] && ResultReadable(p.at, value)
    ensures Linked(AfterResult(p, size, value, name))
  {
    var es := ResultEvents(p.at, size, value);
    OpcodesContain(p.insts, |p.insts| - 1);
    RegistersExtend(p.insts, p.reg, R.Write(R.Register(p.at.func, name), p.at.id));
    if es != [] { MemoryExtends(p.insts, p.mem, es[0]); } else { assert p.mem + es == p.mem; }
  }

  lemma ForwardLinks(p: Parse, name: string)
    requires Linked(p) && p.insts != []
    ensures Linked(AfterForwarding(p, name))
  {
    var es := ForwardEvents(p.at, name);
    if es != [] { RegistersExtend(p.insts, p.reg, es[0]); } else { assert p.reg + es == p.reg; }
  }

  /** Whatever the record, the links stay, provided new nodes get larger ids. */
  lemma StepLinks(p: Parse, r: Record)
    requires Linked(p) && Parsable(p, r) && (r.Instruction? && p.insts != [] ==> r.id > p.at.id)
    ensures Linked(ParseOne(p, r))
  {
    match r
    case Instruction(id, op, func, block) => InstructionLinks(p, id, op, func, block);
    case EntryDeclaration =>
    case Parameter(tag, size, value, isReg, name, fromBlock) =>
      if !Ignored(p.at, fromBlock) { ParameterLinks(p, tag, size, value, isReg, name); }
    case Result(size, value, name) => ResultLinks(p, size, value, name);
    case Forward(name) => ForwardLinks(p, name);
  }

  /** The last instruction is older than any that follows. */
  lemma {:induction false} LatestId(trace: seq<Record>, n: nat)
    requires IdsIncrease(trace) && n <= |trace| && Linked(ParseAll(trace[..n])) && ParseAll(trace[..n]).insts != []
    ensures forall k :: n <= k < |trace| && trace[k].Instruction? ==> trace[k].id > ParseAll(trace[..n]).at.id
  {
    InstructionsParsed(trace[..n]);
    var i := LastInstruction(trace[..n]);
  }

  lemma {:induction false} LastInstruction(trace: seq<Record>) returns (i: nat)
    requires Instructions(trace) != []
    ensures i < |trace| && trace[i].Instruction?
    ensures Instructions(trace)[|Instructions(trace)| - 1] == C.Inst(trace[i].id, trace[i].op)
  {
    var n := |trace| - 1;
    if trace[n].Instruction? {
      i := n;
    } else {
      i := LastInstruction(trace[..n]);
    }
  }

  /** Every trace with increasing ids parses into linked events. */
  lemma {:induction false} TraceLinked(trace: seq<Record>, n: nat)
    requires IdsIncrease(trace) && n <= |trace|
    ensures Linked(ParseAll(trace[..n]))
    decreases n
  {
    if n > 0 {
      TraceLinked(trace, n - 1);
      assert trace[..n][..n - 1] == trace[..n - 1];
      var p, r := ParseAll(trace[..n - 1]), trace[n - 1];
      if p.insts != [] { LatestId(trace, n - 1); }
      if Parsable(p, r) { StepLinks(p, r); }
    }
  }
}
