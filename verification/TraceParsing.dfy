/** What the records of a trace mean, as a fold: the instructions, the memory accesses and the register
    reads and writes they stand for, with the stack of active functions that decides which register a
    name denotes. */
module TraceParsing {
  import opened Collections
  import opened ExecNodes
  import C = ControlDependence
  import M = MemoryDependence
  import R = RegisterDependence

  datatype Param = Param(value: nat, size: nat)
  datatype CallerArg = CallerArg(last: nat, isReg: bool)

  datatype Record =
    | Instruction(id: nat, op: MicroOp, func: string, block: string)
    | Parameter(tag: nat, size: nat, value: nat, isReg: bool, name: string, fromBlock: string)
    | Result(size: nat, value: nat, name: string)
    | Forward(name: string)
    | EntryDeclaration

  const BYTE := 8

  /** Operations whose argument values are kept. */
  predicate KeepsParameters(op: MicroOp) {
    op.Load? || op.Store? || op.GetElementPtr? || IsHostOp(op) || op.SetSamplingFactor?
  }

  /** Calls that are not treated as calls: nothing is forwarded to them. */
  predicate TakesNoArguments(op: MicroOp) {
    IsHostOp(op) || op.SpecialMath? || op.SetSamplingFactor?
  }

  datatype HostAccess = HostAccess(src: nat, dst: nat, size: nat)

  /** The three versions of the DMA interface, told apart by arity and return value. */
  function DmaVersion(numParameters: nat, result: nat): nat {
    if result == 3 then 3 else if numParameters == 5 && result == 0 then 2 else 1
  }

  function HostAccessOf(params: seq<Param>, numParameters: nat, result: nat): HostAccess
    requires |params| > (if DmaVersion(numParameters, result) == 2 then 4 else 3)
  {
    var base := params[1].value;
    match DmaVersion(numParameters, result)
    case 1 => HostAccess(base + params[2].value, base + params[2].value, params[3].value)
    case 2 => HostAccess(base + params[2].value, base + params[3].value, params[4].value)
    case _ => HostAccess(params[2].value, base, params[3].value)
  }

  // ----- where the parser stands

  /** The current instruction, its parameters so far, and the active functions. */
  datatype Cursor = Cursor(
    id: nat, op: MicroOp, prevOp: MicroOp, inEntry: bool,
    prevBlock: string, currBlock: string,
    lastParameter: bool, numParameters: nat, params: seq<Param>, args: seq<CallerArg>,
    active: seq<R.DynFunction>, invocations: map<string, int>, func: R.DynFunction,
    callee: Option<string>, calleeFunction: R.DynFunction)

  const NO_FUNCTION := R.DynFunction("", -1)

  const AT_START := Cursor(0, Other, Other, false, "-1", "-1", false, 0, [], [], [], map[], NO_FUNCTION, None,
                           NO_FUNCTION)

  function Invocations(c: Cursor, f: string): int {
    if f in c.invocations then c.invocations[f] else -1
  }

  /** A new invocation of `f` on top of the stack. */
  function Pushed(c: Cursor, f: string): Cursor {
    var count := Invocations(c, f) + 1;
    c.(invocations := c.invocations[f := count], active := c.active + [R.DynFunction(f, count)],
       func := R.DynFunction(f, count))
  }

  /** The instruction belongs to the function on top of the stack, unless the previous instruction called that
      function; a return takes the top off. */
  function EnterFunction(c: Cursor, f: string, op: MicroOp): Cursor {
    if c.active == [] then Pushed(c, f)
    else
      var top := c.active[|c.active| - 1];
      var same := f == top.name;
      var d := if !same then c else if c.prevOp.Call? && c.callee == Some(f) then Pushed(c, f) else c.(func := top);
      var e := if op.Ret? then d.(active := d.active[..|d.active| - 1]) else d;
      if same then e else Pushed(e, f)
  }

  /** A PHI node after another kind of node looks back at the block before this one. */
  function EnterBlock(c: Cursor, op: MicroOp, block: string): Cursor {
    c.(prevBlock := if op.Phi? && !c.prevOp.Phi? then c.currBlock else c.prevBlock, currBlock := block)
  }

  /** An entry declaration counts as an operation of its own. */
  function Begin(c: Cursor, id: nat, op: MicroOp): Cursor {
    c.(id := id, op := op, prevOp := if c.inEntry then Other else c.op, inEntry := false,
       lastParameter := false, params := [], args := [])
  }

  function NextInstruction(c: Cursor, id: nat, op: MicroOp, func: string, block: string): Cursor {
    EnterBlock(EnterFunction(Begin(c, id, op), func, op), op, block)
  }

  /** The first parameter parsed is the last one passed: it gives the arity and, for a call, names the callee. */
  function FirstParameter(c: Cursor, tag: nat, name: string): Cursor {
    if c.lastParameter then c
    else
      var callee := if c.op.Call? then Some(name) else c.callee;
      c.(lastParameter := true, numParameters := tag, callee := callee,
         calleeFunction := if callee.None? then c.calleeFunction
                           else R.DynFunction(callee.value, Invocations(c, callee.value) + 1))
  }

  /** The last node to write a register, or the current one if none did. */
  function ProducerOf(c: Cursor, writers: map<R.Register, nat>, reg: R.Register): nat {
    if reg in writers then writers[reg] else c.id
  }

  /** A call remembers, argument by argument, which node produced the value it passes. */
  function PassArgument(c: Cursor, writers: map<R.Register, nat>, tag: nat, isReg: bool, reg: R.Register): Cursor {
    if !c.op.Call? || tag == c.numParameters then c
    else if isReg then c.(args := c.args + [CallerArg(ProducerOf(c, writers, reg), true)])
    else c.(args := c.args + [CallerArg(0, false)])
  }

  function KeepValue(c: Cursor, size: nat, value: nat): Cursor {
    if KeepsParameters(c.op) then c.(params := c.params + [Param(value, size)]) else c
  }

  // ----- the events of a record

  /** A register operand is read. A load or store whose address register nobody wrote counts as writing it. */
  function OperandEvents(c: Cursor, writers: map<R.Register, nat>, tag: nat, reg: R.Register): seq<R.Event> {
    if reg !in writers && ((c.op.Store? && tag == 2) || (c.op.Load? && tag == 1))
    then [R.Read(reg, c.id, tag), R.Write(reg, c.id)]
    else [R.Read(reg, c.id, tag)]
  }

  /** The address of a store comes with its first parsed parameter. */
  function StoreEvents(c: Cursor, tag: nat, size: nat): seq<M.Event> {
    if c.op.Store? && tag == 2 && c.params != [] then [M.Store(c.id, c.params[0].value, size / BYTE)] else []
  }

  /** Enough parameters were recorded for the result to be interpreted. */
  predicate ResultReadable(c: Cursor, value: nat) {
    && (c.op.Load? ==> c.params != [])
    && (IsHostLoad(c.op) || IsHostStore(c.op) ==>
          |c.params| > (if DmaVersion(c.numParameters, value) == 2 then 4 else 3))
    && (c.op.SetReadyBits? ==> |c.params| > 3)
  }

  /** The memory access that a result completes. */
  function ResultEvents(c: Cursor, size: nat, value: nat): seq<M.Event>
    requires ResultReadable(c, value)
  {
    if c.op.Load? then [M.Load(c.id, c.params[|c.params| - 1].value, size / BYTE)]
    else if IsHostLoad(c.op) then
      var h := HostAccessOf(c.params, c.numParameters, value); [M.HostLoad(c.id, h.dst, h.size)]
    else if IsHostStore(c.op) then
      var h := HostAccessOf(c.params, c.numParameters, value); [M.HostStore(c.id, h.src, h.size)]
    else if c.op.SetReadyBits? then [M.SetReady(c.id, c.params[1].value, c.params[2].value)]
    else []
  }

  /** A callee's register takes over the producer of the argument passed for it. */
  function ForwardEvents(c: Cursor, name: string): seq<R.Event> {
    if !TakesNoArguments(c.op) && c.args != [] && c.args[0].isReg
    then [R.Write(R.Register(c.calleeFunction, name), c.args[0].last)] else []
  }

  function AfterForward(c: Cursor): Cursor {
    if !TakesNoArguments(c.op) && c.args != [] then c.(args := c.args[1..]) else c
  }

  // ----- the fold

  datatype Parse = Parse(at: Cursor, insts: seq<C.Inst>, mem: seq<M.Event>, reg: seq<R.Event>)

  const NOTHING := Parse(AT_START, [], [], [])

  /** Parameters of entry declarations, and PHI inputs from other blocks, are ignored. */
  predicate Ignored(c: Cursor, fromBlock: string) {
    c.inEntry || (c.op.Phi? && c.prevBlock != fromBlock)
  }

  /** Can the record be parsed here? */
  predicate ParsableAt(c: Cursor, started: bool, r: Record) {
    match r
    case Instruction(_, _, _, _) => true
    case EntryDeclaration => true
    case Parameter(_, _, _, _, _, _) => started || c.inEntry
    case Result(_, value, _) => started && !c.inEntry && ResultReadable(c, value)
    case Forward(_) => started && !c.inEntry && (c.op.Call? || TakesNoArguments(c.op))
  }

  predicate Parsable(p: Parse, r: Record) {
    ParsableAt(p.at, p.insts != [], r)
  }

  function AfterInstruction(p: Parse, id: nat, op: MicroOp, func: string, block: string): Parse {
    p.(at := NextInstruction(p.at, id, op, func, block), insts := p.insts + [C.Inst(id, op)])
  }

  function ParameterCursor(c: Cursor, writers: map<R.Register, nat>, tag: nat, size: nat, value: nat,
                           isReg: bool, name: string): Cursor {
    KeepValue(PassArgument(FirstParameter(c, tag, name), writers, tag, isReg, R.Register(c.func, name)), size, value)
  }

  function AfterParameter(p: Parse, tag: nat, size: nat, value: nat, isReg: bool, name: string): Parse {
    var c := ParameterCursor(p.at, R.Writers(p.reg), tag, size, value, isReg, name);
    Parse(c, p.insts, p.mem + StoreEvents(c, tag, size),
          p.reg + if isReg then OperandEvents(c, R.Writers(p.reg), tag, R.Register(c.func, name)) else [])
  }

  function AfterResult(p: Parse, size: nat, value: nat, name: string): Parse
    requires ResultReadable(p.at, value)
  {
    p.(mem := p.mem + ResultEvents(p.at, size, value), reg := p.reg + [R.Write(R.Register(p.at.func, name), p.at.id)])
  }

  function AfterForwarding(p: Parse, name: string): Parse {
    p.(at := AfterForward(p.at), reg := p.reg + ForwardEvents(p.at, name))
  }

  function ParseOne(p: Parse, r: Record): Parse
    requires Parsable(p, r)
  {
    match r
    case Instruction(id, op, func, block) => AfterInstruction(p, id, op, func, block)
    case EntryDeclaration => p.(at := p.at.(inEntry := true))
    case Parameter(tag, size, value, isReg, name, fromBlock) =>
      if Ignored(p.at, fromBlock) then p else AfterParameter(p, tag, size, value, isReg, name)
    case Result(size, value, name) => AfterResult(p, size, value, name)
    case Forward(name) => AfterForwarding(p, name)
  }

  /** The meaning of a trace; a record that cannot be parsed where it stands means nothing. */
  function ParseAll(trace: seq<Record>): Parse {
    if trace == [] then NOTHING
    else
      var p, r := ParseAll(trace[..|trace| - 1]), trace[|trace| - 1];
      if Parsable(p, r) then ParseOne(p, r) else p
  }

  /** Every record can be parsed where it stands. */
  ghost predicate Readable(trace: seq<Record>) {
    forall k: nat :: k < |trace| ==> ReadableAt(trace, k)
  }

  ghost predicate ReadableAt(trace: seq<Record>, k: nat)
    requires k < |trace|
  {
    Parsable(ParseAll(trace[..k]), trace[k])
  }

  predicate IdsIncrease(trace: seq<Record>) {
    forall i, j :: 0 <= i < j < |trace| && trace[i].Instruction? && trace[j].Instruction? ==> trace[i].id < trace[j].id
  }

  /** The instructions of a trace do not depend on the rest. */
  function Instructions(trace: seq<Record>): seq<C.Inst> {
    if trace == [] then []
    else
      var r := trace[|trace| - 1];
      Instructions(trace[..|trace| - 1]) + (if r.Instruction? then [C.Inst(r.id, r.op)] else [])
  }

  lemma ParseNext(trace: seq<Record>, n: nat)
    requires n < |trace| && Readable(trace[..n]) && Parsable(ParseAll(trace[..n]), trace[n])
    ensures ParseAll(trace[..n + 1]) == ParseOne(ParseAll(trace[..n]), trace[n]) && Readable(trace[..n + 1])
  {
    var next := trace[..n + 1];
    ParseLast(trace, n);
    forall k: nat | k < |next| ensures ReadableAt(next, k) {
      PrefixReadable(trace, n + 1, k);
      if k < n { PrefixReadable(trace, n, k); }
    }
  }

  lemma ParseLast(trace: seq<Record>, n: nat)
    requires n < |trace| && Parsable(ParseAll(trace[..n]), trace[n])
    ensures ParseAll(trace[..n + 1]) == ParseOne(ParseAll(trace[..n]), trace[n])
  {
    assert trace[..n + 1][..n] == trace[..n];
  }

  lemma PrefixReadable(trace: seq<Record>, n: nat, k: nat)
    requires k < n <= |trace|
    ensures ReadableAt(trace[..n], k) <==> ReadableAt(trace, k)
  {
    assert trace[..n][..k] == trace[..k];
  }

  lemma {:induction false} InstructionsParsed(trace: seq<Record>)
    ensures ParseAll(trace).insts == Instructions(trace)
  {
    if trace != [] { InstructionsParsed(trace[..|trace| - 1]); }
  }

  lemma NextCursor(c: Cursor, id: nat, op: MicroOp, func: string, block: string)
    ensures var d := NextInstruction(c, id, op, func, block);
      d.id == id && d.op == op && d.args == [] && d.params == [] && !d.inEntry
  {
  }

  /** The records of a load, wherever they stand: one access at the value of its parameter, as large as its result. */
  lemma LoadMeans(p: Parse, id: nat, func: string, block: string, param: Record, result: Record)
    requires param.Parameter? && param.tag == 1 && result.Result?
    ensures var a := ParseOne(p, Instruction(id, Load, func, block));
      && Parsable(a, param) && Parsable(ParseOne(a, param), result)
      && ParseOne(ParseOne(a, param), result).mem == p.mem + [M.Load(id, param.value, result.size / 8)]
  {
    NextCursor(p.at, id, Load, func, block);
    var a := ParseOne(p, Instruction(id, Load, func, block));
    var b := ParseOne(a, param);
    assert b.at.params == [Param(param.value, param.size)] && b.mem == p.mem;
    assert b.at.op == Load && b.at.id == id && !b.at.inEntry;
  }

  /** Those of a store: the address is the second operand, which comes first, and it gives the size too. */
  lemma StoreMeans(p: Parse, id: nat, func: string, block: string, address: Record, value: Record)
    requires address.Parameter? && address.tag == 2 && value.Parameter? && value.tag == 1
    ensures var a := ParseOne(p, Instruction(id, Store, func, block));
      && Parsable(a, address) && Parsable(ParseOne(a, address), value)
      && ParseOne(ParseOne(a, address), value).mem == p.mem + [M.Store(id, address.value, address.size / 8)]
  {
    NextCursor(p.at, id, Store, func, block);
    var a := ParseOne(p, Instruction(id, Store, func, block));
    var b := ParseOne(a, address);
    assert b.at.params == [Param(address.value, address.size)] && b.at.op == Store && !b.at.inEntry;
    assert b.mem == p.mem + [M.Store(id, address.value, address.size / BYTE)];
  }
}
