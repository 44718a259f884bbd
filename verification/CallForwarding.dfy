/** What the stack of functions achieves: every invocation has registers of its own, a call predicts the
    invocation it leads to, and a callee's reads wait for the producers of the arguments passed. */
module CallForwarding {
  import opened Collections
  import opened ExecNodes
  import C = ControlDependence
  import M = MemoryDependence
  import R = RegisterDependence
  import opened TraceParsing

  // ----- invocations are numbered

  ghost predicate Entered(c: Cursor, f: R.DynFunction) {
    f.iteration <= Invocations(c, f.name)
  }

  /** The current function and those on the stack have been entered. */
  ghost predicate Numbered(c: Cursor) {
    Entered(c, c.func) && forall k :: 0 <= k < |c.active| ==> Entered(c, c.active[k])
  }

  /** A count never goes down. */
  ghost predicate CountsGrow(c: Cursor, d: Cursor) {
    forall f :: Invocations(c, f) <= Invocations(d, f)
  }

  /** The function on top of the stack goes on, or calls itself. */
  function Continued(c: Cursor, f: string): Cursor
    requires c.active != []
  {
    var top := c.active[|c.active| - 1];
    if f != top.name then c else if c.prevOp.Call? && c.callee == Some(f) then Pushed(c, f) else c.(func := top)
  }

  function Popped(c: Cursor, op: MicroOp): Cursor
    requires c.active != []
  {
    if op.Ret? then c.(active := c.active[..|c.active| - 1]) else c
  }

  lemma EnterIs(c: Cursor, f: string, op: MicroOp)
    requires c.active != []
    ensures var e := Popped(Continued(c, f), op);
      EnterFunction(c, f, op) == if f == c.active[|c.active| - 1].name then e else Pushed(e, f)
  {
  }

  lemma PushedNumbered(c: Cursor, f: string)
    requires Numbered(c)
    ensures Numbered(Pushed(c, f)) && CountsGrow(c, Pushed(c, f))
  {
    forall k | 0 <= k < |c.active| ensures Entered(Pushed(c, f), c.active[k]) { assert Entered(c, c.active[k]); }
  }

  lemma ContinuedNumbered(c: Cursor, f: string)
    requires Numbered(c) && c.active != []
    ensures Numbered(Continued(c, f)) && CountsGrow(c, Continued(c, f)) && Continued(c, f).active != []
    ensures f == c.active[|c.active| - 1].name ==> Continued(c, f).func.name == f
  {
    PushedNumbered(c, f);
    assert Entered(c, c.active[|c.active| - 1]);
  }

  lemma PoppedNumbered(c: Cursor, op: MicroOp)
    requires Numbered(c) && c.active != []
    ensures Numbered(Popped(c, op)) && CountsGrow(c, Popped(c, op)) && Popped(c, op).func == c.func
  {
  }

  lemma GrowTrans(c: Cursor, d: Cursor, e: Cursor)
    requires CountsGrow(c, d) && CountsGrow(d, e)
    ensures CountsGrow(c, e)
  {
  }

  lemma EnterNumbered(c: Cursor, f: string, op: MicroOp)
    requires Numbered(c)
    ensures Numbered(EnterFunction(c, f, op)) && CountsGrow(c, EnterFunction(c, f, op))
    ensures EnterFunction(c, f, op).func.name == f
  {
    if c.active == [] {
      PushedNumbered(c, f);
    } else {
      ContinuedNumbered(c, f);
      var d := Continued(c, f);
      PoppedNumbered(d, op);
      var e := Popped(d, op);
      GrowTrans(c, d, e);
      PushedNumbered(e, f);
      GrowTrans(c, e, Pushed(e, f));
      EnterIs(c, f, op);
    }
  }

  lemma InstructionNumbered(c: Cursor, id: nat, op: MicroOp, func: string, block: string)
    requires Numbered(c)
    ensures var d := NextInstruction(c, id, op, func, block); Numbered(d) && CountsGrow(c, d) && d.func.name == func
  {
    EnterNumbered(Begin(c, id, op), func, op);
  }

  lemma StepNumbered(p: Parse, r: Record)
    requires Parsable(p, r) && Numbered(p.at)
    ensures Numbered(ParseOne(p, r).at) && CountsGrow(p.at, ParseOne(p, r).at)
  {
    if r.Instruction? { InstructionNumbered(p.at, r.id, r.op, r.func, r.block); }
  }

  lemma {:induction false} TraceNumbered(trace: seq<Record>)
    ensures Numbered(ParseAll(trace).at)
  {
    if trace != [] {
      var n := |trace| - 1;
      TraceNumbered(trace[..n]);
      if Parsable(ParseAll(trace[..n]), trace[n]) { StepNumbered(ParseAll(trace[..n]), trace[n]); }
    }
  }

  lemma {:induction false} CountsGrowAlong(trace: seq<Record>, n: nat)
    requires n <= |trace|
    ensures CountsGrow(ParseAll(trace[..n]).at, ParseAll(trace).at)
    decreases |trace|
  {
    if n == |trace| {
      assert trace[..n] == trace;
    } else {
      var m := |trace| - 1;
      CountsGrowAlong(trace[..m], n);
      assert trace[..m][..n] == trace[..n];
      TraceNumbered(trace[..m]);
      if Parsable(ParseAll(trace[..m]), trace[m]) { StepNumbered(ParseAll(trace[..m]), trace[m]); }
    }
  }

  // ----- which invocation an instruction belongs to

  /** An instruction of the function on top of the stack belongs to its invocation, unless it follows a self call. */
  lemma FunctionGoesOn(c: Cursor, id: nat, op: MicroOp, block: string)
    requires c.active != []
    requires var f := c.active[|c.active| - 1].name; !(c.op == Call && !c.inEntry && c.callee == Some(f))
    ensures var top := c.active[|c.active| - 1];
      var d := NextInstruction(c, id, op, top.name, block);
      && d.func == top
      && d.active == (if op == Ret then c.active[..|c.active| - 1] else c.active) && d.invocations == c.invocations
  {
  }

  /** An instruction of any other function begins an invocation of it, on top of the stack. */
  lemma FunctionBegins(c: Cursor, id: nat, op: MicroOp, f: string, block: string)
    requires op != Ret && (c.active == [] || f != c.active[|c.active| - 1].name)
    ensures var d := NextInstruction(c, id, op, f, block);
      && d.func == R.DynFunction(f, Invocations(c, f) + 1) && d.active == c.active + [d.func]
  {
  }

  /** After a return the caller's invocation goes on where it was. */
  lemma CallerResumes(c: Cursor, id: nat, block: string, next: nat, op: MicroOp, home: string)
    requires |c.active| >= 2 && c.op != Call
    ensures var n := |c.active|;
      var back := NextInstruction(c, id, Ret, c.active[n - 1].name, block);
      var d := NextInstruction(back, next, op, c.active[n - 2].name, home);
      back.func == c.active[n - 1] && d.func == c.active[n - 2]
  {
    var n := |c.active|;
    FunctionGoesOn(c, id, Ret, block);
    var back := NextInstruction(c, id, Ret, c.active[n - 1].name, block);
    NextCursor(c, id, Ret, c.active[n - 1].name, block);
    FunctionGoesOn(back, next, op, home);
  }

  // ----- whose registers a record touches

  /** The events that record `n` adds. */
  ghost function EventsOf(trace: seq<Record>, n: nat): seq<R.Event>
    requires n < |trace|
  {
    var p := ParseAll(trace[..n]);
    if Parsable(p, trace[n]) then ParseOne(p, trace[n]).reg[|p.reg|..] else []
  }

  /** Except for forwarded arguments, they are on registers of the current invocation. */
  lemma RecordTouchesOwn(p: Parse, r: Record, e: R.Event)
    requires Parsable(p, r) && !r.Forward? && |ParseOne(p, r).reg| >= |p.reg| && e in ParseOne(p, r).reg[|p.reg|..]
    ensures e.reg.func == p.at.func
  {
  }

  /** A new invocation has registers of its own: no earlier record touches them, except to forward arguments. */
  lemma NewInvocationIsFresh(trace: seq<Record>, n: nat, k: nat, e: R.Event)
    requires k < n < |trace| && trace[n].Instruction? && !trace[k].Forward? && e in EventsOf(trace, k)
    requires var c := ParseAll(trace[..n]).at;
      Invocations(ParseAll(trace[..n + 1]).at, trace[n].func) > Invocations(c, trace[n].func)
    ensures e.reg.func != ParseAll(trace[..n + 1]).at.func
  {
    var c := EarlierFunction(trace, k, n, e);
    var d := ParseAll(trace[..n]).at;
    NextParse(trace, n, n + 1);
    NewFunction(d, trace[n].id, trace[n].op, trace[n].func, trace[n].block);
    NotYetEntered(c, d, trace[n].func);
  }

  lemma EarlierFunction(trace: seq<Record>, k: nat, n: nat, e: R.Event) returns (c: Cursor)
    requires k < n < |trace| && !trace[k].Forward? && e in EventsOf(trace, k)
    ensures Numbered(c) && CountsGrow(c, ParseAll(trace[..n]).at) && e.reg.func == c.func
  {
    var p := ParseAll(trace[..k]);
    c := p.at;
    RecordTouchesOwn(p, trace[k], e);
    TraceNumbered(trace[..k]);
    CountsGrowAlong(trace[..n], k);
    assert trace[..n][..k] == trace[..k];
  }

  /** The next invocation of a function is not the current one of an earlier moment. */
  lemma NotYetEntered(c: Cursor, d: Cursor, f: string)
    requires Numbered(c) && CountsGrow(c, d)
    ensures c.func != R.DynFunction(f, Invocations(d, f) + 1)
  {
  }

  lemma NextParse(trace: seq<Record>, n: nat, m: nat)
    requires n < |trace| && m == n + 1 && trace[n].Instruction?
    ensures ParseAll(trace[..m]).at ==
      NextInstruction(ParseAll(trace[..n]).at, trace[n].id, trace[n].op, trace[n].func, trace[n].block)
  {
    assert trace[..m][..n] == trace[..n];
  }

  lemma NewFunction(c: Cursor, id: nat, op: MicroOp, func: string, block: string)
    requires Invocations(NextInstruction(c, id, op, func, block), func) > Invocations(c, func)
    ensures NextInstruction(c, id, op, func, block).func == R.DynFunction(func, Invocations(c, func) + 1)
  {
    PushedIsLatest(Begin(c, id, op), func, op);
  }

  lemma PushedIsLatest(c: Cursor, f: string, op: MicroOp)
    requires Invocations(EnterFunction(c, f, op), f) > Invocations(c, f)
    ensures EnterFunction(c, f, op).func == R.DynFunction(f, Invocations(c, f) + 1)
  {
  }

  // ----- calls

  /** At a call of `f`, its callee named and the invocation predicted. */
  ghost predicate Calling(c: Cursor, f: string) {
    c.op.Call? && c.callee == Some(f) && c.calleeFunction == R.DynFunction(f, Invocations(c, f) + 1)
  }

  /** The first parameter parsed predicts it. */
  lemma CallPredicts(c: Cursor, tag: nat, f: string)
    requires c.op.Call? && !c.lastParameter
    ensures Calling(FirstParameter(c, tag, f), f)
  {
  }

  /** The callee's first instruction enters the predicted invocation, unless a function calls itself across an
      entry declaration. */
  lemma CalleeEnteredIff(c: Cursor, f: string, id: nat, op: MicroOp, block: string)
    requires Calling(c, f) && Numbered(c)
    ensures NextInstruction(c, id, op, f, block).func == c.calleeFunction <==>
      !(c.inEntry && c.active != [] && c.active[|c.active| - 1].name == f)
  {
    if c.active != [] { assert Entered(c, c.active[|c.active| - 1]); }
  }

  /** The failing case: the invocation stays the caller's. */
  lemma SelfCallAcrossEntry()
    ensures var called := ParseOne(ParseOne(NOTHING, Instruction(0, Call, "f", "b")),
                                   Parameter(1, 0, 0, false, "f", "b"));
      var entered := ParseOne(ParseOne(called, EntryDeclaration), Instruction(1, Add, "f", "b"));
      && called.at.calleeFunction == R.DynFunction("f", 1)
      && entered.at.func == called.at.func == R.DynFunction("f", 0)
  {
    var first := ParseOne(NOTHING, Instruction(0, Call, "f", "b"));
    assert first.at.active == [R.DynFunction("f", 0)] && first.at.func == R.DynFunction("f", 0);
  }

  /** A register argument is remembered with the node that produced it. */
  lemma ArgumentProducer(p: Parse, tag: nat, size: nat, value: nat, name: string)
    requires p.at.op.Call? && p.at.lastParameter && tag != p.at.numParameters
    requires R.Register(p.at.func, name) in R.Writers(p.reg)
    ensures var a := AfterParameter(p, tag, size, value, true, name).at.args;
      a == p.at.args + [CallerArg(R.Writers(p.reg)[R.Register(p.at.func, name)], true)]
  {
  }

  /** An argument nobody wrote is remembered with the call itself, a literal one only as such; both take a place. */
  lemma OtherArgument(p: Parse, tag: nat, size: nat, value: nat, isReg: bool, name: string)
    requires p.at.op == Call && p.at.lastParameter && tag != p.at.numParameters
    requires !isReg || R.Register(p.at.func, name) !in R.Writers(p.reg)
    ensures var a := AfterParameter(p, tag, size, value, isReg, name).at.args;
      a == p.at.args + [if isReg then CallerArg(p.at.id, true) else CallerArg(0, false)]
  {
  }

  // ----- forwarding

  /** Forward records, one for each formal parameter. */
  function Forwarded(p: Parse, names: seq<string>): Parse {
    if names == [] then p else AfterForwarding(Forwarded(p, names[..|names| - 1]), names[|names| - 1])
  }

  lemma {:induction false} ForwardedCursor(p: Parse, names: seq<string>)
    requires p.at.op.Call? && |names| <= |p.at.args|
    ensures Forwarded(p, names).at == p.at.(args := p.at.args[|names|..])
  {
    if names != [] { ForwardedCursor(p, names[..|names| - 1]); }
  }

  /** The formal parameter holds the producer of the argument in its place. */
  lemma {:induction false} FormalHoldsArgument(p: Parse, names: seq<string>, i: nat)
    requires p.at.op.Call? && i < |names| <= |p.at.args| && p.at.args[i].isReg
    requires forall j :: i < j < |names| ==> names[j] != names[i]
    ensures var reg, w := R.Register(p.at.calleeFunction, names[i]), R.Writers(Forwarded(p, names).reg);
      reg in w && w[reg] == p.at.args[i].last
  {
    var front, last := names[..|names| - 1], names[|names| - 1];
    NextArgument(p, front);
    ForwardWrites(Forwarded(p, front), last);
    if i < |front| { FormalHoldsArgument(p, front, i); }
  }

  lemma NextArgument(p: Parse, names: seq<string>)
    requires p.at.op.Call? && |names| < |p.at.args|
    ensures var c := Forwarded(p, names).at;
      c.op.Call? && c.calleeFunction == p.at.calleeFunction && c.args != [] && c.args[0] == p.at.args[|names|]
  {
    ForwardedCursor(p, names);
  }

  lemma ForwardWrites(p: Parse, name: string)
    requires p.at.op.Call? && p.at.args != []
    ensures var w := R.Writers(p.reg);
      R.Writers(AfterForwarding(p, name).reg) ==
        if p.at.args[0].isReg then w[R.Register(p.at.calleeFunction, name) := p.at.args[0].last] else w
  {
    var after := AfterForwarding(p, name).reg;
    if p.at.args[0].isReg {
      assert after[..|p.reg|] == p.reg;
    } else {
      assert after == p.reg;
    }
  }

  /** So a read of a formal parameter in the callee waits for the caller's producer of the argument. */
  lemma ArgumentReaches(p: Parse, f: string, names: seq<string>, i: nat, id: nat, op: MicroOp, block: string,
                        tag: nat, size: nat, value: nat)
    requires Calling(p.at, f) && Numbered(p.at) && i < |names| <= |p.at.args| && p.at.args[i].isReg
    requires forall j :: i < j < |names| ==> names[j] != names[i]
    requires !(p.at.inEntry && p.at.active != [] && p.at.active[|p.at.active| - 1].name == f)
    ensures var entered := AfterInstruction(Forwarded(p, names), id, op, f, block);
      var read := AfterParameter(entered, tag, size, value, true, names[i]);
      R.RegEdge(p.at.args[i].last, id, tag) in R.RegisterEdges(read.reg)
  {
    var entered := AfterInstruction(Forwarded(p, names), id, op, f, block);
    FormalHoldsArgument(p, names, i);
    PredictedEntered(p, f, names, id, op, block);
    ReadGetsEdge(entered, tag, size, value, names[i]);
  }

  lemma PredictedEntered(p: Parse, f: string, names: seq<string>, id: nat, op: MicroOp, block: string)
    requires Calling(p.at, f) && Numbered(p.at) && |names| <= |p.at.args|
    requires !(p.at.inEntry && p.at.active != [] && p.at.active[|p.at.active| - 1].name == f)
    ensures var entered := AfterInstruction(Forwarded(p, names), id, op, f, block);
      entered.at.func == p.at.calleeFunction && entered.at.id == id && entered.reg == Forwarded(p, names).reg
  {
    var c := p.at.(args := p.at.args[|names|..]);
    ForwardedCursor(p, names);
    assert Calling(c, f) && Numbered(c);
    CalleeEnteredIff(c, f, id, op, block);
    NextCursor(c, id, op, f, block);
  }

  lemma ReadGetsEdge(p: Parse, tag: nat, size: nat, value: nat, name: string)
    requires R.Register(p.at.func, name) in R.Writers(p.reg)
    ensures R.RegEdge(R.Writers(p.reg)[R.Register(p.at.func, name)], p.at.id, tag) in
      R.RegisterEdges(AfterParameter(p, tag, size, value, true, name).reg)
  {
    var after := AfterParameter(p, tag, size, value, true, name).reg;
    var read := R.Read(R.Register(p.at.func, name), p.at.id, tag);
    assert after == p.reg + [read];
    assert after[..|p.reg|] == p.reg;
  }
}
