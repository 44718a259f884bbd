/** Construction of the initial dependence graph, record by record. The builder owns the three trackers
    and the parsing state, and is proved to hold at every point what the records so far mean. */
module Dddg {
  import opened Collections
  import opened ExecNodes
  import C = ControlDependence
  import M = MemoryDependence
  import R = RegisterDependence
  import opened ControlTracking
  import opened MemoryTracking
  import opened RegisterTracking
  import T = TraceParsing
  import opened TraceLinks

  class Builder {
    const control: ControlTracker
    const memory: MemoryTracker
    const registers: RegisterTracker
    var nodes: map<nat, MicroOp>
    /** The current instruction, its parameters so far, and the active functions. */
    var at: T.Cursor

    ghost function View(): T.Parse
      reads this`at, control`insts, memory`events, registers`events
    {
      T.Parse(at, control.insts, memory.events, registers.events)
    }

    /** The tables are those of the events recorded. */
    ghost predicate Tabled()
      reads this`nodes, control, memory, registers
    {
      control.Valid() && memory.Valid() && registers.Valid() && nodes == Opcodes(control.insts)
    }

    ghost predicate Valid()
      reads this, control, memory, registers
    {
      Tabled() && Linked(View())
    }

    constructor (readyMode: bool)
      ensures Valid() && View() == T.NOTHING && memory.readyMode == readyMode
      ensures fresh(control) && fresh(memory) && fresh(registers)
    {
      control := new ControlTracker();
      memory := new MemoryTracker(readyMode);
      registers := new RegisterTracker();
      nodes := map[];
      at := T.AT_START;
    }

    // ----- instructions

    method PushFunction(func: string)
      modifies this`at
      ensures at == T.Pushed(old(at), func)
    {
      var count := T.Invocations(at, func) + 1;
      at := at.(invocations := at.invocations[func := count]);
      at := at.(active := at.active + [R.DynFunction(func, count)]);
      at := at.(func := at.active[|at.active| - 1]);
    }

    /** Tracks the stack of active functions. */
    method EnterFunction(func: string, op: MicroOp)
      modifies this`at
      ensures at == T.EnterFunction(old(at), func, op)
    {
      var found := false;
      if at.active != [] {
        var top := at.active[|at.active| - 1];
        if func == top.name {
          if at.prevOp.Call? && at.callee == Some(func) {
            PushFunction(func);
          } else {
            at := at.(func := top);
          }
          found := true;
        }
        if op.Ret? {
          at := at.(active := at.active[..|at.active| - 1]);
        }
      }
      if !found {
        PushFunction(func);
      }
    }

    method StartInstruction(id: nat, op: MicroOp, func: string, block: string)
      modifies this`at
      ensures at == T.NextInstruction(old(at), id, op, func, block)
    {
      at := at.(prevOp := if at.inEntry then Other else at.op, inEntry := false);
      at := at.(id := id, op := op, lastParameter := false, params := [], args := []);
      EnterFunction(func, op);
      if op.Phi? && !at.prevOp.Phi? {
        at := at.(prevBlock := at.currBlock);
      }
      at := at.(currBlock := block);
    }

    /** A new node, with its control dependences, in its function and block. */
    method ParseInstruction(id: nat, op: MicroOp, func: string, block: string)
      requires Tabled() && Increasing(control.insts)
      requires control.insts != [] ==> id > control.insts[|control.insts| - 1].id
      modifies this`at, this`nodes, control
      ensures Tabled() && View() == T.AfterInstruction(old(View()), id, op, func, block)
    {
      OpcodesExtend(control.insts, C.Inst(id, op));
      StartInstruction(id, op, func, block);
      control.Track(id, op);
      nodes := nodes[id := op];
    }

    // ----- parameters

    /** The first parameter parsed fixes the arity and, for calls, the callee. */
    method FirstParameter(tag: nat, name: string)
      modifies this`at
      ensures at == T.FirstParameter(old(at), tag, name)
    {
      if !at.lastParameter {
        at := at.(numParameters := tag);
        if at.op.Call? {
          at := at.(callee := Some(name));
        }
        if at.callee.Some? {
          at := at.(calleeFunction := R.DynFunction(at.callee.value, T.Invocations(at, at.callee.value) + 1));
        }
      }
      at := at.(lastParameter := true);
    }

    method PassArgument(tag: nat, isReg: bool, reg: R.Register)
      requires registers.Valid()
      modifies this`at
      ensures at == T.PassArgument(old(at), R.Writers(registers.events), tag, isReg, reg)
    {
      if at.op.Call? && tag != at.numParameters {
        if isReg {
          var last := if reg in registers.lastWritten then registers.lastWritten[reg] else at.id;
          at := at.(args := at.args + [T.CallerArg(last, true)]);
        } else {
          at := at.(args := at.args + [T.CallerArg(0, false)]);
        }
      }
    }

    /** Updates the parsing state for a parameter. */
    method TakeParameter(tag: nat, size: nat, value: nat, isReg: bool, name: string)
      requires registers.Valid()
      modifies this`at
      ensures at == T.ParameterCursor(old(at), R.Writers(registers.events), tag, size, value, isReg, name)
    {
      var reg := R.Register(at.func, name);
      FirstParameter(tag, name);
      PassArgument(tag, isReg, reg);
      if T.KeepsParameters(at.op) {
        at := at.(params := at.params + [T.Param(value, size)]);
      }
    }

    /** A register operand waits for its last writer. A load or store whose address register has
        none counts as writing it. */
    method ReadRegister(tag: nat, reg: R.Register)
      requires registers.Valid()
      modifies registers
      ensures registers.Valid()
      ensures registers.events ==
        old(registers.events) + T.OperandEvents(at, R.Writers(old(registers.events)), tag, reg)
    {
      var found := reg in registers.lastWritten;
      registers.RecordRead(reg, at.id, tag);
      if !found && ((at.op.Store? && tag == 2) || (at.op.Load? && tag == 1)) {
        registers.RecordWrite(reg, at.id);
      }
    }

    /** The address of a store, which comes first, is recorded. */
    method WriteMemory(tag: nat, size: nat)
      requires memory.Valid() && EventsKnown(memory.events, nodes) && at.id in nodes && nodes[at.id] == at.op
      modifies memory
      ensures memory.Valid() && memory.events == old(memory.events) + T.StoreEvents(at, tag, size)
    {
      if at.op.Store? && tag == 2 && at.params != [] {
        memory.RecordStore(at.params[0].value, size / T.BYTE, at.id, nodes);
      }
    }

    method ParseParameter(tag: nat, size: nat, value: nat, isReg: bool, name: string)
      requires Valid() && control.insts != []
      modifies this`at, registers, memory
      ensures Tabled() && View() == T.AfterParameter(old(View()), tag, size, value, isReg, name)
    {
      CurrentNode(View());
      ParameterCursorKeeps(at, R.Writers(registers.events), tag, size, value, isReg, name);
      TakeParameter(tag, size, value, isReg, name);
      if isReg {
        ReadRegister(tag, R.Register(at.func, name));
      }
      WriteMemory(tag, size);
    }

    // ----- results and forwarded arguments

    /** Performs the memory access that a result completes. */
    method CompleteAccess(size: nat, value: nat)
      requires memory.Valid() && EventsKnown(memory.events, nodes) && at.id in nodes && nodes[at.id] == at.op
      requires T.ResultReadable(at, value)
      modifies memory
      ensures memory.Valid() && memory.events == old(memory.events) + T.ResultEvents(at, size, value)
    {
      if at.op.Load? {
        memory.RecordLoad(at.params[|at.params| - 1].value, size / T.BYTE, at.id, nodes);
      } else if IsHostLoad(at.op) || IsHostStore(at.op) {
        CompleteTransfer(T.HostAccessOf(at.params, at.numParameters, value));
      } else if at.op.SetReadyBits? {
        memory.RecordReadyBits(at.params[1].value, at.params[2].value, at.id, nodes);
      }
    }

    method CompleteTransfer(access: T.HostAccess)
      requires memory.Valid() && EventsKnown(memory.events, nodes) && at.id in nodes && nodes[at.id] == at.op
      requires IsHostLoad(at.op) || IsHostStore(at.op)
      modifies memory
      ensures memory.Valid()
      ensures memory.events == old(memory.events) +
        [if IsHostLoad(at.op) then M.HostLoad(at.id, access.dst, access.size)
         else M.HostStore(at.id, access.src, access.size)]
    {
      if IsHostLoad(at.op) {
        memory.RecordHostLoad(access.dst, access.size, at.id, nodes);
      } else {
        memory.RecordHostStore(access.src, access.size, at.id, nodes);
      }
    }

    method ParseResult(size: nat, value: nat, name: string)
      requires Valid() && control.insts != [] && T.ResultReadable(at, value)
      modifies registers, memory
      ensures Tabled() && View() == T.AfterResult(old(View()), size, value, name)
    {
      CurrentNode(View());
      registers.RecordWrite(R.Register(at.func, name), at.id);
      CompleteAccess(size, value);
    }

    /** A callee's register takes over the producer of the argument passed for it. */
    method ParseForward(name: string)
      requires Tabled()
      modifies this`at, registers
      ensures Tabled() && View() == T.AfterForwarding(old(View()), name)
    {
      if !T.TakesNoArguments(at.op) && at.args != [] {
        var arg := at.args[0];
        if arg.isReg {
          registers.RecordWrite(R.Register(at.calleeFunction, name), arg.last);
        }
        at := at.(args := at.args[1..]);
      }
    }

    // ----- the whole trace

    /** One record, whatever its kind, does what it means. */
    method ParseRecord(r: T.Record)
      requires Valid() && T.Parsable(View(), r) && (r.Instruction? && control.insts != [] ==> r.id > at.id)
      modifies this`at, this`nodes, control, memory, registers
      ensures Valid() && View() == T.ParseOne(old(View()), r)
    {
      StepLinks(View(), r);
      match r
      case Instruction(id, op, func, block) => ParseInstruction(id, op, func, block);
      case EntryDeclaration => at := at.(inEntry := true);
      case Parameter(tag, size, value, isReg, name, fromBlock) =>
        if !T.Ignored(at, fromBlock) {
          ParseParameter(tag, size, value, isReg, name);
        }
      case Result(size, value, name) => ParseResult(size, value, name);
      case Forward(name) => ParseForward(name);
    }

    /** Parses a trace up to its end or to the first record that makes no sense where it stands. */
    method BuildInitialDddg(trace: seq<T.Record>) returns (parsed: nat)
      requires Valid() && View() == T.NOTHING && T.IdsIncrease(trace)
      modifies this`at, this`nodes, control, memory, registers
      ensures Valid() && parsed <= |trace| && View() == T.ParseAll(trace[..parsed])
      ensures T.Readable(trace[..parsed])
      ensures parsed < |trace| ==> !T.Parsable(T.ParseAll(trace[..parsed]), trace[parsed])
    {
      parsed := 0;
      var started := false;
      while parsed < |trace| && T.ParsableAt(at, started, trace[parsed])
        invariant parsed <= |trace| && (started <==> control.insts != [])
        invariant Valid() && View() == T.ParseAll(trace[..parsed]) && T.Readable(trace[..parsed])
      {
        if started { LatestId(trace, parsed); }
        T.ParseNext(trace, parsed);
        ParseRecord(trace[parsed]);
        started := started || trace[parsed].Instruction?;
        parsed := parsed + 1;
      }
    }
  }

  lemma CurrentNode(p: T.Parse)
    requires Linked(p) && p.insts != []
    ensures p.at.id in Opcodes(p.insts) && Opcodes(p.insts)[p.at.id] == p.at.op
  {
    OpcodesContain(p.insts, |p.insts| - 1);
  }
}
