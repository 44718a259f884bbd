/** What records stand for where they are in a trace: the ranges of transfers in the three versions of the DMA
    interface, and which parameters of PHI nodes and entry declarations are read. */
module TraceRecords {
  import opened Collections
  import opened ExecNodes
  import M = MemoryDependence
  import R = RegisterDependence
  import opened TraceParsing
  import opened TraceLinks
  import opened TraceDataflow

  // ----- transfers

  function Values(ps: seq<Record>): seq<Param>
    requires forall k :: 0 <= k < |ps| ==> ps[k].Parameter?
  {
    if ps == [] then [] else Values(ps[..|ps| - 1]) + [Param(ps[|ps| - 1].value, ps[|ps| - 1].size)]
  }

  lemma {:induction false} ValueAt(ps: seq<Record>, k: nat)
    requires (forall j :: 0 <= j < |ps| ==> ps[j].Parameter?) && k < |ps|
    ensures |Values(ps)| == |ps| && Values(ps)[k].value == ps[k].value
  {
    var n := |ps| - 1;
    if k < n {
      ValueAt(ps[..n], k);
    } else if n > 0 {
      ValueAt(ps[..n], n - 1);
    }
  }

  /** The cursor between the parameters of a host operation. */
  ghost predicate Collected(c: Cursor, inst: Record, ps: seq<Record>)
    requires inst.Instruction? && forall k :: 0 <= k < |ps| ==> ps[k].Parameter?
  {
    && c.id == inst.id && c.op == inst.op && !c.inEntry && c.params == Values(ps)
    && (c.lastParameter <==> ps != []) && (ps != [] ==> c.numParameters == ps[0].tag)
  }

  lemma ParseAppended(x: seq<Record>, r: Record)
    ensures Parsable(ParseAll(x), r) ==> ParseAll(x + [r]) == ParseOne(ParseAll(x), r)
  {
    assert (x + [r])[..|x|] == x;
  }

  lemma FirstCollected(p: Parse, inst: Record)
    requires inst.Instruction?
    ensures Parsable(p, inst)
    ensures var q := ParseOne(p, inst); Collected(q.at, inst, []) && q.insts != [] && q.mem == p.mem
  {
    NextCursor(p.at, inst.id, inst.op, inst.func, inst.block);
  }

  lemma {:induction false} ParametersCollected(t: seq<Record>, inst: Record, ps: seq<Record>)
    requires inst.Instruction? && forall k :: 0 <= k < |ps| ==> ps[k].Parameter?
    requires inst.op in {DmaLoad, DmaStore, HostLoad, HostStore, SetReadyBits}
    ensures var p := ParseAll(t + [inst] + ps);
      Collected(p.at, inst, ps) && p.insts != [] && p.mem == ParseAll(t).mem
    decreases |ps|
  {
    if ps == [] {
      assert t + [inst] + ps == t + [inst];
      ParseAppended(t, inst);
      FirstCollected(ParseAll(t), inst);
    } else {
      var n := |ps| - 1;
      var x := t + [inst] + ps[..n];
      assert t + [inst] + ps == x + [ps[n]];
      ParametersCollected(t, inst, ps[..n]);
      ParseAppended(x, ps[n]);
      NextCollected(ParseAll(x), inst, ps, n);
    }
  }

  lemma NextCollected(p: Parse, inst: Record, ps: seq<Record>, n: nat)
    requires inst.Instruction? && n < |ps| && n == |ps| - 1 && forall k :: 0 <= k < |ps| ==> ps[k].Parameter?
    requires inst.op in {DmaLoad, DmaStore, HostLoad, HostStore, SetReadyBits}
    requires Collected(p.at, inst, ps[..n]) && p.insts != []
    ensures Parsable(p, ps[n])
    ensures var q := ParseOne(p, ps[n]); Collected(q.at, inst, ps) && q.insts == p.insts && q.mem == p.mem
  {
  }

  /** Version 3 passes destination, source and size; version 2, of five parameters, a base with two offsets and a
      size; version 1 a base, an offset and a size. */
  lemma VersionOf(ps: seq<Record>, result: nat)
    requires |ps| >= 4 && (forall k :: 0 <= k < |ps| ==> ps[k].Parameter?)
    requires result == 0 && ps[0].tag == 5 ==> |ps| > 4
    ensures |Values(ps)| == |ps|
    ensures HostAccessOf(Values(ps), ps[0].tag, result) ==
      if result == 3 then HostAccess(ps[2].value, ps[1].value, ps[3].value)
      else if result == 0 && ps[0].tag == 5 then
        HostAccess(ps[1].value + ps[2].value, ps[1].value + ps[3].value, ps[4].value)
      else HostAccess(ps[1].value + ps[2].value, ps[1].value + ps[2].value, ps[3].value)
  {
    ValuesUsed(ps);
  }

  /** The records of a transfer or a change of ready bits: its instruction, its parameters and its result. */
  ghost predicate IsTransfer(x: seq<Record>, t: seq<Record>, inst: Record, ps: seq<Record>, result: Record) {
    && x == t + [inst] + ps + [result] && inst.Instruction? && result.Result?
    && |ps| >= 4 && (forall k :: 0 <= k < |ps| ==> ps[k].Parameter?)
    && (result.value == 0 && ps[0].tag == 5 ==> |ps| > 4)
  }

  lemma TransferParsed(x: seq<Record>, t: seq<Record>, inst: Record, ps: seq<Record>, result: Record) returns (p: Parse)
    requires IsTransfer(x, t, inst, ps, result)
    requires inst.op in {DmaLoad, DmaStore, HostLoad, HostStore, SetReadyBits}
    ensures Collected(p.at, inst, ps) && p.mem == ParseAll(t).mem && |Values(ps)| == |ps|
    ensures Parsable(p, result) && ParseAll(x) == ParseOne(p, result)
  {
    var front := t + [inst] + ps;
    p := ParseAll(front);
    ParametersCollected(t, inst, ps);
    ValuesUsed(ps);
    ParseAppended(front, result);
  }

  lemma InResult(p: Parse, inst: Record, ps: seq<Record>, result: Record)
    requires inst.Instruction? && inst.op in {DmaLoad, HostLoad} && result.Result? && Parsable(p, result)
    requires |ps| >= 4 && (forall k :: 0 <= k < |ps| ==> ps[k].Parameter?) && Collected(p.at, inst, ps)
    requires result.value == 0 && ps[0].tag == 5 ==> |ps| > 4
    ensures ParseOne(p, result).mem == p.mem + [
      if result.value == 3 then M.HostLoad(inst.id, ps[1].value, ps[3].value)
      else if result.value == 0 && ps[0].tag == 5 then M.HostLoad(inst.id, ps[1].value + ps[3].value, ps[4].value)
      else M.HostLoad(inst.id, ps[1].value + ps[2].value, ps[3].value)]
  {
    VersionOf(ps, result.value);
    InEvent(p.at, result.size, result.value);
  }

  /** A transfer in, dmaLoad or hostLoad, writes its destination. */
  lemma TransferInMeans(x: seq<Record>, t: seq<Record>, inst: Record, ps: seq<Record>, result: Record)
    requires IsTransfer(x, t, inst, ps, result) && inst.op in {DmaLoad, HostLoad}
    ensures ParseAll(x).mem == ParseAll(t).mem + [
      if result.value == 3 then M.HostLoad(inst.id, ps[1].value, ps[3].value)
      else if result.value == 0 && ps[0].tag == 5 then M.HostLoad(inst.id, ps[1].value + ps[3].value, ps[4].value)
      else M.HostLoad(inst.id, ps[1].value + ps[2].value, ps[3].value)]
  {
    var p := TransferParsed(x, t, inst, ps, result);
    InResult(p, inst, ps, result);
  }

  lemma InEvent(c: Cursor, size: nat, value: nat)
    requires ResultReadable(c, value) && c.op in {DmaLoad, HostLoad}
    ensures var h := HostAccessOf(c.params, c.numParameters, value);
      ResultEvents(c, size, value) == [M.HostLoad(c.id, h.dst, h.size)]
  {
  }

  lemma OutEvent(c: Cursor, size: nat, value: nat)
    requires ResultReadable(c, value) && c.op in {DmaStore, HostStore}
    ensures var h := HostAccessOf(c.params, c.numParameters, value);
      ResultEvents(c, size, value) == [M.HostStore(c.id, h.src, h.size)]
  {
  }

  lemma OutResult(p: Parse, inst: Record, ps: seq<Record>, result: Record)
    requires inst.Instruction? && inst.op in {DmaStore, HostStore} && result.Result? && Parsable(p, result)
    requires |ps| >= 4 && (forall k :: 0 <= k < |ps| ==> ps[k].Parameter?) && Collected(p.at, inst, ps)
    requires result.value == 0 && ps[0].tag == 5 ==> |ps| > 4
    ensures ParseOne(p, result).mem == p.mem + [
      if result.value == 3 then M.HostStore(inst.id, ps[2].value, ps[3].value)
      else if result.value == 0 && ps[0].tag == 5 then M.HostStore(inst.id, ps[1].value + ps[2].value, ps[4].value)
      else M.HostStore(inst.id, ps[1].value + ps[2].value, ps[3].value)]
  {
    VersionOf(ps, result.value);
    OutEvent(p.at, result.size, result.value);
  }

  /** A transfer out, dmaStore or hostStore, reads its source. */
  lemma TransferOutMeans(x: seq<Record>, t: seq<Record>, inst: Record, ps: seq<Record>, result: Record)
    requires IsTransfer(x, t, inst, ps, result) && inst.op in {DmaStore, HostStore}
    ensures ParseAll(x).mem == ParseAll(t).mem + [
      if result.value == 3 then M.HostStore(inst.id, ps[2].value, ps[3].value)
      else if result.value == 0 && ps[0].tag == 5 then M.HostStore(inst.id, ps[1].value + ps[2].value, ps[4].value)
      else M.HostStore(inst.id, ps[1].value + ps[2].value, ps[3].value)]
  {
    var p := TransferParsed(x, t, inst, ps, result);
    OutResult(p, inst, ps, result);
  }

  /** A change of ready bits covers the range its first two arguments name. */
  lemma ReadyBitsMeans(x: seq<Record>, t: seq<Record>, inst: Record, ps: seq<Record>, result: Record)
    requires IsTransfer(x, t, inst, ps, result) && inst.op == SetReadyBits
    ensures ParseAll(x).mem == ParseAll(t).mem + [M.SetReady(inst.id, ps[1].value, ps[2].value)]
  {
    var p := TransferParsed(x, t, inst, ps, result);
    ValuesUsed(ps);
  }

  lemma ValuesUsed(ps: seq<Record>)
    requires |ps| >= 4 && forall k :: 0 <= k < |ps| ==> ps[k].Parameter?
    ensures var vs := Values(ps);
      && |vs| == |ps| && vs[1].value == ps[1].value && vs[2].value == ps[2].value && vs[3].value == ps[3].value
      && (|ps| > 4 ==> vs[4].value == ps[4].value)
  {
    ValueAt(ps, 1);
    ValueAt(ps, 2);
    ValueAt(ps, 3);
    if |ps| > 4 { ValueAt(ps, 4); }
  }

  // ----- which parameters are read

  ghost predicate NoInstruction(trace: seq<Record>, a: nat, b: nat)
    requires b <= |trace|
  {
    forall k :: a <= k < b ==> !trace[k].Instruction?
  }

  ghost predicate NoEntry(trace: seq<Record>, a: nat, b: nat)
    requires b <= |trace|
  {
    forall k :: a <= k < b ==> !trace[k].EntryDeclaration?
  }

  /** Records other than instructions leave the instruction and its blocks alone. */
  lemma SameInstruction(p: Parse, r: Record)
    requires Parsable(p, r) && !r.Instruction?
    ensures var c, d := p.at, ParseOne(p, r).at;
      && d.op == c.op && d.currBlock == c.currBlock && d.prevBlock == c.prevBlock
      && (d.inEntry <==> c.inEntry || r.EntryDeclaration?)
  {
  }

  /** After instruction `k` and up to the next one. */
  lemma {:induction false} CursorStays(trace: seq<Record>, k: nat, n: nat)
    requires k < n <= |trace| && trace[k].Instruction? && NoInstruction(trace, k + 1, n)
    ensures var c := ParseAll(trace[..n]).at;
      && c.op == trace[k].op && c.currBlock == trace[k].block
      && c.prevBlock == ParseAll(trace[..k + 1]).at.prevBlock
      && (c.inEntry <==> !NoEntry(trace, k + 1, n))
    decreases n
  {
    ParseStep(trace, n - 1);
    if n == k + 1 {
      NextCursor(ParseAll(trace[..k]).at, trace[k].id, trace[k].op, trace[k].func, trace[k].block);
    } else {
      CursorStays(trace, k, n - 1);
      var p := ParseAll(trace[..n - 1]);
      if Parsable(p, trace[n - 1]) { SameInstruction(p, trace[n - 1]); }
    }
  }

  /** Before the first instruction. */
  lemma {:induction false} NothingYet(trace: seq<Record>, n: nat)
    requires n <= |trace| && NoInstruction(trace, 0, n)
    ensures var c := ParseAll(trace[..n]).at; c.op == Other && c.currBlock == "-1"
    decreases n
  {
    if n > 0 {
      ParseStep(trace, n - 1);
      NothingYet(trace, n - 1);
      var p := ParseAll(trace[..n - 1]);
      if Parsable(p, trace[n - 1]) { SameInstruction(p, trace[n - 1]); }
    }
  }

  /** From `j` on there is a run of PHI nodes, which the records up to `n` belong to. */
  ghost predicate PhiRun(trace: seq<Record>, j: nat, n: nat) {
    && j < n <= |trace| && trace[j].Instruction? && trace[j].op == Phi
    && (forall k :: j < k < n ==> !trace[k].EntryDeclaration? && (trace[k].Instruction? ==> trace[k].op == Phi))
  }

  /** What stands before `j` is a block, named by the last instruction, which is no PHI node or is cut off from it by
      an entry declaration; before the first instruction the name is -1. */
  ghost predicate ComesFrom(trace: seq<Record>, j: nat, block: string) {
    && j <= |trace|
    && ((NoInstruction(trace, 0, j) && block == "-1") || exists i: nat :: LeftBlock(trace, i, j, block))
  }

  ghost predicate LeftBlock(trace: seq<Record>, i: nat, j: nat, block: string)
    requires j <= |trace|
  {
    && i < j && trace[i].Instruction? && trace[i].block == block && NoInstruction(trace, i + 1, j)
    && (trace[i].op != Phi || !NoEntry(trace, i + 1, j))
  }

  lemma PhiBegins(trace: seq<Record>, j: nat, block: string)
    requires PhiRun(trace, j, j + 1) && ComesFrom(trace, j, block)
    ensures var c := ParseAll(trace[..j + 1]).at; c.op == Phi && !c.inEntry && c.prevBlock == block
  {
    ParseStep(trace, j);
    var c := ParseAll(trace[..j]).at;
    if NoInstruction(trace, 0, j) && block == "-1" {
      NothingYet(trace, j);
    } else {
      var i: nat :| LeftBlock(trace, i, j, block);
      CursorStays(trace, i, j);
    }
    PhiLooksBack(c, trace[j].id, trace[j].func, trace[j].block);
  }

  lemma PhiLooksBack(c: Cursor, id: nat, func: string, block: string)
    ensures var d := NextInstruction(c, id, Phi, func, block);
      d.op == Phi && !d.inEntry && d.prevBlock == if c.op == Phi && !c.inEntry then c.prevBlock else c.currBlock
  {
  }

  lemma {:induction false} PhiGoesOn(trace: seq<Record>, j: nat, n: nat, block: string)
    requires PhiRun(trace, j, n) && ComesFrom(trace, j, block)
    ensures var c := ParseAll(trace[..n]).at; c.op == Phi && !c.inEntry && c.prevBlock == block
    decreases n
  {
    if n == j + 1 {
      PhiBegins(trace, j, block);
    } else {
      var m := n - 1;
      PhiGoesOn(trace, j, m, block);
      ParseStep(trace, m);
      var p, r := ParseAll(trace[..m]), trace[m];
      if r.Instruction? {
        PhiLooksBack(p.at, r.id, r.func, r.block);
      } else if Parsable(p, r) {
        SameInstruction(p, r);
      }
    }
  }

  /** Of the inputs of PHI nodes, those from the block that was left are read, and the others change nothing. */
  lemma PhiReadsIff(trace: seq<Record>, j: nat, n: nat, block: string)
    requires PhiRun(trace, j, n) && ComesFrom(trace, j, block) && n < |trace| && trace[n].Parameter?
    ensures trace[n].isReg ==>
      (ReadIn(trace, n, InvocationAt(trace, n), trace[n].name) <==> trace[n].fromBlock == block)
    ensures trace[n].fromBlock != block ==> ParseAll(trace[..n + 1]) == ParseAll(trace[..n])
  {
    PhiGoesOn(trace, j, n, block);
    ParseStep(trace, n);
  }

  /** Every register parameter of any other instruction is read, unless it is one of an entry declaration, which
      changes nothing. */
  lemma OtherReadsIff(trace: seq<Record>, k: nat, n: nat)
    requires k < n < |trace| && trace[k].Instruction? && NoInstruction(trace, k + 1, n) && trace[n].Parameter?
    ensures trace[n].isReg && trace[k].op != Phi ==>
      (ReadIn(trace, n, InvocationAt(trace, n), trace[n].name) <==> NoEntry(trace, k + 1, n))
    ensures !NoEntry(trace, k + 1, n) ==> ParseAll(trace[..n + 1]) == ParseAll(trace[..n])
  {
    CursorStays(trace, k, n);
    ParseStep(trace, n);
  }
}
