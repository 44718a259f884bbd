/** Operations of a trace node: opcode classes and functional-unit latencies.
    Times are exact integers in hundredths of a nanosecond. */
module ExecNodes {

  datatype MicroOp =
    | Ret | Br | Switch | Call | Phi
    | Add | Sub | Mul | UDiv | SDiv | URem | SRem
    | FAdd | FSub | FMul | FDiv | FRem
    | Shl | LShr | AShr | And | Or | Xor
    | Load | Store | GetElementPtr | Alloca
    | SpecialMath | Intrinsic | SetSamplingFactor
    | DmaLoad | DmaStore | DmaFence | SetReadyBits | HostLoad | HostStore
    | Other

  /** Transfers into and out of the accelerator's memory. */
  predicate IsHostLoad(op: MicroOp) { op.DmaLoad? || op.HostLoad? }
  predicate IsHostStore(op: MicroOp) { op.DmaStore? || op.HostStore? }

  predicate IsHostOp(op: MicroOp) {
    op.DmaLoad? || op.DmaStore? || op.DmaFence? || op.SetReadyBits? || op.HostLoad? || op.HostStore?
  }

  /** One partition of one scratchpad array. */
  datatype Slot = Slot(array: string, part: nat)

  /** Where a load or store is served: a register array or a scratchpad partition. */
  datatype Placement = InRegister(name: string) | InPartition(slot: Slot)

  /** The part of a trace node that scheduling reads but never changes. `hostDma` says that a
      host access goes through DMA; `place` matters for loads and stores only. */
  datatype Node = Node(op: MicroOp, hostDma: bool, place: Placement) {

    predicate IsMemory() { op.Load? || op.Store? }

    predicate IsCallOrRet() { op.Call? || op.Ret? }

    predicate IsBranch() { op.Br? || op.Switch? || op.Call? }

    predicate IsFp() { op.FAdd? || op.FSub? || op.FMul? || op.FDiv? || op.FRem? }

    predicate IsMulticycle() { IsFp() || op.SpecialMath? }

    predicate IsDmaTransfer() {
      op.DmaLoad? || op.DmaStore? || op.DmaFence? || ((op.HostLoad? || op.HostStore?) && hostDma)
    }

    predicate InSpad() { IsMemory() && place.InPartition? }
  }

  const NS := 100

  function FpLatency(op: MicroOp): nat {
    if op.FDiv? then 16 else if op.FMul? || op.FRem? then 4 else 5
  }

  function MulticycleLatency(n: Node): (r: nat)
    ensures n.IsMulticycle() ==> r >= 3
  {
    if n.IsFp() then FpLatency(n.op) else if n.op.SpecialMath? then 3 else 1
  }

  predicate IsIntMul(op: MicroOp) { op.Mul? || op.UDiv? || op.SDiv? || op.URem? || op.SRem? }
  predicate IsIntAdd(op: MicroOp) { op.Add? || op.Sub? }
  predicate IsShift(op: MicroOp) { op.Shl? || op.LShr? || op.AShr? }
  predicate IsBitwise(op: MicroOp) { op.And? || op.Or? || op.Xor? }

  /** Critical path delay of a functional unit synthesised for a whole number of nanoseconds.
      Clocks outside 1..6 ns use the 6 ns library. */
  function UnitDelay(op: MicroOp, ns: nat): nat {
    if IsIntMul(op) then
      if ns == 1 then 98 else if ns == 2 then 197 else if ns == 3 then 297
      else if ns == 4 then 398 else 417
    else if IsIntAdd(op) then if ns == 1 then 98 else 175
    else if IsShift(op) then 70
    else if IsBitwise(op) then 6
    else 0
  }

  function FuLatency(op: MicroOp, cycleTime: nat): nat {
    if op.Ret? || op.Intrinsic? then cycleTime
    else if op.FAdd? || op.FSub? || op.FMul? || op.FDiv? || op.FRem? then FpLatency(op) * cycleTime
    else UnitDelay(op, cycleTime / NS)
  }
}
