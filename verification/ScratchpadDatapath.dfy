/** The datapath object: mutable queues, counters and node fields, with the loops of the source.
    Each method is proved to compute the corresponding scheduler function on the abstract state. */
module ScratchpadDatapaths {
  import opened ExecNodes
  import opened DependenceGraph
  import opened Scheduler
  import opened SchedulerStructure
  import opened SchedulerRun
  import opened SchedulerTiming
  import opened SchedulerLiveness
  import Alap
  import AlapCorrect

  class ScratchpadDatapath {
    const cfg: Config
    var program: Graph
    var executingQueue: seq<nat>
    var readyToExecuteQueue: seq<nat>
    var numParents: seq<int>
    var startCycle: seq<int>
    var completeCycle: seq<int>
    var timeBeforeExecution: seq<nat>
    var inflightMulticycle: map<nat, Cycles>
    var executedNodes: nat
    var totalConnectedNodes: nat
    var numCycles: nat
    var occupiedBw: map<Slot, nat>
    var loads: map<Slot, nat>
    var stores: map<Slot, nat>
    var scratchpadCanService: bool
    ghost var entry: seq<Entry>

    ghost function View(): State
      reads this
    {
      State(executingQueue, readyToExecuteQueue, numParents, startCycle, completeCycle, timeBeforeExecution,
            inflightMulticycle, executedNodes, numCycles, occupiedBw, loads, stores, entry)
    }

    /** Once the flag is down, no partition has a port left. */
    ghost predicate FlagSound()
      reads this
    {
      !scratchpadCanService ==> forall slot :: slot in cfg.slots ==> !CanService(cfg, View(), slot)
    }

    ghost predicate Valid()
      reads this
    {
      && Structure(program, View(), {})
      && Mapped(program, cfg)
      && totalConnectedNodes == |Total(program)|
      && FlagSound()
    }

    constructor (config: Config)
      ensures cfg == config && Valid() && program == Digraph([], [])
      ensures occupiedBw == loads == stores == map[] && numCycles == 0
    {
      cfg := config;
      program := Digraph([], []);
      executingQueue, readyToExecuteQueue := [], [];
      numParents, startCycle, completeCycle, timeBeforeExecution, entry := [], [], [], [], [];
      inflightMulticycle := map[];
      executedNodes, totalConnectedNodes, numCycles := 0, 0, 0;
      occupiedBw, loads, stores := map[], map[], map[];
      scratchpadCanService := true;
      new;
      assert Done(View()) == {} && Total(program) == {};
    }

    /** In-degrees of all nodes and the number of connected ones. */
    static method CountParents(g: Graph) returns (parents: seq<int>, connected: nat)
      ensures parents == ParentCounts(g)
      ensures connected == |Total(g)|
    {
      parents, connected := [], 0;
      for v := 0 to |g.nodes|
        invariant |parents| == v && forall w :: 0 <= w < v ==> parents[w] == |Parents(g, w)|
        invariant connected == |ConnectedBelow(g, v)|
      {
        parents := parents + [|Parents(g, v)|];
        ConnectedStep(g, v);
        if Connected(g, v) {
          connected := connected + 1;
        }
      }
      assert ConnectedBelow(g, |g.nodes|) == Total(g);
    }

    static method InitExecutingQueue(g: Graph) returns (queue: seq<nat>)
      ensures queue == Roots(g, |g.nodes|)
    {
      queue := [];
      for v := 0 to |g.nodes|
        invariant queue == Roots(g, v)
      {
        if Connected(g, v) && Parents(g, v) == {} {
          queue := queue + [v];
        }
      }
    }

    /** Counters and ports survive from the previous invocation; everything else starts afresh. */
    method PrepareForScheduling(g: Graph)
      requires Mapped(g, cfg) && FlagSound()
      modifies this
      ensures program == g && totalConnectedNodes == |Total(g)|
      ensures View() == Prepare(g, old(occupiedBw), old(loads), old(stores))
      ensures scratchpadCanService == old(scratchpadCanService) && FlagSound()
    {
      LoadGraph(g);
      ResetNodes();
      PreparedView();
    }

    /** The graph, its in-degrees and the queues. */
    method LoadGraph(g: Graph)
      modifies this`program, this`numParents, this`totalConnectedNodes, this`executingQueue, this`readyToExecuteQueue
      ensures program == g && totalConnectedNodes == |Total(g)| && numParents == ParentCounts(g)
      ensures executingQueue == Roots(g, |g.nodes|) && readyToExecuteQueue == []
    {
      program, readyToExecuteQueue := g, [];
      numParents, totalConnectedNodes := CountParents(g);
      executingQueue := InitExecutingQueue(g);
    }

    lemma PreparedView()
      requires numParents == ParentCounts(program) && executingQueue == Roots(program, |program.nodes|)
      requires readyToExecuteQueue == []
      requires executedNodes == numCycles == 0 && inflightMulticycle == map[]
      requires startCycle == completeCycle == Repeat(-1, |program.nodes|)
      requires timeBeforeExecution == Repeat(0, |program.nodes|)
      requires entry == RootEntries(program)
      ensures View() == Prepare(program, occupiedBw, loads, stores)
    {
    }

    /** Fresh nodes: nothing started, nothing in flight, cycle zero. */
    method ResetNodes()
      modifies this`startCycle, this`completeCycle, this`timeBeforeExecution, this`entry,
               this`executedNodes, this`numCycles, this`inflightMulticycle
      ensures executedNodes == numCycles == 0 && inflightMulticycle == map[]
      ensures startCycle == completeCycle == Repeat(-1, |program.nodes|)
      ensures timeBeforeExecution == Repeat(0, |program.nodes|)
      ensures entry == RootEntries(program)
    {
      var n := |program.nodes|;
      executedNodes, numCycles, inflightMulticycle := 0, 0, map[];
      startCycle, completeCycle := Repeat(-1, n), Repeat(-1, n);
      timeBeforeExecution := Repeat(0, n);
      entry := RootEntries(program);
    }

    lemma PreparedIsValid()
      requires Mapped(program, cfg) && FlagSound() && totalConnectedNodes == |Total(program)|
      requires View() == Prepare(program, occupiedBw, loads, stores)
      ensures Valid()
    {
      PreparedState(program, occupiedBw, loads, stores);
    }

    /** The earliest time a child of `u` can begin. */
    method LatencyAfter(u: nat) returns (t: nat)
      requires Shape(program, View()) && u < |program.nodes|
      ensures t == TimeAfter(program, cfg, View(), u)
    {
      var node := program.nodes[u];
      if node.IsMemory() || node.IsFp() {
        t := (numCycles + 1) * cfg.cycleTime;
      } else if timeBeforeExecution[u] > numCycles * cfg.cycleTime {
        t := FuLatency(node.op, cfg.cycleTime) + timeBeforeExecution[u];
      } else {
        t := FuLatency(node.op, cfg.cycleTime) + numCycles * cfg.cycleTime;
      }
    }

    /** Wakes the children of `u`. */
    method UpdateChildrenOf(u: nat, latencyAfter: nat)
      requires Shape(program, View()) && u < |program.nodes|
      modifies this`executingQueue, this`readyToExecuteQueue, this`numParents, this`timeBeforeExecution, this`entry
      ensures View() == UpdateChildren(program, cfg, old(View()), u, program.out[u], latencyAfter)
    {
      var es := program.out[u];
      var k := 0;
      while k < |es|
        invariant k <= |es|
        invariant Shape(program, View())
        invariant UpdateChildren(program, cfg, View(), u, es[k..], latencyAfter) ==
                  UpdateChildren(program, cfg, old(View()), u, es, latencyAfter)
      {
        assert es[k..][0] == es[k] && es[k..][1..] == es[k + 1..];
        UpdateOneChild(u, es[k], latencyAfter);
        k := k + 1;
      }
    }

    method UpdateOneChild(u: nat, e: Edge, latencyAfter: nat)
      requires Shape(program, View()) && u < |program.nodes| && e.dst < |program.nodes|
      modifies this`executingQueue, this`readyToExecuteQueue, this`numParents, this`timeBeforeExecution, this`entry
      ensures View() == UpdateChild(program, cfg, old(View()), u, e, latencyAfter)
    {
      var v := e.dst;
      RaiseTime(v, latencyAfter);
      if numParents[v] > 0 {
        numParents := numParents[v := numParents[v] - 1];
        if numParents[v] == 0 {
          EnqueueChild(u, v, e.parid);
          numParents := numParents[v := -1];
        }
      }
    }

    method RaiseTime(v: nat, latencyAfter: nat)
      requires v < |timeBeforeExecution|
      modifies this`timeBeforeExecution
      ensures timeBeforeExecution ==
        old(timeBeforeExecution)[v := if old(timeBeforeExecution[v]) < latencyAfter then latencyAfter
                                 else old(timeBeforeExecution[v])]
    {
      if timeBeforeExecution[v] < latencyAfter {
        timeBeforeExecution := timeBeforeExecution[v := latencyAfter];
      }
    }

    /** Puts a child whose last parent `u` has completed on one of the queues: functional units
        may be packed into one cycle, memory and floating-point operations may not. */
    method EnqueueChild(u: nat, v: nat, parid: nat)
      requires u < |program.nodes| && v < |program.nodes|
      requires v < |timeBeforeExecution| && v < |entry|
      modifies this`executingQueue, this`readyToExecuteQueue, this`entry
      ensures var how := Admit(program.nodes[u], program.nodes[v], parid, cfg, timeBeforeExecution[v], numCycles, u);
              && executingQueue == JoinExecuting(old(executingQueue), v, how)
              && readyToExecuteQueue == JoinReady(old(readyToExecuteQueue), v, how, program.nodes[v].op.Store?)
              && entry == old(entry)[v := how]
    {
      var node, child := program.nodes[u], program.nodes[v];
      var childZero := if child.IsMemory() then false else FuLatency(child.op, cfg.cycleTime) == 0;
      var nodeZero := if node.IsMemory() then false else FuLatency(node.op, cfg.cycleTime) == 0;
      entry := entry[v := Admit(node, child, parid, cfg, timeBeforeExecution[v], numCycles, u)];
      if parid == REGISTER_EDGE || parid == FUSED_BRANCH_EDGE || node.op.Call? || node.op.Ret? ||
         ((childZero || nodeZero) && parid != CONTROL_EDGE) {
        executingQueue := executingQueue + [v];
      } else if child.IsMemory() || node.IsMemory() || child.IsFp() || node.IsFp() {
        if child.op.Store? {
          readyToExecuteQueue := [v] + readyToExecuteQueue;
        } else {
          readyToExecuteQueue := readyToExecuteQueue + [v];
        }
      } else if parid == CONTROL_EDGE {
        readyToExecuteQueue := readyToExecuteQueue + [v];
      } else {
        var afterChild := timeBeforeExecution[v] + FuLatency(child.op, cfg.cycleTime);
        if afterChild < (numCycles + 1) * cfg.cycleTime {
          executingQueue := executingQueue + [v];
        } else {
          readyToExecuteQueue := readyToExecuteQueue + [v];
        }
      }
    }

    method MarkNodeCompleted(index: nat)
      requires Shape(program, View()) && index < |executingQueue| && executingQueue[index] < |program.nodes|
      modifies this`executedNodes, this`completeCycle, this`executingQueue, this`readyToExecuteQueue,
               this`numParents, this`timeBeforeExecution, this`entry
      ensures View() == Finish(program, cfg, old(View()), index)
    {
      var node := executingQueue[index];
      var latencyAfter := LatencyAfter(node);
      executedNodes := executedNodes + 1;
      completeCycle := completeCycle[node := numCycles];
      executingQueue := executingQueue[..index] + executingQueue[index + 1..];
      UpdateChildrenOf(node, latencyAfter);
    }

    /** Is there a partition with a port left? */
    method ScratchpadCanServiceAny() returns (any: bool)
      ensures any <==> exists slot :: slot in cfg.slots && CanService(cfg, View(), slot)
    {
      var todo := cfg.slots;
      any := false;
      while todo != {} && !any
        invariant todo <= cfg.slots
        invariant any ==> exists slot :: slot in cfg.slots && CanService(cfg, View(), slot)
        invariant !any ==> forall slot :: slot in cfg.slots - todo ==> !CanService(cfg, View(), slot)
        decreases todo
      {
        var slot :| slot in todo;
        todo := todo - {slot};
        any := PartitionCanService(slot);
      }
    }

    method PartitionCanService(slot: Slot) returns (can: bool)
      ensures can == CanService(cfg, View(), slot)
    {
      can := if cfg.ports != 0 then slot !in occupiedBw || occupiedBw[slot] < cfg.ports else true;
    }

    method IncrementAccesses(slot: Slot, isLoad: bool)
      modifies this`occupiedBw, this`loads, this`stores
      ensures occupiedBw == Bump(old(occupiedBw), slot)
      ensures loads == if isLoad then Bump(old(loads), slot) else old(loads)
      ensures stores == if isLoad then old(stores) else Bump(old(stores), slot)
    {
      occupiedBw := Bump(occupiedBw, slot);
      if isLoad { loads := Bump(loads, slot); } else { stores := Bump(stores, slot); }
    }

    method ServeAccess(v: nat, slot: Slot)
      requires Shape(program, View()) && v < |program.nodes|
      requires program.nodes[v].InSpad() && slot == program.nodes[v].place.slot
      modifies this`startCycle, this`occupiedBw, this`loads, this`stores
      ensures View() == Dispatch(program, old(View()), v)
    {
      startCycle := startCycle[v := numCycles];
      IncrementAccesses(slot, program.nodes[v].op.Load?);
    }

    /** A scratchpad access is served when its partition has a port left; the flag saves asking
        once no partition has. */
    method VisitPartition(index: nat, slot: Slot) returns (executed: bool)
      requires Shape(program, View()) && index < |executingQueue| && executingQueue[index] < |program.nodes|
      requires program.nodes[executingQueue[index]].InSpad() && slot == program.nodes[executingQueue[index]].place.slot
      requires slot in cfg.slots && FlagSound()
      modifies this`executedNodes, this`startCycle, this`completeCycle, this`executingQueue,
               this`readyToExecuteQueue, this`numParents, this`timeBeforeExecution, this`entry,
               this`occupiedBw, this`loads, this`stores, this`scratchpadCanService
      ensures Visited(View(), executed) == Visit(program, cfg, old(View()), index)
      ensures FlagSound()
    {
      executed := false;
      if scratchpadCanService {
        var can := PartitionCanService(slot);
        if can {
          ServeAccess(executingQueue[index], slot);
          MarkNodeCompleted(index);
          executed := true;
        } else {
          scratchpadCanService := ScratchpadCanServiceAny();
        }
      }
    }

    /** Any other node: multi-cycle units count down, register accesses and the rest complete at once. */
    method VisitCompute(index: nat) returns (executed: bool)
      requires Shape(program, View()) && index < |executingQueue| && executingQueue[index] < |program.nodes|
      requires !program.nodes[executingQueue[index]].InSpad()
      modifies this`executedNodes, this`startCycle, this`completeCycle, this`executingQueue,
               this`readyToExecuteQueue, this`numParents, this`timeBeforeExecution, this`entry, this`inflightMulticycle
      ensures Visited(View(), executed) == Visit(program, cfg, old(View()), index)
    {
      var v := executingQueue[index];
      var node := program.nodes[v];
      executed := false;
      if node.IsMulticycle() {
        if v !in inflightMulticycle {
          inflightMulticycle := inflightMulticycle[v := MulticycleLatency(node)];
          startCycle := startCycle[v := numCycles];
        } else if inflightMulticycle[v] == 1 {
          inflightMulticycle := inflightMulticycle - {v};
          MarkNodeCompleted(index);
          executed := true;
        } else {
          inflightMulticycle := inflightMulticycle[v := inflightMulticycle[v] - 1];
        }
      } else {
        startCycle := startCycle[v := numCycles];
        MarkNodeCompleted(index);
        executed := true;
      }
    }

    method VisitNode(index: nat) returns (executed: bool)
      requires Shape(program, View()) && index < |executingQueue| && executingQueue[index] < |program.nodes|
      requires Mapped(program, cfg) && FlagSound()
      modifies this`executedNodes, this`startCycle, this`completeCycle, this`executingQueue,
               this`readyToExecuteQueue, this`numParents, this`timeBeforeExecution, this`entry,
               this`inflightMulticycle, this`occupiedBw, this`loads, this`stores, this`scratchpadCanService
      ensures Visited(View(), executed) == Visit(program, cfg, old(View()), index)
      ensures FlagSound()
    {
      var node := program.nodes[executingQueue[index]];
      if node.InSpad() {
        executed := VisitPartition(index, node.place.slot);
      } else {
        executed := VisitCompute(index);
      }
    }

    /** One pass; asking the scratchpad only while the flag is up gives the same schedule as asking
        it for every access. */
    method StepExecutingQueue()
      requires Valid()
      modifies this
      ensures Valid() && program == old(program)
      ensures View() == Pass(program, cfg, old(View()), 0)
    {
      var index := 0;
      while index < |executingQueue|
        invariant Valid() && program == old(program) && index <= |executingQueue|
        invariant Pass(program, cfg, View(), index) == Pass(program, cfg, old(View()), 0)
        decreases |program.nodes| - executedNodes, |executingQueue| - index
      {
        VisitAdvances(program, cfg, View(), index);
        var executed := VisitNode(index);
        if !executed {
          index := index + 1;
        }
      }
    }

    method CopyToExecutingQueue()
      requires Valid()
      modifies this`executingQueue, this`readyToExecuteQueue
      ensures View() == Drain(program, old(View()))
    {
      while readyToExecuteQueue != []
        invariant forall k :: 0 <= k < |readyToExecuteQueue| ==> readyToExecuteQueue[k] < |program.nodes|
        invariant CopyReady(program, executingQueue, readyToExecuteQueue) ==
                  CopyReady(program, old(executingQueue), old(readyToExecuteQueue))
        decreases |readyToExecuteQueue|
      {
        var node := readyToExecuteQueue[0];
        if program.nodes[node].op.Store? {
          executingQueue := [node] + executingQueue;
        } else {
          executingQueue := executingQueue + [node];
        }
        readyToExecuteQueue := readyToExecuteQueue[1..];
      }
    }

    /** One cycle; true when every connected node has executed. */
    method StepCycle() returns (done: bool)
      requires Valid()
      modifies this
      ensures Valid() && program == old(program)
      ensures View() == Step(program, cfg, old(View()))
      ensures done <==> SchedulerRun.Finished(program, View())
    {
      ghost var next := Step(program, cfg, View());
      StepExecutingQueue();
      CopyToExecutingQueue();
      numCycles := numCycles + 1;
      done := executedNodes == totalConnectedNodes;
      if !done {
        occupiedBw := map[];
        scratchpadCanService := true;
      }
      assert View() == next;
    }

    /** Steps until the run is over; returns the cycle count. */
    method Schedule() returns (cycles: nat)
      requires Valid() && Acyclic(program) && readyToExecuteQueue == []
      modifies this
      ensures Valid() && program == old(program)
      ensures View() == Run(program, cfg, old(View())) && cycles == numCycles
    {
      ghost var end, fuel := Run(program, cfg, View()), Fuel(program, cfg, View()) + 1;
      var done := false;
      while !done
        invariant Valid() && program == old(program)
        invariant done ==> View() == end
        invariant !done ==> readyToExecuteQueue == [] && Run(program, cfg, View()) == end
        invariant !done ==> Fuel(program, cfg, View()) < fuel
        decreases fuel, !done
      {
        fuel := Fuel(program, cfg, View());
        RunStep(program, cfg, View());
        done := StepCycle();
      }
      cycles := numCycles;
    }

    /** Lowers the finish time of every parent to the begin time of the child. */
    static method LowerParents(finish: seq<int>, parents: set<nat>, begin: int) returns (r: seq<int>)
      requires forall p :: p in parents ==> p < |finish|
      ensures r == Alap.Lower(finish, parents, begin)
    {
      r := finish;
      var todo := parents;
      while todo != {}
        invariant todo <= parents && r == Alap.Lower(finish, parents - todo, begin)
        decreases todo
      {
        var p :| p in todo;
        if r[p] > begin {
          r := r[p := begin];
        }
        assert parents - (todo - {p}) == (parents - todo) + {p};
        todo := todo - {p};
      }
      assert parents - {} == parents;
    }

    /** Moves one node as late as its finish time allows and returns its begin time. */
    method RescheduleNode(v: nat, finish: seq<int>) returns (begin: int)
      requires |startCycle| == |completeCycle| == |finish| == |program.nodes| && v < |finish| && cfg.cycleTime > 0
      modifies this`startCycle, this`completeCycle
      ensures var a := Alap.Schedule(old(startCycle), old(completeCycle), finish);
              && Alap.Schedule(startCycle, completeCycle, finish) == Alap.Place(program, cfg, a, v)
              && begin == Alap.BeginTime(program, cfg, Alap.Place(program, cfg, a, v), v,
                                         Alap.Moves(program, cfg, a, v))
    {
      var node := program.nodes[v];
      begin := Alap.TruncNs(Alap.Cycle(startCycle[v]) * cfg.cycleTime);
      if !node.IsMemory() && !node.IsBranch() {
        var newCycle := (finish[v] * NS) / cfg.cycleTime - 1;
        if newCycle > Alap.Cycle(completeCycle[v]) {
          completeCycle := completeCycle[v := newCycle];
          if node.IsFp() {
            startCycle := startCycle[v := newCycle - FpLatency(node.op) + 1];
            begin := Alap.TruncNs(Alap.Cycle(startCycle[v]) * cfg.cycleTime);
          } else {
            startCycle := startCycle[v := newCycle];
            begin := Alap.TruncNs(finish[v] * NS - FuLatency(node.op, cfg.cycleTime));
          }
        }
      }
    }

    /** The ALAP pass over a sinks-first order of the graph. */
    method RescheduleNodesWhenNeeded(topo: seq<nat>)
      requires |startCycle| == |completeCycle| == |program.nodes| && cfg.cycleTime > 0
      requires forall i :: 0 <= i < |topo| ==> topo[i] < |program.nodes|
      modifies this`startCycle, this`completeCycle
      ensures var r := Alap.Reschedule(program, cfg, old(startCycle), old(completeCycle), numCycles, topo);
              startCycle == r.start && completeCycle == r.complete
    {
      var finish := Alap.Deadlines(|program.nodes|, cfg, numCycles);
      ghost var all := Alap.Reschedule(program, cfg, startCycle, completeCycle, numCycles, topo);
      for k := 0 to |topo|
        invariant |startCycle| == |completeCycle| == |finish| == |program.nodes|
        invariant Alap.RelaxFrom(program, cfg, Alap.Schedule(startCycle, completeCycle, finish), topo, k) == all
      {
        if Connected(program, topo[k]) {
          var begin := RescheduleNode(topo[k], finish);
          finish := LowerParents(finish, Parents(program, topo[k]), begin);
        }
      }
    }

    /** Steps a prepared datapath to the end and reschedules it. */
    method ScheduleAndReschedule(topo: seq<nat>)
      requires Valid() && Initial(program, View())
      requires Acyclic(program) && Alap.SinksFirst(program, topo) && cfg.cycleTime > 0
      modifies this
      ensures program == old(program) && FlagSound()
      ensures AlapCorrect.Outcome(program, cfg, old(PortsFree(cfg, View())), startCycle, completeCycle, numCycles)
    {
      AlapCorrect.InvocationCorrect(program, cfg, View(), topo);
      var cycles := Schedule();
      RescheduleNodesWhenNeeded(topo);
    }

    /** One invocation of the accelerator. */
    method Invoke(g: Graph, topo: seq<nat>)
      requires Mapped(g, cfg) && FlagSound() && Acyclic(g) && Alap.SinksFirst(g, topo) && cfg.cycleTime > 0
      modifies this
      ensures program == g && FlagSound()
      ensures AlapCorrect.Outcome(g, cfg, old(PortsFree(cfg, View())), startCycle, completeCycle, numCycles)
    {
      PrepareForScheduling(g);
      PreparedIsValid();
      PreparedState(g, occupiedBw, loads, stores);
      ScheduleAndReschedule(topo);
    }
  }
}
