/** The imperative driver: the global counter, the shared variable values, and
    `bbsolve`'s loop over a local frontier, proved to compute `Search`. */
module Driver {
  import opened Wrappers
  import opened Numbers
  import opened BBTree
  import opened Frontier
  import opened BranchAndBound

  /** The module-level `counter = itertools.count()`. */
  class Counter {
    var next: nat

    constructor ()
      ensures next == 0
    {
      next := 0;
    }

    /** `next(counter)`. */
    method Next() returns (n: nat)
      modifies this
      ensures n == old(next) && next == old(next) + 1
    {
      n := next;
      next := next + 1;
    }
  }

  /** The values of the variable objects every node shares. A solve that finds
      an optimum writes its values back; otherwise they stay as they were. */
  class Variables {
    var value: Valuation

    /** `prob.solve(...)`: ask the solver, and keep its values on an optimum. */
    method Solve(oracle: Oracle, cs: seq<Constraint>) returns (o: Outcome)
      modifies this
      ensures o == oracle(cs)
      ensures value == if o.Optimal? then o.values else old(value)
    {
      o := oracle(cs);
      if o.Optimal? {
        value := o.values;
      }
    }
  }

  /** One `try` block of the loop: solve a child and push it, keyed `key`,
      unless the solver reports infeasibility or raises. The incumbent is only
      carried along, to name the state the step is taken from. */
  method TryPush(heap: seq<Entry>, ghost best: Option<real>, ghost bestVars: seq<Var>,
                 child: Node, key: real, oracle: Oracle, counter: Counter, vars: Variables)
    returns (heap': seq<Entry>)
    modifies counter, vars
    ensures Admit(State(heap, best, bestVars, old(vars.value), old(counter.next)), child, key, oracle)
      == State(heap', best, bestVars, vars.value, counter.next)
  {
    heap' := heap;
    var o := vars.Solve(oracle, child.constraints);
    if o.Optimal? {
      var c := counter.Next();
      heap' := heap + [Entry(key, c, child)];
    }
  }

  /** The branching tail of an iteration: choose the branch variable (raising
      when the scan meets a missing value), then try the floor child and the
      ceiling child. */
  method BranchOn(heap: seq<Entry>, ghost best: Option<real>, ghost bestVars: seq<Var>,
                  node: Node, key: real, oracle: Oracle, counter: Counter, vars: Variables)
    returns (heap': seq<Entry>, raised: bool)
    modifies counter, vars
    ensures var m := Branch(State(heap, best, bestVars, old(vars.value), old(counter.next)), node, key, oracle);
      && raised == m.Raises?
      && (if m.Moved? then m.next else m.at) == State(heap', best, bestVars, vars.value, counter.next)
  {
    var chosen := BranchVar(node, vars.value);
    if chosen.None? {
      return heap, true;
    }
    var x := vars.value[chosen.value];
    heap' := TryPush(heap, best, bestVars, BranchFloor(node, chosen.value, x), key, oracle, counter, vars);
    heap' := TryPush(heap', best, bestVars, BranchCeil(node, chosen.value, x), key, oracle, counter, vars);
    raised := false;
  }

  /** One iteration of the loop on a non-empty frontier; `raised` tells that the
      iteration raised. */
  method Iterate(heap: seq<Entry>, best: Option<real>, bestVars: seq<Var>, oracle: Oracle,
                 counter: Counter, vars: Variables)
    returns (heap': seq<Entry>, best': Option<real>, bestVars': seq<Var>, raised: bool)
    requires |heap| > 0
    modifies counter, vars
    ensures var m := Step(State(heap, best, bestVars, old(vars.value), old(counter.next)), oracle);
      && raised == m.Raises?
      && (m.Moved? ==> m.next == State(heap', best', bestVars', vars.value, counter.next))
      && (m.Raises? ==> m.at == State(heap', best', bestVars', vars.value, counter.next))
  {
    var i := MinIndex(heap);
    var node := heap[i].node;
    heap', best', bestVars', raised := Remove(heap, i), best, bestVars, false;
    if IsIntegral(node, vars.value) {
      best' := Lookup(vars.value, node.objective);
      bestVars' := node.vars;
    } else if node.objective !in vars.value || best.None? {
      raised := true;
    } else if vars.value[node.objective] > best.value {
      heap', raised := BranchOn(heap', best, bestVars, node, best.value, oracle, counter, vars);
    }
  }

  /** One iteration, seen from the run it belongs to: a run from the old state
      with `fuel` iterations left ends as a run from the new state with one
      fewer, `fuel'`, does, or, when the iteration raises, the run has crashed
      in the new state. */
  method Advance(heap: seq<Entry>, best: Option<real>, bestVars: seq<Var>,
                 ghost t: Trace, ghost fuel: nat, ghost fuel': nat,
                 oracle: Oracle, counter: Counter, vars: Variables)
    returns (heap': seq<Entry>, best': Option<real>, bestVars': seq<Var>, raised: bool)
    requires |heap| > 0 && fuel == fuel' + 1
    requires Ends(t, State(heap, best, bestVars, vars.value, counter.next), oracle, fuel)
    modifies counter, vars
    ensures raised ==> t.halt == Crashed && t.final == State(heap', best', bestVars', vars.value, counter.next)
    ensures !raised ==> Ends(t, State(heap', best', bestVars', vars.value, counter.next), oracle, fuel')
  {
    ghost var cur := State(heap, best, bestVars, vars.value, counter.next);
    heap', best', bestVars', raised := Iterate(heap, best, bestVars, oracle, counter, vars);
    if raised {
      RunUnfolds(cur, oracle, fuel);
    } else {
      EndsStep(t, cur, oracle, fuel, fuel');
    }
  }

  /** The `while len(heap) > 0` loop of `bbsolve`, for at most `fuel` iterations
      from the frontier and incumbent given. */
  method Drain(heap: seq<Entry>, best: Option<real>, bestVars: seq<Var>, fuel: nat, oracle: Oracle,
               counter: Counter, vars: Variables)
    returns (r: Result)
    modifies counter, vars
    ensures var t := Run(State(heap, best, bestVars, old(vars.value), old(counter.next)), oracle, fuel);
      && r == Answer(t)
      && counter.next == t.final.counter
      && vars.value == t.final.values
  {
    ghost var t := Run(State(heap, best, bestVars, vars.value, counter.next), oracle, fuel);
    var h, b, bv, k := heap, best, bestVars, fuel;
    while |h| > 0
      invariant Ends(t, State(h, b, bv, vars.value, counter.next), oracle, k)
      decreases k
    {
      if k == 0 {
        return OutOfFuel;
      }
      var raised, k' := false, k - 1;
      h, b, bv, raised := Advance(h, b, bv, t, k, k', oracle, counter, vars);
      if raised {
        return Raised;
      }
      k := k';
    }
    r := Returned(b, bv);
  }

  /** `bbsolve`, run for at most `fuel` iterations of its loop. */
  method BbSolve(root: Node, rootKey: real, oracle: Oracle, fuel: nat, counter: Counter, vars: Variables)
    returns (r: Result)
    modifies counter, vars
    ensures var t := Search(root, rootKey, oracle, fuel, old(counter.next), old(vars.value));
      && r == Answer(t)
      && counter.next == t.final.counter
      && vars.value == t.final.values
  {
    var res := vars.Solve(oracle, root.constraints);
    if res.Error? {
      return Raised;
    }
    var stamp := counter.Next();
    r := Drain([Entry(rootKey, stamp, root)], Some(Sentinel), root.vars, fuel, oracle, counter, vars);
  }
}
