/** One iteration of the `bbsolve` loop and the whole run, as functions of the
    search state. The relaxation solver is a parameter (`Oracle`); its answer
    is written into the shared valuation, which is what later iterations read. */
module BranchAndBound {
  import opened Wrappers
  import opened Numbers
  import opened BBTree
  import opened Frontier

  /** What one call of the relaxation solver reports. `Error` stands for the
      solver raising. */
  datatype Outcome = Optimal(values: Valuation) | Infeasible | Error

  /** The relaxation solver: the outcome of solving a constraint list. */
  type Oracle = seq<Constraint> -> Outcome

  /** The state between two iterations of the loop: the frontier, the incumbent
      `bestres` (`None` once an undefined objective was stored), `bestnode_vars`,
      the values of the shared variables and the next value of the counter. */
  datatype State = State(
    heap: seq<Entry>,
    best: Option<real>,
    bestVars: seq<Var>,
    values: Valuation,
    counter: nat)

  /** What an iteration did with the node it popped. */
  datatype Event = Accepted(value: Option<real>, vars: seq<Var>) | Pruned | Branched

  /** An iteration either finishes or raises (a comparison with `None`, or
      `round(None)`), leaving the state it had reached. */
  datatype StepResult = Moved(next: State, event: Event) | Raises(at: State)

  /** The entry `heappop` removes. */
  function Popped(s: State): Entry
    requires |s.heap| > 0
  {
    s.heap[MinIndex(s.heap)]
  }

  /** The frontier after `heappop`. */
  function Rest(s: State): seq<Entry>
    requires |s.heap| > 0
  {
    Remove(s.heap, MinIndex(s.heap))
  }

  /** Solve a child and push it, keyed `key`, unless the solver reports
      infeasibility or raises: one `try` block of the loop. */
  function Admit(s: State, child: Node, key: real, oracle: Oracle): State {
    match oracle(child.constraints)
    case Optimal(vals) =>
      s.(heap := s.heap + [Entry(key, s.counter, child)], values := vals, counter := s.counter + 1)
    case Infeasible => s
    case Error => s
  }

  /** The tail of an iteration on a fractional node that beats the incumbent:
      pick the branch variable and try the floor child, then the ceiling child,
      both keyed `key`. */
  function Branch(s0: State, n: Node, key: real, oracle: Oracle): StepResult {
    match BranchVar(n, s0.values)
    case None => Raises(s0)
    case Some(v) =>
      var x := s0.values[v];
      var s1 := Admit(s0, BranchFloor(n, v, x), key, oracle);
      Moved(Admit(s1, BranchCeil(n, v, x), key, oracle), Branched)
  }

  /** One iteration of the `while len(heap) > 0` loop. */
  function Step(s: State, oracle: Oracle): StepResult
    requires |s.heap| > 0
  {
    var n := Popped(s).node;
    var s0 := s.(heap := Rest(s));
    if IsIntegral(n, s.values) then
      var obj := Lookup(s.values, n.objective);
      Moved(s0.(best := obj, bestVars := n.vars), Accepted(obj, n.vars))
    else if n.objective !in s.values || s.best.None? then
      Raises(s0)
    else if s.values[n.objective] <= s.best.value then
      Moved(s0, Pruned)
    else
      Branch(s0, n, s.best.value, oracle)
  }

  /** Every iteration removes the least entry by `(key, stamp)` and nothing else. */
  lemma StepRemovesMinimum(s: State)
    requires |s.heap| > 0 && Stamped(s.heap, s.counter)
    ensures forall j :: 0 <= j < |Rest(s)| ==> Before(Popped(s), Rest(s)[j])
    ensures multiset(Rest(s)) + multiset{Popped(s)} == multiset(s.heap)
  {
    var i := MinIndex(s.heap);
    MinIsStrict(s.heap, s.counter);
    forall j | 0 <= j < |Rest(s)| ensures Before(Popped(s), Rest(s)[j]) {
      var j' := if j < i then j else j + 1;
      assert Rest(s)[j] == s.heap[j'] && j' != i;
    }
  }

  /** An integral node overwrites the incumbent, whatever its objective, and
      pushes nothing. */
  lemma StepAccepts(s: State, oracle: Oracle)
    requires |s.heap| > 0 && IsIntegral(Popped(s).node, s.values)
    ensures var m := Step(s, oracle); var n := Popped(s).node;
      && m.Moved? && m.event.Accepted?
      && m.next.best == Lookup(s.values, n.objective)
      && m.next.bestVars == n.vars
      && m.next.heap == Rest(s)
      && m.next.counter == s.counter && m.next.values == s.values
  {
  }

  /** Only an integral node is accepted: every other node is dropped, branched
      or raises. */
  lemma StepAcceptsOnlyIntegral(s: State, oracle: Oracle)
    requires |s.heap| > 0
    ensures var m := Step(s, oracle);
      (m.Moved? && m.event.Accepted?) <==> IsIntegral(Popped(s).node, s.values)
  {
    if s.best.Some? && !IsIntegral(Popped(s).node, s.values) {
      BranchFrontier(s.(heap := Rest(s)), Popped(s).node, s.best.value, oracle);
    }
  }

  /** The overwrite is unconditional: in a state where the shared values give an
      integral node a lower objective than the incumbent, the node still
      replaces it. No search reaches such a state once a node has been
      accepted (`RunAfterAccept`); the lemma is about one iteration alone. */
  lemma AcceptCanLowerIncumbent(oracle: Oracle)
    ensures var s := State([Entry(0.0, 0, Node([], [], 0))], Some(5.0), [], map[0 := 1.0], 1);
      && Step(s, oracle).Moved?
      && Step(s, oracle).next.best == Some(1.0)
      && Step(s, oracle).next.best.value < s.best.value
  {
    var s := State([Entry(0.0, 0, Node([], [], 0))], Some(5.0), [], map[0 := 1.0], 1);
    assert MinIndex(s.heap) == 0;
    StepAccepts(s, oracle);
  }

  /** A fractional node whose objective does not exceed the incumbent is
      dropped: only the frontier changes. */
  lemma StepPrunes(s: State, oracle: Oracle)
    requires |s.heap| > 0
    requires !IsIntegral(Popped(s).node, s.values)
    requires Popped(s).node.objective in s.values && s.best.Some?
    requires s.values[Popped(s).node.objective] <= s.best.value
    ensures Step(s, oracle) == Moved(s.(heap := Rest(s)), Pruned)
  {
  }

  /** Branching leaves the incumbent alone and appends to the frontier at most
      two entries, keyed `key`, stamped with consecutive fresh counter values
      and holding nodes whose solve was optimal; when the branch variable
      cannot be chosen it raises with nothing pushed. */
  lemma BranchFrontier(s0: State, n: Node, key: real, oracle: Oracle)
    ensures var m := Branch(s0, n, key, oracle);
      && (m.Raises? ==> m.at == s0)
      && (m.Moved? ==>
            var h := m.next.heap;
            && m.event.Branched?
            && m.next.best == s0.best && m.next.bestVars == s0.bestVars
            && |s0.heap| <= |h| <= |s0.heap| + 2
            && h[..|s0.heap|] == s0.heap
            && m.next.counter == s0.counter + (|h| - |s0.heap|)
            && forall j :: |s0.heap| <= j < |h| ==>
                 && h[j].key == key
                 && h[j].stamp == s0.counter + (j - |s0.heap|)
                 && oracle(h[j].node.constraints).Optimal?)
      && (BranchVar(n, s0.values).Some? ==>
            var v := BranchVar(n, s0.values).value;
            var lo := oracle(BranchFloor(n, v, s0.values[v]).constraints);
            var hi := oracle(BranchCeil(n, v, s0.values[v]).constraints);
            && m.Moved?
            && m.next.values == if hi.Optimal? then hi.values else if lo.Optimal? then lo.values else s0.values)
  {
    match BranchVar(n, s0.values)
    case None =>
    case Some(v) =>
      var x := s0.values[v];
      var s1 := Admit(s0, BranchFloor(n, v, x), key, oracle);
      var s2 := Admit(s1, BranchCeil(n, v, x), key, oracle);
      assert s1.heap[..|s0.heap|] == s0.heap;
      assert s2.heap[..|s1.heap|] == s1.heap;
      forall j | |s0.heap| <= j < |s2.heap|
        ensures s2.heap[j].key == key && s2.heap[j].stamp == s0.counter + (j - |s0.heap|)
        ensures oracle(s2.heap[j].node.constraints).Optimal?
      {
        if j < |s1.heap| {
          assert s2.heap[j] == s1.heap[j];
        }
      }
  }

  /** The incumbent changes only by an accepted node, and then to that node's
      objective value and variables. */
  lemma StepKeepsIncumbent(s: State, oracle: Oracle)
    requires |s.heap| > 0
    ensures var m := Step(s, oracle);
      && (m.Raises? ==> m.at.best == s.best && m.at.bestVars == s.bestVars)
      && (m.Moved? && m.event.Accepted? ==> m.next.best == m.event.value && m.next.bestVars == m.event.vars)
      && (m.Moved? && !m.event.Accepted? ==> m.next.best == s.best && m.next.bestVars == s.bestVars)
  {
    if s.best.Some? {
      BranchFrontier(s.(heap := Rest(s)), Popped(s).node, s.best.value, oracle);
    }
  }

  /** The shape of the frontier after one iteration: the popped entry is gone
      (also when the iteration raises, which happens before any push),
      at most two entries are appended, each keyed by the incumbent of the
      parent's iteration, stamped with fresh counter values in order, and
      holding a node whose solve was optimal. */
  lemma StepFrontier(s: State, oracle: Oracle)
    requires |s.heap| > 0
    ensures var m := Step(s, oracle); m.Raises? ==> m.at == s.(heap := Rest(s))
    ensures var m := Step(s, oracle); var r := Rest(s);
      m.Moved? ==>
        var h := m.next.heap;
        && |r| <= |h| <= |r| + 2
        && -1 <= |h| - |s.heap| <= 1
        && h[..|r|] == r
        && m.next.counter == s.counter + (|h| - |r|)
        && (!m.event.Branched? ==> h == r && m.next.values == s.values)
        && forall j :: |r| <= j < |h| ==>
             && s.best.Some? && h[j].key == s.best.value
             && h[j].stamp == s.counter + (j - |r|)
             && oracle(h[j].node.constraints).Optimal?
  {
    if s.best.Some? {
      BranchFrontier(s.(heap := Rest(s)), Popped(s).node, s.best.value, oracle);
    }
  }

  /** A branching iteration pushes exactly the children whose solve was optimal:
      the floor child first, then the ceiling child. */
  lemma StepBranches(s: State, oracle: Oracle)
    requires |s.heap| > 0
    requires Step(s, oracle).Moved? && Step(s, oracle).event.Branched?
    ensures var n := Popped(s).node;
      && !IsIntegral(n, s.values) && n.objective in s.values && s.best.Some?
      && s.values[n.objective] > s.best.value
      && BranchVar(n, s.values).Some?
      && Fractional(s.values[BranchVar(n, s.values).value])
    ensures var n := Popped(s).node; var v := BranchVar(n, s.values).value;
      var lo := BranchFloor(n, v, s.values[v]);
      var hi := BranchCeil(n, v, s.values[v]);
      var pushed := Step(s, oracle).next.heap[|Rest(s)|..];
      && |pushed| == (if oracle(lo.constraints).Optimal? then 1 else 0)
                     + (if oracle(hi.constraints).Optimal? then 1 else 0)
      && (oracle(lo.constraints).Optimal? ==> pushed[0].node == lo)
      && (oracle(hi.constraints).Optimal? ==> pushed[|pushed| - 1].node == hi)
    ensures var n := Popped(s).node; var v := BranchVar(n, s.values).value;
      var lo := oracle(BranchFloor(n, v, s.values[v]).constraints);
      var hi := oracle(BranchCeil(n, v, s.values[v]).constraints);
      Step(s, oracle).next.values == if hi.Optimal? then hi.values else if lo.Optimal? then lo.values else s.values
  {
    StepFrontier(s, oracle);
    BranchValueFractional(Popped(s).node, s.values);
    BranchFrontier(s.(heap := Rest(s)), Popped(s).node, s.best.value, oracle);
  }

  /** The state an iteration leaves, whether it finished or raised. */
  function After(m: StepResult): State {
    match m
    case Moved(next, _) => next
    case Raises(at) => at
  }

  /** Stamps stay distinct and below the counter, and the counter never goes
      back: every pushed stamp is greater than every stamp issued before it. */
  lemma StepKeepsStamped(s: State, oracle: Oracle)
    requires |s.heap| > 0 && Stamped(s.heap, s.counter)
    ensures var a := After(Step(s, oracle));
      Stamped(a.heap, a.counter) && a.counter >= s.counter
  {
    StepFrontier(s, oracle);
    RemoveKeepsStamped(s.heap, MinIndex(s.heap), s.counter);
    var m := Step(s, oracle);
    if m.Moved? {
      PushFreshKeepsStamped(Rest(s), m.next.heap, s.counter, m.next.counter);
    }
  }

  /** How a run of the loop ends. */
  datatype Halt = Finished | Crashed | FuelSpent

  /** A run: how it ended, the state it ended in, and what each iteration did. */
  datatype Trace = Trace(halt: Halt, final: State, log: seq<Event>)

  /** The loop, allowed at most `fuel` iterations. */
  function Run(s: State, oracle: Oracle, fuel: nat): (t: Trace)
    ensures t.halt == Finished ==> |t.final.heap| == 0
    ensures |t.log| <= fuel
    decreases fuel, 1
  {
    if |s.heap| == 0 then Trace(Finished, s, [])
    else if fuel == 0 then Trace(FuelSpent, s, [])
    else Continue(s, oracle, fuel)
  }

  /** A run from a state where the loop condition holds and iterations remain:
      one iteration, then the rest of the run. */
  function Continue(s: State, oracle: Oracle, fuel: nat): (t: Trace)
    requires |s.heap| > 0 && fuel > 0
    ensures t.halt == Finished ==> |t.final.heap| == 0
    ensures |t.log| <= fuel
    decreases fuel, 0
  {
    match Step(s, oracle)
    case Raises(s') => Trace(Crashed, s', [])
    case Moved(s', e) =>
      var t := Run(s', oracle, fuel - 1);
      Trace(t.halt, t.final, [e] + t.log)
  }

  /** One more iteration of a run: the run logs the iteration, then ends
      where the rest of it ends; an iteration that raises ends the run. */
  lemma RunUnfolds(s: State, oracle: Oracle, fuel: nat)
    requires |s.heap| > 0 && fuel > 0
    ensures var m := Step(s, oracle); var t := Run(s, oracle, fuel);
      && (m.Moved? ==>
            var t' := Run(m.next, oracle, fuel - 1);
            t == Trace(t'.halt, t'.final, [m.event] + t'.log))
      && (m.Raises? ==> t == Trace(Crashed, m.at, []))
  {
  }

  /** A run from `s` with `fuel` iterations ends as `t` does. */
  predicate Ends(t: Trace, s: State, oracle: Oracle, fuel: nat) {
    t.halt == Run(s, oracle, fuel).halt && t.final == Run(s, oracle, fuel).final
  }

  /** Where a run ends does not change by taking one of its iterations. */
  lemma EndsStep(t: Trace, s: State, oracle: Oracle, fuel: nat, fuel': nat)
    requires Ends(t, s, oracle, fuel) && |s.heap| > 0 && fuel == fuel' + 1 && Step(s, oracle).Moved?
    ensures Ends(t, Step(s, oracle).next, oracle, fuel')
  {
    var m := Step(s, oracle);
    var t' := Run(m.next, oracle, fuel');
    assert Continue(s, oracle, fuel) == Trace(t'.halt, t'.final, [m.event] + t'.log);
  }

  /** Position of the last accepted node in a log, or -1 when there is none. */
  function LastAccepted(log: seq<Event>): (k: int)
    ensures -1 <= k < |log|
    ensures k >= 0 ==> log[k].Accepted?
    ensures forall j :: k < j < |log| ==> !log[j].Accepted?
    decreases |log|
  {
    if |log| == 0 then -1
    else
      var k := LastAccepted(log[1..]);
      assert forall j :: 0 <= j < |log| - 1 ==> log[1..][j] == log[j + 1];
      if k >= 0 then k + 1
      else if log[0].Accepted? then 0
      else -1
  }

  /** Prepending an event shifts the last acceptance by one, unless the rest
      accepts nothing. */
  lemma LastAcceptedCons(e: Event, log: seq<Event>)
    ensures LastAccepted([e] + log) ==
      if LastAccepted(log) >= 0 then LastAccepted(log) + 1
      else if e.Accepted? then 0
      else -1
  {
    assert ([e] + log)[1..] == log;
  }

  /** However a run ends, its incumbent is that of the last accepted node, or
      the one it started with when no node was accepted. */
  lemma {:induction false} RunIncumbent(s: State, oracle: Oracle, fuel: nat)
    ensures var t := Run(s, oracle, fuel); var k := LastAccepted(t.log);
      && (k < 0 ==> t.final.best == s.best && t.final.bestVars == s.bestVars)
      && (k >= 0 ==> t.final.best == t.log[k].value && t.final.bestVars == t.log[k].vars)
    decreases fuel
  {
    if |s.heap| > 0 && fuel > 0 {
      StepKeepsIncumbent(s, oracle);
      RunUnfolds(s, oracle, fuel);
      var m := Step(s, oracle);
      if m.Moved? {
        var t := Run(s, oracle, fuel);
        var t' := Run(m.next, oracle, fuel - 1);
        RunIncumbent(m.next, oracle, fuel - 1);
        LastAcceptedCons(m.event, t'.log);
        var k' := LastAccepted(t'.log);
        if k' >= 0 {
          assert t.log[k' + 1] == t'.log[k'];
        }
      }
    }
  }

  /** Along a whole run, stamps stay distinct and below the counter, which
      never goes back. */
  lemma {:induction false} RunKeepsStamped(s: State, oracle: Oracle, fuel: nat)
    requires Stamped(s.heap, s.counter)
    ensures var f := Run(s, oracle, fuel).final;
      Stamped(f.heap, f.counter) && f.counter >= s.counter
    decreases fuel
  {
    if |s.heap| > 0 && fuel > 0 {
      RunUnfolds(s, oracle, fuel);
      StepKeepsStamped(s, oracle);
      var m := Step(s, oracle);
      var f := Run(s, oracle, fuel).final;
      if m.Moved? {
        assert After(m) == m.next;
        RunKeepsStamped(m.next, oracle, fuel - 1);
        assert f == Run(m.next, oracle, fuel - 1).final;
      } else {
        assert f == After(m);
      }
    }
  }

  /** Every node on the frontier has variables `vs` and objective `obj`. */
  predicate Shared(h: seq<Entry>, vs: seq<Var>, obj: Var) {
    forall j :: 0 <= j < |h| ==> h[j].node.vars == vs && h[j].node.objective == obj
  }

  /** Branching clones keep the variables and the objective, so an iteration
      keeps every node on the frontier sharing them, the popped one included. */
  lemma StepShares(s: State, oracle: Oracle, vs: seq<Var>, obj: Var)
    requires |s.heap| > 0 && Shared(s.heap, vs, obj)
    ensures Popped(s).node.vars == vs && Popped(s).node.objective == obj
    ensures Shared(After(Step(s, oracle)).heap, vs, obj)
  {
    var m := Step(s, oracle);
    var r := Rest(s);
    assert Shared(r, vs, obj) by {
      forall j | 0 <= j < |r| ensures r[j].node.vars == vs && r[j].node.objective == obj {
        assert r[j] == s.heap[if j < MinIndex(s.heap) then j else j + 1];
      }
    }
    StepFrontier(s, oracle);
    if m.Moved? && m.event.Branched? {
      StepBranches(s, oracle);
      var h := m.next.heap;
      forall j | 0 <= j < |h| ensures h[j].node.vars == vs && h[j].node.objective == obj {
        if j >= |r| {
          var pushed := h[|r|..];
          assert h[j] == pushed[j - |r|];
        }
      }
    }
  }

  /** Once the shared values make the common variables integral, nothing is
      solved any more: every later iteration pops a node that is integral under
      the same values and accepts the same objective value, until the frontier
      is empty. */
  lemma {:induction false} RunAfterAccept(s: State, oracle: Oracle, fuel: nat, vs: seq<Var>, obj: Var)
    requires Shared(s.heap, vs, obj)
    requires forall j :: 0 <= j < |vs| - 1 ==> IntegralAt(s.values, vs[j])
    ensures var t := Run(s, oracle, fuel);
      && t.halt != Crashed
      && t.final.values == s.values && t.final.counter == s.counter
      && forall j :: 0 <= j < |t.log| ==> t.log[j] == Accepted(Lookup(s.values, obj), vs)
    decreases fuel
  {
    if |s.heap| > 0 && fuel > 0 {
      StepShares(s, oracle, vs, obj);
      StepAccepts(s, oracle);
      RunUnfolds(s, oracle, fuel);
      var m := Step(s, oracle);
      assert After(m) == m.next;
      RunAfterAccept(m.next, oracle, fuel - 1, vs, obj);
      var t' := Run(m.next, oracle, fuel - 1);
      var t := Run(s, oracle, fuel);
      assert t.log == [m.event] + t'.log;
      forall j | 0 <= j < |t.log| ensures t.log[j] == Accepted(Lookup(s.values, obj), vs) {
        if j > 0 {
          assert t.log[j] == t'.log[j - 1];
        }
      }
    }
  }

  /** Every event of the log after an acceptance is that same acceptance. */
  predicate AcceptsOnce(log: seq<Event>) {
    forall i, j :: 0 <= i < j < |log| && log[i].Accepted? ==> log[j] == log[i]
  }

  /** Prepending an event keeps `AcceptsOnce` when an accepting event is
      followed only by itself. */
  lemma AcceptsOnceCons(e: Event, log: seq<Event>)
    requires AcceptsOnce(log)
    requires e.Accepted? ==> forall j :: 0 <= j < |log| ==> log[j] == e
    ensures AcceptsOnce([e] + log)
  {
    var l := [e] + log;
    forall i, j | 0 <= i < j < |l| && l[i].Accepted? ensures l[j] == l[i] {
      assert l[j] == log[j - 1];
      if i > 0 {
        assert l[i] == log[i - 1];
      }
    }
  }

  /** An accepting iteration is repeated by every later one. */
  lemma AcceptRepeats(s: State, oracle: Oracle, fuel: nat, vs: seq<Var>, obj: Var)
    requires |s.heap| > 0 && Shared(s.heap, vs, obj)
    requires Step(s, oracle).Moved? && Step(s, oracle).event.Accepted?
    ensures var log := Run(Step(s, oracle).next, oracle, fuel).log;
      forall j :: 0 <= j < |log| ==> log[j] == Step(s, oracle).event
  {
    var m := Step(s, oracle);
    StepAcceptsOnlyIntegral(s, oracle);
    StepShares(s, oracle, vs, obj);
    StepAccepts(s, oracle);
    assert After(m) == m.next;
    RunAfterAccept(m.next, oracle, fuel, vs, obj);
  }

  /** Along a run from a frontier of nodes sharing their variables, every event
      after an acceptance is that same acceptance. */
  lemma {:induction false} RunAcceptsOneValue(s: State, oracle: Oracle, fuel: nat, vs: seq<Var>, obj: Var)
    requires Shared(s.heap, vs, obj)
    ensures AcceptsOnce(Run(s, oracle, fuel).log)
    decreases fuel
  {
    if |s.heap| > 0 && fuel > 0 {
      RunUnfolds(s, oracle, fuel);
      var m := Step(s, oracle);
      if m.Moved? {
        var fuel' := fuel - 1;
        var t' := Run(m.next, oracle, fuel');
        StepShares(s, oracle, vs, obj);
        assert After(m) == m.next;
        RunAcceptsOneValue(m.next, oracle, fuel', vs, obj);
        if m.event.Accepted? {
          AcceptRepeats(s, oracle, fuel', vs, obj);
        }
        AcceptsOnceCons(m.event, t'.log);
      }
    }
  }

  /** The state after `bbsolve` has solved and pushed the root, or `None` when
      the root solve raises (it has no handler). The root's key stands for the
      solver's result object. */
  function Start(root: Node, rootKey: real, oracle: Oracle, counter: nat, values: Valuation): (s: Option<State>)
    ensures s.None? <==> oracle(root.constraints).Error?
    ensures s.Some? ==>
      && s.value.heap == [Entry(rootKey, counter, root)]
      && s.value.best == Some(Sentinel) && s.value.bestVars == root.vars
      && s.value.values == (if oracle(root.constraints).Optimal? then oracle(root.constraints).values else values)
    ensures s.Some? ==> Stamped(s.value.heap, s.value.counter) && s.value.counter == counter + 1
  {
    match oracle(root.constraints)
    case Error => None
    case Optimal(vals) =>
      Some(State([Entry(rootKey, counter, root)], Some(Sentinel), root.vars, vals, counter + 1))
    case Infeasible =>
      Some(State([Entry(rootKey, counter, root)], Some(Sentinel), root.vars, values, counter + 1))
  }

  /** What `bbsolve` does, from the counter's next value and the shared values
      at the call. */
  function Search(root: Node, rootKey: real, oracle: Oracle, fuel: nat, counter: nat, values: Valuation): Trace {
    match Start(root, rootKey, oracle, counter, values)
    case None => Trace(Crashed, State([], Some(Sentinel), root.vars, values, counter), [])
    case Some(s) => Run(s, oracle, fuel)
  }

  /** What the caller of `bbsolve` sees. */
  datatype Result = Returned(best: Option<real>, vars: seq<Var>) | Raised | OutOfFuel

  function Answer(t: Trace): Result {
    match t.halt
    case Finished => Returned(t.final.best, t.final.bestVars)
    case Crashed => Raised
    case FuelSpent => OutOfFuel
  }

  /** A run depends on its start state only through the first iteration. */
  lemma RunFollowsStep(s1: State, s2: State, oracle: Oracle, fuel: nat)
    requires |s1.heap| > 0 && |s2.heap| > 0 && fuel > 0
    requires Step(s1, oracle) == Step(s2, oracle)
    ensures Run(s1, oracle, fuel) == Run(s2, oracle, fuel)
  {
    assert Run(s1, oracle, fuel) == Continue(s1, oracle, fuel);
    assert Run(s2, oracle, fuel) == Continue(s2, oracle, fuel);
  }

  /** On a one-entry frontier the entry's key plays no part in the iteration. */
  lemma SoleEntryKey(s: State, key: real, oracle: Oracle)
    requires |s.heap| == 1
    ensures var e := s.heap[0];
      Step(s, oracle) == Step(s.(heap := [Entry(key, e.stamp, e.node)]), oracle)
  {
    var s' := s.(heap := [Entry(key, s.heap[0].stamp, s.heap[0].node)]);
    assert MinIndex(s.heap) == 0 && MinIndex(s'.heap) == 0;
    assert Popped(s).node == Popped(s').node && Rest(s) == Rest(s') == [];
    assert s.(heap := Rest(s)) == s'.(heap := Rest(s'));
  }

  /** The root's key is never compared: the root is the only entry when it
      is popped. Whatever that key is, the search does the same. */
  lemma SearchIgnoresRootKey(root: Node, key1: real, key2: real, oracle: Oracle, fuel: nat,
                             counter: nat, values: Valuation)
    ensures var t1 := Search(root, key1, oracle, fuel, counter, values);
      var t2 := Search(root, key2, oracle, fuel, counter, values);
      && Answer(t1) == Answer(t2)
      && t1.log == t2.log
      && (fuel > 0 ==> t1 == t2)
  {
    match Start(root, key1, oracle, counter, values)
    case None =>
    case Some(s1) =>
      var s2 := Start(root, key2, oracle, counter, values).value;
      if fuel > 0 {
        SoleEntryKey(s1, key2, oracle);
        assert s2 == s1.(heap := [Entry(key2, s1.heap[0].stamp, s1.heap[0].node)]);
        RunFollowsStep(s1, s2, oracle, fuel);
      }
  }

  /** From a real start the returned incumbent can also fall below the initial
      `-1e20`: an integral root whose objective is lower is returned as it is. */
  lemma SearchCanEndBelowSentinel(rootKey: real)
    ensures var root := Node([0, 1], [], 1);
      var oracle: Oracle := cs => Optimal(map[0 := 0.0, 1 := -1000000000000000000000.0]);
      var t := Search(root, rootKey, oracle, 1, 0, map[]);
      && Answer(t) == Returned(Some(-1000000000000000000000.0), root.vars)
      && -1000000000000000000000.0 < Sentinel
  {
    var root := Node([0, 1], [], 1);
    var oracle: Oracle := cs => Optimal(map[0 := 0.0, 1 := -1000000000000000000000.0]);
    var vals := oracle(root.constraints).values;
    assert IntegralAt(vals, root.vars[0]) by {
      assert Round(0.0) == 0;
    }
    SearchRootIntegral(root, rootKey, oracle, 1, 0, map[]);
  }

  /** A solver for the example below: the root at `(x, obj) = (0.5, 10)`, the
      floor child `x <= 0` at `(0, 3)` and the ceiling child `x >= 1` at `(1, 7)`. */
  function ExampleOracle(cs: seq<Constraint>): Outcome {
    if cs == [AtMost(0, 0)] then Optimal(map[0 := 0.0, 1 := 3.0])
    else if cs == [AtLeast(0, 1)] then Optimal(map[0 := 1.0, 1 := 7.0])
    else Optimal(map[0 := 0.5, 1 := 10.0])
  }

  /** The first iteration of the example: the root branches on `x`, and the
      values left behind are the ceiling child's. */
  lemma ExampleFirstStep()
    ensures var root := Node([0, 1], [], 1);
      var s := State([Entry(0.0, 0, root)], Some(Sentinel), root.vars, map[0 := 0.5, 1 := 10.0], 1);
      && Start(root, 0.0, ExampleOracle, 0, map[]) == Some(s)
      && Step(s, ExampleOracle) == Moved(
           State([Entry(Sentinel, 1, BranchFloor(root, 0, 0.5)), Entry(Sentinel, 2, BranchCeil(root, 0, 0.5))],
                 Some(Sentinel), root.vars, map[0 := 1.0, 1 := 7.0], 3),
           Branched)
  {
    var root := Node([0, 1], [], 1);
    var vals := map[0 := 0.5, 1 := 10.0];
    var s := State([Entry(0.0, 0, root)], Some(Sentinel), root.vars, vals, 1);
    assert Popped(s).node == root && Rest(s) == [];
    assert Round(0.5) == 0 && Fractional(vals[0]);
    assert !IsIntegral(root, vals);
    assert BranchVar(root, vals) == Some(0);
    assert Ceil(0.5) == 1;
    assert BranchFloor(root, 0, 0.5).constraints == [AtMost(0, 0)];
    assert BranchCeil(root, 0, 0.5).constraints == [AtLeast(0, 1)];
  }

  /** The second iteration of the example: the floor child is popped first and
      is accepted, judged by the ceiling child's values. */
  lemma ExampleSecondStep()
    ensures var root := Node([0, 1], [], 1);
      var lo := BranchFloor(root, 0, 0.5);
      var hi := BranchCeil(root, 0, 0.5);
      var s := State([Entry(Sentinel, 1, lo), Entry(Sentinel, 2, hi)], Some(Sentinel), root.vars, map[0 := 1.0, 1 := 7.0], 3);
      && Popped(s).node == lo
      && Step(s, ExampleOracle) == Moved(s.(heap := [Entry(Sentinel, 2, hi)], best := Some(7.0)), Accepted(Some(7.0), root.vars))
  {
    var root := Node([0, 1], [], 1);
    var lo := BranchFloor(root, 0, 0.5);
    var hi := BranchCeil(root, 0, 0.5);
    var h := [Entry(Sentinel, 1, lo), Entry(Sentinel, 2, hi)];
    assert Before(h[0], h[1]);
    assert MinIndex(h) == 0;
    assert Remove(h, 0) == [h[1]];
    assert Round(1.0) == 1;
    assert IsIntegral(lo, map[0 := 1.0, 1 := 7.0]);
  }

  /** The shared valuation at work: the root branches, the floor child is popped
      next, but it is judged with the ceiling child's values, which the last
      solve wrote, so it is accepted with objective 7 rather than 3. */
  lemma NextIterationReadsLastSolve()
    ensures var root := Node([0, 1], [], 1);
      var s := State([Entry(0.0, 0, root)], Some(Sentinel), root.vars, map[0 := 0.5, 1 := 10.0], 1);
      var m := Step(s, ExampleOracle);
      && Start(root, 0.0, ExampleOracle, 0, map[]) == Some(s)
      && m.Moved? && m.event.Branched?
      && |m.next.heap| == 2
      && Popped(m.next).node == BranchFloor(root, 0, 0.5)
      && ExampleOracle(BranchFloor(root, 0, 0.5).constraints) == Optimal(map[0 := 0.0, 1 := 3.0])
      && m.next.values == map[0 := 1.0, 1 := 7.0]
      && Step(m.next, ExampleOracle).Moved?
      && Step(m.next, ExampleOracle).event == Accepted(Some(7.0), root.vars)
  {
    ExampleFirstStep();
    ExampleSecondStep();
    assert BranchFloor(Node([0, 1], [], 1), 0, 0.5).constraints == [AtMost(0, 0)];
  }

  /** A search that returns gives `(-1e20, root.vars)` when no integral node was
      popped, and otherwise the objective and variables of the last integral
      node popped. */
  lemma SearchResult(root: Node, rootKey: real, oracle: Oracle, fuel: nat, counter: nat, values: Valuation)
    ensures var t := Search(root, rootKey, oracle, fuel, counter, values);
      var k := LastAccepted(t.log);
      t.halt == Finished ==>
        Answer(t) == if k < 0 then Returned(Some(Sentinel), root.vars)
                     else Returned(t.log[k].value, t.log[k].vars)
  {
    match Start(root, rootKey, oracle, counter, values)
    case None =>
    case Some(s) => RunIncumbent(s, oracle, fuel);
  }

  /** Within one search the incumbent is set once: after the first integral
      node is popped every later iteration accepts the same value without a
      solve, so a search that returns gives the objective value and variables
      of the first integral node popped, which are those of every accepted one. */
  lemma SearchAcceptsOneValue(root: Node, rootKey: real, oracle: Oracle, fuel: nat, counter: nat, values: Valuation)
    ensures var t := Search(root, rootKey, oracle, fuel, counter, values);
      && AcceptsOnce(t.log)
      && forall i :: 0 <= i < |t.log| && t.log[i].Accepted? && t.halt == Finished ==>
           Answer(t) == Returned(t.log[i].value, t.log[i].vars)
  {
    match Start(root, rootKey, oracle, counter, values)
    case None =>
    case Some(s) =>
      assert Shared(s.heap, root.vars, root.objective);
      RunAcceptsOneValue(s, oracle, fuel, root.vars, root.objective);
    SearchResult(root, rootKey, oracle, fuel, counter, values);
    var t := Search(root, rootKey, oracle, fuel, counter, values);
    var k := LastAccepted(t.log);
    forall i | 0 <= i < |t.log| && t.log[i].Accepted? && t.halt == Finished
      ensures Answer(t) == Returned(t.log[i].value, t.log[i].vars)
    {
      if i < k {
        assert t.log[k] == t.log[i];
      }
    }
  }

  /** An integral root relaxation is returned as it is, without branching. */
  lemma SearchRootIntegral(root: Node, rootKey: real, oracle: Oracle, fuel: nat, counter: nat, values: Valuation)
    requires oracle(root.constraints).Optimal?
    requires IsIntegral(root, oracle(root.constraints).values)
    requires fuel > 0
    ensures var vals := oracle(root.constraints).values;
      var t := Search(root, rootKey, oracle, fuel, counter, values);
      && t.log == [Accepted(Lookup(vals, root.objective), root.vars)]
      && Answer(t) == Returned(Lookup(vals, root.objective), root.vars)
      && t.final.counter == counter + 1
  {
    var s := Start(root, rootKey, oracle, counter, values).value;
    assert MinIndex(s.heap) == 0 && Popped(s).node == root && Rest(s) == [];
    var m := Step(s, oracle);
    assert m.Moved? && |m.next.heap| == 0;
    assert Run(m.next, oracle, fuel - 1) == Trace(Finished, m.next, []);
    assert Run(s, oracle, fuel) == Trace(Finished, m.next, [m.event]);
  }
}
