/** A subproblem of the search (`BBTreeNode`): its variables, its accumulated
    constraint list and its objective variable, with the integrality test,
    the branch-variable scan and the floor/ceiling branching rule. */
module BBTree {
  import opened Wrappers
  import opened Numbers

  /** A decision variable, by identity. Every node shares the same variables. */
  type Var = nat

  /** What the shared variables currently hold; a variable outside the domain has
      value `None`. */
  type Valuation = map<Var, real>

  /** A constraint: one supplied by the caller (opaque here), or a bound added
      by branching. */
  datatype Constraint =
    | Given(id: nat)
    | AtMost(v: Var, bound: int)
    | AtLeast(v: Var, bound: int)

  /** A subproblem. The constraint list stands for the node's own cloned problem. */
  datatype Node = Node(vars: seq<Var>, constraints: seq<Constraint>, objective: Var)

  /** `v.value`. */
  function Lookup(values: Valuation, v: Var): Option<real> {
    if v in values then Some(values[v]) else None
  }

  /** Variable `v` has a value and that value passes the integrality test. */
  predicate IntegralAt(values: Valuation, v: Var) {
    v in values && !Fractional(values[v])
  }

  /** Every variable in `vs[lo..hi]` has an integral value. */
  predicate AllIntegral(vs: seq<Var>, values: Valuation, lo: nat, hi: nat)
    requires lo <= hi <= |vs|
  {
    forall j :: lo <= j < hi ==> IntegralAt(values, vs[j])
  }

  /** `vars[:-1]`: the variables the integrality test inspects. */
  function Decisions(vars: seq<Var>): (ds: seq<Var>)
    ensures |ds| == if |vars| == 0 then 0 else |vars| - 1
    ensures forall j :: 0 <= j < |ds| ==> ds[j] == vars[j]
  {
    if |vars| == 0 then [] else vars[..|vars| - 1]
  }

  /** The loop of `is_integral` from position `i` on, leaving at the first value
      that is missing or fractional. */
  function IntegralFrom(ds: seq<Var>, values: Valuation, i: nat): (b: bool)
    requires i <= |ds|
    ensures b <==> AllIntegral(ds, values, i, |ds|)
    decreases |ds| - i
  {
    if i == |ds| then true
    else if ds[i] !in values || Fractional(values[ds[i]]) then false
    else IntegralFrom(ds, values, i + 1)
  }

  /** `is_integral`: every variable but the last has a value within `Eps` of an
      integer. */
  function IsIntegral(n: Node, values: Valuation): (b: bool)
    ensures b <==> forall j :: 0 <= j < |n.vars| - 1 ==> IntegralAt(values, n.vars[j])
  {
    var ds := Decisions(n.vars);
    var b := IntegralFrom(ds, values, 0);
    assert b <==> forall j :: 0 <= j < |n.vars| - 1 ==> IntegralAt(values, n.vars[j]) by {
      if b {
        forall j | 0 <= j < |n.vars| - 1 ensures IntegralAt(values, n.vars[j]) {
          assert ds[j] == n.vars[j];
        }
      }
    }
    b
  }

  /** The test never looks at the last variable (the objective carrier): giving
      it any value, or none, leaves the verdict unchanged. */
  lemma IntegralIgnoresLast(n: Node, values: Valuation, r: real)
    requires |n.vars| > 0
    requires forall j :: 0 <= j < |n.vars| - 1 ==> n.vars[j] != n.vars[|n.vars| - 1]
    ensures IsIntegral(n, values[n.vars[|n.vars| - 1] := r]) == IsIntegral(n, values)
    ensures IsIntegral(n, values - {n.vars[|n.vars| - 1]}) == IsIntegral(n, values)
  {
    var last := n.vars[|n.vars| - 1];
    forall j | 0 <= j < |n.vars| - 1
      ensures IntegralAt(values[last := r], n.vars[j]) == IntegralAt(values, n.vars[j])
      ensures IntegralAt(values - {last}, n.vars[j]) == IntegralAt(values, n.vars[j])
    {
      assert n.vars[j] != last;
    }
  }

  /** Where the branch-variable scan stops: at the first fractional value, at a
      missing value (`round(None)` raises), or past the end. */
  datatype Scan = Found(k: nat) | Undefined(k: nat) | Exhausted

  /** The scan over `vars` (all of them, the objective included) from position `i`. */
  function ScanFrom(vs: seq<Var>, values: Valuation, i: nat): (r: Scan)
    requires i <= |vs|
    ensures r.Found? ==>
      i <= r.k < |vs| && vs[r.k] in values && Fractional(values[vs[r.k]])
      && AllIntegral(vs, values, i, r.k)
    ensures r.Undefined? ==>
      i <= r.k < |vs| && vs[r.k] !in values && AllIntegral(vs, values, i, r.k)
    ensures r.Exhausted? ==> AllIntegral(vs, values, i, |vs|)
    decreases |vs| - i
  {
    if i == |vs| then Exhausted
    else if vs[i] !in values then Undefined(i)
    else if Fractional(values[vs[i]]) then Found(i)
    else ScanFrom(vs, values, i + 1)
  }

  /** The branch-variable choice of `bbsolve`: the first fractional variable of
      `vars`, otherwise `vars[0]`; `None` when the scan raises (a missing value
      met first, or no variables at all). */
  function BranchVar(n: Node, values: Valuation): (r: Option<Var>)
    ensures r.Some? ==> r.value in values
    ensures r.Some? && Fractional(values[r.value]) ==>
      exists k :: 0 <= k < |n.vars| && n.vars[k] == r.value && AllIntegral(n.vars, values, 0, k)
    ensures r.Some? && !Fractional(values[r.value]) ==>
      |n.vars| > 0 && r.value == n.vars[0] && AllIntegral(n.vars, values, 0, |n.vars|)
    ensures r.None? <==>
      |n.vars| == 0 || exists k :: 0 <= k < |n.vars| && n.vars[k] !in values && AllIntegral(n.vars, values, 0, k)
  {
    if |n.vars| == 0 then None
    else
      var sc := ScanFrom(n.vars, values, 0);
      assert sc.Undefined? <==>
        exists k :: 0 <= k < |n.vars| && n.vars[k] !in values && AllIntegral(n.vars, values, 0, k);
      match sc
      case Found(k) => Some(n.vars[k])
      case Undefined(_) => None
      case Exhausted => Some(n.vars[0])
  }

  /** When the test has failed, the scan stops inside `vars[:-1]`, and when every
      value is present it stops at a fractional one there. */
  lemma ChosenIsDecision(n: Node, values: Valuation)
    requires !IsIntegral(n, values)
    ensures !ScanFrom(n.vars, values, 0).Exhausted?
    ensures ScanFrom(n.vars, values, 0).Found? ==> ScanFrom(n.vars, values, 0).k < |n.vars| - 1
    ensures (forall j :: 0 <= j < |n.vars| ==> n.vars[j] in values) ==>
      ScanFrom(n.vars, values, 0).Found? && BranchVar(n, values) == Some(n.vars[ScanFrom(n.vars, values, 0).k])
  {
    var j :| 0 <= j < |n.vars| - 1 && !IntegralAt(values, n.vars[j]);
  }

  /** When the test has failed and the choice does not raise, the value
      branched on is fractional. */
  lemma BranchValueFractional(n: Node, values: Valuation)
    requires !IsIntegral(n, values) && BranchVar(n, values).Some?
    ensures Fractional(values[BranchVar(n, values).value])
  {
  }

  /** `branch_floor`: a clone of the node whose problem also requires
      `v <= floor(x)`. */
  function BranchFloor(n: Node, v: Var, x: real): (c: Node)
    ensures c.vars == n.vars && c.objective == n.objective
    ensures |c.constraints| == |n.constraints| + 1
    ensures c.constraints[..|n.constraints|] == n.constraints
    ensures c.constraints[|n.constraints|] == AtMost(v, x.Floor)
  {
    n.(constraints := n.constraints + [AtMost(v, x.Floor)])
  }

  /** `branch_ceil`: a clone of the node whose problem also requires
      `v >= ceil(x)`. */
  function BranchCeil(n: Node, v: Var, x: real): (c: Node)
    ensures c.vars == n.vars && c.objective == n.objective
    ensures |c.constraints| == |n.constraints| + 1
    ensures c.constraints[..|n.constraints|] == n.constraints
    ensures c.constraints[|n.constraints|] == AtLeast(v, Ceil(x))
  {
    n.(constraints := n.constraints + [AtLeast(v, Ceil(x))])
  }

  /** A point of the variable space, for reading constraints as regions. */
  type Point = map<Var, real>

  /** Whether a point satisfies a constraint; `given` interprets the caller's
      constraints. */
  predicate Holds(c: Constraint, p: Point, given: (nat, Point) -> bool) {
    match c
    case Given(id) => given(id, p)
    case AtMost(v, b) => v in p && p[v] <= b as real
    case AtLeast(v, b) => v in p && p[v] >= b as real
  }

  /** Whether a point satisfies every constraint of a list. */
  predicate Feasible(cs: seq<Constraint>, p: Point, given: (nat, Point) -> bool) {
    forall i :: 0 <= i < |cs| ==> Holds(cs[i], p, given)
  }

  /** The two children of a fractional value have disjoint regions. */
  lemma BranchExclusive(n: Node, v: Var, x: real, p: Point, given: (nat, Point) -> bool)
    requires Fractional(x)
    ensures !(Feasible(BranchFloor(n, v, x).constraints, p, given)
              && Feasible(BranchCeil(n, v, x).constraints, p, given))
  {
    FractionalSplit(x);
  }

  /** Every point of the parent's region where `v` is an integer lies in one of
      the children's regions: branching loses no integer solution. */
  lemma BranchCovers(n: Node, v: Var, x: real, p: Point, given: (nat, Point) -> bool)
    requires Feasible(n.constraints, p, given)
    requires v in p && p[v] == p[v].Floor as real
    ensures Feasible(BranchFloor(n, v, x).constraints, p, given)
            || Feasible(BranchCeil(n, v, x).constraints, p, given)
  {
    var cf := BranchFloor(n, v, x).constraints;
    var cc := BranchCeil(n, v, x).constraints;
    var m := |n.constraints|;
    forall i | 0 <= i < m ensures Holds(cf[i], p, given) && Holds(cc[i], p, given) {
      assert cf[i] == n.constraints[i] == cc[i];
    }
    var k := p[v].Floor;
    if p[v] <= x {
      assert k <= x.Floor;
      assert Holds(cf[m], p, given);
    } else {
      assert k >= Ceil(x);
      assert Holds(cc[m], p, given);
    }
  }

  /** Each child's region lies inside its parent's. */
  lemma BranchTightens(n: Node, v: Var, x: real, p: Point, given: (nat, Point) -> bool)
    ensures Feasible(BranchFloor(n, v, x).constraints, p, given) ==> Feasible(n.constraints, p, given)
    ensures Feasible(BranchCeil(n, v, x).constraints, p, given) ==> Feasible(n.constraints, p, given)
  {
    var cf := BranchFloor(n, v, x).constraints;
    var cc := BranchCeil(n, v, x).constraints;
    forall i | 0 <= i < |n.constraints| ensures cf[i] == n.constraints[i] && cc[i] == n.constraints[i] {
    }
  }
}
