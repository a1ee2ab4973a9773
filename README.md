# Branch and bound over a relaxation solver, in Dafny

This project models `BBTreeNode` and its `bbsolve` method from
`assignments/assignment-2/bab/bab_starter.py`. The method maximises an objective
over integer decision variables by branch and bound. It works like this:

- It solves the continuous relaxation of the root problem and pushes the root
  onto a min-heap of `(key, stamp, node)` entries. The stamp is drawn from a
  global counter.
- It pops entries until the heap is empty:
  - A node whose decision values are all integral (within `1e-4`) overwrites
    the incumbent `bestres` / `bestnode_vars`.
  - A fractional node whose objective does not beat `bestres` is dropped.
  - Any other node is split on its first fractional variable into a floor
    child and a ceiling child. Each child is solved, and it is pushed, keyed
    by the current `bestres`, unless its solve reports infeasibility or
    raises.

The model follows the code as it is written:

- The incumbent is overwritten without a comparison. This matters only at
  the first acceptance, which can leave it below the initial `-1e20`
  (`SearchCanEndBelowSentinel`). Every node shares the root's variables and
  objective, and an acceptance solves nothing. So after the first acceptance
  every later iteration accepts the same value, with no more solves, until
  the frontier is empty (`RunAfterAccept`). A search that returns gives the
  objective value of the first integral node popped
  (`SearchAcceptsOneValue`). `AcceptCanLowerIncumbent` shows the missing
  comparison on one iteration, from a state no search reaches.
- Children are keyed by the incumbent of the iteration that made them, not by
  their own bound. Before the first acceptance that incumbent is `-1e20`, so
  children are taken in the order they were pushed, and the model claims no
  best-first order.
- Python crashes are outcomes, not preconditions:
  - the root solve has no handler;
  - `objective.value > bestres` raises when either side is `None`;
  - `round(None)` raises in the branch-variable scan.

Modules:

- `Numbers` (`numbers.dfy`) covers Python's `round` (ties to even),
  `math.floor` and `math.ceil` on exact reals, the tolerance `1e-4` and the
  initial incumbent `-1e20`.
- `BBTree` (`bbtree.dfy`) holds nodes as values: variables, an accumulated
  constraint list, and the objective variable. It also holds `is_integral`,
  the branch-variable scan, and the floor/ceiling children. Constraints are
  read as regions of the variable space, to show what branching does to the
  feasible set.
- `Frontier` (`frontier.dfy`) is the heap: a sequence of entries, an index
  of the least entry by `(key, stamp)`, removal, and the invariant that
  stamps are distinct and below the counter.
- `BranchAndBound` (`search.dfy`) is the specification:
  - one iteration of the loop, as a function of the search state (`Step`);
  - the run with at most `fuel` iterations, and its log of what each
    iteration did;
  - the whole call (`Search`);
  - the lemmas about them.
- `Driver` (`driver.dfy`) is the imperative program:
  - the global counter and the shared variable values are objects updated
    in place;
  - `BbSolve` runs the `while` loop over a local frontier;
  - `BbSolve` is proved to end exactly as `Search` does: the same
    result, counter and values.

The solver is a parameter `Oracle` from a constraint list to
`Optimal(values) | Infeasible | Error`:

- `Error` stands for the solve raising.
- `Infeasible` stands for a solve that returns and reports infeasibility.
  Line 157 compares the solve's result with `"infeasible"`; the model reads
  that comparison as this report.
- Every node shares the same variable objects, so the variables' values are
  one valuation, read by every node:
  - an `Optimal` answer overwrites it;
  - the other two outcomes leave it as it was;
  - so a child popped later is judged by whatever the last solve wrote, not
    by its own optimum (`NextIterationReadsLastSolve`).

## Model

| member | source | states |
|---|---|---|
| Numbers.Round | assignments/assignment-2/bab/bab_starter.py:75 | `round(x)` is within one half of `x`, and at a tie it is even |
| Numbers.RoundIsNearest | assignments/assignment-2/bab/bab_starter.py:75 | no integer is nearer to `x` than `round(x)` |
| Numbers.RoundIsUnique | assignments/assignment-2/bab/bab_starter.py:75 | those two properties determine `round(x)` |
| Numbers.FractionalIff | assignments/assignment-2/bab/bab_starter.py:75 | the test `abs(round(v) - v) > 1e-4` holds exactly when every integer is more than `1e-4` away from `v` |
| Numbers.Fractional | assignments/assignment-2/bab/bab_starter.py:146 | the test `abs(round(v) - v) > 1e-4`, shared by `is_integral` (line 75) and the branch-variable scan; `FractionalIff` states what it means |
| Numbers.Ceil | assignments/assignment-2/bab/bab_starter.py:106 | `math.ceil(x)` is the integer in `[x, x + 1)` |
| Numbers.FractionalSplit | assignments/assignment-2/bab/bab_starter.py:91-106 | a fractional value lies strictly between its floor and its ceiling, and the ceiling is the floor plus one |
| BBTree.Lookup | assignments/assignment-2/bab/bab_starter.py:137 | `objective.value`, with absence standing for `None`; `StepAccepts` and `StepKeepsIncumbent` state that an accepted node stores it as the incumbent, `None` included |
| BBTree.Decisions | assignments/assignment-2/bab/bab_starter.py:74 | `vars[:-1]`: every variable but the last, in order, and no variables for an empty `vars` |
| BBTree.IntegralFrom | assignments/assignment-2/bab/bab_starter.py:74-76 | the loop, which leaves at the first missing or fractional value, yields true exactly when every remaining value is present and integral |
| BBTree.IsIntegral | assignments/assignment-2/bab/bab_starter.py:65-77 | `is_integral` is true exactly when every variable but the last has a value within `1e-4` of an integer; a missing value makes it false |
| BBTree.IntegralIgnoresLast | assignments/assignment-2/bab/bab_starter.py:74 | changing or removing the last variable's value does not change `is_integral`, when the last variable does not also appear earlier in `vars` |
| BBTree.ScanFrom | assignments/assignment-2/bab/bab_starter.py:145-149 | the scan stops at the first fractional value or the first missing one, every value before that being integral; it runs past the end only when all values are integral |
| BBTree.BranchVar | assignments/assignment-2/bab/bab_starter.py:144-149 | the chosen variable is the first fractional one, in declared order and over all of `vars`; with none fractional it is `vars[0]`; the choice raises exactly when `vars` is empty or a missing value comes before any fractional one |
| BBTree.ChosenIsDecision | assignments/assignment-2/bab/bab_starter.py:144-149 | when `is_integral` failed, the scan stops inside `vars[:-1]`; when every value is present, it picks a fractional variable there |
| BBTree.BranchValueFractional | assignments/assignment-2/bab/bab_starter.py:144-149 | when `is_integral` failed and the scan does not raise, the value branched on is fractional |
| BBTree.BranchFloor | assignments/assignment-2/bab/bab_starter.py:79-92 | the floor child shares `vars` and `objective` with its parent; its constraint list is the parent's, unchanged, followed by exactly `v <= floor(x)` |
| BBTree.BranchCeil | assignments/assignment-2/bab/bab_starter.py:94-107 | the ceiling child shares `vars` and `objective`; its constraint list is the parent's followed by exactly `v >= ceil(x)` |
| BBTree.BranchExclusive | assignments/assignment-2/bab/bab_starter.py:91-106 | for a fractional `x`, no point satisfies both children's constraint lists |
| BBTree.BranchCovers | assignments/assignment-2/bab/bab_starter.py:91-106 | every point feasible for the parent, with an integer value of `v`, is feasible for one of the children |
| BBTree.BranchTightens | assignments/assignment-2/bab/bab_starter.py:89-106 | each child's feasible points are feasible for the parent |
| Frontier.MinIndex | assignments/assignment-2/bab/bab_starter.py:130 | `heappop` takes an entry that no other entry precedes in `(key, stamp)` order |
| Frontier.Remove | assignments/assignment-2/bab/bab_starter.py:130 | after the pop the frontier holds the other entries, in order, and as a multiset it is the old one minus the popped entry |
| Frontier.MinIsStrict | assignments/assignment-2/bab/bab_starter.py:130 | with distinct stamps the popped entry strictly precedes every other one, so nodes are never compared |
| Frontier.RemoveKeepsStamped | assignments/assignment-2/bab/bab_starter.py:130 | popping keeps stamps distinct and below the counter |
| Frontier.PushFreshKeepsStamped | assignments/assignment-2/bab/bab_starter.py:158-164 | pushing entries stamped with consecutive fresh counter values keeps stamps distinct and below the advanced counter |
| BranchAndBound.Popped | assignments/assignment-2/bab/bab_starter.py:130 | the entry `heappop` returns; `StepRemovesMinimum` states that it is the least by `(key, stamp)` |
| BranchAndBound.Rest | assignments/assignment-2/bab/bab_starter.py:130 | the frontier `heappop` leaves; `StepRemovesMinimum` states that it holds every other entry and nothing else |
| BranchAndBound.Admit | assignments/assignment-2/bab/bab_starter.py:156-166 | one `try` block: a child is pushed with a fresh stamp only when its solve is optimal; `BranchFrontier` and `StepBranches` state this |
| BranchAndBound.Branch | assignments/assignment-2/bab/bab_starter.py:143-166 | the branching tail of an iteration: scan, then both children; `BranchFrontier` states what it pushes and when it raises |
| BranchAndBound.Step | assignments/assignment-2/bab/bab_starter.py:130-170 | one loop iteration; `StepRemovesMinimum`, `StepAccepts`, `StepAcceptsOnlyIntegral`, `StepPrunes`, `StepBranches`, `StepFrontier` and `StepKeepsStamped` state its behaviour |
| BranchAndBound.StepRemovesMinimum | assignments/assignment-2/bab/bab_starter.py:130 | an iteration removes the least entry by `(key, stamp)`, which precedes every remaining one, and nothing else |
| BranchAndBound.StepAccepts | assignments/assignment-2/bab/bab_starter.py:136-138 | an integral node sets the incumbent to its objective value (`None` when undefined) and its `vars`, with no comparison; nothing is pushed and neither the counter nor the values change |
| BranchAndBound.StepAcceptsOnlyIntegral | assignments/assignment-2/bab/bab_starter.py:136-170 | an iteration accepts a node exactly when that node is integral |
| BranchAndBound.AcceptCanLowerIncumbent | assignments/assignment-2/bab/bab_starter.py:137 | in one concrete state, accepting an integral node lowers the incumbent from 5 to 1; once a node has been accepted no search reaches such a state, so this is about one iteration alone |
| BranchAndBound.StepPrunes | assignments/assignment-2/bab/bab_starter.py:141-170 | a fractional node whose objective is at most the incumbent is dropped; only the frontier changes |
| BranchAndBound.BranchFrontier | assignments/assignment-2/bab/bab_starter.py:143-166 | branching raises without pushing when the scan raises; otherwise it keeps the incumbent and appends at most two entries, keyed by the incumbent, stamped with consecutive fresh counter values, each holding a node whose solve was optimal; when it does not raise, the shared values are the ceiling child's optimum, else the floor child's, else unchanged |
| BranchAndBound.NextIterationReadsLastSolve | assignments/assignment-2/bab/bab_starter.py:136-166 | in one concrete search the floor child popped after branching is judged with the values of the ceiling child, solved last, and accepted with objective 7 rather than its own 3 |
| BranchAndBound.StepKeepsIncumbent | assignments/assignment-2/bab/bab_starter.py:136-141 | the incumbent changes only by an accepted node, and then to that node's objective and `vars` |
| BranchAndBound.StepFrontier | assignments/assignment-2/bab/bab_starter.py:130-166 | one iteration pops one entry and pushes at most two, so the frontier size changes by -1, 0 or +1; pushed keys equal the incumbent; a raising iteration has already popped and pushes nothing |
| BranchAndBound.StepBranches | assignments/assignment-2/bab/bab_starter.py:141-166 | a branching iteration happened for a fractional node whose objective beats the incumbent, and it branched on a fractional value; it pushes exactly the children whose solve was optimal, the floor child before the ceiling child; the shared values it leaves are the ceiling child's optimum, else the floor child's, else unchanged |
| BranchAndBound.StepKeepsStamped | assignments/assignment-2/bab/bab_starter.py:156-166 | an iteration keeps stamps distinct and below the counter, and the counter never goes back |
| BranchAndBound.Run | assignments/assignment-2/bab/bab_starter.py:129-172 | a run that finishes stops with an empty frontier, and it logs at most one event per iteration allowed |
| BranchAndBound.Continue | assignments/assignment-2/bab/bab_starter.py:129-170 | a run whose loop condition holds ends with an empty frontier when it finishes, and it logs at most `fuel` events |
| BranchAndBound.RunUnfolds | assignments/assignment-2/bab/bab_starter.py:129-170 | a run is its first iteration's event followed by the rest of the run, and it ends at a raising iteration |
| BranchAndBound.LastAccepted | assignments/assignment-2/bab/bab_starter.py:137-138 | the position found holds an accepted node, and no later event accepts one |
| BranchAndBound.RunIncumbent | assignments/assignment-2/bab/bab_starter.py:129-172 | however a run ends, its incumbent is the objective and `vars` of the last accepted node, or the starting incumbent when none was accepted |
| BranchAndBound.RunKeepsStamped | assignments/assignment-2/bab/bab_starter.py:129-166 | along a whole run, stamps stay distinct and below the counter, which never goes back |
| BranchAndBound.StepShares | assignments/assignment-2/bab/bab_starter.py:79-107 | both children keep the parent's variables and objective, so an iteration keeps every node on the frontier sharing them, the popped one included |
| BranchAndBound.RunAfterAccept | assignments/assignment-2/bab/bab_starter.py:129-170 | once the shared values make the common variables integral, the run cannot raise, solves nothing more, keeps the values and the counter, and every iteration accepts the same objective value and `vars` |
| BranchAndBound.AcceptRepeats | assignments/assignment-2/bab/bab_starter.py:136-138 | an accepting iteration is repeated by every later iteration of the run |
| BranchAndBound.RunAcceptsOneValue | assignments/assignment-2/bab/bab_starter.py:129-170 | along a run over nodes sharing their variables, every event after an acceptance is that same acceptance |
| BranchAndBound.Start | assignments/assignment-2/bab/bab_starter.py:119-127 | the search fails exactly when the root solve raises. Otherwise it starts from the root alone on the frontier, with incumbent `(-1e20, root.vars)` and one stamp drawn; the values are the root optimum, or are unchanged on infeasibility; stamps are distinct and below the counter |
| BranchAndBound.Search | assignments/assignment-2/bab/bab_starter.py:109-172 | the whole call, root solve then loop; `SearchResult` states what it returns |
| BranchAndBound.Answer | assignments/assignment-2/bab/bab_starter.py:172 | `return bestres, bestnode_vars` after the loop ends, or the raise; `SearchResult` states what it returns |
| BranchAndBound.SoleEntryKey | assignments/assignment-2/bab/bab_starter.py:121-130 | on a one-entry frontier the entry's key plays no part in the iteration |
| BranchAndBound.SearchIgnoresRootKey | assignments/assignment-2/bab/bab_starter.py:121 | the root's key (the solver's result object) never matters: the answer and the log are the same for any key |
| BranchAndBound.SearchResult | assignments/assignment-2/bab/bab_starter.py:124-172 | a search that returns gives `(-1e20, root.vars)` when no integral node was popped; otherwise it gives the objective and `vars` of the last integral node popped |
| BranchAndBound.SearchAcceptsOneValue | assignments/assignment-2/bab/bab_starter.py:119-172 | within one search every acceptance repeats the first one, and a search that returns gives the objective value and `vars` of any, so of the first, integral node popped |
| BranchAndBound.SearchRootIntegral | assignments/assignment-2/bab/bab_starter.py:119-138 | an integral root relaxation is returned as it is after one iteration that branches nothing |
| BranchAndBound.SearchCanEndBelowSentinel | assignments/assignment-2/bab/bab_starter.py:124-138 | in one concrete search the returned incumbent is below the initial `-1e20` |
| Driver.Counter.constructor | assignments/assignment-2/bab/bab_starter.py:10 | the counter starts at 0 |
| Driver.Counter.Next | assignments/assignment-2/bab/bab_starter.py:10 | `next(counter)` yields the current value and advances it by one |
| Driver.Variables.Solve | assignments/assignment-2/bab/bab_starter.py:157 | a solve reports the oracle's outcome and writes the values back on an optimum only |
| Driver.TryPush | assignments/assignment-2/bab/bab_starter.py:156-166 | one `try` block solves a child and pushes it with a fresh stamp exactly as `Admit` specifies |
| Driver.BranchOn | assignments/assignment-2/bab/bab_starter.py:143-166 | the branching tail of an iteration updates frontier, counter and values exactly as `Branch` specifies, raising when it does |
| Driver.Iterate | assignments/assignment-2/bab/bab_starter.py:130-170 | one loop iteration leaves frontier, incumbent, counter and values exactly as `Step` specifies, raising when it does |
| Driver.Advance | assignments/assignment-2/bab/bab_starter.py:129-170 | after one iteration, the rest of the run ends where the whole run does, or the run has crashed in the new state |
| Driver.Drain | assignments/assignment-2/bab/bab_starter.py:129-172 | the `while` loop returns, raises or runs out of fuel exactly as `Run` does, with the same final counter and values |
| Driver.BbSolve | assignments/assignment-2/bab/bab_starter.py:109-172 | `bbsolve` gives the answer of `Search`, with the same final counter and values |

## Left out

- The picos/cvxopt solver and `buildProblem` (lines 59-63) are a library outside this model. The root is a given constraint list, and every solve is the `Oracle` parameter.
- Caller constraints are opaque (`Given(id)`). A region reading of them is a parameter of the branching lemmas.
- Infeasible and Error outcomes are assumed to leave the variables' values as they were. What the library writes on a failed solve is outside this model.
- The result object returned by the library is not modelled. The test at lines 157 and 163 is read as "the solve reported infeasibility".
- Floating point is out: values are exact reals, so `1e-4`, `-1e20`, `round`, `floor` and `ceil` are exact.
- The `print` calls (lines 132-133 and 148) are output only.
- Aliasing is left out: the clone in `__deepcopy__` (line 48) and the in-place `add_constraint` on it (lines 91, 106). Nodes are immutable values, so the parent's constraint list cannot change.
- The layout of the heap list inside `heapq` is left out. The frontier is a sequence, and the model fixes which entry is popped, not where entries sit.
- The root's heap key is the solver's result object (line 121). It is an arbitrary real key, and `SearchIgnoresRootKey` shows its value does not matter.
- Termination is left out: the loop relies on a bounded feasible region that the code never checks. `Run`, `Search`, `Drain` and `BbSolve` take a `fuel` bound on iterations, and using it up is a distinct outcome.
- Driver.BbSolve: proves agreement with `Search`, not a best-first order. The source does not keep one: children are keyed by `bestres` (lines 158, 164), not by their own bound. What `Search` returns is characterised by `SearchResult` and `SearchAcceptsOneValue`.
