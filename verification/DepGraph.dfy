/** The service dependency graph of `kernel-core/src/service.rs`: name resolution, cycle detection by
depth-first search, and the start order. */
module DepGraph {
  import opened Options
  import opened Seqs

  const MAX_SERVICES: nat := 16
  const MAX_DEPS: nat := 4
  const MAX_NAME: nat := 32

  type Name = seq<nat>
  /** Resolved dependencies of each service, by index. */
  type Graph = seq<seq<nat>>

  // ---- graphs ----

  predicate GraphOk(g: Graph) {
    forall u, i | 0 <= u < |g| && 0 <= i < |g[u]| :: g[u][i] < |g|
  }

  predicate Edge(g: Graph, u: nat, v: nat) {
    u < |g| && v in g[u]
  }

  predicate IsPath(g: Graph, p: seq<nat>) {
    forall i | 0 <= i < |p| - 1 :: Edge(g, p[i], p[i + 1])
  }

  /** Some service depends on itself through one or more edges. */
  ghost predicate Cyclic(g: Graph) {
    exists p: seq<nat> :: |p| >= 2 && IsPath(g, p) && p[0] == p[|p| - 1]
  }

  predicate DepsBefore(g: Graph, order: seq<nat>, k: nat)
    requires k < |order|
  {
    order[k] < |g| && forall v | v in g[order[k]] :: v in order[..k]
  }

  /** Every listed service comes once, after all services it depends on. */
  predicate StartOrder(g: Graph, order: seq<nat>) {
    Distinct(order) && forall k: nat | k < |order| :: DepsBefore(g, order, k)
  }

  function Position(order: seq<nat>, v: nat): (k: nat)
    requires v in order
    ensures k < |order| && order[k] == v
  {
    if order[|order| - 1] == v then |order| - 1 else Position(order[..|order| - 1], v)
  }

  lemma StartOrderEdge(g: Graph, order: seq<nat>, u: nat, v: nat)
    requires StartOrder(g, order) && u in order && Edge(g, u, v)
    ensures v in order && Position(order, v) < Position(order, u)
  {
    var k := Position(order, u);
    assert DepsBefore(g, order, k);
    var j :| 0 <= j < k && order[j] == v;
  }

  lemma {:induction false} PathDescends(g: Graph, order: seq<nat>, p: seq<nat>)
    requires StartOrder(g, order) && IsPath(g, p) && |p| >= 1 && p[0] in order
    ensures p[|p| - 1] in order
    ensures |p| >= 2 ==> Position(order, p[|p| - 1]) < Position(order, p[0])
    decreases |p|
  {
    if |p| >= 2 {
      var front := p[..|p| - 1];
      forall i | 0 <= i < |front| - 1 ensures Edge(g, front[i], front[i + 1]) {
        assert Edge(g, p[i], p[i + 1]);
      }
      PathDescends(g, order, front);
      assert Edge(g, p[|p| - 2], p[|p| - 1]);
      StartOrderEdge(g, order, p[|p| - 2], p[|p| - 1]);
    }
  }

  /** A start order of all services excludes cycles. */
  lemma OrderedIsAcyclic(g: Graph, order: seq<nat>)
    requires StartOrder(g, order) && forall u: nat | u < |g| :: u in order
    ensures !Cyclic(g)
  {
    if Cyclic(g) {
      var p: seq<nat> :| |p| >= 2 && IsPath(g, p) && p[0] == p[|p| - 1];
      assert Edge(g, p[0], p[1]);
      PathDescends(g, order, p);
    }
  }

  /** The services on the recursion stack, each an edge of the one before. */
  predicate StackOk(g: Graph, stack: seq<nat>) {
    IsPath(g, stack) && forall u | u in stack :: u < |g|
  }

  lemma StackPush(g: Graph, stack: seq<nat>, u: nat)
    requires StackOk(g, stack) && u < |g| && (stack == [] || Edge(g, stack[|stack| - 1], u))
    ensures StackOk(g, stack + [u])
  {
    var r := stack + [u];
    forall i | 0 <= i < |r| - 1 ensures Edge(g, r[i], r[i + 1]) {
      if i < |stack| - 1 {
        assert Edge(g, stack[i], stack[i + 1]);
      }
    }
  }

  /** An edge from the top of the stack back into the stack closes a cycle. */
  lemma BackEdge(g: Graph, stack: seq<nat>, v: nat)
    requires StackOk(g, stack) && stack != [] && Edge(g, stack[|stack| - 1], v) && v in stack
    ensures Cyclic(g)
  {
    var k :| 0 <= k < |stack| && stack[k] == v;
    var p: seq<nat> := stack[k..] + [v];
    forall i | 0 <= i < |p| - 1 ensures Edge(g, p[i], p[i + 1]) {
      if i < |p| - 2 {
        assert Edge(g, stack[k + i], stack[k + i + 1]);
      }
    }
    assert IsPath(g, p) && p[0] == p[|p| - 1];
  }

  lemma AppendOrder(g: Graph, order: seq<nat>, u: nat)
    requires StartOrder(g, order) && u < |g| && u !in order && forall v | v in g[u] :: v in order
    ensures StartOrder(g, order + [u])
  {
    var r := order + [u];
    forall k: nat | k < |r| ensures DepsBefore(g, r, k) {
      if k < |order| {
        assert DepsBefore(g, order, k);
        assert r[..k] == order[..k];
      } else {
        assert r[..k] == order;
      }
    }
  }

  // ---- cycle detection ----

  const UNVISITED: nat := 0
  const IN_PROGRESS: nat := 1
  const DONE: nat := 2

  /** The marks of the search: `stack` is in progress, `order` is done and is a start order. */
  predicate MarksOk(g: Graph, marks: seq<nat>, stack: seq<nat>, order: seq<nat>) {
    && |g| <= |marks|
    && StackOk(g, stack) && StartOrder(g, order)
    && (forall u: nat | u < |g| :: marks[u] == UNVISITED || marks[u] == IN_PROGRESS || marks[u] == DONE)
    && (forall u: nat | u < |g| :: marks[u] == IN_PROGRESS <==> u in stack)
    && (forall u: nat | u < |g| :: marks[u] == DONE <==> u in order)
  }

  function Unvisited(g: Graph, marks: seq<nat>): set<nat>
    requires |g| <= |marks|
  {
    set u: nat | u < |g| && marks[u] == UNVISITED
  }

  method DfsCycle(g: Graph, node: nat, state: array<nat>, ghost stack: seq<nat>, ghost order: seq<nat>)
    returns (found: bool, ghost order': seq<nat>)
    requires GraphOk(g) && MarksOk(g, state[..], stack, order)
    requires node < |g| && state[node] == UNVISITED
    requires stack == [] || Edge(g, stack[|stack| - 1], node)
    modifies state
    ensures found ==> Cyclic(g)
    ensures !found ==> MarksOk(g, state[..], stack, order') && order <= order' && node in order'
    ensures |g| <= state.Length
    ensures !found ==> Unvisited(g, state[..]) <= Unvisited(g, old(state[..]))
    decreases Unvisited(g, state[..])
  {
    StackPush(g, stack, node);
    state[node] := IN_PROGRESS;
    ghost var inner := stack + [node];
    order' := order;
    assert MarksOk(g, state[..], inner, order');
    assert node in Unvisited(g, old(state[..])) && node !in Unvisited(g, state[..]);
    for d := 0 to |g[node]|
      invariant MarksOk(g, state[..], inner, order') && order <= order'
      invariant forall e | 0 <= e < d :: g[node][e] in order'
      invariant Unvisited(g, state[..]) < Unvisited(g, old(state[..]))
    {
      var dep := g[node][d];
      assert Edge(g, node, dep);
      if state[dep] == IN_PROGRESS {
        BackEdge(g, inner, dep);
        return true, order';
      }
      if state[dep] == UNVISITED {
        var deeper;
        deeper, order' := DfsCycle(g, dep, state, inner, order');
        if deeper {
          return true, order';
        }
      }
    }
    AppendOrder(g, order', node);
    state[node] := DONE;
    order' := order' + [node];
    found := false;
  }

  /** True exactly when the resolved edges contain a cycle. */
  method DetectCycle(g: Graph) returns (cyclic: bool)
    requires GraphOk(g) && |g| <= MAX_SERVICES
    ensures cyclic <==> Cyclic(g)
  {
    var state := new nat[MAX_SERVICES](_ => UNVISITED);
    ghost var order: seq<nat> := [];
    for i := 0 to |g|
      invariant MarksOk(g, state[..], [], order)
      invariant forall u: nat | u < i :: u in order
    {
      if state[i] == UNVISITED {
        ghost var before := order;
        var found;
        found, order := DfsCycle(g, i, state, [], order);
        if found {
          return true;
        }
        assert before <= order;
      }
    }
    OrderedIsAcyclic(g, order);
    cyclic := false;
  }

  // ---- start order ----

  /** `stack` is being visited, `order` is finished, nothing else is visited. */
  predicate VisitOk(g: Graph, visited: seq<bool>, stack: seq<nat>, order: seq<nat>) {
    && |g| <= |visited|
    && StackOk(g, stack) && StartOrder(g, order)
    && (forall u: nat | u < |g| :: visited[u] <==> u in stack || u in order)
    && (forall u | u in stack :: u !in order)
  }

  function Unseen(g: Graph, visited: seq<bool>): set<nat>
    requires |g| <= |visited|
  {
    set u: nat | u < |g| && !visited[u]
  }

  lemma VisitEnter(g: Graph, visited: seq<bool>, stack: seq<nat>, order: seq<nat>, node: nat)
    requires VisitOk(g, visited, stack, order) && node < |g| && !visited[node]
    requires stack == [] || Edge(g, stack[|stack| - 1], node)
    ensures VisitOk(g, visited[node := true], stack + [node], order)
    ensures Unseen(g, visited[node := true]) < Unseen(g, visited)
  {
    StackPush(g, stack, node);
    assert node in Unseen(g, visited) && node !in Unseen(g, visited[node := true]);
  }

  lemma VisitLeave(g: Graph, visited: seq<bool>, stack: seq<nat>, order: seq<nat>, node: nat)
    requires VisitOk(g, visited, stack + [node], order) && StackOk(g, stack) && node < |g| && node !in stack
    requires forall v | v in g[node] :: v in order
    ensures VisitOk(g, visited, stack, order + [node])
  {
    AppendOrder(g, order, node);
  }

  method TopoVisit(g: Graph, node: nat, visited: array<bool>, order: seq<nat>, ghost stack: seq<nat>)
    returns (order': seq<nat>)
    requires GraphOk(g) && !Cyclic(g) && VisitOk(g, visited[..], stack, order)
    requires node < |g| && (stack == [] || Edge(g, stack[|stack| - 1], node))
    modifies visited
    ensures VisitOk(g, visited[..], stack, order') && order <= order' && node in order'
    ensures Unseen(g, visited[..]) <= Unseen(g, old(visited[..]))
    decreases Unseen(g, visited[..]), if visited[node] then 0 else 1
  {
    if visited[node] {
      if node in stack {
        BackEdge(g, stack, node);
      }
      return order;
    }
    VisitEnter(g, visited[..], stack, order, node);
    ghost var inner, before := stack + [node], visited[..];
    visited[node] := true;
    assert visited[..] == before[node := true];
    order' := order;
    for d := 0 to |g[node]|
      invariant VisitOk(g, visited[..], inner, order') && order <= order'
      invariant forall e | 0 <= e < d :: g[node][e] in order'
      invariant Unseen(g, visited[..]) < Unseen(g, before)
    {
      assert Edge(g, node, g[node][d]);
      order' := TopoVisit(g, g[node][d], visited, order', inner);
    }
    VisitLeave(g, visited[..], stack, order', node);
    order' := order' + [node];
  }

  /** A permutation of all services with every dependency before its dependents. */
  method TopoSort(g: Graph) returns (order: seq<nat>)
    requires GraphOk(g) && |g| <= MAX_SERVICES && !Cyclic(g)
    ensures StartOrder(g, order)
    ensures forall u: nat :: u in order <==> u < |g|
  {
    order := [];
    var visited := new bool[MAX_SERVICES](_ => false);
    for i := 0 to |g|
      invariant VisitOk(g, visited[..], [], order)
      invariant forall u: nat | u < i :: u in order
    {
      if !visited[i] {
        ghost var before := order;
        order := TopoVisit(g, i, visited, order, []);
        assert before <= order;
      }
    }
    forall u: nat | u in order ensures u < |g| {
      assert DepsBefore(g, order, Position(order, u));
    }
  }

  // ---- names ----

  /** As much of the name as its fixed buffer of 32 bytes takes. */
  function Truncate(name: Name): (kept: Name)
    ensures kept <= name && |kept| <= 32 && (|kept| == |name| || |kept| == 32)
  {
    if |name| <= MAX_NAME then name else name[..MAX_NAME]
  }

  /** The first other service from index `j` on that is called `dep`. */
  function ResolveFrom(names: seq<Name>, i: nat, dep: Name, j: nat): Option<nat>
    requires j <= |names|
    decreases |names| - j
  {
    if j == |names| then None
    else if j != i && names[j] == dep then Some(j)
    else ResolveFrom(names, i, dep, j + 1)
  }

  function Resolve(names: seq<Name>, i: nat, dep: Name): Option<nat> {
    ResolveFrom(names, i, dep, 0)
  }

  predicate IsOther(names: seq<Name>, i: nat, dep: Name, j: nat) {
    j < |names| && j != i && names[j] == dep
  }

  /** A dependency resolves to the first other service of that name; it stays unresolved exactly when there
      is none, so a service that names itself stays unresolved. */
  lemma {:induction false} ResolveFirst(names: seq<Name>, i: nat, dep: Name, j: nat)
    requires j <= |names|
    ensures var r := ResolveFrom(names, i, dep, j);
            && (r.None? <==> forall k: nat | k >= j :: !IsOther(names, i, dep, k))
            && (r.Some? ==> r.value >= j && IsOther(names, i, dep, r.value)
                            && forall k: nat | j <= k < r.value :: !IsOther(names, i, dep, k))
    decreases |names| - j
  {
    if j < |names| {
      if j != i && names[j] == dep {
        assert IsOther(names, i, dep, j);
      } else {
        ResolveFirst(names, i, dep, j + 1);
      }
    }
  }

  datatype DepWarning = UnresolvableDep(service: nat, depName: Name)

  datatype BuildResult = BuildResult(warnings: seq<DepWarning>, hasCycle: bool, topoOrder: seq<nat>)

  datatype DepError = InvalidServiceIndex | TooManyDeps

  datatype AddResult = Added | Rejected(error: DepError)

  function Targets(names: seq<Name>, i: nat, deps: seq<Name>): seq<nat> {
    if deps == [] then [] else
      Targets(names, i, deps[..|deps| - 1]) +
        match Resolve(names, i, deps[|deps| - 1]) case None => [] case Some(j) => [j]
  }

  predicate NamesFit(deps: seq<Name>) {
    forall k | 0 <= k < |deps| :: |deps[k]| <= MAX_NAME
  }

  function Unresolved(names: seq<Name>, i: nat, deps: seq<Name>): seq<DepWarning>
    requires NamesFit(deps)
  {
    if deps == [] then [] else
      var dep := deps[|deps| - 1];
      Unresolved(names, i, deps[..|deps| - 1]) +
        if Resolve(names, i, dep).None? then [UnresolvableDep(i, Pad(dep, 0, MAX_NAME))] else []
  }

  function AllUnresolved(names: seq<Name>, depNames: seq<seq<Name>>): seq<DepWarning>
    requires forall i | 0 <= i < |depNames| :: NamesFit(depNames[i])
  {
    if depNames == [] then [] else
      var i := |depNames| - 1;
      AllUnresolved(names, depNames[..i]) + Unresolved(names, i, depNames[i])
  }

  /** The edges of a service are the first other services that carry the names it depends on. */
  lemma {:induction false} TargetsMeaning(names: seq<Name>, i: nat, deps: seq<Name>, v: nat)
    ensures v in Targets(names, i, deps) <==>
            v < |names| && exists d :: d in deps && IsOther(names, i, d, v) && forall k: nat | k < v :: !IsOther(names, i, d, k)
    ensures |Targets(names, i, deps)| <= |deps|
    decreases |deps|
  {
    if deps != [] {
      var front, last := deps[..|deps| - 1], deps[|deps| - 1];
      TargetsMeaning(names, i, front, v);
      ResolveFirst(names, i, last, 0);
      assert deps == front + [last];
      if v in Targets(names, i, front) {
        var d :| d in front && IsOther(names, i, d, v) && forall k: nat | k < v :: !IsOther(names, i, d, k);
        assert d in deps;
      }
      if d :| d in deps && IsOther(names, i, d, v) && forall k: nat | k < v :: !IsOther(names, i, d, k) {
        if d !in front {
          assert d == last;
          assert Resolve(names, i, last) == Some(v);
        }
      }
      if Resolve(names, i, last) == Some(v) {
        assert last in deps;
      }
    }
  }

  predicate Warns(names: seq<Name>, i: nat, deps: seq<Name>, d: Name, w: DepWarning) {
    d in deps && |d| <= MAX_NAME && w == UnresolvableDep(i, Pad(d, 0, MAX_NAME)) && Resolve(names, i, d).None?
  }

  lemma {:induction false} UnresolvedMeaning(names: seq<Name>, i: nat, deps: seq<Name>, w: DepWarning)
    requires NamesFit(deps)
    ensures w in Unresolved(names, i, deps) <==> exists d :: Warns(names, i, deps, d, w)
    decreases |deps|
  {
    if deps != [] {
      var front, last := deps[..|deps| - 1], deps[|deps| - 1];
      UnresolvedMeaning(names, i, front, w);
      assert deps == front + [last];
      if d :| Warns(names, i, front, d, w) {
        assert Warns(names, i, deps, d, w);
      }
      if d :| Warns(names, i, deps, d, w) {
        assert Warns(names, i, front, d, w) || d == last;
      }
      if Resolve(names, i, last).None? && w == UnresolvableDep(i, Pad(last, 0, MAX_NAME)) {
        assert Warns(names, i, deps, last, w);
      }
    }
  }

  ghost predicate NoOther(names: seq<Name>, i: nat, d: Name) {
    forall k: nat :: !IsOther(names, i, d, k)
  }

  lemma ResolveNone(names: seq<Name>, i: nat, d: Name)
    ensures Resolve(names, i, d).None? <==> NoOther(names, i, d)
  {
    ResolveFirst(names, i, d, 0);
  }

  ghost predicate UnansweredBy(names: seq<Name>, deps: seq<Name>, w: DepWarning, d: Name) {
    d in deps && |d| <= MAX_NAME && w.depName == Pad(d, 0, MAX_NAME) && NoOther(names, w.service, d)
  }

  /** `w` names a dependency, padded, that no other service carries. */
  ghost predicate Unanswered(names: seq<Name>, deps: seq<Name>, w: DepWarning) {
    exists d :: UnansweredBy(names, deps, w, d)
  }

  lemma WarnsIff(names: seq<Name>, i: nat, deps: seq<Name>, d: Name, w: DepWarning)
    ensures Warns(names, i, deps, d, w) <==> w.service == i && UnansweredBy(names, deps, w, d)
  {
    ResolveNone(names, i, d);
  }

  lemma UnresolvedIff(names: seq<Name>, i: nat, deps: seq<Name>, w: DepWarning)
    requires NamesFit(deps)
    ensures w in Unresolved(names, i, deps) <==> w.service == i && Unanswered(names, deps, w)
  {
    UnresolvedMeaning(names, i, deps, w);
    forall d ensures Warns(names, i, deps, d, w) <==> w.service == i && UnansweredBy(names, deps, w, d) {
      WarnsIff(names, i, deps, d, w);
    }
  }

  /** The warnings are exactly the dependencies whose name no other service carries. */
  lemma {:induction false} WarningsMeaning(names: seq<Name>, depNames: seq<seq<Name>>, w: DepWarning)
    requires forall i | 0 <= i < |depNames| :: NamesFit(depNames[i])
    ensures w in AllUnresolved(names, depNames) <==>
            w.service < |depNames| && Unanswered(names, depNames[w.service], w)
    decreases |depNames|
  {
    if depNames != [] {
      var i, front := |depNames| - 1, depNames[..|depNames| - 1];
      WarningsMeaning(names, front, w);
      UnresolvedIff(names, i, depNames[i], w);
    }
  }

  class DepGraphCore {
    var names: seq<Name>
    var depNames: seq<seq<Name>>
    /** Resolved edges, filled by `Build`. */
    var edges: Graph

    ghost predicate Valid()
      reads this
    {
      && |names| == |depNames| <= MAX_SERVICES
      && (forall i | 0 <= i < |depNames| :: |depNames[i]| <= MAX_DEPS && NamesFit(depNames[i]))
    }

    constructor ()
      ensures Valid() && names == [] && depNames == []
    {
      names, depNames, edges := [], [], [];
    }

    method AddService(name: Name) returns (r: Option<nat>)
      requires Valid()
      modifies this
      ensures Valid()
      ensures if old(|names|) >= MAX_SERVICES then r.None? && names == old(names) && depNames == old(depNames)
              else r == Some(old(|names|)) && names == old(names) + [Truncate(name)] && depNames == old(depNames) + [[]]
    {
      if |names| >= MAX_SERVICES {
        return None;
      }
      var idx := |names|;
      names := names + [Truncate(name)];
      depNames := depNames + [[]];
      r := Some(idx);
    }

    method AddDependency(serviceIdx: nat, depName: Name) returns (r: AddResult)
      requires Valid()
      modifies this
      ensures Valid() && names == old(names)
      ensures r == (if serviceIdx >= |names| then Rejected(InvalidServiceIndex)
                    else if |old(depNames)[serviceIdx]| >= MAX_DEPS then Rejected(TooManyDeps)
                    else Added)
      ensures depNames == if r.Added? then old(depNames)[serviceIdx := old(depNames)[serviceIdx] + [Truncate(depName)]]
                          else old(depNames)
    {
      if serviceIdx >= |names| {
        return Rejected(InvalidServiceIndex);
      }
      if |depNames[serviceIdx]| >= MAX_DEPS {
        return Rejected(TooManyDeps);
      }
      depNames := depNames[serviceIdx := depNames[serviceIdx] + [Truncate(depName)]];
      r := Added;
    }

    /** The innermost loop of `build`: the first other service called `dep`. */
    method FindService(i: nat, dep: Name) returns (r: Option<nat>)
      ensures r == Resolve(names, i, dep)
    {
      for j := 0 to |names|
        invariant Resolve(names, i, dep) == ResolveFrom(names, i, dep, j)
      {
        if j != i && names[j] == dep {
          return Some(j);
        }
      }
      r := None;
    }

    method ResolveService(i: nat) returns (targets: seq<nat>, warnings: seq<DepWarning>)
      requires Valid() && i < |names|
      ensures targets == Targets(names, i, depNames[i])
      ensures warnings == Unresolved(names, i, depNames[i])
    {
      var deps := depNames[i];
      targets, warnings := [], [];
      for d := 0 to |deps|
        invariant targets == Targets(names, i, deps[..d])
        invariant warnings == Unresolved(names, i, deps[..d])
      {
        assert deps[..d + 1][..d] == deps[..d];
        var found := FindService(i, deps[d]);
        TargetsMeaning(names, i, deps[..d], 0);
        match found {
          case Some(j) =>
            // There is always room: at most one edge per dependency.
            assert |targets| < MAX_DEPS;
            targets := targets + [j];
          case None =>
            warnings := warnings + [UnresolvableDep(i, Pad(deps[d], 0, MAX_NAME))];
        }
      }
      assert deps[..|deps|] == deps;
    }

    /** Resolve names, look for a cycle, and order the services for starting. */
    method Build() returns (r: BuildResult)
      requires Valid()
      modifies this
      ensures Valid() && names == old(names) && depNames == old(depNames)
      ensures |edges| == |names| && forall i: nat | i < |names| :: edges[i] == Targets(names, i, depNames[i])
      ensures r.warnings == AllUnresolved(names, depNames)
      ensures r.hasCycle <==> Cyclic(edges)
      ensures r.hasCycle ==> r.topoOrder == []
      ensures !r.hasCycle ==> StartOrder(edges, r.topoOrder) && forall u: nat :: u in r.topoOrder <==> u < |names|
    {
      var warnings: seq<DepWarning> := [];
      edges := [];
      for i := 0 to |names|
        invariant Valid() && names == old(names) && depNames == old(depNames)
        invariant |edges| == i && forall k: nat | k < i :: edges[k] == Targets(names, k, depNames[k])
        invariant warnings == AllUnresolved(names, depNames[..i])
      {
        var targets, unresolved := ResolveService(i);
        assert depNames[..i + 1][..i] == depNames[..i];
        edges := edges + [targets];
        warnings := warnings + unresolved;
      }
      assert depNames[..|names|] == depNames;
      forall u, e | 0 <= u < |edges| && 0 <= e < |edges[u]| ensures edges[u][e] < |edges| {
        TargetsMeaning(names, u, depNames[u], edges[u][e]);
      }
      var hasCycle := DetectCycle(edges);
      var order: seq<nat> := [];
      if !hasCycle {
        order := TopoSort(edges);
      }
      r := BuildResult(warnings, hasCycle, order);
    }
  }
}
