/** The lock-free cross-CPU return list of `kernel-core/src/cross_cpu_free.rs`.

Any number of producers push objects; the owning CPU takes the whole chain and walks it. Each atomic
access is one action, so a run is an arbitrary interleaving of head loads, next-pointer writes,
compare-and-swaps, swaps and iterator reads, with clients writing freely into objects they hold. */
module CrossCpuFree {
  import opened Options
  import opened Seqs

  type Ptr = nat
  const NULL: Ptr := 0

  /** Where a producer stands in `push`. `seen` counts the head changes before its last head load. */
  datatype Producer =
    | Idle
    | Begun(node: Ptr)
    | Loaded(node: Ptr, oldHead: Ptr, seen: nat)
    | Written(node: Ptr, oldHead: Ptr, seen: nat)

  datatype State = State(
    head: Ptr,
    /** First word of every object. */
    next: map<Ptr, Ptr>,
    producers: map<nat, Producer>,
    /** `ChainIter::current` of the owning CPU. */
    walk: Ptr,
    /** Objects in the hands of clients. */
    held: set<Ptr>,
    /** Completed pushes, and objects yielded by the iterator, in order. */
    completed: seq<Ptr>,
    collected: seq<Ptr>,
    changes: nat)

  datatype Action =
    | BeginPush(t: nat, node: Ptr)
    | LoadHead(t: nat)
    | WriteNext(t: nat)
    | CasSucceeds(t: nat)
    | CasFails(t: nat)
    | TakeAll
    | IterNext
    | ClientWrite(node: Ptr, value: Ptr)

  /** `compare_exchange_weak` may also fail when the head is unchanged. */
  predicate Enabled(s: State, a: Action) {
    match a
    case BeginPush(t, node) => t in s.producers && s.producers[t].Idle? && node in s.held
    case LoadHead(t) => t in s.producers && s.producers[t].Begun?
    case WriteNext(t) => t in s.producers && s.producers[t].Loaded?
    case CasSucceeds(t) => t in s.producers && s.producers[t].Written? && s.head == s.producers[t].oldHead
    case CasFails(t) => t in s.producers && s.producers[t].Written?
    case TakeAll => s.walk == NULL
    case IterNext => s.walk != NULL && s.walk in s.next
    case ClientWrite(node, value) => node in s.held
  }

  function Step(s: State, a: Action): State
    requires Enabled(s, a)
  {
    match a
    case BeginPush(t, node) =>
      s.(producers := s.producers[t := Begun(node)], held := s.held - {node})
    case LoadHead(t) =>
      s.(producers := s.producers[t := Loaded(s.producers[t].node, s.head, s.changes)])
    case WriteNext(t) =>
      var p := s.producers[t];
      s.(next := s.next[p.node := p.oldHead], producers := s.producers[t := Written(p.node, p.oldHead, p.seen)])
    case CasSucceeds(t) =>
      var node := s.producers[t].node;
      s.(head := node, producers := s.producers[t := Idle], completed := s.completed + [node], changes := s.changes + 1)
    case CasFails(t) =>
      s.(producers := s.producers[t := Begun(s.producers[t].node)])
    case TakeAll =>
      s.(head := NULL, walk := s.head, changes := if s.head == NULL then s.changes else s.changes + 1)
    case IterNext =>
      s.(walk := s.next[s.walk], held := s.held + {s.walk}, collected := s.collected + [s.walk])
    case ClientWrite(node, value) =>
      s.(next := s.next[node := value])
  }

  // ---- what the list stands for ----

  /** Following next-pointers from `p` visits exactly `xs` and then null. */
  predicate Chain(next: map<Ptr, Ptr>, p: Ptr, xs: seq<Ptr>)
    decreases |xs|
  {
    if xs == [] then p == NULL
    else p == xs[0] != NULL && p in next && Chain(next, next[p], xs[1..])
  }

  lemma {:induction false} ChainFrame(next: map<Ptr, Ptr>, p: Ptr, xs: seq<Ptr>, node: Ptr, value: Ptr)
    requires Chain(next, p, xs) && node !in xs
    ensures Chain(next[node := value], p, xs)
    decreases |xs|
  {
    if xs != [] {
      ChainFrame(next, next[p], xs[1..], node, value);
    }
  }

  /** The memory determines the chain: there is only one. */
  lemma {:induction false} ChainUnique(next: map<Ptr, Ptr>, p: Ptr, xs: seq<Ptr>, ys: seq<Ptr>)
    requires Chain(next, p, xs) && Chain(next, p, ys)
    ensures xs == ys
    decreases |xs|
  {
    if xs != [] && ys != [] {
      ChainUnique(next, next[p], xs[1..], ys[1..]);
      assert xs == [xs[0]] + xs[1..] && ys == [ys[0]] + ys[1..];
    }
  }

  /** The atomic object the list implements: `listed` from the head, `walking` left to iterate. */
  datatype Abstract = Abstract(listed: seq<Ptr>, walking: seq<Ptr>)

  /** A push takes effect at its successful compare-and-swap, a take at its swap. */
  function AbstractStep(b: Abstract, s: State, a: Action): Abstract
    requires Enabled(s, a)
  {
    match a
    case CasSucceeds(t) => b.(listed := [s.producers[t].node] + b.listed)
    case TakeAll => Abstract([], b.listed)
    case IterNext => b.(walking := if b.walking == [] then [] else b.walking[1..])
    case _ => b
  }

  predicate InFlight(s: State, t: nat) {
    t in s.producers && !s.producers[t].Idle?
  }

  predicate Pushing(s: State, t: nat, x: Ptr) {
    InFlight(s, t) && s.producers[t].node == x
  }

  /** Both chains hold objects of the cache that no client holds, each once. */
  ghost predicate ListsOk(b: Abstract, held: set<Ptr>, objects: set<Ptr>) {
    && Distinct(b.listed)
    && Distinct(b.walking)
    && (forall x | x in b.listed :: x in objects && x !in held && x !in b.walking)
    && (forall x | x in b.walking :: x in objects && x !in held)
  }

  /** An object being pushed is in no other place, and is pushed by one producer. */
  ghost predicate PushersOk(s: State, b: Abstract, objects: set<Ptr>) {
    && (forall t, x | Pushing(s, t, x) :: x in objects && x !in s.held && x !in b.listed && x !in b.walking)
    && (forall t, u, x | Pushing(s, t, x) && Pushing(s, u, x) :: t == u)
  }

  ghost predicate Somewhere(s: State, b: Abstract, x: Ptr) {
    x in s.held || x in b.listed || x in b.walking || exists t :: Pushing(s, t, x)
  }

  /** Every object is in exactly one place: held, being pushed, listed, or left to iterate. */
  ghost predicate OnePlace(s: State, b: Abstract, objects: set<Ptr>) {
    && NULL !in objects && s.held <= objects
    && ListsOk(b, s.held, objects)
    && PushersOk(s, b, objects)
    && (forall x | x in objects :: Somewhere(s, b, x))
  }

  function Reverse(xs: seq<Ptr>): seq<Ptr> {
    if xs == [] then [] else Reverse(xs[1..]) + [xs[0]]
  }

  /** The memory holds the two chains, and a written node already points at the head it was written for. */
  ghost predicate MemoryOk(s: State, b: Abstract, objects: set<Ptr>) {
    && s.next.Keys == objects
    && Chain(s.next, s.head, b.listed)
    && Chain(s.next, s.walk, b.walking)
    && (forall t, x | Pushing(s, t, x) && s.producers[t].Written? :: x in objects && s.next[x] == s.producers[t].oldHead)
  }

  /** Completed pushes are the collected ones plus those still in the chains; the listed ones are the
      most recent, newest first. */
  ghost predicate AccountOk(s: State, b: Abstract) {
    && multiset(s.completed) == multiset(s.collected) + multiset(b.listed) + multiset(b.walking)
    && |b.listed| <= |s.completed|
    && b.listed == Reverse(s.completed[|s.completed| - |b.listed|..])
  }

  /** A producer that saw the latest head change still knows the head. */
  ghost predicate SeenOk(s: State) {
    forall t | InFlight(s, t) && !s.producers[t].Begun? ::
      s.producers[t].seen <= s.changes && (s.producers[t].seen == s.changes ==> s.head == s.producers[t].oldHead)
  }

  ghost predicate Inv(s: State, b: Abstract, objects: set<Ptr>) {
    OnePlace(s, b, objects) && MemoryOk(s, b, objects) && AccountOk(s, b) && SeenOk(s)
  }

  ghost predicate Initial(s: State, objects: set<Ptr>) {
    && s.head == NULL && s.walk == NULL && s.next.Keys == objects && NULL !in objects
    && (forall t | t in s.producers :: s.producers[t].Idle?)
    && s.held == objects && s.completed == [] && s.collected == []
  }

  lemma {:induction false} ReverseAppend(xs: seq<Ptr>, x: Ptr)
    ensures Reverse(xs + [x]) == [x] + Reverse(xs)
    decreases |xs|
  {
    if xs == [] {
      assert [x][1..] == [];
    } else {
      assert (xs + [x])[1..] == xs[1..] + [x];
      ReverseAppend(xs[1..], x);
    }
  }

  /** Actions that move no object keep every object in its place. */
  lemma QuietKeepsPlaces(s: State, r: State, b: Abstract, objects: set<Ptr>)
    requires OnePlace(s, b, objects) && r.held == s.held
    requires forall t, x :: Pushing(r, t, x) <==> Pushing(s, t, x)
    ensures OnePlace(r, b, objects)
  {
    forall x | x in objects ensures Somewhere(r, b, x) {
      assert Somewhere(s, b, x);
      if t :| Pushing(s, t, x) {
        assert Pushing(r, t, x);
      }
    }
  }

  lemma BeginKeepsPlaces(s: State, b: Abstract, objects: set<Ptr>, t: nat, node: Ptr)
    requires OnePlace(s, b, objects) && Enabled(s, BeginPush(t, node))
    ensures OnePlace(Step(s, BeginPush(t, node)), b, objects)
  {
    var r := Step(s, BeginPush(t, node));
    assert forall u, x :: Pushing(r, u, x) <==> Pushing(s, u, x) || (u == t && x == node);
    assert Pushing(r, t, node);
    forall x | x in objects ensures Somewhere(r, b, x) {
      assert Somewhere(s, b, x);
      if u :| Pushing(s, u, x) {
        assert Pushing(r, u, x);
      }
    }
  }

  lemma CasKeepsPlaces(s: State, b: Abstract, objects: set<Ptr>, t: nat)
    requires OnePlace(s, b, objects) && Enabled(s, CasSucceeds(t))
    ensures OnePlace(Step(s, CasSucceeds(t)), AbstractStep(b, s, CasSucceeds(t)), objects)
  {
    var node := s.producers[t].node;
    var r, c := Step(s, CasSucceeds(t)), AbstractStep(b, s, CasSucceeds(t));
    assert Pushing(s, t, node);
    assert forall u, x :: Pushing(r, u, x) <==> Pushing(s, u, x) && u != t;
    assert forall x :: x in c.listed <==> x in b.listed || x == node;
    forall x | x in objects ensures Somewhere(r, c, x) {
      assert Somewhere(s, b, x);
      if u :| Pushing(s, u, x) {
        assert Pushing(r, u, x) || u == t;
      }
    }
  }

  lemma TakeKeepsPlaces(s: State, b: Abstract, objects: set<Ptr>)
    requires OnePlace(s, b, objects) && b.walking == [] && Enabled(s, TakeAll)
    ensures OnePlace(Step(s, TakeAll), Abstract([], b.listed), objects)
  {
    var r, c := Step(s, TakeAll), Abstract([], b.listed);
    assert forall u, x :: Pushing(r, u, x) <==> Pushing(s, u, x);
    forall x | x in objects ensures Somewhere(r, c, x) {
      assert Somewhere(s, b, x);
      if u :| Pushing(s, u, x) {
        assert Pushing(r, u, x);
      }
    }
  }

  lemma IterKeepsPlaces(s: State, b: Abstract, objects: set<Ptr>)
    requires OnePlace(s, b, objects) && Enabled(s, IterNext)
    requires b.walking != [] && b.walking[0] == s.walk
    ensures OnePlace(Step(s, IterNext), Abstract(b.listed, b.walking[1..]), objects)
  {
    var r, c := Step(s, IterNext), Abstract(b.listed, b.walking[1..]);
    assert forall u, x :: Pushing(r, u, x) <==> Pushing(s, u, x);
    assert b.walking == [s.walk] + c.walking;
    assert forall x :: x in b.walking <==> x in c.walking || x == s.walk;
    forall x | x in objects ensures Somewhere(r, c, x) {
      assert Somewhere(s, b, x);
      if u :| Pushing(s, u, x) {
        assert Pushing(r, u, x);
      }
    }
  }

  /** Every action keeps each object in exactly one place. */
  lemma StepKeepsPlaces(s: State, b: Abstract, objects: set<Ptr>, a: Action)
    requires OnePlace(s, b, objects) && Chain(s.next, s.walk, b.walking) && Enabled(s, a)
    ensures OnePlace(Step(s, a), AbstractStep(b, s, a), objects)
  {
    match a {
      case BeginPush(t, node) => BeginKeepsPlaces(s, b, objects, t, node);
      case CasSucceeds(t) => CasKeepsPlaces(s, b, objects, t);
      case TakeAll => TakeKeepsPlaces(s, b, objects);
      case IterNext => IterKeepsPlaces(s, b, objects);
      case _ => QuietKeepsPlaces(s, Step(s, a), b, objects);
    }
  }

  /** Writing into an object outside both chains leaves the chains as they are. */
  lemma WriteKeepsChains(s: State, b: Abstract, node: Ptr, value: Ptr)
    requires Chain(s.next, s.head, b.listed) && Chain(s.next, s.walk, b.walking)
    requires node !in b.listed && node !in b.walking
    ensures Chain(s.next[node := value], s.head, b.listed)
    ensures Chain(s.next[node := value], s.walk, b.walking)
  {
    ChainFrame(s.next, s.head, b.listed, node, value);
    ChainFrame(s.next, s.walk, b.walking, node, value);
  }

  lemma StepKeepsMemory(s: State, b: Abstract, objects: set<Ptr>, a: Action)
    requires OnePlace(s, b, objects) && MemoryOk(s, b, objects) && Enabled(s, a)
    ensures MemoryOk(Step(s, a), AbstractStep(b, s, a), objects)
  {
    var r, c := Step(s, a), AbstractStep(b, s, a);
    match a {
      case WriteNext(t) =>
        assert Pushing(s, t, s.producers[t].node);
        WriteKeepsChains(s, b, s.producers[t].node, s.producers[t].oldHead);
      case CasSucceeds(t) =>
        assert Pushing(s, t, s.producers[t].node);
        assert c.listed[1..] == b.listed;
      case ClientWrite(node, value) =>
        WriteKeepsChains(s, b, node, value);
      case _ =>
    }
    forall t, x | Pushing(r, t, x) && r.producers[t].Written?
      ensures x in objects && r.next[x] == r.producers[t].oldHead {
      assert Pushing(s, t, x);
    }
  }

  lemma CasKeepsAccount(s: State, b: Abstract, t: nat)
    requires AccountOk(s, b) && Enabled(s, CasSucceeds(t))
    ensures AccountOk(Step(s, CasSucceeds(t)), AbstractStep(b, s, CasSucceeds(t)))
  {
    var node, k := s.producers[t].node, |s.completed| - |b.listed|;
    assert (s.completed + [node])[k..] == s.completed[k..] + [node];
    ReverseAppend(s.completed[k..], node);
  }

  lemma IterKeepsAccount(s: State, b: Abstract)
    requires AccountOk(s, b) && b.walking != [] && b.walking[0] == s.walk && Enabled(s, IterNext)
    ensures AccountOk(Step(s, IterNext), Abstract(b.listed, b.walking[1..]))
  {
    assert b.walking == [s.walk] + b.walking[1..];
  }

  lemma StepKeepsAccount(s: State, b: Abstract, a: Action)
    requires AccountOk(s, b) && Chain(s.next, s.walk, b.walking) && Enabled(s, a)
    ensures AccountOk(Step(s, a), AbstractStep(b, s, a))
  {
    match a {
      case CasSucceeds(t) => CasKeepsAccount(s, b, t);
      case TakeAll => assert s.completed[|s.completed|..] == [];
      case IterNext => IterKeepsAccount(s, b);
      case _ =>
    }
  }

  lemma StepKeepsSeen(s: State, a: Action)
    requires SeenOk(s) && Enabled(s, a)
    ensures SeenOk(Step(s, a))
  {
    var r := Step(s, a);
    forall t | InFlight(r, t) && !r.producers[t].Begun?
      ensures r.producers[t].seen <= r.changes && (r.producers[t].seen == r.changes ==> r.head == r.producers[t].oldHead) {
      assert a != LoadHead(t) ==> InFlight(s, t);
    }
  }

  /** Every action keeps the invariant and moves the atomic object as its own atomic step. */
  lemma StepKeepsInv(s: State, b: Abstract, objects: set<Ptr>, a: Action)
    requires Inv(s, b, objects) && Enabled(s, a)
    ensures Inv(Step(s, a), AbstractStep(b, s, a), objects)
  {
    StepKeepsPlaces(s, b, objects, a);
    StepKeepsMemory(s, b, objects, a);
    StepKeepsAccount(s, b, a);
    StepKeepsSeen(s, a);
  }

  // ---- runs ----

  ghost predicate EnabledRun(s: State, acts: seq<Action>)
    decreases |acts|
  {
    acts == [] || (Enabled(s, acts[0]) && EnabledRun(Step(s, acts[0]), acts[1..]))
  }

  ghost function Run(s: State, acts: seq<Action>): State
    requires EnabledRun(s, acts)
    decreases |acts|
  {
    if acts == [] then s else Run(Step(s, acts[0]), acts[1..])
  }

  ghost function AbstractRun(b: Abstract, s: State, acts: seq<Action>): Abstract
    requires EnabledRun(s, acts)
    decreases |acts|
  {
    if acts == [] then b else AbstractRun(AbstractStep(b, s, acts[0]), Step(s, acts[0]), acts[1..])
  }

  lemma {:induction false} RunKeepsInv(s: State, b: Abstract, objects: set<Ptr>, acts: seq<Action>)
    requires Inv(s, b, objects) && EnabledRun(s, acts)
    ensures Inv(Run(s, acts), AbstractRun(b, s, acts), objects)
    decreases |acts|
  {
    if acts != [] {
      StepKeepsInv(s, b, objects, acts[0]);
      RunKeepsInv(Step(s, acts[0]), AbstractStep(b, s, acts[0]), objects, acts[1..]);
    }
  }

  lemma InitialInv(s: State, objects: set<Ptr>)
    requires Initial(s, objects)
    ensures Inv(s, Abstract([], []), objects)
  {
    assert s.completed[|s.completed| - 0..] == [];
    forall x | x in objects ensures Somewhere(s, Abstract([], []), x) {
    }
  }

  /** Each completed push was collected, or is pending in a chain, where an object stands once. */
  lemma PushesDelivered(s: State, b: Abstract, objects: set<Ptr>, x: Ptr)
    requires OnePlace(s, b, objects) && AccountOk(s, b)
    ensures multiset(s.completed)[x] ==
            multiset(s.collected)[x] + if x in b.listed || x in b.walking then 1 else 0
  {
    DistinctCount(b.listed, x);
    DistinctCount(b.walking, x);
  }

  ghost predicate InPush(s: State, x: Ptr) {
    exists t :: Pushing(s, t, x)
  }

  function One(p: bool): nat {
    if p then 1 else 0
  }

  /** How many pushes of `x` the actions begin. */
  function Begins(acts: seq<Action>, x: Ptr): nat {
    if acts == [] then 0 else One(acts[0].BeginPush? && acts[0].node == x) + Begins(acts[1..], x)
  }

  /** No action but a successful compare-and-swap ends a push, and no push ends with another object. */
  lemma StepKeepsPushes(s: State, b: Abstract, objects: set<Ptr>, a: Action, x: Ptr)
    requires OnePlace(s, b, objects) && Enabled(s, a)
    ensures var r := Step(s, a);
            multiset(s.completed)[x] + One(InPush(s, x)) + One(a.BeginPush? && a.node == x) ==
            multiset(r.completed)[x] + One(InPush(r, x))
  {
    var r := Step(s, a);
    match a {
      case BeginPush(t, node) =>
        assert Pushing(r, t, node);
        assert forall u, y :: Pushing(r, u, y) <==> Pushing(s, u, y) || (u == t && y == node);
      case CasSucceeds(t) =>
        assert Pushing(s, t, s.producers[t].node);
        assert forall u, y :: Pushing(r, u, y) <==> Pushing(s, u, y) && u != t;
      case _ =>
        assert forall u, y :: Pushing(r, u, y) <==> Pushing(s, u, y);
    }
  }

  /** Every push begun is completed, or is the one still being tried. */
  lemma {:induction false} RunKeepsPushes(s: State, b: Abstract, objects: set<Ptr>, acts: seq<Action>, x: Ptr)
    requires Inv(s, b, objects) && EnabledRun(s, acts)
    ensures multiset(s.completed)[x] + One(InPush(s, x)) + Begins(acts, x) ==
            multiset(Run(s, acts).completed)[x] + One(InPush(Run(s, acts), x))
    decreases |acts|
  {
    if acts != [] {
      StepKeepsPushes(s, b, objects, acts[0], x);
      StepKeepsInv(s, b, objects, acts[0]);
      RunKeepsPushes(Step(s, acts[0]), AbstractStep(b, s, acts[0]), objects, acts[1..], x);
    }
  }

  /** A producer leaves its push only by publishing the object it began with. */
  lemma PushEndsPublished(s: State, a: Action, t: nat, x: Ptr)
    requires Enabled(s, a) && Pushing(s, t, x) && !Pushing(Step(s, a), t, x)
    ensures a == CasSucceeds(t) && Step(s, a).head == x && Step(s, a).completed == s.completed + [x]
  {
  }

  /** A failed push is retried from the current head and, left alone, succeeds. */
  lemma RetryCompletes(s: State, b: Abstract, objects: set<Ptr>, t: nat)
    requires Inv(s, b, objects) && Enabled(s, CasFails(t))
    ensures var node, s1 := s.producers[t].node, Step(s, CasFails(t));
            && Enabled(s1, LoadHead(t)) && var s2 := Step(s1, LoadHead(t));
            && Enabled(s2, WriteNext(t)) && var s3 := Step(s2, WriteNext(t));
            && Enabled(s3, CasSucceeds(t)) && var s4 := Step(s3, CasSucceeds(t));
            && s4.producers[t].Idle? && s4.completed == s.completed + [node]
            && Chain(s4.next, s4.head, [node] + b.listed)
  {
    var s1 := Step(s, CasFails(t));
    StepKeepsInv(s, b, objects, CasFails(t));
    var s2 := Step(s1, LoadHead(t));
    StepKeepsInv(s1, b, objects, LoadHead(t));
    var s3 := Step(s2, WriteNext(t));
    StepKeepsInv(s2, b, objects, WriteNext(t));
    StepKeepsInv(s3, b, objects, CasSucceeds(t));
  }

  /** Exactly-once delivery over every interleaving: the memory always holds two null-terminated chains
      without repetition; every push begun was completed, or is the one in flight; every completed push
      was collected once, or is the one still listed or left to iterate; no object is in two places. */
  lemma ExactlyOnce(s: State, objects: set<Ptr>, acts: seq<Action>)
    requires Initial(s, objects) && EnabledRun(s, acts)
    ensures var r := Run(s, acts);
            var b := AbstractRun(Abstract([], []), s, acts);
            && OnePlace(r, b, objects)
            && Chain(r.next, r.head, b.listed)
            && Chain(r.next, r.walk, b.walking)
            && (forall x :: Begins(acts, x) == multiset(r.completed)[x] + One(InPush(r, x)))
            && (forall x :: multiset(r.completed)[x] ==
                            multiset(r.collected)[x] + if x in b.listed || x in b.walking then 1 else 0)
            && AccountOk(r, b)
  {
    InitialInv(s, objects);
    RunKeepsInv(s, Abstract([], []), objects, acts);
    var r, b := Run(s, acts), AbstractRun(Abstract([], []), s, acts);
    forall x ensures multiset(r.completed)[x] ==
                     multiset(r.collected)[x] + if x in b.listed || x in b.walking then 1 else 0 {
      PushesDelivered(r, b, objects, x);
    }
    forall x ensures Begins(acts, x) == multiset(r.completed)[x] + One(InPush(r, x)) {
      RunKeepsPushes(s, Abstract([], []), objects, acts, x);
    }
  }

  lemma {:induction false} DistinctCount(xs: seq<Ptr>, x: Ptr)
    requires Distinct(xs)
    ensures multiset(xs)[x] == if x in xs then 1 else 0
    decreases |xs|
  {
    if xs != [] {
      DistinctCount(xs[1..], x);
      assert xs == [xs[0]] + xs[1..];
    }
  }

  /** Lock-freedom: once a producer's compare-and-swap can no longer succeed, some other push or take
      has changed the head since its load. */
  lemma FailureMeansProgress(s: State, objects: set<Ptr>, acts: seq<Action>, t: nat)
    requires Initial(s, objects) && EnabledRun(s, acts)
    requires Enabled(Run(s, acts), CasFails(t)) && !Enabled(Run(s, acts), CasSucceeds(t))
    ensures Run(s, acts).producers[t].seen < Run(s, acts).changes
  {
    InitialInv(s, objects);
    RunKeepsInv(s, Abstract([], []), objects, acts);
    assert InFlight(Run(s, acts), t);
  }

  // ---- the iterator of the owning CPU ----

  /** `ChainIter`: once taken, a chain changes only through this iterator. */
  class ChainIter {
    var current: Ptr

    constructor (head: Ptr)
      ensures current == head
    {
      current := head;
    }

    method Next(next: map<Ptr, Ptr>, ghost xs: seq<Ptr>) returns (r: Option<Ptr>)
      requires Chain(next, current, xs)
      modifies this
      ensures r == if xs == [] then None else Some(xs[0])
      ensures Chain(next, current, if xs == [] then [] else xs[1..])
    {
      if current == NULL {
        return None;
      }
      var node := current;
      current := next[node];
      r := Some(node);
    }
  }

  /** Collecting a taken chain yields exactly the objects of the chain, in order. */
  method Collect(next: map<Ptr, Ptr>, head: Ptr, ghost xs: seq<Ptr>) returns (nodes: seq<Ptr>)
    requires Chain(next, head, xs)
    ensures nodes == xs
  {
    var iter := new ChainIter(head);
    nodes := [];
    ghost var rest := xs;
    var node := iter.Next(next, rest);
    while node.Some?
      invariant Chain(next, iter.current, if rest == [] then [] else rest[1..])
      invariant node == if rest == [] then None else Some(rest[0])
      invariant xs == nodes + rest
      decreases |rest|
    {
      nodes := nodes + [node.value];
      rest := rest[1..];
      node := iter.Next(next, rest);
    }
  }
}
