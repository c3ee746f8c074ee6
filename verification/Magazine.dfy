/** Per-CPU magazines and their shared depot (`kernel-core/src/magazine.rs`). */
module Magazines {
  import opened Options

  const CAPACITY: nat := 32

  type Ptr = nat
  type Mag = seq<Ptr>

  /** A fixed array used as a stack. */
  class Magazine {
    const slots: array<Ptr>
    var count: nat

    ghost predicate Valid()
      reads this, slots
    {
      slots.Length == CAPACITY && count <= CAPACITY
    }

    ghost function Contents(): Mag
      requires Valid()
      reads this, slots
    {
      slots[..count]
    }

    constructor ()
      ensures Valid() && fresh(slots) && Contents() == []
    {
      slots := new Ptr[CAPACITY](_ => 0);
      count := 0;
    }

    method Push(p: Ptr) returns (rejected: Option<Ptr>)
      requires Valid()
      modifies this, slots
      ensures Valid()
      ensures rejected == if |old(Contents())| == CAPACITY then Some(p) else None
      ensures Contents() == if rejected.None? then old(Contents()) + [p] else old(Contents())
    {
      if count >= CAPACITY {
        return Some(p);
      }
      slots[count] := p;
      count := count + 1;
      return None;
    }

    method Pop() returns (p: Option<Ptr>)
      requires Valid()
      modifies this
      ensures Valid()
      ensures p.None? <==> old(Contents()) == []
      ensures p.Some? ==> old(Contents()) == Contents() + [p.value]
      ensures p.None? ==> Contents() == []
    {
      if count == 0 {
        return None;
      }
      count := count - 1;
      return Some(slots[count]);
    }
  }

  // ---- counting ----

  function Top<T>(s: seq<T>): T
    requires s != []
  {
    s[|s| - 1]
  }

  function Below<T>(s: seq<T>): seq<T>
    requires s != []
  {
    s[..|s| - 1]
  }

  function One(p: Ptr, x: Ptr): nat {
    if p == x then 1 else 0
  }

  function Occurs(m: Mag, x: Ptr): nat {
    if m == [] then 0 else Occurs(Below(m), x) + One(Top(m), x)
  }

  function OccursIn(stack: seq<Mag>, x: Ptr): nat {
    if stack == [] then 0 else OccursIn(Below(stack), x) + Occurs(Top(stack), x)
  }

  lemma OccursPush(m: Mag, p: Ptr, x: Ptr)
    ensures Occurs(m + [p], x) == Occurs(m, x) + One(p, x)
  {
    assert Below(m + [p]) == m;
  }

  lemma OccursInPush(stack: seq<Mag>, m: Mag, x: Ptr)
    ensures OccursIn(stack + [m], x) == OccursIn(stack, x) + Occurs(m, x)
  {
    assert Below(stack + [m]) == stack;
  }

  lemma {:induction false} OccursConcat(a: Mag, b: Mag, x: Ptr)
    ensures Occurs(a + b, x) == Occurs(a, x) + Occurs(b, x)
  {
    if b == [] {
      assert a + b == a;
    } else {
      assert Below(a + b) == a + Below(b);
      OccursConcat(a, Below(b), x);
    }
  }

  // ---- the depot, one caller at a time ----

  predicate AllFull(stack: seq<Mag>) {
    forall i :: 0 <= i < |stack| ==> |stack[i]| == CAPACITY
  }

  predicate AllEmpty(stack: seq<Mag>) {
    forall i :: 0 <= i < |stack| ==> |stack[i]| == 0
  }

  class MagazineDepot {
    var full: seq<Mag>
    var empty: seq<Mag>

    ghost predicate Valid()
      reads this
    {
      AllFull(full) && AllEmpty(empty)
    }

    constructor ()
      ensures Valid() && full == [] && empty == []
    {
      full, empty := [], [];
    }

    /** A full magazine for an empty one, or the caller's own back. */
    method ExchangeEmptyForFull(mine: Mag) returns (got: Mag, swapped: bool)
      requires Valid() && mine == []
      modifies this
      ensures Valid()
      ensures swapped <==> old(full) != []
      ensures swapped ==> |got| == CAPACITY && old(full) == full + [got] && empty == old(empty) + [mine]
      ensures !swapped ==> got == mine && full == old(full) && empty == old(empty)
    {
      if full == [] {
        return mine, false;
      }
      got, full := Top(full), Below(full);
      empty := empty + [mine];
      swapped := true;
    }

    method ExchangeFullForEmpty(mine: Mag) returns (got: Mag, swapped: bool)
      requires Valid() && |mine| == CAPACITY
      modifies this
      ensures Valid()
      ensures swapped <==> old(empty) != []
      ensures swapped ==> got == [] && old(empty) == empty + [got] && full == old(full) + [mine]
      ensures !swapped ==> got == mine && full == old(full) && empty == old(empty)
    {
      if empty == [] {
        return mine, false;
      }
      got, empty := Top(empty), Below(empty);
      full := full + [mine];
      swapped := true;
    }

    /** Every object of every full magazine comes out once, and each emptied magazine is kept. */
    method DrainFull() returns (drained: nat, freed: Mag)
      requires Valid()
      modifies this
      ensures Valid() && full == [] && drained == |old(full)|
      ensures |empty| == |old(empty)| + drained
      ensures forall x :: Occurs(freed, x) == OccursIn(old(full), x)
    {
      drained, freed := 0, [];
      ghost var was := full;
      assert was[..|was|] == was;
      while full != []
        invariant Valid() && drained + |full| == |was| && full <= was
        invariant |empty| == |old(empty)| + drained
        invariant forall x :: Occurs(freed, x) + OccursIn(full, x) == OccursIn(was, x)
        decreases |full|
      {
        var m := Top(full);
        full := Below(full);
        var released := Empty(m);
        forall x ensures Occurs(freed + released, x) == Occurs(freed, x) + Occurs(m, x) {
          OccursConcat(freed, released, x);
        }
        freed := freed + released;
        empty := empty + [[]];
        drained := drained + 1;
      }
    }
  }

  /** The callback of a drain: pops until the magazine is empty. */
  method Empty(m: Mag) returns (released: Mag)
    ensures forall x :: Occurs(released, x) == Occurs(m, x)
  {
    var left := m;
    released := [];
    while left != []
      invariant forall x :: Occurs(released, x) + Occurs(left, x) == Occurs(m, x)
      decreases |left|
    {
      forall x ensures Occurs(released + [Top(left)], x) == Occurs(released, x) + One(Top(left), x) {
        OccursPush(released, Top(left), x);
      }
      released, left := released + [Top(left)], Below(left);
    }
  }
}

/**
  * All CPUs at once. Every depot stack has its own lock, so an exchange is two steps with
  * any other CPU's steps in between; slab refills and drains go one object at a time.
  */
module MagazineProtocol {
  import opened Magazines

  datatype Phase =
    | Idle
    | WantRemote                      // both magazines empty, next: the cross-CPU list
    | Collecting(mag: Mag)            // a chain taken off the cross-CPU list
    | WantFull                        // still nothing, next: the lock on full
    | HaveFull(mag: Mag)              // between the two locks of an exchange
    | Filling                         // refilling from the slab
    | WantEmpty(ptr: Ptr)             // both magazines full, an object in hand
    | HaveEmpty(mag: Mag, ptr: Ptr)   // between the two locks of an exchange
    | Spilling(ptr: Ptr)              // draining to the slab, an object in hand
    | Reclaiming                      // top of the loop of drain_full
    | Emptying(mag: Mag)              // inside the callback of drain_full

  datatype Cpu = Cpu(loaded: Mag, previous: Mag, phase: Phase)

  /** What one CPU can see: the shared stacks, the slab, the cross-CPU lists, the objects clients hold, and its own
      state. A CPU may take any part of the lists, so nothing depends on which list an object is on. */
  datatype View = View(
    full: seq<Mag>, empty: seq<Mag>, slab: multiset<Ptr>, remote: multiset<Ptr>, inUse: multiset<Ptr>, cpu: Cpu)

  datatype AllocAction =
    | Alloc | TakeRemote(chain: Mag) | CollectOne | CollectStop | TakeFull | GiveEmpty | FillOne(p: Ptr) | FillStop

  datatype FreeAction = Release(p: Ptr) | ReleaseRemote(p: Ptr) | TakeEmpty | GiveFull | SpillOne | SpillStop

  datatype ReclaimAction = FlushOne | FlushRemote(p: Ptr) | ReclaimStart | ReclaimTake | EmptyOne | EmptyStop

  datatype Action = OnAlloc(alloc: AllocAction) | OnFree(free: FreeAction) | OnReclaim(reclaim: ReclaimAction)

  predicate CanAlloc(v: View, a: AllocAction) {
    var c := v.cpu;
    match a
    case Alloc => c.phase.Idle?
    case TakeRemote(chain) => c.phase.WantRemote? && multiset(chain) <= v.remote
    case CollectOne => c.phase.Collecting? && c.phase.mag != []
    case CollectStop => c.phase.Collecting? && c.phase.mag == []
    case TakeFull => c.phase.WantFull?
    case GiveEmpty => c.phase.HaveFull?
    case FillOne(p) => c.phase.Filling? && |c.loaded| < CAPACITY && p in v.slab
    case FillStop => c.phase.Filling? && (|c.loaded| == CAPACITY || v.slab == multiset{})
  }

  predicate CanFree(v: View, a: FreeAction) {
    var c := v.cpu;
    match a
    case Release(p) => c.phase.Idle? && p in v.inUse
    case ReleaseRemote(p) => c.phase.Idle? && p in v.inUse
    case TakeEmpty => c.phase.WantEmpty?
    case GiveFull => c.phase.HaveEmpty?
    case SpillOne => c.phase.Spilling? && c.previous != []
    case SpillStop => c.phase.Spilling? && c.previous == []
  }

  predicate CanReclaim(v: View, a: ReclaimAction) {
    var c := v.cpu;
    match a
    case FlushOne => c.phase.Idle? && (c.loaded != [] || c.previous != [])
    case FlushRemote(p) => c.phase.Idle? && p in v.remote
    case ReclaimStart => c.phase.Idle?
    case ReclaimTake => c.phase.Reclaiming?
    case EmptyOne => c.phase.Emptying? && c.phase.mag != []
    case EmptyStop => c.phase.Emptying? && c.phase.mag == []
  }

  predicate Enabled(v: View, a: Action) {
    match a
    case OnAlloc(b) => CanAlloc(v, b)
    case OnFree(b) => CanFree(v, b)
    case OnReclaim(b) => CanReclaim(v, b)
  }

  /** A push whose result the caller ignores: at capacity the object is lost. */
  function PushIgnored(m: Mag, p: Ptr): (r: Mag)
    ensures |m| <= CAPACITY ==> |r| <= CAPACITY
  {
    if |m| >= CAPACITY then m else m + [p]
  }

  /** Loads a magazine and serves an allocation from it, if it holds anything. */
  function Serve(v: View, m: Mag): View {
    if m == [] then v.(cpu := Cpu(m, v.cpu.previous, Idle))
    else v.(inUse := v.inUse + multiset{Top(m)}, cpu := Cpu(Below(m), v.cpu.previous, Idle))
  }

  function AllocStep(v: View): View {
    var c := v.cpu;
    if c.loaded != [] then Serve(v, c.loaded)
    else if c.previous != [] then Serve(v.(cpu := c.(previous := c.loaded)), c.previous)
    else v.(cpu := Cpu(c.previous, c.loaded, WantRemote))
  }

  function ReleaseStep(v: View, p: Ptr): View {
    var c := v.cpu;
    var w := v.(inUse := v.inUse - multiset{p});
    if |c.previous| < CAPACITY then w.(cpu := c.(previous := c.previous + [p]))
    else if |c.loaded| < CAPACITY then w.(cpu := c.(loaded := c.previous, previous := c.loaded + [p]))
    else w.(cpu := Cpu(c.previous, c.loaded, WantEmpty(p)))
  }

  /** One object of the chain goes into the loaded magazine or, once that is full, back to the list. */
  function CollectStep(v: View): View
    requires v.cpu.phase.Collecting? && v.cpu.phase.mag != []
  {
    var c := v.cpu;
    var p, rest := Top(c.phase.mag), Collecting(Below(c.phase.mag));
    if |c.loaded| < CAPACITY then v.(cpu := Cpu(c.loaded + [p], c.previous, rest))
    else v.(remote := v.remote + multiset{p}, cpu := c.(phase := rest))
  }

  function Spill(v: View, p: Ptr): multiset<Ptr> {
    v.slab + multiset{p}
  }

  function AllocMove(v: View, a: AllocAction): View
    requires CanAlloc(v, a)
  {
    var c := v.cpu;
    match a
    case Alloc => AllocStep(v)
    case TakeRemote(chain) => v.(remote := v.remote - multiset(chain), cpu := c.(phase := Collecting(chain)))
    case CollectOne => CollectStep(v)
    case CollectStop => if c.loaded != [] then Serve(v, c.loaded) else v.(cpu := c.(phase := WantFull))
    case TakeFull =>
      if v.full == [] then v.(cpu := c.(phase := Filling))
      else v.(full := Below(v.full), cpu := c.(phase := HaveFull(Top(v.full))))
    case GiveEmpty => Serve(v.(empty := v.empty + [c.loaded]), c.phase.mag)
    case FillOne(p) => v.(slab := v.slab - multiset{p}, cpu := c.(loaded := PushIgnored(c.loaded, p)))
    case FillStop => Serve(v, c.loaded)
  }

  function FreeMove(v: View, a: FreeAction): View
    requires CanFree(v, a)
  {
    var c := v.cpu;
    match a
    case Release(p) => ReleaseStep(v, p)
    case ReleaseRemote(p) => v.(inUse := v.inUse - multiset{p}, remote := v.remote + multiset{p})
    case TakeEmpty =>
      if v.empty == [] then v.(cpu := c.(phase := Spilling(c.phase.ptr)))
      else v.(empty := Below(v.empty), cpu := c.(phase := HaveEmpty(Top(v.empty), c.phase.ptr)))
    case GiveFull =>
      v.(full := v.full + [c.previous], cpu := Cpu(c.loaded, PushIgnored(c.phase.mag, c.phase.ptr), Idle))
    case SpillOne => v.(slab := Spill(v, Top(c.previous)), cpu := c.(previous := Below(c.previous)))
    case SpillStop => v.(cpu := Cpu(c.loaded, PushIgnored(c.previous, c.phase.ptr), Idle))
  }

  function ReclaimMove(v: View, a: ReclaimAction): View
    requires CanReclaim(v, a)
  {
    var c := v.cpu;
    match a
    case FlushOne =>
      if c.loaded != [] then v.(slab := Spill(v, Top(c.loaded)), cpu := c.(loaded := Below(c.loaded)))
      else v.(slab := Spill(v, Top(c.previous)), cpu := c.(previous := Below(c.previous)))
    case FlushRemote(p) => v.(remote := v.remote - multiset{p}, slab := Spill(v, p))
    case ReclaimStart => v.(cpu := c.(phase := Reclaiming))
    case ReclaimTake =>
      if v.full == [] then v.(cpu := c.(phase := Idle))
      else v.(full := Below(v.full), cpu := c.(phase := Emptying(Top(v.full))))
    case EmptyOne => v.(slab := Spill(v, Top(c.phase.mag)), cpu := c.(phase := Emptying(Below(c.phase.mag))))
    case EmptyStop => v.(empty := v.empty + [c.phase.mag], cpu := c.(phase := Reclaiming))
  }

  function Move(v: View, a: Action): View
    requires Enabled(v, a)
  {
    match a
    case OnAlloc(b) => AllocMove(v, b)
    case OnFree(b) => FreeMove(v, b)
    case OnReclaim(b) => ReclaimMove(v, b)
  }

  // ---- what every step keeps ----

  predicate CpuOk(c: Cpu) {
    && |c.loaded| <= CAPACITY && |c.previous| <= CAPACITY
    && match c.phase
       case Idle => true
       case WantRemote => c.loaded == [] && c.previous == []
       case Collecting(_) => c.previous == []
       case WantFull => c.loaded == [] && c.previous == []
       case HaveFull(m) => c.loaded == [] && |m| == CAPACITY
       case Filling => true
       case WantEmpty(_) => |c.previous| == CAPACITY
       case HaveEmpty(m, _) => |c.previous| == CAPACITY && |m| == 0
       case Spilling(_) => true
       case Reclaiming => true
       case Emptying(m) => |m| <= CAPACITY
  }

  predicate ViewOk(v: View) {
    AllFull(v.full) && AllEmpty(v.empty) && CpuOk(v.cpu)
  }

  function PhaseOccurs(f: Phase, x: Ptr): nat {
    match f
    case Collecting(m) => Occurs(m, x)
    case HaveFull(m) => Occurs(m, x)
    case WantEmpty(p) => One(p, x)
    case HaveEmpty(m, p) => Occurs(m, x) + One(p, x)
    case Spilling(p) => One(p, x)
    case Emptying(m) => Occurs(m, x)
    case _ => 0
  }

  function CpuOccurs(c: Cpu, x: Ptr): nat {
    Occurs(c.loaded, x) + Occurs(c.previous, x) + PhaseOccurs(c.phase, x)
  }

  /** How often an object occurs in everything one CPU can see. */
  function ViewOccurs(v: View, x: Ptr): nat {
    OccursIn(v.full, x) + OccursIn(v.empty, x) + v.slab[x] + v.remote[x] + v.inUse[x] + CpuOccurs(v.cpu, x)
  }

  /** Depot magazines a CPU has taken out and not yet replaced. */
  function Taken(c: Cpu): nat {
    if c.phase.HaveFull? || c.phase.HaveEmpty? || c.phase.Emptying? then 1 else 0
  }

  /** Depot magazines, those in hand included. */
  function Holding(v: View): nat {
    |v.full| + |v.empty| + Taken(v.cpu)
  }

  lemma ServeOk(v: View, m: Mag)
    requires AllFull(v.full) && AllEmpty(v.empty) && |m| <= CAPACITY && |v.cpu.previous| <= CAPACITY
    ensures ViewOk(Serve(v, m)) && Holding(Serve(v, m)) == |v.full| + |v.empty|
  {
  }

  lemma AllocKeepsOk(v: View, a: AllocAction)
    requires ViewOk(v) && CanAlloc(v, a)
    ensures ViewOk(AllocMove(v, a)) && Holding(AllocMove(v, a)) == Holding(v)
  {
    var c := v.cpu;
    match a
    case Alloc =>
      ServeOk(v, c.loaded);
      ServeOk(v.(cpu := c.(previous := c.loaded)), c.previous);
    case CollectStop => ServeOk(v, c.loaded);
    case GiveEmpty => ServeOk(v.(empty := v.empty + [c.loaded]), c.phase.mag);
    case FillStop => ServeOk(v, c.loaded);
    case _ =>
  }

  lemma FreeKeepsOk(v: View, a: FreeAction)
    requires ViewOk(v) && CanFree(v, a)
    ensures ViewOk(FreeMove(v, a)) && Holding(FreeMove(v, a)) == Holding(v)
  {
  }

  lemma ReclaimKeepsOk(v: View, a: ReclaimAction)
    requires ViewOk(v) && CanReclaim(v, a)
    ensures ViewOk(ReclaimMove(v, a)) && Holding(ReclaimMove(v, a)) == Holding(v)
  {
  }

  lemma MoveKeepsOk(v: View, a: Action)
    requires ViewOk(v) && Enabled(v, a)
    ensures ViewOk(Move(v, a)) && Holding(Move(v, a)) == Holding(v)
  {
    match a
    case OnAlloc(b) => AllocKeepsOk(v, b);
    case OnFree(b) => FreeKeepsOk(v, b);
    case OnReclaim(b) => ReclaimKeepsOk(v, b);
  }

  lemma ServeKeeps(v: View, m: Mag, x: Ptr)
    ensures ViewOccurs(Serve(v, m), x) + Occurs(v.cpu.loaded, x) + PhaseOccurs(v.cpu.phase, x)
      == ViewOccurs(v, x) + Occurs(m, x)
  {
  }

  lemma AllocKeeps(v: View, x: Ptr)
    requires v.cpu.phase.Idle?
    ensures ViewOccurs(AllocStep(v), x) == ViewOccurs(v, x)
  {
    var c := v.cpu;
    if c.loaded != [] {
      ServeKeeps(v, c.loaded, x);
    } else if c.previous != [] {
      ServeKeeps(v.(cpu := c.(previous := c.loaded)), c.previous, x);
    }
  }

  lemma GiveEmptyKeeps(v: View, x: Ptr)
    requires v.cpu.phase.HaveFull?
    ensures ViewOccurs(AllocMove(v, GiveEmpty), x) == ViewOccurs(v, x)
  {
    var c := v.cpu;
    OccursInPush(v.empty, c.loaded, x);
    ServeKeeps(v.(empty := v.empty + [c.loaded]), c.phase.mag, x);
  }

  lemma {:induction false} OccursIsCount(m: Mag, x: Ptr)
    ensures multiset(m)[x] == Occurs(m, x)
    decreases |m|
  {
    if m != [] {
      OccursIsCount(Below(m), x);
      assert m == Below(m) + [Top(m)];
    }
  }

  lemma TakeRemoteKeeps(v: View, chain: Mag, x: Ptr)
    requires CanAlloc(v, TakeRemote(chain))
    ensures ViewOccurs(AllocMove(v, TakeRemote(chain)), x) == ViewOccurs(v, x)
  {
    OccursIsCount(chain, x);
  }

  lemma CollectKeeps(v: View, x: Ptr)
    requires CanAlloc(v, CollectOne)
    ensures ViewOccurs(CollectStep(v), x) == ViewOccurs(v, x)
  {
    OccursPush(v.cpu.loaded, Top(v.cpu.phase.mag), x);
  }

  lemma FillKeeps(v: View, p: Ptr, x: Ptr)
    requires CanAlloc(v, FillOne(p))
    ensures ViewOccurs(AllocMove(v, FillOne(p)), x) == ViewOccurs(v, x)
  {
    OccursPush(v.cpu.loaded, p, x);
    assert (v.slab - multiset{p})[x] + One(p, x) == v.slab[x];
  }

  lemma AllocKeepsObjects(v: View, a: AllocAction, x: Ptr)
    requires CanAlloc(v, a)
    ensures ViewOccurs(AllocMove(v, a), x) == ViewOccurs(v, x)
  {
    match a
    case Alloc => AllocKeeps(v, x);
    case TakeFull =>
    case GiveEmpty => GiveEmptyKeeps(v, x);
    case FillOne(p) => FillKeeps(v, p, x);
    case FillStop => ServeKeeps(v, v.cpu.loaded, x);
    case TakeRemote(chain) => TakeRemoteKeeps(v, chain, x);
    case CollectOne => CollectKeeps(v, x);
    case CollectStop => ServeKeeps(v, v.cpu.loaded, x);
  }

  lemma ReleaseKeeps(v: View, p: Ptr, x: Ptr)
    requires v.cpu.phase.Idle? && p in v.inUse
    ensures ViewOccurs(ReleaseStep(v, p), x) == ViewOccurs(v, x)
  {
    var c := v.cpu;
    assert (v.inUse - multiset{p})[x] + One(p, x) == v.inUse[x];
    if |c.previous| < CAPACITY {
      OccursPush(c.previous, p, x);
    } else if |c.loaded| < CAPACITY {
      OccursPush(c.loaded, p, x);
    }
  }

  lemma GiveFullKeeps(v: View, x: Ptr)
    requires ViewOk(v) && v.cpu.phase.HaveEmpty?
    ensures ViewOccurs(FreeMove(v, GiveFull), x) == ViewOccurs(v, x)
  {
    var c, m, p := v.cpu, v.cpu.phase.mag, v.cpu.phase.ptr;
    assert PushIgnored(m, p) == m + [p];
    assert FreeMove(v, GiveFull) == v.(full := v.full + [c.previous], cpu := Cpu(c.loaded, m + [p], Idle));
    OccursInPush(v.full, c.previous, x);
    OccursPush(m, p, x);
  }

  lemma FreeKeepsObjects(v: View, a: FreeAction, x: Ptr)
    requires ViewOk(v) && CanFree(v, a)
    ensures ViewOccurs(FreeMove(v, a), x) == ViewOccurs(v, x)
  {
    match a
    case Release(p) => ReleaseKeeps(v, p, x);
    case ReleaseRemote(p) =>
    case TakeEmpty =>
    case GiveFull => GiveFullKeeps(v, x);
    case SpillOne => SlabGains(v, Top(v.cpu.previous), x);
    case SpillStop => OccursPush(v.cpu.previous, v.cpu.phase.ptr, x);
  }

  lemma SlabGains(v: View, p: Ptr, x: Ptr)
    ensures Spill(v, p)[x] == v.slab[x] + One(p, x)
  {
  }

  lemma FlushKeeps(v: View, x: Ptr)
    requires CanReclaim(v, FlushOne)
    ensures ViewOccurs(ReclaimMove(v, FlushOne), x) == ViewOccurs(v, x)
  {
    SlabGains(v, Top(if v.cpu.loaded != [] then v.cpu.loaded else v.cpu.previous), x);
  }

  lemma ReclaimKeepsObjects(v: View, a: ReclaimAction, x: Ptr)
    requires CanReclaim(v, a)
    ensures ViewOccurs(ReclaimMove(v, a), x) == ViewOccurs(v, x)
  {
    match a
    case FlushOne => FlushKeeps(v, x);
    case FlushRemote(p) => SlabGains(v, p, x);
    case ReclaimStart =>
    case ReclaimTake =>
    case EmptyOne => SlabGains(v, Top(v.cpu.phase.mag), x);
    case EmptyStop => OccursInPush(v.empty, v.cpu.phase.mag, x);
  }

  lemma MoveKeepsObjects(v: View, a: Action, x: Ptr)
    requires ViewOk(v) && Enabled(v, a)
    ensures ViewOccurs(Move(v, a), x) == ViewOccurs(v, x)
  {
    match a
    case OnAlloc(b) => AllocKeepsObjects(v, b, x);
    case OnFree(b) => FreeKeepsObjects(v, b, x);
    case OnReclaim(b) => ReclaimKeepsObjects(v, b, x);
  }

  /** After a successful exchange the allocation is served and the freed object is stored. */
  lemma ExchangeServes(v: View)
    requires ViewOk(v)
    ensures CanAlloc(v, GiveEmpty) ==> |AllocMove(v, GiveEmpty).inUse| == |v.inUse| + 1
    ensures CanFree(v, GiveFull) ==> FreeMove(v, GiveFull).cpu.previous == [v.cpu.phase.ptr]
  {
    if CanAlloc(v, GiveEmpty) {
      assert AllocMove(v, GiveEmpty).inUse == v.inUse + multiset{Top(v.cpu.phase.mag)};
    }
  }

  /** The magazine an allocation is served from. */
  function Source(v: View, a: AllocAction): Mag {
    if v.cpu.phase.HaveFull? then v.cpu.phase.mag
    else if a.Alloc? && v.cpu.loaded == [] then v.cpu.previous
    else v.cpu.loaded
  }

  /** An allocation is over exactly when there was a magazine to serve from or the slab gave what it had; it then
      hands out the top of that magazine, and nothing only when the slab is empty too. */
  lemma AllocationServes(v: View, a: AllocAction)
    requires ViewOk(v) && CanAlloc(v, a)
    ensures var w := AllocMove(v, a);
      && (w.cpu.phase.Idle? <==> a.GiveEmpty? || a.FillStop? || ((a.Alloc? || a.CollectStop?) && Source(v, a) != []))
      && (w.cpu.phase.Idle? && Source(v, a) != [] ==>
            w.inUse == v.inUse + multiset{Top(Source(v, a))} && w.cpu.loaded == Below(Source(v, a)))
      && (!w.cpu.phase.Idle? || Source(v, a) == [] ==> w.inUse == v.inUse)
      && (w.cpu.phase.Idle? && Source(v, a) == [] ==> a.FillStop? && v.slab == multiset{})
  {
  }

  /** A free is over exactly when the object tops the previous magazine or is on a cross-CPU list; until then it is
      in hand. */
  lemma FreeStores(v: View, a: FreeAction)
    requires ViewOk(v) && CanFree(v, a)
    ensures var w := FreeMove(v, a);
      var p := if a.Release? || a.ReleaseRemote? then a.p else v.cpu.phase.ptr;
      && (w.cpu.phase.Idle? && !a.ReleaseRemote? ==> w.cpu.previous != [] && Top(w.cpu.previous) == p)
      && (a.ReleaseRemote? ==> w.cpu == v.cpu && w.remote == v.remote + multiset{p})
      && (!w.cpu.phase.Idle? ==> (w.cpu.phase.WantEmpty? || w.cpu.phase.HaveEmpty? || w.cpu.phase.Spilling?) && w.cpu.phase.ptr == p)
      && (w.inUse == if a.Release? || a.ReleaseRemote? then v.inUse - multiset{p} else v.inUse)
  {
  }

  // ---- any number of CPUs ----

  datatype State = State(
    full: seq<Mag>, empty: seq<Mag>, slab: multiset<Ptr>, remote: multiset<Ptr>, inUse: multiset<Ptr>, cpus: seq<Cpu>)

  datatype Step = Step(cpu: nat, action: Action)

  function At(s: State, i: nat): View
    requires i < |s.cpus|
  {
    View(s.full, s.empty, s.slab, s.remote, s.inUse, s.cpus[i])
  }

  predicate Allowed(s: State, t: Step) {
    t.cpu < |s.cpus| && Enabled(At(s, t.cpu), t.action)
  }

  function Next(s: State, t: Step): State
    requires Allowed(s, t)
  {
    var v := Move(At(s, t.cpu), t.action);
    State(v.full, v.empty, v.slab, v.remote, v.inUse, s.cpus[t.cpu := v.cpu])
  }

  predicate AllowedRun(s: State, run: seq<Step>)
    decreases |run|
  {
    run == [] || (Allowed(s, run[0]) && AllowedRun(Next(s, run[0]), run[1..]))
  }

  function Run(s: State, run: seq<Step>): State
    requires AllowedRun(s, run)
    decreases |run|
  {
    if run == [] then s else Run(Next(s, run[0]), run[1..])
  }

  predicate Inv(s: State) {
    && AllFull(s.full) && AllEmpty(s.empty)
    && forall i :: 0 <= i < |s.cpus| ==> CpuOk(s.cpus[i])
  }

  function CpusOccur(cpus: seq<Cpu>, x: Ptr): nat {
    if cpus == [] then 0 else CpusOccur(Below(cpus), x) + CpuOccurs(Top(cpus), x)
  }

  function AllTaken(cpus: seq<Cpu>): nat {
    if cpus == [] then 0 else AllTaken(Below(cpus)) + Taken(Top(cpus))
  }

  /** Over every magazine, hand, slab slot and client. */
  function Places(s: State, x: Ptr): nat {
    OccursIn(s.full, x) + OccursIn(s.empty, x) + s.slab[x] + s.remote[x] + s.inUse[x] + CpusOccur(s.cpus, x)
  }

  function DepotMagazines(s: State): nat {
    |s.full| + |s.empty| + AllTaken(s.cpus)
  }

  lemma {:induction false} ReplaceCpu(cpus: seq<Cpu>, i: nat, c: Cpu, x: Ptr)
    requires i < |cpus|
    ensures CpusOccur(cpus[i := c], x) + CpuOccurs(cpus[i], x) == CpusOccur(cpus, x) + CpuOccurs(c, x)
    ensures AllTaken(cpus[i := c]) + Taken(cpus[i]) == AllTaken(cpus) + Taken(c)
    decreases |cpus|
  {
    if i == |cpus| - 1 {
      assert Below(cpus[i := c]) == Below(cpus);
    } else {
      assert Below(cpus[i := c]) == Below(cpus)[i := c];
      ReplaceCpu(Below(cpus), i, c, x);
    }
  }

  lemma NextKeeps(s: State, t: Step, x: Ptr)
    requires Inv(s) && Allowed(s, t)
    ensures Inv(Next(s, t))
    ensures Places(Next(s, t), x) == Places(s, x)
    ensures DepotMagazines(Next(s, t)) == DepotMagazines(s)
  {
    var v := At(s, t.cpu);
    MoveKeepsOk(v, t.action);
    MoveKeepsObjects(v, t.action, x);
    ReplaceCpu(s.cpus, t.cpu, Move(v, t.action).cpu, x);
  }

  /** Whatever the interleaving, objects and depot magazines are conserved and each stack holds what it claims. */
  lemma {:induction false} RunConserves(s: State, run: seq<Step>, x: Ptr)
    requires Inv(s) && AllowedRun(s, run)
    ensures Inv(Run(s, run))
    ensures Places(Run(s, run), x) == Places(s, x)
    ensures DepotMagazines(Run(s, run)) == DepotMagazines(s)
    decreases |run|
  {
    if run != [] {
      NextKeeps(s, run[0], x);
      RunConserves(Next(s, run[0]), run[1..], x);
    }
  }

  ghost predicate Start(s: State) {
    && s.full == [] && s.empty == [] && s.remote == multiset{} && s.inUse == multiset{}
    && (forall x :: s.slab[x] <= 1)
    && (forall i :: 0 <= i < |s.cpus| ==> s.cpus[i] == Cpu([], [], Idle))
  }

  lemma {:induction false} IdleCpusHoldNothing(cpus: seq<Cpu>, x: Ptr)
    requires forall i :: 0 <= i < |cpus| ==> cpus[i] == Cpu([], [], Idle)
    ensures CpusOccur(cpus, x) == 0 && AllTaken(cpus) == 0
    decreases |cpus|
  {
    if cpus != [] {
      IdleCpusHoldNothing(Below(cpus), x);
    }
  }

  /** From an idle start, each slab object is always in exactly one place, so a client's object is nowhere else. */
  lemma ExactlyOnePlace(s: State, run: seq<Step>, x: Ptr)
    requires Start(s) && AllowedRun(s, run)
    ensures Places(Run(s, run), x) == s.slab[x]
    ensures var e := Run(s, run); x in e.inUse ==>
      e.inUse[x] == 1 && e.slab[x] == 0 && e.remote[x] == 0 && OccursIn(e.full, x) == 0 && CpusOccur(e.cpus, x) == 0
  {
    IdleCpusHoldNothing(s.cpus, x);
    RunConserves(s, run, x);
  }

  lemma {:induction false} TakenAt(cpus: seq<Cpu>, i: nat)
    requires i < |cpus|
    ensures Taken(cpus[i]) <= AllTaken(cpus)
    decreases |cpus|
  {
    if i < |cpus| - 1 {
      TakenAt(Below(cpus), i);
    }
  }

  lemma NoMagazineOut(s: State, i: nat)
    requires DepotMagazines(s) == 0 && i < |s.cpus|
    ensures s.full == [] && s.empty == [] && Taken(s.cpus[i]) == 0
  {
    TakenAt(s.cpus, i);
  }

  /** A depot that starts empty stays empty: no exchange ever succeeds and no drain ever finds a magazine. */
  lemma DepotStaysEmpty(s: State, run: seq<Step>, i: nat)
    requires Start(s) && AllowedRun(s, run) && i < |Run(s, run).cpus|
    ensures var e := Run(s, run); e.full == [] && e.empty == [] && Taken(e.cpus[i]) == 0
  {
    IdleCpusHoldNothing(s.cpus, i);
    RunConserves(s, run, i);
    NoMagazineOut(Run(s, run), i);
  }
}
