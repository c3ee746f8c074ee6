/** `VmaTree` of `kernel-core/src/mm.rs` as it runs: loops over the ordered map fill lists of keys to
remove and mappings to insert, which are then applied. */
module VmaTrees {
  import opened Limits
  import opened Options
  import opened Sets
  import opened VmaPieces

  /** One mapping met by `remove_range`: whether it goes, what is kept of it, and what is returned. */
  method CutOne(vma: MemoryMapping, start: nat, len: nat, end: nat)
    returns (remove: bool, kept: seq<MemoryMapping>, cut: seq<MemoryMapping>)
    requires MappingOk(vma) && vma.start < end && start <= U64_MAX && end == SaturatingAdd(start, len)
    ensures remove <==> Overlaps(vma, start, end)
    ensures kept == KeptPieces(vma, start, end) && cut == CutPieces(vma, start, end)
  {
    var vmaStart := vma.start;
    var vmaEnd := SaturatingAdd(vmaStart, vma.len);
    if vmaEnd <= start {
      return false, [], [];
    }
    remove := true;
    if vmaStart >= start && vmaEnd <= end {
      kept, cut := [], [vma];
    } else if vmaStart < start && vmaEnd > end {
      kept := [
        MemoryMapping(vmaStart, start - vmaStart, vma.prot, vma.flags, vma.FileBackingAt(vmaStart), vma.pkey),
        MemoryMapping(end, vmaEnd - end, vma.prot, vma.flags, vma.FileBackingAt(end), vma.pkey)];
      cut := [MemoryMapping(start, len, vma.prot, vma.flags, vma.FileBackingAt(start), vma.pkey)];
    } else if vmaStart < start {
      kept := [MemoryMapping(vmaStart, start - vmaStart, vma.prot, vma.flags, vma.FileBackingAt(vmaStart), vma.pkey)];
      cut := [MemoryMapping(start, vmaEnd - start, vma.prot, vma.flags, vma.FileBackingAt(start), vma.pkey)];
    } else {
      kept := [MemoryMapping(end, vmaEnd - end, vma.prot, vma.flags, vma.FileBackingAt(end), vma.pkey)];
      cut := [MemoryMapping(vmaStart, end - vmaStart, vma.prot, vma.flags, vma.FileBackingAt(vmaStart), vma.pkey)];
    }
  }

  /** The scan of `remove_range`: which keys go, what goes in for them, and what is returned. */
  method ScanRemove(tree: Tree, keys: seq<nat>, start: nat, len: nat, end: nat)
    returns (toRemove: seq<nat>, toInsert: seq<MemoryMapping>, removed: seq<MemoryMapping>)
    requires TreeOk(tree) && start <= U64_MAX && end == SaturatingAdd(start, len) && KeysBelow(tree, end, keys)
    ensures forall k :: k in toRemove <==> k in tree && Overlaps(tree[k], start, end)
    ensures toInsert == AllPieces(keys, RemovePieces(tree, start, end))
    ensures removed == AllPieces(keys, Cuts(tree, start, end))
  {
    toRemove, toInsert, removed := [], [], [];
    for i := 0 to |keys|
      invariant forall k :: k in toRemove <==> k in keys[..i] && Overlaps(tree[k], start, end)
      invariant toInsert == AllPieces(keys[..i], RemovePieces(tree, start, end))
      invariant removed == AllPieces(keys[..i], Cuts(tree, start, end))
    {
      AllPiecesNext(keys, i, RemovePieces(tree, start, end));
      AllPiecesNext(keys, i, Cuts(tree, start, end));
      var remove, kept, cut := CutOne(tree[keys[i]], start, len, end);
      if remove {
        toRemove := toRemove + [keys[i]];
      }
      toInsert := toInsert + kept;
      removed := removed + cut;
    }
    assert keys[..|keys|] == keys;
  }

  /** One mapping met by `update_range_prot` or `update_range_pkey`: untouched, changed in place, or split. */
  method SplitOne(vma: MemoryMapping, start: nat, end: nat, c: Change)
    returns (hit: bool, inPlace: bool, pieces: seq<MemoryMapping>)
    requires MappingOk(vma) && vma.start < end && start <= end
    ensures hit <==> Overlaps(vma, start, end)
    ensures hit ==> (inPlace <==> Contained(vma, start, end))
    ensures pieces == SplitPieces(vma, start, end, c)
  {
    var vmaStart := vma.start;
    var vmaEnd := SaturatingAdd(vmaStart, vma.len);
    if vmaEnd <= start {
      return false, false, [];
    }
    if vmaStart >= start && vmaEnd <= end {
      return true, true, [];
    }
    hit, inPlace := true, false;
    if vmaStart < start && vmaEnd > end {
      pieces := [
        MemoryMapping(vmaStart, start - vmaStart, vma.prot, vma.flags, vma.FileBackingAt(vmaStart), vma.pkey),
        c.Apply(MemoryMapping(start, end - start, vma.prot, vma.flags, vma.FileBackingAt(start), vma.pkey)),
        MemoryMapping(end, vmaEnd - end, vma.prot, vma.flags, vma.FileBackingAt(end), vma.pkey)];
    } else if vmaStart < start {
      pieces := [
        MemoryMapping(vmaStart, start - vmaStart, vma.prot, vma.flags, vma.FileBackingAt(vmaStart), vma.pkey),
        c.Apply(MemoryMapping(start, vmaEnd - start, vma.prot, vma.flags, vma.FileBackingAt(start), vma.pkey))];
    } else {
      pieces := [
        c.Apply(MemoryMapping(vmaStart, end - vmaStart, vma.prot, vma.flags, vma.FileBackingAt(vmaStart), vma.pkey)),
        MemoryMapping(end, vmaEnd - end, vma.prot, vma.flags, vma.FileBackingAt(end), vma.pkey)];
    }
  }

  /** A key to take out, and whether to put its mapping back changed. */
  datatype Removal = Removal(key: nat, inPlace: bool, original: MemoryMapping)

  ghost predicate RemovalOk(tree: Tree, start: nat, end: nat, r: Removal) {
    && r.key in tree && r.original == tree[r.key] && Overlaps(r.original, start, end)
    && (r.inPlace <==> Contained(r.original, start, end))
  }

  function RemovedKeys(rs: seq<Removal>): set<nat> {
    if rs == [] then {} else RemovedKeys(rs[..|rs| - 1]) + {rs[|rs| - 1].key}
  }

  lemma RemovedKeysAppend(rs: seq<Removal>, r: Removal)
    ensures RemovedKeys(rs + [r]) == RemovedKeys(rs) + {r.key}
  {
    assert (rs + [r])[..|rs|] == rs;
  }

  lemma RemovedKeysNext(rs: seq<Removal>, i: nat)
    requires i < |rs|
    ensures RemovedKeys(rs[..i + 1]) == RemovedKeys(rs[..i]) + {rs[i].key}
  {
    assert rs[..i + 1][..i] == rs[..i];
  }

  /** `cur` is `tree` with the overlapping keys in `done` dealt with. */
  ghost predicate Partly(tree: Tree, cur: Tree, done: set<nat>, start: nat, end: nat, c: Change) {
    && (forall k | k in done :: k in tree && Overlaps(tree[k], start, end))
    && (forall k :: k in cur <==> k in tree && (k in done ==> Contained(tree[k], start, end)))
    && (forall k | k in cur :: cur[k] == if k in done then c.Apply(tree[k]) else tree[k])
  }

  lemma PartlyStep(tree: Tree, cur: Tree, done: set<nat>, start: nat, end: nat, c: Change, r: Removal)
    requires Partly(tree, cur, done, start, end, c) && RemovalOk(tree, start, end, r)
    ensures Partly(tree, if r.inPlace then (cur - {r.key})[r.key := c.Apply(r.original)] else cur - {r.key},
                   done + {r.key}, start, end, c)
  {
  }

  lemma PartlyAll(tree: Tree, cur: Tree, done: set<nat>, start: nat, end: nat, c: Change)
    requires Partly(tree, cur, done, start, end, c)
    requires forall k | k in tree && Overlaps(tree[k], start, end) :: k in done
    ensures cur == UpdateBase(tree, start, end, c)
  {
  }

  /** The keys that the update takes out, in order. */
  function Removals(tree: Tree, keys: seq<nat>, start: nat, end: nat): seq<Removal>
    requires forall k | k in keys :: k in tree
  {
    if keys == [] then [] else
      var k := keys[|keys| - 1];
      Removals(tree, keys[..|keys| - 1], start, end) +
        if Overlaps(tree[k], start, end) then [Removal(k, Contained(tree[k], start, end), tree[k])] else []
  }

  lemma {:induction false} RemovalsExact(tree: Tree, keys: seq<nat>, start: nat, end: nat)
    requires forall k | k in keys :: k in tree
    ensures forall r | r in Removals(tree, keys, start, end) :: RemovalOk(tree, start, end, r)
    ensures forall k | k in keys && Overlaps(tree[k], start, end) :: k in RemovedKeys(Removals(tree, keys, start, end))
    decreases |keys|
  {
    if keys != [] {
      var k, front := keys[|keys| - 1], keys[..|keys| - 1];
      RemovalsExact(tree, front, start, end);
      assert keys == front + [k];
      if Overlaps(tree[k], start, end) {
        RemovedKeysAppend(Removals(tree, front, start, end), Removal(k, Contained(tree[k], start, end), tree[k]));
      } else {
        assert Removals(tree, keys, start, end) == Removals(tree, front, start, end);
      }
    }
  }

  method ScanUpdate(tree: Tree, keys: seq<nat>, start: nat, end: nat, c: Change)
    returns (toRemove: seq<Removal>, toInsert: seq<MemoryMapping>)
    requires TreeOk(tree) && start <= end && KeysBelow(tree, end, keys)
    ensures toRemove == Removals(tree, keys, start, end)
    ensures toInsert == AllPieces(keys, UpdatePieces(tree, start, end, c))
  {
    toRemove, toInsert := [], [];
    for i := 0 to |keys|
      invariant toRemove == Removals(tree, keys[..i], start, end)
      invariant toInsert == AllPieces(keys[..i], UpdatePieces(tree, start, end, c))
    {
      AllPiecesNext(keys, i, UpdatePieces(tree, start, end, c));
      assert keys[..i + 1][..i] == keys[..i];
      var hit, inPlace, pieces := SplitOne(tree[keys[i]], start, end, c);
      if hit {
        toRemove := toRemove + [Removal(keys[i], inPlace, tree[keys[i]])];
      }
      toInsert := toInsert + pieces;
    }
    assert keys[..|keys|] == keys;
  }

  class VmaTree {
    var tree: Tree

    ghost predicate Valid()
      reads this
    {
      TreeOk(tree)
    }

    constructor ()
      ensures Valid() && tree == map[]
    {
      tree := map[];
    }

    /** The keys below `bound` in ascending order, as `BTreeMap::range(..bound)` visits them. */
    method RangeBelow(bound: nat) returns (keys: seq<nat>)
      ensures KeysBelow(tree, bound, keys)
    {
      keys := [];
      var rest := set k | k in tree && k < bound;
      while rest != {}
        invariant forall i, j | 0 <= i < j < |keys| :: keys[i] < keys[j]
        invariant forall i, l | 0 <= i < |keys| && l in rest :: keys[i] < l
        invariant forall k :: k in keys || k in rest <==> k in tree && k < bound
        decreases |rest|
      {
        ghost var least := Least(rest);
        var k :| k in rest && forall l | l in rest :: k <= l;
        keys := keys + [k];
        rest := rest - {k};
      }
    }

    /** The mapping that holds `addr`: the last one that starts at or below it, if it reaches it. */
    method FindContaining(addr: nat) returns (r: Option<MemoryMapping>)
      requires Valid()
      ensures r.Some? ==> r.value.start in tree && tree[r.value.start] == r.value && Covers(r.value, addr)
      ensures (match r case None => None case Some(m) => Some(ByteAt(m, addr))) == At(tree, addr)
    {
      var keys := RangeBelow(addr + 1);
      if keys == [] {
        return None;
      }
      var last := keys[|keys| - 1];
      assert last in keys;
      var vma := tree[last];
      if addr < SaturatingAdd(vma.start, vma.len) {
        AtKey(tree, last, addr);
        return Some(vma);
      }
      forall k: nat ensures !CoversKey(tree, k, addr) {
        if k in tree && k <= addr {
          assert k in keys;
        }
      }
      r := None;
    }

    /** Replaces a mapping with the same start; disjointness is the caller's business, and holds exactly if no
        other mapping meets the new one. Into unmapped space it adds exactly the new addresses. */
    method Insert(mapping: MemoryMapping)
      modifies this
      ensures tree == old(tree)[mapping.start := mapping]
      ensures old(Valid()) && MappingOk(mapping) ==>
        (Valid() <==> forall k | k in old(tree) && k != mapping.start :: Disjoint(old(tree)[k], mapping))
      ensures old(Valid()) && MappingOk(mapping) && (forall a: nat | Covers(mapping, a) :: At(old(tree), a).None?) ==>
        && Valid()
        && forall a: nat :: At(tree, a) == if Covers(mapping, a) then Some(ByteAt(mapping, a)) else At(old(tree), a)
    {
      if Valid() && MappingOk(mapping) {
        InsertOkIff(tree, mapping);
        if forall a: nat | Covers(mapping, a) :: At(tree, a).None? {
          InsertPointwise(tree, mapping);
        }
      }
      tree := tree[mapping.start := mapping];
    }

    /** `toRemove` and then `toInsert` applied to the tree; `base` is what stays in between. */
    method Apply(toRemove: seq<nat>, toInsert: seq<MemoryMapping>) returns (ghost base: Tree)
      modifies this
      ensures forall k :: k in base <==> k in old(tree) && k !in toRemove
      ensures forall k | k in base :: base[k] == old(tree)[k]
      ensures tree == base + InsertAll(map[], toInsert)
    {
      for i := 0 to |toRemove|
        invariant forall k :: k in tree <==> k in old(tree) && k !in toRemove[..i]
        invariant forall k | k in tree :: tree[k] == old(tree)[k]
      {
        tree := tree - {toRemove[i]};
      }
      base := tree;
      InsertEach(toInsert);
    }

    method InsertEach(toInsert: seq<MemoryMapping>)
      modifies this
      ensures tree == old(tree) + InsertAll(map[], toInsert)
    {
      for i := 0 to |toInsert|
        invariant tree == InsertAll(old(tree), toInsert[..i])
      {
        assert toInsert[..i + 1][..i] == toInsert[..i];
        tree := tree[toInsert[i].start := toInsert[i]];
      }
      assert toInsert[..|toInsert|] == toInsert == [] + toInsert;
      InsertAllSplit(old(tree), [], toInsert);
    }

    /** Unmap `[start, start + len)` and return what was mapped there. */
    method RemoveRange(start: nat, len: nat) returns (removed: seq<MemoryMapping>)
      requires Valid() && start <= U64_MAX && len <= U64_MAX
      modifies this
      ensures Valid()
      ensures forall a: nat :: At(tree, a) == if start <= a < start + len then None else At(old(tree), a)
      ensures Excised(old(tree), removed, start, start + len)
    {
      var end := SaturatingAdd(start, len);
      var keys := RangeBelow(end);
      var toRemove, toInsert, cut := ScanRemove(tree, keys, start, len, end);
      removed := cut;
      ghost var base := Apply(toRemove, toInsert);
      RemoveApplied(old(tree), base, tree, keys, start, len, end);
    }

    /** Take out every listed key, putting the contained mappings back changed. */
    method ApplyRemovals(toRemove: seq<Removal>, ghost start: nat, ghost end: nat, c: Change)
      requires Valid()
      requires forall r | r in toRemove :: RemovalOk(tree, start, end, r)
      requires forall k | k in tree && Overlaps(tree[k], start, end) :: k in RemovedKeys(toRemove)
      modifies this
      ensures tree == UpdateBase(old(tree), start, end, c)
    {
      for i := 0 to |toRemove|
        invariant Partly(old(tree), tree, RemovedKeys(toRemove[..i]), start, end, c)
      {
        var r := toRemove[i];
        PartlyStep(old(tree), tree, RemovedKeys(toRemove[..i]), start, end, c, r);
        RemovedKeysNext(toRemove, i);
        tree := tree - {r.key};
        if r.inPlace {
          tree := tree[r.key := c.Apply(r.original)];
        }
      }
      assert toRemove[..|toRemove|] == toRemove;
      PartlyAll(old(tree), tree, RemovedKeys(toRemove), start, end, c);
    }

    /** Change protection or key of `[start, start + len)`, splitting mappings at the boundaries. */
    method UpdateRange(start: nat, len: nat, c: Change)
      requires Valid() && start <= U64_MAX && len <= U64_MAX
      modifies this
      ensures Valid()
      ensures forall a: nat :: At(tree, a) == ChangedAt(old(tree), start, start + len, c, a)
    {
      var end := SaturatingAdd(start, len);
      var keys := RangeBelow(end);
      var toRemove, toInsert := ScanUpdate(tree, keys, start, end, c);
      RemovalsExact(tree, keys, start, end);
      ApplyRemovals(toRemove, start, end, c);
      InsertEach(toInsert);
      UpdateApplied(old(tree), tree, keys, start, len, end, c);
    }

    method UpdateRangeProt(start: nat, len: nat, prot: nat)
      requires Valid() && start <= U64_MAX && len <= U64_MAX
      modifies this
      ensures Valid()
      ensures forall a: nat :: At(tree, a) == match At(old(tree), a)
                                              case None => None
                                              case Some(b) => Some(if start <= a < start + len then b.(prot := prot) else b)
    {
      UpdateRange(start, len, SetProt(prot));
    }

    method UpdateRangePkey(start: nat, len: nat, pkey: nat)
      requires Valid() && start <= U64_MAX && len <= U64_MAX
      modifies this
      ensures Valid()
      ensures forall a: nat :: At(tree, a) == match At(old(tree), a)
                                              case None => None
                                              case Some(b) => Some(if start <= a < start + len then b.(pkey := pkey) else b)
    {
      UpdateRange(start, len, SetPkey(pkey));
    }

    /** A fixed mapping: clear the range, then insert. */
    method MapFixed(mapping: MemoryMapping)
      requires Valid() && MappingOk(mapping)
      modifies this
      ensures Valid()
      ensures forall a: nat :: At(tree, a) == if Covers(mapping, a) then Some(ByteAt(mapping, a)) else At(old(tree), a)
    {
      var _ := RemoveRange(mapping.start, mapping.len);
      InsertPointwise(tree, mapping);
      Insert(mapping);
    }
  }

  lemma UpdateApplied(tree: Tree, new': Tree, keys: seq<nat>, start: nat, len: nat, end: nat, c: Change)
    requires TreeOk(tree) && start <= U64_MAX && end == SaturatingAdd(start, len) && KeysBelow(tree, end, keys)
    requires new' == UpdateBase(tree, start, end, c) + InsertAll(map[], AllPieces(keys, UpdatePieces(tree, start, end, c)))
    ensures TreeOk(new')
    ensures forall a: nat :: At(new', a) == ChangedAt(tree, start, start + len, c, a)
  {
    UpdatePointwise(tree, keys, new', start, end, c);
    forall a: nat | At(tree, a).Some? ensures a < U64_MAX {
      BelowMax(tree, a);
    }
  }

  /** What the applied removal means, in terms of the requested range. */
  lemma RemoveApplied(tree: Tree, base: Tree, new': Tree, keys: seq<nat>, start: nat, len: nat, end: nat)
    requires TreeOk(tree) && start <= U64_MAX && end == SaturatingAdd(start, len) && KeysBelow(tree, end, keys)
    requires forall k :: k in base <==> k in tree && !Overlaps(tree[k], start, end)
    requires forall k | k in base :: base[k] == tree[k]
    requires new' == base + InsertAll(map[], AllPieces(keys, RemovePieces(tree, start, end)))
    ensures TreeOk(new')
    ensures forall a: nat :: At(new', a) == if start <= a < start + len then None else At(tree, a)
    ensures Excised(tree, AllPieces(keys, Cuts(tree, start, end)), start, start + len)
  {
    RemovePointwise(tree, keys, base, new', start, end);
    CutsExcise(tree, keys, start, end);
    forall a: nat | At(tree, a).Some? ensures a < U64_MAX {
      BelowMax(tree, a);
    }
  }

  /** No mapping reaches the last address. */
  lemma BelowMax(tree: Tree, a: nat)
    requires TreeOk(tree) && At(tree, a).Some?
    ensures a < U64_MAX
  {
    var k: nat :| CoversKey(tree, k, a);
  }
}
