/** The ordered map of memory mappings of `kernel-core/src/mm.rs`.

A tree is seen as a map from addresses to bytes: `At(tree, a)` gives the protection, flags, key and
file position of the byte at `a`. Every edit is proved to change exactly the bytes in its range. */
module VmaPieces {
  import opened Limits
  import opened Options

  datatype FileBacking = FileBacking(fd: nat, offset: nat)

  datatype MemoryMapping = MemoryMapping(
    start: nat,
    len: nat,
    prot: nat,
    flags: nat,
    fileBacking: Option<FileBacking>,
    pkey: nat)
  {
    function End(): nat {
      start + len
    }

    /** The backing of a sub-mapping that starts at `newStart`. */
    function FileBackingAt(newStart: nat): Option<FileBacking> {
      match fileBacking
      case None => None
      case Some(fb) => Some(FileBacking(fb.fd, fb.offset + SaturatingSub(newStart, start)))
    }
  }

  type Tree = map<nat, MemoryMapping>

  function SaturatingSub(a: nat, b: nat): nat {
    if a < b then 0 else a - b
  }

  // ---- a tree as a map from addresses to bytes ----

  /** What is mapped at one address; `file` is the descriptor and the position of this byte. */
  datatype Byte = Byte(prot: nat, flags: nat, file: Option<FileBacking>, pkey: nat)

  predicate Covers(m: MemoryMapping, a: nat) {
    m.start <= a < m.End()
  }

  /** A byte of a file mapping lies as far into the file as into the mapping, from the mapping's file offset on. */
  function ByteAt(m: MemoryMapping, a: nat): Byte
    requires Covers(m, a)
  {
    var file := match m.fileBacking
      case None => None
      case Some(fb) => Some(FileBacking(fb.fd, fb.offset + (a - m.start)));
    Byte(m.prot, m.flags, file, m.pkey)
  }

  predicate CoversKey(tree: Tree, k: nat, a: nat) {
    k in tree && Covers(tree[k], a)
  }

  ghost function At(tree: Tree, a: nat): Option<Byte> {
    if k: nat :| CoversKey(tree, k, a) then Some(ByteAt(tree[k], a)) else None
  }

  predicate MappingOk(m: MemoryMapping) {
    && m.len > 0
    && m.End() <= U64_MAX
    && (m.fileBacking.Some? ==> m.fileBacking.value.offset + m.len <= U64_MAX)
  }

  /** Keys are start addresses, mappings are well formed, and no two overlap. */
  ghost predicate TreeOk(tree: Tree) {
    && (forall k | k in tree :: tree[k].start == k && MappingOk(tree[k]))
    && (forall k, l | k in tree && l in tree && k < l :: tree[k].End() <= l)
  }

  lemma AtKey(tree: Tree, k: nat, a: nat)
    requires TreeOk(tree) && CoversKey(tree, k, a)
    ensures At(tree, a) == Some(ByteAt(tree[k], a))
  {
  }

  // ---- edits piece by piece ----

  /** `new` replaces every mapping `tree[k]` by the mappings `parts[k]`. */
  ghost predicate IsEdit(tree: Tree, new': Tree, parts: map<nat, Tree>) {
    parts.Keys == tree.Keys && HoldsParts(tree, new', parts) && OnlyParts(tree, new', parts)
  }

  ghost predicate HoldsParts(tree: Tree, new': Tree, parts: map<nat, Tree>)
    requires parts.Keys == tree.Keys
  {
    forall k, p | k in tree && p in parts[k] :: p in new' && new'[p] == parts[k][p]
  }

  ghost predicate OnlyParts(tree: Tree, new': Tree, parts: map<nat, Tree>)
    requires parts.Keys == tree.Keys
  {
    forall p | p in new' :: exists k :: k in tree && p in parts[k]
  }

  /** The pieces of one mapping are themselves well formed and stay inside it. */
  ghost predicate PiecesOk(m: MemoryMapping, pieces: Tree) {
    TreeOk(pieces) && forall p | p in pieces :: m.start <= p && pieces[p].End() <= m.End()
  }

  lemma PiecesOrdered(m: MemoryMapping, n: MemoryMapping, ms: Tree, ns: Tree, p: nat, q: nat)
    requires PiecesOk(m, ms) && PiecesOk(n, ns) && p in ms && q in ns && p < q
    requires m.End() <= n.start || n.End() <= m.start
    ensures ms[p].End() <= q
  {
    assert ns[q].len > 0;
  }

  lemma EditMapping(tree: Tree, new': Tree, parts: map<nat, Tree>, p: nat)
    requires IsEdit(tree, new', parts) && p in new'
    requires forall k | k in tree :: PiecesOk(tree[k], parts[k])
    ensures new'[p].start == p && MappingOk(new'[p])
  {
    var k :| k in tree && p in parts[k];
    assert PiecesOk(tree[k], parts[k]);
  }

  lemma EditOrder(tree: Tree, new': Tree, parts: map<nat, Tree>, p: nat, q: nat)
    requires TreeOk(tree) && IsEdit(tree, new', parts) && p in new' && q in new' && p < q
    requires forall k | k in tree :: PiecesOk(tree[k], parts[k])
    ensures new'[p].End() <= q
  {
    var k :| k in tree && p in parts[k];
    var l :| l in tree && q in parts[l];
    assert PiecesOk(tree[k], parts[k]);
    if k != l {
      PiecesOrdered(tree[k], tree[l], parts[k], parts[l], p, q);
    }
  }

  lemma EditKeepsOrder(tree: Tree, new': Tree, parts: map<nat, Tree>)
    requires TreeOk(tree) && IsEdit(tree, new', parts)
    requires forall k | k in tree :: PiecesOk(tree[k], parts[k])
    ensures TreeOk(new')
  {
    forall p | p in new' ensures new'[p].start == p && MappingOk(new'[p]) {
      EditMapping(tree, new', parts, p);
    }
    forall p, q | p in new' && q in new' && p < q ensures new'[p].End() <= q {
      EditOrder(tree, new', parts, p, q);
    }
  }

  /** If every mapping is replaced by pieces inside it, the new tree is well formed and the byte at an
      address is what the pieces of its old mapping say. */
  lemma EditPointwise(tree: Tree, new': Tree, parts: map<nat, Tree>)
    requires TreeOk(tree) && IsEdit(tree, new', parts)
    requires forall k | k in tree :: PiecesOk(tree[k], parts[k])
    ensures TreeOk(new')
    ensures forall k, a | CoversKey(tree, k, a) :: At(new', a) == At(parts[k], a)
    ensures forall a | At(tree, a).None? :: At(new', a).None?
  {
    EditKeepsOrder(tree, new', parts);
    forall k, a | CoversKey(tree, k, a) ensures At(new', a) == At(parts[k], a) {
      EditAtKey(tree, new', parts, k, a);
    }
    forall a | At(tree, a).None? ensures At(new', a).None? {
      if p :| CoversKey(new', p, a) {
        var k := EditOrigin(tree, new', parts, p, a);
      }
    }
  }

  /** A new mapping that covers an address comes from an old one that does. */
  lemma EditOrigin(tree: Tree, new': Tree, parts: map<nat, Tree>, p: nat, a: nat) returns (k: nat)
    requires IsEdit(tree, new', parts) && CoversKey(new', p, a)
    requires forall k | k in tree :: PiecesOk(tree[k], parts[k])
    ensures CoversKey(tree, k, a) && k in parts && p in parts[k] && CoversKey(parts[k], p, a)
  {
    k :| k in tree && p in parts[k];
    assert PiecesOk(tree[k], parts[k]);
  }

  lemma OneKey(tree: Tree, k: nat, l: nat, a: nat)
    requires TreeOk(tree) && CoversKey(tree, k, a) && CoversKey(tree, l, a)
    ensures k == l
  {
  }

  lemma EditAtKey(tree: Tree, new': Tree, parts: map<nat, Tree>, k: nat, a: nat)
    requires TreeOk(tree) && IsEdit(tree, new', parts) && TreeOk(new')
    requires forall k | k in tree :: PiecesOk(tree[k], parts[k])
    requires CoversKey(tree, k, a)
    ensures At(new', a) == At(parts[k], a)
  {
    var pieces := parts[k];
    if p :| CoversKey(new', p, a) {
      var l := EditOrigin(tree, new', parts, p, a);
      OneKey(tree, k, l, a);
      AtKey(new', p, a);
      AtKey(pieces, p, a);
    } else {
      forall p: nat ensures !CoversKey(pieces, p, a) {
        assert !CoversKey(new', p, a);
      }
    }
  }

  /** The part `[lo, hi)` of a mapping. */
  function Piece(m: MemoryMapping, lo: nat, hi: nat): MemoryMapping
    requires lo <= hi
  {
    MemoryMapping(lo, hi - lo, m.prot, m.flags, m.FileBackingAt(lo), m.pkey)
  }

  lemma PieceBytes(m: MemoryMapping, lo: nat, hi: nat)
    requires MappingOk(m) && m.start <= lo < hi <= m.End()
    ensures MappingOk(Piece(m, lo, hi))
    ensures forall a | lo <= a < hi :: ByteAt(Piece(m, lo, hi), a) == ByteAt(m, a)
  {
  }

  predicate Overlaps(m: MemoryMapping, start: nat, end: nat) {
    m.start < end && start < m.End()
  }

  predicate Contained(m: MemoryMapping, start: nat, end: nat) {
    start <= m.start && m.End() <= end
  }

  /** Insert mappings one after the other, later ones replacing earlier ones with the same start. */
  function InsertAll(tree: Tree, ms: seq<MemoryMapping>): Tree {
    if ms == [] then tree else InsertAll(tree, ms[..|ms| - 1])[ms[|ms| - 1].start := ms[|ms| - 1]]
  }

  lemma {:induction false} InsertAllSplit(tree: Tree, xs: seq<MemoryMapping>, ys: seq<MemoryMapping>)
    ensures InsertAll(tree, xs + ys) == InsertAll(tree, xs) + InsertAll(map[], ys)
    decreases |ys|
  {
    if ys == [] {
      assert xs + ys == xs;
    } else {
      var front := ys[..|ys| - 1];
      InsertAllSplit(tree, xs, front);
      assert (xs + ys)[..|xs + ys| - 1] == xs + front;
    }
  }

  /** The mappings that `pieces` makes of each listed key, in order. */
  function AllPieces(keys: seq<nat>, pieces: map<nat, seq<MemoryMapping>>): seq<MemoryMapping>
    requires forall k | k in keys :: k in pieces
  {
    if keys == [] then [] else
      var last := keys[|keys| - 1];
      AllPieces(keys[..|keys| - 1], pieces) + pieces[last]
  }

  lemma AllPiecesNext(keys: seq<nat>, i: nat, pieces: map<nat, seq<MemoryMapping>>)
    requires i < |keys| && forall k | k in keys :: k in pieces
    ensures keys[i] in keys
    ensures AllPieces(keys[..i + 1], pieces) == AllPieces(keys[..i], pieces) + pieces[keys[i]]
  {
    assert keys[..i + 1][..i] == keys[..i];
  }

  function Own(k: nat, pieces: map<nat, seq<MemoryMapping>>): Tree
    requires k in pieces
  {
    InsertAll(map[], pieces[k])
  }

  /** `acc` holds the pieces of every listed key. */
  ghost predicate HoldsAll(keys: seq<nat>, pieces: map<nat, seq<MemoryMapping>>, acc: Tree)
    requires forall k | k in keys :: k in pieces
  {
    forall k, p | k in keys && p in Own(k, pieces) :: p in acc && acc[p] == Own(k, pieces)[p]
  }

  /** `acc` holds only starts of pieces of listed keys. */
  ghost predicate HoldsOnly(keys: seq<nat>, pieces: map<nat, seq<MemoryMapping>>, acc: Tree)
    requires forall k | k in keys :: k in pieces
  {
    forall p | p in acc :: exists k :: k in keys && p in Own(k, pieces)
  }

  /** Pieces of an earlier mapping start before every piece of a later one. */
  lemma EarlierPiece(m: MemoryMapping, n: MemoryMapping, ms: Tree, ns: Tree, p: nat)
    requires PiecesOk(m, ms) && PiecesOk(n, ns) && m.End() <= n.start && p in ms
    ensures p !in ns
  {
    assert ms[p].len > 0 && ms[p].start == p;
  }

  lemma HoldsAllOneMore(tree: Tree, keys: seq<nat>, last: nat, pieces: map<nat, seq<MemoryMapping>>, acc: Tree)
    requires TreeOk(tree) && last in tree && last in pieces && PiecesOk(tree[last], Own(last, pieces))
    requires forall k | k in keys :: k in tree && k in pieces && k < last && PiecesOk(tree[k], Own(k, pieces))
    requires HoldsAll(keys, pieces, acc)
    ensures HoldsAll(keys + [last], pieces, acc + Own(last, pieces))
  {
    var own := Own(last, pieces);
    var all := acc + own;
    forall k, p | k in keys + [last] && p in Own(k, pieces) ensures p in all && all[p] == Own(k, pieces)[p] {
      if k != last {
        assert k in keys;
        EarlierPiece(tree[k], tree[last], Own(k, pieces), own, p);
      }
    }
  }

  lemma HoldsOnlyOneMore(keys: seq<nat>, last: nat, pieces: map<nat, seq<MemoryMapping>>, acc: Tree)
    requires last in pieces && forall k | k in keys :: k in pieces
    requires HoldsOnly(keys, pieces, acc)
    ensures HoldsOnly(keys + [last], pieces, acc + Own(last, pieces))
  {
    var all := acc + Own(last, pieces);
    forall p | p in all ensures exists k :: k in keys + [last] && p in Own(k, pieces) {
      if p in Own(last, pieces) {
        assert last in keys + [last];
      } else {
        var k :| k in keys && p in Own(k, pieces);
        assert k in keys + [last];
      }
    }
  }

  lemma {:induction false} AllCollected(tree: Tree, keys: seq<nat>, pieces: map<nat, seq<MemoryMapping>>)
    requires TreeOk(tree)
    requires forall k | k in keys :: k in tree && k in pieces && PiecesOk(tree[k], Own(k, pieces))
    requires forall i, j | 0 <= i < j < |keys| :: keys[i] < keys[j]
    ensures HoldsAll(keys, pieces, InsertAll(map[], AllPieces(keys, pieces)))
    ensures HoldsOnly(keys, pieces, InsertAll(map[], AllPieces(keys, pieces)))
    decreases |keys|
  {
    if keys != [] {
      var front, last := keys[..|keys| - 1], keys[|keys| - 1];
      AllCollected(tree, front, pieces);
      InsertAllSplit(map[], AllPieces(front, pieces), pieces[last]);
      HoldsAllOneMore(tree, front, last, pieces, InsertAll(map[], AllPieces(front, pieces)));
      HoldsOnlyOneMore(front, last, pieces, InsertAll(map[], AllPieces(front, pieces)));
      assert keys == front + [last];
    }
  }

  /** Either `k` was taken out and replaced by its pieces, or it stays in `base` and has none. */
  ghost predicate Replaced(base: Tree, keys: seq<nat>, pieces: map<nat, seq<MemoryMapping>>, parts: map<nat, Tree>, k: nat)
    requires k in pieces && k in parts
  {
    if k in base then pieces[k] == [] && k in parts[k] && parts[k][k] == base[k] && forall p | p in parts[k] :: p == k
    else k in keys && parts[k] == Own(k, pieces)
  }

  /** Taking mappings out of a tree leaves `base`; `pieces` go in for them. */
  ghost predicate Replacement(tree: Tree, base: Tree, keys: seq<nat>, pieces: map<nat, seq<MemoryMapping>>,
                              parts: map<nat, Tree>)
  {
    && TreeOk(tree) && base.Keys <= tree.Keys == pieces.Keys == parts.Keys
    && (forall k | k in keys :: k in tree)
    && (forall i, j | 0 <= i < j < |keys| :: keys[i] < keys[j])
    && (forall k | k in tree :: PiecesOk(tree[k], Own(k, pieces)))
    && (forall k | k in tree :: Replaced(base, keys, pieces, parts, k))
  }

  lemma NoForeignPiece(tree: Tree, base: Tree, keys: seq<nat>, pieces: map<nat, seq<MemoryMapping>>,
                       parts: map<nat, Tree>, k: nat, l: nat)
    requires Replacement(tree, base, keys, pieces, parts)
    requires k in base && l in keys
    ensures k !in Own(l, pieces)
  {
    assert Replaced(base, keys, pieces, parts, k);
    assert Own(k, pieces) == map[];
    if l != k {
      assert PiecesOk(tree[l], Own(l, pieces));
      assert tree[l].End() <= k || k < l;
    }
  }

  lemma NotCollected(tree: Tree, base: Tree, keys: seq<nat>, pieces: map<nat, seq<MemoryMapping>>,
                     parts: map<nat, Tree>, acc: Tree, k: nat)
    requires Replacement(tree, base, keys, pieces, parts) && HoldsOnly(keys, pieces, acc) && k in base
    ensures k !in acc
  {
    if k in acc {
      var l :| l in keys && k in Own(l, pieces);
      NoForeignPiece(tree, base, keys, pieces, parts, k, l);
    }
  }

  lemma ReplaceForward(base: Tree, keys: seq<nat>, pieces: map<nat, seq<MemoryMapping>>,
                       parts: map<nat, Tree>, acc: Tree, k: nat, p: nat)
    requires k in pieces && k in parts && (forall l | l in keys :: l in pieces)
    requires Replaced(base, keys, pieces, parts, k) && (k in base ==> k !in acc)
    requires HoldsAll(keys, pieces, acc) && p in parts[k]
    ensures p in base + acc && (base + acc)[p] == parts[k][p]
  {
  }

  lemma ReplaceBackward(tree: Tree, base: Tree, keys: seq<nat>, pieces: map<nat, seq<MemoryMapping>>,
                        parts: map<nat, Tree>, acc: Tree, p: nat)
    requires Replacement(tree, base, keys, pieces, parts)
    requires HoldsOnly(keys, pieces, acc)
    requires p in base + acc
    ensures exists k :: k in tree && p in parts[k]
  {
    if p in acc {
      var k :| k in keys && p in Own(k, pieces);
      assert Replaced(base, keys, pieces, parts, k);
      assert k !in base;
      assert p in parts[k];
    } else {
      assert Replaced(base, keys, pieces, parts, p);
      assert p in parts[p];
    }
  }

  lemma ReplaceHolds(tree: Tree, base: Tree, keys: seq<nat>, pieces: map<nat, seq<MemoryMapping>>,
                     parts: map<nat, Tree>, acc: Tree)
    requires Replacement(tree, base, keys, pieces, parts)
    requires HoldsAll(keys, pieces, acc) && HoldsOnly(keys, pieces, acc)
    ensures HoldsParts(tree, base + acc, parts)
  {
    forall k, p | k in tree && p in parts[k] ensures p in base + acc && (base + acc)[p] == parts[k][p] {
      if k in base {
        NotCollected(tree, base, keys, pieces, parts, acc, k);
      }
      ReplaceForward(base, keys, pieces, parts, acc, k, p);
    }
  }

  lemma ReplaceOnly(tree: Tree, base: Tree, keys: seq<nat>, pieces: map<nat, seq<MemoryMapping>>,
                    parts: map<nat, Tree>, acc: Tree)
    requires Replacement(tree, base, keys, pieces, parts)
    requires HoldsOnly(keys, pieces, acc)
    ensures OnlyParts(tree, base + acc, parts)
  {
    forall p | p in base + acc ensures exists k :: k in tree && p in parts[k] {
      ReplaceBackward(tree, base, keys, pieces, parts, acc, p);
    }
  }

  /** Taking mappings out and inserting their pieces is an edit mapping by mapping. */
  lemma ReplaceIsEdit(tree: Tree, base: Tree, keys: seq<nat>, pieces: map<nat, seq<MemoryMapping>>, parts: map<nat, Tree>)
    requires Replacement(tree, base, keys, pieces, parts)
    ensures IsEdit(tree, base + InsertAll(map[], AllPieces(keys, pieces)), parts)
  {
    AllCollected(tree, keys, pieces);
    ReplaceHolds(tree, base, keys, pieces, parts, InsertAll(map[], AllPieces(keys, pieces)));
    ReplaceOnly(tree, base, keys, pieces, parts, InsertAll(map[], AllPieces(keys, pieces)));
  }

  // ---- remove_range ----

  /** What `remove_range` keeps of a mapping. */
  function KeptPieces(m: MemoryMapping, start: nat, end: nat): seq<MemoryMapping> {
    if !Overlaps(m, start, end) || Contained(m, start, end) then []
    else if m.start < start && end < m.End() then [Piece(m, m.start, start), Piece(m, end, m.End())]
    else if m.start < start then [Piece(m, m.start, start)]
    else [Piece(m, end, m.End())]
  }

  /** What `remove_range` returns of an overlapping mapping. */
  function CutPieces(m: MemoryMapping, start: nat, end: nat): seq<MemoryMapping>
    requires start <= end
  {
    if !Overlaps(m, start, end) then []
    else if Contained(m, start, end) then [m]
    else if m.start < start && end < m.End() then [Piece(m, start, end)]
    else if m.start < start then [Piece(m, start, m.End())]
    else [Piece(m, m.start, end)]
  }

  function RemoveEdit(m: MemoryMapping, start: nat, end: nat): Tree {
    if Overlaps(m, start, end) then InsertAll(map[], KeptPieces(m, start, end)) else map[m.start := m]
  }

  lemma InsertOne(m: MemoryMapping)
    ensures InsertAll(map[], [m]) == map[m.start := m]
  {
    assert [m][..0] == [];
  }

  lemma InsertTwo(m: MemoryMapping, n: MemoryMapping)
    ensures InsertAll(map[], [m, n]) == map[m.start := m][n.start := n]
  {
    assert [m, n][..1] == [m];
    InsertOne(m);
  }

  lemma InsertThree(m: MemoryMapping, n: MemoryMapping, o: MemoryMapping)
    ensures InsertAll(map[], [m, n, o]) == map[m.start := m][n.start := n][o.start := o]
  {
    assert [m, n, o][..2] == [m, n];
    InsertTwo(m, n);
  }

  lemma RemoveEditShape(m: MemoryMapping, start: nat, end: nat)
    requires MappingOk(m) && start <= end
    ensures var r := RemoveEdit(m, start, end);
      && PiecesOk(m, r)
      && PiecesOk(m, InsertAll(map[], KeptPieces(m, start, end)))
      && (forall p | p in r :: p == m.start || p == end)
      && (m.start in r <==> m.start < start || !Overlaps(m, start, end))
      && (m.start in r ==> r[m.start] == if Overlaps(m, start, end) then Piece(m, m.start, start) else m)
      && (Overlaps(m, start, end) ==> (end in r <==> end < m.End()))
      && (Overlaps(m, start, end) && end in r ==> r[end] == Piece(m, end, m.End()))
  {
    if Overlaps(m, start, end) && !Contained(m, start, end) {
      if m.start < start { PieceBytes(m, m.start, start); InsertOne(Piece(m, m.start, start)); }
      if end < m.End() { PieceBytes(m, end, m.End()); InsertOne(Piece(m, end, m.End())); }
      if m.start < start && end < m.End() { InsertTwo(Piece(m, m.start, start), Piece(m, end, m.End())); }
    }
  }

  lemma RemoveEditAt(m: MemoryMapping, start: nat, end: nat, a: nat)
    requires MappingOk(m) && start <= end && Covers(m, a)
    ensures At(RemoveEdit(m, start, end), a) == if start <= a < end then None else Some(ByteAt(m, a))
  {
    var r := RemoveEdit(m, start, end);
    RemoveEditShape(m, start, end);
    if !(start <= a < end) {
      var p := if Overlaps(m, start, end) && end <= a then end else m.start;
      assert CoversKey(r, p, a);
      AtKey(r, p, a);
    }
  }

  lemma RemoveEditPieces(m: MemoryMapping, start: nat, end: nat)
    requires MappingOk(m) && start <= end
    ensures PiecesOk(m, RemoveEdit(m, start, end))
    ensures PiecesOk(m, InsertAll(map[], KeptPieces(m, start, end)))
    ensures forall a: nat | Covers(m, a) ::
      At(RemoveEdit(m, start, end), a) == if start <= a < end then None else Some(ByteAt(m, a))
  {
    RemoveEditShape(m, start, end);
    forall a: nat | Covers(m, a)
      ensures At(RemoveEdit(m, start, end), a) == if start <= a < end then None else Some(ByteAt(m, a)) {
      RemoveEditAt(m, start, end, a);
    }
  }

  function RemovePieces(tree: Tree, start: nat, end: nat): map<nat, seq<MemoryMapping>> {
    map k | k in tree :: KeptPieces(tree[k], start, end)
  }

  function RemoveParts(tree: Tree, start: nat, end: nat): map<nat, Tree> {
    map k | k in tree :: RemoveEdit(tree[k], start, end)
  }

  function Cuts(tree: Tree, start: nat, end: nat): map<nat, seq<MemoryMapping>>
    requires start <= end
  {
    map k | k in tree :: CutPieces(tree[k], start, end)
  }

  /** The keys of a tree below a bound, as the ordered map iterates over them. */
  ghost predicate KeysBelow(tree: Tree, bound: nat, keys: seq<nat>) {
    && (forall i, j | 0 <= i < j < |keys| :: keys[i] < keys[j])
    && (forall k :: k in keys <==> k in tree && k < bound)
  }

  lemma RemoveReplaced(tree: Tree, keys: seq<nat>, base: Tree, start: nat, end: nat, k: nat)
    requires TreeOk(tree) && start <= end && KeysBelow(tree, end, keys) && k in tree
    requires k in base <==> !Overlaps(tree[k], start, end)
    requires k in base ==> base[k] == tree[k]
    ensures Replaced(base, keys, RemovePieces(tree, start, end), RemoveParts(tree, start, end), k)
  {
    assert tree[k].start == k;
  }

  lemma RemoveIsReplacement(tree: Tree, keys: seq<nat>, base: Tree, start: nat, end: nat)
    requires TreeOk(tree) && start <= end && KeysBelow(tree, end, keys)
    requires forall k :: k in base <==> k in tree && !Overlaps(tree[k], start, end)
    requires forall k | k in base :: base[k] == tree[k]
    ensures Replacement(tree, base, keys, RemovePieces(tree, start, end), RemoveParts(tree, start, end))
    ensures forall k | k in tree :: PiecesOk(tree[k], RemoveParts(tree, start, end)[k])
  {
    var pieces, parts := RemovePieces(tree, start, end), RemoveParts(tree, start, end);
    forall k | k in tree ensures PiecesOk(tree[k], Own(k, pieces)) && PiecesOk(tree[k], parts[k]) {
      RemoveEditPieces(tree[k], start, end);
    }
    forall k | k in tree ensures Replaced(base, keys, pieces, parts, k) {
      RemoveReplaced(tree, keys, base, start, end, k);
    }
  }

  /** Taking out the overlapping mappings and inserting what is kept of them removes exactly the bytes
      of the range. */
  lemma RemovePointwise(tree: Tree, keys: seq<nat>, base: Tree, r: Tree, start: nat, end: nat)
    requires TreeOk(tree) && start <= end && KeysBelow(tree, end, keys)
    requires forall k :: k in base <==> k in tree && !Overlaps(tree[k], start, end)
    requires forall k | k in base :: base[k] == tree[k]
    requires r == base + InsertAll(map[], AllPieces(keys, RemovePieces(tree, start, end)))
    ensures TreeOk(r)
    ensures forall a: nat :: At(r, a) == if start <= a < end then None else At(tree, a)
  {
    var pieces, parts := RemovePieces(tree, start, end), RemoveParts(tree, start, end);
    RemoveIsReplacement(tree, keys, base, start, end);
    ReplaceIsEdit(tree, base, keys, pieces, parts);
    EditPointwise(tree, r, parts);
    forall a: nat ensures At(r, a) == if start <= a < end then None else At(tree, a) {
      RemoveAt(tree, r, start, end, a);
    }
  }

  lemma RemoveAt(tree: Tree, r: Tree, start: nat, end: nat, a: nat)
    requires TreeOk(tree) && start <= end
    requires forall k: nat | CoversKey(tree, k, a) :: At(r, a) == At(RemoveEdit(tree[k], start, end), a)
    requires At(tree, a).None? ==> At(r, a).None?
    ensures At(r, a) == if start <= a < end then None else At(tree, a)
  {
    if k: nat :| CoversKey(tree, k, a) {
      AtKey(tree, k, a);
      RemoveEditPieces(tree[k], start, end);
    }
  }

  /** The returned pieces lie in the range, are disjoint and ascending, and carry exactly the bytes that
      were mapped there. */
  ghost predicate Excised(tree: Tree, removed: seq<MemoryMapping>, start: nat, end: nat) {
    && (forall r | r in removed :: start <= r.start && r.End() <= end)
    && (forall i, j | 0 <= i < j < |removed| :: removed[i].End() <= removed[j].start)
    && (forall r, a: nat | r in removed && Covers(r, a) :: At(tree, a) == Some(ByteAt(r, a)))
    && (forall a: nat | start <= a < end && At(tree, a).Some? :: exists r :: r in removed && Covers(r, a))
  }

  lemma CutPiece(m: MemoryMapping, start: nat, end: nat)
    requires MappingOk(m) && start <= end
    ensures |CutPieces(m, start, end)| <= 1
    ensures forall r | r in CutPieces(m, start, end) ::
      && start <= r.start && r.End() <= end && m.start <= r.start && r.End() <= m.End()
      && forall a: nat | Covers(r, a) :: ByteAt(r, a) == ByteAt(m, a)
    ensures forall a: nat | Covers(m, a) && start <= a < end :: exists r :: r in CutPieces(m, start, end) && Covers(r, a)
  {
    if Overlaps(m, start, end) {
      var r := CutPieces(m, start, end)[0];
      assert r in CutPieces(m, start, end);
      forall a: nat | Covers(m, a) && start <= a < end ensures Covers(r, a) {
      }
    }
  }

  predicate CutFrom(tree: Tree, k: nat, start: nat, end: nat, r: MemoryMapping)
    requires start <= end
  {
    k in tree && r in CutPieces(tree[k], start, end)
  }

  /** `removed` are the cuts of the listed keys, ascending and disjoint. */
  ghost predicate OrderedCuts(tree: Tree, keys: seq<nat>, start: nat, end: nat, removed: seq<MemoryMapping>)
    requires start <= end
  {
    && (forall r | r in removed :: exists k :: k in keys && CutFrom(tree, k, start, end, r))
    && (forall k, r | k in keys && CutFrom(tree, k, start, end, r) :: r in removed)
    && (forall i, j | 0 <= i < j < |removed| :: removed[i].End() <= removed[j].start)
  }

  lemma CutBefore(tree: Tree, k: nat, l: nat, start: nat, end: nat, r: MemoryMapping, q: MemoryMapping)
    requires TreeOk(tree) && start <= end && k < l
    requires CutFrom(tree, k, start, end, r) && CutFrom(tree, l, start, end, q)
    ensures r.End() <= q.start
  {
    CutPiece(tree[k], start, end);
    CutPiece(tree[l], start, end);
  }

  lemma CutsOneMore(tree: Tree, front: seq<nat>, last: nat, start: nat, end: nat, before: seq<MemoryMapping>)
    requires TreeOk(tree) && start <= end && last in tree && forall k | k in front :: k < last
    requires OrderedCuts(tree, front, start, end, before)
    ensures OrderedCuts(tree, front + [last], start, end, before + CutPieces(tree[last], start, end))
  {
    var keys, own := front + [last], CutPieces(tree[last], start, end);
    CutPiece(tree[last], start, end);
    forall r | r in before + own ensures exists k :: k in keys && CutFrom(tree, k, start, end, r) {
      if r in before {
        var k :| k in front && CutFrom(tree, k, start, end, r);
        assert k in keys;
      } else {
        assert last in keys && CutFrom(tree, last, start, end, r);
      }
    }
    forall r, q | r in before && q in own ensures r.End() <= q.start {
      var k :| k in front && CutFrom(tree, k, start, end, r);
      CutBefore(tree, k, last, start, end, r, q);
    }
  }

  lemma {:induction false} CutsInOrder(tree: Tree, keys: seq<nat>, start: nat, end: nat)
    requires TreeOk(tree) && start <= end
    requires forall k | k in keys :: k in tree
    requires forall i, j | 0 <= i < j < |keys| :: keys[i] < keys[j]
    ensures OrderedCuts(tree, keys, start, end, AllPieces(keys, Cuts(tree, start, end)))
    decreases |keys|
  {
    if keys != [] {
      var front, last := keys[..|keys| - 1], keys[|keys| - 1];
      CutsInOrder(tree, front, start, end);
      CutsOneMore(tree, front, last, start, end, AllPieces(front, Cuts(tree, start, end)));
      assert keys == front + [last];
    }
  }

  lemma CutsExcise(tree: Tree, keys: seq<nat>, start: nat, end: nat)
    requires TreeOk(tree) && start <= end && KeysBelow(tree, end, keys)
    ensures Excised(tree, AllPieces(keys, Cuts(tree, start, end)), start, end)
  {
    var removed := AllPieces(keys, Cuts(tree, start, end));
    CutsInOrder(tree, keys, start, end);
    forall r | r in removed
      ensures start <= r.start && r.End() <= end
      ensures forall a: nat | Covers(r, a) :: At(tree, a) == Some(ByteAt(r, a)) {
      var k :| k in keys && CutFrom(tree, k, start, end, r);
      CutPiece(tree[k], start, end);
      forall a: nat | Covers(r, a) ensures At(tree, a) == Some(ByteAt(r, a)) {
        AtKey(tree, k, a);
      }
    }
    forall a: nat | start <= a < end && At(tree, a).Some? ensures exists r :: r in removed && Covers(r, a) {
      var k: nat :| CoversKey(tree, k, a);
      CutPiece(tree[k], start, end);
      assert k in keys;
      var r :| r in CutPieces(tree[k], start, end) && Covers(r, a);
      assert CutFrom(tree, k, start, end, r);
    }
  }

  // ---- update_range_prot and update_range_pkey ----

  datatype Change = SetProt(prot: nat) | SetPkey(pkey: nat) {
    function Apply(m: MemoryMapping): MemoryMapping {
      match this
      case SetProt(p) => m.(prot := p)
      case SetPkey(k) => m.(pkey := k)
    }

    function ApplyByte(b: Byte): Byte {
      match this
      case SetProt(p) => b.(prot := p)
      case SetPkey(k) => b.(pkey := k)
    }
  }

  /** The split of a mapping that overlaps the range but is not inside it. */
  function SplitPieces(m: MemoryMapping, start: nat, end: nat, c: Change): seq<MemoryMapping>
    requires start <= end
  {
    if !Overlaps(m, start, end) || Contained(m, start, end) then []
    else if m.start < start && end < m.End() then
      [Piece(m, m.start, start), c.Apply(Piece(m, start, end)), Piece(m, end, m.End())]
    else if m.start < start then [Piece(m, m.start, start), c.Apply(Piece(m, start, m.End()))]
    else [c.Apply(Piece(m, m.start, end)), Piece(m, end, m.End())]
  }

  function UpdateEdit(m: MemoryMapping, start: nat, end: nat, c: Change): Tree
    requires start <= end
  {
    if !Overlaps(m, start, end) then map[m.start := m]
    else if Contained(m, start, end) then map[m.start := c.Apply(m)]
    else InsertAll(map[], SplitPieces(m, start, end, c))
  }

  function UpdatePieces(tree: Tree, start: nat, end: nat, c: Change): map<nat, seq<MemoryMapping>>
    requires start <= end
  {
    map k | k in tree :: SplitPieces(tree[k], start, end, c)
  }

  function UpdateParts(tree: Tree, start: nat, end: nat, c: Change): map<nat, Tree>
    requires start <= end
  {
    map k | k in tree :: UpdateEdit(tree[k], start, end, c)
  }

  lemma ChangeBytes(m: MemoryMapping, c: Change)
    ensures c.Apply(m).start == m.start && c.Apply(m).len == m.len && c.Apply(m).End() == m.End()
    ensures MappingOk(m) ==> MappingOk(c.Apply(m))
    ensures forall a: nat | Covers(m, a) :: ByteAt(c.Apply(m), a) == c.ApplyByte(ByteAt(m, a))
  {
  }

  /** The byte at `a` of a split mapping. */
  ghost predicate SplitAt(m: MemoryMapping, r: Tree, start: nat, end: nat, c: Change, a: nat)
    requires Covers(m, a)
  {
    At(r, a) == Some(if start <= a < end then c.ApplyByte(ByteAt(m, a)) else ByteAt(m, a))
  }

  lemma SpanningAt(m: MemoryMapping, start: nat, end: nat, c: Change, r: Tree, a: nat)
    requires MappingOk(m) && m.start < start < end < m.End() && Covers(m, a) && TreeOk(r)
    requires r == map[m.start := Piece(m, m.start, start)][start := c.Apply(Piece(m, start, end))][end := Piece(m, end, m.End())]
    ensures SplitAt(m, r, start, end, c, a)
  {
    var p := if a < start then m.start else if a < end then start else end;
    PieceBytes(m, m.start, start);
    PieceBytes(m, start, end);
    PieceBytes(m, end, m.End());
    ChangeBytes(Piece(m, start, end), c);
    assert CoversKey(r, p, a);
    AtKey(r, p, a);
  }

  /** A mapping split in three at `start` and `end`, with the middle changed. */
  lemma SplitSpanning(m: MemoryMapping, start: nat, end: nat, c: Change)
    requires MappingOk(m) && m.start < start < end < m.End()
    ensures PiecesOk(m, InsertAll(map[], SplitPieces(m, start, end, c)))
    ensures forall a: nat | Covers(m, a) :: SplitAt(m, InsertAll(map[], SplitPieces(m, start, end, c)), start, end, c, a)
  {
    var head, middle, tail := Piece(m, m.start, start), c.Apply(Piece(m, start, end)), Piece(m, end, m.End());
    PieceBytes(m, m.start, start);
    PieceBytes(m, start, end);
    PieceBytes(m, end, m.End());
    ChangeBytes(Piece(m, start, end), c);
    InsertThree(head, middle, tail);
    var r: Tree := map[m.start := head][start := middle][end := tail];
    assert r == InsertAll(map[], SplitPieces(m, start, end, c));
    assert TreeOk(r);
    forall a: nat | Covers(m, a) ensures SplitAt(m, r, start, end, c, a) {
      SpanningAt(m, start, end, c, r, a);
    }
  }

  /** An empty range splits a mapping in two: the empty middle is overwritten by the tail. */
  lemma SplitEmpty(m: MemoryMapping, start: nat, c: Change)
    requires MappingOk(m) && m.start < start < m.End()
    ensures PiecesOk(m, InsertAll(map[], SplitPieces(m, start, start, c)))
    ensures forall a: nat | Covers(m, a) :: SplitAt(m, InsertAll(map[], SplitPieces(m, start, start, c)), start, start, c, a)
  {
    var head, middle, tail := Piece(m, m.start, start), c.Apply(Piece(m, start, start)), Piece(m, start, m.End());
    PieceBytes(m, m.start, start);
    PieceBytes(m, start, m.End());
    InsertThree(head, middle, tail);
    var r: Tree := map[m.start := head][start := tail];
    assert r == InsertAll(map[], SplitPieces(m, start, start, c));
    assert TreeOk(r);
    forall a: nat | Covers(m, a) ensures SplitAt(m, r, start, start, c, a) {
      var p := if a < start then m.start else start;
      assert CoversKey(r, p, a);
      AtKey(r, p, a);
    }
  }

  lemma SplitTail(m: MemoryMapping, start: nat, end: nat, c: Change)
    requires MappingOk(m) && m.start < start < m.End() <= end
    ensures PiecesOk(m, InsertAll(map[], SplitPieces(m, start, end, c)))
    ensures forall a: nat | Covers(m, a) :: SplitAt(m, InsertAll(map[], SplitPieces(m, start, end, c)), start, end, c, a)
  {
    var head, tail := Piece(m, m.start, start), c.Apply(Piece(m, start, m.End()));
    PieceBytes(m, m.start, start);
    PieceBytes(m, start, m.End());
    ChangeBytes(Piece(m, start, m.End()), c);
    InsertTwo(head, tail);
    var r: Tree := map[m.start := head][start := tail];
    assert r == InsertAll(map[], SplitPieces(m, start, end, c));
    assert TreeOk(r);
    forall a: nat | Covers(m, a) ensures SplitAt(m, r, start, end, c, a) {
      var p := if a < start then m.start else start;
      assert CoversKey(r, p, a);
      AtKey(r, p, a);
    }
  }

  lemma SplitHead(m: MemoryMapping, start: nat, end: nat, c: Change)
    requires MappingOk(m) && start <= m.start < end < m.End()
    ensures PiecesOk(m, InsertAll(map[], SplitPieces(m, start, end, c)))
    ensures forall a: nat | Covers(m, a) :: SplitAt(m, InsertAll(map[], SplitPieces(m, start, end, c)), start, end, c, a)
  {
    var head, tail := c.Apply(Piece(m, m.start, end)), Piece(m, end, m.End());
    PieceBytes(m, m.start, end);
    PieceBytes(m, end, m.End());
    ChangeBytes(Piece(m, m.start, end), c);
    InsertTwo(head, tail);
    var r: Tree := map[m.start := head][end := tail];
    assert r == InsertAll(map[], SplitPieces(m, start, end, c));
    assert TreeOk(r);
    forall a: nat | Covers(m, a) ensures SplitAt(m, r, start, end, c, a) {
      var p := if a < end then m.start else end;
      assert CoversKey(r, p, a);
      AtKey(r, p, a);
    }
  }

  lemma UpdateEditPieces(m: MemoryMapping, start: nat, end: nat, c: Change)
    requires MappingOk(m) && start <= end
    ensures PiecesOk(m, UpdateEdit(m, start, end, c))
    ensures PiecesOk(m, InsertAll(map[], SplitPieces(m, start, end, c)))
    ensures forall a: nat | Covers(m, a) :: SplitAt(m, UpdateEdit(m, start, end, c), start, end, c, a)
  {
    if !Overlaps(m, start, end) || Contained(m, start, end) {
      ChangeBytes(m, c);
      var r := UpdateEdit(m, start, end, c);
      forall a: nat | Covers(m, a) ensures SplitAt(m, r, start, end, c, a) {
        assert CoversKey(r, m.start, a);
        AtKey(r, m.start, a);
      }
    } else if m.start < start && end < m.End() {
      if start < end {
        SplitSpanning(m, start, end, c);
      } else {
        SplitEmpty(m, start, c);
      }
    } else if m.start < start {
      SplitTail(m, start, end, c);
    } else {
      SplitHead(m, start, end, c);
    }
  }

  function UpdateBase(tree: Tree, start: nat, end: nat, c: Change): Tree {
    map k | k in tree && (!Overlaps(tree[k], start, end) || Contained(tree[k], start, end)) ::
      if Overlaps(tree[k], start, end) then c.Apply(tree[k]) else tree[k]
  }

  lemma UpdateIsReplacement(tree: Tree, keys: seq<nat>, start: nat, end: nat, c: Change)
    requires TreeOk(tree) && start <= end && KeysBelow(tree, end, keys)
    ensures Replacement(tree, UpdateBase(tree, start, end, c), keys,
                        UpdatePieces(tree, start, end, c), UpdateParts(tree, start, end, c))
    ensures forall k | k in tree :: PiecesOk(tree[k], UpdateParts(tree, start, end, c)[k])
  {
    var base := UpdateBase(tree, start, end, c);
    var pieces, parts := UpdatePieces(tree, start, end, c), UpdateParts(tree, start, end, c);
    forall k | k in tree ensures PiecesOk(tree[k], Own(k, pieces)) && PiecesOk(tree[k], parts[k])
                         ensures Replaced(base, keys, pieces, parts, k) {
      UpdateEditPieces(tree[k], start, end, c);
    }
  }

  lemma UpdateAt(tree: Tree, r: Tree, start: nat, end: nat, c: Change, a: nat)
    requires TreeOk(tree) && start <= end
    requires forall k: nat | CoversKey(tree, k, a) :: At(r, a) == At(UpdateEdit(tree[k], start, end, c), a)
    requires At(tree, a).None? ==> At(r, a).None?
    ensures At(r, a) == ChangedAt(tree, start, end, c, a)
  {
    if k: nat :| CoversKey(tree, k, a) {
      AtKey(tree, k, a);
      UpdateEditPieces(tree[k], start, end, c);
    }
  }

  /** The byte at `a`, changed if it is mapped and in the range. */
  ghost function ChangedAt(tree: Tree, start: nat, end: nat, c: Change, a: nat): Option<Byte> {
    match At(tree, a)
    case None => None
    case Some(b) => Some(if start <= a < end then c.ApplyByte(b) else b)
  }

  /** Changing the contained mappings in place and splitting the others changes exactly the bytes of the range. */
  lemma UpdatePointwise(tree: Tree, keys: seq<nat>, r: Tree, start: nat, end: nat, c: Change)
    requires TreeOk(tree) && start <= end && KeysBelow(tree, end, keys)
    requires r == UpdateBase(tree, start, end, c) + InsertAll(map[], AllPieces(keys, UpdatePieces(tree, start, end, c)))
    ensures TreeOk(r)
    ensures forall a: nat :: At(r, a) == ChangedAt(tree, start, end, c, a)
  {
    var base := UpdateBase(tree, start, end, c);
    var pieces, parts := UpdatePieces(tree, start, end, c), UpdateParts(tree, start, end, c);
    UpdateIsReplacement(tree, keys, start, end, c);
    ReplaceIsEdit(tree, base, keys, pieces, parts);
    EditPointwise(tree, r, parts);
    forall a: nat ensures At(r, a) == ChangedAt(tree, start, end, c, a) {
      UpdateAt(tree, r, start, end, c, a);
    }
  }

  // ---- insert ----

  predicate Disjoint(m: MemoryMapping, n: MemoryMapping) {
    m.End() <= n.start || n.End() <= m.start
  }

  /** Inserting keeps the tree well formed exactly when the new mapping meets no mapping with another start. */
  lemma InsertOkIff(tree: Tree, m: MemoryMapping)
    requires TreeOk(tree) && MappingOk(m)
    ensures TreeOk(tree[m.start := m]) <==> forall k | k in tree && k != m.start :: Disjoint(tree[k], m)
  {
    var r := tree[m.start := m];
    if TreeOk(r) {
      forall k | k in tree && k != m.start ensures Disjoint(tree[k], m) {
        assert k in r && m.start in r;
      }
    }
  }

  /** Inserting into a free range adds exactly the bytes of the mapping. */
  lemma InsertPointwise(tree: Tree, m: MemoryMapping)
    requires TreeOk(tree) && MappingOk(m)
    requires forall a: nat | Covers(m, a) :: At(tree, a).None?
    ensures TreeOk(tree[m.start := m])
    ensures forall a: nat :: At(tree[m.start := m], a) == if Covers(m, a) then Some(ByteAt(m, a)) else At(tree, a)
  {
    var r := tree[m.start := m];
    forall k | k in tree ensures Disjoint(tree[k], m) {
      if !Disjoint(tree[k], m) {
        var a := if k < m.start then m.start else k;
        assert CoversKey(tree, k, a) && Covers(m, a);
      }
    }
    forall a: nat ensures At(r, a) == if Covers(m, a) then Some(ByteAt(m, a)) else At(tree, a) {
      if Covers(m, a) {
        assert CoversKey(r, m.start, a);
        AtKey(r, m.start, a);
      } else if k: nat :| CoversKey(tree, k, a) {
        assert CoversKey(r, k, a);
        AtKey(r, k, a);
        AtKey(tree, k, a);
      } else if k: nat :| CoversKey(r, k, a) {
        assert CoversKey(tree, k, a);
      }
    }
  }
}
