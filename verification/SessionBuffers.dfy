/** The encoder and decoder of `kernel-core/src/session_control.rs` as they work on buffers. */
module SessionBuffers {
  import opened Limits
  import opened Options
  import opened Seqs
  import opened SessionControl

  // ---- decoding ----

  /** With `k` entries to go in `rest`, the whole list fits exactly if they do, and starts with those read. */
  ghost predicate Pending(rest: seq<Byte>, k: nat, read: seq<Entry>, fits: bool, whole: seq<Entry>) {
    && fits == EntriesFit(rest, k)
    && (fits ==> whole == read + EntriesAt(rest, k))
  }

  lemma PendingNext(rest: seq<Byte>, k: nat, read: seq<Entry>, fits: bool, whole: seq<Entry>)
    requires k > 0 && Pending(rest, k, read, fits, whole)
    ensures EntryFits(rest) ==> Pending(rest[EntrySize(rest)..], k - 1, read + [EntryAt(rest)], fits, whole)
    ensures !EntryFits(rest) ==> !fits
  {
    if fits {
      var e, tail := EntryAt(rest), EntriesAt(rest[EntrySize(rest)..], k - 1);
      assert EntriesAt(rest, k) == [e] + tail;
      assert read + ([e] + tail) == (read + [e]) + tail;
    }
  }

  method DecodeEntries(src: seq<Byte>, count: nat) returns (es: Option<seq<Entry>>)
    requires |src| >= 2
    ensures es.Some? <==> EntriesFit(src[2..], count)
    ensures es.Some? ==> es.value == EntriesAt(src[2..], count)
  {
    ghost var fits := EntriesFit(src[2..], count);
    ghost var whole := if fits then EntriesAt(src[2..], count) else [];
    assert fits ==> whole == [] + EntriesAt(src[2..], count);
    es := ReadAll(src, count, fits, whole);
  }

  method ReadAll(src: seq<Byte>, count: nat, ghost fits: bool, ghost whole: seq<Entry>) returns (es: Option<seq<Entry>>)
    requires |src| >= 2 && Pending(src[2..], count, [], fits, whole)
    ensures es.Some? <==> fits
    ensures es.Some? ==> es.value == whole
  {
    var read: seq<Entry>, off: nat, todo: nat := [], 2, count;
    while todo > 0
      invariant 2 <= off <= |src| && Pending(src[off..], todo, read, fits, whole)
    {
      var e, next := ReadNext(src, off, todo, read, fits, whole);
      if e.None? {
        return None;
      }
      read, off, todo := read + [e.value], next, todo - 1;
    }
    NothingPending(src[off..], read, fits, whole);
    return Some(read);
  }

  lemma NothingPending(rest: seq<Byte>, read: seq<Entry>, fits: bool, whole: seq<Entry>)
    requires Pending(rest, 0, read, fits, whole)
    ensures fits && whole == read
  {
  }

  method ReadNext(src: seq<Byte>, off: nat, todo: nat, ghost read: seq<Entry>, ghost fits: bool, ghost whole: seq<Entry>)
    returns (e: Option<Entry>, next: nat)
    requires off <= |src| && todo > 0 && Pending(src[off..], todo, read, fits, whole)
    ensures e.None? ==> !fits
    ensures e.Some? ==> off < next <= |src| && Pending(src[next..], todo - 1, read + [e.value], fits, whole)
  {
    PendingNext(src[off..], todo, read, fits, whole);
    e, next := ReadEntry(src, off);
  }

  method ReadEntry(src: seq<Byte>, off: nat) returns (e: Option<Entry>, next: nat)
    requires off <= |src|
    ensures e.Some? <==> EntryFits(src[off..])
    ensures e.Some? ==> e.value == EntryAt(src[off..])
    ensures e.Some? ==> off < next <= |src| && src[next..] == src[off..][EntrySize(src[off..])..]
  {
    if |src| < off + 1 {
      return None, off;
    }
    var n: int := src[off];
    if n > MAX_NAME || |src| < off + n + 10 {
      return None, off;
    }
    ghost var here := src[off..];
    assert here[1..n + 1] == src[off + 1..off + n + 1];
    assert here[n + 2..n + 6] == src[off + n + 2..off + n + 6];
    assert here[n + 6..n + 10] == src[off + n + 6..off + n + 10];
    next := off + n + 10;
    e := Some(Entry(Pad(src[off + 1..off + n + 1], 0, MAX_NAME), n, src[off + n + 1],
                    FromLittleEndian(src[off + n + 2..off + n + 6]), FromLittleEndian(src[off + n + 6..next])));
  }

  method DecodeState(src: seq<Byte>) returns (state: Option<SessionState>)
    requires |src| >= 1
    ensures state.Some? <==> StateFits(src)
    ensures state.Some? ==> state.value == StateAt(src)
  {
    if |src| < 2 {
      return None;
    }
    if src[1] == 1 {
      return Some(Booting);
    } else if src[1] == 2 {
      return Some(Running);
    } else if src[1] == 4 {
      return Some(TextFallback);
    } else if src[1] != 3 || |src| < 3 {
      return None;
    }
    var n: int := src[2];
    if n > MAX_NAME || |src| < n + 7 {
      return None;
    }
    return Some(Recovering(PLACEHOLDER, FromLittleEndian(src[n + 3..n + 7])));
  }

  /** Accepts exactly the buffers that start with a reply, and returns that reply; `None` is a malformed request. */
  method DecodeReply(src: seq<Byte>) returns (r: Option<Reply>)
    ensures r.Some? <==> ReplyFits(src)
    ensures r.Some? ==> r.value == ReplyAt(src)
  {
    if |src| == 0 {
      return None;
    }
    if src[0] == 1 {
      var state := DecodeState(src);
      return if state.None? then None else Some(State(state.value));
    } else if src[0] == 2 {
      return Some(Ack);
    } else if |src| < 2 {
      return None;
    } else if src[0] == 3 {
      var e := ByteError(src[1]);
      return if e.None? then None else Some(Failed(e.value));
    } else if src[0] != 4 || src[1] > MAX_ENTRIES {
      return None;
    }
    var es := DecodeEntries(src, src[1]);
    return if es.None? then None else Some(ServiceStates(src[1], FillEntries(es.value)));
  }

  method DecodeVerb(src: seq<Byte>) returns (v: Option<Verb>)
    ensures v.Some? <==> VerbFits(src)
    ensures v.Some? ==> v.value == VerbAt(src)
  {
    if |src| == 0 {
      return None;
    }
    match src[0]
    case 1 => return Some(QueryState);
    case 2 => return Some(Stop);
    case 3 => return Some(Restart);
    case 4 => return Some(QueryDetailed);
    case 5 =>
      if |src| < 2 {
        return None;
      }
      var n: int := src[1];
      if n == 0 || n > MAX_NAME || |src| < 2 + n {
        return None;
      }
      return Some(RestartService(Pad(src[2..2 + n], 0, MAX_NAME), n));
    case _ => return None;
  }

  // ---- encoding ----

  /** A buffer with bytes copied to an offset and the rest left alone. */
  function Patched(s: seq<Byte>, off: nat, bytes: seq<Byte>): (t: seq<Byte>)
    requires off + |bytes| <= |s|
    ensures |t| == |s|
  {
    s[..off] + bytes + s[off + |bytes|..]
  }

  lemma PatchTwice(s: seq<Byte>, off: nat, a: seq<Byte>, b: seq<Byte>)
    requires off + |a| + |b| <= |s|
    ensures Patched(Patched(s, off, a), off + |a|, b) == Patched(s, off, a + b)
  {
  }

  method Write(dst: array<Byte>, off: nat, bytes: seq<Byte>)
    requires off + |bytes| <= dst.Length
    modifies dst
    ensures dst[..] == Patched(old(dst[..]), off, bytes)
  {
    var i := 0;
    while i < |bytes|
      invariant i <= |bytes|
      invariant forall k :: 0 <= k < i ==> dst[off + k] == bytes[k]
      invariant forall k :: 0 <= k < dst.Length && !(off <= k < off + i) ==> dst[k] == old(dst[k])
    {
      dst[off + i] := bytes[i];
      i := i + 1;
    }
  }

  /** Continues a patch: `written` bytes from `base` on are already in place. */
  method Append(dst: array<Byte>, off: nat, bytes: seq<Byte>, ghost was: seq<Byte>, ghost base: nat, ghost written: seq<Byte>)
    requires off + |bytes| <= dst.Length == |was| && off == base + |written|
    requires dst[..] == Patched(was, base, written)
    modifies dst
    ensures dst[..] == Patched(was, base, written + bytes)
  {
    Write(dst, off, bytes);
    PatchTwice(was, base, written, bytes);
  }

  lemma {:induction false} EncodeLast(es: seq<Entry>, i: nat)
    requires EntriesTyped(es) && i < |es|
    ensures EncodeEntries(es[..i + 1]) == EncodeEntries(es[..i]) + EncodeEntry(es[i])
    decreases i
  {
    if i == 0 {
      assert es[..1] == [es[0]];
    } else {
      assert es[..i + 1][1..] == es[1..][..i];
      assert es[..i][1..] == es[1..][..i - 1];
      EncodeLast(es[1..], i - 1);
    }
  }

  lemma {:induction false} PrefixFits(es: seq<Entry>, i: nat)
    requires EntriesTyped(es) && i <= |es|
    ensures |EncodeEntries(es[..i])| <= |EncodeEntries(es)|
    decreases |es| - i
  {
    if i == |es| {
      assert es[..i] == es;
    } else {
      EncodeLast(es, i);
      PrefixFits(es, i + 1);
    }
  }

  method TotalSize(es: seq<Entry>) returns (total: nat)
    requires EntriesTyped(es)
    ensures total == 2 + |EncodeEntries(es)|
  {
    total := 2;
    var i := 0;
    while i < |es|
      invariant i <= |es| && total == 2 + |EncodeEntries(es[..i])|
    {
      EncodeLast(es, i);
      total := total + 1 + Clamp(es[i].nameLen, MAX_NAME) + 1 + 4 + 4;
      i := i + 1;
    }
    assert es[..i] == es;
  }

  method EncodeEntryAt(e: Entry, dst: array<Byte>, off: nat)
    requires EntryTyped(e) && off + |EncodeEntry(e)| <= dst.Length
    modifies dst
    ensures dst[..] == Patched(old(dst[..]), off, EncodeEntry(e))
  {
    var n := Clamp(e.nameLen, MAX_NAME);
    var name := e.name[..n];
    var restarts, failures := LittleEndian(e.restartCount), LittleEndian(e.stepFailures);
    ghost var was := dst[..];
    Write(dst, off, [n]);
    Append(dst, off + 1, name, was, off, [n]);
    Append(dst, off + 1 + n, [e.stateTag], was, off, [n] + name);
    Append(dst, off + 2 + n, restarts, was, off, [n] + name + [e.stateTag]);
    Append(dst, off + 6 + n, failures, was, off, [n] + name + [e.stateTag] + restarts);
  }

  method EncodeServices(r: Reply, dst: array<Byte>) returns (n: Option<nat>)
    requires ReplyTyped(r) && r.ServiceStates?
    modifies dst
    ensures n.Some? <==> |EncodeReply(r).value| <= dst.Length
    ensures n.Some? ==> n.value == |EncodeReply(r).value|
    ensures n.Some? ==> dst[..] == Patched(old(dst[..]), 0, EncodeReply(r).value)
    ensures n.None? ==> dst[..] == old(dst[..])
  {
    var es := r.entries[..Clamp(r.entryCount, MAX_ENTRIES)];
    var total := TotalSize(es);
    if dst.Length < total {
      return None;
    }
    Write(dst, 0, [4, |es|]);
    EncodeList(es, dst, old(dst[..]), [4, |es|]);
    return Some(total);
  }

  lemma Extend(was: seq<Byte>, head: seq<Byte>, written: seq<Byte>, bytes: seq<Byte>)
    requires |head| + |written| + |bytes| <= |was|
    ensures Patched(Patched(was, 0, head + written), |head + written|, bytes) == Patched(was, 0, head + (written + bytes))
  {
    PatchTwice(was, 0, head + written, bytes);
    assert head + written + bytes == head + (written + bytes);
  }

  method EncodeList(es: seq<Entry>, dst: array<Byte>, ghost was: seq<Byte>, ghost head: seq<Byte>)
    requires EntriesTyped(es) && |head| == 2 && 2 + |EncodeEntries(es)| <= dst.Length == |was|
    requires dst[..] == Patched(was, 0, head)
    modifies dst
    ensures dst[..] == Patched(was, 0, head + EncodeEntries(es))
  {
    var off, i := 2, 0;
    assert head + EncodeEntries(es[..0]) == head;
    while i < |es|
      invariant i <= |es| && off == 2 + |EncodeEntries(es[..i])| <= dst.Length
      invariant dst[..] == Patched(was, 0, head + EncodeEntries(es[..i]))
    {
      ghost var written := EncodeEntries(es[..i]);
      EncodeLast(es, i);
      PrefixFits(es, i + 1);
      EncodeEntryAt(es[i], dst, off);
      Extend(was, head, written, EncodeEntry(es[i]));
      off := off + |EncodeEntry(es[i])|;
      i := i + 1;
    }
    assert es[..i] == es;
  }

  method EncodeState(state: SessionState, dst: array<Byte>) returns (n: Option<nat>)
    requires ReplyTyped(State(state)) && dst.Length >= 2
    modifies dst
    ensures n.Some? <==> EncodeReply(State(state)).Some? && |EncodeReply(State(state)).value| <= dst.Length
    ensures n.Some? ==> n.value == |EncodeReply(State(state)).value|
    ensures n.Some? ==> dst[..] == Patched(old(dst[..]), 0, EncodeReply(State(state)).value)
    ensures n.None? ==> dst[..] == Patched(old(dst[..]), 0, [1])
  {
    ghost var was := dst[..];
    Write(dst, 0, [1]);
    if state.Recovering? {
      var name := state.stepName;
      if |name| > MAX_NAME || dst.Length < 7 + |name| {
        return None;
      }
      var count := LittleEndian(state.retryCount);
      Append(dst, 1, [3, |name|], was, 0, [1]);
      Append(dst, 3, name, was, 0, [1] + [3, |name|]);
      Append(dst, 3 + |name|, count, was, 0, [1] + [3, |name|] + name);
      assert [1] + [3, |name|] == [1, 3, |name|];
      return Some(7 + |name|);
    }
    var tag: Byte := match state case Booting => 1 case Running => 2 case TextFallback => 4;
    Append(dst, 1, [tag], was, 0, [1]);
    assert [1] + [tag] == EncodeReply(State(state)).value;
    return Some(2);
  }

  /** Writes exactly the encoding at the front of the buffer, or fails when there is none or it does not fit. */
  method EncodeReplyInto(r: Reply, dst: array<Byte>) returns (n: Option<nat>)
    requires ReplyTyped(r)
    modifies dst
    ensures n.Some? <==> EncodeReply(r).Some? && |EncodeReply(r).value| <= dst.Length
    ensures n.Some? ==> n.value == |EncodeReply(r).value|
    ensures n.Some? ==> dst[..] == Patched(old(dst[..]), 0, EncodeReply(r).value)
    ensures n.None? && dst.Length >= 2 && r.State? ==> dst[..] == Patched(old(dst[..]), 0, [1])
    ensures n.None? && !(dst.Length >= 2 && r.State?) ==> dst[..] == old(dst[..])
  {
    if dst.Length == 0 {
      return None;
    }
    if r.ServiceStates? {
      n := EncodeServices(r, dst);
      return;
    }
    if r.Ack? {
      Write(dst, 0, [2]);
      return Some(1);
    }
    if dst.Length < 2 {
      return None;
    }
    if r.Failed? {
      Write(dst, 0, [3, ErrorByte(r.error)]);
      return Some(2);
    }
    n := EncodeState(r.state, dst);
  }

  method EncodeVerbInto(v: Verb, dst: array<Byte>) returns (n: Option<nat>)
    requires VerbTyped(v)
    modifies dst
    ensures n.Some? <==> EncodeVerb(v).Some? && |EncodeVerb(v).value| <= dst.Length
    ensures n.Some? ==> n.value == |EncodeVerb(v).value|
    ensures n.Some? ==> dst[..] == Patched(old(dst[..]), 0, EncodeVerb(v).value)
    ensures n.None? ==> dst[..] == old(dst[..])
  {
    if dst.Length == 0 {
      return None;
    }
    if v.RestartService? {
      var len: int := v.nameLen;
      if len == 0 || len > MAX_NAME || dst.Length < 2 + len {
        return None;
      }
      ghost var was := dst[..];
      Write(dst, 0, [5, len]);
      Append(dst, 2, v.name[..len], was, 0, [5, len]);
      return Some(2 + len);
    }
    var tag: Byte := match v case QueryState => 1 case Stop => 2 case Restart => 3 case QueryDetailed => 4;
    Write(dst, 0, [tag]);
    return Some(1);
  }
}
