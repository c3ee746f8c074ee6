/** The control-socket codec of `kernel-core/src/session_control.rs`. */
module SessionControl {
  import opened Limits
  import opened Options
  import opened Seqs

  type Byte = x: int | 0 <= x < 256

  const MAX_NAME: nat := 32
  const MAX_ENTRIES: nat := 8

  datatype SessionState = Booting | Running | Recovering(stepName: seq<Byte>, retryCount: nat) | TextFallback

  datatype ControlError = CapabilityMissing | MalformedRequest | Internal

  /** The name buffer always has `MAX_NAME` bytes, of which the first `nameLen` are the name. */
  datatype Entry = Entry(name: seq<Byte>, nameLen: Byte, stateTag: Byte, restartCount: nat, stepFailures: nat)

  datatype Reply =
    | State(state: SessionState)
    | Ack
    | Failed(error: ControlError)
    | ServiceStates(entryCount: Byte, entries: seq<Entry>)

  datatype Verb = QueryState | Stop | Restart | QueryDetailed | RestartService(name: seq<Byte>, nameLen: Byte)

  predicate EntryTyped(e: Entry) {
    |e.name| == MAX_NAME && e.restartCount <= U32_MAX && e.stepFailures <= U32_MAX
  }

  predicate EntriesTyped(es: seq<Entry>) {
    forall i :: 0 <= i < |es| ==> EntryTyped(es[i])
  }

  predicate ReplyTyped(r: Reply) {
    match r
    case State(Recovering(_, count)) => count <= U32_MAX
    case ServiceStates(_, es) => |es| == MAX_ENTRIES && EntriesTyped(es)
    case _ => true
  }

  predicate VerbTyped(v: Verb) {
    v.RestartService? ==> |v.name| == MAX_NAME
  }

  // ---- pieces ----

  function LittleEndian(n: nat): (bytes: seq<Byte>)
    requires n <= U32_MAX
    ensures |bytes| == 4
  {
    [n % 256, n / 256 % 256, n / 65536 % 256, n / 16777216]
  }

  function FromLittleEndian(bytes: seq<Byte>): (n: nat)
    requires |bytes| == 4
    ensures n <= U32_MAX
  {
    var b0: int, b1: int, b2: int, b3: int := bytes[0], bytes[1], bytes[2], bytes[3];
    b0 + 256 * (b1 + 256 * (b2 + 256 * b3))
  }

  /** Least significant byte first. */
  lemma LowByteFirst(n: nat)
    requires n <= U32_MAX
    ensures var b := LittleEndian(n);
      n == b[0] as int + 0x100 * (b[1] as int) + 0x1_0000 * (b[2] as int) + 0x100_0000 * (b[3] as int)
  {
    assert n / 65536 == n / 256 / 256;
    assert n / 16777216 == n / 65536 / 256;
  }

  lemma NumberSurvives(n: nat)
    requires n <= U32_MAX
    ensures FromLittleEndian(LittleEndian(n)) == n
  {
    assert n / 65536 == n / 256 / 256;
    assert n / 16777216 == n / 65536 / 256;
  }

  lemma LowByte(low: int, high: int)
    requires 0 <= low < 256
    ensures (low + 256 * high) % 256 == low && (low + 256 * high) / 256 == high
  {
  }

  lemma BytesSurvive(bytes: seq<Byte>)
    requires |bytes| == 4
    ensures LittleEndian(FromLittleEndian(bytes)) == bytes
  {
    var b0: int, b1: int, b2: int, b3: int := bytes[0], bytes[1], bytes[2], bytes[3];
    var n := FromLittleEndian(bytes);
    LowByte(b2, b3);
    LowByte(b1, b2 + 256 * b3);
    LowByte(b0, b1 + 256 * (b2 + 256 * b3));
    assert n / 65536 == n / 256 / 256;
    assert n / 16777216 == n / 65536 / 256;
  }

  function EmptyEntry(): Entry {
    Entry(Repeat(0, MAX_NAME), 0, 0, 0, 0)
  }

  // ---- service entries ----

  function ShortName(e: Entry): (name: seq<Byte>)
    requires EntryTyped(e)
    ensures |name| == Clamp(e.nameLen, MAX_NAME)
  {
    e.name[..Clamp(e.nameLen, MAX_NAME)]
  }

  function EncodeEntry(e: Entry): seq<Byte>
    requires EntryTyped(e)
  {
    [|ShortName(e)|] + ShortName(e) + [e.stateTag] + LittleEndian(e.restartCount) + LittleEndian(e.stepFailures)
  }

  /** Length, name, state, restarts, failures, in this order and with nothing between. */
  lemma EntryLayout(e: Entry)
    requires EntryTyped(e)
    ensures var b, n := EncodeEntry(e), Clamp(e.nameLen, MAX_NAME);
      && |b| == n + 10 && b[0] == n && b[1..n + 1] == e.name[..n] && b[n + 1] == e.stateTag
      && b[n + 2..n + 6] == LittleEndian(e.restartCount) && b[n + 6..n + 10] == LittleEndian(e.stepFailures)
  {
  }

  function EncodeEntries(es: seq<Entry>): seq<Byte>
    requires EntriesTyped(es)
  {
    if es == [] then [] else EncodeEntry(es[0]) + EncodeEntries(es[1..])
  }

  /** An entry starts here: its length byte is legal and all its bytes are present. */
  predicate EntryFits(src: seq<Byte>) {
    |src| >= 1 && src[0] <= MAX_NAME && |src| >= EntrySize(src)
  }

  function EntrySize(src: seq<Byte>): nat
    requires |src| >= 1
  {
    src[0] as int + 10
  }

  function EntryAt(src: seq<Byte>): (e: Entry)
    requires EntryFits(src)
    ensures EntryTyped(e)
  {
    var n: int := src[0];
    Entry(Pad(src[1..n + 1], 0, MAX_NAME), n, src[n + 1], FromLittleEndian(src[n + 2..n + 6]), FromLittleEndian(src[n + 6..n + 10]))
  }

  predicate EntriesFit(src: seq<Byte>, count: nat)
    decreases count
  {
    count == 0 || (EntryFits(src) && EntriesFit(src[EntrySize(src)..], count - 1))
  }

  function EntriesSize(src: seq<Byte>, count: nat): (n: nat)
    requires EntriesFit(src, count)
    ensures n <= |src|
    decreases count
  {
    if count == 0 then 0 else EntrySize(src) + EntriesSize(src[EntrySize(src)..], count - 1)
  }

  function EntriesAt(src: seq<Byte>, count: nat): (es: seq<Entry>)
    requires EntriesFit(src, count)
    ensures |es| == count && EntriesTyped(es)
    decreases count
  {
    if count == 0 then [] else [EntryAt(src)] + EntriesAt(src[EntrySize(src)..], count - 1)
  }

  /** The entry as the wire can carry it: length clamped, unused bytes zero. */
  function Canon(e: Entry): Entry
    requires EntryTyped(e)
  {
    e.(name := Pad(ShortName(e), 0, MAX_NAME), nameLen := |ShortName(e)|)
  }

  function CanonEach(es: seq<Entry>): seq<Entry>
    requires EntriesTyped(es)
  {
    if es == [] then [] else [Canon(es[0])] + CanonEach(es[1..])
  }

  lemma EntryRoundTrip(e: Entry, tail: seq<Byte>)
    requires EntryTyped(e)
    ensures var src := EncodeEntry(e) + tail;
      EntryFits(src) && EntrySize(src) == |EncodeEntry(e)| && EntryAt(src) == Canon(e)
  {
    var src := EncodeEntry(e) + tail;
    var n := |ShortName(e)|;
    assert src[0] == n;
    assert src[1..n + 1] == ShortName(e);
    assert src[n + 1] == e.stateTag;
    assert src[n + 2..n + 6] == LittleEndian(e.restartCount);
    assert src[n + 6..n + 10] == LittleEndian(e.stepFailures);
    NumberSurvives(e.restartCount);
    NumberSurvives(e.stepFailures);
  }

  /** The first `size` bytes read as these entries. */
  predicate Reads(src: seq<Byte>, size: nat, es: seq<Entry>) {
    EntriesFit(src, |es|) && EntriesSize(src, |es|) == size && EntriesAt(src, |es|) == es
  }

  /** Reading past an encoded entry continues with what follows it. */
  lemma EntryThenRest(e: Entry, rest: seq<Byte>, size: nat, es: seq<Entry>)
    requires EntryTyped(e) && Reads(rest, size, es)
    ensures Reads(EncodeEntry(e) + rest, |EncodeEntry(e)| + size, [Canon(e)] + es)
  {
    EntryRoundTrip(e, rest);
    assert (EncodeEntry(e) + rest)[|EncodeEntry(e)|..] == rest;
  }

  /** Reading a list entry by entry takes apart what encoding put together. */
  lemma {:induction false} EntriesRoundTrip(es: seq<Entry>, tail: seq<Byte>)
    requires EntriesTyped(es)
    ensures |CanonEach(es)| == |es| && Reads(EncodeEntries(es) + tail, |EncodeEntries(es)|, CanonEach(es))
    decreases |es|
  {
    if es != [] {
      EntriesRoundTrip(es[1..], tail);
      EntryThenRest(es[0], EncodeEntries(es[1..]) + tail, |EncodeEntries(es[1..])|, CanonEach(es[1..]));
      Regroup(EncodeEntry(es[0]), EncodeEntries(es[1..]), tail);
    }
  }

  lemma EntryExtends(src: seq<Byte>, tail: seq<Byte>)
    requires EntryFits(src)
    ensures EntryFits(src + tail) && EntrySize(src + tail) == EntrySize(src) && EntryAt(src + tail) == EntryAt(src)
  {
    var all := src + tail;
    var n: int := src[0];
    assert all[0] == src[0] && all[n + 1] == src[n + 1];
    assert all[1..n + 1] == src[1..n + 1];
    assert all[n + 2..n + 6] == src[n + 2..n + 6];
    assert all[n + 6..n + 10] == src[n + 6..n + 10];
  }

  lemma {:induction false} EntriesExtend(src: seq<Byte>, count: nat, tail: seq<Byte>)
    requires EntriesFit(src, count)
    ensures EntriesFit(src + tail, count)
    ensures EntriesSize(src + tail, count) == EntriesSize(src, count)
    ensures EntriesAt(src + tail, count) == EntriesAt(src, count)
    decreases count
  {
    if count > 0 {
      EntryExtends(src, tail);
      var u := EntrySize(src);
      assert (src + tail)[u..] == src[u..] + tail;
      EntriesExtend(src[u..], count - 1, tail);
    }
  }

  lemma EntryReencodes(src: seq<Byte>)
    requires EntryFits(src)
    ensures EncodeEntry(EntryAt(src)) == src[..EntrySize(src)]
  {
    var n: int := src[0];
    assert ShortName(EntryAt(src)) == src[1..n + 1];
    BytesSurvive(src[n + 2..n + 6]);
    BytesSurvive(src[n + 6..n + 10]);
    assert src[..n + 10] == [src[0]] + src[1..n + 1] + [src[n + 1]] + src[n + 2..n + 6] + src[n + 6..n + 10];
  }

  lemma Regroup(a: seq<Byte>, b: seq<Byte>, c: seq<Byte>)
    ensures (a + b) + c == a + (b + c)
  {
  }

  lemma EncodeFirst(e: Entry, es: seq<Entry>)
    requires EntryTyped(e) && EntriesTyped(es)
    ensures EncodeEntries([e] + es) == EncodeEntry(e) + EncodeEntries(es)
  {
    assert ([e] + es)[1..] == es;
  }

  lemma Rejoin(src: seq<Byte>, u: nat, v: nat)
    requires u + v <= |src|
    ensures src[..u] + src[u..][..v] == src[..u + v]
  {
  }

  lemma EntryThenReencode(src: seq<Byte>, rest: seq<Entry>, v: nat)
    requires EntryFits(src) && EntriesTyped(rest) && EntrySize(src) + v <= |src|
    requires EncodeEntries(rest) == src[EntrySize(src)..][..v]
    ensures EncodeEntries([EntryAt(src)] + rest) == src[..EntrySize(src) + v]
  {
    EntryReencodes(src);
    EncodeFirst(EntryAt(src), rest);
    Rejoin(src, EntrySize(src), v);
  }

  lemma {:induction false} EntriesReencode(src: seq<Byte>, count: nat)
    requires EntriesFit(src, count)
    ensures EncodeEntries(EntriesAt(src, count)) == src[..EntriesSize(src, count)]
    decreases count
  {
    if count == 0 {
      assert EncodeEntries(EntriesAt(src, count)) == [];
    } else {
      var u := EntrySize(src);
      EntriesReencode(src[u..], count - 1);
      var rest, v := EntriesAt(src[u..], count - 1), EntriesSize(src[u..], count - 1);
      assert EntriesAt(src, count) == [EntryAt(src)] + rest && EntriesSize(src, count) == u + v;
      EntryThenReencode(src, rest, v);
    }
  }

  // ---- replies ----

  function ErrorByte(e: ControlError): Byte {
    match e
    case CapabilityMissing => 1
    case MalformedRequest => 2
    case Internal => 3
  }

  function ByteError(b: Byte): (e: Option<ControlError>)
    ensures e.Some? ==> ErrorByte(e.value) == b
    ensures e.None? ==> forall x :: ErrorByte(x) != b
  {
    if b == 1 then Some(CapabilityMissing)
    else if b == 2 then Some(MalformedRequest)
    else if b == 3 then Some(Internal)
    else None
  }

  /** "<recovering>" in ASCII. */
  const PLACEHOLDER: seq<Byte> := [60, 114, 101, 99, 111, 118, 101, 114, 105, 110, 103, 62]

  function Kept(r: Reply): (es: seq<Entry>)
    requires ReplyTyped(r) && r.ServiceStates?
    ensures EntriesTyped(es) && |es| <= MAX_ENTRIES
  {
    r.entries[..Clamp(r.entryCount, MAX_ENTRIES)]
  }

  /** The bytes of a reply; `None` where the encoder refuses it whatever the buffer. */
  function EncodeReply(r: Reply): Option<seq<Byte>>
    requires ReplyTyped(r)
  {
    match r
    case State(Booting) => Some([1, 1])
    case State(Running) => Some([1, 2])
    case State(TextFallback) => Some([1, 4])
    case State(Recovering(name, count)) =>
      if |name| > MAX_NAME then None else Some([1, 3, |name|] + name + LittleEndian(count))
    case Ack => Some([2])
    case Failed(e) => Some([3, ErrorByte(e)])
    case ServiceStates(_, _) => Some([4, |Kept(r)|] + EncodeEntries(Kept(r)))
  }

  function FillEntries(es: seq<Entry>): (all: seq<Entry>)
    requires |es| <= MAX_ENTRIES && EntriesTyped(es)
    ensures |all| == MAX_ENTRIES && EntriesTyped(all) && all[..|es|] == es
  {
    Pad(es, EmptyEntry(), MAX_ENTRIES)
  }

  predicate StateFits(src: seq<Byte>) {
    && |src| >= 2
    && (src[1] == 1 || src[1] == 2 || src[1] == 4
        || (src[1] == 3 && |src| >= 3 && src[2] <= MAX_NAME && |src| >= src[2] as int + 7))
  }

  function StateSize(src: seq<Byte>): (n: nat)
    requires StateFits(src)
    ensures n <= |src|
  {
    if src[1] == 3 then src[2] as int + 7 else 2
  }

  function StateAt(src: seq<Byte>): SessionState
    requires StateFits(src)
  {
    if src[1] == 1 then Booting
    else if src[1] == 2 then Running
    else if src[1] == 4 then TextFallback
    else
      var n: int := src[2];
      Recovering(PLACEHOLDER, FromLittleEndian(src[n + 3..n + 7]))
  }

  predicate ServicesFit(src: seq<Byte>) {
    |src| >= 2 && src[1] <= MAX_ENTRIES && EntriesFit(src[2..], src[1])
  }

  /** The bytes start with a reply the decoder accepts. */
  predicate ReplyFits(src: seq<Byte>) {
    && |src| >= 1
    && (|| (src[0] == 1 && StateFits(src))
        || src[0] == 2
        || (src[0] == 3 && |src| >= 2 && ByteError(src[1]).Some?)
        || (src[0] == 4 && ServicesFit(src)))
  }

  function ReplySize(src: seq<Byte>): (n: nat)
    requires ReplyFits(src)
    ensures n <= |src|
  {
    if src[0] == 1 then StateSize(src)
    else if src[0] == 2 then 1
    else if src[0] == 3 then 2
    else 2 + EntriesSize(src[2..], src[1])
  }

  function ReplyAt(src: seq<Byte>): (r: Reply)
    requires ReplyFits(src)
    ensures ReplyTyped(r)
  {
    if src[0] == 1 then State(StateAt(src))
    else if src[0] == 2 then Ack
    else if src[0] == 3 then Failed(ByteError(src[1]).value)
    else ServiceStates(src[1], FillEntries(EntriesAt(src[2..], src[1])))
  }

  /** What survives the wire: at most eight entries, short names, and a placeholder for the step name. */
  function CanonReply(r: Reply): Reply
    requires ReplyTyped(r)
  {
    match r
    case State(Recovering(_, count)) => State(Recovering(PLACEHOLDER, count))
    case ServiceStates(_, _) => CanonEachTyped(Kept(r)); ServiceStates(|Kept(r)|, FillEntries(CanonEach(Kept(r))))
    case _ => r
  }

  lemma {:induction false} CanonEachTyped(es: seq<Entry>)
    requires EntriesTyped(es)
    ensures EntriesTyped(CanonEach(es)) && |CanonEach(es)| == |es|
    decreases |es|
  {
    if es != [] {
      CanonEachTyped(es[1..]);
    }
  }

  lemma StateRoundTrip(state: SessionState, tail: seq<Byte>)
    requires ReplyTyped(State(state)) && EncodeReply(State(state)).Some?
    ensures var src := EncodeReply(State(state)).value + tail;
      StateFits(src) && StateSize(src) == |EncodeReply(State(state)).value| && State(StateAt(src)) == CanonReply(State(state))
  {
    if state.Recovering? {
      var src := EncodeReply(State(state)).value + tail;
      var n := |state.stepName|;
      assert src[n + 3..n + 7] == LittleEndian(state.retryCount);
      NumberSurvives(state.retryCount);
    }
  }

  lemma ServicesRoundTrip(r: Reply, tail: seq<Byte>)
    requires ReplyTyped(r) && r.ServiceStates?
    ensures var src := EncodeReply(r).value + tail;
      ReplyFits(src) && ReplySize(src) == |EncodeReply(r).value| && ReplyAt(src) == CanonReply(r)
  {
    var src, es := EncodeReply(r).value + tail, Kept(r);
    assert src[0] == 4 && src[1] == |es|;
    assert src[2..] == EncodeEntries(es) + tail;
    EntriesRoundTrip(es, tail);
    CanonEachTyped(es);
  }

  /** Every encodable reply comes back canonical, whatever follows it in the buffer. */
  lemma ReplyRoundTrip(r: Reply, tail: seq<Byte>)
    requires ReplyTyped(r) && EncodeReply(r).Some?
    ensures var src := EncodeReply(r).value + tail;
      ReplyFits(src) && ReplySize(src) == |EncodeReply(r).value| && ReplyAt(src) == CanonReply(r)
  {
    match r
    case State(state) => StateRoundTrip(state, tail);
    case ServiceStates(_, _) => ServicesRoundTrip(r, tail);
    case _ =>
  }

  /** The tags of the wire format. */
  lemma ReplyTags(r: Reply, name: seq<Byte>, count: nat)
    requires ReplyTyped(r) && |name| <= MAX_NAME && count <= U32_MAX
    ensures EncodeReply(State(Booting)) == Some([1, 1]) && EncodeReply(State(Running)) == Some([1, 2])
    ensures EncodeReply(State(Recovering(name, count))) == Some([1, 3, |name|] + name + LittleEndian(count))
    ensures EncodeReply(State(TextFallback)) == Some([1, 4])
    ensures EncodeReply(Ack) == Some([2])
    ensures EncodeReply(Failed(CapabilityMissing)) == Some([3, 1]) && EncodeReply(Failed(MalformedRequest)) == Some([3, 2])
    ensures EncodeReply(Failed(Internal)) == Some([3, 3])
    ensures r.ServiceStates? ==>
      EncodeReply(r).Some? && EncodeReply(r).value[..2] == [4, if r.entryCount < 8 then r.entryCount else 8]
    ensures EncodeReply(r) == None <==> r.State? && r.state.Recovering? && |r.state.stepName| > 32
  {
  }

  /** Replies that are already canonical survive unchanged. */
  predicate IsCanon(r: Reply)
    requires ReplyTyped(r)
  {
    match r
    case State(Recovering(name, _)) => name == PLACEHOLDER
    case ServiceStates(count, es) => count <= MAX_ENTRIES && EntriesCanon(es[..count]) && EntriesUnused(es[count..])
    case _ => true
  }

  predicate EntriesUnused(es: seq<Entry>) {
    forall i :: 0 <= i < |es| ==> EntryUnused(es[i])
  }

  predicate EntryUnused(e: Entry) {
    ZeroFrom(e.name, 0) && e.nameLen == 0 && e.stateTag == 0 && e.restartCount == 0 && e.stepFailures == 0
  }

  lemma UnusedIsEmpty(e: Entry)
    requires EntryTyped(e)
    ensures EntryUnused(e) <==> e == EmptyEntry()
  {
    if EntryUnused(e) {
      assert e.name == Repeat(0, MAX_NAME);
    }
  }

  predicate EntriesCanon(es: seq<Entry>) {
    forall i :: 0 <= i < |es| ==> es[i].nameLen <= MAX_NAME && ZeroFrom(es[i].name, es[i].nameLen)
  }

  predicate ZeroFrom(name: seq<Byte>, n: nat) {
    forall i :: n <= i < |name| ==> name[i] == 0
  }

  lemma CanonSame(e: Entry)
    requires EntryTyped(e)
    ensures Canon(e) == e <==> e.nameLen <= MAX_NAME && ZeroFrom(e.name, e.nameLen)
  {
    var short := ShortName(e);
    if e.nameLen <= MAX_NAME && ZeroFrom(e.name, e.nameLen) {
      assert Pad(short, 0, MAX_NAME) == e.name;
    }
    assert forall i :: |short| <= i < MAX_NAME ==> Pad(short, 0, MAX_NAME)[i] == 0;
  }

  lemma {:induction false} CanonEachAt(es: seq<Entry>, i: nat)
    requires EntriesTyped(es) && i < |es|
    ensures |CanonEach(es)| == |es| && CanonEach(es)[i] == Canon(es[i])
    decreases |es|
  {
    if |es| > 1 {
      CanonEachAt(es[1..], if i > 0 then i - 1 else 0);
    }
  }

  lemma CanonEachSame(es: seq<Entry>)
    requires EntriesTyped(es)
    ensures CanonEach(es) == es <==> EntriesCanon(es)
  {
    forall i | 0 <= i < |es|
      ensures |CanonEach(es)| == |es| && CanonEach(es)[i] == Canon(es[i])
      ensures Canon(es[i]) == es[i] <==> es[i].nameLen <= MAX_NAME && ZeroFrom(es[i].name, es[i].nameLen)
    {
      CanonEachAt(es, i);
      CanonSame(es[i]);
    }
    CanonEachTyped(es);
  }

  lemma CanonServices(r: Reply)
    requires ReplyTyped(r) && r.ServiceStates?
    ensures CanonReply(r) == r <==> IsCanon(r)
  {
    var es := Kept(r);
    CanonEachTyped(es);
    CanonEachSame(es);
    var all := FillEntries(CanonEach(es));
    assert all[..|es|] == CanonEach(es);
    forall i | 0 <= i < |r.entries| ensures EntryUnused(r.entries[i]) <==> r.entries[i] == EmptyEntry() {
      UnusedIsEmpty(r.entries[i]);
    }
    if IsCanon(r) {
      assert all == r.entries;
    }
    if CanonReply(r) == r {
      assert r.entries[|es|..] == Repeat(EmptyEntry(), MAX_ENTRIES - |es|);
    }
  }

  /** A reply comes back unchanged exactly when it is canonical, whatever follows it in the buffer. */
  lemma CanonicalSurvives(r: Reply, tail: seq<Byte>)
    requires ReplyTyped(r)
    ensures IsCanon(r) <==>
      && EncodeReply(r).Some?
      && ReplyFits(EncodeReply(r).value + tail)
      && ReplyAt(EncodeReply(r).value + tail) == r
  {
    if r.ServiceStates? {
      CanonServices(r);
    }
    if EncodeReply(r).Some? {
      ReplyRoundTrip(r, tail);
    }
  }

  lemma ReplyExtends(src: seq<Byte>, tail: seq<Byte>)
    requires ReplyFits(src)
    ensures ReplyFits(src + tail) && ReplySize(src + tail) == ReplySize(src)
  {
    var all := src + tail;
    assert all[0] == src[0];
    if src[0] == 4 {
      assert all[1] == src[1] && all[2..] == src[2..] + tail;
      EntriesExtend(src[2..], src[1], tail);
    }
  }

  /** A truncated reply never decodes. */
  lemma NoPrefixDecodes(r: Reply, cut: nat)
    requires ReplyTyped(r) && EncodeReply(r).Some? && cut < |EncodeReply(r).value|
    ensures !ReplyFits(EncodeReply(r).value[..cut])
  {
    var bytes := EncodeReply(r).value;
    if ReplyFits(bytes[..cut]) {
      ReplyExtends(bytes[..cut], bytes[cut..]);
      assert bytes[..cut] + bytes[cut..] == bytes + [];
      ReplyRoundTrip(r, []);
    }
  }

  lemma ServicesReencode(src: seq<Byte>)
    requires ReplyFits(src) && src[0] == 4
    ensures EncodeReply(ReplyAt(src)).value == src[..ReplySize(src)]
  {
    var es, u := EntriesAt(src[2..], src[1]), EntriesSize(src[2..], src[1]);
    EntriesReencode(src[2..], src[1]);
    assert Kept(ReplyAt(src)) == es;
    assert src[..2] == [src[0], src[1]];
    Rejoin(src, 2, u);
  }

  /** A decoded recovering state keeps its retry count and encodes with the placeholder for its name. */
  lemma RecoveringReencodes(src: seq<Byte>)
    requires ReplyFits(src) && src[0] == 1 && src[1] == 3
    ensures EncodeReply(ReplyAt(src)).Some?
    ensures var n: int := src[2];
      EncodeReply(ReplyAt(src)).value == [1, 3, |PLACEHOLDER|] + PLACEHOLDER + src[n + 3..n + 7]
  {
    var n: int := src[2];
    BytesSurvive(src[n + 3..n + 7]);
  }

  lemma RecoveringSame(src: seq<Byte>)
    requires ReplyFits(src) && src[0] == 1 && src[1] == 3
    ensures var n: int := src[2];
      [1, 3, |PLACEHOLDER|] + PLACEHOLDER + src[n + 3..n + 7] == src[..ReplySize(src)] <==> src[3..3 + n] == PLACEHOLDER
  {
    var n: int := src[2];
    var head: seq<Byte> := [1, 3, |PLACEHOLDER|];
    var whole := head + PLACEHOLDER + src[n + 3..n + 7];
    assert src[..n + 7] == [src[0], src[1], src[2]] + src[3..3 + n] + src[n + 3..n + 7];
    if whole == src[..n + 7] {
      assert |whole| == n + 7;
      assert whole[3..3 + n] == PLACEHOLDER;
    }
  }

  /** Whatever decodes encodes back to the bytes it was read from, unless it is a recovering state whose name
      differs from the placeholder. */
  lemma ReplyReencodes(src: seq<Byte>)
    requires ReplyFits(src)
    ensures EncodeReply(ReplyAt(src)).Some?
    ensures EncodeReply(ReplyAt(src)).value == src[..ReplySize(src)] <==>
      (src[0] == 1 && src[1] == 3 ==> src[3..3 + src[2] as int] == PLACEHOLDER)
  {
    if src[0] == 4 {
      ServicesReencode(src);
    } else if src[0] == 1 && src[1] == 3 {
      RecoveringReencodes(src);
      RecoveringSame(src);
    }
  }

  /** A recovering reply with an empty name: decoded and encoded again it is longer. */
  lemma RecoveringNameLost()
    ensures var src: seq<Byte> := [1, 3, 0, 7, 0, 0, 0];
      && ReplyFits(src) && ReplyAt(src) == State(Recovering(PLACEHOLDER, 7))
      && EncodeReply(ReplyAt(src)).Some? && EncodeReply(ReplyAt(src)).value != src
  {
    var src: seq<Byte> := [1, 3, 0, 7, 0, 0, 0];
    assert src[3..7] == [7, 0, 0, 0];
    RecoveringReencodes(src);
  }

  // ---- verbs ----

  function EncodeVerb(v: Verb): Option<seq<Byte>>
    requires VerbTyped(v)
  {
    match v
    case QueryState => Some([1])
    case Stop => Some([2])
    case Restart => Some([3])
    case QueryDetailed => Some([4])
    case RestartService(name, n) => if n == 0 || n > MAX_NAME then None else Some([5, n] + name[..n])
  }

  predicate VerbFits(src: seq<Byte>) {
    && |src| >= 1
    && (1 <= src[0] <= 4 || (src[0] == 5 && |src| >= 2 && 0 < src[1] <= MAX_NAME && |src| >= 2 + src[1] as int))
  }

  function VerbSize(src: seq<Byte>): (n: nat)
    requires VerbFits(src)
    ensures n <= |src|
  {
    if src[0] == 5 then 2 + src[1] as int else 1
  }

  function VerbAt(src: seq<Byte>): (v: Verb)
    requires VerbFits(src)
    ensures VerbTyped(v)
  {
    if src[0] == 1 then QueryState
    else if src[0] == 2 then Stop
    else if src[0] == 3 then Restart
    else if src[0] == 4 then QueryDetailed
    else RestartService(Pad(src[2..2 + src[1] as int], 0, MAX_NAME), src[1])
  }

  function CanonVerb(v: Verb): Verb
    requires VerbTyped(v) && EncodeVerb(v).Some?
  {
    if v.RestartService? then v.(name := Pad(v.name[..v.nameLen], 0, MAX_NAME)) else v
  }

  lemma VerbRoundTrip(v: Verb, tail: seq<Byte>)
    requires VerbTyped(v) && EncodeVerb(v).Some?
    ensures var src := EncodeVerb(v).value + tail;
      VerbFits(src) && VerbSize(src) == |EncodeVerb(v).value| && VerbAt(src) == CanonVerb(v)
  {
    if v.RestartService? {
      var src := EncodeVerb(v).value + tail;
      assert src[2..2 + src[1] as int] == v.name[..v.nameLen];
    }
  }

  /** A verb comes back unchanged exactly when its length is legal and its unused name bytes are zero. */
  lemma VerbSurvives(v: Verb, tail: seq<Byte>)
    requires VerbTyped(v)
    ensures (v.RestartService? ==> 0 < v.nameLen <= MAX_NAME && ZeroFrom(v.name, v.nameLen)) <==>
      && EncodeVerb(v).Some?
      && VerbFits(EncodeVerb(v).value + tail)
      && VerbAt(EncodeVerb(v).value + tail) == v
  {
    if EncodeVerb(v).Some? {
      VerbRoundTrip(v, tail);
      if v.RestartService? {
        var short := v.name[..v.nameLen];
        assert forall i :: |short| <= i < MAX_NAME ==> Pad(short, 0, MAX_NAME)[i] == 0;
        if ZeroFrom(v.name, v.nameLen) {
          assert Pad(short, 0, MAX_NAME) == v.name;
        }
      }
    }
  }

  /** The tags of the verbs. */
  lemma VerbTags(name: seq<Byte>, n: Byte)
    requires |name| == MAX_NAME
    ensures EncodeVerb(QueryState) == Some([1]) && EncodeVerb(Stop) == Some([2]) && EncodeVerb(Restart) == Some([3])
    ensures EncodeVerb(QueryDetailed) == Some([4])
    ensures EncodeVerb(RestartService(name, n)) == if 1 <= n <= 32 then Some([5, n] + name[..n]) else None
  {
  }

  lemma VerbReencodes(src: seq<Byte>)
    requires VerbFits(src)
    ensures EncodeVerb(VerbAt(src)).Some?
    ensures EncodeVerb(VerbAt(src)).value == src[..VerbSize(src)]
  {
    if src[0] == 5 {
      assert [src[0], src[1]] + src[2..2 + src[1] as int] == src[..2 + src[1] as int];
    }
  }

  lemma NoVerbPrefixDecodes(v: Verb, cut: nat)
    requires VerbTyped(v) && EncodeVerb(v).Some? && cut < |EncodeVerb(v).value|
    ensures !VerbFits(EncodeVerb(v).value[..cut])
  {
  }
}
