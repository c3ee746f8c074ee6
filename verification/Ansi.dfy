/** The escape-sequence parser of the console (`kernel-core/src/fb.rs`, section 5.4 of ECMA-48). */
module Ansi {
  import opened Limits
  import opened Seqs
  import opened Sgr

  const MAX_PARAMS: nat := 8

  datatype EscState = Normal | Escape | Csi | CsiPrivate | CsiIntermediate

  datatype ConsoleCmd =
    | PutChar(code: nat) | CarriageReturn | Newline | Backspace | Tab
    | CursorUp(n: nat) | CursorDown(n: nat) | CursorForward(n: nat) | CursorBack(n: nat)
    | CursorHorizontalAbsolute(n: nat) | CursorPosition(row: nat, column: nat)
    | EraseDisplay(mode: nat) | EraseLine(mode: nat)
    | DecPrivateMode(codes: seq<nat>, count: nat, on: bool)
    | CursorShape(shape: nat)
    | SelectRendition(params: seq<nat>, count: nat)
    | DeviceAttributesReq | DeviceStatusReport(kind: nat)
    | SetScrollRegion(top: nat, bottom: nat) | VerticalPositionAbsolute(n: nat)
    | InsertLines(n: nat) | DeleteLines(n: nat)
    | InsertChars(n: nat) | DeleteChars(n: nat) | EraseChars(n: nat)
    | ScrollUp(n: nat) | ScrollDown(n: nat)
    | Nop

  datatype Parser = Parser(state: EscState, params: seq<nat>, count: nat)

  /** Eight `u16` parameters, at most eight of them in use. */
  predicate Ok(p: Parser) {
    && |p.params| == MAX_PARAMS && p.count <= MAX_PARAMS
    && forall i :: 0 <= i < |p.params| ==> p.params[i] <= U16_MAX
  }

  function Param(p: Parser, i: nat, default: nat): nat
    requires Ok(p)
  {
    if i < p.count && p.params[i] != 0 then p.params[i] else default
  }

  // ---- one character ----

  predicate IsDigit(c: char) {
    '0' <= c <= '9'
  }

  predicate IsFinal(c: char) {
    0x40 <= c as int <= 0x7e
  }

  /** Control characters that stand alone and do nothing. */
  predicate IsIgnored(c: char) {
    var n := c as int;
    n <= 0x06 || 0x0b <= n <= 0x0c || 0x0e <= n <= 0x1a || 0x1c <= n <= 0x1f || n == 0x7f
  }

  function NormalCmd(c: char): ConsoleCmd {
    if c == '\U{1b}' then Nop
    else if c == '\r' then CarriageReturn
    else if c == '\n' then Newline
    else if c == '\U{8}' then Backspace
    else if c == '\t' then Tab
    else if IsIgnored(c) then Nop
    else PutChar(c as int)
  }

  /** A digit extends the current parameter, saturating at `u16`. */
  function AddDigit(p: Parser, d: nat): (q: Parser)
    requires Ok(p) && d < 10
    ensures Ok(q)
  {
    var count := if p.count == 0 then 1 else p.count;
    var i := count - 1;
    p.(count := count, params := p.params[i := Clamp(Clamp(p.params[i] * 10, U16_MAX) + d, U16_MAX)])
  }

  function NextParam(p: Parser): (q: Parser)
    requires Ok(p)
    ensures Ok(q)
  {
    var count := if p.count == 0 then 1 else p.count;
    p.(count := if count < MAX_PARAMS then count + 1 else count)
  }

  function Used(p: Parser): nat {
    if p.count == 0 then 1 else p.count
  }

  /** The parameters handed to a consumer; with none given, a single zero. */
  function Given(p: Parser): (s: seq<nat>)
    requires Ok(p)
    ensures |s| == MAX_PARAMS
  {
    Pad(p.params[..p.count], 0, MAX_PARAMS)
  }

  function CsiCmd(p: Parser, c: char): ConsoleCmd
    requires Ok(p)
  {
    match c
    case 'A' => CursorUp(Param(p, 0, 1))
    case 'B' => CursorDown(Param(p, 0, 1))
    case 'C' => CursorForward(Param(p, 0, 1))
    case 'D' => CursorBack(Param(p, 0, 1))
    case 'G' => CursorHorizontalAbsolute(Param(p, 0, 1))
    case 'H' => CursorPosition(Param(p, 0, 1), Param(p, 1, 1))
    case 'J' => EraseDisplay(Param(p, 0, 0))
    case 'K' => EraseLine(Param(p, 0, 0))
    case 'c' => DeviceAttributesReq
    case 'n' => DeviceStatusReport(Param(p, 0, 0))
    case 'd' => VerticalPositionAbsolute(Param(p, 0, 1))
    case 'r' => SetScrollRegion(Param(p, 0, 0), Param(p, 1, 0))
    case 'S' => ScrollUp(Param(p, 0, 1))
    case 'T' => ScrollDown(Param(p, 0, 1))
    case 'L' => InsertLines(Param(p, 0, 1))
    case 'M' => DeleteLines(Param(p, 0, 1))
    case '@' => InsertChars(Param(p, 0, 1))
    case 'P' => DeleteChars(Param(p, 0, 1))
    case 'X' => EraseChars(Param(p, 0, 1))
    case 'm' => SelectRendition(Given(p), Used(p))
    case _ => Nop
  }

  function PrivateCmd(p: Parser, c: char): ConsoleCmd
    requires Ok(p)
  {
    if c == 'h' || c == 'l' then DecPrivateMode(Given(p), Used(p), c == 'h') else Nop
  }

  function ShapeCmd(p: Parser, c: char): ConsoleCmd
    requires Ok(p)
  {
    if c == 'q' && Param(p, 0, 0) <= 6 then CursorShape(Param(p, 0, 0)) else Nop
  }

  function Cmd(p: Parser, c: char): ConsoleCmd
    requires Ok(p)
  {
    match p.state
    case Normal => NormalCmd(c)
    case Escape => Nop
    case Csi => if IsFinal(c) then CsiCmd(p, c) else Nop
    case CsiPrivate => if IsFinal(c) then PrivateCmd(p, c) else Nop
    case CsiIntermediate => ShapeCmd(p, c)
  }

  function Fresh(state: EscState): (p: Parser)
    ensures Ok(p)
  {
    Parser(state, Repeat(0, MAX_PARAMS), 0)
  }

  function Next(p: Parser, c: char): (q: Parser)
    requires Ok(p)
    ensures Ok(q)
  {
    match p.state
    case Normal => if c == '\U{1b}' then p.(state := Escape) else p
    case Escape => if c == '[' then Fresh(Csi) else p.(state := Normal)
    case CsiIntermediate => p.(state := Normal)
    case _ =>
      if IsDigit(c) then AddDigit(p, c as int - '0' as int)
      else if c == ';' then NextParam(p)
      else if c == '?' && p.state == Csi then p.(state := CsiPrivate)
      else if c == ' ' && p.state == Csi then p.(state := CsiIntermediate)
      else if IsFinal(c) then p.(state := Normal)
      else Fresh(Normal)
  }

  // ---- whole inputs ----

  function Feed(p: Parser, s: string): (q: Parser)
    requires Ok(p)
    ensures Ok(q)
    decreases |s|
  {
    if s == [] then p else Feed(Next(p, s[0]), s[1..])
  }

  /** Every character of the input yields no command. */
  predicate Quiet(p: Parser, s: string)
    requires Ok(p)
    decreases |s|
  {
    s == [] || (Cmd(p, s[0]) == Nop && Quiet(Next(p, s[0]), s[1..]))
  }

  lemma {:induction false} FeedConcat(p: Parser, a: string, b: string)
    requires Ok(p)
    ensures Feed(p, a + b) == Feed(Feed(p, a), b)
    ensures Quiet(p, a + b) <==> Quiet(p, a) && Quiet(Feed(p, a), b)
    decreases |a|
  {
    if a == [] {
      assert a + b == b;
    } else {
      assert (a + b)[1..] == a[1..] + b;
      FeedConcat(Next(p, a[0]), a[1..], b);
    }
  }

  lemma FeedOne(p: Parser, c: char)
    requires Ok(p)
    ensures Feed(p, [c]) == Next(p, c)
    ensures Quiet(p, [c]) <==> Cmd(p, c) == Nop
  {
    assert [c][1..] == [];
  }

  // ---- numbers ----

  function Digit(d: nat): (c: char)
    requires d < 10
    ensures IsDigit(c) && c as int - '0' as int == d
  {
    (('0' as int) + d) as char
  }

  function Decimal(n: nat): string {
    if n < 10 then [Digit(n)] else Decimal(n / 10) + [Digit(n % 10)]
  }

  lemma SaturatingDigit(n: nat, d: nat)
    ensures Clamp(Clamp(Clamp(n, U16_MAX) * 10, U16_MAX) + d, U16_MAX) == Clamp(n * 10 + d, U16_MAX)
  {
  }

  /** The two states that collect parameters. */
  predicate InCsi(state: EscState) {
    state == Csi || state == CsiPrivate
  }

  lemma FeedDigit(p: Parser, d: nat)
    requires Ok(p) && InCsi(p.state) && d < 10
    ensures Quiet(p, [Digit(d)]) && Feed(p, [Digit(d)]) == AddDigit(p, d)
  {
    FeedOne(p, Digit(d));
  }

  /** A parser holding `n` so far, and one more digit. */
  lemma ExtendNumber(p: Parser, q: Parser, n: nat, d: nat)
    requires Ok(p) && d < 10 && Ok(q)
    requires q == p.(count := Used(p), params := p.params[Used(p) - 1 := Clamp(n, U16_MAX)])
    ensures AddDigit(q, d) == p.(count := Used(p), params := p.params[Used(p) - 1 := Clamp(n * 10 + d, U16_MAX)])
  {
    SaturatingDigit(n, d);
  }

  /** Feeding a printed number into a zero parameter leaves the number there, capped at `u16`. */
  lemma {:induction false} FeedNumber(p: Parser, n: nat)
    requires Ok(p) && InCsi(p.state) && p.params[Used(p) - 1] == 0
    ensures Quiet(p, Decimal(n))
    ensures Feed(p, Decimal(n)) == p.(count := Used(p), params := p.params[Used(p) - 1 := Clamp(n, U16_MAX)])
    decreases n
  {
    if n < 10 {
      FeedDigit(p, n);
    } else {
      FeedNumber(p, n / 10);
      var q := Feed(p, Decimal(n / 10));
      FeedConcat(p, Decimal(n / 10), [Digit(n % 10)]);
      FeedDigit(q, n % 10);
      ExtendNumber(p, q, n / 10, n % 10);
    }
  }

  // ---- parameter lists ----

  /** Decimal codes separated by semicolons. */
  function Joined(codes: seq<nat>): string {
    if codes == [] then ""
    else if |codes| == 1 then Decimal(codes[0])
    else Joined(codes[..|codes| - 1]) + [';'] + Decimal(codes[|codes| - 1])
  }

  ghost predicate Collected(p: Parser, state: EscState, codes: seq<nat>) {
    && Ok(p) && p.state == state && p.count == |codes|
    && (forall i :: 0 <= i < p.count ==> p.params[i] == Clamp(codes[i], U16_MAX))
    && (forall i :: p.count <= i < MAX_PARAMS ==> p.params[i] == 0)
  }

  lemma CollectOneMore(p: Parser, state: EscState, codes: seq<nat>, n: nat)
    requires InCsi(state) && Collected(p, state, codes) && 0 < |codes| < MAX_PARAMS
    ensures Quiet(p, [';'] + Decimal(n)) && Collected(Feed(p, [';'] + Decimal(n)), state, codes + [n])
  {
    FeedConcat(p, [';'], Decimal(n));
    FeedOne(p, ';');
    FeedNumber(Next(p, ';'), n);
  }

  lemma CollectFirst(state: EscState, n: nat)
    requires InCsi(state)
    ensures Quiet(Fresh(state), Decimal(n)) && Collected(Feed(Fresh(state), Decimal(n)), state, [n])
  {
    FeedNumber(Fresh(state), n);
  }

  lemma CollectNext(p: Parser, state: EscState, head: string, codes: seq<nat>, n: nat)
    requires Ok(p) && InCsi(state) && Quiet(p, head) && Collected(Feed(p, head), state, codes) && 0 < |codes| < MAX_PARAMS
    ensures Quiet(p, head + [';'] + Decimal(n)) && Collected(Feed(p, head + [';'] + Decimal(n)), state, codes + [n])
  {
    CollectOneMore(Feed(p, head), state, codes, n);
    FeedConcat(p, head, [';'] + Decimal(n));
    assert head + [';'] + Decimal(n) == head + ([';'] + Decimal(n));
  }

  /** One to eight printed codes are collected quietly, each capped at `u16`. */
  lemma {:induction false} FeedCodes(state: EscState, codes: seq<nat>)
    requires InCsi(state) && 1 <= |codes| <= MAX_PARAMS
    ensures Quiet(Fresh(state), Joined(codes)) && Collected(Feed(Fresh(state), Joined(codes)), state, codes)
    decreases |codes|
  {
    if |codes| == 1 {
      CollectFirst(state, codes[0]);
      assert codes == [codes[0]];
    } else {
      var init, last := codes[..|codes| - 1], codes[|codes| - 1];
      FeedCodes(state, init);
      CollectNext(Fresh(state), state, Joined(init), init, last);
      assert init + [last] == codes;
    }
  }

  function Printed(codes: seq<nat>): string {
    ['\U{1b}', '['] + Joined(codes)
  }

  lemma OpenCsi(p: Parser, body: string)
    requires Ok(p) && p.state == Normal
    ensures Feed(p, ['\U{1b}', '['] + body) == Feed(Fresh(Csi), body)
    ensures Quiet(p, ['\U{1b}', '['] + body) <==> Quiet(Fresh(Csi), body)
  {
    var open := ['\U{1b}', '['];
    FeedConcat(p, open, body);
    assert open[1..] == ['['];
    FeedOne(Next(p, '\U{1b}'), '[');
  }

  /** The parameter list a consumer sees for a printed sequence ended by `m`. */
  function Seen(p: Parser, codes: seq<nat>): seq<nat>
    requires Ok(p) && p.state == Normal
  {
    var q := Feed(p, Printed(codes));
    Given(q)[..Used(q)]
  }

  lemma SeenCodes(p: Parser, codes: seq<nat>)
    requires Ok(p) && p.state == Normal && 1 <= |codes| <= MAX_PARAMS
    ensures Quiet(p, Printed(codes)) && Feed(p, Printed(codes)).state == Csi
    ensures |Seen(p, codes)| == |codes|
    ensures forall i :: 0 <= i < |codes| ==> Seen(p, codes)[i] == Clamp(codes[i], U16_MAX)
  {
    OpenCsi(p, Joined(codes));
    FeedCodes(Csi, codes);
  }

  /** A sequence without codes selects a single zero. */
  lemma SeenNone(p: Parser)
    requires Ok(p) && p.state == Normal
    ensures Seen(p, []) == [0]
  {
    OpenCsi(p, "");
    assert Joined([]) == "";
  }

  /** Code `i` of a list: the default stands for zero and for none. */
  function Code(codes: seq<nat>, i: nat, default: nat): nat {
    if i < |codes| && codes[i] != 0 then (if codes[i] <= 65535 then codes[i] else 65535) else default
  }

  /** What any final byte reads as parameter `i` of a printed sequence: the code, or the default for zero or none. */
  lemma ParamSeen(p: Parser, codes: seq<nat>, i: nat, default: nat)
    requires Ok(p) && p.state == Normal && |codes| <= MAX_PARAMS
    ensures Feed(p, Printed(codes)).state == Csi
    ensures Param(Feed(p, Printed(codes)), i, default) == Code(codes, i, default)
  {
    OpenCsi(p, Joined(codes));
    if codes != [] {
      FeedCodes(Csi, codes);
    }
  }

  /** A parser that has collected these codes and waits for the final byte. */
  ghost predicate Awaits(q: Parser, codes: seq<nat>) {
    Ok(q) && q.state == Csi && forall i: nat, default: nat :: Param(q, i, default) == Code(codes, i, default)
  }

  /** Printing up to eight codes leaves the parser waiting for the final byte with those codes. */
  lemma PrintedAwaits(p: Parser, codes: seq<nat>)
    requires Ok(p) && p.state == Normal && |codes| <= MAX_PARAMS
    ensures Awaits(Feed(p, Printed(codes)), codes)
  {
    forall i: nat, default: nat ensures Param(Feed(p, Printed(codes)), i, default) == Code(codes, i, default) {
      ParamSeen(p, codes, i, default);
    }
    ParamSeen(p, codes, 0, 0);
  }

  /** The commands of the final bytes that move the cursor. */
  lemma CursorFinals(q: Parser, codes: seq<nat>)
    requires Awaits(q, codes)
    ensures var n := Code(codes, 0, 1);
      && Cmd(q, 'A') == CursorUp(n) && Cmd(q, 'B') == CursorDown(n)
      && Cmd(q, 'C') == CursorForward(n) && Cmd(q, 'D') == CursorBack(n)
      && Cmd(q, 'G') == CursorHorizontalAbsolute(n) && Cmd(q, 'd') == VerticalPositionAbsolute(n)
      && Cmd(q, 'H') == CursorPosition(n, Code(codes, 1, 1))
  {
  }

  /** The commands of the final bytes that edit and scroll. */
  lemma EditFinals(q: Parser, codes: seq<nat>)
    requires Awaits(q, codes)
    ensures var n := Code(codes, 0, 1);
      && Cmd(q, 'L') == InsertLines(n) && Cmd(q, 'M') == DeleteLines(n)
      && Cmd(q, '@') == InsertChars(n) && Cmd(q, 'P') == DeleteChars(n) && Cmd(q, 'X') == EraseChars(n)
      && Cmd(q, 'S') == ScrollUp(n) && Cmd(q, 'T') == ScrollDown(n)
  {
  }

  /** The commands of the final bytes whose codes default to zero, and of those that mean nothing. */
  lemma OtherFinals(q: Parser, codes: seq<nat>, c: char)
    requires Awaits(q, codes)
    ensures var n := Code(codes, 0, 0);
      && Cmd(q, 'J') == EraseDisplay(n) && Cmd(q, 'K') == EraseLine(n)
      && Cmd(q, 'n') == DeviceStatusReport(n) && Cmd(q, 'c') == DeviceAttributesReq
      && Cmd(q, 'r') == SetScrollRegion(n, Code(codes, 1, 0))
      && (c !in "ABCDGHJKLMPSTX@cdmnr" ==> Cmd(q, c) == Nop)
  {
  }

  /** A space before the final `q` selects the shape of the cursor, 0 to 6. */
  lemma ShapeFinal(q: Parser, codes: seq<nat>, c: char)
    requires Awaits(q, codes)
    ensures var spaced, n := Next(q, ' '), Code(codes, 0, 0);
      && Cmd(spaced, 'q') == (if n <= 6 then CursorShape(n) else Nop)
      && (c != 'q' ==> Cmd(spaced, c) == Nop)
      && Next(spaced, c).state == Normal
  {
    assert Param(Next(q, ' '), 0, 0) == Param(q, 0, 0);
  }

  /** While codes are collected, a byte from `@` to `~` ends the sequence and a stray byte drops what was collected. */
  lemma SequenceEnds(p: Parser, c: char)
    requires Ok(p) && InCsi(p.state)
    ensures 0x40 <= c as int <= 0x7e ==> Next(p, c) == p.(state := Normal)
    ensures c as int < 0x20 || c as int > 0x7e || 0x21 <= c as int <= 0x2f ==> Next(p, c) == Fresh(Normal)
  {
  }

  /** Outside a sequence four controls have their commands, the others but the bell are dropped,
      and everything else is shown. */
  lemma PlainCharacters(p: Parser, c: char)
    requires Ok(p) && p.state == Normal
    ensures Cmd(p, 13 as char) == CarriageReturn && Cmd(p, 10 as char) == Newline
    ensures Cmd(p, 8 as char) == Backspace && Cmd(p, 9 as char) == Tab
    ensures c as int >= 0x20 && c as int != 0x7f ==> Cmd(p, c) == PutChar(c as int)
    ensures (c as int < 0x20 && c as int !in {7, 8, 9, 10, 13}) || c as int == 0x7f ==> Cmd(p, c) == Nop
  {
  }

  function PrintedPrivate(codes: seq<nat>): string {
    ['\U{1b}', '['] + (['?'] + Joined(codes))
  }

  /** A private mode sequence is silent up to `h` or `l`, which sets or resets exactly the printed modes. */
  lemma PrivateModes(p: Parser, codes: seq<nat>, on: bool)
    requires Ok(p) && p.state == Normal && 1 <= |codes| <= MAX_PARAMS
    ensures Quiet(p, PrintedPrivate(codes))
    ensures var cmd := Cmd(Feed(p, PrintedPrivate(codes)), if on then 'h' else 'l');
      && cmd.DecPrivateMode? && cmd.on == on && cmd.count == |codes| <= |cmd.codes|
      && forall i :: 0 <= i < |codes| ==> cmd.codes[i] == Clamp(codes[i], U16_MAX)
  {
    OpenCsi(p, ['?'] + Joined(codes));
    FeedConcat(Fresh(Csi), ['?'], Joined(codes));
    FeedOne(Fresh(Csi), '?');
    FeedCodes(CsiPrivate, codes);
  }

  /** A code list survives printing and parsing exactly if it has one to eight codes that fit `u16`. */
  lemma CodesRoundTrip(p: Parser, codes: seq<nat>)
    requires Ok(p) && p.state == Normal
    ensures Seen(p, codes) == codes <==>
      1 <= |codes| <= MAX_PARAMS && forall i :: 0 <= i < |codes| ==> codes[i] <= U16_MAX
  {
    if 1 <= |codes| <= MAX_PARAMS {
      SeenCodes(p, codes);
    }
  }

  lemma {:induction false} CodesAreSmall(ops: seq<SgrOp>)
    requires OpsOk(ops)
    ensures forall i :: 0 <= i < |AllCodes(ops)| ==> AllCodes(ops)[i] <= U16_MAX
    decreases |ops|
  {
    if ops != [] {
      CodesAreSmall(ops[1..]);
    }
  }

  lemma FinalM(q: Parser)
    requires Ok(q) && q.state == Csi
    ensures Cmd(q, 'm') == SelectRendition(Given(q), Used(q)) && Next(q, 'm').state == Normal
  {
  }

  lemma OpsSurvive(p: Parser, ops: seq<SgrOp>)
    requires Ok(p) && p.state == Normal
    requires OpsOk(ops) && 1 <= |AllCodes(ops)| <= MAX_PARAMS
    ensures Ops(Seen(p, AllCodes(ops))) == ops
  {
    CodesAreSmall(ops);
    CodesRoundTrip(p, AllCodes(ops));
    OpsOfCodes(ops);
  }

  /** What the final `m` selects after operations printed as one sequence. */
  function Selected(p: Parser, ops: seq<SgrOp>): ConsoleCmd
    requires Ok(p)
  {
    Cmd(Feed(p, Printed(AllCodes(ops))), 'm')
  }

  /** Printing operations as one sequence: silence up to the final byte, which selects exactly those operations. */
  lemma SgrRoundTrip(p: Parser, ops: seq<SgrOp>)
    requires Ok(p) && p.state == Normal
    requires OpsOk(ops) && 1 <= |AllCodes(ops)| <= MAX_PARAMS
    ensures Quiet(p, Printed(AllCodes(ops)))
    ensures Selected(p, ops).SelectRendition? && Selected(p, ops).count <= |Selected(p, ops).params|
    ensures Ops(Selected(p, ops).params[..Selected(p, ops).count]) == ops
    ensures Next(Feed(p, Printed(AllCodes(ops))), 'm').state == Normal
  {
    SeenCodes(p, AllCodes(ops));
    FinalM(Feed(p, Printed(AllCodes(ops))));
    OpsSurvive(p, ops);
  }

  // ---- the parser object ----

  class AnsiParser {
    var state: EscState
    const params: array<nat>
    var count: nat

    ghost function Value(): Parser
      reads this, params
    {
      Parser(state, params[..], count)
    }

    constructor ()
      ensures Value() == Fresh(Normal) && fresh(params)
    {
      state := Normal;
      params := new nat[MAX_PARAMS](_ => 0);
      count := 0;
      new;
      assert params[..] == Repeat(0, MAX_PARAMS);
    }

    method ResetParams()
      requires Ok(Value())
      modifies params, `count
      ensures Value() == Fresh(state)
    {
      var i := 0;
      while i < params.Length
        invariant i <= params.Length == MAX_PARAMS
        invariant forall k :: 0 <= k < i ==> params[k] == 0
      {
        params[i] := 0;
        i := i + 1;
      }
      count := 0;
      assert params[..] == Repeat(0, MAX_PARAMS);
    }

    method Accumulate(d: nat)
      requires Ok(Value()) && d < 10
      modifies params, `count
      ensures Value() == AddDigit(old(Value()), d)
    {
      if count == 0 {
        count := 1;
      }
      var i := count - 1;
      if i < MAX_PARAMS {
        params[i] := Clamp(Clamp(params[i] * 10, U16_MAX) + d, U16_MAX);
      }
    }

    method Advance()
      requires Ok(Value())
      modifies `count
      ensures Value() == NextParam(old(Value()))
    {
      if count == 0 {
        count := 1;
      }
      if count < MAX_PARAMS {
        count := count + 1;
      }
    }

    method ProcessChar(c: char) returns (cmd: ConsoleCmd)
      requires Ok(Value())
      modifies this, params
      ensures cmd == Cmd(old(Value()), c)
      ensures Value() == Next(old(Value()), c) && Ok(Value())
    {
      match state
      case Normal =>
        cmd := NormalCmd(c);
        if c == '\U{1b}' {
          state := Escape;
        }
      case Escape =>
        cmd := Nop;
        if c == '[' {
          state := Csi;
          ResetParams();
        } else {
          state := Normal;
        }
      case CsiIntermediate =>
        cmd := ShapeCmd(Parser(state, params[..], count), c);
        state := Normal;
      case Csi => cmd := ProcessCsi(c);
      case CsiPrivate => cmd := ProcessCsiPrivate(c);
    }

    method ProcessCsi(c: char) returns (cmd: ConsoleCmd)
      requires Ok(Value()) && state == Csi
      modifies this, params
      ensures cmd == Cmd(old(Value()), c)
      ensures Value() == Next(old(Value()), c)
    {
      cmd := Nop;
      if IsDigit(c) {
        Accumulate(c as int - '0' as int);
      } else if c == ';' {
        Advance();
      } else if c == '?' {
        state := CsiPrivate;
      } else if c == ' ' {
        state := CsiIntermediate;
      } else if IsFinal(c) {
        cmd := CsiCmd(Parser(state, params[..], count), c);
        state := Normal;
      } else {
        state := Normal;
        ResetParams();
      }
    }

    method ProcessCsiPrivate(c: char) returns (cmd: ConsoleCmd)
      requires Ok(Value()) && state == CsiPrivate
      modifies this, params
      ensures cmd == Cmd(old(Value()), c)
      ensures Value() == Next(old(Value()), c)
    {
      cmd := Nop;
      if IsDigit(c) {
        Accumulate(c as int - '0' as int);
      } else if c == ';' {
        Advance();
      } else if IsFinal(c) {
        cmd := PrivateCmd(Parser(state, params[..], count), c);
        state := Normal;
      } else {
        state := Normal;
        ResetParams();
      }
    }
  }
}
