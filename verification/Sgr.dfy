/** SGR parameter lists and the operations they spell (`kernel-core/src/fb.rs`, section 8.3.117 of ECMA-48). */
module Sgr {
  import opened Options

  datatype SgrOp =
    | Reset | Bold | Underline | Reverse | NoBold | NoUnderline | NoReverse
    | Fg8(n: nat) | FgDefault | Bg8(n: nat) | BgDefault | FgBright8(n: nat) | BgBright8(n: nat)
    | Indexed(foreground: bool, index: nat)
    | Rgb(foreground: bool, r: nat, g: nat, b: nat)

  /** The values the operation types allow. */
  predicate OpOk(op: SgrOp) {
    match op
    case Fg8(n) => n < 8
    case Bg8(n) => n < 8
    case FgBright8(n) => n < 8
    case BgBright8(n) => n < 8
    case Indexed(_, i) => i < 256
    case Rgb(_, r, g, b) => r < 256 && g < 256 && b < 256
    case _ => true
  }

  predicate OpsOk(ops: seq<SgrOp>) {
    forall i :: 0 <= i < |ops| ==> OpOk(ops[i])
  }

  // ---- printing ----

  function Codes(op: SgrOp): (codes: seq<nat>)
    ensures |codes| > 0
  {
    match op
    case Reset => [0]
    case Bold => [1]
    case Underline => [4]
    case Reverse => [7]
    case NoBold => [22]
    case NoUnderline => [24]
    case NoReverse => [27]
    case Fg8(n) => [30 + n]
    case FgDefault => [39]
    case Bg8(n) => [40 + n]
    case BgDefault => [49]
    case FgBright8(n) => [90 + n]
    case BgBright8(n) => [100 + n]
    case Indexed(fg, i) => [if fg then 38 else 48, 5, i]
    case Rgb(fg, r, g, b) => [if fg then 38 else 48, 2, r, g, b]
  }

  function AllCodes(ops: seq<SgrOp>): seq<nat> {
    if ops == [] then [] else Codes(ops[0]) + AllCodes(ops[1..])
  }

  // ---- reading ----

  /** One turn of the iterator: an operation, a code it passes over, or a truncated colour. */
  datatype Turn = Yield(op: SgrOp, used: nat) | Skip(used: nat) | Truncated

  /** Codes that stand for an operation on their own. */
  function PlainOp(code: nat): Option<SgrOp> {
    if code == 0 then Some(Reset)
    else if code == 1 then Some(Bold)
    else if code == 4 then Some(Underline)
    else if code == 7 then Some(Reverse)
    else if code == 22 then Some(NoBold)
    else if code == 24 then Some(NoUnderline)
    else if code == 27 then Some(NoReverse)
    else if 30 <= code <= 37 then Some(Fg8(code - 30))
    else if code == 39 then Some(FgDefault)
    else if 40 <= code <= 47 then Some(Bg8(code - 40))
    else if code == 49 then Some(BgDefault)
    else if 90 <= code <= 97 then Some(FgBright8(code - 90))
    else if 100 <= code <= 107 then Some(BgBright8(code - 100))
    else None
  }

  function TurnAt(p: seq<nat>): (t: Turn)
    requires p != []
    ensures !t.Truncated? ==> 0 < t.used <= |p|
    ensures t.Yield? ==> OpOk(t.op)
  {
    if PlainOp(p[0]).Some? then Yield(PlainOp(p[0]).value, 1)
    else if p[0] != 38 && p[0] != 48 then Skip(1)
    else if |p| < 2 then Truncated
    else if p[1] == 5 then
      if |p| < 3 then Truncated else Yield(Indexed(p[0] == 38, p[2] % 256), 3)
    else if p[1] == 2 then
      if |p| < 5 then Truncated else Yield(Rgb(p[0] == 38, p[2] % 256, p[3] % 256, p[4] % 256), 5)
    else Skip(2)
  }

  /** All operations an iteration yields before its first `None`. */
  function Ops(p: seq<nat>): (ops: seq<SgrOp>)
    ensures OpsOk(ops)
    decreases |p|
  {
    if p == [] then []
    else
      match TurnAt(p)
      case Yield(op, used) => [op] + Ops(p[used..])
      case Skip(used) => Ops(p[used..])
      case Truncated => []
  }

  lemma FirstOp(op: SgrOp, rest: seq<nat>)
    requires OpOk(op)
    ensures Ops(Codes(op) + rest) == [op] + Ops(rest)
  {
    var p := Codes(op) + rest;
    assert TurnAt(p) == Yield(op, |Codes(op)|);
    assert p[|Codes(op)|..] == rest;
  }

  /** The codes this console knows. */
  predicate Known(code: nat) {
    || code in {0, 1, 4, 7, 22, 24, 27, 38, 39, 48, 49}
    || 30 <= code < 38 || 40 <= code < 48 || 90 <= code < 98 || 100 <= code < 108
  }

  /** Unknown codes, and colours of an unknown kind, are passed over. */
  lemma UnknownSkipped(code: nat, kind: nat, rest: seq<nat>)
    ensures !Known(code) ==> Ops([code] + rest) == Ops(rest)
    ensures code in {38, 48} && kind !in {2, 5} ==> Ops([code, kind] + rest) == Ops(rest)
  {
    assert ([code] + rest)[1..] == rest && ([code, kind] + rest)[2..] == rest;
  }

  /** A colour cut short ends the iteration. */
  lemma CutShortEnds(p: seq<nat>)
    requires p != [] && p[0] in {38, 48}
    requires |p| == 1 || (p[1] == 5 && |p| < 3) || (p[1] == 2 && |p| < 5)
    ensures Ops(p) == []
  {
  }

  /** A palette index is taken modulo 256. */
  lemma IndexWraps(fg: bool, i: nat, rest: seq<nat>)
    ensures Ops([if fg then 38 else 48, 5, i] + rest) == [Indexed(fg, i % 256)] + Ops(rest)
  {
    var p := [if fg then 38 else 48, 5, i] + rest;
    assert TurnAt(p) == Yield(Indexed(fg, i % 256), 3);
    assert p[3..] == rest;
  }

  /** Colour components are taken modulo 256. */
  lemma ColourWraps(fg: bool, r: nat, g: nat, b: nat, rest: seq<nat>)
    ensures Ops([if fg then 38 else 48, 2, r, g, b] + rest) == [Rgb(fg, r % 256, g % 256, b % 256)] + Ops(rest)
  {
    var p := [if fg then 38 else 48, 2, r, g, b] + rest;
    assert TurnAt(p) == Yield(Rgb(fg, r % 256, g % 256, b % 256), 5);
    assert p[5..] == rest;
  }

  /** Iterating over printed codes gives the operations back. */
  lemma {:induction false} OpsOfCodes(ops: seq<SgrOp>)
    requires OpsOk(ops)
    ensures Ops(AllCodes(ops)) == ops
    decreases |ops|
  {
    if ops != [] {
      FirstOp(ops[0], AllCodes(ops[1..]));
      OpsOfCodes(ops[1..]);
    }
  }

  /** Printing what a parameter list means gives a list with the same meaning, whatever it skipped. */
  lemma PrintingKeepsMeaning(p: seq<nat>)
    ensures Ops(AllCodes(Ops(p))) == Ops(p)
  {
    OpsOfCodes(Ops(p));
  }

  // ---- the iterator ----

  class SgrOpIter {
    const params: seq<nat>
    var idx: nat

    ghost predicate Valid()
      reads this
    {
      idx <= |params|
    }

    ghost function Rest(): seq<SgrOp>
      requires Valid()
      reads this
    {
      Ops(params[idx..])
    }

    constructor (params: seq<nat>)
      ensures Valid() && Rest() == Ops(params)
    {
      this.params := params;
      idx := 0;
      new;
      assert this.params[0..] == params;
    }

    /** Takes the next operation off the front, or reports that none is left. */
    method Next() returns (op: Option<SgrOp>)
      requires Valid()
      modifies this
      ensures Valid()
      ensures op.None? <==> old(Rest()) == []
      ensures op.Some? ==> old(Rest()) == [op.value] + Rest() && old(idx) < idx
    {
      ghost var start := Rest();
      while idx < |params|
        invariant Valid() && Rest() == start && old(idx) <= idx
        decreases |params| - idx
      {
        ghost var here := params[idx..];
        var code := params[idx];
        var plain := PlainOp(code);
        idx := idx + 1;
        if plain.Some? {
          assert here[1..] == params[idx..];
          return plain;
        }
        if code == 38 || code == 48 {
          if idx == |params| {
            return None;
          }
          var sub := params[idx];
          idx := idx + 1;
          if sub == 5 {
            if idx == |params| {
              return None;
            }
            op := Some(Indexed(code == 38, params[idx] % 256));
            idx := idx + 1;
            assert here[3..] == params[idx..];
            return;
          }
          if sub == 2 {
            if idx + 2 >= |params| {
              return None;
            }
            op := Some(Rgb(code == 38, params[idx] % 256, params[idx + 1] % 256, params[idx + 2] % 256));
            idx := idx + 3;
            assert here[5..] == params[idx..];
            return;
          }
          assert here[2..] == params[idx..];
        } else {
          assert here[1..] == params[idx..];
        }
      }
      return None;
    }
  }
}
