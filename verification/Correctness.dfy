/** Compiled templates do what the template means.

    A step of the machine is followed by a step of the meaning, operation by operation; segments, variables and
    whole templates are then runs of such steps. */
module Correctness {
  import opened Compile
  import opened Meaning
  import opened OpCodes
  import opened Runtime
  import opened Text
  import opened Types
  import opened Wrappers

  // ----- A machine over operations that still carry their strings -----

  datatype Sym = Sym(pos: nat, stack: seq<string>, bound: seq<(string, string)>)

  function SymStep(op: Op, tail: nat, comps: seq<string>, s: Sym): Option<Sym>
  {
    if op.code == PUSH || op.code == LIT_PUSH then
      if |comps| <= s.pos || (op.code == LIT_PUSH && comps[s.pos] != op.str) then None else
      Some(s.(stack := s.stack + [comps[s.pos]], pos := s.pos + 1))
    else if op.code == PUSH_M then
      if |comps| < s.pos + tail then None else
      Some(s.(stack := s.stack + [Join(comps[s.pos..|comps| - tail], "/")], pos := |comps| - tail))
    else if op.code == CONCAT_N then
      var l := |s.stack| - op.operand;
      if !(0 <= l <= |s.stack|) then None else
      Some(s.(stack := s.stack[..l] + [Join(s.stack[l..], "/")]))
    else if op.code == CAPTURE then
      if s.stack == [] then None else
      var n := |s.stack| - 1;
      Some(s.(bound := s.bound + [(op.str, s.stack[n])], stack := s.stack[..n]))
    else
      Some(s)
  }

  function SymRun(ops: seq<Op>, tail: nat, comps: seq<string>, s: Sym): Option<Sym>
    decreases |ops|
  {
    if ops == [] then Some(s) else
    match SymStep(ops[0], tail, comps, s)
    case None => None
    case Some(s') => SymRun(ops[1..], tail, comps, s')
  }

  /** Running on from where another run ended. */
  function Resume(s: Option<Sym>, ops: seq<Op>, tail: nat, comps: seq<string>): Option<Sym>
  {
    match s
    case None => None
    case Some(s') => SymRun(ops, tail, comps, s')
  }

  lemma {:induction false} SymRunAppend(a: seq<Op>, b: seq<Op>, tail: nat, comps: seq<string>, s: Sym)
    ensures SymRun(a + b, tail, comps, s) == Resume(SymRun(a, tail, comps, s), b, tail, comps)
    decreases |a|
  {
    if a == [] {
      assert a + b == b;
    } else {
      assert (a + b)[1..] == a[1..] + b;
      match SymStep(a[0], tail, comps, s)
      case None =>
      case Some(s') => SymRunAppend(a[1..], b, tail, comps, s');
    }
  }

  // ----- The bytecode carries the strings of the operations it was encoded from -----

  /** What `segment.compile` emits: only literals and captures carry a string, and they do. */
  predicate RawOk(op: Op)
  {
    || ((op.code == PUSH || op.code == PUSH_M || op.code == CONCAT_N) && op.str == "")
    || ((op.code == LIT_PUSH || op.code == CAPTURE) && op.str != "" && op.operand == 0)
  }

  /** `rop` is `op` with its string found through the pool or, for the next capture, through `vars`. */
  predicate SameOp(p: Pattern, rop: Rop, op: Op, captures: nat)
  {
    && rop.code == op.code
    && (op.code == LIT_PUSH ==> 0 <= rop.operand < |p.pool| && p.pool[rop.operand] == op.str)
    && (op.code == CONCAT_N ==> rop.operand == op.operand)
    && (op.code == CAPTURE ==> rop.operand == captures < |p.vars| && p.vars[captures] == op.str)
  }

  predicate SameOps(p: Pattern, rops: seq<Rop>, ops: seq<Op>, captures: nat)
    decreases |ops|
  {
    if ops == [] then rops == [] && captures == |p.vars| else
    && rops != []
    && SameOp(p, rops[0], ops[0], captures)
    && SameOps(p, rops[1..], ops[1..], if ops[0].code == CAPTURE then captures + 1 else captures)
  }

  lemma {:induction false} EncodeGrows(pool: seq<string>, raw: seq<Op>)
    ensures pool <= Encode(pool, raw).pool
    ensures |Encode(pool, raw).codes| == 2 * |raw|
    decreases |raw|
  {
    if raw != [] {
      EncodeGrows(Intern(pool, raw[0].str), raw[1..]);
    }
  }

  /** The first operation, encoded. */
  lemma EncodeHead(pool: seq<string>, raw: seq<Op>)
    requires raw != []
    ensures |Encode(pool, raw).codes| == 2 * |raw| && |Encode(pool, raw).codes| % 2 == 0
    ensures |Encode(Intern(pool, raw[0].str), raw[1..]).codes| % 2 == 0
    ensures var pool' := Intern(pool, raw[0].str);
      var codes, rest := Encode(pool, raw).codes, Encode(pool', raw[1..]).codes;
      && Rop(codes[0], codes[1]) == Rop(raw[0].code, OperandOf(pool', raw[0])) && codes[2..] == rest
      && Encode(pool, raw).pool == Encode(pool', raw[1..]).pool
      && (raw[0].str == "" || raw[0].str in pool') && pool' <= Encode(pool, raw).pool
  {
    EncodeGrows(pool, raw);
    EncodeGrows(Intern(pool, raw[0].str), raw[1..]);
    TwiceIsEven(|raw|);
    TwiceIsEven(|raw| - 1);
  }

  lemma TwiceIsEven(n: nat)
    ensures 2 * n % 2 == 0
  {
  }

  lemma EncodedOpKeepsString(c: Checker, pool: seq<string>, op: Op, p: Pattern)
    requires RawOk(op) && (op.str == "" || op.str in pool) && pool <= p.pool
    requires CheckOp(c, Rop(op.code, OperandOf(pool, op)), p.pool).Some?
    requires CheckOp(c, Rop(op.code, OperandOf(pool, op)), p.pool).value.vars <= p.vars
    ensures var rop := Rop(op.code, if op.code == CAPTURE then |c.vars| else OperandOf(pool, op));
      SameOp(p, rop, op, |c.vars|)
    ensures |CheckOp(c, Rop(op.code, OperandOf(pool, op)), p.pool).value.vars|
         == if op.code == CAPTURE then |c.vars| + 1 else |c.vars|
  {
    var c' := CheckOp(c, Rop(op.code, OperandOf(pool, op)), p.pool).value;
    if op.code == CAPTURE {
      assert c'.vars[|c.vars|] == op.str;
    }
  }

  /** What NewPattern appends for a code list that does not start with a NOP. */
  lemma TypedStep(c: Checker, codes: seq<int>, op: Rop, rest: seq<int>, final: seq<string>)
    requires |codes| % 2 == 0 && codes != [] && op == Rop(codes[0], codes[1]) && rest == codes[2..] && op.code != NOP
    requires CheckOps(c, codes, final).Some?
    ensures |rest| % 2 == 0 && CheckOp(c, op, final).Some?
    ensures CheckOps(CheckOp(c, op, final).value, rest, final) == CheckOps(c, codes, final)
    ensures TypedOps(c, codes, final) == [Typed(c, op)] + TypedOps(CheckOp(c, op, final).value, rest, final)
  {
  }

  lemma FirstKeepsString(c: Checker, codes: seq<int>, op: Op, rest: seq<int>, pool: seq<string>, p: Pattern)
    requires |codes| % 2 == 0 && codes != [] && rest == codes[2..]
    requires Rop(codes[0], codes[1]) == Rop(op.code, OperandOf(pool, op))
    requires RawOk(op) && (op.str == "" || op.str in pool) && pool <= p.pool
    requires CheckOps(c, codes, p.pool).Some? && p.vars == CheckOps(c, codes, p.pool).value.vars
    ensures var c' := CheckOp(c, Rop(op.code, OperandOf(pool, op)), p.pool);
      && c'.Some? && |c'.value.vars| == (if op.code == CAPTURE then |c.vars| + 1 else |c.vars|)
      && CheckOps(c'.value, rest, p.pool) == CheckOps(c, codes, p.pool)
      && TypedOps(c, codes, p.pool) != [] && TypedOps(c, codes, p.pool)[1..] == TypedOps(c'.value, rest, p.pool)
      && SameOp(p, TypedOps(c, codes, p.pool)[0], op, |c.vars|)
  {
    var rop := Rop(op.code, OperandOf(pool, op));
    TypedStep(c, codes, rop, rest, p.pool);
    CheckedGrows(CheckOp(c, rop, p.pool).value, rest, p.pool);
    EncodedOpKeepsString(c, pool, op, p);
  }

  /** NewPattern on encoded operations: `p` has their final pool and variables. */
  ghost predicate Encodes(c: Checker, pool: seq<string>, raw: seq<Op>, p: Pattern)
  {
    var e := Encode(pool, raw);
    && (forall op <- raw :: RawOk(op)) && |e.codes| % 2 == 0 && p.pool == e.pool
    && CheckOps(c, e.codes, p.pool).Some? && p.vars == CheckOps(c, e.codes, p.pool).value.vars
  }

  lemma EncodesRest(c: Checker, pool: seq<string>, raw: seq<Op>, p: Pattern) returns (pool': seq<string>, c': Checker)
    requires raw != [] && Encodes(c, pool, raw, p)
    ensures Encodes(c', pool', raw[1..], p)
    ensures |c'.vars| == if raw[0].code == CAPTURE then |c.vars| + 1 else |c.vars|
    ensures var rops := TypedOps(c, Encode(pool, raw).codes, p.pool);
      && rops != [] && rops[1..] == TypedOps(c', Encode(pool', raw[1..]).codes, p.pool)
      && SameOp(p, rops[0], raw[0], |c.vars|)
  {
    var op := raw[0];
    pool' := Intern(pool, op.str);
    assert RawOk(op);
    var codes, rest := Encode(pool, raw).codes, Encode(pool', raw[1..]);
    EncodeHead(pool, raw);
    assert codes != [] && rest.codes == codes[2..] && |rest.codes| % 2 == 0 && rest.pool == p.pool;
    FirstKeepsString(c, codes, op, rest.codes, pool', p);
    c' := CheckOp(c, Rop(op.code, OperandOf(pool', op)), p.pool).value;
  }

  lemma {:induction false} EncodedOpsKeepStrings(c: Checker, pool: seq<string>, raw: seq<Op>, p: Pattern)
    requires Encodes(c, pool, raw, p)
    ensures SameOps(p, TypedOps(c, Encode(pool, raw).codes, p.pool), raw, |c.vars|)
    decreases |raw|
  {
    if raw != [] {
      var pool', c' := EncodesRest(c, pool, raw, p);
      EncodedOpsKeepStrings(c', pool', raw[1..], p);
    }
  }

  /** The bytecode machine and the machine over strings are in corresponding states. */
  ghost predicate Agree(p: Pattern, m: Machine, s: Sym)
  {
    && m.pos == s.pos && m.stack == s.stack && |m.captured| == |p.vars| && |s.bound| <= |p.vars|
    && m.captured[..|s.bound|] == Vals(s.bound) && p.vars[..|s.bound|] == Names(s.bound)
  }

  lemma CaptureAgrees(p: Pattern, m: Machine, s: Sym, value: string)
    requires Agree(p, m, s) && |s.bound| < |p.vars|
    ensures var s' := s.(bound := s.bound + [(p.vars[|s.bound|], value)]);
      Agree(p, m.(captured := m.captured[|s.bound| := value]), s')
  {
    var n, captured := |s.bound|, m.captured[|s.bound| := value];
    var bound := s.bound + [(p.vars[n], value)];
    assert captured[..n + 1] == m.captured[..n] + [value] == Vals(s.bound) + [value] == Vals(bound);
    assert p.vars[..n + 1] == p.vars[..n] + [p.vars[n]] == Names(s.bound) + [p.vars[n]] == Names(bound);
  }

  lemma StepsAlike(p: Pattern, rop: Rop, op: Op, comps: seq<string>, m: Machine, s: Sym)
    requires SameOp(p, rop, op, |s.bound|) && Agree(p, m, s)
    ensures SymStep(op, p.tailLen, comps, s).None? ==> !Step(p, rop, comps, m).Running?
    ensures SymStep(op, p.tailLen, comps, s).Some? ==>
      && Step(p, rop, comps, m).Running?
      && Agree(p, Step(p, rop, comps, m).m, SymStep(op, p.tailLen, comps, s).value)
      && |SymStep(op, p.tailLen, comps, s).value.bound| == if op.code == CAPTURE then |s.bound| + 1 else |s.bound|
  {
    if op.code == CAPTURE && s.stack != [] {
      CaptureAgrees(p, m, s, s.stack[|s.stack| - 1]);
    }
  }

  /** The bytecode machine computes what the machine over strings computes. */
  lemma {:induction false} Simulation(p: Pattern, rops: seq<Rop>, ops: seq<Op>, comps: seq<string>, m: Machine, s: Sym)
    requires SameOps(p, rops, ops, |s.bound|) && Agree(p, m, s)
    ensures match SymRun(ops, p.tailLen, comps, s)
      case None => !Run(p, rops, comps, m).Running?
      case Some(s') =>
        && Run(p, rops, comps, m) == Running(Machine(s'.pos, s'.stack, Vals(s'.bound)))
        && p.vars == Names(s'.bound)
    decreases |ops|
  {
    if ops == [] {
      assert m.captured == m.captured[..|s.bound|] && p.vars == p.vars[..|s.bound|];
    } else {
      StepsAlike(p, rops[0], ops[0], comps, m, s);
      var next := SymStep(ops[0], p.tailLen, comps, s);
      if next.Some? {
        Simulation(p, rops[1..], ops[1..], comps, Step(p, rops[0], comps, m).m, next.value);
      }
    }
  }

  // ----- Compiled segments, run on the machine over strings -----

  function PrependSpans(spans: Spans, more: Option<Spans>): Option<Spans>
  {
    match more
    case None => None
    case Some(rest) => Some(spans + rest)
  }

  /** The reading that the machine finds from position `pos` on, if `tail` components are left for
      what follows a `**`. */
  function Find(atoms: seq<Segment>, tail: nat, comps: seq<string>, pos: nat): (found: Option<Spans>)
    ensures found.Some? ==> |found.value| == |atoms|
    decreases |atoms|
  {
    if atoms == [] then Some([]) else
    var end := if atoms[0] == DeepWildcard then |comps| - tail else pos + 1;
    if !(pos <= end <= |comps| && SpanOk(atoms[0], comps[pos..end])) then None else
    PrependSpans([comps[pos..end]], Find(atoms[1..], tail, comps, end))
  }

  lemma {:induction false} FindIsReading(atoms: seq<Segment>, tail: nat, comps: seq<string>, pos: nat)
    requires pos <= |comps| && Find(atoms, tail, comps, pos).Some?
    ensures var spans := Find(atoms, tail, comps, pos).value;
      && SpansOk(atoms, spans)
      && pos + |Flatten(spans)| <= |comps|
      && Flatten(spans) == comps[pos..pos + |Flatten(spans)|]
    decreases |atoms|
  {
    if atoms != [] {
      var end := if atoms[0] == DeepWildcard then |comps| - tail else pos + 1;
      FindIsReading(atoms[1..], tail, comps, end);
      var rest := Find(atoms[1..], tail, comps, end).value;
      var spans := Find(atoms, tail, comps, pos).value;
      assert spans[1..] == rest;
      assert Flatten(spans) == comps[pos..end] + Flatten(rest);
    }
  }

  /** The position behind the spans. */
  function EndOf(pos: nat, spans: Spans): nat
  {
    pos + |Flatten(spans)|
  }

  /** Finding on from the end of what was found. */
  function FindOn(found: Option<Spans>, atoms: seq<Segment>, tail: nat, comps: seq<string>, pos: nat): Option<Spans>
  {
    match found
    case None => None
    case Some(spans) => PrependSpans(spans, Find(atoms, tail, comps, EndOf(pos, spans)))
  }

  lemma FindOnFrom(spans: Spans, atoms: seq<Segment>, tail: nat, comps: seq<string>, pos: nat, end: nat)
    requires end == EndOf(pos, spans)
    ensures FindOn(Some(spans), atoms, tail, comps, pos) == PrependSpans(spans, Find(atoms, tail, comps, end))
  {
  }

  lemma PrependFindOn(span: seq<string>, found: Option<Spans>, atoms: seq<Segment>, tail: nat, comps: seq<string>,
                      pos: nat)
    ensures FindOn(PrependSpans([span], found), atoms, tail, comps, pos)
         == PrependSpans([span], FindOn(found, atoms, tail, comps, pos + |span|))
  {
    match found
    case None =>
    case Some(spans) =>
      assert ([span] + spans)[1..] == spans;
      assert |Flatten([span] + spans)| == |span| + |Flatten(spans)|;
      match Find(atoms, tail, comps, EndOf(pos + |span|, spans))
      case None =>
      case Some(more) => assert [span] + spans + more == [span] + (spans + more);
  }

  lemma {:induction false} FindAppend(a: seq<Segment>, b: seq<Segment>, tail: nat, comps: seq<string>, pos: nat)
    requires pos <= |comps|
    ensures Find(a + b, tail, comps, pos) == FindOn(Find(a, tail, comps, pos), b, tail, comps, pos)
    decreases |a|
  {
    if a == [] {
      assert a + b == b;
      var found := Find(b, tail, comps, pos);
      assert found.Some? ==> [] + found.value == found.value;
    } else {
      assert (a + b)[1..] == a[1..] + b && (a + b)[0] == a[0];
      var end := if a[0] == DeepWildcard then |comps| - tail else pos + 1;
      if pos <= end <= |comps| && SpanOk(a[0], comps[pos..end]) {
        FindAppend(a[1..], b, tail, comps, end);
        assert Find(a + b, tail, comps, pos) == PrependSpans([comps[pos..end]], Find(a[1..] + b, tail, comps, end));
        PrependFindOn(comps[pos..end], Find(a[1..], tail, comps, end), b, tail, comps, pos);
      }
    }
  }

  /** The state after pushing the texts of the spans found. */
  function Pushed(s: Sym, found: Option<Spans>): Option<Sym>
  {
    match found
    case None => None
    case Some(spans) => Some(Sym(EndOf(s.pos, spans), s.stack + Values(spans), s.bound))
  }

  lemma PushCons(stack: seq<string>, span: seq<string>, spans: Spans)
    ensures |Flatten([span] + spans)| == |span| + |Flatten(spans)|
    ensures stack + Values([span] + spans) == stack + [Join(span, "/")] + Values(spans)
  {
    assert ([span] + spans)[1..] == spans;
    assert Values([span] + spans) == [Join(span, "/")] + Values(spans);
    assert stack + ([Join(span, "/")] + Values(spans)) == stack + [Join(span, "/")] + Values(spans);
  }

  lemma PushedSame(s: Sym, value: string, span: seq<string>, spans: Spans)
    requires |Flatten([span] + spans)| == |span| + |Flatten(spans)|
    requires s.stack + Values([span] + spans) == s.stack + [value] + Values(spans)
    ensures Pushed(s, Some([span] + spans)) == Pushed(Sym(s.pos + |span|, s.stack + [value], s.bound), Some(spans))
  {
  }

  lemma PushedOne(s: Sym, span: seq<string>, found: Option<Spans>)
    ensures Pushed(s, PrependSpans([span], found))
         == Pushed(Sym(s.pos + |span|, s.stack + [Join(span, "/")], s.bound), found)
  {
    if found.Some? {
      PushCons(s.stack, span, found.value);
      PushedSame(s, Join(span, "/"), span, found.value);
    }
  }

  lemma AtomRun(a: Segment, tail: nat, comps: seq<string>, s: Sym)
    requires !a.Variable? && s.pos <= |comps|
    ensures var end := if a == DeepWildcard then |comps| - tail else s.pos + 1;
      SymRun(CompileSegment(a), tail, comps, s)
      == if s.pos <= end <= |comps| && SpanOk(a, comps[s.pos..end])
         then Some(Sym(end, s.stack + [Join(comps[s.pos..end], "/")], s.bound)) else None
  {
    assert CompileSegment(a)[1..] == [];
    var end := if a == DeepWildcard then |comps| - tail else s.pos + 1;
    if s.pos < |comps| {
      assert comps[s.pos..s.pos + 1] == [comps[s.pos]];
    }
  }

  /** Compiled atoms push the texts of the spans that `Find` finds. */
  lemma {:induction false} AtomsRun(atoms: seq<Segment>, tail: nat, comps: seq<string>, s: Sym)
    requires AtomsOnly(atoms) && s.pos <= |comps|
    ensures SymRun(CompileAll(atoms), tail, comps, s) == Pushed(s, Find(atoms, tail, comps, s.pos))
    decreases |atoms|
  {
    if atoms == [] {
      assert s.stack + Values([]) == s.stack;
    } else {
      var a := atoms[0];
      SymRunAppend(CompileSegment(a), CompileAll(atoms[1..]), tail, comps, s);
      AtomRun(a, tail, comps, s);
      var end := if a == DeepWildcard then |comps| - tail else s.pos + 1;
      if s.pos <= end <= |comps| && SpanOk(a, comps[s.pos..end]) {
        var span := comps[s.pos..end];
        AtomsRun(atoms[1..], tail, comps, Sym(end, s.stack + [Join(span, "/")], s.bound));
        PushedOne(s, span, Find(atoms[1..], tail, comps, end));
      }
    }
  }

  /** The state after binding `v` to the join of its body's span texts; nothing is left on the stack. */
  function BoundTo(v: Segment, s: Sym, found: Option<Spans>): Option<Sym>
    requires v.Variable?
  {
    match found
    case None => None
    case Some(spans) => Some(Sym(EndOf(s.pos, spans), s.stack, s.bound + [(v.path, Join(Values(spans), "/"))]))
  }

  lemma CloseRun(v: Segment, tail: nat, comps: seq<string>, s: Sym, values: seq<string>, pos: nat)
    requires v.Variable? && |values| == |v.segments| > 0
    ensures SymRun([Op(CONCAT_N, "", |v.segments|), Op(CAPTURE, v.path, 0)], tail, comps,
                   Sym(pos, s.stack + values, s.bound))
         == Some(Sym(pos, s.stack, s.bound + [(v.path, Join(values, "/"))]))
  {
    var close := [Op(CONCAT_N, "", |v.segments|), Op(CAPTURE, v.path, 0)];
    var s1 := Sym(pos, s.stack + values, s.bound);
    assert s1.stack[|s.stack|..] == values && s1.stack[..|s.stack|] == s.stack;
    var s2 := s1.(stack := s.stack + [Join(values, "/")]);
    assert SymStep(close[0], tail, comps, s1) == Some(s2);
    assert s2.stack[..|s.stack|] == s.stack;
    assert close[1..] == [close[1]] && close[1..][1..] == [];
    assert SymRun(close[1..], tail, comps, s2) == SymStep(close[1], tail, comps, s2);
  }

  lemma VariableRun(v: Segment, tail: nat, comps: seq<string>, s: Sym)
    requires v.Variable? && AtomsOnly(v.segments) && v.segments != [] && s.pos <= |comps|
    ensures SymRun(CompileSegment(v), tail, comps, s) == BoundTo(v, s, Find(v.segments, tail, comps, s.pos))
  {
    var close := [Op(CONCAT_N, "", |v.segments|), Op(CAPTURE, v.path, 0)];
    SymRunAppend(CompileAll(v.segments), close, tail, comps, s);
    AtomsRun(v.segments, tail, comps, s);
    var found := Find(v.segments, tail, comps, s.pos);
    if found.Some? {
      CloseRun(v, tail, comps, s, Values(found.value), EndOf(s.pos, found.value));
    }
  }

  /** Where a run ends and what it has bound. */
  function Observed(end: Option<Sym>): Option<(nat, seq<(string, string)>)>
  {
    match end
    case None => None
    case Some(s) => Some((s.pos, s.bound))
  }

  /** Where the run over one segment should end, and with which bindings, given the spans found. */
  function ExpectedOne(v: Segment, found: Option<Spans>, s: Sym): Option<(nat, seq<(string, string)>)>
  {
    match found
    case None => None
    case Some(spans) => Some((EndOf(s.pos, spans), s.bound + BindingOf(v, spans)))
  }

  function Expected(segments: seq<Segment>, found: Option<Spans>, s: Sym): Option<(nat, seq<(string, string)>)>
    requires found.Some? ==> |found.value| == |Atoms(segments)|
  {
    match found
    case None => None
    case Some(spans) => Some((EndOf(s.pos, spans), s.bound + Bindings(segments, spans)))
  }

  lemma SegmentRun(v: Segment, tail: nat, comps: seq<string>, s: Sym)
    requires v.Variable? ==> AtomsOnly(v.segments) && v.segments != []
    requires s.pos <= |comps|
    ensures Observed(SymRun(CompileSegment(v), tail, comps, s)) == ExpectedOne(v, Find(AtomsOf(v), tail, comps, s.pos), s)
  {
    if v.Variable? {
      VariableRun(v, tail, comps, s);
    } else {
      AtomsRun([v], tail, comps, s);
      assert CompileAll([v]) == CompileSegment(v) && AtomsOf(v) == [v];
      assert s.bound + [] == s.bound;
    }
  }

  lemma {:induction false} SegmentsRun(segments: seq<Segment>, tail: nat, comps: seq<string>, s: Sym)
    requires Flat(segments) && Bodied(segments) && s.pos <= |comps|
    ensures Observed(SymRun(CompileAll(segments), tail, comps, s))
         == Expected(segments, Find(Atoms(segments), tail, comps, s.pos), s)
    decreases |segments|, 1
  {
    if segments == [] {
      assert s.bound + Bindings([], []) == s.bound;
    } else {
      var v, rest := segments[0], segments[1..];
      var found := Find(AtomsOf(v), tail, comps, s.pos);
      SymRunAppend(CompileSegment(v), CompileAll(rest), tail, comps, s);
      FindAppend(AtomsOf(v), Atoms(rest), tail, comps, s.pos);
      SegmentRun(v, tail, comps, s);
      var first := SymRun(CompileSegment(v), tail, comps, s);
      assert SymRun(CompileAll(segments), tail, comps, s) == Resume(first, CompileAll(rest), tail, comps);
      assert Find(Atoms(segments), tail, comps, s.pos) == FindOn(found, Atoms(rest), tail, comps, s.pos);
      if found.None? {
        assert first.None?;
      } else {
        FindIsReading(AtomsOf(v), tail, comps, s.pos);
        SegmentsRunOn(segments, found.value, tail, comps, s, first.value);
        FindOnFrom(found.value, Atoms(rest), tail, comps, s.pos, first.value.pos);
      }
    }
  }

  /** The rest of the run, from the state in which the first segment leaves the machine. */
  lemma {:induction false} SegmentsRunOn(segments: seq<Segment>, spans: Spans, tail: nat, comps: seq<string>,
                                             s: Sym, s': Sym)
    requires Flat(segments) && Bodied(segments) && segments != [] && |spans| == |AtomsOf(segments[0])|
    requires s'.pos == EndOf(s.pos, spans) <= |comps| && s'.bound == s.bound + BindingOf(segments[0], spans)
    ensures Observed(SymRun(CompileAll(segments[1..]), tail, comps, s'))
         == Expected(segments, PrependSpans(spans, Find(Atoms(segments[1..]), tail, comps, s'.pos)), s)
    decreases |segments|, 0
  {
    SegmentsRun(segments[1..], tail, comps, s');
    Joined(segments, spans, Find(Atoms(segments[1..]), tail, comps, s'.pos), s, s');
  }

  lemma Joined(segments: seq<Segment>, spans: Spans, found: Option<Spans>, s: Sym, s': Sym)
    requires segments != [] && |spans| == |AtomsOf(segments[0])|
    requires found.Some? ==> |found.value| == |Atoms(segments[1..])|
    requires s'.pos == EndOf(s.pos, spans) && s'.bound == s.bound + BindingOf(segments[0], spans)
    ensures Expected(segments, PrependSpans(spans, found), s) == Expected(segments[1..], found, s')
  {
    if found.Some? {
      var more := found.value;
      FlattenAppend(spans, more);
      assert (spans + more)[..|spans|] == spans && (spans + more)[|spans|..] == more;
      var head := BindingOf(segments[0], spans);
      PlusAssociates(s.bound, head, Bindings(segments[1..], more));
    }
  }
}
