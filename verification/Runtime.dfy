/** api/router/util/runtime.go: the bytecode verifier, the stack machine and the decompiler. */
module Runtime {
  import opened OpCodes
  import opened Text
  import opened Wrappers

  datatype Rop = Rop(code: int, operand: int)

  datatype Pattern = Pattern(verb: string, ops: seq<Rop>, pool: seq<string>, vars: seq<string>,
                             stacksize: nat, tailLen: nat, assumeColonVerb: bool)

  // ----- NewPattern -----

  /** The local variables of `NewPattern`'s loop. */
  datatype Checker = Checker(typed: seq<Rop>, stack: nat, maxstack: nat, tailLen: nat,
                             pushMSeen: bool, vars: seq<string>)

  const START := Checker([], 0, 0, 0, false, [])

  function Emit(c: Checker, op: Rop): Checker
  {
    c.(typed := c.typed + [op], maxstack := if c.maxstack < c.stack then c.stack else c.maxstack)
  }

  function CheckPush(c: Checker, op: Rop): Checker
  {
    Emit(c.(tailLen := if c.pushMSeen then c.tailLen + 1 else c.tailLen, stack := c.stack + 1), op)
  }

  /** One iteration; None where the source returns ErrInvalidPattern. */
  function CheckOp(c: Checker, op: Rop, pool: seq<string>): Option<Checker>
  {
    if op.code == NOP then
      Some(c)
    else if op.code == PUSH then
      Some(CheckPush(c, op))
    else if op.code == PUSH_M then
      if c.pushMSeen then None else Some(Emit(c.(pushMSeen := true, stack := c.stack + 1), op))
    else if op.code == LIT_PUSH then
      if op.operand < 0 || |pool| <= op.operand then None else Some(CheckPush(c, op))
    else if op.code == CONCAT_N then
      if op.operand <= 0 || c.stack < op.operand then None else Some(Emit(c.(stack := c.stack - op.operand + 1), op))
    else if op.code == CAPTURE then
      if op.operand < 0 || |pool| <= op.operand || c.stack == 0 then None else
      Some(Emit(c.(stack := c.stack - 1, vars := c.vars + [pool[op.operand]]), Rop(CAPTURE, |c.vars|)))
    else
      None
  }

  function CheckOps(c: Checker, ops: seq<int>, pool: seq<string>): Option<Checker>
    requires |ops| % 2 == 0
    decreases |ops|
  {
    if ops == [] then Some(c) else
    match CheckOp(c, Rop(ops[0], ops[1]), pool)
    case None => None
    case Some(c') => CheckOps(c', ops[2..], pool)
  }

  function Build(version: int, ops: seq<int>, pool: seq<string>, verb: string, assumeColonVerb: bool): Option<Pattern>
  {
    if version != 1 || |ops| % 2 != 0 then None else
    match CheckOps(START, ops, pool)
    case None => None
    case Some(c) => Some(Pattern(verb, c.typed, pool, c.vars, c.maxstack, c.tailLen, assumeColonVerb))
  }

  method NewPattern(version: int, ops: seq<int>, pool: seq<string>, verb: string, assumeColonVerb: bool)
    returns (r: Option<Pattern>)
    ensures r == Build(version, ops, pool, verb, assumeColonVerb)
    ensures r.Some? ==> Verified(r.value)
  {
    if version != 1 {
      return None;
    }
    var l := |ops|;
    if l % 2 != 0 {
      return None;
    }
    var typedOps, vars := [], [];
    var stack, maxstack, tailLen := 0, 0, 0;
    var pushMSeen := false;
    var i := 0;
    while i < l
      invariant 0 <= i <= l && i % 2 == 0 && 0 <= stack && 0 <= maxstack && 0 <= tailLen
      invariant CheckOps(Checker(typedOps, stack, maxstack, tailLen, pushMSeen, vars), ops[i..], pool)
             == CheckOps(START, ops, pool)
    {
      var op := Rop(ops[i], ops[i + 1]);
      ghost var c := Checker(typedOps, stack, maxstack, tailLen, pushMSeen, vars);
      assert ops[i..][2..] == ops[i + 2..];
      i := i + 2;
      if op.code == NOP {
        continue;
      } else if op.code == PUSH {
        if pushMSeen {
          tailLen := tailLen + 1;
        }
        stack := stack + 1;
      } else if op.code == PUSH_M {
        if pushMSeen {
          return None;
        }
        pushMSeen := true;
        stack := stack + 1;
      } else if op.code == LIT_PUSH {
        if op.operand < 0 || |pool| <= op.operand {
          return None;
        }
        if pushMSeen {
          tailLen := tailLen + 1;
        }
        stack := stack + 1;
      } else if op.code == CONCAT_N {
        if op.operand <= 0 {
          return None;
        }
        stack := stack - op.operand;
        if stack < 0 {
          return None;
        }
        stack := stack + 1;
      } else if op.code == CAPTURE {
        if op.operand < 0 || |pool| <= op.operand {
          return None;
        }
        var v := pool[op.operand];
        op := op.(operand := |vars|);
        vars := vars + [v];
        stack := stack - 1;
        if stack < 0 {
          return None;
        }
      } else {
        return None;
      }
      if maxstack < stack {
        maxstack := stack;
      }
      typedOps := typedOps + [op];
    }
    r := Some(Pattern(verb, typedOps, pool, vars, maxstack, tailLen, assumeColonVerb));
    BuiltIsVerified(version, ops, pool, verb, assumeColonVerb);
  }

  // ----- What NewPattern's acceptance establishes -----

  function HeightAfter(h: int, op: Rop): int
  {
    if op.code == CONCAT_N then h - op.operand + 1 else
    if op.code == CAPTURE then h - 1 else h + 1
  }

  /** How high `ops` leave a stack of height `h`. */
  function Height(h: int, ops: seq<Rop>): int
    decreases |ops|
  {
    if ops == [] then h else Height(HeightAfter(h, ops[0]), ops[1..])
  }

  predicate IsPush(op: Rop)
  {
    op.code == PUSH || op.code == LIT_PUSH
  }

  /** The number of operations that consume exactly one component. */
  function Pushes(ops: seq<Rop>): nat
  {
    if ops == [] then 0 else (if IsPush(ops[0]) then 1 else 0) + Pushes(ops[1..])
  }

  predicate HasPushM(ops: seq<Rop>)
  {
    exists op <- ops :: op.code == PUSH_M
  }

  /** `ops` can run from height `h` with `captures` variables bound so far: no underflow, no index
      out of range, variables numbered in order, and no stack higher than the pattern announces. */
  predicate SafeFrom(p: Pattern, ops: seq<Rop>, h: nat, captures: nat)
    decreases |ops|
  {
    if ops == [] then captures == |p.vars| else
    var op := ops[0];
    && OpSafe(p, op, h, captures)
    && SafeFrom(p, ops[1..], HeightAfter(h, op), if op.code == CAPTURE then captures + 1 else captures)
  }

  predicate OpSafe(p: Pattern, op: Rop, h: nat, captures: nat)
  {
    && (op.code == PUSH || op.code == PUSH_M
        || (op.code == LIT_PUSH && 0 <= op.operand < |p.pool|)
        || (op.code == CONCAT_N && 1 <= op.operand <= h)
        || (op.code == CAPTURE && op.operand == captures < |p.vars| && 1 <= h))
    && HeightAfter(h, op) <= p.stacksize
  }

  /** At most one PUSH_M, and the recorded tail is the number of pushes after it. */
  predicate TailOk(ops: seq<Rop>, tailLen: nat)
  {
    if ops == [] then tailLen == 0 else
    if ops[0].code == PUSH_M then !HasPushM(ops[1..]) && tailLen == Pushes(ops[1..]) else TailOk(ops[1..], tailLen)
  }

  predicate Verified(p: Pattern)
  {
    SafeFrom(p, p.ops, 0, 0) && TailOk(p.ops, p.tailLen)
  }

  /** What the loop appends to `typedOps` from state `c` on: NOPs vanish, captures are numbered anew. */
  function TypedOps(c: Checker, ops: seq<int>, pool: seq<string>): seq<Rop>
    requires |ops| % 2 == 0 && CheckOps(c, ops, pool).Some?
    decreases |ops|
  {
    if ops == [] then [] else
    var op := Rop(ops[0], ops[1]);
    var rest := TypedOps(CheckOp(c, op, pool).value, ops[2..], pool);
    if op.code == NOP then rest else
    [Typed(c, op)] + rest
  }

  /** The loop only appends to its slices and raises its maximum. */
  lemma {:induction false} CheckedGrows(c: Checker, ops: seq<int>, pool: seq<string>)
    requires |ops| % 2 == 0 && CheckOps(c, ops, pool).Some?
    ensures var c' := CheckOps(c, ops, pool).value;
      && c'.typed == c.typed + TypedOps(c, ops, pool)
      && c.vars <= c'.vars
      && c.maxstack <= c'.maxstack
    decreases |ops|
  {
    if ops != [] {
      var op := Rop(ops[0], ops[1]);
      var c1 := CheckOp(c, op, pool).value;
      CheckedOpGrows(c, op, pool);
      CheckedGrows(c1, ops[2..], pool);
      if op.code != NOP {
        PlusAssociates(c.typed, [Typed(c, op)], TypedOps(c1, ops[2..], pool));
      }
    }
  }

  lemma CheckedOpGrows(c: Checker, op: Rop, pool: seq<string>)
    requires CheckOp(c, op, pool).Some?
    ensures var c' := CheckOp(c, op, pool).value;
      && c'.typed == (if op.code == NOP then c.typed else c.typed + [Typed(c, op)])
      && c.vars <= c'.vars && c.maxstack <= c'.maxstack
  {
  }

  lemma {:induction false} CheckedTail(c: Checker, ops: seq<int>, pool: seq<string>)
    requires |ops| % 2 == 0 && CheckOps(c, ops, pool).Some?
    ensures var added, c' := TypedOps(c, ops, pool), CheckOps(c, ops, pool).value;
      && (c.pushMSeen ==> !HasPushM(added) && c'.tailLen == c.tailLen + Pushes(added))
      && (!c.pushMSeen && c.tailLen == 0 ==> TailOk(added, c'.tailLen))
    decreases |ops|
  {
    if ops != [] {
      var c1 := CheckOp(c, Rop(ops[0], ops[1]), pool).value;
      CheckedTail(c1, ops[2..], pool);
      var added := TypedOps(c, ops, pool);
      if ops[0] != NOP {
        assert added[1..] == TypedOps(c1, ops[2..], pool);
        assert added[0].code == ops[0];
      }
    }
  }

  /** The operation as `NewPattern` appends it. */
  function Typed(c: Checker, op: Rop): Rop
  {
    if op.code == CAPTURE then Rop(CAPTURE, |c.vars|) else op
  }

  /** What one accepted operation may do from the height and capture count of the check. */
  lemma CheckedOpSafe(c: Checker, op: Rop, pool: seq<string>, p: Pattern)
    requires op.code != NOP && CheckOp(c, op, pool).Some? && p.pool == pool
    requires var c' := CheckOp(c, op, pool).value; c'.vars <= p.vars && c'.maxstack <= p.stacksize
    ensures var c', t := CheckOp(c, op, pool).value, Typed(c, op);
      && OpSafe(p, t, c.stack, |c.vars|)
      && HeightAfter(c.stack, t) == c'.stack
      && |c'.vars| == if t.code == CAPTURE then |c.vars| + 1 else |c.vars|
  {
  }

  lemma {:induction false} CheckedSafe(c: Checker, ops: seq<int>, pool: seq<string>, p: Pattern)
    requires |ops| % 2 == 0 && CheckOps(c, ops, pool).Some?
    requires var c' := CheckOps(c, ops, pool).value;
      p.pool == pool && p.vars == c'.vars && p.stacksize == c'.maxstack
    ensures SafeFrom(p, TypedOps(c, ops, pool), c.stack, |c.vars|)
    decreases |ops|
  {
    if ops != [] {
      var op := Rop(ops[0], ops[1]);
      var c1 := CheckOp(c, op, pool).value;
      CheckedSafe(c1, ops[2..], pool, p);
      if op.code != NOP {
        CheckedGrows(c1, ops[2..], pool);
        CheckedOpSafe(c, op, pool, p);
        assert TypedOps(c, ops, pool)[1..] == TypedOps(c1, ops[2..], pool);
      }
    }
  }

  lemma BuiltIsVerified(version: int, ops: seq<int>, pool: seq<string>, verb: string, assumeColonVerb: bool)
    requires Build(version, ops, pool, verb, assumeColonVerb).Some?
    ensures Verified(Build(version, ops, pool, verb, assumeColonVerb).value)
  {
    var p := Build(version, ops, pool, verb, assumeColonVerb).value;
    CheckedGrows(START, ops, pool);
    assert p.ops == TypedOps(START, ops, pool);
    CheckedSafe(START, ops, pool, p);
    CheckedTail(START, ops, pool);
  }

  // ----- Exactly which integers NewPattern accepts -----

  /** The integers as operations with their operands. */
  function Pairs(ops: seq<int>): (rs: seq<Rop>)
    requires |ops| % 2 == 0
    decreases |ops|
  {
    if ops == [] then [] else [Rop(ops[0], ops[1])] + Pairs(ops[2..])
  }

  /** What an operation adds to the height of the stack. */
  function Net(op: Rop): int
  {
    if op.code == NOP then 0 else
    if op.code == CONCAT_N then 1 - op.operand else
    if op.code == CAPTURE then -1 else 1
  }

  /** The height of the stack before operation `i`, from height `h` on. */
  function Depth(rs: seq<Rop>, i: nat, h: int): int
    requires i <= |rs|
  {
    if i == 0 then h else Depth(rs, i - 1, h) + Net(rs[i - 1])
  }

  /** Operation `i` is known, finds its string in the pool and its items on the stack, and is no second PUSH_M. */
  predicate Allowed(rs: seq<Rop>, i: nat, h: int, seen: bool, pool: seq<string>)
    requires i < |rs|
  {
    var op, depth := rs[i], Depth(rs, i, h);
    || op.code == NOP || op.code == PUSH
    || (op.code == PUSH_M && !seen && forall j :: 0 <= j < i ==> rs[j].code != PUSH_M)
    || (op.code == LIT_PUSH && 0 <= op.operand < |pool|)
    || (op.code == CONCAT_N && 1 <= op.operand <= depth)
    || (op.code == CAPTURE && 0 <= op.operand < |pool| && 1 <= depth)
  }

  lemma {:induction false} DepthCons(rs: seq<Rop>, i: nat, h: int)
    requires 1 <= i <= |rs|
    ensures Depth(rs, i, h) == Depth(rs[1..], i - 1, h + Net(rs[0]))
  {
    if i > 1 {
      DepthCons(rs, i - 1, h);
    }
  }

  lemma AllowedCons(rs: seq<Rop>, h: int, seen: bool, pool: seq<string>, i: nat)
    requires 1 <= i < |rs|
    ensures Allowed(rs, i, h, seen, pool)
       <==> Allowed(rs[1..], i - 1, h + Net(rs[0]), seen || rs[0].code == PUSH_M, pool)
  {
    DepthCons(rs, i, h);
    assert forall j :: 0 < j < |rs| ==> rs[j] == rs[1..][j - 1];
    if rs[i].code == PUSH_M && forall j :: 0 <= j < i - 1 ==> rs[1..][j].code != PUSH_M {
      assert forall j :: 0 < j < i ==> rs[j].code != PUSH_M;
    }
  }

  predicate AllAllowed(rs: seq<Rop>, h: int, seen: bool, pool: seq<string>)
  {
    forall i :: 0 <= i < |rs| ==> Allowed(rs, i, h, seen, pool)
  }

  lemma AllAllowedCons(rs: seq<Rop>, h: int, seen: bool, pool: seq<string>)
    requires rs != []
    ensures AllAllowed(rs, h, seen, pool)
       <==> Allowed(rs, 0, h, seen, pool)
            && AllAllowed(rs[1..], h + Net(rs[0]), seen || rs[0].code == PUSH_M, pool)
  {
    var h', seen' := h + Net(rs[0]), seen || rs[0].code == PUSH_M;
    forall i | 0 <= i < |rs[1..]|
      ensures Allowed(rs[1..], i, h', seen', pool) <==> Allowed(rs, i + 1, h, seen, pool)
    {
      AllowedCons(rs, h, seen, pool, i + 1);
    }
    forall i | 1 <= i < |rs|
      ensures Allowed(rs, i, h, seen, pool) <==> Allowed(rs[1..], i - 1, h', seen', pool)
    {
      AllowedCons(rs, h, seen, pool, i);
    }
  }

  lemma CheckedFirst(c: Checker, rs: seq<Rop>, pool: seq<string>)
    requires rs != []
    ensures CheckOp(c, rs[0], pool).Some? <==> Allowed(rs, 0, c.stack, c.pushMSeen, pool)
    ensures CheckOp(c, rs[0], pool).Some? ==>
      var c' := CheckOp(c, rs[0], pool).value;
      c'.stack == c.stack + Net(rs[0]) && c'.pushMSeen == (c.pushMSeen || rs[0].code == PUSH_M)
  {
  }

  lemma {:induction false} CheckedExactlyWhen(c: Checker, ops: seq<int>, pool: seq<string>)
    requires |ops| % 2 == 0
    ensures CheckOps(c, ops, pool).Some? <==> AllAllowed(Pairs(ops), c.stack, c.pushMSeen, pool)
    decreases |ops|
  {
    if ops != [] {
      var rs, op := Pairs(ops), Rop(ops[0], ops[1]);
      assert rs[0] == op && rs[1..] == Pairs(ops[2..]);
      AllAllowedCons(rs, c.stack, c.pushMSeen, pool);
      CheckedFirst(c, rs, pool);
      if CheckOp(c, op, pool).Some? {
        CheckedExactlyWhen(CheckOp(c, op, pool).value, ops[2..], pool);
      }
    }
  }

  /** NewPattern accepts version 1 and pairs of integers of which each is allowed, and nothing else. */
  lemma AcceptedExactlyWhen(version: int, ops: seq<int>, pool: seq<string>, verb: string, assumeColonVerb: bool)
    ensures Build(version, ops, pool, verb, assumeColonVerb).Some?
       <==> version == 1 && |ops| % 2 == 0
            && forall i :: 0 <= i < |Pairs(ops)| ==> Allowed(Pairs(ops), i, 0, false, pool)
  {
    if |ops| % 2 == 0 {
      CheckedExactlyWhen(START, ops, pool);
    }
  }

  // ----- Match -----

  /** The local variables of `Match`'s loop. */
  datatype Machine = Machine(pos: nat, stack: seq<string>, captured: seq<string>)

  /** Panic is Go's index-out-of-range. */
  datatype Outcome = Running(m: Machine) | NotMatch | Panic

  function Step(p: Pattern, op: Rop, comps: seq<string>, m: Machine): Outcome
  {
    if op.code == PUSH || op.code == LIT_PUSH then
      if |comps| <= m.pos then NotMatch else
      if op.code == LIT_PUSH && !(0 <= op.operand < |p.pool|) then Panic else
      if op.code == LIT_PUSH && comps[m.pos] != p.pool[op.operand] then NotMatch else
      Running(m.(stack := m.stack + [comps[m.pos]], pos := m.pos + 1))
    else if op.code == PUSH_M then
      if |comps| < m.pos + p.tailLen then NotMatch else
      var end := |comps| - p.tailLen;
      Running(m.(stack := m.stack + [Join(comps[m.pos..end], "/")], pos := end))
    else if op.code == CONCAT_N then
      var l := |m.stack| - op.operand;
      if !(0 <= l <= |m.stack|) then Panic else
      Running(m.(stack := m.stack[..l] + [Join(m.stack[l..], "/")]))
    else if op.code == CAPTURE then
      var n := |m.stack| - 1;
      if n < 0 || !(0 <= op.operand < |m.captured|) then Panic else
      Running(m.(captured := m.captured[op.operand := m.stack[n]], stack := m.stack[..n]))
    else
      Running(m)
  }

  function Run(p: Pattern, ops: seq<Rop>, comps: seq<string>, m: Machine): Outcome
    decreases |ops|
  {
    if ops == [] then Running(m) else
    match Step(p, ops[0], comps, m)
    case Running(m') => Run(p, ops[1..], comps, m')
    case other => other
  }

  function Initial(p: Pattern): Machine
  {
    Machine(0, [], seq(|p.vars|, _ => ""))
  }

  /** Assigning `vals` to `vars` from left to right: the last occurrence of a name wins. */
  function Bind(vars: seq<string>, vals: seq<string>): map<string, string>
    requires |vars| == |vals|
  {
    if vars == [] then map[] else
    Bind(vars[..|vars| - 1], vals[..|vars| - 1])[vars[|vars| - 1] := vals[|vars| - 1]]
  }

  /** No later name is the same. */
  predicate IsLast(vars: seq<string>, k: nat)
    requires k < |vars|
  {
    forall j :: k < j < |vars| ==> vars[j] != vars[k]
  }

  lemma {:induction false} BindAt(vars: seq<string>, vals: seq<string>, k: nat)
    requires |vars| == |vals| && k < |vars| && IsLast(vars, k)
    ensures vars[k] in Bind(vars, vals) && Bind(vars, vals)[vars[k]] == vals[k]
  {
    var n := |vars| - 1;
    if k < n {
      assert vars[n] != vars[k];
      assert IsLast(vars[..n], k);
      BindAt(vars[..n], vals[..n], k);
    }
  }

  lemma {:induction false} BindNames(vars: seq<string>, vals: seq<string>)
    requires |vars| == |vals|
    ensures Bind(vars, vals).Keys == set v | v in vars
  {
    if vars != [] {
      var n := |vars| - 1;
      BindNames(vars[..n], vals[..n]);
      assert vars == vars[..n] + [vars[n]];
    }
  }

  /** Each name has the value of its last occurrence. */
  lemma BindIsLast(vars: seq<string>, vals: seq<string>)
    requires |vars| == |vals|
    ensures forall n :: n in Bind(vars, vals) <==> n in vars
    ensures forall k | 0 <= k < |vars| && IsLast(vars, k) :: Bind(vars, vals)[vars[k]] == vals[k]
  {
    BindNames(vars, vals);
    assert forall n :: n in Bind(vars, vals) <==> n in Bind(vars, vals).Keys;
    forall k | 0 <= k < |vars| && IsLast(vars, k)
      ensures Bind(vars, vals)[vars[k]] == vals[k]
    {
      BindAt(vars, vals, k);
    }
  }

  /** The components that are matched once a verb that differs from the pattern's is folded into the
      last one, or None when it may not be. */
  function FoldVerb(p: Pattern, comps: seq<string>, verb: string): Option<seq<string>>
  {
    if p.verb == verb then Some(comps) else
    if p.assumeColonVerb || p.verb != "" then None else
    if comps == [] then Some([":" + verb]) else
    Some(comps[|comps| - 1 := comps[|comps| - 1] + ":" + verb])
  }

  /** What the machine makes of the components: the captured values, if it halts at their end. */
  function Captures(p: Pattern, comps: seq<string>): Option<seq<string>>
  {
    match Run(p, p.ops, comps, Initial(p))
    case Running(m) => if m.pos < |comps| then None else Some(m.captured)
    case _ => None
  }

  function MatchResult(p: Pattern, comps: seq<string>, verb: string): Option<map<string, string>>
  {
    match FoldVerb(p, comps, verb)
    case None => None
    case Some(cs) =>
      match Captures(p, cs)
      case None => None
      case Some(vals) => if |vals| == |p.vars| then Some(Bind(p.vars, vals)) else None
  }

  method Match(p: Pattern, components: seq<string>, verb: string) returns (bindings: Option<map<string, string>>)
    requires Verified(p)
    ensures bindings == MatchResult(p, components, verb)
    ensures bindings.Some? ==>
      var vals := Captures(p, FoldVerb(p, components, verb).value).value;
      && |vals| == |p.vars| && (forall n :: n in bindings.value <==> n in p.vars)
      && forall k | 0 <= k < |p.vars| && IsLast(p.vars, k) :: bindings.value[p.vars[k]] == vals[k]
  {
    var comps := components;
    if p.verb != verb {
      if p.assumeColonVerb || p.verb != "" {
        return None;
      }
      if |comps| == 0 {
        comps := [":" + verb];
      } else {
        comps := comps[|comps| - 1 := comps[|comps| - 1] + ":" + verb];
      }
    }
    var vals := Execute(p, comps);
    match vals
    case None => return None;
    case Some(captured) =>
      var b: map<string, string> := map[];
      for i := 0 to |captured|
        invariant b == Bind(p.vars[..i], captured[..i])
      {
        assert p.vars[..i + 1][..i] == p.vars[..i] && captured[..i + 1][..i] == captured[..i];
        b := b[p.vars[i] := captured[i]];
      }
      assert p.vars[..|captured|] == p.vars && captured[..|captured|] == captured;
      BindIsLast(p.vars, captured);
      return Some(b);
  }

  lemma StepHeight(p: Pattern, op: Rop, comps: seq<string>, m: Machine)
    requires 0 <= HeightAfter(|m.stack|, op) && Step(p, op, comps, m).Running?
    requires op.code == PUSH || op.code == LIT_PUSH || op.code == PUSH_M || op.code == CONCAT_N || op.code == CAPTURE
    requires m.pos <= |comps|
    ensures var m' := Step(p, op, comps, m).m; |m'.stack| == HeightAfter(|m.stack|, op) && m'.pos <= |comps|
  {
  }

  /** The main loop of `Match`. */
  method Execute(p: Pattern, comps: seq<string>) returns (vals: Option<seq<string>>)
    requires Verified(p)
    ensures vals == Captures(p, comps)
    ensures vals.Some? ==> |vals.value| == |p.vars|
  {
    var pos, l := 0, |comps|;
    var stack: seq<string> := [];
    var captured := new string[|p.vars|](_ => "");
    ghost var bound := 0;
    assert captured[..] == Initial(p).captured;
    for i := 0 to |p.ops|
      invariant pos <= l
      invariant SafeFrom(p, p.ops[i..], |stack|, bound)
      invariant Run(p, p.ops[i..], comps, Machine(pos, stack, captured[..])) == Run(p, p.ops, comps, Initial(p))
    {
      var op := p.ops[i];
      assert p.ops[i..][1..] == p.ops[i + 1..];
      ghost var m := Machine(pos, stack, captured[..]);
      if op.code == PUSH || op.code == LIT_PUSH {
        if pos >= l {
          assert Step(p, op, comps, m) == NotMatch;
          return None;
        }
        var c := comps[pos];
        if op.code == LIT_PUSH {
          if c != p.pool[op.operand] {
            assert Step(p, op, comps, m) == NotMatch;
            return None;
          }
        }
        stack := stack + [c];
        pos := pos + 1;
      } else if op.code == PUSH_M {
        var end := |comps|;
        if end < pos + p.tailLen {
          assert Step(p, op, comps, m) == NotMatch;
          return None;
        }
        end := end - p.tailLen;
        stack := stack + [Join(comps[pos..end], "/")];
        pos := end;
      } else if op.code == CONCAT_N {
        var d := |stack| - op.operand;
        stack := stack[..d] + [Join(stack[d..], "/")];
      } else if op.code == CAPTURE {
        var n := |stack| - 1;
        captured[op.operand] := stack[n];
        assert captured[..] == m.captured[op.operand := m.stack[n]];
        stack := stack[..n];
        bound := bound + 1;
      }
      assert Step(p, op, comps, m) == Running(Machine(pos, stack, captured[..]));
      StepHeight(p, op, comps, m);
    }
    assert p.ops[|p.ops|..] == [];
    if pos < l {
      return None;
    }
    return Some(captured[..]);
  }

  // ----- Pattern.String -----

  /** One iteration of the printer, which leaves a captured item on its stack; None is a Go panic. */
  function PrintStep(p: Pattern, op: Rop, stack: seq<string>): Option<seq<string>>
  {
    if op.code == PUSH then
      Some(stack + ["*"])
    else if op.code == LIT_PUSH then
      if 0 <= op.operand < |p.pool| then Some(stack + [p.pool[op.operand]]) else None
    else if op.code == PUSH_M then
      Some(stack + ["**"])
    else if op.code == CONCAT_N then
      var l := |stack| - op.operand;
      if 0 <= l <= |stack| then Some(stack[..l] + [Join(stack[l..], "/")]) else None
    else if op.code == CAPTURE then
      var n := |stack| - 1;
      if 0 <= n && 0 <= op.operand < |p.vars| then
        Some(stack[n := "{" + p.vars[op.operand] + "=" + stack[n] + "}"])
      else None
    else
      Some(stack)
  }

  function PrintOps(p: Pattern, ops: seq<Rop>, stack: seq<string>): Option<seq<string>>
    decreases |ops|
  {
    if ops == [] then Some(stack) else
    match PrintStep(p, ops[0], stack)
    case None => None
    case Some(stack') => PrintOps(p, ops[1..], stack')
  }

  /** What the printer makes of a pattern; None is a Go panic. */
  function PatternText(p: Pattern): Option<string>
  {
    match PrintOps(p, p.ops, [])
    case None => None
    case Some(stack) =>
      Some(if p.verb != "" then "/" + Join(stack, "/") + ":" + p.verb else "/" + Join(stack, "/"))
  }

  /** `Pattern.String`. The printer's stack is at least as high as the machine's, so it never panics. */
  method PatternString(p: Pattern) returns (s: string)
    requires Verified(p)
    ensures PatternText(p) == Some(s)
  {
    var stack: seq<string> := [];
    ghost var h, bound := 0, 0;
    for i := 0 to |p.ops|
      invariant 0 <= h <= |stack|
      invariant SafeFrom(p, p.ops[i..], h, bound)
      invariant PrintOps(p, p.ops[i..], stack) == PrintOps(p, p.ops, [])
    {
      var op := p.ops[i];
      assert p.ops[i..][1..] == p.ops[i + 1..];
      h := HeightAfter(h, op);
      if op.code == PUSH {
        stack := stack + ["*"];
      } else if op.code == LIT_PUSH {
        stack := stack + [p.pool[op.operand]];
      } else if op.code == PUSH_M {
        stack := stack + ["**"];
      } else if op.code == CONCAT_N {
        var l := |stack| - op.operand;
        stack := stack[..l] + [Join(stack[l..], "/")];
      } else if op.code == CAPTURE {
        var n := |stack| - 1;
        stack := stack[n := "{" + p.vars[op.operand] + "=" + stack[n] + "}"];
        bound := bound + 1;
      }
    }
    var segs := Join(stack, "/");
    if p.verb != "" {
      return "/" + segs + ":" + p.verb;
    }
    return "/" + segs;
  }
}
