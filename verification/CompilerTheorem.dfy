/** The main results about compiled templates. */
module CompilerTheorem {
  import opened Compile
  import opened Correctness
  import opened Meaning
  import opened OpCodes
  import opened Runtime
  import opened Safety
  import opened Types
  import opened Wrappers

  // Which templates NewPattern accepts, what Match then computes, and what the pool and the fields hold.

  /** The pattern that the router builds from a template: `NewPattern` of what `Compile` returns. */
  function PatternOf(t: Template, verb: string, assumeColonVerb: bool): Option<Pattern>
  {
    var c := CompileTemplate(t);
    Build(c.version, c.opCodes, c.pool, verb, assumeColonVerb)
  }

  // ----- Which templates are accepted -----

  /** The static check on one operation that still carries its string: height and "PUSH_M seen". */
  function RawStep(h: nat, seen: bool, op: Op): Option<(nat, bool)>
  {
    if op.code == PUSH || op.code == LIT_PUSH then Some((h + 1, seen))
    else if op.code == PUSH_M then if seen then None else Some((h + 1, true))
    else if op.code == CONCAT_N then if op.operand <= 0 || h < op.operand then None else Some((h - op.operand + 1, seen))
    else if op.code == CAPTURE then if h == 0 then None else Some((h - 1, seen))
    else None
  }

  function RawCheck(h: nat, seen: bool, raw: seq<Op>): Option<(nat, bool)>
    decreases |raw|
  {
    if raw == [] then Some((h, seen)) else
    match RawStep(h, seen, raw[0])
    case None => None
    case Some(next) => RawCheck(next.0, next.1, raw[1..])
  }

  lemma {:induction false} RawCheckAppend(h: nat, seen: bool, a: seq<Op>, b: seq<Op>)
    ensures RawCheck(h, seen, a + b) == match RawCheck(h, seen, a)
      case None => None
      case Some((h', seen')) => RawCheck(h', seen', b)
    decreases |a|
  {
    if a == [] {
      assert a + b == b;
    } else {
      assert (a + b)[1..] == a[1..] + b;
      match RawStep(h, seen, a[0])
      case None =>
      case Some(next) => RawCheckAppend(next.0, next.1, a[1..], b);
    }
  }

  /** The encoded operation passes NewPattern's check exactly when the raw one passes this one. */
  lemma StepsAgree(c: Checker, pool: seq<string>, op: Op, final: seq<string>)
    requires RawOk(op) && (op.str == "" || op.str in pool) && pool <= final
    ensures var checked := CheckOp(c, Rop(op.code, OperandOf(pool, op)), final);
      RawStep(c.stack, c.pushMSeen, op)
      == if checked.Some? then Some((checked.value.stack, checked.value.pushMSeen)) else None
  {
  }

  lemma {:induction false} CheckIsRawCheck(c: Checker, pool: seq<string>, raw: seq<Op>, final: seq<string>)
    requires forall op <- raw :: RawOk(op)
    requires Encode(pool, raw).pool == final
    ensures |Encode(pool, raw).codes| == 2 * |raw|
    ensures CheckOps(c, Encode(pool, raw).codes, final).Some? <==> RawCheck(c.stack, c.pushMSeen, raw).Some?
    decreases |raw|
  {
    if raw != [] {
      var op, pool' := raw[0], Intern(pool, raw[0].str);
      EncodeHead(pool, raw);
      assert RawOk(op);
      StepsAgree(c, pool', op, final);
      var checked := CheckOp(c, Rop(op.code, OperandOf(pool', op)), final);
      var codes, rest := Encode(pool, raw).codes, Encode(pool', raw[1..]).codes;
      assert CheckOps(c, codes, final) == if checked.None? then None else CheckOps(checked.value, rest, final);
      if checked.Some? {
        CheckIsRawCheck(checked.value, pool', raw[1..], final);
      }
    }
  }

  /** How many variables there are, at any depth. */
  function VariablesIn(segments: seq<Segment>): nat
    decreases segments
  {
    if segments == [] then 0 else
    (if segments[0].Variable? then 1 + VariablesIn(segments[0].segments) else 0) + VariablesIn(segments[1..])
  }

  /** How many `**` there are, at any depth. */
  function DeepsIn(segments: seq<Segment>): nat
    decreases segments
  {
    if segments == [] then 0 else DeepsOf(segments[0]) + DeepsIn(segments[1..])
  }

  function DeepsOf(s: Segment): nat
    decreases s
  {
    if s.Variable? then DeepsIn(s.segments) else if s == DeepWildcard then 1 else 0
  }

  /** No variable at any depth has an empty body. */
  predicate AllBodied(segments: seq<Segment>)
    decreases segments
  {
    segments != [] ==>
      && (segments[0].Variable? ==> segments[0].segments != [] && AllBodied(segments[0].segments))
      && AllBodied(segments[1..])
  }

  /** From height `h` on, each of the variables finds as many items on the stack as it has variables inside.
      It takes these, one for each, and an atom leaves one. */
  predicate Covered(h: nat, segments: seq<Segment>)
    decreases |segments|
  {
    if segments == [] then true else
    if segments[0].Variable? then
      var inside := VariablesIn(segments[0].segments);
      inside <= h && Covered(h - inside, segments[1..])
    else
      Covered(h + 1, segments[1..])
  }

  /** A body whose variables are all covered together is covered one by one. */
  lemma {:induction false} CoveredTogether(h: nat, segments: seq<Segment>)
    requires VariablesIn(segments) <= h
    ensures Covered(h, segments)
    decreases |segments|
  {
    if segments != [] {
      var s := segments[0];
      CoveredTogether(if s.Variable? then h - VariablesIn(s.segments) else h + 1, segments[1..]);
    }
  }

  /** What closes a variable needs the whole body on the stack, and takes it. */
  lemma CloseCheck(h: nat, seen: bool, v: Segment)
    requires v.Variable?
    ensures var n := |v.segments|;
      RawCheck(h, seen, [Op(CONCAT_N, "", n), Op(CAPTURE, v.path, 0)])
      == if 0 < n <= h then Some((h - n, seen)) else None
  {
    var n := |v.segments|;
    var close := [Op(CONCAT_N, "", n), Op(CAPTURE, v.path, 0)];
    assert close[1..] == [close[1]] && close[1..][1..] == [];
    if 0 < n <= h {
      assert RawStep(h, seen, close[0]) == Some((h - n + 1, seen));
      assert RawCheck(h - n + 1, seen, close[1..]) == Some((h - n, seen));
    }
  }

  predicate FewDeeps(seen: bool, deeps: nat)
  {
    (if seen then 1 else 0) + deeps <= 1
  }

  lemma {:induction false} SegmentCheck(h: nat, seen: bool, s: Segment)
    ensures var r := RawCheck(h, seen, CompileSegment(s));
      && (r.Some? <==> FewDeeps(seen, DeepsOf(s)) && (s.Variable? ==>
            s.segments != [] && AllBodied(s.segments) && VariablesIn(s.segments) <= h))
      && (r.Some? ==> r.value == (if s.Variable? then h - VariablesIn(s.segments) else h + 1, seen || DeepsOf(s) > 0))
    decreases s, 0
  {
    if s.Variable? {
      RawCheckAppend(h, seen, CompileAll(s.segments), [Op(CONCAT_N, "", |s.segments|), Op(CAPTURE, s.path, 0)]);
      SegmentsCheck(h, seen, s.segments);
      if VariablesIn(s.segments) <= h {
        CoveredTogether(h, s.segments);
      }
      var r := RawCheck(h, seen, CompileAll(s.segments));
      if r.Some? {
        CloseCheck(r.value.0, r.value.1, s);
      }
    } else {
      assert CompileSegment(s)[1..] == [];
    }
  }

  lemma {:induction false} SegmentsCheck(h: nat, seen: bool, segments: seq<Segment>)
    ensures var r := RawCheck(h, seen, CompileAll(segments));
      && (r.Some? <==> AllBodied(segments) && FewDeeps(seen, DeepsIn(segments)) && Covered(h, segments))
      && (r.Some? ==> r.value == (h + |segments| - VariablesIn(segments), seen || DeepsIn(segments) > 0))
    decreases segments, 1
  {
    if segments != [] {
      RawCheckAppend(h, seen, CompileSegment(segments[0]), CompileAll(segments[1..]));
      SegmentCheck(h, seen, segments[0]);
      var r := RawCheck(h, seen, CompileSegment(segments[0]));
      if r.Some? {
        SegmentsCheck(r.value.0, r.value.1, segments[1..]);
      }
    }
  }

  lemma {:induction false} CompiledOpsAreRaw(segments: seq<Segment>)
    requires Named(segments)
    ensures forall op <- CompileAll(segments) :: RawOk(op)
    decreases segments
  {
    if segments != [] {
      var v := segments[0];
      if v.Variable? {
        CompiledOpsAreRaw(v.segments);
      }
      CompiledOpsAreRaw(segments[1..]);
    }
  }

  /** NewPattern accepts a compiled template with no empty name, nested or not, exactly when no variable body
      is empty, `**` occurs at most once, and each variable of the template finds as many items on the stack
      as it has variables inside. */
  lemma Acceptance(t: Template, verb: string, assumeColonVerb: bool)
    requires Named(t.segments)
    ensures PatternOf(t, verb, assumeColonVerb).Some?
       <==> AllBodied(t.segments) && DeepsIn(t.segments) <= 1 && Covered(0, t.segments)
  {
    var raw := CompileAll(t.segments);
    var e := Encode([], raw);
    CompiledOpsAreRaw(t.segments);
    CheckIsRawCheck(START, [], raw, e.pool);
    BuiltFrom(e, CompileTemplate(t), verb, assumeColonVerb);
    SegmentsCheck(0, false, t.segments);
  }

  lemma BuiltFrom(e: Encoding, c: Compiled, verb: string, assumeColonVerb: bool)
    requires c.version == OPCODE_VERSION && c.opCodes == e.codes && c.pool == e.pool && |e.codes| % 2 == 0
    ensures Build(c.version, c.opCodes, c.pool, verb, assumeColonVerb).Some? <==> CheckOps(START, e.codes, e.pool).Some?
  {
  }

  lemma {:induction false} FlatCovered(segments: seq<Segment>, h: nat)
    requires Flat(segments)
    ensures Covered(h, segments)
    decreases |segments|
  {
    if segments != [] {
      FlatCovered(segments[1..], if segments[0].Variable? then h else h + 1);
      if segments[0].Variable? {
        AtomCounts(segments[0].segments);
      }
    }
  }

  lemma {:induction false} FlatCounts(segments: seq<Segment>)
    requires Flat(segments)
    ensures DeepsIn(segments) == Deeps(Atoms(segments)) && (AllBodied(segments) <==> Bodied(segments))
    decreases |segments|
  {
    if segments != [] {
      var s, rest := segments[0], segments[1..];
      FlatCounts(rest);
      DeepsAppend(AtomsOf(s), Atoms(rest));
      if s.Variable? {
        AtomCounts(s.segments);
      }
      BodiedCons(segments);
    }
  }

  lemma BodiedCons(segments: seq<Segment>)
    requires segments != []
    ensures Bodied(segments) <==> (segments[0].Variable? ==> segments[0].segments != []) && Bodied(segments[1..])
  {
    assert segments == [segments[0]] + segments[1..];
  }

  lemma {:induction false} AtomCounts(atoms: seq<Segment>)
    requires AtomsOnly(atoms)
    ensures VariablesIn(atoms) == 0 && DeepsIn(atoms) == Deeps(atoms) && AllBodied(atoms)
  {
    if atoms != [] {
      AtomCounts(atoms[1..]);
    }
  }

  /** A flat template is accepted exactly when no variable body is empty and `**` occurs at most once. */
  lemma FlatAcceptance(t: Template, verb: string, assumeColonVerb: bool)
    requires Flat(t.segments) && Named(t.segments)
    ensures PatternOf(t, verb, assumeColonVerb).Some? <==> Acceptable(t.segments)
  {
    Acceptance(t, verb, assumeColonVerb);
    FlatCovered(t.segments, 0);
    FlatCounts(t.segments);
  }

  // ----- The recorded tail is the number of atoms after `**` -----

  /** Which of the operations that consume components are a PUSH_M, from left to right. */
  function Moves(codes: seq<int>): seq<bool>
  {
    if codes == [] then [] else
    (if codes[0] == CONCAT_N || codes[0] == CAPTURE then [] else [codes[0] == PUSH_M]) + Moves(codes[1..])
  }

  function RawCodes(raw: seq<Op>): (r: seq<int>)
    ensures |r| == |raw|
  {
    seq(|raw|, i requires 0 <= i < |raw| => raw[i].code)
  }

  function DeepFlags(atoms: seq<Segment>): (r: seq<bool>)
    ensures |r| == |atoms|
  {
    seq(|atoms|, i requires 0 <= i < |atoms| => atoms[i] == DeepWildcard)
  }

  predicate TailIs(moves: seq<bool>, tail: nat)
  {
    moves != [] ==>
      if moves[0] then true !in moves[1..] && tail == |moves| - 1 else TailIs(moves[1..], tail)
  }

  lemma {:induction false} MovesAppend(a: seq<int>, b: seq<int>)
    ensures Moves(a + b) == Moves(a) + Moves(b)
  {
    if a == [] {
      assert a + b == b;
    } else {
      assert (a + b)[1..] == a[1..] + b;
      MovesAppend(a[1..], b);
    }
  }

  lemma {:induction false} AtomsMoves(atoms: seq<Segment>)
    requires AtomsOnly(atoms)
    ensures Moves(RawCodes(CompileAll(atoms))) == DeepFlags(atoms)
  {
    if atoms != [] {
      var codes := RawCodes(CompileAll(atoms));
      assert CompileAll(atoms) == CompileSegment(atoms[0]) + CompileAll(atoms[1..]);
      assert |CompileSegment(atoms[0])| == 1;
      assert codes[1..] == RawCodes(CompileAll(atoms[1..]));
      AtomsMoves(atoms[1..]);
      assert DeepFlags(atoms) == [atoms[0] == DeepWildcard] + DeepFlags(atoms[1..]);
    }
  }

  lemma SegmentMoves(v: Segment)
    requires v.Variable? ==> AtomsOnly(v.segments)
    ensures Moves(RawCodes(CompileSegment(v))) == DeepFlags(AtomsOf(v))
  {
    if v.Variable? {
      AtomsMoves(v.segments);
      var codes := RawCodes(CompileAll(v.segments));
      assert RawCodes(CompileSegment(v)) == codes + [CONCAT_N, CAPTURE];
      MovesAppend(codes, [CONCAT_N, CAPTURE]);
      assert [CONCAT_N, CAPTURE][1..] == [CAPTURE] && [CAPTURE][1..] == [];
      assert Moves([CONCAT_N, CAPTURE]) == Moves([CAPTURE]) == [];
    } else {
      AtomsMoves([v]);
      assert CompileAll([v]) == CompileSegment(v);
    }
  }

  lemma RawCodesAppend(a: seq<Op>, b: seq<Op>)
    ensures RawCodes(a + b) == RawCodes(a) + RawCodes(b)
  {
  }

  lemma DeepFlagsAppend(a: seq<Segment>, b: seq<Segment>)
    ensures DeepFlags(a + b) == DeepFlags(a) + DeepFlags(b)
  {
  }

  lemma {:induction false} CompiledMoves(segments: seq<Segment>)
    requires Flat(segments)
    ensures Moves(RawCodes(CompileAll(segments))) == DeepFlags(Atoms(segments))
    decreases |segments|
  {
    if segments != [] {
      var v, rest := segments[0], segments[1..];
      RawCodesAppend(CompileSegment(v), CompileAll(rest));
      MovesAppend(RawCodes(CompileSegment(v)), RawCodes(CompileAll(rest)));
      CompiledMoves(rest);
      SegmentMoves(v);
      DeepFlagsAppend(AtomsOf(v), Atoms(rest));
    }
  }

  lemma {:induction false} SameMoves(p: Pattern, rops: seq<Rop>, raw: seq<Op>, captures: nat, tail: nat)
    requires SameOps(p, rops, raw, captures) && TailOk(rops, tail)
    requires forall op <- raw :: RawOk(op)
    ensures TailIs(Moves(RawCodes(raw)), tail)
    decreases |raw|
  {
    if raw != [] {
      assert RawCodes(raw)[1..] == RawCodes(raw[1..]);
      assert RawOk(raw[0]);
      var captures' := if raw[0].code == CAPTURE then captures + 1 else captures;
      var moves := Moves(RawCodes(raw));
      if raw[0].code == PUSH_M {
        PlainMoves(p, rops[1..], raw[1..], captures');
        assert moves[1..] == Moves(RawCodes(raw[1..]));
      } else {
        SameMoves(p, rops[1..], raw[1..], captures', tail);
        if raw[0].code == PUSH || raw[0].code == LIT_PUSH {
          assert moves[1..] == Moves(RawCodes(raw[1..]));
        } else {
          assert moves == Moves(RawCodes(raw[1..]));
        }
      }
    }
  }

  lemma {:induction false} PlainMoves(p: Pattern, rops: seq<Rop>, raw: seq<Op>, captures: nat)
    requires SameOps(p, rops, raw, captures) && !HasPushM(rops)
    requires forall op <- raw :: RawOk(op)
    ensures |Moves(RawCodes(raw))| == Pushes(rops) && true !in Moves(RawCodes(raw))
    decreases |raw|
  {
    if raw != [] {
      assert RawCodes(raw)[1..] == RawCodes(raw[1..]);
      assert RawOk(raw[0]) && rops[0] in rops;
      PlainMoves(p, rops[1..], raw[1..], if raw[0].code == CAPTURE then captures + 1 else captures);
    }
  }

  // ----- Every reading is found -----

  lemma {:induction false} ReadingIsFound(atoms: seq<Segment>, tail: nat, comps: seq<string>, pos: nat, spans: Spans)
    requires pos <= |comps| && SpansOk(atoms, spans) && Flatten(spans) == comps[pos..]
    requires TailIs(DeepFlags(atoms), tail)
    ensures Find(atoms, tail, comps, pos) == Some(spans)
    decreases |atoms|
  {
    if atoms != [] {
      var end := pos + |spans[0]|;
      assert SpanOk(atoms[0], spans[0]);
      assert DeepFlags(atoms)[1..] == DeepFlags(atoms[1..]);
      assert comps[pos..] == spans[0] + Flatten(spans[1..]);
      assert comps[pos..end] == comps[pos..][..|spans[0]|] == spans[0];
      assert comps[end..] == comps[pos..][|spans[0]|..] == Flatten(spans[1..]);
      if atoms[0] == DeepWildcard {
        NoDeeps(atoms[1..]);
        ShallowLength(atoms[1..], spans[1..]);
        assert end == |comps| - tail;
        ShallowTail(DeepFlags(atoms[1..]), tail);
      }
      ReadingIsFound(atoms[1..], tail, comps, end, spans[1..]);
      assert [spans[0]] + spans[1..] == spans;
    }
  }

  lemma {:induction false} NoDeeps(atoms: seq<Segment>)
    requires true !in DeepFlags(atoms)
    ensures Deeps(atoms) == 0
  {
    if atoms != [] {
      assert !DeepFlags(atoms)[0];
      assert DeepFlags(atoms)[1..] == DeepFlags(atoms[1..]);
      NoDeeps(atoms[1..]);
    }
  }

  lemma {:induction false} ShallowTail(moves: seq<bool>, tail: nat)
    requires true !in moves
    ensures TailIs(moves, tail)
  {
    if moves != [] {
      ShallowTail(moves[1..], tail);
    }
  }

  // ----- The theorem -----

  /** Every operation of the pattern carries, through the pool or `vars`, the string it was compiled with. */
  lemma CompiledKeepsStrings(t: Template, verb: string, assumeColonVerb: bool)
    requires Named(t.segments)
    requires PatternOf(t, verb, assumeColonVerb).Some?
    ensures var p := PatternOf(t, verb, assumeColonVerb).value; SameOps(p, p.ops, CompileAll(t.segments), 0)
  {
    var p := PatternOf(t, verb, assumeColonVerb).value;
    CompiledOpsAreRaw(t.segments);
    EncodedOpsKeepStrings(START, [], CompileAll(t.segments), p);
    CheckedGrows(START, CompileTemplate(t).opCodes, p.pool);
    assert p.ops == TypedOps(START, CompileTemplate(t).opCodes, p.pool);
  }

  lemma PatternRunsTemplate(t: Template, verb: string, assumeColonVerb: bool, comps: seq<string>)
    requires Flat(t.segments) && Named(t.segments) && Acceptable(t.segments)
    ensures PatternOf(t, verb, assumeColonVerb).Some?
    ensures var p := PatternOf(t, verb, assumeColonVerb).value;
      var found := Find(Atoms(t.segments), p.tailLen, comps, 0);
      && TailIs(DeepFlags(Atoms(t.segments)), p.tailLen)
      && Captures(p, comps) == (if found.Some? && Flatten(found.value) == comps
                                then Some(Vals(Bindings(t.segments, found.value))) else None)
      && (found.Some? ==> p.vars == Names(Bindings(t.segments, found.value)))
  {
    FlatAcceptance(t, verb, assumeColonVerb);
    BuiltIsVerified(1, CompileTemplate(t).opCodes, CompileTemplate(t).pool, verb, assumeColonVerb);
    var p := PatternOf(t, verb, assumeColonVerb).value;
    var raw := CompileAll(t.segments);
    CompiledOpsAreRaw(t.segments);
    CompiledKeepsStrings(t, verb, assumeColonVerb);
    SameMoves(p, p.ops, raw, 0, p.tailLen);
    CompiledMoves(t.segments);
    var s := Sym(0, [], []);
    Simulation(p, p.ops, raw, comps, Initial(p), s);
    SegmentsRun(t.segments, p.tailLen, comps, s);
    var found := Find(Atoms(t.segments), p.tailLen, comps, 0);
    if found.Some? {
      FindIsReading(Atoms(t.segments), p.tailLen, comps, 0);
      assert [] + Bindings(t.segments, found.value) == Bindings(t.segments, found.value);
      assert comps[0..] == comps;
    }
  }

  /** Assigning the values in order leaves each name with its last one. */
  lemma BoundIsLast(bs: seq<(string, string)>)
    ensures LastOfEach(bs, Bind(Names(bs), Vals(bs)))
  {
    BindIsLast(Names(bs), Vals(bs));
    forall k | 0 <= k < |bs| && forall j :: k < j < |bs| ==> bs[j].0 != bs[k].0
      ensures IsLast(Names(bs), k)
    {
    }
  }

  /** The request has the pattern's own verb. */
  lemma OwnVerbCorrect(t: Template, verb: string, assumeColonVerb: bool, comps: seq<string>)
    requires Flat(t.segments) && Named(t.segments) && Acceptable(t.segments)
    ensures PatternOf(t, verb, assumeColonVerb).Some?
    ensures var p := PatternOf(t, verb, assumeColonVerb).value;
      && (MatchResult(p, comps, verb).Some? <==> exists spans :: Reading(t.segments, comps, spans))
      && forall spans | Reading(t.segments, comps, spans) ::
           var bs := Bindings(t.segments, spans);
           && MatchResult(p, comps, verb) == Some(Bind(Names(bs), Vals(bs)))
           && LastOfEach(bs, MatchResult(p, comps, verb).value)
  {
    PatternRunsTemplate(t, verb, assumeColonVerb, comps);
    var p := PatternOf(t, verb, assumeColonVerb).value;
    var found := Find(Atoms(t.segments), p.tailLen, comps, 0);
    assert comps[0..] == comps;
    forall spans | Reading(t.segments, comps, spans)
      ensures found == Some(spans)
    {
      ReadingIsFound(Atoms(t.segments), p.tailLen, comps, 0, spans);
    }
    forall spans | Reading(t.segments, comps, spans)
      ensures var bs := Bindings(t.segments, spans); LastOfEach(bs, Bind(Names(bs), Vals(bs)))
    {
      BoundIsLast(Bindings(t.segments, spans));
    }
    if found.Some? {
      FindIsReading(Atoms(t.segments), p.tailLen, comps, 0);
      if Flatten(found.value) == comps {
        assert Reading(t.segments, comps, found.value);
      }
    }
  }

  /** Compiler correctness. For every acceptable template, NewPattern accepts its compilation. Match on any
      components and verb then succeeds exactly when there is a reading: of the components, if the verb is the
      pattern's; of the components with the verb as text behind the last one, if the pattern has no verb and
      the colon option is off. The result binds each variable as the reading says, the last occurrence of a
      name winning. */
  lemma CompilerCorrect(t: Template, verb: string, assumeColonVerb: bool, comps: seq<string>, requested: string)
    requires Flat(t.segments) && Named(t.segments) && Acceptable(t.segments)
    ensures PatternOf(t, verb, assumeColonVerb).Some?
    ensures var p := PatternOf(t, verb, assumeColonVerb).value;
      && (MatchResult(p, comps, requested).Some?
          <==> exists spans :: RequestReading(t.segments, verb, assumeColonVerb, comps, requested, spans))
      && forall spans | RequestReading(t.segments, verb, assumeColonVerb, comps, requested, spans) ::
           && MatchResult(p, comps, requested).Some?
           && LastOfEach(Bindings(t.segments, spans), MatchResult(p, comps, requested).value)
  {
    FlatAcceptance(t, verb, assumeColonVerb);
    var p := PatternOf(t, verb, assumeColonVerb).value;
    var seen := if requested == verb then comps else Folded(comps, requested);
    assert forall spans ::
      (RequestReading(t.segments, verb, assumeColonVerb, comps, requested, spans)
       <==> (requested == verb || (verb == "" && !assumeColonVerb)) && Reading(t.segments, seen, spans));
    if requested == verb || (verb == "" && !assumeColonVerb) {
      OwnVerbCorrect(t, verb, assumeColonVerb, seen);
      if requested != verb {
        ForeignVerbIsText(p, comps, requested);
      }
    }
  }

  /** With at most one `**`, components have at most one reading. */
  lemma ReadingUnique(segments: seq<Segment>, comps: seq<string>, a: Spans, b: Spans)
    requires Flat(segments) && Named(segments) && Acceptable(segments)
    requires Reading(segments, comps, a) && Reading(segments, comps, b)
    ensures a == b
  {
    var t := Template("", "", segments);
    PatternRunsTemplate(t, "", true, comps);
    var p := PatternOf(t, "", true).value;
    assert comps[0..] == comps;
    ReadingIsFound(Atoms(segments), p.tailLen, comps, 0, a);
    ReadingIsFound(Atoms(segments), p.tailLen, comps, 0, b);
  }
}
