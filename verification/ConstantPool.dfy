/** The constant pool loses nothing.

    Every string occurs in it once, the operands of the compiled code find their strings there, and the names of
    the variables can be read off the code again. */
module ConstantPool {
  import opened Compile
  import opened CompilerTheorem
  import opened Correctness
  import opened Meaning
  import opened OpCodes
  import opened Runtime
  import opened Types
  import opened Wrappers

  /** The operations read back from the integers, each string looked up in the pool. */
  function Decode(codes: seq<int>, pool: seq<string>): Option<seq<Op>>
    requires |codes| % 2 == 0
    decreases |codes|
  {
    if codes == [] then Some([]) else
    match (DecodeOp(codes[0], codes[1], pool), Decode(codes[2..], pool))
    case (Some(op), Some(rest)) => Some([op] + rest)
    case _ => None
  }

  predicate Distinct(pool: seq<string>)
  {
    forall i, j :: 0 <= i < j < |pool| ==> pool[i] != pool[j]
  }

  /** The names of the captures in the order of the operations. */
  function CaptureNames(raw: seq<Op>): seq<string>
  {
    if raw == [] then [] else FieldOf(raw[0]) + CaptureNames(raw[1..])
  }

  /** The operation that one pair of integers stands for. */
  function DecodeOp(code: int, operand: int, pool: seq<string>): Option<Op>
  {
    if code == LIT_PUSH || code == CAPTURE then
      if 0 <= operand < |pool| then Some(Op(code, pool[operand], 0)) else None
    else
      Some(Op(code, "", operand))
  }

  lemma OpDecodes(pool: seq<string>, op: Op, final: seq<string>)
    requires RawOk(op)
    requires (op.str == "" || op.str in pool) && pool <= final
    ensures DecodeOp(op.code, OperandOf(pool, op), final) == Some(op)
  {
  }

  lemma {:induction false} EncodeThenDecode(pool: seq<string>, raw: seq<Op>, final: seq<string>)
    requires forall op <- raw :: RawOk(op)
    requires Encode(pool, raw).pool == final
    ensures |Encode(pool, raw).codes| == 2 * |raw|
    ensures Decode(Encode(pool, raw).codes, final) == Some(raw)
    decreases |raw|
  {
    if raw != [] {
      var op, pool' := raw[0], Intern(pool, raw[0].str);
      EncodeHead(pool, raw);
      assert RawOk(op);
      OpDecodes(pool', op, final);
      EncodeThenDecode(pool', raw[1..], final);
      assert [op] + raw[1..] == raw;
    }
  }

  lemma {:induction false} EncodeDistinct(pool: seq<string>, raw: seq<Op>)
    requires Distinct(pool)
    ensures Distinct(Encode(pool, raw).pool)
    ensures Encode(pool, raw).fields == CaptureNames(raw)
    decreases |raw|
  {
    if raw != [] {
      EncodeDistinct(Intern(pool, raw[0].str), raw[1..]);
    }
  }

  lemma {:induction false} VarsOfSame(p: Pattern, rops: seq<Rop>, raw: seq<Op>, captures: nat)
    requires SameOps(p, rops, raw, captures) && captures <= |p.vars|
    ensures p.vars[captures..] == CaptureNames(raw)
    decreases |raw|
  {
    if raw != [] {
      if raw[0].code == CAPTURE {
        VarsOfSame(p, rops[1..], raw[1..], captures + 1);
        assert p.vars[captures..] == [p.vars[captures]] + p.vars[captures + 1..];
      } else {
        VarsOfSame(p, rops[1..], raw[1..], captures);
        assert [] + CaptureNames(raw[1..]) == CaptureNames(raw[1..]);
      }
    }
  }

  lemma {:induction false} CaptureNamesAppend(a: seq<Op>, b: seq<Op>)
    ensures CaptureNames(a + b) == CaptureNames(a) + CaptureNames(b)
  {
    if a == [] {
      assert a + b == b;
    } else {
      assert (a + b)[1..] == a[1..] + b;
      CaptureNamesAppend(a[1..], b);
    }
  }

  /** The compiled form determines the operations: the pool has no duplicates, decoding the integers
      through it gives back what the segments compiled to, and `Fields` lists the capture names in order. */
  lemma PoolIsLossless(t: Template)
    requires Named(t.segments)
    ensures var c := CompileTemplate(t);
      && Distinct(c.pool)
      && |c.opCodes| % 2 == 0
      && Decode(c.opCodes, c.pool) == Some(CompileAll(t.segments))
      && c.fields == CaptureNames(CompileAll(t.segments))
  {
    CompiledOpsAreRaw(t.segments);
    EncodeThenDecode([], CompileAll(t.segments), CompileTemplate(t).pool);
    EncodeDistinct([], CompileAll(t.segments));
  }

  /** NewPattern's `vars` are the compiler's `Fields`. */
  lemma VarsAreFields(t: Template, verb: string, assumeColonVerb: bool)
    requires Named(t.segments)
    requires PatternOf(t, verb, assumeColonVerb).Some?
    ensures PatternOf(t, verb, assumeColonVerb).value.vars == CompileTemplate(t).fields
  {
    PoolIsLossless(t);
    CompiledKeepsStrings(t, verb, assumeColonVerb);
    var p := PatternOf(t, verb, assumeColonVerb).value;
    VarsOfSame(p, p.ops, CompileAll(t.segments), 0);
    assert p.vars[0..] == p.vars;
  }

  /** In a flat template they are the variables from left to right. */
  lemma {:induction false} FlatCaptureNames(segments: seq<Segment>)
    requires Flat(segments)
    ensures CaptureNames(CompileAll(segments)) == VariableNames(segments)
    decreases |segments|
  {
    if segments != [] {
      CaptureNamesAppend(CompileSegment(segments[0]), CompileAll(segments[1..]));
      FlatCaptureNames(segments[1..]);
      SegmentCaptures(segments[0]);
    }
  }

  lemma SegmentCaptures(s: Segment)
    requires s.Variable? ==> AtomsOnly(s.segments)
    ensures CaptureNames(CompileSegment(s)) == if s.Variable? then [s.path] else []
  {
    if s.Variable? {
      var close := [Op(CONCAT_N, "", |s.segments|), Op(CAPTURE, s.path, 0)];
      CaptureNamesAppend(CompileAll(s.segments), close);
      AtomsCaptureNothing(s.segments);
      assert close[1..] == [close[1]] && close[1..][1..] == [];
      assert CaptureNames(close[1..]) == [s.path];
    } else {
      assert CompileSegment(s)[1..] == [];
    }
  }

  lemma {:induction false} AtomsCaptureNothing(atoms: seq<Segment>)
    requires AtomsOnly(atoms)
    ensures CaptureNames(CompileAll(atoms)) == []
  {
    if atoms != [] {
      CaptureNamesAppend(CompileSegment(atoms[0]), CompileAll(atoms[1..]));
      AtomsCaptureNothing(atoms[1..]);
      assert CompileSegment(atoms[0])[1..] == [];
    }
  }
}
