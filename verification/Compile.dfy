/** api/router/util/compile.go: from templates to operations over a constant pool. */
module Compile {
  import opened OpCodes
  import opened Text
  import opened Types

  /** An operation before its string operand is moved to the pool. */
  datatype Op = Op(code: int, str: string, operand: int)

  datatype Compiled = Compiled(version: int, opCodes: seq<int>, pool: seq<string>, verb: string,
                               fields: seq<string>, template: string)

  const OPCODE_VERSION := 1

  /** What `segment.compile` returns. */
  function CompileSegment(s: Segment): seq<Op>
  {
    match s
    case Wildcard => [Op(PUSH, "", 0)]
    case DeepWildcard => [Op(PUSH_M, "", 0)]
    case Literal(text) => [Op(LIT_PUSH, text, 0)]
    case Variable(path, segments) =>
      CompileAll(segments) + [Op(CONCAT_N, "", |segments|), Op(CAPTURE, path, 0)]
  }

  function CompileAll(segments: seq<Segment>): seq<Op>
  {
    if segments == [] then [] else CompileSegment(segments[0]) + CompileAll(segments[1..])
  }

  lemma CompileStep(segments: seq<Segment>, i: nat, ops: seq<Op>)
    requires i < |segments|
    ensures ops + CompileAll(segments[i..]) == ops + CompileSegment(segments[i]) + CompileAll(segments[i + 1..])
  {
    assert segments[i..][1..] == segments[i + 1..];
    PlusAssociates(ops, CompileSegment(segments[i]), CompileAll(segments[i + 1..]));
  }

  method SegmentCompile(s: Segment) returns (ops: seq<Op>)
    ensures ops == CompileSegment(s)
    decreases s
  {
    match s
    case Wildcard => return [Op(PUSH, "", 0)];
    case DeepWildcard => return [Op(PUSH_M, "", 0)];
    case Literal(text) => return [Op(LIT_PUSH, text, 0)];
    case Variable(path, segments) =>
      ops := [];
      for i := 0 to |segments|
        invariant ops + CompileAll(segments[i..]) == CompileAll(segments)
      {
        var part := SegmentCompile(segments[i]);
        CompileStep(segments, i, ops);
        ops := ops + part;
      }
      assert ops == CompileAll(segments);
      ops := ops + [Op(CONCAT_N, "", |segments|), Op(CAPTURE, path, 0)];
  }

  // ----- The constant pool -----

  datatype Encoding = Encoding(codes: seq<int>, pool: seq<string>, fields: seq<string>)

  /** The first position of `s` in `pool`, or the length of the pool. */
  function Position(pool: seq<string>, s: string): (i: nat)
    ensures i <= |pool|
    ensures i < |pool| ==> pool[i] == s
    ensures i == |pool| <==> s !in pool
  {
    if pool == [] then 0 else if pool[0] == s then 0 else 1 + Position(pool[1..], s)
  }

  /** `pool` with `s` added at the end, unless it is there already or is empty. */
  function Intern(pool: seq<string>, s: string): seq<string>
  {
    if s == "" || s in pool then pool else pool + [s]
  }

  function OperandOf(pool: seq<string>, op: Op): int
  {
    if op.str == "" then op.operand else Position(pool, op.str)
  }

  function Encode(pool: seq<string>, raw: seq<Op>): Encoding
    decreases |raw|
  {
    if raw == [] then Encoding([], pool, []) else
    var pool' := Intern(pool, raw[0].str);
    Prepend([raw[0].code, OperandOf(pool', raw[0])], FieldOf(raw[0]), Encode(pool', raw[1..]))
  }

  function Prepend(codes: seq<int>, fields: seq<string>, e: Encoding): Encoding
  {
    Encoding(codes + e.codes, e.pool, fields + e.fields)
  }

  function FieldOf(op: Op): seq<string>
  {
    if op.code == CAPTURE then [op.str] else []
  }

  function CompileTemplate(t: Template): Compiled
  {
    var e := Encode([], CompileAll(t.segments));
    Compiled(OPCODE_VERSION, e.codes, e.pool, t.verb, e.fields, t.template)
  }

  /** `template.Compile` */
  method TemplateCompile(t: Template) returns (c: Compiled)
    ensures c == CompileTemplate(t)
    ensures c.version == 1 && c.verb == t.verb && c.template == t.template
  {
    var rawOps := [];
    for i := 0 to |t.segments|
      invariant rawOps + CompileAll(t.segments[i..]) == CompileAll(t.segments)
    {
      var part := SegmentCompile(t.segments[i]);
      CompileStep(t.segments, i, rawOps);
      rawOps := rawOps + part;
    }
    assert rawOps == CompileAll(t.segments);
    var ops, pool, fields := EncodeOps(rawOps);
    c := Compiled(OPCODE_VERSION, ops, pool, t.verb, fields, t.template);
  }

  /** The second loop of `template.Compile`. */
  method EncodeOps(rawOps: seq<Op>) returns (ops: seq<int>, pool: seq<string>, fields: seq<string>)
    ensures Encoding(ops, pool, fields) == Encode([], rawOps)
  {
    ops, pool, fields := [], [], [];
    var consts: map<string, int> := map[];
    for i := 0 to |rawOps|
      invariant ConstsIndexPool(consts, pool)
      invariant Prepend(ops, fields, Encode(pool, rawOps[i..])) == Encode([], rawOps)
    {
      var op := rawOps[i];
      EncodeStep(ops, pool, fields, rawOps[i..]);
      assert rawOps[i..][1..] == rawOps[i + 1..];
      assert fields + [] == fields;
      ghost var pool' := Intern(pool, op.str);
      ops := ops + [op.code];
      if op.str == "" {
        ops := ops + [op.operand];
      } else {
        if op.str !in consts {
          PositionAppend(pool, op.str);
          consts := consts[op.str := |pool|];
          pool := pool + [op.str];
        }
        ops := ops + [consts[op.str]];
      }
      assert pool == pool';
      if op.code == CAPTURE {
        fields := fields + [op.str];
      }
    }
    assert rawOps[|rawOps|..] == [];
    assert Prepend(ops, fields, Encode(pool, [])) == Encoding(ops, pool, fields);
  }

  /** The map `consts` holds exactly the pool's strings, each with its position. */
  ghost predicate ConstsIndexPool(consts: map<string, int>, pool: seq<string>)
  {
    && (forall s :: s in consts <==> s in pool)
    && (forall s <- consts :: consts[s] == Position(pool, s))
  }

  lemma EncodeStep(codes: seq<int>, pool: seq<string>, fields: seq<string>, raw: seq<Op>)
    requires raw != []
    ensures var pool' := Intern(pool, raw[0].str);
      && Prepend(codes, fields, Encode(pool, raw))
      == Prepend(codes + [raw[0].code] + [OperandOf(pool', raw[0])], fields + FieldOf(raw[0]),
                 Encode(pool', raw[1..]))
  {
    var op, pool' := raw[0], Intern(pool, raw[0].str);
    var rest := Encode(pool', raw[1..]);
    var operand := OperandOf(pool', op);
    PlusAssociates(codes, [op.code, operand], rest.codes);
    PlusAssociates(codes, [op.code], [operand]);
    PlusAssociates(fields, FieldOf(op), rest.fields);
    assert [op.code] + [operand] == [op.code, operand];
  }

  lemma {:induction false} PositionAppend(pool: seq<string>, s: string)
    requires s !in pool
    ensures Position(pool + [s], s) == |pool|
    ensures forall r <- pool :: Position(pool + [s], r) == Position(pool, r)
  {
    if pool != [] {
      assert (pool + [s])[1..] == pool[1..] + [s];
      PositionAppend(pool[1..], s);
    }
  }
}
