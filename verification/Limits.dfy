/** Outside the compiler theorem: variables inside variables. The parser never produces them, but a template
    can be built with them, and NewPattern may accept it and bind it wrongly. */
module Limits {
  import opened Compile
  import opened CompilerTheorem
  import opened Correctness
  import opened Meaning
  import opened OpCodes
  import opened Runtime
  import opened Types
  import opened Wrappers

  /** `x={y=*}` behind a `*`. */
  function Nested(x: string, y: string): Template
  {
    Template("", "", [Wildcard, Variable(x, [Variable(y, [Wildcard])])])
  }

  function InnerOps(y: string): seq<Op>
  {
    [Op(PUSH, "", 0), Op(CONCAT_N, "", 1), Op(CAPTURE, y, 0)]
  }

  function OuterOps(x: string): seq<Op>
  {
    [Op(CONCAT_N, "", 1), Op(CAPTURE, x, 0)]
  }

  lemma NestedOps(x: string, y: string)
    ensures CompileAll(Nested(x, y).segments) == [Op(PUSH, "", 0)] + (InnerOps(y) + OuterOps(x))
  {
    var inner := Variable(y, [Wildcard]);
    assert CompileAll([Wildcard]) == [Op(PUSH, "", 0)];
    assert CompileSegment(inner) == InnerOps(y);
    assert CompileAll([inner]) == InnerOps(y);
    assert CompileSegment(Variable(x, [inner])) == InnerOps(y) + OuterOps(x);
    assert CompileAll([Variable(x, [inner])]) == InnerOps(y) + OuterOps(x);
    assert Nested(x, y).segments[1..] == [Variable(x, [inner])];
  }

  lemma InnerCounts(y: string)
    ensures var body := [Variable(y, [Wildcard])];
      VariablesIn(body) == 1 && DeepsIn(body) == 0 && AllBodied(body) && (y != "" ==> Named(body))
  {
    var body := [Variable(y, [Wildcard])];
    AtomCounts([Wildcard]);
    assert body[1..] == [] && VariablesIn([]) == 0 && DeepsIn([]) == 0 && AllBodied([]);
    assert VariablesIn(body) == 1 + VariablesIn(body[0].segments) + VariablesIn(body[1..]);
    assert DeepsIn(body) == DeepsOf(body[0]) + DeepsIn(body[1..]);
  }

  lemma NestedIsAccepted(x: string, y: string)
    requires x != "" && y != ""
    ensures Named(Nested(x, y).segments) && PatternOf(Nested(x, y), "", true).Some?
  {
    var segments := Nested(x, y).segments;
    InnerCounts(y);
    var tail := segments[1..];
    assert tail == [segments[1]] && tail[1..] == [] && Covered(0, []) && AllBodied([]) && DeepsIn([]) == 0;
    assert DeepsIn(tail) == DeepsOf(tail[0]) + DeepsIn(tail[1..]);
    assert Covered(0, segments) == Covered(1, segments[1..]);
    assert DeepsIn(segments) == DeepsOf(segments[0]) + DeepsIn(segments[1..]);
    Acceptance(Nested(x, y), "", true);
  }

  /** The inner variable is right, and leaves nothing on the stack. */
  lemma InnerRun(y: string, tail: nat, a: string, b: string)
    ensures SymRun(InnerOps(y), tail, [a, b], Sym(1, [a], [])) == Some(Sym(2, [a], [(y, b)]))
  {
    var ops := InnerOps(y);
    var s1, s2 := Sym(1, [a], []), Sym(2, [a, b], []);
    assert ops[1..][1..] == [ops[2]] && ops[1..][1..][1..] == [];
    assert [a] + [b] == [a, b];
    assert s2.stack[..1] == [a] && s2.stack[1..] == [b];
    assert s2.bound + [(y, b)] == [(y, b)];
    assert SymStep(ops[0], tail, [a, b], s1) == Some(s2) == SymStep(ops[1], tail, [a, b], s2);
    assert SymRun(ops[1..][1..], tail, [a, b], s2) == SymStep(ops[2], tail, [a, b], s2);
    assert SymRun(ops[1..], tail, [a, b], s2) == SymRun(ops[1..][1..], tail, [a, b], s2);
  }

  /** So the outer variable takes what the segment before it left. */
  lemma OuterRun(x: string, tail: nat, a: string, b: string, bound: seq<(string, string)>)
    ensures SymRun(OuterOps(x), tail, [a, b], Sym(2, [a], bound)) == Some(Sym(2, [], bound + [(x, a)]))
  {
    var ops := OuterOps(x);
    var s := Sym(2, [a], bound);
    assert ops[1..] == [ops[1]] && ops[1..][1..] == [];
    assert s.stack[..0] == [] && s.stack[0..] == [a] && [] + [a] == [a];
    assert SymStep(ops[0], tail, [a, b], s) == Some(s);
    assert SymRun(ops[1..], tail, [a, b], s) == SymStep(ops[1], tail, [a, b], s);
  }

  lemma NestedRun(x: string, y: string, tail: nat, a: string, b: string)
    ensures SymRun(CompileAll(Nested(x, y).segments), tail, [a, b], Sym(0, [], []))
         == Some(Sym(2, [], [(y, b), (x, a)]))
  {
    var first := [Op(PUSH, "", 0)];
    NestedOps(x, y);
    SymRunAppend(first, InnerOps(y) + OuterOps(x), tail, [a, b], Sym(0, [], []));
    assert first[1..] == [] && [] + [a] == [a];
    assert SymRun(first, tail, [a, b], Sym(0, [], [])) == Some(Sym(1, [a], []));
    SymRunAppend(InnerOps(y), OuterOps(x), tail, [a, b], Sym(1, [a], []));
    InnerRun(y, tail, a, b);
    OuterRun(x, tail, a, b, [(y, b)]);
    assert [(y, b)] + [(x, a)] == [(y, b), (x, a)];
  }

  /** A capture pops the machine's stack, so a variable inside a variable may be bound wrongly. For all names
      and all paths `a/b`, NewPattern accepts the template and Match binds y to b, but x to a: which is what
      the template says exactly if a and b are the same. */
  lemma NestedVariableIsMiscompiled(x: string, y: string, a: string, b: string)
    requires x != "" && y != "" && x != y
    ensures PatternOf(Nested(x, y), "", true).Some?
    ensures var result := MatchResult(PatternOf(Nested(x, y), "", true).value, [a, b], "");
      && result == Some(map[y := b][x := a])
      && (result == Some(map[y := b][x := b]) <==> a == b)
  {
    NestedIsAccepted(x, y);
    var p := PatternOf(Nested(x, y), "", true).value;
    var s := Sym(0, [], []);
    CompiledKeepsStrings(Nested(x, y), "", true);
    assert Vals(s.bound) == Initial(p).captured[..0] && Names(s.bound) == p.vars[..0];
    Simulation(p, p.ops, CompileAll(Nested(x, y).segments), [a, b], Initial(p), s);
    NestedRun(x, y, p.tailLen, a, b);
    var bound := [(y, b), (x, a)];
    assert Names(bound) == [y, x] && Vals(bound) == [b, a];
    assert [y, x][..1] == [y] && [b, a][..1] == [b] && [y][..0] == [] && [b][..0] == [];
    assert Bind([y], [b]) == map[y := b];
    assert map[y := b][x := a][x] == a && map[y := b][x := b][x] == b;
  }
}
