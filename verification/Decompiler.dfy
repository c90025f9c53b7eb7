/** `Pattern.String` prints a compiled template as the template's own `String` does.

    The printer runs the same operations as the machine, over texts in place of components, so the two are
    compared operation by operation. */
module Decompiler {
  import opened Compile
  import opened CompilerTheorem
  import opened Correctness
  import opened OpCodes
  import opened Runtime
  import opened Text
  import opened Types
  import opened Wrappers

  /** The printer over operations that still carry their strings. */
  function SymPrintStep(op: Op, stack: seq<string>): Option<seq<string>>
  {
    if op.code == PUSH then Some(stack + ["*"])
    else if op.code == LIT_PUSH then Some(stack + [op.str])
    else if op.code == PUSH_M then Some(stack + ["**"])
    else if op.code == CONCAT_N then
      var l := |stack| - op.operand;
      if 0 <= l <= |stack| then Some(stack[..l] + [Join(stack[l..], "/")]) else None
    else if op.code == CAPTURE then
      if stack == [] then None else
      Some(stack[|stack| - 1 := "{" + op.str + "=" + stack[|stack| - 1] + "}"])
    else Some(stack)
  }

  function SymPrint(ops: seq<Op>, stack: seq<string>): Option<seq<string>>
    decreases |ops|
  {
    if ops == [] then Some(stack) else
    match SymPrintStep(ops[0], stack)
    case None => None
    case Some(stack') => SymPrint(ops[1..], stack')
  }

  lemma {:induction false} SymPrintAppend(a: seq<Op>, b: seq<Op>, stack: seq<string>)
    ensures SymPrint(a + b, stack) == match SymPrint(a, stack)
      case None => None
      case Some(stack') => SymPrint(b, stack')
    decreases |a|
  {
    if a == [] {
      assert a + b == b;
    } else {
      assert (a + b)[1..] == a[1..] + b;
      match SymPrintStep(a[0], stack)
      case None =>
      case Some(stack') => SymPrintAppend(a[1..], b, stack');
    }
  }

  lemma {:induction false} PrintSimulation(p: Pattern, rops: seq<Rop>, ops: seq<Op>, captures: nat, stack: seq<string>)
    requires SameOps(p, rops, ops, captures)
    ensures PrintOps(p, rops, stack) == SymPrint(ops, stack)
    decreases |ops|
  {
    if ops != [] {
      match SymPrintStep(ops[0], stack)
      case None =>
      case Some(stack') =>
        PrintSimulation(p, rops[1..], ops[1..], if ops[0].code == CAPTURE then captures + 1 else captures, stack');
    }
  }

  /** Every segment, nested or not, leaves exactly its own text on the printer's stack. */
  lemma {:induction false} SegmentPrints(v: Segment, stack: seq<string>)
    ensures SymPrint(CompileSegment(v), stack) == Some(stack + [Print(v)])
    decreases v, 0
  {
    match v
    case Variable(path, segments) =>
      var close := [Op(CONCAT_N, "", |segments|), Op(CAPTURE, path, 0)];
      SymPrintAppend(CompileAll(segments), close, stack);
      SegmentsPrint(segments, stack);
      var s1 := stack + PrintAll(segments);
      assert s1[..|stack|] == stack && s1[|stack|..] == PrintAll(segments);
      var s2 := stack + [Join(PrintAll(segments), "/")];
      assert SymPrintStep(close[0], s1) == Some(s2);
      assert s2[|stack| := Print(v)] == stack + [Print(v)];
      assert SymPrintStep(close[1], s2) == Some(stack + [Print(v)]);
      assert close[1..] == [close[1]] && close[1..][1..] == [];
      assert SymPrint(close[1..], s2) == Some(stack + [Print(v)]);
    case _ =>
      assert CompileSegment(v)[1..] == [];
  }

  lemma {:induction false} SegmentsPrint(segments: seq<Segment>, stack: seq<string>)
    ensures SymPrint(CompileAll(segments), stack) == Some(stack + PrintAll(segments))
    decreases segments, 1
  {
    if segments == [] {
      assert stack + PrintAll(segments) == stack;
    } else {
      SymPrintAppend(CompileSegment(segments[0]), CompileAll(segments[1..]), stack);
      SegmentPrints(segments[0], stack);
      SegmentsPrint(segments[1..], stack + [Print(segments[0])]);
      assert stack + [Print(segments[0])] + PrintAll(segments[1..]) == stack + PrintAll(segments);
    }
  }

  /** Decompiler agreement: whenever NewPattern accepts the compilation of a template with no empty
      name, the pattern with the template's verb prints as the template does. */
  lemma DecompilerAgrees(t: Template, assumeColonVerb: bool)
    requires Named(t.segments)
    requires PatternOf(t, t.verb, assumeColonVerb).Some?
    ensures PatternText(PatternOf(t, t.verb, assumeColonVerb).value) == Some(PrintTemplate(t))
  {
    var p := PatternOf(t, t.verb, assumeColonVerb).value;
    CompiledKeepsStrings(t, t.verb, assumeColonVerb);
    PrintSimulation(p, p.ops, CompileAll(t.segments), 0, []);
    SegmentsPrint(t.segments, []);
    assert [] + PrintAll(t.segments) == PrintAll(t.segments);
    var segs := Join(PrintAll(t.segments), "/");
    assert "/" + segs + ":" + t.verb == "/" + (segs + ":" + t.verb);
  }
}
