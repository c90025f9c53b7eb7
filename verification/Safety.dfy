/** What `NewPattern`'s acceptance is worth. */
module Safety {
  import opened Meaning
  import opened OpCodes
  import opened Runtime
  import opened Text

  // The machine never indexes out of range on the accepted operations, whatever the components, and whether or
  // not a template was compiled to them.

  /** The first `k` operations of a safe list: no panic, and a stack of exactly the static height. */
  lemma {:induction false} PrefixSafe(p: Pattern, ops: seq<Rop>, k: nat, captures: nat, comps: seq<string>, m: Machine)
    requires k <= |ops| && m.pos <= |comps| && |m.captured| == |p.vars| && |m.stack| <= p.stacksize
    requires SafeFrom(p, ops, |m.stack|, captures)
    ensures 0 <= Height(|m.stack|, ops[..k]) <= p.stacksize
    ensures match Run(p, ops[..k], comps, m)
      case Running(m') =>
        |m'.stack| == Height(|m.stack|, ops[..k]) && m'.pos <= |comps| && |m'.captured| == |p.vars|
      case NotMatch => true
      case Panic => false
    decreases k
  {
    if k > 0 {
      var op := ops[0];
      assert ops[..k][0] == op && ops[..k][1..] == ops[1..][..k - 1];
      var captures' := if op.code == CAPTURE then captures + 1 else captures;
      match Step(p, op, comps, m)
      case Running(m') => PrefixSafe(p, ops[1..], k - 1, captures', comps, m');
      case NotMatch => StaticHeight(p, ops[1..], k - 1, HeightAfter(|m.stack|, op), captures');
      case Panic => assert false;
    }
  }

  lemma {:induction false} StaticHeight(p: Pattern, ops: seq<Rop>, k: nat, h: nat, captures: nat)
    requires k <= |ops| && h <= p.stacksize && SafeFrom(p, ops, h, captures)
    ensures 0 <= Height(h, ops[..k]) <= p.stacksize
    decreases k
  {
    if k > 0 {
      var op := ops[0];
      assert ops[..k][0] == op && ops[..k][1..] == ops[1..][..k - 1];
      StaticHeight(p, ops[1..], k - 1, HeightAfter(h, op), if op.code == CAPTURE then captures + 1 else captures);
    }
  }

  /** Without a PUSH_M the position advances by the number of pushes. */
  lemma {:induction false} PushesAdvance(p: Pattern, ops: seq<Rop>, k: nat, comps: seq<string>, m: Machine)
    requires k <= |ops| && !HasPushM(ops)
    requires Run(p, ops[..k], comps, m).Running?
    ensures Run(p, ops[..k], comps, m).m.pos + Pushes(ops[k..]) == m.pos + Pushes(ops)
    decreases k
  {
    if k > 0 {
      assert ops[..k][0] == ops[0] && ops[..k][1..] == ops[1..][..k - 1] && ops[k..] == ops[1..][k - 1..];
      PushesAdvance(p, ops[1..], k - 1, comps, Step(p, ops[0], comps, m).m);
    }
  }

  lemma {:induction false} TailExact(p: Pattern, ops: seq<Rop>, k: nat, comps: seq<string>, m: Machine)
    requires k <= |ops| && TailOk(ops, p.tailLen) && HasPushM(ops[..k])
    requires Run(p, ops[..k], comps, m).Running?
    ensures Run(p, ops[..k], comps, m).m.pos + Pushes(ops[k..]) == |comps|
    decreases k
  {
    assert ops[..k][0] == ops[0] && ops[..k][1..] == ops[1..][..k - 1] && ops[k..] == ops[1..][k - 1..];
    var m' := Step(p, ops[0], comps, m).m;
    if ops[0].code == PUSH_M {
      PushesAdvance(p, ops[1..], k - 1, comps, m');
    } else {
      TailExact(p, ops[1..], k - 1, comps, m');
    }
  }

  /** Before every operation of an accepted list, on any components: the machine has not panicked; its
      stack has the statically counted height, which the announced stack size bounds; and once a PUSH_M
      has succeeded, the pushes still to come are exactly as many as the components still to consume. */
  lemma AcceptedOpsAreSafe(version: int, ops: seq<int>, pool: seq<string>, verb: string, assumeColonVerb: bool,
                           comps: seq<string>, k: nat)
    requires Build(version, ops, pool, verb, assumeColonVerb).Some?
    requires k <= |Build(version, ops, pool, verb, assumeColonVerb).value.ops|
    ensures var p := Build(version, ops, pool, verb, assumeColonVerb).value;
      match Run(p, p.ops[..k], comps, Initial(p))
      case Running(m) =>
        && |m.stack| == Height(0, p.ops[..k]) <= p.stacksize
        && (HasPushM(p.ops[..k]) ==> m.pos + Pushes(p.ops[k..]) == |comps|)
      case NotMatch => true
      case Panic => false
  {
    BuiltIsVerified(version, ops, pool, verb, assumeColonVerb);
    var p := Build(version, ops, pool, verb, assumeColonVerb).value;
    PrefixSafe(p, p.ops, k, 0, comps, Initial(p));
    if HasPushM(p.ops[..k]) && Run(p, p.ops[..k], comps, Initial(p)).Running? {
      TailExact(p, p.ops, k, comps, Initial(p));
    }
  }

  /** So a failed match is always a decision, never a crash: after a successful PUSH_M only a literal
      can still fail, and a pattern that has one matches only if it consumed every component. */
  lemma DeepPatternsConsumeAll(p: Pattern, comps: seq<string>)
    requires Verified(p) && HasPushM(p.ops)
    ensures Captures(p, comps).Some? <==> Run(p, p.ops, comps, Initial(p)).Running?
  {
    assert p.ops[..|p.ops|] == p.ops && p.ops[|p.ops|..] == [];
    if Run(p, p.ops, comps, Initial(p)).Running? {
      TailExact(p, p.ops, |p.ops|, comps, Initial(p));
    }
  }

  /** With `assumeColonVerb` off and no verb in the pattern, a foreign verb is part of the last component. */
  lemma ForeignVerbIsText(p: Pattern, comps: seq<string>, verb: string)
    requires !p.assumeColonVerb && p.verb == "" && verb != ""
    ensures MatchResult(p, comps, verb) == MatchResult(p, Folded(comps, verb), "")
  {
    if comps != [] {
      var last := comps[|comps| - 1];
      PlusAssociates(last, ":", verb);
      assert comps[|comps| - 1 := last + ":" + verb] == comps[..|comps| - 1] + [last + ":" + verb];
    }
  }
}
