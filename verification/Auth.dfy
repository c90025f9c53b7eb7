/** auth/rules.go: whether an account may use a resource. */
module Auth {
  import opened Text
  import opened Wrappers

  datatype Resource = Resource(name: string, kind: string, endpoint: string)

  const GRANTED := 0
  const DENIED := 1

  datatype Rule = Rule(id: string, scope: string, resource: Resource, access: int, priority: int)

  datatype Account = Account(id: string, scopes: seq<string>)

  /** Simple case folding of one character, which maps all case variants to one of them. */
  type Fold = char -> char

  /** strings.EqualFold */
  predicate EqualFold(fold: Fold, a: string, b: string)
  {
    |a| == |b| && forall i :: 0 <= i < |a| ==> fold(a[i]) == fold(b[i])
  }

  predicate Includes(fold: Fold, list: seq<string>, val: string)
  {
    exists s <- list :: EqualFold(fold, s, val)
  }

  method Include(fold: Fold, list: seq<string>, val: string) returns (found: bool)
    ensures found == Includes(fold, list, val)
  {
    for i := 0 to |list|
      invariant forall k :: 0 <= k < i ==> !EqualFold(fold, list[k], val)
    {
      if EqualFold(fold, list[i], val) {
        assert list[i] in list;
        return true;
      }
    }
    return false;
  }

  // ----- Which rules apply -----

  /** The wildcards that cover an endpoint: its first i components and a star, for i from 1 to n. */
  function Wildcards(comps: seq<string>, n: nat): (r: seq<string>)
    requires n <= |comps|
    ensures |r| == n
    ensures forall i :: 0 <= i < n ==> r[i] == Join(comps[..i + 1], "/") + "/*"
  {
    if n == 0 then [] else Wildcards(comps, n - 1) + [Join(comps[..n], "/") + "/*"]
  }

  function ValidEndpoints(endpoint: string): seq<string>
  {
    var comps := Split(endpoint, '/');
    ["*", endpoint] + if |comps| > 1 then Wildcards(comps, |comps|) else []
  }

  /** The rule is about the resource. */
  predicate Matches(fold: Fold, rule: Rule, res: Resource)
  {
    && Includes(fold, ["*", res.kind], rule.resource.kind)
    && Includes(fold, ["*", res.name], rule.resource.name)
    && Includes(fold, ValidEndpoints(res.endpoint), rule.resource.endpoint)
  }

  /** The rule is about the account, and decides. */
  predicate Decides(fold: Fold, rule: Rule, acc: Option<Account>)
  {
    && (rule.access == GRANTED || rule.access == DENIED)
    && (|| rule.scope == ""
        || (acc.Some? && (rule.scope == "*" || Includes(fold, acc.value.scopes, rule.scope))))
  }

  predicate Applies(fold: Fold, rule: Rule, acc: Option<Account>, res: Resource)
  {
    Matches(fold, rule, res) && Decides(fold, rule, acc)
  }

  /** Rule i applies, none of higher priority does, and none of equal priority before it. */
  predicate IsFirst(fold: Fold, rules: seq<Rule>, acc: Option<Account>, res: Resource, i: int)
  {
    && 0 <= i < |rules|
    && Applies(fold, rules[i], acc, res)
    && forall j :: 0 <= j < |rules| && Applies(fold, rules[j], acc, res) ==>
         rules[j].priority < rules[i].priority || (rules[j].priority == rules[i].priority && i <= j)
  }

  /** Access is granted: some rule applies, and the first one grants. */
  ghost predicate Granted(fold: Fold, rules: seq<Rule>, acc: Option<Account>, res: Resource)
  {
    exists i :: IsFirst(fold, rules, acc, res, i) && rules[i].access == GRANTED
  }

  // ----- The stable sort -----

  /** `x` behind every rule of at least its priority. */
  function Insert(s: seq<Rule>, x: Rule): seq<Rule>
  {
    if s == [] || s[|s| - 1].priority >= x.priority then s + [x] else
    Insert(s[..|s| - 1], x) + [s[|s| - 1]]
  }

  /** Highest priority first, equal priorities in their order. */
  function Sorted(s: seq<Rule>): seq<Rule>
  {
    if s == [] then [] else Insert(Sorted(s[..|s| - 1]), s[|s| - 1])
  }

  predicate Descending(s: seq<Rule>)
  {
    forall i, j :: 0 <= i < j < |s| ==> s[i].priority >= s[j].priority
  }

  lemma {:induction false} InsertPlace(s: seq<Rule>, x: Rule, j: nat)
    requires j <= |s|
    requires forall k :: j <= k < |s| ==> s[k].priority < x.priority
    requires j > 0 ==> s[j - 1].priority >= x.priority
    ensures Insert(s, x) == s[..j] + [x] + s[j..]
    decreases |s|
  {
    if j == |s| {
      assert s[..j] == s && s[j..] == [];
      assert s + [x] + [] == s + [x];
    } else {
      var init, last := s[..|s| - 1], s[|s| - 1];
      InsertPlace(init, x, j);
      assert init[..j] == s[..j] && s[j..] == init[j..] + [last];
      PlusAssociates(s[..j] + [x], init[j..], [last]);
    }
  }

  lemma {:induction false} InsertDescending(s: seq<Rule>, x: Rule)
    requires Descending(s)
    ensures Descending(Insert(s, x))
    ensures forall r <- Insert(s, x) :: r == x || r in s
    decreases |s|
  {
    if s != [] && s[|s| - 1].priority < x.priority {
      var init := s[..|s| - 1];
      InsertDescending(init, x);
      var r := Insert(init, x);
      forall k | 0 <= k < |r| ensures r[k].priority >= s[|s| - 1].priority {
        assert r[k] in r;
      }
    }
  }

  lemma {:induction false} SortedDescending(s: seq<Rule>)
    ensures Descending(Sorted(s))
  {
    if s != [] {
      SortedDescending(s[..|s| - 1]);
      InsertDescending(Sorted(s[..|s| - 1]), s[|s| - 1]);
    }
  }

  /** The rules of one priority, in their order. */
  function Ranked(s: seq<Rule>, priority: int): seq<Rule>
  {
    if s == [] then [] else
    var k := |s| - 1;
    Ranked(s[..k], priority) + if s[k].priority == priority then [s[k]] else []
  }

  /** The same rules in every rank. */
  ghost predicate SameRanks(a: seq<Rule>, b: seq<Rule>)
  {
    forall priority :: Ranked(a, priority) == Ranked(b, priority)
  }

  /** What a stable sort by descending priority returns: descending, with the rules of each priority as they
      were and in the order in which they were. */
  ghost predicate StablySorted(r: seq<Rule>, s: seq<Rule>)
  {
    Descending(r) && SameRanks(r, s)
  }

  lemma RankedSnoc(s: seq<Rule>, x: Rule, priority: int)
    ensures Ranked(s + [x], priority) == Ranked(s, priority) + if x.priority == priority then [x] else []
  {
    assert (s + [x])[..|s|] == s;
  }

  /** An inserted rule stands behind all others of its priority. */
  lemma {:induction false} InsertRanked(s: seq<Rule>, x: Rule, priority: int)
    requires Descending(s)
    ensures Ranked(Insert(s, x), priority) == Ranked(s, priority) + if x.priority == priority then [x] else []
    decreases |s|
  {
    if s == [] || s[|s| - 1].priority >= x.priority {
      RankedSnoc(s, x, priority);
    } else {
      var init, last := s[..|s| - 1], s[|s| - 1];
      assert s == init + [last];
      InsertRanked(init, x, priority);
      RankedSnoc(Insert(init, x), last, priority);
      RankedSnoc(init, last, priority);
      if last.priority == priority {
        assert Ranked(init, priority) + [] == Ranked(init, priority);
        assert Ranked(s, priority) + [] == Ranked(s, priority);
      } else {
        assert Ranked(init, priority) + [] == Ranked(init, priority);
        assert Ranked(Insert(init, x), priority) + [] == Ranked(Insert(init, x), priority);
      }
    }
  }

  lemma {:induction false} SortedRanked(s: seq<Rule>, priority: int)
    ensures Ranked(Sorted(s), priority) == Ranked(s, priority)
  {
    if s != [] {
      var init, last := s[..|s| - 1], s[|s| - 1];
      SortedDescending(init);
      SortedRanked(init, priority);
      InsertRanked(Sorted(init), last, priority);
    }
  }

  lemma {:induction false} RankedIn(s: seq<Rule>, priority: int)
    ensures forall r <- Ranked(s, priority) :: r in s && r.priority == priority
  {
    if s != [] {
      RankedIn(s[..|s| - 1], priority);
    }
  }

  lemma LastIsLowest(s: seq<Rule>, priority: int)
    requires Descending(s) && Ranked(s, priority) != []
    ensures s != [] && s[|s| - 1].priority <= priority
  {
    RankedIn(s, priority);
    var r := Ranked(s, priority)[0];
    assert r in s && r.priority == priority;
    var i :| 0 <= i < |s| && s[i] == r;
    assert i < |s| - 1 ==> s[i].priority >= s[|s| - 1].priority;
  }

  /** Descending lists with the same rules in every rank end in the same rule. */
  lemma SameLast(a: seq<Rule>, b: seq<Rule>)
    requires Descending(a) && Descending(b) && SameRanks(a, b) && a != []
    ensures b != [] && a[|a| - 1] == b[|b| - 1]
  {
    var p, q := a[|a| - 1].priority, 0;
    assert Ranked(a, p)[|Ranked(a, p)| - 1] == a[|a| - 1];
    LastIsLowest(b, p);
    q := b[|b| - 1].priority;
    assert Ranked(b, q)[|Ranked(b, q)| - 1] == b[|b| - 1];
    LastIsLowest(a, q);
  }

  lemma SameRanksButLast(a: seq<Rule>, b: seq<Rule>, x: Rule)
    requires SameRanks(a + [x], b + [x])
    ensures SameRanks(a, b)
  {
    forall priority ensures Ranked(a, priority) == Ranked(b, priority) {
      RankedSnoc(a, x, priority);
      RankedSnoc(b, x, priority);
      assert Ranked(a + [x], priority) == Ranked(b + [x], priority);
      if x.priority != priority {
        assert Ranked(a, priority) + [] == Ranked(a, priority) && Ranked(b, priority) + [] == Ranked(b, priority);
      } else {
        var ra, rb := Ranked(a, priority), Ranked(b, priority);
        assert ra == (ra + [x])[..|ra + [x]| - 1] && rb == (rb + [x])[..|rb + [x]| - 1];
      }
    }
  }

  lemma {:induction false} SameRanksSame(a: seq<Rule>, b: seq<Rule>)
    requires Descending(a) && Descending(b) && SameRanks(a, b)
    ensures a == b
    decreases |a|
  {
    if a != [] {
      SameLast(a, b);
      var a', b', x := a[..|a| - 1], b[..|b| - 1], a[|a| - 1];
      assert a == a' + [x] && b == b' + [x];
      SameRanksButLast(a', b', x);
      SameRanksSame(a', b');
    } else if b != [] {
      SameLast(b, a);
    }
  }

  /** There is exactly one stable sort by descending priority, and `Sorted` is it. */
  lemma StableSortIsSorted(r: seq<Rule>, s: seq<Rule>)
    ensures StablySorted(r, s) <==> r == Sorted(s)
  {
    SortedDescending(s);
    forall priority ensures Ranked(Sorted(s), priority) == Ranked(s, priority) {
      SortedRanked(s, priority);
    }
    if StablySorted(r, s) {
      SameRanksSame(r, Sorted(s));
    }
  }

  lemma CountSnoc(s: seq<Rule>, y: Rule, x: Rule)
    ensures multiset(s + [y])[x] == multiset(s)[x] + if x == y then 1 else 0
  {
  }

  lemma {:induction false} RankedCount(s: seq<Rule>, x: Rule)
    ensures multiset(Ranked(s, x.priority))[x] == multiset(s)[x]
  {
    if s != [] {
      var s', y := s[..|s| - 1], s[|s| - 1];
      RankedCount(s', x);
      assert s == s' + [y];
      CountSnoc(s', y, x);
      CountSnoc(Ranked(s', x.priority), y, x);
    }
  }

  /** A stable sort loses no rule and makes none up. */
  lemma StableSortPermutes(r: seq<Rule>, s: seq<Rule>)
    requires StablySorted(r, s)
    ensures multiset(r) == multiset(s)
  {
    forall x: Rule ensures multiset(r)[x] == multiset(s)[x] {
      RankedCount(r, x);
      RankedCount(s, x);
      assert Ranked(r, x.priority) == Ranked(s, x.priority);
    }
  }

  /** sort.SliceStable by descending priority, as an insertion sort in place. */
  method SortStable(a: array<Rule>)
    modifies a
    ensures a[..] == Sorted(old(a[..])) && StablySorted(a[..], old(a[..]))
  {
    ghost var s := a[..];
    for i := 0 to a.Length
      invariant a[..i] == Sorted(s[..i])
      invariant a[i..] == s[i..]
    {
      assert a[i] == a[i..][0] == s[i] && a[i..][1..] == a[i + 1..];
      Sink(a, i);
      assert s[..i + 1][..i] == s[..i];
    }
    assert a[..a.Length] == a[..] && s[..a.Length] == s;
    StableSortIsSorted(a[..], s);
  }

  /** The array while `x`, first at `i`, is on its way and has reached `j`. */
  function Moved(s: seq<Rule>, x: Rule, i: nat, j: nat): (r: seq<Rule>)
    requires j <= i < |s|
    ensures |r| == |s| && r[j] == x && (j > 0 ==> r[j - 1] == s[j - 1])
  {
    s[..j] + [x] + s[j..i] + s[i + 1..]
  }

  lemma MovedStep(s: seq<Rule>, x: Rule, i: nat, j: nat)
    requires 0 < j <= i < |s|
    ensures Moved(s, x, i, j)[j - 1 := x][j := s[j - 1]] == Moved(s, x, i, j - 1)
  {
  }

  lemma MovedEnd(s: seq<Rule>, x: Rule, i: nat, j: nat)
    requires j <= i < |s|
    ensures Moved(s, x, i, j)[..i + 1] == s[..i][..j] + [x] + s[..i][j..]
    ensures Moved(s, x, i, j)[i + 1..] == s[i + 1..]
  {
  }

  /** Moves a[i] forward to its place. */
  method Sink(a: array<Rule>, i: nat)
    requires i < a.Length
    modifies a
    ensures a[..i + 1] == Insert(old(a[..i]), old(a[i]))
    ensures a[i + 1..] == old(a[i + 1..])
  {
    ghost var s, x := a[..], a[i];
    var j := i;
    assert Moved(s, x, i, i) == s;
    while j > 0 && a[j - 1].priority < a[j].priority
      invariant 0 <= j <= i
      invariant a[..] == Moved(s, x, i, j)
      invariant forall k :: j <= k < i ==> s[k].priority < x.priority
    {
      ghost var before := a[..];
      assert before[j - 1] == s[j - 1] && before[j] == x;
      a[j - 1], a[j] := a[j], a[j - 1];
      assert a[..] == before[j - 1 := x][j := s[j - 1]];
      MovedStep(s, x, i, j);
      j := j - 1;
    }
    ghost var end := a[..];
    assert j > 0 ==> end[j - 1] == s[j - 1] && end[j] == x;
    MovedEnd(s, x, i, j);
    InsertPlace(s[..i], x, j);
    assert a[..i + 1] == end[..i + 1] && a[i + 1..] == end[i + 1..];
    assert s[..i] == old(a[..i]) && s[i + 1..] == old(a[i + 1..]);
  }

  // ----- The scan finds the best rule -----

  function Filter(fold: Fold, rules: seq<Rule>, res: Resource): seq<Rule>
  {
    if rules == [] then [] else
    var k := |rules| - 1;
    Filter(fold, rules[..k], res) + if Matches(fold, rules[k], res) then [rules[k]] else []
  }

  /** The first rule of a list that decides. */
  function FirstDeciding(fold: Fold, s: seq<Rule>, acc: Option<Account>): Option<Rule>
  {
    if s == [] then None else
    if Decides(fold, s[0], acc) then Some(s[0]) else FirstDeciding(fold, s[1..], acc)
  }

  lemma {:induction false} FirstDecidingAppend(fold: Fold, a: seq<Rule>, b: seq<Rule>, acc: Option<Account>)
    ensures FirstDeciding(fold, a + b, acc)
         == if FirstDeciding(fold, a, acc).Some? then FirstDeciding(fold, a, acc) else FirstDeciding(fold, b, acc)
  {
    if a == [] {
      assert a + b == b;
    } else {
      assert (a + b)[1..] == a[1..] + b;
      FirstDecidingAppend(fold, a[1..], b, acc);
    }
  }

  lemma {:induction false} FirstDecidingIn(fold: Fold, s: seq<Rule>, acc: Option<Account>)
    ensures FirstDeciding(fold, s, acc).Some? ==> FirstDeciding(fold, s, acc).value in s
  {
    if s != [] {
      FirstDecidingIn(fold, s[1..], acc);
    }
  }

  lemma FirstDecidingSnoc(fold: Fold, s: seq<Rule>, x: Rule, acc: Option<Account>)
    ensures var first := FirstDeciding(fold, s, acc);
      FirstDeciding(fold, s + [x], acc) == if first.None? && Decides(fold, x, acc) then Some(x) else first
  {
    FirstDecidingAppend(fold, s, [x], acc);
    assert [x][1..] == [];
  }

  /** The first deciding rule after `x` was inserted behind the rules that do not rank below it. */
  function FirstWith(fold: Fold, first: Option<Rule>, x: Rule, acc: Option<Account>): Option<Rule>
  {
    if Decides(fold, x, acc) && (first.None? || first.value.priority < x.priority) then Some(x) else first
  }

  lemma FirstOfAppend(fold: Fold, s: seq<Rule>, x: Rule, acc: Option<Account>)
    requires Descending(s) && (s == [] || s[|s| - 1].priority >= x.priority)
    ensures FirstDeciding(fold, s + [x], acc) == FirstWith(fold, FirstDeciding(fold, s, acc), x, acc)
  {
    FirstDecidingSnoc(fold, s, x, acc);
    FirstDecidingIn(fold, s, acc);
  }

  /** Inserting a rule changes the first deciding one only if the new one decides and ranks higher. */
  lemma {:induction false} FirstOfInsert(fold: Fold, s: seq<Rule>, x: Rule, acc: Option<Account>)
    requires Descending(s)
    ensures FirstDeciding(fold, Insert(s, x), acc) == FirstWith(fold, FirstDeciding(fold, s, acc), x, acc)
    decreases |s|
  {
    if s == [] || s[|s| - 1].priority >= x.priority {
      FirstOfAppend(fold, s, x, acc);
    } else {
      var init, last := s[..|s| - 1], s[|s| - 1];
      FirstOfInsert(fold, init, x, acc);
      FirstDecidingSnoc(fold, init, last, acc);
      FirstDecidingSnoc(fold, Insert(init, x), last, acc);
      assert s == init + [last] && Insert(s, x) == Insert(init, x) + [last];
    }
  }

  /** The first applicable rule in rank order, or none. */
  ghost predicate IsBest(fold: Fold, rules: seq<Rule>, acc: Option<Account>, res: Resource, best: Option<Rule>)
  {
    match best
    case None => forall r <- rules :: !Applies(fold, r, acc, res)
    case Some(r) => exists i :: IsFirst(fold, rules, acc, res, i) && rules[i] == r
  }

  /** What the scan of the sorted matching rules finds. */
  function Scanned(fold: Fold, rules: seq<Rule>, acc: Option<Account>, res: Resource): Option<Rule>
  {
    FirstDeciding(fold, Sorted(Filter(fold, rules, res)), acc)
  }

  lemma ScannedStep(fold: Fold, rules: seq<Rule>, x: Rule, acc: Option<Account>, res: Resource)
    ensures Scanned(fold, rules + [x], acc, res)
         == if Matches(fold, x, res) then FirstWith(fold, Scanned(fold, rules, acc, res), x, acc)
            else Scanned(fold, rules, acc, res)
  {
    var filtered := Filter(fold, rules, res);
    assert (rules + [x])[..|rules|] == rules;
    if Matches(fold, x, res) {
      assert (filtered + [x])[..|filtered|] == filtered;
      SortedDescending(filtered);
      FirstOfInsert(fold, Sorted(filtered), x, acc);
    } else {
      assert filtered + [] == filtered;
    }
  }

  lemma {:induction false} ScanFindsBest(fold: Fold, rules: seq<Rule>, acc: Option<Account>, res: Resource)
    ensures IsBest(fold, rules, acc, res, Scanned(fold, rules, acc, res))
    decreases |rules|
  {
    if rules != [] {
      var init, x := rules[..|rules| - 1], rules[|rules| - 1];
      assert rules == init + [x];
      ScanFindsBest(fold, init, acc, res);
      ScannedStep(fold, init, x, acc, res);
      BestStep(fold, init, x, acc, res, Scanned(fold, init, acc, res));
    }
  }

  lemma BestStep(fold: Fold, init: seq<Rule>, x: Rule, acc: Option<Account>, res: Resource, first: Option<Rule>)
    requires IsBest(fold, init, acc, res, first)
    ensures IsBest(fold, init + [x], acc, res,
      if Applies(fold, x, acc, res) && (first.None? || first.value.priority < x.priority) then Some(x) else first)
  {
    var rules := init + [x];
    if first.Some? {
      var i :| IsFirst(fold, init, acc, res, i) && init[i] == first.value;
      if Applies(fold, x, acc, res) && first.value.priority < x.priority {
        assert IsFirst(fold, rules, acc, res, |init|);
      } else {
        assert IsFirst(fold, rules, acc, res, i);
      }
    } else if Applies(fold, x, acc, res) {
      assert forall j :: 0 <= j < |init| ==> init[j] in init;
      assert IsFirst(fold, rules, acc, res, |init|);
    }
  }

  /** `Verify`: true for nil, false for ErrForbidden. Access is granted exactly if some rule applies and
      the first applicable one, by descending priority and then by position, grants. */
  method Verify(fold: Fold, rules: seq<Rule>, acc: Option<Account>, res: Resource) returns (ok: bool)
    ensures ok <==> Granted(fold, rules, acc, res)
    ensures ok && acc.None? ==> exists r <- rules :: r.scope == "" && r.access == GRANTED
  {
    var validTypes := ["*", res.kind];
    var validNames := ["*", res.name];
    var validEndpoints := ["*", res.endpoint];
    var comps := Split(res.endpoint, '/');
    if |comps| > 1 {
      for i := 1 to |comps| + 1
        invariant validEndpoints == ["*", res.endpoint] + Wildcards(comps, i - 1)
      {
        validEndpoints := validEndpoints + [Join(comps[0..i], "/") + "/*"];
      }
    }
    assert validEndpoints == ValidEndpoints(res.endpoint);

    var filtered: seq<Rule> := [];
    for i := 0 to |rules|
      invariant filtered == Filter(fold, rules[..i], res)
    {
      var rule := rules[i];
      assert rules[..i + 1][..i] == rules[..i];
      assert filtered + [] == filtered;
      var t := Include(fold, validTypes, rule.resource.kind);
      if !t {
        continue;
      }
      var n := Include(fold, validNames, rule.resource.name);
      if !n {
        continue;
      }
      var e := Include(fold, validEndpoints, rule.resource.endpoint);
      if !e {
        continue;
      }
      filtered := filtered + [rule];
    }
    assert rules[..|rules|] == rules;
    var a := new Rule[|filtered|](i requires 0 <= i < |filtered| => filtered[i]);
    assert a[..] == filtered;
    SortStable(a);
    ScanFindsBest(fold, rules, acc, res);
    ok := Scan(fold, a[..], acc);
    BestDecides(fold, rules, acc, res, FirstDeciding(fold, a[..], acc));
    if acc.None? {
      NobodyNeedsPublicRule(fold, rules, res);
    }
  }

  /** The final loop of `Verify`. */
  method Scan(fold: Fold, filteredRules: seq<Rule>, acc: Option<Account>) returns (ok: bool)
    ensures ok <==> FirstDeciding(fold, filteredRules, acc).Some?
                    && FirstDeciding(fold, filteredRules, acc).value.access == GRANTED
  {
    for i := 0 to |filteredRules|
      invariant FirstDeciding(fold, filteredRules[i..], acc) == FirstDeciding(fold, filteredRules, acc)
    {
      var rule := filteredRules[i];
      assert filteredRules[i..][1..] == filteredRules[i + 1..];
      if rule.scope == "" && rule.access == DENIED {
        return false;
      } else if rule.scope == "" && rule.access == GRANTED {
        return true;
      }
      if acc.None? {
        continue;
      }
      if rule.scope == "*" && rule.access == DENIED {
        return false;
      } else if rule.scope == "*" && rule.access == GRANTED {
        return true;
      }
      var has := Include(fold, acc.value.scopes, rule.scope);
      if has && rule.access == DENIED {
        return false;
      } else if has && rule.access == GRANTED {
        return true;
      }
    }
    return false;
  }

  lemma BestDecides(fold: Fold, rules: seq<Rule>, acc: Option<Account>, res: Resource, best: Option<Rule>)
    requires IsBest(fold, rules, acc, res, best)
    ensures Granted(fold, rules, acc, res) <==> best.Some? && best.value.access == GRANTED
  {
    if best.Some? {
      var i :| IsFirst(fold, rules, acc, res, i) && rules[i] == best.value;
      forall j | IsFirst(fold, rules, acc, res, j)
        ensures j == i
      {
      }
    } else {
      forall j | 0 <= j < |rules|
        ensures !IsFirst(fold, rules, acc, res, j)
      {
        assert rules[j] in rules;
      }
    }
  }

  // ----- What scopes, kinds and names mean for the decision -----

  function WithoutRule(rules: seq<Rule>, i: nat): seq<Rule>
    requires i < |rules|
  {
    rules[..i] + rules[i + 1..]
  }

  /** A rule that does not apply may as well be left out. */
  lemma NoEffect(fold: Fold, rules: seq<Rule>, i: nat, acc: Option<Account>, res: Resource)
    requires i < |rules| && !Applies(fold, rules[i], acc, res)
    ensures Granted(fold, rules, acc, res) <==> Granted(fold, WithoutRule(rules, i), acc, res)
  {
    if Granted(fold, rules, acc, res) {
      var j :| IsFirst(fold, rules, acc, res, j) && rules[j].access == GRANTED;
      FirstWithoutRule(fold, rules, i, acc, res, j);
    }
    if Granted(fold, WithoutRule(rules, i), acc, res) {
      var j :| IsFirst(fold, WithoutRule(rules, i), acc, res, j) && WithoutRule(rules, i)[j].access == GRANTED;
      FirstWithRule(fold, rules, i, acc, res, j);
    }
  }

  lemma FirstWithoutRule(fold: Fold, rules: seq<Rule>, i: nat, acc: Option<Account>, res: Resource, j: int)
    requires i < |rules| && !Applies(fold, rules[i], acc, res)
    requires IsFirst(fold, rules, acc, res, j) && rules[j].access == GRANTED
    ensures Granted(fold, WithoutRule(rules, i), acc, res)
  {
    var rest := WithoutRule(rules, i);
    assert forall k :: 0 <= k < |rest| ==> rest[k] == rules[if k < i then k else k + 1];
    assert IsFirst(fold, rest, acc, res, if j < i then j else j - 1);
  }

  lemma FirstWithRule(fold: Fold, rules: seq<Rule>, i: nat, acc: Option<Account>, res: Resource, j: int)
    requires i < |rules| && !Applies(fold, rules[i], acc, res)
    requires IsFirst(fold, WithoutRule(rules, i), acc, res, j) && WithoutRule(rules, i)[j].access == GRANTED
    ensures Granted(fold, rules, acc, res)
  {
    var rest := WithoutRule(rules, i);
    var j' := if j < i then j else j + 1;
    assert rest[j] == rules[j'];
    forall k | 0 <= k < |rules| && Applies(fold, rules[k], acc, res)
      ensures rules[k].priority < rules[j'].priority || (rules[k].priority == rules[j'].priority && j' <= k)
    {
      assert rest[if k < i then k else k - 1] == rules[k];
    }
    assert IsFirst(fold, rules, acc, res, j');
  }

  /** The rule of highest priority among those about the resource decides for whom it is about. */
  lemma TopDecides(fold: Fold, rules: seq<Rule>, i: nat, acc: Option<Account>, res: Resource)
    requires i < |rules| && Applies(fold, rules[i], acc, res)
    requires forall j | 0 <= j < |rules| && j != i && Matches(fold, rules[j], res) ::
      rules[j].priority < rules[i].priority
    ensures Granted(fold, rules, acc, res) <==> rules[i].access == GRANTED
  {
    assert IsFirst(fold, rules, acc, res, i);
  }

  /** Exactly when a rule counts, for an account or for none: if it does not, leaving it out changes nothing;
      if it does, and all other rules rank below it, it decides. */
  lemma RuleCountsExactlyWhen(fold: Fold, rules: seq<Rule>, i: nat, acc: Option<Account>, res: Resource)
    requires i < |rules|
    ensures var r := rules[i];
      if && (r.access == GRANTED || r.access == DENIED)
         && (|| r.scope == ""
             || (acc.Some? && r.scope == "*")
             || (acc.Some? && exists s <- acc.value.scopes :: EqualFold(fold, s, r.scope)))
         && (EqualFold(fold, "*", r.resource.kind) || EqualFold(fold, res.kind, r.resource.kind))
         && (EqualFold(fold, "*", r.resource.name) || EqualFold(fold, res.name, r.resource.name))
         && (|| EqualFold(fold, "*", r.resource.endpoint)
             || EqualFold(fold, res.endpoint, r.resource.endpoint)
             || UnderWildcard(fold, res.endpoint, r.resource.endpoint))
      then
        (forall j | 0 <= j < |rules| && j != i :: rules[j].priority < r.priority) ==>
          (Granted(fold, rules, acc, res) <==> r.access == GRANTED)
      else
        Granted(fold, rules, acc, res) <==> Granted(fold, WithoutRule(rules, i), acc, res)
  {
    var r := rules[i];
    TwoIncluded(fold, "*", res.kind, r.resource.kind);
    TwoIncluded(fold, "*", res.name, r.resource.name);
    EndpointIncluded(fold, res.endpoint, r.resource.endpoint);
    if Applies(fold, r, acc, res) {
      if forall j | 0 <= j < |rules| && j != i :: rules[j].priority < r.priority {
        TopDecides(fold, rules, i, acc, res);
      }
    } else {
      NoEffect(fold, rules, i, acc, res);
    }
  }

  lemma TwoIncluded(fold: Fold, a: string, b: string, val: string)
    ensures Includes(fold, [a, b], val) <==> EqualFold(fold, a, val) || EqualFold(fold, b, val)
  {
    assert a in [a, b] && b in [a, b];
  }

  /** `val` is a wildcard behind some first components of an endpoint that has more than one. */
  predicate UnderWildcard(fold: Fold, endpoint: string, val: string)
  {
    var comps := Split(endpoint, '/');
    |comps| > 1 && exists n :: 1 <= n <= |comps| && EqualFold(fold, Join(comps[..n], "/") + "/*", val)
  }

  lemma EndpointIncluded(fold: Fold, endpoint: string, val: string)
    ensures Includes(fold, ValidEndpoints(endpoint), val) <==>
      EqualFold(fold, "*", val) || EqualFold(fold, endpoint, val) || UnderWildcard(fold, endpoint, val)
  {
    var comps := Split(endpoint, '/');
    var wild := if |comps| > 1 then Wildcards(comps, |comps|) else [];
    assert ValidEndpoints(endpoint) == ["*", endpoint] + wild;
    assert "*" in ["*", endpoint] && endpoint in ["*", endpoint];
    forall w <- wild | EqualFold(fold, w, val)
      ensures UnderWildcard(fold, endpoint, val)
    {
      var i :| 0 <= i < |wild| && wild[i] == w;
      assert Join(comps[..i + 1], "/") + "/*" == w;
    }
    if UnderWildcard(fold, endpoint, val) {
      var n :| 1 <= n <= |comps| && EqualFold(fold, Join(comps[..n], "/") + "/*", val);
      assert wild[n - 1] in wild;
    }
  }

  /** The rules for everyone. */
  function PublicRules(rules: seq<Rule>): seq<Rule>
  {
    if rules == [] then [] else
    PublicRules(rules[..|rules| - 1]) + if rules[|rules| - 1].scope == "" then [rules[|rules| - 1]] else []
  }

  /** Without an account only the rules for everyone count, so access needs one that grants. */
  lemma NobodyNeedsPublicRule(fold: Fold, rules: seq<Rule>, res: Resource)
    ensures Granted(fold, rules, None, res) ==> exists r <- rules :: r.scope == "" && r.access == GRANTED
    ensures Granted(fold, rules, None, res) <==> Granted(fold, PublicRules(rules), None, res)
  {
    ScanFindsBest(fold, rules, None, res);
    ScanFindsBest(fold, PublicRules(rules), None, res);
    BestDecides(fold, rules, None, res, Scanned(fold, rules, None, res));
    BestDecides(fold, PublicRules(rules), None, res, Scanned(fold, PublicRules(rules), None, res));
    PublicScanned(fold, rules, res);
  }

  lemma {:induction false} PublicScanned(fold: Fold, rules: seq<Rule>, res: Resource)
    ensures Scanned(fold, rules, None, res) == Scanned(fold, PublicRules(rules), None, res)
  {
    if rules != [] {
      var init, x := rules[..|rules| - 1], rules[|rules| - 1];
      assert rules == init + [x];
      PublicScanned(fold, init, res);
      ScannedStep(fold, init, x, None, res);
      if x.scope == "" {
        ScannedStep(fold, PublicRules(init), x, None, res);
      } else {
        assert PublicRules(init) + [] == PublicRules(init);
      }
    }
  }

  /** A granting rule for accounts that no other rule about the resource outranks grants every account, and
      is nothing to a caller without one. */
  lemma AccountRule(fold: Fold, rules: seq<Rule>, i: nat, res: Resource)
    requires i < |rules| && rules[i].scope == "*" && rules[i].access == GRANTED && Matches(fold, rules[i], res)
    requires forall j | 0 <= j < |rules| && j != i && Matches(fold, rules[j], res) ::
      rules[j].priority < rules[i].priority
    ensures forall account :: Granted(fold, rules, Some(account), res)
    ensures Granted(fold, rules, None, res) <==> Granted(fold, WithoutRule(rules, i), None, res)
  {
    forall account ensures Granted(fold, rules, Some(account), res) {
      TopDecides(fold, rules, i, Some(account), res);
    }
    NoEffect(fold, rules, i, None, res);
  }

  /** A rule of a named scope that no other outranks decides for the accounts that have the scope up to case,
      and is nothing to the others. */
  lemma ScopedRule(fold: Fold, rules: seq<Rule>, i: nat, acc: Option<Account>, res: Resource)
    requires i < |rules| && rules[i].scope != "" && rules[i].scope != "*" && Matches(fold, rules[i], res)
    requires rules[i].access == GRANTED || rules[i].access == DENIED
    requires forall j | 0 <= j < |rules| && j != i && Matches(fold, rules[j], res) ::
      rules[j].priority < rules[i].priority
    ensures if acc.Some? && exists s <- acc.value.scopes :: EqualFold(fold, s, rules[i].scope) then
              Granted(fold, rules, acc, res) <==> rules[i].access == GRANTED
            else
              Granted(fold, rules, acc, res) <==> Granted(fold, WithoutRule(rules, i), acc, res)
  {
    if acc.Some? && exists s <- acc.value.scopes :: EqualFold(fold, s, rules[i].scope) {
      TopDecides(fold, rules, i, acc, res);
    } else {
      NoEffect(fold, rules, i, acc, res);
    }
  }

  // ----- Order does not matter between distinct priorities -----

  predicate DistinctPriorities(rules: seq<Rule>)
  {
    forall i, j :: 0 <= i < j < |rules| ==> rules[i].priority != rules[j].priority
  }

  lemma GrantedByRank(fold: Fold, rules: seq<Rule>, acc: Option<Account>, res: Resource)
    requires DistinctPriorities(rules)
    ensures Granted(fold, rules, acc, res) <==> exists r <- rules ::
      && Applies(fold, r, acc, res) && r.access == GRANTED
      && forall q <- rules :: Applies(fold, q, acc, res) ==> q.priority <= r.priority
  {
    forall i | IsFirst(fold, rules, acc, res, i)
      ensures rules[i] in rules
      ensures forall q <- rules :: Applies(fold, q, acc, res) ==> q.priority <= rules[i].priority
    {
    }
    forall r <- rules | Applies(fold, r, acc, res)
        && forall q <- rules :: Applies(fold, q, acc, res) ==> q.priority <= r.priority
      ensures exists i :: IsFirst(fold, rules, acc, res, i) && rules[i] == r
    {
      var i :| 0 <= i < |rules| && rules[i] == r;
      assert forall j :: 0 <= j < |rules| ==> rules[j] in rules;
      assert IsFirst(fold, rules, acc, res, i);
    }
  }

  /** Permuting rules of distinct priorities never changes the decision. */
  lemma OrderIrrelevant(fold: Fold, a: seq<Rule>, b: seq<Rule>, acc: Option<Account>, res: Resource)
    requires multiset(a) == multiset(b) && DistinctPriorities(a)
    ensures DistinctPriorities(b)
    ensures Granted(fold, a, acc, res) <==> Granted(fold, b, acc, res)
  {
    assert forall r :: r in a <==> r in multiset(a);
    assert forall r :: r in b <==> r in multiset(b);
    PermutedPriorities(a, b);
    GrantedByRank(fold, a, acc, res);
    GrantedByRank(fold, b, acc, res);
  }

  lemma PermutedPriorities(a: seq<Rule>, b: seq<Rule>)
    requires multiset(a) == multiset(b) && DistinctPriorities(a)
    ensures DistinctPriorities(b)
  {
    forall i, j | 0 <= i < j < |b|
      ensures b[i].priority != b[j].priority
    {
      assert b == b[..i] + [b[i]] + b[i + 1..j] + [b[j]] + b[j + 1..];
      if b[i] == b[j] {
        assert multiset(b)[b[i]] >= 2;
        OnceOnly(a, b[i]);
      } else {
        assert b[i] in multiset(a) && b[j] in multiset(a);
        var k :| 0 <= k < |a| && a[k] == b[i];
        var l :| 0 <= l < |a| && a[l] == b[j];
      }
    }
  }

  lemma {:induction false} OnceOnly(a: seq<Rule>, r: Rule)
    requires DistinctPriorities(a)
    ensures multiset(a)[r] <= 1
  {
    if a != [] {
      assert a == [a[0]] + a[1..];
      OnceOnly(a[1..], r);
      if a[0] == r {
        assert r !in a[1..];
      }
    }
  }

  // ----- Wildcard endpoints -----

  /** Folding sends nothing else to where it sends the slash. */
  ghost predicate KeepsSlash(fold: Fold)
  {
    forall c: char :: fold(c) == fold('/') ==> c == '/'
  }

  predicate EqualFoldAll(fold: Fold, a: seq<string>, b: seq<string>)
  {
    |a| == |b| && forall i :: 0 <= i < |a| ==> EqualFold(fold, a[i], b[i])
  }

  /** Folding commutes with splitting into components. */
  lemma {:induction false} FoldSplit(fold: Fold, a: string, b: string)
    requires KeepsSlash(fold)
    ensures EqualFold(fold, a, b) <==> EqualFoldAll(fold, Split(a, '/'), Split(b, '/'))
    decreases |a|
  {
    var i, j := IndexAny(a, {'/'}), IndexAny(b, {'/'});
    if i < 0 || j < 0 {
      FoldSplitEnd(fold, a, b);
    } else {
      var a0, b0, a1, b1 := a[..i], b[..j], a[i + 1..], b[j + 1..];
      FoldSplit(fold, a1, b1);
      assert a == a0 + ['/'] + a1 && b == b0 + ['/'] + b1;
      assert Split(a, '/') == [a0] + Split(a1, '/') && Split(b, '/') == [b0] + Split(b1, '/');
      EqualFoldAllCons(fold, a0, b0, Split(a1, '/'), Split(b1, '/'));
      FoldParts(fold, a0, a1, b0, b1);
    }
  }

  lemma EqualFoldAllCons(fold: Fold, x: string, y: string, a: seq<string>, b: seq<string>)
    ensures EqualFoldAll(fold, [x] + a, [y] + b) <==> EqualFold(fold, x, y) && EqualFoldAll(fold, a, b)
  {
    var xa, yb := [x] + a, [y] + b;
    if EqualFoldAll(fold, xa, yb) {
      assert xa[0] == x && yb[0] == y;
      assert forall i :: 0 <= i < |a| ==> xa[i + 1] == a[i] && yb[i + 1] == b[i];
    }
  }

  lemma FoldSplitEnd(fold: Fold, a: string, b: string)
    requires KeepsSlash(fold) && ('/' !in a || '/' !in b)
    ensures EqualFold(fold, a, b) <==> EqualFoldAll(fold, Split(a, '/'), Split(b, '/'))
  {
    SlashSplits(a);
    SlashSplits(b);
    if '/' in a {
      SlashKept(fold, a, b);
    } else if '/' in b {
      SlashKept(fold, b, a);
    } else {
      var whole, other := Split(a, '/'), Split(b, '/');
      assert whole == [a] && other == [b] && whole[0] == a && other[0] == b;
      assert EqualFoldAll(fold, whole, other) <==> EqualFold(fold, whole[0], other[0]);
    }
  }

  lemma SlashKept(fold: Fold, a: string, b: string)
    requires KeepsSlash(fold) && '/' in a && '/' !in b
    ensures !EqualFold(fold, a, b) && !EqualFold(fold, b, a)
  {
    var i := IndexAny(a, {'/'});
    assert a[i] == '/';
    if |a| == |b| {
      assert b[i] != '/';
      assert fold(b[i]) != fold(a[i]);
    }
  }

  lemma FoldConcat(fold: Fold, a0: string, a1: string, b0: string, b1: string)
    requires |a0| == |b0|
    ensures EqualFold(fold, a0 + a1, b0 + b1) <==> EqualFold(fold, a0, b0) && EqualFold(fold, a1, b1)
  {
    var a, b := a0 + a1, b0 + b1;
    assert a[..|a0|] == a0 && a[|a0|..] == a1 && b[..|b0|] == b0 && b[|b0|..] == b1;
    if EqualFold(fold, a, b) {
      assert forall k :: 0 <= k < |a1| ==> a1[k] == a[|a0| + k] && b1[k] == b[|b0| + k];
    }
  }

  /** Texts up to the first slash, and after it. */
  lemma FoldParts(fold: Fold, a0: string, a1: string, b0: string, b1: string)
    requires KeepsSlash(fold) && '/' !in a0 && '/' !in b0
    ensures EqualFold(fold, a0 + ['/'] + a1, b0 + ['/'] + b1)
       <==> EqualFold(fold, a0, b0) && EqualFold(fold, a1, b1)
  {
    if |a0| == |b0| {
      FoldConcat(fold, a0 + ['/'], a1, b0 + ['/'], b1);
      FoldConcat(fold, a0, ['/'], b0, ['/']);
    } else if |a0| < |b0| {
      SlashElsewhere(fold, a0, a1, b0, b1);
    } else {
      SlashElsewhere(fold, b0, b1, a0, a1);
    }
  }

  lemma SlashElsewhere(fold: Fold, a0: string, a1: string, b0: string, b1: string)
    requires KeepsSlash(fold) && '/' !in b0 && |a0| < |b0|
    ensures !EqualFold(fold, a0 + ['/'] + a1, b0 + ['/'] + b1)
    ensures !EqualFold(fold, b0 + ['/'] + b1, a0 + ['/'] + a1)
  {
    var a, b := a0 + ['/'] + a1, b0 + ['/'] + b1;
    assert a[|a0|] == '/' && b[|a0|] == b0[|a0|] && b0[|a0|] in b0;
    assert fold(a[|a0|]) != fold(b[|a0|]);
  }

  lemma FoldSuffix(fold: Fold, a: string, b: string, suffix: string)
    ensures EqualFold(fold, a + suffix, b + suffix) <==> EqualFold(fold, a, b)
  {
    var x, y := a + suffix, b + suffix;
    assert forall k :: 0 <= k < |a| ==> x[k] == a[k];
    assert forall k :: 0 <= k < |b| ==> y[k] == b[k];
    assert |a| == |b| ==> forall k :: |a| <= k < |x| ==> x[k] == y[k];
  }

  /** The components of `p` are, up to case, the first components of the endpoint. */
  predicate ComponentPrefix(fold: Fold, p: string, endpoint: string)
  {
    var ps, es := Split(p, '/'), Split(endpoint, '/');
    |ps| <= |es| && EqualFoldAll(fold, ps, es[..|ps|])
  }

  lemma WildcardAt(fold: Fold, p: string, endpoint: string, i: nat)
    requires KeepsSlash(fold) && 1 <= i <= |Split(endpoint, '/')|
    ensures EqualFold(fold, Join(Split(endpoint, '/')[..i], "/") + "/*", p + "/*")
       <==> EqualFoldAll(fold, Split(p, '/'), Split(endpoint, '/')[..i])
  {
    var es := Split(endpoint, '/')[..i];
    assert forall c <- es :: c in Split(endpoint, '/');
    SplitJoin(es, '/');
    FoldSuffix(fold, Join(es, "/"), p, "/*");
    FoldSplit(fold, p, Join(es, "/"));
  }

  /** A rule for `p`, a slash and a star covers exactly the endpoints that have a slash and start with the components of
      `p`, up to case; so it covers `p` itself only if `p` has a slash. */
  lemma WildcardCovers(fold: Fold, p: string, endpoint: string)
    requires KeepsSlash(fold)
    ensures Includes(fold, ValidEndpoints(endpoint), p + "/*")
       <==> '/' in endpoint && ComponentPrefix(fold, p, endpoint)
  {
    var ps, es, valid := Split(p, '/'), Split(endpoint, '/'), ValidEndpoints(endpoint);
    if '/' in endpoint && ComponentPrefix(fold, p, endpoint) {
      SlashSplits(endpoint);
      WildcardAt(fold, p, endpoint, |ps|);
      assert valid[|ps| + 1] == Join(es[..|ps|], "/") + "/*";
      assert valid[|ps| + 1] in valid;
    }
    if Includes(fold, valid, p + "/*") {
      var s :| s in valid && EqualFold(fold, s, p + "/*");
      var k :| 0 <= k < |valid| && valid[k] == s;
      CoveredBy(fold, p, endpoint, k);
    }
  }

  /** Only the endpoint itself and its wildcards can be spelled with `/` and the star behind `p`. */
  lemma CoveredBy(fold: Fold, p: string, endpoint: string, k: nat)
    requires KeepsSlash(fold) && k < |ValidEndpoints(endpoint)|
    requires EqualFold(fold, ValidEndpoints(endpoint)[k], p + "/*")
    ensures '/' in endpoint && ComponentPrefix(fold, p, endpoint)
  {
    SlashSplits(endpoint);
    if k == 1 {
      WholeEndpoint(fold, p, endpoint);
    } else if k >= 2 {
      WildcardAt(fold, p, endpoint, k - 1);
    }
  }

  lemma SlashSplits(endpoint: string)
    ensures |Split(endpoint, '/')| > 1 <==> '/' in endpoint
  {
    var i := IndexAny(endpoint, {'/'});
  }

  /** An endpoint that is itself spelled with the star, up to case. */
  lemma WholeEndpoint(fold: Fold, p: string, endpoint: string)
    requires KeepsSlash(fold) && EqualFold(fold, endpoint, p + "/*")
    ensures '/' in endpoint && ComponentPrefix(fold, p, endpoint)
  {
    var i := |p|;
    var q := endpoint[..i];
    assert fold(endpoint[i]) == fold((p + "/*")[i]) && (p + "/*")[i] == '/';
    assert endpoint[i] == '/' && endpoint == q + ['/'] + endpoint[i + 1..];
    assert EqualFold(fold, p, q) by {
      assert forall k :: 0 <= k < |p| ==> (p + "/*")[k] == p[k];
    }
    FoldSplit(fold, p, q);
    SplitPrefix(q, endpoint[i + 1..]);
  }

  lemma {:induction false} SplitPrefix(q: string, rest: string)
    ensures Split(q + ['/'] + rest, '/') == Split(q, '/') + Split(rest, '/')
    decreases |q|
  {
    var i := IndexAny(q, {'/'});
    var s := q + ['/'] + rest;
    if i < 0 {
      SplitHead(q, '/', rest);
    } else {
      var q0, q1 := q[..i], q[i + 1..];
      assert q == q0 + ['/'] + q1 && s == q0 + ['/'] + (q1 + ['/'] + rest);
      SplitPrefix(q1, rest);
      SplitHead(q0, '/', q1 + ['/'] + rest);
      SplitHead(q0, '/', q1);
      PlusAssociates([q0], Split(q1, '/'), Split(rest, '/'));
    }
  }
}
