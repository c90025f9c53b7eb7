/** api/router/static/static.go: the router that holds the compiled templates. */
module StaticRouter {
  import opened Compile
  import opened CompilerTheorem
  import opened Expand
  import opened Language
  import opened Meaning
  import opened Parse
  import opened Runtime
  import opened Text
  import opened Types
  import opened Wrappers

  datatype Endpoint = Endpoint(name: string, handler: string, host: seq<string>, methods: seq<string>,
                               path: seq<string>)

  /** A registered endpoint. A compiled regular expression is represented by its source text. */
  datatype Entry = Entry(apiep: Endpoint, hostregs: seq<string>, pathregs: seq<Pattern>, pcreregs: seq<string>)

  /** The regular expression library: which texts compile, and what a compiled one matches. */
  datatype Regexps = Regexps(compiles: string -> bool, matches: (string, string) -> bool)

  // ----- What registering an endpoint computes -----

  predicate AnyHost(h: string)
  {
    h == "" || h == "*"
  }

  predicate Anchored(p: string)
    requires p != ""
  {
    p[0] == '^' && p[|p| - 1] == '$'
  }

  /** `router.Validate` on one path */
  predicate ValidPath(re: Regexps, p: string)
    requires p != ""
  {
    if Anchored(p) then re.compiles(p) else p[0] != '^' && p[|p| - 1] != '$'
  }

  predicate ValidEndpoint(re: Regexps, e: Endpoint)
    requires "" !in e.path
  {
    e.name != "" && (forall p <- e.path :: ValidPath(re, p)) && e.handler != ""
  }

  /** The host regular expressions: wildcard hosts have none. */
  function HostRegs(re: Regexps, hosts: seq<string>): Result<seq<string>>
  {
    if hosts == [] then Ok([]) else
    if !AnyHost(hosts[0]) && !re.compiles(hosts[0]) then Err else
    match HostRegs(re, hosts[1..])
    case Err => Err
    case Ok(rest) => Ok(if AnyHost(hosts[0]) then rest else [hosts[0]] + rest)
  }

  /** The pattern of one path; the verb of the template is dropped. Err where `Register` fails. */
  function PathReg(re: Regexps, p: string): Result<Option<Pattern>>
    requires p != ""
  {
    match ParseTemplate(p)
    case Err => if Anchored(p) && re.compiles(p) then Ok(None) else Err
    case Ok(t) =>
      match PatternOf(t, "", true)
      case None => Err
      case Some(pattern) => Ok(Some(pattern))
  }

  /** The anchored regular expression of one path, if it is one. */
  function PcreReg(re: Regexps, p: string): seq<string>
    requires p != ""
  {
    if Anchored(p) && re.compiles(p) then [p] else []
  }

  function PathRegs(re: Regexps, paths: seq<string>): Result<(seq<Pattern>, seq<string>)>
    requires "" !in paths
  {
    if paths == [] then Ok(([], [])) else
    match PathReg(re, paths[0])
    case Err => Err
    case Ok(reg) => After(if reg.Some? then [reg.value] else [], PcreReg(re, paths[0]), PathRegs(re, paths[1..]))
  }

  function After(pathregs: seq<Pattern>, pcreregs: seq<string>, rest: Result<(seq<Pattern>, seq<string>)>)
    : Result<(seq<Pattern>, seq<string>)>
  {
    match rest
    case Err => Err
    case Ok((ps, rs)) => Ok((pathregs + ps, pcreregs + rs))
  }

  lemma AfterStep(pathregs: seq<Pattern>, pcreregs: seq<string>, ps: seq<Pattern>, rs: seq<string>,
                  rest: Result<(seq<Pattern>, seq<string>)>)
    ensures After(pathregs, pcreregs, After(ps, rs, rest)) == After(pathregs + ps, pcreregs + rs, rest)
    ensures After([], [], rest) == rest
  {
    if rest.Ok? {
      assert pathregs + (ps + rest.value.0) == pathregs + ps + rest.value.0;
      assert pcreregs + (rs + rest.value.1) == pcreregs + rs + rest.value.1;
      assert [] + rest.value.0 == rest.value.0 && [] + rest.value.1 == rest.value.1;
    }
  }

  function EntryOf(re: Regexps, e: Endpoint): Result<Entry>
    requires "" !in e.path
  {
    if !ValidEndpoint(re, e) then Err else
    match (HostRegs(re, e.host), PathRegs(re, e.path))
    case (Ok(hosts), Ok((patterns, pcres))) => Ok(Entry(e, hosts, patterns, pcres))
    case _ => Err
  }

  // ----- When an endpoint serves a request, in terms of its declaration only -----

  predicate HostServes(re: Regexps, e: Endpoint, host: string)
  {
    e.host == [] || exists h <- e.host :: AnyHost(h) || re.matches(h, host)
  }

  /** The path is a template that the request's components read as, or an anchored regular expression
      that matches the path. */
  ghost predicate PathServes(re: Regexps, p: string, path: string)
  {
    || (p != "" && Anchored(p) && re.matches(p, path))
    || TemplateServes(p, path)
  }

  ghost predicate TemplateServes(p: string, path: string)
  {
    ParseTemplate(p).Ok? && exists spans :: Reading(ParseTemplate(p).value.segments, PathComponents(path), spans)
  }

  /** `fields` are the variables of a reading of the path as the template `p`. */
  ghost predicate FieldsOf(p: string, path: string, fields: map<string, string>)
  {
    ParseTemplate(p).Ok? && exists spans ::
      var segments := ParseTemplate(p).value.segments;
      && Reading(segments, PathComponents(path), spans)
      && LastOfEach(Bindings(segments, spans), fields)
  }

  /** `fields` are those of the first path, in the order of declaration, whose template serves; none, if none
      does. */
  ghost predicate FieldsFrom(paths: seq<string>, path: string, fields: map<string, string>)
  {
    if paths == [] then fields == map[] else
    if TemplateServes(paths[0], path) then FieldsOf(paths[0], path, fields) else FieldsFrom(paths[1..], path, fields)
  }

  ghost predicate Serves(re: Regexps, e: Endpoint, httpMethod: string, host: string, path: string)
  {
    httpMethod in e.methods && HostServes(re, e, host) && exists p <- e.path :: PathServes(re, p, path)
  }

  // ----- From the compiled entry to the declaration -----

  /** Hosts before the first wildcard have their regular expression at their own index. */
  lemma {:induction false} HostIndex(re: Regexps, hosts: seq<string>, i: nat)
    requires i < |hosts| && HostRegs(re, hosts).Ok?
    requires forall k :: 0 <= k <= i ==> !AnyHost(hosts[k])
    ensures i < |HostRegs(re, hosts).value| && HostRegs(re, hosts).value[i] == hosts[i]
  {
    if i > 0 {
      HostIndex(re, hosts[1..], i - 1);
    }
  }

  /** Exactly the anchored paths that compile have a regular expression. */
  lemma {:induction false} PathsHaveRegs(re: Regexps, paths: seq<string>)
    requires "" !in paths && PathRegs(re, paths).Ok?
    ensures forall q :: q in PathRegs(re, paths).value.1 <==> q in paths && Anchored(q) && re.compiles(q)
  {
    if paths != [] {
      PathsHaveRegs(re, paths[1..]);
      assert paths == [paths[0]] + paths[1..];
    }
  }

  /** All anchored paths of a registered endpoint compile. */
  lemma EntryPcres(re: Regexps, ep: Entry)
    requires "" !in ep.apiep.path && EntryOf(re, ep.apiep) == Ok(ep)
    ensures forall p :: p in ep.pcreregs <==> p in ep.apiep.path && Anchored(p)
  {
    PathsHaveRegs(re, ep.apiep.path);
    forall p <- ep.apiep.path | Anchored(p) ensures re.compiles(p) {
      assert ValidPath(re, p);
    }
  }

  lemma PathsSplit(re: Regexps, paths: seq<string>)
    requires paths != [] && "" !in paths && PathRegs(re, paths).Ok?
    ensures PathReg(re, paths[0]).Ok? && PathRegs(re, paths[1..]).Ok?
    ensures PathRegs(re, paths).value.0
         == (if PathReg(re, paths[0]).value.Some? then [PathReg(re, paths[0]).value.value] else [])
            + PathRegs(re, paths[1..]).value.0
  {
  }

  /** A path has a pattern exactly if it parses, and this is the pattern of its template. */
  lemma PathRegIsPattern(re: Regexps, p: string)
    requires p != "" && PathReg(re, p).Ok?
    ensures PathReg(re, p).value.Some? <==> ParseTemplate(p).Ok?
    ensures ParseTemplate(p).Ok? ==> PatternOf(ParseTemplate(p).value, "", true) == PathReg(re, p).value
  {
  }

  /** The result of the first pattern that matches. */
  function FirstMatch(regs: seq<Pattern>, comps: seq<string>): Option<map<string, string>>
  {
    if regs == [] then None else
    match MatchResult(regs[0], comps, "")
    case None => FirstMatch(regs[1..], comps)
    case Some(fields) => Some(fields)
  }

  function OrNone(m: Option<map<string, string>>): map<string, string>
  {
    match m
    case None => map[]
    case Some(fields) => fields
  }

  /** The patterns, in their order, decide and bind as the declared paths do in theirs. */
  lemma {:induction false} FirstMatchServes(re: Regexps, paths: seq<string>, path: string)
    requires "" !in paths && PathRegs(re, paths).Ok?
    ensures var regs := PathRegs(re, paths).value.0;
      var m := FirstMatch(regs, PathComponents(path));
      && (forall q <- regs :: Verified(q))
      && (m.Some? <==> exists p <- paths :: TemplateServes(p, path))
      && FieldsFrom(paths, path, OrNone(m))
    decreases |paths|
  {
    if paths != [] {
      var p, rest := paths[0], PathRegs(re, paths[1..]).value.0;
      PathsSplit(re, paths);
      FirstMatchServes(re, paths[1..], path);
      PathRegIsPattern(re, p);
      assert paths == [p] + paths[1..];
      var regs := PathRegs(re, paths).value.0;
      if ParseTemplate(p).Ok? {
        PathPattern(p, path);
        assert regs[0] == PathReg(re, p).value.value && regs[1..] == rest;
        if TemplateServes(p, path) {
          assert p in paths;
        }
      } else {
        assert regs == rest;
      }
    }
  }

  class Router {
    const re: Regexps
    var eps: map<string, Entry>
    var stopped: bool

    /** Every entry is what its endpoint compiles to, under the endpoint's own name. */
    ghost predicate Valid()
      reads this
    {
      forall name <- eps ::
        var e := eps[name].apiep;
        "" !in e.path && e.name == name && EntryOf(re, e) == Ok(eps[name])
    }

    constructor (re: Regexps)
      ensures Valid() && eps == map[] && this.re == re && !stopped
    {
      this.re := re;
      eps := map[];
      stopped := false;
    }

    method Validate(e: Endpoint) returns (ok: bool)
      requires "" !in e.path
      ensures ok == ValidEndpoint(re, e)
    {
      if |e.name| == 0 {
        return false;
      }
      for i := 0 to |e.path|
        invariant forall k :: 0 <= k < i ==> ValidPath(re, e.path[k])
      {
        var p := e.path[i];
        assert p in e.path;
        var ps, pe := p[0], p[|p| - 1];
        if ps == '^' && pe == '$' {
          if !re.compiles(p) {
            return false;
          }
        } else if ps == '^' && pe != '$' {
          return false;
        } else if ps != '^' && pe == '$' {
          return false;
        }
      }
      return |e.handler| > 0;
    }

    /** Registers the endpoint, replacing one of the same name. An empty path makes the source panic. */
    method Register(e: Endpoint) returns (ok: bool)
      requires Valid() && "" !in e.path
      modifies this`eps
      ensures Valid()
      ensures ok <==> EntryOf(re, e).Ok?
      ensures eps == if ok then old(eps)[e.name := EntryOf(re, e).value] else old(eps)
    {
      ok := Validate(e);
      if !ok {
        return;
      }
      var hostregs := CompileHosts(e.host);
      if hostregs.Err? {
        return false;
      }
      var pathregs := CompilePaths(e.path);
      if pathregs.Err? {
        return false;
      }
      eps := eps[e.name := Entry(e, hostregs.value, pathregs.value.0, pathregs.value.1)];
    }

    method CompileHosts(hosts: seq<string>) returns (r: Result<seq<string>>)
      ensures r == HostRegs(re, hosts)
    {
      var hostregs: seq<string> := [];
      assert HostRegs(re, hosts).Ok? ==> [] + HostRegs(re, hosts).value == HostRegs(re, hosts).value;
      for i := 0 to |hosts|
        invariant HostRegs(re, hosts) == match HostRegs(re, hosts[i..])
          case Err => Err
          case Ok(rest) => Ok(hostregs + rest)
      {
        var h := hosts[i];
        assert hosts[i..][1..] == hosts[i + 1..];
        if AnyHost(h) {
          continue;
        }
        if !re.compiles(h) {
          return Err;
        }
        ghost var rest := HostRegs(re, hosts[i + 1..]);
        assert rest.Ok? ==> hostregs + ([h] + rest.value) == hostregs + [h] + rest.value;
        hostregs := hostregs + [h];
      }
      assert hostregs + [] == hostregs;
      return Ok(hostregs);
    }

    method CompilePaths(paths: seq<string>) returns (r: Result<(seq<Pattern>, seq<string>)>)
      requires "" !in paths
      ensures r == PathRegs(re, paths)
    {
      var pathregs: seq<Pattern> := [];
      var pcreregs: seq<string> := [];
      AfterStep([], [], [], [], PathRegs(re, paths));
      for i := 0 to |paths|
        invariant PathRegs(re, paths) == After(pathregs, pcreregs, PathRegs(re, paths[i..]))
      {
        var p := paths[i];
        assert paths[i..][1..] == paths[i + 1..];
        ghost var rest := PathRegs(re, paths[i + 1..]);
        ghost var pathregs0, pcreregs0 := pathregs, pcreregs;
        var pcreok := false;
        if p[0] == '^' && p[|p| - 1] == '$' {
          if re.compiles(p) {
            pcreregs := pcreregs + [p];
            pcreok := true;
          }
        }
        var rule := ParseString(p);
        if rule.Err? && !pcreok {
          return Err;
        } else if rule.Err? && pcreok {
          AfterStep(pathregs0, pcreregs0, [], [p], rest);
          assert pathregs0 + [] == pathregs0;
          continue;
        }
        var tpl := TemplateCompile(rule.value);
        var pathreg := NewPattern(tpl.version, tpl.opCodes, tpl.pool, "", true);
        if pathreg.None? {
          return Err;
        }
        pathregs := pathregs + [pathreg.value];
        AfterStep(pathregs0, pcreregs0, [pathreg.value], PcreReg(re, p), rest);
        assert pcreregs == pcreregs0 + PcreReg(re, p);
      }
      assert pathregs + [] == pathregs && pcreregs + [] == pcreregs;
      return Ok((pathregs, pcreregs));
    }

    method Deregister(e: Endpoint) returns (ok: bool)
      requires Valid() && "" !in e.path
      modifies this`eps
      ensures Valid()
      ensures ok == ValidEndpoint(re, e)
      ensures eps == if ok then old(eps) - {e.name} else old(eps)
    {
      ok := Validate(e);
      if ok {
        eps := eps - {e.name};
      }
    }

    method Stop()
      modifies this`stopped
      ensures stopped
    {
      stopped := true;
    }

    /** Soundness and completeness of routing: an entry is found exactly if the router is running and
        some registered endpoint serves the request, and then it is such an endpoint. `fields` holds the
        variables of the first of its templates that serves. */
    method FindEndpoint(httpMethod: string, host: string, path: string)
      returns (r: Option<Entry>, fields: map<string, string>)
      requires Valid()
      ensures r.Some? <==> !stopped && exists name <- eps :: Serves(re, eps[name].apiep, httpMethod, host, path)
      ensures r.Some? ==> r.value in eps.Values && Serves(re, r.value.apiep, httpMethod, host, path)
      ensures r.Some? ==> FieldsFrom(r.value.apiep.path, path, fields)
    {
      fields := map[];
      if stopped {
        return None, fields;
      }
      var components := PathComponents(path);
      var names := eps.Keys;
      while names != {}
        invariant names <= eps.Keys
        invariant fields == map[]
        invariant forall name <- eps :: name !in names ==> !Serves(re, eps[name].apiep, httpMethod, host, path)
        decreases names
      {
        var name :| name in names;
        names := names - {name};
        var ep := eps[name];
        if httpMethod !in ep.apiep.methods {
          continue;
        }
        var hMatch := MatchHost(ep, host);
        if !hMatch {
          continue;
        }
        var pMatch, found := MatchPath(ep, path);
        if !pMatch {
          continue;
        }
        assert ep in eps.Values;
        return Some(ep), found;
      }
      return None, fields;
    }

    method MatchHost(ep: Entry, host: string) returns (matched: bool)
      requires "" !in ep.apiep.path && EntryOf(re, ep.apiep) == Ok(ep)
      ensures matched == HostServes(re, ep.apiep, host)
    {
      var hosts := ep.apiep.host;
      if |hosts| == 0 {
        return true;
      }
      for idx := 0 to |hosts|
        invariant forall k :: 0 <= k < idx ==> !AnyHost(hosts[k]) && !re.matches(hosts[k], host)
      {
        var h := hosts[idx];
        if AnyHost(h) {
          assert h in hosts;
          return true;
        }
        HostIndex(re, hosts, idx);
        if re.matches(ep.hostregs[idx], host) {
          assert h in hosts;
          return true;
        }
      }
      return false;
    }

    method MatchPath(ep: Entry, path: string) returns (matched: bool, fields: map<string, string>)
      requires "" !in ep.apiep.path && EntryOf(re, ep.apiep) == Ok(ep)
      ensures matched <==> exists p <- ep.apiep.path :: PathServes(re, p, path)
      ensures FieldsFrom(ep.apiep.path, path, fields)
    {
      var m := MatchTemplates(ep, path);
      if m.Some? {
        return true, m.value;
      }
      matched := MatchPcres(ep, path);
      fields := map[];
    }

    /** The loop over the compiled templates. */
    method MatchTemplates(ep: Entry, path: string) returns (m: Option<map<string, string>>)
      requires "" !in ep.apiep.path && EntryOf(re, ep.apiep) == Ok(ep)
      ensures m.Some? <==> exists p <- ep.apiep.path :: TemplateServes(p, path)
      ensures FieldsFrom(ep.apiep.path, path, OrNone(m))
    {
      var components := PathComponents(path);
      FirstMatchServes(re, ep.apiep.path, path);
      ghost var first := FirstMatch(ep.pathregs, components);
      for i := 0 to |ep.pathregs|
        invariant FirstMatch(ep.pathregs[i..], components) == first
      {
        assert ep.pathregs[i] in ep.pathregs && ep.pathregs[i..][1..] == ep.pathregs[i + 1..];
        m := Match(ep.pathregs[i], components, "");
        if m.Some? {
          assert m == first;
          return;
        }
      }
      assert first == None;
      return None;
    }

    /** The loop over the anchored regular expressions. */
    method MatchPcres(ep: Entry, path: string) returns (matched: bool)
      requires "" !in ep.apiep.path && EntryOf(re, ep.apiep) == Ok(ep)
      ensures matched <==> exists p <- ep.apiep.path :: Anchored(p) && re.matches(p, path)
    {
      EntryPcres(re, ep);
      for i := 0 to |ep.pcreregs|
        invariant forall k :: 0 <= k < i ==> !re.matches(ep.pcreregs[k], path)
      {
        assert ep.pcreregs[i] in ep.pcreregs;
        if re.matches(ep.pcreregs[i], path) {
          return true;
        }
      }
      forall p <- ep.apiep.path | Anchored(p)
        ensures !re.matches(p, path)
      {
        assert p in ep.pcreregs;
      }
      return false;
    }
  }

  /** The pattern of a path matches exactly when the template has a reading. */
  lemma PathPattern(p: string, path: string)
    requires ParseTemplate(p).Ok? && PatternOf(ParseTemplate(p).value, "", true).Some?
    ensures var q := PatternOf(ParseTemplate(p).value, "", true).value;
      && Verified(q)
      && (MatchResult(q, PathComponents(path), "").Some? <==> TemplateServes(p, path))
      && (MatchResult(q, PathComponents(path), "").Some?
          ==> FieldsOf(p, path, MatchResult(q, PathComponents(path), "").value))
  {
    var t := ParseTemplate(p).value;
    var c := CompileTemplate(t);
    BuiltIsVerified(c.version, c.opCodes, c.pool, "", true);
    ParsedShape(p);
    ShapeIsCompilable(t.segments);
    FlatAcceptance(t, "", true);
    OwnVerbCorrect(t, "", true, PathComponents(path));
  }

  // ----- What is registered and what is served, in the words of the declaration -----

  lemma {:induction false} HostRegsOk(re: Regexps, hosts: seq<string>)
    ensures HostRegs(re, hosts).Ok? <==> forall h <- hosts :: h == "" || h == "*" || re.compiles(h)
  {
    if hosts != [] {
      HostRegsOk(re, hosts[1..]);
      assert hosts == [hosts[0]] + hosts[1..];
    }
  }

  lemma {:induction false} PathRegsOk(re: Regexps, paths: seq<string>)
    requires "" !in paths
    ensures PathRegs(re, paths).Ok? <==> forall p <- paths :: PathReg(re, p).Ok?
  {
    if paths != [] {
      PathRegsOk(re, paths[1..]);
      assert paths == [paths[0]] + paths[1..];
    }
  }

  /** A template has a pattern exactly if `**` occurs at most once. */
  lemma PathRegOk(re: Regexps, p: string)
    requires p != ""
    ensures PathReg(re, p).Ok? <==>
      match ParseTemplate(p)
      case Ok(t) => Deeps(Atoms(t.segments)) <= 1
      case Err => p[0] == '^' && p[|p| - 1] == '$' && re.compiles(p)
  {
    if ParseTemplate(p).Ok? {
      var t := ParseTemplate(p).value;
      ParsedShape(p);
      ShapeIsCompilable(t.segments);
      FlatAcceptance(t, "", true);
    }
  }

  /** Exactly which endpoints are registered: named ones with a handler, whose hosts compile unless they are
      wildcards; a path is anchored at both ends, and compiles, or at neither; and it is a template with at most
      one `**`, or anchored. */
  lemma RegisteredExactlyWhen(re: Regexps, e: Endpoint)
    requires "" !in e.path
    ensures EntryOf(re, e).Ok? <==>
      && e.name != "" && e.handler != ""
      && (forall h <- e.host :: h == "" || h == "*" || re.compiles(h))
      && forall p <- e.path ::
           && (p[0] == '^' <==> p[|p| - 1] == '$') && (p[0] == '^' ==> re.compiles(p))
           && (if ParseTemplate(p).Ok? then Deeps(Atoms(ParseTemplate(p).value.segments)) <= 1 else p[0] == '^')
  {
    HostRegsOk(re, e.host);
    PathRegsOk(re, e.path);
    forall p <- e.path
      ensures PathReg(re, p).Ok? <==>
        if ParseTemplate(p).Ok? then Deeps(Atoms(ParseTemplate(p).value.segments)) <= 1
        else p[0] == '^' && p[|p| - 1] == '$' && re.compiles(p)
    {
      PathRegOk(re, p);
    }
  }

  /** Exactly which requests an endpoint serves. */
  lemma ServesExactlyWhen(re: Regexps, e: Endpoint, httpMethod: string, host: string, path: string)
    ensures Serves(re, e, httpMethod, host, path) <==>
      && httpMethod in e.methods
      && (e.host == [] || exists h <- e.host :: h == "" || h == "*" || re.matches(h, host))
      && exists p <- e.path ::
           || (p != "" && p[0] == '^' && p[|p| - 1] == '$' && re.matches(p, path))
           || (ParseTemplate(p).Ok? && Reads(ParseTemplate(p).value.segments, PathComponents(path)))
  {
    assert forall p :: TemplateServes(p, path) <==>
      ParseTemplate(p).Ok? && Reads(ParseTemplate(p).value.segments, PathComponents(path));
  }

  /** The components are the path behind its slash, cut at the slashes. */
  lemma ComponentsArePath(path: string)
    ensures forall c <- PathComponents(path) :: '/' !in c
    ensures Join(PathComponents(path), "/") == if path == "" || path == "/" then path else path[1..]
  {
    JoinSplit(if path != "" && path != "/" then path[1..] else path, '/');
  }
}
