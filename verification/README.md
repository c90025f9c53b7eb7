# Verification of the router, registry and server cores

A Dafny model of the parts of a Go micro-service framework whose behaviour is hardest to see from one
function, and proofs about that model. `dafny verify dfyconfig.toml` checks all of it.

**HTTP path templates** (`api/router/util`) are the main part. A template such as
`/v1/{name=shelves/*}/**:verb` is cut into tokens, parsed, compiled to integer pairs with a constant pool,
checked by a bytecode verifier and run by a stack machine; the bytecode can be printed again. Each stage is
modelled with the loops and state of the source and proved against a specification; the specifications are
then connected into theorems about the whole pipeline.

- `Types`, `OpCodes`, `Compile`, `Runtime`, `Parse`: the source, stage by stage.
- `Meaning`: what a template means, as a way to cut path components into spans; no bytecode occurs in it.
- `Correctness`, `CompilerTheorem`, `ConstantPool`, `Decompiler`, `Safety`, `Limits`: compiler, verifier,
  machine and printer.
- `Grammar`, `Tokeniser`, `Language`, `RoundTrip`: which strings are templates, and printing and parsing.
- `Expand`, `StaticRouter`, `VerbText`: filling a template and matching it again, the router that holds the
  patterns, and the verb that it drops.

**The registry and its cache** (`registry`, `registry/cache`, `util/registry`). `Registry` and `Removal` are
the node-list helpers, `Cache` and `CacheRefinement` the cache and the map that it refines, `MemoryRegistry`
the registry and its events. `Convergence` puts both into one transition system with a queue of pending
events, in which a refill is two steps and the delivery of an event is two steps. `Sharing` and
`SharedObjects` do the same with service objects in a heap, into which `update` writes.

**Smaller cores**: `Auth` (authorization rules), `Pool` (client connections), `FreeList` and `Serving` (the
request free list of the RPC server, as a linked structure and under interleaving), `Socket` (the pseudo
socket), `IntPow` (wrapping exponentiation).

Classes, arrays and loops appear where the source has them; each such method is proved equal to, or is
specified by, functions about which the theorems are stated. `Text` holds the few functions of Go's
`strings` package that the code calls, `Wrappers` the option and result types. Go errors are `Err` or `None`;
an index out of range is the outcome `Panic`, and is proved not to happen.

## What the proofs found

- `accept` takes a `/` for every punctuation terminal (api/router/util/parse.go:270). `Language` proves how
  far this goes: a `/` can stand for `*` and for nothing else.
- The compiler theorem needs templates without nested variables, which is all that the parser produces
  (`Grammar.BraceOpensField`). A nested variable takes items of the segments before it off the stack; which
  templates NewPattern then accepts is `CompilerTheorem.Acceptance`, and `Limits` has one that is bound wrongly
  on every path whose two components differ.
- `/a:b:` parses to a literal that prints as `/a:b`, which parses to something else. `RoundTrip` has the exact
  condition.
- The router drops the verb of a template (api/router/static/static.go:136). `VerbText` proves which requests
  with the verb are still served.
- A lone variable filled with the empty string makes the path `/`, which the router splits into two
  components; `Expand.FillThenMatch` states this case.
- A cache refill that stores its snapshot after a later event was applied loses that event for good
  (`Convergence.LateStoreLosesNode`); the time limit of the entry repairs it. The convergence theorem is
  stated for runs without such a store, and `StoreIsSafeExactlyWhen` says which stores do no harm.
- The watcher clears the failure flag and applies the event in two critical sections. A refill that fails in
  between makes `del` skip, and the entry keeps nodes that are gone (`Convergence.FailureKeepsRemovedNodes`);
  `FailureHarmsExactlyWhen` has the exact events.
- The event of a call points to the caller's own service object, and `update` writes into it and caches it
  (registry/cache/cache.go:288-292, 317). A caller of the memory registry that registers and deregisters one
  object, as web/service.go does (lines 166 and 200), can make the cache lose a version that is still
  registered (`SharedObjects.SharedObjectLosesVersion`), or, if the first event is applied in between, take
  the nodes of other callers out of the registry itself (`SharedObjects.DeregisterTakesOthers`). With an
  object of its own for each call the cache converges (`SharedObjects.HeapCacheConverges`);
  `Sharing.PendingChangesExactlyWhen` says when one event changes another.
- `Recv` of the pseudo socket, unlike `Process`, may answer EOF while accepted messages wait
  (`Socket.AcceptedMessageIsLost`); `Socket.FirstEofLosesNothingExactlyWhen` says when it does not.
- A request object whose header could not be read is not put back on the free list
  (server/rpc_router.go:400-401); it is collected by the runtime.
- The comment in `auth/rules.go` (lines 19-20) does not say whether a rule `p/*` covers `p` itself. The code
  does cover it when the endpoint has a slash, so `/foo/*` covers `/foo`, and does not for a single component.
- `intpow` with a negative exponent does not end.

## Model

| member | source | states |
|---|---|---|
| `Language.ParseLanguage` | api/router/util/parse.go:24-42 | `Parse` accepts exactly the spellings of the template grammar and returns exactly that template, for every string: an if-and-only-if against a surface grammar defined without the parser; only tokens from a NUL token on may be anything |
| `Language.NulFreeLanguage` | api/router/util/parse.go:24-42 | Without NUL these are the plain spellings: a slash, the pieces, and a verb part or nothing |
| `Language.PipelineCorrect` | api/router/util/parse.go:24-42 | From template string to match: for every string that `Parse` accepts, NewPattern accepts the compilation exactly when `**` occurs at most once, and then Match, given any components and any verb, succeeds exactly when the request has a reading, with the bindings of that reading; the result has exactly the names of the bindings of the reading, each with the value of its last one |
| `CompilerTheorem.CompilerCorrect` | api/router/util/runtime.go:183-243 | For every flat template with named variables, non-empty literals and bodies and at most one `**`, and for any pattern verb and request verb: NewPattern accepts, and Match succeeds exactly when the verbs are equal and the components split into consecutive spans, one per atom, or the pattern has no verb, the colon option is off, and the components with the verb as text do; each variable gets the `/`-join of its span texts, the last occurrence of a name winning; the result has exactly the names of the bindings of the reading, each with the value of its last one |
| `Meaning.FoldedText` | api/router/util/runtime.go:184-195 | The components with the verb as text are those of the path with the colon and the verb written behind it |
| `Meaning.ReadsFirst` | api/router/util/runtime.go:201-237 | What has a reading, without spans: a template reads components exactly if its first segment reads some from the front and the rest reads the others; `*` reads one component, a literal itself, `**` anything, a variable what its body does |
| `Meaning.ReadsNothing` | api/router/util/runtime.go:201-237 | The empty list of segments reads no components |
| `Meaning.VariableText` | api/router/util/runtime.go:225-228 | The components of a value are those that the variable took, if none of its atoms took none |
| `Meaning.EmptyTailText` | api/router/util/runtime.go:218-228 | A `**` at the end of a variable that takes nothing leaves a slash behind the value |
| `CompilerTheorem.ReadingUnique` | api/router/util/runtime.go:183-243 | Components have at most one reading as an acceptable template, so the bindings that Match returns are determined by the template alone |
| `CompilerTheorem.Acceptance` | api/router/util/runtime.go:93-159 | NewPattern accepts any compiled template with named variables, nested or not, exactly when no variable body at any depth is empty, `**` occurs at most once at any depth, and each variable finds as many items on the stack as it has variables inside |
| `CompilerTheorem.FlatAcceptance` | api/router/util/runtime.go:93-159 | For a flat template that is: no empty body and at most one `**` |
| `CompilerTheorem.PatternRunsTemplate` | api/router/util/runtime.go:197-242 | The machine finds the leftmost assignment of components to atoms that leaves `tailLen` components for what follows `**`; `tailLen` is the number of atoms behind it |
| `CompilerTheorem.CompiledKeepsStrings` | api/router/util/compile.go:95-112 | Every operation of the accepted pattern carries, through the constant pool or `vars`, the string that its segment was compiled with |
| `Correctness.Simulation` | api/router/util/runtime.go:201-234 | The bytecode machine, with its pool indices and numbered captures, simulates a machine over the strings themselves, step by step |
| `Correctness.SegmentsRun` | api/router/util/compile.go:45-81 | Running compiled flat segments from any state, whatever is on the stack, fails exactly if no spans are found from there; otherwise it ends behind them and has added exactly the binding of each variable to its text |
| `Correctness.VariableRun` | api/router/util/compile.go:66-81 | CONCAT_N and CAPTURE behind a variable body bind the join of exactly that body and leave the stack as it was before |
| `Limits.NestedVariableIsMiscompiled` | api/router/util/runtime.go:229-232 | Why the compiler theorem is for flat templates: a capture pops the stack, so `/*/{x={y=*}}` is accepted but on every path a/b binds x to a, which is right exactly if a and b are the same |
| `Compile.SegmentCompile` | api/router/util/compile.go:45-81 | The segment code generators, the variable loop included, against their specification |
| `Compile.TemplateCompile` | api/router/util/compile.go:83-122 | `Compile` computes the specified code, pool and fields, and keeps verb and template text |
| `Compile.EncodeOps` | api/router/util/compile.go:89-112 | The loop over the operations: its map holds exactly the pool strings with their positions, so no string is pooled twice |
| `ConstantPool.PoolIsLossless` | api/router/util/compile.go:95-121 | The pool has no duplicates, decoding the integers through it gives back all operations with their strings, and `Fields` lists the capture names in order |
| `ConstantPool.VarsAreFields` | api/router/util/runtime.go:134-142 | The `vars` of NewPattern are the `Fields` of Compile |
| `ConstantPool.FlatCaptureNames` | api/router/util/compile.go:109-111 | In a flat template the fields are the variables from left to right |
| `Runtime.NewPattern` | api/router/util/runtime.go:64-170 | The verifier loop computes the specified pattern, refuses where the source refuses, and whatever it accepts is safe to run |
| `Runtime.AcceptedExactlyWhen` | api/router/util/runtime.go:64-170 | Exactly which integers NewPattern accepts: version 1 and pairs in which every operation is known, finds its string in the pool, finds its items on the stack of the height that the operations before it leave, and is no second PUSH_M |
| `Runtime.CheckedSafe` | api/router/util/runtime.go:93-159 | Every accepted operation list is safe from the height and capture count at which the check was: no underflow, every index in range, captures numbered in order, no stack above `stacksize` |
| `Runtime.CheckedTail` | api/router/util/runtime.go:98-121 | There is at most one PUSH_M, and `tailLen` counts exactly the pushes after it |
| `Runtime.Match` | api/router/util/runtime.go:183-243 | Match computes the specified bindings: exactly the names of the pattern, each with the captured value of its last occurrence; with an accepted pattern no index is out of range |
| `Runtime.BindIsLast` | api/router/util/runtime.go:238-241 | Assigning values to names in order leaves each name with the value of its last occurrence, and no other names |
| `Runtime.Execute` | api/router/util/runtime.go:197-237 | The loop over the operations against the machine specification, with every array and slice access proved in range |
| `Runtime.PatternString` | api/router/util/runtime.go:248-274 | The printer of an accepted pattern never goes out of range |
| `Safety.AcceptedOpsAreSafe` | api/router/util/runtime.go:79-159 | Verifier soundness for any accepted integers, compiled or not: before every operation the stack height equals the static count and is at most `stacksize`, Match never panics, and once PUSH_M has run the remaining pushes take exactly the remaining components |
| `Safety.DeepPatternsConsumeAll` | api/router/util/runtime.go:235-237 | With a PUSH_M, a run that reaches the end has consumed every component: the final length check never fires |
| `Decompiler.DecompilerAgrees` | api/router/util/runtime.go:248-274 | Printing the accepted bytecode gives the text that the template itself prints, nested variables included |
| `Types.SegmentString` | api/router/util/types.go:33-52 | The segment printers against their specification |
| `Types.TemplateString` | api/router/util/types.go:54-66 | The template printer against its specification |
| `Parse.Tokenize` | api/router/util/parse.go:44-106 | The tokeniser computes the specified tokens and verb; the token list is never empty and ends with the end marker |
| `Parse.Cut` | api/router/util/parse.go:58-92 | The three-state loop of the tokeniser |
| `Parse.ExpectPChars` | api/router/util/parse.go:304-355 | The state loop over percent escapes accepts exactly the pchar strings of section 3.3 of RFC 3986 |
| `Parse.ExpectIdent` | api/router/util/parse.go:358-383 | The identifier check |
| `Parse.PlainCharacters` | api/router/util/parse.go:326-341 | The unreserved characters, sub-delims, colon and at sign of RFC 3986, one by one |
| `Parse.HexDigits` | api/router/util/parse.go:385-395 | The hexadecimal digits, one by one |
| `Parse.IdentCharacters` | api/router/util/parse.go:358-383 | The characters of an identifier, one by one |
| `Parse.Parser.Accept` | api/router/util/parse.go:265-293 | `accept` takes the token or leaves everything as it was; accepted tokens followed by remaining tokens never change; the token list is never empty when it is called |
| `Parse.Parser.TopLevelSegments` | api/router/util/parse.go:116-135 | The parser entry against the recursive specification |
| `Parse.Parser.Segments` | api/router/util/parse.go:137-162 | Loop and mutual recursion end, keep every token, and compute the specified segments and rest |
| `Parse.Parser.SegmentOne` | api/router/util/parse.go:164-183 | One segment: the alternatives in their order |
| `Parse.Parser.VariableOne` | api/router/util/parse.go:194-222 | One variable, with or without a body |
| `Parse.Parser.FieldPath` | api/router/util/parse.go:224-242 | A dotted field path |
| `Parse.ParseString` | api/router/util/parse.go:24-42 | `Parse` is the specified function |
| `Tokeniser.ScanIsLossless` | api/router/util/parse.go:58-92 | Writing the tokens one after the other gives the input back |
| `Tokeniser.LegitScans` | api/router/util/parse.go:58-92 | Conversely, cutting what well-placed tokens write gives exactly these tokens back |
| `Tokeniser.ScanIsLegit` | api/router/util/parse.go:58-92 | Every cut list is well placed: a text token is followed by a delimiter of its state or by nothing |
| `Tokeniser.TokenizeIsLossless` | api/router/util/parse.go:44-106 | The tokens, and the colon with the verb if one was split off, are the whole input |
| `Tokeniser.StripWrites` | api/router/util/parse.go:94-101 | A verb is split off exactly when the last token has a colon; it has no colon and no character that would have been cut |
| `Tokeniser.PiecesAreLegit` | api/router/util/parse.go:61-83 | The tokeniser state follows the grammar: the tokens of well-formed pieces are cut where they should be and the state is back at the start behind them |
| `Grammar.PiecesParse` | api/router/util/parse.go:137-222 | The parser accepts the tokens of every well-formed list of pieces and returns what it stands for |
| `Grammar.SegmentsSound` | api/router/util/parse.go:137-222 | The parser accepts nothing else on tokens that the tokeniser can produce |
| `Grammar.BraceOpensField` | api/router/util/parse.go:77-83 | Why no variable is nested: inside a variable body `{` is cut as text, and no identifier follows a text token |
| `Grammar.FieldPathSound` | api/router/util/parse.go:224-242 | In a field path a `/` never stands for a dot, although `accept` would take it |
| `Language.SpellingIsParsed` | api/router/util/parse.go:94-101 | Every spelling, with or without a verb part, parses to what it stands for |
| `Language.ParsedIsSpelled` | api/router/util/parse.go:265-276 | Everything accepted, NUL or not, is a spelling of well-formed pieces that stand for the returned segments; a `/` that stands for `*` is the only other spelling of a segment |
| `Language.ParsedShape` | api/router/util/parse.go:137-242 | Parser output shape, NUL or not: no variable in a variable, literals are non-empty pchar strings other than `*` and `**`, field paths are dotted identifiers, bodies are not empty |
| `Language.ShapeIsCompilable` | api/router/util/compile.go:57-81 | Hence the compiler theorem covers all parser output |
| `RoundTrip.PrintThenParse` | api/router/util/types.go:54-66 | Print then parse gives the template back if and only if its verb has no `/`, `{` or `:`, and it is not the case that the verb is empty and the last segment is a literal with a colon |
| `RoundTrip.ParseThenPrint` | api/router/util/parse.go:24-106 | Parse, print, parse is the identity on every accepted string under the same condition, and only under it; the verb of a NUL-free string always meets it |
| `RoundTrip.ColonFamily` | api/router/util/parse.go:97-101 | The exception is reached by parsing: every `/lit:` with a colon in lit parses to that literal and prints as a string that does not parse back |
| `Expand.FillThenMatch` | api/router/util/runtime.go:201-242 | Expand and match are inverse: filled variables come back exactly, for all values without `/`; the one failing family, a lone variable filled with the empty string, is part of the statement |
| `StaticRouter.Router.Register` | api/router/static/static.go:90-154 | Registers exactly if the endpoint is valid and every host and path compiles; otherwise nothing changes; other endpoints stay |
| `StaticRouter.Router.Deregister` | api/router/static/static.go:156-167 | Removes exactly the named endpoint |
| `StaticRouter.Router.Validate` | api/router/endpoint.go:69-99 | The endpoint validation |
| `StaticRouter.Router.CompileHosts` | api/router/static/static.go:103-113 | Wildcard hosts are skipped, so the list may be shorter than the hosts |
| `StaticRouter.Router.CompilePaths` | api/router/static/static.go:115-142 | Each path becomes a pattern, an anchored expression, both, or an error |
| `StaticRouter.HostIndex` | api/router/static/static.go:274-281 | Up to the first wildcard the compiled host at index i is the one of host i, although wildcards are skipped |
| `StaticRouter.PathPattern` | api/router/static/static.go:136-141 | The pattern of a path matches exactly the request paths that have a reading as its template; the verb of the template is dropped |
| `StaticRouter.Router.FindEndpoint` | api/router/static/static.go:235-343 | Soundness and completeness: a route is returned exactly if the router runs and some endpoint serves method, host and path; the returned one does, and its fields are those of the first of its templates, in declaration order, that serves, or none |
| `StaticRouter.Router.MatchHost` | api/router/static/static.go:270-283 | The host scan never leaves the list and decides exactly whether a host serves |
| `StaticRouter.Router.MatchPath` | api/router/static/static.go:291-330 | Exactly whether some path serves; templates come before anchored expressions, so the fields are those of the first serving template whenever there is one |
| `StaticRouter.Router.MatchTemplates` | api/router/static/static.go:291-316 | A result exactly if some template serves, and then the fields of the first that does |
| `StaticRouter.FirstMatchServes` | api/router/static/static.go:115-142 | The compiled patterns, in their order and with the paths that have none left out, decide and bind exactly as the declared paths do in theirs |
| `StaticRouter.ServesExactlyWhen` | api/router/static/static.go:255-330 | Which requests an endpoint serves: the method is listed, there is no host or one that is a wildcard or matches, and some path is anchored and matches or is a template that reads the components |
| `StaticRouter.RegisteredExactlyWhen` | api/router/static/static.go:90-154 | Exactly which endpoints are registered: name and handler, hosts that compile or are wildcards, and paths that are anchored at both ends and compile or at neither, and that are templates with at most one `**` or anchored |
| `StaticRouter.ComponentsArePath` | api/router/static/static.go:245-250 | The components have no slash and joined are the path behind its first slash; the root path and the empty path are kept as they are |
| `VerbText.VerbServedExactlyWhen` | api/router/static/static.go:134-141 | What dropping the verb means: a path that the template serves is served with the verb written behind it exactly if its last component is not a literal; so a template that ends in a literal never serves its own text with the verb. The path `/`, which is split into two components, is so exactly if one component is enough for the template |
| `VerbText.VerbIsTextExactlyWhen` | api/router/util/runtime.go:201-237 | With at most one `**`, components with a verb behind the last one have a reading exactly if that component is not a literal in theirs |
| `StaticRouter.Router.MatchPcres` | api/router/static/static.go:318-330 | Exactly whether some anchored expression matches |
| `Registry.AddNodes` | util/registry/util.go:7-36 | The merged list, with the new nodes first |
| `Registry.DelNodes` | util/registry/util.go:38-53 | The list without the deleted ids |
| `Registry.MergedById` | util/registry/util.go:7-36 | Merging lists is overriding maps from id to node; the new nodes win |
| `Registry.MergedDistinct` | util/registry/util.go:7-36 | The merged list has no id twice |
| `Registry.MergedOrder` | util/registry/util.go:7-36 | The merged list starts with the new nodes, and what is behind them are old nodes |
| `Registry.WithoutById` | util/registry/util.go:38-53 | Removing from the list is domain subtraction on the map |
| `Registry.WithoutAppend` | util/registry/util.go:38-53 | Nodes are kept or deleted one by one, so those that stay keep their order |
| `Removal.Remove` | util/registry/util.go:123-148 | The nested loops compute the specified list |
| `Removal.RemoveTakesNamed` | util/registry/util.go:123-148 | Exactly the nodes named under their own version are gone, and versions stay distinct |
| `Removal.RemovedServices` | util/registry/util.go:123-148 | What is left: every service of which not all nodes are named for its version, with its name and metadata and exactly its other nodes, and nothing else |
| `Cache.Cache.Update` | registry/cache/cache.go:229-350 | `update` on service objects against its specification: what it writes into the object of the event and into the cached one, which pointers the entry then holds, and under which name; every early return, unwatched and unknown names and the failing state included |
| `Cache.Cache.Get` | registry/cache/cache.go:141-220 | A list that is not empty is returned up to its expiry and nothing changes; after it, or without one, the registry is asked, copies of its answer are stored in objects of their own with a new expiry, and in case of an error a stale list is returned and the failure noted; for any answer of the registry |
| `Cache.GetTwice` | registry/cache/cache.go:141-220 | Two calls with no event in between: what the first stores at t is the answer of the second up to t + ttl, and the answer of the registry after that, unless asking it fails |
| `Cache.EventWithoutNodes` | registry/cache/cache.go:252-261 | An event without nodes removes the entry exactly if it is a delete event and the registry is not failing |
| `Cache.EventOfOthers` | registry/cache/cache.go:238-249 | An event of a name that is not watched or not cached does nothing |
| `Cache.EventOfOtherAction` | registry/cache/cache.go:271-349 | An override event drops the entry exactly if its version is cached and the registry is not failing; unknown actions do nothing |
| `Cache.Cache.Complete` | registry/cache/cache.go:275-290 | The loop that completes the object of an event in place: afterwards it has its own nodes and then those of the cached service that it lacked, and no other object has changed |
| `Cache.UpdateKeepsOwn` | registry/cache/cache.go:229-350 | Entries keep pointing to services of the name they are cached under, and the change is made under that name |
| `Cache.Cache.Put` | registry/cache/cache.go:223-226 | `set` |
| `Cache.Cache.Del` | registry/cache/cache.go:127-135 | `del` keeps the entry while the registry is failing |
| `CacheRefinement.UpdateRefinesMap` | registry/cache/cache.go:246-341 | With distinct versions, `update` is new-wins override of the map version to id to node, and on delete domain subtraction that drops emptied versions; an emptied map drops the entry |
| `CacheRefinement.UpdateKeepsShape` | registry/cache/cache.go:271-342 | No empty version, no empty list, distinct versions and distinct node ids are kept |
| `CacheRefinement.UpdateDescribes` | registry/cache/cache.go:271-342 | Services of other versions stay as they are; that of the event has the name and metadata of the event when nodes are added, and its old ones when nodes are removed |
| `MemoryRegistry.MemRegistry.Register` | registry/memory.go:137-193 | The new records and the event, in all three cases |
| `MemoryRegistry.MemRegistry.Deregister` | registry/memory.go:195-220 | The new records and the event |
| `MemoryRegistry.MemRegistry.GetService` | registry/memory.go:222-239 | Every version once, in any order of the map iteration, with the metadata and exactly the nodes of its record |
| `MemoryRegistry.RegisterThenGet` | registry/memory.go:137-239 | Register, then GetService: the version is listed with the nodes that were passed, as they were passed; a new version has the last node of each id, a known one keeps its nodes and metadata and gets the first node of each new id |
| `MemoryRegistry.NewVersionNodes` | registry/memory.go:146-160 | The record of a new version: the metadata, and for each id the last node with the time to live and the time of the call |
| `MemoryRegistry.KnownVersionNodes` | registry/memory.go:162-190 | The record of a known version: if a node is new, old nodes stay and each new id has its first node; if none is, exactly the nodes named get the time to live and the time of the call |
| `MemoryRegistry.DeregisteredNodes` | registry/memory.go:199-213 | A version is gone exactly if all its nodes are named; otherwise it keeps the others, as they were |
| `MemoryRegistry.OthersStay` | registry/memory.go:137-220 | No call changes another version or name |
| `MemoryRegistry.MemRegistry.StampNodes` | registry/memory_util.go:7-34 | The nodes of a record |
| `MemoryRegistry.MemRegistry.NodeList` | registry/memory_util.go:66-80 | The node list of a record: the same map from id to node, and no id twice |
| `MemoryRegistry.RegisterHolds` | registry/memory.go:146-192 | After Register exactly the named nodes are registered in addition; an event is emitted exactly if the version or a node is new |
| `MemoryRegistry.DeregisterHolds` | registry/memory.go:199-217 | After Deregister exactly the named nodes are gone; an event is emitted exactly if the name is registered |
| `Convergence.CacheConverges` | registry/cache/cache.go:229-350 | Over every interleaving of registrations, overlapping two-step refills, refill failures, and events that are taken and applied in two steps: whenever no event is pending, a cached entry holds exactly the registered version and id pairs, if no snapshot was stored after an event emitted behind it had been applied, and no event was applied harmfully under a failure. Events and entries are values here, so this is about runs in which no service object is shared; `SharedObjects.HeapCacheConverges` is the theorem on objects |
| `Convergence.FailureHarmsExactlyWhen` | registry/cache/cache.go:127-135 | A failure between clearing the flag and applying the event does harm exactly if the event should drop the entry and one of its nodes is not named by a later event: after all pending events, an entry that is left lists exactly the registered nodes if and only if this is not so |
| `Convergence.ApplyKeepsInvExactlyWhen` | registry/cache/cache.go:127-135 | The step that applies an event keeps what runs keep exactly in the same cases |
| `Convergence.FailureKeepsRemovedNodes` | registry/cache/cache.go:456-462 | For every cached service with one version there is a run, with all snapshots stored in time, in which such a failure leaves every removed node in the entry after all events are applied |
| `Convergence.StepKeepsInv` | registry/cache/cache.go:456-462 | What every step keeps: outside the nodes that pending events name, cache and registry agree, and the registry already shows the last pending event on each node |
| `Convergence.StoreKeepsInv` | registry/cache/cache.go:161-194 | A snapshot taken earlier may be stored while events that it already reflects are still pending: replaying them does no harm |
| `Convergence.DrainedLists` | registry/cache/cache.go:456-462 | Replaying the queue over any list: each node follows the last event that names it, and otherwise stays |
| `Convergence.StoreIsSafeExactlyWhen` | registry/cache/cache.go:187-190 | Storing any snapshot is harmless exactly if it is right on every node that no pending event names |
| `Convergence.LateStoreLosesNode` | registry/cache/cache.go:161-194 | For every registry and every new node there is a run in which a snapshot stored too late leaves the cache without that node after all events are delivered |
| `Sharing.UpdateOnValues` | registry/cache/cache.go:229-350 | While no object occurs twice among the cached pointers, the event and what is pending, the in-place `update` makes of the entry what `update` on values does, leaves every pending event as it is, and lets no object occur twice |
| `Sharing.PendingChangesExactlyWhen` | registry/cache/cache.go:272-319 | Exactly when applying an event changes pending ones: one of them points to the object that is written, and that is the object of an update event whose cached version has a node it does not name, or the cached object of a delete event that names some of its nodes and not all |
| `SharedObjects.HeapCacheConverges` | registry/cache/cache.go:229-350 | Convergence on objects: `CacheConverges` holds for the system whose events and entries are pointers, in every run in which each call passes an object that is neither pending nor cached, or passes it unchanged and causes no event |
| `SharedObjects.StepOnValues` | registry/cache/cache.go:229-350 | Each such step on objects is the step on values, and keeps all objects distinct |
| `SharedObjects.ApplyIsUpdate` | registry/cache/cache.go:229-350 | Applying an event in the system on objects is exactly what `update` of the cache object does to a watched name, failing or not; the lists of other names and the services in them stay |
| `SharedObjects.SharedObjectLosesVersion` | registry/cache/cache.go:272-342 | The hypothesis is needed: for every cached list of several versions and every service that adds a node to one of them there is a run, with the snapshot stored in time and without failures, in which registering and deregistering the same object leaves the entry without that version while the registry still holds its other nodes |
| `SharedObjects.DeregisterTakesOthers` | registry/memory.go:195-220 | If the first event is applied between the two calls, the same object takes all nodes of its version out of the registry, including those that the caller never named |
| `Auth.Verify` | auth/rules.go:12-80 | Access is granted exactly if some rule applies and the first applicable one, by descending priority and then by position, grants |
| `Auth.Include` | auth/rules.go:84-91 | Membership up to case |
| `Auth.SortStable` | auth/rules.go:45-47 | The in-place sort is descending and keeps the rules of each priority in their order |
| `Auth.StableSortIsSorted` | auth/rules.go:45-47 | There is exactly one stable sort by descending priority, and it is the one modelled, so it stands for the library function |
| `Auth.StableSortPermutes` | auth/rules.go:45-47 | A stable sort loses no rule and adds none |
| `Auth.Scan` | auth/rules.go:49-79 | The scan stops at the first rule that decides, with its case for every scope |
| `Auth.ScanFindsBest` | auth/rules.go:44-80 | Filter, stable sort and scan find the rule of highest rank among those that apply |
| `Auth.RuleCountsExactlyWhen` | auth/rules.go:12-80 | For whom and what a rule counts, in the words of the rule: scope empty for everyone, `*` for accounts, any other for accounts with that scope up to case; kind, name and endpoint `*` or the same up to case, or a wildcard over the endpoint. A rule that counts and outranks the others decides; one that does not may be left out |
| `Auth.NobodyNeedsPublicRule` | auth/rules.go:51-62 | Without an account access needs a granting rule for everyone, and only the rules for everyone matter |
| `Auth.AccountRule` | auth/rules.go:59-70 | A granting rule of scope `*` that no other rule about the resource outranks grants every account, and is nothing to a caller without one |
| `Auth.ScopedRule` | auth/rules.go:71-77 | A rule of a named scope that no other outranks decides exactly for the accounts with that scope, up to case |
| `Auth.OrderIrrelevant` | auth/rules.go:12-80 | Permuting rules of distinct priorities never changes the decision |
| `Auth.WildcardCovers` | auth/rules.go:19-27 | A rule `p/*` covers exactly the endpoints that contain a slash and have p as a prefix component by component, up to case |
| `IntPow.Intpow` | util/sync/manager.go:79-89 | For every exponent that is not negative the loop ends with the power wrapped to 64 bits: in range, and apart from the power by a multiple of 2 to the 64 |
| `IntPow.PowAdds` | util/sync/manager.go:79-89 | The power is the one of arithmetic: exponents add |
| `IntPow.EndsExactlyWhen` | util/sync/manager.go:81-87 | The loop ends if and only if the exponent is not negative |
| `Socket.PseudoSocket.DoSend` | util/socket/socket.go:69-78 | On an open socket a message is enqueued if fewer than 128 wait, and the call blocks otherwise |
| `Socket.PseudoSocket.DoProcess` | util/socket/socket.go:44-59 | Two selects: the first message, if there is one, whichever case is taken; otherwise EOF on a closed socket |
| `Socket.PseudoSocket.DoAccept` | util/socket/socket.go:34-41 | The same as sending, on the receive side |
| `Socket.PseudoSocket.DoRecv` | util/socket/socket.go:80-92 | One select on the receive side, without a second one |
| `Socket.PseudoSocket.DoClose` | util/socket/socket.go:95-103 | Closing twice is closing once |
| `Socket.ProcessDrains` | util/socket/socket.go:44-59 | In every interleaving the processed messages are a prefix of those enqueued, and Process answers EOF exactly when the socket is closed and everything enqueued was processed |
| `Socket.NothingSentIsLost` | util/socket/socket.go:95-103 | Every message enqueued before Close was processed when Process first answers EOF, whatever came in between |
| `Socket.DrainCompletes` | util/socket/socket.go:48-56 | After Close, as many calls of Process as messages wait drain them all and then answer EOF, whatever the selects pick |
| `Socket.FirstEofLosesNothingExactlyWhen` | util/socket/socket.go:80-92 | Recv differs from Process: whatever happens after Close, everything accepted before it was received when Recv first answers EOF if and only if, of the Recv calls up to then, none of the first as many as messages waited at Close takes the close signal |
| `Socket.AcceptedMessageIsLost` | util/socket/socket.go:80-92 | The failure is reached for every message: accepted, then Close, and Recv answers EOF while it waits |
| `Socket.NothingAcceptedVanishes` | util/socket/socket.go:34-41 | In every run the received messages and those that wait are exactly the accepted ones, in order |
| `Pool.Pool.Get` | util/pool/default.go:69-109 | The outcome in every case: the last connection of the address that is not too old is returned and exactly those behind it are closed; if there is none, all are closed and a connection is dialled; a close that fails ends the call with an error there. Nothing else changes, and every connection stays accounted for |
| `Pool.Pool.TakeIdle` | util/pool/default.go:73-96 | The loop under the lock: where it stops, what is left in the list, and what it returns |
| `Pool.Pool.PopLast` | util/pool/default.go:75-78 | The last connection of the list, and no other, is taken |
| `Pool.Pool.Release` | util/pool/default.go:111-129 | A connection that failed or finds its list full is closed, any other is appended to the list of its own remote |
| `Pool.Pool.Close` | util/pool/default.go:37-54 | Every idle connection is closed, those lent are not |
| `FreeList.Router.GetRequest` | server/rpc_router.go:299-312 | The linked list stays acyclic; the object is cleared and was not in flight |
| `FreeList.Router.FreeRequest` | server/rpc_router.go:314-320 | The object becomes the first free one |
| `FreeList.Router.ReadHeader` | server/rpc_router.go:392-436 | Which outcomes leave the object with the caller |
| `FreeList.Router.ReadRequest` | server/rpc_router.go:345-390 | The same for reading the body |
| `FreeList.Router.Call` | server/rpc_router.go:208-209 | The deferred free runs on every way out |
| `FreeList.Router.ServeRequest` | server/rpc_router.go:490-506 | If the header was read the object is back on the list exactly once, in front of the others; otherwise it is neither free nor freed |
| `Serving.ServingIsSafe` | server/rpc_router.go:299-320 | Over every interleaving of calls: no object is held twice or held while free, and each call frees its object exactly once if its header was read and never otherwise |
| `Serving.StepKeepsInv` | server/rpc_router.go:490-506 | Every object ever made is in exactly one place: free, held by one call, or dropped |

## Left out

- Limits.NestedVariableIsMiscompiled: one shape of nested template, with all names and paths. Nested variables never leave the parser, so the compiler theorem is for all flat templates; `CompilerTheorem.Acceptance` covers nested ones too.
- Expand.FillThenMatch: literals and variables over one `*`, because other bodies do not determine how many components a value has.
- Convergence.CacheConverges: for one watched name, an ordered queue without loss, a watcher that is live before the refill and no TTL pruning; it speaks of version and id pairs, because `Register` keeps the old address of a known id while the cache takes the new one. Events and entries are values, so it is about runs in which no service object is shared; `SharedObjects.HeapCacheConverges` has the objects.
- SharedObjects.HeapCacheConverges: with the same limits on names, queue and watcher; one cache receives the events, and a caller writes into an object only when it passes it, so not while it is pending or cached. Node lists are values: the array behind a list that `append` extends is not shared in the model.
- Cache.Cache.Get: the refill is one step here; `Convergence` has it in two. The single-flight group and the start of the watcher goroutine are not modelled.
- Cache.Cache.Update: a reference to a service object is a position in the `heap` of the cache, which stands for the memory that cache and callers share; nodes, metadata and endpoints are not objects of their own.
- MemoryRegistry.MemRegistry.Register: returns the event that the source sends from a goroutine; service metadata, endpoints and the options of the call are left out.
- StaticRouter.Router.FindEndpoint: the regular expression library is a parameter, which endpoint comes first is any order as in Go's map iteration, and the request metadata that the match writes is returned as `fields`.
- StaticRouter.Router.Register: an empty path string makes the source panic (api/router/endpoint.go:79), so it is excluded by the precondition.
- Auth.SortStable: the code of sort.SliceStable is not part of this model; an insertion sort stands for it, which `Auth.StableSortIsSorted` justifies.
- Auth.WildcardCovers: letter folding is any function on characters that leaves `/` alone and maps nothing else to it; folding that changes the length of a string is not modelled.
- Pool.Pool.Get: the clock, the dialler and the errors of closing are parameters; a connection is released at most once, as its precondition says.
- FreeList.Router.ServeRequest: reading, decoding and the handler are reduced to the flags of `Fate`; `getResponse` and `freeResponse` are the same code on another list.
- Socket.PseudoSocket.DoProcess: which ready case a select takes is the parameter `pick`; a call that would wait answers `Blocks` and changes nothing.
- IntPow.Intpow: requires an exponent that is not negative; `IntPow.EndsExactlyWhen` shows that this is exactly when the source's loop ends.
- Stack heights, lengths and positions are unbounded integers; operands are compared with them only after a range check, so the 64-bit width of `int` makes no difference there.
- Strings are sequences of characters; the byte indices of the tokeniser fall on ASCII delimiters only, so this agrees with Go's bytes.
- The branch of `accept` for an unknown terminal: the parser passes none, so terminals are a datatype.
- Logging, option plumbing, error texts, timers, sleeps and the backoff of the cache watcher.
- `Merge` in util/registry/util.go: it repeats old services once per new one, so there is no clean statement to prove.
- `CopyService`, `Copy`, `ttlPrune`, the time-out and reordering in `sendEvent`, the other registries, HTTP, gRPC, transport and codec code, `processQueue` in util/sync.
- Data races in the Go memory model: each block under a lock is one step.
