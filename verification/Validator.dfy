/** The semantic validator (srcs/internal/srcs/typesystem.cpp): marking, scoping, selecting and fixing
    put together. */
module Validator {
  import opened Common
  import opened IrTree
  import opened IrHeap
  import opened IrSplice
  import opened TypeGraph
  import opened Visibility
  import opened Satisfiable
  import opened Expressions
  import opened Generator
  import opened Scoping
  import opened Fixing
  import opened Symbols
  import opened Declarations
  import opened CollectionOrder
  import opened Outline
  import opened Registry
  import opened Collector
  import opened TextOrder
  import Translator

  // ---------------------------------------------------------------------------------------------
  // One fix
  // ---------------------------------------------------------------------------------------------

  /** What a generation works on: the visible variables, the callable functions and the table of types. */
  datatype Seen = Seen(vars: VarMaps, callable: set<TypeId>, table: Table)

  ghost predicate Sees(env: TypeEnv, scopes: Scopes, ids: seq<ScopeId>, use: nat, x: Seen) {
    Collected(env, x.vars, scopes, ids, use) && Satisfiables(env, x.vars, x.callable, x.table)
  }

  ghost predicate SeesAt(env: TypeEnv, scopes: Scopes, n: Info, x: Seen)
    requires WellParented(scopes)
  {
    Sees(env, scopes, Chain(scopes, Some(n.scopeId)), n.sid, x)
  }

  /** `text` spells `e`, an expression over what is seen, and not a number if there is something to use. */
  ghost predicate Denotes(env: TypeEnv, x: Seen, text: string, e: Expr) {
    && text == Render(env, e) && Spells(env, e, text) && Fits(env, x.vars, e, ALL_TYPES)
    && (e.Number? ==> NothingToUse(env, x.table))
  }

  /** `text` denotes an expression over the variables that are visible at the node. */
  ghost predicate FitsAt(env: TypeEnv, scopes: Scopes, n: Info, text: string)
    requires WellParented(scopes)
  {
    text != "" && exists x, e :: SeesAt(env, scopes, n, x) && Denotes(env, x, text, e)
  }

  /** No pointer variable is dereferenced in strong mode, and no visible name is empty. */
  ghost predicate Harmless(env: TypeEnv, vars: VarMaps) {
    (env.weak || vars.pointer == map[]) && NamesNonEmpty(vars)
  }

  /** Whatever is drawn for the node, the generator cannot abort: its variables are harmless, and every type that
      can be asked for is a function or a compound. */
  ghost predicate SafeAt(env: TypeEnv, scopes: Scopes, n: Info)
    requires WellParented(scopes)
  {
    forall x :: SeesAt(env, scopes, n, x) ==> Harmless(env, x.vars) && LeafKeys(env, x.table)
  }

  /** Why a generation fails at the node: the disabled bucket was drawn, or its variables are not harmless. */
  ghost predicate FailsAt(env: TypeEnv, scopes: Scopes, n: Info, hit: Option<Draw>)
    requires WellParented(scopes)
  {
    exists x :: SeesAt(env, scopes, n, x)
      && (if hit.Some? then IsDisabled(env, x.table, hit.value) else !Harmless(env, x.vars))
  }

  /** ApplyFix: the assertion at its start, that the node holds a FIXME, is the precondition.  The result
      is true unless the generator aborts the program, with `hit` as the draw of the disabled bucket. */
  method ApplyFix(ir: IR, env: TypeEnv, scopes: Scopes) returns (ok: bool, ghost text: string, ghost hit: Option<Draw>)
    requires ir.data == Str(FIXME) && env.WellFormed() && WellParented(scopes)
    modifies ir`data
    ensures ok ==> ir.data == Str(text) && FitsAt(env, scopes, old(ir.Info()), text)
    ensures (hit.Some? ==> !ok) && (!ok ==> FailsAt(env, scopes, old(ir.Info()), hit))
    ensures SafeAt(env, scopes, old(ir.Info())) ==> ok
  {
    hide Satisfiables, Collected, Render, Fits, Spells;
    var generator := new ExpressionGenerator(env, scopes);
    var res;
    ghost var e;
    res, e := generator.GenerateExpression(Use(ir.scopeId, ir.sid), ALL_TYPES);
    ok, text, hit := res.Text?, "", generator.hit;
    ghost var x := Seen(generator.vars, generator.callable, generator.table);
    assert SeesAt(env, scopes, ir.Info(), x);
    if res.Text? {
      assert Denotes(env, x, res.text, e);
      ir.data := Str(res.text);
      text := res.text;
    }
  }

  /** The first nodes have got their texts, the others are as remembered. */
  ghost predicate FixedUpTo(h: Memory, s: Shape, points: seq<IR>, texts: seq<string>)
    requires Refs(s) <= h.Keys && |texts| <= |points|
    reads Refs(s)
  {
    && (forall n :: n in Refs(s) && n !in points ==> FieldsOf(n) == h[n])
    && (forall i :: 0 <= i < |points| && points[i] in Refs(s) ==>
          FieldsOf(points[i]) == if i < |texts| then SetText(h[points[i]], texts[i]) else h[points[i]])
  }

  ghost predicate NoRepeats(points: seq<IR>) {
    forall i, j :: 0 <= i < j < |points| ==> points[i] != points[j]
  }

  /** The texts fit the places they were generated for. */
  ghost predicate TextsFit(env: TypeEnv, scopes: Scopes, h: Memory, points: seq<IR>, texts: seq<string>)
    requires WellParented(scopes) && |texts| <= |points|
  {
    forall i :: 0 <= i < |texts| ==> points[i] in h && FitsAt(env, scopes, h[points[i]].info, texts[i])
  }

  ghost predicate PointsAreSafe(env: TypeEnv, scopes: Scopes, h: Memory, points: seq<IR>)
    requires WellParented(scopes)
  {
    forall i :: 0 <= i < |points| ==> points[i] in h && SafeAt(env, scopes, h[points[i]].info)
  }

  /** A generation fails at one of the points. */
  ghost predicate SomePointFails(env: TypeEnv, scopes: Scopes, h: Memory, points: seq<IR>, hit: Option<Draw>)
    requires WellParented(scopes)
  {
    exists i :: 0 <= i < |points| && points[i] in h && FailsAt(env, scopes, h[points[i]].info, hit)
  }

  /** One pass of the loop. */
  method FixNext(point: IR, ghost points: seq<IR>, ghost s: Shape, ghost h: Memory, env: TypeEnv, scopes: Scopes,
                 ghost texts: seq<string>)
    returns (ok: bool, ghost text: string, ghost hit: Option<Draw>)
    requires |texts| < |points| && point == points[|texts|] && NoRepeats(points)
    requires point in Refs(s) && Refs(s) <= h.Keys
    requires h[point].info.data == Str(FIXME) && env.WellFormed() && WellParented(scopes)
    requires FixedUpTo(h, s, points, texts)
    modifies point`data
    ensures ok ==> FixedUpTo(h, s, points, texts + [text]) && FitsAt(env, scopes, h[point].info, text)
    ensures (hit.Some? ==> !ok) && (!ok ==> SomePointFails(env, scopes, h, points, hit))
    ensures SafeAt(env, scopes, h[point].info) ==> ok
  {
    RefsAllocated(s);
    ok, text, hit := ApplyFix(point, env, scopes);
  }

  lemma OneMoreFits(env: TypeEnv, scopes: Scopes, h: Memory, points: seq<IR>, texts: seq<string>, text: string)
    requires WellParented(scopes) && |texts| < |points| && TextsFit(env, scopes, h, points, texts)
    requires points[|texts|] in h && FitsAt(env, scopes, h[points[|texts|]].info, text)
    ensures TextsFit(env, scopes, h, points, texts + [text])
  {
  }

  /** The loop over the decisions: every FIXME gets a text that fits its place, and nothing else
      changes. */
  method ApplyFixes(points: seq<IR>, ghost s: Shape, env: TypeEnv, scopes: Scopes)
    returns (ok: bool, ghost texts: seq<string>, ghost hit: Option<Draw>)
    requires Distinct(s) && Linked(s) && points == FixPoints(s) && env.WellFormed() && WellParented(scopes)
    modifies Refs(s)
    ensures ok ==> Linked(s) && |texts| == FixCount(old(Value(s))) && Value(s) == Fill(old(Value(s)), texts)
    ensures (hit.Some? ==> !ok) && (!ok ==> SomePointFails(env, scopes, old(Remember(s)), points, hit))
    ensures PointsAreSafe(env, scopes, old(Remember(s)), points) ==> ok
    ensures ok ==> |texts| == |points| && TextsFit(env, scopes, old(Remember(s)), points, texts)
  {
    ghost var h := Remember(s);
    MemoryAgrees(h, s);
    MemoryPoints(h, s);
    PointsAreFixmes(s);
    RefsAllocated(s);
    texts, hit := [], None;
    for k := 0 to |points|
      invariant |texts| == k && FixedUpTo(h, s, points, texts) && TextsFit(env, scopes, h, points, texts) && hit.None?
    {
      ghost var text;
      ok, text, hit := FixNext(points[k], points, s, h, env, scopes, texts);
      if !ok {
        return;
      }
      OneMoreFits(env, scopes, h, points, texts, text);
      texts := texts + [text];
    }
    ok := true;
    RewrittenValue(h, s, texts);
  }

  // ---------------------------------------------------------------------------------------------
  // Validate
  // ---------------------------------------------------------------------------------------------

  datatype Verdict = Success | NoSymbolToUse | Crashed

  /** Each text fits the place it is put at. */
  ghost predicate PlacesFit(env: TypeEnv, scopes: Scopes, t: Tree, texts: seq<string>)
    requires WellParented(scopes)
  {
    && |texts| == FixCount(t)
    && (forall i :: 0 <= i < |texts| ==> PlaceFits(env, scopes, t, FixPaths(t)[i], texts[i]))
  }

  ghost predicate PlaceFits(env: TypeEnv, scopes: Scopes, t: Tree, p: Path, text: string)
    requires WellParented(scopes)
  {
    Has(t, p) && FitsAt(env, scopes, At(t, p).info, text)
  }

  lemma PointInfo(s: Shape, i: nat)
    requires Distinct(s) && Linked(s) && i < |FixPoints(s)|
    ensures i < |FixPaths(Value(s))| && Has(Value(s), FixPaths(Value(s))[i])
    ensures FixPoints(s)[i] in Refs(s) && FixPoints(s)[i].Info() == At(Value(s), FixPaths(Value(s))[i]).info
  {
    PointAt(s, i);
    SubIsTree(s, FixPaths(Value(s))[i]);
  }

  /** What happens to a program on the way: its nodes are tagged with the scopes they are in, and what it declares
      is entered into these scopes and into the types. */
  datatype Program = Program(tagged: Tree, reg: Registered)

  /** `p` is made from the marked tree `t`. */
  ghost predicate MadeFrom(t: Tree, p: Program) {
    && p.tagged == Tag(t, None, 0) && Built(t, p.tagged, None, 0, map[], p.reg.bare)
    && (forall i :: i in p.reg.bare ==> p.reg.bare[i].table == map[])
    && CollectProgram(p.reg.c, p.tagged) == Some(p.reg.log)
    && WellParented(p.reg.bare) && WellParented(p.reg.scopes)
  }

  ghost predicate Prepared(t: Tree, p: Program) {
    MadeFrom(Mark(t), p)
  }

  /** What a successful validation makes of the tree `t`: every place to fix has got a text that fits it. */
  ghost predicate Validated(t: Tree, p: Program, texts: seq<string>, out: Tree) {
    Prepared(t, p) && PlacesFit(p.reg.env, p.reg.scopes, p.tagged, texts) && out == Fill(p.tagged, texts)
  }

  /** Every place to fix is safe. */
  ghost predicate PlacesAreSafe(env: TypeEnv, scopes: Scopes, t: Tree)
    requires WellParented(scopes)
  {
    forall i :: 0 <= i < |FixPaths(t)| && Has(t, FixPaths(t)[i]) ==> SafeAt(env, scopes, At(t, FixPaths(t)[i]).info)
  }

  /** A generation fails at one of the places to fix. */
  ghost predicate SomePlaceFails(env: TypeEnv, scopes: Scopes, t: Tree, hit: Option<Draw>)
    requires WellParented(scopes)
  {
    exists i :: 0 <= i < |FixPaths(t)| && PlaceFails(env, scopes, t, FixPaths(t)[i], hit)
  }

  ghost predicate PlaceFails(env: TypeEnv, scopes: Scopes, t: Tree, p: Path, hit: Option<Draw>)
    requires WellParented(scopes)
  {
    Has(t, p) && FailsAt(env, scopes, At(t, p).info, hit)
  }

  /** The selected points are remembered as the nodes at the places to fix. */
  ghost predicate PointsArePlaces(t: Tree, h: Memory, points: seq<IR>) {
    && |points| == |FixPaths(t)|
    && (forall i :: 0 <= i < |points| ==>
          Has(t, FixPaths(t)[i]) && points[i] in h && h[points[i]].info == At(t, FixPaths(t)[i]).info)
  }

  lemma PlacesOfPoints(env: TypeEnv, scopes: Scopes, t: Tree, h: Memory, points: seq<IR>)
    requires WellParented(scopes) && PointsArePlaces(t, h, points)
    ensures PlacesAreSafe(env, scopes, t) ==> PointsAreSafe(env, scopes, h, points)
    ensures forall hit :: SomePointFails(env, scopes, h, points, hit) ==> SomePlaceFails(env, scopes, t, hit)
    ensures forall texts :: |texts| == |points| && TextsFit(env, scopes, h, points, texts)
              ==> PlacesFit(env, scopes, t, texts)
  {
    hide SafeAt, FailsAt, FitsAt;
    forall hit | SomePointFails(env, scopes, h, points, hit)
      ensures SomePlaceFails(env, scopes, t, hit)
    {
      var i :| 0 <= i < |points| && points[i] in h && FailsAt(env, scopes, h[points[i]].info, hit);
      assert PlaceFails(env, scopes, t, FixPaths(t)[i], hit);
    }
  }

  /** The second half of Validate: the places are selected and fixed. */
  method SelectAndFix(root: IR, ghost s: Shape, env: TypeEnv, scopes: Scopes)
    returns (ok: bool, ghost texts: seq<string>, ghost hit: Option<Draw>)
    requires IsTree(root, s) && env.WellFormed() && WellParented(scopes)
    modifies Refs(s)
    ensures (hit.Some? ==> !ok) && (!ok ==> SomePlaceFails(env, scopes, old(Value(s)), hit))
    ensures PlacesAreSafe(env, scopes, old(Value(s))) ==> ok
    ensures ok ==> IsTree(root, s) && PlacesFit(env, scopes, old(Value(s)), texts)
    ensures ok ==> Value(s) == Fill(old(Value(s)), texts)
  {
    RefsAllocated(s);
    hide PlacesAreSafe, PointsAreSafe, SomePointFails, SomePlaceFails, TextsFit, PlacesFit;
    var decisions := SelectFixStrategy(root, s);
    PointCount(s);
    ghost var t, h := Value(s), Remember(s);
    forall i | 0 <= i < |decisions|
      ensures Has(t, FixPaths(t)[i]) && decisions[i] in h && h[decisions[i]].info == At(t, FixPaths(t)[i]).info
    {
      PointInfo(s, i);
    }
    PlacesOfPoints(env, scopes, t, h, decisions);
    ok, texts, hit := ApplyFixes(decisions, s, env, scopes);
  }

  /** A tree whose root is scoped is tagged throughout. */
  lemma {:induction false} TaggedIsKnown(t0: Tree, t: Tree, cur: Option<ScopeId>, scopes: Scopes)
    requires Tagged(t0, t, cur, scopes)
    requires Scoped(t) || (cur.Some? && cur.value in scopes) || t.Nil?
    ensures Known(t, scopes.Keys)
  {
    if t.Node? {
      TaggedIsKnown(t0.left, t.left, InnerScope(t, cur), scopes);
      TaggedIsKnown(t0.right, t.right, InnerScope(t, cur), scopes);
    }
  }

  lemma SameLinksWellParented(a: Scopes, b: Scopes)
    requires SameLinks(a, b) && WellParented(a)
    ensures WellParented(b)
  {
    forall i | i in b
      ensures b[i].parent == a[i].parent
    {
      assert a[i].(table := map[]) == b[i].(table := map[]);
    }
  }

  /** The collection of definitions by a new collector. */
  method CollectSymbols(tree: Tree, bare: Scopes, config: Config)
    returns (ok: bool, env: TypeEnv, scopes: Scopes, ghost reg: Registered)
    requires tree.Node? && Known(tree, bare.Keys) && Usable(config)
    requires WellParented(bare) && forall i :: i in bare ==> bare[i].table == map[]
    ensures ok <==> CollectProgram(config, tree).Some?
    ensures ok ==> CollectProgram(config, tree) == Some(reg.log) && reg.c == config && reg.bare == bare
    ensures ok ==> env == reg.env && scopes == reg.scopes && WellParented(scopes) && env.WellFormed()
  {
    hide Entries.Mirror;
    var collector := new SymbolCollector(config, bare);
    ok := collector.CreateSymbolTable(tree);
    env, scopes, reg := collector.env, collector.scopes, collector.reg;
    if ok {
      RegisteredFacts(reg);
      SameLinksWellParented(bare, scopes);
    }
  }

  /** BuildScopeTreeWithSymbolTable: scopes first, then the definitions. */
  method BuildScopeTreeWithSymbolTable(root: IR, ghost s: Shape, config: Config)
    returns (ok: bool, env: TypeEnv, scopes: Scopes, ghost p: Program)
    requires IsTree(root, s) && Scoped(Value(s)) && Usable(config)
    modifies Refs(s)
    ensures p.tagged == Tag(old(Value(s)), None, 0)
    ensures ok <==> CollectProgram(config, p.tagged).Some?
    ensures ok ==> IsTree(root, s) && Value(s) == p.tagged
    ensures ok ==> MadeFrom(old(Value(s)), p) && p.reg.c == config && p.reg.env == env && p.reg.scopes == scopes
    ensures ok ==> env.WellFormed()
  {
    hide Entries.Mirror;
    RefsAllocated(s);
    ghost var t := Value(s);
    var tree;
    tree, ok := ScopeTree.BuildTree(root, s);
    ghost var tagged := Value(s);
    BuiltIsTag(t, tagged, None, 0, tree.scopes);
    TaggedIsKnown(t, tagged, None, tree.scopes);
    var copy := Snapshot(root, s);
    ghost var reg;
    ok, env, scopes, reg := CollectSymbols(copy, tree.scopes, config);
    p := Program(tagged, reg);
  }

  /** Validate, for a tree whose root opens a scope.  It never reports a missing symbol.  It crashes only if the
      collection of definitions fails, if the generator draws the disabled bucket, which is then `hit`, or if a
      declaration with an empty name is visible at a place to fix. */
  method Validate(root: IR, ghost s: Shape, config: Config)
    returns (verdict: Verdict, ghost r: Shape, ghost p: Program, ghost texts: seq<string>, ghost hit: Option<Draw>)
    requires IsTree(root, s) && Scoped(Value(s)) && Usable(config)
    modifies Refs(s)
    ensures verdict != NoSymbolToUse
    ensures p.tagged == Prepare(old(Value(s)))
    ensures CollectProgram(config, p.tagged).None? ==> verdict == Crashed
    ensures CollectProgram(config, p.tagged).Some? ==> Prepared(old(Value(s)), p) && p.reg.c == config
    ensures CollectProgram(config, p.tagged).Some? && PlacesAreSafe(p.reg.env, p.reg.scopes, p.tagged)
      ==> verdict == Success
    ensures CollectProgram(config, p.tagged).Some? && verdict == Crashed
      ==> SomePlaceFails(p.reg.env, p.reg.scopes, p.tagged, hit)
    ensures hit.Some? ==> verdict == Crashed
    ensures Size(p.tagged) > 250 ==> verdict == Success
    ensures verdict == Success ==> IsTree(root, r) && fresh(Refs(r) - Refs(s))
    ensures verdict == Success ==> Validated(old(Value(s)), p, texts, Value(r))
  {
    hide Entries.Mirror;
    verdict := Crashed;
    RefsAllocated(s);
    r := MarkFixMe(root, s);
    RefsAllocated(r);
    var ok, env, scopes;
    ok, env, scopes, p := BuildScopeTreeWithSymbolTable(root, r, config);
    texts, hit := [], None;
    if ok {
      if Size(p.tagged) > MAX_NODES {
        LargeProgramsAreSafe(p);
      }
      ok, texts, hit := SelectAndFix(root, r, env, scopes);
      if ok {
        verdict := Success;
      }
    }
  }

  // ---------------------------------------------------------------------------------------------
  // What validated programs use
  // ---------------------------------------------------------------------------------------------

  lemma {:induction false} SameChain(a: Scopes, b: Scopes, at: Option<ScopeId>)
    requires WellParented(a) && WellParented(b) && SameLinks(a, b)
    ensures Chain(b, at) == Chain(a, at)
    decreases if at.Some? then at.value + 1 else 0
  {
    if at.Some? && at.value in a {
      assert a[at.value].(table := map[]) == b[at.value].(table := map[]);
      SameChain(a, b, a[at.value].parent);
    }
  }

  lemma EnclosingRoot(t: Tree, p: Path)
    requires Has(t, p) && Scoped(t)
    ensures Enclosing(t, p) != []
  {
  }

  /** In a tree whose root opens a scope, the text at a fix point is an expression over the definitions of
      the scopes opened on the way from the fix point up, made under smaller statement ids than the fix
      point had in the input. */
  lemma FixUsesEnclosingScopes(t: Tree, p: Program, texts: seq<string>, out: Tree, i: nat)
    requires Validated(t, p, texts, out) && Scoped(t) && i < |texts|
    ensures var f := FixPaths(p.tagged)[i];
      && Has(p.tagged, f) && Has(t, f)
      && exists x, e :: Denotes(p.reg.env, x, texts[i], e)
           && Sees(p.reg.env, p.reg.scopes, Enclosing(p.tagged, f), At(t, f).info.sid, x)
  {
    hide Entries.Mirror, Sees, Denotes;
    var env, scopes, f := p.reg.env, p.reg.scopes, FixPaths(p.tagged)[i];
    assert PlaceFits(env, scopes, p.tagged, f, texts[i]);
    PlaceInInput(t, f);
    ChainAtPlace(t, p, f);
    var n := At(p.tagged, f).info;
    var x, e :| SeesAt(env, scopes, n, x) && Denotes(env, x, texts[i], e);
    assert Sees(env, scopes, Enclosing(p.tagged, f), At(t, f).info.sid, x);
  }

  lemma ChainAtPlace(t: Tree, p: Program, f: Path)
    requires Prepared(t, p) && Scoped(t) && Has(p.tagged, f)
    ensures Chain(p.reg.scopes, Some(At(p.tagged, f).info.scopeId)) == Enclosing(p.tagged, f)
  {
    EnterKeepsLinks(p.reg.bare, p.reg.log, p.reg.ids);
    EnclosingRoot(p.tagged, f);
    ChainIsEnclosing(Mark(t), p.tagged, None, p.reg.bare, f);
    SameChain(p.reg.bare, p.reg.scopes, Some(At(p.tagged, f).info.scopeId));
    assert Enclosing(p.tagged, f) + [] == Enclosing(p.tagged, f);
  }

  /** A declaration that reaches a place: its scope encloses the place, and its id is smaller. */
  ghost predicate DeclReaches(p: Program, f: Path, use: nat, d: Decl)
    requires Has(p.tagged, f)
  {
    d in p.reg.log && d.scope in Enclosing(p.tagged, f) && d.sid < use
  }

  /** Such a declaration has this name, and this type is what it declares: the type it names, a function type with
      its signature, or a class with its members. */
  ghost predicate DeclaredFor(p: Program, f: Path, use: nat, typ: TypeId, name: string)
    requires Has(p.tagged, f)
  {
    var r := p.reg;
    && |r.log| == |r.ids|
    && (exists k :: 0 <= k < |r.log| && DeclReaches(p, f, use, r.log[k]) && r.log[k].name == name
                    && r.ids[k] == typ && Typed(r.env, r.names, r.bare, r.log, r.ids, k))
  }

  /** What is visible at a place is exactly what the program declares in the enclosing scopes under smaller ids,
      with the declared types. */
  lemma VisibleIffDeclared(t: Tree, p: Program, f: Path, use: nat, typ: TypeId, name: string)
    requires Prepared(t, p) && Has(p.tagged, f)
    ensures Visible(p.reg.scopes, Enclosing(p.tagged, f), typ, use, name) <==> DeclaredFor(p, f, use, typ, name)
  {
    hide Entries.Mirror;
    var r, ids := p.reg, Enclosing(p.tagged, f);
    RegisteredFacts(r);
    if Visible(r.scopes, ids, typ, use, name) {
      var i, def :| i in ids && i in r.scopes && typ in r.scopes[i].table && def in r.scopes[i].table[typ]
        && def.sid < use && def.name == name;
      EntryIff(r.bare, r.log, r.ids, i, typ, def);
      var k: nat :| EnteredAs(r.bare, r.log, r.ids, i, typ, def, k);
      TypedAt(r, k);
      assert DeclReaches(p, f, use, r.log[k]);
    }
    if k :| 0 <= k < |r.log| && DeclReaches(p, f, use, r.log[k]) && r.log[k].name == name && r.ids[k] == typ {
      var i, def := r.log[k].scope, Definition(name, typ, r.log[k].sid);
      EnclosingIsKnown(Mark(t), p.tagged, None, r.bare, f, i);
      assert EnteredAs(r.bare, r.log, r.ids, i, typ, def, k);
      EntryIff(r.bare, r.log, r.ids, i, typ, def);
    }
  }

  /** So the maps that a text at the place is generated from list exactly the declared names, by kind. */
  lemma UsableIffDeclared(t: Tree, p: Program, f: Path, use: nat, vars: VarMaps, typ: TypeId, name: string)
    requires Prepared(t, p) && Has(p.tagged, f) && Collected(p.reg.env, vars, p.reg.scopes, Enclosing(p.tagged, f), use)
    ensures typ in vars.simple && name in vars.simple[typ]
      <==> typ in p.reg.env.basics && DeclaredFor(p, f, use, typ, name)
    ensures typ in vars.compound && name in vars.compound[typ]
      <==> typ in p.reg.env.compounds && typ !in p.reg.env.basics && DeclaredFor(p, f, use, typ, name)
    ensures typ in vars.functions && name in vars.functions[typ]
      <==> typ in p.reg.env.functions && typ !in p.reg.env.basics + p.reg.env.compounds.Keys
           && DeclaredFor(p, f, use, typ, name)
  {
    hide Entries.Mirror, DeclaredFor, Visible, Collected;
    RegisteredFacts(p.reg);
    CollectedExact(p.reg.env, vars, p.reg.scopes, Enclosing(p.tagged, f), use, typ, name);
    VisibleIffDeclared(t, p, f, use, typ, name);
  }

  /** A generation for a place of a prepared program that fails without a disabled draw has met a declaration of an
      empty name: there are no pointer types. */
  lemma FailureMeans(t: Tree, p: Program, f: Path)
    requires Prepared(t, p) && Scoped(t) && Has(p.tagged, f)
    requires FailsAt(p.reg.env, p.reg.scopes, At(p.tagged, f).info, None)
    ensures exists typ :: DeclaredFor(p, f, At(p.tagged, f).info.sid, typ, "")
  {
    hide Entries.Mirror, DeclaredFor, Satisfiables;
    var env, n := p.reg.env, At(p.tagged, f).info;
    RegisteredFacts(p.reg);
    ChainAtPlace(t, p, f);
    var x :| SeesAt(env, p.reg.scopes, n, x) && !Harmless(env, x.vars);
    NoPointers(env, x.vars, p.reg.scopes, Enclosing(p.tagged, f), n.sid);
    if typ :| typ in x.vars.simple && "" in x.vars.simple[typ] {
      UsableIffDeclared(t, p, f, n.sid, x.vars, typ, "");
    } else {
      var typ :| typ in x.vars.compound && "" in x.vars.compound[typ];
      UsableIffDeclared(t, p, f, n.sid, x.vars, typ, "");
    }
  }

  lemma NoPointers(env: TypeEnv, vars: VarMaps, scopes: Scopes, ids: seq<ScopeId>, use: nat)
    requires env.pointers == {} && Collected(env, vars, scopes, ids, use)
    ensures vars.pointer == map[]
  {
    forall typ
      ensures typ !in vars.pointer
    {
      assert !OfKind(env, {PointerKind})(typ);
    }
  }

  lemma {:induction false} EnclosingIsKnown(t0: Tree, t: Tree, cur: Option<ScopeId>, scopes: Scopes, f: Path,
                                            i: ScopeId)
    requires Tagged(t0, t, cur, scopes) && Has(t, f) && i in Enclosing(t, f)
    ensures i in scopes
  {
    if f != [] && i in Enclosing(Child(t, f[0]), f[1..]) {
      EnclosingIsKnown(Child(t0, f[0]), Child(t, f[0]), InnerScope(t, cur), scopes, f[1..], i);
    }
  }

  /** Every declaration stands somewhere in the program. */
  lemma DeclarationHasPlace(p: Program, d: Decl)
    requires CollectProgram(p.reg.c, p.tagged) == Some(p.reg.log) && d in p.reg.log
    ensures HasPlace(p.reg.c.fmt, p.tagged, d)
  {
    CollectedHavePlaces(p.reg.c, [], p.tagged);
    var k :| 0 <= k < |p.reg.log| && p.reg.log[k] == d;
  }

  /** `typ` is what `d` declares: the type it names, a function type with its signature, or a class of its name. */
  ghost predicate TypeIs(env: TypeEnv, names: Names, d: Decl, typ: TypeId) {
    match d
    case VariableDecl(_, _, _, ref) => Refers(env, names, ref, typ)
    case ArgumentDecl(_, _, _, ref) => Refers(env, names, ref, typ)
    case FunctionDecl(_, name, _, _, _) =>
      typ in env.functions && typ in names && names[typ] == name && SignatureOk(env, names, env.functions[typ], d)
    case ClassDecl(_, name, _, _) => typ in env.compounds && typ in names && names[typ] == name
  }

  /** Some reached definition of the program declares it, in an enclosing scope, under a smaller id. */
  ghost predicate OutlineReaches(p: Program, f: Path, use: nat, d: Decl)
    requires Has(p.tagged, f)
  {
    Outlined(p.reg.c, p.tagged, d) && d.scope in Enclosing(p.tagged, f) && d.sid < use
  }

  /** The name is visible at the place, under the type that `d` declares. */
  ghost predicate VisibleAs(p: Program, f: Path, use: nat, typ: TypeId, d: Decl)
    requires Has(p.tagged, f)
  {
    Visible(p.reg.scopes, Enclosing(p.tagged, f), typ, use, d.name) && TypeIs(p.reg.env, p.reg.names, d, typ)
  }

  lemma OutlineOfVisible(t: Tree, p: Program, f: Path, use: nat, typ: TypeId, name: string) returns (d: Decl)
    requires Prepared(t, p) && Has(p.tagged, f) && Size(p.tagged) <= MAX_NODES
    requires Visible(p.reg.scopes, Enclosing(p.tagged, f), typ, use, name)
    ensures OutlineReaches(p, f, use, d) && d.name == name && VisibleAs(p, f, use, typ, d)
  {
    hide Entries.Mirror, Outlined, Visible;
    var r := p.reg;
    VisibleIffDeclared(t, p, f, use, typ, name);
    var k :| 0 <= k < |r.log| && DeclReaches(p, f, use, r.log[k]) && r.log[k].name == name
      && r.ids[k] == typ && Typed(r.env, r.names, r.bare, r.log, r.ids, k);
    d := r.log[k];
    ProgramIsOutlined(r.c, p.tagged, d);
  }

  lemma OutlineIsVisible(t: Tree, p: Program, f: Path, use: nat, d: Decl) returns (typ: TypeId)
    requires Prepared(t, p) && Has(p.tagged, f) && Size(p.tagged) <= MAX_NODES && OutlineReaches(p, f, use, d)
    ensures VisibleAs(p, f, use, typ, d)
  {
    hide Entries.Mirror, Outlined, Visible;
    var r := p.reg;
    ProgramIsOutlined(r.c, p.tagged, d);
    var k :| 0 <= k < |r.log| && r.log[k] == d;
    TypedAt(r, k);
    typ := r.ids[k];
    assert DeclReaches(p, f, use, r.log[k]);
    VisibleIffDeclared(t, p, f, use, typ, d.name);
  }

  /** By places alone: what is visible at a place of a program of at most 250 nodes is exactly what the reached
      definitions declare in an enclosing scope under a smaller id, under the types that they declare. */
  lemma VisibleIsOutlined(t: Tree, p: Program, f: Path, use: nat, name: string)
    requires Prepared(t, p) && Has(p.tagged, f) && Size(p.tagged) <= MAX_NODES
    ensures forall typ :: Visible(p.reg.scopes, Enclosing(p.tagged, f), typ, use, name) ==>
      exists d :: OutlineReaches(p, f, use, d) && d.name == name && VisibleAs(p, f, use, typ, d)
    ensures forall d :: OutlineReaches(p, f, use, d) ==> exists typ :: VisibleAs(p, f, use, typ, d)
  {
    hide OutlineReaches, VisibleAs, Visible, Entries.Mirror;
    forall typ | Visible(p.reg.scopes, Enclosing(p.tagged, f), typ, use, name)
      ensures exists d :: OutlineReaches(p, f, use, d) && d.name == name && VisibleAs(p, f, use, typ, d)
    {
      var d := OutlineOfVisible(t, p, f, use, typ, name);
    }
    forall d | OutlineReaches(p, f, use, d)
      ensures exists typ :: VisibleAs(p, f, use, typ, d)
    {
      var typ := OutlineIsVisible(t, p, f, use, d);
    }
  }

  // ---------------------------------------------------------------------------------------------
  // What comes before what
  // ---------------------------------------------------------------------------------------------

  /** In a freshly translated tree a declaration reaches a fix point exactly if its scope encloses the fix point
      and the node whose id it has stands before the fix point in the text. */
  lemma DeclReachesIff(t: Tree, lo: nat, hi: nat, p: Program, f: Path, d: Decl, def: Path, name: Path)
    requires Translator.WellNumbered(t, lo, hi) && Prepared(t, p) && f in FixPaths(p.tagged)
    requires d in p.reg.log && DeclaredAt(p.reg.c.fmt, p.tagged, d, def, name)
    ensures Has(p.tagged, f) && Has(t, f)
    ensures DeclReaches(p, f, At(t, f).info.sid, d)
      <==> d.scope in Enclosing(p.tagged, f) && LeftOf(IdAt(d, def, name), f)
  {
    hide Entries.Mirror;
    FixPointIsLeaf(t, f);
    PassesIff(t, lo, hi, p.reg.c.fmt, f, d, def, name);
  }

  /** A definition of variables, one of whose names stands at `q`. */
  predicate DefinesVariable(def: Tree, q: Path) {
    && FindDefineType(def) != FunctionDefinition && FindDefineType(def) != ClassDefinition
    && Uncovered(def, VariableName, DataDefault, q) && Has(def, q)
  }

  /** The type of the variables of a definition: any type without a type node, otherwise the type that its text names,
      or in weak mode any type. */
  ghost predicate TypeOfDefinition(r: Entries, def: Tree, typ: TypeId) {
    var n := First(def, VariableType, DataDefault);
    || (typ == ANY_TYPE && (n.None? || r.c.weak))
    || (n.Some? && typ in r.names && IsTrimmed(ToText(r.c.fmt, n.value), r.names[typ]))
  }

  /** In a freshly translated program of at most 250 nodes, a variable that is declared before a fix point in the
      text, in a scope that encloses the fix point, is visible there, under the type of its definition. */
  lemma EarlierVariableIsVisible(t: Tree, lo: nat, hi: nat, p: Program, f: Path, def: Path, q: Path)
    returns (typ: TypeId)
    requires Translator.WellNumbered(t, lo, hi) && Prepared(t, p) && f in FixPaths(p.tagged)
    requires Size(p.tagged) <= MAX_NODES && Reached(p.reg.c.fmt, p.tagged, def) && Has(p.tagged, def)
    requires DefinesVariable(At(p.tagged, def), q)
    requires Has(p.tagged, f) && At(p.tagged, def).info.scopeId in Enclosing(p.tagged, f) && LeftOf(def + q, f)
    ensures Has(t, f)
    ensures Visible(p.reg.scopes, Enclosing(p.tagged, f), typ, At(t, f).info.sid,
                    ToText(p.reg.c.fmt, At(At(p.tagged, def), q)))
    ensures TypeOfDefinition(p.reg, At(p.tagged, def), typ)
  {
    hide Entries.Mirror, Visible, Reached, Outlined, First, FindDefineType, TypeOfDefinition, VisibleAs;
    var d := VariableOutlined(t, p, def, q);
    AtAppend(p.tagged, def, q);
    UncoveredMeans(At(p.tagged, def), VariableName, DataDefault, q, []);
    FixPointIsLeaf(t, f);
    PlaceInInput(t, def + q);
    Translator.IdOrderIff(t, lo, hi, def + q, f);
    assert OutlineReaches(p, f, At(t, f).info.sid, d);
    typ := OutlineIsVisible(t, p, f, At(t, f).info.sid, d);
    VisibleVariable(p, f, At(t, f).info.sid, typ, d);
  }

  lemma VisibleVariable(p: Program, f: Path, use: nat, typ: TypeId, d: Decl)
    requires Has(p.tagged, f) && VisibleAs(p, f, use, typ, d) && d.VariableDecl?
    ensures Visible(p.reg.scopes, Enclosing(p.tagged, f), typ, use, d.name)
    ensures Refers(p.reg.env, p.reg.names, d.typ, typ)
  {
  }

  /** What a reached definition declares for a variable. */
  lemma VariableOutlined(t: Tree, p: Program, def: Path, q: Path) returns (d: Decl)
    requires Prepared(t, p) && Size(p.tagged) <= MAX_NODES
    requires Reached(p.reg.c.fmt, p.tagged, def) && Has(p.tagged, def) && DefinesVariable(At(p.tagged, def), q)
    ensures Outlined(p.reg.c, p.tagged, d) && d.VariableDecl?
    ensures var n, name := At(p.tagged, def), At(At(p.tagged, def), q);
      && d.scope == n.info.scopeId && d.name == ToText(p.reg.c.fmt, name) && d.sid == name.info.sid
      && (forall typ :: Refers(p.reg.env, p.reg.names, d.typ, typ) ==> TypeOfDefinition(p.reg, n, typ))
  {
    hide Entries.Mirror, First, FindDefineType, ToText;
    var c, n := p.reg.c, At(p.tagged, def);
    var e := Event(Opening, def, n);
    EventIff(c.fmt, p.tagged, e);
    var k: nat :| k < |Events(c.fmt, p.tagged)| && Events(c.fmt, p.tagged)[k] == e;
    NamesAreTyped(c, p.tagged, k);
    var name, ref := At(n, q), TypeOfNames(c, Events(c.fmt, p.tagged), k).value;
    d := VariableDecl(n.info.scopeId, ToText(c.fmt, name), name.info.sid, ref);
    assert IsName(c.fmt, n, q, d.name, d.sid);
    assert Declares(c, Events(c.fmt, p.tagged), k, d);
  }

  /** An argument reaches no place inside its function, and a class none inside itself. */
  lemma NotInsideOwnDefinition(t: Tree, lo: nat, hi: nat, p: Program, f: Path, d: Decl, def: Path, name: Path)
    requires Translator.WellNumbered(t, lo, hi) && Prepared(t, p) && Has(p.tagged, f)
    requires DeclaredAt(p.reg.c.fmt, p.tagged, d, def, name) && (d.ArgumentDecl? || d.ClassDecl?) && def <= f
    ensures Has(t, f) && !DeclReaches(p, f, At(t, f).info.sid, d)
  {
    hide Entries.Mirror;
    FailsInside(t, p.reg.c.fmt, f, d, def, name);
  }

  /** So where the body opens a scope, as it should for them to be local, the arguments of a function are visible
      nowhere: neither outside nor inside the body. */
  lemma ArgumentsAreInvisible(t: Tree, lo: nat, hi: nat, p: Program, f: Path, d: Decl, def: Path, arg: Path, body: Path)
    requires Translator.WellNumbered(t, lo, hi) && Prepared(t, p) && Has(p.tagged, f)
    requires DeclaredAt(p.reg.c.fmt, p.tagged, d, def, arg) && d.ArgumentDecl?
    requires IsBody(p.tagged, def, body, FunctionBody, d.scope) && Scoped(At(p.tagged, body))
    ensures Has(t, f) && !DeclReaches(p, f, At(t, f).info.sid, d)
  {
    hide Entries.Mirror;
    PlaceInInput(t, f);
    if d.scope in Enclosing(p.tagged, f) {
      BodyScopeIsInside(t, f, def, body, d.scope);
      FailsInside(t, p.reg.c.fmt, f, d, def, arg);
    }
  }

  // ---------------------------------------------------------------------------------------------
  // Large programs
  // ---------------------------------------------------------------------------------------------

  /** A program of more than 250 nodes has no visible definitions at all. */
  lemma NothingVisible(p: Program, ids: seq<ScopeId>, typ: TypeId, use: nat, name: string)
    requires CollectProgram(p.reg.c, p.tagged) == Some(p.reg.log) && Size(p.tagged) > MAX_NODES
    requires forall i :: i in p.reg.bare ==> p.reg.bare[i].table == map[]
    ensures !Visible(p.reg.scopes, ids, typ, use, name)
  {
    assert p.reg.scopes == Enter(p.reg.bare, p.reg.log, p.reg.ids);
  }

  lemma LargeProgramsAreSafe(p: Program)
    requires CollectProgram(p.reg.c, p.tagged) == Some(p.reg.log) && Size(p.tagged) > MAX_NODES
    requires (forall i :: i in p.reg.bare ==> p.reg.bare[i].table == map[]) && WellParented(p.reg.scopes)
    ensures forall n :: SafeAt(p.reg.env, p.reg.scopes, n)
  {
    var env, scopes := p.reg.env, p.reg.scopes;
    forall n: Info, x | SeesAt(env, scopes, n, x)
      ensures Harmless(env, x.vars) && LeafKeys(env, x.table)
    {
      var ids := Chain(scopes, Some(n.scopeId));
      forall typ, name
        ensures !Visible(scopes, ids, typ, n.sid, name)
      {
        NothingVisible(p, ids, typ, n.sid, name);
      }
      NothingCollected(env, x.vars, scopes, ids, n.sid);
      NoKeys(env, x.vars, x.callable, x.table);
    }
  }

  lemma NoKeys(env: TypeEnv, vars: VarMaps, callable: set<TypeId>, table: Table)
    requires vars.simple == map[] && vars.compound == map[] && vars.functions == map[]
    requires Satisfiables(env, vars, callable, table)
    ensures table == map[]
  {
    forall t
      ensures t !in table
    {
      TableKeys(env, vars, callable, table, t);
      assert callable == {};
    }
  }

  /** Its fix points become numbers. */
  lemma LargeProgramsGetNumbers(t: Tree, p: Program, texts: seq<string>, out: Tree, i: nat)
    requires Validated(t, p, texts, out) && i < |texts| && Size(p.tagged) > 250
    ensures exists n: nat :: n < 0x1000 && IsDecimal(texts[i], n)
  {
    var env, scopes, f := p.reg.env, p.reg.scopes, FixPaths(p.tagged)[i];
    assert PlaceFits(env, scopes, p.tagged, f, texts[i]);
    var n := At(p.tagged, f).info;
    var ids := Chain(scopes, Some(n.scopeId));
    var x, e :| SeesAt(env, scopes, n, x) && Denotes(env, x, texts[i], e);
    forall typ, name
      ensures !Visible(scopes, ids, typ, n.sid, name)
    {
      NothingVisible(p, ids, typ, n.sid, name);
    }
    NothingCollected(env, x.vars, scopes, ids, n.sid);
    OnlyNumbers(env, x.vars, e);
    assert IsDecimal(texts[i], e.n);
  }

  lemma OnlyNumbers(env: TypeEnv, vars: VarMaps, e: Expr)
    requires vars.simple == map[] && vars.compound == map[] && vars.functions == map[] && Fits(env, vars, e, ALL_TYPES)
    ensures e.Number? && e.n < 0x1000 && Render(env, e) == Decimal(e.n)
  {
    assert HasType(env, vars, e, ALL_TYPES) || exists u :: HasType(env, vars, e, u);
  }

  lemma NothingCollected(env: TypeEnv, vars: VarMaps, scopes: Scopes, ids: seq<ScopeId>, use: nat)
    requires Collected(env, vars, scopes, ids, use)
    requires forall typ, name :: !Visible(scopes, ids, typ, use, name)
    ensures vars.simple == map[] && vars.compound == map[] && vars.functions == map[] && vars.pointer == map[]
  {
    forall typ
      ensures Gathered(scopes, ids, typ, use) == []
    {
      var names := Gathered(scopes, ids, typ, use);
      if names != [] {
        GatheredExact(scopes, ids, typ, use, names[0]);
      }
    }
    assert vars.simple.Keys == {} && vars.compound.Keys == {} && vars.functions.Keys == {} && vars.pointer.Keys == {};
  }

  /** Where strings are found at leaves only: the validated tree needs fixing exactly if a generated
      text is FIXME again, and there was a text to generate exactly if the input needed fixing. */
  lemma ValidationFixes(t: Tree, p: Program, texts: seq<string>, out: Tree)
    requires Validated(t, p, texts, out) && StringsAtLeaves(t)
    ensures NeedsFixing(out) <==> FIXME in texts
    ensures NeedsFixing(t) <==> texts != []
  {
    MarkKeepsLeaves(t);
    MarkKeepsNeed(t);
    TagCounts(Mark(t), None, 0);
    FilledNeedsFixing(p.tagged, texts);
    FilledNeedsFixing(Mark(t), texts);
  }
}
