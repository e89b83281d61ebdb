/** Generation of an expression for a hole: the member search, the weighted choice and the mutual
    recursion under a counter (srcs/internal/srcs/typesystem.cpp). */
module Generator {
  import opened Common
  import opened IrTree
  import opened TypeGraph
  import opened Visibility
  import opened Satisfiable
  import opened Expressions

  // ---------------------------------------------------------------------------------------------
  // When a compound has a member path to a type
  // ---------------------------------------------------------------------------------------------

  /** Member type `m` is a method that returns `target`. */
  predicate ReturnedBy(env: TypeEnv, m: TypeId, target: TypeId) {
    m !in env.compounds && m in env.functions && env.functions[m].ret == target
  }

  predicate SomeReturn(env: TypeEnv, members: set<TypeId>, target: TypeId) {
    exists m :: m in members && ReturnedBy(env, m, target)
  }

  /** The compound `c` itself has a member of type `target`, or a method that returns one. */
  predicate Solves(env: TypeEnv, c: TypeId, target: TypeId) {
    c in env.compounds
    && (target in env.compounds[c] || SomeReturn(env, env.compounds[c].Keys, target))
  }

  ghost predicate SomeSolves(env: TypeEnv, cs: set<TypeId>, target: TypeId) {
    exists d :: d in cs && Solves(env, d, target)
  }

  /** The two searches agree: whatever the first search reports for `c`, some compound reachable from
      `c` offers as a member or as the result of a method. */
  lemma ObtainableHasMember(env: TypeEnv, c: TypeId, t: TypeId)
    requires t in ObtainableTypes(env, c)
    ensures SomeSolves(env, ReachableFrom(env, c), t)
  {
    var d :| d in ReachableFrom(env, c) && d in env.compounds && t in Direct(env, d);
    var m :| m in env.compounds[d].Keys && t in Offered(env, m);
    assert t == m || ReturnedBy(env, m, t);
    assert Solves(env, d, t);
  }

  lemma SomeSolvesSplit(env: TypeEnv, all: set<TypeId>, a: set<TypeId>, b: set<TypeId>, t: TypeId)
    requires all == a + b
    ensures SomeSolves(env, all, t) <==> SomeSolves(env, a, t) || SomeSolves(env, b, t)
  {
  }

  lemma SomeReturnAdd(env: TypeEnv, done: set<TypeId>, m: TypeId, t: TypeId)
    ensures SomeReturn(env, done + {m}, t) <==> SomeReturn(env, done, t) || ReturnedBy(env, m, t)
  {
  }

  // ---------------------------------------------------------------------------------------------
  // The weighted choice
  // ---------------------------------------------------------------------------------------------

  datatype Bucket = DisabledBucket | FunctionBucket | StructureBucket | SimpleBucket

  datatype Weights = Weights(expression: nat, function_: nat, compound: nat, simple: nat)
  {
    function Total(): nat {
      simple + function_ + compound
    }
  }

  function Pow2(n: nat): (p: nat)
    ensures p > 0
  {
    if n == 0 then 1 else 2 * Pow2(n - 1)
  }

  /** The weights after all shifts; `gen` counts the current call, and `leaf` says that the type is a
      function or a compound. */
  function WeightsFor(simple: nat, compound: nat, functions: nat, leaf: bool, gen: nat, fgen: nat): Weights {
    var half := (functions + compound + simple) / 2;
    var e0 := if leaf then 0 else 2 * (if half == 0 then 1 else half);
    var e1 := if gen > 3 then e0 / 4 else e0;
    var f0 := functions * 8;
    Weights(
      if gen > 15 then 0 else e1,
      if fgen > 2 then f0 / Pow2(fgen / 4) else f0,
      compound * 8,
      if gen > 15 then simple * 64 * 0x10000 else simple * 64)
  }

  /** The chain of comparisons; the draw ranges over the total WITHOUT the expression weight. */
  function Dispatch(w: Weights, draw: nat): Bucket {
    if draw < w.expression then DisabledBucket
    else if draw - w.expression < w.function_ then FunctionBucket
    else if draw - w.expression - w.function_ < w.compound then StructureBucket
    else SimpleBucket
  }

  /** Outside the disabled bucket, a draw never selects an empty function, compound or simple map. */
  lemma DispatchFindsCandidates(simple: nat, compound: nat, functions: nat, leaf: bool,
                                gen: nat, fgen: nat, draw: nat)
    requires draw < WeightsFor(simple, compound, functions, leaf, gen, fgen).Total()
    ensures match Dispatch(WeightsFor(simple, compound, functions, leaf, gen, fgen), draw)
      case DisabledBucket => true
      case FunctionBucket => functions > 0
      case StructureBucket => compound > 0
      case SimpleBucket => simple > 0
  {
    if functions == 0 {
      assert 0 / Pow2(fgen / 4) == 0;
    }
  }

  lemma NothingWeighs(simple: nat, compound: nat, functions: nat, leaf: bool, gen: nat, fgen: nat)
    requires WeightsFor(simple, compound, functions, leaf, gen, fgen).Total() == 0
    ensures simple == 0 && compound == 0 && (fgen <= 2 ==> functions == 0)
  {
  }

  lemma DisabledWeighs(simple: nat, compound: nat, functions: nat, leaf: bool, gen: nat, fgen: nat, draw: nat)
    requires Dispatch(WeightsFor(simple, compound, functions, leaf, gen, fgen), draw) == DisabledBucket
    ensures !leaf && gen <= 15
  {
  }

  /** The disabled bucket, an unconditional assertion failure, can be drawn exactly when the type is
      neither a function nor a compound, at most 15 calls are open (with fewer than 4 candidates: at
      most 3 calls), and something can be drawn at all. */
  lemma DisabledBucketIff(simple: nat, compound: nat, functions: nat, leaf: bool, gen: nat, fgen: nat)
    requires simple + compound + functions > 0
    ensures var w := WeightsFor(simple, compound, functions, leaf, gen, fgen);
      (exists draw: nat :: draw < w.Total() && Dispatch(w, draw) == DisabledBucket)
      <==> w.Total() > 0 && !leaf && gen <= 15 && (gen <= 3 || simple + compound + functions >= 4)
  {
    var w := WeightsFor(simple, compound, functions, leaf, gen, fgen);
    assert w.expression > 0 <==> !leaf && gen <= 15 && (gen <= 3 || simple + compound + functions >= 4);
    if w.Total() > 0 && w.expression > 0 {
      assert Dispatch(w, 0) == DisabledBucket;
    }
  }

  /** What the candidates weigh in the first three calls: 8 for a function or a compound, 64 for a simple variable, and
      for the disabled bucket half of their number, twice; nothing for functions and compounds as types. */
  lemma FirstWeightsAre(simple: nat, compound: nat, functions: nat, leaf: bool, gen: nat)
    requires gen <= 3 && simple + compound + functions > 1
    ensures var w, n := WeightsFor(simple, compound, functions, leaf, gen, 0), simple + compound + functions;
      && w.function_ == 8 * functions && w.compound == 8 * compound && w.simple == 64 * simple
      && w.expression == (if leaf then 0 else n - n % 2)
  {
    var n := functions + compound + simple;
    assert 2 * (n / 2) == n - n % 2;
  }

  /** A draw can reach a bucket exactly if what lies before it leaves something of it: the range of the draw is short by
      the weight of the disabled bucket. */
  lemma BucketIff(w: Weights, b: Bucket)
    ensures (exists draw: nat :: draw < w.Total() && Dispatch(w, draw) == b)
      <==> match b
           case DisabledBucket => w.expression > 0 && w.Total() > 0
           case FunctionBucket => w.function_ > 0 && w.expression < w.Total()
           case StructureBucket => w.compound > 0 && w.expression < w.compound + w.simple
           case SimpleBucket => w.expression < w.simple
  {
    var first: nat := match b
      case DisabledBucket => 0
      case FunctionBucket => w.expression
      case StructureBucket => w.expression + w.function_
      case SimpleBucket => w.expression + w.function_ + w.compound;
    if first < w.Total() {
      assert Dispatch(w, first) == b <==> match b
        case DisabledBucket => w.expression > 0
        case FunctionBucket => w.function_ > 0
        case StructureBucket => w.compound > 0
        case SimpleBucket => true;
    }
  }

  /** So beside 64 functions one simple variable is never drawn in the first three calls. */
  lemma VariableOutOfReach(gen: nat, fgen: nat, draw: nat)
    requires gen <= 3
    ensures var w := WeightsFor(1, 0, 64, false, gen, fgen);
      draw < w.Total() ==> Dispatch(w, draw) != SimpleBucket
  {
    var w := WeightsFor(1, 0, 64, false, gen, fgen);
    assert w.expression == 64 == w.simple;
    BucketIff(w, SimpleBucket);
  }

  /** The types that the disabled bucket has no weight for. */
  predicate Leaf(env: TypeEnv, t: TypeId) {
    t in env.functions || t in env.compounds
  }

  ghost predicate LeafKeys(env: TypeEnv, table: Table) {
    forall t :: t in table ==> Leaf(env, t)
  }

  /** A draw for a key, with the counters of calls and arguments at that moment. */
  datatype Draw = Draw(key: TypeId, gen: nat, fgen: nat, value: nat)

  /** It selects the disabled bucket of the key. */
  ghost predicate IsDisabled(env: TypeEnv, table: Table, d: Draw) {
    && d.key in table
    && var e := table[d.key];
       var w := WeightsFor(|e.simple|, |e.structure|, |e.call|, Leaf(env, d.key), d.gen, d.fgen);
       d.value < w.Total() && Dispatch(w, d.value) == DisabledBucket
  }

  /** The weights for a key in the first call of a generation. */
  ghost function FirstWeights(env: TypeEnv, table: Table, t: TypeId): Weights
    requires t in table
  {
    WeightsFor(|table[t].simple|, |table[t].structure|, |table[t].call|, Leaf(env, t), 1, 0)
  }

  /** A key at which the first draw can abort. */
  ghost predicate AbortsAt(env: TypeEnv, table: Table, t: TypeId)
    requires t in table
  {
    exists draw: nat :: draw < FirstWeights(env, table, t).Total()
      && Dispatch(FirstWeights(env, table, t), draw) == DisabledBucket
  }

  /** So the first call cannot abort in the disabled bucket exactly if every key is a function or a compound. */
  lemma NoAbortIff(env: TypeEnv, vars: VarMaps, callable: set<TypeId>, table: Table)
    requires Satisfiables(env, vars, callable, table)
    ensures (forall t :: t in table ==> !AbortsAt(env, table, t)) <==> LeafKeys(env, table)
  {
    forall t | t in table
      ensures AbortsAt(env, table, t) <==> !Leaf(env, t)
    {
      var e := table[t];
      assert e != Handlers({}, {}, {});
      assert |e.simple| + |e.structure| + |e.call| > 0;
      assert FirstWeights(env, table, t).Total() > 0;
      DisabledBucketIff(|e.simple|, |e.structure|, |e.call|, Leaf(env, t), 1, 0);
    }
  }

  /** With a single simple variable in sight, 2 of the 64 possible first draws abort. */
  lemma SingleVariableCanAbort(draw: nat)
    requires draw < WeightsFor(1, 0, 0, false, 1, 0).Total()
    ensures WeightsFor(1, 0, 0, false, 1, 0).Total() == 64
    ensures Dispatch(WeightsFor(1, 0, 0, false, 1, 0), draw) == DisabledBucket <==> draw < 2
  {
  }

  const INT := TypeId(10)

  /** One basic type, and one variable `x` of it. */
  function OneVariableEnv(): TypeEnv {
    TypeEnv(map[], map[], {INT}, {}, true)
  }

  function OneVariable(): VarMaps {
    VarMaps(map[INT := ["x"]], map[], map[], map[])
  }

  lemma OneVariableTable(callable: set<TypeId>, table: Table)
    requires Satisfiables(OneVariableEnv(), OneVariable(), callable, table)
    ensures table == map[INT := Handlers({INT}, {}, {})]
  {
    hide IsLeast, Available;
    var env, vars := OneVariableEnv(), OneVariable();
    assert vars.simple.Keys == {INT} && vars.compound.Keys == {} && callable == {} by {
      NoCallables(env, vars, callable);
    }
    OneVariableAvailable();
    KeySet(env, vars, callable, table);
    assert table.Keys == {INT};
    var e := table[INT];
    assert e == EntryOf(table, INT);
    assert e.structure == {} && e.call == {} && e.simple == {INT};
  }

  lemma NoCallables(env: TypeEnv, vars: VarMaps, callable: set<TypeId>)
    requires vars.functions == map[] && IsLeast(env, vars.functions.Keys, Available(env, vars), callable)
    ensures callable == {}
  {
  }

  lemma OneVariableAvailable()
    ensures Available(OneVariableEnv(), OneVariable()) == {INT}
  {
    assert OneVariable().compound.Keys == {} && ObtainableFromAny(OneVariableEnv(), {}) == {};
  }

  /** In that program the table has one entry, and 2 of the 64 first draws for it abort. */
  lemma OneVariableCanAbort(callable: set<TypeId>, table: Table, draw: nat)
    requires Satisfiables(OneVariableEnv(), OneVariable(), callable, table)
    ensures MapsFit(OneVariableEnv(), OneVariable()) && table == map[INT := Handlers({INT}, {}, {})]
    ensures FirstWeights(OneVariableEnv(), table, INT).Total() == 64
    ensures draw < 64 ==> (Dispatch(FirstWeights(OneVariableEnv(), table, INT), draw) == DisabledBucket <==> draw < 2)
  {
    hide Satisfiables;
    OneVariableTable(callable, table);
    assert |table[INT].simple| == 1 && |table[INT].structure| == 0 && |table[INT].call| == 0;
    if draw < 64 {
      SingleVariableCanAbort(draw);
    }
  }

  // ---------------------------------------------------------------------------------------------
  // The generator
  // ---------------------------------------------------------------------------------------------

  /** The hole that is filled: its scope and its statement id. */
  datatype Use = Use(scope: ScopeId, sid: nat)

  /** The result of a generation: the disabled branch and a null pointer abort the program. */
  datatype Outcome = Aborted | Text(text: string)

  ghost predicate NamesNonEmpty(vars: VarMaps) {
    && (forall t :: t in vars.simple ==> "" !in vars.simple[t])
    && (forall t :: t in vars.compound ==> "" !in vars.compound[t])
  }

  /** The typed expression behind a text; a visible empty name is the only way to an empty text. */
  ghost predicate Writes(env: TypeEnv, vars: VarMaps, res: Outcome, e: Expr, t: TypeId) {
    res.Text? ==>
      && res.text == Render(env, e)
      && Fits(env, vars, e, t)
      && (NamesNonEmpty(vars) ==> res.text != "")
  }

  lemma FitsSpells(env: TypeEnv, vars: VarMaps, e: Expr, t: TypeId)
    requires Fits(env, vars, e, t)
    ensures Spells(env, e, Render(env, e))
  {
    var u :| HasType(env, vars, e, u);
    RenderSpells(env, vars, e, u);
  }

  /** Nothing is visible that could be used, or the result of some function is asked for although nothing visible
      gives a value of its type. */
  ghost predicate NothingToUse(env: TypeEnv, table: Table) {
    table == map[] || exists f :: f in table && f in env.functions && env.functions[f].ret !in table
  }

  /** The table is empty exactly if no variable is visible and no function can be called. */
  lemma EmptyTableIff(env: TypeEnv, vars: VarMaps, callable: set<TypeId>, table: Table)
    requires Satisfiables(env, vars, callable, table)
    ensures table == map[] <==> vars.simple == map[] && vars.compound == map[] && callable == {}
  {
    KeySet(env, vars, callable, table);
    if f :| f in callable {
      CallableArgs(env, vars, callable, f);
      assert env.functions[f].ret in Returns(env, callable);
    }
    assert table == map[] <==> table.Keys == {};
    assert vars.simple == map[] <==> vars.simple.Keys == {};
    assert vars.compound == map[] <==> vars.compound.Keys == {};
    if vars.simple == map[] && vars.compound == map[] && callable == {} {
      assert Available(env, vars) == {} && Returns(env, callable) == {};
    }
  }

  /** A number stands for a type only if there is no variable for it. */
  predicate Filled(table: Table, e: Expr, t: TypeId) {
    e.Number? && t in table && t != ALL_TYPES ==> table[t].simple == {} && table[t].structure == {}
  }

  /** All arguments inside the expression are filled in this way. */
  ghost predicate Honest(env: TypeEnv, table: Table, e: Expr)
    decreases e, 0
  {
    match e
    case Call(f, args) => f in env.functions ==> HonestArgs(env, table, args, env.functions[f].args)
    case Access(_, _, path) => HonestPath(env, table, path)
    case _ => true
  }

  ghost predicate HonestArgs(env: TypeEnv, table: Table, args: seq<Expr>, types: seq<TypeId>)
    decreases args, 1
  {
    forall i :: 0 <= i < |args| && i < |types| ==> Filled(table, args[i], types[i]) && Honest(env, table, args[i])
  }

  ghost predicate HonestPath(env: TypeEnv, table: Table, path: seq<Step>)
    decreases path
  {
    forall k :: 0 <= k < |path| && path[k].Method? && path[k].func in env.functions ==>
      HonestArgs(env, table, path[k].args, env.functions[path[k].func].args)
  }

  ghost predicate HonestPaths(env: TypeEnv, table: Table, paths: seq<seq<Step>>) {
    forall k :: 0 <= k < |paths| ==> HonestPath(env, table, paths[k])
  }

  /** A member path found for `target` in compound `c`. */
  ghost predicate FoundPath(env: TypeEnv, vars: VarMaps, text: string, c: TypeId, path: seq<Step>, target: TypeId) {
    path != [] && text == RenderPath(env, path) && PathFits(env, vars, c, path, target)
  }

  method PickName(names: seq<string>) returns (name: string)
    requires names != []
    ensures name in names
  {
    var k: nat :| k < |names|;
    name := names[k];
  }

  /** Filtering by handler sets that list visible variables only. */
  method FilterAll(vars: VarMaps, h: Handlers)
    returns (simpleMap: map<TypeId, seq<string>>, compoundMap: map<TypeId, seq<string>>,
             functionMap: map<TypeId, seq<string>>)
    requires h.simple <= vars.simple.Keys && h.structure <= vars.compound.Keys && h.call <= vars.functions.Keys
    ensures simpleMap.Keys == h.simple && compoundMap.Keys == h.structure && functionMap.Keys == h.call
    ensures forall t :: t in simpleMap ==> simpleMap[t] == vars.simple[t]
    ensures forall t :: t in compoundMap ==> compoundMap[t] == vars.compound[t]
  {
    simpleMap := FilterElement(vars.simple, h.simple);
    compoundMap := FilterElement(vars.compound, h.structure);
    functionMap := FilterElement(vars.functions, h.call);
  }

  /** The last comma of an argument list becomes the closing parenthesis; without arguments one is
      added. */
  method CloseCall(text: string, ghost name: string, ghost args: string, ghost n: nat) returns (r: string)
    requires text == name + "(" + (if n == 0 then "" else args + ",")
    requires n == 0 ==> args == ""
    ensures r == name + "(" + args + ")"
  {
    if text[|text| - 1] == ',' {
      r := text[|text| - 1 := ')'];
    } else {
      r := text + ")";
    }
  }

  method GenRandomNumString(env: TypeEnv, vars: VarMaps, t: TypeId) returns (res: Outcome, ghost e: Expr)
    ensures res.Text? && res.text != "" && e.Number? && res.text == Render(env, e) && HasType(env, vars, e, t)
  {
    var n: nat :| n < 0x1000;
    e := Number(n);
    res := Text(Decimal(n));
  }

  lemma FieldPath(env: TypeEnv, vars: VarMaps, c: TypeId, m: TypeId, name: string, sub: seq<Step>, target: TypeId)
    requires c in env.compounds && m in env.compounds[c] && name in env.compounds[c][m]
    requires PathFits(env, vars, m, sub, target)
    ensures FoundPath(env, vars, MEMBER + name + RenderPath(env, sub), c, [Field(name, m)] + sub, target)
  {
    var path := [Field(name, m)] + sub;
    assert path[0] == Field(name, m) && path[1..] == sub;
  }

  lemma MethodPath(env: TypeEnv, vars: VarMaps, c: TypeId, f: TypeId, args: seq<Expr>)
    requires c in env.compounds && f in env.compounds[c] && f in env.functions
    requires ArgsFit(env, vars, args, env.functions[f].args)
    ensures FoundPath(env, vars, MEMBER + RenderCall(env, f, args), c, [Method(f, args)], env.functions[f].ret)
  {
    var path := [Method(f, args)];
    assert path[0] == Method(f, args) && path[1..] == [];
    assert RenderPath(env, path) == MEMBER + RenderCall(env, f, args) + "";
  }

  /** The candidates gathered for `target` in `c`: member paths that type-check, and methods of `c`. */
  ghost predicate Candidate(env: TypeEnv, vars: VarMaps, c: TypeId, target: TypeId,
                            sols: seq<string>, paths: seq<seq<Step>>, funcs: seq<TypeId>)
    requires c in env.compounds
  {
    && |sols| == |paths|
    && (forall k :: 0 <= k < |sols| ==> FoundPath(env, vars, sols[k], c, paths[k], target))
    && (forall k :: 0 <= k < |funcs| ==> funcs[k] in env.compounds[c] && ReturnsType(env, funcs[k], target))
  }

  /** The search of `c` has met a solution among its handled members `done` or below them. */
  ghost predicate SolvedSoFar(env: TypeEnv, c: TypeId, target: TypeId, done: set<TypeId>,
                              visit: set<TypeId>, visited: set<TypeId>)
    requires c in env.compounds
  {
    target in env.compounds[c] || SomeReturn(env, done, target) || SomeSolves(env, visited - visit - {c}, target)
  }

  lemma CandidateConcat(env: TypeEnv, vars: VarMaps, c: TypeId, target: TypeId,
                        sols: seq<string>, paths: seq<seq<Step>>, funcs: seq<TypeId>,
                        sols': seq<string>, paths': seq<seq<Step>>, funcs': seq<TypeId>)
    requires c in env.compounds
    requires Candidate(env, vars, c, target, sols, paths, funcs)
    requires Candidate(env, vars, c, target, sols', paths', funcs')
    ensures Candidate(env, vars, c, target, sols + sols', paths + paths', funcs + funcs')
  {
  }

  lemma HonestConcat(env: TypeEnv, table: Table, a: seq<seq<Step>>, b: seq<seq<Step>>)
    ensures HonestPaths(env, table, a) && HonestPaths(env, table, b) ==> HonestPaths(env, table, a + b)
  {
  }

  lemma SolvedAtStart(env: TypeEnv, c: TypeId, target: TypeId, visit: set<TypeId>)
    requires c in env.compounds
    ensures SolvedSoFar(env, c, target, {}, visit, visit + {c}) <==> target in env.compounds[c]
  {
  }

  lemma SolvedAtEnd(env: TypeEnv, c: TypeId, target: TypeId, visit: set<TypeId>, visited: set<TypeId>)
    requires c in env.compounds && c in visited - visit
    ensures SolvedSoFar(env, c, target, env.compounds[c].Keys, visit, visited)
      <==> SomeSolves(env, visited - visit, target)
  {
    SomeSolvesSplit(env, visited - visit, visited - visit - {c}, {c}, target);
  }

  lemma OneMoreArgument(env: TypeEnv, vars: VarMaps, args: seq<Expr>, a: Expr, types: seq<TypeId>, k: nat)
    requires k < |types| && ArgsFit(env, vars, args, types[..k]) && Fits(env, vars, a, types[k])
    ensures ArgsFit(env, vars, args + [a], types[..k + 1])
    ensures RenderArgs(env, args + [a]) == (if k == 0 then "" else RenderArgs(env, args) + ",") + Render(env, a)
  {
    hide HasType, Fits, Render, RenderArgs;
    assert types[..k + 1] == types[..k] + [types[k]];
    OneMoreText(env, args, a);
  }

  lemma OneMoreText(env: TypeEnv, args: seq<Expr>, a: Expr)
    ensures RenderArgs(env, args + [a]) == (if args == [] then "" else RenderArgs(env, args) + ",") + Render(env, a)
  {
    assert (args + [a])[..|args|] == args;
  }

  lemma NoArguments(env: TypeEnv, vars: VarMaps, table: Table, functions: map<TypeId, FunctionType>)
    ensures forall f :: f in functions ==> HonestArgs(env, table, [], functions[f].args)
    ensures ArgsFit(env, vars, [], []) && RenderArgs(env, []) == ""
  {
  }

  lemma HonestMore(env: TypeEnv, table: Table, args: seq<Expr>, a: Expr, types: seq<TypeId>, k: nat)
    requires |args| == k < |types|
    ensures HonestArgs(env, table, args, types) && Filled(table, a, types[k]) && Honest(env, table, a)
      ==> HonestArgs(env, table, args + [a], types)
  {
  }

  class ExpressionGenerator {
    const env: TypeEnv
    const scopes: Scopes
    var genCounter: nat
    var functionGenCounter: nat
    var currentFixScope: Option<ScopeId>
    var vars: VarMaps
    var table: Table
    ghost var callable: set<TypeId>
    ghost var hit: Option<Draw>

    constructor (env: TypeEnv, scopes: Scopes)
      ensures this.env == env && this.scopes == scopes && currentFixScope == None
      ensures genCounter == 0 && functionGenCounter == 0
    {
      this.env, this.scopes := env, scopes;
      genCounter, functionGenCounter, currentFixScope := 0, 0, None;
      vars, table, callable, hit := VarMaps(map[], map[], map[], map[]), map[], {}, None;
    }

    /** The cached maps and table belong together. */
    ghost predicate Ready()
      reads this
    {
      env.WellFormed() && MapsFit(env, vars) && Satisfiables(env, vars, callable, table)
      && genCounter <= 51
    }

    /** The draw in `hit` was one of the disabled bucket. */
    ghost predicate Disabled()
      reads this
    {
      hit.Some? && IsDisabled(env, table, hit.value)
    }

    /** No pointer variable is dereferenced in strong mode. */
    ghost predicate PointerFree()
      reads this
    {
      env.weak || vars.pointer == map[]
    }

    /** Every key is a function or a compound, so the disabled bucket has no weight. */
    ghost predicate LeafOnly()
      reads this
    {
      LeafKeys(env, table)
    }

    /** generate_expression_by_type: the text denotes an expression that fits the type over the
        variables visible at the hole, unless the program aborts. */
    method GenerateExpression(ir: Use, t: TypeId) returns (res: Outcome, ghost e: Expr)
      requires env.WellFormed() && WellParented(scopes)
      requires currentFixScope.Some? ==> Ready()
      modifies this
      ensures Ready() && currentFixScope == Some(ir.scope)
      ensures old(currentFixScope) != Some(ir.scope) ==>
                Collected(env, vars, scopes, Chain(scopes, Some(ir.scope)), ir.sid)
      ensures Writes(env, vars, res, e, t) && (res.Text? ==> res.text != "" && Spells(env, e, res.text))
      ensures hit.Some? || !PointerFree() ==> res.Aborted?
      ensures hit.Some? ==> Disabled()
      ensures res.Aborted? ==> hit.Some? || !PointerFree() || !NamesNonEmpty(vars)
      ensures LeafOnly() ==> hit.None?
      ensures res.Text? && e.Number? && t == ALL_TYPES ==> NothingToUse(env, table)
      ensures res.Text? && genCounter <= 50 ==> Honest(env, table, e)
    {
      hit := None;
      genCounter, functionGenCounter := 0, 0;
      res, e := GenerateCore(t, Some(ir));
      if res.Text? && res.text == "" {
        res := Aborted;
      }
      if res.Text? {
        FitsSpells(env, vars, e, t);
      }
    }

    /** generate_expression_by_type_core.  Each call that does more than write a number raises the
        counter, which never passes 51: so there are at most 51 of them, and the mutual recursion with
        calls and member lookups terminates.  The null node passed by the member lookup is harmless:
        it is read only while the counter is 0. */
    method GenerateCore(t: TypeId, ir: Option<Use>) returns (res: Outcome, ghost e: Expr)
      requires env.WellFormed() && WellParented(scopes)
      requires genCounter == 0 ==> ir.Some? && (currentFixScope.Some? ==> Ready())
      requires hit.None? && (genCounter > 0 ==> Ready())
      modifies this
      ensures Ready() && genCounter >= 1 && genCounter >= old(genCounter)
      ensures old(genCounter) > 0 ==> vars == old(vars) && table == old(table)
      ensures old(genCounter) > 0 ==> currentFixScope == old(currentFixScope)
      ensures old(genCounter) == 0 ==> currentFixScope == Some(ir.value.scope)
      ensures old(genCounter) == 0 && old(currentFixScope) != currentFixScope ==>
                Collected(env, vars, scopes, Chain(scopes, currentFixScope), ir.value.sid)
      ensures Writes(env, vars, res, e, t)
      ensures (res.Aborted? ==> hit.Some? || !PointerFree()) && (hit.Some? ==> res.Aborted? && Disabled())
      ensures LeafOnly() || old(genCounter) >= 15 ==> hit.None?
      ensures !PointerFree() && old(genCounter) <= 50 ==> res.Aborted?
      ensures res.Text? && old(genCounter) <= 50 ==> Filled(table, e, t)
      ensures res.Text? && e.Number? && t == ALL_TYPES && old(genCounter) == 0 && old(functionGenCounter) <= 2 ==>
                NothingToUse(env, table)
      ensures res.Text? && genCounter <= 50 ==> Honest(env, table, e)
      decreases if genCounter <= 51 then 51 - genCounter else 0, 0
    {
      hide MapsFit, Satisfiables, NothingToUse, HasType, Render;
      if genCounter == 0 {
        Refresh(ir.value);
      }
      if genCounter > 50 {
        res, e := GenRandomNumString(env, vars, t);
        return;
      }
      genCounter := genCounter + 1;
      if !env.weak && vars.pointer != map[] {
        return Aborted, Number(0);  // update_pointer_var dereferences the null that GetPointerType returns
      }
      var typ := ResolveType(t);
      if typ !in table {
        res, e := GenRandomNumString(env, vars, t);
        return;
      }
      res, e := GenerateForKey(typ, ir);
    }

    /** For kAllTypes any key is taken, or the result type of a key that is a function. */
    method ResolveType(t: TypeId) returns (typ: TypeId)
      ensures t != ALL_TYPES ==> typ == t
      ensures t == ALL_TYPES && table != map[] ==>
                typ in table || exists f :: f in table && f in env.functions && typ == env.functions[f].ret
      ensures t == ALL_TYPES && typ !in table ==> NothingToUse(env, table)
    {
      typ := t;
      if t == ALL_TYPES && table != map[] {
        typ := AnyOf(table.Keys);
        var result: bool :| true;
        if typ in env.functions && result {
          typ := env.functions[typ].ret;
        }
      }
    }

    /** Recomputes the cached maps when the scope of the hole changed. */
    method Refresh(ir: Use)
      requires env.WellFormed() && WellParented(scopes)
      requires currentFixScope.Some? ==> Ready()
      modifies this
      ensures currentFixScope == Some(ir.scope)
      ensures genCounter == old(genCounter) && functionGenCounter == old(functionGenCounter) && hit == old(hit)
      ensures genCounter <= 51 ==> Ready()
      ensures old(currentFixScope) != currentFixScope ==>
                Collected(env, vars, scopes, Chain(scopes, currentFixScope), ir.sid)
    {
      if currentFixScope != Some(ir.scope) {
        currentFixScope := Some(ir.scope);
        vars := CollectAllVarDefinitionByType(env, scopes, ir.scope, ir.sid);
        CollectedMapsFit(env, vars, scopes, Chain(scopes, currentFixScope), ir.sid);
        table, callable := CollectSatisfiableTypes(env, vars);
      }
    }

    /** The part of the core after the type is settled: filter, weigh, draw, dispatch. */
    method GenerateForKey(t: TypeId, ir: Option<Use>) returns (res: Outcome, ghost e: Expr)
      requires Ready() && hit.None? && genCounter >= 1 && WellParented(scopes) && t in table
      modifies this
      ensures Ready() && genCounter >= old(genCounter)
      ensures vars == old(vars) && table == old(table) && currentFixScope == old(currentFixScope)
      ensures res.Text? ==> res.text == Render(env, e) && HasType(env, vars, e, t)
      ensures res.Text? && NamesNonEmpty(vars) ==> res.text != ""
      ensures (res.Aborted? ==> hit.Some? || !PointerFree()) && (hit.Some? ==> res.Aborted? && Disabled())
      ensures LeafOnly() || old(genCounter) > 15 ==> hit.None?
      ensures res.Text? && e.Number? ==> table[t].simple == {} && table[t].structure == {}
      ensures res.Text? && old(functionGenCounter) <= 2 ==> !e.Number?
      ensures res.Text? && genCounter <= 50 ==> Honest(env, table, e)
      decreases 51 - genCounter, 6
    {
      hide MapsFit, Satisfiables, HasType, Render;
      var simpleMap, compoundMap, functionMap := Candidates(t);
      var drawn := DrawBucket(t, simpleMap.Keys, compoundMap.Keys, functionMap.Keys,
                              t in env.functions || t in env.compounds);
      if drawn.None? {
        res, e := GenRandomNumString(env, vars, t);
      } else if drawn.value == DisabledBucket {
        res, e := Aborted, Number(0);
      } else {
        res, e := Handle(drawn.value, t, ir, simpleMap, compoundMap, functionMap);
      }
    }

    /** The handler of the drawn bucket. */
    method Handle(bucket: Bucket, t: TypeId, ir: Option<Use>, simpleMap: map<TypeId, seq<string>>,
                  compoundMap: map<TypeId, seq<string>>, functionMap: map<TypeId, seq<string>>)
      returns (res: Outcome, ghost e: Expr)
      requires Ready() && hit.None? && genCounter >= 1 && WellParented(scopes)
      requires match bucket
        case DisabledBucket => false
        case FunctionBucket => functionMap.Keys != {}
        case StructureBucket => compoundMap.Keys != {}
        case SimpleBucket => t in simpleMap && t in vars.simple && simpleMap[t] == vars.simple[t] != []
      requires forall c :: c in compoundMap ==>
                 c in vars.compound && compoundMap[c] == vars.compound[c] && Gives(env, c, t)
      requires forall f :: f in functionMap ==> f in vars.functions && ReturnsType(env, f, t)
      modifies this
      ensures Ready() && genCounter >= old(genCounter)
      ensures vars == old(vars) && table == old(table) && currentFixScope == old(currentFixScope)
      ensures res.Text? ==> !e.Number? && res.text == Render(env, e) && HasType(env, vars, e, t)
      ensures res.Text? && NamesNonEmpty(vars) ==> res.text != ""
      ensures (res.Aborted? ==> hit.Some? || !PointerFree()) && (hit.Some? ==> res.Aborted? && Disabled())
      ensures LeafOnly() || old(genCounter) > 15 ==> hit.None?
      ensures res.Text? && genCounter <= 50 ==> Honest(env, table, e)
      decreases 51 - genCounter, 5
    {
      match bucket {
        case FunctionBucket =>
          ghost var f, args;
          res, f, args := FunctionCall(functionMap.Keys, ir);
          e := Call(f, args);
        case StructureBucket =>
          res, e := StructureMember(compoundMap, t);
        case SimpleBucket =>
          var name := PickName(simpleMap[t]);
          res, e := Text(name), Variable(name);
      }
    }

    /** The variables left after filtering for the key `t`; for a key they cannot all be empty, so the
        "no candidates" fallback that follows in the source is dead. */
    method Candidates(t: TypeId)
      returns (simpleMap: map<TypeId, seq<string>>, compoundMap: map<TypeId, seq<string>>,
               functionMap: map<TypeId, seq<string>>)
      requires Ready() && t in table
      ensures simpleMap.Keys == table[t].simple && compoundMap.Keys == table[t].structure
      ensures functionMap.Keys == table[t].call
      ensures simpleMap.Keys != {} ==> t in simpleMap && t in vars.simple && simpleMap[t] == vars.simple[t] != []
      ensures forall c :: c in compoundMap ==>
                c in vars.compound && compoundMap[c] == vars.compound[c] && Gives(env, c, t)
      ensures forall f :: f in functionMap ==> f in vars.functions && ReturnsType(env, f, t)
      ensures simpleMap.Keys != {} || compoundMap.Keys != {} || functionMap.Keys != {}
    {
      EntryIsVisible(env, vars, callable, table, t);
      simpleMap, compoundMap, functionMap := FilterAll(vars, table[t]);
      TableIsGrounded(env, vars, callable, table, t);
    }

    /** The weighted draw; nothing is drawn when the shifts leave no weight at all. */
    method DrawBucket(ghost t: TypeId, simples: set<TypeId>, compounds: set<TypeId>, functions: set<TypeId>, leaf: bool)
      returns (drawn: Option<Bucket>)
      requires hit.None? && t in table && |simples| == |table[t].simple| && |compounds| == |table[t].structure|
      requires |functions| == |table[t].call| && leaf == Leaf(env, t)
      modifies this`hit
      ensures (hit.Some? <==> drawn == Some(DisabledBucket)) && (hit.Some? ==> Disabled())
      ensures drawn.None? ==> simples == {} && compounds == {} && (functionGenCounter <= 2 ==> functions == {})
      ensures drawn == Some(FunctionBucket) ==> functions != {}
      ensures drawn == Some(StructureBucket) ==> compounds != {}
      ensures drawn == Some(SimpleBucket) ==> simples != {}
      ensures drawn == Some(DisabledBucket) ==> !leaf && genCounter <= 15
    {
      hide WeightsFor, Dispatch, Leaf;
      var w := WeightsFor(|simples|, |compounds|, |functions|, leaf, genCounter, functionGenCounter);
      if w.Total() == 0 {
        NothingWeighs(|simples|, |compounds|, |functions|, leaf, genCounter, functionGenCounter);
        return None;
      }
      var draw: nat :| draw < w.Total();
      if Dispatch(w, draw) == DisabledBucket {
        DisabledWeighs(|simples|, |compounds|, |functions|, leaf, genCounter, functionGenCounter, draw);
      }
      DispatchFindsCandidates(|simples|, |compounds|, |functions|, leaf, genCounter, functionGenCounter, draw);
      drawn := Some(Dispatch(w, draw));
      if drawn.value == DisabledBucket {
        hit := Some(Draw(t, genCounter, functionGenCounter, draw));
      }
    }

    /** function_call_gen_handler: a call of one of `functions` with an expression for each argument. */
    method FunctionCall(functions: set<TypeId>, ir: Option<Use>)
      returns (res: Outcome, ghost f: TypeId, ghost args: seq<Expr>)
      requires Ready() && hit.None? && genCounter >= 1 && WellParented(scopes)
      requires functions != {} && functions <= env.functions.Keys
      modifies this
      ensures Ready() && genCounter >= old(genCounter)
      ensures vars == old(vars) && table == old(table) && currentFixScope == old(currentFixScope)
      ensures f in functions
      ensures res.Text? ==> res.text == RenderCall(env, f, args) && ArgsFit(env, vars, args, env.functions[f].args)
      ensures res.Text? ==> exists texts :: SpellsCall(env, f, args, texts, res.text)
      ensures (res.Aborted? ==> hit.Some? || !PointerFree()) && (hit.Some? ==> res.Aborted? && Disabled())
      ensures LeafOnly() || old(genCounter) > 15 ==> hit.None?
      ensures res.Text? && genCounter <= 50 ==> HonestArgs(env, table, args, env.functions[f].args)
      decreases 51 - genCounter, 1
    {
      hide MapsFit, Satisfiables, ArgsFit, HonestArgs, Honest, Filled, RenderArgs, SpellsCall;
      NoArguments(env, vars, table, env.functions);
      var choice := AnyOf(functions);
      f, args := choice, [];
      var types := env.functions[choice].args;
      var text := env.functions[choice].name + "(";
      functionGenCounter := functionGenCounter + |types|;
      for k := 0 to |types|
        invariant Ready() && genCounter >= old(genCounter)
        invariant vars == old(vars) && table == old(table) && currentFixScope == old(currentFixScope)
        invariant |args| == k && ArgsFit(env, vars, args, types[..k]) && hit.None?
        invariant genCounter <= 50 ==> HonestArgs(env, table, args, types)
        invariant text == env.functions[choice].name + "(" + (if k == 0 then "" else RenderArgs(env, args) + ",")
      {
        var arg;
        ghost var a;
        arg, a := GenerateCore(types[k], ir);
        if arg.Aborted? {
          return Aborted, f, args;
        }
        OneMoreArgument(env, vars, args, a, types, k);
        HonestMore(env, table, args, a, types, k);
        text := text + arg.text + ",";
        args := args + [a];
      }
      assert types[..|types|] == types && |args| == |types|;
      text := CloseCall(text, env.functions[choice].name, RenderArgs(env, args), |types|);
      res := Text(text);
      CallSpells(env, vars, f, args);
    }

    /** structure_member_gen_handler: a variable of a compound that gives a `t`, followed by a member
        path to a `t`.  An empty path means that the compound is `t` itself: the assertion in the
        source holds for every compound chosen from the table. */
    method StructureMember(compoundMap: map<TypeId, seq<string>>, t: TypeId) returns (res: Outcome, ghost e: Expr)
      requires Ready() && hit.None? && genCounter >= 1 && WellParented(scopes) && compoundMap.Keys != {}
      requires forall c :: c in compoundMap ==>
                 c in vars.compound && compoundMap[c] == vars.compound[c] && Gives(env, c, t)
      modifies this
      ensures Ready() && genCounter >= old(genCounter)
      ensures vars == old(vars) && table == old(table) && currentFixScope == old(currentFixScope)
      ensures res.Text? ==> e.Access? && res.text == Render(env, e) && HasType(env, vars, e, t)
      ensures res.Text? && NamesNonEmpty(vars) ==> res.text != ""
      ensures (res.Aborted? ==> hit.Some? || !PointerFree()) && (hit.Some? ==> res.Aborted? && Disabled())
      ensures LeafOnly() || old(genCounter) > 15 ==> hit.None?
      ensures res.Text? && genCounter <= 50 ==> Honest(env, table, e)
      decreases 51 - genCounter, 4
    {
      var c := AnyOf(compoundMap.Keys);
      var base := PickName(compoundMap[c]);
      ghost var path;
      res, path := GetClassMemberByType(c, t);
      e := Access(base, c, path);
      if res.Text? {
        if res.text == "" {
          if t in ObtainableTypes(env, c) {
            ObtainableHasMember(env, c, t);
          }
          assert t == c;
        }
        res := Text(base + res.text);
      }
    }

    /** get_class_member_by_type: the lookup succeeds exactly when a compound reachable from `c` has a
        member of type `target` or a method that returns one, and the path it writes type-checks. */
    method GetClassMemberByType(c: TypeId, target: TypeId) returns (res: Outcome, ghost path: seq<Step>)
      requires Ready() && hit.None? && genCounter >= 1 && WellParented(scopes) && c in env.compounds
      modifies this
      ensures Ready() && genCounter >= old(genCounter)
      ensures vars == old(vars) && table == old(table) && currentFixScope == old(currentFixScope)
      ensures res.Text? ==> res.text == RenderPath(env, path)
      ensures res.Text? ==> (res.text != "" <==> SomeSolves(env, ReachableFrom(env, c), target))
      ensures res.Text? && res.text != "" ==> PathFits(env, vars, c, path, target) && SpellsPath(env, path, res.text)
      ensures (res.Aborted? ==> hit.Some? || !PointerFree()) && (hit.Some? ==> res.Aborted? && Disabled())
      ensures LeafOnly() || old(genCounter) > 15 ==> hit.None?
      ensures res.Text? && genCounter <= 50 ==> HonestPath(env, table, path)
      decreases 51 - genCounter, 3
    {
      var visited;
      res, visited, path := FindMember(c, target, {});
      if res.Text? {
        ExploredFromNothing(env, c, visited);
        assert visited - {} == visited;
        if path != [] {
          PathSpells(env, vars, c, path, target);
        }
      }
    }

    /** get_class_member_by_type_no_duplicate, with the visited set shared by the whole search. */
    method FindMember(c: TypeId, target: TypeId, visit: set<TypeId>)
      returns (res: Outcome, visited: set<TypeId>, ghost path: seq<Step>)
      requires Ready() && hit.None? && genCounter >= 1 && WellParented(scopes)
      requires c in env.compounds && c !in visit && visit <= env.compounds.Keys
      modifies this
      ensures Ready() && genCounter >= old(genCounter)
      ensures vars == old(vars) && table == old(table) && currentFixScope == old(currentFixScope)
      ensures res.Text? ==> Explored(env, c, visit, visited)
      ensures res.Text? ==> res.text == RenderPath(env, path)
      ensures res.Text? ==> (path != [] <==> SomeSolves(env, visited - visit, target))
      ensures res.Text? && path != [] ==> FoundPath(env, vars, res.text, c, path, target)
      ensures (res.Aborted? ==> hit.Some? || !PointerFree()) && (hit.Some? ==> res.Aborted? && Disabled())
      ensures LeafOnly() || old(genCounter) > 15 ==> hit.None?
      ensures res.Text? && genCounter <= 50 ==> HonestPath(env, table, path)
      decreases 51 - genCounter, 2, env.compounds.Keys - visit, 1
    {
      var allSol: seq<string>, funcSol: seq<TypeId>;
      ghost var paths: seq<seq<Step>>;
      res, allSol, funcSol, visited, paths := ScanMembers(c, target, visit);
      path := [];
      if res.Aborted? {
        return;
      }
      var fromCalls: bool :| (funcSol == [] ==> !fromCalls) && (allSol == [] && funcSol != [] ==> fromCalls);
      if fromCalls {
        var k: nat :| k < |funcSol|;
        var f := funcSol[k];
        ghost var g, args;
        res, g, args := FunctionCall({f}, None);
        if res.Text? {
          path := [Method(f, args)];
          MethodPath(env, vars, c, f, args);
          res := Text(MEMBER + res.text);
        }
      } else if allSol != [] {
        var k: nat :| k < |allSol|;
        path := paths[k];
        res := Text(allSol[k]);
      } else {
        res := Text("");
      }
    }

    /** The loops that gather the candidate paths: fields, paths through unvisited compounds, and the
        methods that return the target. */
    method ScanMembers(c: TypeId, target: TypeId, visit: set<TypeId>)
      returns (res: Outcome, allSol: seq<string>, funcSol: seq<TypeId>, visited: set<TypeId>,
               ghost paths: seq<seq<Step>>)
      requires Ready() && hit.None? && genCounter >= 1 && WellParented(scopes)
      requires c in env.compounds && c !in visit && visit <= env.compounds.Keys
      modifies this
      ensures Ready() && genCounter >= old(genCounter)
      ensures vars == old(vars) && table == old(table) && currentFixScope == old(currentFixScope)
      ensures res.Text? ==> Explored(env, c, visit, visited)
      ensures res.Text? ==> (allSol != [] || funcSol != [] <==> SomeSolves(env, visited - visit, target))
      ensures Candidate(env, vars, c, target, allSol, paths, funcSol)
      ensures (res.Aborted? ==> hit.Some? || !PointerFree()) && (hit.Some? ==> res.Aborted? && Disabled())
      ensures LeafOnly() || old(genCounter) > 15 ==> hit.None?
      ensures res.Text? && genCounter <= 50 ==> HonestPaths(env, table, paths)
      decreases 51 - genCounter, 2, env.compounds.Keys - visit, 0
    {
      hide MapsFit, Satisfiables, WellParented, HonestPaths, Candidate;
      res, funcSol := Text(""), [];
      visited := visit + {c};
      StartExploring(env, c, visit);
      allSol, paths := DirectField(c, target);
      var todo := env.compounds[c].Keys;
      assert env.compounds[c].Keys - todo == {};
      SolvedAtStart(env, c, target, visit);
      while todo != {}
        invariant Ready() && genCounter >= old(genCounter)
        invariant vars == old(vars) && table == old(table) && currentFixScope == old(currentFixScope)
        invariant todo <= env.compounds[c].Keys && res.Text? && hit.None?
        invariant genCounter <= 50 ==> HonestPaths(env, table, paths)
        invariant Exploring(env, c, env.compounds[c].Keys - todo, visit, visited)
        invariant Candidate(env, vars, c, target, allSol, paths, funcSol)
        invariant (allSol != [] || funcSol != [])
          <==> SolvedSoFar(env, c, target, env.compounds[c].Keys - todo, visit, visited)
        decreases todo
      {
        var m := AnyOf(todo);
        ghost var done := env.compounds[c].Keys - todo;
        todo := todo - {m};
        assert env.compounds[c].Keys - todo == done + {m};
        var newSol, newFunc;
        ghost var newPaths;
        res, newSol, newFunc, visited, newPaths := ScanMember(c, target, m, done, visit, visited);
        if res.Aborted? {
          return;
        }
        CandidateConcat(env, vars, c, target, allSol, paths, funcSol, newSol, newPaths, newFunc);
        HonestConcat(env, table, paths, newPaths);
        allSol, funcSol, paths := allSol + newSol, funcSol + newFunc, paths + newPaths;
      }
      assert env.compounds[c].Keys - todo == env.compounds[c].Keys;
      FinishExploring(env, c, visit, visited);
      SolvedAtEnd(env, c, target, visit, visited);
    }

    /** The first loop: a member of the target type itself. */
    method DirectField(c: TypeId, target: TypeId) returns (sols: seq<string>, ghost paths: seq<seq<Step>>)
      requires env.WellFormed() && c in env.compounds
      ensures Candidate(env, vars, c, target, sols, paths, []) && HonestPaths(env, table, paths)
      ensures sols != [] <==> target in env.compounds[c]
    {
      sols, paths := [], [];
      if target in env.compounds[c] {
        var name := PickName(env.compounds[c][target]);
        FieldPath(env, vars, c, target, name, [], target);
        sols, paths := [MEMBER + name], [[Field(name, target)]];
      }
    }

    /** One member of the second loop: a compound not yet visited is searched, a method is a candidate
        by its own type or by what it returns. */
    method ScanMember(c: TypeId, target: TypeId, m: TypeId, ghost done: set<TypeId>, ghost visit: set<TypeId>,
                      seen: set<TypeId>)
      returns (res: Outcome, sols: seq<string>, funcs: seq<TypeId>, visited: set<TypeId>, ghost paths: seq<seq<Step>>)
      requires Ready() && hit.None? && genCounter >= 1 && WellParented(scopes)
      requires c in env.compounds && m in env.compounds[c]
      requires Exploring(env, c, done, visit, seen)
      modifies this
      ensures Ready() && genCounter >= old(genCounter)
      ensures vars == old(vars) && table == old(table) && currentFixScope == old(currentFixScope)
      ensures res.Text? ==> Exploring(env, c, done + {m}, visit, visited)
      ensures Candidate(env, vars, c, target, sols, paths, funcs)
      ensures res.Text? ==> ((sols != [] || funcs != [] || SolvedSoFar(env, c, target, done, visit, seen))
                             <==> SolvedSoFar(env, c, target, done + {m}, visit, visited))
      ensures (res.Aborted? ==> hit.Some? || !PointerFree()) && (hit.Some? ==> res.Aborted? && Disabled())
      ensures LeafOnly() || old(genCounter) > 15 ==> hit.None?
      ensures res.Text? && genCounter <= 50 ==> HonestPaths(env, table, paths)
      decreases 51 - genCounter, 2, env.compounds.Keys - seen, 2
    {
      res, sols, funcs, visited, paths := Text(""), [], [], seen, [];
      SomeReturnAdd(env, done, m, target);
      if m in env.compounds {
        if m in seen {
          ExploreOther(env, c, done, m, visit, seen);
        } else {
          var sub;
          ghost var subPath;
          sub, visited, subPath := FindMember(m, target, seen);
          if sub.Aborted? {
            res := Aborted;
            return;
          }
          ExploreMember(env, c, done, m, visit, seen, visited);
          SomeSolvesSplit(env, visited - visit - {c}, seen - visit - {c}, visited - seen, target);
          if sub.text != "" {
            var name := PickName(env.compounds[c][m]);
            FieldPath(env, vars, c, m, name, subPath, target);
            sols, paths := [MEMBER + name + sub.text], [[Field(name, m)] + subPath];
          }
        }
      } else {
        if m in env.functions {
          if m == target {
            var name := PickName(env.compounds[c][m]);
            FieldPath(env, vars, c, m, name, [], target);
            sols, paths := [MEMBER + name], [[Field(name, m)]];
          } else if env.functions[m].ret == target {
            funcs := [m];
          }
        }
        ExploreOther(env, c, done, m, visit, seen);
      }
    }
  }
}
