/** Which functions can be called and which types can be produced from the visible variables
    (calc_satisfiable_functions and collect_satisfiable_types in srcs/internal/srcs/typesystem.cpp). */
module Satisfiable {
  import opened Common
  import opened IrTree
  import opened TypeGraph
  import opened Visibility

  // ---------------------------------------------------------------------------------------------
  // Specification: the least set of callable functions
  // ---------------------------------------------------------------------------------------------

  function Args(env: TypeEnv, f: TypeId): set<TypeId>
    requires f in env.functions
  {
    Elements(env.functions[f].args)
  }

  function Returns(env: TypeEnv, fs: set<TypeId>): set<TypeId> {
    set f | f in fs && f in env.functions :: env.functions[f].ret
  }

  /** `f` can be called once `types` can be produced. */
  predicate Callable(env: TypeEnv, f: TypeId, types: set<TypeId>) {
    f in env.functions && Args(env, f) <= types
  }

  /** No function of `fs` that is callable from `avail` and the results of `s` is missing from `s`. */
  ghost predicate Closed(env: TypeEnv, fs: set<TypeId>, avail: set<TypeId>, s: set<TypeId>) {
    forall f :: f in fs && Callable(env, f, avail + Returns(env, s)) ==> f in s
  }

  /** Each function is callable from `avail` and the results of the functions before it. */
  ghost predicate IsDerivation(env: TypeEnv, avail: set<TypeId>, order: seq<TypeId>) {
    forall i :: 0 <= i < |order| ==>
      Callable(env, order[i], avail + Returns(env, Elements(order[..i])))
  }

  ghost predicate Derives(env: TypeEnv, avail: set<TypeId>, order: seq<TypeId>, s: set<TypeId>) {
    IsDerivation(env, avail, order) && Elements(order) == s
  }

  /** Every member of `s` has a well-founded derivation. */
  ghost predicate Grounded(env: TypeEnv, avail: set<TypeId>, s: set<TypeId>) {
    exists order :: Derives(env, avail, order, s)
  }

  ghost predicate IsLeast(env: TypeEnv, fs: set<TypeId>, avail: set<TypeId>, s: set<TypeId>) {
    s <= fs && Closed(env, fs, avail, s) && Grounded(env, avail, s)
  }

  lemma {:induction false} DerivationStaysInside(env: TypeEnv, fs: set<TypeId>, avail: set<TypeId>,
                                                 order: seq<TypeId>, s: set<TypeId>)
    requires IsDerivation(env, avail, order) && Elements(order) <= fs && Closed(env, fs, avail, s)
    ensures Elements(order) <= s
  {
    if order != [] {
      var front := order[..|order| - 1];
      forall i | 0 <= i < |front|
        ensures Callable(env, front[i], avail + Returns(env, Elements(front[..i])))
      {
        assert front[..i] == order[..i] && front[i] == order[i];
      }
      assert Elements(front) <= Elements(order);
      DerivationStaysInside(env, fs, avail, front, s);
      var last := order[|order| - 1];
      assert Callable(env, last, avail + Returns(env, Elements(front)));
      assert last in Elements(order);
      assert Callable(env, last, avail + Returns(env, s));
      assert order == front + [last];
    }
  }

  /** The least set is below every closed set, so it is unique: the order in which the loop meets
      the functions cannot matter. */
  lemma LeastIsLeast(env: TypeEnv, fs: set<TypeId>, avail: set<TypeId>, s: set<TypeId>, closed: set<TypeId>)
    requires IsLeast(env, fs, avail, s) && Closed(env, fs, avail, closed)
    ensures s <= closed
    ensures IsLeast(env, fs, avail, closed) ==> s == closed
  {
    var order :| Derives(env, avail, order, s);
    DerivationStaysInside(env, fs, avail, order, closed);
    if IsLeast(env, fs, avail, closed) {
      var order' :| Derives(env, avail, order', closed);
      DerivationStaysInside(env, fs, avail, order', s);
    }
  }

  // ---------------------------------------------------------------------------------------------
  // calc_satisfiable_functions
  // ---------------------------------------------------------------------------------------------

  lemma ElementsAdd<T>(s: seq<T>, x: T)
    ensures Elements(s + [x]) == Elements(s) + {x}
  {
  }

  lemma ReturnsAdd(env: TypeEnv, fs: set<TypeId>, f: TypeId)
    requires f in env.functions
    ensures Returns(env, fs + {f}) == Returns(env, fs) + {env.functions[f].ret}
  {
  }

  lemma ExtendDerivation(env: TypeEnv, avail: set<TypeId>, order: seq<TypeId>, f: TypeId)
    requires IsDerivation(env, avail, order)
    requires Callable(env, f, avail + Returns(env, Elements(order)))
    ensures IsDerivation(env, avail, order + [f])
    ensures Elements(order + [f]) == Elements(order) + {f}
    ensures Returns(env, Elements(order + [f])) == Returns(env, Elements(order)) + {env.functions[f].ret}
  {
    hide Elements, Returns, Callable;
    var longer := order + [f];
    ElementsAdd(order, f);
    assert f in env.functions by {
      CallableExists(env, f, avail + Returns(env, Elements(order)));
    }
    ReturnsAdd(env, Elements(order), f);
    forall i | 0 <= i < |longer|
      ensures Callable(env, longer[i], avail + Returns(env, Elements(longer[..i])))
    {
      if i < |order| {
        assert longer[..i] == order[..i];
      } else {
        assert longer[..i] == order;
      }
    }
  }

  lemma CallableExists(env: TypeEnv, f: TypeId, types: set<TypeId>)
    requires Callable(env, f, types)
    ensures f in env.functions
  {
  }

  // ---------------------------------------------------------------------------------------------
  // The same by argument positions
  // ---------------------------------------------------------------------------------------------

  /** A value of type `a` is at hand before call `k`: it is available, or an earlier call returns it. */
  ghost predicate Supplied(env: TypeEnv, avail: set<TypeId>, order: seq<TypeId>, k: nat, a: TypeId)
    requires k <= |order|
  {
    a in avail || exists j :: 0 <= j < k && order[j] in env.functions && env.functions[order[j]].ret == a
  }

  /** The functions can be called one after the other. */
  ghost predicate CallOrder(env: TypeEnv, fs: set<TypeId>, avail: set<TypeId>, order: seq<TypeId>) {
    forall k :: 0 <= k < |order| ==>
      && order[k] in fs && order[k] in env.functions
      && forall i :: 0 <= i < |env.functions[order[k]].args| ==>
           Supplied(env, avail, order, k, env.functions[order[k]].args[i])
  }

  ghost predicate CanBeCalled(env: TypeEnv, fs: set<TypeId>, avail: set<TypeId>, f: TypeId) {
    exists order :: CallOrder(env, fs, avail, order) && f in order
  }

  lemma SuppliedIff(env: TypeEnv, avail: set<TypeId>, order: seq<TypeId>, k: nat, a: TypeId)
    requires k <= |order|
    ensures Supplied(env, avail, order, k, a) <==> a in avail + Returns(env, Elements(order[..k]))
  {
    if j :| 0 <= j < k && order[j] in env.functions && env.functions[order[j]].ret == a {
      assert order[..k][j] in Elements(order[..k]);
    }
    if a in Returns(env, Elements(order[..k])) {
      var g :| g in Elements(order[..k]) && g in env.functions && env.functions[g].ret == a;
      var j :| 0 <= j < k && order[..k][j] == g;
      assert order[j] == g;
    }
  }

  lemma CallableIff(env: TypeEnv, avail: set<TypeId>, order: seq<TypeId>, k: nat, f: TypeId)
    requires k <= |order|
    ensures Callable(env, f, avail + Returns(env, Elements(order[..k])))
      <==> f in env.functions && forall i :: 0 <= i < |env.functions[f].args| ==>
             Supplied(env, avail, order, k, env.functions[f].args[i])
  {
    hide Supplied, Returns;
    forall a
      ensures Supplied(env, avail, order, k, a) <==> a in avail + Returns(env, Elements(order[..k]))
    {
      SuppliedIff(env, avail, order, k, a);
    }
    if f in env.functions {
      var args := env.functions[f].args;
      assert forall i :: 0 <= i < |args| ==> args[i] in Args(env, f);
      assert forall a :: a in Args(env, f) ==> exists i :: 0 <= i < |args| && args[i] == a;
    }
  }

  lemma OrderIff(env: TypeEnv, fs: set<TypeId>, avail: set<TypeId>, order: seq<TypeId>)
    ensures CallOrder(env, fs, avail, order) <==> IsDerivation(env, avail, order) && Elements(order) <= fs
  {
    hide Callable, Supplied, Returns;
    forall k | 0 <= k < |order|
      ensures Callable(env, order[k], avail + Returns(env, Elements(order[..k])))
        <==> order[k] in env.functions && forall i :: 0 <= i < |env.functions[order[k]].args| ==>
               Supplied(env, avail, order, k, env.functions[order[k]].args[i])
    {
      CallableIff(env, avail, order, k, order[k]);
    }
    assert forall k :: 0 <= k < |order| ==> order[k] in Elements(order);
  }

  /** The least set holds exactly the functions that can be called one after the other, each argument being available
      or returned by an earlier call. */
  lemma LeastIff(env: TypeEnv, fs: set<TypeId>, avail: set<TypeId>, s: set<TypeId>, f: TypeId)
    requires IsLeast(env, fs, avail, s)
    ensures f in s <==> CanBeCalled(env, fs, avail, f)
  {
    hide IsDerivation, CallOrder, Closed;
    if f in s {
      var order :| Derives(env, avail, order, s);
      OrderIff(env, fs, avail, order);
    }
    if order :| CallOrder(env, fs, avail, order) && f in order {
      OrderIff(env, fs, avail, order);
      DerivationStaysInside(env, fs, avail, order, s);
    }
  }

  /** In particular a function with all argument types available, or without arguments, is in the least set. */
  lemma AtOnceIsLeast(env: TypeEnv, fs: set<TypeId>, avail: set<TypeId>, s: set<TypeId>, f: TypeId)
    requires IsLeast(env, fs, avail, s) && f in fs && f in env.functions
    requires forall i :: 0 <= i < |env.functions[f].args| ==> env.functions[f].args[i] in avail
    ensures f in s
  {
    assert CallOrder(env, fs, avail, [f]);
    LeastIff(env, fs, avail, s, f);
  }

  // ---------------------------------------------------------------------------------------------
  // calc_satisfiable_functions
  // ---------------------------------------------------------------------------------------------

  /** The loop's state: `order` derives the functions taken out of `funcMap` so far, and `types` are
      the types that can be produced with them. */
  ghost predicate Progress(env: TypeEnv, all: set<TypeId>, avail: set<TypeId>, order: seq<TypeId>,
                           funcMap: map<TypeId, set<TypeId>>, types: set<TypeId>) {
    && (forall f :: f in funcMap ==> f in env.functions && funcMap[f] == Args(env, f))
    && IsDerivation(env, avail, order) && types == avail + Returns(env, Elements(order))
    && Elements(order) == all - funcMap.Keys && funcMap.Keys <= all
  }

  lemma TakeOut(env: TypeEnv, all: set<TypeId>, avail: set<TypeId>, order: seq<TypeId>,
                funcMap: map<TypeId, set<TypeId>>, types: set<TypeId>, f: TypeId)
    requires Progress(env, all, avail, order, funcMap, types)
    requires f in funcMap && funcMap[f] - types == {}
    ensures Progress(env, all, avail, order + [f], funcMap - {f}, types + {env.functions[f].ret})
  {
    hide IsDerivation, Elements, Returns;
    NothingMissing(funcMap[f], types);
    assert Callable(env, f, types);
    ExtendDerivation(env, avail, order, f);
    var ret := env.functions[f].ret;
    assert avail + (Returns(env, Elements(order)) + {ret}) == types + {ret};
    assert (funcMap - {f}).Keys == funcMap.Keys - {f};
    Without(all, funcMap.Keys, f);
  }

  lemma Without(all: set<TypeId>, some: set<TypeId>, f: TypeId)
    requires f in some && some <= all
    ensures all - (some - {f}) == (all - some) + {f}
  {
  }

  /** One pass of the do/while body: takes out the functions that become callable. */
  method Sweep(env: TypeEnv, funcMap: map<TypeId, set<TypeId>>, types: set<TypeId>,
               ghost all: set<TypeId>, ghost avail: set<TypeId>, ghost order: seq<TypeId>)
    returns (rest: map<TypeId, set<TypeId>>, known: set<TypeId>, isChange: bool, ghost longer: seq<TypeId>)
    requires Progress(env, all, avail, order, funcMap, types)
    ensures Progress(env, all, avail, longer, rest, known)
    ensures isChange ==> rest.Keys < funcMap.Keys
    ensures !isChange ==> rest.Keys == funcMap.Keys && forall f :: f in rest ==> !Callable(env, f, known)
  {
    rest, known, isChange, longer := funcMap, types, false, order;
    var todo := funcMap.Keys;
    while todo != {}
      invariant todo <= rest.Keys <= funcMap.Keys
      invariant Progress(env, all, avail, longer, rest, known)
      invariant isChange ==> rest.Keys < funcMap.Keys
      invariant !isChange ==> rest.Keys == funcMap.Keys
      invariant !isChange ==> forall f :: f in rest && f !in todo ==> !Callable(env, f, known)
      decreases todo
    {
      var f := AnyOf(todo);
      todo := todo - {f};
      if rest[f] - known == {} {
        TakeOut(env, all, avail, longer, rest, known, f);
        assert (rest - {f}).Keys == rest.Keys - {f};
        isChange, rest, known, longer := true, rest - {f}, known + {env.functions[f].ret}, longer + [f];
      } else {
        assert !(Args(env, f) <= known);
      }
    }
  }

  /** The loop terminates with exactly the least set of callable functions. */
  method CalcSatisfiableFunctions(env: TypeEnv, functionTypes: set<TypeId>, available: set<TypeId>)
    returns (res: set<TypeId>)
    requires functionTypes <= env.functions.Keys
    ensures IsLeast(env, functionTypes, available, res)
    ensures forall f :: f in res <==> CanBeCalled(env, functionTypes, available, f)
  {
    hide CanBeCalled;
    var funcMap := map f | f in functionTypes :: Args(env, f);
    var types := available;
    var isChange := true;
    ghost var order: seq<TypeId> := [];
    assert funcMap.Keys == functionTypes;
    while isChange
      invariant Progress(env, functionTypes, available, order, funcMap, types)
      invariant !isChange ==> forall f :: f in funcMap ==> !Callable(env, f, types)
      decreases funcMap.Keys, isChange
    {
      funcMap, types, isChange, order := Sweep(env, funcMap, types, functionTypes, available, order);
    }
    res := functionTypes - funcMap.Keys;
    assert Derives(env, available, order, res);
    forall f
      ensures f in res <==> CanBeCalled(env, functionTypes, available, f)
    {
      LeastIff(env, functionTypes, available, res, f);
    }
  }

  // ---------------------------------------------------------------------------------------------
  // collect_satisfiable_types
  // ---------------------------------------------------------------------------------------------

  /** The handler sets of one type (SIMPLE_VAR_IDX, STRUCTURE_IDX, FUNCTION_CALL_IDX). */
  datatype Handlers = Handlers(simple: set<TypeId>, structure: set<TypeId>, call: set<TypeId>)

  type Table = map<TypeId, Handlers>

  /** What `collect_all_var_definition_by_type` guarantees of its maps. */
  ghost predicate MapsFit(env: TypeEnv, vars: VarMaps) {
    && vars.compound.Keys <= env.compounds.Keys
    && vars.functions.Keys <= env.functions.Keys
    && (forall t :: t in vars.simple ==> vars.simple[t] != [])
    && (forall t :: t in vars.compound ==> vars.compound[t] != [])
    && (forall t :: t in vars.functions ==> vars.functions[t] != [])
  }

  lemma CollectedMapsFit(env: TypeEnv, vars: VarMaps, scopes: Scopes, ids: seq<ScopeId>, use: nat)
    requires Collected(env, vars, scopes, ids, use)
    ensures MapsFit(env, vars)
  {
    forall t | t in vars.compound
      ensures t in env.compounds
    {
      assert OfKind(env, {CompoundKind})(t);
    }
    forall t | t in vars.functions
      ensures t in env.functions
    {
      assert OfKind(env, {FunctionKind})(t);
    }
  }

  /** A variable of compound type `c` gives a `t`: itself, or something obtainable from it. */
  ghost predicate Gives(env: TypeEnv, c: TypeId, t: TypeId) {
    c == t || t in ObtainableTypes(env, c)
  }

  /** The types counted as available before any function is called: note that the type of a compound
      variable itself is not among them. */
  ghost function Available(env: TypeEnv, vars: VarMaps): set<TypeId> {
    vars.simple.Keys + ObtainableFromAny(env, vars.compound.Keys)
  }

  ghost function ObtainableFromAny(env: TypeEnv, cs: set<TypeId>): set<TypeId> {
    set c, t | c in cs && t in ObtainableTypes(env, c) :: t
  }

  predicate ReturnsType(env: TypeEnv, f: TypeId, t: TypeId) {
    f in env.functions && env.functions[f].ret == t
  }

  function EntryOf(table: Table, t: TypeId): Handlers {
    if t in table then table[t] else Handlers({}, {}, {})
  }

  /** The table holds exactly: simple variables `simples`, what the compounds `cs` give, and the
      functions `fs` under their return types; and a type is a key only if something handles it. */
  ghost predicate Records(env: TypeEnv, simples: set<TypeId>, cs: set<TypeId>, fs: set<TypeId>, table: Table) {
    && (forall t :: t in table ==> table[t] != Handlers({}, {}, {}))
    && (forall t :: EntryOf(table, t).simple == if t in simples then {t} else {})
    && (forall t, c :: c in EntryOf(table, t).structure <==> c in cs && Gives(env, c, t))
    && (forall t, f :: f in EntryOf(table, t).call <==> f in fs && ReturnsType(env, f, t))
  }

  ghost predicate Satisfiables(env: TypeEnv, vars: VarMaps, callable: set<TypeId>, table: Table) {
    && IsLeast(env, vars.functions.Keys, Available(env, vars), callable)
    && Records(env, vars.simple.Keys, vars.compound.Keys, callable, table)
  }

  /** The table with the entry of `t` replaced. */
  function Put(table: Table, t: TypeId, h: Handlers): (r: Table)
    ensures forall u :: EntryOf(r, u) == if u == t then h else EntryOf(table, u)
  {
    table[t := h]
  }

  function AddStructure(table: Table, t: TypeId, c: TypeId): Table {
    Put(table, t, EntryOf(table, t).(structure := EntryOf(table, t).structure + {c}))
  }

  lemma SimpleRecorded(env: TypeEnv, simples: set<TypeId>, table: Table, t: TypeId, r: Table)
    requires Records(env, simples, {}, {}, table)
    requires r == Put(table, t, EntryOf(table, t).(simple := EntryOf(table, t).simple + {t}))
    ensures Records(env, simples + {t}, {}, {}, r)
  {
    forall u
      ensures EntryOf(r, u).simple == if u in simples + {t} then {u} else {}
    {
      assert EntryOf(table, u).simple == if u in simples then {u} else {};
    }
  }

  /** The loop over the simple variables. */
  method EnterSimple(env: TypeEnv, simples: set<TypeId>) returns (table: Table)
    ensures Records(env, simples, {}, {}, table)
  {
    table := map[];
    var todo := simples;
    while todo != {}
      invariant todo <= simples
      invariant Records(env, simples - todo, {}, {}, table)
      decreases todo
    {
      var t := AnyOf(todo);
      ghost var done, before := simples - todo, table;
      todo := todo - {t};
      assert simples - todo == done + {t};
      var e := EntryOf(table, t);
      table := Put(table, t, e.(simple := e.simple + {t}));
      SimpleRecorded(env, done, before, t, table);
    }
    assert simples - todo == simples;
  }

  /** The inner loop over the types obtainable from the compound `c`. */
  method EnterMembers(table: Table, c: TypeId, members: set<TypeId>) returns (r: Table)
    requires forall t :: t in table ==> table[t] != Handlers({}, {}, {})
    ensures forall t :: t in r ==> r[t] != Handlers({}, {}, {})
    ensures forall t :: EntryOf(r, t).simple == EntryOf(table, t).simple
    ensures forall t :: EntryOf(r, t).call == EntryOf(table, t).call
    ensures forall t, x :: x in EntryOf(r, t).structure
                <==> x in EntryOf(table, t).structure || (x == c && t in members)
  {
    r := table;
    var todo := members;
    while todo != {}
      invariant todo <= members
      invariant forall t :: t in r ==> r[t] != Handlers({}, {}, {})
      invariant forall t :: EntryOf(r, t).simple == EntryOf(table, t).simple
      invariant forall t :: EntryOf(r, t).call == EntryOf(table, t).call
      invariant forall t, x :: x in EntryOf(r, t).structure
                  <==> x in EntryOf(table, t).structure || (x == c && t in members - todo)
      decreases todo
    {
      var t := AnyOf(todo);
      todo := todo - {t};
      r := AddStructure(r, t, c);
    }
  }

  /** One compound variable type: itself and everything obtainable from it. */
  method EnterCompound(env: TypeEnv, simples: set<TypeId>, ghost cs: set<TypeId>, c: TypeId, table: Table)
    returns (r: Table, members: set<TypeId>)
    requires c in env.compounds && Records(env, simples, cs, {}, table)
    ensures Records(env, simples, cs + {c}, {}, r)
    ensures members == ObtainableTypes(env, c)
  {
    members := GetAllTypesFromCompoundType(env, c);
    r := EnterMembers(AddStructure(table, c, c), c, members);
  }

  /** The loop over the compound variables; `found` are the member types it makes available. */
  method EnterCompounds(env: TypeEnv, simples: set<TypeId>, cs: set<TypeId>, table: Table)
    returns (r: Table, found: set<TypeId>)
    requires cs <= env.compounds.Keys && Records(env, simples, {}, {}, table)
    ensures Records(env, simples, cs, {}, r)
    ensures found == ObtainableFromAny(env, cs)
  {
    r, found := table, {};
    var todo := cs;
    assert cs - todo == {};
    while todo != {}
      invariant todo <= cs
      invariant Records(env, simples, cs - todo, {}, r)
      invariant found == ObtainableFromAny(env, cs - todo)
      decreases todo
    {
      var c := AnyOf(todo);
      ghost var done := cs - todo;
      todo := todo - {c};
      assert cs - todo == done + {c};
      var members;
      r, members := EnterCompound(env, simples, done, c, r);
      found := found + members;
    }
    assert cs - todo == cs;
  }

  lemma CallRecorded(env: TypeEnv, simples: set<TypeId>, cs: set<TypeId>, fs: set<TypeId>, table: Table,
                     f: TypeId, r: Table)
    requires f in env.functions && Records(env, simples, cs, fs, table)
    requires var t := env.functions[f].ret;
      r == Put(table, t, EntryOf(table, t).(call := EntryOf(table, t).call + {f}))
    ensures Records(env, simples, cs, fs + {f}, r)
  {
    var ret := env.functions[f].ret;
    forall t, g
      ensures g in EntryOf(r, t).call <==> g in fs + {f} && ReturnsType(env, g, t)
    {
      assert g in EntryOf(table, t).call <==> g in fs && ReturnsType(env, g, t);
    }
  }

  /** The loop over the callable functions. */
  method EnterCalls(env: TypeEnv, simples: set<TypeId>, cs: set<TypeId>, fs: set<TypeId>, table: Table)
    returns (r: Table)
    requires fs <= env.functions.Keys && Records(env, simples, cs, {}, table)
    ensures Records(env, simples, cs, fs, r)
  {
    r := table;
    var todo := fs;
    assert fs - todo == {};
    while todo != {}
      invariant todo <= fs
      invariant Records(env, simples, cs, fs - todo, r)
      decreases todo
    {
      var f := AnyOf(todo);
      ghost var done, before := fs - todo, r;
      todo := todo - {f};
      assert fs - todo == done + {f};
      var t := env.functions[f].ret;
      var e := EntryOf(r, t);
      r := Put(r, t, e.(call := e.call + {f}));
      CallRecorded(env, simples, cs, done, before, f, r);
    }
    assert fs - todo == fs;
  }

  /** The table records exactly the simple variables, the compounds with everything obtainable from
      them, and the functions of the least callable set under their return types. */
  method CollectSatisfiableTypes(env: TypeEnv, vars: VarMaps) returns (table: Table, ghost callable: set<TypeId>)
    requires MapsFit(env, vars)
    ensures Satisfiables(env, vars, callable, table)
    ensures forall t :: t in table ==> table[t].structure <= vars.compound.Keys && table[t].call <= vars.functions.Keys
  {
    var simples, cs := vars.simple.Keys, vars.compound.Keys;
    table := EnterSimple(env, simples);
    var found;
    table, found := EnterCompounds(env, simples, cs, table);
    var fs := CalcSatisfiableFunctions(env, vars.functions.Keys, simples + found);
    table := EnterCalls(env, simples, cs, fs, table);
    callable := fs;
    forall t | t in table
      ensures table[t].structure <= vars.compound.Keys && table[t].call <= vars.functions.Keys
    {
      EntryIsVisible(env, vars, callable, table, t);
    }
  }

  // ---------------------------------------------------------------------------------------------
  // What the table guarantees
  // ---------------------------------------------------------------------------------------------

  /** filter_element: the variables whose type is in `allowed`. */
  method FilterElement(vars: map<TypeId, seq<string>>, allowed: set<TypeId>)
    returns (filtered: map<TypeId, seq<string>>)
    ensures filtered.Keys == vars.Keys * allowed
    ensures forall t :: t in filtered ==> filtered[t] == vars[t]
  {
    filtered := map[];
    var todo := allowed;
    while todo != {}
      invariant todo <= allowed
      invariant filtered.Keys == vars.Keys * (allowed - todo)
      invariant forall t :: t in filtered ==> filtered[t] == vars[t]
      decreases todo
    {
      var t := AnyOf(todo);
      todo := todo - {t};
      if t in vars {
        filtered := filtered[t := vars[t]];
      }
    }
  }

  lemma StructureIff(env: TypeEnv, simples: set<TypeId>, cs: set<TypeId>, fs: set<TypeId>, table: Table, t: TypeId)
    requires Records(env, simples, cs, fs, table)
    ensures EntryOf(table, t).structure != {} <==> t in cs || t in ObtainableFromAny(env, cs)
  {
    var structure := EntryOf(table, t).structure;
    if structure != {} {
      var c :| c in structure;
      assert c in cs && Gives(env, c, t);
    }
    if t in cs {
      assert t in structure;
    } else if t in ObtainableFromAny(env, cs) {
      var c :| c in cs && t in ObtainableTypes(env, c);
      assert c in structure;
    }
  }

  lemma CallIff(env: TypeEnv, simples: set<TypeId>, cs: set<TypeId>, fs: set<TypeId>, table: Table, t: TypeId)
    requires Records(env, simples, cs, fs, table)
    ensures EntryOf(table, t).call != {} <==> t in Returns(env, fs)
  {
    var call := EntryOf(table, t).call;
    if call != {} {
      var f :| f in call;
      assert f in fs && ReturnsType(env, f, t);
    }
    if t in Returns(env, fs) {
      var f :| f in fs && f in env.functions && env.functions[f].ret == t;
      assert f in call;
    }
  }

  /** The keys are exactly the available types, the compound variables' own types and the return
      types of the callable functions. */
  lemma TableKeys(env: TypeEnv, vars: VarMaps, callable: set<TypeId>, table: Table, t: TypeId)
    requires Satisfiables(env, vars, callable, table)
    ensures t in table <==> t in Available(env, vars) || t in vars.compound || t in Returns(env, callable)
  {
    StructureIff(env, vars.simple.Keys, vars.compound.Keys, callable, table, t);
    CallIff(env, vars.simple.Keys, vars.compound.Keys, callable, table, t);
    if t in table {
      assert table[t] != Handlers({}, {}, {});
      assert table[t] == EntryOf(table, t);
    }
  }

  /** A type is available exactly if a simple variable has it or a member of a reachable compound gives it. */
  lemma AvailableIff(env: TypeEnv, vars: VarMaps, t: TypeId)
    ensures t in Available(env, vars)
      <==> t in vars.simple || exists c, d, m :: c in vars.compound && MemberGives(env, c, d, m, t)
  {
    hide MemberGives, ObtainableTypes;
    forall c
      ensures t in ObtainableTypes(env, c) <==> exists d, m :: MemberGives(env, c, d, m, t)
    {
      ObtainableIff(env, c, t);
    }
    assert t in Available(env, vars) <==>
      t in vars.simple || exists c :: c in vars.compound.Keys && t in ObtainableTypes(env, c);
  }

  /** The keys, by members and calls: the types of variables, what members of compound variables give, and what
      functions return that can be called one after the other. */
  lemma KeyIff(env: TypeEnv, vars: VarMaps, callable: set<TypeId>, table: Table, t: TypeId)
    requires Satisfiables(env, vars, callable, table) && vars.functions.Keys <= env.functions.Keys
    ensures t in table
      <==> || t in vars.simple || t in vars.compound
           || (exists c, d, m :: c in vars.compound && MemberGives(env, c, d, m, t))
           || (exists f :: f in vars.functions && env.functions[f].ret == t
                           && CanBeCalled(env, vars.functions.Keys, Available(env, vars), f))
  {
    hide MemberGives, CanBeCalled, Available, IsLeast;
    TableKeys(env, vars, callable, table, t);
    AvailableIff(env, vars, t);
    forall f
      ensures f in callable <==> CanBeCalled(env, vars.functions.Keys, Available(env, vars), f)
    {
      LeastIff(env, vars.functions.Keys, Available(env, vars), callable, f);
    }
    CallableIsVisible(env, vars, callable);
  }

  lemma CallableIsVisible(env: TypeEnv, vars: VarMaps, callable: set<TypeId>)
    requires IsLeast(env, vars.functions.Keys, Available(env, vars), callable)
    ensures callable <= vars.functions.Keys
  {
  }

  /** A visible function whose arguments can all be supplied at once is recorded under its return type. */
  lemma RecordedAtOnce(env: TypeEnv, vars: VarMaps, callable: set<TypeId>, table: Table, f: TypeId)
    requires Satisfiables(env, vars, callable, table) && f in vars.functions && f in env.functions
    requires forall i :: 0 <= i < |env.functions[f].args| ==> env.functions[f].args[i] in Available(env, vars)
    ensures env.functions[f].ret in table && f in table[env.functions[f].ret].call
  {
    hide IsLeast, Available, Gives;
    AtOnceIsLeast(env, vars.functions.Keys, Available(env, vars), callable, f);
    assert ReturnsType(env, f, env.functions[f].ret);
    assert f in EntryOf(table, env.functions[f].ret).call;
  }

  /** What a callable function needs comes from the available types and from callable functions. */
  lemma CallableArgs(env: TypeEnv, vars: VarMaps, callable: set<TypeId>, f: TypeId)
    requires IsLeast(env, vars.functions.Keys, Available(env, vars), callable) && f in callable
    ensures Callable(env, f, Available(env, vars) + Returns(env, callable))
  {
    var order :| Derives(env, Available(env, vars), order, callable);
    assert f in Elements(order);
    var i :| 0 <= i < |order| && order[i] == f;
    assert Callable(env, order[i], Available(env, vars) + Returns(env, Elements(order[..i])));
    assert Elements(order[..i]) <= Elements(order);
  }

  /** Closed: a recorded function can have each of its arguments generated from the table. */
  lemma TableIsClosed(env: TypeEnv, vars: VarMaps, callable: set<TypeId>, table: Table,
                      t: TypeId, f: TypeId, a: TypeId)
    requires Satisfiables(env, vars, callable, table)
    requires t in table && f in table[t].call && f in env.functions && a in Args(env, f)
    ensures a in table
  {
    assert f in EntryOf(table, t).call;
    CallableArgs(env, vars, callable, f);
    TableKeys(env, vars, callable, table, a);
  }

  /** An entry lists visible variables only, each of which gives a `t`. */
  lemma EntryIsVisible(env: TypeEnv, vars: VarMaps, callable: set<TypeId>, table: Table, t: TypeId)
    requires Satisfiables(env, vars, callable, table) && t in table
    ensures table[t].simple <= vars.simple.Keys * {t}
    ensures table[t].structure <= vars.compound.Keys && table[t].call <= vars.functions.Keys
    ensures forall c :: c in table[t].structure ==> Gives(env, c, t)
    ensures forall f :: f in table[t].call ==> ReturnsType(env, f, t)
  {
    assert table[t] == EntryOf(table, t);
  }

  /** Grounded: every key keeps a candidate after filtering, so the generator's "no candidates"
      fallback cannot be taken for a key. */
  lemma TableIsGrounded(env: TypeEnv, vars: VarMaps, callable: set<TypeId>, table: Table, t: TypeId)
    requires Satisfiables(env, vars, callable, table) && t in table
    ensures vars.simple.Keys * table[t].simple != {}
            || vars.compound.Keys * table[t].structure != {}
            || vars.functions.Keys * table[t].call != {}
  {
    EntryIsVisible(env, vars, callable, table, t);
    var e := table[t];
    assert vars.simple.Keys * e.simple == e.simple && vars.compound.Keys * e.structure == e.structure;
    assert vars.functions.Keys * e.call == e.call;
  }

  /** A type that is a key only because a variable of that compound type is visible. */
  ghost predicate OnlyAsVariable(env: TypeEnv, vars: VarMaps, table: Table, a: TypeId) {
    a in vars.compound && a !in Available(env, vars) && EntryOf(table, a).call == {}
  }

  lemma ProducibleIff(env: TypeEnv, vars: VarMaps, callable: set<TypeId>, table: Table, a: TypeId)
    requires Satisfiables(env, vars, callable, table) && a in table
    ensures a in Available(env, vars) + Returns(env, callable) <==> !OnlyAsVariable(env, vars, table, a)
  {
    TableKeys(env, vars, callable, table, a);
    CallIff(env, vars.simple.Keys, vars.compound.Keys, callable, table, a);
  }

  /** Among the functions whose arguments are all keys, exactly those are left out that take a type which is a
      key only as the type of a compound variable. */
  lemma RecordedIff(env: TypeEnv, vars: VarMaps, callable: set<TypeId>, table: Table, f: TypeId)
    requires Satisfiables(env, vars, callable, table)
    requires f in vars.functions && Callable(env, f, table.Keys)
    ensures f in callable <==> forall a :: a in Args(env, f) ==> !OnlyAsVariable(env, vars, table, a)
  {
    forall a | a in Args(env, f)
      ensures a in Available(env, vars) + Returns(env, callable) <==> !OnlyAsVariable(env, vars, table, a)
    {
      ProducibleIff(env, vars, callable, table, a);
    }
    if f in callable {
      CallableArgs(env, vars, callable, f);
    }
  }

  lemma KeySet(env: TypeEnv, vars: VarMaps, callable: set<TypeId>, table: Table)
    requires Satisfiables(env, vars, callable, table)
    ensures table.Keys == Available(env, vars) + vars.compound.Keys + Returns(env, callable)
  {
    forall t
      ensures t in table <==> t in Available(env, vars) + vars.compound.Keys + Returns(env, callable)
    {
      TableKeys(env, vars, callable, table, t);
    }
  }

  /** A function whose arguments are all keys takes a type that is a key only as the type of a variable. */
  ghost predicate Missed(env: TypeEnv, vars: VarMaps, table: Table, f: TypeId, a: TypeId) {
    && f in vars.functions && Callable(env, f, table.Keys)
    && a in Args(env, f) && OnlyAsVariable(env, vars, table, a)
  }

  ghost predicate SomeMissed(env: TypeEnv, vars: VarMaps, table: Table) {
    exists f, a :: Missed(env, vars, table, f, a)
  }

  /** The functions that could be called if the types of compound variables counted as available, too: nothing but
      these is recorded, and all of them are recorded exactly if no function is missed directly. */
  lemma RecordedIsIdealIff(env: TypeEnv, vars: VarMaps, callable: set<TypeId>, table: Table, ideal: set<TypeId>)
    requires Satisfiables(env, vars, callable, table)
    requires IsLeast(env, vars.functions.Keys, Available(env, vars) + vars.compound.Keys, ideal)
    ensures callable <= ideal
    ensures callable == ideal <==> !SomeMissed(env, vars, table)
  {
    var fs, some, all := vars.functions.Keys, Available(env, vars), Available(env, vars) + vars.compound.Keys;
    KeySet(env, vars, callable, table);
    assert Closed(env, fs, some, ideal) by {
      assert some + Returns(env, ideal) <= all + Returns(env, ideal);
    }
    LeastIsLeast(env, fs, some, callable, ideal);
    assert all + Returns(env, callable) == table.Keys;
    if SomeMissed(env, vars, table) {
      var f, a :| Missed(env, vars, table, f, a);
      RecordedIff(env, vars, callable, table, f);
      assert callable == ideal ==> f in ideal;
    } else {
      forall f | f in fs && Callable(env, f, table.Keys)
        ensures f in callable
      {
        forall a | a in Args(env, f)
          ensures !OnlyAsVariable(env, vars, table, a)
        {
          assert !Missed(env, vars, table, f, a);
        }
        RecordedIff(env, vars, callable, table, f);
      }
      LeastIsLeast(env, fs, all, ideal, callable);
    }
  }

  /** A program with one variable `x` of an empty compound type and one function that takes such a
      compound: the function could be called with `x`, and is not recorded. */
  lemma CompoundArgumentIsMissed(callable: set<TypeId>, table: Table)
    returns (env: TypeEnv, vars: VarMaps, c: TypeId, f: TypeId)
    ensures MapsFit(env, vars) && f in vars.functions && env.functions[f].args == [c]
    ensures c in vars.compound && vars.compound[c] == ["x"]
    ensures Satisfiables(env, vars, callable, table) ==> c in table && f !in callable
  {
    c, f := TypeId(20), TypeId(30);
    env := TypeEnv(map[c := map[]], map[f := FunctionType("f", TypeId(10), [c])], {TypeId(10)}, {}, true);
    vars := VarMaps(map[], map[c := ["x"]], map[f := ["f"]], map[]);
    if Satisfiables(env, vars, callable, table) {
      TableKeys(env, vars, callable, table, c);
      assert Direct(env, c) == {};
      assert Available(env, vars) == {};
      assert c in Args(env, f) by { assert env.functions[f].args[0] == c; }
      assert Closed(env, {f}, {}, {}) by {
        assert c !in {} + Returns(env, {});
      }
      assert vars.functions.Keys == {f};
      LeastIsLeast(env, {f}, {}, callable, {});
    }
  }
}
