/** Scopes with their symbol tables, and the definitions a use can see
    (collect_all_var_definition_by_type in srcs/internal/srcs/typesystem.cpp). */
module Visibility {
  import opened Common
  import opened IrTree
  import opened TypeGraph

  datatype Definition = Definition(name: string, typ: TypeId, sid: nat)

  /** A scope; the scopes it points to are named by their ids, which index `scope_id_map_`. */
  datatype Scope = Scope(stype: ScopeType, parent: Option<ScopeId>, children: set<ScopeId>,
                         table: map<TypeId, seq<Definition>>)

  type Scopes = map<ScopeId, Scope>

  /** Every parent is a known, older scope. */
  ghost predicate WellParented(scopes: Scopes) {
    forall i :: i in scopes && scopes[i].parent.Some? ==>
      scopes[i].parent.value in scopes && scopes[i].parent.value < i
  }

  /** The enclosing scopes, innermost first. */
  ghost function Chain(scopes: Scopes, at: Option<ScopeId>): seq<ScopeId>
    requires WellParented(scopes)
    decreases if at.Some? then at.value + 1 else 0
  {
    if at.None? || at.value !in scopes then []
    else [at.value] + Chain(scopes, scopes[at.value].parent)
  }

  datatype VarMaps = VarMaps(simple: map<TypeId, seq<string>>, compound: map<TypeId, seq<string>>,
                             functions: map<TypeId, seq<string>>, pointer: map<TypeId, seq<string>>)

  // ---------------------------------------------------------------------------------------------
  // Specification
  // ---------------------------------------------------------------------------------------------

  /** The names defined before statement `use`, in order. */
  function NamesBefore(defs: seq<Definition>, use: nat): seq<string> {
    if defs == [] then []
    else
      var front := NamesBefore(defs[..|defs| - 1], use);
      var last := defs[|defs| - 1];
      if last.sid < use then front + [last.name] else front
  }

  function TableNames(scope: Scope, t: TypeId, use: nat): seq<string> {
    if t in scope.table then NamesBefore(scope.table[t], use) else []
  }

  /** The names of type `t` that the scopes `ids` define before `use`, innermost scope first. */
  ghost function Gathered(scopes: Scopes, ids: seq<ScopeId>, t: TypeId, use: nat): seq<string> {
    if ids == [] then []
    else
      var last := ids[|ids| - 1];
      Gathered(scopes, ids[..|ids| - 1], t, use)
      + (if last in scopes then TableNames(scopes[last], t, use) else [])
  }

  /** `d` is a definition of type `t` on the enclosing chain, made before `use`. */
  ghost predicate Visible(scopes: Scopes, ids: seq<ScopeId>, t: TypeId, use: nat, name: string) {
    exists i, d :: i in ids && i in scopes && t in scopes[i].table && d in scopes[i].table[t]
                   && d.sid < use && d.name == name
  }

  /** `m` holds exactly the gathered names of the types selected by `sel`. */
  ghost predicate Holds(m: map<TypeId, seq<string>>, sel: TypeId -> bool,
                        scopes: Scopes, ids: seq<ScopeId>, use: nat) {
    && (forall t :: t in m <==> sel(t) && Gathered(scopes, ids, t, use) != [])
    && (forall t :: t in m ==> m[t] == Gathered(scopes, ids, t, use))
  }

  ghost function OfKind(env: TypeEnv, kinds: set<Kind>): TypeId -> bool {
    t => KindOf(env, t) in kinds
  }

  /** The four maps for the scope chain `ids`: one per kind, pointers also among the simple ones. */
  ghost predicate Collected(env: TypeEnv, maps: VarMaps, scopes: Scopes, ids: seq<ScopeId>, use: nat) {
    && Holds(maps.functions, OfKind(env, {FunctionKind}), scopes, ids, use)
    && Holds(maps.compound, OfKind(env, {CompoundKind}), scopes, ids, use)
    && Holds(maps.pointer, OfKind(env, {PointerKind}), scopes, ids, use)
    && Holds(maps.simple, OfKind(env, {PointerKind, SimpleKind}), scopes, ids, use)
  }

  // ---------------------------------------------------------------------------------------------
  // What the specification means, name by name
  // ---------------------------------------------------------------------------------------------

  lemma {:induction false} NamesBeforeExact(defs: seq<Definition>, use: nat, name: string)
    ensures name in NamesBefore(defs, use) <==> exists d :: d in defs && d.sid < use && d.name == name
  {
    if defs != [] {
      var front, last := defs[..|defs| - 1], defs[|defs| - 1];
      NamesBeforeExact(front, use, name);
      assert defs == front + [last];
    }
  }

  lemma {:induction false} GatheredExact(scopes: Scopes, ids: seq<ScopeId>, t: TypeId, use: nat, name: string)
    ensures name in Gathered(scopes, ids, t, use) <==> Visible(scopes, ids, t, use, name)
  {
    if ids != [] {
      var front, last := ids[..|ids| - 1], ids[|ids| - 1];
      GatheredExact(scopes, front, t, use, name);
      assert ids == front + [last];
      if last in scopes && t in scopes[last].table {
        NamesBeforeExact(scopes[last].table[t], use, name);
      }
    }
  }

  /** Name by name: a map of the result lists a name under a type exactly when the type has the
      map's kind, where pointers come before basic types, compounds and functions, and an enclosing
      scope defines the name with that type before the use. */
  lemma CollectedExact(env: TypeEnv, maps: VarMaps, scopes: Scopes, ids: seq<ScopeId>, use: nat,
                       t: TypeId, name: string)
    requires Collected(env, maps, scopes, ids, use)
    ensures t in maps.functions && name in maps.functions[t]
            <==> t in env.functions && t !in env.pointers + env.basics + env.compounds.Keys
                 && Visible(scopes, ids, t, use, name)
    ensures t in maps.compound && name in maps.compound[t]
            <==> t in env.compounds && t !in env.pointers + env.basics && Visible(scopes, ids, t, use, name)
    ensures t in maps.pointer && name in maps.pointer[t]
            <==> t in env.pointers && Visible(scopes, ids, t, use, name)
    ensures t in maps.simple && name in maps.simple[t]
            <==> t in env.pointers + env.basics && Visible(scopes, ids, t, use, name)
  {
    GatheredExact(scopes, ids, t, use, name);
  }

  // ---------------------------------------------------------------------------------------------
  // collect_all_var_definition_by_type
  // ---------------------------------------------------------------------------------------------

  function Appended(m: map<TypeId, seq<string>>, t: TypeId, names: seq<string>): map<TypeId, seq<string>> {
    if names == [] then m else m[t := (if t in m then m[t] else []) + names]
  }

  lemma AppendedTwice(m: map<TypeId, seq<string>>, t: TypeId, front: seq<string>, back: seq<string>)
    ensures Appended(Appended(m, t, front), t, back) == Appended(m, t, front + back)
  {
    assert front == [] ==> front + back == back;
    assert back == [] ==> front + back == front;
    assert (if t in m then m[t] else []) + (front + back) == (if t in m then m[t] else []) + front + back;
  }

  /** The loop over one table entry: `operator[]` creates the key only when a name is pushed. */
  method PushVisible(m: map<TypeId, seq<string>>, t: TypeId, defs: seq<Definition>, use: nat)
    returns (r: map<TypeId, seq<string>>)
    ensures r == Appended(m, t, NamesBefore(defs, use))
  {
    r := m;
    for k := 0 to |defs|
      invariant r == Appended(m, t, NamesBefore(defs[..k], use))
    {
      ghost var before := NamesBefore(defs[..k], use);
      assert defs[..k + 1][..k] == defs[..k];
      if defs[k].sid < use {
        AppendedTwice(m, t, before, [defs[k].name]);
        r := Appended(r, t, [defs[k].name]);
        assert NamesBefore(defs[..k + 1], use) == before + [defs[k].name];
      }
    }
    assert defs[..|defs|] == defs;
  }

  /** One map while the table of scope `i` is being read: types in `done` already include scope `i`. */
  ghost predicate Holding(m: map<TypeId, seq<string>>, sel: TypeId -> bool, scopes: Scopes,
                          ids: seq<ScopeId>, use: nat, i: ScopeId, done: set<TypeId>) {
    forall t :: var names := Gathered(scopes, if t in done then ids + [i] else ids, t, use);
      (t in m <==> sel(t) && names != []) && (t in m ==> m[t] == names)
  }

  lemma HoldingAppend(m: map<TypeId, seq<string>>, sel: TypeId -> bool, scopes: Scopes,
                      ids: seq<ScopeId>, use: nat, i: ScopeId, done: set<TypeId>, t: TypeId)
    requires Holding(m, sel, scopes, ids, use, i, done)
    requires i in scopes && t in scopes[i].table && t !in done
    ensures sel(t) ==> Holding(Appended(m, t, NamesBefore(scopes[i].table[t], use)),
                               sel, scopes, ids, use, i, done + {t})
    ensures !sel(t) ==> Holding(m, sel, scopes, ids, use, i, done + {t})
  {
    assert (ids + [i])[..|ids|] == ids;
    assert Gathered(scopes, ids + [i], t, use)
        == Gathered(scopes, ids, t, use) + NamesBefore(scopes[i].table[t], use);
  }

  lemma HoldingStart(m: map<TypeId, seq<string>>, sel: TypeId -> bool, scopes: Scopes,
                     ids: seq<ScopeId>, use: nat, i: ScopeId)
    requires Holds(m, sel, scopes, ids, use)
    ensures Holding(m, sel, scopes, ids, use, i, {})
  {
  }

  lemma HoldingEnd(m: map<TypeId, seq<string>>, sel: TypeId -> bool, scopes: Scopes,
                   ids: seq<ScopeId>, use: nat, i: ScopeId)
    requires i in scopes && Holding(m, sel, scopes, ids, use, i, scopes[i].table.Keys)
    ensures Holds(m, sel, scopes, ids + [i], use)
  {
    forall t
      ensures t !in scopes[i].table ==> Gathered(scopes, ids + [i], t, use) == Gathered(scopes, ids, t, use)
    {
      assert (ids + [i])[..|ids|] == ids;
    }
  }

  /** One scope of the walk: every entry of its table lands in the map of its kind. */
  method CollectScope(env: TypeEnv, scopes: Scopes, ghost ids: seq<ScopeId>, i: ScopeId, use: nat,
                      maps: VarMaps) returns (r: VarMaps)
    requires i in scopes && Collected(env, maps, scopes, ids, use)
    ensures Collected(env, r, scopes, ids + [i], use)
  {
    var functions, compound := maps.functions, maps.compound;
    var simple, pointer := maps.simple, maps.pointer;
    ghost var fs, cs := OfKind(env, {FunctionKind}), OfKind(env, {CompoundKind});
    ghost var ps, ss := OfKind(env, {PointerKind}), OfKind(env, {PointerKind, SimpleKind});
    var table := scopes[i].table;
    var todo := table.Keys;
    HoldingStart(functions, fs, scopes, ids, use, i);
    HoldingStart(compound, cs, scopes, ids, use, i);
    HoldingStart(pointer, ps, scopes, ids, use, i);
    HoldingStart(simple, ss, scopes, ids, use, i);
    assert table.Keys - todo == {};
    while todo != {}
      invariant todo <= table.Keys
      invariant Holding(functions, fs, scopes, ids, use, i, table.Keys - todo)
      invariant Holding(compound, cs, scopes, ids, use, i, table.Keys - todo)
      invariant Holding(pointer, ps, scopes, ids, use, i, table.Keys - todo)
      invariant Holding(simple, ss, scopes, ids, use, i, table.Keys - todo)
      decreases todo
    {
      var t := AnyOf(todo);
      HoldingAppend(functions, fs, scopes, ids, use, i, table.Keys - todo, t);
      HoldingAppend(compound, cs, scopes, ids, use, i, table.Keys - todo, t);
      HoldingAppend(pointer, ps, scopes, ids, use, i, table.Keys - todo, t);
      HoldingAppend(simple, ss, scopes, ids, use, i, table.Keys - todo, t);
      assert table.Keys - (todo - {t}) == table.Keys - todo + {t};
      todo := todo - {t};
      var kind := KindOf(env, t);
      if kind == UnknownKind {
        // a type without an entry in any table is skipped
      } else if kind == FunctionKind {
        functions := PushVisible(functions, t, table[t], use);
      } else if kind == CompoundKind {
        compound := PushVisible(compound, t, table[t], use);
      } else {
        if kind == PointerKind {
          pointer := PushVisible(pointer, t, table[t], use);
        }
        simple := PushVisible(simple, t, table[t], use);
      }
    }
    assert table.Keys - todo == table.Keys;
    HoldingEnd(functions, fs, scopes, ids, use, i);
    HoldingEnd(compound, cs, scopes, ids, use, i);
    HoldingEnd(pointer, ps, scopes, ids, use, i);
    HoldingEnd(simple, ss, scopes, ids, use, i);
    r := VarMaps(simple, compound, functions, pointer);
  }

  /** The walk up the parent chain terminates and collects exactly what the chain makes visible. */
  method CollectAllVarDefinitionByType(env: TypeEnv, scopes: Scopes, at: ScopeId, use: nat)
    returns (maps: VarMaps)
    requires WellParented(scopes)
    ensures Collected(env, maps, scopes, Chain(scopes, Some(at)), use)
  {
    maps := VarMaps(map[], map[], map[], map[]);
    var current := if at in scopes then Some(at) else None;
    ghost var done: seq<ScopeId> := [];
    while current.Some?
      invariant current.Some? ==> current.value in scopes
      invariant done + Chain(scopes, current) == Chain(scopes, Some(at))
      invariant Collected(env, maps, scopes, done, use)
      decreases if current.Some? then current.value + 1 else 0
    {
      maps := CollectScope(env, scopes, done, current.value, use, maps);
      done := done + [current.value];
      current := scopes[current.value].parent;
    }
    assert done == done + [];
  }
}
