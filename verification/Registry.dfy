/** Symbol tables and types against a list of declarations (srcs/internal/srcs/var_definition.cpp): what the
    scopes and the type system hold after the declarations were entered. */
module Registry {
  import opened Common
  import opened IrTree
  import opened TypeGraph
  import opened Visibility
  import opened Declarations

  const NOT_EXIST := TypeId(0)
  const ANY_TYPE := TypeId(6)

  // ---------------------------------------------------------------------------------------------
  // Tables
  // ---------------------------------------------------------------------------------------------

  /** `m_table_[def.type].push_back(def)` in scope `i`. */
  function Added(scopes: Scopes, i: ScopeId, d: Definition): Scopes
    requires i in scopes
  {
    var table := scopes[i].table;
    scopes[i := scopes[i].(table := table[d.typ := (if d.typ in table then table[d.typ] else []) + [d]])]
  }

  /** The scopes after the declarations were entered, under the given types. */
  function Enter(bare: Scopes, log: seq<Decl>, ids: seq<TypeId>): Scopes
    requires |log| == |ids|
  {
    if log == [] then bare
    else
      var k := |log| - 1;
      var before, d := Enter(bare, log[..k], ids[..k]), log[k];
      if d.scope in before then Added(before, d.scope, Definition(d.name, ids[k], d.sid)) else before
  }

  lemma EnterOne(bare: Scopes, log: seq<Decl>, ids: seq<TypeId>, d: Decl, t: TypeId)
    requires |log| == |ids| && d.scope in Enter(bare, log, ids)
    ensures Enter(bare, log + [d], ids + [t]) == Added(Enter(bare, log, ids), d.scope, Definition(d.name, t, d.sid))
  {
    assert (log + [d])[..|log|] == log && (ids + [t])[..|ids|] == ids;
  }

  /** Only the tables of the scopes change. */
  ghost predicate SameLinks(a: Scopes, b: Scopes) {
    a.Keys == b.Keys && forall i :: i in a ==> a[i].(table := map[]) == b[i].(table := map[])
  }

  lemma {:induction false} EnterKeepsLinks(bare: Scopes, log: seq<Decl>, ids: seq<TypeId>)
    requires |log| == |ids|
    ensures SameLinks(bare, Enter(bare, log, ids))
  {
    if log != [] {
      EnterKeepsLinks(bare, log[..|log| - 1], ids[..|log| - 1]);
    }
  }

  /** Declaration `k` was entered into scope `i` as this definition. */
  ghost predicate EnteredAs(bare: Scopes, log: seq<Decl>, ids: seq<TypeId>, i: ScopeId, t: TypeId, d: Definition,
                            k: nat)
    requires |log| == |ids|
  {
    k < |log| && log[k].scope == i && i in bare && ids[k] == t && d == Definition(log[k].name, t, log[k].sid)
  }

  ghost predicate IsEntry(scopes: Scopes, i: ScopeId, t: TypeId, d: Definition) {
    i in scopes && t in scopes[i].table && d in scopes[i].table[t]
  }

  /** Of empty scopes: the tables list exactly the entered declarations. */
  lemma {:induction false} EntryIff(bare: Scopes, log: seq<Decl>, ids: seq<TypeId>, i: ScopeId, t: TypeId,
                                    d: Definition)
    requires |log| == |ids| && forall j :: j in bare ==> bare[j].table == map[]
    ensures IsEntry(Enter(bare, log, ids), i, t, d) <==> exists k :: EnteredAs(bare, log, ids, i, t, d, k)
  {
    if log != [] {
      var k := |log| - 1;
      var before, own := Enter(bare, log[..k], ids[..k]), Definition(log[k].name, ids[k], log[k].sid);
      EntryIff(bare, log[..k], ids[..k], i, t, d);
      EnterKeepsLinks(bare, log[..k], ids[..k]);
      assert IsEntry(Enter(bare, log, ids), i, t, d)
        <==> IsEntry(before, i, t, d) || EnteredAs(bare, log, ids, i, t, d, k);
      if j: nat :| EnteredAs(bare, log[..k], ids[..k], i, t, d, j) {
        assert EnteredAs(bare, log, ids, i, t, d, j);
      }
      if j: nat :| EnteredAs(bare, log, ids, i, t, d, j) && j < k {
        assert EnteredAs(bare, log[..k], ids[..k], i, t, d, j);
      }
    }
  }

  // ---------------------------------------------------------------------------------------------
  // Types
  // ---------------------------------------------------------------------------------------------

  /** The reference denotes the type. */
  ghost predicate Refers(env: TypeEnv, names: Names, ref: TypeRef, t: TypeId) {
    match ref
    case AnyRef => t == ANY_TYPE
    case Ref(sort, s) =>
      && t in names && names[t] == s
      && (match sort
          case BasicSort => t in env.basics
          case ClassSort => t in env.compounds
          case FunctionSort => t in env.functions)
  }

  ghost predicate SignatureOk(env: TypeEnv, names: Names, f: FunctionType, d: Decl) {
    && d.FunctionDecl? && f.name == d.name && Refers(env, names, d.ret, f.ret) && |f.args| == |d.args|
    && (forall k :: 0 <= k < |f.args| ==> Refers(env, names, d.args[k], f.args[k]))
  }

  function NamesOf(defs: seq<Definition>): seq<string> {
    if defs == [] then [] else NamesOf(defs[..|defs| - 1]) + [defs[|defs| - 1].name]
  }

  /** The members of a class are the definitions in the scope of its body. */
  function MembersOf(table: map<TypeId, seq<Definition>>): map<TypeId, seq<string>> {
    map t | t in table :: NamesOf(table[t])
  }

  /** The members of a type are its definitions, by name and in order. */
  lemma MembersAre(table: map<TypeId, seq<Definition>>, t: TypeId)
    ensures t in MembersOf(table) <==> t in table
    ensures t in table ==> |MembersOf(table)[t]| == |table[t]|
    ensures t in table ==> forall k :: 0 <= k < |table[t]| ==> MembersOf(table)[t][k] == table[t][k].name
  {
    if t in table {
      NamesAre(table[t]);
    }
  }

  lemma {:induction false} NamesAre(defs: seq<Definition>)
    ensures |NamesOf(defs)| == |defs| && forall k :: 0 <= k < |defs| ==> NamesOf(defs)[k] == defs[k].name
  {
    if defs != [] {
      NamesAre(defs[..|defs| - 1]);
    }
  }

  function TableAt(scopes: Scopes, i: ScopeId): map<TypeId, seq<Definition>> {
    if i in scopes then scopes[i].table else map[]
  }

  /** The type that declaration `k` was entered under is the declared one: for a variable or an argument the
      type referred to; for a function a function type with this signature; for a class a class whose members
      are what the scope of its body held by then. */
  ghost predicate Typed(env: TypeEnv, names: Names, bare: Scopes, log: seq<Decl>, ids: seq<TypeId>, k: nat)
    requires |log| == |ids| && k < |log|
  {
    var t := ids[k];
    match log[k]
    case VariableDecl(_, _, _, ref) => Refers(env, names, ref, t)
    case ArgumentDecl(_, _, _, ref) => Refers(env, names, ref, t)
    case FunctionDecl(_, name, _, _, _) =>
      t in env.functions && t in names && names[t] == name && SignatureOk(env, names, env.functions[t], log[k])
    case ClassDecl(_, name, _, body) =>
      && t in env.compounds && t in names && names[t] == name
      && env.compounds[t] == MembersOf(TableAt(Enter(bare, log[..k], ids[..k]), body))
  }

  ghost predicate AllTyped(env: TypeEnv, names: Names, bare: Scopes, log: seq<Decl>, ids: seq<TypeId>)
    requires |log| == |ids|
  {
    forall k :: 0 <= k < |log| ==> Typed(env, names, bare, log, ids, k)
  }

  ghost predicate DeclaredAs(log: seq<Decl>, ids: seq<TypeId>, t: TypeId, class_: bool)
    requires |log| == |ids|
  {
    exists k :: 0 <= k < |log| && ids[k] == t && (if class_ then log[k].ClassDecl? else log[k].FunctionDecl?)
  }

  /** There are no classes and functions but the declared ones. */
  ghost predicate OnlyDeclared(env: TypeEnv, log: seq<Decl>, ids: seq<TypeId>)
    requires |log| == |ids|
  {
    && (forall t :: t in env.compounds ==> DeclaredAs(log, ids, t, true))
    && (forall t :: t in env.functions ==> DeclaredAs(log, ids, t, false))
  }

  /** Every type has a name and an id handed out before; every type a type refers to exists. */
  ghost predicate TypesOk(c: Config, env: TypeEnv, names: Names, next: int) {
    && names.Keys == env.basics + env.compounds.Keys + env.functions.Keys
    && (forall k :: k in names ==> 0 < k.n < next)
    && ANY_TYPE in env.basics && env.pointers == {} && env.weak == c.weak && env.WellFormed()
    && env.basics == c.basics.Keys && (forall k :: k in c.basics ==> k in names && names[k] == c.basics[k])
  }

  /** Tables list definitions of existing types only. */
  ghost predicate TablesOk(scopes: Scopes, names: Names) {
    forall i :: i in scopes ==> TableOk(scopes[i].table, names)
  }

  ghost predicate TableOk(table: map<TypeId, seq<Definition>>, names: Names) {
    forall t :: t in table ==> t in names && table[t] != []
  }

  // ---------------------------------------------------------------------------------------------
  // The registry
  // ---------------------------------------------------------------------------------------------

  /** Scopes and types, with the declarations that were entered and the types they were entered under. */
  datatype Entries = Entries(c: Config, bare: Scopes, scopes: Scopes, env: TypeEnv, names: Names, next: int,
                             log: seq<Decl>, ids: seq<TypeId>)
  {
    /** Scopes and types are exactly what the declarations make of the bare scopes and the basic types. */
    ghost predicate Mirror() {
      && |log| == |ids| && scopes == Enter(bare, log, ids)
      && TypesOk(c, env, names, next) && TablesOk(scopes, names)
      && AllTyped(env, names, bare, log, ids) && OnlyDeclared(env, log, ids)
    }
  }

  /** The configuration names the type any, and its types have ids handed out before. */
  predicate Usable(c: Config) {
    ANY_TYPE in c.basics && forall k :: k in c.basics ==> 0 < k.n < c.nextType
  }

  ghost const NO_ENTRIES :=
    Entries(Config(Format(i => "", r => ""), map[ANY_TYPE := ""], true, 7), map[], map[],
            TypeEnv(map[], map[], {ANY_TYPE}, {}, true), map[ANY_TYPE := ""], 7, [], [])

  type Registered = r: Entries | r.Mirror() ghost witness NO_ENTRIES

  lemma RegisteredFacts(r: Registered)
    ensures |r.log| == |r.ids| && r.scopes == Enter(r.bare, r.log, r.ids) && SameLinks(r.bare, r.scopes)
    ensures r.env.WellFormed() && r.env.pointers == {}
  {
    EnterKeepsLinks(r.bare, r.log, r.ids);
  }

  lemma TypedAt(r: Registered, k: nat)
    requires k < |r.log|
    ensures |r.log| == |r.ids| && Typed(r.env, r.names, r.bare, r.log, r.ids, k)
  {
  }

  // ---------------------------------------------------------------------------------------------
  // Lookups
  // ---------------------------------------------------------------------------------------------

  /** What the lookup of a type by name may find: basic types first, then classes, then functions; among
      types of one sort with the same name, any. */
  ghost predicate FoundAs(env: TypeEnv, names: Names, s: string, t: TypeId) {
    if t == NOT_EXIST then forall k :: k in names ==> names[k] != s
    else
      && t in names && names[t] == s
      && (t !in env.basics ==> forall k :: k in env.basics && k in names ==> names[k] != s)
      && (t !in env.basics && t !in env.compounds ==> forall k :: k in env.compounds && k in names ==> names[k] != s)
  }

  /** The result of a lookup is what the declarations so far determine. */
  ghost predicate Finds(env: TypeEnv, names: Names, ref: Option<TypeRef>, t: TypeId) {
    if ref.None? then t == NOT_EXIST else t != NOT_EXIST && t in names && Refers(env, names, ref.value, t)
  }

  lemma DeclaredAreNamed(r: Registered, s: string)
    ensures DeclaresClass(r.log, s) <==> exists t :: t in r.env.compounds && t in r.names && r.names[t] == s
    ensures DeclaresFunction(r.log, s) <==> exists t :: t in r.env.functions && t in r.names && r.names[t] == s
  {
    forall k | 0 <= k < |r.log|
      ensures r.log[k].ClassDecl? ==> r.ids[k] in r.env.compounds && r.ids[k] in r.names
      ensures r.log[k].ClassDecl? ==> r.names[r.ids[k]] == r.log[k].name
      ensures r.log[k].FunctionDecl? ==> r.ids[k] in r.env.functions && r.ids[k] in r.names
      ensures r.log[k].FunctionDecl? ==> r.names[r.ids[k]] == r.log[k].name
    {
      assert Typed(r.env, r.names, r.bare, r.log, r.ids, k);
    }
    forall t | t in r.env.compounds && t in r.names && r.names[t] == s
      ensures DeclaresClass(r.log, s)
    {
      assert DeclaredAs(r.log, r.ids, t, true);
    }
    forall t | t in r.env.functions && t in r.names && r.names[t] == s
      ensures DeclaresFunction(r.log, s)
    {
      assert DeclaredAs(r.log, r.ids, t, false);
    }
  }

  /** A lookup finds what the declarations so far determine. */
  lemma LookupMatches(r: Registered, s: string, t: TypeId)
    requires FoundAs(r.env, r.names, s, t)
    ensures Finds(r.env, r.names, Lookup(r.c, r.log, s), t)
  {
    DeclaredAreNamed(r, s);
    if k :| k in r.c.basics && r.c.basics[k] == s {
      assert k in r.env.basics && k in r.names && r.names[k] == s;
    }
  }

  // ---------------------------------------------------------------------------------------------
  // Growth
  // ---------------------------------------------------------------------------------------------

  ghost predicate EnvGrows(env: TypeEnv, names: Names, env': TypeEnv, names': Names) {
    && env'.basics == env.basics && env'.weak == env.weak
    && (forall t :: t in names ==> t in names' && names'[t] == names[t])
    && (forall t :: t in env.compounds ==> t in env'.compounds && env'.compounds[t] == env.compounds[t])
    && (forall t :: t in env.functions ==> t in env'.functions && env'.functions[t] == env.functions[t])
  }

  lemma RefersStays(env: TypeEnv, names: Names, env': TypeEnv, names': Names, ref: TypeRef, t: TypeId)
    requires EnvGrows(env, names, env', names') && Refers(env, names, ref, t)
    ensures Refers(env', names', ref, t)
  {
  }

  lemma TypedStays(env: TypeEnv, names: Names, env': TypeEnv, names': Names, bare: Scopes,
                   log: seq<Decl>, ids: seq<TypeId>, d: Decl, t: TypeId, k: nat)
    requires EnvGrows(env, names, env', names') && |log| == |ids| && k < |log| && Typed(env, names, bare, log, ids, k)
    ensures Typed(env', names', bare, log + [d], ids + [t], k)
  {
    assert (log + [d])[..k] == log[..k] && (ids + [t])[..k] == ids[..k];
    if log[k].FunctionDecl? {
      var f := env.functions[ids[k]];
      RefersStays(env, names, env', names', log[k].ret, f.ret);
      forall j | 0 <= j < |f.args|
        ensures Refers(env', names', log[k].args[j], f.args[j])
      {
        RefersStays(env, names, env', names', log[k].args[j], f.args[j]);
      }
    }
  }

  lemma DeclaredStays(log: seq<Decl>, ids: seq<TypeId>, d: Decl, t: TypeId, u: TypeId, class_: bool)
    requires |log| == |ids|
    ensures DeclaredAs(log, ids, u, class_) ==> DeclaredAs(log + [d], ids + [t], u, class_)
    ensures u == t && (if class_ then d.ClassDecl? else d.FunctionDecl?) ==> DeclaredAs(log + [d], ids + [t], u, class_)
  {
    var log', ids' := log + [d], ids + [t];
    if DeclaredAs(log, ids, u, class_) {
      var k :| 0 <= k < |log| && ids[k] == u && (if class_ then log[k].ClassDecl? else log[k].FunctionDecl?);
      assert ids'[k] == u && log'[k] == log[k];
    }
    assert ids'[|log|] == t && log'[|log|] == d;
  }

  lemma AddedTables(scopes: Scopes, names: Names, names': Names, i: ScopeId, d: Definition)
    requires TablesOk(scopes, names) && i in scopes && names.Keys <= names'.Keys && d.typ in names'
    ensures TablesOk(Added(scopes, i, d), names')
  {
    var more := Added(scopes, i, d);
    forall j | j in more
      ensures TableOk(more[j].table, names')
    {
      assert TableOk(scopes[j].table, names);
    }
  }

  /** The types grow by what the new declaration adds: nothing, a function or a class. */
  ghost predicate TypesGrow(c: Config, env: TypeEnv, names: Names, env': TypeEnv, names': Names, next': int, d: Decl,
                            t: TypeId) {
    && EnvGrows(env, names, env', names') && TypesOk(c, env', names', next') && t in names'
    && (forall u :: u in env'.compounds ==> u in env.compounds || (u == t && d.ClassDecl?))
    && (forall u :: u in env'.functions ==> u in env.functions || (u == t && d.FunctionDecl?))
  }

  lemma AllTypedStays(env: TypeEnv, names: Names, env': TypeEnv, names': Names, bare: Scopes,
                      log: seq<Decl>, ids: seq<TypeId>, d: Decl, t: TypeId)
    requires EnvGrows(env, names, env', names') && |log| == |ids| && AllTyped(env, names, bare, log, ids)
    requires Typed(env', names', bare, log + [d], ids + [t], |log|)
    ensures AllTyped(env', names', bare, log + [d], ids + [t])
  {
    forall k | 0 <= k < |log + [d]|
      ensures Typed(env', names', bare, log + [d], ids + [t], k)
    {
      if k < |log| {
        TypedStays(env, names, env', names', bare, log, ids, d, t, k);
      }
    }
  }

  lemma OnlyDeclaredStays(c: Config, env: TypeEnv, names: Names, env': TypeEnv, names': Names, next': int,
                          log: seq<Decl>, ids: seq<TypeId>, d: Decl, t: TypeId)
    requires |log| == |ids| && OnlyDeclared(env, log, ids) && TypesGrow(c, env, names, env', names', next', d, t)
    ensures OnlyDeclared(env', log + [d], ids + [t])
  {
    forall u | u in env'.compounds
      ensures DeclaredAs(log + [d], ids + [t], u, true)
    {
      DeclaredStays(log, ids, d, t, u, true);
    }
    forall u | u in env'.functions
      ensures DeclaredAs(log + [d], ids + [t], u, false)
    {
      DeclaredStays(log, ids, d, t, u, false);
    }
  }

  lemma AsRegistered(c: Config, bare: Scopes, scopes: Scopes, env: TypeEnv, names: Names, next: int,
                     log: seq<Decl>, ids: seq<TypeId>) returns (r: Registered)
    requires |log| == |ids| && scopes == Enter(bare, log, ids)
    requires TypesOk(c, env, names, next) && TablesOk(scopes, names)
    requires AllTyped(env, names, bare, log, ids) && OnlyDeclared(env, log, ids)
    ensures r == Entries(c, bare, scopes, env, names, next, log, ids)
  {
    r := Entries(c, bare, scopes, env, names, next, log, ids);
  }

  /** One declaration more. */
  lemma OneMore(r: Registered, env': TypeEnv, names': Names, next': int, d: Decl, t: TypeId) returns (more: Registered)
    requires d.scope in r.scopes && TypesGrow(r.c, r.env, r.names, env', names', next', d, t)
    requires Typed(env', names', r.bare, r.log + [d], r.ids + [t], |r.log|)
    ensures more == r.(scopes := Added(r.scopes, d.scope, Definition(d.name, t, d.sid)), env := env', names := names',
                       next := next', log := r.log + [d], ids := r.ids + [t])
  {
    EnterOne(r.bare, r.log, r.ids, d, t);
    AddedTables(r.scopes, r.names, names', d.scope, Definition(d.name, t, d.sid));
    AllTypedStays(r.env, r.names, env', names', r.bare, r.log, r.ids, d, t);
    OnlyDeclaredStays(r.c, r.env, r.names, env', names', next', r.log, r.ids, d, t);
    var scopes' := Added(r.scopes, d.scope, Definition(d.name, t, d.sid));
    more := AsRegistered(r.c, r.bare, scopes', env', names', next', r.log + [d], r.ids + [t]);
  }

  // ---------------------------------------------------------------------------------------------
  // The new types
  // ---------------------------------------------------------------------------------------------

  lemma NewClass(c: Config, env: TypeEnv, names: Names, next: int, d: Decl, members: map<TypeId, seq<string>>)
    requires TypesOk(c, env, names, next) && d.ClassDecl? && forall m :: m in members ==> members[m] != []
    ensures var id := TypeId(next);
      && id !in names
      && TypesGrow(c, env, names, env.(compounds := env.compounds[id := members]), names[id := d.name], next + 1, d, id)
  {
    var id := TypeId(next);
    assert ANY_TYPE in names;
    assert env.compounds[id := members].Keys == env.compounds.Keys + {id};
  }

  lemma NewFunction(c: Config, env: TypeEnv, names: Names, next: int, d: Decl, f: FunctionType)
    requires TypesOk(c, env, names, next) && d.FunctionDecl?
    ensures var id := TypeId(next);
      && id !in names
      && TypesGrow(c, env, names, env.(functions := env.functions[id := f]), names[id := d.name], next + 1, d, id)
  {
    var id := TypeId(next);
    assert ANY_TYPE in names;
    assert env.functions[id := f].Keys == env.functions.Keys + {id};
  }

  /** The environment and the names with one type more. */
  function WithFunction(env: TypeEnv, id: TypeId, f: FunctionType): TypeEnv {
    env.(functions := env.functions[id := f])
  }

  function WithClass(env: TypeEnv, id: TypeId, members: map<TypeId, seq<string>>): TypeEnv {
    env.(compounds := env.compounds[id := members])
  }

  lemma NewSignature(env: TypeEnv, names: Names, env': TypeEnv, names': Names, d: Decl, f: FunctionType)
    requires EnvGrows(env, names, env', names') && SignatureOk(env, names, f, d)
    ensures SignatureOk(env', names', f, d)
  {
    RefersStays(env, names, env', names', d.ret, f.ret);
    forall k | 0 <= k < |f.args|
      ensures Refers(env', names', d.args[k], f.args[k])
    {
      RefersStays(env, names, env', names', d.args[k], f.args[k]);
    }
  }

  /** A variable or an argument. */
  lemma OneMoreName(r: Registered, d: Decl, t: TypeId) returns (more: Registered)
    requires d.scope in r.scopes && (d.VariableDecl? || d.ArgumentDecl?)
    requires t in r.names && Refers(r.env, r.names, d.typ, t)
    ensures t != NOT_EXIST
    ensures more == r.(scopes := Added(r.scopes, d.scope, Definition(d.name, t, d.sid)),
                       log := r.log + [d], ids := r.ids + [t])
  {
    assert (r.log + [d])[|r.log|] == d && (r.ids + [t])[|r.log|] == t;
    more := OneMore(r, r.env, r.names, r.next, d, t);
  }

  lemma OneMoreFunction(r: Registered, d: Decl, f: FunctionType) returns (more: Registered)
    requires d.scope in r.scopes && SignatureOk(r.env, r.names, f, d)
    ensures var id := TypeId(r.next);
      && id != NOT_EXIST && EnvGrows(r.env, r.names, more.env, more.names)
      && more == r.(scopes := Added(r.scopes, d.scope, Definition(d.name, id, d.sid)),
                    env := WithFunction(r.env, id, f),
                    names := r.names[id := d.name], next := r.next + 1, log := r.log + [d], ids := r.ids + [id])
  {
    var id := TypeId(r.next);
    var env', names' := WithFunction(r.env, id, f), r.names[id := d.name];
    NewFunction(r.c, r.env, r.names, r.next, d, f);
    NewSignature(r.env, r.names, env', names', d, f);
    assert (r.log + [d])[|r.log|] == d && (r.ids + [id])[|r.log|] == id;
    more := OneMore(r, env', names', r.next + 1, d, id);
    assert ANY_TYPE in r.names;
  }

  lemma MembersNonEmpty(table: map<TypeId, seq<Definition>>)
    requires forall t :: t in table ==> table[t] != []
    ensures forall t :: t in MembersOf(table) ==> MembersOf(table)[t] != []
  {
  }

  lemma OneMoreClass(r: Registered, d: Decl) returns (more: Registered)
    requires d.scope in r.scopes && d.ClassDecl? && d.body in r.scopes
    ensures forall t :: t in r.scopes[d.body].table ==> r.scopes[d.body].table[t] != []
    ensures var id, members := TypeId(r.next), MembersOf(r.scopes[d.body].table);
      && id != NOT_EXIST
      && more == r.(scopes := Added(r.scopes, d.scope, Definition(d.name, id, d.sid)),
                    env := WithClass(r.env, id, members),
                    names := r.names[id := d.name], next := r.next + 1, log := r.log + [d], ids := r.ids + [id])
  {
    var id, members := TypeId(r.next), MembersOf(r.scopes[d.body].table);
    assert TableOk(r.scopes[d.body].table, r.names);
    MembersNonEmpty(r.scopes[d.body].table);
    NewClass(r.c, r.env, r.names, r.next, d, members);
    assert (r.log + [d])[..|r.log|] == r.log && (r.ids + [id])[..|r.log|] == r.ids;
    assert (r.log + [d])[|r.log|] == d && (r.ids + [id])[|r.log|] == id;
    more := OneMore(r, WithClass(r.env, id, members), r.names[id := d.name], r.next + 1, d, id);
    assert ANY_TYPE in r.names;
  }

  lemma NothingEntered(c: Config, bare: Scopes) returns (r: Registered)
    requires Usable(c)
    requires forall i :: i in bare ==> bare[i].table == map[]
    ensures r == Entries(c, bare, bare, TypeEnv(map[], map[], c.basics.Keys, {}, c.weak), c.basics, c.nextType, [], [])
  {
    r := Entries(c, bare, bare, TypeEnv(map[], map[], c.basics.Keys, {}, c.weak), c.basics, c.nextType, [], []);
  }
}
