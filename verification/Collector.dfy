/** The collection of definitions (create_symbol_table and the Collect methods in
    srcs/internal/srcs/var_definition.cpp): the symbol tables of the scopes and the types of the program
    grow while a tagged tree is read. */
module Collector {
  import opened Common
  import opened IrTree
  import opened Trimming
  import opened TypeGraph
  import opened Visibility
  import opened Symbols
  import opened Declarations
  import opened Registry

  // ---------------------------------------------------------------------------------------------
  // Members of a class
  // ---------------------------------------------------------------------------------------------

  /** The loop of CreateCompoundType: one `push_back` per member. */
  function Grouped(types: seq<TypeId>, names: seq<string>): map<TypeId, seq<string>>
    requires |types| == |names|
  {
    if types == [] then map[]
    else
      var k := |types| - 1;
      Appended(Grouped(types[..k], names[..k]), types[k], [names[k]])
  }

  lemma GroupedPush(types: seq<TypeId>, names: seq<string>, t: TypeId, name: string)
    requires |types| == |names|
    ensures Grouped(types + [t], names + [name]) == Appended(Grouped(types, names), t, [name])
  {
    assert (types + [t])[..|types|] == types && (names + [name])[..|names|] == names;
  }

  lemma {:induction false} GroupedHas(types: seq<TypeId>, names: seq<string>, t: TypeId)
    requires |types| == |names|
    ensures t in Grouped(types, names) ==> t in types && Grouped(types, names)[t] != []
  {
    if types != [] {
      GroupedHas(types[..|types| - 1], names[..|types| - 1], t);
    }
  }

  method GroupMembers(members: seq<TypeId>, memberNames: seq<string>) returns (grouped: map<TypeId, seq<string>>)
    requires |members| == |memberNames|
    ensures grouped == Grouped(members, memberNames)
    ensures forall t :: t in grouped ==> grouped[t] != []
  {
    grouped := map[];
    for k := 0 to |members|
      invariant grouped == Grouped(members[..k], memberNames[..k])
    {
      GroupedPush(members[..k], memberNames[..k], members[k], memberNames[k]);
      assert members[..k + 1] == members[..k] + [members[k]];
      assert memberNames[..k + 1] == memberNames[..k] + [memberNames[k]];
      grouped := Appended(grouped, members[k], [memberNames[k]]);
    }
    assert members[..|members|] == members && memberNames[..|members|] == memberNames;
    forall t | t in grouped
      ensures grouped[t] != []
    {
      GroupedHas(members, memberNames, t);
    }
  }

  /** The members of the types `done`. */
  function SomeMembers(table: map<TypeId, seq<Definition>>, done: set<TypeId>): map<TypeId, seq<string>> {
    map t | t in table && t in done :: NamesOf(table[t])
  }

  lemma MembersStep(table: map<TypeId, seq<Definition>>, done: set<TypeId>, t: TypeId)
    requires t in table && t !in done && table[t] != []
    ensures Appended(SomeMembers(table, done), t, NamesOf(table[t])) == SomeMembers(table, done + {t})
  {
    assert NamesOf(table[t]) != [];
    assert [] + NamesOf(table[t]) == NamesOf(table[t]);
  }

  /** The nested loops that list the members; grouping them again gives the table back. */
  method ListMembers(table: map<TypeId, seq<Definition>>) returns (types: seq<TypeId>, memberNames: seq<string>)
    requires forall t :: t in table ==> table[t] != []
    ensures |types| == |memberNames| && Grouped(types, memberNames) == MembersOf(table)
  {
    types, memberNames := [], [];
    var todo := table.Keys;
    ghost var done: set<TypeId> := {};
    while todo != {}
      invariant todo + done == table.Keys && todo !! done
      invariant |types| == |memberNames|
      invariant Grouped(types, memberNames) == SomeMembers(table, done)
      decreases todo
    {
      var t := AnyOf(todo);
      todo := todo - {t};
      types, memberNames := ListDefinitions(t, table[t], types, memberNames);
      MembersStep(table, done, t);
      done := done + {t};
    }
  }

  /** The inner loop. */
  method ListDefinitions(t: TypeId, defs: seq<Definition>, types: seq<TypeId>, memberNames: seq<string>)
    returns (types': seq<TypeId>, memberNames': seq<string>)
    requires |types| == |memberNames|
    ensures |types'| == |memberNames'|
    ensures Grouped(types', memberNames') == Appended(Grouped(types, memberNames), t, NamesOf(defs))
  {
    types', memberNames' := types, memberNames;
    for k := 0 to |defs|
      invariant |types'| == |memberNames'|
      invariant Grouped(types', memberNames') == Appended(Grouped(types, memberNames), t, NamesOf(defs[..k]))
    {
      GroupedPush(types', memberNames', t, defs[k].name);
      AppendedTwice(Grouped(types, memberNames), t, NamesOf(defs[..k]), [defs[k].name]);
      assert defs[..k + 1][..k] == defs[..k];
      types', memberNames' := types' + [t], memberNames' + [defs[k].name];
    }
    assert defs[..|defs|] == defs;
  }

  // ---------------------------------------------------------------------------------------------
  // The collector
  // ---------------------------------------------------------------------------------------------

  class SymbolCollector {
    const c: Config
    var scopes: Scopes
    var env: TypeEnv
    var names: Names
    var nextType: int
    var depth: nat
    ghost var reg: Registered

    /** The collector of a fresh scope tree, over the basic types of the configuration. */
    constructor (c: Config, scopes: Scopes)
      requires Usable(c)
      requires forall i :: i in scopes ==> scopes[i].table == map[]
      ensures Valid() && this.c == c && this.scopes == scopes && reg.bare == scopes && reg.log == [] && depth == 0
    {
      this.c, this.scopes, names := c, scopes, c.basics;
      env := TypeEnv(map[], map[], c.basics.Keys, {}, c.weak);
      nextType, depth := c.nextType, 0;
      reg := NO_ENTRIES;
      new;
      reg := NothingEntered(c, scopes);
    }

    /** The fields are those of `reg`: they are what its declarations make of the bare scopes. */
    ghost predicate Valid()
      reads this
    {
      reg.c == c && reg.scopes == scopes && reg.env == env && reg.names == names && reg.next == nextType
    }

    ghost function Log(): seq<Decl>
      reads this
    {
      reg.log
    }

    // ---------------------------------------------------------------------------------------------
    // The type system
    // ---------------------------------------------------------------------------------------------

    /** One loop of the lookup by name. */
    method FindNamed(ts: set<TypeId>, s: string) returns (r: Option<TypeId>)
      requires ts <= names.Keys
      ensures r.Some? ==> r.value in ts && names[r.value] == s
      ensures r.None? ==> forall k :: k in ts ==> names[k] != s
    {
      var todo := ts;
      r := None;
      while todo != {}
        invariant todo <= ts && r.None?
        invariant forall k :: k in ts && k !in todo ==> names[k] != s
        decreases todo
      {
        var k := AnyOf(todo);
        todo := todo - {k};
        if names[k] == s {
          return Some(k);
        }
      }
    }

    /** GetTypeIDByStr finds what the declarations so far determine. */
    method GetTypeIDByStr(s: string) returns (t: TypeId)
      requires Valid()
      ensures FoundAs(env, names, s, t) && Finds(env, names, Lookup(c, Log(), s), t)
    {
      var r := FindNamed(env.basics, s);
      if r.None? {
        r := FindNamed(env.compounds.Keys, s);
      }
      if r.None? {
        r := FindNamed(env.functions.Keys, s);
      }
      t := OrElse(r, NOT_EXIST);
      LookupMatches(reg, s, t);
    }

    method CreateFunctionType(name: string, ret: TypeId, args: seq<TypeId>) returns (id: TypeId)
      modifies this`env, this`names, this`nextType
      ensures id == TypeId(old(nextType)) && nextType == old(nextType) + 1
      ensures env == WithFunction(old(env), id, FunctionType(name, ret, args))
      ensures names == old(names)[id := name]
    {
      id := TypeId(nextType);
      nextType := nextType + 1;
      env := env.(functions := env.functions[id := FunctionType(name, ret, args)]);
      names := names[id := name];
    }

    method CreateCompoundType(name: string, members: seq<TypeId>, memberNames: seq<string>) returns (id: TypeId)
      requires |members| == |memberNames|
      modifies this`env, this`names, this`nextType
      ensures id == TypeId(old(nextType)) && nextType == old(nextType) + 1
      ensures env == WithClass(old(env), id, Grouped(members, memberNames))
      ensures names == old(names)[id := name]
    {
      id := TypeId(nextType);
      var grouped := GroupMembers(members, memberNames);
      nextType := nextType + 1;
      env := env.(compounds := env.compounds[id := grouped]);
      names := names[id := name];
    }

    /** The type of a class with the definitions of a table as members. */
    method CreateClassType(name: string, table: map<TypeId, seq<Definition>>) returns (id: TypeId)
      requires forall t :: t in table ==> table[t] != []
      modifies this`env, this`names, this`nextType
      ensures id == TypeId(old(nextType)) && nextType == old(nextType) + 1
      ensures env == WithClass(old(env), id, MembersOf(table)) && names == old(names)[id := name]
    {
      var types, memberNames := ListMembers(table);
      id := CreateCompoundType(name, types, memberNames);
    }

    // ---------------------------------------------------------------------------------------------
    // Entering definitions
    // ---------------------------------------------------------------------------------------------

    /** Scope::AddDefinition: a definition of a type that does not exist is dropped. */
    method AddDefinition(i: ScopeId, name: string, t: TypeId, sid: nat)
      requires i in scopes
      modifies this`scopes
      ensures scopes == if t == NOT_EXIST then old(scopes) else Added(old(scopes), i, Definition(name, t, sid))
    {
      if t != NOT_EXIST {
        var table := scopes[i].table;
        var defs := (if t in table then table[t] else []) + [Definition(name, t, sid)];
        scopes := scopes[i := scopes[i].(table := table[t := defs])];
      }
    }

    /** A variable or an argument of the type it refers to. */
    method EnterName(t: TypeId, name: string, sid: nat, at: ScopeId, ghost d: Decl)
      requires Valid() && at in scopes && t in names && d.name == name && d.sid == sid && d.scope == at
      requires (d.VariableDecl? || d.ArgumentDecl?) && Refers(env, names, d.typ, t)
      modifies this`scopes, this`reg
      ensures Valid() && reg.bare == old(reg.bare) && Log() == old(Log()) + [d] && scopes.Keys == old(scopes).Keys
    {
      hide Entries.Mirror, Refers;
      ghost var more := OneMoreName(reg, d, t);
      AddDefinition(at, name, t, sid);
      reg := more;
    }

    // ---------------------------------------------------------------------------------------------
    // Variables
    // ---------------------------------------------------------------------------------------------

    /** The type of the variables of a definition. */
    method TypeOfVariables(cur: Tree) returns (ok: bool, typ: TypeId)
      requires Valid()
      ensures ok <==> VariableRef(c, Log(), cur).Some?
      ensures ok ==> typ in names && Refers(env, names, VariableRef(c, Log(), cur).value, typ)
      ensures ok && !TypeNamed(c.fmt, cur, names[typ]) ==>
        typ == ANY_TYPE && (First(cur, VariableType, DataDefault).None? || c.weak)
    {
      hide TypeNamed;
      VariableRefNames(c, Log(), cur);
      typ := ANY_TYPE;
      var typeNode := First(cur, VariableType, DataDefault);
      if typeNode.Some? {
        typ := GetTypeIDByStr(TrimBoth(ToText(c.fmt, typeNode.value)));
        if typ == NOT_EXIST && env.weak {
          typ := ANY_TYPE;
        }
      }
      ok := typ != NOT_EXIST;
    }

    /** CollectSimpleVariableDefinition: every variable name of the definition, under its own id. */
    method CollectSimpleVariableDefinition(cur: Tree) returns (ok: bool)
      requires Valid() && cur.Node? && Known(cur, scopes.Keys)
      modifies this`scopes, this`reg
      ensures ok <==> CollectVariables(c, old(Log()), cur).Some?
      ensures ok ==> Valid() && reg.bare == old(reg.bare) && Log() == CollectVariables(c, old(Log()), cur).value
      ensures ok ==> scopes.Keys == old(scopes).Keys
    {
      hide Entries.Mirror, Refers;
      var nameVec := SearchByDataType(cur, VariableName, [], DataDefault);
      assert nameVec == All(cur, VariableName, DataDefault);
      var typ;
      ok, typ := TypeOfVariables(cur);
      if ok {
        forall n | n in nameVec
          ensures n.Node?
        {
          AllAreNodes(cur, VariableName, DataDefault, n);
        }
        EnterVariables(cur.info.scopeId, nameVec, typ, VariableRef(c, Log(), cur).value);
      }
    }

    /** The loop over the names. */
    method EnterVariables(at: ScopeId, nameVec: seq<Tree>, typ: TypeId, ghost ref: TypeRef)
      requires Valid() && at in scopes && typ in names && Refers(env, names, ref, typ)
      requires forall n :: n in nameVec ==> n.Node?
      modifies this`scopes, this`reg
      ensures Valid() && reg.bare == old(reg.bare) && Log() == old(Log()) + VariableDecls(c.fmt, at, nameVec, ref)
        && scopes.Keys == old(scopes).Keys
    {
      hide Entries.Mirror, Refers;
      for k := 0 to |nameVec|
        invariant Valid() && scopes.Keys == old(scopes).Keys
        invariant reg.bare == old(reg.bare) && Log() == old(Log()) + VariableDecls(c.fmt, at, nameVec[..k], ref)
      {
        assert nameVec[..k + 1] == nameVec[..k] + [nameVec[k]];
        EnterVariable(at, nameVec[k], typ, ref, old(Log()), nameVec[..k]);
      }
      assert nameVec[..|nameVec|] == nameVec;
    }

    /** One name more. */
    method EnterVariable(at: ScopeId, n: Tree, typ: TypeId, ghost ref: TypeRef, ghost log0: seq<Decl>,
                         ghost done: seq<Tree>)
      requires Valid() && at in scopes && n.Node? && typ in names && Refers(env, names, ref, typ)
      requires Log() == log0 + VariableDecls(c.fmt, at, done, ref)
      modifies this`scopes, this`reg
      ensures Valid() && reg.bare == old(reg.bare) && Log() == log0 + VariableDecls(c.fmt, at, done + [n], ref)
        && scopes.Keys == old(scopes).Keys
    {
      hide Entries.Mirror, Refers;
      assert (done + [n])[..|done|] == done;
      ghost var d := VariableDecl(at, ToText(c.fmt, n), n.info.sid, ref);
      Regroup(log0, VariableDecls(c.fmt, at, done, ref), [d]);
      EnterName(typ, ToText(c.fmt, n), n.info.sid, at, d);
    }

    // ---------------------------------------------------------------------------------------------
    // Functions
    // ---------------------------------------------------------------------------------------------

    /** The return type, if it is given and known. */
    method ReturnType(cur: Tree) returns (ret: TypeId)
      requires Valid()
      ensures Finds(env, names, ReturnRef(c, Log(), cur), ret)
      ensures ret != NOT_EXIST ==> ReturnNamed(c.fmt, cur, names[ret])
    {
      ReturnRefNames(c, Log(), cur);
      var node := First(cur, FunctionReturnType, FunctionBody);
      ret := NOT_EXIST;
      if node.Some? {
        ret := GetTypeIDByStr(TrimBoth(CutKeyword(ToText(c.fmt, node.value))));
      }
    }

    /** One argument: its name and its type. */
    method ReadArgument(arg: Tree) returns (ok: bool, typ: TypeId, name: string)
      requires Valid()
      ensures ok <==> ArgumentRef(c, Log(), arg).Some?
      ensures ok ==> Finds(env, names, ArgumentRef(c, Log(), arg), typ) && name == ArgumentName(c.fmt, arg)
    {
      hide Entries.Mirror;
      var typeNode, nameNode := First(arg, VariableType, DataDefault), First(arg, VariableName, DataDefault);
      ok, typ, name := false, NOT_EXIST, "";
      if nameNode.Some? && typeNode.Some? {
        name := TrimBoth(ToText(c.fmt, nameNode.value));
        typ := GetTypeIDByStr(TrimBoth(ToText(c.fmt, typeNode.value)));
        ok := typ != NOT_EXIST;
      }
    }

    /** The loop over the arguments. */
    method ReadArguments(args: seq<Tree>) returns (ok: bool, types: seq<TypeId>, argNames: seq<string>)
      requires Valid()
      ensures ok <==> ArgumentRefs(c, Log(), args).Some?
      ensures ok ==> ArgumentsRead(c.fmt, env, names, args, ArgumentRefs(c, Log(), args).value, types, argNames)
      ensures ok ==> forall k :: 0 <= k < |args| ==> ArgumentNamed(c.fmt, args[k], argNames[k])
      ensures ok ==> forall k :: 0 <= k < |args| ==> types[k] in names && TypeNamed(c.fmt, args[k], names[types[k]])
    {
      hide Entries.Mirror;
      ok, types, argNames := true, [], [];
      ghost var refs: seq<TypeRef> := [];
      ghost var e, ns, l := env, names, Log();
      for k := 0 to |args|
        invariant env == e && names == ns && Log() == l && Valid()
        invariant ArgumentRefs(c, l, args[..k]) == Some(refs)
          && ArgumentsRead(c.fmt, e, ns, args[..k], refs, types, argNames)
      {
        var typ, name;
        ok, typ, name := ReadArgument(args[k]);
        OneMoreArgument(c, l, args[..k], refs, args[k]);
        assert args[..k + 1] == args[..k] + [args[k]];
        if !ok {
          ArgumentFails(c, l, args, k + 1);
          return;
        }
        ghost var ref := ArgumentRef(c, l, args[k]).value;
        OneMoreRead(c.fmt, e, ns, args[..k], refs, types, argNames, args[k], ref, typ, name);
        refs, types, argNames := refs + [ref], types + [typ], argNames + [name];
      }
      ok := true;
      assert args[..|args|] == args;
      ReadIsNamed(c, l, args, e, ns, refs, types, argNames);
    }

    /** The function itself, unless its return type is unknown: a new function type with this signature, and a
        definition under the id of the name. */
    method EnterFunction(at: ScopeId, name: string, sid: nat, ret: TypeId, types: seq<TypeId>,
                         ghost retRef: Option<TypeRef>, ghost refs: seq<TypeRef>)
      requires Valid() && at in scopes && Finds(env, names, retRef, ret) && |types| == |refs|
      requires forall k :: 0 <= k < |refs| ==> Refers(env, names, refs[k], types[k])
      modifies this`scopes, this`env, this`names, this`nextType, this`reg
      ensures Valid() && scopes.Keys == old(scopes).Keys && EnvGrows(old(env), old(names), env, names)
      ensures reg.bare == old(reg.bare)
        && Log() == old(Log()) + if retRef.None? then [] else [FunctionDecl(at, name, sid, retRef.value, refs)]
    {
      hide Entries.Mirror, Refers;
      if ret != NOT_EXIST {
        ghost var d := FunctionDecl(at, name, sid, retRef.value, refs);
        ghost var more := OneMoreFunction(reg, d, FunctionType(name, ret, types));
        var id := CreateFunctionType(name, ret, types);
        AddDefinition(at, name, id, sid);
        reg := more;
      } else {
        assert Log() + [] == Log();
      }
    }

    /** The arguments, in the scope of the body, under the id of the whole definition. */
    method EnterArguments(at: ScopeId, sid: nat, types: seq<TypeId>, argNames: seq<string>,
                          ghost args: seq<Tree>, ghost refs: seq<TypeRef>)
      requires Valid() && at in scopes && ArgumentsRead(c.fmt, env, names, args, refs, types, argNames)
      modifies this`scopes, this`reg
      ensures Valid() && reg.bare == old(reg.bare)
        && Log() == old(Log()) + ArgumentDecls(c.fmt, at, sid, args, refs) && scopes.Keys == old(scopes).Keys
    {
      hide Entries.Mirror, Refers;
      for k := 0 to |types|
        invariant Valid() && scopes.Keys == old(scopes).Keys
        invariant reg.bare == old(reg.bare) && Log() == old(Log()) + ArgumentDecls(c.fmt, at, sid, args[..k], refs[..k])
      {
        assert args[..k + 1] == args[..k] + [args[k]] && refs[..k + 1] == refs[..k] + [refs[k]];
        EnterArgument(at, sid, types[k], argNames[k], args[k], refs[k], old(Log()), args[..k], refs[..k]);
      }
      assert args[..|args|] == args && refs[..|refs|] == refs;
    }

    /** One argument more. */
    method EnterArgument(at: ScopeId, sid: nat, typ: TypeId, name: string, ghost arg: Tree, ghost ref: TypeRef,
                         ghost log0: seq<Decl>, ghost args: seq<Tree>, ghost refs: seq<TypeRef>)
      requires Valid() && at in scopes && typ in names && Refers(env, names, ref, typ)
        && name == ArgumentName(c.fmt, arg)
      requires |args| == |refs| && Log() == log0 + ArgumentDecls(c.fmt, at, sid, args, refs)
      modifies this`scopes, this`reg
      ensures Valid() && reg.bare == old(reg.bare)
        && Log() == log0 + ArgumentDecls(c.fmt, at, sid, args + [arg], refs + [ref])
      ensures scopes.Keys == old(scopes).Keys
    {
      hide Entries.Mirror, Refers;
      assert (args + [arg])[..|args|] == args && (refs + [ref])[..|refs|] == refs;
      ghost var d := ArgumentDecl(at, name, sid, ref);
      Regroup(log0, ArgumentDecls(c.fmt, at, sid, args, refs), [d]);
      EnterName(typ, name, sid, at, d);
    }

    /** CollectFunctionDefinition. */
    method CollectFunctionDefinition(cur: Tree) returns (ok: bool)
      requires Valid() && depth >= 1 && cur.Node? && Defines(cur.info.dataType) && Known(cur, scopes.Keys)
      modifies this
      ensures ok <==> CollectFunction(c, old(Log()), cur).Some?
      ensures ok ==> Valid() && reg.bare == old(reg.bare) && Log() == CollectFunction(c, old(Log()), cur).value
      ensures ok ==> depth == old(depth) && scopes.Keys == old(scopes).Keys
      decreases Size(cur), 1
    {
      hide Entries.Mirror;
      var name := First(cur, FunctionName, FunctionBody);
      if name.None? {
        return false;
      }
      var nameStr := StripString(ToText(c.fmt, name.value));
      if nameStr == "" {
        return true;
      }
      ok := CollectNamedFunction(cur, nameStr, name.value.info.sid);
    }

    /** A function with a name: its signature is read and entered, then its arguments and body. */
    method CollectNamedFunction(cur: Tree, name: string, sid: nat) returns (ok: bool)
      requires Valid() && depth >= 1 && cur.Node? && Defines(cur.info.dataType) && Known(cur, scopes.Keys)
      modifies this
      ensures ok <==> CollectNamed(c, old(Log()), cur, name, sid).Some?
      ensures ok ==> Valid() && reg.bare == old(reg.bare) && Log() == CollectNamed(c, old(Log()), cur, name, sid).value
      ensures ok ==> depth == old(depth) && scopes.Keys == old(scopes).Keys
      decreases Size(cur), 0, 2
    {
      hide Entries.Mirror, ArgumentsRead;
      var arguments := SearchByDataType(cur, FunctionArgument, [], FunctionBody);
      assert arguments == All(cur, FunctionArgument, FunctionBody);
      var types, argNames;
      ghost var refs;
      ok, types, argNames, refs := CollectSignature(cur, name, sid, arguments);
      if ok {
        ok := CollectFunctionBody(cur, types, argNames, arguments, refs);
      }
    }

    /** The signature: return type and arguments are looked up by name. */
    method CollectSignature(cur: Tree, name: string, sid: nat, arguments: seq<Tree>)
      returns (ok: bool, types: seq<TypeId>, argNames: seq<string>, ghost refs: seq<TypeRef>)
      requires Valid() && cur.Node? && cur.info.scopeId in scopes
      modifies this`scopes, this`env, this`names, this`nextType, this`reg
      ensures ok <==> ArgumentRefs(c, old(Log()), arguments).Some?
      ensures ok ==> refs == ArgumentRefs(c, old(Log()), arguments).value
      ensures ok ==> Valid() && reg.bare == old(reg.bare)
      ensures ok ==> Log() == old(Log()) + FunctionDecls(c, old(Log()), cur, name, sid, refs)
      ensures ok ==> forall d :: d in FunctionDecls(c, old(Log()), cur, name, sid, refs) ==>
        d.FunctionDecl? && d.ret.Ref? && ReturnNamed(c.fmt, cur, d.ret.name)
      ensures ok ==> ArgumentsRead(c.fmt, env, names, arguments, refs, types, argNames)
      ensures ok ==> scopes.Keys == old(scopes).Keys
    {
      hide Entries.Mirror, Refers, EnvGrows, ReturnNamed;
      ReturnRefNames(c, Log(), cur);
      var ret := ReturnType(cur);
      ok, types, argNames := ReadArguments(arguments);
      if ok {
        refs := ArgumentRefs(c, Log(), arguments).value;
        ghost var env0, names0 := env, names;
        EnterFunction(cur.info.scopeId, name, sid, ret, types, ReturnRef(c, Log(), cur), refs);
        StillRead(c.fmt, env0, names0, env, names, arguments, refs, types, argNames);
      } else {
        refs := [];
      }
    }

    /** The rest: the arguments and the body, if there is one. */
    method CollectFunctionBody(cur: Tree, types: seq<TypeId>, argNames: seq<string>,
                               ghost args: seq<Tree>, ghost refs: seq<TypeRef>) returns (ok: bool)
      requires Valid() && depth >= 1 && cur.Node? && Defines(cur.info.dataType) && Known(cur, scopes.Keys)
      requires args == All(cur, FunctionArgument, FunctionBody)
      requires ArgumentsRead(c.fmt, env, names, args, refs, types, argNames)
      modifies this
      ensures ok <==> CollectBody(c, old(Log()), cur, refs).Some?
      ensures ok ==> Valid() && reg.bare == old(reg.bare) && Log() == CollectBody(c, old(Log()), cur, refs).value
      ensures ok ==> depth == old(depth) && scopes.Keys == old(scopes).Keys
      decreases Size(cur), 0, 1
    {
      hide Entries.Mirror, ArgumentsRead;
      var body := First(cur, FunctionBody, DataDefault);
      ok := true;
      if body.Some? {
        FirstIsKnown(cur, FunctionBody, DataDefault, scopes.Keys);
        ok := CollectArgumentsAndBody(cur, body.value, types, argNames, args, refs);
      }
    }

    method CollectArgumentsAndBody(cur: Tree, body: Tree, types: seq<TypeId>, argNames: seq<string>,
                                   ghost args: seq<Tree>, ghost refs: seq<TypeRef>) returns (ok: bool)
      requires Valid() && depth >= 1 && cur.Node? && body.Node? && Size(body) < Size(cur) && Known(body, scopes.Keys)
      requires ArgumentsRead(c.fmt, env, names, args, refs, types, argNames)
      modifies this
      ensures ok <==> CollectInner(c, old(Log()), cur, body, args, refs).Some?
      ensures ok ==> Valid() && reg.bare == old(reg.bare)
      ensures ok ==> Log() == CollectInner(c, old(Log()), cur, body, args, refs).value
      ensures ok ==> depth == old(depth) && scopes.Keys == old(scopes).Keys
      decreases Size(cur), 0, 0
    {
      hide Entries.Mirror, ArgumentsRead;
      EnterArguments(body.info.scopeId, cur.info.sid, types, argNames, args, refs);
      ok := CreateSymbolTable(body);
    }

    // ---------------------------------------------------------------------------------------------
    // Classes
    // ---------------------------------------------------------------------------------------------

    /** CollectStructureDefinition: the body is collected first; what its scope holds then become the members of
        a new class. */
    method CollectStructureDefinition(cur: Tree) returns (ok: bool)
      requires Valid() && depth >= 1 && cur.Node? && Defines(cur.info.dataType) && Known(cur, scopes.Keys)
      modifies this
      ensures ok <==> CollectClass(c, old(Log()), cur).Some?
      ensures ok ==> Valid() && reg.bare == old(reg.bare) && Log() == CollectClass(c, old(Log()), cur).value
      ensures ok ==> depth == old(depth) && scopes.Keys == old(scopes).Keys
      decreases Size(cur), 1
    {
      hide Entries.Mirror;
      var name, body := First(cur, ClassName, DataDefault), First(cur, ClassBody, DataDefault);
      if cur.info.dataType != ClassDefinition || body.None? || name.None? || !name.value.info.data.Str? {
        return false;
      }
      FirstIsKnown(cur, ClassBody, DataDefault, scopes.Keys);
      ok := CollectClassBody(cur, TrimBoth(name.value.info.data.s), body.value);
    }

    method CollectClassBody(cur: Tree, name: string, body: Tree) returns (ok: bool)
      requires Valid() && depth >= 1 && cur.Node? && body.Node? && Size(body) < Size(cur)
      requires Known(body, scopes.Keys) && cur.info.scopeId in scopes
      modifies this
      ensures ok <==> CollectNamedClass(c, old(Log()), cur, name, body).Some?
      ensures ok ==> Valid() && reg.bare == old(reg.bare)
      ensures ok ==> Log() == CollectNamedClass(c, old(Log()), cur, name, body).value
      ensures ok ==> depth == old(depth) && scopes.Keys == old(scopes).Keys
      decreases Size(cur), 0
    {
      hide Entries.Mirror;
      ok := CreateSymbolTable(body);
      if ok {
        EnterClass(cur.info.scopeId, name, cur.info.sid, body.info.scopeId);
      }
    }

    /** The class itself: a new class type with the definitions in the scope of the body as members, and a
        definition under the id of the whole definition. */
    method EnterClass(at: ScopeId, name: string, sid: nat, body: ScopeId)
      requires Valid() && at in scopes && body in scopes
      modifies this`scopes, this`env, this`names, this`nextType, this`reg
      ensures Valid() && scopes.Keys == old(scopes).Keys
      ensures reg.bare == old(reg.bare) && Log() == old(Log()) + [ClassDecl(at, name, sid, body)]
    {
      hide Entries.Mirror;
      ghost var more := OneMoreClass(reg, ClassDecl(at, name, sid, body));
      var id := CreateClassType(name, scopes[body].table);
      AddDefinition(at, name, id, sid);
      reg := more;
    }

    // ---------------------------------------------------------------------------------------------
    // The recursion
    // ---------------------------------------------------------------------------------------------

    /** collect_definition: an outermost definition is collected by its kind. */
    method CollectDefinition(cur: Tree) returns (ok: bool)
      requires Valid() && depth >= 1 && cur.Node? && Known(cur, scopes.Keys)
      modifies this
      ensures ok <==> Collect(c, old(Log()), cur).Some?
      ensures ok ==> Valid() && reg.bare == old(reg.bare) && Log() == Collect(c, old(Log()), cur).value
      ensures ok ==> depth == old(depth) && scopes.Keys == old(scopes).Keys
      decreases Size(cur), 2
    {
      hide Entries.Mirror;
      if !Defines(cur.info.dataType) {
        ok := CollectChildren(cur);
        return;
      }
      var kind := FindDefineType(cur);
      if kind == ClassDefinition {
        ok := CollectStructureDefinition(cur);
      } else if kind == FunctionDefinition {
        ok := CollectFunctionDefinition(cur);
      } else {
        ok := CollectSimpleVariableDefinition(cur);
      }
    }

    /** A node that is not a definition: its children, left before right. */
    method CollectChildren(cur: Tree) returns (ok: bool)
      requires Valid() && depth >= 1 && cur.Node? && Known(cur, scopes.Keys) && !Defines(cur.info.dataType)
      modifies this
      ensures ok <==> Collect(c, old(Log()), cur).Some?
      ensures ok ==> Valid() && reg.bare == old(reg.bare) && Log() == Collect(c, old(Log()), cur).value
      ensures ok ==> depth == old(depth) && scopes.Keys == old(scopes).Keys
      decreases Size(cur), 1, 1
    {
      hide Entries.Mirror;
      ok := CollectChild(cur, cur.left);
      if ok {
        ok := CollectChild(cur, cur.right);
      }
    }

    /** The recursive call for a child, if there is one. */
    method CollectChild(cur: Tree, child: Tree) returns (ok: bool)
      requires Valid() && depth >= 1 && Known(child, scopes.Keys) && Size(child) < Size(cur)
      modifies this
      ensures ok <==> Collect(c, old(Log()), child).Some?
      ensures ok ==> Valid() && reg.bare == old(reg.bare) && Log() == Collect(c, old(Log()), child).value
      ensures ok ==> depth == old(depth) && scopes.Keys == old(scopes).Keys
      decreases Size(cur), 1, 0
    {
      hide Entries.Mirror;
      ok := true;
      if child.Node? {
        ok := CollectDefinition(child);
      }
    }

    /** create_symbol_table.  A whole program with more than 250 nodes is not collected at all; the limit
        does not apply to the bodies of classes and functions.  (The result of the source is ignored by its
        callers; `ok` says that no assertion failed and no null pointer was followed.) */
    method CreateSymbolTable(root: Tree) returns (ok: bool)
      requires Valid() && root.Node? && Known(root, scopes.Keys)
      modifies this
      ensures ok <==> CollectAt(c, old(depth), old(Log()), root).Some?
      ensures ok ==> Valid() && reg.bare == old(reg.bare) && Log() == CollectAt(c, old(depth), old(Log()), root).value
      ensures ok ==> depth == old(depth) && scopes.Keys == old(scopes).Keys
      decreases Size(root), 3
    {
      hide Entries.Mirror;
      ok := true;
      depth := depth + 1;
      if depth == 1 && Size(root) > MAX_NODES {
        depth := depth - 1;
        return;
      }
      var contains := IsContainDefinition(root);
      if contains {
        ok := CollectDefinition(root);
      } else {
        NothingDeclared(c, Log(), root);
      }
      if ok {
        depth := depth - 1;
      }
    }
  }

  /** What a call at some depth of the recursion collects. */
  ghost function CollectAt(c: Config, depth: nat, log: seq<Decl>, root: Tree): Option<seq<Decl>> {
    if depth == 0 && Size(root) > MAX_NODES then Some(log) else Collect(c, log, root)
  }

  lemma {:induction false} NothingDeclared(c: Config, log: seq<Decl>, t: Tree)
    requires !HasDefinition(t)
    ensures Collect(c, log, t) == Some(log)
  {
    if t.Node? {
      NothingDeclared(c, log, t.left);
      NothingDeclared(c, log, t.right);
    }
  }

  /** The types and names read for the arguments are those referred to. */
  ghost predicate ArgumentsRead(fmt: Format, env: TypeEnv, names: Names, args: seq<Tree>, refs: seq<TypeRef>,
                                types: seq<TypeId>, argNames: seq<string>) {
    && |types| == |argNames| == |args| == |refs|
    && (forall k :: 0 <= k < |args| ==> types[k] in names && Refers(env, names, refs[k], types[k]))
    && (forall k :: 0 <= k < |args| ==> argNames[k] == ArgumentName(fmt, args[k]))
  }

  /** The arguments were found by the texts of their nodes. */
  lemma ReadIsNamed(c: Config, log: seq<Decl>, args: seq<Tree>, env: TypeEnv, names: Names, refs: seq<TypeRef>,
                    types: seq<TypeId>, argNames: seq<string>)
    requires ArgumentRefs(c, log, args) == Some(refs) && ArgumentsRead(c.fmt, env, names, args, refs, types, argNames)
    ensures forall k :: 0 <= k < |args| ==> ArgumentNamed(c.fmt, args[k], argNames[k])
    ensures forall k :: 0 <= k < |args| ==> types[k] in names && TypeNamed(c.fmt, args[k], names[types[k]])
  {
    hide ArgumentNamed, TypeNamed, ArgumentRef;
    forall k | 0 <= k < |args|
      ensures ArgumentNamed(c.fmt, args[k], argNames[k])
      ensures types[k] in names && TypeNamed(c.fmt, args[k], names[types[k]])
    {
      RefOfArgument(c, log, args, k);
      ArgumentRefNames(c, log, args[k]);
    }
  }

  lemma {:induction false} RefOfArgument(c: Config, log: seq<Decl>, args: seq<Tree>, k: nat)
    requires ArgumentRefs(c, log, args).Some? && k < |args|
    ensures ArgumentRef(c, log, args[k]) == Some(ArgumentRefs(c, log, args).value[k])
  {
    hide ArgumentRef;
    if k < |args| - 1 {
      RefOfArgument(c, log, args[..|args| - 1], k);
    }
  }

  lemma OneMoreArgument(c: Config, log: seq<Decl>, args: seq<Tree>, refs: seq<TypeRef>, arg: Tree)
    requires ArgumentRefs(c, log, args) == Some(refs)
    ensures var ref := ArgumentRef(c, log, arg);
      ArgumentRefs(c, log, args + [arg]) == if ref.None? then None else Some(refs + [ref.value])
  {
    assert (args + [arg])[..|args|] == args;
  }

  lemma OneMoreRead(fmt: Format, env: TypeEnv, names: Names, args: seq<Tree>, refs: seq<TypeRef>, types: seq<TypeId>,
                    argNames: seq<string>, arg: Tree, ref: TypeRef, typ: TypeId, name: string)
    requires ArgumentsRead(fmt, env, names, args, refs, types, argNames)
    requires typ in names && Refers(env, names, ref, typ) && name == ArgumentName(fmt, arg)
    ensures ArgumentsRead(fmt, env, names, args + [arg], refs + [ref], types + [typ], argNames + [name])
  {
  }

  lemma StillRead(fmt: Format, env: TypeEnv, names: Names, env': TypeEnv, names': Names, args: seq<Tree>,
                  refs: seq<TypeRef>, types: seq<TypeId>, argNames: seq<string>)
    requires EnvGrows(env, names, env', names') && ArgumentsRead(fmt, env, names, args, refs, types, argNames)
    ensures ArgumentsRead(fmt, env', names', args, refs, types, argNames)
  {
    forall k | 0 <= k < |args|
      ensures Refers(env', names', refs[k], types[k])
    {
      RefersStays(env, names, env', names', refs[k], types[k]);
    }
  }

  /** One unreadable argument is enough. */
  lemma {:induction false} ArgumentFails(c: Config, log: seq<Decl>, args: seq<Tree>, k: nat)
    requires k <= |args| && ArgumentRefs(c, log, args[..k]).None?
    ensures ArgumentRefs(c, log, args).None?
    decreases |args|
  {
    if k == |args| {
      assert args[..k] == args;
    } else {
      var front := args[..|args| - 1];
      assert front[..k] == args[..k];
      ArgumentFails(c, log, front, k);
    }
  }
}
