/** Every type the satisfiable table promises really has an expression over the visible variables. */
module Inhabitation {
  import opened Common
  import opened TypeGraph
  import opened Visibility
  import opened Satisfiable
  import opened Expressions
  import opened Generator

  /** No numeric filler, except among the arguments of a method at the end of a member path. */
  predicate Solid(e: Expr) {
    match e
    case Number(_) => false
    case Variable(_) => true
    case Call(_, args) => forall i :: 0 <= i < |args| ==> Solid(args[i])
    case Access(_, _, _) => true
  }

  ghost predicate Inhabited(env: TypeEnv, vars: VarMaps, t: TypeId) {
    exists e :: HasType(env, vars, e, t) && Solid(e)
  }

  ghost predicate HasPath(env: TypeEnv, vars: VarMaps, c: TypeId, t: TypeId) {
    exists path :: PathFits(env, vars, c, path, t)
  }

  lemma SolvedHasPath(env: TypeEnv, vars: VarMaps, c: TypeId, t: TypeId)
    requires env.WellFormed() && Solves(env, c, t)
    ensures HasPath(env, vars, c, t)
  {
    if t in env.compounds[c] {
      assert env.compounds[c][t] != [];
      FieldPath(env, vars, c, t, env.compounds[c][t][0], [], t);
    } else {
      var m :| m in env.compounds[c].Keys && ReturnedBy(env, m, t);
      var args := seq(|env.functions[m].args|, _ => Number(0));
      MethodPath(env, vars, c, m, args);
    }
  }

  lemma {:induction false} WalkHasPath(env: TypeEnv, vars: VarMaps, walk: seq<TypeId>, t: TypeId)
    requires env.WellFormed() && IsWalk(env, walk) && Solves(env, walk[|walk| - 1], t)
    ensures HasPath(env, vars, walk[0], t)
  {
    if |walk| == 1 {
      SolvedHasPath(env, vars, walk[0], t);
    } else {
      var c, m, rest := walk[0], walk[1], walk[1..];
      forall i | 0 <= i < |rest| - 1
        ensures Edge(env, rest[i], rest[i + 1])
      {
        assert rest[i] == walk[i + 1] && rest[i + 1] == walk[i + 2];
      }
      WalkHasPath(env, vars, rest, t);
      var sub :| PathFits(env, vars, m, sub, t);
      assert Edge(env, walk[0], walk[1]);
      assert env.compounds[c][m] != [];
      FieldPath(env, vars, c, m, env.compounds[c][m][0], sub, t);
    }
  }

  /** A compound has a member path to everything it is reported to give. */
  lemma GivesHasPath(env: TypeEnv, vars: VarMaps, c: TypeId, t: TypeId)
    requires env.WellFormed() && Gives(env, c, t)
    ensures HasPath(env, vars, c, t)
  {
    if c == t {
      assert PathFits(env, vars, c, [], t);
    } else {
      ObtainableHasMember(env, c, t);
      var d :| d in ReachableFrom(env, c) && Solves(env, d, t);
      var walk :| Joins(env, walk, c, d);
      WalkHasPath(env, vars, walk, t);
    }
  }

  predicate AllFields(path: seq<Step>) {
    forall k :: 0 <= k < |path| ==> path[k].Field?
  }

  /** Every compound or basic type that a path of fields leads to is obtainable. */
  lemma {:induction false} FieldsObtain(env: TypeEnv, vars: VarMaps, c: TypeId, path: seq<Step>, t: TypeId)
    requires path != [] && AllFields(path) && PathFits(env, vars, c, path, t)
    requires t in env.compounds || (t !in env.functions && t in env.basics)
    ensures t in ObtainableTypes(env, c)
  {
    var d := FieldsReach(env, vars, c, path, t);
    assert MemberGives(env, c, d, t, t);
    ObtainableIff(env, c, t);
  }

  lemma {:induction false} FieldsReach(env: TypeEnv, vars: VarMaps, c: TypeId, path: seq<Step>, t: TypeId)
    returns (d: TypeId)
    requires path != [] && AllFields(path) && PathFits(env, vars, c, path, t)
    ensures d in env.compounds && t in env.compounds[d] && Reachable(env, c, d)
    decreases |path|
  {
    var m := path[0].typ;
    if |path| == 1 {
      d := c;
      ReachableSelf(env, c);
    } else {
      d := FieldsReach(env, vars, m, path[1..], t);
      assert Edge(env, c, m);
      ReachableStep(env, c, m, d);
    }
  }

  /** So it is a key of the table. */
  lemma FieldsReachKey(env: TypeEnv, vars: VarMaps, callable: set<TypeId>, table: Table, c: TypeId, path: seq<Step>,
                       t: TypeId)
    requires Satisfiables(env, vars, callable, table) && c in vars.compound
    requires AllFields(path) && PathFits(env, vars, c, path, t)
    requires t in env.compounds || (t !in env.functions && t in env.basics)
    ensures t in table
  {
    TableKeys(env, vars, callable, table, t);
    if path != [] {
      FieldsObtain(env, vars, c, path, t);
    }
  }

  lemma AvailableIsInhabited(env: TypeEnv, vars: VarMaps, t: TypeId)
    requires env.WellFormed() && MapsFit(env, vars)
    requires t in Available(env, vars) || t in vars.compound
    ensures Inhabited(env, vars, t)
  {
    if t in vars.simple {
      var e := Variable(vars.simple[t][0]);
      assert HasType(env, vars, e, t) && Solid(e);
    } else {
      var c :| c in vars.compound && Gives(env, c, t);
      GivesHasPath(env, vars, c, t);
      var path :| PathFits(env, vars, c, path, t);
      var e := Access(vars.compound[c][0], c, path);
      assert HasType(env, vars, e, t) && Solid(e);
    }
  }

  /** Expressions for every argument type. */
  lemma {:induction false} ArgsExist(env: TypeEnv, vars: VarMaps, types: seq<TypeId>) returns (args: seq<Expr>)
    requires forall i :: 0 <= i < |types| ==> Inhabited(env, vars, types[i])
    ensures ArgsFit(env, vars, args, types)
    ensures forall i :: 0 <= i < |args| ==> Solid(args[i])
  {
    args := [];
    if types != [] {
      var front := types[..|types| - 1];
      args := ArgsExist(env, vars, front);
      assert Inhabited(env, vars, types[|types| - 1]);
      var e :| HasType(env, vars, e, types[|types| - 1]) && Solid(e);
      args := args + [e];
    }
  }

  lemma {:induction false} DerivedIsInhabited(env: TypeEnv, vars: VarMaps, order: seq<TypeId>, i: nat)
    requires env.WellFormed() && MapsFit(env, vars)
    requires IsDerivation(env, Available(env, vars), order) && i < |order|
    requires Elements(order) <= vars.functions.Keys
    ensures Inhabited(env, vars, env.functions[order[i]].ret)
    decreases i
  {
    var f := order[i];
    assert f in Elements(order);
    assert Callable(env, f, Available(env, vars) + Returns(env, Elements(order[..i])));
    var types := env.functions[f].args;
    forall k | 0 <= k < |types|
      ensures Inhabited(env, vars, types[k])
    {
      assert types[k] in Args(env, f);
      if types[k] in Available(env, vars) {
        AvailableIsInhabited(env, vars, types[k]);
      } else {
        var g :| g in Elements(order[..i]) && g in env.functions && env.functions[g].ret == types[k];
        var j :| 0 <= j < i && order[j] == g;
        DerivedIsInhabited(env, vars, order, j);
      }
    }
    var args := ArgsExist(env, vars, types);
    var e := Call(f, args);
    assert HasType(env, vars, e, env.functions[f].ret) && Solid(e);
  }

  /** The table promises nothing that cannot be built. */
  lemma KeyIsInhabited(env: TypeEnv, vars: VarMaps, callable: set<TypeId>, table: Table, t: TypeId)
    requires env.WellFormed() && MapsFit(env, vars)
    requires Satisfiables(env, vars, callable, table) && t in table
    ensures Inhabited(env, vars, t)
  {
    TableKeys(env, vars, callable, table, t);
    if t in Available(env, vars) || t in vars.compound {
      AvailableIsInhabited(env, vars, t);
    } else {
      var f :| f in callable && f in env.functions && env.functions[f].ret == t;
      var order :| Derives(env, Available(env, vars), order, callable);
      assert f in Elements(order);
      var i :| 0 <= i < |order| && order[i] == f;
      DerivedIsInhabited(env, vars, order, i);
    }
  }
}
