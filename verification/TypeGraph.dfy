/** The type graph of one program and the search that collects every type obtainable from a
    compound (srcs/internal/srcs/var_definition.cpp). */
module TypeGraph {
  import opened Common

  /** The number that identifies a type. */
  datatype TypeId = TypeId(n: int)

  const ALL_TYPES := TypeId(1)

  datatype FunctionType = FunctionType(name: string, ret: TypeId, args: seq<TypeId>)

  /** The type tables of a `TypeSystem`.  A compound maps each member type to the names of the
      members of that type; it may refer to itself, directly or through other compounds. */
  datatype TypeEnv = TypeEnv(
    compounds: map<TypeId, map<TypeId, seq<string>>>,
    functions: map<TypeId, FunctionType>,
    basics: set<TypeId>,
    pointers: set<TypeId>,
    weak: bool)
  {
    /** Member lists are built by `push_back`, so a member type always has a member. */
    ghost predicate WellFormed() {
      forall c, m :: c in compounds && m in compounds[c] ==> compounds[c][m] != []
    }
  }

  datatype Kind = UnknownKind | FunctionKind | CompoundKind | PointerKind | SimpleKind

  /** What `GetTypePtrByID` finds for an id, in its lookup order. */
  function KindOf(env: TypeEnv, t: TypeId): Kind {
    if t in env.pointers then PointerKind
    else if t in env.basics then SimpleKind
    else if t in env.compounds then CompoundKind
    else if t in env.functions then FunctionKind
    else UnknownKind
  }

  // ---------------------------------------------------------------------------------------------
  // Specification: reachable compounds and what they contribute
  // ---------------------------------------------------------------------------------------------

  predicate Edge(env: TypeEnv, c: TypeId, d: TypeId) {
    c in env.compounds && d in env.compounds && d in env.compounds[c]
  }

  ghost predicate IsWalk(env: TypeEnv, walk: seq<TypeId>) {
    walk != [] && forall i :: 0 <= i < |walk| - 1 ==> Edge(env, walk[i], walk[i + 1])
  }

  ghost predicate Joins(env: TypeEnv, walk: seq<TypeId>, c: TypeId, d: TypeId) {
    IsWalk(env, walk) && walk[0] == c && walk[|walk| - 1] == d
  }

  /** `d` is obtained from `c` by following zero or more compound-typed members. */
  ghost predicate Reachable(env: TypeEnv, c: TypeId, d: TypeId) {
    exists walk :: Joins(env, walk, c, d)
  }

  /** What one member of type `m` contributes, given the typing mode. */
  function Offered(env: TypeEnv, m: TypeId): set<TypeId> {
    if m in env.compounds then {m}
    else if m in env.functions then (if env.weak then {env.functions[m].ret, m} else {})
    else if m in env.basics then {m}
    else if env.weak then {m} else {}
  }

  function OfferedBy(env: TypeEnv, members: set<TypeId>): set<TypeId> {
    set m, t | m in members && t in Offered(env, m) :: t
  }

  /** The direct contribution of compound `c`. */
  function Direct(env: TypeEnv, c: TypeId): set<TypeId>
    requires c in env.compounds
  {
    OfferedBy(env, env.compounds[c].Keys)
  }

  ghost function DirectOf(env: TypeEnv, cs: set<TypeId>): set<TypeId> {
    set c, t | c in cs && c in env.compounds && t in Direct(env, c) :: t
  }

  ghost function ReachableFrom(env: TypeEnv, c: TypeId): set<TypeId> {
    set d | d in env.compounds && Reachable(env, c, d)
  }

  /** The union of the direct contributions of every compound reachable from `c`. */
  ghost function ObtainableTypes(env: TypeEnv, c: TypeId): set<TypeId> {
    DirectOf(env, ReachableFrom(env, c))
  }

  /** `m` is the type of a member of `d`, a compound reachable from `c`, and gives `t`: a member that is no method gives
      its own type, which has to be a compound or a basic type in strong mode; a method gives nothing in strong mode,
      and in weak mode its own type and its return type. */
  ghost predicate MemberGives(env: TypeEnv, c: TypeId, d: TypeId, m: TypeId, t: TypeId) {
    && d in env.compounds && m in env.compounds[d] && Reachable(env, c, d)
    && (if m in env.functions && m !in env.compounds then env.weak && (t == m || t == env.functions[m].ret)
        else t == m && (m in env.compounds || m in env.basics || env.weak))
  }

  /** A type is obtainable exactly if some member gives it. */
  lemma ObtainableIff(env: TypeEnv, c: TypeId, t: TypeId)
    ensures t in ObtainableTypes(env, c) <==> exists d, m :: MemberGives(env, c, d, m, t)
  {
    if t in ObtainableTypes(env, c) {
      var d :| d in ReachableFrom(env, c) && d in env.compounds && t in Direct(env, d);
      var m :| m in env.compounds[d].Keys && t in Offered(env, m);
      assert MemberGives(env, c, d, m, t);
    }
    if exists d, m :: MemberGives(env, c, d, m, t) {
      var d, m :| MemberGives(env, c, d, m, t);
      assert m in env.compounds[d].Keys && t in Offered(env, m);
      assert t in Direct(env, d) && d in ReachableFrom(env, c);
    }
  }

  // ---------------------------------------------------------------------------------------------
  // What a depth-first search that shares its visited set establishes
  // ---------------------------------------------------------------------------------------------

  /** A search entered at `c` with `before` visited and left with `after` visited: everything new is
      reachable from `c`, and everything new has all its compound members visited. */
  ghost predicate Explored(env: TypeEnv, c: TypeId, before: set<TypeId>, after: set<TypeId>) {
    && before <= after <= env.compounds.Keys
    && c in after
    && (forall d :: d in after - before ==> Reachable(env, c, d))
    && (forall d, e :: d in after - before && Edge(env, d, e) ==> e in after)
  }

  /** The same while the members of `c` are being scanned: `done` are the members already handled. */
  ghost predicate Exploring(env: TypeEnv, c: TypeId, done: set<TypeId>,
                            before: set<TypeId>, now: set<TypeId>) {
    && before <= now <= env.compounds.Keys
    && c in now
    && (forall d :: d in now - before ==> Reachable(env, c, d))
    && (forall d, e :: d in now - before && d != c && Edge(env, d, e) ==> e in now)
    && (forall m :: m in done && m in env.compounds ==> m in now)
  }

  lemma ReachableSelf(env: TypeEnv, c: TypeId)
    ensures Reachable(env, c, c)
  {
    assert Joins(env, [c], c, c);
  }

  lemma ReachableStep(env: TypeEnv, c: TypeId, d: TypeId, e: TypeId)
    requires Edge(env, c, d) && Reachable(env, d, e)
    ensures Reachable(env, c, e)
  {
    var walk :| Joins(env, walk, d, e);
    var longer := [c] + walk;
    forall i | 0 <= i < |longer| - 1
      ensures Edge(env, longer[i], longer[i + 1])
    {
      assert i > 0 ==> longer[i] == walk[i - 1] && longer[i + 1] == walk[i];
    }
    assert Joins(env, longer, c, e);
  }

  lemma StartExploring(env: TypeEnv, c: TypeId, before: set<TypeId>)
    requires c in env.compounds && before <= env.compounds.Keys
    ensures Exploring(env, c, {}, before, before + {c})
  {
    ReachableSelf(env, c);
  }

  /** A member that is not a compound needs no visit. */
  lemma ExploreOther(env: TypeEnv, c: TypeId, done: set<TypeId>, m: TypeId,
                     before: set<TypeId>, now: set<TypeId>)
    requires Exploring(env, c, done, before, now)
    requires m in env.compounds ==> m in now
    ensures Exploring(env, c, done + {m}, before, now)
  {
  }

  /** A recursive search from a compound member `m` extends the exploration of `c`. */
  lemma ExploreMember(env: TypeEnv, c: TypeId, done: set<TypeId>, m: TypeId,
                      before: set<TypeId>, now: set<TypeId>, next: set<TypeId>)
    requires Exploring(env, c, done, before, now)
    requires Edge(env, c, m) && Explored(env, m, now, next)
    ensures Exploring(env, c, done + {m}, before, next)
  {
    forall d | d in next - before
      ensures Reachable(env, c, d)
    {
      if d !in now {
        ReachableStep(env, c, m, d);
      }
    }
  }

  lemma FinishExploring(env: TypeEnv, c: TypeId, before: set<TypeId>, now: set<TypeId>)
    requires c in env.compounds
    requires Exploring(env, c, env.compounds[c].Keys, before, now)
    ensures Explored(env, c, before, now)
  {
  }

  /** A visited set closed under compound members holds the end of every walk that starts in it. */
  lemma {:induction false} WalkStaysInside(env: TypeEnv, walk: seq<TypeId>, closed: set<TypeId>)
    requires IsWalk(env, walk) && walk[0] in closed
    requires forall d, e :: d in closed && Edge(env, d, e) ==> e in closed
    ensures walk[|walk| - 1] in closed
  {
    if |walk| > 1 {
      var rest := walk[1..];
      forall i | 0 <= i < |rest| - 1
        ensures Edge(env, rest[i], rest[i + 1])
      {
        assert rest[i] == walk[i + 1] && rest[i + 1] == walk[i + 2];
      }
      assert Edge(env, walk[0], walk[1]);
      WalkStaysInside(env, rest, closed);
    }
  }

  /** A search started with nothing visited visits exactly the reachable compounds. */
  lemma ExploredFromNothing(env: TypeEnv, c: TypeId, after: set<TypeId>)
    requires c in env.compounds && Explored(env, c, {}, after)
    ensures after == ReachableFrom(env, c)
  {
    forall d | d in env.compounds && Reachable(env, c, d)
      ensures d in after
    {
      var walk :| Joins(env, walk, c, d);
      WalkStaysInside(env, walk, after);
    }
  }

  // ---------------------------------------------------------------------------------------------
  // get_all_types_from_compound_type
  // ---------------------------------------------------------------------------------------------

  lemma DirectOfSplit(env: TypeEnv, small: set<TypeId>, large: set<TypeId>, extra: set<TypeId>)
    requires large == small + extra
    ensures DirectOf(env, large) == DirectOf(env, small) + DirectOf(env, extra)
  {
  }

  lemma OfferedByAdd(env: TypeEnv, done: set<TypeId>, m: TypeId)
    ensures OfferedBy(env, done + {m}) == OfferedBy(env, done) + Offered(env, m)
  {
  }

  /** One search with an arbitrary visited set: it reports the direct contributions of exactly the
      compounds it visits for the first time. */
  method CollectTypes(env: TypeEnv, c: TypeId, visit: set<TypeId>)
    returns (res: set<TypeId>, visited: set<TypeId>)
    requires c in env.compounds && visit <= env.compounds.Keys
    ensures c in visit ==> visited == visit
    ensures Explored(env, c, visit, visited)
    ensures res == DirectOf(env, visited - visit)
    decreases env.compounds.Keys - visit, 1
  {
    res := {};
    visited := visit;
    if c in visit {
      assert visited - visit == {};
      return;
    }
    visited := visited + {c};
    var members := env.compounds[c].Keys;
    var todo := members;
    StartExploring(env, c, visit);
    assert members - todo == {};
    while todo != {}
      invariant todo <= members
      invariant Exploring(env, c, members - todo, visit, visited)
      invariant res == OfferedBy(env, members - todo) + DirectOf(env, visited - visit - {c})
      decreases todo
    {
      var m := AnyOf(todo);
      ghost var done, seen := members - todo, visited;
      todo := todo - {m};
      assert members - todo == done + {m};
      var more;
      more, visited := CollectMember(env, c, m, done, visit, visited);
      res := res + more;
      OfferedByAdd(env, done, m);
      DirectOfSplit(env, seen - visit - {c}, visited - visit - {c}, visited - seen);
    }
    assert members - todo == members;
    FinishExploring(env, c, visit, visited);
    DirectOfSplit(env, visited - visit - {c}, visited - visit, {c});
    assert DirectOf(env, {c}) == Direct(env, c);
  }

  /** One member of the loop: what it offers, and the search below it when it is a compound. */
  method CollectMember(env: TypeEnv, c: TypeId, m: TypeId, ghost done: set<TypeId>,
                       ghost visit: set<TypeId>, seen: set<TypeId>)
    returns (res: set<TypeId>, visited: set<TypeId>)
    requires c in env.compounds && m in env.compounds[c]
    requires Exploring(env, c, done, visit, seen)
    ensures seen <= visited && Exploring(env, c, done + {m}, visit, visited)
    ensures res == Offered(env, m) + DirectOf(env, visited - seen)
    decreases env.compounds.Keys - seen, 2
  {
    res, visited := {}, seen;
    if m in env.compounds {
      res, visited := CollectTypes(env, m, seen);
      res := res + {m};
      ExploreMember(env, c, done, m, visit, seen, visited);
    } else {
      if m in env.functions {
        if env.weak {
          res := {env.functions[m].ret} + {m};
        }
      } else if m in env.basics {
        res := {m};
      } else if env.weak {
        res := {m};
      }
      ExploreOther(env, c, done, m, visit, seen);
      assert visited - seen == {};
    }
  }

  /** Started from an empty visited set the search terminates, on any finite and possibly cyclic
      graph and in both typing modes, with exactly the obtainable types. */
  method GetAllTypesFromCompoundType(env: TypeEnv, c: TypeId) returns (res: set<TypeId>)
    requires c in env.compounds
    ensures res == ObtainableTypes(env, c)
    ensures forall t :: t in res <==> exists d, m :: MemberGives(env, c, d, m, t)
  {
    hide MemberGives;
    var visited;
    res, visited := CollectTypes(env, c, {});
    ExploredFromNothing(env, c, visited);
    assert visited - {} == visited;
    forall t
      ensures t in res <==> exists d, m :: MemberGives(env, c, d, m, t)
    {
      ObtainableIff(env, c, t);
    }
  }
}
