/** The memoised table of pointer types and its two entry routes, GeneratePointerType and
    GetOrCreatePointerType (srcs/internal/srcs/var_definition.cpp). */
module Pointers {
  import opened Common
  import opened TypeGraph

  // ---------------------------------------------------------------------------------------------
  // Specification on values
  // ---------------------------------------------------------------------------------------------

  /** For each basic type the ids of its pointer types, level 1 first; the next free id; and the two
      registries a new pointer type may land in. */
  datatype Table = Table(next: nat, levels: Levels, builtin: set<TypeId>, simple: set<TypeId>)

  function LevelsOf(s: Table, t: TypeId): seq<TypeId> {
    if t in s.levels then s.levels[t] else []
  }

  predicate Exists(s: Table, t: TypeId) {
    t.n < s.next
  }

  type Levels = map<TypeId, seq<TypeId>>

  ghost predicate LevelIs(levels: Levels, t: TypeId, b: TypeId, i: int) {
    b in levels && 0 <= i < |levels[b]| && levels[b][i] == t
  }

  ghost predicate IsPointer(levels: Levels, t: TypeId) {
    exists b, i :: LevelIs(levels, t, b, i)
  }

  /** The table is injective, no basic type is itself a pointer, and all ids have been handed out. */
  ghost predicate Inv(s: Table) {
    && (forall b :: b in s.levels ==> Exists(s, b) && !IsPointer(s.levels, b))
    && (forall t, b, i :: LevelIs(s.levels, t, b, i) ==> Exists(s, t))
    && (forall t, b, i, b', i' :: LevelIs(s.levels, t, b, i) && LevelIs(s.levels, t, b', i') ==> b == b' && i == i')
  }

  /** The ids for levels `n+1..k`: the highest level is numbered first. */
  function NewIds(next: nat, count: nat): seq<TypeId> {
    seq(count, i requires 0 <= i < count => TypeId(next + (count - 1 - i)))
  }

  lemma NewIdsStep(next: nat, count: nat)
    requires count >= 1
    ensures NewIds(next, count) == NewIds(next + 1, count - 1) + [TypeId(next)]
  {
  }

  /** GeneratePointerType. */
  function Generate(s: Table, t: TypeId, k: nat): (Table, TypeId)
    requires k >= 1
  {
    var have := LevelsOf(s, t);
    if k <= |have| then (s, have[k - 1])
    else
      var added := NewIds(s.next, k - |have|);
      (s.(next := s.next + |added|, levels := s.levels[t := have + added], builtin := s.builtin + Elements(added)),
       TypeId(s.next))
  }

  /** Where a type stands: a basic type and the number of stars on it. */
  ghost function Locate(levels: Levels, t: TypeId): (TypeId, nat) {
    if IsPointer(levels, t) then
      var b, i :| LevelIs(levels, t, b, i);
      (b, i + 1)
    else (t, 0)
  }

  /** GetOrCreatePointerType. */
  ghost function Refer(s: Table, t: TypeId): (Table, TypeId) {
    var (b, l) := Locate(s.levels, t);
    var have := LevelsOf(s, b);
    if l < |have| then (s, have[l])
    else
      (s.(next := s.next + 1, levels := s.levels[b := have + [TypeId(s.next)]], simple := s.simple + {TypeId(s.next)}),
       TypeId(s.next))
  }

  ghost function ReferTimes(s: Table, t: TypeId, k: nat): (Table, TypeId) {
    if k == 0 then (s, t)
    else
      var (s1, p) := ReferTimes(s, t, k - 1);
      Refer(s1, p)
  }

  // ---------------------------------------------------------------------------------------------
  // What every call keeps
  // ---------------------------------------------------------------------------------------------

  /** Nothing that was in `s` is changed or moved in `s'`. */
  ghost predicate Extends(s: Table, s': Table) {
    && s.next <= s'.next
    && forall b :: LevelsOf(s, b) <= LevelsOf(s', b)
  }

  lemma ExtendsLevel(s: Table, s': Table, t: TypeId, b: TypeId, i: int)
    requires Extends(s, s') && LevelIs(s.levels, t, b, i)
    ensures LevelIs(s'.levels, t, b, i)
  {
    assert LevelsOf(s, b) <= LevelsOf(s', b);
  }

  /** Appending fresh ids to the levels of an existing type that is not a pointer. */
  lemma AppendKeeps(s: Table, t: TypeId, added: seq<TypeId>, s': Table)
    requires Inv(s) && Exists(s, t) && !IsPointer(s.levels, t)
    requires forall i :: 0 <= i < |added| ==> s.next <= added[i].n < s'.next
    requires forall i, j :: 0 <= i < j < |added| ==> added[i] != added[j]
    requires s'.levels == s.levels[t := LevelsOf(s, t) + added] && s.next <= s'.next
    ensures Inv(s') && Extends(s, s')
  {
    var have := LevelsOf(s, t);
    forall x, b, i | LevelIs(s'.levels, x, b, i)
      ensures LevelIs(s.levels, x, b, i) || (b == t && i >= |have| && x == added[i - |have|])
      ensures Exists(s', x)
    {
      if b == t && i < |have| {
        assert LevelIs(s.levels, x, b, i);
      } else if b != t {
        assert LevelIs(s.levels, x, b, i);
      }
    }
    forall b, b', i | b in s'.levels
      ensures !LevelIs(s'.levels, b, b', i)
    {
      assert !IsPointer(s.levels, b) && Exists(s, b);
    }
  }

  lemma GenerateKeeps(s: Table, t: TypeId, k: nat)
    requires Inv(s) && Exists(s, t) && !IsPointer(s.levels, t) && k >= 1
    ensures var (s', p) := Generate(s, t, k);
      Inv(s') && Extends(s, s') && LevelIs(s'.levels, p, t, k - 1)
  {
    var have := LevelsOf(s, t);
    var (s', p) := Generate(s, t, k);
    if k > |have| {
      AppendKeeps(s, t, NewIds(s.next, k - |have|), s');
    }
  }

  /** The state that the recursion starts in, and the state that it leaves. */
  function Below(s: Table, t: TypeId, k: nat): Table
    requires k >= 1
  {
    var s0 := s.(next := s.next + 1);
    if k > 1 then Generate(s0, t, k - 1).0 else s0
  }

  /** The id taken first is free in the table that the recursion leaves. */
  lemma GenerateBelow(s: Table, t: TypeId, k: nat)
    requires Inv(s) && Exists(s, t) && !IsPointer(s.levels, t) && k > |LevelsOf(s, t)|
    ensures Inv(s.(next := s.next + 1))
    ensures var s1 := Below(s, t, k);
      !IsPointer(s1.levels, TypeId(s.next)) && TypeId(s.next) !in s1.levels && !IsPointer(s1.levels, t)
      && |LevelsOf(s1, t)| == k - 1
  {
    var s0 := s.(next := s.next + 1);
    assert Inv(s0);
    var s1 := Below(s, t, k);
    forall x, b, i | LevelIs(s1.levels, x, b, i)
      ensures LevelIs(s.levels, x, b, i) || x.n > s.next
    {
      if b != t || i < |LevelsOf(s, t)| {
        assert LevelIs(s.levels, x, b, i);
      }
    }
  }

  /** Generating level `k` is generating the levels below it with the ids after the first, and then
      entering the first id. */
  lemma GenerateSplit(s: Table, t: TypeId, k: nat)
    requires k > |LevelsOf(s, t)|
    ensures var id, s1 := TypeId(s.next), Below(s, t, k);
      Generate(s, t, k) == (s1.(levels := s1.levels[t := LevelsOf(s1, t) + [id]], builtin := s1.builtin + {id}), id)
    ensures k > 1 ==> LevelsOf(Below(s, t, k), t)[k - 2] == Generate(s.(next := s.next + 1), t, k - 1).1
  {
    if k == |LevelsOf(s, t)| + 1 {
      SplitLowest(s, t, k);
    } else {
      SplitHigher(s, t, k);
    }
  }

  /** Only one level is new. */
  lemma SplitLowest(s: Table, t: TypeId, k: nat)
    requires k == |LevelsOf(s, t)| + 1
    ensures Below(s, t, k) == s.(next := s.next + 1)
    ensures var id := TypeId(s.next);
      Generate(s, t, k) == (s.(next := s.next + 1, levels := s.levels[t := LevelsOf(s, t) + [id]],
                               builtin := s.builtin + {id}), id)
  {
    assert NewIds(s.next, 1) == [TypeId(s.next)];
    assert Elements([TypeId(s.next)]) == {TypeId(s.next)};
  }

  /** Levels between are new too. */
  lemma SplitHigher(s: Table, t: TypeId, k: nat)
    requires k > |LevelsOf(s, t)| + 1
    ensures var id, s1 := TypeId(s.next), Below(s, t, k);
      Generate(s, t, k) == (s1.(levels := s1.levels[t := LevelsOf(s1, t) + [id]], builtin := s1.builtin + {id}), id)
    ensures LevelsOf(Below(s, t, k), t)[k - 2] == Generate(s.(next := s.next + 1), t, k - 1).1
  {
    var have, id, s1 := LevelsOf(s, t), TypeId(s.next), Below(s, t, k);
    var lower := NewIds(s.next + 1, k - 1 - |have|);
    NewIdsStep(s.next, k - |have|);
    Regroup(have, lower, [id]);
    assert Elements(lower + [id]) == Elements(lower) + {id};
    assert s.builtin + Elements(lower) + {id} == s.builtin + Elements(lower + [id]);
    assert s1.levels == s.levels[t := have + lower];
    assert s1.levels[t := have + lower + [id]] == s.levels[t := have + lower + [id]];
  }

  lemma LocatePointer(s: Table, t: TypeId, b: TypeId, i: int)
    requires Inv(s) && LevelIs(s.levels, t, b, i)
    ensures Locate(s.levels, t) == (b, i + 1)
  {
  }

  lemma ReferKeeps(s: Table, t: TypeId)
    requires Inv(s) && Exists(s, t)
    ensures var (s', p) := Refer(s, t);
      var (b, l) := Locate(s.levels, t);
      Inv(s') && Extends(s, s') && LevelIs(s'.levels, p, b, l)
  {
    var (b, l) := Locate(s.levels, t);
    if IsPointer(s.levels, t) {
      var b', i :| LevelIs(s.levels, t, b', i);
      LocatePointer(s, t, b', i);
    }
    if l >= |LevelsOf(s, b)| {
      AppendKeeps(s, b, [TypeId(s.next)], Refer(s, t).0);
    }
  }

  // ---------------------------------------------------------------------------------------------
  // Runs
  // ---------------------------------------------------------------------------------------------

  /** One call of either route. */
  datatype Step = GenerateStep(t: TypeId, k: nat) | ReferStep(t: TypeId)

  ghost predicate Allowed(s: Table, step: Step) {
    match step
    case GenerateStep(t, k) => k >= 1 && Exists(s, t) && !IsPointer(s.levels, t)
    case ReferStep(t) => Exists(s, t)
  }

  ghost function Take(s: Table, step: Step): Table
    requires Allowed(s, step)
  {
    match step
    case GenerateStep(t, k) => Generate(s, t, k).0
    case ReferStep(t) => Refer(s, t).0
  }

  /** `s'` is reached from `s` by the calls `run`, interleaved in any way. */
  ghost predicate Runs(s: Table, run: seq<Step>, s': Table)
    decreases |run|
  {
    if run == [] then s' == s
    else Allowed(s, run[0]) && Runs(Take(s, run[0]), run[1..], s')
  }

  /** Whatever calls are made, the table stays injective with contiguous levels, and nothing moves. */
  lemma {:induction false} RunKeeps(s: Table, run: seq<Step>, s': Table)
    requires Inv(s) && Runs(s, run, s')
    ensures Inv(s') && Extends(s, s')
    decreases |run|
  {
    if run != [] {
      match run[0] {
        case GenerateStep(t, k) => GenerateKeeps(s, t, k);
        case ReferStep(t) => ReferKeeps(s, t);
      }
      RunKeeps(Take(s, run[0]), run[1..], s');
    }
  }

  /** Taking the address `k` times arrives at level `k`. */
  lemma {:induction false} ReferTimesLevel(s: Table, t: TypeId, k: nat)
    requires Inv(s) && Exists(s, t) && !IsPointer(s.levels, t)
    ensures var (s', p) := ReferTimes(s, t, k);
      Inv(s') && Extends(s, s') && Exists(s', p) && !IsPointer(s'.levels, t)
      && (k == 0 ==> p == t) && (k > 0 ==> LevelIs(s'.levels, p, t, k - 1))
  {
    if k > 0 {
      ReferTimesLevel(s, t, k - 1);
      var (s1, p1) := ReferTimes(s, t, k - 1);
      ReferKeeps(s1, p1);
      if k > 1 {
        LocatePointer(s1, p1, t, k - 2);
      }
      var (s', p) := ReferTimes(s, t, k);
      assert t in s'.levels;
    }
  }

  /** The two routes agree: after taking the address `k` times, and after any further calls, the level
      `k` pointer type generated in one go is the same type and nothing new is created. */
  lemma RoutesAgree(s: Table, t: TypeId, k: nat, run: seq<Step>, s': Table)
    requires Inv(s) && Exists(s, t) && !IsPointer(s.levels, t) && k >= 1
    requires Runs(ReferTimes(s, t, k).0, run, s')
    ensures Generate(s', t, k) == (s', ReferTimes(s, t, k).1)
  {
    ReferTimesLevel(s, t, k);
    var (s1, p) := ReferTimes(s, t, k);
    RunKeeps(s1, run, s');
    ExtendsLevel(s1, s', p, t, k - 1);
  }

  /** On existing levels, taking the address walks up and creates nothing. */
  lemma {:induction false} WalkUp(s: Table, t: TypeId, j: nat)
    requires Inv(s) && t in s.levels && j <= |s.levels[t]|
    ensures ReferTimes(s, t, j) == (s, if j == 0 then t else s.levels[t][j - 1])
  {
    if j > 0 {
      WalkUp(s, t, j - 1);
      if j > 1 {
        LocatePointer(s, s.levels[t][j - 2], t, j - 2);
      } else {
        assert !IsPointer(s.levels, t);
      }
    }
  }

  /** The other way round: once level `k` was generated, taking the address `k` times, after any further
      calls, walks up to the same type and creates nothing. */
  lemma RoutesAgreeBack(s: Table, t: TypeId, k: nat, run: seq<Step>, s': Table)
    requires Inv(s) && Exists(s, t) && !IsPointer(s.levels, t) && k >= 1
    requires Runs(Generate(s, t, k).0, run, s')
    ensures ReferTimes(s', t, k) == (s', Generate(s, t, k).1)
  {
    GenerateKeeps(s, t, k);
    var (s1, p) := Generate(s, t, k);
    RunKeeps(s1, run, s');
    ExtendsLevel(s1, s', p, t, k - 1);
    WalkUp(s', t, k);
  }

  lemma {:induction false} ReferTimesKeeps(s: Table, t: TypeId, k: nat)
    requires Inv(s) && Exists(s, t)
    ensures var (s', p) := ReferTimes(s, t, k);
      Inv(s') && Extends(s, s') && Exists(s', p)
  {
    if k > 0 {
      ReferTimesKeeps(s, t, k - 1);
      var (s1, p1) := ReferTimes(s, t, k - 1);
      ReferKeeps(s1, p1);
      var (s2, p2) := Refer(s1, p1);
      var (b, l) := Locate(s1.levels, p1);
      assert LevelIs(s2.levels, p2, b, l);
    }
  }

  /** The routes agree exactly for the types that are not pointers themselves: on a pointer, GeneratePointerType
      starts a second, disconnected family. */
  lemma AgreesIffNotPointer(s: Table, t: TypeId, k: nat)
    requires Inv(s) && Exists(s, t) && k >= 1
    ensures Generate(ReferTimes(s, t, k).0, t, k).1 == ReferTimes(s, t, k).1 <==> !IsPointer(s.levels, t)
  {
    var (s', p) := ReferTimes(s, t, k);
    if IsPointer(s.levels, t) {
      ReferTimesKeeps(s, t, k);
      var b, i :| LevelIs(s.levels, t, b, i);
      ExtendsLevel(s, s', t, b, i);
      assert t !in s'.levels;
    } else {
      RoutesAgree(s, t, k, [], s');
    }
  }

  // ---------------------------------------------------------------------------------------------
  // What depends on the route
  // ---------------------------------------------------------------------------------------------

  /** The ids for the new levels when they are added one by one. */
  function StepIds(next: nat, count: nat): seq<TypeId> {
    seq(count, i requires 0 <= i < count => TypeId(next + i))
  }

  /** The table with `count` more levels of `t`. */
  function Stepped(s: Table, t: TypeId, count: nat): Table {
    if count == 0 then s
    else
      var added := StepIds(s.next, count);
      s.(next := s.next + count, levels := s.levels[t := LevelsOf(s, t) + added], simple := s.simple + Elements(added))
  }

  lemma StepOnce(s: Table, t: TypeId, count: nat, p: TypeId)
    requires Locate(Stepped(s, t, count).levels, p) == (t, |LevelsOf(s, t)| + count)
    ensures Refer(Stepped(s, t, count), p) == (Stepped(s, t, count + 1), TypeId(s.next + count))
  {
    var have, added, id := LevelsOf(s, t), StepIds(s.next, count), TypeId(s.next + count);
    var s1 := Stepped(s, t, count);
    assert StepIds(s.next, count + 1) == added + [id];
    assert Elements(added + [id]) == Elements(added) + {id};
    assert s.simple + Elements(added) + {id} == s.simple + Elements(added + [id]);
    Regroup(have, added, [id]);
    assert have + added == LevelsOf(s1, t) && s1.simple == s.simple + Elements(added) by {
      assert have + [] == have && s.simple + {} == s.simple;
      assert count == 0 ==> added == [];
    }
    assert s1.levels[t := have + added + [id]] == s.levels[t := have + (added + [id])];
  }

  /** Taking the address adds the missing levels one by one, in ascending order of the ids. */
  lemma {:induction false} ReferTimesAdds(s: Table, t: TypeId, k: nat)
    requires Inv(s) && Exists(s, t) && !IsPointer(s.levels, t) && k > |LevelsOf(s, t)|
    ensures var missing := k - |LevelsOf(s, t)|;
      ReferTimes(s, t, k) == (Stepped(s, t, missing), TypeId(s.next + missing - 1))
    decreases k
  {
    hide Inv, IsPointer, Locate, Refer, Stepped, Exists;
    var missing := k - |LevelsOf(s, t)|;
    var (s1, p1) := ReferTimes(s, t, k - 1);
    assert s1 == Stepped(s, t, missing - 1) by {
      if missing > 1 {
        ReferTimesAdds(s, t, k - 1);
      } else {
        AllThere(s, t);
      }
    }
    LocateTop(s, t, k - 1);
    StepOnce(s, t, missing - 1, p1);
  }

  lemma AllThere(s: Table, t: TypeId)
    requires Inv(s) && Exists(s, t) && !IsPointer(s.levels, t)
    ensures ReferTimes(s, t, |LevelsOf(s, t)|).0 == s == Stepped(s, t, 0)
  {
    if t in s.levels {
      WalkUp(s, t, |LevelsOf(s, t)|);
    }
  }

  lemma LocateTop(s: Table, t: TypeId, k: nat)
    requires Inv(s) && Exists(s, t) && !IsPointer(s.levels, t)
    ensures var (s', p) := ReferTimes(s, t, k); Locate(s'.levels, p) == (t, k)
  {
    ReferTimesLevel(s, t, k);
    if k > 0 {
      var (s', p) := ReferTimes(s, t, k);
      LocatePointer(s', p, t, k - 1);
    }
  }

  /** Within a run the ids are the same, across runs they are not: from one table, both routes hand out the same
      id for level `k` exactly if at most one level is missing. */
  lemma NumberingIff(s: Table, t: TypeId, k: nat)
    requires Inv(s) && Exists(s, t) && !IsPointer(s.levels, t) && k >= 1
    ensures Generate(s, t, k).1 == ReferTimes(s, t, k).1 <==> k <= |LevelsOf(s, t)| + 1
  {
    if k <= |LevelsOf(s, t)| {
      WalkUp(s, t, k);
    } else {
      ReferTimesAdds(s, t, k);
    }
  }

  /** The missing levels get the same ids in opposite orders: a missing level has the same id on both routes
      exactly if it is in the middle. */
  lemma NumberingAtLevel(s: Table, t: TypeId, k: nat, i: nat)
    requires Inv(s) && Exists(s, t) && !IsPointer(s.levels, t) && |LevelsOf(s, t)| <= i < k
    ensures var one, other := Generate(s, t, k).0, ReferTimes(s, t, k).0;
      && one.next == other.next && |LevelsOf(one, t)| == |LevelsOf(other, t)| == k
      && (LevelsOf(one, t)[i] == LevelsOf(other, t)[i] <==> 2 * i == |LevelsOf(s, t)| + k - 1)
  {
    ReferTimesAdds(s, t, k);
    var have := LevelsOf(s, t);
    assert LevelsOf(Generate(s, t, k).0, t)[i] == NewIds(s.next, k - |have|)[i - |have|];
    assert LevelsOf(ReferTimes(s, t, k).0, t)[i] == StepIds(s.next, k - |have|)[i - |have|];
  }

  /** For example: on a fresh table level 2 is the first id when generated in one go, and the second id when
      reached by two single steps. */
  lemma NumberingDependsOnRoute(t: TypeId)
    requires t.n < 10
    ensures var s := Table(10, map[], {}, {});
      Inv(s) && Generate(s, t, 2).1 == TypeId(10) && ReferTimes(s, t, 2).1 == TypeId(11)
  {
    ReferTimesAdds(Table(10, map[], {}, {}), t, 2);
  }

  /** The registries list known types only. */
  ghost predicate RegistriesKnown(s: Table) {
    forall x :: x in s.builtin || x in s.simple ==> Exists(s, x)
  }

  /** The registry differs too: exactly the new levels that are generated in one go count as built-in simple
      types, and exactly those that are added one by one count as other simple types. */
  lemma RegistryDependsOnRoute(s: Table, t: TypeId, k: nat, x: TypeId)
    requires Inv(s) && Exists(s, t) && !IsPointer(s.levels, t) && k > |LevelsOf(s, t)|
    requires RegistriesKnown(s) && s.next <= x.n < s.next + k - |LevelsOf(s, t)|
    ensures var one, other := Generate(s, t, k).0, ReferTimes(s, t, k).0;
      && x in LevelsOf(one, t) && x in one.builtin && x !in one.simple
      && x in LevelsOf(other, t) && x in other.simple && x !in other.builtin
  {
    hide Inv, IsPointer, ReferTimes;
    ReferTimesAdds(s, t, k);
    var have := LevelsOf(s, t);
    var c := k - |have|;
    assert NewIds(s.next, c)[c - 1 - (x.n - s.next)] == x;
    assert StepIds(s.next, c)[x.n - s.next] == x;
    assert x in NewIds(s.next, c) && x in StepIds(s.next, c);
  }

  // ---------------------------------------------------------------------------------------------
  // The class
  // ---------------------------------------------------------------------------------------------

  /** The fields of a PointerType object. */
  datatype PointerType = PointerType(orig: TypeId, basic: TypeId, level: nat)

  /** Levels are numbered from 1 without gaps. */
  ghost predicate MapShows(levels: Levels, pointerMap: map<TypeId, map<nat, TypeId>>) {
    && pointerMap.Keys == levels.Keys
    && (forall b, l :: b in levels ==> (l in pointerMap[b] <==> 1 <= l <= |levels[b]|))
    && (forall b, l :: b in levels && 1 <= l <= |levels[b]| ==> pointerMap[b][l] == levels[b][l - 1])
  }

  function ObjectAt(levels: Levels, b: TypeId, i: int): PointerType
    requires b in levels && 0 <= i < |levels[b]|
  {
    PointerType(if i == 0 then b else levels[b][i - 1], b, i + 1)
  }

  /** Each object names the level below it, its basic type and its level. */
  ghost predicate ObjectsShow(levels: Levels, objects: map<TypeId, PointerType>) {
    forall t, b, i :: LevelIs(levels, t, b, i) ==> t in objects && objects[t] == ObjectAt(levels, b, i)
  }

  /** A pointer of level 1 is made from its basic type, one of a higher level from the pointer one level below. */
  lemma ObjectIs(levels: Levels, objects: map<TypeId, PointerType>, t: TypeId, b: TypeId, i: int)
    requires ObjectsShow(levels, objects) && LevelIs(levels, t, b, i)
    ensures t in objects && objects[t].basic == b && objects[t].level == i + 1
    ensures i == 0 ==> objects[t].orig == b
    ensures i > 0 ==> LevelIs(levels, objects[t].orig, b, i - 1)
  {
  }

  lemma RegisterMap(levels: Levels, pointerMap: map<TypeId, map<nat, TypeId>>, b: TypeId, id: TypeId)
    requires MapShows(levels, pointerMap)
    ensures var have := if b in levels then levels[b] else [];
      var entry := if b in pointerMap then pointerMap[b] else map[];
      MapShows(levels[b := have + [id]], pointerMap[b := entry[|have| + 1 := id]])
  {
  }

  lemma RegisterObject(levels: Levels, objects: map<TypeId, PointerType>, b: TypeId, id: TypeId)
    requires ObjectsShow(levels, objects) && !IsPointer(levels, id)
    ensures var have := if b in levels then levels[b] else [];
      var longer := levels[b := have + [id]];
      ObjectsShow(longer, objects[id := ObjectAt(longer, b, |have|)])
  {
    var have := if b in levels then levels[b] else [];
    var longer := levels[b := have + [id]];
    var objects' := objects[id := ObjectAt(longer, b, |have|)];
    forall t, c, i | LevelIs(longer, t, c, i)
      ensures t in objects' && objects'[t] == ObjectAt(longer, c, i)
    {
      if c != b || i < |have| {
        assert LevelIs(levels, t, c, i);
        assert t != id;
        assert ObjectAt(longer, c, i) == ObjectAt(levels, c, i);
      }
    }
  }

  /** The next level of `b` for an id that is in no entry yet. */
  lemma RegisterKeeps(s: Table, b: TypeId, id: TypeId, s': Table)
    requires Inv(s) && Exists(s, b) && !IsPointer(s.levels, b)
    requires Exists(s, id) && !IsPointer(s.levels, id) && id !in s.levels && id != b
    requires s' == s.(levels := s.levels[b := LevelsOf(s, b) + [id]])
    ensures Inv(s')
  {
    forall x, c, i | LevelIs(s'.levels, x, c, i)
      ensures LevelIs(s.levels, x, c, i) || (c == b && i == |LevelsOf(s, b)| && x == id)
    {
    }
    forall c, c', i | c in s'.levels
      ensures !LevelIs(s'.levels, c, c', i)
    {
      assert !IsPointer(s.levels, c) && c != id;
    }
  }

  class TypeSystem {
    var nextId: nat
    var pointerMap: map<TypeId, map<nat, TypeId>>
    var pointerTypes: map<TypeId, PointerType>
    var builtin: set<TypeId>
    var simple: set<TypeId>
    ghost var levels: Levels

    ghost function State(): Table
      reads this
    {
      Table(nextId, levels, builtin, simple)
    }

    ghost predicate Valid()
      reads this
    {
      Inv(State()) && MapShows(levels, pointerMap) && ObjectsShow(levels, pointerTypes)
    }

    constructor (firstId: nat)
      ensures Valid() && State() == Table(firstId, map[], {}, {})
    {
      nextId, pointerMap, pointerTypes, builtin, simple, levels := firstId, map[], map[], {}, {}, map[];
    }

    /** Enters a new PointerType object as the next level of `basic`. */
    method Register(id: TypeId, orig: TypeId, basic: TypeId, level: nat)
      requires Valid() && Exists(State(), basic) && !IsPointer(levels, basic)
      requires Exists(State(), id) && !IsPointer(levels, id) && id !in levels && id != basic
      requires level == |LevelsOf(State(), basic)| + 1
      requires orig == if level == 1 then basic else LevelsOf(State(), basic)[level - 2]
      modifies this`pointerMap, this`pointerTypes, this`levels
      ensures Valid() && levels == old(levels)[basic := LevelsOf(old(State()), basic) + [id]]
      ensures pointerTypes == old(pointerTypes)[id := PointerType(orig, basic, level)]
    {
      hide Inv, IsPointer, ObjectsShow;
      ghost var s := State();
      assert pointerMap.Keys == levels.Keys && (basic in levels ==> 1 <= level);
      RegisterMap(levels, pointerMap, basic, id);
      RegisterObject(levels, pointerTypes, basic, id);
      var entry := if basic in pointerMap then pointerMap[basic] else map[];
      pointerMap := pointerMap[basic := entry[level := id]];
      pointerTypes := pointerTypes[id := PointerType(orig, basic, level)];
      levels := levels[basic := LevelsOf(s, basic) + [id]];
      RegisterKeeps(s, basic, id, State());
    }

    /** GeneratePointerType: the recursion numbers the wanted level before the levels below it. */
    method GeneratePointerType(original: TypeId, level: nat) returns (id: TypeId)
      requires Valid() && level >= 1 && Exists(State(), original) && !IsPointer(levels, original)
      modifies this
      ensures Valid() && (State(), id) == Generate(old(State()), original, level)
      decreases level
    {
      ghost var s := State();
      if original in pointerMap && level in pointerMap[original] {
        return pointerMap[original][level];
      }
      NextIsFree(s);
      id := TypeId(nextId);
      nextId := nextId + 1;
      var base := original;
      if level > 1 {
        base := GeneratePointerType(original, level - 1);
      }
      EnterGenerated(id, base, original, level, s);
    }

    /** The rest of GeneratePointerType, once the levels below exist. */
    method EnterGenerated(id: TypeId, base: TypeId, original: TypeId, level: nat, ghost s: Table)
      requires Valid() && Inv(s) && Exists(s, original) && !IsPointer(s.levels, original)
      requires level > |LevelsOf(s, original)| && State() == Below(s, original, level) && id == TypeId(s.next)
      requires base == if level == 1 then original else Generate(s.(next := s.next + 1), original, level - 1).1
      modifies this
      ensures Valid() && (State(), id) == Generate(s, original, level)
    {
      hide MapShows, ObjectsShow;
      GenerateBelow(s, original, level);
      GenerateSplit(s, original, level);
      Register(id, base, original, level);
      builtin := builtin + {id};
    }

    /** GetOrCreatePointerType: one more star on whatever the type is. */
    method GetOrCreatePointerType(t: TypeId) returns (id: TypeId)
      requires Valid() && Exists(State(), t)
      modifies this
      ensures Valid() && (State(), id) == Refer(old(State()), t)
    {
      var found, orig, level := Find(t);
      if found {
        if level + 1 in pointerMap[orig] {
          return pointerMap[orig][level + 1];
        }
      } else {
        orig, level := t, 0;
      }
      id := EnterReferred(t, orig, level);
    }

    /** The creation of the missing level in GetOrCreatePointerType. */
    method EnterReferred(t: TypeId, orig: TypeId, level: nat) returns (id: TypeId)
      requires Valid() && Exists(State(), t) && (orig, level) == Locate(levels, t)
      requires level == |LevelsOf(State(), orig)|
      modifies this
      ensures Valid() && (State(), id) == Refer(old(State()), t)
    {
      hide MapShows, ObjectsShow;
      ghost var s := State();
      NextIsFree(s);
      id := TypeId(nextId);
      nextId := nextId + 1;
      Register(id, t, orig, level + 1);
      simple := simple + {id};
    }

    /** The loops of GetOrCreatePointerType: a basic type by its key, a pointer type by its level. */
    method Find(t: TypeId) returns (found: bool, orig: TypeId, level: nat)
      requires Valid()
      ensures found <==> t in levels || IsPointer(levels, t)
      ensures found ==> orig in levels && (orig, level) == Locate(levels, t)
    {
      found, orig, level := false, t, 0;
      var todo := pointerMap.Keys;
      while todo != {}
        invariant todo <= pointerMap.Keys
        invariant !found && level == 0 && orig == t
        invariant t in levels ==> t in todo
        invariant forall b, i :: LevelIs(levels, t, b, i) ==> b in todo
        decreases todo
      {
        var b := AnyOf(todo);
        todo := todo - {b};
        if b == t {
          assert !IsPointer(levels, t);
          return true, t, 0;
        }
        var here, l := FindLevel(b, t);
        if here {
          assert LevelIs(levels, t, b, l - 1);
          LocatePointer(State(), t, b, l - 1);
          return true, b, l;
        }
        assert forall i :: !LevelIs(levels, t, b, i);
      }
      assert forall b, i :: !LevelIs(levels, t, b, i);
    }

    /** The inner loop over the levels of one basic type. */
    method FindLevel(b: TypeId, t: TypeId) returns (here: bool, level: nat)
      requires Valid() && b in levels
      ensures here ==> 1 <= level <= |levels[b]| && levels[b][level - 1] == t
      ensures !here ==> t !in levels[b]
    {
      here, level := false, 0;
      var entry := pointerMap[b];
      var l := 1;
      while l in entry
        invariant 1 <= l <= |levels[b]| + 1
        invariant t !in levels[b][..l - 1]
        decreases |levels[b]| + 1 - l
      {
        if entry[l] == t {
          return true, l;
        }
        assert levels[b][..l] == levels[b][..l - 1] + [levels[b][l - 1]];
        l := l + 1;
      }
      assert levels[b][..l - 1] == levels[b];
    }
  }

  /** The next id is in no entry. */
  lemma NextIsFree(s: Table)
    requires Inv(s)
    ensures var id := TypeId(s.next);
      !IsPointer(s.levels, id) && id !in s.levels && Inv(s.(next := s.next + 1))
  {
    var id := TypeId(s.next);
    forall b, i
      ensures !LevelIs(s.levels, id, b, i)
    {
      assert !Exists(s, id);
    }
  }
}
