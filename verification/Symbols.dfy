/** The searches of srcs/internal/srcs/var_definition.cpp over a tagged tree. */
module Symbols {
  import opened Common
  import opened IrTree

  // ---------------------------------------------------------------------------------------------
  // Searches
  // ---------------------------------------------------------------------------------------------

  predicate Defines(d: DataType) {
    d == VariableDefinition || d == FunctionDefinition || d == ClassDefinition
  }

  predicate HasDefinition(t: Tree) {
    t.Node? && (Defines(t.info.dataType) || HasDefinition(t.left) || HasDefinition(t.right))
  }

  /** find_define_type: the first type, class or function in pre-order decides. */
  function FindDefineType(t: Tree): DataType {
    if t.Nil? then DataDefault
    else if t.info.dataType in {VariableType, ClassDefinition, FunctionDefinition} then t.info.dataType
    else
      var l := FindDefineType(t.left);
      if l != DataDefault then l else FindDefineType(t.right)
  }

  predicate DecidesKind(d: DataType) {
    d == VariableType || d == ClassDefinition || d == FunctionDefinition
  }

  /** The node at `p` is the first in the text that is the type of a variable, a class or a function, outer before
      inner. */
  ghost predicate FirstKindAt(t: Tree, p: Path) {
    && Has(t, p) && DecidesKind(At(t, p).info.dataType)
    && forall q :: Has(t, q) && (q < p || LeftOf(q, p)) ==> !DecidesKind(At(t, q).info.dataType)
  }

  lemma {:induction false} FirstKindExists(t: Tree) returns (p: Path)
    ensures FindDefineType(t) == DataDefault ==> forall q :: Has(t, q) ==> !DecidesKind(At(t, q).info.dataType)
    ensures FindDefineType(t) != DataDefault ==> FirstKindAt(t, p) && At(t, p).info.dataType == FindDefineType(t)
  {
    p := [];
    if t.Node? && !DecidesKind(t.info.dataType) {
      var l := FirstKindExists(t.left);
      var r := FirstKindExists(t.right);
      p := if FindDefineType(t.left) != DataDefault then [L] + l else [R] + r;
      assert p[1..] == if FindDefineType(t.left) != DataDefault then l else r;
      forall q | Has(t, q) && q != []
        ensures Has(Child(t, q[0]), q[1..]) && At(t, q) == At(Child(t, q[0]), q[1..])
        ensures q[0] == p[0] ==> (q < p <==> q[1..] < p[1..])
      {
        if q[0] == p[0] {
          PrefixTail(q, p);
        }
      }
    }
  }

  /** Two first nodes are the same. */
  lemma {:induction false} FirstKindUnique(t: Tree, p: Path, q: Path)
    requires FirstKindAt(t, p) && FirstKindAt(t, q)
    ensures p == q
  {
    PlacesCompare(p, q);
  }

  lemma {:induction false} PlacesCompare(p: Path, q: Path)
    ensures p == q || p < q || q < p || LeftOf(p, q) || LeftOf(q, p)
  {
    if p != [] && q != [] && p[0] == q[0] {
      PlacesCompare(p[1..], q[1..]);
      PrefixTail(p, q);
      PrefixTail(q, p);
      assert p == [p[0]] + p[1..] && q == [q[0]] + q[1..];
    }
  }

  /** The kind of a definition is that of the first such node, and none exactly if there is none. */
  lemma FindDefineTypeIff(t: Tree, d: DataType)
    requires d != DataDefault
    ensures FindDefineType(t) == d <==> exists p :: FirstKindAt(t, p) && At(t, p).info.dataType == d
    ensures FindDefineType(t) == DataDefault <==> forall p :: Has(t, p) ==> !DecidesKind(At(t, p).info.dataType)
  {
    hide FindDefineType;
    var p := FirstKindExists(t);
    if q :| FirstKindAt(t, q) && At(t, q).info.dataType == d {
      FirstKindDecides(t, q);
      FirstKindUnique(t, p, q);
    }
    if FindDefineType(t) != DataDefault {
      FirstKindDecides(t, p);
    }
  }

  lemma FirstKindDecides(t: Tree, p: Path)
    requires FirstKindAt(t, p)
    ensures Has(t, p) && DecidesKind(At(t, p).info.dataType)
  {
  }

  /** search_by_data_type, single result: the first node of the kind in pre-order, not looking into nodes
      of the kind `stop`. */
  function First(t: Tree, d: DataType, stop: DataType): (r: Option<Tree>)
    ensures r.Some? ==> r.value.Node? && r.value.info.dataType == d && Size(r.value) <= Size(t)
    ensures r.Some? && t.info.dataType != d ==> Size(r.value) < Size(t)
  {
    if t.Nil? then None
    else if t.info.dataType == d then Some(t)
    else if stop != DataDefault && t.info.dataType == stop then None
    else
      var l := First(t.left, d, stop);
      if l.Some? then l else First(t.right, d, stop)
  }

  /** search_by_data_type, all results: the outermost nodes of the kind, left to right. */
  function All(t: Tree, d: DataType, stop: DataType): seq<Tree> {
    if t.Nil? then []
    else if t.info.dataType == d then [t]
    else if stop != DataDefault && t.info.dataType == stop then []
    else All(t.left, d, stop) + All(t.right, d, stop)
  }

  /** The search goes on below such a node. */
  predicate Passes(n: Info, d: DataType, stop: DataType) {
    n.dataType != d && (stop == DataDefault || n.dataType != stop)
  }

  /** The node at `p` is of the kind `d`, and the search passes all nodes above it. */
  predicate Uncovered(t: Tree, d: DataType, stop: DataType, p: Path) {
    && t.Node?
    && (if p == [] then t.info.dataType == d
        else Passes(t.info, d, stop) && Uncovered(Child(t, p[0]), d, stop, p[1..]))
  }

  lemma {:induction false} UncoveredMeans(t: Tree, d: DataType, stop: DataType, p: Path, q: Path)
    requires Uncovered(t, d, stop, p)
    ensures Has(t, p) && At(t, p).info.dataType == d
    ensures q < p ==> Has(t, q) && Passes(At(t, q).info, d, stop)
  {
    if p != [] {
      if q < p && q != [] {
        assert q == [q[0]] + q[1..] && p == [p[0]] + p[1..];
        UncoveredMeans(Child(t, p[0]), d, stop, p[1..], q[1..]);
      } else {
        UncoveredMeans(Child(t, p[0]), d, stop, p[1..], []);
      }
    }
  }

  ghost predicate UncoveredAt(t: Tree, d: DataType, stop: DataType, p: Path, n: Tree) {
    Uncovered(t, d, stop, p) && Has(t, p) && At(t, p) == n
  }

  lemma {:induction false} ResultIsUncovered(t: Tree, d: DataType, stop: DataType, n: Tree) returns (p: Path)
    requires n in All(t, d, stop)
    ensures UncoveredAt(t, d, stop, p, n)
  {
    if t.info.dataType == d {
      p := [];
    } else {
      var dir := if n in All(t.left, d, stop) then L else R;
      var q := ResultIsUncovered(Child(t, dir), d, stop, n);
      p := [dir] + q;
      UncoveredBelow(t, d, stop, dir, q, n);
    }
  }

  lemma UncoveredBelow(t: Tree, d: DataType, stop: DataType, dir: Dir, q: Path, n: Tree)
    requires t.Node? && Passes(t.info, d, stop) && UncoveredAt(Child(t, dir), d, stop, q, n)
    ensures UncoveredAt(t, d, stop, [dir] + q, n)
  {
    assert ([dir] + q)[0] == dir && ([dir] + q)[1..] == q;
  }

  lemma {:induction false} UncoveredIsResult(t: Tree, d: DataType, stop: DataType, p: Path)
    requires Uncovered(t, d, stop, p)
    ensures Has(t, p) && At(t, p) in All(t, d, stop)
  {
    if p != [] {
      UncoveredIsResult(Child(t, p[0]), d, stop, p[1..]);
      assert At(t, p) in All(if p[0] == L then t.left else t.right, d, stop);
    }
  }

  lemma UncoveredAtIsResult(t: Tree, d: DataType, stop: DataType, p: Path, n: Tree)
    requires UncoveredAt(t, d, stop, p, n)
    ensures n in All(t, d, stop)
  {
    UncoveredIsResult(t, d, stop, p);
  }

  /** `n` is a node of the kind, and no node above it is of this kind or of the kind to stop at. */
  ghost predicate OutermostAt(t: Tree, d: DataType, stop: DataType, p: Path, n: Tree) {
    && Has(t, p) && At(t, p) == n && n.info.dataType == d
    && forall q :: q < p && Has(t, q) ==>
         At(t, q).info.dataType != d && (stop == DataDefault || At(t, q).info.dataType != stop)
  }

  lemma UncoveredIsOutermost(t: Tree, d: DataType, stop: DataType, p: Path, n: Tree)
    requires UncoveredAt(t, d, stop, p, n)
    ensures OutermostAt(t, d, stop, p, n)
  {
    UncoveredMeans(t, d, stop, p, []);
    forall q | q < p && Has(t, q)
      ensures At(t, q).info.dataType != d && (stop == DataDefault || At(t, q).info.dataType != stop)
    {
      UncoveredMeans(t, d, stop, p, q);
    }
  }

  lemma OutermostBelow(t: Tree, d: DataType, stop: DataType, p: Path, n: Tree)
    requires t.Node? && p != [] && OutermostAt(t, d, stop, p, n)
    ensures Passes(t.info, d, stop) && OutermostAt(Child(t, p[0]), d, stop, p[1..], n)
  {
    var c, rest := Child(t, p[0]), p[1..];
    assert [] < p && Has(t, []);
    forall q | q < rest && Has(c, q)
      ensures [p[0]] + q < p && Has(t, [p[0]] + q) && At(t, [p[0]] + q) == At(c, q)
    {
      assert ([p[0]] + q)[1..] == q && p == [p[0]] + rest;
    }
  }

  lemma {:induction false} OutermostIsUncovered(t: Tree, d: DataType, stop: DataType, p: Path, n: Tree)
    requires OutermostAt(t, d, stop, p, n)
    ensures UncoveredAt(t, d, stop, p, n)
  {
    hide OutermostAt;
    OutermostNode(t, d, stop, p, n);
    if p != [] {
      OutermostBelow(t, d, stop, p, n);
      OutermostIsUncovered(Child(t, p[0]), d, stop, p[1..], n);
    }
  }

  lemma OutermostNode(t: Tree, d: DataType, stop: DataType, p: Path, n: Tree)
    requires OutermostAt(t, d, stop, p, n)
    ensures t.Node? && Has(t, p) && At(t, p) == n && n.info.dataType == d
  {
  }

  /** A node is among the results exactly if it is an outermost node of the kind outside the kind to stop at. */
  lemma AllExact(t: Tree, d: DataType, stop: DataType, n: Tree)
    ensures n in All(t, d, stop) <==> exists p :: OutermostAt(t, d, stop, p, n)
  {
    hide All, UncoveredAt, OutermostAt;
    if n in All(t, d, stop) {
      var p := ResultIsUncovered(t, d, stop, n);
      UncoveredIsOutermost(t, d, stop, p, n);
    } else if exists p :: OutermostAt(t, d, stop, p, n) {
      var p :| OutermostAt(t, d, stop, p, n);
      OutermostIsUncovered(t, d, stop, p, n);
      UncoveredAtIsResult(t, d, stop, p, n);
    }
  }

  /** `ps` are the places of the results: each an outermost node of the kind, from left to right, and all of them. */
  ghost predicate Places(t: Tree, d: DataType, stop: DataType, ns: seq<Tree>, ps: seq<Path>) {
    && |ps| == |ns|
    && (forall i :: 0 <= i < |ps| ==> UncoveredAt(t, d, stop, ps[i], ns[i]))
    && (forall i, j :: 0 <= i < j < |ps| ==> LeftOf(ps[i], ps[j]))
    && (forall p :: Uncovered(t, d, stop, p) ==> p in ps)
  }

  function Under(dir: Dir, ps: seq<Path>): seq<Path> {
    seq(|ps|, i requires 0 <= i < |ps| => [dir] + ps[i])
  }

  lemma PlacesBelow(t: Tree, d: DataType, stop: DataType, a: seq<Tree>, ls: seq<Path>, b: seq<Tree>, rs: seq<Path>)
    requires t.Node? && Passes(t.info, d, stop) && Places(t.left, d, stop, a, ls) && Places(t.right, d, stop, b, rs)
    ensures Places(t, d, stop, a + b, Under(L, ls) + Under(R, rs))
  {
    hide UncoveredAt, Uncovered;
    var l, r := Under(L, ls), Under(R, rs);
    forall i | 0 <= i < |l + r|
      ensures UncoveredAt(t, d, stop, (l + r)[i], (a + b)[i])
    {
      if i < |l| {
        UncoveredBelow(t, d, stop, L, ls[i], a[i]);
      } else {
        UncoveredBelow(t, d, stop, R, rs[i - |l|], b[i - |l|]);
      }
    }
    forall i, j | 0 <= i < j < |l + r|
      ensures LeftOf((l + r)[i], (l + r)[j])
    {
      assert i < |l| ==> (l + r)[i][1..] == ls[i];
      assert i >= |l| ==> (l + r)[i][1..] == rs[i - |l|];
      assert j < |l| ==> (l + r)[j][1..] == ls[j];
      assert j >= |l| ==> (l + r)[j][1..] == rs[j - |l|];
    }
    forall p | Uncovered(t, d, stop, p)
      ensures p in l + r
    {
      UncoveredChild(t, d, stop, p);
      assert p == [p[0]] + p[1..];
      if p[0] == L {
        var i :| 0 <= i < |ls| && ls[i] == p[1..];
        assert l[i] == p && (l + r)[i] == p;
      } else {
        var i :| 0 <= i < |rs| && rs[i] == p[1..];
        assert r[i] == p && (l + r)[|l| + i] == p;
      }
    }
  }

  lemma UncoveredChild(t: Tree, d: DataType, stop: DataType, p: Path)
    requires Uncovered(t, d, stop, p) && Passes(t.info, d, stop)
    ensures p != [] && Uncovered(Child(t, p[0]), d, stop, p[1..])
  {
  }

  lemma {:induction false} AllHavePlaces(t: Tree, d: DataType, stop: DataType) returns (ps: seq<Path>)
    ensures Places(t, d, stop, All(t, d, stop), ps)
  {
    hide All;
    if t.Nil? || !Passes(t.info, d, stop) {
      ps := EndPlaces(t, d, stop);
    } else {
      var ls := AllHavePlaces(t.left, d, stop);
      var rs := AllHavePlaces(t.right, d, stop);
      ps := Under(L, ls) + Under(R, rs);
      PlacesBelow(t, d, stop, All(t.left, d, stop), ls, All(t.right, d, stop), rs);
      SearchBelow(t, d, stop);
    }
  }

  lemma EndPlaces(t: Tree, d: DataType, stop: DataType) returns (ps: seq<Path>)
    requires t.Nil? || !Passes(t.info, d, stop)
    ensures Places(t, d, stop, All(t, d, stop), ps)
  {
    ps := if t.Node? && t.info.dataType == d then [[]] else [];
  }

  /** The results are listed from left to right, each once: they stand at places in the order of the text. */
  lemma AllInOrder(t: Tree, d: DataType, stop: DataType) returns (ps: seq<Path>)
    ensures |ps| == |All(t, d, stop)|
    ensures forall i :: 0 <= i < |ps| ==> OutermostAt(t, d, stop, ps[i], All(t, d, stop)[i])
    ensures forall i, j :: 0 <= i < j < |ps| ==> LeftOf(ps[i], ps[j])
    ensures forall p, n :: OutermostAt(t, d, stop, p, n) ==> p in ps
  {
    hide OutermostAt;
    ps := AllHavePlaces(t, d, stop);
    forall i | 0 <= i < |ps|
      ensures OutermostAt(t, d, stop, ps[i], All(t, d, stop)[i])
    {
      UncoveredIsOutermost(t, d, stop, ps[i], All(t, d, stop)[i]);
    }
    forall p, n | OutermostAt(t, d, stop, p, n)
      ensures p in ps
    {
      OutermostIsUncovered(t, d, stop, p, n);
    }
  }

  predicate IsHead(r: Option<Tree>, all: seq<Tree>) {
    if r.None? then all == [] else all != [] && all[0] == r.value
  }

  lemma HeadOfBoth(r: Option<Tree>, a: seq<Tree>, s: Option<Tree>, b: seq<Tree>)
    requires IsHead(r, a) && IsHead(s, b)
    ensures IsHead(if r.Some? then r else s, a + b)
  {
  }

  lemma SearchBelow(t: Tree, d: DataType, stop: DataType)
    requires t.Node? && Passes(t.info, d, stop)
    ensures First(t, d, stop)
      == if First(t.left, d, stop).Some? then First(t.left, d, stop) else First(t.right, d, stop)
    ensures All(t, d, stop) == All(t.left, d, stop) + All(t.right, d, stop)
  {
  }

  lemma SearchEnds(t: Tree, d: DataType, stop: DataType)
    requires t.Nil? || !Passes(t.info, d, stop)
    ensures IsHead(First(t, d, stop), All(t, d, stop))
  {
  }

  /** The single result is the first of all results. */
  lemma {:induction false} FirstIsHead(t: Tree, d: DataType, stop: DataType)
    ensures IsHead(First(t, d, stop), All(t, d, stop))
  {
    hide First, All, IsHead;
    if t.Nil? || !Passes(t.info, d, stop) {
      SearchEnds(t, d, stop);
    } else {
      FirstIsHead(t.left, d, stop);
      FirstIsHead(t.right, d, stop);
      HeadOfBoth(First(t.left, d, stop), All(t.left, d, stop), First(t.right, d, stop), All(t.right, d, stop));
      SearchBelow(t, d, stop);
    }
  }

  lemma FirstPlace(t: Tree, d: DataType, stop: DataType) returns (p: Path)
    requires First(t, d, stop).Some?
    ensures UncoveredAt(t, d, stop, p, First(t, d, stop).value)
  {
    FirstIsHead(t, d, stop);
    p := ResultIsUncovered(t, d, stop, All(t, d, stop)[0]);
  }

  // ---------------------------------------------------------------------------------------------
  // Searches with a result list or a stack
  // ---------------------------------------------------------------------------------------------

  /** search_by_data_type with a result list, which the nodes found are appended to. */
  method SearchByDataType(cur: Tree, d: DataType, result: seq<Tree>, stop: DataType) returns (result': seq<Tree>)
    requires cur.Node?
    ensures result' == result + All(cur, d, stop)
    decreases cur, 0
  {
    result' := result;
    if cur.info.dataType == d {
      result' := result' + [cur];
    } else if stop != DataDefault && cur.info.dataType == stop {
      return;
    }
    if cur.info.dataType != d {
      result' := SearchChild(cur.left, d, result', stop);
      result' := SearchChild(cur.right, d, result', stop);
      Regroup(result, All(cur.left, d, stop), All(cur.right, d, stop));
    }
  }

  /** The recursive call for a child, if there is one. */
  method SearchChild(child: Tree, d: DataType, result: seq<Tree>, stop: DataType) returns (result': seq<Tree>)
    ensures result' == result + All(child, d, stop)
    decreases child, 1
  {
    result' := result;
    if child.Node? {
      result' := SearchByDataType(child, d, result, stop);
    }
  }

  predicate SomeDefines(stk: seq<Tree>) {
    stk != [] && (HasDefinition(stk[|stk| - 1]) || SomeDefines(stk[..|stk| - 1]))
  }

  function StackSize(stk: seq<Tree>): nat {
    if stk == [] then 0 else StackSize(stk[..|stk| - 1]) + Size(stk[|stk| - 1])
  }

  /** The right child is pushed first. */
  function PushChildren(stk: seq<Tree>, t: Tree): seq<Tree>
    requires t.Node?
  {
    stk + (if t.right.Node? then [t.right] else []) + (if t.left.Node? then [t.left] else [])
  }

  lemma StackPush(stk: seq<Tree>, t: Tree)
    ensures StackSize(stk + [t]) == StackSize(stk) + Size(t)
    ensures SomeDefines(stk + [t]) <==> SomeDefines(stk) || HasDefinition(t)
  {
    assert (stk + [t])[..|stk|] == stk;
  }

  lemma ChildrenPushed(stk: seq<Tree>, t: Tree)
    requires t.Node? && !Defines(t.info.dataType)
    ensures StackSize(PushChildren(stk, t)) < StackSize(stk) + Size(t)
    ensures SomeDefines(PushChildren(stk, t)) <==> SomeDefines(stk) || HasDefinition(t)
  {
    var stk' := if t.right.Node? then stk + [t.right] else stk;
    StackPush(stk, t.right);
    StackPush(stk', t.left);
    assert stk + [] == stk && stk' + [] == stk';
    assert PushChildren(stk, t) == if t.left.Node? then stk' + [t.left] else stk';
  }

  /** Some node of the tree is a definition. */
  ghost predicate DefinitionAt(t: Tree, p: Path) {
    Has(t, p) && At(t, p).info.dataType in {VariableDefinition, FunctionDefinition, ClassDefinition}
  }

  lemma {:induction false} HasDefinitionIff(t: Tree)
    ensures HasDefinition(t) <==> exists p :: DefinitionAt(t, p)
  {
    if t.Node? {
      HasDefinitionIff(t.left);
      HasDefinitionIff(t.right);
      if Defines(t.info.dataType) {
        assert DefinitionAt(t, []);
      }
      if q :| DefinitionAt(t.left, q) {
        assert ([L] + q)[1..] == q;
        assert DefinitionAt(t, [L] + q);
      }
      if q :| DefinitionAt(t.right, q) {
        assert ([R] + q)[1..] == q;
        assert DefinitionAt(t, [R] + q);
      }
      if p :| DefinitionAt(t, p) && p != [] {
        assert DefinitionAt(Child(t, p[0]), p[1..]);
      }
    }
  }

  /** is_contain_definition, with its explicit stack. */
  method IsContainDefinition(cur: Tree) returns (b: bool)
    requires cur.Node?
    ensures b <==> HasDefinition(cur)
  {
    StackPush([], cur);
    var stk := [] + [cur];
    while stk != []
      invariant forall k :: 0 <= k < |stk| ==> stk[k].Node?
      invariant SomeDefines(stk) <==> HasDefinition(cur)
      decreases StackSize(stk)
    {
      var top := stk[|stk| - 1];
      stk := stk[..|stk| - 1];
      if Defines(top.info.dataType) {
        return true;
      }
      ChildrenPushed(stk, top);
      stk := PushChildren(stk, top);
    }
    b := false;
  }

  // ---------------------------------------------------------------------------------------------
  // Tags
  // ---------------------------------------------------------------------------------------------

  /** Every node is tagged with one of the scopes. */
  predicate Known(t: Tree, ids: set<ScopeId>) {
    t.Node? ==> t.info.scopeId in ids && Known(t.left, ids) && Known(t.right, ids)
  }

  lemma {:induction false} FirstIsKnown(t: Tree, d: DataType, stop: DataType, ids: set<ScopeId>)
    requires Known(t, ids) && First(t, d, stop).Some?
    ensures Known(First(t, d, stop).value, ids)
  {
    if t.info.dataType != d {
      FirstIsKnown(if First(t.left, d, stop).Some? then t.left else t.right, d, stop, ids);
    }
  }

  lemma {:induction false} AllAreNodes(t: Tree, d: DataType, stop: DataType, n: Tree)
    requires n in All(t, d, stop)
    ensures n.Node?
  {
    if t.info.dataType != d {
      AllAreNodes(if n in All(t.left, d, stop) then t.left else t.right, d, stop, n);
    }
  }
}
