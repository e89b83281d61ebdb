/** The scope tree (ScopeTree in srcs/internal/srcs/var_definition.cpp): an enter/exit walk over the IR
    that gives every node the scope it is in. */
module Scoping {
  import opened Common
  import opened IrTree
  import opened IrHeap
  import opened Visibility

  // ---------------------------------------------------------------------------------------------
  // What the walk achieves, on values
  // ---------------------------------------------------------------------------------------------

  predicate Scoped(t: Tree) {
    t.Node? && t.info.scopeType != ScopeDefault
  }

  /** How many scopes a tree opens. */
  function ScopeCount(t: Tree): nat {
    if t.Nil? then 0 else (if Scoped(t) then 1 else 0) + ScopeCount(t.left) + ScopeCount(t.right)
  }

  /** The scoped subtrees that are not inside another one. */
  function OuterScopes(t: Tree): nat {
    if t.Nil? then 0 else if Scoped(t) then 1 else OuterScopes(t.left) + OuterScopes(t.right)
  }

  /** The scope that the children of `t` are in. */
  function InnerScope(t: Tree, cur: Option<ScopeId>): Option<ScopeId> {
    if Scoped(t) then Some(t.info.scopeId) else cur
  }

  /** `t` is `t0` with scope ids: a scoped node opens the scope it is tagged with, a child of the
      enclosing one; other nodes are tagged with the enclosing scope, if there is one. */
  ghost predicate Tagged(t0: Tree, t: Tree, cur: Option<ScopeId>, scopes: Scopes) {
    && (t0.Node? <==> t.Node?)
    && (t.Node? ==>
      var i := t.info.scopeId;
      var inner := InnerScope(t, cur);
      && t.info == t0.info.(scopeId := i)
      && (if Scoped(t) then Opens(scopes, i, t.info.scopeType, cur) else i == OrElse(cur, t0.info.scopeId))
      && Tagged(t0.left, t.left, inner, scopes) && Tagged(t0.right, t.right, inner, scopes))
  }

  ghost predicate Opens(scopes: Scopes, i: ScopeId, stype: ScopeType, parent: Option<ScopeId>) {
    i in scopes && scopes[i].stype == stype && scopes[i].parent == parent
  }

  /** The ids of the scoped nodes in pre-order. */
  function ScopedIds(t: Tree): seq<ScopeId> {
    if t.Nil? then []
    else (if Scoped(t) then [t.info.scopeId] else []) + ScopedIds(t.left) + ScopedIds(t.right)
  }

  /** `ids` are the `k` numbers after `n`, in order. */
  ghost predicate NumbersAfter(ids: seq<ScopeId>, n: nat, k: nat) {
    |ids| == k && forall i :: 0 <= i < k ==> ids[i] == n + 1 + i
  }

  lemma NumbersAdd(a: seq<ScopeId>, b: seq<ScopeId>, n: nat, j: nat, k: nat)
    requires NumbersAfter(a, n, j) && NumbersAfter(b, n + j, k)
    ensures NumbersAfter(a + b, n, j + k)
  {
  }

  /** Scopes stay as they are but for new ones and new children. */
  ghost predicate Extends(a: Scopes, b: Scopes) {
    forall i :: i in a ==> Opens(b, i, a[i].stype, a[i].parent)
  }

  lemma {:induction false} TaggedExtends(t0: Tree, t: Tree, cur: Option<ScopeId>, a: Scopes, b: Scopes)
    requires Tagged(t0, t, cur, a) && Extends(a, b)
    ensures Tagged(t0, t, cur, b)
  {
    if t.Node? {
      var inner := InnerScope(t, cur);
      TaggedExtends(t0.left, t.left, inner, a, b);
      TaggedExtends(t0.right, t.right, inner, a, b);
    }
  }

  /** Everything the walk over `t0` achieves. */
  ghost predicate Built(t0: Tree, t: Tree, cur: Option<ScopeId>, n: nat, scopes0: Scopes, scopes: Scopes) {
    Tagged(t0, t, cur, scopes) && NumbersAfter(ScopedIds(t), n, ScopeCount(t0)) && Extends(scopes0, scopes)
  }

  /** The tree with its tags: scopes are numbered in pre-order after `n`, other nodes get the enclosing scope. */
  function Tag(t: Tree, cur: Option<ScopeId>, n: nat): Tree {
    if t.Nil? then Nil
    else
      var i := if Scoped(t) then n + 1 else OrElse(cur, t.info.scopeId);
      var inner := if Scoped(t) then Some(i) else cur;
      var m := if Scoped(t) then n + 1 else n;
      Node(t.info.(scopeId := i), Tag(t.left, inner, m), Tag(t.right, inner, m + ScopeCount(t.left)))
  }

  lemma {:induction false} IdsCounted(t0: Tree, t: Tree, cur: Option<ScopeId>, scopes: Scopes)
    requires Tagged(t0, t, cur, scopes)
    ensures |ScopedIds(t)| == ScopeCount(t0)
  {
    if t.Node? {
      IdsCounted(t0.left, t.left, InnerScope(t, cur), scopes);
      IdsCounted(t0.right, t.right, InnerScope(t, cur), scopes);
    }
  }

  lemma NumbersSplit(a: seq<ScopeId>, b: seq<ScopeId>, n: nat)
    requires NumbersAfter(a + b, n, |a + b|)
    ensures NumbersAfter(a, n, |a|) && NumbersAfter(b, n + |a|, |b|)
  {
    assert forall i :: 0 <= i < |a| ==> a[i] == (a + b)[i];
    assert forall i :: 0 <= i < |b| ==> b[i] == (a + b)[|a| + i];
  }

  lemma NumbersOfParts(t0: Tree, t: Tree, cur: Option<ScopeId>, n: nat, scopes: Scopes)
    requires t.Node? && Tagged(t0, t, cur, scopes) && NumbersAfter(ScopedIds(t), n, ScopeCount(t0))
    ensures Scoped(t) ==> t.info.scopeId == n + 1
    ensures var m := if Scoped(t) then n + 1 else n;
      && NumbersAfter(ScopedIds(t.left), m, ScopeCount(t0.left))
      && NumbersAfter(ScopedIds(t.right), m + ScopeCount(t0.left), ScopeCount(t0.right))
  {
    var own, inner := if Scoped(t) then [t.info.scopeId] else [], InnerScope(t, cur);
    IdsCounted(t0.left, t.left, inner, scopes);
    IdsCounted(t0.right, t.right, inner, scopes);
    NumbersSplit(own + ScopedIds(t.left), ScopedIds(t.right), n);
    NumbersSplit(own, ScopedIds(t.left), n);
    assert Scoped(t) ==> own[0] == n + 1;
  }

  /** What the walk builds is determined by its input. */
  lemma {:induction false} BuiltIsTag(t0: Tree, t: Tree, cur: Option<ScopeId>, n: nat, scopes: Scopes)
    requires Tagged(t0, t, cur, scopes) && NumbersAfter(ScopedIds(t), n, ScopeCount(t0))
    ensures t == Tag(t0, cur, n)
  {
    if t.Node? {
      var inner, m := InnerScope(t, cur), if Scoped(t) then n + 1 else n;
      NumbersOfParts(t0, t, cur, n, scopes);
      BuiltIsTag(t0.left, t.left, inner, m, scopes);
      BuiltIsTag(t0.right, t.right, inner, m + ScopeCount(t0.left), scopes);
    }
  }

  /** The effect on the way down: `t` has its own tag, its children are as before. */
  ghost predicate Entered(t0: Tree, t: Tree, cur: Option<ScopeId>, n: nat, a: Scopes, b: Scopes) {
    && t0.Node? && t.Node? && t.info == t0.info.(scopeId := t.info.scopeId) && t.left == t0.left && t.right == t0.right
    && Extends(a, b)
    && (if Scoped(t) then t.info.scopeId == n + 1 && Opens(b, n + 1, t.info.scopeType, cur)
        else t.info.scopeId == OrElse(cur, t0.info.scopeId))
  }

  lemma BuiltNode(t0: Tree, t1: Tree, t: Tree, cur: Option<ScopeId>, n: nat, a: Scopes, b: Scopes, c: Scopes, d: Scopes)
    requires Entered(t0, t1, cur, n, a, b) && t.Node? && t.info == t1.info
    requires var m, inner := n + (if Scoped(t) then 1 else 0), InnerScope(t, cur);
      Built(t1.left, t.left, inner, m, b, c) && Built(t1.right, t.right, inner, m + ScopeCount(t1.left), c, d)
    ensures Built(t0, t, cur, n, a, d)
    ensures Scoped(t) ==> Opens(d, t.info.scopeId, t.info.scopeType, cur)
  {
    var inner := InnerScope(t, cur);
    ExtendsTrans(b, c, d);
    ExtendsTrans(a, b, d);
    TaggedExtends(t0.left, t.left, inner, c, d);
    IdsOfNode(t0, t, n);
  }

  lemma IdsOfNode(t0: Tree, t: Tree, n: nat)
    requires t0.Node? && t.Node? && (Scoped(t0) <==> Scoped(t)) && (Scoped(t) ==> t.info.scopeId == n + 1)
    requires var m := n + if Scoped(t) then 1 else 0;
      && NumbersAfter(ScopedIds(t.left), m, ScopeCount(t0.left))
      && NumbersAfter(ScopedIds(t.right), m + ScopeCount(t0.left), ScopeCount(t0.right))
    ensures NumbersAfter(ScopedIds(t), n, ScopeCount(t0))
  {
    var m := n + if Scoped(t) then 1 else 0;
    var own: seq<ScopeId> := if Scoped(t) then [t.info.scopeId] else [];
    NumbersAdd(own, ScopedIds(t.left), n, m - n, ScopeCount(t0.left));
    NumbersAdd(own + ScopedIds(t.left), ScopedIds(t.right), n, m - n + ScopeCount(t0.left), ScopeCount(t0.right));
  }

  lemma ExtendsTrans(a: Scopes, b: Scopes, c: Scopes)
    requires Extends(a, b) && Extends(b, c)
    ensures Extends(a, c)
  {
  }

  // ---------------------------------------------------------------------------------------------
  // What that means, node by node
  // ---------------------------------------------------------------------------------------------

  /** The ids of the scoped nodes on the way from `p` up to the root, `p` included. */
  function Enclosing(t: Tree, p: Path): seq<ScopeId>
    requires Has(t, p)
  {
    (if p == [] then [] else Enclosing(Child(t, p[0]), p[1..])) + (if Scoped(t) then [t.info.scopeId] else [])
  }

  /** The node at `q`, on the way to `p`, opens scope `i`. */
  ghost predicate OpenedAbove(t: Tree, q: Path, p: Path, i: ScopeId) {
    q <= p && Has(t, q) && At(t, q).info.scopeType != ScopeDefault && At(t, q).info.scopeId == i
  }

  lemma {:induction false} EnclosingExact(t: Tree, p: Path, i: ScopeId)
    requires Has(t, p)
    ensures i in Enclosing(t, p) <==> exists q :: OpenedAbove(t, q, p, i)
  {
    if Scoped(t) && t.info.scopeId == i {
      assert OpenedAbove(t, [], p, i);
    }
    if p != [] {
      var c := Child(t, p[0]);
      EnclosingExact(c, p[1..], i);
      assert p == [p[0]] + p[1..];
      if q :| OpenedAbove(c, q, p[1..], i) {
        assert ([p[0]] + q)[1..] == q;
        assert OpenedAbove(t, [p[0]] + q, p, i);
      }
      if q :| OpenedAbove(t, q, p, i) && q != [] {
        assert q == [q[0]] + q[1..] && q[1..] <= p[1..];
        assert OpenedAbove(c, q[1..], p[1..], i);
      }
    }
  }

  /** A node is tagged with the nearest scoped node above it or itself, and the parents of that scope
      are the further scoped nodes above it, in order. */
  lemma {:induction false} ChainIsEnclosing(t0: Tree, t: Tree, cur: Option<ScopeId>, scopes: Scopes, p: Path)
    requires WellParented(scopes) && Tagged(t0, t, cur, scopes) && Has(t, p)
    requires cur.Some? || Enclosing(t, p) != []
    ensures Chain(scopes, Some(At(t, p).info.scopeId)) == Enclosing(t, p) + Chain(scopes, cur)
  {
    var inner := InnerScope(t, cur);
    var own := if Scoped(t) then [t.info.scopeId] else [];
    assert Chain(scopes, inner) == own + Chain(scopes, cur);
    if p == [] {
      assert Enclosing(t, p) == own;
    } else {
      var c := Child(t, p[0]);
      ChainIsEnclosing(Child(t0, p[0]), c, inner, scopes, p[1..]);
      Regroup(Enclosing(c, p[1..]), own, Chain(scopes, cur));
    }
  }

  /** In a tree whose root opens a scope, every node is tagged with a scope of its own path, the first
      one on the way up. */
  lemma {:induction false} TagIsNearest(t0: Tree, t: Tree, cur: Option<ScopeId>, scopes: Scopes, p: Path)
    requires Tagged(t0, t, cur, scopes) && Has(t, p) && Enclosing(t, p) != []
    ensures Enclosing(t, p)[0] == At(t, p).info.scopeId
  {
    if p != [] {
      var c, inner := Child(t, p[0]), InnerScope(t, cur);
      if Enclosing(c, p[1..]) != [] {
        TagIsNearest(Child(t0, p[0]), c, inner, scopes, p[1..]);
      } else {
        TagIsOuter(Child(t0, p[0]), c, inner, scopes, p[1..]);
      }
    }
  }

  lemma {:induction false} TagIsOuter(t0: Tree, t: Tree, cur: Option<ScopeId>, scopes: Scopes, p: Path)
    requires Tagged(t0, t, cur, scopes) && Has(t, p) && Enclosing(t, p) == []
    ensures Has(t0, p)
    ensures At(t, p).info.scopeId == OrElse(cur, At(t0, p).info.scopeId)
  {
    if p != [] {
      TagIsOuter(Child(t0, p[0]), Child(t, p[0]), cur, scopes, p[1..]);
    }
  }

  /** A scoped node is listed. */
  lemma {:induction false} ScopedIsListed(t: Tree, p: Path)
    requires Has(t, p) && Scoped(At(t, p))
    ensures At(t, p).info.scopeId in ScopedIds(t)
  {
    if p != [] {
      ScopedIsListed(Child(t, p[0]), p[1..]);
    }
  }

  ghost predicate NoneTwice(ids: seq<ScopeId>) {
    forall i, j :: 0 <= i < j < |ids| ==> ids[i] != ids[j]
  }

  lemma NoneTwiceParts(a: seq<ScopeId>, b: seq<ScopeId>, c: seq<ScopeId>)
    requires NoneTwice(a + b + c)
    ensures NoneTwice(b) && NoneTwice(c)
    ensures forall x :: (x in a ==> x !in b && x !in c) && (x in b ==> x !in c)
  {
    var all := a + b + c;
    assert forall i :: 0 <= i < |b| ==> b[i] == all[|a| + i];
    assert forall i :: 0 <= i < |c| ==> c[i] == all[|a| + |b| + i];
    forall x | x in a
      ensures x !in b && x !in c
    {
      var i :| 0 <= i < |a| && a[i] == x;
      assert all[i] == x;
    }
    forall x | x in b
      ensures x !in c
    {
      var i :| 0 <= i < |b| && b[i] == x;
      assert all[|a| + i] == x;
    }
  }

  /** Every scope is opened by one node only. */
  lemma {:induction false} ScopeHasOneNode(t: Tree, p: Path, q: Path)
    requires NoneTwice(ScopedIds(t)) && Has(t, p) && Has(t, q) && Scoped(At(t, p)) && Scoped(At(t, q))
    requires At(t, p).info.scopeId == At(t, q).info.scopeId
    ensures p == q
  {
    NoneTwiceParts(if Scoped(t) then [t.info.scopeId] else [], ScopedIds(t.left), ScopedIds(t.right));
    if p != [] {
      ScopedIsListed(Child(t, p[0]), p[1..]);
    }
    if q != [] {
      ScopedIsListed(Child(t, q[0]), q[1..]);
    }
    if p != [] && q != [] && p[0] == q[0] {
      ScopeHasOneNode(Child(t, p[0]), p[1..], q[1..]);
      assert p == [p[0]] + p[1..] && q == [q[0]] + q[1..];
    }
  }

  // ---------------------------------------------------------------------------------------------
  // The scope tree
  // ---------------------------------------------------------------------------------------------

  ghost predicate ChildrenMatch(scopes: Scopes) {
    forall i, j :: i in scopes ==> (j in scopes[i].children <==> j in scopes && scopes[j].parent == Some(i))
  }

  /** Scopes are numbered from 1; parents are older than their children and know them. */
  ghost predicate Numbered(scopes: Scopes, n: nat) {
    && (forall i :: i in scopes <==> 1 <= i <= n)
    && WellParented(scopes) && ChildrenMatch(scopes)
    && (forall i :: i in scopes ==> scopes[i].table == map[])
  }

  /** The next scope, attached to its parent. */
  function Attached(scopes: Scopes, n: nat, stype: ScopeType, up: Option<ScopeId>): Scopes
    requires up.Some? ==> up.value in scopes
  {
    var more := scopes[n + 1 := Scope(stype, up, {}, map[])];
    if up.None? then more
    else more[up.value := scopes[up.value].(children := scopes[up.value].children + {n + 1})]
  }

  /** The old scopes in the new map, but for the children of the parent. */
  lemma AttachedAt(scopes: Scopes, n: nat, stype: ScopeType, up: Option<ScopeId>, i: ScopeId)
    requires n + 1 !in scopes && (up.Some? ==> up.value in scopes)
    ensures var more := Attached(scopes, n, stype, up);
      && (i in more <==> i in scopes || i == n + 1)
      && (i in scopes ==> more[i] == scopes[i].(children := scopes[i].children + if up == Some(i) then {n + 1} else {}))
      && (i == n + 1 ==> more[i] == Scope(stype, up, {}, map[]))
  {
  }

  lemma NextIsNew(scopes: Scopes, n: nat)
    requires Numbered(scopes, n)
    ensures n + 1 !in scopes
  {
  }

  lemma AttachedChildren(scopes: Scopes, n: nat, stype: ScopeType, up: Option<ScopeId>)
    requires Numbered(scopes, n) && (up.Some? ==> up.value in scopes)
    ensures ChildrenMatch(Attached(scopes, n, stype, up))
  {
    var more := Attached(scopes, n, stype, up);
    forall i, j | i in more
      ensures j in more[i].children <==> j in more && more[j].parent == Some(i)
    {
      AttachedAt(scopes, n, stype, up, i);
      AttachedAt(scopes, n, stype, up, j);
      if i in scopes {
        assert j in scopes[i].children <==> j in scopes && scopes[j].parent == Some(i);
      }
    }
  }

  lemma AttachedIsNumbered(scopes: Scopes, n: nat, stype: ScopeType, up: Option<ScopeId>)
    requires Numbered(scopes, n) && (up.Some? ==> up.value in scopes)
    ensures var more := Attached(scopes, n, stype, up);
      Numbered(more, n + 1) && Opens(more, n + 1, stype, up) && Extends(scopes, more)
  {
    var more := Attached(scopes, n, stype, up);
    forall i: ScopeId
      ensures i in more <==> i in scopes || i == n + 1
      ensures i in scopes ==> Opens(more, i, scopes[i].stype, scopes[i].parent)
      ensures i in more ==> more[i].table == map[]
    {
      AttachedAt(scopes, n, stype, up, i);
    }
    AttachedChildren(scopes, n, stype, up);
    AttachedAt(scopes, n, stype, up, n + 1);
  }

  class ScopeTree {
    var counter: nat
    var root: Option<ScopeId>
    var current: Option<ScopeId>
    var scopes: Scopes

    constructor ()
      ensures Valid() && counter == 0 && root == None && current == None
    {
      counter, root, current, scopes := 0, None, None, map[];
    }

    ghost predicate Valid()
      reads this
    {
      && Numbered(scopes, counter)
      && (current.Some? ==> current.value in scopes && root.Some?)
      && (root.None? <==> counter == 0)
    }

    method GenScope(stype: ScopeType) returns (id: ScopeId)
      modifies this`counter, this`scopes
      ensures id == counter == old(counter) + 1
      ensures scopes == old(scopes)[id := Scope(stype, None, {}, map[])]
    {
      counter := counter + 1;
      scopes := scopes[counter := Scope(stype, None, {}, map[])];
      id := counter;
    }

    /** EnterScope: the new scope becomes current.  Once the first scope has been left there is no
        current scope to attach a further one to: a null pointer is followed. */
    method EnterScope(stype: ScopeType) returns (ok: bool)
      requires Valid()
      modifies this
      ensures ok <==> old(current).Some? || old(root).None?
      ensures ok ==> Valid() && counter == old(counter) + 1 && current == Some(counter) && root.Some?
      ensures ok ==> Opens(scopes, counter, stype, old(current)) && Extends(old(scopes), scopes)
    {
      hide Numbered, Extends, Opens;
      ok := true;
      NextIsNew(scopes, counter);
      if current.Some? || root.None? {
        AttachedIsNumbered(scopes, counter, stype, current);
      }
      var id := GenScope(stype);
      if root.None? {
        root, current := Some(id), Some(id);
      } else if current.None? {
        ok := false;
      } else {
        var up := current.value;
        scopes := scopes[id := scopes[id].(parent := current)];
        scopes := scopes[up := scopes[up].(children := scopes[up].children + {id})];
        current := Some(id);
        assert scopes == Attached(old(scopes), old(counter), stype, old(current));
      }
    }

    method ExitScope()
      requires Valid() && current.Some?
      modifies this`current
      ensures Valid() && current == scopes[old(current).value].parent
    {
      current := scopes[current.value].parent;
    }

    /** BuildScopeTreeImpl over a tree of the heap.  It fails exactly if there would be a second scope
        outside all others; otherwise every scope that was entered has been left again. */
    method BuildScopeTreeImpl(ir: IR?, ghost s: Shape) returns (ok: bool)
      requires Valid() && IsTree(ir, s)
      modifies this, Refs(s)
      ensures ok <==> old(current).Some? || OuterScopes(old(Value(s))) + (if old(root).Some? then 1 else 0) <= 1
      ensures ok ==> Valid() && IsTree(ir, s) && current == old(current)
      ensures ok ==> counter == old(counter) + ScopeCount(old(Value(s)))
      ensures ok ==> (root.Some? <==> old(root).Some? || OuterScopes(old(Value(s))) > 0)
      ensures ok ==> Built(old(Value(s)), Value(s), old(current), old(counter), old(scopes), scopes)
      decreases s, 1
    {
      ok := true;
      if ir != null {
        ok := BuildNode(ir, s);
      }
    }

    /** A node: it is entered, its children are walked, and its scope is left. */
    method BuildNode(ir: IR, ghost s: Shape) returns (ok: bool)
      requires Valid() && IsTree(ir, s)
      modifies this, Refs(s)
      ensures ok <==> old(current).Some? || OuterScopes(old(Value(s))) + (if old(root).Some? then 1 else 0) <= 1
      ensures ok ==> Valid() && IsTree(ir, s) && current == old(current)
      ensures ok ==> counter == old(counter) + ScopeCount(old(Value(s)))
      ensures ok ==> (root.Some? <==> old(root).Some? || OuterScopes(old(Value(s))) > 0)
      ensures ok ==> Built(old(Value(s)), Value(s), old(current), old(counter), old(scopes), scopes)
      decreases s, 0, 1
    {
      RefsAllocated(s);
      ghost var t0, cur, n, a := Value(s), current, counter, scopes;
      ok := EnterNode(ir, s);
      if !ok {
        return;
      }
      ghost var t1, b, c := Value(s), scopes, map[];
      ok, c := BuildChildren(ir, s);
      if ok {
        BuiltNode(t0, t1, Value(s), cur, n, a, b, c, scopes);
        if ir.scopeType != ScopeDefault {
          ExitScope();
        }
      }
    }

    /** On the way down: a scoped node opens its scope; the node is tagged with the current scope. */
    method EnterNode(ir: IR, ghost s: Shape) returns (ok: bool)
      requires Valid() && IsTree(ir, s)
      modifies this, ir`scopeId
      ensures ok <==> ir.scopeType == ScopeDefault || old(current).Some? || old(root).None?
      ensures ok ==> Valid() && IsTree(ir, s)
      ensures ok ==> Entered(old(Value(s)), Value(s), old(current), old(counter), old(scopes), scopes)
      ensures ok ==> current == InnerScope(Value(s), old(current))
      ensures ok ==> counter == old(counter) + (if Scoped(Value(s)) then 1 else 0)
      ensures ok ==> (root.Some? <==> old(root).Some? || Scoped(Value(s)))
    {
      RefsAllocated(s);
      ok := true;
      if ir.scopeType != ScopeDefault {
        ok := EnterScope(ir.scopeType);
        if !ok {
          return;
        }
      }
      if current.Some? {
        ir.scopeId := current.value;
      }
    }

    /** The recursive calls, inside the scope that is current by then. */
    method BuildChildren(ir: IR, ghost s: Shape) returns (ok: bool, ghost mid: Scopes)
      requires Valid() && IsTree(ir, s)
      modifies this, Refs(s.l), Refs(s.r)
      ensures var t := old(Value(s));
        ok <==> old(current).Some?
                || OuterScopes(t.left) + OuterScopes(t.right) + (if old(root).Some? then 1 else 0) <= 1
      ensures ok ==> Valid() && IsTree(ir, s) && current == old(current) && ir.Info() == old(ir.Info())
      ensures var t := old(Value(s)); ok ==>
        && counter == old(counter) + ScopeCount(t.left) + ScopeCount(t.right)
        && (root.Some? <==> old(root).Some? || OuterScopes(t.left) + OuterScopes(t.right) > 0)
        && Built(t.left, Value(s).left, old(current), old(counter), old(scopes), mid)
        && Built(t.right, Value(s).right, old(current), old(counter) + ScopeCount(t.left), mid, scopes)
      decreases s, 0, 0
    {
      RefsAllocated(s);
      ghost var t := Value(s);
      assert t.left == Value(s.l) && t.right == Value(s.r);
      ok := BuildScopeTreeImpl(ir.left, s.l);
      mid := scopes;
      if ok {
        ok := BuildScopeTreeImpl(ir.right, s.r);
      }
      assert ok ==> Value(s).left == Value(s.l) && Value(s).right == Value(s.r);
    }

    /** BuildTree: for a tree whose root opens a scope, and more generally for a tree with at most one
        scope outside all others, the walk succeeds and leaves all scopes.  They are numbered from 1 in
        pre-order. */
    static method BuildTree(ir: IR, ghost s: Shape) returns (tree: ScopeTree, ok: bool)
      requires IsTree(ir, s)
      modifies Refs(s)
      ensures fresh(tree) && (ok <==> OuterScopes(old(Value(s))) <= 1)
      ensures ok ==> tree.Valid() && IsTree(ir, s) && tree.current.None?
      ensures ok ==> tree.counter == ScopeCount(old(Value(s)))
      ensures ok ==> Built(old(Value(s)), Value(s), None, 0, map[], tree.scopes)
    {
      RefsAllocated(s);
      tree := new ScopeTree();
      ok := tree.BuildScopeTreeImpl(ir, s);
    }
  }
}
