/** The mutator on the heap (srcs/internal/srcs/mutate.cpp): the strategies, the mutation of every
    node of a tree, and the extraction of structure. */
module Mutators {
  import opened IrTree
  import opened IrHeap
  import opened Mutation
  import opened IRLibraries

  // ---------------------------------------------------------------------------------------------
  // Extraction in place
  // ---------------------------------------------------------------------------------------------

  /** ExtractStructure rewrites the children of `root` and its data. */
  method ExtractStructure(root: IR, ghost s: Shape) returns (ghost r: Shape)
    requires IsTree(root, s)
    modifies Refs(s)
    ensures IsTree(root, r) && fresh(Refs(r) - Refs(s))
    ensures Norm(Value(r)) == Norm(Extract(old(Value(s))))
    decreases s, 0
  {
    ghost var t := Value(s);
    RefsAllocated(s);
    r := s;
    if root.left != null {
      r := ExtractLeft(root, r);
    }
    if root.right != null {
      r := ExtractRight(root, s, r);
    }
    if root.left == null && root.right == null {
      root.data := ExtractData(root.Info());
    } else {
      ExtractedNode(t, Value(r));
    }
  }

  lemma ExtractedNode(t: Tree, v: Tree)
    requires t.Node? && !t.IsLeaf() && v.Node? && v.info == t.info
    requires Norm(v.left) == Norm(Mutation.ExtractChild(t.left))
      && Norm(v.right) == Norm(Mutation.ExtractChild(t.right))
    ensures Norm(v) == Norm(Extract(t))
  {
  }

  /** The left slot. */
  method ExtractLeft(root: IR, ghost s: Shape) returns (ghost r: Shape)
    requires IsTree(root, s) && root.left != null
    modifies Refs(s)
    ensures r.Cell? && r.r == s.r && IsTree(root, r) && fresh(Refs(r) - Refs(s))
    ensures root.Info() == old(root.Info()) && root.left != null && Value(r.r) == old(Value(s.r))
    ensures Norm(Value(r.l)) == Norm(Mutation.ExtractChild(old(Value(s.l))))
    decreases s, 0, 0
  {
    RefsAllocated(s);
    var child;
    ghost var l;
    child, l := ExtractSlot(root.left, s.l);
    root.left := child;
    r := Cell(root, l, s.r);
  }

  /** The right slot, after the left one (`s` is the tree before both). */
  method ExtractRight(root: IR, ghost s: Shape, ghost now: Shape) returns (ghost r: Shape)
    requires IsTree(root, now) && root.right != null && s.Cell? && now.r == s.r
    modifies Refs(now)
    ensures r.Cell? && r.l == now.l && IsTree(root, r) && fresh(Refs(r) - Refs(now))
    ensures root.Info() == old(root.Info()) && root.right != null && Value(r.l) == old(Value(now.l))
    ensures Norm(Value(r.r)) == Norm(Mutation.ExtractChild(old(Value(s.r))))
    decreases s, 0, 0
  {
    RefsAllocated(now);
    var child;
    ghost var rr;
    child, rr := ExtractSlot(root.right, s.r);
    root.right := child;
    r := Cell(root, now.l, rr);
  }

  /** A child slot: a fix unit gives way to a FIXME leaf, anything else is extracted in place. */
  method ExtractSlot(child: IR, ghost s: Shape) returns (child': IR, ghost r: Shape)
    requires IsTree(child, s)
    modifies Refs(s)
    ensures IsTree(child', r) && fresh(Refs(r) - Refs(s))
    ensures Norm(Value(r)) == Norm(Mutation.ExtractChild(old(Value(s))))
    decreases s, 1
  {
    if child.dataType == FixUnit {
      var sid: nat :| true;
      child' := new IR.Leaf(UNKNOWN, FIXME, sid);
      r := Cell(child', Empty, Empty);
      LeafShape(child');
    } else {
      child' := child;
      r := ExtractStructure(child, s);
    }
  }

  // ---------------------------------------------------------------------------------------------
  // Tests on nodes
  // ---------------------------------------------------------------------------------------------

  method CanMutate(cur: IR, ghost s: Shape) returns (b: bool)
    requires IsTree(cur, s)
    ensures b <==> CanBeMutated(Value(s))
    decreases s
  {
    RefsAllocated(s);
    if IsDefinition(cur.dataType) {
      return false;
    }
    b := true;
    if cur.left != null {
      b := CanMutate(cur.left, s.l);
    }
    if cur.right != null && b {
      b := CanMutate(cur.right, s.r);
    }
  }

  method ShouldMutateNode(frozen: set<IRType>, cur: IR, ghost s: Shape) returns (b: bool)
    requires IsTree(cur, s)
    ensures b <==> ShouldMutate(frozen, Value(s))
    ensures b ==> cur.typ != 0xdeadbeef && cur.typ !in frozen && (cur.left != null || cur.right != null)
    ensures b ==> forall q :: Has(Value(s), q) ==>
      At(Value(s), q).info.dataType !in {VariableDefinition, VariableType, ClassDefinition}
  {
    if cur.typ == UNKNOWN || cur.typ in frozen || cur.IsLeaf() {
      return false;
    }
    b := CanMutate(cur, s);
    ShouldMutateIff(frozen, Value(s));
  }

  /** A copy of the tree's optional child. */
  method DeepCopyChild(child: IR?, ghost s: Shape) returns (copy: IR?, ghost c: Shape)
    requires IsTree(child, s)
    ensures IsTree(copy, c) && fresh(Refs(c)) && Norm(Value(c)) == Norm(Value(s))
  {
    copy, c := null, Empty;
    if child != null {
      copy, c := DeepCopy(child, s);
    }
  }

  // ---------------------------------------------------------------------------------------------
  // The strategies
  // ---------------------------------------------------------------------------------------------

  /** The types of two optional children agree. */
  predicate SameTypeNode(a: IR?, b: IR?) {
    (a == null <==> b == null) && (a != null ==> a.typ == b.typ)
  }

  /** The copy of a library node without its children: they are detached for the copy and put back, so
      every node is as before in the end. */
  method CopyDetached(n: IR, ghost repr: set<IR>) returns (copy: IR)
    requires n in repr && allocated(repr)
    modifies repr
    ensures unchanged(repr)
    ensures fresh(copy) && copy.left == null && copy.right == null && NormInfo(copy.Info()) == NormInfo(n.Info())
  {
    var saveLeft, saveRight := n.left, n.right;
    n.left, n.right := null, null;
    LeafShape(n);
    ghost var c;
    copy, c := DeepCopy(n, Cell(n, Empty, Empty));
    n.left, n.right := saveLeft, saveRight;
    CopyOfLeaf(c, n.Info());
  }

  lemma CopyOfLeaf(c: Shape, n: Info)
    requires Linked(c) && Norm(Value(c)) == Norm(Node(n, Nil, Nil))
    ensures c.Cell? && c.ref.left == null && c.ref.right == null && NormInfo(c.ref.Info()) == NormInfo(n)
  {
    assert c.Cell?;
    assert Norm(Value(c)) == Node(NormInfo(c.ref.Info()), Norm(Value(c.l)), Norm(Value(c.r)));
    assert Norm(Node(n, Nil, Nil)) == Node(NormInfo(n), Norm(Nil), Norm(Nil));
    assert Norm(Value(c.l)) == Nil && Norm(Value(c.r)) == Nil;
  }

  /** The drawn node has children of the types of the children of `cur`. */
  predicate SameChildren(e: Tree, cur: Tree) {
    e.Node? && cur.Node? && SameType(e.left, cur.left) && SameType(e.right, cur.right)
  }

  /** strategy_replace_with_constraint: the words of a library node over copies of the children; refused
      only when the node has no words or the drawn node does not fit. */
  method StrategyReplaceWithConstraint(lib: IRLibrary, cur: IR, ghost s: Shape)
    returns (res: IR?, ghost v: Shape, ghost e: Tree)
    requires lib.Valid() && IsTree(cur, s)
    modifies lib.m.repr
    ensures unchanged(lib.m.repr)
    ensures IsTree(res, v) && fresh(Refs(v))
    ensures res != null ==> Reworded(lib.m.trees, Value(s), e, Value(v))
    ensures res == null && HasWords(cur.Info()) ==> Drawn(lib.m.trees, cur.typ, e) && !SameChildren(e, Value(s))
    ensures HasWords(cur.Info())
      <==> cur.op.Some? && !(cur.op.value.prefix == cur.op.value.middle == cur.op.value.suffix == "")
  {
    res, v, e := null, Empty, Nil;
    if !HasWords(cur.Info()) {
      return;
    }
    RefsAllocated(s);
    var entry;
    ghost var es;
    entry, es := lib.GetRandomIR(cur.typ);
    e := Value(es);
    NodeFits(entry, es, cur, s);
    if !SameTypeNode(entry.left, cur.left) || !SameTypeNode(entry.right, cur.right) {
      return;
    }
    RefsAllocated(es);
    res, v := Reword(lib.m.repr, cur, s, entry);
  }

  /** The new node of strategy_replace_with_constraint. */
  method Reword(ghost repr: set<IR>, cur: IR, ghost s: Shape, entry: IR) returns (res: IR, ghost v: Shape)
    requires IsTree(cur, s) && entry in repr && allocated(repr)
    modifies repr
    ensures unchanged(repr)
    ensures IsTree(res, v) && fresh(Refs(v))
    ensures Norm(Value(v)) == Norm(Node(entry.Info(), Value(s.l), Value(s.r)))
  {
    RefsAllocated(s);
    res := CopyDetached(entry, repr);
    ghost var new_;
    v, new_ := AttachCopies(res, cur, s);
    assert Refs(v) == {res} + new_;
  }

  /** Copies of both children. */
  method CopyChildren(cur: IR, ghost s: Shape) returns (left: IR?, right: IR?, ghost l: Shape, ghost r: Shape)
    requires IsTree(cur, s)
    ensures IsTree(left, l) && IsTree(right, r) && Refs(l) !! Refs(r) && fresh(Refs(l)) && fresh(Refs(r))
    ensures Norm(Value(l)) == Norm(Value(s.l)) && Norm(Value(r)) == Norm(Value(s.r))
  {
    RefsAllocated(s);
    left, l := DeepCopyChild(cur.left, s.l);
    RefsAllocated(l);
    right, r := DeepCopyChild(cur.right, s.r);
  }

  /** Copies of the children of `cur` become the children of the new node. */
  method AttachCopies(res: IR, cur: IR, ghost s: Shape) returns (ghost v: Shape, ghost new_: set<IR>)
    requires IsTree(cur, s) && res !in Refs(s) && res.left == null && res.right == null
    modifies res
    ensures IsTree(res, v) && Refs(v) == {res} + new_ && fresh(new_)
    ensures Norm(Value(v)) == Node(NormInfo(old(res.Info())), Norm(old(Value(s.l))), Norm(old(Value(s.r))))
  {
    RefsAllocated(s);
    var left, right;
    ghost var l, r;
    left, right, l, r := CopyChildren(cur, s);
    res.left, res.right := left, right;
    v, new_ := Cell(res, l, r), Refs(l) + Refs(r);
  }

  lemma NodeFits(a: IR, sa: Shape, b: IR, sb: Shape)
    requires IsTree(a, sa) && IsTree(b, sb)
    ensures SameTypeNode(a.left, b.left) && SameTypeNode(a.right, b.right) <==> SameChildren(Value(sa), Value(sb))
    ensures Value(sb).left == Value(sb.l) && Value(sb).right == Value(sb.r)
  {
    assert Value(sa).left == Value(sa.l) && Value(sa).right == Value(sa.r);
  }

  /** A copy of a library tree for a child of type `typ`, where one is wanted. */
  method DrawCopy(lib: IRLibrary, wanted: bool, typ: IRType) returns (copy: IR?, ghost k: Shape, ghost e: Tree)
    requires lib.Valid()
    ensures IsTree(copy, k) && fresh(Refs(k)) && (copy != null <==> wanted)
    ensures wanted ==> Drawn(lib.m.trees, typ, e) && Norm(Value(k)) == Norm(e)
  {
    copy, k, e := null, Empty, Nil;
    if wanted {
      var entry;
      ghost var es;
      entry, es := lib.GetRandomIR(typ);
      e := Value(es);
      copy, k := DeepCopy(entry, es);
    }
  }

  /** The new children are put in place. */
  method Graft(res: IR, ghost c: Shape, left: IR?, ghost l: Shape, right: IR?, ghost r: Shape) returns (ghost v: Shape)
    requires IsTree(res, c) && IsTree(left, l) && IsTree(right, r)
    requires Refs(c) !! Refs(l) && Refs(c) !! Refs(r) && Refs(l) !! Refs(r)
    modifies res
    ensures IsTree(res, v) && Refs(v) <= Refs(c) + Refs(l) + Refs(r)
    ensures v.Cell? && v.ref == res && res.Info() == old(res.Info())
    ensures Value(v.l) == old(if left != null then Value(l) else Value(c.l))
    ensures Value(v.r) == old(if right != null then Value(r) else Value(c.r))
  {
    RefsAllocated(c);
    if right != null {
      res.right := right;
    }
    if left != null {
      res.left := left;
    }
    v := Cell(res, if left != null then l else c.l, if right != null then r else c.r);
  }

  predicate KnownNode(n: IR?) {
    n != null && n.typ != UNKNOWN
  }

  /** The node is replaced where both of its children are known; otherwise the draw may miss. */
  predicate BothKnown(t: Tree) {
    && t.Node? && t.left.Node? && t.left.info.typ != UNKNOWN
    && t.right.Node? && t.right.info.typ != UNKNOWN
  }

  /** strategy_replace: the left child, the right child or both are drawn from the library; the draw
      misses only when the wanted child is absent or of unknown type. */
  method StrategyReplace(lib: IRLibrary, cur: IR, ghost s: Shape)
    returns (res: IR?, ghost v: Shape, ghost a: Tree, ghost b: Tree)
    requires lib.Valid() && IsTree(cur, s)
    ensures IsTree(res, v) && fresh(Refs(v))
    ensures res != null ==> Regrown(lib.m.trees, Value(s), a, b, Value(v))
    ensures BothKnown(Value(s)) ==> res != null
  {
    res, v, a, b := null, Empty, Nil, Nil;
    var randint: nat :| randint < 3;
    var left, right := randint != 1, randint != 0;
    if (left && !KnownNode(cur.left)) || (right && !KnownNode(cur.right)) {
      BothKnownChildren(cur, s);
      return;
    }
    res, v, a, b := RegrowCopy(lib, cur, s, left, right);
  }

  lemma BothKnownChildren(cur: IR, s: Shape)
    requires IsTree(cur, s)
    ensures BothKnown(Value(s)) <==> KnownNode(cur.left) && KnownNode(cur.right)
  {
    assert Value(s).left == Value(s.l) && Value(s).right == Value(s.r);
  }

  /** A copy of `cur` with the selected children redrawn. */
  method RegrowCopy(lib: IRLibrary, cur: IR, ghost s: Shape, left: bool, right: bool)
    returns (res: IR, ghost v: Shape, ghost a: Tree, ghost b: Tree)
    requires lib.Valid() && IsTree(cur, s) && (left || right)
    requires (left ==> KnownNode(cur.left)) && (right ==> KnownNode(cur.right))
    ensures IsTree(res, v) && fresh(Refs(v))
    ensures Regrown(lib.m.trees, Value(s), a, b, Value(v))
  {
    hide Regrown;
    RefsAllocated(s);
    ghost var t := Value(s);
    ghost var c;
    res, c := DeepCopy(cur, s);
    CopyLooksLike(cur, s, res, c);
    ghost var new_;
    v, a, b, new_ := Redraw(lib, res, c, t, left, right);
    assert Refs(v) <= Refs(c) + new_;
  }

  /** Both draws. */
  method DrawBoth(lib: IRLibrary, left: bool, leftType: IRType, right: bool, rightType: IRType)
    returns (newLeft: IR?, newRight: IR?, ghost l: Shape, ghost r: Shape, ghost a: Tree, ghost b: Tree)
    requires lib.Valid()
    ensures IsTree(newLeft, l) && IsTree(newRight, r) && Refs(l) !! Refs(r) && fresh(Refs(l)) && fresh(Refs(r))
    ensures (newLeft != null <==> left) && (newRight != null <==> right)
    ensures left ==> Drawn(lib.m.trees, leftType, a) && Norm(Value(l)) == Norm(a)
    ensures right ==> Drawn(lib.m.trees, rightType, b) && Norm(Value(r)) == Norm(b)
  {
    newLeft, l, a := DrawCopy(lib, left, leftType);
    RefsAllocated(l);
    newRight, r, b := DrawCopy(lib, right, rightType);
  }

  /** The draws, and the new children put in place. */
  method Redraw(lib: IRLibrary, res: IR, ghost c: Shape, ghost t: Tree, left: bool, right: bool)
    returns (ghost v: Shape, ghost a: Tree, ghost b: Tree, ghost new_: set<IR>)
    requires lib.Valid() && IsTree(res, c) && t.Node? && (left || right)
    requires Norm(Value(c.l)) == Norm(t.left) && Norm(Value(c.r)) == Norm(t.right)
      && NormInfo(res.Info()) == NormInfo(t.info)
    requires left ==> KnownNode(res.left) && t.left.Node? && t.left.info.typ == res.left.typ
    requires right ==> KnownNode(res.right) && t.right.Node? && t.right.info.typ == res.right.typ
    modifies res
    ensures IsTree(res, v) && Refs(v) <= Refs(c) + new_ && fresh(new_)
    ensures Regrown(old(lib.m.trees), t, a, b, Value(v))
  {
    hide Regrown, Mutation.Regrown, IRLibrary.Valid;
    RefsAllocated(c);
    var newLeft, newRight;
    ghost var l, r;
    newLeft, newRight, l, r, a, b :=
      DrawBoth(lib, left, if left then res.left.typ else 0, right, if right then res.right.typ else 0);
    new_ := Refs(l) + Refs(r);
    a, b := if left then a else t.left, if right then b else t.right;
    v := Graft(res, c, newLeft, l, newRight, r);
    RegrownBy(lib.m.trees, t, v, a, b, left, right);
  }

  /** A deep copy has children where the original has, of the same types. */
  lemma CopyLooksLike(cur: IR, s: Shape, res: IR, c: Shape)
    requires IsTree(cur, s) && IsTree(res, c) && Norm(Value(c)) == Norm(Value(s))
    ensures SameTypeNode(cur.left, res.left) && SameTypeNode(cur.right, res.right)
    ensures Norm(Value(c.l)) == Norm(Value(s).left) && Norm(Value(c.r)) == Norm(Value(s).right)
    ensures NormInfo(res.Info()) == NormInfo(Value(s).info)
    ensures cur.left != null ==> Value(s).left.Node? && Value(s).left.info.typ == cur.left.typ
    ensures cur.right != null ==> Value(s).right.Node? && Value(s).right.info.typ == cur.right.typ
  {
    assert Value(s).left == Value(s.l) && Value(s).right == Value(s.r);
    assert Value(c).left == Value(c.l) && Value(c).right == Value(c.r);
    NormRoot(Value(c.l), Value(s.l));
    NormRoot(Value(c.r), Value(s.r));
  }

  lemma RegrownBy(lib: Library, t: Tree, v: Shape, a: Tree, b: Tree, left: bool, right: bool)
    requires t.Node? && v.Cell? && (left || right)
    requires NormInfo(v.ref.Info()) == NormInfo(t.info)
    requires Norm(Value(v.l)) == Norm(a) && Norm(Value(v.r)) == Norm(b)
    requires if left then Redrawn(lib, t.left, a) else a == t.left
    requires if right then Redrawn(lib, t.right, b) else b == t.right
    ensures Regrown(lib, t, a, b, Value(v))
  {
  }
}
