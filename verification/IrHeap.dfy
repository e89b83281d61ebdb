/** IR nodes on the heap (srcs/internal/include/ir.h, srcs/internal/srcs/ir.cpp): copying, listing and
    locating nodes. */
module IrHeap {
  import opened Common
  import opened IrTree
  import opened Trimming

  class IR {
    const typ: IRType
    const op: Option<Op>
    var data: Data
    var dataType: DataType
    var scopeType: ScopeType
    var sid: nat
    var scopeId: ScopeId
    var left: IR?
    var right: IR?

    /** A leaf with a string. */
    constructor Leaf(typ: IRType, s: string, sid: nat)
      ensures Info() == IrTree.Info(typ, None, Str(s), DataDefault, ScopeDefault, sid, scopeId)
      ensures left == null && right == null
    {
      this.typ, op, data, dataType, scopeType := typ, None, Str(s), DataDefault, ScopeDefault;
      this.sid, scopeId, left, right := sid, *, null, null;
    }

    /** The copy constructor: every field, children included. */
    constructor Clone(ir: IR)
      ensures Info() == ir.Info() && left == ir.left && right == ir.right
    {
      typ, op, data, dataType, scopeType := ir.typ, ir.op, ir.data, ir.dataType, ir.scopeType;
      sid, scopeId, left, right := ir.sid, ir.scopeId, ir.left, ir.right;
    }

    /** A copy with given children.  A null operator becomes an empty one; the statement id and the
        scope id are not initialised. */
    constructor Copy(ir: IR, left: IR?, right: IR?)
      ensures NormInfo(Info()) == NormInfo(ir.Info()) && this.left == left && this.right == right
      ensures this.typ == ir.typ && this.data == ir.data
      ensures this.dataType == ir.dataType && this.scopeType == ir.scopeType
      ensures this.op == Some(if ir.op.Some? then ir.op.value else Op("", "", ""))
    {
      typ, op := ir.typ, Some(OpOrEmpty(ir.op));
      data, dataType, scopeType := ir.data, ir.dataType, ir.scopeType;
      sid, scopeId := *, *;
      this.left, this.right := left, right;
    }

    function Info(): Info
      reads this
    {
      IrTree.Info(typ, op, data, dataType, scopeType, sid, scopeId)
    }

    predicate IsLeaf()
      reads this
    {
      left == null && right == null
    }
  }

  // ---------------------------------------------------------------------------------------------
  // Shapes: which nodes make up a tree
  // ---------------------------------------------------------------------------------------------

  /** The nodes of a tree, arranged as they are linked. */
  datatype Shape = Empty | Cell(ref: IR, l: Shape, r: Shape)

  ghost function Top(s: Shape): IR? {
    if s.Empty? then null else s.ref
  }

  ghost function Refs(s: Shape): set<IR> {
    if s.Empty? then {} else {s.ref} + Refs(s.l) + Refs(s.r)
  }

  /** The nodes of a shape at hand have been allocated, so later allocations leave them alone. */
  lemma {:induction false} RefsAllocated(s: Shape)
    ensures allocated(Refs(s))
  {
    if s.Cell? {
      RefsAllocated(s.l);
      RefsAllocated(s.r);
    }
  }

  /** No node occurs twice. */
  ghost predicate Distinct(s: Shape) {
    s.Cell? ==>
      && s.ref !in Refs(s.l) && s.ref !in Refs(s.r) && Refs(s.l) !! Refs(s.r)
      && Distinct(s.l) && Distinct(s.r)
  }

  /** The heap links the nodes as the shape says. */
  ghost predicate Linked(s: Shape)
    reads Refs(s)
  {
    s.Cell? ==> s.ref.left == Top(s.l) && s.ref.right == Top(s.r) && Linked(s.l) && Linked(s.r)
  }

  ghost predicate IsTree(root: IR?, s: Shape)
    reads Refs(s)
  {
    Top(s) == root && Distinct(s) && Linked(s)
  }

  /** The value of the tree in the current heap. */
  ghost function Value(s: Shape): Tree
    reads Refs(s)
  {
    if s.Empty? then Nil else Node(s.ref.Info(), Value(s.l), Value(s.r))
  }

  lemma LeafShape(n: IR)
    requires n.left == null && n.right == null
    ensures Refs(Cell(n, Empty, Empty)) == {n} && IsTree(n, Cell(n, Empty, Empty))
    ensures Value(Cell(n, Empty, Empty)) == Node(n.Info(), Nil, Nil)
  {
    var s := Cell(n, Empty, Empty);
    assert Refs(s.l) == {} && Top(s.l) == null && Linked(s.l) && Distinct(s.l) && Value(s.l) == Nil;
  }

  /** The heap determines the shape. */
  lemma {:induction false} ShapeUnique(s: Shape, s': Shape)
    requires Linked(s) && Linked(s') && Top(s) == Top(s')
    ensures s == s'
  {
    if s.Cell? {
      ShapeUnique(s.l, s'.l);
      ShapeUnique(s.r, s'.r);
    }
  }

  // ---------------------------------------------------------------------------------------------
  // Copies
  // ---------------------------------------------------------------------------------------------

  /** deep_copy: a tree of new nodes, at the same places and with the same fields; ids are not kept, and no operator
      becomes an empty one. */
  method DeepCopy(root: IR, ghost s: Shape) returns (copy: IR, ghost c: Shape)
    requires IsTree(root, s)
    ensures IsTree(copy, c) && fresh(Refs(c)) && Norm(Value(c)) == Norm(Value(s))
    ensures forall p :: Has(Value(c), p) <==> Has(Value(s), p)
    ensures forall p :: Has(Value(s), p) && Has(Value(c), p) ==>
      var m, n := At(Value(c), p).info, At(Value(s), p).info;
      && m.typ == n.typ && m.data == n.data && m.dataType == n.dataType && m.scopeType == n.scopeType
      && OpOrEmpty(m.op) == OpOrEmpty(n.op)
  {
    RefsAllocated(s);
    copy, c := CopyNodes(root, s);
    forall p
      ensures Has(Value(c), p) <==> Has(Value(s), p)
      ensures Has(Value(s), p) ==>
        var m, n := At(Value(c), p).info, At(Value(s), p).info;
        && m.typ == n.typ && m.data == n.data && m.dataType == n.dataType && m.scopeType == n.scopeType
        && OpOrEmpty(m.op) == OpOrEmpty(n.op)
    {
      NormKeepsFields(Value(c), Value(s), p);
    }
  }

  /** The recursion of deep_copy. */
  method CopyNodes(root: IR, ghost s: Shape) returns (copy: IR, ghost c: Shape)
    requires IsTree(root, s)
    ensures IsTree(copy, c) && fresh(Refs(c))
    ensures Norm(Value(c)) == Norm(Value(s))
    decreases s
  {
    hide NormInfo, OpOrEmpty;
    var left: IR?, right: IR? := null, null;
    ghost var l, r := Empty, Empty;
    RefsAllocated(s);
    if root.left != null {
      left, l := CopyNodes(root.left, s.l);
      RefsAllocated(l);
    }
    if root.right != null {
      right, r := CopyNodes(root.right, s.r);
      RefsAllocated(r);
    }
    copy := CopyOver(root, left, l, right, r);
    c := Cell(copy, l, r);
  }

  /** The copy of the node itself, with the copied children. */
  method CopyOver(root: IR, left: IR?, ghost l: Shape, right: IR?, ghost r: Shape) returns (copy: IR)
    requires IsTree(left, l) && IsTree(right, r) && Refs(l) !! Refs(r)
    ensures fresh(copy) && IsTree(copy, Cell(copy, l, r)) && Value(l) == old(Value(l)) && Value(r) == old(Value(r))
    ensures NormInfo(copy.Info()) == NormInfo(root.Info())
  {
    RefsAllocated(l);
    RefsAllocated(r);
    copy := new IR.Copy(root, left, right);
  }

  /** The value of the tree, read node by node. */
  method Snapshot(root: IR?, ghost s: Shape) returns (t: Tree)
    requires IsTree(root, s)
    ensures t == Value(s)
    decreases s
  {
    RefsAllocated(s);
    t := Nil;
    if root != null {
      var left := Snapshot(root.left, s.l);
      var right := Snapshot(root.right, s.r);
      t := Node(root.Info(), left, right);
    }
  }

  /** CollectAllIRs: children before parents, left before right, the root last. */
  ghost function PostOrder(s: Shape): seq<IR> {
    if s.Empty? then [] else PostOrder(s.l) + PostOrder(s.r) + [s.ref]
  }

  method GetAllChildren(root: IR, ghost s: Shape) returns (res: seq<IR>)
    requires IsTree(root, s)
    ensures res + [root] == PostOrder(s)
    decreases s
  {
    res := [];
    RefsAllocated(s);
    if root.left != null {
      var sub := GetAllChildren(root.left, s.l);
      res := res + sub;
      res := res + [root.left];
    }
    if root.right != null {
      var sub := GetAllChildren(root.right, s.r);
      Regroup(PostOrder(s.l), sub, [root.right]);
      res := res + sub;
      res := res + [root.right];
    }
  }

  method CollectAllIRs(root: IR, ghost s: Shape) returns (res: seq<IR>)
    requires IsTree(root, s)
    ensures res == PostOrder(s)
  {
    res := GetAllChildren(root, s);
    res := res + [root];
  }

  /** locate_parent: finds the parent exactly when `n` is a proper descendant of the root. */
  method LocateParent(root: IR, n: IR, ghost s: Shape) returns (parent: IR?)
    requires IsTree(root, s)
    ensures parent == null <==> n !in Refs(s) || n == root
    ensures parent != null ==> parent in Refs(s) && (parent.left == n || parent.right == n)
    decreases s
  {
    RefsAllocated(s);
    if root.left == n || root.right == n {
      return root;
    }
    if root.left != null {
      var res := LocateParent(root.left, n, s.l);
      if res != null {
        return res;
      }
    }
    if root.right != null {
      var res := LocateParent(root.right, n, s.r);
      if res != null {
        return res;
      }
    }
    return null;
  }

  // ---------------------------------------------------------------------------------------------
  // Text
  // ---------------------------------------------------------------------------------------------

  /** ToStringImpl appends to the buffer; what it appends depends on the value of the tree only. */
  method AppendText(fmt: Format, root: IR, ghost s: Shape, buffer: string) returns (res: string)
    requires IsTree(root, s)
    ensures res == buffer + Flat(fmt, Value(s))
    decreases s, 0
  {
    hide DataText;
    RefsAllocated(s);
    res := buffer;
    if root.data != NoData {
      res := res + DataText(fmt, root.data);
    } else {
      if root.op.Some? {
        res := res + (root.op.value.prefix + " ");
      }
      res := AppendChild(fmt, root.left, s.l, res);
      if root.op.Some? {
        res := res + (root.op.value.middle + " ");
      }
      res := AppendChild(fmt, root.right, s.r, res);
      if root.op.Some? {
        res := res + root.op.value.suffix;
      }
      ghost var p1 := if root.op.Some? then root.op.value.prefix + " " else "";
      ghost var p3 := if root.op.Some? then root.op.value.middle + " " else "";
      Pieces(buffer, p1, FlatChild(fmt, Value(s.l)), p3, FlatChild(fmt, Value(s.r)),
             if root.op.Some? then root.op.value.suffix else "");
    }
  }

  ghost function FlatChild(fmt: Format, t: Tree): string {
    if t.Node? then Flat(fmt, t) + " " else ""
  }

  /** The recursive call for a child, if there is one. */
  method AppendChild(fmt: Format, child: IR?, ghost s: Shape, buffer: string) returns (res: string)
    requires IsTree(child, s)
    ensures res == buffer + FlatChild(fmt, Value(s))
    decreases s, 1
  {
    res := buffer;
    if child != null {
      res := AppendText(fmt, child, s, buffer);
      Regroup(buffer, Flat(fmt, Value(s)), " ");
      res := res + " ";
    }
  }

  lemma Pieces(b: string, p1: string, p2: string, p3: string, p4: string, p5: string)
    ensures b + p1 + p2 + p3 + p4 + p5 == b + (p1 + p2 + p3 + p4 + p5)
  {
    Regroup(b, p1, p2);
    Regroup(b, p1 + p2, p3);
    Regroup(b, p1 + p2 + p3, p4);
    Regroup(b, p1 + p2 + p3 + p4, p5);
  }

  /** ToString: the appended text, normalised in place. */
  method ToString(fmt: Format, root: IR, ghost s: Shape) returns (text: string)
    requires IsTree(root, s)
    ensures text == ToText(fmt, Value(s)) && Runs(text) == RunsOf(Words(fmt, Value(s)))
  {
    hide Runs, RunsOf, Words, Flat, Trim, Staying;
    RefsAllocated(s);
    var flat := AppendText(fmt, root, s, "");
    assert "" + Flat(fmt, Value(s)) == Flat(fmt, Value(s));
    var buffer := new char[|flat|](i requires 0 <= i < |flat| => flat[i]);
    assert buffer[..] == flat;
    var count := TrimString(buffer);
    text := buffer[..count];
    PrintingKeepsRuns(fmt, Value(s));
    assert text == ToText(fmt, Value(s));
  }

  /** NeedFixing: some leaf is a FIXME. */
  predicate NeedsFixing(t: Tree) {
    t.Node? && (if t.IsLeaf() then t.info.data == Str(FIXME) else NeedsFixing(t.left) || NeedsFixing(t.right))
  }

  /** Some leaf of the tree holds FIXME. */
  lemma {:induction false} NeedsFixingIff(t: Tree)
    ensures NeedsFixing(t) <==> exists p :: Has(t, p) && At(t, p).IsLeaf() && At(t, p).info.data == Str("FIXME")
  {
    if NeedsFixing(t) {
      var p := FixmeBelow(t);
      assert Has(t, p) && At(t, p).IsLeaf() && At(t, p).info.data == Str("FIXME");
    }
    if p :| Has(t, p) && At(t, p).IsLeaf() && At(t, p).info.data == Str("FIXME") {
      FixmeNeeds(t, p);
    }
  }

  lemma {:induction false} FixmeBelow(t: Tree) returns (p: Path)
    requires NeedsFixing(t)
    ensures Has(t, p) && At(t, p).IsLeaf() && At(t, p).info.data == Str("FIXME")
  {
    p := [];
    if !t.IsLeaf() {
      var d := if NeedsFixing(t.left) then L else R;
      var q := FixmeBelow(Child(t, d));
      p := [d] + q;
      assert p[1..] == q;
    }
  }

  lemma {:induction false} FixmeNeeds(t: Tree, p: Path)
    requires Has(t, p) && At(t, p).IsLeaf() && At(t, p).info.data == Str("FIXME")
    ensures NeedsFixing(t)
  {
    if p != [] {
      FixmeNeeds(Child(t, p[0]), p[1..]);
    }
  }

  method NeedFixing(root: IR, ghost s: Shape) returns (b: bool)
    requires IsTree(root, s)
    ensures b <==> NeedsFixing(Value(s))
    decreases s
  {
    RefsAllocated(s);
    b := false;
    if root.left != null || root.right != null {
      if root.left != null {
        b := NeedFixing(root.left, s.l);
      }
      if root.right != null && !b {
        b := NeedFixing(root.right, s.r);
      }
      return;
    }
    b := root.data == Str(FIXME);
  }
}
