/** Positions in a heap tree, and the replacement of a subtree in place (replace in
    srcs/internal/srcs/mutate.cpp). */
module IrSplice {
  import opened IrTree
  import opened IrHeap
  import opened Mutation

  ghost predicate Reaches(s: Shape, p: Path) {
    s.Cell? && (p == [] || Reaches(ChildShape(s, p[0]), p[1..]))
  }

  ghost function ChildShape(s: Shape, d: Dir): Shape
    requires s.Cell?
  {
    if d == L then s.l else s.r
  }

  ghost function Sub(s: Shape, p: Path): (r: Shape)
    requires Reaches(s, p)
    ensures r.Cell?
  {
    if p == [] then s else Sub(ChildShape(s, p[0]), p[1..])
  }

  /** The path to a node of the tree. */
  ghost function PathTo(s: Shape, n: IR): (p: Path)
    requires n in Refs(s)
    ensures Reaches(s, p) && Sub(s, p).ref == n
  {
    if s.ref == n then []
    else if n in Refs(s.l) then
      var q := PathTo(s.l, n);
      assert ([L] + q)[1..] == q;
      [L] + q
    else
      var q := PathTo(s.r, n);
      assert ([R] + q)[1..] == q;
      [R] + q
  }

  ghost function SpliceShape(s: Shape, p: Path, v: Shape): Shape
    requires Reaches(s, p)
  {
    if p == [] then v
    else if p[0] == L then Cell(s.ref, SpliceShape(s.l, p[1..], v), s.r)
    else Cell(s.ref, s.l, SpliceShape(s.r, p[1..], v))
  }

  lemma {:induction false} SubIsTree(s: Shape, p: Path)
    requires Distinct(s) && Linked(s) && Reaches(s, p)
    ensures IsTree(Sub(s, p).ref, Sub(s, p)) && Refs(Sub(s, p)) <= Refs(s)
    ensures Has(Value(s), p) && At(Value(s), p) == Value(Sub(s, p))
  {
    if p != [] {
      SubIsTree(ChildShape(s, p[0]), p[1..]);
    }
  }

  lemma {:induction false} HasReaches(s: Shape, p: Path)
    requires Has(Value(s), p)
    ensures Reaches(s, p)
  {
    if p != [] {
      HasReaches(ChildShape(s, p[0]), p[1..]);
    }
  }

  lemma {:induction false} SpliceRefs(s: Shape, p: Path, v: Shape)
    requires Reaches(s, p)
    ensures Refs(SpliceShape(s, p, v)) <= Refs(s) + Refs(v)
  {
    if p != [] {
      SpliceRefs(ChildShape(s, p[0]), p[1..], v);
    }
  }

  lemma {:induction false} SpliceDistinct(s: Shape, p: Path, v: Shape)
    requires Reaches(s, p) && Distinct(s) && Distinct(v) && Refs(s) !! Refs(v)
    ensures Distinct(SpliceShape(s, p, v))
  {
    if p != [] {
      SpliceDistinct(ChildShape(s, p[0]), p[1..], v);
      SpliceRefs(ChildShape(s, p[0]), p[1..], v);
    }
  }

  /** The node above position `p`. */
  ghost function Above(s: Shape, p: Path): IR
    requires Reaches(s, p) && p != []
  {
    if |p| == 1 then s.ref else Above(ChildShape(s, p[0]), p[1..])
  }

  lemma {:induction false} AboveIsRef(s: Shape, p: Path)
    requires Reaches(s, p) && p != []
    ensures Above(s, p) in Refs(s)
  {
    if |p| > 1 {
      AboveIsRef(ChildShape(s, p[0]), p[1..]);
    }
  }

  lemma {:induction false} SubIsRef(s: Shape, p: Path)
    requires Reaches(s, p)
    ensures Sub(s, p).ref in Refs(s)
  {
    if p != [] {
      SubIsRef(ChildShape(s, p[0]), p[1..]);
    }
  }

  /** In a tree only one node points at the node at `p`, and on one side only. */
  lemma {:induction false} ParentIsUnique(s: Shape, p: Path, n: IR)
    requires Distinct(s) && Linked(s) && Reaches(s, p) && p != [] && n in Refs(s)
    requires n.left == Sub(s, p).ref || n.right == Sub(s, p).ref
    ensures n == Above(s, p)
    ensures n.left == Sub(s, p).ref <==> p[|p| - 1] == L
    decreases |p|
  {
    var c, other := ChildShape(s, p[0]), ChildShape(s, if p[0] == L then R else L);
    var target := Sub(s, p).ref;
    SubIsRef(c, p[1..]);
    if n in Refs(other) {
      ChildrenAreRefs(other, n);
    }
    if |p| == 1 {
      if n in Refs(c) {
        ChildrenAreRefs(c, n);
        RootHasNoParent(c, n);
      }
    } else {
      if n == s.ref {
        SubIsDeeper(c, p[1..]);
      }
      assert n in Refs(c);
      ParentIsUnique(c, p[1..], n);
    }
  }

  lemma {:induction false} ChildrenAreRefs(s: Shape, n: IR)
    requires Linked(s) && n in Refs(s)
    ensures n.left != null ==> n.left in Refs(s)
    ensures n.right != null ==> n.right in Refs(s)
  {
    if n in Refs(s.l) {
      ChildrenAreRefs(s.l, n);
    } else if n in Refs(s.r) {
      ChildrenAreRefs(s.r, n);
    }
  }

  lemma {:induction false} RootHasNoParent(s: Shape, n: IR)
    requires Distinct(s) && Linked(s) && n in Refs(s)
    ensures n.left != s.ref && n.right != s.ref
  {
    if n in Refs(s.l) {
      ChildrenAreRefs(s.l, n);
    } else if n in Refs(s.r) {
      ChildrenAreRefs(s.r, n);
    }
  }

  lemma {:induction false} SubIsDeeper(s: Shape, p: Path)
    requires Distinct(s) && Reaches(s, p) && p != []
    ensures Sub(s, p).ref != s.ref
  {
    SubIsRef(ChildShape(s, p[0]), p[1..]);
  }

  // ---------------------------------------------------------------------------------------------
  // An earlier heap, remembered
  // ---------------------------------------------------------------------------------------------

  datatype Fields = Fields(left: IR?, right: IR?, info: Info)

  ghost function FieldsOf(n: IR): Fields
    reads n
  {
    Fields(n.left, n.right, n.Info())
  }

  type Memory = map<IR, Fields>

  ghost function Remember(s: Shape): Memory
    reads Refs(s)
  {
    map n | n in Refs(s) :: FieldsOf(n)
  }

  ghost predicate LinkedIn(h: Memory, s: Shape)
    requires Refs(s) <= h.Keys
  {
    s.Cell? ==> h[s.ref].left == Top(s.l) && h[s.ref].right == Top(s.r) && LinkedIn(h, s.l) && LinkedIn(h, s.r)
  }

  ghost function ValueIn(h: Memory, s: Shape): Tree
    requires Refs(s) <= h.Keys
  {
    if s.Empty? then Nil else Node(h[s.ref].info, ValueIn(h, s.l), ValueIn(h, s.r))
  }

  /** Where the memory agrees with the heap, so do links and values. */
  lemma {:induction false} MemoryAgrees(h: Memory, s: Shape)
    requires Refs(s) <= h.Keys && forall n :: n in Refs(s) ==> h[n] == FieldsOf(n)
    ensures LinkedIn(h, s) <==> Linked(s)
    ensures ValueIn(h, s) == Value(s)
  {
    if s.Cell? {
      MemoryAgrees(h, s.l);
      MemoryAgrees(h, s.r);
    }
  }

  /** One child of `n` is new, the rest is as remembered. */
  ghost predicate Relinked(h: Memory, n: IR, d: Dir, child: IR?)
    requires n in h
    reads n
  {
    FieldsOf(n) == if d == L then h[n].(left := child) else h[n].(right := child)
  }

  /** If one node of `s` got a new child in place of the one at `p`, and nothing else changed, the heap
      holds the spliced tree. */
  lemma {:induction false} SplicedLinks(h: Memory, s: Shape, p: Path, v: Shape)
    requires Reaches(s, p) && p != [] && Distinct(s) && Linked(v)
    requires Refs(s) <= h.Keys && LinkedIn(h, s) && Above(s, p) in h
    requires forall n :: n in Refs(s) && n != Above(s, p) ==> FieldsOf(n) == h[n]
    requires Relinked(h, Above(s, p), p[|p| - 1], Top(v))
    ensures Linked(SpliceShape(s, p, v)) && Top(SpliceShape(s, p, v)) == s.ref
    ensures Value(SpliceShape(s, p, v)) == Splice(ValueIn(h, s), p, Value(v))
    decreases |p|
  {
    var c, other := ChildShape(s, p[0]), ChildShape(s, if p[0] == L then R else L);
    AboveIsRef(s, p);
    if |p| > 1 {
      AboveIsRef(c, p[1..]);
    }
    MemoryAgrees(h, other);
    if |p| > 1 {
      SplicedLinks(h, c, p[1..], v);
    }
  }

  /** The assignment to one child field of the parent. */
  method Relink(parent: IR, oldIr: IR, newIr: IR, ghost s: Shape, ghost p: Path, ghost v: Shape, ghost h: Memory)
    requires Reaches(s, p) && p != [] && Distinct(s) && parent == Above(s, p) && parent in Refs(s)
    requires parent.left == oldIr <==> p[|p| - 1] == L
    requires Linked(v) && Top(v) == newIr && parent !in Refs(v)
    requires Refs(s) <= h.Keys && LinkedIn(h, s) && forall n :: n in Refs(s) ==> h[n] == FieldsOf(n)
    modifies parent
    ensures Linked(SpliceShape(s, p, v)) && Top(SpliceShape(s, p, v)) == s.ref
    ensures Value(SpliceShape(s, p, v)) == Splice(ValueIn(h, s), p, old(Value(v)))
  {
    if parent.left == oldIr {
      parent.left := newIr;
    } else {
      parent.right := newIr;
    }
    SplicedLinks(h, s, p, v);
  }

  /** replace: the node `oldIr` below the root is replaced by `newIr`. */
  method Replace(root: IR, oldIr: IR, newIr: IR, ghost s: Shape, ghost v: Shape) returns (ghost r: Shape)
    requires IsTree(root, s) && IsTree(newIr, v) && Refs(s) !! Refs(v)
    requires oldIr in Refs(s) && oldIr != root
    modifies Refs(s)
    ensures r == SpliceShape(s, PathTo(s, oldIr), v) && IsTree(root, r) && Refs(r) <= Refs(s) + Refs(v)
    ensures var p := PathTo(s, oldIr);
      Has(old(Value(s)), p) && Value(r) == Splice(old(Value(s)), p, old(Value(v)))
  {
    ghost var p := PathTo(s, oldIr);
    SubIsTree(s, p);
    r := SpliceShape(s, p, v);
    RefsAllocated(s);
    RefsAllocated(v);
    var parent := LocateParent(root, oldIr, s);
    ParentIsUnique(s, p, parent);
    SpliceDistinct(s, p, v);
    SpliceRefs(s, p, v);
    ghost var h := Remember(s);
    MemoryAgrees(h, s);
    Relink(parent, oldIr, newIr, s, p, v, h);
  }
}
