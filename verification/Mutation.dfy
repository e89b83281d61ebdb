/** Mutation and the IR library on tree values: what MutateIRs may produce
    (srcs/internal/srcs/mutate.cpp). */
module Mutation {
  import opened Common
  import opened IrTree

  // ---------------------------------------------------------------------------------------------
  // Splicing
  // ---------------------------------------------------------------------------------------------

  /** `t` with the subtree at `p` replaced by `v`. */
  function Splice(t: Tree, p: Path, v: Tree): Tree {
    if p == [] || t.Nil? then v
    else if p[0] == L then Node(t.info, Splice(t.left, p[1..], v), t.right)
    else Node(t.info, t.left, Splice(t.right, p[1..], v))
  }

  /** Away from `p` nothing changes: a node that is not below the splice keeps its place and its
      fields. */
  lemma {:induction false} SpliceKeeps(t: Tree, p: Path, v: Tree, q: Path)
    requires Has(t, p) && Has(t, q) && !(p <= q)
    ensures Has(Splice(t, p, v), q) && At(Splice(t, p, v), q).info == At(t, q).info
    ensures !(q <= p) ==> At(Splice(t, p, v), q) == At(t, q)
  {
    if q != [] && p[0] == q[0] {
      PrefixTail(p, q);
      PrefixTail(q, p);
      SpliceKeeps(Child(t, p[0]), p[1..], v, q[1..]);
    }
  }

  // ---------------------------------------------------------------------------------------------
  // What may be mutated
  // ---------------------------------------------------------------------------------------------

  predicate IsDefinition(d: DataType) {
    d == VariableDefinition || d == VariableType || d == ClassDefinition
  }

  /** can_be_mutated: no node of the tree is (part of) a definition. */
  predicate CanBeMutated(t: Tree) {
    t.Node? ==> !IsDefinition(t.info.dataType) && CanBeMutated(t.left) && CanBeMutated(t.right)
  }

  predicate ShouldMutate(frozen: set<IRType>, t: Tree) {
    t.Node? && t.info.typ != UNKNOWN && t.info.typ !in frozen && !t.IsLeaf() && CanBeMutated(t)
  }

  // ---------------------------------------------------------------------------------------------
  // Variants
  // ---------------------------------------------------------------------------------------------

  /** The library as values: the entries of each bucket. */
  type Library = map<IRType, seq<Tree>>

  function Bucket(lib: Library, typ: IRType): seq<Tree> {
    if typ in lib then lib[typ] else []
  }

  const EMPTY_TYPE: IRType := 0x1234567

  /** A draw from a bucket; an empty bucket yields the empty IR. */
  predicate Drawn(lib: Library, typ: IRType, e: Tree) {
    if Bucket(lib, typ) == [] then
      e.IsLeaf() && e.info.typ == EMPTY_TYPE && e.info.data == Str("") && e.info.dataType == DataDefault
    else e in Bucket(lib, typ)
  }

  predicate SameType(a: Tree, b: Tree) {
    (a.Node? <==> b.Node?) && (a.Node? ==> a.info.typ == b.info.typ)
  }

  predicate HasWords(n: Info) {
    n.op.Some? && (n.op.value.prefix != "" || n.op.value.middle != "" || n.op.value.suffix != "")
  }

  /** strategy_replace_with_constraint: the node of a library entry of the same type and with children
      of the same types, over copies of the children of `cur`. */
  predicate Reworded(lib: Library, cur: Tree, e: Tree, v: Tree) {
    && cur.Node? && e.Node? && HasWords(cur.info) && Drawn(lib, cur.info.typ, e)
    && SameType(e.left, cur.left) && SameType(e.right, cur.right)
    && Norm(v) == Norm(Node(e.info, cur.left, cur.right))
  }

  /** strategy_replace: `cur` with its left child, its right child or both drawn from the library. */
  predicate Regrown(lib: Library, cur: Tree, a: Tree, b: Tree, v: Tree) {
    && cur.Node?
    && (a == cur.left || Redrawn(lib, cur.left, a)) && (b == cur.right || Redrawn(lib, cur.right, b))
    && (Redrawn(lib, cur.left, a) || Redrawn(lib, cur.right, b))
    && Norm(v) == Norm(Node(cur.info, a, b))
  }

  predicate Redrawn(lib: Library, child: Tree, e: Tree) {
    child.Node? && child.info.typ != UNKNOWN && Drawn(lib, child.info.typ, e)
  }

  ghost predicate Variant(lib: Library, cur: Tree, v: Tree) {
    || (exists e :: Reworded(lib, cur, e, v))
    || (exists a, b :: Regrown(lib, cur, a, b, v))
  }

  ghost predicate MutantAt(lib: Library, frozen: set<IRType>, input: Tree, p: Path, v: Tree, out: Tree) {
    && p != [] && Has(input, p) && ShouldMutate(frozen, At(input, p))
    && Variant(lib, At(input, p), v)
    && Norm(out) == Norm(Splice(input, p, v))
  }

  /** `out` is the input with exactly one subtree, below the root, replaced by a variant of it. */
  ghost predicate Mutant(lib: Library, frozen: set<IRType>, input: Tree, out: Tree) {
    exists p, v :: MutantAt(lib, frozen, input, p, v, out)
  }

  // ---------------------------------------------------------------------------------------------
  // Definitions survive
  // ---------------------------------------------------------------------------------------------

  lemma {:induction false} NoDefinitionBelow(t: Tree, q: Path)
    requires CanBeMutated(t) && Has(t, q)
    ensures !IsDefinition(At(t, q).info.dataType)
  {
    if q != [] {
      NoDefinitionBelow(Child(t, q[0]), q[1..]);
    }
  }

  lemma {:induction false} AtBelow(t: Tree, p: Path, q: Path)
    requires Has(t, q) && p <= q
    ensures Has(t, p) && Has(At(t, p), q[|p|..]) && At(At(t, p), q[|p|..]) == At(t, q)
  {
    if p == [] {
      assert q[0..] == q;
    } else {
      PrefixTail(p, q);
      AtBelow(Child(t, p[0]), p[1..], q[1..]);
      assert q[1..][|p| - 1..] == q[|p|..];
    }
  }

  /** What should be mutated: a node of a known type that is not frozen, with a child, and without a part of a
      definition at or below it. */
  lemma {:induction false} ShouldMutateIff(frozen: set<IRType>, t: Tree)
    ensures ShouldMutate(frozen, t)
      <==> t.Node? && t.info.typ != 0xdeadbeef && t.info.typ !in frozen && (t.left.Node? || t.right.Node?)
           && forall q :: Has(t, q) ==>
                At(t, q).info.dataType !in {VariableDefinition, VariableType, ClassDefinition}
  {
    CanBeMutatedIff(t);
  }

  lemma {:induction false} CanBeMutatedIff(t: Tree)
    ensures CanBeMutated(t)
      <==> forall q :: Has(t, q) ==> At(t, q).info.dataType !in {VariableDefinition, VariableType, ClassDefinition}
  {
    if CanBeMutated(t) {
      forall q | Has(t, q)
        ensures At(t, q).info.dataType !in {VariableDefinition, VariableType, ClassDefinition}
      {
        NoDefinitionBelow(t, q);
      }
    } else {
      var q := DefinitionBelow(t);
      assert Has(t, q);
    }
  }

  lemma {:induction false} DefinitionBelow(t: Tree) returns (q: Path)
    requires !CanBeMutated(t)
    ensures Has(t, q) && At(t, q).info.dataType in {VariableDefinition, VariableType, ClassDefinition}
  {
    if IsDefinition(t.info.dataType) {
      q := [];
    } else {
      var d := if CanBeMutated(t.left) then R else L;
      var sub := DefinitionBelow(Child(t, d));
      q := [d] + sub;
      assert q[0] == d && q[1..] == sub;
    }
  }

  /** The node of the input at `p` may be mutated, and away from it the output agrees with the input in everything
      but ids, where no operator counts as an empty one. */
  ghost predicate ReplacesOnly(frozen: set<IRType>, input: Tree, out: Tree, p: Path) {
    && p != [] && Has(input, p) && At(input, p).info.typ != 0xdeadbeef && At(input, p).info.typ !in frozen
    && (At(input, p).left.Node? || At(input, p).right.Node?)
    && (forall q :: Has(At(input, p), q) ==>
          At(At(input, p), q).info.dataType !in {VariableDefinition, VariableType, ClassDefinition})
    && (forall q :: Has(input, q) && !(p <= q) ==> Has(out, q) && AgreeAt(out, input, q))
  }

  ghost predicate ReplacesOne(frozen: set<IRType>, input: Tree, out: Tree) {
    exists p :: ReplacesOnly(frozen, input, out, p)
  }

  ghost predicate AgreeAt(a: Tree, b: Tree, q: Path)
    requires Has(a, q) && Has(b, q)
  {
    var m, n := At(a, q).info, At(b, q).info;
    && m.typ == n.typ && m.data == n.data && m.dataType == n.dataType && m.scopeType == n.scopeType
    && OpOrEmpty(m.op) == OpOrEmpty(n.op)
  }

  /** A mutant replaces one node of the input that may be mutated, and nothing else. */
  lemma MutantReplacesOnly(lib: Library, frozen: set<IRType>, input: Tree, out: Tree) returns (p: Path)
    requires Mutant(lib, frozen, input, out)
    ensures ReplacesOnly(frozen, input, out, p)
  {
    var v;
    p, v :| MutantAt(lib, frozen, input, p, v, out);
    ShouldMutateIff(frozen, At(input, p));
    forall q | Has(input, q) && !(p <= q)
      ensures Has(out, q) && AgreeAt(out, input, q)
    {
      SpliceKeeps(input, p, v, q);
      NormKeepsFields(out, Splice(input, p, v), q);
    }
  }

  lemma MutantsReplaceOnly(lib: Library, frozen: set<IRType>, input: Tree, outs: seq<Tree>)
    requires forall k :: 0 <= k < |outs| ==> Mutant(lib, frozen, input, outs[k])
    ensures forall k :: 0 <= k < |outs| ==> ReplacesOne(frozen, input, outs[k])
  {
    forall k | 0 <= k < |outs|
      ensures ReplacesOne(frozen, input, outs[k])
    {
      var p := MutantReplacesOnly(lib, frozen, input, outs[k]);
    }
  }

  /** Every definition of the input is at the same place, with the same fields up to ids, in every
      mutant. */
  lemma DefinitionsSurvive(lib: Library, frozen: set<IRType>, input: Tree, out: Tree, q: Path)
    requires Mutant(lib, frozen, input, out)
    requires Has(input, q) && IsDefinition(At(input, q).info.dataType)
    ensures Has(out, q)
    ensures var m, n := At(out, q).info, At(input, q).info;
      && m.typ == n.typ && m.data == n.data && m.dataType == n.dataType && m.scopeType == n.scopeType
      && OpOrEmpty(m.op) == OpOrEmpty(n.op)
  {
    var p, v :| MutantAt(lib, frozen, input, p, v, out);
    assert !(p <= q) by {
      if p <= q {
        AtBelow(input, p, q);
        NoDefinitionBelow(At(input, p), q[|p|..]);
      }
    }
    SpliceKeeps(input, p, v, q);
    NormKeepsFields(out, Splice(input, p, v), q);
  }

  // ---------------------------------------------------------------------------------------------
  // Productions
  // ---------------------------------------------------------------------------------------------

  /** The local shape of a node: its type, its words, and the types of its children. */
  datatype Production = Production(typ: IRType, op: Op, left: Option<IRType>, right: Option<IRType>)

  function TypeOf(t: Tree): Option<IRType> {
    if t.Nil? then None else Some(t.info.typ)
  }

  function ProductionOf(t: Tree): Production
    requires t.Node?
  {
    Production(t.info.typ, OpOrEmpty(t.info.op), TypeOf(t.left), TypeOf(t.right))
  }

  /** Every node of `t` has a production of the grammar `g`. */
  predicate Within(t: Tree, g: Production -> bool) {
    t.Node? ==> g(ProductionOf(t)) && Within(t.left, g) && Within(t.right, g)
  }

  predicate LibraryWithin(lib: Library, g: Production -> bool) {
    forall typ, e :: typ in lib && e in lib[typ] ==> Within(e, g)
  }

  /** Each bucket holds trees of its own type only. */
  predicate LibraryTyped(lib: Library) {
    forall typ, e :: typ in lib && e in lib[typ] ==> e.Node? && e.info.typ == typ
  }

  lemma {:induction false} WithinNorm(t: Tree, g: Production -> bool)
    ensures Within(Norm(t), g) <==> Within(t, g)
  {
    if t.Node? {
      WithinNorm(t.left, g);
      WithinNorm(t.right, g);
      assert ProductionOf(Norm(t)) == ProductionOf(t);
    }
  }

  lemma {:induction false} WithinAt(t: Tree, g: Production -> bool, p: Path)
    requires Within(t, g) && Has(t, p)
    ensures Within(At(t, p), g)
  {
    if p != [] {
      WithinAt(Child(t, p[0]), g, p[1..]);
    }
  }

  /** A subtree may be replaced by one with the same type at its root. */
  lemma {:induction false} WithinSplice(t: Tree, g: Production -> bool, p: Path, v: Tree)
    requires Within(t, g) && Has(t, p) && Within(v, g)
    requires v.Node? && v.info.typ == At(t, p).info.typ
    ensures Within(Splice(t, p, v), g)
    ensures TypeOf(Splice(t, p, v)) == TypeOf(t)
  {
    if p != [] {
      WithinSplice(Child(t, p[0]), g, p[1..], v);
    }
  }

  /** The library can serve the child that a variant redraws. */
  predicate Serves(lib: Library, child: Tree) {
    child.Node? && child.info.typ != UNKNOWN ==> Bucket(lib, child.info.typ) != []
  }

  lemma NormRoot(v: Tree, v': Tree)
    requires Norm(v) == Norm(v')
    ensures v.Node? <==> v'.Node?
    ensures v.Node? ==> v.info.typ == v'.info.typ
  {
  }

  /** The root of a variant keeps the type, and its productions come from `cur` or from the library. */
  lemma VariantWithin(lib: Library, g: Production -> bool, cur: Tree, v: Tree)
    requires LibraryTyped(lib) && LibraryWithin(lib, g) && cur.Node? && Within(cur, g) && !cur.IsLeaf()
    requires Serves(lib, cur.left) && Serves(lib, cur.right)
    requires Variant(lib, cur, v)
    ensures v.Node? && v.info.typ == cur.info.typ && Within(v, g)
  {
    if e :| Reworded(lib, cur, e, v) {
      RewordedWithin(lib, g, cur, e, v);
    } else {
      var a, b :| Regrown(lib, cur, a, b, v);
      RegrownWithin(lib, g, cur, a, b, v);
    }
  }

  lemma RewordedWithin(lib: Library, g: Production -> bool, cur: Tree, e: Tree, v: Tree)
    requires LibraryTyped(lib) && LibraryWithin(lib, g) && cur.Node? && Within(cur, g) && !cur.IsLeaf()
    requires Reworded(lib, cur, e, v)
    ensures v.Node? && v.info.typ == cur.info.typ && Within(v, g)
  {
    var w := Node(e.info, cur.left, cur.right);
    assert e in Bucket(lib, cur.info.typ);
    assert ProductionOf(w) == ProductionOf(e);
    WithinNorm(v, g);
    WithinNorm(w, g);
    NormRoot(v, w);
  }

  lemma RegrownWithin(lib: Library, g: Production -> bool, cur: Tree, a: Tree, b: Tree, v: Tree)
    requires LibraryTyped(lib) && LibraryWithin(lib, g) && cur.Node? && Within(cur, g)
    requires Serves(lib, cur.left) && Serves(lib, cur.right) && Regrown(lib, cur, a, b, v)
    ensures v.Node? && v.info.typ == cur.info.typ && Within(v, g)
  {
    var w := Node(cur.info, a, b);
    assert TypeOf(a) == TypeOf(cur.left) && Within(a, g);
    assert TypeOf(b) == TypeOf(cur.right) && Within(b, g);
    assert ProductionOf(w) == ProductionOf(cur);
    WithinNorm(v, g);
    WithinNorm(w, g);
    NormRoot(v, w);
  }

  /** The library can serve every child that a mutation of `input` may redraw. */
  ghost predicate ChildrenServed(lib: Library, frozen: set<IRType>, input: Tree) {
    forall p :: p != [] && Has(input, p) && ShouldMutate(frozen, At(input, p)) ==>
      Serves(lib, At(input, p).left) && Serves(lib, At(input, p).right)
  }

  /** Mutation is closed over local productions: a mutant uses only productions of the input and of the
      library, provided the library can serve the children that may be redrawn. */
  lemma MutantWithin(lib: Library, frozen: set<IRType>, g: Production -> bool, input: Tree, out: Tree)
    requires LibraryTyped(lib) && LibraryWithin(lib, g) && Within(input, g)
    requires Mutant(lib, frozen, input, out) && ChildrenServed(lib, frozen, input)
    ensures Within(out, g) && TypeOf(out) == TypeOf(input)
  {
    var p, v :| MutantAt(lib, frozen, input, p, v, out);
    WithinAt(input, g, p);
    VariantWithin(lib, g, At(input, p), v);
    WithinSplice(input, g, p, v);
    WithinNorm(out, g);
    WithinNorm(Splice(input, p, v), g);
    NormRoot(out, Splice(input, p, v));
  }

  lemma {:induction false} SpliceAt(t: Tree, p: Path, v: Tree)
    requires Has(t, p) && v.Node?
    ensures Has(Splice(t, p, v), p) && At(Splice(t, p, v), p) == v
  {
    if p != [] {
      SpliceAt(Child(t, p[0]), p[1..], v);
    }
  }

  /** The node that is drawn from an empty bucket. */
  function EmptyLeaf(): Tree {
    Node(Info(EMPTY_TYPE, None, Str(""), DataDefault, ScopeDefault, 0, 0), Nil, Nil)
  }

  /** A child that the library cannot serve may be redrawn as a node of the empty type: some mutant then leaves
      every grammar without productions for that type. */
  lemma EmptyBucketLeavesGrammar(lib: Library, frozen: set<IRType>, g: Production -> bool, input: Tree, p: Path, d: Dir)
    requires forall q :: g(q) ==> q.typ != EMPTY_TYPE
    requires p != [] && Has(input, p) && ShouldMutate(frozen, At(input, p)) && !Serves(lib, Child(At(input, p), d))
    ensures exists out :: Mutant(lib, frozen, input, out) && !Within(out, g)
  {
    var cur, e := At(input, p), EmptyLeaf();
    var a, b := if d == L then e else cur.left, if d == R then e else cur.right;
    var v := Node(cur.info, a, b);
    var out := Splice(input, p, v);
    assert Regrown(lib, cur, a, b, v);
    assert MutantAt(lib, frozen, input, p, v, out);
    SpliceAt(input, p, v);
    assert !Within(v, g) by {
      assert ProductionOf(e).typ == EMPTY_TYPE;
    }
    if Within(out, g) {
      WithinAt(out, g, p);
    }
  }

  /** So mutation stays within the productions exactly if the library can serve these children. */
  lemma MutantsWithinIff(lib: Library, frozen: set<IRType>, g: Production -> bool, input: Tree)
    requires LibraryTyped(lib) && LibraryWithin(lib, g) && Within(input, g)
    requires forall q :: g(q) ==> q.typ != EMPTY_TYPE
    ensures (forall out :: Mutant(lib, frozen, input, out) ==> Within(out, g)) <==> ChildrenServed(lib, frozen, input)
  {
    if ChildrenServed(lib, frozen, input) {
      forall out | Mutant(lib, frozen, input, out)
        ensures Within(out, g)
      {
        MutantWithin(lib, frozen, g, input, out);
      }
    } else {
      var p :| p != [] && Has(input, p) && ShouldMutate(frozen, At(input, p))
        && !(Serves(lib, At(input, p).left) && Serves(lib, At(input, p).right));
      var d := if Serves(lib, At(input, p).left) then R else L;
      assert Child(At(input, p), d) == if d == L then At(input, p).left else At(input, p).right;
      EmptyBucketLeavesGrammar(lib, frozen, g, input, p, d);
    }
  }

  // ---------------------------------------------------------------------------------------------
  // ExtractStructure
  // ---------------------------------------------------------------------------------------------

  /** The leaf that replaces a fix unit. */
  function FixLeaf(sid: nat, scopeId: ScopeId): Tree {
    Node(Info(UNKNOWN, None, Str(FIXME), DataDefault, ScopeDefault, sid, scopeId), Nil, Nil)
  }

  function ExtractData(n: Info): Data {
    if n.data.Str? && n.dataType == DataDefault then Str("'x'")
    else if n.data.Int? then Int(1)
    else if n.data.Flt? then Flt(1.1)
    else n.data
  }

  /** Fix units below the root become FIXME leaves; data at the leaves becomes a placeholder. */
  function Extract(t: Tree): Tree
    decreases t, 0
  {
    if t.Nil? then Nil
    else if t.IsLeaf() then t.(info := t.info.(data := ExtractData(t.info)))
    else t.(left := ExtractChild(t.left), right := ExtractChild(t.right))
  }

  function ExtractChild(t: Tree): Tree
    decreases t, 1
  {
    if t.Node? && t.info.dataType == FixUnit then FixLeaf(0, 0) else Extract(t)
  }

  /** The place is not inside a fix unit below the root. */
  ghost predicate OutsideUnits(t: Tree, q: Path)
    requires Has(t, q)
  {
    forall r :: [] < r < q && Has(t, r) ==> At(t, r).info.dataType != FixUnit
  }

  /** Extraction leaves exactly the places that are not inside a fix unit below the root.  Such a unit is a FIXME leaf,
      data at other leaves becomes a placeholder, and inner nodes keep their fields. */
  lemma {:induction false} ExtractPlaces(t: Tree, q: Path)
    ensures Has(Extract(t), q) <==> Has(t, q) && OutsideUnits(t, q)
    ensures Has(t, q) && OutsideUnits(t, q) ==>
      var m, n := At(Extract(t), q), At(t, q);
      if q != [] && n.info.dataType == FixUnit then
        m.IsLeaf() && m.info.typ == 0xdeadbeef && m.info.data == Str("FIXME") && m.info.dataType == DataDefault
      else
        && m.info == n.info.(data := m.info.data) && (m.IsLeaf() <==> n.IsLeaf())
        && m.info.data == (if !n.IsLeaf() then n.info.data
                           else match n.info.data
                                case NoData => NoData
                                case Str(s) => if n.info.dataType == DataDefault then Str("'x'") else Str(s)
                                case Int(_) => Int(1)
                                case Flt(_) => Flt(1.1))
  {
    if t.Node? && q != [] {
      var c, rest := Child(t, q[0]), q[1..];
      UnitsBelow(t, q);
      if c.Node? && c.info.dataType == FixUnit {
        assert Child(Extract(t), q[0]) == FixLeaf(0, 0);
        assert rest != [] ==> !Has(FixLeaf(0, 0), rest);
      } else {
        ExtractPlaces(c, rest);
      }
    } else if t.Node? {
      assert ExtractChild(t.left).Node? <==> t.left.Node?;
      assert ExtractChild(t.right).Node? <==> t.right.Node?;
    }
  }

  lemma UnitsBelow(t: Tree, q: Path)
    requires t.Node? && q != []
    ensures Has(t, q) ==> (OutsideUnits(t, q)
      <==> OutsideUnits(Child(t, q[0]), q[1..]) && (|q| > 1 ==> Child(t, q[0]).info.dataType != FixUnit))
  {
    if Has(t, q) {
      var c, rest := Child(t, q[0]), q[1..];
      forall r | [] < r < rest && Has(c, r)
        ensures [] < [q[0]] + r < q && Has(t, [q[0]] + r) && At(t, [q[0]] + r) == At(c, r)
      {
        assert ([q[0]] + r)[1..] == r && q == [q[0]] + rest;
      }
      forall r | [] < r < q && Has(t, r)
        ensures r[0] == q[0] && r[1..] < rest && Has(c, r[1..]) && At(c, r[1..]) == At(t, r)
        ensures r[1..] == [] ==> At(t, r) == c
      {
        assert r == q[..|r|] && r[1..] == rest[..|r| - 1];
      }
      if |q| > 1 {
        assert Has(c, rest) && Has(c, []) && [q[0]][1..] == [];
        assert q[..1] == [q[0]];
        assert [] < [q[0]] < q && Has(t, [q[0]]) && At(t, [q[0]]) == c;
      }
    }
  }

  /** No node of the tree is a fix unit. */
  predicate NoFixUnit(t: Tree) {
    t.Node? ==> t.info.dataType != FixUnit && NoFixUnit(t.left) && NoFixUnit(t.right)
  }

  /** After extraction no fix unit is left below the root.  Extracting again is harmless exactly when
      there was none in the first place: a FIXME leaf is itself a default string leaf, which the second
      extraction overwrites with the placeholder. */
  lemma {:induction false} ExtractTwice(t: Tree)
    requires t.Node?
    ensures NoFixUnit(Extract(t).left) && NoFixUnit(Extract(t).right)
    ensures Extract(Extract(t)) == Extract(t) <==> NoFixUnit(t.left) && NoFixUnit(t.right)
    decreases t, 0
  {
    if !t.IsLeaf() {
      ExtractChildTwice(t.left);
      ExtractChildTwice(t.right);
    }
  }

  lemma {:induction false} ExtractChildTwice(c: Tree)
    ensures NoFixUnit(ExtractChild(c)) && (ExtractChild(c).Node? <==> c.Node?)
    ensures ExtractChild(ExtractChild(c)) == ExtractChild(c) <==> NoFixUnit(c)
    decreases c, 1
  {
    if c.Node? && c.info.dataType != FixUnit {
      ExtractTwice(c);
    }
  }
}
