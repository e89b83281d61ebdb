/** MutateIRs and AddIRToLibrary (srcs/internal/srcs/mutate.cpp): what one call produces and what it
    leaves alone. */
module MutatorRuns {
  import opened IrTree
  import opened IrHeap
  import opened IrSplice
  import opened Mutation
  import opened IRLibraries
  import opened Mutators

  // ---------------------------------------------------------------------------------------------
  // Several trees
  // ---------------------------------------------------------------------------------------------

  ghost function AllRefs(ss: seq<Shape>): set<IR> {
    if ss == [] then {} else Refs(ss[0]) + AllRefs(ss[1..])
  }

  /** Trees that share no node, with their values. */
  ghost predicate Forest(irs: seq<IR>, ss: seq<Shape>, vals: seq<Tree>)
    reads AllRefs(ss)
  {
    && |irs| == |ss| == |vals|
    && (ss != [] ==>
      && IsTree(irs[0], ss[0]) && Value(ss[0]) == vals[0]
      && Refs(ss[0]) !! AllRefs(ss[1..]) && Forest(irs[1..], ss[1..], vals[1..]))
  }

  lemma {:induction false} AllRefsAllocated(ss: seq<Shape>)
    ensures allocated(AllRefs(ss))
  {
    if ss != [] {
      RefsAllocated(ss[0]);
      AllRefsAllocated(ss[1..]);
    }
  }

  lemma {:induction false} ForestAppend(irs: seq<IR>, ss: seq<Shape>, vals: seq<Tree>, ir: IR, s: Shape)
    requires Forest(irs, ss, vals) && IsTree(ir, s) && Refs(s) !! AllRefs(ss)
    ensures Forest(irs + [ir], ss + [s], vals + [Value(s)])
    ensures AllRefs(ss + [s]) == AllRefs(ss) + Refs(s)
    decreases |ss|
  {
    if ss == [] {
      assert ss + [s] == [s] && [s][1..] == [] && irs + [ir] == [ir] && vals + [Value(s)] == [Value(s)];
      assert AllRefs([]) == {} && Forest([], [], []);
    } else {
      ForestAppend(irs[1..], ss[1..], vals[1..], ir, s);
      assert (ss + [s])[1..] == ss[1..] + [s];
      assert (irs + [ir])[1..] == irs[1..] + [ir];
      assert (vals + [Value(s)])[1..] == vals[1..] + [Value(s)];
    }
  }

  // ---------------------------------------------------------------------------------------------
  // MutateIR
  // ---------------------------------------------------------------------------------------------

  const CONSTRAINT_REPLACE_TIMES := 6

  ghost predicate AllVariants(lib: Library, cur: Tree, vals: seq<Tree>) {
    forall k :: 0 <= k < |vals| ==> Variant(lib, cur, vals[k])
  }

  /** `res.push_back(tmp)`, unless there is nothing to push. */
  method PushVariant(ghost lib: Library, ghost cur: Tree, irs: seq<IR>, ghost ss: seq<Shape>, ghost vals: seq<Tree>,
                     tmp: IR?, ghost v: Shape)
    returns (irs': seq<IR>, ghost ss': seq<Shape>, ghost vals': seq<Tree>)
    requires Forest(irs, ss, vals) && IsTree(tmp, v) && Refs(v) !! AllRefs(ss)
    requires AllVariants(lib, cur, vals) && (tmp != null ==> Variant(lib, cur, Value(v)))
    ensures Forest(irs', ss', vals') && AllRefs(ss') == AllRefs(ss) + Refs(v)
    ensures AllVariants(lib, cur, vals') && irs' == if tmp == null then irs else irs + [tmp]
  {
    irs', ss', vals' := irs, ss, vals;
    if tmp != null {
      ForestAppend(irs, ss, vals, tmp, v);
      irs', ss', vals' := irs + [tmp], ss + [v], vals + [Value(v)];
    }
  }

  /** One pass of the loop, and the step after it. */
  method AddVariant(lib: IRLibrary, input: IR, ghost s: Shape, constrained: bool,
                    irs: seq<IR>, ghost ss: seq<Shape>, ghost vals: seq<Tree>)
    returns (irs': seq<IR>, ghost ss': seq<Shape>, ghost vals': seq<Tree>)
    requires lib.Valid() && IsTree(input, s) && Forest(irs, ss, vals) && AllVariants(lib.m.trees, Value(s), vals)
    modifies lib.m.repr
    ensures unchanged(lib.m.repr)
    ensures Forest(irs', ss', vals') && AllVariants(lib.m.trees, old(Value(s)), vals')
    ensures exists new_: set<IR> :: AllRefs(ss') == AllRefs(ss) + new_ && fresh(new_)
    ensures irs <= irs' && |irs'| <= |irs| + 1
    ensures !constrained && BothKnown(old(Value(s))) ==> |irs'| == |irs| + 1
  {
    ghost var t := Value(s);
    AllRefsAllocated(ss);
    RefsAllocated(s);
    var tmp;
    ghost var v;
    if constrained {
      ghost var e;
      tmp, v, e := StrategyReplaceWithConstraint(lib, input, s);
    } else {
      ghost var a, b;
      tmp, v, a, b := StrategyReplace(lib, input, s);
    }
    irs', ss', vals' := PushVariant(lib.m.trees, t, irs, ss, vals, tmp, v);
  }

  /** MutateIR: up to seven variants of one node, all of new nodes; at least one where both children are
      known. */
  method MutateIR(lib: IRLibrary, input: IR, ghost s: Shape)
    returns (res: seq<IR>, ghost ss: seq<Shape>, ghost vals: seq<Tree>)
    requires lib.Valid() && IsTree(input, s)
    modifies lib.m.repr
    ensures unchanged(lib.m.repr)
    ensures Forest(res, ss, vals) && fresh(AllRefs(ss))
    ensures AllVariants(lib.m.trees, old(Value(s)), vals)
    ensures |res| <= 7 && (BothKnown(old(Value(s))) ==> res != [])
  {
    ghost var t := Value(s);
    res, ss, vals := [], [], [];
    RefsAllocated(s);
    for i := 0 to CONSTRAINT_REPLACE_TIMES
      invariant unchanged(lib.m.repr) && lib.Valid()
      invariant IsTree(input, s) && Value(s) == t
      invariant Forest(res, ss, vals) && fresh(AllRefs(ss))
      invariant AllVariants(lib.m.trees, t, vals) && |res| <= i
    {
      res, ss, vals := AddVariant(lib, input, s, true, res, ss, vals);
    }
    res, ss, vals := AddVariant(lib, input, s, false, res, ss, vals);
  }

  // ---------------------------------------------------------------------------------------------
  // One variant becomes a result
  // ---------------------------------------------------------------------------------------------

  lemma {:induction false} PathToSub(s: Shape, p: Path)
    requires Distinct(s) && Reaches(s, p)
    ensures Sub(s, p).ref in Refs(s) && PathTo(s, Sub(s, p).ref) == p
  {
    SubIsRef(s, p);
    if p != [] {
      var c := ChildShape(s, p[0]);
      PathToSub(c, p[1..]);
      assert [p[0]] + p[1..] == p;
    }
  }

  /** The text of a tree after extraction; the ids of the new leaves do not matter. */
  ghost predicate Extracted(fmt: Format, t: Tree, text: string) {
    exists x :: Norm(x) == Norm(Extract(t)) && text == ToText(fmt, x)
  }

  lemma {:induction false} ExtractNorm(a: Tree, b: Tree)
    requires Norm(a) == Norm(b)
    ensures Norm(Extract(a)) == Norm(Extract(b))
    ensures Norm(Mutation.ExtractChild(a)) == Norm(Mutation.ExtractChild(b))
  {
    if a.Node? {
      ExtractNorm(a.left, b.left);
      ExtractNorm(a.right, b.right);
    }
  }

  // ---------------------------------------------------------------------------------------------
  // Results without repetition
  // ---------------------------------------------------------------------------------------------

  /** The hash of a result is cut to 32 bits; the hash of the input is not. */
  const UNSIGNED_RANGE := 0x1_0000_0000

  function Low(env: Env, text: string): Hash {
    Hash(env.hash(text).v % UNSIGNED_RANGE)
  }

  /** So the test recognises a text by its own hash exactly if this hash fits 32 bits. */
  lemma CutIff(env: Env, text: string)
    ensures Low(env, text) == env.hash(text) <==> env.hash(text).v < 0x1_0000_0000
    ensures Low(env, text).v < 0x1_0000_0000 && (env.hash(text).v - Low(env, text).v) % 0x1_0000_0000 == 0
  {
  }

  /** `seen` holds the input's hash and the distinct cut hashes of the results. */
  ghost predicate KeysOk(env: Env, input: Hash, seen: set<Hash>, texts: seq<string>) {
    && (forall h :: h in seen <==> h == input || exists i :: 0 <= i < |texts| && Low(env, texts[i]) == h)
    && (forall i :: 0 <= i < |texts| ==> Low(env, texts[i]) != input)
    && (forall i, j :: 0 <= i < j < |texts| ==> Low(env, texts[i]) != Low(env, texts[j]))
  }

  lemma KeysPush(env: Env, input: Hash, seen: set<Hash>, texts: seq<string>, text: string)
    requires KeysOk(env, input, seen, texts) && Low(env, text) !in seen
    ensures KeysOk(env, input, seen + {Low(env, text)}, texts + [text])
  {
    var texts' := texts + [text];
    forall i | 0 <= i < |texts|
      ensures Low(env, texts[i]) != Low(env, text)
    {
      assert Low(env, texts[i]) in seen;
    }
    forall h | h in seen + {Low(env, text)}
      ensures h == input || exists i :: 0 <= i < |texts'| && Low(env, texts'[i]) == h
    {
      if h in seen {
        if h != input {
          var i :| 0 <= i < |texts| && Low(env, texts[i]) == h;
          assert texts'[i] == texts[i];
        }
      } else {
        assert texts'[|texts|] == text;
      }
    }
    forall i | 0 <= i < |texts'|
      ensures Low(env, texts'[i]) in seen + {Low(env, text)} && Low(env, texts'[i]) != input
    {
      if i < |texts| {
        assert Low(env, texts[i]) in seen;
      }
    }
  }

  /** A result that reads like the input is rejected exactly if the hash of the input fits 32 bits, or if an
      earlier result has its cut hash. */
  lemma InputRejectedIff(env: Env, text: string, seen: set<Hash>, texts: seq<string>)
    requires KeysOk(env, env.hash(text), seen, texts)
    ensures Low(env, text) in seen
      <==> env.hash(text).v < UNSIGNED_RANGE || exists i :: 0 <= i < |texts| && Low(env, texts[i]) == Low(env, text)
    ensures text in texts ==> env.hash(text).v >= UNSIGNED_RANGE
  {
    CutIff(env, text);
  }

  /** A variant that was made, whether or not it became a result: where it goes and the text of its mutant. */
  datatype Try = Try(at: Path, variant: Tree, text: string)

  /** The results so far: their nodes, values and extracted texts; and all variants so far. */
  datatype Results = Results(ss: seq<Shape>, vals: seq<Tree>, texts: seq<string>, tries: seq<Try>)

  function Add(o: Results, b: Shape, val: Tree, text: string): Results {
    Results(o.ss + [b], o.vals + [val], o.texts + [text], o.tries)
  }

  /** The variant goes to a node that should be mutated, and the cut hash of its mutant was recorded. */
  ghost predicate TryOk(env: Env, lib: Library, frozen: set<IRType>, t: Tree, seen: set<Hash>, x: Try) {
    && MutantAt(lib, frozen, t, x.at, x.variant, Splice(t, x.at, x.variant))
    && Extracted(env.fmt, Splice(t, x.at, x.variant), x.text)
    && Low(env, x.text) in seen
  }

  /** Every result is a mutant of the input; no two have the same cut hash of their extracted text; and no variant
      is passed over, except for a mutant whose cut hash is that of the input or of a result. */
  ghost predicate ResultsOk(env: Env, lib: Library, frozen: set<IRType>, t: Tree, input: Hash, seen: set<Hash>,
                            o: Results) {
    && |o.vals| == |o.texts| && KeysOk(env, input, seen, o.texts)
    && (forall k :: 0 <= k < |o.vals| ==>
          Mutant(lib, frozen, t, o.vals[k]) && Extracted(env.fmt, o.vals[k], o.texts[k]))
    && (forall k :: 0 <= k < |o.tries| ==> TryOk(env, lib, frozen, t, seen, o.tries[k]))
  }

  lemma ResultsTry(env: Env, lib: Library, frozen: set<IRType>, t: Tree, input: Hash, seen: set<Hash>, o: Results,
                   x: Try)
    requires ResultsOk(env, lib, frozen, t, input, seen, o) && TryOk(env, lib, frozen, t, seen, x)
    ensures ResultsOk(env, lib, frozen, t, input, seen, o.(tries := o.tries + [x]))
  {
  }

  lemma ResultsPush(env: Env, lib: Library, frozen: set<IRType>, t: Tree, input: Hash, seen: set<Hash>, o: Results,
                    p: Path, w: Tree, b: Shape, val: Tree, text: string)
    requires ResultsOk(env, lib, frozen, t, input, seen, o) && Low(env, text) !in seen
    requires MutantAt(lib, frozen, t, p, w, Splice(t, p, w)) && Norm(val) == Norm(Splice(t, p, w))
    requires Extracted(env.fmt, val, text)
    ensures ResultsOk(env, lib, frozen, t, input, seen + {Low(env, text)}, Add(o, b, val, text))
  {
    KeysPush(env, input, seen, o.texts, text);
    assert MutantAt(lib, frozen, t, p, w, val);
    forall k | 0 <= k < |o.tries|
      ensures TryOk(env, lib, frozen, t, seen + {Low(env, text)}, o.tries[k])
    {
      assert TryOk(env, lib, frozen, t, seen, o.tries[k]);
    }
  }

  /** Something was produced, or everything collided with an input hash that fits 32 bits. */
  predicate Produced(input: Hash, n: nat) {
    n > 0 || input.v < UNSIGNED_RANGE
  }

  /** The variant's mutant is a result, or its cut hash is that of the input or of a result. */
  ghost predicate Accounted(env: Env, lib: Library, frozen: set<IRType>, t: Tree, texts: seq<string>, x: Try) {
    && MutantAt(lib, frozen, t, x.at, x.variant, Splice(t, x.at, x.variant))
    && Extracted(env.fmt, Splice(t, x.at, x.variant), x.text)
    && (Low(env, x.text) == Key(env, t) || exists i :: 0 <= i < |texts| && Low(env, texts[i]) == Low(env, x.text))
  }

  lemma TriesAccounted(env: Env, lib: Library, frozen: set<IRType>, t: Tree, seen: set<Hash>, o: Results)
    requires ResultsOk(env, lib, frozen, t, Key(env, t), seen, o)
    ensures forall x :: x in o.tries ==> Accounted(env, lib, frozen, t, o.texts, x)
    ensures o.tries != [] ==> Produced(Key(env, t), |o.texts|)
  {
    forall x | x in o.tries
      ensures Accounted(env, lib, frozen, t, o.texts, x)
    {
      var k :| 0 <= k < |o.tries| && o.tries[k] == x;
      assert TryOk(env, lib, frozen, t, seen, o.tries[k]);
    }
    if o.tries != [] {
      assert Accounted(env, lib, frozen, t, o.texts, o.tries[0]);
    }
  }

  /** A node at which a variant is certain. */
  predicate Eligible(frozen: set<IRType>, input: Tree, p: Path) {
    p != [] && Has(input, p) && ShouldMutate(frozen, At(input, p)) && BothKnown(At(input, p))
  }

  /** All variants of one node were made after the earlier ones. */
  ghost predicate TriedAll(before: seq<Try>, after: seq<Try>, p: Path, vals: seq<Tree>) {
    && before <= after && |after| == |before| + |vals|
    && (forall i :: |before| <= i < |after| ==> after[i].at == p && after[i].variant == vals[i - |before|])
  }

  lemma TriedNone(before: seq<Try>, p: Path)
    ensures TriedAll(before, before, p, [])
  {
  }

  /** One more variant. */
  lemma TriedOne(before: seq<Try>, mid: seq<Try>, after: seq<Try>, p: Path, done: seq<Tree>, rest: seq<Tree>)
    requires rest != [] && TriedAll(before, mid, p, done)
    requires exists text :: after == mid + [Try(p, rest[0], text)]
    ensures TriedAll(before, after, p, done + [rest[0]])
    ensures (done + [rest[0]]) + rest[1..] == done + rest
  {
    var text :| after == mid + [Try(p, rest[0], text)];
    var n, vals := |before|, done + [rest[0]];
    assert before <= after by {
      assert mid <= after && before == mid[..n] == after[..n];
    }
    forall i | n <= i < |after|
      ensures after[i].at == p && after[i].variant == vals[i - n]
    {
      if i < |mid| {
        assert after[i] == mid[i] && vals[i - n] == done[i - n];
      } else {
        assert after[i] == Try(p, rest[0], text) && vals[i - n] == rest[0];
      }
    }
  }

  lemma NoResults(env: Env, lib: Library, frozen: set<IRType>, t: Tree, input: Hash)
    ensures ResultsOk(env, lib, frozen, t, input, {input}, Results([], [], [], []))
  {
  }

  ghost predicate TriedAt(tries: seq<Try>, p: Path) {
    exists x :: x in tries && x.at == p
  }

  lemma {:induction false} PostOrderHas(s: Shape, n: IR)
    ensures n in PostOrder(s) <==> n in Refs(s)
  {
    if s.Cell? {
      PostOrderHas(s.l, n);
      PostOrderHas(s.r, n);
    }
  }

  class Mutator {
    const lib: IRLibrary
    const frozen: set<IRType>
    var record: IR?

    constructor (env: Env)
      ensures lib.Valid() && fresh(lib) && fresh(lib.m.repr) && lib.env == env && frozen == {} && lib.m.trees == map[]
    {
      var l := new IRLibrary(env);
      lib, frozen, record := l, {}, null;
    }

    /** deep_copy_with_record: an exact copy; `record` is set to the copy of `rec`. */
    method DeepCopyWithRecord(root: IR, rec: IR, ghost s: Shape) returns (copy: IR, ghost c: Shape)
      requires IsTree(root, s)
      modifies this`record
      ensures IsTree(copy, c) && fresh(Refs(c)) && Value(c) == old(Value(s))
      ensures rec in Refs(s) ==> Reaches(c, PathTo(s, rec)) && record == Sub(c, PathTo(s, rec)).ref
      ensures rec !in Refs(s) ==> record == old(record)
      decreases s, 0
    {
      RefsAllocated(s);
      ghost var t := Value(s);
      var left, right;
      ghost var l, r;
      left, right, l, r := CopyChildrenWithRecord(root, rec, s);
      copy := CloneOver(root, left, l, right, r);
      c := Cell(copy, l, r);
      if root == rec {
        record := copy;
      }
    }

    /** Both children; the recorded node is in at most one of them. */
    method CopyChildrenWithRecord(root: IR, rec: IR, ghost s: Shape)
      returns (left: IR?, right: IR?, ghost l: Shape, ghost r: Shape)
      requires IsTree(root, s)
      modifies this`record
      ensures IsTree(left, l) && IsTree(right, r) && Refs(l) !! Refs(r) && fresh(Refs(l)) && fresh(Refs(r))
      ensures Value(l) == old(Value(s).left) && Value(r) == old(Value(s).right)
      ensures rec in Refs(s.l) ==> Reaches(l, PathTo(s.l, rec)) && record == Sub(l, PathTo(s.l, rec)).ref
      ensures rec in Refs(s.r) ==> Reaches(r, PathTo(s.r, rec)) && record == Sub(r, PathTo(s.r, rec)).ref
      ensures rec !in Refs(s.l) + Refs(s.r) ==> record == old(record)
      decreases s, 0, 0
    {
      RefsAllocated(s);
      ghost var t := Value(s);
      assert t.left == Value(s.l) && t.right == Value(s.r);
      left, l := CopyChildWithRecord(root.left, rec, s.l);
      RefsAllocated(l);
      right, r := CopyChildWithRecord(root.right, rec, s.r);
    }

    /** The copy of the node itself, with the copied children. */
    method CloneOver(root: IR, left: IR?, ghost l: Shape, right: IR?, ghost r: Shape) returns (copy: IR)
      requires IsTree(left, l) && IsTree(right, r) && Refs(l) !! Refs(r)
      ensures fresh(copy) && IsTree(copy, Cell(copy, l, r)) && copy.Info() == root.Info()
      ensures Value(Cell(copy, l, r)) == old(Node(root.Info(), Value(l), Value(r)))
    {
      RefsAllocated(l);
      RefsAllocated(r);
      copy := new IR.Clone(root);
      copy.left, copy.right := left, right;
    }

    /** The recursive call for a child, if there is one. */
    method CopyChildWithRecord(child: IR?, rec: IR, ghost s: Shape) returns (copy: IR?, ghost c: Shape)
      requires IsTree(child, s)
      modifies this`record
      ensures IsTree(copy, c) && fresh(Refs(c)) && Value(c) == old(Value(s))
      ensures rec in Refs(s) ==> Reaches(c, PathTo(s, rec)) && record == Sub(c, PathTo(s, rec)).ref
      ensures rec !in Refs(s) ==> record == old(record)
      decreases s, 1
    {
      copy, c := null, Empty;
      if child != null {
        copy, c := DeepCopyWithRecord(child, rec, s);
      }
    }

    /** A copy of the whole tree with the variant in place of the copy of `ir`. */
    method CopyAndReplace(root: IR, ghost s: Shape, ir: IR, variant: IR, ghost v: Shape)
      returns (tree: IR, ghost r: Shape)
      requires IsTree(root, s) && ir in Refs(s) && ir != root && IsTree(variant, v) && Refs(s) !! Refs(v)
      modifies this`record
      ensures IsTree(tree, r) && fresh(Refs(r) - Refs(v))
      ensures Value(r) == Splice(Value(s), PathTo(s, ir), Value(v))
    {
      RefsAllocated(s);
      RefsAllocated(v);
      ghost var p := PathTo(s, ir);
      ghost var c;
      tree, c := DeepCopyWithRecord(root, ir, s);
      RefsAllocated(c);
      PathToSub(c, p);
      RootPath(s, ir);
      RootPath(c, record);
      r := Replace(tree, record, variant, c, v);
    }

    lemma RootPath(s: Shape, n: IR)
      requires n in Refs(s)
      ensures PathTo(s, n) == [] <==> n == s.ref
    {
    }

    /** The tree of one variant: a deep copy of it is the result, and its extracted text is what results
        are compared by. */
    method TakeVariant(root: IR, ghost s: Shape, ir: IR, variant: IR, ghost v: Shape)
      returns (backup: IR, ghost b: Shape, text: string)
      requires IsTree(root, s) && ir in Refs(s) && ir != root && IsTree(variant, v) && Refs(s) !! Refs(v)
      modifies this`record, Refs(v)
      ensures IsTree(backup, b) && fresh(Refs(b))
      ensures Norm(Value(b)) == Norm(Splice(old(Value(s)), PathTo(s, ir), old(Value(v))))
      ensures Extracted(lib.env.fmt, Value(b), text)
    {
      RefsAllocated(s);
      RefsAllocated(v);
      var tree;
      ghost var r;
      tree, r := CopyAndReplace(root, s, ir, variant, v);
      ghost var t := Value(r);
      backup, b, text := BackUpAndExtract(tree, r);
      ExtractedNorm(lib.env.fmt, t, Value(b), text);
    }

    lemma ExtractedNorm(fmt: Format, t: Tree, t': Tree, text: string)
      requires Norm(t) == Norm(t') && Extracted(fmt, t, text)
      ensures Extracted(fmt, t', text)
    {
      ExtractNorm(t, t');
    }

    /** The deep copy that is kept, and the extracted text of the tree itself. */
    method BackUpAndExtract(tree: IR, ghost r: Shape) returns (backup: IR, ghost b: Shape, text: string)
      requires IsTree(tree, r)
      modifies Refs(r)
      ensures IsTree(backup, b) && fresh(Refs(b)) && Norm(Value(b)) == Norm(old(Value(r)))
      ensures Extracted(lib.env.fmt, old(Value(r)), text)
    {
      RefsAllocated(r);
      backup, b := CopyOf(tree, r);
      RefsAllocated(b);
      text := TextOfExtracted(tree, r);
    }

    method CopyOf(tree: IR, ghost r: Shape) returns (backup: IR, ghost b: Shape)
      requires IsTree(tree, r)
      ensures IsTree(backup, b) && fresh(Refs(b)) && Norm(Value(b)) == Norm(Value(r))
    {
      backup, b := DeepCopy(tree, r);
    }

    method TextOfExtracted(tree: IR, ghost r: Shape) returns (text: string)
      requires IsTree(tree, r)
      modifies Refs(r)
      ensures Extracted(lib.env.fmt, old(Value(r)), text)
    {
      hide RunsOf, Words;
      RefsAllocated(r);
      ghost var x := ExtractStructure(tree, r);
      RefsAllocated(x);
      text := ToString(lib.env.fmt, tree, x);
    }

    /** One variant: its tree becomes a result unless its hash was seen. */
    method TakeNext(root: IR, ghost s: Shape, ghost t: Tree, ir: IR, variant: IR, ghost v: Shape, ghost w: Tree,
                    ghost input: Hash, ghost lib0: Library, seen: set<Hash>, res: seq<IR>, ghost o: Results)
      returns (seen': set<Hash>, res': seq<IR>, ghost o': Results)
      requires IsTree(root, s) && Value(s) == t && ir in Refs(s) && ir != root
      requires IsTree(variant, v) && Value(v) == w && Refs(s) !! Refs(v)
      requires Forest(res, o.ss, o.vals) && AllRefs(o.ss) !! Refs(v)
      requires MutantAt(lib0, frozen, t, PathTo(s, ir), w, Splice(t, PathTo(s, ir), w))
      requires ResultsOk(lib.env, lib0, frozen, t, input, seen, o)
      modifies this`record, Refs(v)
      ensures Forest(res', o'.ss, o'.vals) && forall n :: n in AllRefs(o'.ss) ==> n in AllRefs(o.ss) || fresh(n)
      ensures ResultsOk(lib.env, lib0, frozen, t, input, seen', o')
      ensures exists text :: o'.tries == o.tries + [Try(PathTo(s, ir), w, text)]
    {
      RefsAllocated(s);
      AllRefsAllocated(o.ss);
      seen', res', o' := seen, res, o;
      var backup, text;
      ghost var b;
      backup, b, text := TakeVariant(root, s, ir, variant, v);
      ghost var p := PathTo(s, ir);
      ExtractedNorm(lib.env.fmt, Value(b), Splice(t, p, w), text);
      var tmpHash := Low(lib.env, text);
      if tmpHash !in seen {
        ResultsPush(lib.env, lib0, frozen, t, input, seen, o, p, w, b, Value(b), text);
        ForestAppend(res, o.ss, o.vals, backup, b);
        seen', res', o' := seen + {tmpHash}, res + [backup], Add(o, b, Value(b), text);
      }
      ResultsTry(lib.env, lib0, frozen, t, input, seen', o', Try(p, w, text));
      o' := o'.(tries := o'.tries + [Try(p, w, text)]);
    }

    /** The inner loop of MutateIRs over the variants of one node. */
    method TakeAll(root: IR, ghost s: Shape, ghost t: Tree, ir: IR, variants: seq<IR>, ghost vss: seq<Shape>,
                   ghost vvals: seq<Tree>, ghost input: Hash, ghost lib0: Library, seen: set<Hash>, res: seq<IR>,
                   ghost o: Results)
      returns (seen': set<Hash>, res': seq<IR>, ghost o': Results)
      requires IsTree(root, s) && Value(s) == t && ir in Refs(s) && ir != root
      requires Forest(variants, vss, vvals) && Refs(s) !! AllRefs(vss)
      requires Forest(res, o.ss, o.vals) && AllRefs(o.ss) !! AllRefs(vss)
      requires AllMutants(lib0, frozen, t, PathTo(s, ir), vvals)
      requires ResultsOk(lib.env, lib0, frozen, t, input, seen, o)
      requires lib.m.repr !! AllRefs(vss)
      modifies this`record, AllRefs(vss)
      ensures unchanged(lib.m.repr)
      ensures Forest(res', o'.ss, o'.vals) && forall n :: n in AllRefs(o'.ss) ==> n in AllRefs(o.ss) || fresh(n)
      ensures ResultsOk(lib.env, lib0, frozen, t, input, seen', o')
      ensures TriedAll(o.tries, o'.tries, PathTo(s, ir), vvals)
    {
      hide ResultsOk, TriedAll, MutantAt;
      seen', res', o' := seen, res, o;
      TriedNone(o.tries, PathTo(s, ir));
      RefsAllocated(s);
      AllRefsAllocated(vss);
      AllRefsAllocated(o.ss);
      var rest := variants;
      ghost var rss, rvals, done := vss, vvals, [];
      while rest != []
        invariant IsTree(root, s) && Value(s) == t
        invariant Forest(rest, rss, rvals) && AllRefs(rss) <= AllRefs(vss)
        invariant AllMutants(lib0, frozen, t, PathTo(s, ir), rvals)
        invariant Forest(res', o'.ss, o'.vals) && forall n :: n in AllRefs(o'.ss) ==> n in AllRefs(o.ss) || fresh(n)
        invariant ResultsOk(lib.env, lib0, frozen, t, input, seen', o')
        invariant done + rvals == vvals && TriedAll(o.tries, o'.tries, PathTo(s, ir), done)
        decreases |rest|
      {
        assert MutantAt(lib0, frozen, t, PathTo(s, ir), rvals[0], Splice(t, PathTo(s, ir), rvals[0]));
        RestAreMutants(lib0, frozen, t, PathTo(s, ir), rvals);
        ghost var tries := o'.tries;
        seen', res', o' := TakeNext(root, s, t, ir, rest[0], rss[0], rvals[0], input, lib0, seen', res', o');
        TriedOne(o.tries, tries, o'.tries, PathTo(s, ir), done, rvals);
        done := done + [rvals[0]];
        rest, rss, rvals := rest[1..], rss[1..], rvals[1..];
      }
      assert done + [] == done;
    }

    /** The variants of a node that may be mutated. */
    method VariantsAt(ir: IR, ghost s: Shape, ghost res: seq<IR>, ghost o: Results)
      returns (variants: seq<IR>, ghost vss: seq<Shape>, ghost vvals: seq<Tree>)
      requires Forest(res, o.ss, o.vals)
      requires lib.Valid() && Distinct(s) && Linked(s) && ir in Refs(s) && ir != s.ref
      requires Has(Value(s), PathTo(s, ir)) && ShouldMutate(frozen, At(Value(s), PathTo(s, ir)))
      modifies lib.m.repr
      ensures unchanged(lib.m.repr) && Linked(s) && Value(s) == old(Value(s))
      ensures Forest(variants, vss, vvals) && fresh(AllRefs(vss)) && lib.m.repr !! AllRefs(vss)
      ensures Forest(res, o.ss, o.vals) && AllRefs(o.ss) !! AllRefs(vss) && Refs(s) !! AllRefs(vss)
      ensures AllMutants(lib.m.trees, frozen, old(Value(s)), PathTo(s, ir), vvals)
      ensures BothKnown(old(At(Value(s), PathTo(s, ir)))) ==> variants != []
    {
      ghost var t, p := Value(s), PathTo(s, ir);
      RootPath(s, ir);
      SubIsTree(s, p);
      RefsAllocated(s);
      AllRefsAllocated(o.ss);
      variants, vss, vvals := MutateIR(lib, ir, Sub(s, p));
      VariantsAreMutants(lib.m.trees, frozen, t, p, vvals);
    }

    /** The variants of such a node, all taken. */
    method MutateAt(root: IR, ghost s: Shape, ghost t: Tree, ir: IR, ghost input: Hash, seen: set<Hash>,
                    res: seq<IR>, ghost o: Results)
      returns (seen': set<Hash>, res': seq<IR>, ghost o': Results)
      requires lib.Valid() && IsTree(root, s) && Value(s) == t && ir in Refs(s) && ir != root
      requires Has(t, PathTo(s, ir)) && ShouldMutate(frozen, At(t, PathTo(s, ir)))
      requires Forest(res, o.ss, o.vals) && ResultsOk(lib.env, lib.m.trees, frozen, t, input, seen, o)
      modifies this`record, lib.m.repr
      ensures unchanged(lib.m.repr)
      ensures Forest(res', o'.ss, o'.vals) && forall n :: n in AllRefs(o'.ss) ==> n in AllRefs(o.ss) || fresh(n)
      ensures ResultsOk(lib.env, lib.m.trees, frozen, t, input, seen', o')
      ensures o.tries <= o'.tries && (BothKnown(At(t, PathTo(s, ir))) ==> TriedAt(o'.tries, PathTo(s, ir)))
    {
      var variants;
      ghost var vss, vvals;
      variants, vss, vvals := VariantsAt(ir, s, res, o);
      seen', res', o' := TakeAll(root, s, t, ir, variants, vss, vvals, input, lib.m.trees, seen, res, o);
      if variants != [] {
        assert o'.tries[|o.tries|] in o'.tries;
      }
    }

    /** One pass of the outer loop: nodes that should not be mutated are skipped. */
    method MutateOne(root: IR, ghost s: Shape, ghost t: Tree, ir: IR, ghost input: Hash, seen: set<Hash>,
                     res: seq<IR>, ghost o: Results)
      returns (seen': set<Hash>, res': seq<IR>, ghost o': Results)
      requires lib.Valid() && IsTree(root, s) && Value(s) == t && ir in Refs(s)
      requires Forest(res, o.ss, o.vals) && ResultsOk(lib.env, lib.m.trees, frozen, t, input, seen, o)
      modifies this`record, lib.m.repr
      ensures unchanged(lib.m.repr)
      ensures Forest(res', o'.ss, o'.vals) && forall n :: n in AllRefs(o'.ss) ==> n in AllRefs(o.ss) || fresh(n)
      ensures ResultsOk(lib.env, lib.m.trees, frozen, t, input, seen', o')
      ensures o.tries <= o'.tries && (Eligible(frozen, t, PathTo(s, ir)) ==> TriedAt(o'.tries, PathTo(s, ir)))
    {
      seen', res', o' := seen, res, o;
      RootPath(s, ir);
      SubIsTree(s, PathTo(s, ir));
      if ir == root {
        return;
      }
      RefsAllocated(s);
      AllRefsAllocated(o.ss);
      var should := ShouldMutateNode(frozen, ir, Sub(s, PathTo(s, ir)));
      if should {
        seen', res', o' := MutateAt(root, s, t, ir, input, seen, res, o);
      }
    }

    /** The outer loop of MutateIRs, over nodes of the tree. */
    method MutateAll(irs: seq<IR>, root: IR, ghost s: Shape, h: Hash)
      returns (seen: set<Hash>, res: seq<IR>, ghost o: Results)
      requires lib.Valid() && IsTree(root, s) && forall n :: n in irs ==> n in Refs(s)
      modifies this`record, lib.m.repr
      ensures unchanged(lib.m.repr) && lib.Valid() && IsTree(root, s) && Value(s) == old(Value(s))
      ensures Forest(res, o.ss, o.vals) && forall n :: n in AllRefs(o.ss) ==> fresh(n)
      ensures ResultsOk(lib.env, lib.m.trees, frozen, old(Value(s)), h, seen, o)
      ensures forall k :: 0 <= k < |irs| ==>
        (Eligible(frozen, old(Value(s)), PathTo(s, irs[k])) ==> TriedAt(o.tries, PathTo(s, irs[k])))
    {
      hide ResultsOk, TriedAt, Eligible, IRLibrary.Valid;
      ghost var t := Value(s);
      RefsAllocated(s);
      seen, res, o := {h}, [], Results([], [], [], []);
      NoResults(lib.env, lib.m.trees, frozen, t, h);
      for i := 0 to |irs|
        invariant unchanged(lib.m.repr) && lib.Valid()
        invariant IsTree(root, s) && Value(s) == t
        invariant Forest(res, o.ss, o.vals) && forall n :: n in AllRefs(o.ss) ==> fresh(n)
        invariant ResultsOk(lib.env, lib.m.trees, frozen, t, h, seen, o)
        invariant forall k :: 0 <= k < i ==>
          (Eligible(frozen, t, PathTo(s, irs[k])) ==> TriedAt(o.tries, PathTo(s, irs[k])))
      {
        ghost var tries := o.tries;
        seen, res, o := MutateOne(root, s, t, irs[i], h, seen, res, o);
        TriedStays(tries, o.tries);
      }
    }

    lemma TriedStays(before: seq<Try>, after: seq<Try>)
      requires before <= after
      ensures forall p :: TriedAt(before, p) ==> TriedAt(after, p)
    {
      assert forall x :: x in before ==> x in after;
    }

    /** MutateIRs, given the nodes of a tree in post-order.  Every result is a tree of new nodes, disjoint
        from the other results, and a mutant of the input; the input and the library are unchanged in the
        end; results differ in the cut hash of their extracted text.  Every node with two known children that
        may be mutated gets a variant, and no variant is passed over, unless the cut hash of its mutant is
        that of a result or happens to be the hash of the input. */
    method MutateIRs(irs: seq<IR>, root: IR, ghost s: Shape) returns (res: seq<IR>, ghost o: Results)
      requires lib.Valid() && IsTree(root, s) && irs == PostOrder(s)
      modifies this`record, lib.m.repr
      ensures unchanged(lib.m.repr) && lib.Valid()
      ensures IsTree(root, s) && Value(s) == old(Value(s))
      ensures Forest(res, o.ss, o.vals) && forall n :: n in AllRefs(o.ss) ==> fresh(n)
      ensures forall k :: 0 <= k < |o.vals| ==> Mutant(lib.m.trees, frozen, Value(s), o.vals[k])
      ensures forall k :: 0 <= k < |o.vals| ==> ReplacesOne(frozen, Value(s), o.vals[k])
      ensures |o.texts| == |res| && forall k :: 0 <= k < |res| ==> Extracted(lib.env.fmt, o.vals[k], o.texts[k])
      ensures forall i, j :: 0 <= i < j < |o.texts| ==> Low(lib.env, o.texts[i]) != Low(lib.env, o.texts[j])
      ensures forall i :: 0 <= i < |o.texts| ==> Low(lib.env, o.texts[i]) != Key(lib.env, Value(s))
      ensures ToText(lib.env.fmt, Value(s)) in o.texts ==> Key(lib.env, Value(s)).v >= UNSIGNED_RANGE
      ensures forall p :: Eligible(frozen, Value(s), p) ==> TriedAt(o.tries, p)
      ensures forall x :: x in o.tries ==> Accounted(lib.env, lib.m.trees, frozen, Value(s), o.texts, x)
      ensures (exists p :: Eligible(frozen, Value(s), p)) ==> Produced(Key(lib.env, Value(s)), |res|)
    {
      hide ReplacesOne, Mutant, Accounted, TryOk, Extracted, Eligible, IRLibrary.Valid, RunsOf, Words, TriedAt;
      RefsAllocated(s);
      var text := ToString(lib.env.fmt, root, s);
      forall n | n in irs
        ensures n in Refs(s)
      {
        PostOrderHas(s, n);
      }
      var seen;
      seen, res, o := MutateAll(irs, root, s, lib.env.hash(text));
      InputRejectedIff(lib.env, text, seen, o.texts);
      TriesAccounted(lib.env, lib.m.trees, frozen, Value(s), seen, o);
      MutantsReplaceOnly(lib.m.trees, frozen, Value(s), o.vals);
      EligibleTried(s, frozen, irs, o.tries);
    }

    lemma EligibleTried(s: Shape, frozen: set<IRType>, irs: seq<IR>, tries: seq<Try>)
      requires Distinct(s) && irs == PostOrder(s) && forall n :: n in irs ==> n in Refs(s)
      requires forall k :: 0 <= k < |irs| ==>
        (Eligible(frozen, Value(s), PathTo(s, irs[k])) ==> TriedAt(tries, PathTo(s, irs[k])))
      ensures forall p :: Eligible(frozen, Value(s), p) ==> TriedAt(tries, p)
      ensures (exists p :: Eligible(frozen, Value(s), p)) ==> tries != []
    {
      hide TriedAt;
      forall p | Eligible(frozen, Value(s), p)
        ensures TriedAt(tries, p) && tries != []
      {
        HasReaches(s, p);
        PathToSub(s, p);
        PostOrderHas(s, Sub(s, p).ref);
        TriedIsTry(tries, p);
      }
    }

    lemma TriedIsTry(tries: seq<Try>, p: Path)
      ensures TriedAt(tries, p) ==> tries != []
    {
    }

    /** AddIRToLibrary: the tree is extracted and then shared with the library. */
    method AddIRToLibrary(cur: IR, ghost s: Shape) returns (ghost r: Shape, ghost evicted: bool)
      requires lib.Valid() && IsTree(cur, s) && Refs(s) !! lib.m.repr
      modifies Refs(s), lib
      ensures lib.Valid() && IsTree(cur, r) && Norm(Value(r)) == Norm(Extract(old(Value(s))))
      ensures Saved(lib.env, old(lib.m.trees), old(lib.hashes), lib.m.trees, lib.hashes, Value(r), evicted)
      ensures Saves(lib.env, Index(old(lib.m.trees), old(lib.hashes)), Index(lib.m.trees, lib.hashes), Value(r))
      ensures Kept(old(lib.m.trees), lib.m.trees)
      ensures !evicted && Complete(lib.env, old(lib.m.trees), old(lib.hashes)) ==>
                Complete(lib.env, lib.m.trees, lib.hashes)
    {
      hide Saved, Complete, Saves, Kept;
      RefsAllocated(s);
      r := ExtractStructure(cur, s);
      RefsAllocated(r);
      ghost var t, trees0, hashes0 := Value(r), lib.m.trees, lib.hashes;
      evicted := lib.SaveIRRecursive(cur, r);
      CompleteAfter(lib.env, trees0, hashes0, lib.m.trees, lib.hashes, t, evicted);
      SavesKeeps(lib.env, Index(trees0, hashes0), Index(lib.m.trees, lib.hashes), t);
    }
  }

  lemma CompleteAfter(env: Env, trees: Library, hashes: map<IRType, set<Hash>>,
                      trees': Library, hashes': map<IRType, set<Hash>>, t: Tree, evicted: bool)
    requires Saved(env, trees, hashes, trees', hashes', t, evicted)
    ensures !evicted && Complete(env, trees, hashes) ==> Complete(env, trees', hashes')
  {
    if !evicted && Complete(env, trees, hashes) {
      SavedStaysComplete(env, trees, hashes, trees', hashes', t);
    }
  }

  /** Splicing in any of the variants gives a mutant. */
  ghost predicate AllMutants(lib: Library, frozen: set<IRType>, input: Tree, p: Path, vvals: seq<Tree>) {
    forall k :: 0 <= k < |vvals| ==> MutantAt(lib, frozen, input, p, vvals[k], Splice(input, p, vvals[k]))
  }

  lemma RestAreMutants(lib: Library, frozen: set<IRType>, input: Tree, p: Path, vvals: seq<Tree>)
    requires vvals != [] && AllMutants(lib, frozen, input, p, vvals)
    ensures AllMutants(lib, frozen, input, p, vvals[1..])
  {
    assert forall k :: 0 <= k < |vvals| - 1 ==> vvals[1..][k] == vvals[k + 1];
  }

  lemma VariantsAreMutants(lib: Library, frozen: set<IRType>, input: Tree, p: Path, vvals: seq<Tree>)
    requires p != [] && Has(input, p) && ShouldMutate(frozen, At(input, p)) && AllVariants(lib, At(input, p), vvals)
    ensures AllMutants(lib, frozen, input, p, vvals)
  {
  }
}
