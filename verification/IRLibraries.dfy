/** The bounded library of IRs with its hash index (IRLibrary in srcs/internal/srcs/mutate.cpp). */
module IRLibraries {
  import opened IrTree
  import opened IrHeap
  import opened Mutation

  // ---------------------------------------------------------------------------------------------
  // The index, on values
  // ---------------------------------------------------------------------------------------------

  const MAX_IRS := 0x200

  datatype Hash = Hash(v: nat)

  /** The formatting of numbers and the hash of a text; nothing is assumed about either. */
  datatype Env = Env(fmt: Format, hash: string -> Hash)

  function Key(env: Env, t: Tree): Hash {
    env.hash(ToText(env.fmt, t))
  }

  function HashesOf(hashes: map<IRType, set<Hash>>, typ: IRType): set<Hash> {
    if typ in hashes then hashes[typ] else {}
  }

  /** One bucket: bounded, entries of its own type with distinct hashes, and the hash set is exactly the
      hashes of the entries. */
  ghost predicate BucketIndexed(env: Env, typ: IRType, b: seq<Tree>, hs: set<Hash>) {
    && |b| <= MAX_IRS
    && (forall i :: 0 <= i < |b| ==> b[i].Node? && b[i].info.typ == typ)
    && (forall i, j :: 0 <= i < j < |b| ==> Key(env, b[i]) != Key(env, b[j]))
    && (forall i :: 0 <= i < |b| ==> Key(env, b[i]) in hs)
    && (forall h :: h in hs ==> exists i :: 0 <= i < |b| && Key(env, b[i]) == h)
  }

  ghost predicate Indexed(env: Env, trees: Library, hashes: map<IRType, set<Hash>>) {
    forall typ :: BucketOk(env, trees, hashes, typ)
  }

  ghost predicate BucketOk(env: Env, trees: Library, hashes: map<IRType, set<Hash>>, typ: IRType) {
    BucketIndexed(env, typ, Bucket(trees, typ), HashesOf(hashes, typ))
  }

  /** The bucket with entry `k` removed: it is swapped to the end and popped. */
  function SwapPop<T>(b: seq<T>, k: nat): seq<T>
    requires k < |b|
  {
    b[k := b[|b| - 1]][..|b| - 1]
  }

  lemma SwapPopIndexed(env: Env, typ: IRType, b: seq<Tree>, hs: set<Hash>, k: nat)
    requires BucketIndexed(env, typ, b, hs) && k < |b|
    ensures BucketIndexed(env, typ, SwapPop(b, k), hs - {Key(env, b[k])})
    ensures forall e :: e in SwapPop(b, k) ==> e in b
  {
    var n := |b| - 1;
    var c := SwapPop(b, k);
    assert forall i :: 0 <= i < n ==> c[i] == if i == k then b[n] else b[i];
    forall h | h in hs - {Key(env, b[k])}
      ensures exists i :: 0 <= i < |c| && Key(env, c[i]) == h
    {
      var i :| 0 <= i < |b| && Key(env, b[i]) == h;
      assert Key(env, c[if i == n then k else i]) == h;
    }
  }

  lemma PushIndexed(env: Env, typ: IRType, b: seq<Tree>, hs: set<Hash>, t: Tree)
    requires BucketIndexed(env, typ, b, hs) && |b| < MAX_IRS
    requires t.Node? && t.info.typ == typ && Key(env, t) !in hs
    ensures BucketIndexed(env, typ, b + [t], hs + {Key(env, t)})
  {
    var c := b + [t];
    forall h | h in hs + {Key(env, t)}
      ensures exists i :: 0 <= i < |c| && Key(env, c[i]) == h
    {
      if h in hs {
        var i :| 0 <= i < |b| && Key(env, b[i]) == h;
        assert Key(env, c[i]) == h;
      } else {
        assert Key(env, c[|b|]) == h;
      }
    }
  }

  /** The children of an entry are indexed under their own types. */
  predicate ChildrenHashed(env: Env, e: Tree, hashes: map<IRType, set<Hash>>) {
    e.Node? ==>
      && (e.left.Node? ==> Key(env, e.left) in HashesOf(hashes, e.left.info.typ))
      && (e.right.Node? ==> Key(env, e.right) in HashesOf(hashes, e.right.info.typ))
  }

  ghost predicate Complete(env: Env, trees: Library, hashes: map<IRType, set<Hash>>) {
    forall typ, e :: e in Bucket(trees, typ) ==> ChildrenHashed(env, e, hashes)
  }

  predicate Subtree(e: Tree, t: Tree) {
    t.Node? && (e == t || Subtree(e, t.left) || Subtree(e, t.right))
  }

  /** Entries come from before or from the saved tree; buckets grow by at most `n`. */
  ghost predicate GrownBy(before: Library, after: Library, t: Tree, n: nat) {
    && (forall typ, e :: e in Bucket(after, typ) ==> e in Bucket(before, typ) || Subtree(e, t))
    && (forall typ :: |Bucket(after, typ)| <= |Bucket(before, typ)| + n)
  }

  ghost predicate HashesGrow(before: map<IRType, set<Hash>>, after: map<IRType, set<Hash>>) {
    forall typ :: HashesOf(before, typ) <= HashesOf(after, typ)
  }

  /** What saving `t` achieves when nothing is evicted. */
  ghost predicate SavedWhole(env: Env, trees: Library, hashes: map<IRType, set<Hash>>,
                             trees': Library, hashes': map<IRType, set<Hash>>, t: Tree) {
    && HashesGrow(hashes, hashes')
    && t.Node? && Key(env, t) in HashesOf(hashes', t.info.typ)
    && (forall typ, e :: e in Bucket(trees', typ) ==> e in Bucket(trees, typ) || ChildrenHashed(env, e, hashes'))
  }

  /** So without eviction a complete index stays complete. */
  lemma SavedStaysComplete(env: Env, trees: Library, hashes: map<IRType, set<Hash>>,
                           trees': Library, hashes': map<IRType, set<Hash>>, t: Tree)
    requires Complete(env, trees, hashes) && SavedWhole(env, trees, hashes, trees', hashes', t)
    ensures Complete(env, trees', hashes')
  {
    forall typ, e | e in Bucket(trees', typ)
      ensures ChildrenHashed(env, e, hashes')
    {
      if e in Bucket(trees, typ) {
        assert ChildrenHashed(env, e, hashes);
        assert e.Node? && e.left.Node? ==>
          HashesOf(hashes, e.left.info.typ) <= HashesOf(hashes', e.left.info.typ);
        assert e.Node? && e.right.Node? ==>
          HashesOf(hashes, e.right.info.typ) <= HashesOf(hashes', e.right.info.typ);
      }
    }
  }

  /** Saving a node and then its children, each without eviction. */
  lemma SavedChild(env: Env, t0: Library, h0: map<IRType, set<Hash>>, t1: Library, h1: map<IRType, set<Hash>>,
                   t2: Library, h2: map<IRType, set<Hash>>, cur: Tree, child: Tree)
    requires SavedNode(env, t0, h0, t1, h1, cur) && SavedWhole(env, t1, h1, t2, h2, child)
    ensures SavedNode(env, t0, h0, t2, h2, cur)
    ensures Key(env, child) in HashesOf(h2, child.info.typ)
  {
    assert HashesOf(h1, cur.info.typ) <= HashesOf(h2, cur.info.typ);
    forall typ
      ensures HashesOf(h0, typ) <= HashesOf(h2, typ)
    {
      assert HashesOf(h0, typ) <= HashesOf(h1, typ) <= HashesOf(h2, typ);
    }
    forall typ, e | e in Bucket(t2, typ) && e !in Bucket(t0, typ) && e != cur
      ensures ChildrenHashed(env, e, h2)
    {
      if e in Bucket(t1, typ) {
        assert ChildrenHashed(env, e, h1);
        assert e.Node? && e.left.Node? ==> HashesOf(h1, e.left.info.typ) <= HashesOf(h2, e.left.info.typ);
        assert e.Node? && e.right.Node? ==> HashesOf(h1, e.right.info.typ) <= HashesOf(h2, e.right.info.typ);
      }
    }
  }

  /** Like SavedWhole, with the children of `t` itself still to come. */
  ghost predicate SavedNode(env: Env, trees: Library, hashes: map<IRType, set<Hash>>,
                            trees': Library, hashes': map<IRType, set<Hash>>, t: Tree) {
    && HashesGrow(hashes, hashes')
    && t.Node? && Key(env, t) in HashesOf(hashes', t.info.typ)
    && (forall typ, e :: e in Bucket(trees', typ) ==>
          e in Bucket(trees, typ) || e == t || ChildrenHashed(env, e, hashes'))
  }

  // ---------------------------------------------------------------------------------------------
  // The class
  // ---------------------------------------------------------------------------------------------

  lemma IndexPush(env: Env, trees: Library, hashes: map<IRType, set<Hash>>, t: Tree)
    requires Indexed(env, trees, hashes) && t.Node? && |Bucket(trees, t.info.typ)| < MAX_IRS
    requires Key(env, t) !in HashesOf(hashes, t.info.typ)
    ensures Indexed(env, trees[t.info.typ := Bucket(trees, t.info.typ) + [t]],
                    hashes[t.info.typ := HashesOf(hashes, t.info.typ) + {Key(env, t)}])
  {
    var trees' := trees[t.info.typ := Bucket(trees, t.info.typ) + [t]];
    var hashes' := hashes[t.info.typ := HashesOf(hashes, t.info.typ) + {Key(env, t)}];
    forall typ: IRType
      ensures BucketOk(env, trees', hashes', typ)
    {
      assert BucketOk(env, trees, hashes, typ);
      if typ == t.info.typ {
        PushIndexed(env, typ, Bucket(trees, typ), HashesOf(hashes, typ), t);
      }
    }
  }

  lemma IndexPop(env: Env, trees: Library, hashes: map<IRType, set<Hash>>, typ: IRType, k: nat)
    requires Indexed(env, trees, hashes) && typ in trees && k < |trees[typ]|
    ensures Indexed(env, trees[typ := SwapPop(trees[typ], k)],
                    hashes[typ := HashesOf(hashes, typ) - {Key(env, trees[typ][k])}])
    ensures forall e :: e in SwapPop(trees[typ], k) ==> e in trees[typ]
  {
    var trees' := trees[typ := SwapPop(trees[typ], k)];
    var hashes' := hashes[typ := HashesOf(hashes, typ) - {Key(env, trees[typ][k])}];
    assert BucketOk(env, trees, hashes, typ);
    SwapPopIndexed(env, typ, Bucket(trees, typ), HashesOf(hashes, typ), k);
    forall u: IRType
      ensures BucketOk(env, trees', hashes', u)
    {
      assert BucketOk(env, trees, hashes, u);
    }
  }

  lemma MirrorsPush(buckets: map<IRType, seq<IR>>, values: map<IR, Tree>, trees: Library, typ: IRType, n: IR)
    requires Mirrors(buckets, values, trees) && n in values
    ensures Mirrors(buckets[typ := (if typ in buckets then buckets[typ] else []) + [n]], values,
                    trees[typ := Bucket(trees, typ) + [values[n]]])
  {
  }

  lemma MirrorsValues(buckets: map<IRType, seq<IR>>, values: map<IR, Tree>, trees: Library, n: IR, t: Tree)
    requires Mirrors(buckets, values, trees) && (n in values ==> values[n] == t)
    ensures Mirrors(buckets, values[n := t], trees)
  {
  }

  lemma MirrorsPop(buckets: map<IRType, seq<IR>>, values: map<IR, Tree>, trees: Library, typ: IRType, k: nat)
    requires Mirrors(buckets, values, trees) && typ in buckets && k < |buckets[typ]|
    ensures Mirrors(buckets[typ := SwapPop(buckets[typ], k)], values, trees[typ := SwapPop(trees[typ], k)])
  {
    var b, t := buckets[typ], trees[typ];
    var n := |b| - 1;
    forall i | 0 <= i < n
      ensures SwapPop(b, k)[i] in values && values[SwapPop(b, k)[i]] == SwapPop(t, k)[i]
    {
      assert SwapPop(b, k)[i] == if i == k then b[n] else b[i];
      assert SwapPop(t, k)[i] == if i == k then t[n] else t[i];
    }
  }

  /** The buckets of nodes and the buckets of their values go together. */
  ghost predicate Mirrors(buckets: map<IRType, seq<IR>>, values: map<IR, Tree>, trees: Library) {
    && trees.Keys == buckets.Keys
    && (forall typ :: typ in buckets ==> |buckets[typ]| == |trees[typ]|)
    && (forall typ, i :: typ in buckets && 0 <= i < |buckets[typ]| ==>
          buckets[typ][i] in values && values[buckets[typ][i]] == trees[typ][i])
  }

  /** The fields of a library agree with each other. */
  ghost predicate Consistent(env: Env, empty: IR, buckets: map<IRType, seq<IR>>, hashes: map<IRType, set<Hash>>,
                             trees: Library, values: map<IR, Tree>) {
    && Mirrors(buckets, values, trees) && Indexed(env, trees, hashes)
    && empty in values && Drawn(map[], EMPTY_TYPE, values[empty])
  }

  lemma ConsistentPush(env: Env, empty: IR, buckets: map<IRType, seq<IR>>, hashes: map<IRType, set<Hash>>,
                       trees: Library, values: map<IR, Tree>, n: IR, t: Tree)
    requires Consistent(env, empty, buckets, hashes, trees, values)
    requires t.Node? && |Bucket(trees, t.info.typ)| < MAX_IRS && Key(env, t) !in HashesOf(hashes, t.info.typ)
    requires n in values ==> values[n] == t
    ensures var typ := t.info.typ;
      Consistent(env, empty, buckets[typ := (if typ in buckets then buckets[typ] else []) + [n]],
                 hashes[typ := HashesOf(hashes, typ) + {Key(env, t)}],
                 trees[typ := Bucket(trees, typ) + [t]], values[n := t])
  {
    IndexPush(env, trees, hashes, t);
    MirrorsValues(buckets, values, trees, n, t);
    MirrorsPush(buckets, values[n := t], trees, t.info.typ, n);
  }

  lemma ConsistentPop(env: Env, empty: IR, buckets: map<IRType, seq<IR>>, hashes: map<IRType, set<Hash>>,
                      trees: Library, values: map<IR, Tree>, typ: IRType, k: nat)
    requires Consistent(env, empty, buckets, hashes, trees, values)
    requires typ in trees && k < |trees[typ]|
    ensures typ in buckets && |buckets[typ]| == |trees[typ]|
    ensures Consistent(env, empty, buckets[typ := SwapPop(buckets[typ], k)],
                       hashes[typ := HashesOf(hashes, typ) - {Key(env, trees[typ][k])}],
                       trees[typ := SwapPop(trees[typ], k)], values)
    ensures forall e :: e in SwapPop(trees[typ], k) ==> e in trees[typ]
  {
    IndexPop(env, trees, hashes, typ, k);
    MirrorsPop(buckets, values, trees, typ, k);
  }

  /** `n` is the root of a tree of nodes in `repr` whose value is `t`. */
  ghost predicate Stands(n: IR, s: Shape, t: Tree, repr: set<IR>)
    reads repr
  {
    Refs(s) <= repr && IsTree(n, s) && Value(s) == t
  }

  ghost predicate AllStand(shapes: map<IR, Shape>, values: map<IR, Tree>, repr: set<IR>)
    reads repr
  {
    && shapes.Keys == values.Keys
    && (forall n {:trigger Stands(n, shapes[n], values[n], repr)} :: n in shapes ==>
          Stands(n, shapes[n], values[n], repr))
  }

  /** One more tree; it may share nodes with the others. */
  lemma OneMoreStands(shapes: map<IR, Shape>, values: map<IR, Tree>, repr: set<IR>, n: IR, s: Shape)
    requires AllStand(shapes, values, repr) && IsTree(n, s)
    ensures AllStand(shapes[n := s], values[n := Value(s)], repr + Refs(s))
    ensures shapes.Keys == values.Keys && (n in shapes ==> shapes[n] == s && values[n] == Value(s))
  {
    if n in shapes {
      assert Stands(n, shapes[n], values[n], repr);
      ShapeUnique(s, shapes[n]);
    }
    var shapes', values' := shapes[n := s], values[n := Value(s)];
    forall m | m in shapes'
      ensures Stands(m, shapes'[m], values'[m], repr + Refs(s))
    {
      if m != n {
        assert Stands(m, shapes[m], values[m], repr);
      }
    }
  }

  /** The buckets with their hashes. */
  datatype Index = Index(trees: Library, hashes: map<IRType, set<Hash>>)

  /** Exactly the effect of entering one node whose hash is new: it becomes the last entry of its bucket, where a full
      bucket loses one entry with its hash first. */
  ghost predicate EntersTo(env: Env, a: Index, b: Index, t: Tree) {
    && t.Node?
    && var bucket, own := Bucket(a.trees, t.info.typ), HashesOf(a.hashes, t.info.typ);
       if |bucket| < MAX_IRS then
         b == Index(a.trees[t.info.typ := bucket + [t]], a.hashes[t.info.typ := own + {Key(env, t)}])
       else exists k :: 0 <= k < |bucket| && Replaces(env, a, b, t, k)
  }

  ghost predicate Replaces(env: Env, a: Index, b: Index, t: Tree, k: nat)
    requires t.Node? && k < |Bucket(a.trees, t.info.typ)|
  {
    var bucket, own := Bucket(a.trees, t.info.typ), HashesOf(a.hashes, t.info.typ);
    b == Index(a.trees[t.info.typ := SwapPop(bucket, k) + [t]],
               a.hashes[t.info.typ := own - {Key(env, bucket[k])} + {Key(env, t)}])
  }

  /** Exactly the effect of saving a tree: nothing if its hash is in the index, otherwise its root is entered and then
      its children are saved, left before right. */
  ghost predicate Saves(env: Env, a: Index, b: Index, t: Tree)
    decreases t, 1
  {
    if t.Nil? || Key(env, t) in HashesOf(a.hashes, t.info.typ) then b == a
    else exists x, y :: SavesVia(env, a, x, y, b, t)
  }

  ghost predicate SavesVia(env: Env, a: Index, x: Index, y: Index, b: Index, t: Tree)
    requires t.Node?
    decreases t, 0
  {
    EntersTo(env, a, x, t) && Saves(env, x, y, t.left) && Saves(env, y, b, t.right)
  }

  /** No bucket shrinks, and only a bucket that is full in the end may have lost an entry. */
  ghost predicate Kept(a: Library, b: Library) {
    forall typ :: KeptAt(Bucket(a, typ), Bucket(b, typ))
  }

  ghost predicate KeptAt(before: seq<Tree>, after: seq<Tree>) {
    |before| <= |after| && (|after| < MAX_IRS ==> before <= after)
  }

  lemma EntersKeeps(env: Env, a: Index, b: Index, t: Tree)
    requires EntersTo(env, a, b, t)
    ensures Kept(a.trees, b.trees)
    ensures t in Bucket(b.trees, t.info.typ) && Key(env, t) in HashesOf(b.hashes, t.info.typ)
  {
    forall typ
      ensures KeptAt(Bucket(a.trees, typ), Bucket(b.trees, typ))
    {
    }
  }

  lemma KeptTwice(a: Library, b: Library, c: Library)
    requires Kept(a, b) && Kept(b, c)
    ensures Kept(a, c)
  {
    forall typ
      ensures KeptAt(Bucket(a, typ), Bucket(c, typ))
    {
      assert KeptAt(Bucket(a, typ), Bucket(b, typ)) && KeptAt(Bucket(b, typ), Bucket(c, typ));
    }
  }

  /** Saving a tree, however many entries are evicted on the way, empties nothing. */
  lemma {:induction false} SavesKeeps(env: Env, a: Index, b: Index, t: Tree)
    requires Saves(env, a, b, t)
    ensures Kept(a.trees, b.trees)
    decreases t
  {
    if t.Node? && Key(env, t) !in HashesOf(a.hashes, t.info.typ) {
      var x, y :| SavesVia(env, a, x, y, b, t);
      EntersKeeps(env, a, x, t);
      SavesKeeps(env, x, y, t.left);
      SavesKeeps(env, y, b, t.right);
      KeptTwice(a.trees, x.trees, y.trees);
      KeptTwice(a.trees, y.trees, b.trees);
    }
  }

  /** The effect of entering one node whose hash is new. */
  ghost predicate Entered(env: Env, trees: Library, hashes: map<IRType, set<Hash>>,
                          trees': Library, hashes': map<IRType, set<Hash>>, t: Tree, evicted: bool) {
    && t.Node?
    && (forall typ, e :: e in Bucket(trees', typ) ==> e in Bucket(trees, typ) || e == t)
    && (forall typ :: |Bucket(trees', typ)| <= |Bucket(trees, typ)| + 1)
    && (evicted ==> |Bucket(trees, t.info.typ)| >= MAX_IRS)
    && (!evicted ==> hashes' == hashes[t.info.typ := HashesOf(hashes, t.info.typ) + {Key(env, t)}])
  }

  lemma EntersEntered(env: Env, a: Index, b: Index, t: Tree)
    requires EntersTo(env, a, b, t)
    ensures Entered(env, a.trees, a.hashes, b.trees, b.hashes, t, |Bucket(a.trees, t.info.typ)| >= MAX_IRS)
  {
    var bucket, typ := Bucket(a.trees, t.info.typ), t.info.typ;
    if |bucket| >= MAX_IRS {
      var k :| 0 <= k < |bucket| && Replaces(env, a, b, t, k);
      SwapPopListed(bucket, k);
    }
    forall u: IRType
      ensures |Bucket(b.trees, u)| <= |Bucket(a.trees, u)| + 1
      ensures forall e :: e in Bucket(b.trees, u) ==> e in Bucket(a.trees, u) || e == t
    {
      assert u != typ ==> Bucket(b.trees, u) == Bucket(a.trees, u);
    }
  }

  /** Evicting and then pushing is replacing. */
  lemma ReplacedMaps(env: Env, a: Index, b: Index, t: Tree, k: nat)
    requires t.Node? && t.info.typ in a.trees && k < |a.trees[t.info.typ]| && |a.trees[t.info.typ]| >= MAX_IRS
    requires var typ, bucket := t.info.typ, a.trees[t.info.typ];
      var trees1 := a.trees[typ := SwapPop(bucket, k)];
      var hashes1 := a.hashes[typ := HashesOf(a.hashes, typ) - {Key(env, bucket[k])}];
      && b.trees == trees1[typ := Bucket(trees1, typ) + [t]]
      && b.hashes == hashes1[typ := HashesOf(hashes1, typ) + {Key(env, t)}]
    ensures EntersTo(env, a, b, t)
  {
    assert Replaces(env, a, b, t, k);
  }

  /** Pushing into a bucket with room is entering. */
  lemma PushedMaps(env: Env, a: Index, b: Index, t: Tree)
    requires t.Node? && |Bucket(a.trees, t.info.typ)| < MAX_IRS
    requires b.trees == a.trees[t.info.typ := Bucket(a.trees, t.info.typ) + [t]]
    requires b.hashes == a.hashes[t.info.typ := HashesOf(a.hashes, t.info.typ) + {Key(env, t)}]
    ensures EntersTo(env, a, b, t)
  {
  }

  lemma SwapPopListed(b: seq<Tree>, k: nat)
    requires k < |b|
    ensures |SwapPop(b, k)| == |b| - 1 && forall e :: e in SwapPop(b, k) ==> e in b
  {
    assert forall i :: 0 <= i < |b| - 1 ==> SwapPop(b, k)[i] == if i == k then b[|b| - 1] else b[i];
  }

  /** While a tree is saved: the node, and `n` nodes in all, are done. */
  ghost predicate Stage(env: Env, t0: Library, h0: map<IRType, set<Hash>>,
                        trees: Library, hashes: map<IRType, set<Hash>>, t: Tree, n: nat, evicted: bool) {
    && GrownBy(t0, trees, t, n)
    && (if evicted then Crowded(t0, n) else SavedNode(env, t0, h0, trees, hashes, t))
  }

  /** Some bucket had no room for `n` more entries. */
  ghost predicate Crowded(trees: Library, n: nat) {
    exists typ :: |Bucket(trees, typ)| + n > MAX_IRS
  }

  /** What saving `t` achieves: nothing foreign gets in, and unless something was evicted for want of
      room, the tree and its subtrees are indexed and nothing is lost. */
  ghost predicate Saved(env: Env, trees: Library, hashes: map<IRType, set<Hash>>,
                        trees': Library, hashes': map<IRType, set<Hash>>, t: Tree, evicted: bool) {
    && GrownBy(trees, trees', t, Size(t))
    && (if evicted then Crowded(trees, Size(t)) else SavedWhole(env, trees, hashes, trees', hashes', t))
  }

  lemma EnteredGrows(env: Env, trees: Library, hashes: map<IRType, set<Hash>>,
                     trees': Library, hashes': map<IRType, set<Hash>>, t: Tree, evicted: bool)
    requires Entered(env, trees, hashes, trees', hashes', t, evicted)
    ensures Stage(env, trees, hashes, trees', hashes', t, 1, evicted)
  {
    if evicted {
      assert |Bucket(trees, t.info.typ)| + 1 > MAX_IRS;
    }
  }

  lemma GrownTwice(t0: Library, t1: Library, t2: Library, cur: Tree, child: Tree, n: nat, k: nat)
    requires cur.Node? && child.Node? && (child == cur.left || child == cur.right)
    requires GrownBy(t0, t1, cur, n) && GrownBy(t1, t2, child, k)
    ensures GrownBy(t0, t2, cur, n + k)
  {
    forall typ: IRType
      ensures |Bucket(t2, typ)| <= |Bucket(t0, typ)| + n + k
      ensures forall e :: e in Bucket(t2, typ) ==> e in Bucket(t0, typ) || Subtree(e, cur)
    {
      assert |Bucket(t1, typ)| <= |Bucket(t0, typ)| + n;
      forall e | e in Bucket(t2, typ) && e !in Bucket(t1, typ)
        ensures Subtree(e, cur)
      {
        assert Subtree(e, child);
      }
    }
  }

  /** After the node, and `n` nodes in all, a child is saved. */
  lemma SavedMore(env: Env, t0: Library, h0: map<IRType, set<Hash>>, t1: Library, h1: map<IRType, set<Hash>>,
                  t2: Library, h2: map<IRType, set<Hash>>, cur: Tree, child: Tree, n: nat, evicted: bool, more: bool)
    requires cur.Node? && child.Node? && (child == cur.left || child == cur.right)
    requires Stage(env, t0, h0, t1, h1, cur, n, evicted) && Saved(env, t1, h1, t2, h2, child, more)
    ensures Stage(env, t0, h0, t2, h2, cur, n + Size(child), evicted || more)
    ensures !evicted && !more ==> Key(env, child) in HashesOf(h2, child.info.typ) && HashesGrow(h1, h2)
  {
    GrownTwice(t0, t1, t2, cur, child, n, Size(child));
    if evicted {
      var typ :| |Bucket(t0, typ)| + n > MAX_IRS;
      assert |Bucket(t0, typ)| + n + Size(child) > MAX_IRS;
    } else if more {
      var typ :| |Bucket(t1, typ)| + Size(child) > MAX_IRS;
      assert |Bucket(t1, typ)| <= |Bucket(t0, typ)| + n;
      assert |Bucket(t0, typ)| + (n + Size(child)) > MAX_IRS;
    } else {
      SavedChild(env, t0, h0, t1, h1, t2, h2, cur, child);
    }
  }

  lemma AlreadySaved(env: Env, trees: Library, hashes: map<IRType, set<Hash>>, t: Tree)
    requires t.Node? && Key(env, t) in HashesOf(hashes, t.info.typ)
    ensures Saved(env, trees, hashes, trees, hashes, t, false)
  {
  }

  /** All stages together. */
  lemma StagesDone(env: Env, t0: Library, h0: map<IRType, set<Hash>>, h2: map<IRType, set<Hash>>,
                   trees: Library, hashes: map<IRType, set<Hash>>, t: Tree, evicted: bool)
    requires t.Node? && Stage(env, t0, h0, trees, hashes, t, Size(t), evicted)
    requires !evicted ==> HashesGrow(h2, hashes)
    requires !evicted && t.left.Node? ==> Key(env, t.left) in HashesOf(h2, t.left.info.typ)
    requires !evicted && t.right.Node? ==> Key(env, t.right) in HashesOf(hashes, t.right.info.typ)
    ensures Saved(env, t0, h0, trees, hashes, t, evicted)
  {
    if !evicted && t.left.Node? {
      assert HashesOf(h2, t.left.info.typ) <= HashesOf(hashes, t.left.info.typ);
    }
  }

  /** What the library stands for: the trees in its buckets, and for every tree it shares the nodes and
      the value. */
  datatype Model = Model(trees: Library, shapes: map<IR, Shape>, values: map<IR, Tree>, repr: set<IR>)

  class IRLibrary {
    const env: Env
    const empty: IR
    var buckets: map<IRType, seq<IR>>
    var hashes: map<IRType, set<Hash>>
    ghost var m: Model

    /** The nodes of the library still form the trees that were saved. */
    ghost predicate Intact()
      reads this`m, m.repr
    {
      AllStand(m.shapes, m.values, m.repr)
    }

    ghost predicate Valid()
      reads this, m.repr
    {
      Intact() && Consistent(env, empty, buckets, hashes, m.trees, m.values)
    }

    constructor (env: Env)
      ensures Valid() && fresh(m.repr) && this.env == env && m.trees == map[] && hashes == map[]
    {
      var e := new IR.Leaf(EMPTY_TYPE, "", 0);
      this.env, empty, buckets, hashes := env, e, map[], map[];
      m := Model(map[], map[e := Cell(e, Empty, Empty)], map[e := Node(e.Info(), Nil, Nil)], {e});
      new;
      LeafShape(e);
      assert Stands(e, Cell(e, Empty, Empty), Node(e.Info(), Nil, Nil), {e});
      forall typ: IRType
        ensures BucketOk(env, map[], hashes, typ)
      {
      }
    }

    /** GetRandomIR: an entry of the bucket, or the shared empty IR. */
    method GetRandomIR(typ: IRType) returns (e: IR, ghost s: Shape)
      requires Valid()
      ensures e in m.shapes && s == m.shapes[e] && IsTree(e, s) && Refs(s) <= m.repr
      ensures Drawn(m.trees, typ, Value(s))
      ensures Bucket(m.trees, typ) == [] ==>
        e.typ == 0x1234567 && e.data == Str("") && e.left == null && e.right == null
    {
      if typ !in buckets || buckets[typ] == [] {
        e := empty;
      } else {
        var k: nat :| k < |buckets[typ]|;
        e := buckets[typ][k];
        assert m.values[e] == m.trees[typ][k];
      }
      s := m.shapes[e];
      assert Stands(e, s, m.values[e], m.repr);
    }

    /** A new entry, after the check that its hash is not in the index. */
    method Push(cur: IR, ghost s: Shape, h: Hash)
      requires Valid() && IsTree(cur, s) && h == Key(env, Value(s)) && h !in HashesOf(hashes, cur.typ)
      requires |Bucket(m.trees, cur.typ)| < MAX_IRS
      modifies this
      ensures Valid() && m.repr == old(m.repr) + Refs(s)
      ensures m.trees == old(m.trees[cur.typ := Bucket(m.trees, cur.typ) + [Value(s)]])
      ensures hashes == old(hashes)[cur.typ := HashesOf(old(hashes), cur.typ) + {h}]
    {
      hide Indexed, AllStand, Stands;
      var typ := cur.typ;
      ghost var t := Value(s);
      assert t.info.typ == typ;
      OneMoreStands(m.shapes, m.values, m.repr, cur, s);
      ConsistentPush(env, empty, buckets, hashes, m.trees, m.values, cur, t);
      buckets := buckets[typ := (if typ in buckets then buckets[typ] else []) + [cur]];
      hashes := hashes[typ := HashesOf(hashes, typ) + {h}];
      m := Model(m.trees[typ := Bucket(m.trees, typ) + [t]], m.shapes[cur := s], m.values[cur := t], m.repr + Refs(s));
    }

    /** The hash of an entry, computed anew. */
    method KeyOfEntry(typ: IRType, i: nat) returns (h: Hash)
      requires Valid() && typ in buckets && i < |buckets[typ]|
      ensures Valid() && typ in m.trees && i < |m.trees[typ]| && h == Key(env, m.trees[typ][i])
    {
      var n := buckets[typ][i];
      assert Stands(n, m.shapes[n], m.values[n], m.repr);
      h := KeyOf(n, m.shapes[n]);
    }

    /** A random entry of a full bucket makes room. */
    method Evict(typ: IRType) returns (ghost k: nat)
      requires Valid() && Bucket(m.trees, typ) != []
      modifies this
      ensures Valid() && m.repr == old(m.repr)
      ensures typ in old(m.trees) && k < |old(m.trees)[typ]|
      ensures m.trees == old(m.trees)[typ := SwapPop(old(m.trees)[typ], k)]
      ensures hashes == old(hashes)[typ := HashesOf(old(hashes), typ) - {Key(env, old(m.trees)[typ][k])}]
    {
      hide Indexed, AllStand, Stands;
      var b := buckets[typ];
      var i: nat :| i < |b|;
      k := i;
      var removed := KeyOfEntry(typ, i);
      ConsistentPop(env, empty, buckets, hashes, m.trees, m.values, typ, i);
      hashes := hashes[typ := HashesOf(hashes, typ) - {removed}];
      buckets := buckets[typ := SwapPop(b, i)];
      m := m.(trees := m.trees[typ := SwapPop(m.trees[typ], i)]);
    }

    /** The node itself: a full bucket makes room, then the node is entered. */
    method Enter(cur: IR, ghost s: Shape, h: Hash) returns (ghost evicted: bool)
      requires Valid() && IsTree(cur, s) && h == Key(env, Value(s)) && h !in HashesOf(hashes, cur.typ)
      modifies this
      ensures Valid() && m.repr == old(m.repr) + Refs(s)
      ensures EntersTo(env, Index(old(m.trees), old(hashes)), Index(m.trees, hashes), old(Value(s)))
      ensures evicted <==> |Bucket(old(m.trees), cur.typ)| >= 0x200
    {
      hide AllStand, Stands, EntersTo, Key;
      ghost var a := Index(m.trees, hashes);
      assert BucketOk(env, m.trees, hashes, cur.typ);
      evicted := cur.typ in buckets && |buckets[cur.typ]| >= MAX_IRS;
      RefsAllocated(s);
      if cur.typ in buckets && |buckets[cur.typ]| >= MAX_IRS {
        ghost var k := Evict(cur.typ);
        Push(cur, s, h);
        ReplacedMaps(env, a, Index(m.trees, hashes), Value(s), k);
      } else {
        Push(cur, s, h);
        PushedMaps(env, a, Index(m.trees, hashes), Value(s));
      }
    }

    /** SaveIRRecursive: stores the tree and all its subtrees whose hash is new.  The index stays exact,
        also when entries are evicted; without an eviction the tree and its subtrees are all indexed. */
    method SaveIRRecursive(cur: IR, ghost s: Shape) returns (ghost evicted: bool)
      requires Valid() && IsTree(cur, s)
      modifies this
      ensures Valid() && old(m.repr) <= m.repr <= old(m.repr) + Refs(s)
      ensures Saved(env, old(m.trees), old(hashes), m.trees, hashes, old(Value(s)), evicted)
      ensures Saves(env, Index(old(m.trees), old(hashes)), Index(m.trees, hashes), old(Value(s)))
      decreases s, 1
    {
      RefsAllocated(s);
      var h := KeyOf(cur, s);
      if h in HashesOf(hashes, cur.typ) {
        AlreadySaved(env, m.trees, hashes, Value(s));
        evicted := false;
      } else {
        evicted := SaveNew(cur, s, h);
      }
    }

    /** The part of SaveIRRecursive after the check for the hash. */
    method SaveNew(cur: IR, ghost s: Shape, h: Hash) returns (ghost evicted: bool)
      requires Valid() && IsTree(cur, s) && h == Key(env, Value(s)) && h !in HashesOf(hashes, cur.typ)
      modifies this
      ensures Valid() && old(m.repr) <= m.repr <= old(m.repr) + Refs(s)
      ensures Saved(env, old(m.trees), old(hashes), m.trees, hashes, old(Value(s)), evicted)
      ensures Saves(env, Index(old(m.trees), old(hashes)), Index(m.trees, hashes), old(Value(s)))
      decreases s, 0
    {
      hide IRLibrary.Valid, Entered, Stage, Saved, EntersTo;
      RefsAllocated(s);
      ghost var t, t0, h0 := Value(s), m.trees, hashes;
      evicted := Enter(cur, s, h);
      ghost var x := Index(m.trees, hashes);
      EntersEntered(env, Index(t0, h0), x, t);
      EnteredGrows(env, t0, h0, m.trees, hashes, t, evicted);
      evicted := SaveChild(cur.left, s.l, t.left, t0, h0, t, 1, evicted);
      ghost var y := Index(m.trees, hashes);
      evicted := SaveRight(cur, s, t, t0, h0, evicted);
      assert SavesVia(env, Index(t0, h0), x, y, Index(m.trees, hashes), t);
    }

    /** The last part: the right child. */
    method SaveRight(cur: IR, ghost s: Shape, ghost t: Tree, ghost t0: Library, ghost h0: map<IRType, set<Hash>>,
                     ghost evicted: bool)
      returns (ghost evicted': bool)
      requires Valid() && IsTree(cur, s) && Value(s) == t
      requires Stage(env, t0, h0, m.trees, hashes, t, 1 + Size(t.left), evicted)
      requires !evicted && t.left.Node? ==> Key(env, t.left) in HashesOf(hashes, t.left.info.typ)
      modifies this
      ensures Valid() && old(m.repr) <= m.repr <= old(m.repr) + Refs(s)
      ensures Saved(env, t0, h0, m.trees, hashes, t, evicted')
      ensures Saves(env, Index(old(m.trees), old(hashes)), Index(m.trees, hashes), t.right)
      decreases s, 0, 0
    {
      ghost var h2 := hashes;
      evicted' := SaveChild(cur.right, s.r, t.right, t0, h0, t, 1 + Size(t.left), evicted);
      StagesDone(env, t0, h0, h2, m.trees, hashes, t, evicted');
    }

    /** The recursive call for one child, if there is one. */
    method SaveChild(child: IR?, ghost s: Shape, ghost c: Tree, ghost t0: Library, ghost h0: map<IRType, set<Hash>>,
                     ghost cur: Tree, ghost n: nat, ghost evicted: bool)
      returns (ghost evicted': bool)
      requires Valid() && IsTree(child, s) && Value(s) == c && cur.Node? && (c == cur.left || c == cur.right)
      requires Stage(env, t0, h0, m.trees, hashes, cur, n, evicted)
      modifies this
      ensures Valid() && old(m.repr) <= m.repr <= old(m.repr) + Refs(s)
      ensures Stage(env, t0, h0, m.trees, hashes, cur, n + Size(c), evicted')
      ensures !evicted' ==> !evicted && HashesGrow(old(hashes), hashes)
      ensures !evicted' && c.Node? ==> Key(env, c) in HashesOf(hashes, c.info.typ)
      ensures Saves(env, Index(old(m.trees), old(hashes)), Index(m.trees, hashes), c)
      decreases s, 2
    {
      evicted' := evicted;
      if child != null {
        ghost var t1, h1 := m.trees, hashes;
        ghost var more := SaveIRRecursive(child, s);
        SavedMore(env, t0, h0, t1, h1, m.trees, hashes, cur, c, n, evicted, more);
        evicted' := evicted || more;
      }
    }

    /** The hash of the printed tree. */
    method KeyOf(root: IR, ghost s: Shape) returns (h: Hash)
      requires IsTree(root, s)
      ensures h == Key(env, Value(s)) == env.hash(ToText(env.fmt, Value(s)))
    {
      var text := ToString(env.fmt, root, s);
      h := env.hash(text);
    }
  }
}
