/** The fix pipeline of the semantic validator (srcs/internal/srcs/typesystem.cpp): fix units that hold
    a FIXME are marked, the places to fix are selected, and every place gets a text. */
module Fixing {
  import opened Common
  import opened IrTree
  import opened IrHeap
  import opened IrSplice
  import opened Mutation
  import opened Visibility
  import Translator

  // ---------------------------------------------------------------------------------------------
  // MarkFixMe on values
  // ---------------------------------------------------------------------------------------------

  /** Below the root, a fix unit that needs fixing becomes a FIXME leaf with its ids; a fix unit that
      does not need fixing is left as it is. */
  function Mark(t: Tree): Tree
    decreases t, 0
  {
    if t.Nil? then Nil else t.(left := MarkChild(t.left), right := MarkChild(t.right))
  }

  function MarkChild(t: Tree): Tree
    decreases t, 1
  {
    if t.Node? && t.info.dataType == FixUnit then
      if NeedsFixing(t) then FixLeaf(t.info.sid, t.info.scopeId) else t
    else Mark(t)
  }

  /** Marking neither hides nor invents work. */
  lemma {:induction false} MarkKeepsNeed(t: Tree)
    ensures NeedsFixing(Mark(t)) <==> NeedsFixing(t)
    ensures NeedsFixing(MarkChild(t)) <==> NeedsFixing(t)
  {
    if t.Node? {
      MarkKeepsNeed(t.left);
      MarkKeepsNeed(t.right);
    }
  }

  lemma {:induction false} NothingToFixBelow(t: Tree, p: Path)
    requires !NeedsFixing(t) && Has(t, p)
    ensures !NeedsFixing(At(t, p))
  {
    if p != [] {
      NothingToFixBelow(Child(t, p[0]), p[1..]);
    }
  }

  /** A leaf has no other position than its own; a child is one step away. */
  lemma Steps(t: Tree)
    ensures t.IsLeaf() ==> forall p :: Has(t, p) <==> p == []
    ensures forall d {:trigger Child(t, d)} :: t.Node? && Child(t, d).Node? ==> Has(t, [d]) && At(t, [d]) == Child(t, d)
  {
    forall d: Dir | t.Node? && Child(t, d).Node?
      ensures Has(t, [d]) && At(t, [d]) == Child(t, d)
    {
      assert [d][1..] == [];
    }
  }

  /** After marking, no FIXME is left inside a fix unit, except possibly the root itself. */
  lemma {:induction false} MarkedUnitsAreFixed(t: Tree, p: Path)
    requires Has(Mark(t), p) && p != [] && At(Mark(t), p).info.dataType == FixUnit
    ensures !NeedsFixing(At(Mark(t), p))
  {
    var c := Child(t, p[0]);
    assert Child(Mark(t), p[0]) == MarkChild(c);
    Steps(MarkChild(c));
    if c.info.dataType == FixUnit {
      if !NeedsFixing(c) {
        NothingToFixBelow(c, p[1..]);
      }
    } else {
      MarkedUnitsAreFixed(c, p[1..]);
    }
  }

  /** Every node that is left keeps its place.  A fix unit below the root that needs fixing is a FIXME leaf with its
      ids, any other node keeps all its fields. */
  lemma {:induction false} MarkKeepsPlaces(t: Tree, p: Path)
    requires Has(Mark(t), p)
    ensures Has(t, p)
    ensures var n, m := At(t, p).info, At(Mark(t), p).info;
      if p != [] && n.dataType == FixUnit && NeedsFixing(At(t, p)) then
        && At(Mark(t), p).IsLeaf()
        && m == Info(0xdeadbeef, None, Str("FIXME"), DataDefault, ScopeDefault, n.sid, n.scopeId)
      else m == n
  {
    if p != [] {
      var c := Child(t, p[0]);
      assert Child(Mark(t), p[0]) == MarkChild(c);
      Steps(MarkChild(c));
      if c.info.dataType != FixUnit {
        MarkKeepsPlaces(c, p[1..]);
      } else if !NeedsFixing(c) {
        NothingToFixBelow(c, p[1..]);
      }
    }
  }

  /** A fix unit at `q`, below the root and strictly above `p`, that needs fixing. */
  ghost predicate UnitAbove(t: Tree, q: Path, p: Path) {
    q != [] && q < p && Has(t, q) && At(t, q).info.dataType == FixUnit && NeedsFixing(At(t, q))
  }

  /** A node is gone exactly if a fix unit above it needed fixing. */
  lemma {:induction false} MarkRemoves(t: Tree, p: Path)
    requires Has(t, p)
    ensures Has(Mark(t), p) <==> !exists q :: UnitAbove(t, q, p)
  {
    if p != [] {
      var c := Child(t, p[0]);
      assert Child(Mark(t), p[0]) == MarkChild(c);
      assert p == [p[0]] + p[1..];
      Steps(t);
      Steps(MarkChild(c));
      forall q | UnitAbove(t, q, p)
        ensures q[0] == p[0] && Has(c, q[1..]) && At(t, q) == At(c, q[1..])
        ensures q[1..] != [] ==> UnitAbove(c, q[1..], p[1..])
        ensures c.info.dataType == FixUnit ==> NeedsFixing(c) && p[1..] != []
      {
        PrefixTail(q, p);
        if c.info.dataType == FixUnit && !NeedsFixing(c) {
          NothingToFixBelow(c, q[1..]);
        }
      }
      if c.info.dataType == FixUnit {
        if NeedsFixing(c) && p[1..] != [] {
          assert [p[0]][1..] == [];
          assert UnitAbove(t, [p[0]], p);
        }
      } else {
        MarkRemoves(c, p[1..]);
        if q :| UnitAbove(c, q, p[1..]) {
          assert ([p[0]] + q)[1..] == q;
          PrefixTail([p[0]] + q, p);
          assert UnitAbove(t, [p[0]] + q, p);
        }
      }
    }
  }

  /** In a freshly translated tree, a name is visible at a fix point exactly if it precedes it in the
      text: marking keeps the ids that the test compares. */
  lemma FixPointSeesEarlierNames(t: Tree, lo: nat, hi: nat, nameAt: Path, fixAt: Path, d: Definition)
    requires Translator.WellNumbered(t, lo, hi) && Has(Mark(t), nameAt) && Has(Mark(t), fixAt)
    requires Has(t, nameAt) && Has(t, fixAt) && At(t, nameAt).info.typ != UNKNOWN && At(t, fixAt).info.typ != UNKNOWN
    requires d.sid == At(Mark(t), nameAt).info.sid
    ensures NamesBefore([d], At(Mark(t), fixAt).info.sid)
      == if fixAt < nameAt || LeftOf(nameAt, fixAt) then [d.name] else []
  {
    MarkKeepsPlaces(t, nameAt);
    MarkKeepsPlaces(t, fixAt);
    Translator.IdOrderIff(t, lo, hi, nameAt, fixAt);
    assert [d][..0] == [];
    assert NamesBefore([], At(Mark(t), fixAt).info.sid) == [];
  }

  // ---------------------------------------------------------------------------------------------
  // The places to fix, on values
  // ---------------------------------------------------------------------------------------------

  predicate IsFixme(t: Tree) {
    t.Node? && t.info.data == Str(FIXME)
  }

  /** How many places the search finds: it does not look below a FIXME. */
  function FixCount(t: Tree): nat {
    if t.Nil? then 0 else if IsFixme(t) then 1 else FixCount(t.left) + FixCount(t.right)
  }

  /** The tree with the places found, in order, given the texts. */
  function Fill(t: Tree, texts: seq<string>): Tree
    requires |texts| == FixCount(t)
  {
    if t.Nil? then Nil
    else if IsFixme(t) then t.(info := t.info.(data := Str(texts[0])))
    else
      var k := FixCount(t.left);
      Node(t.info, Fill(t.left, texts[..k]), Fill(t.right, texts[k..]))
  }

  /** Strings are found at leaves only. */
  predicate StringsAtLeaves(t: Tree) {
    t.Node? ==> (t.info.data.Str? ==> t.IsLeaf()) && StringsAtLeaves(t.left) && StringsAtLeaves(t.right)
  }

  /** Filling touches nothing but the FIXMEs. */
  lemma {:induction false} FillKeepsTheRest(t: Tree, texts: seq<string>, p: Path)
    requires |texts| == FixCount(t)
    ensures Has(Fill(t, texts), p) <==> Has(t, p)
    ensures Has(t, p) ==> At(Fill(t, texts), p).info.(data := NoData) == At(t, p).info.(data := NoData)
    ensures Has(t, p) && At(Fill(t, texts), p).info != At(t, p).info ==> IsFixme(At(t, p))
  {
    if t.Node? && p != [] && !IsFixme(t) {
      var k := FixCount(t.left);
      FillKeepsTheRest(Child(t, p[0]), if p[0] == L then texts[..k] else texts[k..], p[1..]);
    }
  }

  lemma InParts(x: string, a: seq<string>, b: seq<string>)
    ensures x in a + b <==> x in a || x in b
  {
  }

  /** Where strings are found at leaves only: a tree needs fixing exactly if there is a place to fix, and
      a filled tree exactly if one of the texts is FIXME again. */
  lemma {:induction false} FilledNeedsFixing(t: Tree, texts: seq<string>)
    requires StringsAtLeaves(t) && |texts| == FixCount(t)
    ensures NeedsFixing(t) <==> FixCount(t) > 0
    ensures NeedsFixing(Fill(t, texts)) <==> FIXME in texts
  {
    if t.Node? && !IsFixme(t) {
      var a, b := texts[..FixCount(t.left)], texts[FixCount(t.left)..];
      FilledNeedsFixing(t.left, a);
      FilledNeedsFixing(t.right, b);
      assert texts == a + b;
      InParts(FIXME, a, b);
      FillKeepsNodes(t.left, a);
      FillKeepsNodes(t.right, b);
    }
  }

  lemma FillKeepsNodes(t: Tree, texts: seq<string>)
    requires |texts| == FixCount(t)
    ensures t.Nil? <==> Fill(t, texts).Nil?
  {
  }

  lemma {:induction false} MarkKeepsLeaves(t: Tree)
    requires StringsAtLeaves(t)
    ensures StringsAtLeaves(Mark(t)) && StringsAtLeaves(MarkChild(t))
  {
    if t.Node? {
      MarkKeepsLeaves(t.left);
      MarkKeepsLeaves(t.right);
    }
  }

  /** The places found, left to right. */
  function FixPaths(t: Tree): (ps: seq<Path>)
    ensures |ps| == FixCount(t)
  {
    if t.Nil? then []
    else if IsFixme(t) then [[]]
    else Prefixed(L, FixPaths(t.left)) + Prefixed(R, FixPaths(t.right))
  }

  function Prefixed(d: Dir, ps: seq<Path>): (r: seq<Path>)
    ensures |r| == |ps| && forall i :: 0 <= i < |r| ==> r[i] == [d] + ps[i]
  {
    seq(|ps|, i requires 0 <= i < |ps| => [d] + ps[i])
  }

  lemma PrefixedHas(d: Dir, ps: seq<Path>, p: Path)
    requires p != []
    ensures p in Prefixed(d, ps) <==> p[0] == d && p[1..] in ps
  {
    var r := Prefixed(d, ps);
    if p in r {
      var i :| 0 <= i < |r| && r[i] == p;
      assert p[1..] == ps[i];
    }
    if p[0] == d && p[1..] in ps {
      var i :| 0 <= i < |ps| && ps[i] == p[1..];
      assert r[i] == p;
    }
  }

  /** Where strings are found at leaves only, the places are exactly the FIXME leaves. */
  lemma {:induction false} FixPathsExact(t: Tree, p: Path)
    requires StringsAtLeaves(t)
    ensures p in FixPaths(t) <==> Has(t, p) && At(t, p).IsLeaf() && At(t, p).info.data == Str("FIXME")
  {
    if IsFixme(t) {
      Steps(t);
    } else if t.Node? {
      if p == [] {
        assert forall i :: 0 <= i < |FixPaths(t)| ==> FixPaths(t)[i] != [];
      } else {
        var other := if p[0] == L then R else L;
        FixPathsExact(Child(t, p[0]), p[1..]);
        PrefixedHas(p[0], FixPaths(Child(t, p[0])), p);
        PrefixedHas(other, FixPaths(Child(t, other)), p);
      }
    }
  }

  /** Each place gets the text generated for it. */
  lemma {:induction false} FilledAt(t: Tree, texts: seq<string>, i: nat)
    requires |texts| == FixCount(t) && i < |texts|
    ensures Has(Fill(t, texts), FixPaths(t)[i]) && At(Fill(t, texts), FixPaths(t)[i]).info.data == Str(texts[i])
  {
    if !IsFixme(t) {
      var k, p := FixCount(t.left), FixPaths(t)[i];
      if i < k {
        FilledAt(t.left, texts[..k], i);
        assert p[1..] == FixPaths(t.left)[i];
      } else {
        FilledAt(t.right, texts[k..], i - k);
        assert p[1..] == FixPaths(t.right)[i - k];
      }
    }
  }

  lemma {:induction false} FixPathsInOrder(t: Tree, i: nat, j: nat)
    requires i < j < |FixPaths(t)|
    ensures LeftOf(FixPaths(t)[i], FixPaths(t)[j])
  {
    if !IsFixme(t) {
      var ls, rs, k := FixPaths(t.left), FixPaths(t.right), |FixPaths(t.left)|;
      var p, q := FixPaths(t)[i], FixPaths(t)[j];
      if j < k {
        FixPathsInOrder(t.left, i, j);
        assert p[1..] == ls[i] && q[1..] == ls[j];
      } else if i >= k {
        FixPathsInOrder(t.right, i - k, j - k);
        assert p[1..] == rs[i - k] && q[1..] == rs[j - k];
      } else {
        assert p[0] == L && q[0] == R;
      }
    }
  }

  // ---------------------------------------------------------------------------------------------
  // MarkFixMe on the heap
  // ---------------------------------------------------------------------------------------------

  /** MarkFixMe rewrites the children of `root`; a new leaf takes over both ids. */
  method MarkFixMe(root: IR, ghost s: Shape) returns (ghost r: Shape)
    requires IsTree(root, s)
    modifies Refs(s)
    ensures IsTree(root, r) && fresh(Refs(r) - Refs(s))
    ensures Value(r) == Mark(old(Value(s)))
    decreases s, 0
  {
    RefsAllocated(s);
    ghost var mid := MarkLeft(root, s);
    r := MarkRight(root, s, mid);
    assert Refs(r) - Refs(s) <= (Refs(r) - Refs(mid)) + (Refs(mid) - Refs(s));
  }

  /** The left slot. */
  method MarkLeft(root: IR, ghost s: Shape) returns (ghost r: Shape)
    requires IsTree(root, s)
    modifies Refs(s)
    ensures r.Cell? && r.r == s.r && IsTree(root, r) && fresh(Refs(r) - Refs(s))
    ensures root.Info() == old(root.Info()) && Value(r.r) == old(Value(s.r))
    ensures Value(r.l) == MarkChild(old(Value(s.l)))
    decreases s, 0, 0
  {
    RefsAllocated(s);
    r := s;
    if root.left != null {
      var child;
      ghost var l;
      child, l := MarkSlot(root.left, s.l);
      root.left := child;
      r := Cell(root, l, s.r);
    }
  }

  /** The right slot, after the left one (`s` is the tree before both). */
  method MarkRight(root: IR, ghost s: Shape, ghost now: Shape) returns (ghost r: Shape)
    requires IsTree(root, now) && s.Cell? && now.r == s.r
    modifies Refs(now)
    ensures r.Cell? && r.l == now.l && IsTree(root, r) && fresh(Refs(r) - Refs(now))
    ensures root.Info() == old(root.Info()) && Value(r.l) == old(Value(now.l))
    ensures Value(r.r) == MarkChild(old(Value(s.r)))
    decreases s, 0, 0
  {
    RefsAllocated(now);
    r := now;
    if root.right != null {
      var child;
      ghost var rr;
      child, rr := MarkSlot(root.right, s.r);
      root.right := child;
      r := Cell(root, now.l, rr);
    }
  }

  /** A child slot. */
  method MarkSlot(child: IR, ghost s: Shape) returns (child': IR, ghost r: Shape)
    requires IsTree(child, s)
    modifies Refs(s)
    ensures IsTree(child', r) && fresh(Refs(r) - Refs(s))
    ensures Value(r) == MarkChild(old(Value(s)))
    decreases s, 1
  {
    RefsAllocated(s);
    child', r := child, s;
    if child.dataType == FixUnit {
      var needed := NeedFixing(child, s);
      if needed {
        child' := FixmeLeaf(child.sid, child.scopeId);
        r := Cell(child', Empty, Empty);
        LeafShape(child');
      }
    } else {
      r := MarkFixMe(child, s);
    }
  }

  method FixmeLeaf(sid: nat, scopeId: ScopeId) returns (leaf: IR)
    ensures fresh(leaf) && leaf.left == null && leaf.right == null
    ensures Node(leaf.Info(), Nil, Nil) == FixLeaf(sid, scopeId)
  {
    var id: nat :| true;
    leaf := new IR.Leaf(UNKNOWN, FIXME, id);
    leaf.scopeId := scopeId;
    leaf.sid := sid;
  }

  // ---------------------------------------------------------------------------------------------
  // SelectFixStrategy
  // ---------------------------------------------------------------------------------------------

  /** The nodes to fix, left to right; below a FIXME there is nothing to fix. */
  ghost function FixPoints(s: Shape): seq<IR>
    reads Refs(s)
  {
    if s.Empty? then [] else if s.ref.data == Str(FIXME) then [s.ref] else FixPoints(s.l) + FixPoints(s.r)
  }

  /** What the shapes on the stack still contribute, the top first. */
  ghost function StackPoints(stk: seq<Shape>): seq<IR>
    reads AllRefsOf(stk)
  {
    if stk == [] then [] else FixPoints(stk[|stk| - 1]) + StackPoints(stk[..|stk| - 1])
  }

  ghost function AllRefsOf(stk: seq<Shape>): set<IR> {
    if stk == [] then {} else Refs(stk[|stk| - 1]) + AllRefsOf(stk[..|stk| - 1])
  }

  ghost function Weight(stk: seq<Shape>): nat {
    if stk == [] then 0 else ShapeSize(stk[|stk| - 1]) + Weight(stk[..|stk| - 1])
  }

  ghost function ShapeSize(s: Shape): nat {
    if s.Empty? then 0 else 1 + ShapeSize(s.l) + ShapeSize(s.r)
  }

  ghost predicate Stacked(stk: seq<IR>, gs: seq<Shape>)
    reads AllRefsOf(gs)
  {
    && |stk| == |gs|
    && (gs != [] ==>
      var k := |gs| - 1;
      Linked(gs[k]) && Top(gs[k]) == stk[k] && Stacked(stk[..k], gs[..k]))
  }

  lemma StackPush(stk: seq<IR>, gs: seq<Shape>, n: IR, g: Shape)
    requires Stacked(stk, gs) && Linked(g) && Top(g) == n
    ensures Stacked(stk + [n], gs + [g])
    ensures StackPoints(gs + [g]) == FixPoints(g) + StackPoints(gs)
    ensures Weight(gs + [g]) == ShapeSize(g) + Weight(gs)
  {
    assert (gs + [g])[..|gs|] == gs && (stk + [n])[..|stk|] == stk;
  }

  lemma StackTop(stk: seq<IR>, gs: seq<Shape>)
    requires stk != [] && Stacked(stk, gs)
    ensures |gs| == |stk|
    ensures var k := |gs| - 1;
      && Linked(gs[k]) && Top(gs[k]) == stk[k] && Stacked(stk[..k], gs[..k])
      && StackPoints(gs) == FixPoints(gs[k]) + StackPoints(gs[..k])
      && Weight(gs) == ShapeSize(gs[k]) + Weight(gs[..k]) && ShapeSize(gs[k]) > 0
  {
  }

  function Pushed<T>(stk: seq<T>, push: bool, n: T): seq<T> {
    if push then stk + [n] else stk
  }

  /** The right child is pushed first, so that the left one is on top. */
  lemma PushChildren(stk: seq<IR>, gs: seq<Shape>, n: IR, g: Shape)
    requires Stacked(stk, gs) && Linked(g) && Top(g) == n
    ensures var stk' := if n.right != null then stk + [n.right] else stk;
      var gs' := Pushed(gs, g.r.Cell?, g.r);
      var stk'', gs'' := if n.left != null then stk' + [n.left] else stk', Pushed(gs', g.l.Cell?, g.l);
      && Stacked(stk'', gs'')
      && StackPoints(gs'') == FixPoints(g.l) + FixPoints(g.r) + StackPoints(gs)
      && Weight(gs'') < ShapeSize(g) + Weight(gs)
  {
    var stk' := if n.right != null then stk + [n.right] else stk;
    var gs' := Pushed(gs, g.r.Cell?, g.r);
    PushChild(stk, gs, n.right, g.r);
    PushChild(stk', gs', n.left, g.l);
    Regroup(FixPoints(g.l), FixPoints(g.r), StackPoints(gs));
  }

  lemma PushChild(stk: seq<IR>, gs: seq<Shape>, n: IR?, g: Shape)
    requires Stacked(stk, gs) && Linked(g) && Top(g) == n
    ensures var stk', gs' := if n != null then stk + [n] else stk, Pushed(gs, g.Cell?, g);
      && Stacked(stk', gs')
      && StackPoints(gs') == FixPoints(g) + StackPoints(gs)
      && Weight(gs') == ShapeSize(g) + Weight(gs)
  {
    if n != null {
      StackPush(stk, gs, n, g);
    } else {
      assert FixPoints(g) == [] && [] + StackPoints(gs) == StackPoints(gs);
    }
  }

  /** The explicit stack finds the nodes to fix, left to right. */
  method SelectFixStrategy(root: IR, ghost s: Shape) returns (res: seq<IR>)
    requires IsTree(root, s)
    ensures res == FixPoints(s)
  {
    RefsAllocated(s);
    ghost var all := FixPoints(s);
    res := [];
    var stk: seq<IR> := [];
    ghost var gs: seq<Shape> := [];
    StackPush(stk, gs, root, s);
    stk, gs := stk + [root], gs + [s];
    while stk != []
      invariant Stacked(stk, gs) && res + StackPoints(gs) == all
      decreases Weight(gs)
    {
      stk, gs, res := SelectNext(stk, gs, res, all);
    }
  }

  /** One pass: the top of the stack is selected, or gives way to its children. */
  method SelectNext(stk: seq<IR>, ghost gs: seq<Shape>, res: seq<IR>, ghost all: seq<IR>)
    returns (stk': seq<IR>, ghost gs': seq<Shape>, res': seq<IR>)
    requires stk != [] && Stacked(stk, gs) && res + StackPoints(gs) == all
    ensures Stacked(stk', gs') && res' + StackPoints(gs') == all && Weight(gs') < Weight(gs)
  {
    hide Stacked, StackPoints, Weight;
    StackTop(stk, gs);
    var top := stk[|stk| - 1];
    ghost var g := gs[|gs| - 1];
    stk', gs', res' := stk[..|stk| - 1], gs[..|gs| - 1], res;
    Regroup(res, FixPoints(g), StackPoints(gs'));
    if top.data == Str(FIXME) {
      res' := res + [top];
    } else {
      PushChildren(stk', gs', top, g);
      gs' := Pushed(Pushed(gs', g.r.Cell?, g.r), g.l.Cell?, g.l);
      if top.right != null {
        stk' := stk' + [top.right];
      }
      if top.left != null {
        stk' := stk' + [top.left];
      }
    }
  }

  /** Every selected node is a FIXME of the tree, and none is selected twice. */
  lemma {:induction false} PointsAreFixmes(s: Shape)
    requires Distinct(s)
    ensures |FixPoints(s)| == FixCount(Value(s))
    ensures forall n :: n in FixPoints(s) ==> n in Refs(s) && n.data == Str(FIXME)
    ensures forall i, j :: 0 <= i < j < |FixPoints(s)| ==> FixPoints(s)[i] != FixPoints(s)[j]
  {
    if s.Cell? && s.ref.data != Str(FIXME) {
      PointsAreFixmes(s.l);
      PointsAreFixmes(s.r);
      var ls, rs := FixPoints(s.l), FixPoints(s.r);
      forall i, j | 0 <= i < j < |ls + rs|
        ensures (ls + rs)[i] != (ls + rs)[j]
      {
        if i < |ls| <= j {
          assert ls[i] in Refs(s.l) && rs[j - |ls|] in Refs(s.r);
        }
      }
    }
  }

  /** The selected nodes stand at the places to fix. */
  lemma {:induction false} PointAt(s: Shape, i: nat)
    requires i < |FixPoints(s)|
    ensures i < |FixPaths(Value(s))|
    ensures var p := FixPaths(Value(s))[i]; Reaches(s, p) && Sub(s, p).ref == FixPoints(s)[i]
  {
    PointCount(s);
    var t, p := Value(s), FixPaths(Value(s))[i];
    if !IsFixme(t) {
      PointCount(s.l);
      var k := |FixPoints(s.l)|;
      if i < k {
        PointAt(s.l, i);
        assert p[1..] == FixPaths(t.left)[i];
      } else {
        PointAt(s.r, i - k);
        assert p[1..] == FixPaths(t.right)[i - k];
      }
    }
  }

  lemma {:induction false} PointCount(s: Shape)
    ensures |FixPoints(s)| == FixCount(Value(s))
  {
    if s.Cell? {
      PointCount(s.l);
      PointCount(s.r);
    }
  }

  // ---------------------------------------------------------------------------------------------
  // ApplyFix
  // ---------------------------------------------------------------------------------------------

  /** The nodes to fix, in a remembered heap. */
  ghost function PointsIn(h: Memory, s: Shape): seq<IR>
    requires Refs(s) <= h.Keys
  {
    if s.Empty? then [] else if h[s.ref].info.data == Str(FIXME) then [s.ref] else PointsIn(h, s.l) + PointsIn(h, s.r)
  }

  lemma {:induction false} MemoryPoints(h: Memory, s: Shape)
    requires Refs(s) <= h.Keys && forall n :: n in Refs(s) ==> h[n] == FieldsOf(n)
    ensures PointsIn(h, s) == FixPoints(s)
  {
    if s.Cell? {
      MemoryPoints(h, s.l);
      MemoryPoints(h, s.r);
    }
  }

  lemma {:induction false} PointsInRefs(h: Memory, s: Shape)
    requires Refs(s) <= h.Keys
    ensures |PointsIn(h, s)| == FixCount(ValueIn(h, s))
    ensures forall n :: n in PointsIn(h, s) ==> n in Refs(s)
  {
    if s.Cell? {
      PointsInRefs(h, s.l);
      PointsInRefs(h, s.r);
    }
  }

  /** The field changes of the fixes at `ps`, on the nodes of `s`. */
  ghost predicate RewrittenAt(h: Memory, s: Shape, ps: seq<IR>, texts: seq<string>)
    requires Refs(s) <= h.Keys
    reads Refs(s)
  {
    && |ps| == |texts|
    && (forall n :: n in Refs(s) && n !in ps ==> FieldsOf(n) == h[n])
    && (forall i :: 0 <= i < |ps| && ps[i] in Refs(s) ==> FieldsOf(ps[i]) == SetText(h[ps[i]], texts[i]))
  }

  ghost function SetText(f: Fields, text: string): Fields {
    f.(info := f.info.(data := Str(text)))
  }

  /** The part of the changes that concerns one child. */
  lemma RewrittenPart(h: Memory, s: Shape, part: Shape, all: seq<IR>, j: nat, ps: seq<IR>, texts: seq<string>)
    requires Refs(s) <= h.Keys && Refs(part) <= Refs(s) && RewrittenAt(h, s, all, texts)
    requires j + |ps| <= |all| && forall i :: 0 <= i < |ps| ==> ps[i] == all[j + i]
    requires forall n :: n in all && n in Refs(part) ==> n in ps
    ensures RewrittenAt(h, part, ps, texts[j..j + |ps|])
  {
  }

  lemma RewrittenRoot(h: Memory, s: Shape, ps: seq<IR>, texts: seq<string>)
    requires s.Cell? && Refs(s) <= h.Keys && RewrittenAt(h, s, ps, texts)
    ensures |ps| == |texts| && (s.ref !in ps ==> FieldsOf(s.ref) == h[s.ref])
  {
  }

  lemma RewrittenParts(h: Memory, s: Shape, a: seq<IR>, b: seq<IR>, texts: seq<string>)
    requires s.Cell? && Refs(s) <= h.Keys && Distinct(s) && RewrittenAt(h, s, a + b, texts)
    requires (forall n :: n in a ==> n in Refs(s.l)) && (forall n :: n in b ==> n in Refs(s.r))
    ensures FieldsOf(s.ref) == h[s.ref]
    ensures |a| <= |texts| && RewrittenAt(h, s.l, a, texts[..|a|]) && RewrittenAt(h, s.r, b, texts[|a|..])
  {
    hide RewrittenAt;
    RewrittenRoot(h, s, a + b, texts);
    RewrittenPart(h, s, s.l, a + b, 0, a, texts);
    RewrittenPart(h, s, s.r, a + b, |a|, b, texts);
    assert texts[0..|a|] == texts[..|a|] && texts[|a|..|a| + |b|] == texts[|a|..];
  }

  lemma {:induction false} RewrittenValue(h: Memory, s: Shape, texts: seq<string>)
    requires Refs(s) <= h.Keys && Distinct(s) && LinkedIn(h, s) && RewrittenAt(h, s, PointsIn(h, s), texts)
    ensures Linked(s) && |texts| == FixCount(ValueIn(h, s)) && Value(s) == Fill(ValueIn(h, s), texts)
  {
    PointsInRefs(h, s);
    if s.Cell? {
      PointsInRefs(h, s.l);
      PointsInRefs(h, s.r);
      if h[s.ref].info.data == Str(FIXME) {
        assert PointsIn(h, s)[0] == s.ref;
        MemoryAgrees(h, s.l);
        MemoryAgrees(h, s.r);
      } else {
        RewrittenParts(h, s, PointsIn(h, s.l), PointsIn(h, s.r), texts);
        RewrittenValue(h, s.l, texts[..|PointsIn(h, s.l)|]);
        RewrittenValue(h, s.r, texts[|PointsIn(h, s.l)|..]);
      }
    }
  }
}
