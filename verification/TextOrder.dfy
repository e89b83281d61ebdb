/** Statement ids against the order of the text: which declarations of a freshly translated program pass the id test
    of srcs/internal/srcs/typesystem.cpp at which places. */
module TextOrder {
  import opened Common
  import opened IrTree
  import opened Scoping
  import opened Fixing
  import opened Declarations
  import Translator

  /** The tree that definitions are collected from: marked and tagged with scopes. */
  function Prepare(t: Tree): Tree {
    Tag(Mark(t), None, 0)
  }

  /** Tagging changes scope ids only. */
  lemma {:induction false} TagPlaces(t: Tree, cur: Option<ScopeId>, n: nat, p: Path)
    ensures Has(Tag(t, cur, n), p) <==> Has(t, p)
    ensures Has(t, p) ==>
      var i, j := At(Tag(t, cur, n), p).info, At(t, p).info;
      i.sid == j.sid && i.typ == j.typ && i.dataType == j.dataType && i.data == j.data
  {
    if t.Node? && p != [] {
      var i := if Scoped(t) then n + 1 else OrElse(cur, t.info.scopeId);
      var inner, m := if Scoped(t) then Some(i) else cur, if Scoped(t) then n + 1 else n;
      TagPlaces(Child(t, p[0]), inner, if p[0] == L then m else m + ScopeCount(t.left), p[1..]);
    }
  }

  lemma {:induction false} TagCounts(t: Tree, cur: Option<ScopeId>, n: nat)
    ensures var tagged := Tag(t, cur, n);
      && FixCount(tagged) == FixCount(t) && Size(tagged) == Size(t)
      && (StringsAtLeaves(tagged) <==> StringsAtLeaves(t)) && (tagged.IsLeaf() <==> t.IsLeaf())
  {
    if t.Node? {
      var i := if Scoped(t) then n + 1 else OrElse(cur, t.info.scopeId);
      var inner, m := if Scoped(t) then Some(i) else cur, if Scoped(t) then n + 1 else n;
      TagCounts(t.left, inner, m);
      TagCounts(t.right, inner, m + ScopeCount(t.left));
    }
  }

  /** Every scope gets its own number. */
  lemma {:induction false} TagNumbers(t: Tree, cur: Option<ScopeId>, n: nat)
    ensures NumbersAfter(ScopedIds(Tag(t, cur, n)), n, ScopeCount(t))
  {
    if t.Node? {
      var i := if Scoped(t) then n + 1 else OrElse(cur, t.info.scopeId);
      var inner, m := if Scoped(t) then Some(i) else cur, if Scoped(t) then n + 1 else n;
      TagNumbers(t.left, inner, m);
      TagNumbers(t.right, inner, m + ScopeCount(t.left));
      IdsOfNode(t, Tag(t, cur, n), n);
    }
  }

  /** A node that is left has its place and its id from the input; one with data or a data type is rule-typed there
      if the input was freshly translated. */
  lemma PlaceInInput(t: Tree, q: Path)
    requires Has(Prepare(t), q)
    ensures Has(t, q) && At(Prepare(t), q).info.sid == At(t, q).info.sid
    ensures Translator.WellMade(t) ==>
      var i := At(Prepare(t), q).info;
      i.dataType != DataDefault || i.data != NoData ==> At(t, q).info.typ != UNKNOWN
  {
    TagPlaces(Mark(t), None, 0, q);
    MarkKeepsPlaces(t, q);
    if Translator.WellMade(t) {
      Translator.WellMadeAt(t, q);
    }
  }

  lemma {:induction false} StringsOfTranslated(t: Tree)
    requires Translator.WellMade(t)
    ensures StringsAtLeaves(t)
  {
    if t.Node? {
      StringsOfTranslated(t.left);
      StringsOfTranslated(t.right);
    }
  }

  lemma {:induction false} NothingBelowLeaf(t: Tree, f: Path, q: Path)
    requires Has(t, f) && Has(t, q) && At(t, f).IsLeaf()
    ensures !(f < q)
  {
    if f != [] && q != [] && f[0] == q[0] {
      PrefixTail(f, q);
      NothingBelowLeaf(Child(t, f[0]), f[1..], q[1..]);
    }
  }

  /** The fix points of a freshly translated tree are leaves, and rule-typed in the input. */
  lemma FixPointIsLeaf(t: Tree, f: Path)
    requires Translator.WellMade(t) && f in FixPaths(Prepare(t))
    ensures Has(Prepare(t), f) && At(Prepare(t), f).IsLeaf() && Has(t, f) && At(t, f).info.typ != UNKNOWN
  {
    StringsOfTranslated(t);
    MarkKeepsLeaves(t);
    TagCounts(Mark(t), None, 0);
    FixPathsExact(Prepare(t), f);
    PlaceInInput(t, f);
  }

  /** The node whose id a declaration has: the whole definition for arguments and classes, otherwise the name. */
  function IdAt(d: Decl, def: Path, name: Path): Path {
    if d.ArgumentDecl? || d.ClassDecl? then def else name
  }

  /** In a freshly translated tree a declaration passes the id test at a fix point exactly if the node whose id it
      has stands before the fix point in the text. */
  lemma PassesIff(t: Tree, lo: nat, hi: nat, fmt: Format, f: Path, d: Decl, def: Path, name: Path)
    requires Translator.WellNumbered(t, lo, hi) && f in FixPaths(Prepare(t))
    requires DeclaredAt(fmt, Prepare(t), d, def, name)
    ensures Has(t, f) && (d.sid < At(t, f).info.sid <==> LeftOf(IdAt(d, def, name), f))
  {
    var q := IdAt(d, def, name);
    FixPointIsLeaf(t, f);
    NothingBelowLeaf(Prepare(t), f, q);
    PlaceInInput(t, q);
    Translator.IdOrderIff(t, lo, hi, q, f);
  }

  /** Arguments get the id of the whole function definition, which in a freshly translated tree exceeds all ids
      inside it: so an argument passes at no place inside its function.  Likewise a class inside itself. */
  lemma FailsInside(t: Tree, fmt: Format, f: Path, d: Decl, def: Path, name: Path)
    requires Translator.WellMade(t) && Has(Prepare(t), f) && def <= f
    requires DeclaredAt(fmt, Prepare(t), d, def, name) && (d.ArgumentDecl? || d.ClassDecl?)
    ensures Has(t, f) && At(t, f).info.sid <= d.sid
  {
    PlaceInInput(t, def);
    PlaceInInput(t, f);
    if def != f {
      Translator.DescendantsAreOlder(t, def, f);
    }
  }

  /** Where the body of a function opens a scope, this scope encloses no place outside the function. */
  lemma BodyScopeIsInside(t: Tree, f: Path, def: Path, body: Path, i: ScopeId)
    requires Has(Prepare(t), f) && i in Enclosing(Prepare(t), f)
    requires IsBody(Prepare(t), def, body, FunctionBody, i) && Scoped(At(Prepare(t), body))
    ensures def <= f
  {
    EnclosingExact(Prepare(t), f, i);
    var q :| OpenedAbove(Prepare(t), q, f, i);
    TagNumbers(Mark(t), None, 0);
    assert NoneTwice(ScopedIds(Prepare(t)));
    ScopeHasOneNode(Prepare(t), body, q);
  }
}
