/** The stack algorithm of ExtractOneIR and TranslateNode (srcs/antlr/ir_translater.cpp), and the
    statement ids it hands out (srcs/internal/srcs/ir.cpp). */
module Translator {
  import opened Common
  import opened IrTree
  import opened Translation

  // ---------------------------------------------------------------------------------------------
  // Statement ids
  // ---------------------------------------------------------------------------------------------

  /** Every node's id lies in `lo..hi`. */
  predicate IdsIn(t: Tree, lo: nat, hi: nat) {
    t.Node? ==> lo <= t.info.sid < hi && IdsIn(t.left, lo, hi) && IdsIn(t.right, lo, hi)
  }

  /** A node of unknown type holds nothing but its operator, and data is found at leaves only. */
  predicate IsPlain(t: Tree)
    requires t.Node?
  {
    && (t.info.typ == UNKNOWN ==> t.info.dataType == DataDefault && t.info.data == NoData)
    && (t.info.data != NoData ==> t.IsLeaf())
  }

  /** Every node's id exceeds the ids of its descendants, and every node is plain in the above sense. */
  predicate WellMade(t: Tree) {
    t.Node? ==>
      && IsPlain(t) && IdsIn(t.left, 0, t.info.sid) && IdsIn(t.right, 0, t.info.sid)
      && WellMade(t.left) && WellMade(t.right)
  }

  /** The ids of the rule-typed nodes, children before parents and left before right. */
  function RuleIds(t: Tree): seq<nat> {
    if t.Nil? then []
    else RuleIds(t.left) + RuleIds(t.right) + (if t.info.typ == UNKNOWN then [] else [t.info.sid])
  }

  predicate Ascending(s: seq<nat>) {
    forall i, j :: 0 <= i < j < |s| ==> s[i] < s[j]
  }

  predicate AllBelow(s: seq<nat>, lo: nat, hi: nat) {
    forall i :: 0 <= i < |s| ==> lo <= s[i] < hi
  }

  function ItemIds(items: seq<Item>): seq<nat> {
    if items == [] then []
    else
      var last := items[|items| - 1];
      ItemIds(items[..|items| - 1]) + (if last.Sub? then RuleIds(last.t) else [])
  }

  lemma {:induction false} IdsInWiden(t: Tree, lo: nat, hi: nat, lo': nat, hi': nat)
    requires IdsIn(t, lo, hi) && lo' <= lo && hi <= hi'
    ensures IdsIn(t, lo', hi')
  {
    if t.Node? {
      IdsInWiden(t.left, lo, hi, lo', hi');
      IdsInWiden(t.right, lo, hi, lo', hi');
    }
  }

  lemma {:induction false} RuleIdsIn(t: Tree, lo: nat, hi: nat)
    requires IdsIn(t, lo, hi)
    ensures AllBelow(RuleIds(t), lo, hi)
  {
    if t.Node? {
      RuleIdsIn(t.left, lo, hi);
      RuleIdsIn(t.right, lo, hi);
    }
  }

  lemma AscendingAdd(a: seq<nat>, b: seq<nat>, lo: nat, mid: nat, hi: nat)
    requires Ascending(a) && Ascending(b) && AllBelow(a, lo, mid) && AllBelow(b, mid, hi)
    ensures Ascending(a + b)
    ensures lo <= mid <= hi ==> AllBelow(a + b, lo, hi)
  {
  }

  lemma {:induction false} ItemIdsAdd(a: seq<Item>, b: seq<Item>)
    ensures ItemIds(a + b) == ItemIds(a) + ItemIds(b)
  {
    if b == [] {
      assert a + b == a;
    } else {
      var front, last := b[..|b| - 1], b[|b| - 1];
      ItemIdsAdd(a, front);
      assert (a + b)[..|a + b| - 1] == a + front && (a + b)[|a + b| - 1] == last;
      Regroup(ItemIds(a), ItemIds(front), if last.Sub? then RuleIds(last.t) else []);
    }
  }

  lemma ItemIdsOne(item: Item)
    ensures ItemIds([item]) == if item.Sub? then RuleIds(item.t) else []
  {
    assert [item][..0] == [];
  }

  lemma {:induction false} SqueezeKeepsIds(items: seq<Item>)
    ensures ItemIds(Squeeze(items)) == ItemIds(items)
  {
    if items != [] {
      var front, last := items[..|items| - 1], items[|items| - 1];
      SqueezeKeepsIds(front);
      if last == Tok("") {
        assert Squeeze(front) + [] == Squeeze(front);
      } else {
        assert (Squeeze(front) + [last])[..|Squeeze(front)|] == Squeeze(front);
      }
    }
  }

  lemma TokSubIds(s: string, t: Tree)
    ensures ItemIds(TokItem(s)) == []
    ensures ItemIds(SubItem(t)) == RuleIds(t)
  {
    ItemIdsOne(Tok(s));
    ItemIdsOne(Sub(t));
  }

  /** The id that a node adds to those of its children. */
  function OwnId(t: Tree): seq<nat>
    requires t.Node?
  {
    if t.info.typ == UNKNOWN then [] else [t.info.sid]
  }

  lemma NodeItemsIds(t: Tree)
    requires t.Node? && t.info.op.Some?
    ensures ItemIds(NodeItems(t)) == RuleIds(t.left) + RuleIds(t.right)
  {
    var op := t.info.op.value;
    var a, b, c := TokItem(op.prefix), SubItem(t.left), TokItem(op.middle);
    TokSubIds(op.prefix, t.left); TokSubIds(op.middle, t.right); TokSubIds(op.suffix, t.right);
    ItemIdsAdd(a, b);
    assert [] + RuleIds(t.left) == RuleIds(t.left);
    ItemIdsAdd(a + b, c);
    assert RuleIds(t.left) + [] == RuleIds(t.left);
    ItemIdsAdd(a + b + c, SubItem(t.right));
    ItemIdsAdd(a + b + c + SubItem(t.right), TokItem(op.suffix));
  }

  lemma FoldAllIds(t: Tree, items: seq<Item>)
    requires t.Node? && t.info.op.Some? && NodeItems(t) == Squeeze(items)
    ensures RuleIds(t) == ItemIds(items) + OwnId(t)
  {
    NodeItemsIds(t);
    SqueezeKeepsIds(items);
  }

  lemma FoldStepIds(t: Tree, front: seq<Item>, rest: seq<Item>)
    requires t.Node? && t.info.op.Some?
    requires NodeItems(t) == [Sub(t.left)] + Squeeze(rest) && RuleIds(t.left) == ItemIds(front)
    ensures RuleIds(t) == ItemIds(front + rest) + OwnId(t)
  {
    NodeItemsIds(t);
    SqueezeKeepsIds(rest);
    ItemIdsOne(Sub(t.left));
    ItemIdsAdd([Sub(t.left)], Squeeze(rest));
    ItemIdsAdd(front, rest);
  }

  /** Folding adds no rule-typed node but the root: the intermediates are all of unknown type. */
  lemma {:induction false} FoldKeepsIds(t: Tree, items: seq<Item>, typ: IRType)
    requires Folds(t, items, typ)
    ensures RuleIds(t) == ItemIds(items) + OwnId(t)
    decreases |items|
  {
    var k := FoldsCase(t, items, typ);
    if k == 0 {
      FoldAllIds(t, items);
    } else {
      FoldKeepsIds(t.left, items[..k], UNKNOWN);
      assert RuleIds(t.left) == ItemIds(items[..k]) by {
        assert ItemIds(items[..k]) + [] == ItemIds(items[..k]);
      }
      FoldStepIds(t, items[..k], items[k..]);
      assert items[..k] + items[k..] == items;
    }
  }

  // ---------------------------------------------------------------------------------------------
  // ExtractOneIR
  // ---------------------------------------------------------------------------------------------

  datatype OneIR = OneIR(prefix: Option<string>, middle: Option<string>, suffix: Option<string>,
                         left: Option<Tree>, right: Option<Tree>)

  function OptTok(o: Option<string>): seq<Item> {
    if o.Some? then [Tok(o.value)] else []
  }

  function OptSub(o: Option<Tree>): seq<Item> {
    if o.Some? then [Sub(o.value)] else []
  }

  /** The filled slots, read prefix, left, middle, right, suffix. */
  function Reading(one: OneIR): seq<Item> {
    OptTok(one.prefix) + OptSub(one.left) + OptTok(one.middle) + OptSub(one.right) + OptTok(one.suffix)
  }

  /** A slot is filled only after the slots that come before it could not be left empty. */
  predicate Settled(one: OneIR) {
    && (one.middle.Some? ==> one.prefix.Some? || one.left.Some?)
    && (one.right.Some? ==> one.left.Some? || one.middle.Some?)
    && (one.suffix.Some? ==> one.middle.Some? || one.right.Some?)
  }

  /** No slot is left for `item`. */
  predicate Full(one: OneIR, item: Item) {
    one.suffix.Some? || (one.right.Some? && item.Sub?)
  }

  /** The body of the loop: the first slot that is free and not passed over yet takes the item. */
  method Place(one: OneIR, im: Item) returns (placed: bool, next: OneIR)
    requires Settled(one)
    ensures placed ==> Settled(next) && Reading(next) == Reading(one) + [im]
    ensures !placed ==> next == one && Full(one, im)
  {
    next := one;
    placed := true;
    match im {
      case Tok(s) =>
        if one.left.None? && one.prefix.None? {
          next := one.(prefix := Some(s));
          assert Reading(one) == [];
        } else if one.middle.None? && one.right.None? {
          next := one.(middle := Some(s));
          assert Reading(one) == OptTok(one.prefix) + OptSub(one.left);
        } else if one.suffix.None? {
          next := one.(suffix := Some(s));
        } else {
          placed := false;
        }
      case Sub(t) =>
        if one.left.None? && one.middle.None? {
          next := one.(left := Some(t));
          assert Reading(one) == OptTok(one.prefix);
        } else if one.right.None? && one.suffix.None? {
          next := one.(right := Some(t));
          assert Reading(one) == OptTok(one.prefix) + OptSub(one.left) + OptTok(one.middle);
        } else {
          placed := false;
        }
    }
  }

  /** Filled slots are at most five, so a full record holds at least two items. */
  lemma FullHoldsTwo(one: OneIR, item: Item)
    requires Settled(one) && Full(one, item)
    ensures |Reading(one)| >= 2
  {
  }

  /** The slots take the longest run of items from the top of the stack that fits, in order; at least
      two of them when there are two. */
  method ExtractOneIR(stk: seq<Item>) returns (one: OneIR, rest: seq<Item>)
    ensures stk == Reading(one) + rest
    ensures Settled(one)
    ensures |stk| >= 2 ==> |Reading(one)| >= 2
    ensures |stk| >= 1 ==> |Reading(one)| >= 1
    ensures rest != [] ==> Full(one, rest[0])
  {
    one, rest := OneIR(None, None, None, None, None), stk;
    while rest != []
      invariant stk == Reading(one) + rest
      invariant Settled(one)
      decreases |rest|
    {
      var im := rest[0];
      var placed, next := Place(one, im);
      if !placed {
        FullHoldsTwo(one, im);
        break;
      }
      Regroup(Reading(one), [im], rest[1..]);
      assert [im] + rest[1..] == rest;
      one, rest := next, rest[1..];
    }
  }

  // ---------------------------------------------------------------------------------------------
  // The fold loop of TranslateNode
  // ---------------------------------------------------------------------------------------------

  /** The IR constructor: a new node takes the next statement id; its scope id is not initialised. */
  method NewNode(typ: IRType, op: Option<Op>, data: Data, left: Tree, right: Tree, counter: nat)
    returns (t: Tree, counter': nat)
    ensures t.Node? && t.left == left && t.right == right
    ensures t.info.(scopeId := 0) == Info(typ, op, data, DataDefault, ScopeDefault, counter, 0)
    ensures counter' == counter + 1
  {
    var junk: nat :| true;
    t := Node(Info(typ, op, data, DataDefault, ScopeDefault, counter, junk), left, right);
    counter' := counter + 1;
  }

  function TextOrEmpty(o: Option<string>): string {
    if o.Some? then o.value else ""
  }

  function TreeOrNil(o: Option<Tree>): Tree {
    if o.Some? then o.value else Nil
  }

  /** The trees on the stack carry ids below the counter and are well ordered in themselves. */
  ghost predicate GoodItems(items: seq<Item>, lo: nat, hi: nat) {
    forall i :: 0 <= i < |items| && items[i].Sub? ==>
      items[i].t.Node? && IdsIn(items[i].t, lo, hi) && WellMade(items[i].t)
  }

  lemma {:induction false} SqueezeAdd(a: seq<Item>, b: seq<Item>)
    ensures Squeeze(a + b) == Squeeze(a) + Squeeze(b)
  {
    if b == [] {
      assert a + b == a;
    } else {
      var front, last := b[..|b| - 1], b[|b| - 1];
      SqueezeAdd(a, front);
      assert (a + b)[..|a + b| - 1] == a + front && (a + b)[|a + b| - 1] == last;
      Regroup(Squeeze(a), Squeeze(front), if last == Tok("") then [] else [last]);
    }
  }

  lemma SqueezeAdd5(a: seq<Item>, b: seq<Item>, c: seq<Item>, d: seq<Item>, e: seq<Item>)
    ensures Squeeze(a + b + c + d + e) == Squeeze(a) + Squeeze(b) + Squeeze(c) + Squeeze(d) + Squeeze(e)
  {
    SqueezeAdd(a, b);
    SqueezeAdd(a + b, c);
    SqueezeAdd(a + b + c, d);
    SqueezeAdd(a + b + c + d, e);
  }

  lemma SqueezeOne(item: Item)
    ensures Squeeze([item]) == if item == Tok("") then [] else [item]
  {
    assert [item][..0] == [];
  }

  lemma SqueezeTok(o: Option<string>)
    ensures Squeeze(OptTok(o)) == TokItem(TextOrEmpty(o))
  {
    if o.Some? {
      SqueezeOne(Tok(o.value));
    }
  }

  lemma SqueezeSub(o: Option<Tree>)
    requires o.Some? ==> o.value.Node?
    ensures Squeeze(OptSub(o)) == SubItem(TreeOrNil(o))
  {
    if o.Some? {
      SqueezeOne(Sub(o.value));
    }
  }

  /** The node built from the slots has the squeezed reading as its items. */
  lemma NodeFromSlots(one: OneIR, t: Tree)
    requires one.left.Some? ==> one.left.value.Node?
    requires one.right.Some? ==> one.right.value.Node?
    requires t.Node? && t.left == TreeOrNil(one.left) && t.right == TreeOrNil(one.right)
    requires t.info.op == Some(Op(TextOrEmpty(one.prefix), TextOrEmpty(one.middle), TextOrEmpty(one.suffix)))
    ensures NodeItems(t) == Squeeze(Reading(one))
  {
    SqueezeTok(one.prefix); SqueezeTok(one.middle); SqueezeTok(one.suffix);
    SqueezeSub(one.left); SqueezeSub(one.right);
    SqueezeAdd5(OptTok(one.prefix), OptSub(one.left), OptTok(one.middle), OptSub(one.right), OptTok(one.suffix));
  }

  /** The stack is the original one, or an intermediate that folds the first `k` items on top of the
      others. */
  ghost predicate Partly(items: seq<Item>, stk: seq<Item>, k: nat) {
    if k == 0 then stk == items
    else
      && k <= |items| && stk != [] && stk == [stk[0]] + items[k..]
      && stk[0].Sub? && Folds(stk[0].t, items[..k], UNKNOWN)
      && stk[0].t.info.dataType == DataDefault && stk[0].t.info.scopeType == ScopeDefault
  }

  lemma FirstOfReading(one: OneIR)
    requires Settled(one) && Reading(one) != []
    ensures one.prefix.Some? ==> Reading(one)[0] == Tok(one.prefix.value)
    ensures one.prefix.None? ==> one.left.Some? && Reading(one)[0] == Sub(one.left.value)
  {
  }

  /** A pass over untouched items folds a first run of them. */
  lemma FirstPassFolds(items: seq<Item>, one: OneIR, rest: seq<Item>, t: Tree) returns (k': nat)
    requires items == Reading(one) + rest && |Reading(one)| >= 1
    requires t.Node? && t.info.op.Some? && t.info.data == NoData && NodeItems(t) == Squeeze(Reading(one))
    ensures 0 < k' <= |items| && rest == items[k'..]
    ensures Folds(t, items[..k'], t.info.typ)
  {
    k' := |Reading(one)|;
    assert items[..k'] == Reading(one);
  }

  /** A pass that starts with the intermediate that folds `done` folds a longer run. */
  lemma LaterPassFolds(done: seq<Item>, more: seq<Item>, inner: Tree, t: Tree)
    requires done != [] && more != [] && Folds(inner, done, UNKNOWN)
    requires inner.info.dataType == DataDefault && inner.info.scopeType == ScopeDefault
    requires t.Node? && t.info.op.Some? && t.info.data == NoData && t.left == inner
    requires NodeItems(t) == Squeeze([Sub(inner)] + more)
    ensures Folds(t, done + more, t.info.typ)
  {
    SqueezeAdd([Sub(inner)], more);
    SqueezeOne(Sub(inner));
    var taken, k := done + more, |done|;
    assert taken[..k] == done && taken[k..] == more;
    assert FoldsAt(t, taken, k);
    assert FoldsOn(t, taken);
  }

  /** Where a pass that starts with an intermediate ends among the items. */
  lemma SplitPass(items: seq<Item>, k: nat, top: Item, taken: seq<Item>, rest: seq<Item>) returns (k': nat)
    requires k <= |items| && |taken| >= 2 && [top] + items[k..] == taken + rest
    ensures k < k' <= |items| && taken == [top] + items[k..k'] && rest == items[k'..]
    ensures items[..k] + items[k..k'] == items[..k']
  {
    var stk := taken + rest;
    k' := k + |taken| - 1;
    assert |stk| == 1 + |items| - k;
    assert taken == stk[..|taken|] && rest == stk[|taken|..];
  }

  /** One pass of the loop: the new node folds the first `k'` items. */
  lemma PassFolds(items: seq<Item>, stk: seq<Item>, k: nat, one: OneIR, rest: seq<Item>, t: Tree) returns (k': nat)
    requires Partly(items, stk, k) && k < |items| && stk == Reading(one) + rest && Settled(one)
    requires |Reading(one)| >= if k > 0 then 2 else 1
    requires t.Node? && t.info.op.Some? && t.info.data == NoData
    requires t.left == TreeOrNil(one.left) && NodeItems(t) == Squeeze(Reading(one))
    ensures 0 < k' <= |items| && rest == items[k'..]
    ensures Folds(t, items[..k'], t.info.typ)
  {
    if k == 0 {
      k' := FirstPassFolds(items, one, rest, t);
    } else {
      k' := SplitPass(items, k, stk[0], Reading(one), rest);
      FirstOfReading(one);
      assert Reading(one)[0] == stk[0];
      LaterPassFolds(items[..k], items[k..k'], stk[0].t, t);
    }
  }

  /** The do/while loop: it terminates, since a pass over two or more items consumes at least two, with
      one node of the rule's type that folds all items; its id is the largest. */
  method Fold(items: seq<Item>, rule: IRType, lo: nat, counter: nat) returns (t: Tree, counter': nat)
    requires items != [] && lo <= counter && GoodItems(items, lo, counter)
    ensures Folds(t, items, rule)
    ensures t.info.dataType == DataDefault && t.info.scopeType == ScopeDefault
    ensures counter < counter' == t.info.sid + 1
    ensures IdsIn(t, lo, counter') && WellMade(t)
  {
    var stk := items;
    counter' := counter;
    ghost var k: nat := 0;
    var more := true;
    t := Nil;
    while more
      invariant counter <= counter'
      invariant more ==> k < |items| && Partly(items, stk, k) && GoodItems(stk, lo, counter')
      invariant more && k > 0 ==> |stk| >= 2
      invariant !more ==> Folds(t, items, rule) && t.info.dataType == DataDefault && t.info.scopeType == ScopeDefault
      invariant !more ==> counter < counter' == t.info.sid + 1 && IdsIn(t, lo, counter') && WellMade(t)
      decreases more, |stk|
    {
      ghost var size := |stk|;
      t, stk, counter', k := Pass(items, stk, rule, lo, counter', k);
      if stk == [] {
        more := false;
        assert items[..k] == items;
      } else {
        stk := [Sub(t)] + stk;
        assert stk[0] == Sub(t);
      }
    }
  }

  /** One pass: fill the slots, make the node. */
  method Pass(ghost items: seq<Item>, stk: seq<Item>, rule: IRType, ghost lo: nat, counter: nat, ghost k: nat)
    returns (t: Tree, rest: seq<Item>, counter': nat, ghost k': nat)
    requires k < |items| && Partly(items, stk, k) && GoodItems(stk, lo, counter) && lo <= counter
    requires k > 0 ==> |stk| >= 2
    ensures 0 < k' <= |items| && rest == items[k'..]
    ensures Folds(t, items[..k'], if rest == [] then rule else UNKNOWN)
    ensures t.info.dataType == DataDefault && t.info.scopeType == ScopeDefault
    ensures counter' == counter + 1 == t.info.sid + 1
    ensures IdsIn(t, lo, counter') && WellMade(t)
    ensures GoodItems(rest, lo, counter')
    ensures |stk| >= 2 ==> |rest| + 2 <= |stk|
  {
    hide Folds, Squeeze, NodeItems, Reading, Settled, GoodItems;
    var one;
    one, rest := ExtractOneIR(stk);
    GoodSlots(stk, one, rest, lo, counter);
    var left, right := TreeOrNil(one.left), TreeOrNil(one.right);
    var op := Op(TextOrEmpty(one.prefix), TextOrEmpty(one.middle), TextOrEmpty(one.suffix));
    t, counter' := NewNode(if rest == [] then rule else UNKNOWN, Some(op), NoData, left, right, counter);
    assert t.info.op == t.info.(scopeId := 0).op && t.info.typ == t.info.(scopeId := 0).typ;
    NodeFromSlots(one, t);
    k' := PassFolds(items, stk, k, one, rest, t);
  }

  lemma GoodSlots(stk: seq<Item>, one: OneIR, rest: seq<Item>, lo: nat, hi: nat)
    requires stk == Reading(one) + rest && GoodItems(stk, lo, hi) && lo <= hi
    ensures one.left.Some? ==> one.left.value.Node?
    ensures one.right.Some? ==> one.right.value.Node?
    ensures forall o :: o == one.left || o == one.right ==>
      IdsIn(TreeOrNil(o), lo, hi + 1) && IdsIn(TreeOrNil(o), 0, hi) && WellMade(TreeOrNil(o))
    ensures GoodItems(rest, lo, hi + 1)
  {
    var all := Reading(one);
    forall o | o == one.left || o == one.right
      ensures o.Some? ==> o.value.Node?
      ensures IdsIn(TreeOrNil(o), lo, hi + 1) && IdsIn(TreeOrNil(o), 0, hi) && WellMade(TreeOrNil(o))
    {
      if o.Some? {
        var i := if o == one.left then |OptTok(one.prefix)|
                 else |OptTok(one.prefix) + OptSub(one.left) + OptTok(one.middle)|;
        assert all[i] == Sub(o.value);
        assert stk[i] == Sub(o.value);
        IdsInWiden(o.value, lo, hi, lo, hi + 1);
        IdsInWiden(o.value, lo, hi, 0, hi);
      }
    }
    forall i | 0 <= i < |rest| && rest[i].Sub?
      ensures rest[i].t.Node? && IdsIn(rest[i].t, lo, hi + 1) && WellMade(rest[i].t)
    {
      assert stk[|all| + i] == rest[i];
      IdsInWiden(rest[i].t, lo, hi, lo, hi + 1);
    }
  }

  // ---------------------------------------------------------------------------------------------
  // TranslateNode
  // ---------------------------------------------------------------------------------------------

  /** Null pointer, failed assertion, or a tree. */
  datatype Result = Null | Abort | Built(t: Tree)

  /** Rule indices never collide with the marker of intermediates. */
  predicate RulesKnown(pt: ParseTree) {
    pt.Rule? ==> pt.rule != UNKNOWN && forall i :: 0 <= i < |pt.children| ==> RulesKnown(pt.children[i])
  }

  /** What a translation says about ids: the node took the last id, every node's id exceeds those of
      its descendants, and the rule-typed nodes have ascending ids in post-order. */
  ghost predicate WellNumbered(t: Tree, lo: nat, hi: nat) {
    && t.Node? && hi == t.info.sid + 1 && t.info.typ != UNKNOWN
    && IdsIn(t, lo, hi) && WellMade(t) && Ascending(RuleIds(t))
  }

  /** The items of the children translated so far, with ids between `lo` and `hi`. */
  ghost predicate ItemsSoFar(nums: Numbers, cs: seq<ParseTree>, items: seq<Item>, lo: nat, hi: nat) {
    && ItemsOf(nums, cs, items) && GoodItems(items, lo, hi)
    && Ascending(ItemIds(items)) && AllBelow(ItemIds(items), lo, hi)
  }

  /** Copying the temporary stack onto the working stack restores the order of the children. */
  method Reverse(tmp: seq<Item>) returns (stk: seq<Item>)
    ensures stk == tmp
  {
    stk := [];
    var left := tmp;
    while left != []
      invariant left + stk == tmp
      decreases |left|
    {
      Regroup(left[..|left| - 1], [left[|left| - 1]], stk);
      stk, left := [left[|left| - 1]] + stk, left[..|left| - 1];
    }
  }

  /** Translation of a rule node: it builds, vanishes or fails exactly as `StatusOf` says; a built tree
      is a translation of the node and well numbered. */
  method TranslateNode(nums: Numbers, pt: ParseTree, counter: nat) returns (res: Result, counter': nat)
    requires pt.Rule? && RulesKnown(pt)
    ensures counter <= counter'
    ensures match StatusOf(pt)
      case Vanishes => res == Null
      case Fails => res == Abort
      case Builds => res.Built? && Translates(nums, pt, res.t) && WellNumbered(res.t, counter, counter')
    decreases pt, 1
  {
    counter' := counter;
    var t: Tree;
    match pt.literal {
      case StringLiteral =>
        t, counter' := NewNode(pt.rule, None, Str(TextOf(pt)), Nil, Nil, counter);
      case IntLiteral =>
        t, counter' := NewNode(pt.rule, None, Int(nums.stoi(TextOf(pt))), Nil, Nil, counter);
      case Plain =>
        if pt.children == [] {
          return Null, counter;
        }
        var failed, tmp;
        failed, tmp, counter' := TranslateChildren(nums, pt, counter);
        if failed {
          return Abort, counter';
        }
        if tmp == [] {
          if TextOf(pt) == EOF_TEXT || TextOf(pt) == "" {
            return Null, counter';
          }
          return Abort, counter';
        }
        var stk := Reverse(tmp);
        ghost var ids := counter';
        t, counter' := Fold(stk, pt.rule, counter, counter');
        NumberFold(t, stk, pt.rule, counter, ids);
    }
    ghost var folded := t;
    t := t.(info := t.info.(dataType := pt.dataType));
    if pt.scopeType != ScopeDefault {
      t := t.(info := t.info.(scopeType := pt.scopeType));
    }
    if pt.literal == Plain {
      assert t.info == folded.info.(dataType := pt.dataType, scopeType := pt.scopeType);
      Relabel(folded, t);
    }
    res := Built(t);
  }

  /** Setting the data and scope type of the root changes nothing else. */
  lemma Relabel(t: Tree, t': Tree)
    requires t.Node? && t'.Node? && t'.left == t.left && t'.right == t.right
    requires t'.info == t.info.(dataType := t'.info.dataType, scopeType := t'.info.scopeType)
    ensures forall items, typ :: Folds(t, items, typ) ==> Folds(t', items, typ)
    ensures forall lo, hi :: WellNumbered(t, lo, hi) ==> WellNumbered(t', lo, hi)
  {
    forall items, typ | Folds(t, items, typ)
      ensures Folds(t', items, typ)
    {
      assert NodeItems(t') == NodeItems(t);
      if NodeItems(t) != Squeeze(items) {
        assert FoldsOn(t, items);
        var k :| 0 < k < |items| && FoldsAt(t, items, k);
        assert FoldsAt(t', items, k);
        assert FoldsOn(t', items);
      }
    }
  }

  lemma NumberFold(t: Tree, items: seq<Item>, rule: IRType, lo: nat, hi: nat)
    requires Folds(t, items, rule) && rule != UNKNOWN && hi <= t.info.sid
    requires IdsIn(t, lo, t.info.sid + 1) && WellMade(t)
    requires Ascending(ItemIds(items)) && AllBelow(ItemIds(items), lo, hi)
    ensures WellNumbered(t, lo, t.info.sid + 1)
  {
    FoldKeepsIds(t, items, rule);
    AscendingAdd(ItemIds(items), [t.info.sid], lo, t.info.sid, t.info.sid + 1);
  }

  /** The loop over the children: terminals become strings, rule nodes are translated, what vanishes is
      skipped. */
  method TranslateChildren(nums: Numbers, pt: ParseTree, counter: nat)
    returns (failed: bool, tmp: seq<Item>, counter': nat)
    requires pt.Rule? && pt.literal == Plain && RulesKnown(pt)
    ensures counter <= counter'
    ensures failed <==> !NoneFails(pt.children)
    ensures !failed ==> ItemsSoFar(nums, pt.children, tmp, counter, counter')
    ensures !failed ==> (tmp == [] <==> NoneSurvives(pt.children))
    decreases pt, 0
  {
    failed, tmp, counter' := false, [], counter;
    var cs := pt.children;
    for i := 0 to |cs|
      invariant counter <= counter' && !failed
      invariant NoneFails(cs[..i])
      invariant ItemsSoFar(nums, cs[..i], tmp, counter, counter')
      invariant tmp == [] <==> NoneSurvives(cs[..i])
    {
      assert cs[..i + 1] == cs[..i] + [cs[i]];
      failed, tmp, counter' := TranslateChild(nums, cs[i], cs[..i], tmp, counter, counter');
      OneMore(cs[..i], cs[i]);
      if failed {
        return;
      }
    }
    assert cs[..|cs|] == cs;
  }

  lemma OneMore(front: seq<ParseTree>, c: ParseTree)
    ensures NoneFails(front + [c]) <==> NoneFails(front) && !(c.Rule? && StatusOf(c) == Fails)
    ensures NoneSurvives(front + [c]) <==> NoneSurvives(front) && !Survives(c)
  {
    var cs := front + [c];
    assert cs[|front|] == c;
    assert forall i :: 0 <= i < |front| ==> front[i] == cs[i];
  }

  /** The body of the loop for one child. */
  method TranslateChild(nums: Numbers, c: ParseTree, ghost before: seq<ParseTree>, tmp: seq<Item>, ghost lo: nat,
                        counter: nat)
    returns (failed: bool, tmp': seq<Item>, counter': nat)
    requires RulesKnown(c) && lo <= counter && ItemsSoFar(nums, before, tmp, lo, counter)
    ensures counter <= counter'
    ensures failed <==> c.Rule? && StatusOf(c) == Fails
    ensures !failed ==> ItemsSoFar(nums, before + [c], tmp', lo, counter')
    ensures !failed ==> (tmp' == [] <==> tmp == [] && !Survives(c))
    decreases c, 2
  {
    failed, tmp', counter' := false, tmp, counter;
    if c.Terminal? {
      if c.text != EOF_TEXT {
        PushItem(nums, before, c, tmp, Tok(c.text), lo, counter, counter);
        tmp' := tmp + [Tok(c.text)];
      } else {
        SkipItem(nums, before, c, tmp, lo, counter, counter);
      }
    } else {
      var child;
      child, counter' := TranslateNode(nums, c, counter);
      match child {
        case Abort =>
          failed := true;
        case Null =>
          SkipItem(nums, before, c, tmp, lo, counter, counter');
        case Built(t) =>
          PushItem(nums, before, c, tmp, Sub(t), lo, counter, counter');
          tmp' := tmp + [Sub(t)];
      }
    }
  }

  lemma GoodItemsWiden(items: seq<Item>, lo: nat, hi: nat, hi': nat)
    requires GoodItems(items, lo, hi) && hi <= hi'
    ensures GoodItems(items, lo, hi')
  {
    forall i | 0 <= i < |items| && items[i].Sub?
      ensures IdsIn(items[i].t, lo, hi')
    {
      IdsInWiden(items[i].t, lo, hi, lo, hi');
    }
  }

  lemma SkipItem(nums: Numbers, cs: seq<ParseTree>, c: ParseTree, items: seq<Item>, lo: nat, hi: nat, hi': nat)
    requires ItemsSoFar(nums, cs, items, lo, hi) && hi <= hi' && !Survives(c)
    ensures ItemsSoFar(nums, cs + [c], items, lo, hi')
  {
    assert (cs + [c])[..|cs|] == cs;
    GoodItemsWiden(items, lo, hi, hi');
  }

  /** A new last item, whose ids were taken after those of the items before it. */
  lemma PushItem(nums: Numbers, cs: seq<ParseTree>, c: ParseTree, items: seq<Item>, item: Item, lo: nat, hi: nat,
                 hi': nat)
    requires ItemsSoFar(nums, cs, items, lo, hi) && lo <= hi <= hi'
    requires Survives(c) && ItemFor(nums, c, item)
    requires item.Sub? ==> WellNumbered(item.t, hi, hi')
    ensures ItemsSoFar(nums, cs + [c], items + [item], lo, hi')
  {
    var all := items + [item];
    assert (cs + [c])[..|cs|] == cs && all[..|items|] == items;
    GoodItemsWiden(items, lo, hi, hi');
    if item.Sub? {
      IdsInWiden(item.t, hi, hi', lo, hi');
      RuleIdsIn(item.t, hi, hi');
      AscendingAdd(ItemIds(items), RuleIds(item.t), lo, hi, hi');
    } else {
      assert ItemIds(all) == ItemIds(items) + [];
    }
  }

  // ---------------------------------------------------------------------------------------------
  // Ids and positions in the text
  // ---------------------------------------------------------------------------------------------

  /** A rule-typed node's id occurs in the list, at a position inside its subtree's part. */
  lemma {:induction false} RuleIdListed(t: Tree, p: Path) returns (i: nat)
    requires Has(t, p) && At(t, p).info.typ != UNKNOWN
    ensures i < |RuleIds(t)| && RuleIds(t)[i] == At(t, p).info.sid
    decreases |p|
  {
    if p == [] {
      i := |RuleIds(t)| - 1;
    } else {
      var j := RuleIdListed(Child(t, p[0]), p[1..]);
      i := if p[0] == L then j else |RuleIds(t.left)| + j;
    }
  }

  /** For rule-typed nodes of a well-numbered tree, the one whose text comes first has the smaller id;
      intermediates are excluded. */
  lemma {:induction false} TextOrderIsIdOrder(t: Tree, p: Path, q: Path)
    requires Ascending(RuleIds(t)) && Has(t, p) && Has(t, q) && LeftOf(p, q)
    requires At(t, p).info.typ != UNKNOWN && At(t, q).info.typ != UNKNOWN
    ensures At(t, p).info.sid < At(t, q).info.sid
    decreases |p|
  {
    var left, right := RuleIds(t.left), RuleIds(t.right);
    var all := RuleIds(t);
    assert all == left + right + OwnId(t);
    if p[0] == q[0] {
      var sub := RuleIds(Child(t, p[0]));
      var from := if p[0] == L then 0 else |left|;
      forall i, j | 0 <= i < j < |sub|
        ensures sub[i] < sub[j]
      {
        assert all[from + i] == sub[i] && all[from + j] == sub[j];
      }
      TextOrderIsIdOrder(Child(t, p[0]), p[1..], q[1..]);
    } else {
      var i := RuleIdListed(t.left, p[1..]);
      var j := RuleIdListed(t.right, q[1..]);
      assert all[i] == left[i] && all[|left| + j] == right[j];
    }
  }

  lemma {:induction false} DisjointPathsHaveSides(p: Path, q: Path)
    requires Disjoint(p, q)
    ensures LeftOf(p, q) <==> !LeftOf(q, p)
    decreases |p|
  {
    if p[0] == q[0] {
      PrefixTail(p, q);
      PrefixTail(q, p);
      DisjointPathsHaveSides(p[1..], q[1..]);
    }
  }

  /** Every node of a well made tree is plain. */
  lemma {:induction false} WellMadeAt(t: Tree, p: Path)
    requires WellMade(t) && Has(t, p)
    ensures IsPlain(At(t, p))
  {
    if p != [] {
      WellMadeAt(Child(t, p[0]), p[1..]);
    }
  }

  lemma {:induction false} IdsInAt(t: Tree, lo: nat, hi: nat, p: Path)
    requires IdsIn(t, lo, hi) && Has(t, p)
    ensures lo <= At(t, p).info.sid < hi
  {
    if p != [] {
      IdsInAt(Child(t, p[0]), lo, hi, p[1..]);
    }
  }

  /** Every node's id exceeds the ids of its proper descendants, intermediates included. */
  lemma {:induction false} DescendantsAreOlder(t: Tree, p: Path, q: Path)
    requires WellMade(t) && Has(t, q) && p < q
    ensures Has(t, p) && At(t, q).info.sid < At(t, p).info.sid
    decreases |p|
  {
    if p == [] {
      IdsInAt(Child(t, q[0]), 0, t.info.sid, q[1..]);
    } else {
      assert p[0] == q[0] && p[1..] < q[1..];
      DescendantsAreOlder(Child(t, p[0]), p[1..], q[1..]);
    }
  }

  lemma {:induction false} PrefixIsNoSide(p: Path, q: Path)
    requires p <= q
    ensures !LeftOf(p, q) && !LeftOf(q, p)
    decreases |p|
  {
    if p != [] {
      PrefixTail(p, q);
      PrefixIsNoSide(p[1..], q[1..]);
    }
  }

  /** Both directions, for all places of two rule-typed nodes: a node has the smaller id exactly if it is below
      the other node or to the left of it. */
  lemma IdOrderIff(t: Tree, lo: nat, hi: nat, p: Path, q: Path)
    requires WellNumbered(t, lo, hi) && Has(t, p) && Has(t, q)
    requires At(t, p).info.typ != UNKNOWN && At(t, q).info.typ != UNKNOWN
    ensures At(t, p).info.sid < At(t, q).info.sid <==> q < p || LeftOf(p, q)
  {
    if p == q {
      PrefixIsNoSide(p, q);
    } else if p <= q {
      PrefixIsNoSide(p, q);
      assert !(q <= p);
      DescendantsAreOlder(t, p, q);
    } else if q <= p {
      DescendantsAreOlder(t, q, p);
    } else {
      DisjointPathsHaveSides(p, q);
      if LeftOf(p, q) {
        TextOrderIsIdOrder(t, p, q);
      } else {
        TextOrderIsIdOrder(t, q, p);
      }
    }
  }
}
