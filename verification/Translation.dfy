/** From a parse tree to the binary IR (srcs/antlr/ir_translater.cpp). */
module Translation {
  import opened Common
  import opened IrTree
  import opened Trimming

  const EOF_TEXT := "<EOF>"

  datatype Literal = Plain | StringLiteral | IntLiteral

  datatype ParseTree =
    | Terminal(text: string)
    | Rule(rule: IRType, literal: Literal, dataType: DataType, scopeType: ScopeType, children: seq<ParseTree>)

  /** The number formatting and parsing of the libraries. */
  datatype Numbers = Numbers(fmt: Format, stoi: string -> int)

  /** getText: the concatenated text of the terminals. */
  function TextOf(pt: ParseTree): string
    decreases pt
  {
    match pt
    case Terminal(s) => s
    case Rule(_, _, _, _, cs) => TextOfAll(cs)
  }

  function TextOfAll(cs: seq<ParseTree>): string
    decreases cs
  {
    if cs == [] then "" else TextOfAll(cs[..|cs| - 1]) + TextOf(cs[|cs| - 1])
  }

  /** The texts of the children follow each other from left to right. */
  lemma {:induction false} TextOfAllAdd(a: seq<ParseTree>, b: seq<ParseTree>)
    ensures TextOfAll(a + b) == TextOfAll(a) + TextOfAll(b)
    ensures |b| == 1 ==> TextOfAll(b) == TextOf(b[0])
    decreases |b|
  {
    if b == [] {
      assert a + b == a;
    } else {
      var front, last := b[..|b| - 1], b[|b| - 1];
      assert (a + b)[..|a + b| - 1] == a + front && (a + b)[|a + b| - 1] == last;
      TextOfAllAdd(a, front);
      Regroup(TextOfAll(a), TextOfAll(front), TextOf(last));
    }
  }

  // ---------------------------------------------------------------------------------------------
  // Specification: what a rule node becomes
  // ---------------------------------------------------------------------------------------------

  datatype Status = Vanishes | Fails | Builds

  /** A child leaves an item for its parent. */
  predicate Survives(c: ParseTree)
    decreases c, 1
  {
    match c
    case Terminal(s) => s != EOF_TEXT
    case Rule(_, _, _, _, _) => StatusOf(c) == Builds
  }

  predicate NoneFails(cs: seq<ParseTree>)
    decreases cs, 2
  {
    forall i :: 0 <= i < |cs| && cs[i].Rule? ==> StatusOf(cs[i]) != Fails
  }

  predicate NoneSurvives(cs: seq<ParseTree>)
    decreases cs, 2
  {
    forall i :: 0 <= i < |cs| ==> !Survives(cs[i])
  }

  /** A plain rule node fails (an assertion of the source) when a descendant fails, or when nothing
      survives although its text is neither empty nor a single end of file. */
  function StatusOf(pt: ParseTree): Status
    decreases pt, 0
  {
    match pt
    case Terminal(_) => Vanishes
    case Rule(_, literal, _, _, cs) =>
      if literal != Plain then Builds
      else if cs == [] then Vanishes
      else if !NoneFails(cs) then Fails
      else if !NoneSurvives(cs) then Builds
      else if TextOfAll(cs) == EOF_TEXT || TextOfAll(cs) == "" then Vanishes
      else Fails
  }

  // ---------------------------------------------------------------------------------------------
  // When a rule node vanishes or fails
  // ---------------------------------------------------------------------------------------------

  /** Only plain rule nodes, and no terminal but the end of file. */
  predicate Blank(pt: ParseTree)
    decreases pt
  {
    match pt
    case Terminal(s) => s == EOF_TEXT
    case Rule(_, literal, _, _, cs) => literal == Plain && forall i :: 0 <= i < |cs| ==> Blank(cs[i])
  }

  /** How often the end of file occurs. */
  function Ends(pt: ParseTree): nat
    decreases pt
  {
    match pt
    case Terminal(s) => if s == EOF_TEXT then 1 else 0
    case Rule(_, _, _, _, cs) => EndsOfAll(cs)
  }

  function EndsOfAll(cs: seq<ParseTree>): nat
    decreases cs
  {
    if cs == [] then 0 else EndsOfAll(cs[..|cs| - 1]) + Ends(cs[|cs| - 1])
  }

  /** The path leads through plain rule nodes to a plain rule node. */
  predicate PlainPath(pt: ParseTree, path: seq<nat>)
    decreases |path|
  {
    && pt.Rule? && pt.literal == Plain
    && (path == [] || (path[0] < |pt.children| && PlainPath(pt.children[path[0]], path[1..])))
  }

  function NodeAt(pt: ParseTree, path: seq<nat>): ParseTree
    requires PlainPath(pt, path)
    decreases |path|
  {
    if path == [] then pt else NodeAt(pt.children[path[0]], path[1..])
  }

  /** A blank plain node, not inside a literal, with two ends of file. */
  predicate TwoEndsAt(pt: ParseTree, path: seq<nat>) {
    PlainPath(pt, path) && Blank(NodeAt(pt, path)) && Ends(NodeAt(pt, path)) >= 2
  }

  lemma {:induction false} EndsOfPart(cs: seq<ParseTree>, i: nat)
    requires i < |cs|
    ensures Ends(cs[i]) <= EndsOfAll(cs)
    decreases |cs|
  {
    if i < |cs| - 1 {
      EndsOfPart(cs[..|cs| - 1], i);
    }
  }

  lemma {:induction false} EndsBelow(pt: ParseTree, path: seq<nat>)
    requires PlainPath(pt, path)
    ensures Ends(NodeAt(pt, path)) <= Ends(pt)
    decreases |path|
  {
    if path != [] {
      EndsBelow(pt.children[path[0]], path[1..]);
      EndsOfPart(pt.children, path[0]);
    }
  }

  /** `s` is the end of file `n` times over, as far as that matters. */
  predicate IsEnds(s: string, n: nat) {
    |s| == n * |EOF_TEXT| && (n == 1 ==> s == EOF_TEXT)
  }

  lemma EndsAdd(a: string, m: nat, b: string, n: nat)
    requires IsEnds(a, m) && IsEnds(b, n)
    ensures IsEnds(a + b, m + n)
  {
    assert m == 0 ==> a + b == b;
    assert n == 0 ==> a + b == a;
  }

  lemma {:induction false} BlankText(pt: ParseTree)
    requires Blank(pt)
    ensures IsEnds(TextOf(pt), Ends(pt))
    decreases pt, 1
  {
    if pt.Rule? {
      BlankTexts(pt.children);
    }
  }

  lemma {:induction false} BlankTexts(cs: seq<ParseTree>)
    requires forall i :: 0 <= i < |cs| ==> Blank(cs[i])
    ensures IsEnds(TextOfAll(cs), EndsOfAll(cs))
    decreases cs, 0
  {
    if cs != [] {
      var front, last := cs[..|cs| - 1], cs[|cs| - 1];
      BlankTexts(front);
      BlankText(last);
      EndsAdd(TextOfAll(front), EndsOfAll(front), TextOf(last), Ends(last));
    }
  }

  lemma TwoEndsBelow(pt: ParseTree, i: nat, path: seq<nat>)
    requires pt.Rule? && pt.literal == Plain && i < |pt.children| && TwoEndsAt(pt.children[i], path)
    ensures TwoEndsAt(pt, [i] + path) && Ends(pt) >= 2
  {
    assert ([i] + path)[0] == i && ([i] + path)[1..] == path;
    EndsBelow(pt, [i] + path);
  }

  lemma TwoEndsInside(pt: ParseTree, path: seq<nat>)
    requires TwoEndsAt(pt, path) && path != []
    ensures path[0] < |pt.children| && pt.children[path[0]].Rule? && TwoEndsAt(pt.children[path[0]], path[1..])
  {
    assert PlainPath(pt.children[path[0]], path[1..]);
    assert NodeAt(pt.children[path[0]], path[1..]) == NodeAt(pt, path);
  }

  lemma TwoEndsHere(pt: ParseTree)
    ensures TwoEndsAt(pt, []) <==> pt.Rule? && Blank(pt) && Ends(pt) >= 2
  {
  }

  ghost predicate Means(pt: ParseTree) {
    && (StatusOf(pt) == Vanishes <==> Blank(pt) && Ends(pt) <= 1)
    && (StatusOf(pt) == Fails <==> exists path :: TwoEndsAt(pt, path))
  }

  /** A rule node vanishes exactly if it is blank with at most one end of file.  It runs into an assertion exactly
      if it has, outside literals, a blank node with two ends of file. */
  lemma {:induction false} StatusIff(pt: ParseTree)
    requires pt.Rule?
    ensures StatusOf(pt) == Vanishes <==> Blank(pt) && Ends(pt) <= 1
    ensures StatusOf(pt) == Fails <==> exists path :: TwoEndsAt(pt, path)
    decreases pt
  {
    forall i | 0 <= i < |pt.children| && pt.children[i].Rule?
      ensures Means(pt.children[i])
    {
      StatusIff(pt.children[i]);
    }
    if pt.literal == Plain && pt.children != [] {
      StatusOfNode(pt);
    }
  }

  lemma StatusOfNode(pt: ParseTree)
    requires pt.Rule? && pt.literal == Plain && pt.children != []
    requires forall i :: 0 <= i < |pt.children| && pt.children[i].Rule? ==> Means(pt.children[i])
    ensures Means(pt)
  {
    var cs := pt.children;
    if !NoneFails(cs) {
      var i :| 0 <= i < |cs| && cs[i].Rule? && StatusOf(cs[i]) == Fails;
      var path :| TwoEndsAt(cs[i], path);
      TwoEndsBelow(pt, i, path);
    } else {
      forall path | TwoEndsAt(pt, path)
        ensures path == []
      {
        if path != [] {
          TwoEndsInside(pt, path);
        }
      }
      if !NoneSurvives(cs) {
        var i :| 0 <= i < |cs| && Survives(cs[i]);
        TwoEndsHere(cs[i]);
        assert !Blank(cs[i]);
      } else {
        forall i | 0 <= i < |cs|
          ensures Blank(cs[i])
        {
          assert !Survives(cs[i]);
        }
        BlankTexts(cs);
        TwoEndsHere(pt);
      }
    }
  }

  /** For example: a rule node over two ends of file. */
  lemma TwoEndsFail(rule: IRType, dataType: DataType, scopeType: ScopeType)
    ensures StatusOf(Rule(rule, Plain, dataType, scopeType, [Terminal("<EOF>"), Terminal("<EOF>")])) == Fails
  {
    var cs := [Terminal(EOF_TEXT), Terminal(EOF_TEXT)];
    var pt := Rule(rule, Plain, dataType, scopeType, cs);
    assert cs[..1] == [Terminal(EOF_TEXT)] && cs[..1][..0] == [];
    assert EndsOfAll(cs[..1]) == 1;
    assert Ends(pt) == 2;
    assert TwoEndsAt(pt, []);
    StatusIff(pt);
  }

  // ---------------------------------------------------------------------------------------------
  // Specification: the tree
  // ---------------------------------------------------------------------------------------------

  /** An entry of the stacks: a string or an IR. */
  datatype Item = Tok(s: string) | Sub(t: Tree)

  function Squeeze(items: seq<Item>): seq<Item> {
    if items == [] then []
    else
      var last := items[|items| - 1];
      Squeeze(items[..|items| - 1]) + (if last == Tok("") then [] else [last])
  }

  function TokItem(s: string): seq<Item> {
    if s == "" then [] else [Tok(s)]
  }

  function SubItem(t: Tree): seq<Item> {
    if t.Nil? then [] else [Sub(t)]
  }

  /** The filled slots of a node, read prefix, left, middle, right, suffix. */
  function NodeItems(t: Tree): seq<Item> {
    if t.Nil? || t.info.op.None? then []
    else
      TokItem(t.info.op.value.prefix) + SubItem(t.left) + TokItem(t.info.op.value.middle)
      + SubItem(t.right) + TokItem(t.info.op.value.suffix)
  }

  /** `t`, of type `typ`, is a fold of `items`: its slots are the items in order, or its left child is
      an intermediate of unknown type that folds the first of them, and the rest follows. */
  ghost predicate Folds(t: Tree, items: seq<Item>, typ: IRType)
    decreases |items|
  {
    && t.Node? && t.info.typ == typ && t.info.op.Some? && t.info.data == NoData
    && (NodeItems(t) == Squeeze(items) || FoldsOn(t, items))
  }

  ghost predicate FoldsOn(t: Tree, items: seq<Item>)
    requires t.Node?
    decreases |items|, 0
  {
    exists k :: 0 < k < |items| && FoldsAt(t, items, k)
  }

  ghost predicate FoldsAt(t: Tree, items: seq<Item>, k: nat)
    requires t.Node? && 0 < k < |items|
    decreases |items|, 0, 0
  {
    && Folds(t.left, items[..k], UNKNOWN)
    && t.left.info.dataType == DataDefault && t.left.info.scopeType == ScopeDefault
    && NodeItems(t) == [Sub(t.left)] + Squeeze(items[k..])
  }

  /** The items that the surviving children leave, in order. */
  ghost predicate ItemsOf(nums: Numbers, cs: seq<ParseTree>, items: seq<Item>)
    decreases cs
  {
    if cs == [] then items == []
    else
      var c, front := cs[|cs| - 1], cs[..|cs| - 1];
      if Survives(c) then
        items != [] && ItemFor(nums, c, items[|items| - 1]) && ItemsOf(nums, front, items[..|items| - 1])
      else ItemsOf(nums, front, items)
  }

  ghost predicate ItemFor(nums: Numbers, c: ParseTree, item: Item)
    decreases c, 1
  {
    match c
    case Terminal(s) => item == Tok(s)
    case Rule(_, _, _, _, _) => item.Sub? && Translates(nums, c, item.t)
  }

  /** `t` is a translation of the rule node `pt`. */
  ghost predicate Translates(nums: Numbers, pt: ParseTree, t: Tree)
    decreases pt, 0
  {
    && pt.Rule? && t.Node?
    && t.info.dataType == pt.dataType && t.info.scopeType == pt.scopeType && t.info.typ == pt.rule
    && match pt.literal
       case StringLiteral => t.IsLeaf() && t.info.op == None && t.info.data == Str(TextOf(pt))
       case IntLiteral => t.IsLeaf() && t.info.op == None && t.info.data == Int(nums.stoi(TextOf(pt)))
       case Plain => exists items :: ItemsOf(nums, pt.children, items) && Folds(t, items, pt.rule)
  }

  /** The words of a parse tree in order, without end of file and empty tokens; an integer literal
      counts as its normal form. */
  function Yield(nums: Numbers, pt: ParseTree): seq<string>
    decreases pt
  {
    match pt
    case Terminal(s) => if s == EOF_TEXT then [] else Word(s)
    case Rule(_, literal, _, _, cs) =>
      match literal
      case StringLiteral => Word(TextOf(pt))
      case IntLiteral => Word(nums.fmt.int_(nums.stoi(TextOf(pt))))
      case Plain => YieldAll(nums, cs)
  }

  function YieldAll(nums: Numbers, cs: seq<ParseTree>): seq<string>
    decreases cs
  {
    if cs == [] then [] else YieldAll(nums, cs[..|cs| - 1]) + Yield(nums, cs[|cs| - 1])
  }

  // ---------------------------------------------------------------------------------------------
  // The words survive translation and printing
  // ---------------------------------------------------------------------------------------------

  function ItemWords(fmt: Format, item: Item): seq<string> {
    match item
    case Tok(s) => Word(s)
    case Sub(t) => Words(fmt, t)
  }

  function AllWords(fmt: Format, items: seq<Item>): seq<string> {
    if items == [] then []
    else AllWords(fmt, items[..|items| - 1]) + ItemWords(fmt, items[|items| - 1])
  }

  lemma {:induction false} AllWordsAdd(fmt: Format, a: seq<Item>, b: seq<Item>)
    ensures AllWords(fmt, a + b) == AllWords(fmt, a) + AllWords(fmt, b)
  {
    if b == [] {
      assert a + b == a;
    } else {
      var front, last := b[..|b| - 1], b[|b| - 1];
      AllWordsAdd(fmt, a, front);
      assert (a + b)[..|a + b| - 1] == a + front && (a + b)[|a + b| - 1] == last;
      Regroup(AllWords(fmt, a), AllWords(fmt, front), ItemWords(fmt, last));
    }
  }

  lemma {:induction false} SqueezeKeepsWords(fmt: Format, items: seq<Item>)
    ensures AllWords(fmt, Squeeze(items)) == AllWords(fmt, items)
  {
    if items != [] {
      var front, last := items[..|items| - 1], items[|items| - 1];
      SqueezeKeepsWords(fmt, front);
      if last == Tok("") {
        assert Squeeze(front) + [] == Squeeze(front);
      } else {
        assert (Squeeze(front) + [last])[..|Squeeze(front)|] == Squeeze(front);
      }
    }
  }

  lemma AllWordsOne(fmt: Format, item: Item)
    ensures AllWords(fmt, [item]) == ItemWords(fmt, item)
  {
    assert [item][..0] == [];
  }

  lemma TokItemWords(fmt: Format, s: string)
    ensures AllWords(fmt, TokItem(s)) == Word(s)
  {
    AllWordsOne(fmt, Tok(s));
  }

  lemma SubItemWords(fmt: Format, t: Tree)
    ensures AllWords(fmt, SubItem(t)) == Words(fmt, t)
  {
    AllWordsOne(fmt, Sub(t));
  }

  lemma NodeItemsWords(fmt: Format, t: Tree)
    requires t.Node? && t.info.op.Some? && t.info.data == NoData
    ensures AllWords(fmt, NodeItems(t)) == Words(fmt, t)
  {
    var op := t.info.op.value;
    TokItemWords(fmt, op.prefix); TokItemWords(fmt, op.middle); TokItemWords(fmt, op.suffix);
    SubItemWords(fmt, t.left); SubItemWords(fmt, t.right);
    AllWordsAdd(fmt, TokItem(op.prefix), SubItem(t.left));
    AllWordsAdd(fmt, TokItem(op.prefix) + SubItem(t.left), TokItem(op.middle));
    AllWordsAdd(fmt, TokItem(op.prefix) + SubItem(t.left) + TokItem(op.middle), SubItem(t.right));
    AllWordsAdd(fmt, TokItem(op.prefix) + SubItem(t.left) + TokItem(op.middle) + SubItem(t.right), TokItem(op.suffix));
  }

  /** The two ways to fold: in one pass, or after an intermediate that folds the first `k` items. */
  lemma FoldsCase(t: Tree, items: seq<Item>, typ: IRType) returns (k: nat)
    requires Folds(t, items, typ)
    ensures k == 0 ==> NodeItems(t) == Squeeze(items)
    ensures k > 0 ==> k < |items| && Folds(t.left, items[..k], UNKNOWN)
                      && NodeItems(t) == [Sub(t.left)] + Squeeze(items[k..])
  {
    k := 0;
    if NodeItems(t) != Squeeze(items) {
      assert FoldsOn(t, items);
      k :| 0 < k < |items| && FoldsAt(t, items, k);
    }
  }

  lemma FoldAllWords(fmt: Format, t: Tree, items: seq<Item>)
    requires t.Node? && t.info.op.Some? && t.info.data == NoData && NodeItems(t) == Squeeze(items)
    ensures Words(fmt, t) == AllWords(fmt, items)
  {
    NodeItemsWords(fmt, t);
    SqueezeKeepsWords(fmt, items);
  }

  lemma FoldStepWords(fmt: Format, t: Tree, front: seq<Item>, rest: seq<Item>)
    requires t.Node? && t.info.op.Some? && t.info.data == NoData
    requires NodeItems(t) == [Sub(t.left)] + Squeeze(rest) && Words(fmt, t.left) == AllWords(fmt, front)
    ensures Words(fmt, t) == AllWords(fmt, front + rest)
  {
    NodeItemsWords(fmt, t);
    SqueezeKeepsWords(fmt, rest);
    AllWordsOne(fmt, Sub(t.left));
    AllWordsAdd(fmt, [Sub(t.left)], Squeeze(rest));
    AllWordsAdd(fmt, front, rest);
  }

  lemma TwoParts(items: seq<Item>, k: nat)
    requires k <= |items|
    ensures items[..k] + items[k..] == items
  {
  }

  /** A fold, with all its intermediates, reads as its items. */
  lemma {:induction false} FoldKeepsWords(fmt: Format, t: Tree, items: seq<Item>, typ: IRType)
    requires Folds(t, items, typ)
    ensures Words(fmt, t) == AllWords(fmt, items)
    decreases |items|
  {
    var k := FoldsCase(t, items, typ);
    if k == 0 {
      FoldAllWords(fmt, t, items);
    } else {
      FoldKeepsWords(fmt, t.left, items[..k], UNKNOWN);
      FoldStepWords(fmt, t, items[..k], items[k..]);
      TwoParts(items, k);
    }
  }

  lemma {:induction false} VanishedYieldsNothing(nums: Numbers, c: ParseTree)
    requires c.Terminal? ==> c.text == EOF_TEXT
    requires c.Rule? ==> StatusOf(c) == Vanishes
    ensures Yield(nums, c) == []
    decreases c, 0
  {
    if c.Rule? {
      forall i | 0 <= i < |c.children|
        ensures Yield(nums, c.children[i]) == []
      {
        assert !Survives(c.children[i]);
        VanishedYieldsNothing(nums, c.children[i]);
      }
      NothingYieldsNothing(nums, c.children);
    }
  }

  lemma {:induction false} NothingYieldsNothing(nums: Numbers, cs: seq<ParseTree>)
    requires forall i :: 0 <= i < |cs| ==> Yield(nums, cs[i]) == []
    ensures YieldAll(nums, cs) == []
    decreases |cs|
  {
    if cs != [] {
      NothingYieldsNothing(nums, cs[..|cs| - 1]);
    }
  }

  /** Words are kept: the tree reads as the terminals of the parse tree, in order. */
  lemma {:induction false} TranslationKeepsWords(nums: Numbers, pt: ParseTree, t: Tree)
    requires Translates(nums, pt, t) && StatusOf(pt) == Builds
    ensures Words(nums.fmt, t) == Yield(nums, pt)
    decreases pt, 1
  {
    if pt.literal == Plain {
      var items :| ItemsOf(nums, pt.children, items) && Folds(t, items, pt.rule);
      FoldKeepsWords(nums.fmt, t, items, pt.rule);
      ItemsKeepWords(nums, pt.children, items);
    }
  }

  lemma {:induction false} ItemsKeepWords(nums: Numbers, cs: seq<ParseTree>, items: seq<Item>)
    requires ItemsOf(nums, cs, items)
    requires NoneFails(cs)
    ensures AllWords(nums.fmt, items) == YieldAll(nums, cs)
    decreases cs, 0
  {
    if cs != [] {
      var c, front := cs[|cs| - 1], cs[..|cs| - 1];
      if Survives(c) {
        ItemsKeepWords(nums, front, items[..|items| - 1]);
        if c.Rule? {
          TranslationKeepsWords(nums, c, items[|items| - 1].t);
        }
      } else {
        ItemsKeepWords(nums, front, items);
        VanishedYieldsNothing(nums, c);
      }
    }
  }

  /** Printing a translated tree gives back the source text, up to spaces and line ends (and the form
      of integer literals); tokens stay apart. */
  lemma PrintAfterTranslate(nums: Numbers, pt: ParseTree, t: Tree)
    requires Translates(nums, pt, t) && StatusOf(pt) == Builds
    ensures Marks(ToText(nums.fmt, t)) == Marks(Concat(Yield(nums, pt)))
    ensures Runs(ToText(nums.fmt, t)) == RunsOf(Yield(nums, pt))
    ensures (forall k :: 0 <= k < |Yield(nums, pt)| ==> IsToken(Yield(nums, pt)[k])) ==>
      Runs(ToText(nums.fmt, t)) == Yield(nums, pt)
  {
    TranslationKeepsWords(nums, pt, t);
    PrintingKeepsWords(nums.fmt, t);
    PrintingKeepsRuns(nums.fmt, t);
    if forall k :: 0 <= k < |Yield(nums, pt)| ==> IsToken(Yield(nums, pt)[k]) {
      RunsOfTokens(Yield(nums, pt));
    }
  }
}
