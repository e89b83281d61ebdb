/** The value of an IR tree (srcs/internal/include/ir.h, srcs/internal/srcs/ir.cpp): paths, tokens and
    text. */
module IrTree {
  import opened Common
  import opened Trimming

  type IRType = nat

  const UNKNOWN: IRType := 0xdeadbeef

  const FIXME := "FIXME"

  type ScopeId = nat

  datatype DataType =
    | DataDefault
    | FunctionDefinition
    | FunctionName
    | FunctionArgument
    | FunctionReturnType
    | FunctionBody
    | ClassDefinition
    | ClassName
    | ClassBody
    | VariableDefinition
    | VariableName
    | VariableType
    | Pointer
    | FixUnit

  datatype ScopeType = ScopeDefault | ScopeGlobal | ScopeFunction | ScopeStatement | ScopeClass

  datatype Data = NoData | Str(s: string) | Int(i: int) | Flt(r: real)

  datatype Op = Op(prefix: string, middle: string, suffix: string)

  /** Everything a node holds besides its children. */
  datatype Info = Info(typ: IRType, op: Option<Op>, data: Data, dataType: DataType,
                       scopeType: ScopeType, sid: nat, scopeId: ScopeId)

  datatype Tree = Nil | Node(info: Info, left: Tree, right: Tree)
  {
    predicate IsLeaf() {
      Node? && left.Nil? && right.Nil?
    }
  }

  function OpOrEmpty(o: Option<Op>): Op {
    if o.Some? then o.value else Op("", "", "")
  }

  /** What a deep copy keeps of a node: a null operator counts as an empty one, ids do not count. */
  function NormInfo(n: Info): Info {
    n.(op := Some(OpOrEmpty(n.op)), sid := 0, scopeId := 0)
  }

  function Norm(t: Tree): Tree {
    if t.Nil? then Nil else Node(NormInfo(t.info), Norm(t.left), Norm(t.right))
  }

  /** GetChildNum: the number of nodes. */
  function Size(t: Tree): nat {
    if t.Nil? then 0 else 1 + Size(t.left) + Size(t.right)
  }

  // ---------------------------------------------------------------------------------------------
  // Paths
  // ---------------------------------------------------------------------------------------------

  datatype Dir = L | R

  type Path = seq<Dir>

  function Child(t: Tree, d: Dir): Tree
    requires t.Node?
  {
    if d == L then t.left else t.right
  }

  /** The path leads to a node of `t`. */
  predicate Has(t: Tree, p: Path) {
    t.Node? && (p == [] || Has(Child(t, p[0]), p[1..]))
  }

  function At(t: Tree, p: Path): (r: Tree)
    requires Has(t, p)
    ensures r.Node?
  {
    if p == [] then t else At(Child(t, p[0]), p[1..])
  }

  /** Neither path continues the other. */
  predicate Disjoint(p: Path, q: Path) {
    !(p <= q) && !(q <= p)
  }

  /** `p` is to the left of `q`: its text comes first. */
  predicate LeftOf(p: Path, q: Path) {
    p != [] && q != [] && (if p[0] == q[0] then LeftOf(p[1..], q[1..]) else p[0] == L)
  }

  /** Trees that are equal up to `Norm` have nodes at the same places, and these agree in everything but their ids,
      where no operator counts as an empty one. */
  lemma {:induction false} NormKeepsFields(a: Tree, b: Tree, p: Path)
    requires Norm(a) == Norm(b)
    ensures Has(a, p) <==> Has(b, p)
    ensures Has(a, p) ==>
      var m, n := At(a, p).info, At(b, p).info;
      && m.typ == n.typ && m.data == n.data && m.dataType == n.dataType && m.scopeType == n.scopeType
      && OpOrEmpty(m.op) == OpOrEmpty(n.op)
  {
    if a.Node? && p == [] {
      assert NormInfo(a.info) == NormInfo(b.info);
    } else if a.Node? {
      NormKeepsFields(Child(a, p[0]), Child(b, p[0]), p[1..]);
    }
  }

  lemma PrefixTail(p: Path, q: Path)
    requires p != [] && q != [] && p[0] == q[0]
    ensures p <= q <==> p[1..] <= q[1..]
  {
    assert p == [p[0]] + p[1..] && q == [q[0]] + q[1..];
  }

  // ---------------------------------------------------------------------------------------------
  // Tokens and text
  // ---------------------------------------------------------------------------------------------

  /** The formatting of numbers by the string library. */
  datatype Format = Format(int_: int -> string, flt: real -> string)

  function DataText(fmt: Format, d: Data): string {
    match d
    case NoData => ""
    case Str(s) => s
    case Int(i) => fmt.int_(i)
    case Flt(r) => fmt.flt(r)
  }

  /** A token, unless it is empty. */
  function Word(s: string): seq<string> {
    if s == "" then [] else [s]
  }

  /** The words of a tree in printing order: prefix, left, middle, right, suffix. */
  function Words(fmt: Format, t: Tree): seq<string> {
    match t
    case Nil => []
    case Node(n, l, r) =>
      if n.data != NoData then Word(DataText(fmt, n.data))
      else
        var op := OpOrEmpty(n.op);
        Word(op.prefix) + Words(fmt, l) + Word(op.middle) + Words(fmt, r) + Word(op.suffix)
  }

  /** What ToStringImpl appends: data hides the children, and pieces are separated by spaces. */
  function Flat(fmt: Format, t: Tree): string {
    match t
    case Nil => ""
    case Node(n, l, r) =>
      if n.data != NoData then DataText(fmt, n.data)
      else
        (if n.op.Some? then n.op.value.prefix + " " else "")
        + (if l.Node? then Flat(fmt, l) + " " else "")
        + (if n.op.Some? then n.op.value.middle + " " else "")
        + (if r.Node? then Flat(fmt, r) + " " else "")
        + (if n.op.Some? then n.op.value.suffix else "")
  }

  function ToText(fmt: Format, t: Tree): string {
    Trim(Flat(fmt, t))
  }

  function Concat(words: seq<string>): string {
    if words == [] then "" else words[0] + Concat(words[1..])
  }

  lemma {:induction false} ConcatAdd(a: seq<string>, b: seq<string>)
    ensures Concat(a + b) == Concat(a) + Concat(b)
  {
    if a == [] {
      assert a + b == b;
    } else {
      ConcatAdd(a[1..], b);
      assert (a + b)[0] == a[0] && (a + b)[1..] == a[1..] + b;
      Regroup(a[0], Concat(a[1..]), Concat(b));
    }
  }

  lemma ConcatWord(s: string)
    ensures Concat(Word(s)) == s
  {
  }

  lemma {:induction false} FlatKeepsWords(fmt: Format, t: Tree)
    ensures Marks(Flat(fmt, t)) == Marks(Concat(Words(fmt, t)))
  {
    if t.Node? {
      var n, l, r := t.info, t.left, t.right;
      if n.data != NoData {
        ConcatWord(DataText(fmt, n.data));
      } else {
        FlatKeepsWords(fmt, l);
        FlatKeepsWords(fmt, r);
        var op := OpOrEmpty(n.op);
        PiecesConcat(op, Words(fmt, l), Words(fmt, r));
        var p1 := if n.op.Some? then op.prefix + " " else "";
        var p2 := if l.Node? then Flat(fmt, l) + " " else "";
        var p3 := if n.op.Some? then op.middle + " " else "";
        var p4 := if r.Node? then Flat(fmt, r) + " " else "";
        MarksSpaced(op.prefix); MarksSpaced(Flat(fmt, l)); MarksSpaced(op.middle); MarksSpaced(Flat(fmt, r));
        MarksAdd5(p1, p2, p3, p4, op.suffix);
        MarksAdd5(op.prefix, Concat(Words(fmt, l)), op.middle, Concat(Words(fmt, r)), op.suffix);
      }
    }
  }

  lemma PiecesConcat(op: Op, l: seq<string>, r: seq<string>)
    ensures Concat(Word(op.prefix) + l + Word(op.middle) + r + Word(op.suffix))
         == op.prefix + Concat(l) + op.middle + Concat(r) + op.suffix
  {
    ConcatWord(op.prefix); ConcatWord(op.middle); ConcatWord(op.suffix);
    ConcatAdd(Word(op.prefix), l);
    ConcatAdd(Word(op.prefix) + l, Word(op.middle));
    ConcatAdd(Word(op.prefix) + l + Word(op.middle), r);
    ConcatAdd(Word(op.prefix) + l + Word(op.middle) + r, Word(op.suffix));
  }

  /** The runs of several texts. */
  function RunsOf(words: seq<string>): seq<string> {
    if words == [] then [] else Runs(words[0]) + RunsOf(words[1..])
  }

  lemma {:induction false} RunsOfAdd(a: seq<string>, b: seq<string>)
    ensures RunsOf(a + b) == RunsOf(a) + RunsOf(b)
  {
    hide Runs;
    if a == [] {
      assert a + b == b;
    } else {
      RunsOfAdd(a[1..], b);
      assert (a + b)[0] == a[0] && (a + b)[1..] == a[1..] + b;
      Regroup(Runs(a[0]), RunsOf(a[1..]), RunsOf(b));
    }
  }

  lemma RunsOfWord(s: string)
    ensures RunsOf(Word(s)) == Runs(s)
  {
  }

  /** A piece that is followed by a space, unless it is empty. */
  predicate Ended(p: string) {
    p == "" || p[|p| - 1] == ' '
  }

  lemma RunsAdd5(a: string, b: string, c: string, d: string, e: string)
    requires Ended(a) && Ended(b) && Ended(c) && Ended(d)
    ensures Runs(a + b + c + d + e) == Runs(a) + Runs(b) + Runs(c) + Runs(d) + Runs(e)
  {
    hide Runs;
    RunsAdd(a, b);
    assert Ended(a + b);
    RunsAdd(a + b, c);
    assert Ended(a + b + c);
    RunsAdd(a + b + c, d);
    assert Ended(a + b + c + d);
    RunsAdd(a + b + c + d, e);
  }

  lemma PiecesRuns(op: Op, l: seq<string>, r: seq<string>)
    ensures RunsOf(Word(op.prefix) + l + Word(op.middle) + r + Word(op.suffix))
         == Runs(op.prefix) + RunsOf(l) + Runs(op.middle) + RunsOf(r) + Runs(op.suffix)
  {
    hide RunsOf, Runs, Word;
    RunsOfWord(op.prefix); RunsOfWord(op.middle); RunsOfWord(op.suffix);
    RunsOfAdd(Word(op.prefix), l);
    RunsOfAdd(Word(op.prefix) + l, Word(op.middle));
    RunsOfAdd(Word(op.prefix) + l + Word(op.middle), r);
    RunsOfAdd(Word(op.prefix) + l + Word(op.middle) + r, Word(op.suffix));
  }

  /** The pieces are kept apart by spaces. */
  lemma {:induction false} FlatKeepsRuns(fmt: Format, t: Tree)
    ensures Runs(Flat(fmt, t)) == RunsOf(Words(fmt, t))
  {
    hide Runs, RunsOf;
    if t.Nil? {
      NoRuns();
    } else if t.info.data != NoData {
      RunsOfWord(DataText(fmt, t.info.data));
    } else {
      var n, l, r := t.info, t.left, t.right;
      FlatKeepsRuns(fmt, l);
      FlatKeepsRuns(fmt, r);
      var op := OpOrEmpty(n.op);
      PiecesRuns(op, Words(fmt, l), Words(fmt, r));
      NoRuns();
      var p1 := if n.op.Some? then op.prefix + " " else "";
      var p2 := if l.Node? then Flat(fmt, l) + " " else "";
      var p3 := if n.op.Some? then op.middle + " " else "";
      var p4 := if r.Node? then Flat(fmt, r) + " " else "";
      RunsSpaced(op.prefix); RunsSpaced(Flat(fmt, l)); RunsSpaced(op.middle); RunsSpaced(Flat(fmt, r));
      RunsAdd5(p1, p2, p3, p4, op.suffix);
    }
  }

  lemma NoRuns()
    ensures Runs("") == [] && RunsOf([]) == []
  {
  }

  /** Printing keeps tokens apart: the runs of the text of a tree are those of its words, in order. */
  lemma PrintingKeepsRuns(fmt: Format, t: Tree)
    ensures Runs(ToText(fmt, t)) == RunsOf(Words(fmt, t))
  {
    FlatKeepsRuns(fmt, t);
    TrimKeepsRuns(Flat(fmt, t), false, false);
  }

  predicate IsToken(s: string) {
    s != "" && forall i :: 0 <= i < |s| ==> !IsGap(s[i])
  }

  /** Of words that are tokens the runs are these words. */
  lemma {:induction false} RunsOfTokens(words: seq<string>)
    requires forall k :: 0 <= k < |words| ==> IsToken(words[k])
    ensures RunsOf(words) == words
  {
    if words != [] {
      RunsOfOne(words[0]);
      RunsOfTokens(words[1..]);
      assert [words[0]] + words[1..] == words;
    }
  }

  /** Printing keeps the words: apart from blanks and line ends, the text of a tree is the text of its
      words in order. */
  lemma PrintingKeepsWords(fmt: Format, t: Tree)
    ensures Marks(ToText(fmt, t)) == Marks(Concat(Words(fmt, t)))
  {
    FlatKeepsWords(fmt, t);
    TrimKeepsMarks(Flat(fmt, t), false, false);
  }
}
