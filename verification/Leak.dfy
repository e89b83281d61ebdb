/** A concrete program whose function body opens no scope: the argument reaches a place behind the function; and
    where the type of the argument is unknown, the program cannot be collected. */
module Leak {
  import opened Common
  import opened IrTree
  import opened Trimming
  import opened TypeGraph
  import opened Scoping
  import opened Fixing
  import opened Mutation
  import opened Symbols
  import opened Declarations
  import opened Registry
  import opened TextOrder
  import opened Validator
  import Translator

  function Leaf(typ: IRType, data: Data, kind: DataType, sid: nat): Tree {
    Node(Info(typ, None, data, kind, ScopeDefault, sid, 0), Nil, Nil)
  }

  function Inner(typ: IRType, kind: DataType, stype: ScopeType, sid: nat, left: Tree, right: Tree): Tree {
    Node(Info(typ, Some(Op("", "", "")), NoData, kind, stype, sid, 0), left, right)
  }

  function Name(): Tree {
    Leaf(2, Str("f"), FunctionName, 0)
  }

  /** The argument `int x`. */
  function Argument(): Tree {
    Inner(5, FunctionArgument, ScopeDefault, 3,
          Leaf(3, Str("int"), VariableType, 1), Leaf(4, Str("x"), VariableName, 2))
  }

  function Body(): Tree {
    Leaf(6, Str("{}"), FunctionBody, 4)
  }

  /** A function `f` with this argument, and a body that opens no scope. */
  function Definition(): Tree {
    Inner(7, FunctionDefinition, ScopeDefault, 6,
          Inner(UNKNOWN, DataDefault, ScopeDefault, 5, Name(), Argument()), Body())
  }

  /** The function, followed by a place to fix. */
  function Input(): Tree {
    Inner(9, DataDefault, ScopeGlobal, 8, Definition(), Leaf(8, Str(FIXME), DataDefault, 7))
  }

  const CONFIG := Config(Format(i => "", r => ""), map[ANY_TYPE := "ANYTYPE", TypeId(10) := "int"], false, 11)

  /** In scope 1. */
  function Tagged1(t: Tree): Tree {
    if t.Nil? then Nil else Node(t.info.(scopeId := 1), Tagged1(t.left), Tagged1(t.right))
  }

  lemma {:induction false} InOneScope(t: Tree, n: nat)
    requires ScopeCount(t) == 0
    ensures Tag(t, Some(1), n) == Tagged1(t)
  {
    if t.Node? {
      InOneScope(t.left, n);
      InOneScope(t.right, n);
    }
  }

  /** There is no fix unit to mark. */
  lemma {:induction false} NothingToMark(t: Tree)
    requires NoFixUnit(t)
    ensures Mark(t) == t && MarkChild(t) == t
  {
    if t.Node? {
      NothingToMark(t.left);
      NothingToMark(t.right);
    }
  }

  lemma InputParts()
    ensures NoFixUnit(Input()) && Input().left == Definition() && ScopeCount(Definition()) == 0
    ensures Input().right == Leaf(8, Str(FIXME), DataDefault, 7)
  {
    assert NoFixUnit(Argument()) && ScopeCount(Argument()) == 0;
    assert NoFixUnit(Definition()) && ScopeCount(Definition()) == 0;
  }

  lemma InputIsTagged()
    ensures Prepare(Input()) == Tagged1(Input())
  {
    hide Definition, Argument, Body, Name, Mark, NoFixUnit;
    InputParts();
    NothingToMark(Input());
    InOneScope(Input().left, 1);
    InOneScope(Input().right, 1);
  }

  /** Its ids are those of a translation. */
  lemma InputIsWellNumbered()
    ensures Translator.WellNumbered(Input(), 0, 9)
  {
    assert Translator.RuleIds(Argument()) == [1, 2, 3];
    assert Translator.RuleIds(Definition()) == [0, 1, 2, 3, 4, 6];
    assert Translator.RuleIds(Input()) == [0, 1, 2, 3, 4, 6, 7, 8];
    assert Translator.WellMade(Argument());
    assert Translator.WellMade(Definition());
  }

  lemma CleanText(s: string)
    requires s != "" && forall i :: 0 <= i < |s| ==> !IsSpace(s[i]) && !IsPunct(s[i])
    ensures TrimBoth(Trim(s)) == s && Strip(Trim(s)) == s
  {
    TrimExact(s);
    assert Clean(s);
    StripCuts(s, |s|);
    assert s[..|s|] == s;
  }

  lemma TextOfLeaf(n: Tree, s: string)
    requires n.Node? && n.info.data == Str(s) && s != ""
    requires forall i :: 0 <= i < |s| ==> !IsSpace(s[i]) && !IsPunct(s[i])
    ensures TrimBoth(ToText(CONFIG.fmt, n)) == s && Strip(ToText(CONFIG.fmt, n)) == s
  {
    CleanText(s);
  }

  lemma SearchInner(typ: IRType, kind: DataType, sid: nat, l: Tree, r: Tree, d: DataType, stop: DataType)
    requires kind != d && (stop == DataDefault || kind != stop)
    ensures var t := Tagged1(Inner(typ, kind, ScopeDefault, sid, l, r));
      && First(t, d, stop)
         == (if First(Tagged1(l), d, stop).Some? then First(Tagged1(l), d, stop) else First(Tagged1(r), d, stop))
      && All(t, d, stop) == All(Tagged1(l), d, stop) + All(Tagged1(r), d, stop)
  {
  }

  lemma SearchLeaf(typ: IRType, data: Data, kind: DataType, sid: nat, d: DataType, stop: DataType)
    ensures var t := Tagged1(Leaf(typ, data, kind, sid));
      && First(t, d, stop) == (if kind == d then Some(t) else None)
      && All(t, d, stop) == (if kind == d then [t] else [])
  {
  }

  lemma ArgumentParts()
    ensures First(Tagged1(Argument()), VariableName, DataDefault) == Some(Tagged1(Leaf(4, Str("x"), VariableName, 2)))
    ensures First(Tagged1(Argument()), VariableType, DataDefault) == Some(Tagged1(Leaf(3, Str("int"), VariableType, 1)))
  {
    hide First, All, Tagged1, Leaf, Inner;
    var a, b := Leaf(3, Str("int"), VariableType, 1), Leaf(4, Str("x"), VariableName, 2);
    SearchInner(5, FunctionArgument, 3, a, b, VariableName, DataDefault);
    SearchInner(5, FunctionArgument, 3, a, b, VariableType, DataDefault);
    SearchLeaf(3, Str("int"), VariableType, 1, VariableName, DataDefault);
    SearchLeaf(3, Str("int"), VariableType, 1, VariableType, DataDefault);
    SearchLeaf(4, Str("x"), VariableName, 2, VariableName, DataDefault);
  }

  lemma ArgumentIsInt()
    ensures var arg := Tagged1(Argument());
      && ArgumentRef(CONFIG, [], arg) == Some(Ref(BasicSort, "int")) && ArgumentName(CONFIG.fmt, arg) == "x"
  {
    hide First, ToText, TrimBoth;
    ArgumentParts();
    TextOfLeaf(Tagged1(Leaf(3, Str("int"), VariableType, 1)), "int");
    TextOfLeaf(Tagged1(Leaf(4, Str("x"), VariableName, 2)), "x");
    assert CONFIG.basics[TypeId(10)] == "int";
  }

  /** The parts of the definition that a search for `d` meets. */
  lemma DefinitionSearch(d: DataType, stop: DataType)
    requires d != FunctionDefinition && d != DataDefault && stop in {DataDefault, FunctionBody}
    ensures First(Tagged1(Definition()), d, stop)
      == if First(Tagged1(Name()), d, stop).Some? then First(Tagged1(Name()), d, stop)
         else if First(Tagged1(Argument()), d, stop).Some? then First(Tagged1(Argument()), d, stop)
         else First(Tagged1(Body()), d, stop)
    ensures All(Tagged1(Definition()), d, stop)
      == All(Tagged1(Name()), d, stop) + All(Tagged1(Argument()), d, stop) + All(Tagged1(Body()), d, stop)
  {
    hide First, All, Tagged1, Leaf, Inner, Name, Argument, Body;
    var front := Inner(UNKNOWN, DataDefault, ScopeDefault, 5, Name(), Argument());
    SearchInner(7, FunctionDefinition, 6, front, Body(), d, stop);
    SearchInner(UNKNOWN, DataDefault, 5, Name(), Argument(), d, stop);
  }

  /** The argument has no name of a function, no return type and no body. */
  lemma NotInArgument(d: DataType, stop: DataType)
    requires d in {FunctionName, FunctionReturnType, FunctionBody} && stop in {DataDefault, FunctionBody}
    ensures First(Tagged1(Argument()), d, stop) == None
  {
    hide First, All, Tagged1, Leaf, Inner;
    var a, b := Leaf(3, Str("int"), VariableType, 1), Leaf(4, Str("x"), VariableName, 2);
    SearchInner(5, FunctionArgument, 3, a, b, d, stop);
    SearchLeaf(3, Str("int"), VariableType, 1, d, stop);
    SearchLeaf(4, Str("x"), VariableName, 2, d, stop);
  }

  lemma DefinitionNames()
    ensures First(Tagged1(Definition()), FunctionName, FunctionBody) == Some(Tagged1(Name()))
    ensures First(Tagged1(Definition()), FunctionReturnType, FunctionBody) == None
  {
    hide First, All, Tagged1, Leaf, Definition, Argument;
    DefinitionSearch(FunctionName, FunctionBody);
    DefinitionSearch(FunctionReturnType, FunctionBody);
    SearchLeaf(2, Str("f"), FunctionName, 0, FunctionName, FunctionBody);
    SearchLeaf(2, Str("f"), FunctionName, 0, FunctionReturnType, FunctionBody);
    NotInArgument(FunctionReturnType, FunctionBody);
    SearchLeaf(6, Str("{}"), FunctionBody, 4, FunctionReturnType, FunctionBody);
  }

  lemma DefinitionParts()
    ensures First(Tagged1(Definition()), FunctionBody, DataDefault) == Some(Tagged1(Body()))
    ensures All(Tagged1(Definition()), FunctionArgument, FunctionBody) == [Tagged1(Argument())]
  {
    hide First, All, Tagged1, Leaf, Definition, Argument;
    DefinitionSearch(FunctionBody, DataDefault);
    DefinitionSearch(FunctionArgument, FunctionBody);
    SearchLeaf(2, Str("f"), FunctionName, 0, FunctionBody, DataDefault);
    NotInArgument(FunctionBody, DataDefault);
    SearchLeaf(6, Str("{}"), FunctionBody, 4, FunctionBody, DataDefault);
    SearchLeaf(2, Str("f"), FunctionName, 0, FunctionArgument, FunctionBody);
    SearchLeaf(6, Str("{}"), FunctionBody, 4, FunctionArgument, FunctionBody);
    AllOfArgument();
    var args := [Tagged1(Argument())];
    assert [] + args + [] == args;
  }

  lemma AllOfArgument()
    ensures All(Tagged1(Argument()), FunctionArgument, FunctionBody) == [Tagged1(Argument())]
  {
  }

  lemma BodyDeclaresNothing(log: seq<Decl>)
    ensures Collect(CONFIG, log, Tagged1(Body())) == Some(log)
  {
  }

  lemma OneArgument(arg: Tree, ref: TypeRef)
    requires ArgumentRef(CONFIG, [], arg) == Some(ref)
    ensures ArgumentRefs(CONFIG, [], [arg]) == Some([ref])
    ensures ArgumentDecls(CONFIG.fmt, 1, 6, [arg], [ref]) == [ArgumentDecl(1, ArgumentName(CONFIG.fmt, arg), 6, ref)]
  {
    assert [arg][..0] == [] && [ref][..0] == [];
    assert ArgumentRefs(CONFIG, [], []) == Some([]);
    assert [] + [ref] == [ref];
    assert ArgumentRefs(CONFIG, [], [arg][..0]) == Some([]);
  }

  function Declared(): seq<Decl> {
    [ArgumentDecl(1, "x", 6, Ref(BasicSort, "int"))]
  }

  /** The argument is declared in the scope of the whole program, under the id of the definition. */
  lemma DefinitionDeclares()
    ensures Collect(CONFIG, [], Tagged1(Definition())) == Some(Declared())
  {
    hide ArgumentRef, ArgumentRefs, ArgumentDecls, ArgumentName, ToText, Strip, First, All;
    var def := Tagged1(Definition());
    var ref := Ref(BasicSort, "int");
    DefinitionNames();
    DefinitionParts();
    ArgumentIsInt();
    OneArgument(Tagged1(Argument()), ref);
    TextOfLeaf(Tagged1(Name()), "f");
    BodyDeclaresNothing(Declared());
    assert FunctionDecls(CONFIG, [], def, "f", 0, [ref]) == [];
    assert [] + Declared() == Declared();
    assert CollectInner(CONFIG, [], def, Tagged1(Body()), [Tagged1(Argument())], [ref]) == Some(Declared());
    assert CollectBody(CONFIG, [], def, [ref]) == Some(Declared());
    var none: seq<Decl> := [];
    assert none + FunctionDecls(CONFIG, none, def, "f", 0, [ref]) == none;
    assert CollectNamed(CONFIG, [], def, "f", 0) == Some(Declared());
  }

  lemma InputDeclares()
    ensures CollectProgram(CONFIG, Tagged1(Input())) == Some(Declared())
  {
    DefinitionDeclares();
    assert Collect(CONFIG, Declared(), Tagged1(Leaf(8, Str(FIXME), DataDefault, 7))) == Some(Declared());
  }

  /** The place to fix is behind the definition, with the next id. */
  lemma HolePlace()
    ensures var t := Tagged1(Input());
      && Has(t, [R]) && At(t, [R]).info.sid == 7 && At(t, [R]).info.data == Str(FIXME)
      && Enclosing(t, [R]) == [1]
  {
    var t := Tagged1(Input());
    Steps(t);
    assert [R][1..] == [];
    assert Enclosing(t.right, []) == [];
  }

  /** So what this program declares is the argument of the function at [L], in a scope that encloses the place to fix
      at [R], and under an id below that of this place. */
  lemma ArgumentLeaks()
    ensures CollectProgram(CONFIG, Prepare(Input())) == Some([ArgumentDecl(1, "x", 6, Ref(BasicSort, "int"))])
    ensures Has(Prepare(Input()), [R]) && At(Prepare(Input()), [R]).info.data == Str(FIXME)
    ensures 1 in Enclosing(Prepare(Input()), [R]) && 6 < At(Prepare(Input()), [R]).info.sid
  {
    hide Tagged1, Input, Has, At, Enclosing, Prepare, CollectProgram;
    InputIsTagged();
    InputDeclares();
    HolePlace();
  }

  /** The argument reaches this place. */
  lemma ArgumentReaches(p: Program)
    requires Prepared(Input(), p) && p.reg.c == CONFIG
    ensures Has(p.tagged, [R]) && DeclReaches(p, [R], 7, ArgumentDecl(1, "x", 6, Ref(BasicSort, "int")))
  {
    hide Entries.Mirror, Tagged1, Input, Has, At, Enclosing, CollectProgram;
    InputIsTagged();
    InputDeclares();
    HolePlace();
  }

  // ---------------------------------------------------------------------------------------------
  // The same program without the type
  // ---------------------------------------------------------------------------------------------

  /** The configuration without the type `int`. */
  const BARE_CONFIG := Config(CONFIG.fmt, map[ANY_TYPE := "ANYTYPE"], false, 11)

  lemma IntIsUnknown()
    ensures Lookup(BARE_CONFIG, [], "int").None?
  {
    assert "ANYTYPE"[0] != "int"[0];
  }

  lemma OneUnknown(arg: Tree)
    requires ArgumentRef(BARE_CONFIG, [], arg).None?
    ensures ArgumentRefs(BARE_CONFIG, [], [arg]).None?
  {
    assert [arg][0] == arg;
  }

  lemma ArgumentIsUnknown()
    ensures ArgumentRef(BARE_CONFIG, [], Tagged1(Argument())).None?
  {
    hide ToText, TrimBoth, First, Lookup;
    ArgumentParts();
    TextOfLeaf(Tagged1(Leaf(3, Str("int"), VariableType, 1)), "int");
    IntIsUnknown();
  }

  lemma DefinitionFails()
    ensures Collect(BARE_CONFIG, [], Tagged1(Definition())).None?
  {
    hide ArgumentRef, ArgumentRefs, ToText, Strip, First, All, Argument;
    DefinitionNames();
    DefinitionParts();
    TextOfLeaf(Tagged1(Name()), "f");
    ArgumentIsUnknown();
    OneUnknown(Tagged1(Argument()));
    assert CollectNamed(BARE_CONFIG, [], Tagged1(Definition()), "f", 0).None?;
  }

  /** Where `int` is not a type, reading the argument follows a null pointer: the collection of the whole program
      fails. */
  lemma UnknownArgumentFails()
    ensures CollectProgram(BARE_CONFIG, Prepare(Input())) == None
  {
    InputIsTagged();
    DefinitionFails();
  }
}
