/** What a program declares: the declarations that the collection of definitions
    (srcs/internal/srcs/var_definition.cpp) enters, one after the other, and when the collection fails. */
module Declarations {
  import opened Common
  import opened IrTree
  import opened Trimming
  import opened TypeGraph
  import opened Symbols

  // ---------------------------------------------------------------------------------------------
  // Texts
  // ---------------------------------------------------------------------------------------------

  predicate IsSpace(c: char) {
    c == ' ' || c == '\n' || c == '\t' || c == '\r' || c == 11 as char || c == 12 as char
  }

  function LTrim(s: string): string {
    if s != "" && IsSpace(s[0]) then LTrim(s[1..]) else s
  }

  function RTrim(s: string): string {
    if s != "" && IsSpace(s[|s| - 1]) then RTrim(s[..|s| - 1]) else s
  }

  function TrimBoth(s: string): string {
    LTrim(RTrim(s))
  }

  /** A leading `struct` or `enum` is dropped from a return type that is long enough. */
  function CutKeyword(s: string): string {
    if |s| > 7 && s[..7] == "struct " then s[7..]
    else if |s| > 7 && s[..5] == "enum " then s[5..]
    else s
  }

  // ---------------------------------------------------------------------------------------------
  // What trimming and cutting mean
  // ---------------------------------------------------------------------------------------------

  predicate AllSpace(s: string) {
    forall i :: 0 <= i < |s| ==> s[i] in [' ', '\n', '\t', '\r', 11 as char, 12 as char]
  }

  /** `r` neither begins nor ends with white space. */
  predicate Bare(r: string) {
    r != "" ==> !AllSpace(r[..1]) && !AllSpace(r[|r| - 1..])
  }

  ghost predicate Surrounds(a: string, r: string, b: string, s: string) {
    s == a + r + b && AllSpace(a) && AllSpace(b) && Bare(r)
  }

  /** `r` is `s` without the white space at both ends. */
  ghost predicate IsTrimmed(s: string, r: string) {
    exists a, b :: Surrounds(a, r, b, s)
  }

  lemma {:induction false} LTrimCuts(s: string) returns (a: string)
    ensures s == a + LTrim(s) && AllSpace(a) && (LTrim(s) != "" ==> !AllSpace(LTrim(s)[..1]))
  {
    a := "";
    if s != "" && IsSpace(s[0]) {
      var rest := LTrimCuts(s[1..]);
      a := [s[0]] + rest;
      Regroup([s[0]], rest, LTrim(s));
    }
  }

  lemma {:induction false} RTrimCuts(s: string) returns (b: string)
    ensures s == RTrim(s) + b && AllSpace(b) && (RTrim(s) != "" ==> !AllSpace(RTrim(s)[|RTrim(s)| - 1..]))
  {
    b := "";
    if s != "" && IsSpace(s[|s| - 1]) {
      var front := RTrimCuts(s[..|s| - 1]);
      b := front + [s[|s| - 1]];
      Regroup(RTrim(s), front, [s[|s| - 1]]);
    }
  }

  lemma {:induction false} RTrimDrops(s: string, b: string)
    requires AllSpace(b)
    ensures RTrim(s + b) == RTrim(s)
  {
    if b == "" {
      assert s + b == s;
    } else {
      var t := s + b;
      assert t[..|t| - 1] == s + b[..|b| - 1] && IsSpace(t[|t| - 1]);
      RTrimDrops(s, b[..|b| - 1]);
    }
  }

  lemma {:induction false} LTrimDrops(a: string, s: string)
    requires AllSpace(a)
    ensures LTrim(a + s) == LTrim(s)
  {
    if a == "" {
      assert a + s == s;
    } else {
      assert (a + s)[0] == a[0] && (a + s)[1..] == a[1..] + s;
      LTrimDrops(a[1..], s);
    }
  }

  /** Trimming cuts the white space at both ends and nothing else, which determines it. */
  lemma TrimBothIff(s: string, r: string)
    ensures r == TrimBoth(s) <==> IsTrimmed(s, r)
  {
    var b := RTrimCuts(s);
    var x := RTrim(s);
    var a := LTrimCuts(x);
    var y := LTrim(x);
    if y != "" {
      assert y[|y| - 1..] == x[|x| - 1..];
    }
    assert Surrounds(a, y, b, s);
    if IsTrimmed(s, r) {
      var a', b' :| Surrounds(a', r, b', s);
      TrimmedIs(a', r, b');
    }
  }

  lemma TrimmedIs(a: string, r: string, b: string)
    requires AllSpace(a) && AllSpace(b) && Bare(r)
    ensures TrimBoth(a + r + b) == r
  {
    RTrimDrops(a + r, b);
    if r == "" {
      assert a + r == "" + a;
      RTrimDrops("", a);
      assert RTrim("") == "" && LTrim("") == "";
    } else {
      assert (a + r)[|a + r| - 1..] == r[|r| - 1..];
      assert RTrim(a + r) == a + r;
      LTrimDrops(a, r);
      assert r[..1] == [r[0]];
    }
  }

  /** `r` is `s` without a leading `struct ` that something follows, or a leading `enum ` that three characters
      follow. */
  ghost predicate Drops(s: string, r: string) {
    || (s == "struct " + r && r != "")
    || (s == "enum " + r && |r| > 2)
    || (s == r && forall x :: !(s == "struct " + x && x != "") && !(s == "enum " + x && |x| > 2))
  }

  /** Which determines the cut. */
  lemma CutKeywordIff(s: string, r: string)
    ensures r == CutKeyword(s) <==> Drops(s, r)
  {
    var k, e := "struct ", "enum ";
    assert |k| == 7 && |e| == 5 && k[0] != e[0];
    forall x
      ensures s == k + x ==> s[..7] == k && s[7..] == x
      ensures s == e + x ==> s[..5] == e && s[5..] == x
    {
    }
    if |s| > 7 {
      assert s == s[..7] + s[7..] && s == s[..5] + s[5..];
      assert s[..7][0] == s[0] && s[..5][0] == s[0];
    }
  }

  // ---------------------------------------------------------------------------------------------
  // Declarations
  // ---------------------------------------------------------------------------------------------

  /** The type a declaration refers to: any type, or a type of some sort by its name. */
  datatype TypeRef = AnyRef | Ref(sort: Sort, name: string)

  datatype Sort = BasicSort | ClassSort | FunctionSort

  /** A name that is entered into a scope under a statement id. */
  datatype Decl =
    | VariableDecl(scope: ScopeId, name: string, sid: nat, typ: TypeRef)
    | ArgumentDecl(scope: ScopeId, name: string, sid: nat, typ: TypeRef)
    | FunctionDecl(scope: ScopeId, name: string, sid: nat, ret: TypeRef, args: seq<TypeRef>)
    | ClassDecl(scope: ScopeId, name: string, sid: nat, body: ScopeId)

  type Names = map<TypeId, string>

  /** What the configuration provides. */
  datatype Config = Config(fmt: Format, basics: Names, weak: bool, nextType: int)

  /** Trees with more nodes are not collected at all. */
  const MAX_NODES := 250

  /** The lookup of a type by its name: basic types first, then the classes, then the functions that were
      declared so far. */
  ghost function Lookup(c: Config, log: seq<Decl>, s: string): Option<TypeRef> {
    if exists k :: k in c.basics && c.basics[k] == s then Some(Ref(BasicSort, s))
    else if DeclaresClass(log, s) then Some(Ref(ClassSort, s))
    else if DeclaresFunction(log, s) then Some(Ref(FunctionSort, s))
    else None
  }

  predicate DeclaresClass(log: seq<Decl>, s: string) {
    exists k :: 0 <= k < |log| && log[k].ClassDecl? && log[k].name == s
  }

  predicate DeclaresFunction(log: seq<Decl>, s: string) {
    exists k :: 0 <= k < |log| && log[k].FunctionDecl? && log[k].name == s
  }

  // ---------------------------------------------------------------------------------------------
  // The collection
  // ---------------------------------------------------------------------------------------------

  /** The declarations of a tree, after those in `log`; none if an assertion fails or a null pointer is
      followed on the way.  Outermost definitions count, and the bodies of functions and classes. */
  ghost function Collect(c: Config, log: seq<Decl>, t: Tree): Option<seq<Decl>>
    decreases Size(t), 2
  {
    if t.Nil? then Some(log)
    else if !Defines(t.info.dataType) then
      var l := Collect(c, log, t.left);
      if l.None? then None else Collect(c, l.value, t.right)
    else
      match FindDefineType(t)
      case FunctionDefinition => CollectFunction(c, log, t)
      case ClassDefinition => CollectClass(c, log, t)
      case _ => CollectVariables(c, log, t)
  }

  /** Without a type node the variables are of any type, in weak mode also under an unknown type name; in
      strong mode an unknown type name fails an assertion. */
  ghost function VariableRef(c: Config, log: seq<Decl>, t: Tree): Option<TypeRef> {
    match First(t, VariableType, DataDefault)
    case None => Some(AnyRef)
    case Some(n) =>
      var found := Lookup(c, log, TrimBoth(ToText(c.fmt, n)));
      if found.None? && c.weak then Some(AnyRef) else found
  }

  /** Variables: in the scope of the definition, under the ids of their names. */
  ghost function CollectVariables(c: Config, log: seq<Decl>, t: Tree): Option<seq<Decl>>
    requires t.Node?
  {
    var ref := VariableRef(c, log, t);
    if ref.None? then None
    else Some(log + VariableDecls(c.fmt, t.info.scopeId, All(t, VariableName, DataDefault), ref.value))
  }

  function VariableDecls(fmt: Format, scope: ScopeId, names: seq<Tree>, ref: TypeRef): seq<Decl> {
    if names == [] then []
    else
      var front, last := names[..|names| - 1], names[|names| - 1];
      VariableDecls(fmt, scope, front, ref)
      + (if last.Node? then [VariableDecl(scope, ToText(fmt, last), last.info.sid, ref)] else [])
  }

  /** A function.  Without a name node a null pointer is followed; an anonymous function declares nothing at
      all.  Otherwise its arguments are read, it is declared if its return type is known, and its body is
      collected. */
  ghost function CollectFunction(c: Config, log: seq<Decl>, t: Tree): Option<seq<Decl>>
    requires t.Node? && Defines(t.info.dataType)
    decreases Size(t), 1
  {
    match First(t, FunctionName, FunctionBody)
    case None => None
    case Some(name) =>
      var s := Strip(ToText(c.fmt, name));
      if s == "" then Some(log) else CollectNamed(c, log, t, s, name.info.sid)
  }

  ghost function CollectNamed(c: Config, log: seq<Decl>, t: Tree, name: string, sid: nat): Option<seq<Decl>>
    requires t.Node? && Defines(t.info.dataType)
    decreases Size(t), 0, 2
  {
    var refs := ArgumentRefs(c, log, All(t, FunctionArgument, FunctionBody));
    if refs.None? then None
    else CollectBody(c, log + FunctionDecls(c, log, t, name, sid, refs.value), t, refs.value)
  }

  ghost function ReturnRef(c: Config, log: seq<Decl>, t: Tree): Option<TypeRef> {
    match First(t, FunctionReturnType, FunctionBody)
    case None => None
    case Some(n) => Lookup(c, log, TrimBoth(CutKeyword(ToText(c.fmt, n))))
  }

  /** The function itself: in the scope of the definition, under the id of its name. */
  ghost function FunctionDecls(c: Config, log: seq<Decl>, t: Tree, name: string, sid: nat,
                               refs: seq<TypeRef>): seq<Decl>
    requires t.Node?
  {
    var ret := ReturnRef(c, log, t);
    if ret.None? then [] else [FunctionDecl(t.info.scopeId, name, sid, ret.value, refs)]
  }

  /** A type that is found by name has the text of the return type as its name, without the keyword and white space. */
  ghost predicate ReturnNamed(fmt: Format, t: Tree, name: string) {
    var n := First(t, FunctionReturnType, FunctionBody);
    n.Some? && exists r :: Drops(ToText(fmt, n.value), r) && IsTrimmed(r, name)
  }

  lemma ReturnRefNames(c: Config, log: seq<Decl>, t: Tree)
    ensures ReturnRef(c, log, t).Some? ==>
      ReturnRef(c, log, t).value.Ref? && ReturnNamed(c.fmt, t, ReturnRef(c, log, t).value.name)
  {
    hide ToText, First, TrimBoth, CutKeyword, Drops;
    var n := First(t, FunctionReturnType, FunctionBody);
    if n.Some? {
      var r := CutKeyword(ToText(c.fmt, n.value));
      CutKeywordIff(ToText(c.fmt, n.value), r);
      TrimBothIff(r, TrimBoth(r));
    }
  }

  /** The type node of `t` has this text, up to white space at its ends. */
  ghost predicate TypeNamed(fmt: Format, t: Tree, name: string) {
    var n := First(t, VariableType, DataDefault);
    n.Some? && IsTrimmed(ToText(fmt, n.value), name)
  }

  lemma VariableRefNames(c: Config, log: seq<Decl>, t: Tree)
    ensures VariableRef(c, log, t).Some? ==>
      var ref := VariableRef(c, log, t).value;
      if ref.AnyRef? then First(t, VariableType, DataDefault).None? || c.weak else TypeNamed(c.fmt, t, ref.name)
  {
    hide ToText, First, TrimBoth;
    var n := First(t, VariableType, DataDefault);
    if n.Some? {
      TrimBothIff(ToText(c.fmt, n.value), TrimBoth(ToText(c.fmt, n.value)));
    }
  }

  /** The name node of an argument has this text, up to white space at its ends. */
  ghost predicate ArgumentNamed(fmt: Format, arg: Tree, name: string) {
    var n := First(arg, VariableName, DataDefault);
    n.Some? && IsTrimmed(ToText(fmt, n.value), name)
  }

  function ArgumentName(fmt: Format, arg: Tree): string {
    var name := First(arg, VariableName, DataDefault);
    if name.None? then "" else TrimBoth(ToText(fmt, name.value))
  }

  /** The type of an argument.  Without a name an assertion fails; without a type, or with an unknown type, a
      null pointer is followed. */
  ghost function ArgumentRef(c: Config, log: seq<Decl>, arg: Tree): Option<TypeRef> {
    var name, typeNode := First(arg, VariableName, DataDefault), First(arg, VariableType, DataDefault);
    if name.None? || typeNode.None? then None else Lookup(c, log, TrimBoth(ToText(c.fmt, typeNode.value)))
  }

  lemma ArgumentRefNames(c: Config, log: seq<Decl>, arg: Tree)
    ensures ArgumentRef(c, log, arg).Some? ==>
      && ArgumentRef(c, log, arg).value.Ref? && TypeNamed(c.fmt, arg, ArgumentRef(c, log, arg).value.name)
      && ArgumentNamed(c.fmt, arg, ArgumentName(c.fmt, arg))
  {
    hide ToText, First, TrimBoth;
    var n, m := First(arg, VariableType, DataDefault), First(arg, VariableName, DataDefault);
    if n.Some? && m.Some? {
      TrimBothIff(ToText(c.fmt, n.value), TrimBoth(ToText(c.fmt, n.value)));
      TrimBothIff(ToText(c.fmt, m.value), TrimBoth(ToText(c.fmt, m.value)));
    }
  }

  ghost function ArgumentRefs(c: Config, log: seq<Decl>, args: seq<Tree>): (r: Option<seq<TypeRef>>)
    ensures r.Some? ==> |r.value| == |args|
  {
    if args == [] then Some([])
    else
      var front, last := ArgumentRefs(c, log, args[..|args| - 1]), ArgumentRef(c, log, args[|args| - 1]);
      if front.None? || last.None? then None else Some(front.value + [last.value])
  }

  /** The arguments: in the scope of the body, under the id of the whole definition. */
  function ArgumentDecls(fmt: Format, scope: ScopeId, sid: nat, args: seq<Tree>, refs: seq<TypeRef>): seq<Decl>
    requires |args| == |refs|
  {
    if args == [] then []
    else
      var k := |args| - 1;
      ArgumentDecls(fmt, scope, sid, args[..k], refs[..k])
      + [ArgumentDecl(scope, ArgumentName(fmt, args[k]), sid, refs[k])]
  }

  /** The arguments and the body, if there is one. */
  ghost function CollectBody(c: Config, log: seq<Decl>, t: Tree, refs: seq<TypeRef>): Option<seq<Decl>>
    requires t.Node? && Defines(t.info.dataType) && |refs| == |All(t, FunctionArgument, FunctionBody)|
    decreases Size(t), 0, 1
  {
    match First(t, FunctionBody, DataDefault)
    case None => Some(log)
    case Some(body) => CollectInner(c, log, t, body, All(t, FunctionArgument, FunctionBody), refs)
  }

  ghost function CollectInner(c: Config, log: seq<Decl>, t: Tree, body: Tree, args: seq<Tree>, refs: seq<TypeRef>)
    : Option<seq<Decl>>
    requires t.Node? && body.Node? && Size(body) < Size(t) && |refs| == |args|
    decreases Size(t), 0, 0
  {
    Collect(c, log + ArgumentDecls(c.fmt, body.info.scopeId, t.info.sid, args, refs), body)
  }

  /** A class: what its body declares, then its name in the scope of the definition under the id of the whole
      definition.  Without a body, a name or a string in the name an assertion fails. */
  ghost function CollectClass(c: Config, log: seq<Decl>, t: Tree): Option<seq<Decl>>
    requires t.Node? && Defines(t.info.dataType)
    decreases Size(t), 1
  {
    var name, body := First(t, ClassName, DataDefault), First(t, ClassBody, DataDefault);
    if t.info.dataType != ClassDefinition || name.None? || body.None? || !name.value.info.data.Str? then None
    else CollectNamedClass(c, log, t, TrimBoth(name.value.info.data.s), body.value)
  }

  ghost function CollectNamedClass(c: Config, log: seq<Decl>, t: Tree, name: string, body: Tree): Option<seq<Decl>>
    requires t.Node? && body.Node? && Size(body) < Size(t)
    decreases Size(t), 0
  {
    var inner := Collect(c, log, body);
    if inner.None? then None
    else Some(inner.value + [ClassDecl(t.info.scopeId, name, t.info.sid, body.info.scopeId)])
  }

  /** A whole program; a large one declares nothing. */
  ghost function CollectProgram(c: Config, t: Tree): Option<seq<Decl>> {
    if Size(t) > MAX_NODES then Some([]) else Collect(c, [], t)
  }

  // ---------------------------------------------------------------------------------------------
  // Where declarations come from
  // ---------------------------------------------------------------------------------------------

  /** `d` belongs to the definition at `p`, by the node at `q`: the name of a variable or of a function, the
      argument, the name of the class.  Arguments lie in the scope of a function body, and a class takes its
      members from the scope of a class body. */
  ghost predicate DeclaredAt(fmt: Format, t: Tree, d: Decl, p: Path, q: Path) {
    && p <= q && Has(t, p) && Has(t, q) && Defines(At(t, p).info.dataType)
    && DeclaredBy(fmt, At(t, p).info, At(t, q), d)
    && (d.ArgumentDecl? ==> BodyBelow(t, p, FunctionBody, d.scope))
    && (d.ClassDecl? ==> BodyBelow(t, p, ClassBody, d.body))
  }

  predicate DeclaredBy(fmt: Format, def: Info, n: Tree, d: Decl) {
    n.Node?
    && match d
       case VariableDecl(scope, name, sid, _) =>
         n.info.dataType == VariableName && scope == def.scopeId && sid == n.info.sid && name == ToText(fmt, n)
       case FunctionDecl(scope, name, sid, _, _) =>
         n.info.dataType == FunctionName && scope == def.scopeId && sid == n.info.sid && name == Strip(ToText(fmt, n))
       case ArgumentDecl(_, name, sid, _) =>
         n.info.dataType == FunctionArgument && sid == def.sid && name == ArgumentName(fmt, n)
       case ClassDecl(scope, name, sid, _) =>
         n.info.dataType == ClassName && scope == def.scopeId && sid == def.sid
         && n.info.data.Str? && name == TrimBoth(n.info.data.s)
  }

  ghost predicate BodyBelow(t: Tree, p: Path, d: DataType, scope: ScopeId) {
    exists b :: IsBody(t, p, b, d, scope)
  }

  predicate IsBody(t: Tree, p: Path, b: Path, d: DataType, scope: ScopeId) {
    p <= b && Has(t, b) && At(t, b).info.dataType == d && At(t, b).info.scopeId == scope
  }

  ghost predicate HasPlace(fmt: Format, t: Tree, d: Decl) {
    exists p, q :: DeclaredAt(fmt, t, d, p, q)
  }

  /** The declarations after those of `a` come from definitions of `t`. */
  ghost predicate MoreFrom(fmt: Format, t: Tree, a: seq<Decl>, b: seq<Decl>) {
    a <= b && forall k :: |a| <= k < |b| ==> HasPlace(fmt, t, b[k])
  }

  lemma MoreFromBoth(fmt: Format, t: Tree, a: seq<Decl>, b: seq<Decl>, c: seq<Decl>)
    requires MoreFrom(fmt, t, a, b) && MoreFrom(fmt, t, b, c)
    ensures MoreFrom(fmt, t, a, c)
  {
    assert forall k :: 0 <= k < |b| ==> c[k] == b[k];
  }

  lemma MoreFromList(fmt: Format, t: Tree, a: seq<Decl>, ds: seq<Decl>)
    requires forall d :: d in ds ==> HasPlace(fmt, t, d)
    ensures MoreFrom(fmt, t, a, a + ds)
  {
  }

  lemma {:induction false} AtAppend(t: Tree, r: Path, p: Path)
    requires Has(t, r) && Has(At(t, r), p)
    ensures Has(t, r + p) && At(t, r + p) == At(At(t, r), p)
  {
    if r == [] {
      assert r + p == p;
    } else {
      AtAppend(Child(t, r[0]), r[1..], p);
      assert (r + p)[0] == r[0] && (r + p)[1..] == r[1..] + p;
    }
  }

  lemma PrefixAppend(r: Path, p: Path, q: Path)
    requires p <= q
    ensures r + p <= r + q
  {
    assert q == p + q[|p|..];
    assert r + q == r + p + q[|p|..];
  }

  lemma BodyLifts(t: Tree, r: Path, p: Path, d: DataType, scope: ScopeId)
    requires Has(t, r) && BodyBelow(At(t, r), p, d, scope)
    ensures BodyBelow(t, r + p, d, scope)
  {
    var b :| IsBody(At(t, r), p, b, d, scope);
    AtAppend(t, r, b);
    PrefixAppend(r, p, b);
    assert IsBody(t, r + p, r + b, d, scope);
  }

  /** What a subtree declares, the tree declares. */
  lemma PlaceLifts(fmt: Format, t: Tree, r: Path, d: Decl)
    requires Has(t, r) && HasPlace(fmt, At(t, r), d)
    ensures HasPlace(fmt, t, d)
  {
    var p, q :| DeclaredAt(fmt, At(t, r), d, p, q);
    AtAppend(t, r, p);
    AtAppend(t, r, q);
    PrefixAppend(r, p, q);
    if d.ArgumentDecl? {
      BodyLifts(t, r, p, FunctionBody, d.scope);
    }
    if d.ClassDecl? {
      BodyLifts(t, r, p, ClassBody, d.body);
    }
    assert DeclaredAt(fmt, t, d, r + p, r + q);
  }

  lemma MoreFromPart(fmt: Format, t: Tree, r: Path, a: seq<Decl>, b: seq<Decl>)
    requires Has(t, r) && MoreFrom(fmt, At(t, r), a, b)
    ensures MoreFrom(fmt, t, a, b)
  {
    forall k | |a| <= k < |b|
      ensures HasPlace(fmt, t, b[k])
    {
      PlaceLifts(fmt, t, r, b[k]);
    }
  }

  lemma {:induction false} VariablesHavePlaces(fmt: Format, t: Tree, names: seq<Tree>, ref: TypeRef, d: Decl)
    requires t.Node? && Defines(t.info.dataType) && d in VariableDecls(fmt, t.info.scopeId, names, ref)
    requires forall n :: n in names ==> n in All(t, VariableName, DataDefault)
    ensures HasPlace(fmt, t, d)
  {
    var front, last := names[..|names| - 1], names[|names| - 1];
    if d in VariableDecls(fmt, t.info.scopeId, front, ref) {
      VariablesHavePlaces(fmt, t, front, ref, d);
    } else {
      assert last in names;
      var q := ResultIsUncovered(t, VariableName, DataDefault, last);
      UncoveredMeans(t, VariableName, DataDefault, q, []);
      assert DeclaredAt(fmt, t, d, [], q);
    }
  }

  lemma {:induction false} ArgumentsHavePlaces(fmt: Format, t: Tree, body: Tree, args: seq<Tree>, refs: seq<TypeRef>,
                                               d: Decl)
    requires t.Node? && Defines(t.info.dataType) && First(t, FunctionBody, DataDefault) == Some(body)
      && |args| == |refs|
    requires d in ArgumentDecls(fmt, body.info.scopeId, t.info.sid, args, refs)
    requires forall n :: n in args ==> n in All(t, FunctionArgument, FunctionBody)
    ensures HasPlace(fmt, t, d)
  {
    var k := |args| - 1;
    if d in ArgumentDecls(fmt, body.info.scopeId, t.info.sid, args[..k], refs[..k]) {
      ArgumentsHavePlaces(fmt, t, body, args[..k], refs[..k], d);
    } else {
      assert args[k] in args;
      var q := ResultIsUncovered(t, FunctionArgument, FunctionBody, args[k]);
      UncoveredMeans(t, FunctionArgument, FunctionBody, q, []);
      var b := FirstPlace(t, FunctionBody, DataDefault);
      UncoveredMeans(t, FunctionBody, DataDefault, b, []);
      assert IsBody(t, [], b, FunctionBody, body.info.scopeId);
      assert DeclaredAt(fmt, t, d, [], q);
    }
  }

  lemma FunctionHasPlace(c: Config, log: seq<Decl>, t: Tree, refs: seq<TypeRef>, d: Decl)
    requires t.Node? && Defines(t.info.dataType) && First(t, FunctionName, FunctionBody).Some?
    requires var name := First(t, FunctionName, FunctionBody).value;
      d in FunctionDecls(c, log, t, Strip(ToText(c.fmt, name)), name.info.sid, refs)
    ensures HasPlace(c.fmt, t, d)
  {
    var q := FirstPlace(t, FunctionName, FunctionBody);
    UncoveredMeans(t, FunctionName, FunctionBody, q, []);
    assert DeclaredAt(c.fmt, t, d, [], q);
  }

  lemma ClassHasPlace(fmt: Format, t: Tree, name: Tree, body: Tree)
    requires t.Node? && Defines(t.info.dataType) && First(t, ClassName, DataDefault) == Some(name)
    requires First(t, ClassBody, DataDefault) == Some(body) && name.info.data.Str?
    ensures HasPlace(fmt, t, ClassDecl(t.info.scopeId, TrimBoth(name.info.data.s), t.info.sid, body.info.scopeId))
  {
    var q := FirstPlace(t, ClassName, DataDefault);
    var b := FirstPlace(t, ClassBody, DataDefault);
    UncoveredMeans(t, ClassName, DataDefault, q, []);
    UncoveredMeans(t, ClassBody, DataDefault, b, []);
    assert IsBody(t, [], b, ClassBody, body.info.scopeId);
    var d := ClassDecl(t.info.scopeId, TrimBoth(name.info.data.s), t.info.sid, body.info.scopeId);
    assert DeclaredAt(fmt, t, d, [], q);
  }

  /** Every collected declaration comes from a definition of the tree. */
  lemma {:induction false} CollectedHavePlaces(c: Config, log: seq<Decl>, t: Tree)
    requires Collect(c, log, t).Some?
    ensures MoreFrom(c.fmt, t, log, Collect(c, log, t).value)
    decreases Size(t), 2
  {
    if t.Nil? {
    } else if !Defines(t.info.dataType) {
      var mid := Collect(c, log, t.left).value;
      CollectedHavePlaces(c, log, t.left);
      CollectedHavePlaces(c, mid, t.right);
      ChildPart(c.fmt, t, L, log, mid);
      ChildPart(c.fmt, t, R, mid, Collect(c, mid, t.right).value);
      MoreFromBoth(c.fmt, t, log, mid, Collect(c, log, t).value);
    } else {
      match FindDefineType(t)
      case FunctionDefinition => FunctionHasPlaces(c, log, t);
      case ClassDefinition => ClassHasPlaces(c, log, t);
      case _ =>
        var names, ref := All(t, VariableName, DataDefault), VariableRef(c, log, t).value;
        forall d | d in VariableDecls(c.fmt, t.info.scopeId, names, ref)
          ensures HasPlace(c.fmt, t, d)
        {
          VariablesHavePlaces(c.fmt, t, names, ref, d);
        }
        MoreFromList(c.fmt, t, log, VariableDecls(c.fmt, t.info.scopeId, names, ref));
    }
  }

  lemma ChildPart(fmt: Format, t: Tree, dir: Dir, a: seq<Decl>, b: seq<Decl>)
    requires t.Node? && MoreFrom(fmt, Child(t, dir), a, b) && (Child(t, dir).Nil? ==> a == b)
    ensures MoreFrom(fmt, t, a, b)
  {
    if Child(t, dir).Node? {
      assert [dir][1..] == [];
      MoreFromPart(fmt, t, [dir], a, b);
    }
  }

  lemma {:induction false} FunctionHasPlaces(c: Config, log: seq<Decl>, t: Tree)
    requires t.Node? && Defines(t.info.dataType) && CollectFunction(c, log, t).Some?
    ensures MoreFrom(c.fmt, t, log, CollectFunction(c, log, t).value)
    decreases Size(t), 1
  {
    var name := First(t, FunctionName, FunctionBody).value;
    var s := Strip(ToText(c.fmt, name));
    if s == "" {
      MoreFromList(c.fmt, t, log, []);
      assert log + [] == log;
    } else {
      var refs := ArgumentRefs(c, log, All(t, FunctionArgument, FunctionBody)).value;
      var ds := FunctionDecls(c, log, t, s, name.info.sid, refs);
      forall d | d in ds
        ensures HasPlace(c.fmt, t, d)
      {
        FunctionHasPlace(c, log, t, refs, d);
      }
      MoreFromList(c.fmt, t, log, ds);
      BodyHasPlaces(c, log + ds, t, refs);
      MoreFromBoth(c.fmt, t, log, log + ds, CollectBody(c, log + ds, t, refs).value);
    }
  }

  lemma {:induction false} BodyHasPlaces(c: Config, log: seq<Decl>, t: Tree, refs: seq<TypeRef>)
    requires t.Node? && Defines(t.info.dataType) && |refs| == |All(t, FunctionArgument, FunctionBody)|
    requires CollectBody(c, log, t, refs).Some?
    ensures MoreFrom(c.fmt, t, log, CollectBody(c, log, t, refs).value)
    decreases Size(t), 0
  {
    if First(t, FunctionBody, DataDefault).Some? {
      var body, args := First(t, FunctionBody, DataDefault).value, All(t, FunctionArgument, FunctionBody);
      var ds := ArgumentDecls(c.fmt, body.info.scopeId, t.info.sid, args, refs);
      forall d | d in ds
        ensures HasPlace(c.fmt, t, d)
      {
        ArgumentsHavePlaces(c.fmt, t, body, args, refs, d);
      }
      MoreFromList(c.fmt, t, log, ds);
      CollectedHavePlaces(c, log + ds, body);
      var b := FirstPlace(t, FunctionBody, DataDefault);
      MoreFromPart(c.fmt, t, b, log + ds, Collect(c, log + ds, body).value);
      MoreFromBoth(c.fmt, t, log, log + ds, Collect(c, log + ds, body).value);
    }
  }

  lemma {:induction false} ClassHasPlaces(c: Config, log: seq<Decl>, t: Tree)
    requires t.Node? && Defines(t.info.dataType) && CollectClass(c, log, t).Some?
    ensures MoreFrom(c.fmt, t, log, CollectClass(c, log, t).value)
    decreases Size(t), 1
  {
    var name, body := First(t, ClassName, DataDefault).value, First(t, ClassBody, DataDefault).value;
    var inner := Collect(c, log, body).value;
    CollectedHavePlaces(c, log, body);
    var b := FirstPlace(t, ClassBody, DataDefault);
    MoreFromPart(c.fmt, t, b, log, inner);
    ClassHasPlace(c.fmt, t, name, body);
    var d := ClassDecl(t.info.scopeId, TrimBoth(name.info.data.s), t.info.sid, body.info.scopeId);
    MoreFromList(c.fmt, t, inner, [d]);
    MoreFromBoth(c.fmt, t, log, inner, inner + [d]);
  }
}
