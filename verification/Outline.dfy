/** The declarations of a program by their places: the collection of definitions
    (srcs/internal/srcs/var_definition.cpp) as a run over the reached definitions in text order, what each of them
    declares under which type, and when the collection fails. */
module Outline {
  import opened Common
  import opened IrTree
  import opened Trimming
  import opened Symbols
  import opened Declarations
  import opened CollectionOrder

  // ---------------------------------------------------------------------------------------------
  // The collection is a run over the events
  // ---------------------------------------------------------------------------------------------

  ghost predicate Proper(es: seq<Event>) {
    forall i :: 0 <= i < |es| ==> es[i].def.Node? && Defines(es[i].def.info.dataType)
                                  && (es[i].stage == Closing ==> FindDefineType(es[i].def) == ClassDefinition)
  }

  predicate IsClass(def: Tree)
    requires def.Node?
  {
    var name := First(def, ClassName, DataDefault);
    && def.info.dataType == ClassDefinition && First(def, ClassBody, DataDefault).Some?
    && name.Some? && name.value.info.data.Str?
  }

  function ClassOf(def: Tree): Decl
    requires def.Node? && IsClass(def)
  {
    ClassDecl(def.info.scopeId, TrimBoth(First(def, ClassName, DataDefault).value.info.data.s), def.info.sid,
              First(def, ClassBody, DataDefault).value.info.scopeId)
  }

  /** The arguments, if there is a body. */
  function ArgumentsFor(fmt: Format, def: Tree, refs: seq<TypeRef>): seq<Decl>
    requires def.Node? && |refs| == |All(def, FunctionArgument, FunctionBody)|
  {
    match First(def, FunctionBody, DataDefault)
    case None => []
    case Some(body) =>
      ArgumentDecls(fmt, body.info.scopeId, def.info.sid, All(def, FunctionArgument, FunctionBody), refs)
  }

  ghost function OpenFunction(c: Config, log: seq<Decl>, def: Tree): Option<seq<Decl>>
    requires def.Node?
  {
    match First(def, FunctionName, FunctionBody)
    case None => None
    case Some(n) =>
      var name := Strip(ToText(c.fmt, n));
      if name == "" then Some(log)
      else
        var refs := ArgumentRefs(c, log, All(def, FunctionArgument, FunctionBody));
        if refs.None? then None
        else Some(log + FunctionDecls(c, log, def, name, n.info.sid, refs.value)
                  + ArgumentsFor(c.fmt, def, refs.value))
  }

  /** One event: a definition of variables or a function enters its names when it is opened, a class when it is
      closed. */
  ghost function Step(c: Config, log: seq<Decl>, e: Event): Option<seq<Decl>>
    requires e.def.Node?
  {
    if e.stage == Closing then
      if IsClass(e.def) then Some(log + [ClassOf(e.def)]) else None
    else
      match FindDefineType(e.def)
      case FunctionDefinition => OpenFunction(c, log, e.def)
      case ClassDefinition => if IsClass(e.def) then Some(log) else None
      case _ => CollectVariables(c, log, e.def)
  }

  ghost function Run(c: Config, log: seq<Decl>, es: seq<Event>): Option<seq<Decl>>
    requires Proper(es)
  {
    if es == [] then Some(log)
    else
      var before := Run(c, log, es[..|es| - 1]);
      if before.None? then None else Step(c, before.value, es[|es| - 1])
  }

  ghost function RunOn(c: Config, log: Option<seq<Decl>>, es: seq<Event>): Option<seq<Decl>>
    requires Proper(es)
  {
    if log.None? then None else Run(c, log.value, es)
  }

  lemma {:induction false} RunBoth(c: Config, log: seq<Decl>, a: seq<Event>, b: seq<Event>)
    requires Proper(a) && Proper(b)
    ensures Proper(a + b) && Run(c, log, a + b) == RunOn(c, Run(c, log, a), b)
  {
    hide Step, FindDefineType, Defines;
    if b == [] {
      assert a + b == a;
    } else {
      RunBoth(c, log, a, b[..|b| - 1]);
      assert (a + b)[..|a + b| - 1] == a + b[..|b| - 1] && (a + b)[|a + b| - 1] == b[|b| - 1];
    }
  }

  lemma StepLifted(c: Config, log: seq<Decl>, e: Event, p: Path)
    requires e.def.Node?
    ensures Step(c, log, e.(at := p)) == Step(c, log, e)
  {
  }

  /** Places do not matter. */
  lemma {:induction false} RunLifted(c: Config, log: seq<Decl>, b: Path, es: seq<Event>)
    requires Proper(es)
    ensures Proper(Lift(b, es)) && Run(c, log, Lift(b, es)) == Run(c, log, es)
  {
    hide Step, FindDefineType, Defines;
    if es != [] {
      var k := |es| - 1;
      RunLifted(c, log, b, es[..k]);
      assert Lift(b, es)[..k] == Lift(b, es[..k]) && Lift(b, es)[k] == es[k].(at := b + es[k].at);
      if Run(c, log, es[..k]).Some? {
        StepLifted(c, Run(c, log, es[..k]).value, es[k], b + es[k].at);
      }
    }
  }

  lemma RunOne(c: Config, log: seq<Decl>, e: Event)
    requires e.def.Node? && Proper([e])
    ensures Run(c, log, [e]) == Step(c, log, e)
  {
    assert [e][..0] == [];
  }

  lemma EventsAreProper(fmt: Format, t: Tree)
    ensures Proper(Events(fmt, t))
  {
    var es := Events(fmt, t);
    forall i | 0 <= i < |es|
      ensures es[i].def.Node? && Defines(es[i].def.info.dataType)
      ensures es[i].stage == Closing ==> FindDefineType(es[i].def) == ClassDefinition
    {
      EventIff(fmt, t, es[i]);
      ReachedDefines(fmt, t, es[i].at);
    }
  }

  lemma {:induction false} ReachedDefines(fmt: Format, t: Tree, p: Path)
    requires Reached(fmt, t, p) && Has(t, p)
    ensures At(t, p).Node? && Defines(At(t, p).info.dataType)
    decreases |p|
  {
    if !Defines(t.info.dataType) {
      ReachedDefines(fmt, Child(t, p[0]), p[1..]);
    } else if p != [] {
      var b := BodyPath(fmt, t).value;
      AtSplit(t, b, p);
      ReachedDefines(fmt, At(t, b), p[|b|..]);
    }
  }

  /** The recursive collection is the run over the events, one after the other. */
  lemma {:induction false} CollectIsRun(c: Config, log: seq<Decl>, t: Tree)
    ensures Proper(Events(c.fmt, t)) && Collect(c, log, t) == Run(c, log, Events(c.fmt, t))
    decreases Size(t), 2
  {
    EventsAreProper(c.fmt, t);
    if t.Node? {
      if !Defines(t.info.dataType) {
        var a, b := Events(c.fmt, t.left), Events(c.fmt, t.right);
        CollectIsRun(c, log, t.left);
        RunLifted(c, log, [L], a);
        EventsAreProper(c.fmt, t.right);
        RunLifted(c, log, [R], b);
        RunBoth(c, log, Lift([L], a), Lift([R], b));
        if Run(c, log, a).Some? {
          var mid := Run(c, log, a).value;
          CollectIsRun(c, mid, t.right);
          RunLifted(c, mid, [R], b);
        }
      } else {
        DefinitionIsRun(c, log, t);
      }
    }
  }

  lemma DefinitionIsRun(c: Config, log: seq<Decl>, t: Tree)
    requires t.Node? && Defines(t.info.dataType) && Proper(Events(c.fmt, t))
    ensures Collect(c, log, t) == Run(c, log, Events(c.fmt, t))
    decreases Size(t), 1
  {
    hide First, All, BodyOf, BodyPath, Collect, Step;
    var open, inside, closed := [Event(Opening, [], t)], Inside(c.fmt, t), Closed(t);
    assert Events(c.fmt, t) == open + inside + closed;
    EventParts(open, inside, closed);
    RunOne(c, log, open[0]);
    RunBoth(c, log, open, inside);
    RunBoth(c, log, open + inside, closed);
    var mid := Step(c, log, open[0]);
    if mid.Some? {
      InsideIsRun(c, mid.value, t);
    }
    DefinitionByParts(c, log, t);
  }

  lemma EventParts(a: seq<Event>, b: seq<Event>, c: seq<Event>)
    requires Proper(a + b + c)
    ensures Proper(a) && Proper(b) && Proper(c)
  {
    var es := a + b + c;
    assert forall i :: 0 <= i < |a| ==> es[i] == a[i];
    assert forall i :: 0 <= i < |b| ==> es[|a| + i] == b[i];
    assert forall i :: 0 <= i < |c| ==> es[|a| + |b| + i] == c[i];
  }

  /** The body on its own. */
  ghost function CollectedBody(c: Config, log: seq<Decl>, t: Tree): Option<seq<Decl>> {
    match BodyOf(c.fmt, t)
    case None => Some(log)
    case Some(body) => Collect(c, log, body)
  }

  lemma InsideIsRun(c: Config, log: seq<Decl>, t: Tree)
    requires t.Node? && Defines(t.info.dataType)
    ensures Proper(Inside(c.fmt, t)) && Run(c, log, Inside(c.fmt, t)) == CollectedBody(c, log, t)
    decreases Size(t), 0
  {
    hide First, All, BodyOf, BodyPath;
    if BodyOf(c.fmt, t).Some? {
      BodyIsInside(c.fmt, t);
      var b, body := BodyPath(c.fmt, t).value, BodyOf(c.fmt, t).value;
      CollectIsRun(c, log, body);
      RunLifted(c, log, b, Events(c.fmt, body));
    }
  }

  /** A definition is opened, its body is collected, and it is closed if it is a class. */
  ghost predicate ByParts(c: Config, log: seq<Decl>, t: Tree, out: Option<seq<Decl>>)
    requires t.Node? && Proper(Closed(t))
  {
    var mid := Step(c, log, Event(Opening, [], t));
    out == if mid.None? then None else RunOn(c, CollectedBody(c, mid.value, t), Closed(t))
  }

  lemma DefinitionByParts(c: Config, log: seq<Decl>, t: Tree)
    requires t.Node? && Defines(t.info.dataType) && Proper(Closed(t))
    ensures ByParts(c, log, t, Collect(c, log, t))
  {
    match FindDefineType(t)
    case FunctionDefinition => FunctionByParts(c, log, t);
    case ClassDefinition => ClassByParts(c, log, t);
    case _ =>
  }

  lemma BodyByParts(c: Config, log: seq<Decl>, t: Tree, refs: seq<TypeRef>)
    requires t.Node? && Defines(t.info.dataType) && FindDefineType(t) == FunctionDefinition
    requires |refs| == |All(t, FunctionArgument, FunctionBody)| && FunctionText(c.fmt, t).Some?
    ensures CollectBody(c, log, t, refs) == CollectedBody(c, log + ArgumentsFor(c.fmt, t, refs), t)
  {
    hide First, All, ToText, Strip;
    assert log + [] == log;
    if First(t, FunctionBody, DataDefault).Some? {
      var body := First(t, FunctionBody, DataDefault).value;
      var args := All(t, FunctionArgument, FunctionBody);
      assert CollectBody(c, log, t, refs) == CollectInner(c, log, t, body, args, refs);
    }
  }

  lemma FunctionByParts(c: Config, log: seq<Decl>, t: Tree)
    requires t.Node? && Defines(t.info.dataType) && FindDefineType(t) == FunctionDefinition
    ensures ByParts(c, log, t, CollectFunction(c, log, t))
  {
    hide First, All, ToText, Strip, ArgumentRefs, FunctionDecls;
    var n := First(t, FunctionName, FunctionBody);
    if n.Some? && Strip(ToText(c.fmt, n.value)) != "" {
      var refs := ArgumentRefs(c, log, All(t, FunctionArgument, FunctionBody));
      if refs.Some? {
        var name := Strip(ToText(c.fmt, n.value));
        var ds := FunctionDecls(c, log, t, name, n.value.info.sid, refs.value);
        assert log + ds + [] == log + ds;
        assert CollectNamed(c, log, t, name, n.value.info.sid) == CollectBody(c, log + ds, t, refs.value);
        BodyByParts(c, log + ds, t, refs.value);
      }
    }
  }

  lemma ClassByParts(c: Config, log: seq<Decl>, t: Tree)
    requires t.Node? && Defines(t.info.dataType) && FindDefineType(t) == ClassDefinition
    ensures ByParts(c, log, t, CollectClass(c, log, t))
  {
    hide First, All;
    if IsClass(t) {
      var inner := CollectedBody(c, log, t);
      if inner.Some? {
        RunOne(c, inner.value, Event(Closing, [], t));
      }
    }
  }

  // ---------------------------------------------------------------------------------------------
  // What each event declares, and what is known by then
  // ---------------------------------------------------------------------------------------------

  ghost predicate IsBasic(c: Config, s: string) {
    exists k :: k in c.basics && c.basics[k] == s
  }

  /** The type that the name `s` denotes at event `k`: a basic type, a class that was closed before, or a function that
      was opened before. */
  ghost function Knows(c: Config, es: seq<Event>, k: nat, s: string): Option<TypeRef>
    requires Proper(es) && k <= |es|
    decreases k, 0
  {
    if IsBasic(c, s) then Some(Ref(BasicSort, s))
    else if exists j, d :: 0 <= j < k && Declares(c, es, j, d) && d.ClassDecl? && d.name == s then
      Some(Ref(ClassSort, s))
    else if exists j, d :: 0 <= j < k && Declares(c, es, j, d) && d.FunctionDecl? && d.name == s then
      Some(Ref(FunctionSort, s))
    else None
  }

  function TypeText(fmt: Format, n: Tree): string {
    TrimBoth(ToText(fmt, n))
  }

  /** The type of the variables of a definition: any type without a type node, and in weak mode also under an unknown
      name. */
  ghost function TypeOfNames(c: Config, es: seq<Event>, k: nat): Option<TypeRef>
    requires Proper(es) && k < |es|
    decreases k, 1
  {
    match First(es[k].def, VariableType, DataDefault)
    case None => Some(AnyRef)
    case Some(n) =>
      var found := Knows(c, es, k, TypeText(c.fmt, n));
      if found.None? && c.weak then Some(AnyRef) else found
  }

  ghost function ArgumentType(c: Config, es: seq<Event>, k: nat, arg: Tree): Option<TypeRef>
    requires Proper(es) && k < |es|
    decreases k, 1
  {
    match First(arg, VariableType, DataDefault)
    case None => None
    case Some(n) => Knows(c, es, k, TypeText(c.fmt, n))
  }

  ghost function ReturnType(c: Config, es: seq<Event>, k: nat): Option<TypeRef>
    requires Proper(es) && k < |es|
    decreases k, 1
  {
    match First(es[k].def, FunctionReturnType, FunctionBody)
    case None => None
    case Some(n) => Knows(c, es, k, TrimBoth(CutKeyword(ToText(c.fmt, n))))
  }

  /** The types of the arguments, in order. */
  ghost predicate IsSignature(c: Config, es: seq<Event>, k: nat, refs: seq<TypeRef>)
    requires Proper(es) && k < |es|
    decreases k, 2
  {
    var args := All(es[k].def, FunctionArgument, FunctionBody);
    |refs| == |args| && forall i :: 0 <= i < |args| ==> ArgumentType(c, es, k, args[i]) == Some(refs[i])
  }

  ghost predicate IsName(fmt: Format, def: Tree, q: Path, name: string, sid: nat) {
    && Uncovered(def, VariableName, DataDefault, q) && Has(def, q)
    && name == ToText(fmt, At(def, q)) && sid == At(def, q).info.sid
  }

  ghost predicate IsArgument(c: Config, es: seq<Event>, k: nat, q: Path, name: string, typ: TypeRef)
    requires Proper(es) && k < |es|
    decreases k, 2
  {
    var def := es[k].def;
    && Uncovered(def, FunctionArgument, FunctionBody, q) && Has(def, q)
    && name == ArgumentName(c.fmt, At(def, q)) && ArgumentType(c, es, k, At(def, q)) == Some(typ)
  }

  predicate IsFunctionName(fmt: Format, def: Tree, name: string, sid: nat) {
    var n := First(def, FunctionName, FunctionBody);
    n.Some? && name != "" && name == Strip(ToText(fmt, n.value)) && sid == n.value.info.sid
  }

  /** What event `k` declares: at the opening the variables of the definition, or the function if its return type is
      known, and its arguments for its body; at the closing the class. */
  ghost predicate Declares(c: Config, es: seq<Event>, k: nat, d: Decl)
    requires Proper(es) && k < |es|
    decreases k, 3
  {
    var def, kind := es[k].def, FindDefineType(es[k].def);
    match d
    case VariableDecl(scope, name, sid, typ) =>
      && es[k].stage == Opening && kind != FunctionDefinition && kind != ClassDefinition && scope == def.info.scopeId
      && TypeOfNames(c, es, k) == Some(typ) && (exists q :: IsName(c.fmt, def, q, name, sid))
    case FunctionDecl(scope, name, sid, ret, args) =>
      && es[k].stage == Opening && kind == FunctionDefinition && scope == def.info.scopeId
      && IsFunctionName(c.fmt, def, name, sid) && ReturnType(c, es, k) == Some(ret) && IsSignature(c, es, k, args)
    case ArgumentDecl(scope, name, sid, typ) =>
      && es[k].stage == Opening && kind == FunctionDefinition && BodyOf(c.fmt, def).Some?
      && scope == BodyOf(c.fmt, def).value.info.scopeId && sid == def.info.sid
      && (exists q :: IsArgument(c, es, k, q, name, typ))
    case ClassDecl(_, _, _, _) => es[k].stage == Closing && IsClass(def) && d == ClassOf(def)
  }

  /** Some event before `k` declares it. */
  ghost predicate DeclaredBefore(c: Config, es: seq<Event>, k: nat, d: Decl)
    requires Proper(es) && k <= |es|
  {
    exists j :: 0 <= j < k && Declares(c, es, j, d)
  }

  // ---------------------------------------------------------------------------------------------
  // The run enters exactly that
  // ---------------------------------------------------------------------------------------------

  ghost predicate Agrees(c: Config, log: seq<Decl>, es: seq<Event>, k: nat)
    requires Proper(es) && k <= |es|
  {
    forall s :: Lookup(c, log, s) == Knows(c, es, k, s)
  }

  ghost predicate Listed(c: Config, log: seq<Decl>, es: seq<Event>, k: nat)
    requires Proper(es) && k <= |es|
  {
    forall d :: d in log <==> DeclaredBefore(c, es, k, d)
  }

  lemma LookupAgrees(c: Config, log: seq<Decl>, es: seq<Event>, k: nat, s: string)
    requires Proper(es) && k <= |es| && Listed(c, log, es, k)
    ensures Lookup(c, log, s) == Knows(c, es, k, s)
  {
    hide Declares;
    if i :| 0 <= i < |log| && log[i].ClassDecl? && log[i].name == s {
      assert DeclaredBefore(c, es, k, log[i]);
    }
    if i :| 0 <= i < |log| && log[i].FunctionDecl? && log[i].name == s {
      assert DeclaredBefore(c, es, k, log[i]);
    }
    if j, d :| 0 <= j < k && Declares(c, es, j, d) && d.ClassDecl? && d.name == s {
      assert DeclaredBefore(c, es, k, d);
    }
    if j, d :| 0 <= j < k && Declares(c, es, j, d) && d.FunctionDecl? && d.name == s {
      assert DeclaredBefore(c, es, k, d);
    }
  }

  lemma {:induction false} VariablesListed(fmt: Format, scope: ScopeId, names: seq<Tree>, ref: TypeRef, d: Decl)
    ensures d in VariableDecls(fmt, scope, names, ref)
      <==> d.VariableDecl? && d.scope == scope && d.typ == ref
           && exists n :: n in names && n.Node? && d.name == ToText(fmt, n) && d.sid == n.info.sid
  {
    if names != [] {
      var front, last := names[..|names| - 1], names[|names| - 1];
      assert names == front + [last];
      VariablesListed(fmt, scope, front, ref, d);
    }
  }

  /** `d` has the name of the i-th argument, and its type. */
  ghost predicate NamesArgument(fmt: Format, args: seq<Tree>, refs: seq<TypeRef>, i: int, d: Decl) {
    0 <= i < |args| == |refs| && d.ArgumentDecl? && d.name == ArgumentName(fmt, args[i]) && d.typ == refs[i]
  }

  lemma {:induction false} ArgumentsListed(fmt: Format, scope: ScopeId, sid: nat, args: seq<Tree>, refs: seq<TypeRef>,
                                           d: Decl)
    requires |args| == |refs|
    ensures d in ArgumentDecls(fmt, scope, sid, args, refs)
      <==> d.ArgumentDecl? && d.scope == scope && d.sid == sid && exists i :: NamesArgument(fmt, args, refs, i, d)
  {
    hide ArgumentName;
    if args != [] {
      var k := |args| - 1;
      ArgumentsListed(fmt, scope, sid, args[..k], refs[..k], d);
      var last := ArgumentDecl(scope, ArgumentName(fmt, args[k]), sid, refs[k]);
      assert d == last <==> d.ArgumentDecl? && d.scope == scope && d.sid == sid && NamesArgument(fmt, args, refs, k, d);
      assert forall i :: i != k ==> (NamesArgument(fmt, args, refs, i, d)
                                     <==> NamesArgument(fmt, args[..k], refs[..k], i, d));
    }
  }

  lemma {:induction false} ArgumentRefsAre(c: Config, log: seq<Decl>, args: seq<Tree>)
    ensures ArgumentRefs(c, log, args).None? <==> exists a :: a in args && ArgumentRef(c, log, a).None?
    ensures ArgumentRefs(c, log, args).Some? ==>
      forall i :: 0 <= i < |args| ==> ArgumentRef(c, log, args[i]) == Some(ArgumentRefs(c, log, args).value[i])
  {
    if args != [] {
      var k := |args| - 1;
      assert args == args[..k] + [args[k]];
      ArgumentRefsAre(c, log, args[..k]);
    }
  }

  lemma VariablesExact(c: Config, log: seq<Decl>, es: seq<Event>, k: nat, d: Decl)
    requires Proper(es) && k < |es| && Agrees(c, log, es, k) && es[k].stage == Opening
    requires FindDefineType(es[k].def) != FunctionDefinition && FindDefineType(es[k].def) != ClassDefinition
    requires CollectVariables(c, log, es[k].def).Some?
    ensures d in CollectVariables(c, log, es[k].def).value <==> d in log || Declares(c, es, k, d)
  {
    var def := es[k].def;
    var names, ref := All(def, VariableName, DataDefault), VariableRef(c, log, def).value;
    assert VariableRef(c, log, def) == TypeOfNames(c, es, k);
    VariablesListed(c.fmt, def.info.scopeId, names, ref, d);
    if d.VariableDecl? {
      if n :| n in names && n.Node? && d.name == ToText(c.fmt, n) && d.sid == n.info.sid {
        var q := ResultIsUncovered(def, VariableName, DataDefault, n);
        assert IsName(c.fmt, def, q, d.name, d.sid);
      }
      if q :| IsName(c.fmt, def, q, d.name, d.sid) {
        UncoveredIsResult(def, VariableName, DataDefault, q);
      }
    }
  }

  /** The types that were read are the types by the events. */
  lemma ArgumentAgrees(c: Config, log: seq<Decl>, es: seq<Event>, k: nat, arg: Tree)
    requires Proper(es) && k < |es| && Agrees(c, log, es, k) && ArgumentRef(c, log, arg).Some?
    ensures ArgumentRef(c, log, arg) == ArgumentType(c, es, k, arg)
  {
  }

  lemma SignatureAgrees(c: Config, log: seq<Decl>, es: seq<Event>, k: nat, refs: seq<TypeRef>)
    requires Proper(es) && k < |es| && Agrees(c, log, es, k)
    requires ArgumentRefs(c, log, All(es[k].def, FunctionArgument, FunctionBody)) == Some(refs)
    ensures IsSignature(c, es, k, refs) && forall other :: IsSignature(c, es, k, other) ==> other == refs
  {
    hide All, ArgumentRef, ArgumentRefs, ArgumentType, Agrees;
    var args := All(es[k].def, FunctionArgument, FunctionBody);
    ArgumentRefsAre(c, log, args);
    forall i | 0 <= i < |args|
      ensures ArgumentType(c, es, k, args[i]) == Some(refs[i])
    {
      ArgumentAgrees(c, log, es, k, args[i]);
    }
    forall other | IsSignature(c, es, k, other)
      ensures other == refs
    {
      assert forall i :: 0 <= i < |args| ==> Some(other[i]) == Some(refs[i]);
    }
  }

  lemma FunctionListed(c: Config, log: seq<Decl>, es: seq<Event>, k: nat, name: string, sid: nat, refs: seq<TypeRef>,
                       d: Decl)
    requires Proper(es) && k < |es| && Agrees(c, log, es, k) && es[k].stage == Opening
    requires FindDefineType(es[k].def) == FunctionDefinition && IsFunctionName(c.fmt, es[k].def, name, sid)
    requires ArgumentRefs(c, log, All(es[k].def, FunctionArgument, FunctionBody)) == Some(refs)
    ensures d in FunctionDecls(c, log, es[k].def, name, sid, refs) <==> d.FunctionDecl? && Declares(c, es, k, d)
  {
    hide All, ArgumentRefs, IsSignature;
    SignatureAgrees(c, log, es, k, refs);
    assert ReturnRef(c, log, es[k].def) == ReturnType(c, es, k);
  }

  lemma ArgumentsFromBody(c: Config, log: seq<Decl>, es: seq<Event>, k: nat, refs: seq<TypeRef>, d: Decl)
    requires Proper(es) && k < |es| && Agrees(c, log, es, k) && es[k].stage == Opening
    requires FindDefineType(es[k].def) == FunctionDefinition && FunctionText(c.fmt, es[k].def).Some?
    requires ArgumentRefs(c, log, All(es[k].def, FunctionArgument, FunctionBody)) == Some(refs)
    ensures d in ArgumentsFor(c.fmt, es[k].def, refs) <==> d.ArgumentDecl? && Declares(c, es, k, d)
  {
    hide All, First, ArgumentRefs, ArgumentType, ArgumentName, Agrees, FunctionText;
    var def := es[k].def;
    var args := All(def, FunctionArgument, FunctionBody);
    SignatureAgrees(c, log, es, k, refs);
    assert BodyOf(c.fmt, def) == First(def, FunctionBody, DataDefault);
    if BodyOf(c.fmt, def).Some? {
      ArgumentsListed(c.fmt, BodyOf(c.fmt, def).value.info.scopeId, def.info.sid, args, refs, d);
      if d.ArgumentDecl? {
        if i :| NamesArgument(c.fmt, args, refs, i, d) {
          var q := ResultIsUncovered(def, FunctionArgument, FunctionBody, args[i]);
          assert IsArgument(c, es, k, q, d.name, d.typ);
        }
        if q :| IsArgument(c, es, k, q, d.name, d.typ) {
          UncoveredIsResult(def, FunctionArgument, FunctionBody, q);
          var i :| 0 <= i < |args| && args[i] == At(def, q);
          assert NamesArgument(c.fmt, args, refs, i, d);
        }
      }
    }
  }

  lemma FunctionExact(c: Config, log: seq<Decl>, es: seq<Event>, k: nat, d: Decl)
    requires Proper(es) && k < |es| && Agrees(c, log, es, k) && es[k].stage == Opening
    requires FindDefineType(es[k].def) == FunctionDefinition && OpenFunction(c, log, es[k].def).Some?
    ensures d in OpenFunction(c, log, es[k].def).value <==> d in log || Declares(c, es, k, d)
  {
    hide All, First, ArgumentRefs, FunctionDecls, ArgumentsFor, IsSignature, Agrees;
    var n := First(es[k].def, FunctionName, FunctionBody).value;
    var name := Strip(ToText(c.fmt, n));
    if name != "" {
      var refs := ArgumentRefs(c, log, All(es[k].def, FunctionArgument, FunctionBody)).value;
      FunctionListed(c, log, es, k, name, n.info.sid, refs, d);
      ArgumentsFromBody(c, log, es, k, refs, d);
    }
  }

  lemma StepExact(c: Config, log: seq<Decl>, es: seq<Event>, k: nat, d: Decl)
    requires Proper(es) && k < |es| && Agrees(c, log, es, k) && Step(c, log, es[k]).Some?
    ensures d in Step(c, log, es[k]).value <==> d in log || Declares(c, es, k, d)
  {
    hide All, First, CollectVariables, OpenFunction, Agrees;
    if es[k].stage == Opening {
      match FindDefineType(es[k].def)
      case FunctionDefinition => FunctionExact(c, log, es, k, d);
      case ClassDefinition =>
      case _ => VariablesExact(c, log, es, k, d);
    }
  }

  /** After `k` events exactly their declarations were entered, so a name denotes for the collection what it denotes by
      the events. */
  lemma {:induction false} RunExact(c: Config, es: seq<Event>, k: nat)
    requires Proper(es) && k <= |es| && Run(c, [], es[..k]).Some?
    ensures Listed(c, Run(c, [], es[..k]).value, es, k) && Agrees(c, Run(c, [], es[..k]).value, es, k)
  {
    hide Declares, Knows, Lookup, Step;
    var log := Run(c, [], es[..k]).value;
    if k > 0 {
      assert es[..k][..k - 1] == es[..k - 1];
      RunExact(c, es, k - 1);
      forall d
        ensures d in log <==> DeclaredBefore(c, es, k, d)
      {
        StepExact(c, Run(c, [], es[..k - 1]).value, es, k - 1, d);
      }
    }
    forall s
      ensures Lookup(c, log, s) == Knows(c, es, k, s)
    {
      LookupAgrees(c, log, es, k, s);
    }
  }

  // ---------------------------------------------------------------------------------------------
  // When the collection fails
  // ---------------------------------------------------------------------------------------------

  /** The definition can never be collected: a function without a name node, an argument of a named function without a
      name or a type, or a class without the kind, a body, a name or a string in its name. */
  ghost predicate Malformed(fmt: Format, def: Tree)
    requires def.Node?
  {
    match FindDefineType(def)
    case FunctionDefinition =>
      First(def, FunctionName, FunctionBody).None? || (FunctionText(fmt, def).Some? && BadArgument(def))
    case ClassDefinition => !IsClass(def)
    case _ => false
  }

  predicate BadArgument(def: Tree) {
    exists a :: a in All(def, FunctionArgument, FunctionBody) && !IsWhole(a)
  }

  predicate IsWhole(arg: Tree) {
    First(arg, VariableName, DataDefault).Some? && First(arg, VariableType, DataDefault).Some?
  }

  /** The name of a type that has to be known: of the arguments of a function, and in strong mode of variables. */
  ghost predicate Needs(c: Config, def: Tree, s: string)
    requires def.Node?
  {
    match FindDefineType(def)
    case FunctionDefinition =>
      FunctionText(c.fmt, def).Some?
      && exists a :: a in All(def, FunctionArgument, FunctionBody) && TypedBy(c.fmt, a, s)
    case ClassDefinition => false
    case _ => !c.weak && TypedBy(c.fmt, def, s)
  }

  predicate TypedBy(fmt: Format, t: Tree, s: string) {
    var n := First(t, VariableType, DataDefault);
    n.Some? && s == TypeText(fmt, n.value)
  }

  /** The collection cannot get past event `k`. */
  ghost predicate FailsAt(c: Config, es: seq<Event>, k: nat)
    requires Proper(es) && k < |es|
  {
    Malformed(c.fmt, es[k].def) || NeedsUnknown(c, es, k)
  }

  ghost predicate NeedsUnknown(c: Config, es: seq<Event>, k: nat)
    requires Proper(es) && k < |es|
  {
    es[k].stage == Opening && exists s :: Needs(c, es[k].def, s) && Knows(c, es, k, s).None?
  }

  lemma ArgumentFailsIff(c: Config, log: seq<Decl>, arg: Tree)
    ensures ArgumentRef(c, log, arg).None?
      <==> !IsWhole(arg) || exists s :: TypedBy(c.fmt, arg, s) && Lookup(c, log, s).None?
  {
    hide First, Lookup, ToText;
    if IsWhole(arg) {
      assert TypedBy(c.fmt, arg, TypeText(c.fmt, First(arg, VariableType, DataDefault).value));
    }
  }

  lemma FunctionFailsIff(c: Config, log: seq<Decl>, def: Tree)
    requires def.Node? && FindDefineType(def) == FunctionDefinition
    ensures OpenFunction(c, log, def).None?
      <==> Malformed(c.fmt, def) || exists s :: Needs(c, def, s) && Lookup(c, log, s).None?
  {
    hide First, All, Lookup, FunctionDecls, ArgumentsFor, ArgumentRef, ToText, Strip, IsWhole, TypedBy;
    var args := All(def, FunctionArgument, FunctionBody);
    ArgumentRefsAre(c, log, args);
    if FunctionText(c.fmt, def).Some? {
      if a :| a in args && ArgumentRef(c, log, a).None? && IsWhole(a) {
        ArgumentFailsIff(c, log, a);
        var s :| TypedBy(c.fmt, a, s) && Lookup(c, log, s).None?;
        assert Needs(c, def, s);
      }
      if a :| a in args && !IsWhole(a) {
        ArgumentFailsIff(c, log, a);
      }
      if s :| Needs(c, def, s) && Lookup(c, log, s).None? {
        var a :| a in args && TypedBy(c.fmt, a, s);
        ArgumentFailsIff(c, log, a);
      }
    }
  }

  lemma VariablesFailIff(c: Config, log: seq<Decl>, def: Tree)
    requires def.Node? && FindDefineType(def) != FunctionDefinition && FindDefineType(def) != ClassDefinition
    ensures CollectVariables(c, log, def).None? <==> exists s :: Needs(c, def, s) && Lookup(c, log, s).None?
  {
    hide First, All, Lookup, ToText;
    if CollectVariables(c, log, def).None? {
      var s := TypeText(c.fmt, First(def, VariableType, DataDefault).value);
      assert Needs(c, def, s);
    }
  }

  /** One event fails exactly like that. */
  lemma StepFailsIff(c: Config, log: seq<Decl>, es: seq<Event>, k: nat)
    requires Proper(es) && k < |es| && Agrees(c, log, es, k)
    ensures Step(c, log, es[k]).None? <==> FailsAt(c, es, k)
  {
    hide First, All, Lookup, Knows, CollectVariables, OpenFunction, Needs;
    var def := es[k].def;
    if es[k].stage == Opening {
      match FindDefineType(def)
      case FunctionDefinition => FunctionFailsIff(c, log, def);
      case ClassDefinition => ClassNeedsNothing(c, def);
      case _ => VariablesFailIff(c, log, def);
    }
  }

  lemma ClassNeedsNothing(c: Config, def: Tree)
    requires def.Node? && FindDefineType(def) == ClassDefinition
    ensures forall s :: !Needs(c, def, s)
  {
  }

  /** The run fails exactly if some event does. */
  lemma {:induction false} RunFailsIff(c: Config, es: seq<Event>, n: nat)
    requires Proper(es) && n <= |es|
    ensures Run(c, [], es[..n]).None? <==> exists k :: 0 <= k < n && FailsAt(c, es, k)
  {
    hide FailsAt, Step, Agrees, Listed;
    if n > 0 {
      RunFailsIff(c, es, n - 1);
      assert es[..n][..n - 1] == es[..n - 1];
      if Run(c, [], es[..n - 1]).Some? {
        RunExact(c, es, n - 1);
        StepFailsIff(c, Run(c, [], es[..n - 1]).value, es, n - 1);
      }
    }
  }

  // ---------------------------------------------------------------------------------------------
  // Programs
  // ---------------------------------------------------------------------------------------------

  /** Some reached definition of the program declares `d`. */
  ghost predicate Outlined(c: Config, t: Tree, d: Decl) {
    EventsAreProper(c.fmt, t);
    exists k :: 0 <= k < |Events(c.fmt, t)| && Declares(c, Events(c.fmt, t), k, d)
  }

  /** If the program is collected, the variables of every definition have a type: without a type node any type,
      otherwise the type that is named by the text of this node, or in weak mode any type. */
  lemma NamesAreTyped(c: Config, t: Tree, k: nat)
    requires CollectProgram(c, t).Some? && Size(t) <= MAX_NODES && k < |Events(c.fmt, t)|
    requires var e := Events(c.fmt, t)[k];
      e.stage == Opening && FindDefineType(e.def) != FunctionDefinition && FindDefineType(e.def) != ClassDefinition
    ensures Proper(Events(c.fmt, t)) && TypeOfNames(c, Events(c.fmt, t), k).Some?
    ensures var n, ref := First(Events(c.fmt, t)[k].def, VariableType, DataDefault),
                          TypeOfNames(c, Events(c.fmt, t), k).value;
      if ref.AnyRef? then n.None? || c.weak
      else n.Some? && ref.name == TypeText(c.fmt, n.value) && IsTrimmed(ToText(c.fmt, n.value), ref.name)
  {
    hide First, ToText, FailsAt, TrimBoth;
    CollectionFailsIff(c, t);
    UntypedFails(c, Events(c.fmt, t), k);
    var n := First(Events(c.fmt, t)[k].def, VariableType, DataDefault);
    if n.Some? {
      TrimBothIff(ToText(c.fmt, n.value), TypeText(c.fmt, n.value));
    }
  }

  lemma UntypedFails(c: Config, es: seq<Event>, k: nat)
    requires Proper(es) && k < |es| && es[k].stage == Opening
    requires FindDefineType(es[k].def) != FunctionDefinition && FindDefineType(es[k].def) != ClassDefinition
    ensures TypeOfNames(c, es, k).None? ==> FailsAt(c, es, k)
  {
    hide First, ToText;
    if TypeOfNames(c, es, k).None? {
      assert Needs(c, es[k].def, TypeText(c.fmt, First(es[k].def, VariableType, DataDefault).value));
    }
  }

  lemma WholeRun(c: Config, t: Tree)
    ensures var es := Events(c.fmt, t);
      Proper(es) && es[..|es|] == es && Collect(c, [], t) == Run(c, [], es[..|es|])
  {
    CollectIsRun(c, [], t);
    var es := Events(c.fmt, t);
    assert es[..|es|] == es;
  }

  /** A program of at most 250 nodes declares exactly what its reached definitions declare, each name under the type
      that its text denotes at the definition. */
  lemma ProgramIsOutlined(c: Config, t: Tree, d: Decl)
    requires CollectProgram(c, t).Some? && Size(t) <= MAX_NODES
    ensures d in CollectProgram(c, t).value <==> Outlined(c, t, d)
  {
    hide Declares, Run, Agrees;
    var es := Events(c.fmt, t);
    WholeRun(c, t);
    RunExact(c, es, |es|);
    assert d in CollectProgram(c, t).value <==> DeclaredBefore(c, es, |es|, d);
  }

  /** The collection of a program of at most 250 nodes fails exactly if some reached definition is malformed, or needs
      the name of a type that denotes nothing there. */
  lemma CollectionFailsIff(c: Config, t: Tree)
    requires Size(t) <= MAX_NODES
    ensures Proper(Events(c.fmt, t))
    ensures CollectProgram(c, t).None?
      <==> exists k :: 0 <= k < |Events(c.fmt, t)| && FailsAt(c, Events(c.fmt, t), k)
  {
    hide FailsAt, Run;
    WholeRun(c, t);
    RunFailsIff(c, Events(c.fmt, t), |Events(c.fmt, t)|);
  }

  /** By places: a name denotes a type at a definition exactly if it is the name of a basic type, of a class that ends
      before the definition in the text, or of a function that begins before or around it. */
  lemma KnownIff(c: Config, t: Tree, k: nat, s: string)
    requires k < |Events(c.fmt, t)| && Events(c.fmt, t)[k].stage == Opening
    ensures Proper(Events(c.fmt, t))
    ensures Knows(c, Events(c.fmt, t), k, s).Some? <==> IsBasic(c, s) || exists j, d :: ComesKnown(c, t, j, d, k, s)
  {
    hide Declares;
    EventsAreProper(c.fmt, t);
    var es := Events(c.fmt, t);
    forall j: nat, d | j < |es| && Declares(c, es, j, d) && d.name == s && (d.ClassDecl? || d.FunctionDecl?)
      ensures j < k <==> ComesKnown(c, t, j, d, k, s)
    {
      IndexIff(c.fmt, t, j, k);
      StageOf(c, es, j, d);
    }
  }

  lemma StageOf(c: Config, es: seq<Event>, k: nat, d: Decl)
    requires Proper(es) && k < |es| && Declares(c, es, k, d)
    ensures es[k].stage == Closing <==> d.ClassDecl?
  {
  }

  /** Event `j` declares the class or function `d` of the name, and stands before event `k` in the text. */
  ghost predicate ComesKnown(c: Config, t: Tree, j: int, d: Decl, k: nat, s: string)
    requires k < |Events(c.fmt, t)|
  {
    EventsAreProper(c.fmt, t);
    var es := Events(c.fmt, t);
    && 0 <= j < |es| && Declares(c, es, j, d) && d.name == s
    && (if d.ClassDecl? then LeftOf(es[j].at, es[k].at)
        else d.FunctionDecl? && (es[j].at < es[k].at || LeftOf(es[j].at, es[k].at)))
  }

  lemma {:induction false} RunStops(c: Config, log: seq<Decl>, es: seq<Event>, k: nat)
    requires Proper(es) && k < |es| && Malformed(c.fmt, es[k].def)
    ensures Run(c, log, es).None?
  {
    hide Malformed, Step;
    if k < |es| - 1 {
      RunStops(c, log, es[..|es| - 1], k);
    } else if Run(c, log, es[..k]).Some? {
      MalformedStops(c, Run(c, log, es[..k]).value, es[k]);
    }
  }

  lemma MalformedStops(c: Config, log: seq<Decl>, e: Event)
    requires Proper([e]) && e.def.Node? && Malformed(c.fmt, e.def)
    ensures Step(c, log, e).None?
  {
    hide First, All, Lookup, FunctionDecls, ArgumentsFor, ToText, Strip;
    assert Proper([e]) ==> (e.stage == Closing ==> FindDefineType([e][0].def) == ClassDefinition);
    if FindDefineType(e.def) == FunctionDefinition {
      FunctionFailsIff(c, log, e.def);
    }
  }

  /** Whatever was declared before, a tree with a malformed definition is not collected. */
  lemma MalformedFails(c: Config, log: seq<Decl>, t: Tree, p: Path)
    requires Reached(c.fmt, t, p) && Has(t, p) && At(t, p).Node? && Malformed(c.fmt, At(t, p))
    ensures Collect(c, log, t).None?
  {
    hide Malformed, Run;
    var es, e := Events(c.fmt, t), Event(Opening, p, At(t, p));
    CollectIsRun(c, log, t);
    EventIff(c.fmt, t, e);
    var k: nat :| k < |es| && es[k] == e;
    RunStops(c, log, es, k);
  }

  /** And one whose definitions are well formed and need basic types only always is. */
  ghost predicate IsPlain(c: Config, def: Tree)
    requires def.Node?
  {
    !Malformed(c.fmt, def) && forall s :: Needs(c, def, s) ==> IsBasic(c, s)
  }

  lemma {:induction false} PlainRuns(c: Config, log: seq<Decl>, es: seq<Event>)
    requires Proper(es) && forall k :: 0 <= k < |es| ==> IsPlain(c, es[k].def)
    ensures Run(c, log, es).Some?
  {
    hide IsPlain, Step;
    if es != [] {
      var k := |es| - 1;
      PlainRuns(c, log, es[..k]);
      PlainSteps(c, Run(c, log, es[..k]).value, es, k);
    }
  }

  lemma PlainSteps(c: Config, log: seq<Decl>, es: seq<Event>, k: nat)
    requires Proper(es) && k < |es| && IsPlain(c, es[k].def)
    ensures Step(c, log, es[k]).Some?
  {
    hide First, All, CollectVariables, OpenFunction, Needs;
    var def := es[k].def;
    assert forall s :: IsBasic(c, s) ==> Lookup(c, log, s).Some?;
    if es[k].stage == Opening {
      match FindDefineType(def)
      case FunctionDefinition => FunctionFailsIff(c, log, def);
      case ClassDefinition =>
      case _ => VariablesFailIff(c, log, def);
    }
  }

  lemma PlainIsCollected(c: Config, log: seq<Decl>, t: Tree)
    requires forall p :: Reached(c.fmt, t, p) && Has(t, p) && At(t, p).Node? ==> IsPlain(c, At(t, p))
    ensures Collect(c, log, t).Some?
  {
    hide IsPlain, Run;
    var es := Events(c.fmt, t);
    CollectIsRun(c, log, t);
    forall k | 0 <= k < |es|
      ensures IsPlain(c, es[k].def)
    {
      EventIff(c.fmt, t, es[k]);
    }
    PlainRuns(c, log, es);
  }
}
