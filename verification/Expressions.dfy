/** The expressions the generator writes: their text and their typing judgement. */
module Expressions {
  import opened TypeGraph
  import opened Visibility

  /** An expression with the types it was generated through; `Render` is the text that is emitted. */
  datatype Expr =
    | Number(n: nat)
    | Variable(name: string)
    | Call(func: TypeId, args: seq<Expr>)
    | Access(base: string, compound: TypeId, path: seq<Step>)

  /** One step of a member path. */
  datatype Step =
    | Field(name: string, typ: TypeId)
    | Method(func: TypeId, args: seq<Expr>)

  const MEMBER := "."

  function Decimal(n: nat): (s: string)
    ensures s != ""
  {
    var digit := ["0123456789"[n % 10]];
    if n < 10 then digit else Decimal(n / 10) + digit
  }

  function Render(env: TypeEnv, e: Expr): string
    decreases e
  {
    match e
    case Number(n) => Decimal(n)
    case Variable(x) => x
    case Call(f, args) => RenderCall(env, f, args)
    case Access(base, _, path) => base + RenderPath(env, path)
  }

  function RenderCall(env: TypeEnv, f: TypeId, args: seq<Expr>): (s: string)
    ensures s != ""
    decreases args, 1
  {
    (if f in env.functions then env.functions[f].name else "") + "(" + RenderArgs(env, args) + ")"
  }

  /** The arguments separated by commas. */
  function RenderArgs(env: TypeEnv, args: seq<Expr>): string
    decreases args, 0
  {
    if args == [] then ""
    else
      var last := Render(env, args[|args| - 1]);
      if |args| == 1 then last else RenderArgs(env, args[..|args| - 1]) + "," + last
  }

  function RenderStep(env: TypeEnv, s: Step): string
    decreases s
  {
    match s
    case Field(name, _) => name
    case Method(f, args) => RenderCall(env, f, args)
  }

  function RenderPath(env: TypeEnv, path: seq<Step>): (s: string)
    ensures s == "" <==> path == []
    decreases path
  {
    if path == [] then "" else MEMBER + RenderStep(env, path[0]) + RenderPath(env, path[1..])
  }

  // ---------------------------------------------------------------------------------------------
  // What the text of an expression looks like
  // ---------------------------------------------------------------------------------------------

  /** The number that a text of digits denotes. */
  function ValueOf(s: string): int {
    if s == "" then 0 else 10 * ValueOf(s[..|s| - 1]) + (s[|s| - 1] as int - '0' as int)
  }

  /** The usual notation of `n`: digits, without a leading zero unless it is the only digit. */
  predicate IsDecimal(s: string, n: nat) {
    && s != "" && (forall i :: 0 <= i < |s| ==> '0' <= s[i] <= '9')
    && (s[0] == '0' ==> |s| == 1) && ValueOf(s) == n
  }

  lemma {:induction false} DecimalIs(n: nat)
    ensures IsDecimal(Decimal(n), n) && (n > 0 ==> Decimal(n)[0] != '0')
  {
    var digits := "0123456789";
    var d := digits[n % 10];
    assert forall k :: 0 <= k < 10 ==> digits[k] as int == '0' as int + k;
    assert d as int == '0' as int + n % 10;
    if n < 10 {
      assert Decimal(n) == [d] && [d][..0] == "";
    } else {
      DecimalIs(n / 10);
      var front := Decimal(n / 10);
      assert Decimal(n) == front + [d] && (front + [d])[..|front|] == front;
    }
  }

  /** Texts separated by commas. */
  function Join(texts: seq<string>): string {
    if texts == [] then ""
    else if |texts| == 1 then texts[0]
    else Join(texts[..|texts| - 1]) + "," + texts[|texts| - 1]
  }

  /** The text spells the expression: a number in digits, a variable by its name, a call as the name of the function
      and the arguments in parentheses, separated by commas, and a path as the name of its variable and the names or
      calls of its members, each after a dot. */
  ghost predicate Spells(env: TypeEnv, e: Expr, text: string)
    decreases e, 1
  {
    match e
    case Number(n) => IsDecimal(text, n)
    case Variable(x) => text == x
    case Call(f, args) => exists texts :: SpellsCall(env, f, args, texts, text)
    case Access(base, _, path) => base <= text && SpellsPath(env, path, text[|base|..])
  }

  ghost predicate SpellsCall(env: TypeEnv, f: TypeId, args: seq<Expr>, texts: seq<string>, text: string)
    decreases args, 0
  {
    && f in env.functions && |texts| == |args|
    && text == env.functions[f].name + "(" + Join(texts) + ")"
    && forall i :: 0 <= i < |args| ==> Spells(env, args[i], texts[i])
  }

  ghost predicate SpellsPath(env: TypeEnv, path: seq<Step>, text: string)
    decreases path, 0
  {
    if path == [] then text == ""
    else exists step, rest :: SpellsSteps(env, path, step, rest) && text == "." + step + rest
  }

  ghost predicate SpellsSteps(env: TypeEnv, path: seq<Step>, step: string, rest: string)
    requires path != []
    decreases path, 0, 0
  {
    && SpellsPath(env, path[1..], rest)
    && match path[0]
       case Field(name, _) => step == name
       case Method(f, args) => exists texts :: SpellsCall(env, f, args, texts, step)
  }

  /** `e` has type `t` in a program with types `env` and visible variables `vars`; the numeric filler
      stands for a value of any type. */
  ghost predicate HasType(env: TypeEnv, vars: VarMaps, e: Expr, t: TypeId)
    decreases e, 0
  {
    match e
    case Number(n) => n < 0x1000
    case Variable(x) => t in vars.simple && x in vars.simple[t]
    case Call(f, args) =>
      f in vars.functions && f in env.functions && env.functions[f].ret == t
      && ArgsFit(env, vars, args, env.functions[f].args)
    case Access(base, c, path) =>
      c in vars.compound && base in vars.compound[c] && PathFits(env, vars, c, path, t)
  }

  ghost predicate ArgsFit(env: TypeEnv, vars: VarMaps, args: seq<Expr>, types: seq<TypeId>)
    decreases args, 1
  {
    |args| == |types| && forall i :: 0 <= i < |args| ==> Fits(env, vars, args[i], types[i])
  }

  /** `e` may stand where a `t` is asked for; the type kAllTypes accepts an expression of any type. */
  ghost predicate Fits(env: TypeEnv, vars: VarMaps, e: Expr, t: TypeId)
    decreases e, 1
  {
    HasType(env, vars, e, t) || (t == ALL_TYPES && exists u :: HasType(env, vars, e, u))
  }

  /** Every step of `path` names a member of the compound it is taken from, and the path leads from
      compound `c` to type `t`.  A method call ends the path. */
  ghost predicate PathFits(env: TypeEnv, vars: VarMaps, c: TypeId, path: seq<Step>, t: TypeId)
    decreases path
  {
    if path == [] then c == t
    else
      c in env.compounds &&
      match path[0]
      case Field(name, m) =>
        m in env.compounds[c] && name in env.compounds[c][m] && PathFits(env, vars, m, path[1..], t)
      case Method(f, args) =>
        f in env.compounds[c] && f in env.functions && env.functions[f].ret == t
        && ArgsFit(env, vars, args, env.functions[f].args) && path[1..] == []
  }

  // ---------------------------------------------------------------------------------------------
  // The emitted text spells the expression
  // ---------------------------------------------------------------------------------------------

  function Texts(env: TypeEnv, args: seq<Expr>): seq<string> {
    seq(|args|, i requires 0 <= i < |args| => Render(env, args[i]))
  }

  lemma {:induction false} ArgumentsAreJoined(env: TypeEnv, args: seq<Expr>)
    ensures RenderArgs(env, args) == Join(Texts(env, args))
  {
    if |args| > 1 {
      var k := |args| - 1;
      ArgumentsAreJoined(env, args[..k]);
      assert Texts(env, args)[..k] == Texts(env, args[..k]);
    }
  }

  lemma {:induction false} RenderSpells(env: TypeEnv, vars: VarMaps, e: Expr, t: TypeId)
    requires HasType(env, vars, e, t)
    ensures Spells(env, e, Render(env, e))
    decreases e, 1
  {
    match e
    case Number(n) => DecimalIs(n);
    case Variable(_) =>
    case Call(f, args) => CallSpells(env, vars, f, args);
    case Access(base, c, path) =>
      PathSpells(env, vars, c, path, t);
      var rest := RenderPath(env, path);
      assert (base + rest)[|base|..] == rest && base <= base + rest;
  }

  lemma {:induction false} CallSpells(env: TypeEnv, vars: VarMaps, f: TypeId, args: seq<Expr>)
    requires f in env.functions && ArgsFit(env, vars, args, env.functions[f].args)
    ensures SpellsCall(env, f, args, Texts(env, args), RenderCall(env, f, args))
    decreases args, 0
  {
    ArgumentsAreJoined(env, args);
    forall i | 0 <= i < |args|
      ensures Spells(env, args[i], Render(env, args[i]))
    {
      var t := env.functions[f].args[i];
      assert Fits(env, vars, args[i], t);
      var u :| HasType(env, vars, args[i], u);
      RenderSpells(env, vars, args[i], u);
    }
  }

  lemma {:induction false} PathSpells(env: TypeEnv, vars: VarMaps, c: TypeId, path: seq<Step>, t: TypeId)
    requires PathFits(env, vars, c, path, t)
    ensures SpellsPath(env, path, RenderPath(env, path))
    decreases path, 0
  {
    if path != [] {
      var step, rest := RenderStep(env, path[0]), RenderPath(env, path[1..]);
      match path[0]
      case Field(_, m) => PathSpells(env, vars, m, path[1..], t);
      case Method(f, args) =>
        CallSpells(env, vars, f, args);
        assert SpellsPath(env, path[1..], rest);
      assert SpellsSteps(env, path, step, rest);
    }
  }
}
