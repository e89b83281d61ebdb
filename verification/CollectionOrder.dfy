/** The order in which the collection of definitions (srcs/internal/srcs/var_definition.cpp) goes through a tree: it
    opens definitions, from left to right and outer before inner, and closes classes. */
module CollectionOrder {
  import opened Common
  import opened IrTree
  import opened Trimming
  import opened Symbols
  import opened Declarations

  // ---------------------------------------------------------------------------------------------
  // Which definitions are reached
  // ---------------------------------------------------------------------------------------------

  /** Where the single result of a search stands. */
  function FirstPath(t: Tree, d: DataType, stop: DataType): Option<Path> {
    if t.Nil? then None
    else if t.info.dataType == d then Some([])
    else if stop != DataDefault && t.info.dataType == stop then None
    else
      var l := FirstPath(t.left, d, stop);
      if l.Some? then Some([L] + l.value)
      else
        var r := FirstPath(t.right, d, stop);
        if r.Some? then Some([R] + r.value) else None
  }

  predicate StandsAt(t: Tree, p: Option<Path>, n: Option<Tree>) {
    && (p.Some? <==> n.Some?)
    && (p.Some? ==> Has(t, p.value) && At(t, p.value) == n.value)
  }

  lemma FirstPathEnds(t: Tree, d: DataType, stop: DataType)
    requires t.Nil? || !Passes(t.info, d, stop)
    ensures StandsAt(t, FirstPath(t, d, stop), First(t, d, stop))
  {
  }

  lemma FirstPathBelow(t: Tree, d: DataType, stop: DataType)
    requires t.Node? && Passes(t.info, d, stop)
    ensures var l, r := FirstPath(t.left, d, stop), FirstPath(t.right, d, stop);
      FirstPath(t, d, stop)
      == if l.Some? then Some([L] + l.value) else if r.Some? then Some([R] + r.value) else None
  {
  }

  lemma StandsBelow(t: Tree, dir: Dir, p: Path, n: Tree)
    requires t.Node? && StandsAt(Child(t, dir), Some(p), Some(n))
    ensures StandsAt(t, Some([dir] + p), Some(n))
  {
    assert ([dir] + p)[0] == dir && ([dir] + p)[1..] == p;
  }

  lemma {:induction false} FirstPathIs(t: Tree, d: DataType, stop: DataType)
    ensures StandsAt(t, FirstPath(t, d, stop), First(t, d, stop))
  {
    hide First, FirstPath;
    if t.Nil? || !Passes(t.info, d, stop) {
      FirstPathEnds(t, d, stop);
    } else {
      FirstPathIs(t.left, d, stop);
      FirstPathIs(t.right, d, stop);
      FirstPathBelow(t, d, stop);
      SearchBelow(t, d, stop);
      var l, r := FirstPath(t.left, d, stop), FirstPath(t.right, d, stop);
      if l.Some? {
        StandsBelow(t, L, l.value, First(t.left, d, stop).value);
      } else if r.Some? {
        StandsBelow(t, R, r.value, First(t.right, d, stop).value);
      }
    }
  }

  /** The name of a function, if it has one with a text. */
  function FunctionText(fmt: Format, def: Tree): Option<string> {
    match First(def, FunctionName, FunctionBody)
    case None => None
    case Some(n) => var s := Strip(ToText(fmt, n)); if s == "" then None else Some(s)
  }

  /** The kind of the body of a definition that is collected, too. */
  function BodyKind(fmt: Format, def: Tree): Option<DataType> {
    match FindDefineType(def)
    case FunctionDefinition => if FunctionText(fmt, def).Some? then Some(FunctionBody) else None
    case ClassDefinition => Some(ClassBody)
    case _ => None
  }

  function BodyOf(fmt: Format, def: Tree): Option<Tree> {
    match BodyKind(fmt, def)
    case None => None
    case Some(kind) => First(def, kind, DataDefault)
  }

  function BodyPath(fmt: Format, def: Tree): Option<Path> {
    match BodyKind(fmt, def)
    case None => None
    case Some(kind) => FirstPath(def, kind, DataDefault)
  }

  lemma BodyPathIs(fmt: Format, def: Tree)
    ensures StandsAt(def, BodyPath(fmt, def), BodyOf(fmt, def))
  {
    hide First, FirstPath;
    if BodyKind(fmt, def).Some? {
      FirstPathIs(def, BodyKind(fmt, def).value, DataDefault);
    }
  }

  /** The body is a proper part. */
  lemma BodyIsInside(fmt: Format, def: Tree)
    requires def.Node? && Defines(def.info.dataType) && BodyOf(fmt, def).Some?
    ensures BodyOf(fmt, def).value.Node? && Size(BodyOf(fmt, def).value) < Size(def)
    ensures BodyPath(fmt, def).Some? && BodyPath(fmt, def).value != []
  {
    BodyPathIs(fmt, def);
  }

  /** The collection reaches the definition at `p`: there is no other definition above it, apart from functions and
      classes whose body it is in. */
  predicate Reached(fmt: Format, t: Tree, p: Path)
    decreases |p|
  {
    && t.Node?
    && (if !Defines(t.info.dataType) then p != [] && Reached(fmt, Child(t, p[0]), p[1..])
        else p == [] || InBody(fmt, t, p))
  }

  /** It is a reached definition of the body of `t`. */
  predicate InBody(fmt: Format, t: Tree, p: Path)
    decreases |p|, 0
  {
    var b := BodyPath(fmt, t);
    b.Some? && b.value != [] && b.value <= p && Has(t, b.value) && Reached(fmt, At(t, b.value), p[|b.value|..])
  }

  lemma {:induction false} AtSplit(t: Tree, b: Path, p: Path)
    requires Has(t, b) && b <= p
    ensures Has(t, p) <==> Has(At(t, b), p[|b|..])
    ensures Has(t, p) ==> At(t, p) == At(At(t, b), p[|b|..])
  {
    if b == [] {
      assert p[0..] == p;
    } else {
      PrefixTail(b, p);
      AtSplit(Child(t, b[0]), b[1..], p[1..]);
      assert p[1..][|b| - 1..] == p[|b|..];
    }
  }

  // ---------------------------------------------------------------------------------------------
  // The events of a tree
  // ---------------------------------------------------------------------------------------------

  datatype Stage = Opening | Closing

  /** The definition `def` at `at` is opened; a class is closed later, when its body was collected. */
  datatype Event = Event(stage: Stage, at: Path, def: Tree)

  /** The events of a part, by their places in the whole. */
  function Lift(b: Path, es: seq<Event>): seq<Event> {
    seq(|es|, i requires 0 <= i < |es| => es[i].(at := b + es[i].at))
  }

  function Events(fmt: Format, t: Tree): seq<Event>
    decreases Size(t), 1
  {
    if t.Nil? then []
    else if !Defines(t.info.dataType) then Lift([L], Events(fmt, t.left)) + Lift([R], Events(fmt, t.right))
    else [Event(Opening, [], t)] + Inside(fmt, t) + Closed(t)
  }

  /** The events of the body of a definition. */
  function Inside(fmt: Format, t: Tree): seq<Event>
    requires t.Node? && Defines(t.info.dataType)
    decreases Size(t), 0
  {
    var body := BodyOf(fmt, t);
    if body.None? then []
    else
      BodyIsInside(fmt, t);
      Lift(BodyPath(fmt, t).value, Events(fmt, body.value))
  }

  function Closed(t: Tree): seq<Event> {
    if FindDefineType(t) == ClassDefinition then [Event(Closing, [], t)] else []
  }

  // ---------------------------------------------------------------------------------------------
  // Events are the reached definitions
  // ---------------------------------------------------------------------------------------------

  /** The event belongs to a reached definition; if it is a closing, to a class. */
  predicate IsEvent(fmt: Format, t: Tree, e: Event) {
    && Reached(fmt, t, e.at) && Has(t, e.at) && e.def == At(t, e.at)
    && (e.stage == Closing ==> FindDefineType(e.def) == ClassDefinition)
  }

  lemma LiftIff(b: Path, es: seq<Event>, e: Event)
    ensures e in Lift(b, es) <==> b <= e.at && e.(at := e.at[|b|..]) in es
  {
    if e in Lift(b, es) {
      var i :| 0 <= i < |es| && Lift(b, es)[i] == e;
      assert e.at[|b|..] == es[i].at;
    }
    if b <= e.at && e.(at := e.at[|b|..]) in es {
      var i :| 0 <= i < |es| && es[i] == e.(at := e.at[|b|..]);
      assert b + e.at[|b|..] == e.at;
      assert Lift(b, es)[i] == e;
    }
  }

  lemma StepPrefix(dir: Dir, p: Path)
    ensures [dir] <= p <==> p != [] && p[0] == dir
    ensures [dir] <= p ==> p[|[dir]|..] == p[1..]
  {
  }

  /** The events are exactly the openings of the reached definitions and the closings of the classes among them. */
  lemma {:induction false} EventIff(fmt: Format, t: Tree, e: Event)
    ensures e in Events(fmt, t) <==> IsEvent(fmt, t, e)
    decreases Size(t)
  {
    if t.Node? {
      if !Defines(t.info.dataType) {
        LiftIff([L], Events(fmt, t.left), e);
        LiftIff([R], Events(fmt, t.right), e);
        StepPrefix(L, e.at);
        StepPrefix(R, e.at);
        if e.at != [] {
          EventIff(fmt, Child(t, e.at[0]), e.(at := e.at[1..]));
        }
      } else {
        InsideIff(fmt, t, e);
      }
    }
  }

  lemma {:induction false} InsideIff(fmt: Format, t: Tree, e: Event)
    requires t.Node? && Defines(t.info.dataType)
    ensures e in Inside(fmt, t) <==> e.at != [] && IsEvent(fmt, t, e)
    decreases Size(t), 0
  {
    hide BodyOf, BodyPath;
    BodyPathIs(fmt, t);
    if e.at != [] {
      assert Reached(fmt, t, e.at) <==> InBody(fmt, t, e.at);
    }
    if BodyOf(fmt, t).Some? {
      BodyIsInside(fmt, t);
      var b, body := BodyPath(fmt, t).value, BodyOf(fmt, t).value;
      assert Inside(fmt, t) == Lift(b, Events(fmt, body));
      LiftIff(b, Events(fmt, body), e);
      if b <= e.at {
        AtSplit(t, b, e.at);
        EventIff(fmt, body, e.(at := e.at[|b|..]));
      }
    }
  }

  // ---------------------------------------------------------------------------------------------
  // The order of events
  // ---------------------------------------------------------------------------------------------

  /** Definitions are opened from left to right, outer before inner; a class is closed after everything in it and
      before everything to its right. */
  predicate Earlier(a: Event, b: Event) {
    match (a.stage, b.stage)
    case (Opening, Opening) => a.at < b.at || LeftOf(a.at, b.at)
    case (Opening, Closing) => !LeftOf(b.at, a.at)
    case (Closing, Opening) => LeftOf(a.at, b.at)
    case (Closing, Closing) => b.at < a.at || LeftOf(a.at, b.at)
  }

  predicate Ordered(es: seq<Event>) {
    forall i, j :: 0 <= i < j < |es| ==> Earlier(es[i], es[j])
  }

  lemma {:induction false} LeftOfIsStrict(p: Path, q: Path)
    requires LeftOf(p, q)
    ensures !LeftOf(q, p) && !(p <= q) && !(q <= p)
  {
    if p[0] == q[0] {
      LeftOfIsStrict(p[1..], q[1..]);
      PrefixTail(p, q);
      PrefixTail(q, p);
    }
  }

  lemma EarlierIsStrict(a: Event, b: Event)
    requires Earlier(a, b)
    ensures !Earlier(b, a)
  {
    if LeftOf(a.at, b.at) {
      LeftOfIsStrict(a.at, b.at);
    }
    if LeftOf(b.at, a.at) {
      LeftOfIsStrict(b.at, a.at);
    }
  }

  lemma {:induction false} LeftOfLifts(b: Path, p: Path, q: Path)
    ensures LeftOf(b + p, b + q) <==> LeftOf(p, q)
    ensures b + p < b + q <==> p < q
  {
    if b == [] {
      assert b + p == p && b + q == q;
    } else {
      LeftOfLifts(b[1..], p, q);
      assert (b + p)[1..] == b[1..] + p && (b + q)[1..] == b[1..] + q;
      PrefixTail(b + p, b + q);
    }
  }

  lemma LiftOrdered(b: Path, es: seq<Event>)
    requires Ordered(es)
    ensures Ordered(Lift(b, es))
  {
    forall i, j | 0 <= i < j < |es|
      ensures Earlier(Lift(b, es)[i], Lift(b, es)[j])
    {
      assert Earlier(es[i], es[j]);
      LeftOfLifts(b, es[i].at, es[j].at);
      LeftOfLifts(b, es[j].at, es[i].at);
    }
  }

  lemma BothOrdered(a: seq<Event>, b: seq<Event>)
    requires Ordered(a) && Ordered(b) && forall x, y :: x in a && y in b ==> Earlier(x, y)
    ensures Ordered(a + b)
  {
    forall i, j | 0 <= i < j < |a + b|
      ensures Earlier((a + b)[i], (a + b)[j])
    {
      if j < |a| {
        assert Earlier(a[i], a[j]);
      } else if i >= |a| {
        assert Earlier(b[i - |a|], b[j - |a|]);
      } else {
        assert a[i] in a && b[j - |a|] in b;
      }
    }
  }

  lemma LiftedAt(b: Path, es: seq<Event>, e: Event)
    requires e in Lift(b, es)
    ensures b <= e.at
  {
  }

  /** The collection goes through the events in the order of the text. */
  lemma {:induction false} EventsInOrder(fmt: Format, t: Tree)
    ensures Ordered(Events(fmt, t))
    decreases Size(t)
  {
    if t.Node? && !Defines(t.info.dataType) {
      var a, b := Lift([L], Events(fmt, t.left)), Lift([R], Events(fmt, t.right));
      EventsInOrder(fmt, t.left);
      EventsInOrder(fmt, t.right);
      LiftOrdered([L], Events(fmt, t.left));
      LiftOrdered([R], Events(fmt, t.right));
      forall x, y | x in a && y in b
        ensures Earlier(x, y)
      {
        LiftedAt([L], Events(fmt, t.left), x);
        LiftedAt([R], Events(fmt, t.right), y);
      }
      BothOrdered(a, b);
    } else if t.Node? {
      var open, inside := [Event(Opening, [], t)], Inside(fmt, t);
      InsideInOrder(fmt, t);
      BothOrdered(open, inside);
      BothOrdered(open + inside, Closed(t));
    }
  }

  lemma {:induction false} InsideInOrder(fmt: Format, t: Tree)
    requires t.Node? && Defines(t.info.dataType)
    ensures Ordered(Inside(fmt, t)) && forall e :: e in Inside(fmt, t) ==> e.at != []
    decreases Size(t), 0
  {
    hide BodyOf, BodyPath;
    if BodyOf(fmt, t).Some? {
      BodyIsInside(fmt, t);
      var b, body := BodyPath(fmt, t).value, BodyOf(fmt, t).value;
      EventsInOrder(fmt, body);
      LiftOrdered(b, Events(fmt, body));
      forall e | e in Inside(fmt, t)
        ensures e.at != []
      {
        LiftedAt(b, Events(fmt, body), e);
      }
    }
  }

  /** So of two events the first is the one that comes earlier in the text. */
  lemma IndexIff(fmt: Format, t: Tree, i: nat, j: nat)
    requires i < |Events(fmt, t)| && j < |Events(fmt, t)|
    ensures i < j <==> Earlier(Events(fmt, t)[i], Events(fmt, t)[j])
  {
    EventsInOrder(fmt, t);
    var es := Events(fmt, t);
    if i > j {
      EarlierIsStrict(es[j], es[i]);
    } else if i == j && Earlier(es[i], es[i]) {
      EarlierIsStrict(es[i], es[i]);
    }
  }
}
