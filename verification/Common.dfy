module Common {

  datatype Option<+T> = None | Some(value: T)

  function OrElse<T>(o: Option<T>, other: T): T {
    if o.Some? then o.value else other
  }

  /** An arbitrary element: what is proved for it holds for every iteration order and every draw. */
  method AnyOf<T>(s: set<T>) returns (x: T)
    requires s != {}
    ensures x in s
  {
    x :| x in s;
  }

  lemma Regroup<T>(a: seq<T>, b: seq<T>, c: seq<T>)
    ensures a + b + c == a + (b + c)
  {
  }

  lemma NothingMissing<T>(a: set<T>, b: set<T>)
    requires a - b == {}
    ensures a <= b
  {
    forall x | x in a
      ensures x in b
    {
      assert x !in a - b;
    }
  }

  function Elements<T>(s: seq<T>): set<T> {
    set x | x in s
  }
}
