/** Optional values and the regrouping of concatenations. */
module Common {
  datatype Option<+T> = None | Some(value: T)

  lemma Associate<T>(a: seq<T>, b: seq<T>, c: seq<T>)
    ensures a + b + c == a + (b + c)
  {
  }

  lemma Associate4<T>(a: seq<T>, b: seq<T>, c: seq<T>, d: seq<T>)
    ensures a + b + c + d == a + (b + (c + d))
  {
  }

  lemma Associate5<T>(a: seq<T>, b: seq<T>, c: seq<T>, d: seq<T>, e: seq<T>)
    ensures a + b + c + d + e == a + (b + (c + (d + e)))
  {
  }

  lemma EmptyFirst<T>(a: seq<T>, b: seq<T>)
    ensures [] + a + b == a + b
  {
    assert [] + a == a;
  }

  lemma EmptyMiddle<T>(a: seq<T>, none: seq<T>, b: seq<T>)
    requires |none| == 0
    ensures a + none + b == a + b
  {
    assert a + none == a;
  }
}
