// Sizes of finite sets.
module Sets {

  lemma {:induction false} SubsetSize<T>(a: set<T>, b: set<T>)
    requires a <= b
    ensures |a| <= |b|
  {
    if a != {} {
      var x :| x in a;
      SubsetSize(a - {x}, b - {x});
    }
  }

  function SetOf<T>(s: seq<T>): set<T> {
    set x | x in s
  }

  /** A list has at least as many entries as distinct ones. */
  lemma {:induction false} SetOfSize<T>(s: seq<T>)
    ensures |SetOf(s)| <= |s|
  {
    if s != [] {
      var front, last := s[..|s| - 1], s[|s| - 1];
      SetOfSize(front);
      assert s == front + [last];
      assert SetOf(s) == SetOf(front) + {last};
    }
  }
}
