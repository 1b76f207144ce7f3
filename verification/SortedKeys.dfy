/** Ascending iteration over the keys of a map, as a B-tree map gives it: least key first. */
module SortedKeys {
  import opened Bytes

  lemma {:induction false} FindLeast(s: set<u32>) returns (m: u32)
    requires s != {}
    ensures m in s && forall x | x in s :: m <= x
    decreases |s|
  {
    m :| m in s;
    var t := s - {m};
    assert s == t + {m};
    if t != {} {
      var n := FindLeast(t);
      m := if m <= n then m else n;
    }
  }

  ghost function Least(s: set<u32>): (m: u32)
    requires s != {}
    ensures m in s && forall x | x in s :: m <= x
  {
    assert exists m :: m in s && forall x | x in s :: m <= x by {
      var m := FindLeast(s);
    }
    var m :| m in s && forall x | x in s :: m <= x;
    m
  }

  method LeastOf(s: set<u32>) returns (m: u32)
    requires s != {}
    ensures m == Least(s)
  {
    m :| m in s;
    var rest := s - {m};
    while rest != {}
      invariant m in s && rest <= s
      invariant forall x | x in s && x !in rest :: m <= x
      decreases rest
    {
      var x :| x in rest;
      if x < m {
        m := x;
      }
      rest := rest - {x};
    }
  }
}
