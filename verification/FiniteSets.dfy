// Picking members of finite sets, and the least and greatest of a set of numbers.
module FiniteSets {
  lemma Member<T>(s: set<T>) returns (x: T)
    requires s != {}
    ensures x in s
  {
    x :| x in s;
  }

  method PickAny<T(==)>(s: set<T>) returns (x: T)
    requires s != {}
    ensures x in s
  {
    x :| x in s;
  }

  lemma {:induction false} LeastExists(s: set<int>)
    requires s != {}
    ensures exists x :: x in s && forall y :: y in s ==> x <= y
  {
    var x := Member(s);
    var rest := s - {x};
    assert s == rest + {x};
    if rest != {} {
      LeastExists(rest);
      var y :| y in rest && forall z :: z in rest ==> y <= z;
      var least := if x < y then x else y;
      assert least in s && forall z :: z in s ==> least <= z;
    }
  }

  ghost function Least(s: set<int>): (x: int)
    requires s != {}
    ensures x in s && forall y :: y in s ==> x <= y
  {
    LeastExists(s);
    var x :| x in s && forall y :: y in s ==> x <= y;
    x
  }

  lemma {:induction false} GreatestExists(s: set<int>)
    requires s != {}
    ensures exists x :: x in s && forall y :: y in s ==> y <= x
  {
    var x := Member(s);
    var rest := s - {x};
    assert s == rest + {x};
    if rest != {} {
      GreatestExists(rest);
      var y :| y in rest && forall z :: z in rest ==> z <= y;
      var greatest := if x > y then x else y;
      assert greatest in s && forall z :: z in s ==> z <= greatest;
    }
  }

  ghost function Greatest(s: set<int>): (x: int)
    requires s != {}
    ensures x in s && forall y :: y in s ==> y <= x
  {
    GreatestExists(s);
    var x :| x in s && forall y :: y in s ==> y <= x;
    x
  }
}
