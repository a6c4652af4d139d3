/** Sizes of finite sets. */
module Sets {

  lemma SomeMember<T>(s: set<T>)
    ensures s == {} || exists x :: x in s
  {
    if forall x :: x !in s {
      assert s == {};
    }
  }

  lemma Member<T>(s: set<T>) returns (x: T)
    requires |s| != 0
    ensures x in s
  {
    SomeMember(s);
    x :| x in s;
  }

  lemma {:induction false} SubsetSize<T>(s: set<T>, u: set<T>)
    requires s <= u
    ensures |s| <= |u|
    ensures |s| == |u| ==> s == u
  {
    if |s| > 0 {
      var x := Member(s);
      SubsetSize(s - {x}, u - {x});
    } else if |u| > 0 {
      var x := Member(u);
    }
  }

  ghost function Elements<T>(s: seq<T>): set<T> {
    set x | x in s
  }

  ghost predicate Distinct<T>(s: seq<T>) {
    forall i, j :: 0 <= i < j < |s| ==> s[i] != s[j]
  }

  lemma {:induction false} DistinctElements<T>(s: seq<T>)
    requires Distinct(s)
    ensures |Elements(s)| == |s|
  {
    if |s| > 0 {
      var n := |s| - 1;
      DistinctElements(s[..n]);
      assert Elements(s) == Elements(s[..n]) + {s[n]};
      assert s[n] !in Elements(s[..n]);
    }
  }

  ghost function Range(lo: int, hi: int): (r: set<int>)
    ensures forall x :: x in r <==> lo <= x < hi
    ensures lo <= hi ==> |r| == hi - lo
    decreases hi - lo
  {
    if hi <= lo then {} else Range(lo, hi - 1) + {hi - 1}
  }

  /** Exchanging member v of u for x, next to one more element q. */
  lemma Exchange<T>(u: set<T>, q: T, v: T, x: T)
    requires v in u && q !in u && x !in u && x != q
    ensures u + {q} - {v} + {x} == (u - {v} + {x}) + {q}
    ensures |u - {v} + {x}| == |u|
    ensures q !in u - {v} + {x} && v !in u - {v} + {x}
  {
  }

  lemma Substitute<T>(u: set<T>, p: T, x: T)
    requires p !in u
    ensures u + {p} - {p} + {x} == u + {x}
  {
  }

  /** The same set seen as one with x as its extra element, or with v. */
  lemma Regroup<T>(u: set<T>, v: T, x: T)
    requires v in u && x !in u
    ensures u + {x} == (u - {v} + {x}) + {v}
  {
  }
}
