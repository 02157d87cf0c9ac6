/** Generic sequence shapes shared by the loops of the service: filtering
    with a mapping, and summing lengths. */
module Sequences {

  /** The elements of `s` that pass `keep`, each mapped through `f`, in order:
      the shape of a filtering `for` loop that appends. */
  function FilterMap<T, U>(s: seq<T>, keep: T -> bool, f: T -> U): (r: seq<U>)
    ensures |r| <= |s|
  {
    if |s| == 0 then []
    else if keep(s[0]) then [f(s[0])] + FilterMap(s[1..], keep, f)
    else FilterMap(s[1..], keep, f)
  }

  lemma {:induction false} FilterMapMembers<T, U>(s: seq<T>, keep: T -> bool, f: T -> U, u: U)
    ensures u in FilterMap(s, keep, f) <==> exists x :: x in s && keep(x) && u == f(x)
  {
    if |s| > 0 {
      FilterMapMembers(s[1..], keep, f, u);
      assert s == [s[0]] + s[1..];
      if exists x :: x in s && keep(x) && u == f(x) {
        var x :| x in s && keep(x) && u == f(x);
        if x != s[0] {
          assert x in s[1..];
        }
      }
    }
  }

  lemma {:induction false} FilterMapAppend<T, U>(a: seq<T>, b: seq<T>, keep: T -> bool, f: T -> U)
    ensures FilterMap(a + b, keep, f) == FilterMap(a, keep, f) + FilterMap(b, keep, f)
  {
    if |a| > 0 {
      assert (a + b)[0] == a[0];
      assert (a + b)[1..] == a[1..] + b;
      FilterMapAppend(a[1..], b, keep, f);
    } else {
      assert a + b == b;
    }
  }

  /** `sum(len(x) for x in parts)`. */
  function TotalLength(parts: seq<string>): (n: nat)
    ensures parts == [] ==> n == 0
  {
    if |parts| == 0 then 0 else |parts[0]| + TotalLength(parts[1..])
  }

  lemma {:induction false} TotalLengthAppend(a: seq<string>, b: seq<string>)
    ensures TotalLength(a + b) == TotalLength(a) + TotalLength(b)
  {
    if |a| > 0 {
      assert (a + b)[1..] == a[1..] + b;
      TotalLengthAppend(a[1..], b);
    } else {
      assert a + b == b;
    }
  }
}
