/** Small vocabulary shared by every module: optional values, results, code-point order on strings. */
module Prelude {

  datatype Option<+T> = None | Some(value: T)
  {
    predicate IsFailure() { None? }

    function PropagateFailure<U>(): Option<U>
      requires None?
    {
      None
    }

    function Extract(): T
      requires Some?
    {
      value
    }
  }

  /** A call that may raise: the value returned, or the text of the exception. */
  datatype Result<+T> = Ok(value: T) | Err(error: string)

  lemma HeadTail<T>(s: seq<T>)
    requires s != []
    ensures s == [s[0]] + s[1..]
    ensures |s| == 1 ==> s == [s[0]]
  {
  }

  /** Code-point order on strings, the order of Python's `sorted`. */
  predicate Leq(a: string, b: string)
  {
    a == [] || (b != [] && (a[0] < b[0] || (a[0] == b[0] && Leq(a[1..], b[1..]))))
  }

  lemma {:induction false} LeqTotal(a: string, b: string)
    ensures Leq(a, b) || Leq(b, a)
  {
    if a != [] && b != [] && a[0] == b[0] {
      LeqTotal(a[1..], b[1..]);
    }
  }

  lemma {:induction false} LeqAntisymmetric(a: string, b: string)
    requires Leq(a, b) && Leq(b, a)
    ensures a == b
  {
    if a != [] && b != [] {
      LeqAntisymmetric(a[1..], b[1..]);
      assert a == [a[0]] + a[1..];
      assert b == [b[0]] + b[1..];
    }
  }

  lemma {:induction false} LeqTransitive(a: string, b: string, c: string)
    requires Leq(a, b) && Leq(b, c)
    ensures Leq(a, c)
  {
    if a != [] && b != [] && c != [] && a[0] == b[0] == c[0] {
      LeqTransitive(a[1..], b[1..], c[1..]);
    }
  }

  predicate IsLeast(k: string, s: set<string>)
  {
    k in s && forall x :: x in s ==> Leq(k, x)
  }

  lemma {:induction false} LeastExists(s: set<string>)
    requires s != {}
    ensures exists k :: IsLeast(k, s)
    decreases |s|
  {
    var x :| x in s;
    if s == {x} {
      LeqTotal(x, x);
      assert IsLeast(x, s);
    } else {
      var rest := s - {x};
      assert s == rest + {x};
      LeastExists(rest);
      var k :| IsLeast(k, rest);
      LeqTotal(x, x);
      LeqTotal(x, k);
      if Leq(k, x) {
        assert IsLeast(k, s);
      } else {
        forall y | y in s ensures Leq(x, y) {
          if y != x { LeqTransitive(x, k, y); }
        }
        assert IsLeast(x, s);
      }
    }
  }

  predicate Ascending(r: seq<string>)
  {
    forall i, j :: 0 <= i < j < |r| ==> Leq(r[i], r[j]) && r[i] != r[j]
  }

  lemma LeastUnique(s: set<string>)
    ensures forall k, l :: IsLeast(k, s) && IsLeast(l, s) ==> k == l
  {
    forall k, l | IsLeast(k, s) && IsLeast(l, s) ensures k == l {
      LeqAntisymmetric(k, l);
    }
  }

  lemma AscendingCons(k: string, rest: seq<string>)
    requires Ascending(rest) && forall x :: x in rest ==> Leq(k, x) && k != x
    ensures Ascending([k] + rest)
  {
  }

  /** `sorted(s)` for a set of strings: every element once, in code-point order. */
  function Sorted(s: set<string>): (r: seq<string>)
    ensures Ascending(r)
    ensures forall k :: k in r <==> k in s
    ensures |r| == |s|
    decreases |s|
  {
    if s == {} then []
    else
      LeastExists(s);
      LeastUnique(s);
      var k :| k in s && IsLeast(k, s);
      var rest := Sorted(s - {k});
      AscendingCons(k, rest);
      [k] + rest
  }

  lemma EmptyWithoutElements(s: set<int>)
    requires forall x :: x !in s
    ensures s == {}
  {
    assert forall x :: x in s <==> x in {};
  }

  predicate IsHighest(h: int, s: set<int>)
  {
    h in s && forall x :: x in s ==> x <= h
  }

  lemma {:induction false} HighestExists(s: set<int>)
    requires s != {}
    ensures exists h :: IsHighest(h, s)
    decreases |s|
  {
    if x :| x in s {
      var rest := s - {x};
      if rest == {} {
        assert s == {x};
        assert IsHighest(x, s);
      } else {
        HighestExists(rest);
        var h :| IsHighest(h, rest);
        assert s == rest + {x};
        assert IsHighest(if h < x then x else h, s);
      }
    } else {
      EmptyWithoutElements(s);
      assert false;
    }
  }

  /** `max(s)`. */
  function Highest(s: set<int>): (h: int)
    requires s != {}
    ensures h in s && forall x :: x in s ==> x <= h
  {
    HighestExists(s);
    var h :| IsHighest(h, s);
    h
  }

  // ---------- taking spaces off both ends ----------

  /** `x` stands in `s` at a position, with nothing but spaces before and after it. */
  ghost predicate StandsAt<T(!new)>(s: seq<T>, x: seq<T>, space: T -> bool, from: nat)
  {
    && from + |x| <= |s| && x == s[from..from + |x|]
    && (forall i :: 0 <= i < from ==> space(s[i]))
    && (forall i :: from + |x| <= i < |s| ==> space(s[i]))
  }

  /** `x` is `s` without the spaces around it. */
  ghost predicate IsTrimmed<T(!new)>(s: seq<T>, x: seq<T>, space: T -> bool)
  {
    && (x != [] ==> !space(x[0]) && !space(x[|x| - 1]))
    && exists from: nat :: StandsAt(s, x, space, from)
  }

  lemma TrimmedAround<T(!new)>(pre: seq<T>, x: seq<T>, post: seq<T>, space: T -> bool)
    requires (forall e :: e in pre ==> space(e)) && (forall e :: e in post ==> space(e))
    requires x != [] ==> !space(x[0]) && !space(x[|x| - 1])
    ensures IsTrimmed(pre + x + post, x, space)
  {
    var s := pre + x + post;
    assert forall i :: 0 <= i < |pre| ==> s[i] == pre[i];
    assert forall i :: |pre| + |x| <= i < |s| ==> s[i] == post[i - |pre| - |x|];
    assert StandsAt(s, x, space, |pre|);
  }

  lemma StandsOnce<T(!new)>(s: seq<T>, x: seq<T>, from: nat, y: seq<T>, from': nat, space: T -> bool)
    requires StandsAt(s, x, space, from) && StandsAt(s, y, space, from') && x != []
    requires !space(x[0]) && !space(x[|x| - 1]) && (y != [] ==> !space(y[0]) && !space(y[|y| - 1]))
    ensures x == y
  {
    assert s[from] == x[0] && s[from + |x| - 1] == x[|x| - 1];
    if y != [] {
      assert s[from'] == y[0] && s[from' + |y| - 1] == y[|y| - 1];
    }
  }

  /** What is left is determined. */
  lemma TrimmedUnique<T(!new)>(s: seq<T>, x: seq<T>, y: seq<T>, space: T -> bool)
    requires IsTrimmed(s, x, space) && IsTrimmed(s, y, space)
    ensures x == y
  {
    var from: nat :| StandsAt(s, x, space, from);
    var from': nat :| StandsAt(s, y, space, from');
    if x != [] {
      StandsOnce(s, x, from, y, from', space);
    } else if y != [] {
      StandsOnce(s, y, from', x, from, space);
    }
  }
}
