/** Sequences: repetition, removal and counting, shared by the models of lists, queues and logs. */
module Lists {

  predicate Distinct<T(==)>(s: seq<T>) { forall i, j :: 0 <= i < j < |s| ==> s[i] != s[j] }

  function Without<T>(s: seq<T>, k: nat): (t: seq<T>)
    requires k < |s|
    ensures |t| == |s| - 1
  {
    s[..k] + s[k + 1..]
  }

  /** How often `x` occurs in `s`. */
  function Times<T(==)>(s: seq<T>, x: T): (n: nat)
    decreases |s|
  {
    if s == [] then 0 else Times(s[..|s| - 1], x) + (if s[|s| - 1] == x then 1 else 0)
  }

  lemma TimesAppend<T>(s: seq<T>, y: T, x: T)
    ensures Times(s + [y], x) == Times(s, x) + (if y == x then 1 else 0)
  {
    assert (s + [y])[..|s|] == s;
  }

  /** An element counts at least once exactly when it is there. */
  lemma {:induction false} TimesPositive<T>(s: seq<T>, x: T)
    ensures Times(s, x) > 0 <==> x in s
    decreases |s|
  {
    if s != [] {
      TimesPositive(s[..|s| - 1], x);
      assert s == s[..|s| - 1] + [s[|s| - 1]];
    }
  }

  /** `a` is `b` with some elements left out, the others in order. */
  predicate Within<T(==)>(a: seq<T>, b: seq<T>)
    decreases |b|
  {
    if b == [] then a == []
    else
      || (a != [] && a[|a| - 1] == b[|b| - 1] && Within(a[..|a| - 1], b[..|b| - 1]))
      || Within(a, b[..|b| - 1])
  }

  lemma WithinAppend<T>(a: seq<T>, b: seq<T>, x: T)
    requires Within(a, b)
    ensures Within(a + [x], b + [x])
  {
    assert (a + [x])[..|a|] == a && (b + [x])[..|b|] == b;
  }

  lemma WithinMore<T>(a: seq<T>, b: seq<T>, x: T)
    requires Within(a, b)
    ensures Within(a, b + [x])
  {
    assert (b + [x])[..|b|] == b;
  }

  /** Leaving out one more. */
  lemma {:induction false} WithinDrop<T>(a: seq<T>, y: T, c: seq<T>, b: seq<T>)
    requires Within(a + [y] + c, b)
    ensures Within(a + c, b)
    decreases |b|
  {
    var s, front := a + [y] + c, b[..|b| - 1];
    if Within(s, front) {
      WithinDrop(a, y, c, front);
    } else if c == [] {
      assert s[..|s| - 1] == a == a + c;
    } else {
      var d := c[..|c| - 1];
      assert s[..|s| - 1] == a + [y] + d;
      WithinDrop(a, y, d, front);
      assert (a + c)[..|a + c| - 1] == a + d && (a + c)[|a + c| - 1] == b[|b| - 1];
    }
  }

  lemma {:induction false} WithinMember<T>(a: seq<T>, b: seq<T>, k: nat)
    requires Within(a, b) && k < |a|
    ensures a[k] in b
    decreases |b|
  {
    var front := b[..|b| - 1];
    assert b == front + [b[|b| - 1]];
    if Within(a, front) {
      WithinMember(a, front, k);
    } else if k < |a| - 1 {
      WithinMember(a[..|a| - 1], front, k);
    }
  }

  lemma {:induction false} WithinPrefix<T>(a: seq<T>, c: seq<T>, b: seq<T>)
    requires Within(a + c, b)
    ensures Within(a, b)
    decreases |c|
  {
    if c == [] {
      assert a + c == a;
    } else {
      var d := c[..|c| - 1];
      assert a + c == (a + d) + [c[|c| - 1]] + [];
      WithinDrop(a + d, c[|c| - 1], [], b);
      assert (a + d) + [] == a + d;
      WithinPrefix(a, d, b);
    }
  }
}
