// What several modules use.
module Common {

  datatype Option<T> = None | Some(value: T)

  predicate Distinct<T(==)>(s: seq<T>)
  {
    forall i, j | 0 <= i < j < |s| :: s[i] != s[j]
  }

  lemma Associative<T>(a: seq<T>, b: seq<T>, c: seq<T>)
    ensures (a + b) + c == a + (b + c)
  {
  }

  lemma Parts<T>(a: seq<T>, b: seq<T>)
    ensures (a + b)[..|a|] == a && (a + b)[|a|..] == b
  {
  }

  lemma SplitAt<T>(t: seq<T>, i: nat, x: seq<T>, y: seq<T>)
    requires i <= |t| && t[i..] == x + y
    ensures i + |x| <= |t| && t[i..i + |x|] == x && t[i + |x|..] == y
  {
    Parts(x, y);
    assert t[i..][..|x|] == t[i..i + |x|] && t[i..][|x|..] == t[i + |x|..];
  }

  lemma Neutral<T>(a: seq<T>)
    ensures a + [] == a && [] + a == a
  {
  }

  lemma Division(total: int, n: nat, q: int)
    requires n > 0 && n * q <= total < n * q + n
    ensures total / n == q && total % n == total - n * q
  {
    var e := total / n;
    assert total == n * e + total % n;
    assert n * (e - q) == n * e - n * q;
    Small(n, e - q);
  }

  lemma Small(n: int, d: int)
    requires n > 0
    ensures d >= 1 ==> n * d >= n
    ensures d <= -1 ==> n * d <= -n
  {
    if d >= 1 {
      assert n * (d - 1) >= 0;
    } else if d <= -1 {
      assert n * (d + 1) <= 0;
    }
  }
}
