/**
 Go's string ordering (`<` on strings, which `sort.Strings` uses): byte-wise
 lexicographic comparison. On Unicode text this is the same as comparing code
 points one by one, since UTF-8 preserves code-point order.
 */
module Lexicographic {

  /** `a` sorts no later than `b`. */
  predicate LessEq(a: string, b: string)
    decreases |a|
  {
    |a| == 0 || (|b| > 0 && (a[0] < b[0] || (a[0] == b[0] && LessEq(a[1..], b[1..]))))
  }

  lemma {:induction false} Reflexive(a: string)
    ensures LessEq(a, a)
    decreases |a|
  {
    if |a| > 0 {
      Reflexive(a[1..]);
    }
  }

  lemma {:induction false} Antisymmetric(a: string, b: string)
    requires LessEq(a, b) && LessEq(b, a)
    ensures a == b
    decreases |a|
  {
    if |a| > 0 {
      Antisymmetric(a[1..], b[1..]);
      assert a == [a[0]] + a[1..] && b == [b[0]] + b[1..];
    }
  }

  lemma {:induction false} Transitive(a: string, b: string, c: string)
    requires LessEq(a, b) && LessEq(b, c)
    ensures LessEq(a, c)
    decreases |a|
  {
    if |a| > 0 && a[0] == b[0] && b[0] == c[0] {
      Transitive(a[1..], b[1..], c[1..]);
    }
  }

  lemma {:induction false} Total(a: string, b: string)
    ensures LessEq(a, b) || LessEq(b, a)
    decreases |a|
  {
    if |a| > 0 && |b| > 0 && a[0] == b[0] {
      Total(a[1..], b[1..]);
    }
  }

  /** `m` sorts no later than every element of `keys`. */
  predicate IsLeast(m: string, keys: seq<string>) {
    m in keys && forall k | k in keys :: LessEq(m, k)
  }

  /** The first element of `sort.Strings(keys)`. */
  function Least(keys: seq<string>): (m: string)
    requires |keys| > 0
    ensures IsLeast(m, keys)
  {
    if |keys| == 1 then
      Reflexive(keys[0]);
      keys[0]
    else
      var rest := Least(keys[1..]);
      assert keys == [keys[0]] + keys[1..];
      Total(keys[0], rest);
      if LessEq(keys[0], rest) then
        Reflexive(keys[0]);
        forall k | k in keys[1..] ensures LessEq(keys[0], k) {
          Transitive(keys[0], rest, k);
        }
        keys[0]
      else
        rest
  }

  /** The least element of a collection does not depend on how it is listed. */
  lemma LeastUnique(m: string, m': string, keys: seq<string>, keys': seq<string>)
    requires IsLeast(m, keys) && IsLeast(m', keys')
    requires forall k :: k in keys <==> k in keys'
    ensures m == m'
  {
    Antisymmetric(m, m');
  }
}
