/** Machine integer ranges, and the few sequence notions shared by the whole model. */
module Prelude {

  const TWO_32: int := 0x1_0000_0000
  const TWO_64: int := 0x1_0000_0000_0000_0000

  type u32 = x: int | 0 <= x < 0x1_0000_0000
  type u64 = x: int | 0 <= x < 0x1_0000_0000_0000_0000
  type i32 = x: int | -0x8000_0000 <= x < 0x8000_0000

  datatype Option<+T> = None | Some(value: T)

  /** A counter bumped by `+= 1` in a build without overflow checks, or by `fetch_add`. */
  function Bumped(n: u64): u64 {
    (n + 1) % TWO_64
  }

  function Min(a: nat, b: nat): nat {
    if a <= b then a else b
  }

  predicate NoDup<T(==)>(s: seq<T>) {
    forall i, j :: 0 <= i < j < |s| ==> s[i] != s[j]
  }

  /** `retain(|y| y != x)`. */
  function Without<T(==, !new)>(s: seq<T>, x: T): (r: seq<T>)
    ensures x !in r
    ensures forall y :: y in r <==> y in s && y != x
  {
    if s == [] then [] else if s[0] == x then Without(s[1..], x) else [s[0]] + Without(s[1..], x)
  }

  lemma WithoutNoDup<T(!new)>(s: seq<T>, x: T)
    requires NoDup(s)
    ensures NoDup(Without(s, x))
  {
    if s != [] {
      assert s[0] !in s[1..];
      WithoutNoDup(s[1..], x);
    }
  }

  /** Removing an element leaves the others in their order. */
  lemma {:induction false} WithoutBetween<T(!new)>(a: seq<T>, x: T, b: seq<T>)
    requires x !in a && x !in b
    ensures Without(a + [x] + b, x) == a + b
  {
    if a == [] {
      assert ([] + [x] + b)[1..] == b && [] + b == b;
      WithoutAbsent(b, x);
    } else {
      assert (a + [x] + b)[1..] == a[1..] + [x] + b;
      WithoutBetween(a[1..], x, b);
    }
  }

  lemma {:induction false} WithoutAbsent<T(!new)>(s: seq<T>, x: T)
    requires x !in s
    ensures Without(s, x) == s
  {
    if s != [] {
      WithoutAbsent(s[1..], x);
    }
  }

  /** Removing another element keeps `s[p]` and moves it no further back. */
  lemma {:induction false} WithoutKeeps<T(!new)>(s: seq<T>, x: T, p: nat) returns (q: nat)
    requires p < |s| && s[p] != x
    ensures q <= p && q < |Without(s, x)| && Without(s, x)[q] == s[p]
  {
    if p == 0 {
      q := 0;
    } else {
      q := WithoutKeeps(s[1..], x, p - 1);
      if s[0] != x {
        q := q + 1;
      }
    }
  }

  /** The map that a list searched front to back with `find` stands for: the first entry of a key wins. */
  function FirstMatch<K, V>(s: seq<(K, V)>): map<K, V> {
    if s == [] then map[] else FirstMatch(s[1..])[s[0].0 := s[0].1]
  }

  lemma FirstMatchAbsent<K, V>(s: seq<(K, V)>, k: K)
    requires forall i :: 0 <= i < |s| ==> s[i].0 != k
    ensures k !in FirstMatch(s)
  {
  }

  /** Appending an entry never disturbs a key that is already present. */
  lemma {:induction false} FirstMatchAppend<K, V>(s: seq<(K, V)>, k: K, v: V)
    ensures FirstMatch(s + [(k, v)]) == map[k := v] + FirstMatch(s)
  {
    var t := s + [(k, v)];
    if s != [] {
      assert t[1..] == s[1..] + [(k, v)];
      FirstMatchAppend(s[1..], k, v);
    }
  }

  /** The entry found first is the one the map shows, and updating it updates the map at that key alone. */
  lemma {:induction false} FirstMatchAt<K, V>(s: seq<(K, V)>, i: nat, v: V)
    requires i < |s|
    requires forall j :: 0 <= j < i ==> s[j].0 != s[i].0
    ensures s[i].0 in FirstMatch(s) && FirstMatch(s)[s[i].0] == s[i].1
    ensures FirstMatch(s[i := (s[i].0, v)]) == FirstMatch(s)[s[i].0 := v]
  {
    if i > 0 {
      FirstMatchAt(s[1..], i - 1, v);
      assert s[i := (s[i].0, v)][1..] == s[1..][i - 1 := (s[i].0, v)];
    } else {
      assert s[0 := (s[0].0, v)][1..] == s[1..];
    }
  }

  lemma MulGrows(x: int, n: int)
    requires n > 0
    ensures x >= 1 ==> x * n >= n
    ensures x <= -1 ==> x * n <= -n
  {
    if x >= 1 {
      assert x * n == (x - 1) * n + n;
      assert (x - 1) * n >= 0;
    }
    if x <= -1 {
      assert x * n == (x + 1) * n - n;
      assert (-x - 1) * n >= 0;
    }
  }

  lemma DivModUnique(a: int, n: int, q: int, r: int)
    requires 0 <= r < n && a == q * n + r
    ensures a / n == q && a % n == r
  {
    var x := a / n - q;
    assert x * n == r - a % n by {
      assert a == a / n * n + a % n;
      assert x * n == a / n * n - q * n;
    }
    MulGrows(x, n);
  }

  /** Counting up by one: the quotient steps exactly when the remainder wraps. */
  lemma DivModStep(k: int, n: int)
    requires n > 0
    ensures (k + 1) % n == if k % n + 1 == n then 0 else k % n + 1
    ensures (k + 1) / n == if k % n + 1 == n then k / n + 1 else k / n
  {
    var q, r := k / n, k % n;
    if r + 1 == n {
      assert k + 1 == (q + 1) * n + 0;
      DivModUnique(k + 1, n, q + 1, 0);
    } else {
      assert k + 1 == q * n + (r + 1);
      DivModUnique(k + 1, n, q, r + 1);
    }
  }

  lemma ConcatAssociates<T>(a: seq<T>, b: seq<T>, c: seq<T>)
    ensures (a + b) + c == a + (b + c)
  {
  }

  /** Conservation over one step and over the rest of a run add up to conservation over the whole run. */
  lemma ConservationChain<T>(q0: seq<T>, in0: seq<T>, out0: seq<T>, q1: seq<T>, in1: seq<T>, out1: seq<T>, q2: seq<T>)
    requires q0 + in0 == out0 + q1
    requires q1 + in1 == out1 + q2
    ensures q0 + (in0 + in1) == (out0 + out1) + q2
  {
    ConcatAssociates(q0, in0, in1);
    ConcatAssociates(out0, q1, in1);
    ConcatAssociates(out0, out1, q2);
  }
}
