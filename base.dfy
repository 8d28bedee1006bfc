/** Shared vocabulary of the toolkit model: optional values, opaque styles,
    the runtime failures a frame can hit, the integer and floating-point
    conversions of Go that the layout and text code depend on, and the
    ordering used to sort component ids. */
module Base {

  datatype Option<+T> = None | Some(value: T)

  /** The two runtime panics the rendering code can raise. */
  datatype PanicCause = NegativeRepeatCount | IndexOutOfRange

  /** A computation that either yields a value or panics. */
  datatype Result<+T> = Ok(value: T) | Panic(cause: PanicCause)

  /** A terminal style (foreground and background colour); the model only
      compares styles, it never looks inside them. */
  datatype Style = Style(token: int)

  function Abs(x: int): (r: nat)
    ensures r == x || r == -x
  {
    if x < 0 then -x else x
  }

  /** Go's integer division, which truncates toward zero (Dafny's `/` on `int`
      is Euclidean). */
  function TruncDiv(a: int, b: int): (q: int)
    requires b != 0
    ensures a >= 0 ==> 0 <= a - q * b < Abs(b)
    ensures a < 0 ==> 0 - Abs(b) < a - q * b <= 0
  {
    if a >= 0 then (if b > 0 then a / b else -(a / -b))
    else (if b > 0 then -((-a) / b) else (-a) / (-b))
  }

  lemma {:induction false} MulAtLeast(d: int, m: int)
    requires m > 0 && d >= 1
    ensures d * m >= m
  {
  }

  /** Euclidean quotient and remainder are the unique ones. */
  lemma {:induction false} DivModUnique(a: int, m: int, q: int, r: int)
    requires m > 0 && 0 <= r < m && a == q * m + r
    ensures a / m == q && a % m == r
  {
    var q', r' := a / m, a % m;
    assert a == q' * m + r';
    assert (q - q') * m == r' - r;
    if q > q' {
      MulAtLeast(q - q', m);
    }
    if q' > q {
      MulAtLeast(q' - q, m);
    }
  }

  /** Go's conversion `int(f)` of a finite float, which truncates toward zero. */
  function TruncReal(r: real): (t: int)
    ensures r >= 0.0 ==> t as real <= r < t as real + 1.0
    ensures r < 0.0 ==> t as real - 1.0 < r <= t as real
  {
    if r >= 0.0 then r.Floor else -((-r).Floor)
  }

  /** Floating-point division with the IEEE-754 results of dividing by zero
      (an infinity or NaN) abstracted to 0. */
  function FloatDiv(a: real, b: real): (q: real)
    ensures b == 0.0 ==> q == 0.0
  {
    if b == 0.0 then 0.0 else a / b
  }

  function Min(a: int, b: int): (m: int)
    ensures m <= a && m <= b && (m == a || m == b)
  {
    if a <= b then a else b
  }

  function Sum(s: seq<int>): int
  {
    if s == [] then 0 else Sum(s[..|s| - 1]) + s[|s| - 1]
  }

  function SumReal(s: seq<real>): real
  {
    if s == [] then 0.0 else SumReal(s[..|s| - 1]) + s[|s| - 1]
  }

  /** Adding `d` to one entry adds `d` to the sum. */
  lemma {:induction false} SumUpdate(s: seq<int>, j: int, d: int)
    requires 0 <= j < |s|
    ensures Sum(s[j := s[j] + d]) == Sum(s) + d
  {
    var t := s[j := s[j] + d];
    if j == |s| - 1 {
      assert t[..|t| - 1] == s[..|s| - 1];
    } else {
      assert t[..|t| - 1] == s[..|s| - 1][j := s[j] + d];
      SumUpdate(s[..|s| - 1], j, d);
    }
  }

  ghost predicate Distinct<T>(s: seq<T>)
  {
    forall j, k :: 0 <= j < k < |s| ==> s[j] != s[k]
  }

  /** A repetition-free sequence drawn from a set is no longer than the set. */
  lemma {:induction false} DistinctBound<T>(s: seq<T>, bound: set<T>)
    requires Distinct(s)
    requires forall k :: 0 <= k < |s| ==> s[k] in bound
    ensures |s| <= |bound|
  {
    if s != [] {
      var last := s[|s| - 1];
      DistinctBound(s[..|s| - 1], bound - {last});
    }
  }

  /** A set other than the empty one has an element. */
  lemma {:induction false} HasElement(s: set<int>)
    requires s != {}
    ensures exists x :: x in s
  {
    assert (forall x :: x !in s) ==> s == {};
  }

  /** Strictly ascending: sorted and without repetitions. */
  ghost predicate Increasing(s: seq<int>)
  {
    forall j, k :: 0 <= j < k < |s| ==> s[j] < s[k]
  }

  /** An element occurs at most once in a repetition-free sequence. */
  lemma {:induction false} DistinctCount<T>(s: seq<T>, x: T)
    requires Distinct(s)
    ensures multiset(s)[x] <= 1
  {
    if s != [] {
      var n := |s| - 1;
      assert s == s[..n] + [s[n]];
      DistinctCount(s[..n], x);
      if s[n] == x {
        assert x !in s[..n];
      }
    }
  }

  /** Rearrangements have the same elements. */
  lemma {:induction false} SameMembers<T>(s: seq<T>, t: seq<T>)
    requires multiset(s) == multiset(t)
    ensures forall x :: x in s <==> x in t
  {
    forall x
      ensures x in s <==> x in t
    {
      assert x in s <==> x in multiset(s);
      assert x in t <==> x in multiset(t);
    }
  }

  /** A rearrangement of a repetition-free sequence has no repetitions. */
  lemma {:induction false} DistinctPermutation<T>(s: seq<T>, t: seq<T>)
    requires Distinct(t) && multiset(s) == multiset(t)
    ensures Distinct(s)
  {
    forall j, k | 0 <= j < k < |s|
      ensures s[j] != s[k]
    {
      if s[j] == s[k] {
        assert s == s[..k] + s[k..];
        assert s[j] in multiset(s[..k]) && s[k] in multiset(s[k..]);
        DistinctCount(t, s[j]);
        assert false;
      }
    }
  }

  /** The comparison of Go's `slices.SortFunc` callbacks in this toolkit:
      ascending by a key, ties broken by ascending id. */
  predicate Before(key: int -> int, a: int, b: int)
  {
    key(a) < key(b) || (key(a) == key(b) && a <= b)
  }

  ghost predicate SortedBy(s: seq<int>, key: int -> int)
  {
    forall j, k :: 0 <= j < k < |s| ==> Before(key, s[j], s[k])
  }

  function Insert(x: int, s: seq<int>, key: int -> int): (r: seq<int>)
    requires SortedBy(s, key)
    ensures SortedBy(r, key)
    ensures multiset(r) == multiset(s) + multiset{x}
  {
    if s == [] then [x]
    else if Before(key, x, s[0]) then [x] + s
    else
      var tail := Insert(x, s[1..], key);
      InsertBehindHead(x, s, key, tail);
      [s[0]] + tail
  }

  lemma {:induction false} InsertBehindHead(x: int, s: seq<int>, key: int -> int, tail: seq<int>)
    requires s != [] && SortedBy(s, key) && !Before(key, x, s[0])
    requires SortedBy(tail, key) && multiset(tail) == multiset(s[1..]) + multiset{x}
    ensures SortedBy([s[0]] + tail, key)
    ensures multiset([s[0]] + tail) == multiset(s) + multiset{x}
  {
    forall k | 0 <= k < |tail|
      ensures Before(key, s[0], tail[k])
    {
      assert tail[k] in multiset(tail);
      if tail[k] != x {
        assert tail[k] in s[1..];
      }
    }
    assert s == [s[0]] + s[1..];
  }

  /** The sorted copy that `slices.SortFunc` produces, as an insertion sort. */
  function SortBy(s: seq<int>, key: int -> int): (r: seq<int>)
    ensures SortedBy(r, key)
    ensures multiset(r) == multiset(s)
  {
    if s == [] then []
    else
      assert s == s[..|s| - 1] + [s[|s| - 1]];
      Insert(s[|s| - 1], SortBy(s[..|s| - 1], key), key)
  }
}
