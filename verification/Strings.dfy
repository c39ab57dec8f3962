/** Cutting a text at a separator, as `split_once` and `rsplit_once` do. */
module Strings {
  import opened Wrappers

  /** `s.split_once(c)`: the parts before and after the first `c`. */
  function SplitFirst<T(==)>(s: seq<T>, c: T): (r: Option<(seq<T>, seq<T>)>)
    ensures r.Some? ==> |r.value.0| + 1 + |r.value.1| == |s|
  {
    if s == [] then None
    else if s[0] == c then Some(([], s[1..]))
    else
      var r := SplitFirst(s[1..], c);
      if r.None? then None else Some(([s[0]] + r.value.0, r.value.1))
  }

  /** `s.rsplit_once(c)`: the parts before and after the last `c`. */
  function SplitLast<T(==)>(s: seq<T>, c: T): Option<(seq<T>, seq<T>)> {
    if s == [] then None
    else if s[|s| - 1] == c then Some((s[..|s| - 1], []))
    else
      var r := SplitLast(s[..|s| - 1], c);
      if r.None? then None else Some((r.value.0, r.value.1 + [s[|s| - 1]]))
  }

  lemma {:induction false} SplitFirstJoined<T>(a: seq<T>, c: T, b: seq<T>)
    requires c !in a
    ensures SplitFirst(a + [c] + b, c) == Some((a, b))
  {
    var s := a + [c] + b;
    if a == [] {
      assert s[1..] == b;
    } else {
      SplitFirstJoined(a[1..], c, b);
      assert s[1..] == a[1..] + [c] + b;
      assert a == [a[0]] + a[1..];
    }
  }

  lemma {:induction false} SplitFirstAbsent<T>(s: seq<T>, c: T)
    requires c !in s
    ensures SplitFirst(s, c) == None
  {
    if s == [] {
    } else {
      SplitFirstAbsent(s[1..], c);
    }
  }

  lemma {:induction false} SplitLastAbsent<T>(s: seq<T>, c: T)
    ensures SplitLast(s, c).None? <==> c !in s
  {
    if s != [] {
      SplitLastAbsent(s[..|s| - 1], c);
      assert s == s[..|s| - 1] + [s[|s| - 1]];
    }
  }

  lemma {:induction false} SplitLastJoined<T>(a: seq<T>, c: T, b: seq<T>)
    requires c !in b
    ensures SplitLast(a + [c] + b, c) == Some((a, b))
  {
    var s := a + [c] + b;
    if b == [] {
      assert s[..|s| - 1] == a;
    } else {
      var n := |b| - 1;
      SplitLastJoined(a, c, b[..n]);
      assert s[..|s| - 1] == a + [c] + b[..n];
      assert b == b[..n] + [b[n]];
    }
  }

  // ---- Alphabets ----

  const LOWER: string := "abcdefghijklmnopqrstuvwxyz"
  const UPPER: string := "ABCDEFGHIJKLMNOPQRSTUVWXYZ"
  const DIGITS: string := "0123456789"

  /** The alphabets are in the order of their codes. */
  lemma AlphabetsInOrder()
    ensures |LOWER| == 26 && forall k | 0 <= k < 26 :: LOWER[k] as int == 'a' as int + k
    ensures |UPPER| == 26 && forall k | 0 <= k < 26 :: UPPER[k] as int == 'A' as int + k
    ensures |DIGITS| == 10 && forall k | 0 <= k < 10 :: DIGITS[k] as int == '0' as int + k
  {
  }

  lemma InAlphabet(c: char)
    ensures c in LOWER <==> 'a' <= c <= 'z'
    ensures c in UPPER <==> 'A' <= c <= 'Z'
    ensures c in DIGITS <==> '0' <= c <= '9'
  {
    AlphabetsInOrder();
    if 'a' <= c <= 'z' {
      assert LOWER[c as int - 'a' as int] == c;
    }
    if 'A' <= c <= 'Z' {
      assert UPPER[c as int - 'A' as int] == c;
    }
    if '0' <= c <= '9' {
      assert DIGITS[c as int - '0' as int] == c;
    }
  }
}
