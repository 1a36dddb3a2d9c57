/**
 Blank-padded CHAR values of src/utils/typsupp/char.cpp and the case-insensitive comparison of
 include/utils/string_utils.h, as an ordering theory over bytes.
 */
module CharOrder {
  import opened Base

  type Str = seq<Byte>

  const BLANK: Byte := 32

  // ---------------------------------------------------------------- trailing blanks

  /** The string without its trailing blanks. */
  function Trim(s: Str): (r: Str)
    ensures r <= s && (r == [] || r[|r| - 1] != BLANK)
    ensures forall k :: |r| <= k < |s| ==> s[k] == BLANK
  {
    if s != [] && s[|s| - 1] == BLANK then Trim(s[..|s| - 1]) else s
  }

  /** The trimmed string is the only prefix that does not end in a blank and is followed by blanks only. */
  lemma {:induction false} TrimUnique(s: Str, r: Str)
    requires r <= s && (r == [] || r[|r| - 1] != BLANK) && forall k :: |r| <= k < |s| ==> s[k] == BLANK
    ensures r == Trim(s)
  {
    if s != [] && s[|s| - 1] == BLANK {
      TrimUnique(s[..|s| - 1], r);
    }
  }

  /** Strings of the same length that agree without their trailing blanks are the same string. */
  lemma PaddedUnique(s: Str, t: Str)
    requires |s| == |t| && Trim(s) == Trim(t)
    ensures s == t
  {
    forall k | 0 <= k < |s|
      ensures s[k] == t[k]
    {
      if k < |Trim(s)| {
        assert Trim(s)[k] == s[k] && Trim(t)[k] == t[k];
      }
    }
  }

  /** `remove_trailing_space`. */
  method RemoveTrailingSpace(s: Str) returns (r: Str)
    ensures r == Trim(s)
    ensures r <= s && (r != [] ==> r[|r| - 1] != ' ' as int) && forall k :: |r| <= k < |s| ==> s[k] == ' ' as int
  {
    var i := |s|;
    while i > 0 && s[i - 1] == BLANK
      invariant 0 <= i <= |s| && forall k :: i <= k < |s| ==> s[k] == BLANK
    {
      i := i - 1;
    }
    TrimUnique(s, s[..i]);
    r := s[..i];
  }

  // ---------------------------------------------------------------- input and conversion

  /** `CHAR_in` with type parameter `n`: the value padded to `n` bytes, or the error that it is too long. */
  method CharIn(str: Str, n: nat) returns (v: Option<Str>)
    ensures v.Some? <==> |Trim(str)| <= n
    ensures v.Some? ==> |v.value| == n && Trim(v.value) == Trim(str)
    ensures v.Some? ==> Trim(str) <= v.value && forall k :: |Trim(str)| <= k < n ==> v.value[k] == ' ' as int
  {
    var size := |str|;
    while size > n && str[size - 1] == BLANK
      invariant |Trim(str)| <= size <= |str|
    {
      size := size - 1;
    }
    if size > n {
      return None;
    }
    var buffer := new Byte[n](_ => 0);
    for k := 0 to size
      invariant buffer[..k] == str[..k]
    {
      buffer[k] := str[k];
    }
    for k := size to n
      invariant buffer[..size] == str[..size] && forall j :: size <= j < k ==> buffer[j] == BLANK
    {
      buffer[k] := BLANK;
    }
    assert Trim(str) <= str[..size] == buffer[..][..size];
    TrimUnique(buffer[..], Trim(str));
    v := Some(buffer[..]);
  }

  /** `CHAR_to_VARCHAR` of a value: what is in front of its trailing blanks, and of that the first `limit` bytes if there is a limit. */
  method CharToVarchar(v: Str, limit: nat) returns (r: Str)
    ensures limit == 0 ==> r == Trim(v)
    ensures limit > 0 ==> r <= Trim(v) && |r| == if |Trim(v)| <= limit then |Trim(v)| else limit
  {
    var str := RemoveTrailingSpace(v);
    r := if limit == 0 || |str| <= limit then str else str[..limit];
  }

  /**
   Input, conversion to VARCHAR, and input of what that gives. The conversion drops the trailing blanks of the input and
   nothing else, or cuts what is left to the limit; without a limit the value that went in comes out again.
   */
  method InThenVarchar(str: Str, n: nat, limit: nat) returns (v: Option<Str>, w: Str, again: Option<Str>)
    ensures v.Some? <==> |Trim(str)| <= n
    ensures v.Some? && limit == 0 ==> w == Trim(str) && again == v
    ensures v.Some? && limit > 0 ==> w <= Trim(str) && |w| == if |Trim(str)| <= limit then |Trim(str)| else limit
  {
    w, again := [], None;
    v := CharIn(str, n);
    if v.Some? {
      w := CharToVarchar(v.value, limit);
      again := CharIn(w, n);
      if limit == 0 {
        TrimUnique(w, w);
        PaddedUnique(v.value, again.value);
      }
    }
  }

  // ---------------------------------------------------------------- lexicographic order

  /** -1, 0 or 1 as `a` comes before, is equal to or comes behind `b`: `memcmp` on the common length, then the lengths. */
  function Compare(a: Str, b: Str): (r: int)
    ensures r == 0 <==> a == b
  {
    if a == [] && b == [] then 0
    else if a == [] then -1
    else if b == [] then 1
    else if a[0] < b[0] then -1
    else if a[0] > b[0] then 1
    else
      assert a == [a[0]] + a[1..] && b == [b[0]] + b[1..];
      Compare(a[1..], b[1..])
  }

  lemma {:induction false} CompareFlips(a: Str, b: Str)
    ensures Compare(b, a) == -Compare(a, b)
  {
    if a != [] && b != [] && a[0] == b[0] {
      CompareFlips(a[1..], b[1..]);
    }
  }

  lemma {:induction false} CompareTransitive(a: Str, b: Str, c: Str)
    requires Compare(a, b) <= 0 && Compare(b, c) <= 0
    ensures Compare(a, c) <= 0
    ensures Compare(a, b) < 0 || Compare(b, c) < 0 ==> Compare(a, c) < 0
  {
    if a != [] && b != [] && c != [] && a[0] == b[0] == c[0] {
      CompareTransitive(a[1..], b[1..], c[1..]);
    }
  }

  /** The strings agree in front of byte `k`, which is smaller in the first. */
  ghost predicate SmallerAt(s: Str, t: Str, k: nat) {
    k < |s| && k < |t| && s[k] < t[k] && forall j :: 0 <= j < k ==> s[j] == t[j]
  }

  /** In the order of a dictionary over bytes the first string comes before the second. */
  ghost predicate Precedes(s: Str, t: Str) {
    s < t || exists k: nat {:trigger SmallerAt(s, t, k)} :: SmallerAt(s, t, k)
  }

  lemma SmallerNext(s: Str, t: Str, k: nat)
    requires s != [] && t != [] && s[0] == t[0]
    ensures SmallerAt(s, t, k + 1) <==> SmallerAt(s[1..], t[1..], k)
  {
    if SmallerAt(s, t, k + 1) {
      forall j | 0 <= j < k
        ensures s[1..][j] == t[1..][j]
      {
        assert s[j + 1] == t[j + 1];
      }
    }
    if SmallerAt(s[1..], t[1..], k) {
      forall j | 0 <= j < k + 1
        ensures s[j] == t[j]
      {
        assert j > 0 ==> s[1..][j - 1] == t[1..][j - 1];
      }
    }
  }

  lemma {:induction false} CompareExactly(s: Str, t: Str)
    ensures Compare(s, t) < 0 <==> Precedes(s, t)
  {
    if s == [] || t == [] {
    } else if s[0] != t[0] {
      assert SmallerAt(s, t, 0) <==> s[0] < t[0];
    } else {
      CompareExactly(s[1..], t[1..]);
      assert s == [s[0]] + s[1..] && t == [t[0]] + t[1..];
      if k: nat :| SmallerAt(s, t, k) {
        SmallerNext(s, t, k - 1);
      }
      if k: nat :| SmallerAt(s[1..], t[1..], k) {
        SmallerNext(s, t, k);
        var m := k + 1;
        assert SmallerAt(s, t, m);
      }
    }
  }

  // ---------------------------------------------------------------- case-insensitive comparison

  /** `tolower` on bytes. */
  function Lower(c: Byte): Byte {
    if 65 <= c <= 90 then c + 32 else c
  }

  /** The two cases of one letter of the alphabet. */
  predicate CasesOf(c: Byte, d: Byte, letter: nat) {
    letter < 26 && (c == 65 + letter || c == 97 + letter) && (d == 65 + letter || d == 97 + letter)
  }

  /** Two bytes are the same in lower case if they are equal, or the two cases of a letter. The upper case is gone. */
  lemma LowerExactly(c: Byte, d: Byte)
    ensures Lower(c) == Lower(d) <==> c == d || exists letter: nat {:trigger CasesOf(c, d, letter)} :: CasesOf(c, d, letter)
    ensures !(65 <= Lower(c) <= 90) && (Lower(c) == c || 65 <= c <= 90)
  {
    if Lower(c) == Lower(d) && c != d {
      assert CasesOf(c, d, Lower(c) - 97);
    }
  }

  /** `strncasecmp` on the first `n` bytes: it stops at the first difference and at a common NUL. */
  function Strncasecmp(s: Str, t: Str, n: nat): int
    requires n <= |s| && n <= |t|
  {
    if n == 0 then 0
    else if Lower(s[0]) != Lower(t[0]) then Lower(s[0]) - Lower(t[0])
    else if s[0] == 0 then 0
    else Strncasecmp(s[1..], t[1..], n - 1)
  }

  /** `string_compare_ci`. */
  function CompareCi(s: Str, t: Str): int {
    var res := Strncasecmp(s, t, Min(|s|, |t|));
    if res == 0 then (if |s| < |t| then -1 else if |s| > |t| then 1 else 0) else res
  }

  /** `string_equal_ci`. */
  predicate EqualCi(s: Str, t: Str) {
    |s| == |t| && Strncasecmp(s, t, |s|) == 0
  }

  /** What the comparison sees of a string: letters in lower case, and nothing behind the first NUL but the length. */
  function Seen(s: Str): (r: Str)
    ensures |r| == |s|
  {
    if s == [] then [] else if s[0] == 0 then Zeros(|s|) else [Lower(s[0])] + Seen(s[1..])
  }

  predicate SameSign(x: int, y: int) {
    (x < 0 <==> y < 0) && (x > 0 <==> y > 0)
  }

  lemma {:induction false} CompareZeros(m: nat, n: nat)
    ensures Compare(Zeros(m), Zeros(n)) == if m < n then -1 else if m > n then 1 else 0
  {
    if m > 0 && n > 0 {
      assert Zeros(m)[1..] == Zeros(m - 1) && Zeros(n)[1..] == Zeros(n - 1);
      CompareZeros(m - 1, n - 1);
    }
  }

  /** The comparison is the lexicographic order of what it sees. */
  lemma {:induction false} CompareCiIsOrder(s: Str, t: Str)
    ensures SameSign(CompareCi(s, t), Compare(Seen(s), Seen(t)))
  {
    if s != [] && t != [] && Lower(s[0]) == Lower(t[0]) {
      if s[0] == 0 {
        CompareZeros(|s|, |t|);
      } else {
        CompareCiIsOrder(s[1..], t[1..]);
        assert Seen(s)[1..] == Seen(s[1..]) && Seen(t)[1..] == Seen(t[1..]);
      }
    }
  }

  /** The two case-insensitive functions agree. */
  lemma EqualCiIsCompare(s: Str, t: Str)
    ensures EqualCi(s, t) <==> CompareCi(s, t) == 0
    ensures EqualCi(s, t) <==> Seen(s) == Seen(t)
  {
    CompareCiIsOrder(s, t);
  }

  function LowerAll(s: Str): (r: Str)
    ensures |r| == |s| && forall k :: 0 <= k < |s| ==> r[k] == Lower(s[k])
  {
    seq(|s|, k requires 0 <= k < |s| => Lower(s[k]))
  }

  /** No NUL before the last byte. */
  predicate NulFree(s: Str) {
    forall k :: 0 <= k < |s| - 1 ==> s[k] != 0
  }

  lemma {:induction false} SeenIsLower(s: Str)
    requires NulFree(s)
    ensures Seen(s) == LowerAll(s)
  {
    if s != [] {
      if s[0] != 0 {
        assert NulFree(s[1..]) by {
          forall k | 0 <= k < |s[1..]| - 1
            ensures s[1..][k] != 0
          {
            assert s[1..][k] == s[k + 1];
          }
        }
        SeenIsLower(s[1..]);
        assert LowerAll(s) == [Lower(s[0])] + LowerAll(s[1..]);
      }
    }
  }

  lemma {:induction false} SeenCuts(s: Str, k: nat)
    requires k < |s| && s[k] == 0
    ensures Seen(s)[k] == 0
  {
    if s[0] != 0 {
      SeenCuts(s[1..], k - 1);
    }
  }

  lemma {:induction false} SeenPrefix(s: Str, t: Str, k: nat)
    requires k < |s| == |t| && s[k] == 0 && s[..k + 1] == t[..k + 1]
    ensures Seen(s) == Seen(t)
  {
    assert s[0] == s[..k + 1][0] == t[..k + 1][0] == t[0];
    if s[0] != 0 {
      assert s[1..][..k] == s[..k + 1][1..] == t[..k + 1][1..] == t[1..][..k];
      SeenPrefix(s[1..], t[1..], k - 1);
    }
  }

  /** Equality modulo case is what `string_equal_ci` decides against every string: true exactly of strings without an inner NUL. */
  ghost predicate IgnoresOnlyCase(s: Str) {
    forall t {:trigger EqualCi(s, t)} :: EqualCi(s, t) <==> LowerAll(s) == LowerAll(t)
  }

  lemma IgnoresOnlyCaseExactly(s: Str)
    ensures IgnoresOnlyCase(s) <==> NulFree(s)
  {
    if NulFree(s) {
      forall t
        ensures EqualCi(s, t) <==> LowerAll(s) == LowerAll(t)
      {
        EqualCiIsCompare(s, t);
        SeenIsLower(s);
        if LowerAll(s) == LowerAll(t) {
          LowerKeepsNuls(s, t);
          SeenIsLower(t);
        } else if |s| == |t| && EqualCi(s, t) {
          SeenNulFree(s, t);
          SeenIsLower(t);
        }
      }
    } else {
      var k :| 0 <= k < |s| - 1 && s[k] == 0;
      var t := s[k + 1 := if s[k + 1] == 1 then 2 else 1];
      assert s[..k + 1] == t[..k + 1];
      SeenPrefix(s, t, k);
      EqualCiIsCompare(s, t);
      assert LowerAll(s)[k + 1] != LowerAll(t)[k + 1];
    }
  }

  lemma LowerKeepsNuls(s: Str, t: Str)
    requires NulFree(s) && LowerAll(s) == LowerAll(t)
    ensures NulFree(t)
  {
    forall k | 0 <= k < |t| - 1
      ensures t[k] != 0
    {
      assert LowerAll(s)[k] == LowerAll(t)[k];
    }
  }

  lemma {:induction false} SeenNulFree(s: Str, t: Str)
    requires NulFree(s) && Seen(s) == Seen(t)
    ensures NulFree(t)
  {
    SeenIsLower(s);
    forall k | 0 <= k < |t| - 1
      ensures t[k] != 0
    {
      assert Seen(s)[k] == Lower(s[k]);
      if t[k] == 0 {
        SeenCuts(t, k);
      }
    }
  }

  // ---------------------------------------------------------------- the CHAR operators

  /** A CHAR argument; SQL NULL is `None`. */
  type Arg = Option<Str>

  /** What an operator compares: the argument without trailing blanks, in lower case for the `_ci` form. */
  function KeyOf(ci: bool, s: Str): Str {
    if ci then Seen(Trim(s)) else Trim(s)
  }

  /** `CHAR_lt` and `CHAR_lt_ci`. */
  function CharLt(ci: bool, a: Arg, b: Arg): Option<bool> {
    if a.None? || b.None? then None
    else Some(if ci then CompareCi(Trim(a.value), Trim(b.value)) < 0 else Compare(Trim(a.value), Trim(b.value)) < 0)
  }

  /** `CHAR_eq` and `CHAR_eq_ci`. */
  function CharEq(ci: bool, a: Arg, b: Arg): Option<bool> {
    if a.None? || b.None? then None
    else Some(if ci then EqualCi(Trim(a.value), Trim(b.value)) else Trim(a.value) == Trim(b.value))
  }

  /** `CHAR_le` and `CHAR_le_ci`. */
  function CharLe(ci: bool, a: Arg, b: Arg): Option<bool> {
    if a.None? || b.None? then None
    else Some(if ci then CompareCi(Trim(a.value), Trim(b.value)) <= 0 else Compare(Trim(a.value), Trim(b.value)) <= 0)
  }

  lemma KeyOrder(ci: bool, s: Str, t: Str)
    ensures CharLt(ci, Some(s), Some(t)) == Some(Compare(KeyOf(ci, s), KeyOf(ci, t)) < 0)
    ensures CharLe(ci, Some(s), Some(t)) == Some(Compare(KeyOf(ci, s), KeyOf(ci, t)) <= 0)
    ensures CharEq(ci, Some(s), Some(t)) == Some(KeyOf(ci, s) == KeyOf(ci, t))
  {
    CompareCiIsOrder(Trim(s), Trim(t));
    EqualCiIsCompare(Trim(s), Trim(t));
  }

  /** NULL in, NULL out; and between values exactly one of less, equal and greater holds, with `<=` their union. */
  lemma Trichotomy(ci: bool, a: Arg, b: Arg)
    ensures CharLt(ci, a, b).None? <==> a.None? || b.None?
    ensures CharEq(ci, a, b).None? <==> a.None? || b.None?
    ensures a.Some? && b.Some? ==>
              var lt, eq, gt := CharLt(ci, a, b).value, CharEq(ci, a, b).value, CharLt(ci, b, a).value;
              (lt || eq || gt) && !(lt && eq) && !(lt && gt) && !(eq && gt) && CharLe(ci, a, b) == Some(lt || eq)
  {
    if a.Some? && b.Some? {
      KeyOrder(ci, a.value, b.value);
      KeyOrder(ci, b.value, a.value);
      CompareFlips(KeyOf(ci, a.value), KeyOf(ci, b.value));
    }
  }

  /**
   Which value is the smaller one: the one that comes first in the order of a dictionary, trailing blanks removed, and for
   the `_ci` form in lower case, as far as there are no NULs.
   */
  lemma LessExactly(s: Str, t: Str)
    ensures CharLt(false, Some(s), Some(t)) == Some(true) <==> Precedes(Trim(s), Trim(t))
    ensures NulFree(Trim(s)) && NulFree(Trim(t)) ==>
              (CharLt(true, Some(s), Some(t)) == Some(true) <==> Precedes(LowerAll(Trim(s)), LowerAll(Trim(t))))
  {
    CompareExactly(Trim(s), Trim(t));
    KeyOrder(true, s, t);
    if NulFree(Trim(s)) && NulFree(Trim(t)) {
      SeenIsLower(Trim(s));
      SeenIsLower(Trim(t));
      CompareExactly(LowerAll(Trim(s)), LowerAll(Trim(t)));
    }
  }

  /** A strict weak order: less-than is transitive, and so is being equal; equal values are interchangeable. */
  lemma StrictWeakOrder(ci: bool, s: Str, t: Str, u: Str)
    ensures CharLt(ci, Some(s), Some(s)) == Some(false)
    ensures CharLt(ci, Some(s), Some(t)) == Some(true) && CharLt(ci, Some(t), Some(u)) == Some(true) ==>
              CharLt(ci, Some(s), Some(u)) == Some(true)
    ensures CharEq(ci, Some(s), Some(t)) == Some(true) ==>
              CharEq(ci, Some(s), Some(u)) == CharEq(ci, Some(t), Some(u)) &&
              CharLt(ci, Some(s), Some(u)) == CharLt(ci, Some(t), Some(u)) &&
              CharLt(ci, Some(u), Some(s)) == CharLt(ci, Some(u), Some(t))
  {
    KeyOrder(ci, s, s);
    KeyOrder(ci, s, t);
    KeyOrder(ci, t, u);
    KeyOrder(ci, s, u);
    KeyOrder(ci, u, s);
    KeyOrder(ci, u, t);
    if Compare(KeyOf(ci, s), KeyOf(ci, t)) < 0 && Compare(KeyOf(ci, t), KeyOf(ci, u)) < 0 {
      CompareTransitive(KeyOf(ci, s), KeyOf(ci, t), KeyOf(ci, u));
    }
  }

  /** The classes of the order: equality modulo trailing blanks, and modulo case for the `_ci` form without NULs. */
  lemma Classes(ci: bool, s: Str, t: Str)
    requires ci ==> NulFree(Trim(s))
    ensures CharEq(ci, Some(s), Some(t)) == Some(if ci then LowerAll(Trim(s)) == LowerAll(Trim(t)) else Trim(s) == Trim(t))
  {
    if ci {
      IgnoresOnlyCaseExactly(Trim(s));
    }
  }

  /** Padding is invisible: a value that `CHAR_in` made of `s` compares with everything exactly as `s` does. */
  lemma PaddingInvisible(ci: bool, s: Str, v: Str, other: Arg)
    requires Trim(v) == Trim(s)
    ensures CharEq(ci, Some(s), Some(v)) == Some(true)
    ensures CharLt(ci, Some(v), other) == CharLt(ci, Some(s), other) && CharLt(ci, other, Some(v)) == CharLt(ci, other, Some(s))
    ensures CharEq(ci, Some(v), other) == CharEq(ci, Some(s), other) && CharLe(ci, Some(v), other) == CharLe(ci, Some(s), other)
  {
    KeyOrder(ci, s, v);
  }
}
