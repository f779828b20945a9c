/**
 * The string operations the builder borrows from Python: `str.lower`,
 * `str.strip`, the regular-expression class `\w`, and the code-point order
 * `sorted` uses on string keys.
 */
module Text {

  /** Lower-cases one ASCII capital; every other character is left alone. */
  function LowerChar(c: char): char {
    if 'A' <= c <= 'Z' then (c as int - 'A' as int + 'a' as int) as char else c
  }

  /** `s.lower()`, restricted to the ASCII alphabet. */
  function Lower(s: string): (r: string)
    ensures |r| == |s|
    ensures forall i :: 0 <= i < |s| ==> r[i] == LowerChar(s[i])
  {
    seq(|s|, i requires 0 <= i < |s| => LowerChar(s[i]))
  }

  /** No ASCII capital occurs in `s`. */
  predicate IsLowerCase(s: string) {
    forall i :: 0 <= i < |s| ==> !('A' <= s[i] <= 'Z')
  }

  lemma LowerIsLowerCase(s: string)
    ensures IsLowerCase(Lower(s))
  {
  }

  /** A string is a fixed point of `Lower` exactly when it is already lower case. */
  lemma LowerFixesLowerCase(s: string)
    ensures IsLowerCase(s) <==> Lower(s) == s
  {
    if Lower(s) == s {
      forall i | 0 <= i < |s|
        ensures !('A' <= s[i] <= 'Z')
      {
        assert LowerChar(s[i]) == s[i];
      }
    }
  }

  lemma LowerIdempotent(s: string)
    ensures Lower(Lower(s)) == Lower(s)
  {
    LowerIsLowerCase(s);
    LowerFixesLowerCase(Lower(s));
  }

  lemma LowerConcat(a: string, b: string)
    ensures Lower(a + b) == Lower(a) + Lower(b)
  {
  }

  /** The regular-expression class `\w`, restricted to ASCII: letters, digits and underscore. */
  predicate IsWordChar(c: char) {
    'a' <= c <= 'z' || 'A' <= c <= 'Z' || '0' <= c <= '9' || c == '_'
  }

  /** The characters Python's `str.isspace` accepts, hence the ones `str.strip` removes. */
  predicate IsSpace(c: char) {
    || '\t' <= c <= '\r'
    || '\U{1c}' <= c <= ' '
    || c == '\U{85}' || c == '\U{a0}' || c == '\U{1680}'
    || '\U{2000}' <= c <= '\U{200a}'
    || c == '\U{2028}' || c == '\U{2029}' || c == '\U{202f}' || c == '\U{205f}' || c == '\U{3000}'
  }

  /** The number of whitespace characters `s.lstrip()` removes. */
  function Leading(s: string): (n: nat)
    ensures n <= |s|
    ensures forall k :: 0 <= k < n ==> IsSpace(s[k])
    ensures n == |s| || !IsSpace(s[n])
  {
    if s != [] && IsSpace(s[0]) then 1 + Leading(s[1..]) else 0
  }

  /** The length `s.rstrip()` keeps: the position just after the last non-whitespace character. */
  function End(s: string): (n: nat)
    ensures n <= |s|
    ensures forall k :: n <= k < |s| ==> IsSpace(s[k])
    ensures n == 0 || !IsSpace(s[n - 1])
  {
    if s != [] && IsSpace(s[|s| - 1]) then End(s[..|s| - 1]) else |s|
  }

  /**
   * `s.strip()`: the slice of `s` that starts after its leading whitespace
   * and is followed only by whitespace, with no whitespace at either end.
   * It is empty exactly when `s` is all whitespace.
   */
  function Strip(s: string): (r: string)
    ensures Leading(s) + |r| <= |s| && r == s[Leading(s)..Leading(s) + |r|]
    ensures forall k :: Leading(s) + |r| <= k < |s| ==> IsSpace(s[k])
    ensures r == [] || (!IsSpace(r[0]) && !IsSpace(r[|r| - 1]))
    ensures r == [] <==> forall k :: 0 <= k < |s| ==> IsSpace(s[k])
  {
    if Leading(s) == |s| then []
    else
      NonSpaceBetween(s, Leading(s));
      s[Leading(s)..End(s)]
  }

  /** A non-whitespace character lies at or after the leading whitespace and before `End`. */
  lemma NonSpaceBetween(s: string, k: nat)
    requires k < |s| && !IsSpace(s[k])
    ensures Leading(s) <= k < End(s)
  {
  }

  /** Strict code-point order on strings, the order of Python's `sorted` on `str` keys. */
  predicate Below(a: string, b: string)
    decreases |a|
  {
    if a == [] then b != []
    else if b == [] then false
    else if a[0] != b[0] then a[0] < b[0]
    else Below(a[1..], b[1..])
  }

  lemma {:induction false} BelowIrreflexive(a: string)
    ensures !Below(a, a)
    decreases |a|
  {
    if a != [] {
      BelowIrreflexive(a[1..]);
    }
  }

  lemma {:induction false} BelowTotal(a: string, b: string)
    ensures a == b || Below(a, b) || Below(b, a)
    decreases |a|
  {
    if a != [] && b != [] && a[0] == b[0] {
      BelowTotal(a[1..], b[1..]);
      if a[1..] == b[1..] {
        assert a == [a[0]] + a[1..] && b == [b[0]] + b[1..];
      }
    }
  }

  lemma {:induction false} BelowTransitive(a: string, b: string, c: string)
    requires Below(a, b) && Below(b, c)
    ensures Below(a, c)
    decreases |a|
  {
    if a != [] && a[0] == b[0] && b[0] == c[0] {
      BelowTransitive(a[1..], b[1..], c[1..]);
    }
  }

  /** Two distinct strings are always ordered one way or the other, and never both ways. */
  lemma BelowIsStrictTotalOrder()
    ensures forall a: string, b: string :: a == b || Below(a, b) || Below(b, a)
    ensures forall a: string, b: string :: Below(a, b) ==> !Below(b, a)
    ensures forall a: string, b: string, c: string :: Below(a, b) && Below(b, c) ==> Below(a, c)
  {
    forall a: string, b: string
      ensures a == b || Below(a, b) || Below(b, a)
    {
      BelowTotal(a, b);
    }
    forall a: string, b: string | Below(a, b)
      ensures !Below(b, a)
    {
      if Below(b, a) {
        BelowTransitive(a, b, a);
        BelowIrreflexive(a);
      }
    }
    forall a: string, b: string, c: string | Below(a, b) && Below(b, c)
      ensures Below(a, c)
    {
      BelowTransitive(a, b, c);
    }
  }

  /** `m` is a least element of `s`: no element of `s` is below it. */
  predicate IsLeast(s: set<string>, m: string) {
    m in s && forall x :: x in s ==> !Below(x, m)
  }

  /** Every non-empty finite set of strings has a least element. */
  lemma {:induction false} LeastExists(s: set<string>)
    requires s != {}
    ensures exists m :: IsLeast(s, m)
    decreases s
  {
    BelowIsStrictTotalOrder();
    var y :| y in s;
    if s != {y} {
      LeastExists(s - {y});
      var m :| IsLeast(s - {y}, m);
      if Below(y, m) {
        assert IsLeast(s, y);
      } else {
        assert IsLeast(s, m);
      }
    } else {
      BelowIrreflexive(y);
      assert IsLeast(s, y);
    }
  }

  /** The least element is unique and below every other element. */
  lemma LeastIsBelowOthers(s: set<string>, m: string)
    requires IsLeast(s, m)
    ensures forall m' :: IsLeast(s, m') ==> m' == m
    ensures forall x :: x in s && x != m ==> Below(m, x)
  {
    forall x | x in s && x != m
      ensures Below(m, x)
    {
      BelowTotal(m, x);
    }
  }

  /** The elements of `s` in increasing code-point order (the key order of `sorted`). */
  function SortedSet(s: set<string>): (r: seq<string>)
    ensures forall x :: x in r <==> x in s
    ensures forall i, j :: 0 <= i < j < |r| ==> Below(r[i], r[j])
    ensures |r| == |s|
    decreases s
  {
    if s == {} then []
    else
      LeastExists(s);
      var m :| IsLeast(s, m);
      LeastIsBelowOthers(s, m);
      [m] + SortedSet(s - {m})
  }
}
