/** Small helpers shared by the server and client models: an optional value
    (JavaScript's `undefined`), string predicates, JavaScript's truncating
    remainder and the decimal rendering of integers (`Number.prototype.toString`). */
module Common {

  datatype Option<+T> = None | Some(value: T)

  /** `s.startsWith(prefix)` */
  predicate StartsWith(s: string, prefix: string) {
    |prefix| <= |s| && s[..|prefix|] == prefix
  }

  /** `s.endsWith(suffix)` */
  predicate EndsWith(s: string, suffix: string) {
    |suffix| <= |s| && s[|s| - |suffix|..] == suffix
  }

  /** `s.includes(sub)`: some window of `s` equals `sub` */
  predicate Contains(s: string, sub: string) {
    exists i {:trigger s[i..]} :: 0 <= i <= |s| - |sub| && s[i..][..|sub|] == sub
  }

  lemma ContainsItself(s: string)
    ensures Contains(s, s)
  {
    assert s[0..][..|s|] == s;
  }

  /** JavaScript's integer quotient `Math.trunc(a / b)` for a positive divisor. */
  function JsQuot(a: int, b: int): int
    requires b > 0
  {
    if a >= 0 then a / b else -((-a) / b)
  }

  /** JavaScript's `a % b` for a positive divisor: the remainder takes the
      sign of the dividend (truncation toward zero), unlike Dafny's `%`. */
  function JsRem(a: int, b: int): (r: int)
    requires b > 0
    ensures -b < r < b
    ensures a >= 0 ==> 0 <= r
    ensures a <= 0 ==> r <= 0
    ensures a == b * JsQuot(a, b) + r
  {
    if a >= 0 then a % b
    else
      var q, m := (-a) / b, (-a) % b;
      assert -a == b * q + m;
      -m
  }

  // ---------------------------------------------------------------- decimals

  predicate IsDigit(c: char) { '0' <= c <= '9' }

  function DigitChar(d: int): (c: char)
    requires 0 <= d < 10
    ensures IsDigit(c)
  {
    "0123456789"[d]
  }

  function DigitValue(c: char): (d: int)
    requires IsDigit(c)
    ensures 0 <= d < 10
  {
    (c as int) - ('0' as int)
  }

  lemma DigitRoundTrip(d: int)
    requires 0 <= d < 10
    ensures DigitValue(DigitChar(d)) == d
  {
  }

  /** Decimal digits of a natural number, no leading zeros (`String(n)`). */
  function NatToString(n: nat): (s: string)
    decreases n
  {
    if n < 10 then [DigitChar(n)] else NatToString(n / 10) + [DigitChar(n % 10)]
  }

  predicate AllDigits(s: string) {
    forall i :: 0 <= i < |s| ==> IsDigit(s[i])
  }

  /** The value of a string of decimal digits, most significant first. */
  function DigitsValue(s: string): (n: nat)
    requires AllDigits(s)
  {
    if s == [] then 0 else 10 * DigitsValue(s[..|s| - 1]) + DigitValue(s[|s| - 1])
  }

  lemma {:induction false} NatToStringWellFormed(n: nat)
    ensures |NatToString(n)| >= 1
    ensures AllDigits(NatToString(n))
    ensures NatToString(n)[0] != '0' || n == 0
    decreases n
  {
    if n >= 10 {
      NatToStringWellFormed(n / 10);
    }
  }

  /** Reading back the rendered digits gives the number again. */
  lemma {:induction false} NatToStringRoundTrip(n: nat)
    ensures AllDigits(NatToString(n))
    ensures DigitsValue(NatToString(n)) == n
    decreases n
  {
    NatToStringWellFormed(n);
    var s := NatToString(n);
    if n < 10 {
      assert s[..0] == [];
      DigitRoundTrip(n);
    } else {
      NatToStringRoundTrip(n / 10);
      assert s[..|s| - 1] == NatToString(n / 10);
      DigitRoundTrip(n % 10);
    }
  }

  /** Two numbers render alike only when they are equal. */
  lemma NatToStringInjective(m: nat, n: nat)
    requires NatToString(m) == NatToString(n)
    ensures m == n
  {
    NatToStringRoundTrip(m);
    NatToStringRoundTrip(n);
  }

  /** `String(i)` for an integer `i`: a minus sign before the digits of `|i|`. */
  function IntToString(i: int): (s: string)
  {
    if i < 0 then "-" + NatToString(-i) else NatToString(i)
  }

  lemma IntToStringInjective(i: int, j: int)
    requires IntToString(i) == IntToString(j)
    ensures i == j
  {
    NatToStringWellFormed(if i < 0 then -i else i);
    NatToStringWellFormed(if j < 0 then -j else j);
    var a, b := IntToString(i), IntToString(j);
    if i < 0 && j < 0 {
      assert a[1..] == NatToString(-i) && b[1..] == NatToString(-j);
      NatToStringInjective(-i, -j);
    } else if i >= 0 && j >= 0 {
      NatToStringInjective(i, j);
    }
  }

  // ---------------------------------------------------------------- sequences

  /** `s.filter(f)`: the elements satisfying `f`, order and multiplicity kept. */
  function Filter<T(!new)>(s: seq<T>, f: T -> bool): (r: seq<T>)
    ensures forall x :: x in r <==> x in s && f(x)
    ensures |r| <= |s|
  {
    if s == [] then []
    else
      var rest := Filter(s[1..], f);
      assert s == [s[0]] + s[1..];
      (if f(s[0]) then [s[0]] else []) + rest
  }

  /** Filtering keeps each satisfying element as often as it occurs, and drops the rest. */
  lemma {:induction false} FilterCount<T(!new)>(s: seq<T>, f: T -> bool)
    ensures forall x :: multiset(Filter(s, f))[x] == if f(x) then multiset(s)[x] else 0
  {
    if s != [] {
      FilterCount(s[1..], f);
      assert s == [s[0]] + s[1..];
      assert multiset(s) == multiset{s[0]} + multiset(s[1..]);
      assert Filter(s, f) == (if f(s[0]) then [s[0]] else []) + Filter(s[1..], f);
    }
  }

  /** Nothing is kept exactly when no element satisfies `f`. */
  lemma {:induction false} FilterEmpty<T(!new)>(s: seq<T>, f: T -> bool)
    ensures Filter(s, f) == [] <==> forall x :: x in s ==> !f(x)
  {
    if s != [] {
      FilterEmpty(s[1..], f);
      assert s == [s[0]] + s[1..];
    }
  }

  /** When `f` holds exactly on the first `i` elements, filtering keeps that prefix. */
  lemma {:induction false} FilterPrefix<T(!new)>(s: seq<T>, f: T -> bool, i: nat)
    requires i <= |s|
    requires forall j :: 0 <= j < i ==> f(s[j])
    requires forall j :: i <= j < |s| ==> !f(s[j])
    ensures Filter(s, f) == s[..i]
  {
    if s != [] {
      var t := s[1..];
      var k := if i == 0 then 0 else i - 1;
      forall j | 0 <= j < k ensures f(t[j]) { assert t[j] == s[j + 1]; }
      forall j | k <= j < |t| ensures !f(t[j]) { assert t[j] == s[j + 1]; }
      FilterPrefix(t, f, k);
      assert Filter(s, f) == (if f(s[0]) then [s[0]] else []) + Filter(t, f);
      if i > 0 {
        assert s[..i] == [s[0]] + t[..k];
      }
    }
  }

  /** Filtering a list extended at the end extends the filtered list the same way. */
  lemma {:induction false} FilterSnoc<T(!new)>(s: seq<T>, x: T, f: T -> bool)
    ensures Filter(s + [x], f) == Filter(s, f) + (if f(x) then [x] else [])
  {
    if s != [] {
      assert (s + [x])[1..] == s[1..] + [x];
      FilterSnoc(s[1..], x, f);
    } else {
      assert [x][1..] == [];
    }
  }

  /** `s.filter(y => y !== x)`: every occurrence of `x` removed, order kept. */
  function Without<T(==)>(s: seq<T>, x: T): (r: seq<T>)
    ensures multiset(r) == multiset(s)[x := 0]
    ensures |r| <= |s|
  {
    if s == [] then []
    else
      var rest := Without(s[1..], x);
      assert s == [s[0]] + s[1..];
      assert multiset(s) == multiset{s[0]} + multiset(s[1..]);
      if s[0] == x then rest else [s[0]] + rest
  }

  /** `Without` is the order-keeping filter: the remaining elements keep
      their relative order. */
  lemma {:induction false} WithoutKeepsOrder<T(!new)>(s: seq<T>, x: T)
    ensures Without(s, x) == Filter(s, y => y != x)
  {
    if s != [] {
      WithoutKeepsOrder(s[1..], x);
    }
  }

  /** Closing a connection that is not registered leaves the registry as it is. */
  lemma {:induction false} WithoutAbsent<T>(s: seq<T>, x: T)
    requires x !in s
    ensures Without(s, x) == s
  {
    if s != [] {
      assert s[0] != x && x !in s[1..];
      WithoutAbsent(s[1..], x);
      assert s == [s[0]] + s[1..];
    }
  }

  ghost predicate Distinct<T>(s: seq<T>) {
    forall i, j :: 0 <= i < j < |s| ==> s[i] != s[j]
  }

  lemma {:induction false} WithoutDistinct<T>(s: seq<T>, x: T)
    requires Distinct(s)
    ensures Distinct(Without(s, x))
  {
    if s != [] {
      assert Distinct(s[1..]) by {
        forall i, j | 0 <= i < j < |s[1..]| ensures s[1..][i] != s[1..][j] {
          assert s[1..][i] == s[i + 1] && s[1..][j] == s[j + 1];
        }
      }
      WithoutDistinct(s[1..], x);
      var rest := Without(s[1..], x);
      if s[0] != x {
        assert s[0] !in s[1..] by {
          forall i | 0 <= i < |s[1..]| ensures s[1..][i] != s[0] { assert s[1..][i] == s[i + 1]; }
        }
        var r := [s[0]] + rest;
        forall i, j | 0 <= i < j < |r| ensures r[i] != r[j] {
          assert r[j] == rest[j - 1];
          if i > 0 { assert r[i] == rest[i - 1]; }
          else {
            assert rest[j - 1] in multiset(rest);
            assert rest[j - 1] in multiset(s[1..]);
          }
        }
      }
    }
  }
}
