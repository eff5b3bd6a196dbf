/** Result types, 64-bit machine integers and decimal text shared by the other modules. */
module Prelude {

  datatype Option<+T> = None | Some(value: T)

  datatype Result<+T, +E> = Ok(value: T) | Err(error: E)

  const TWO63: int := 0x8000_0000_0000_0000
  const TWO64: int := 0x1_0000_0000_0000_0000

  type int64 = x: int | -TWO63 <= x < TWO63

  /** Two's-complement wrap-around of an integer into 64 bits. */
  function Wrap64(x: int): (r: int64)
    ensures -TWO63 <= x < TWO63 ==> r == x
    ensures (x - r) % TWO64 == 0
  {
    (x + TWO63) % TWO64 - TWO63
  }

  /** The `%` of Go, Java and Rust: the remainder has the sign of the dividend. */
  function TruncMod(a: int, b: int): int
    requires b > 0
  {
    if a >= 0 then a % b else -((-a) % b)
  }

  function Min(a: int, b: int): (m: int)
    ensures m <= a && m <= b && (m == a || m == b)
  {
    if a <= b then a else b
  }

  function Abs(a: int): nat {
    if a < 0 then -a else a
  }

  // ---------- decimal text ----------

  function DigitChar(d: nat): (c: char)
    requires d < 10
  {
    '0' + d as char
  }

  function Digits(n: nat): (s: string)
    ensures |s| > 0 && forall i :: 0 <= i < |s| ==> '0' <= s[i] <= '9'
  {
    if n < 10 then [DigitChar(n)] else Digits(n / 10) + [DigitChar(n % 10)]
  }

  /** `%d`: what fmt.Sprintf and String.valueOf print. */
  function Decimal(n: int): string {
    if n < 0 then "-" + Digits(-n) else Digits(n)
  }

  function DigitsValue(s: string): Option<nat> {
    if s == [] then Some(0)
    else
      var c := s[|s| - 1];
      match DigitsValue(s[..|s| - 1])
      case None => None
      case Some(v) => if '0' <= c <= '9' then Some(v * 10 + (c as int - '0' as int)) else None
  }

  /** strconv.ParseInt(s, 10, 64): optional sign, at least one digit, range checked. */
  function ParseInt64(s: string): Option<int64> {
    var negative := s != [] && s[0] == '-';
    var digits := if s != [] && (s[0] == '-' || s[0] == '+') then s[1..] else s;
    if digits == [] then None
    else
      match DigitsValue(digits)
      case None => None
      case Some(v) =>
        var n := (if negative then -1 else 1) * v;
        if -TWO63 <= n < TWO63 then Some(n) else None
  }

  lemma {:induction false} DigitsRoundTrip(n: nat)
    ensures DigitsValue(Digits(n)) == Some(n)
  {
    var s := Digits(n);
    if n < 10 {
      assert s[..0] == [];
    } else {
      DigitsRoundTrip(n / 10);
      assert s[..|s| - 1] == Digits(n / 10);
    }
  }

  /** Printing an ID and parsing it back is the identity on every int64. */
  lemma ParseDecimal(n: int64)
    ensures ParseInt64(Decimal(n)) == Some(n)
  {
    var d := Digits(Abs(n));
    DigitsRoundTrip(Abs(n));
    if n < 0 {
      assert Decimal(n)[1..] == d;
    } else {
      assert Decimal(n) == d && '0' <= d[0] <= '9';
    }
  }

  /** Distinct IDs print to distinct keys. */
  lemma DecimalInjective(a: int64, b: int64)
    requires Decimal(a) == Decimal(b)
    ensures a == b
  {
    ParseDecimal(a);
    ParseDecimal(b);
  }

  lemma DigitsInjective(a: nat, b: nat)
    requires Digits(a) == Digits(b)
    ensures a == b
  {
    DigitsRoundTrip(a);
    DigitsRoundTrip(b);
  }

  lemma DecimalParts(n: int)
    ensures var s := Decimal(n);
      s != [] && (s[0] == '-' <==> n < 0) && (if n < 0 then s[1..] else s) == Digits(Abs(n))
  {
    var d := Digits(Abs(n));
    assert '0' <= d[0] <= '9';
  }

  /** Distinct numbers of any size print differently. */
  lemma DecimalDistinct(a: int, b: int)
    requires Decimal(a) == Decimal(b)
    ensures a == b
  {
    DecimalParts(a);
    DecimalParts(b);
    DigitsInjective(Abs(a), Abs(b));
  }

  /** What does not fit an int64 is refused. */
  lemma ParseOutOfRange(n: int)
    requires n < -TWO63 || n >= TWO63
    ensures ParseInt64(Decimal(n)) == None
  {
    DecimalParts(n);
    DigitsRoundTrip(Abs(n));
    assert '0' <= Digits(Abs(n))[0] <= '9';
  }

  lemma PrintExamples()
    ensures Decimal(0) == "0" && Decimal(-42) == "-42" && Decimal(107) == "107"
  {
    assert Digits(107) == Digits(10) + [DigitChar(7)] && Digits(10) == Digits(1) + [DigitChar(0)];
    assert Digits(42) == Digits(4) + [DigitChar(2)];
  }

  /** What else a parse accepts and refuses. */
  lemma ParseExamples()
    ensures ParseInt64("+7") == Some(7) && ParseInt64("007") == Some(7)
    ensures ParseInt64("") == ParseInt64("-") == ParseInt64("1x") == None
  {
    assert "1x"[..1] == "1";
    assert "7"[..0] == "" && "007"[..2] == "00" && "00"[..1] == "0" && "0"[..0] == "";
    assert "+7"[1..] == "7";
  }

  lemma SameTail(prefix: string, a: string, b: string)
    requires prefix + a == prefix + b
    ensures a == b
  {
    assert (prefix + a)[|prefix|..] == a && (prefix + b)[|prefix|..] == b;
  }

  lemma FirstSeparator(a: string, b: string, separator: char)
    requires separator !in a
    ensures var s := a + [separator] + b;
      s[|a|] == separator && (forall i :: 0 <= i < |a| ==> s[i] != separator) && s[..|a|] == a && s[|a| + 1..] == b
  {}

  /** Text cut at the first separator is cut in one way. */
  lemma SplitOnce(a: string, b: string, c: string, d: string, separator: char)
    requires separator !in a && separator !in c && a + [separator] + b == c + [separator] + d
    ensures a == c && b == d
  {
    FirstSeparator(a, b, separator);
    FirstSeparator(c, d, separator);
    assert |a| == |c|;
  }

  // ---------- sequences as sets ----------

  function SetOf<T>(s: seq<T>): set<T> {
    set x | x in s
  }

  predicate Distinct<T(==)>(s: seq<T>) {
    forall i, j :: 0 <= i < j < |s| ==> s[i] != s[j]
  }

  lemma DistinctConcat<T>(a: seq<T>, b: seq<T>)
    requires Distinct(a) && Distinct(b) && forall x :: x in b ==> x !in a
    ensures Distinct(a + b)
  {
    forall i, j | 0 <= i < j < |a + b| ensures (a + b)[i] != (a + b)[j] {
      if j >= |a| {
        assert (a + b)[j] == b[j - |a|] && b[j - |a|] in b;
      }
    }
  }

  lemma {:induction false} DistinctCard<T>(s: seq<T>)
    requires Distinct(s)
    ensures |SetOf(s)| == |s|
  {
    if s != [] {
      var r := s[..|s| - 1];
      DistinctCard(r);
      assert s[|s| - 1] !in r;
      assert SetOf(s) == SetOf(r) + {s[|s| - 1]};
    }
  }

  lemma Inhabitant<T>(s: set<T>) returns (x: T)
    requires s != {}
    ensures x in s
  {
    assert |s| > 0;
    x :| x in s;
  }

  lemma SubsetCard<T>(a: set<T>, b: set<T>)
    requires a <= b
    ensures |a| <= |b|
    ensures |a| == |b| ==> a == b
  {
    assert b == a + (b - a);
  }
}
