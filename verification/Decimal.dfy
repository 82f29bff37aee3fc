/** Decimal rendering of unsigned integers, as `std::to_string` and the signal
    handler's digit loop produce it. */
module Decimal {

  function DigitChar(d: nat): char
    requires d < 10
  {
    '0' + d as char
  }

  function DigitValue(c: char): nat {
    if '0' <= c <= '9' then (c - '0') as nat else 0
  }

  /** The decimal digits of n, most significant first, without leading zeros. */
  function Digits(n: nat): string {
    if n < 10 then [DigitChar(n)] else Digits(n / 10) + [DigitChar(n % 10)]
  }

  /** The number a digit string denotes. */
  function Value(s: string): nat {
    if s == "" then 0 else 10 * Value(s[..|s| - 1]) + DigitValue(s[|s| - 1])
  }

  /** Reading back what was printed gives the number printed. */
  lemma {:induction false} ValueOfDigits(n: nat)
    ensures Value(Digits(n)) == n
  {
    if n < 10 {
      assert Digits(n)[..0] == "";
    } else {
      ValueOfDigits(n / 10);
      assert Digits(n)[..|Digits(n)| - 1] == Digits(n / 10);
    }
  }

  function Pow10(k: nat): (p: nat)
    ensures p > 0
  {
    if k == 0 then 1 else 10 * Pow10(k - 1)
  }

  lemma {:induction false} DigitsLength(n: nat, k: nat)
    requires k > 0 && n < Pow10(k)
    ensures |Digits(n)| <= k
  {
    if n >= 10 {
      assert k > 1 by { assert Pow10(1) == 10; }
      DigitsLength(n / 10, k - 1);
    }
  }

  function Reversed<T>(s: seq<T>): (r: seq<T>)
    ensures |r| == |s|
  {
    seq(|s|, i requires 0 <= i < |s| => s[|s| - 1 - i])
  }

  const SIZE_SPAN: nat := 0x1_0000_0000_0000_0000

  lemma SizeHas20Digits()
    ensures SIZE_SPAN <= Pow10(20)
  {
    assert Pow10(5) == 100_000;
    assert Pow10(10) == 10_000_000_000;
    assert Pow10(15) == 1_000_000_000_000_000;
  }

  function DigitsOrNothing(n: nat): string {
    if n == 0 then "" else Digits(n)
  }

  lemma DigitsSplit(n: nat, rest: string)
    requires n > 0
    ensures DigitsOrNothing(n) + rest == DigitsOrNothing(n / 10) + ([DigitChar(n % 10)] + rest)
  {
  }

  lemma ReversedAppend<T>(s: seq<T>, x: T)
    ensures Reversed(s + [x]) == [x] + Reversed(s)
  {
  }

  /** The digit loop: least significant first. */
  method WriteDigits(buf: array<char>, value: nat) returns (i: nat)
    requires buf.Length == 64 && 0 < value < SIZE_SPAN
    modifies buf
    ensures i <= 20
    ensures Digits(value) == Reversed(buf[..i])
  {
    SizeHas20Digits();
    DigitsLength(value, 20);
    var num := value;
    i := 0;
    while num != 0
      invariant i <= 20
      invariant Digits(value) == DigitsOrNothing(num) + Reversed(buf[..i])
    {
      ghost var done := buf[..i];
      var d := DigitChar(num % 10);
      buf[i] := d;
      i := i + 1;
      assert buf[..i] == done + [d];
      ReversedAppend(done, d);
      DigitsSplit(num, Reversed(done));
      num := num / 10;
    }
  }

  /** The swap loop. */
  method ReverseInPlace(buf: array<char>, i: nat)
    requires 0 < i <= buf.Length
    modifies buf
    ensures buf[..i] == Reversed(old(buf[..i]))
  {
    ghost var digits := buf[..i];
    var j, k := 0, i - 1;
    while j < k
      invariant 0 <= j <= k + 1 && j + k == i - 1
      invariant forall m :: 0 <= m < j ==> buf[m] == digits[i - 1 - m]
      invariant forall m :: k < m < i ==> buf[m] == digits[i - 1 - m]
      invariant forall m :: j <= m <= k ==> buf[m] == digits[m]
    {
      buf[j], buf[k] := buf[k], buf[j];
      j, k := j + 1, k - 1;
    }
  }

  /** `safe_print_unsigned`: digits least significant first, then reversed in place
      in a buffer of 64 characters. */
  method PrintUnsigned(value: nat) returns (s: string)
    requires value < SIZE_SPAN
    ensures s == Digits(value)
  {
    if value == 0 {
      return "0";
    }
    var buf := new char[64];
    var i := WriteDigits(buf, value);
    assert |Digits(value)| > 0;
    ReverseInPlace(buf, i);
    s := buf[..i];
  }
}
