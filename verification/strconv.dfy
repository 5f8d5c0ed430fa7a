/** `strconv.Atoi` and its inverse `strconv.Itoa` for a 64-bit `int`. */
module Strconv {
  import opened Results

  const MaxInt64: int := 0x7FFF_FFFF_FFFF_FFFF
  const MinInt64: int := -0x8000_0000_0000_0000

  /** Why `strconv.Atoi` refused its input. */
  datatype NumError = ErrSyntax | ErrRange

  predicate IsDigit(c: char)
  {
    '0' <= c <= '9'
  }

  predicate AllDigits(s: string)
  {
    forall i :: 0 <= i < |s| ==> IsDigit(s[i])
  }

  /** The value of a string of decimal digits, most significant digit first. */
  function DecimalValue(s: string): nat
    requires AllDigits(s)
    decreases |s|
  {
    if |s| == 0 then 0
    else 10 * DecimalValue(s[..|s| - 1]) + (s[|s| - 1] as int - '0' as int)
  }

  /** The decimal digits of `n`, without leading zeros. */
  function Digits(n: nat): (s: string)
    ensures |s| >= 1 && AllDigits(s)
    ensures s[0] == '0' ==> n == 0
    decreases n
  {
    if n < 10 then [('0' as int + n) as char]
    else Digits(n / 10) + [('0' as int + n % 10) as char]
  }

  /** `strconv.Itoa`. */
  function Itoa(n: int): string
  {
    if n < 0 then "-" + Digits(-n) else Digits(n)
  }

  /** `strconv.Atoi` where `int` has 64 bits: an optional sign and at least one
      decimal digit, with a value that fits the type. */
  function Atoi(s: string): (r: Result<int, NumError>)
    ensures r.Ok? ==> MinInt64 <= r.value <= MaxInt64
    ensures r.Ok? ==> |s| >= 1 && IsDigit(s[|s| - 1])
    ensures |s| == 0 ==> r == Err(ErrSyntax)
    ensures AllDigits(s) && |s| >= 1 ==> (r.Ok? <==> DecimalValue(s) <= MaxInt64)
    ensures AllDigits(s) && |s| >= 1 && r.Ok? ==> r.value == DecimalValue(s)
  {
    if |s| == 0 then Err(ErrSyntax)
    else
      var signed := s[0] == '+' || s[0] == '-';
      var body := if signed then s[1..] else s;
      if |body| == 0 || !AllDigits(body) then Err(ErrSyntax)
      else
        var m: int := DecimalValue(body);
        var v := if s[0] == '-' then 0 - m else m;
        if v < MinInt64 || v > MaxInt64 then Err(ErrRange) else Ok(v)
  }

  /** Reading back the digits of `n` gives `n`. */
  lemma {:induction false} DigitsRoundTrip(n: nat)
    ensures DecimalValue(Digits(n)) == n
    decreases n
  {
    if n >= 10 {
      var d := Digits(n / 10);
      var s := Digits(n);
      assert s == d + [('0' as int + n % 10) as char];
      assert s[..|s| - 1] == d;
      DigitsRoundTrip(n / 10);
    }
  }

  /** `strconv.Atoi` inverts `strconv.Itoa` on every 64-bit value. */
  lemma AtoiItoa(n: int)
    requires MinInt64 <= n <= MaxInt64
    ensures Atoi(Itoa(n)) == Ok(n)
  {
    if n < 0 {
      DigitsRoundTrip(-n);
      assert Itoa(n)[1..] == Digits(-n);
    } else {
      DigitsRoundTrip(n);
    }
  }
}
