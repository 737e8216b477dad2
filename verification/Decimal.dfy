/** Decimal numerals as strconv.Itoa writes them and strconv.Atoi reads them. */
module Decimal {
  import opened Bytes
  import opened Options

  const PLUS: byte := 43
  const MINUS: byte := 45
  const DIGIT_0: byte := 48
  const DIGIT_9: byte := 57

  // Go's int is 64 bits wide.
  const MAX_INT := 0x7FFF_FFFF_FFFF_FFFF
  const MIN_INT := -0x8000_0000_0000_0000

  predicate AllDigits(s: bytes) {
    forall i :: 0 <= i < |s| ==> DIGIT_0 <= s[i] <= DIGIT_9
  }

  function Digits(n: nat): (s: bytes)
    ensures s != [] && AllDigits(s)
  {
    if n < 10 then [DIGIT_0 + n as byte] else Digits(n / 10) + [DIGIT_0 + (n % 10) as byte]
  }

  function Itoa(n: int): (s: bytes)
    ensures s != [] && forall b :: b in s ==> b == MINUS || DIGIT_0 <= b <= DIGIT_9
  {
    if n < 0 then [MINUS] + Digits(-n) else Digits(n)
  }

  function Value(s: bytes): nat
    requires AllDigits(s)
  {
    if s == [] then 0 else 10 * Value(s[..|s| - 1]) + (s[|s| - 1] - DIGIT_0) as nat
  }

  // The number a signed numeral denotes.
  function Number(s: bytes): Option<int> {
    var signed := s != [] && (s[0] == PLUS || s[0] == MINUS);
    var digits := if signed then s[1..] else s;
    if digits == [] || !AllDigits(digits) then None
    else if signed && s[0] == MINUS then Some(-(Value(digits) as int))
    else Some(Value(digits))
  }

  // None stands for either of Atoi's errors: not a numeral, or out of range.
  function Atoi(s: bytes): (r: Option<int>)
    ensures r.Some? ==> MIN_INT <= r.value <= MAX_INT
  {
    match Number(s)
    case None => None
    case Some(n) => if MIN_INT <= n <= MAX_INT then Some(n) else None
  }

  lemma {:induction false} ValueOfDigits(n: nat)
    ensures Value(Digits(n)) == n
  {
    if 10 <= n {
      ValueOfDigits(n / 10);
      var s := Digits(n);
      assert s[..|s| - 1] == Digits(n / 10);
    } else {
      assert Digits(n)[..0] == [];
    }
  }

  lemma NumberItoa(n: int)
    ensures Number(Itoa(n)) == Some(n)
  {
    hide Digits, Value;
    if n < 0 {
      ValueOfDigits(-n);
      assert Itoa(n)[1..] == Digits(-n);
    } else {
      ValueOfDigits(n);
    }
  }

  /** What Itoa writes, digit by digit, in octets. */
  lemma ItoaInOctets(n: nat, d: nat)
    requires 0 < n && d < 10
    ensures Itoa(d) == [48 + d as byte]
    ensures Itoa(10 * n + d) == Itoa(n) + [48 + d as byte]
    ensures Itoa(-(n as int)) == [45] + Itoa(n)
  {
    assert (10 * n + d) / 10 == n && (10 * n + d) % 10 == d;
  }

  /** Reading what was written gives the number back, if it is one Go can hold. */
  lemma AtoiItoa(n: int)
    ensures Atoi(Itoa(n)) == if -9223372036854775808 <= n <= 9223372036854775807 then Some(n) else None
  {
    NumberItoa(n);
  }

  lemma {:induction false} LeadingZero(s: bytes)
    requires AllDigits(s)
    ensures AllDigits([48] + s) && Value([48] + s) == Value(s)
    decreases |s|
  {
    var t := [48] + s;
    if s != [] {
      var n := |s| - 1;
      assert t[..|t| - 1] == [48] + s[..n] && t[|t| - 1] == s[n];
      LeadingZero(s[..n]);
    } else {
      assert t[..0] == [];
    }
  }

  /** The numerals Atoi reads that Itoa does not write, and what it does not read at all, in octets. */
  lemma AtoiOtherwise(s: bytes)
    ensures s != [] && AllDigits(s) ==> Atoi([43] + s) == Atoi(s) && Atoi([48] + s) == Atoi(s)
    ensures Atoi([]) == Atoi([43]) == Atoi([45]) == None
    ensures s != [] && s[0] != 43 && s[0] != 45 && !AllDigits(s) ==> Atoi(s) == None
    ensures !AllDigits(s) ==> Atoi([43] + s) == Atoi([45] + s) == None
  {
    assert ([43] + s)[1..] == s && ([45] + s)[1..] == s;
    if s != [] && AllDigits(s) {
      LeadingZero(s);
    }
  }

  lemma ItoaInjective(m: int, n: int)
    requires Itoa(m) == Itoa(n)
    ensures m == n
  {
    NumberItoa(m);
    NumberItoa(n);
  }
}
