/** Decimal text of integers: strconv.Itoa and strconv.Atoi on bytes. */
module Decimal {
  import opened Wrappers

  const MAX_INT := 0x7FFF_FFFF_FFFF_FFFF

  predicate IsDigit(c: char) { '0' <= c <= '9' }

  function Itoa(n: nat): (s: string)
    ensures s != []
    ensures forall c | c in s :: IsDigit(c)
  {
    if n < 10 then ['0' + n as char] else Itoa(n / 10) + ['0' + (n % 10) as char]
  }

  /** The number a run of digits denotes, or None when a character is no digit. */
  function Digits(s: string): (r: Option<int>)
    ensures r.Some? ==> r.value >= 0
  {
    if s == [] then Some(0)
    else
      var c := s[|s| - 1];
      match Digits(s[..|s| - 1])
      case None => None
      case Some(v) => if IsDigit(c) then Some(10 * v + (c as int - '0' as int)) else None
  }

  /** Signs are accepted; an empty digit string, a stray character or a 64-bit overflow is an error. */
  function Atoi(s: string): Option<int> {
    var negative := s != [] && s[0] == '-';
    var body := if s != [] && (s[0] == '-' || s[0] == '+') then s[1..] else s;
    if body == [] then None
    else
      match Digits(body)
      case None => None
      case Some(v) =>
        if negative then if v <= MAX_INT + 1 then Some(-v) else None
        else if v <= MAX_INT then Some(v) else None
  }

  lemma {:induction false} DigitsOfItoa(n: nat)
    ensures Digits(Itoa(n)) == Some(n)
  {
    if n < 10 {
      assert Itoa(n)[..0] == [];
      assert Digits([]) == Some(0);
    } else {
      DigitsOfItoa(n / 10);
      assert Itoa(n)[..|Itoa(n)| - 1] == Itoa(n / 10);
    }
  }

  lemma AtoiOfItoa(n: nat)
    requires n <= MAX_INT
    ensures Atoi(Itoa(n)) == Some(n)
  {
    DigitsOfItoa(n);
    assert Itoa(n)[0] in Itoa(n);
  }

  lemma Signed(sign: char, digits: string)
    requires digits != [] && IsDigit(digits[0]) && Digits(digits).Some? && (sign == '-' || sign == '+')
    ensures sign == '-' ==> (Atoi([sign] + digits).Some? <==> Digits(digits).value <= MAX_INT + 1)
    ensures sign == '-' && Atoi([sign] + digits).Some? ==> Atoi([sign] + digits).value + Digits(digits).value == 0
    ensures sign == '+' ==> Atoi([sign] + digits) == Atoi(digits)
    ensures Atoi(digits) == if Digits(digits).value <= MAX_INT then Digits(digits) else None
  {
    assert ([sign] + digits)[1..] == digits;
  }

  /** A sign is read, and a number beyond 64 bits is an error on either side of zero. */
  lemma SignedAtoi(n: nat)
    ensures var minus := Atoi(['-'] + Itoa(n)); minus.Some? <==> n <= MAX_INT + 1
    ensures var minus: Option<int> := Atoi(['-'] + Itoa(n)); minus.Some? ==> minus.value + n == 0
    ensures Atoi(['+'] + Itoa(n)) == Atoi(Itoa(n)) && (Atoi(Itoa(n)).Some? <==> n <= MAX_INT)
  {
    DigitsOfItoa(n);
    assert Itoa(n)[0] in Itoa(n);
    Signed('-', Itoa(n));
    Signed('+', Itoa(n));
  }

  lemma ItoaInjective(m: nat, n: nat)
    requires Itoa(m) == Itoa(n)
    ensures m == n
  {
    DigitsOfItoa(m);
    DigitsOfItoa(n);
  }
}
