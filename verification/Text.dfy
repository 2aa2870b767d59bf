/** Decimal formatting (`%d`) and joining, as used to print placeholders and Redis members. */
module Text {
  import opened Wrappers

  predicate IsDigit(c: char) { '0' <= c <= '9' }

  function DigitChar(d: nat): (c: char)
    requires d < 10
    ensures IsDigit(c)
  {
    ('0' as int + d) as char
  }

  /** `fmt.Sprintf("%d", n)` for a non-negative number. */
  function Itoa(n: nat): (s: string)
    ensures s != "" && forall i | 0 <= i < |s| :: IsDigit(s[i])
  {
    if n < 10 then [DigitChar(n)] else Itoa(n / 10) + [DigitChar(n % 10)]
  }

  /** The number a non-empty run of digits stands for. */
  function Atoi(s: string): Option<nat>
  {
    if s == "" || !IsDigit(s[|s| - 1]) then None
    else
      var last: nat := s[|s| - 1] as int - '0' as int;
      if |s| == 1 then Some(last)
      else match Atoi(s[..|s| - 1])
        case None => None
        case Some(high) => Some(10 * high + last)
  }

  /** Reading back what was printed gives the number. */
  lemma {:induction false} AtoiOfItoa(n: nat)
    ensures Atoi(Itoa(n)) == Some(n)
  {
    if n >= 10 {
      AtoiOfItoa(n / 10);
      assert Itoa(n)[..|Itoa(n)| - 1] == Itoa(n / 10);
    }
  }

  /** `strings.Join`. */
  function Join(parts: seq<string>, separator: string): string
  {
    if |parts| == 0 then ""
    else if |parts| == 1 then parts[0]
    else parts[0] + separator + Join(parts[1..], separator)
  }
}
