// Characters of C strings, and the numbers and comments that several scanners read.
module Characters {

  const NUL: char := '\0'

  predicate IsDigit(c: char) {
    '0' <= c <= '9'
  }

  function DigitValue(c: char): (d: nat)
    requires IsDigit(c)
    ensures d < 10
  {
    c as int - '0' as int
  }

  // atoi of s[i..end], with n read so far; no digit at all counts as zero.
  function Atoi(s: string, i: nat, end: nat, n: nat := 0): nat
    requires i <= end <= |s|
    decreases end - i
  {
    if i < end && IsDigit(s[i]) then Atoi(s, i + 1, end, 10 * n + DigitValue(s[i])) else n
  }

  // The first position from i on that ends the line.
  function AfterComment(s: string, i: nat): (j: nat)
    requires i <= |s|
    ensures i <= j <= |s|
    decreases |s| - i
  {
    if i < |s| && s[i] != '\n' then AfterComment(s, i + 1) else i
  }
}
