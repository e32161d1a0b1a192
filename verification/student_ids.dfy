/** Sequential student ids of the form "STU" followed by a zero-padded decimal counter
    (app.py:70-76): the numeric part of the last id is parsed, incremented and printed back
    with at least three digits. */
module StudentIds {

  /** The fixed three-character prefix of every generated id. */
  const Prefix: string := "STU"

  /** The minimum number of digits after the prefix (the `03d` format). */
  const Width: nat := 3

  predicate IsDigit(c: char) {
    '0' <= c <= '9'
  }

  predicate AllDigits(s: string) {
    forall i :: 0 <= i < |s| ==> IsDigit(s[i])
  }

  function DigitChar(d: nat): (c: char)
    requires d < 10
    ensures IsDigit(c)
  {
    ('0' as int + d) as char
  }

  /** The decimal value of a string of digits, most significant first (Python `int`). */
  function ParseDigits(s: string): nat
    requires AllDigits(s)
    decreases |s|
  {
    if |s| == 0 then 0
    else ParseDigits(s[..|s| - 1]) * 10 + (s[|s| - 1] as int - '0' as int)
  }

  /** The shortest decimal spelling of `n`: it parses back to `n` and has no leading zero. */
  function ShowNat(n: nat): (r: string)
    ensures 1 <= |r| && AllDigits(r)
    ensures ParseDigits(r) == n
    ensures |r| > 1 ==> r[0] != '0'
    decreases n
  {
    if n < 10 then [DigitChar(n)]
    else
      var front := ShowNat(n / 10);
      var r := front + [DigitChar(n % 10)];
      assert r[..|r| - 1] == front;
      r
  }

  /** A leading zero does not change the value of a digit string. */
  lemma {:induction false} LeadingZero(s: string)
    requires AllDigits(s)
    ensures AllDigits("0" + s) && ParseDigits("0" + s) == ParseDigits(s)
    decreases |s|
  {
    if |s| > 0 {
      var z := "0" + s;
      assert z[..|z| - 1] == "0" + s[..|s| - 1];
      LeadingZero(s[..|s| - 1]);
    }
  }

  /** `s` padded on the left with zeros to at least `width` digits (the `0Nd` format):
      the value is unchanged and `s` ends the result. */
  function PadLeft(s: string, width: nat): (r: string)
    requires AllDigits(s)
    ensures AllDigits(r) && ParseDigits(r) == ParseDigits(s)
    ensures |r| == if |s| >= width then |s| else width
    ensures r[|r| - |s|..] == s
    ensures |s| >= width ==> r == s
    decreases width - |s|
  {
    if |s| >= width then s
    else
      LeadingZero(s);
      var r := PadLeft("0" + s, width);
      assert r[|r| - |s|..] == (r[|r| - |s| - 1..])[1..];
      r
  }

  /** The id with counter `n`: f'STU{n:03d}'. */
  function FormatId(n: nat): string {
    Prefix + PadLeft(ShowNat(n), Width)
  }

  /** An id whose part after the first three characters is a non-empty digit string, the
      shape `int(last_id[3:])` accepts without raising. */
  predicate WellFormedId(id: string) {
    |id| > |Prefix| && AllDigits(id[|Prefix|..])
  }

  /** The counter of a well-formed id. */
  function IdNumber(id: string): nat
    requires WellFormedId(id)
  {
    ParseDigits(id[|Prefix|..])
  }

  /** Printing then parsing an id gives back its counter; the printed id starts with "STU",
      carries at least three digits, and carries more only when no leading zero is needed. */
  lemma FormatIdRoundTrip(n: nat)
    ensures WellFormedId(FormatId(n)) && IdNumber(FormatId(n)) == n
    ensures FormatId(n)[..|Prefix|] == Prefix
    ensures |FormatId(n)| >= |Prefix| + Width
    ensures |FormatId(n)| > |Prefix| + Width ==> FormatId(n)[|Prefix|] != '0'
  {
    var id := FormatId(n);
    assert id[|Prefix|..] == PadLeft(ShowNat(n), Width);
  }

  /** Distinct counters give distinct ids. */
  lemma FormatIdInjective(m: nat, n: nat)
    requires FormatId(m) == FormatId(n)
    ensures m == n
  {
    FormatIdRoundTrip(m);
    FormatIdRoundTrip(n);
  }

  /** The literal first id is the formatted counter 1. */
  lemma FirstIdIsFormatted()
    ensures FormatId(1) == "STU001"
  {
    assert ShowNat(1) == "1" by { assert DigitChar(1) == '1'; }
    assert "0" + "1" == "01" && "0" + "01" == "001";
    assert PadLeft("001", 3) == "001";
    assert PadLeft("01", 3) == "001";
    assert PadLeft("1", 3) == "001";
    assert Prefix + "001" == "STU001";
  }
}
