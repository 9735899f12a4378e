/** Decimal numbers as text, as strconv prints and parses them (base 10, 64 bits). */
module Decimal {
  import opened Wrappers

  const MAX_INT64 := 0x7FFF_FFFF_FFFF_FFFF
  const MAX_UINT64 := 0xFFFF_FFFF_FFFF_FFFF

  predicate IsDigit(c: char) { '0' <= c <= '9' }

  predicate AllDigits(s: string) {
    forall i :: 0 <= i < |s| ==> IsDigit(s[i])
  }

  function PrintNat(n: nat): (s: string)
    ensures s != "" && AllDigits(s)
  {
    var last := [('0' as int + n % 10) as char];
    if n < 10 then last else PrintNat(n / 10) + last
  }

  function PrintInt(n: int): string {
    if n < 0 then "-" + PrintNat(-n) else PrintNat(n)
  }

  function DigitsValue(s: string): nat
    requires AllDigits(s)
  {
    if s == "" then 0
    else DigitsValue(s[..|s| - 1]) * 10 + (s[|s| - 1] as int - '0' as int)
  }

  function ParseUint(s: string): Option<nat> {
    if s != "" && AllDigits(s) && DigitsValue(s) <= MAX_UINT64 then Some(DigitsValue(s)) else None
  }

  function ParseInt(s: string): Option<int> {
    if s == "" then None
    else
      var digits := if s[0] == '-' || s[0] == '+' then s[1..] else s;
      if digits == "" || !AllDigits(digits) then None
      else
        var n: int := DigitsValue(digits);
        if s[0] == '-' then (if n <= MAX_INT64 + 1 then Some(-n) else None)
        else if n <= MAX_INT64 then Some(n) else None
  }

  lemma {:induction false} PrintNatValue(n: nat)
    ensures DigitsValue(PrintNat(n)) == n
  {
    var s := PrintNat(n);
    if n >= 10 {
      PrintNatValue(n / 10);
      assert s[..|s| - 1] == PrintNat(n / 10);
    } else {
      assert s[..0] == "";
    }
  }

  lemma UintRoundTrip(n: nat)
    requires n <= MAX_UINT64
    ensures ParseUint(PrintNat(n)) == Some(n)
  {
    PrintNatValue(n);
  }

  lemma IntRoundTrip(n: int)
    requires -MAX_INT64 - 1 <= n <= MAX_INT64
    ensures ParseInt(PrintInt(n)) == Some(n)
    ensures ':' !in PrintInt(n)
  {
    var m: nat := if n < 0 then -n else n;
    PrintNatValue(m);
    var s := PrintNat(m);
    assert IsDigit(s[0]);
    assert ("-" + s)[1..] == s;
  }

  /** The digits of a number, last one first: its decimal text and no other. */
  lemma PrintNatDigits(n: nat)
    ensures var s := PrintNat(n);
            && s[|s| - 1] == "0123456789"[n % 10]
            && (n < 10 ==> |s| == 1)
            && (n >= 10 ==> s[..|s| - 1] == PrintNat(n / 10))
  {
  }

  /** Exactly the texts that are read as 64-bit numbers, and as what. */
  lemma ParseIntIff(d: string)
    requires d != "" && AllDigits(d)
    ensures ParseInt(d) == ParseInt("+" + d) ==
            if DigitsValue(d) <= 9223372036854775807 then Some(DigitsValue(d)) else None
    ensures ParseInt("-" + d) == if DigitsValue(d) <= 9223372036854775808 then Some(-(DigitsValue(d) as int)) else None
    ensures ParseUint(d) == if DigitsValue(d) <= 18446744073709551615 then Some(DigitsValue(d)) else None
    ensures ParseUint("+" + d) == ParseUint("-" + d) == None
  {
    assert ("+" + d)[1..] == d && ("-" + d)[1..] == d;
    assert IsDigit(d[0]);
  }

  lemma ParseIntOnly(s: string)
    ensures ParseInt(s).Some? ==>
              exists d :: d != "" && AllDigits(d) && (s == d || s == "+" + d || s == "-" + d)
    ensures ParseUint(s).Some? ==> s != "" && AllDigits(s)
  {
    if ParseInt(s).Some? {
      var d := if s[0] == '-' || s[0] == '+' then s[1..] else s;
      assert s == d || s == "+" + d || s == "-" + d;
    }
  }
}
