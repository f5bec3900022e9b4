/** Text operations of Qt that several components use. */
module QtText {

  predicate IsDigit(c: char) { '0' <= c <= '9' }

  predicate AllDigits(s: string) { forall i :: 0 <= i < |s| ==> IsDigit(s[i]) }

  /** At this place the text reads t. */
  predicate Reads(s: string, pos: nat, t: string) {
    pos + |t| <= |s| && forall i :: 0 <= i < |t| ==> t[i] == s[pos + i]
  }

  lemma ReadsSplit(s: string, pos: nat, a: string, b: string)
    requires Reads(s, pos, a + b)
    ensures Reads(s, pos, a) && Reads(s, pos + |a|, b)
  {
    var t := a + b;
    assert forall i :: 0 <= i < |a| ==> t[i] == a[i];
    forall i | 0 <= i < |b| ensures b[i] == s[pos + |a| + i] {
      assert t[|a| + i] == b[i];
    }
  }

  lemma Appended(a: string, b: string, c: string)
    ensures a + b + c == a + (b + c)
  {
  }

  /** QString::mid: a negative or too large count means "to the end". */
  function Mid(s: string, pos: nat, n: int): string {
    if pos > |s| then ""
    else if n < 0 || pos + n > |s| then s[pos..]
    else s[pos..pos + n]
  }

  /** QString::indexOf, for a set of characters: the first index, or -1. */
  function Find(s: string, p: char -> bool): (i: int)
    ensures -1 <= i < |s|
  {
    if s == "" then -1
    else if p(s[0]) then 0
    else var i := Find(s[1..], p); if i < 0 then -1 else i + 1
  }

  lemma {:induction false} FindIs(s: string, p: char -> bool, i: nat)
    requires i < |s| && p(s[i]) && forall j :: 0 <= j < i ==> !p(s[j])
    ensures Find(s, p) == i
  {
    if i > 0 {
      FindIs(s[1..], p, i - 1);
    }
  }

  /** Decimal digits. */
  function Decimal(n: nat): (s: string)
    ensures |s| > 0 && AllDigits(s)
    ensures |s| <= 3 <==> n < 1000
    ensures |s| <= 2 <==> n < 100
    ensures |s| <= 1 <==> n < 10
  {
    if n < 10 then ['0' + n as char] else Decimal(n / 10) + ['0' + (n % 10) as char]
  }

  function Value(s: string): (n: nat)
    requires AllDigits(s)
  {
    if s == "" then 0 else 10 * Value(s[..|s| - 1]) + (s[|s| - 1] - '0') as nat
  }

  lemma {:induction false} ValueOfDecimal(n: nat)
    ensures Value(Decimal(n)) == n
  {
    var s := Decimal(n);
    if n >= 10 {
      ValueOfDecimal(n / 10);
      assert s[..|s| - 1] == Decimal(n / 10);
    }
  }

  /** The number that the digits from lo to hi make; -1 if there are other characters. */
  function Number(s: string, lo: nat, hi: nat): int
    requires lo <= hi <= |s|
  {
    if lo == hi then 0
    else
      var n, c := Number(s, lo, hi - 1), s[hi - 1];
      if n < 0 || !IsDigit(c) then -1 else 10 * n + (c - '0') as int
  }
}
