/** Decimal text as the operator uses it: `%d` printing, `strconv.Atoi`, and the
    first match of the regular expression `[0-9]+` in a hostname. */
module Decimal {

  /** The largest value of Go's 64-bit `int`. */
  const MAX_INT: nat := 0x7FFF_FFFF_FFFF_FFFF

  predicate IsDigit(c: char) {
    '0' <= c <= '9'
  }

  predicate AllDigits(s: string) {
    forall k | 0 <= k < |s| :: IsDigit(s[k])
  }

  predicate DigitFree(s: string) {
    forall k | 0 <= k < |s| :: !IsDigit(s[k])
  }

  /** `fmt.Sprintf("%d", n)` */
  function Print(n: nat): string {
    if n < 10 then ['0' + n as char] else Print(n / 10) + ['0' + (n % 10) as char]
  }

  function Value(s: string): nat
    requires AllDigits(s)
  {
    if s == [] then 0 else Value(s[..|s| - 1]) * 10 + (s[|s| - 1] - '0') as nat
  }

  lemma {:induction false} PrintIsDecimal(n: nat)
    ensures |Print(n)| > 0 && AllDigits(Print(n)) && Value(Print(n)) == n
  {
    if n < 10 {
      assert Value([]) == 0;
      assert Print(n)[..0] == [];
    } else {
      PrintIsDecimal(n / 10);
      assert Print(n)[..|Print(n)| - 1] == Print(n / 10);
    }
  }

  lemma PrintInjective(i: nat, j: nat)
    requires Print(i) == Print(j)
    ensures i == j
  {
    PrintIsDecimal(i);
    PrintIsDecimal(j);
  }

  lemma LastDash(p: string, d: string, q: string, e: string)
    requires p + "-" + d == q + "-" + e && AllDigits(d) && AllDigits(e)
    ensures |p| == |q|
  {
    var s := p + "-" + d;
    assert s[|p|] == '-' && s[|q|] == '-';
    assert forall k | |p| < k < |s| :: s[k] == d[k - |p| - 1];
    assert forall k | |q| < k < |s| :: s[k] == e[k - |q| - 1];
  }

  /** A dash followed by a decimal is parsed back unambiguously from the right. */
  lemma DashSplit(p: string, i: nat, q: string, j: nat)
    requires p + "-" + Print(i) == q + "-" + Print(j)
    ensures p == q && i == j
  {
    hide Print, Value;
    PrintIsDecimal(i);
    PrintIsDecimal(j);
    LastDash(p, Print(i), q, Print(j));
    var s := p + "-" + Print(i);
    assert s[..|p|] == p && s[..|q|] == q;
    assert s[|p| + 1..] == Print(i) && s[|q| + 1..] == Print(j);
    PrintInjective(i, j);
  }

  /* ---- numbers inside a hostname ---- */

  function LeadingDigits(s: string): (r: string)
    ensures AllDigits(r)
  {
    if s == [] || !IsDigit(s[0]) then [] else [s[0]] + LeadingDigits(s[1..])
  }

  /** The leftmost match of `[0-9]+`; empty when there is none. */
  function FirstDigitRun(s: string): (r: string)
    ensures AllDigits(r)
  {
    if s == [] then []
    else if IsDigit(s[0]) then LeadingDigits(s)
    else FirstDigitRun(s[1..])
  }

  datatype SortKey = Key(n: nat) | OutOfRange | NoDigits

  /** What the comparison inside the node sort computes for one hostname: indexing the
      match list fails without a match, and Atoi rejects values above MAX_INT. */
  function HostnameKey(hostname: string): SortKey {
    var run := FirstDigitRun(hostname);
    if run == [] then NoDigits
    else if Value(run) <= MAX_INT then Key(Value(run))
    else OutOfRange
  }

  lemma {:induction false} LeadingDigitsOfDigits(s: string)
    requires AllDigits(s)
    ensures LeadingDigits(s) == s
  {
    if s != [] {
      LeadingDigitsOfDigits(s[1..]);
    }
  }

  lemma {:induction false} RunAfterDigitFree(p: string, d: string)
    requires DigitFree(p) && AllDigits(d) && d != []
    ensures FirstDigitRun(p + d) == d
  {
    if p == [] {
      assert p + d == d;
      LeadingDigitsOfDigits(d);
    } else {
      assert (p + d)[1..] == p[1..] + d;
      RunAfterDigitFree(p[1..], d);
    }
  }

  lemma {:induction false} LeadingDigitsStop(p: string, t: string)
    requires p != [] && !IsDigit(p[|p| - 1])
    ensures LeadingDigits(p + t) == LeadingDigits(p)
  {
    if IsDigit(p[0]) {
      assert (p + t)[1..] == p[1..] + t;
      LeadingDigitsStop(p[1..], t);
    }
  }

  /** A digit inside the prefix hides everything after the prefix. */
  lemma {:induction false} RunInsidePrefix(p: string, t: string)
    requires p != [] && !IsDigit(p[|p| - 1]) && !DigitFree(p)
    ensures FirstDigitRun(p + t) == FirstDigitRun(p) != []
  {
    if IsDigit(p[0]) {
      LeadingDigitsStop(p, t);
    } else {
      assert (p + t)[1..] == p[1..] + t;
      RunInsidePrefix(p[1..], t);
    }
  }

  /** The sort key of a generated hostname is its index for every index exactly when the
      part before the index has no digit. Otherwise the key does not depend on the index. */
  lemma KeyIsIndexIff(prefix: string)
    requires prefix != [] && !IsDigit(prefix[|prefix| - 1])
    ensures (forall i: nat | i <= MAX_INT :: HostnameKey(prefix + Print(i)) == Key(i)) <==> DigitFree(prefix)
    ensures !DigitFree(prefix) ==> forall t: string :: HostnameKey(prefix + t) == HostnameKey(prefix)
  {
    if DigitFree(prefix) {
      forall i: nat | i <= MAX_INT ensures HostnameKey(prefix + Print(i)) == Key(i) {
        PrintIsDecimal(i);
        RunAfterDigitFree(prefix, Print(i));
      }
    } else {
      forall t: string ensures HostnameKey(prefix + t) == HostnameKey(prefix) {
        RunInsidePrefix(prefix, t);
      }
      var zero: nat, one: nat := 0, 1;
      assert HostnameKey(prefix + Print(zero)) != Key(zero) || HostnameKey(prefix + Print(one)) != Key(one);
    }
  }
}
