/** The string key under which one simulation task's outcome is stored:
    `str(s) + '_' + str(j)` for scenario `s` and candidate `j`, with
    Python's `str` of a natural number (decimal, no leading zeros). */
module TaskKey {
  import opened Common

  predicate IsDigit(c: char)
  {
    '0' <= c <= '9'
  }

  predicate AllDigits(s: string)
  {
    forall k :: 0 <= k < |s| ==> IsDigit(s[k])
  }

  function DigitChar(d: nat): (c: char)
    requires d < 10
    ensures IsDigit(c) && c as int - '0' as int == d
  {
    ('0' as int + d) as char
  }

  /** Decimal rendering of a natural number, as Python's `str` gives it. */
  function NatStr(n: nat): (s: string)
    ensures |s| >= 1 && AllDigits(s)
    ensures |s| > 1 ==> s[0] != '0'
    decreases n
  {
    if n < 10 then [DigitChar(n)] else NatStr(n / 10) + [DigitChar(n % 10)]
  }

  /** Value of a string of decimal digits. */
  function DigitsValue(s: string): nat
    requires AllDigits(s)
  {
    if |s| == 0 then 0
    else DigitsValue(s[..|s| - 1]) * 10 + (s[|s| - 1] as int - '0' as int)
  }

  /** Reading a rendered number back gives the number. */
  lemma {:induction false} DigitsValueOfNatStr(n: nat)
    ensures DigitsValue(NatStr(n)) == n
    decreases n
  {
    if n >= 10 {
      DigitsValueOfNatStr(n / 10);
      var s := NatStr(n);
      assert s[..|s| - 1] == NatStr(n / 10);
    }
  }

  /** The store key of task (s, j). */
  function Key(s: nat, j: nat): (k: string)
    ensures |k| >= 3
  {
    NatStr(s) + "_" + NatStr(j)
  }

  /** Position of the first underscore of `k`, if any. */
  function FirstUnderscore(k: string): (r: Option<nat>)
    ensures r.Some? ==> r.value < |k| && k[r.value] == '_'
    ensures r.Some? ==> forall m :: 0 <= m < r.value ==> k[m] != '_'
    ensures r.None? ==> forall m :: 0 <= m < |k| ==> k[m] != '_'
  {
    if |k| == 0 then None
    else if k[0] == '_' then Some(0)
    else match FirstUnderscore(k[1..])
      case None => None
      case Some(u) => Some(u + 1)
  }

  /** Inverse of `Key`: splits at the first underscore and reads both
      halves as decimal numbers; `None` for strings that are not keys. */
  function ParseKey(k: string): (r: Option<(nat, nat)>)
  {
    match FirstUnderscore(k)
    case None => None
    case Some(u) =>
      var a := k[..u];
      var b := k[u + 1..];
      if |a| > 0 && |b| > 0 && AllDigits(a) && AllDigits(b)
      then Some((DigitsValue(a), DigitsValue(b)))
      else None
  }

  /** Parsing a task key recovers the task. */
  lemma KeyRoundTrip(s: nat, j: nat)
    ensures ParseKey(Key(s, j)) == Some((s, j))
  {
    var a := NatStr(s);
    var b := NatStr(j);
    var k := Key(s, j);
    assert k[|a|] == '_';
    forall m | 0 <= m < |a|
      ensures k[m] != '_'
    {
      assert k[m] == a[m];
    }
    assert FirstUnderscore(k) == Some(|a|);
    assert k[..|a|] == a;
    assert k[|a| + 1..] == b;
    DigitsValueOfNatStr(s);
    DigitsValueOfNatStr(j);
  }

  /** Distinct tasks never share a key, so recording one task's outcome
      cannot overwrite another task's entry. */
  lemma KeyInjective(s1: nat, j1: nat, s2: nat, j2: nat)
    ensures Key(s1, j1) == Key(s2, j2) <==> s1 == s2 && j1 == j2
  {
    KeyRoundTrip(s1, j1);
    KeyRoundTrip(s2, j2);
  }
}
