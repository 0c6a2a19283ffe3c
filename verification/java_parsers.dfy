/** The JDK conversions the built-in registry entries use:
    `Integer.parseInt` (base 10) and `Boolean.parseBoolean`. */
module JavaParsers {
  import opened Wrappers
  import JavaStrings

  /** The range of a Java `int`. */
  const IntMin: int := -0x8000_0000
  const IntMax: int := 0x7fff_ffff

  predicate IsDigit(c: char) {
    '0' <= c <= '9'
  }

  function DigitValue(c: char): nat
    requires IsDigit(c)
  {
    c as int - '0' as int
  }

  predicate AllDigits(ds: string) {
    forall i :: 0 <= i < |ds| ==> IsDigit(ds[i])
  }

  /** The number a run of decimal digits denotes, most significant digit first. */
  function DecimalValue(ds: string): nat
    requires AllDigits(ds)
  {
    if |ds| == 0 then 0 else DecimalValue(ds[..|ds| - 1]) * 10 + DigitValue(ds[|ds| - 1])
  }

  /** The text `Integer.parseInt` accepts: an optional `+` or `-` followed by
      at least one decimal digit, nothing else (no blanks, no empty text). */
  predicate IsIntLiteral(s: string) {
    && |s| > 0
    && if s[0] == '-' || s[0] == '+' then |s| > 1 && AllDigits(s[1..]) else AllDigits(s)
  }

  /** The mathematical value of an integer literal, before any range check. */
  function LiteralValue(s: string): int
    requires IsIntLiteral(s)
  {
    if s[0] == '-' then -(DecimalValue(s[1..]) as int)
    else if s[0] == '+' then DecimalValue(s[1..])
    else DecimalValue(s)
  }

  /** The digit loop of `Integer.parseInt`: reads digits left to right into a
      magnitude and gives up on the first non-digit or as soon as the
      magnitude passes `bound` (2^31 for negative text, 2^31 - 1 otherwise).
      `acc` is the value of the digits already read. */
  function Accumulate(ds: string, i: nat, acc: nat, bound: nat): (r: Option<nat>)
    requires i <= |ds| && AllDigits(ds[..i]) && acc == DecimalValue(ds[..i]) && acc <= bound
    ensures r.Some? <==> AllDigits(ds) && DecimalValue(ds) <= bound
    ensures r.Some? ==> AllDigits(ds) && r.value == DecimalValue(ds)
    decreases |ds| - i
  {
    if i == |ds| then
      assert ds[..i] == ds;
      Some(acc)
    else if !IsDigit(ds[i]) then None
    else
      var next := acc * 10 + DigitValue(ds[i]);
      PrefixStep(ds, i);
      if next > bound then
        PrefixBelowWhole(ds, i + 1);
        None
      else Accumulate(ds, i + 1, next, bound)
  }

  /** Reading one more digit multiplies the value read so far by ten and adds the digit. */
  lemma PrefixStep(ds: string, i: nat)
    requires i < |ds| && AllDigits(ds[..i]) && IsDigit(ds[i])
    ensures AllDigits(ds[..i + 1])
    ensures DecimalValue(ds[..i + 1]) == DecimalValue(ds[..i]) * 10 + DigitValue(ds[i])
  {
    assert ds[..i + 1][..i] == ds[..i];
  }

  /** The digits read so far never denote more than the whole run. */
  lemma {:induction false} PrefixBelowWhole(ds: string, i: nat)
    requires i <= |ds|
    ensures AllDigits(ds) ==> DecimalValue(ds[..i]) <= DecimalValue(ds)
    decreases |ds| - i
  {
    if i < |ds| && AllDigits(ds) {
      PrefixStep(ds, i);
      PrefixBelowWhole(ds, i + 1);
    } else if AllDigits(ds) {
      assert ds[..i] == ds;
    }
  }

  /** `Integer.parseInt(s)`: fails on empty text, on a lone sign, on any
      character other than a leading sign or a digit, and outside the range
      of `int`. */
  function ParseInt(s: string): (r: Option<int>)
    ensures r.Some? <==> IsIntLiteral(s) && IntMin <= LiteralValue(s) <= IntMax
    ensures r.Some? ==> r.value == LiteralValue(s)
  {
    if |s| == 0 then None
    else if s[0] < '0' then
      if |s| == 1 then None
      else if s[0] == '-' then
        match Accumulate(s[1..], 0, 0, -IntMin)
        case None => None
        case Some(m) => Some(-(m as int))
      else if s[0] == '+' then
        match Accumulate(s[1..], 0, 0, IntMax)
        case None => None
        case Some(m) => Some(m)
      else None
    else
      match Accumulate(s, 0, 0, IntMax)
      case None => None
      case Some(m) => Some(m)
  }

  /** Unsigned digits within range parse to the number they denote. */
  lemma ParseDigits(s: string)
    requires |s| > 0 && AllDigits(s) && DecimalValue(s) <= IntMax
    ensures ParseInt(s) == Some(DecimalValue(s) as int)
  {
    assert IsDigit(s[0]);
  }

  /** `Boolean.parseBoolean(s)`: `s.equalsIgnoreCase("true")`. It never fails:
      exactly the sixteen case variants of "true" give true, and every other
      text (empty, "yes", "1", " true") gives false. */
  function ParseBoolean(s: string): (r: bool)
    ensures r <==> |s| == 4 && s[0] in "tT" && s[1] in "rR" && s[2] in "uU" && s[3] in "eE"
  {
    JavaStrings.EqualsIgnoreCase(s, "true")
  }
}
