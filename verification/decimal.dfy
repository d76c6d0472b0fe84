/** The decimal text form of the `i32` key type: `Display` writes it, `FromStr`
    reads it back. */
module Decimal {
  import opened Results
  import opened Edges
  import Text

  predicate IsDigit(c: char) { '0' <= c <= '9' }

  predicate AllDigits(s: string) { forall i :: 0 <= i < |s| ==> IsDigit(s[i]) }

  function DigitChar(d: nat): (c: char)
    requires d < 10
    ensures IsDigit(c)
  {
    ('0' as int + d) as char
  }

  function DigitValue(c: char): (d: nat)
    requires IsDigit(c)
    ensures d < 10 && DigitChar(d) == c
  {
    c as int - '0' as int
  }

  /** Digits of `n`, most significant first, with no leading zero. */
  function NatToString(n: nat): (s: string)
    ensures |s| > 0 && AllDigits(s)
    ensures s[0] == '0' ==> n == 0
  {
    if n < 10 then [DigitChar(n)] else NatToString(n / 10) + [DigitChar(n % 10)]
  }

  /** The number a non-empty run of ASCII digits denotes. */
  function DigitsValue(s: string): nat
    requires AllDigits(s)
  {
    if |s| == 0 then 0 else DigitsValue(s[..|s| - 1]) * 10 + DigitValue(s[|s| - 1])
  }

  lemma {:induction false} DigitsOfNat(n: nat)
    ensures DigitsValue(NatToString(n)) == n
  {
    if n >= 10 {
      var s := NatToString(n);
      assert s[..|s| - 1] == NatToString(n / 10);
      DigitsOfNat(n / 10);
    }
  }

  /** `Display` for a signed integer: a `'-'` for negatives, never a `'+'`. */
  function RenderInt(k: int): string {
    if k < 0 then "-" + NatToString(-k) else NatToString(k)
  }

  /** `FromStr` for a signed integer before the range check: one optional sign,
      then at least one ASCII digit and nothing else. */
  function ParseInt(s: string): Option<int> {
    if |s| == 0 then None
    else
      var digits := if s[0] == '+' || s[0] == '-' then s[1..] else s;
      if |digits| == 0 || !AllDigits(digits) then None
      else Some(if s[0] == '-' then 0 - DigitsValue(digits) as int else DigitsValue(digits))
  }

  function RenderKey(k: Key): string { RenderInt(k as int) }

  /** `i32::from_str`: the value must also fit in 32 bits. */
  function ParseKey(s: string): (r: Option<Key>)
    ensures r.Some? ==> ParseInt(s) == Some(r.value as int)
    ensures r.None? <==> ParseInt(s).None? || !(-0x8000_0000 <= ParseInt(s).value < 0x8000_0000)
  {
    match ParseInt(s)
    case None => None
    case Some(n) => if -0x8000_0000 <= n < 0x8000_0000 then Some(n as Key) else None
  }

  /** Reading back what `Display` wrote gives the same key. */
  lemma ParseRenderKey(k: Key)
    ensures ParseKey(RenderKey(k)) == Some(k)
  {
    var s := RenderKey(k);
    if k < 0 {
      assert s[1..] == NatToString(-(k as int));
      DigitsOfNat(-(k as int));
    } else {
      DigitsOfNat(k as int);
    }
  }

  /** A rendered key is one whitespace-free word that does not look like the
      `#` separator and ends in a digit. */
  lemma RenderKeyIsWord(k: Key)
    ensures var s := RenderKey(k);
      && |s| > 0 && s[0] != '#' && IsDigit(s[|s| - 1])
      && (forall i :: 0 <= i < |s| ==> !Text.IsWhitespace(s[i]))
  {
    var s := RenderKey(k);
    if k < 0 {
      var d := NatToString(-(k as int));
      assert forall i :: 1 <= i < |s| ==> s[i] == d[i - 1];
    }
  }
}
