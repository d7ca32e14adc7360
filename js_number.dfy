/** Whether an input string is a number in the sense of `!isNaN(Number(s))`,
    restricted to plain decimal notation: surrounding blanks are ignored, a
    blank string is the number 0, otherwise an optional sign is followed by
    digits with at most one decimal point and at least one digit. */
module JsNumber {

  predicate IsDigit(c: char) { '0' <= c <= '9' }

  predicate IsBlank(c: char) { c == ' ' || c == '\t' || c == '\n' || c == '\r' }

  /** How many blanks `s` starts with. */
  function LeadingBlanks(s: string): (n: nat)
    ensures n <= |s|
    ensures forall i :: 0 <= i < n ==> IsBlank(s[i])
    ensures n < |s| ==> !IsBlank(s[n])
  {
    if |s| > 0 && IsBlank(s[0]) then 1 + LeadingBlanks(s[1..]) else 0
  }

  /** Where the blanks that `s` ends with begin. */
  function TrailingBlanksStart(s: string): (n: nat)
    ensures n <= |s|
    ensures forall i :: n <= i < |s| ==> IsBlank(s[i])
    ensures n > 0 ==> !IsBlank(s[n - 1])
  {
    if |s| > 0 && IsBlank(s[|s| - 1]) then TrailingBlanksStart(s[..|s| - 1]) else |s|
  }

  /** `s.trim()`: the slice of `s` left once its leading and trailing blanks
      are dropped. It neither starts nor ends with a blank, so it keeps every
      other character of `s`, and nothing is left of a blank string. */
  function Trim(s: string): (t: string)
    ensures exists a, b :: (0 <= a <= b <= |s| && t == s[a..b]
      && (forall i :: 0 <= i < a ==> IsBlank(s[i]))
      && (forall i :: b <= i < |s| ==> IsBlank(s[i])))
    ensures t == [] || (!IsBlank(t[0]) && !IsBlank(t[|t| - 1]))
    ensures t == [] <==> forall i :: 0 <= i < |s| ==> IsBlank(s[i])
  {
    var a, b := LeadingBlanks(s), TrailingBlanksStart(s);
    if b <= a then
      assert a == |s| && s[|s|..|s|] == [];
      []
    else
      s[a..b]
  }

  /** `t` without the sign it may start with. */
  function Unsigned(t: string): (u: string)
    ensures |u| <= |t| && u == t[|t| - |u|..]
    ensures |u| < |t| <==> |t| > 0 && (t[0] == '+' || t[0] == '-')
  {
    if |t| > 0 && (t[0] == '+' || t[0] == '-') then t[1..] else t
  }

  /** Digits and at most one decimal point, with at least one digit. */
  predicate IsUnsignedDecimal(u: string)
  {
    && (forall i :: 0 <= i < |u| ==> IsDigit(u[i]) || u[i] == '.')
    && (forall i, j :: 0 <= i < j < |u| && u[i] == '.' ==> u[j] != '.')
    && (exists i :: 0 <= i < |u| && IsDigit(u[i]))
  }

  /** An optional sign followed by an unsigned decimal. */
  predicate IsDecimalLiteral(t: string)
  {
    IsUnsignedDecimal(Unsigned(t))
  }

  /** A character that can occur in a decimal number or around it. */
  predicate IsNumberChar(c: char)
  {
    IsBlank(c) || IsDigit(c) || c == '+' || c == '-' || c == '.'
  }

  /** `!isNaN(Number(s))` for decimal notation. A blank string, the empty one
      included, is the number 0; a string holding any character other than a
      blank, a digit, a sign or a decimal point is not a number. */
  predicate IsNumeric(s: string)
    ensures (forall i :: 0 <= i < |s| ==> IsBlank(s[i])) ==> IsNumeric(s)
    ensures IsNumeric(s) ==> forall i :: 0 <= i < |s| ==> IsNumberChar(s[i])
  {
    var t := Trim(s);
    TrimKeepsForeignCharacters(s);
    DecimalLiteralCharacters(t);
    t == [] || IsDecimalLiteral(t)
  }

  /** Trimming drops blanks only, so a character that is not a number
      character survives it. */
  lemma TrimKeepsForeignCharacters(s: string)
    ensures (forall k :: 0 <= k < |Trim(s)| ==> IsNumberChar(Trim(s)[k]))
        ==> forall i :: 0 <= i < |s| ==> IsNumberChar(s[i])
  {
    var t := Trim(s);
    var a, b :| 0 <= a <= b <= |s| && t == s[a..b]
      && (forall k :: 0 <= k < a ==> IsBlank(s[k]))
      && (forall k :: b <= k < |s| ==> IsBlank(s[k]));
    forall i | 0 <= i < |s| && a <= i < b
      ensures s[i] == t[i - a]
    {
    }
  }

  /** A decimal literal is made of number characters only. */
  lemma DecimalLiteralCharacters(t: string)
    ensures IsDecimalLiteral(t) ==> forall k :: 0 <= k < |t| ==> IsNumberChar(t[k])
  {
    var u := Unsigned(t);
    var d := |t| - |u|;
    forall k | 0 <= k < |t| && d <= k
      ensures t[k] == u[k - d]
    {
    }
  }

  /** A non-empty run of digits, such as "42", is a number. */
  lemma AcceptsDigits(s: string)
    requires |s| > 0
    requires forall i :: 0 <= i < |s| ==> IsDigit(s[i])
    ensures IsNumeric(s)
  {
    assert LeadingBlanks(s) == 0 && TrailingBlanksStart(s) == |s|;
    assert Trim(s) == s && Unsigned(s) == s;
    assert IsDigit(s[0]);
  }

  /** A literal with two decimal points is not a decimal literal. */
  lemma TwoPointsNotDecimal(t: string, i: nat, j: nat)
    requires i < j < |t| && t[i] == '.' && t[j] == '.'
    ensures !IsDecimalLiteral(t)
  {
    var u := Unsigned(t);
    var d := |t| - |u|;
    assert d <= i by {
      if d == 1 { assert t[0] != '.'; }
    }
    assert u[i - d] == t[i] && u[j - d] == t[j];
  }

  /** Where two non-blank characters of `s` stand in `Trim(s)`. */
  lemma TrimOffset(s: string, i: nat, j: nat) returns (a: nat)
    requires i < j < |s| && !IsBlank(s[i]) && !IsBlank(s[j])
    ensures a <= i && j - a < |Trim(s)|
    ensures Trim(s)[i - a] == s[i] && Trim(s)[j - a] == s[j]
  {
    a := LeadingBlanks(s);
    var b := TrailingBlanksStart(s);
    assert a <= i && j < b;
    assert Trim(s) == s[a..b];
  }

  /** A value with two decimal points, such as "1.2.3", is not a number. */
  lemma RejectsTwoPoints(s: string, i: nat, j: nat)
    requires i < j < |s| && s[i] == '.' && s[j] == '.'
    ensures !IsNumeric(s)
  {
    var a := TrimOffset(s, i, j);
    TwoPointsNotDecimal(Trim(s), i - a, j - a);
  }
}
