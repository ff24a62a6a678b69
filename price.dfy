/**
 * `_clean_price` of both catalog loaders: the first number in a free-text price such as
 * "15.99 USD", found with the pattern [0-9]+(?:[.,][0-9]+)? and read with ',' as the decimal
 * point. The final float conversion is not modelled: the price is kept as its two digit strings,
 * and ValueOf gives the exact decimal they denote.
 */
module Price {
  import opened Common

  predicate IsDigit(c: char)
  {
    '0' <= c <= '9'
  }

  predicate IsSeparator(c: char)
  {
    c == '.' || c == ','
  }

  predicate AllDigits(s: string)
  {
    forall i :: 0 <= i < |s| ==> IsDigit(s[i])
  }

  predicate NoDigit(s: string)
  {
    forall i :: 0 <= i < |s| ==> !IsDigit(s[i])
  }

  predicate StartsWithDigit(s: string)
  {
    |s| > 0 && IsDigit(s[0])
  }

  /** `s` begins with a separator that the pattern would take as a decimal point. */
  predicate StartsWithFraction(s: string)
  {
    |s| >= 2 && IsSeparator(s[0]) && IsDigit(s[1])
  }

  /** A parsed price: the digits before and after the decimal point (fraction may be empty). */
  datatype Number = Number(whole: string, fraction: string)

  /** What `_clean_price` returns for an empty or digit-free input (0.0). */
  const Zero: Number := Number("0", "")

  /** Length of the maximal run of digits that starts `s`. */
  function LeadingDigits(s: string): (n: nat)
    ensures n <= |s|
    ensures AllDigits(s[..n])
    ensures n < |s| ==> !IsDigit(s[n])
  {
    if s != [] && IsDigit(s[0]) then
      var m := LeadingDigits(s[1..]);
      assert s[..1 + m] == [s[0]] + s[1..][..m];
      1 + m
    else 0
  }

  /** Position of the first digit of `s`, or |s| when there is none. */
  function FirstDigit(s: string): (i: nat)
    ensures i <= |s|
    ensures NoDigit(s[..i])
    ensures i < |s| ==> IsDigit(s[i])
  {
    if s == [] || IsDigit(s[0]) then 0
    else
      var j := FirstDigit(s[1..]);
      assert s[..1 + j] == [s[0]] + s[1..][..j];
      1 + j
  }

  /** The match of [0-9]+(?:[.,][0-9]+)? that starts at the first character of `rest` (a digit):
      every leading digit, then a separator and its digits when a digit follows the separator. */
  function NumberAt(rest: string): Number
  {
    var w := LeadingDigits(rest);
    var after := rest[w..];
    if StartsWithFraction(after) then
      var f := LeadingDigits(after[1..]);
      Number(rest[..w], after[1..][..f])
    else
      Number(rest[..w], "")
  }

  /** The first match of the pattern in `s`: the regular expression cannot match before the first
      digit, and always matches there. */
  function FirstNumber(s: string): Option<Number>
  {
    var i := FirstDigit(s);
    if i == |s| then None else Some(NumberAt(s[i..]))
  }

  /** `_clean_price(raw)`: None and "" give 0, an input without a digit gives 0, otherwise the first
      number of the input. */
  function CleanPrice(raw: Option<string>): Number
  {
    if !Truthy(raw) then Zero
    else
      match FirstNumber(raw.value)
      case None => Zero
      case Some(n) => n
  }

  function Pow10(n: nat): (p: nat)
    ensures p >= 1
  {
    if n == 0 then 1 else 10 * Pow10(n - 1)
  }

  function DigitsValue(s: string): nat
  {
    if s == [] then 0
    else
      var d := (s[|s| - 1] as int) - ('0' as int);
      10 * DigitsValue(s[..|s| - 1]) + (if 0 <= d then d else 0)
  }

  /** The decimal number denoted by a parsed price. */
  function ValueOf(n: Number): real
  {
    DigitsValue(n.whole) as real + DigitsValue(n.fraction) as real / Pow10(|n.fraction|) as real
  }

  lemma FirstDigitAfter(pre: string, t: string)
    requires NoDigit(pre) && StartsWithDigit(t)
    ensures FirstDigit(pre + t) == |pre|
  {
    var s := pre + t;
    assert s[|pre|] == t[0];
    assert forall k :: 0 <= k < |pre| ==> s[k] == pre[k];
    var i := FirstDigit(s);
    assert forall k :: 0 <= k < i ==> !IsDigit(s[k]) by {
      forall k | 0 <= k < i ensures !IsDigit(s[k]) {
        assert s[..i][k] == s[k];
      }
    }
  }

  lemma LeadingDigitsOf(whole: string, post: string)
    requires AllDigits(whole) && !StartsWithDigit(post)
    ensures LeadingDigits(whole + post) == |whole|
  {
    var s := whole + post;
    assert forall k :: 0 <= k < |whole| ==> s[k] == whole[k];
    assert |s| > |whole| ==> s[|whole|] == post[0];
    var n := LeadingDigits(s);
    assert forall k :: 0 <= k < n ==> IsDigit(s[k]) by {
      forall k | 0 <= k < n ensures IsDigit(s[k]) {
        assert s[..n][k] == s[k];
      }
    }
  }

  lemma CleanPriceEmpty()
    ensures CleanPrice(None) == Zero
    ensures CleanPrice(Some("")) == Zero
  {
  }

  /** An input without any digit gives 0. */
  lemma CleanPriceNoDigit(s: string)
    requires NoDigit(s)
    ensures CleanPrice(Some(s)) == Zero
  {
    assert FirstDigit(s) == |s|;
  }

  lemma FirstNumberAfter(pre: string, rest: string)
    requires NoDigit(pre) && StartsWithDigit(rest)
    ensures FirstNumber(pre + rest) == Some(NumberAt(rest))
  {
    FirstDigitAfter(pre, rest);
    assert (pre + rest)[|pre|..] == rest;
  }

  lemma NumberAtFraction(whole: string, sep: char, frac: string, post: string)
    requires whole != [] && AllDigits(whole)
    requires IsSeparator(sep) && frac != [] && AllDigits(frac) && !StartsWithDigit(post)
    ensures NumberAt(whole + ([sep] + frac + post)) == Number(whole, frac)
  {
    var tail := [sep] + frac + post;
    var rest := whole + tail;
    LeadingDigitsOf(whole, tail);
    assert rest[..|whole|] == whole && rest[|whole|..] == tail;
    assert tail[1..] == frac + post;
    LeadingDigitsOf(frac, post);
    assert (frac + post)[..|frac|] == frac;
  }

  lemma NumberAtWhole(whole: string, post: string)
    requires whole != [] && AllDigits(whole)
    requires !StartsWithDigit(post) && !StartsWithFraction(post)
    ensures NumberAt(whole + post) == Number(whole, "")
  {
    LeadingDigitsOf(whole, post);
    assert (whole + post)[..|whole|] == whole && (whole + post)[|whole|..] == post;
  }

  /** A number with a fractional part: the separator, ',' or '.', and the digits after it are kept. */
  lemma CleanPriceWithFraction(pre: string, whole: string, sep: char, frac: string, post: string)
    requires NoDigit(pre) && whole != [] && AllDigits(whole)
    requires IsSeparator(sep) && frac != [] && AllDigits(frac) && !StartsWithDigit(post)
    ensures CleanPrice(Some(pre + whole + [sep] + frac + post)) == Number(whole, frac)
  {
    var rest := whole + ([sep] + frac + post);
    assert pre + whole + [sep] + frac + post == pre + rest;
    NumberAtFraction(whole, sep, frac, post);
    FirstNumberAfter(pre, rest);
  }

  /** A number without a usable fractional part: a separator not followed by a digit ("15.")
      is not part of it. */
  lemma CleanPriceWhole(pre: string, whole: string, post: string)
    requires NoDigit(pre) && whole != [] && AllDigits(whole)
    requires !StartsWithDigit(post) && !StartsWithFraction(post)
    ensures CleanPrice(Some(pre + whole + post)) == Number(whole, "")
  {
    assert pre + whole + post == pre + (whole + post);
    NumberAtWhole(whole, post);
    FirstNumberAfter(pre, whole + post);
  }

  /** The documented example: "15.99 USD" gives 15.99. */
  lemma CleanPriceExample()
    ensures CleanPrice(Some("15.99 USD")) == Number("15", "99")
  {
    assert "15.99 USD" == "" + "15" + ['.'] + "99" + " USD";
    CleanPriceWithFraction("", "15", '.', "99", " USD");
  }

  /** The number it parses denotes 15.99. */
  lemma ExampleValue()
    ensures ValueOf(Number("15", "99")) == 15.99
  {
    assert DigitsValue("15") == 15 by {
      assert "15"[..1] == "1" && "1"[..0] == "";
    }
    assert DigitsValue("99") == 99 by {
      assert "99"[..1] == "9" && "9"[..0] == "";
    }
    assert Pow10(2) == 100;
    var n := Number("15", "99");
    assert |n.fraction| == 2;
    assert ValueOf(n) == 15.0 + 99.0 / 100.0;
  }

  /** A trailing separator is not part of the number: "15." gives 15. */
  lemma CleanPriceTrailingSeparator()
    ensures CleanPrice(Some("15.")) == Number("15", "")
  {
    assert "15." == "" + "15" + ".";
    CleanPriceWhole("", "15", ".");
  }
}
