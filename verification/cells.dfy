/** Parsing of the text of one table cell, shared by both scrapers:
    digit stripping, `int.Parse` of the stripped text, the number-list
    splitter and the prize cleaner. */
module Cells {
  import opened Prelude

  predicate IsDigit(c: char) {
    '0' <= c <= '9'
  }

  predicate AllDigits(s: string) {
    forall i :: 0 <= i < |s| ==> IsDigit(s[i])
  }

  predicate HasDigit(s: string) {
    exists i :: 0 <= i < |s| && IsDigit(s[i])
  }

  /** `Regex.Replace(text, "[^0-9]", "")`: the ASCII digits of `s`, in order. */
  function DigitsOnly(s: string): (r: string)
    ensures AllDigits(r)
    ensures r == [] <==> !HasDigit(s)
    ensures AllDigits(s) ==> r == s
  {
    var r := Filter(s, IsDigit);
    FilterMembers(s, IsDigit);
    assert AllDigits(s) ==> r == s by {
      if AllDigits(s) {
        FilterAll(s, IsDigit);
      }
    }
    assert HasDigit(s) ==> r != [] by {
      if HasDigit(s) {
        var i :| 0 <= i < |s| && IsDigit(s[i]);
        assert s[i] in r;
      }
    }
    assert r != [] ==> HasDigit(s) by {
      if r != [] {
        assert r[0] in r;
        var i :| 0 <= i < |s| && s[i] == r[0];
      }
    }
    r
  }

  function DigitValue(c: char): nat
    requires IsDigit(c)
  {
    c as int - '0' as int
  }

  /** The value of a decimal numeral, most significant digit first. */
  function DigitsValue(ds: string): nat
    requires AllDigits(ds)
  {
    if ds == [] then 0 else 10 * DigitsValue(ds[..|ds| - 1]) + DigitValue(ds[|ds| - 1])
  }

  function DigitChar(d: nat): (c: char)
    requires d < 10
    ensures IsDigit(c) && DigitValue(c) == d
  {
    ('0' as int + d) as char
  }

  /** The decimal numeral of `n`, as `n.ToString()` writes it. */
  function NatToText(n: nat): (t: string)
    ensures t != [] && AllDigits(t)
    ensures DigitsValue(t) == n
  {
    if n < 10 then [DigitChar(n)]
    else
      var prefix := NatToText(n / 10);
      var t := prefix + [DigitChar(n % 10)];
      assert t[..|t| - 1] == prefix;
      t
  }

  const Int32Max: int := 0x7FFF_FFFF

  /** `int.Parse(Regex.Replace(t, "[^0-9]", ""))`. No value when the token
      has no digit (the source's `FormatException`) or when its digits
      exceed `Int32.MaxValue` (the source's `OverflowException`). */
  function ParseDigits(t: string): (r: Option<int>)
    ensures r.None? <==> !HasDigit(t) || DigitsValue(DigitsOnly(t)) > Int32Max
    ensures r.Some? ==> 0 <= r.value <= Int32Max
    ensures t != [] && AllDigits(t) ==>
      r == if DigitsValue(t) <= Int32Max then Some(DigitsValue(t)) else None
  {
    var ds := DigitsOnly(t);
    if ds == [] || DigitsValue(ds) > Int32Max then None else Some(DigitsValue(ds))
  }

  /** A character that is not a digit is dropped wherever it stands. */
  lemma DigitsOnlyDrops(a: string, c: char, b: string)
    requires !IsDigit(c)
    ensures DigitsOnly(a + [c] + b) == DigitsOnly(a + b)
  {
    FilterAppend(a, [c], IsDigit);
    FilterAppend(a + [c], b, IsDigit);
    FilterAppend(a, b, IsDigit);
    assert Filter([c], IsDigit) == [];
  }

  /** The digits of a text are the digits of its parts, laid end to end. */
  lemma DigitsOnlyAppend(a: string, b: string)
    ensures DigitsOnly(a + b) == DigitsOnly(a) + DigitsOnly(b)
  {
    FilterAppend(a, b, IsDigit);
  }

  /** A character that is not a digit does not change the parsed value
      ("4,321" reads as 4321). */
  lemma ParseDigitsDrops(a: string, c: char, b: string)
    requires !IsDigit(c)
    ensures ParseDigits(a + [c] + b) == ParseDigits(a + b)
  {
    DigitsOnlyDrops(a, c, b);
    var t := a + [c] + b;
    assert HasDigit(t) <==> DigitsOnly(t) != [];
    assert HasDigit(a + b) <==> DigitsOnly(a + b) != [];
  }

  /** A numeral keeps its value whatever non-digit text surrounds it
      ("Draw #4321" reads as 4321). */
  lemma ParseDigitsRoundTrip(prefix: string, n: nat, suffix: string)
    requires !HasDigit(prefix) && !HasDigit(suffix)
    requires n <= Int32Max
    ensures ParseDigits(prefix + NatToText(n) + suffix) == Some(n)
  {
    var t := NatToText(n);
    DigitsOnlyPadded(prefix, t, suffix);
  }

  /** A bare numeral reads as its value. */
  lemma ParseNumeral(n: nat)
    requires n <= Int32Max
    ensures ParseDigits(NatToText(n)) == Some(n)
  {
    ParseDigitsRoundTrip([], n, []);
    assert [] + NatToText(n) + [] == NatToText(n);
  }

  lemma DigitsOnlyPadded(prefix: string, t: string, suffix: string)
    requires !HasDigit(prefix) && !HasDigit(suffix) && AllDigits(t)
    ensures DigitsOnly(prefix + t + suffix) == t
  {
    FilterAppend(prefix + t, suffix, IsDigit);
    FilterAppend(prefix, t, IsDigit);
    assert Filter(prefix, IsDigit) == DigitsOnly(prefix) == [];
    assert Filter(suffix, IsDigit) == DigitsOnly(suffix) == [];
    assert Filter(t, IsDigit) == DigitsOnly(t) == t;
  }

  predicate IsSeparator(c: char) {
    c == ' ' || c == ','
  }

  predicate IsTokenChar(c: char) {
    !IsSeparator(c)
  }

  predicate IsToken(t: string) {
    t != [] && forall i :: 0 <= i < |t| ==> IsTokenChar(t[i])
  }

  /** The tokens of `s` after the partial token `pending`. */
  function SplitFrom(s: string, pending: string): seq<string>
    decreases |s|
  {
    if s == [] then
      if pending == [] then [] else [pending]
    else if IsSeparator(s[0]) then
      (if pending == [] then [] else [pending]) + SplitFrom(s[1..], [])
    else
      SplitFrom(s[1..], pending + [s[0]])
  }

  lemma {:induction false} SplitFromTokens(s: string, pending: string)
    requires forall i :: 0 <= i < |pending| ==> IsTokenChar(pending[i])
    ensures var r := SplitFrom(s, pending);
      && (forall i :: 0 <= i < |r| ==> IsToken(r[i]))
      && Concat(r) == pending + Filter(s, IsTokenChar)
    decreases |s|
  {
    var flushed: seq<string> := if pending == [] then [] else [pending];
    assert Concat(flushed) == pending by {
      if pending != [] {
        assert flushed[1..] == [];
      }
    }
    if s == [] {
      assert pending + [] == pending;
    } else {
      assert s == [s[0]] + s[1..];
      if IsSeparator(s[0]) {
        SplitFromTokens(s[1..], []);
        ConcatAppend(flushed, SplitFrom(s[1..], []));
      } else {
        SplitFromTokens(s[1..], pending + [s[0]]);
      }
    }
  }

  lemma {:induction false} ConcatAppend<T>(a: seq<seq<T>>, b: seq<seq<T>>)
    ensures Concat(a + b) == Concat(a) + Concat(b)
  {
    if a == [] {
      assert a + b == b;
    } else {
      assert (a + b)[1..] == a[1..] + b;
      ConcatAppend(a[1..], b);
    }
  }

  /** `s.Split(new[] { ' ', ',' }, StringSplitOptions.RemoveEmptyEntries)`:
      the non-empty separator-free pieces, which laid end to end give `s`
      without its separators. */
  function Split(s: string): (r: seq<string>)
    ensures forall i :: 0 <= i < |r| ==> IsToken(r[i])
    ensures Concat(r) == Filter(s, IsTokenChar)
  {
    SplitFromTokens(s, []);
    assert [] + Filter(s, IsTokenChar) == Filter(s, IsTokenChar);
    SplitFrom(s, [])
  }

  /** A blank or a comma always ends a token: the text on its two sides
      splits on its own. */
  lemma SplitAtSeparator(a: string, c: char, b: string)
    requires IsSeparator(c)
    ensures Split(a + [c] + b) == Split(a) + Split(b)
  {
    SplitFromSeparator(a, c, b, []);
  }

  lemma {:induction false} SplitFromSeparator(a: string, c: char, b: string, pending: string)
    requires IsSeparator(c)
    ensures SplitFrom(a + [c] + b, pending) == SplitFrom(a, pending) + SplitFrom(b, [])
    decreases |a|
  {
    var s := a + [c] + b;
    var flushed: seq<string> := if pending == [] then [] else [pending];
    if a == [] {
      assert s[0] == c && s[1..] == b;
    } else {
      assert s[0] == a[0] && s[1..] == a[1..] + [c] + b;
      if IsSeparator(a[0]) {
        SplitFromSeparator(a[1..], c, b, []);
        assert flushed + (SplitFrom(a[1..], []) + SplitFrom(b, []))
          == (flushed + SplitFrom(a[1..], [])) + SplitFrom(b, []);
      } else {
        SplitFromSeparator(a[1..], c, b, pending + [a[0]]);
      }
    }
  }

  /** Text without separators is one token. */
  lemma SplitToken(t: string)
    requires IsToken(t)
    ensures Split(t) == [t]
  {
    SplitFromToken(t, [], []);
    assert t + [] == t && [] + t == t;
  }

  /** Parses every token, failing as soon as one token fails. */
  function ParseTokens(ts: seq<string>): (r: Option<seq<int>>)
    ensures r.Some? <==> forall i :: 0 <= i < |ts| ==> ParseDigits(ts[i]).Some?
    ensures r.Some? ==> |r.value| == |ts|
    ensures r.Some? ==> forall i :: 0 <= i < |ts| ==> r.value[i] == ParseDigits(ts[i]).value
  {
    if ts == [] then Some([])
    else
      var head := ParseDigits(ts[0]);
      var tail := ParseTokens(ts[1..]);
      assert forall i :: 1 <= i < |ts| ==> ts[i] == ts[1..][i - 1];
      if head.None? || tail.None? then None else Some([head.value] + tail.value)
  }

  /** `ParseNumbers` of both scrapers: split on blanks and commas, strip
      each token to its digits and `int.Parse` it. One value per token;
      a token without digits or too large for an `int` fails the cell. */
  function ParseNumbers(s: string): (r: Option<seq<int>>)
    ensures r.Some? ==> |r.value| == |Split(s)|
    ensures r.Some? ==> forall i :: 0 <= i < |r.value| ==> 0 <= r.value[i] <= Int32Max
    ensures r.None? <==>
      exists i :: 0 <= i < |Split(s)| && (!HasDigit(Split(s)[i]) || DigitsValue(DigitsOnly(Split(s)[i])) > Int32Max)
  {
    ParseTokens(Split(s))
  }

  /** The numbers written out as the site lists them, "3, 17, 42". */
  function JoinNumbers(xs: seq<nat>): string {
    if xs == [] then []
    else if |xs| == 1 then NatToText(xs[0])
    else NatToText(xs[0]) + ", " + JoinNumbers(xs[1..])
  }

  lemma {:induction false} SplitFromToken(t: string, rest: string, pending: string)
    requires forall i :: 0 <= i < |pending| ==> IsTokenChar(pending[i])
    requires forall i :: 0 <= i < |t| ==> IsTokenChar(t[i])
    ensures SplitFrom(t + rest, pending) == SplitFrom(rest, pending + t)
  {
    if t == [] {
      assert t + rest == rest && pending + t == pending;
    } else {
      var s := t + rest;
      assert s[0] == t[0] && IsTokenChar(t[0]);
      assert s[1..] == t[1..] + rest;
      assert SplitFrom(s, pending) == SplitFrom(s[1..], pending + [t[0]]);
      SplitFromToken(t[1..], rest, pending + [t[0]]);
      assert pending + [t[0]] + t[1..] == pending + t;
    }
  }

  lemma SplitJoin(xs: seq<nat>)
    ensures |Split(JoinNumbers(xs))| == |xs|
    ensures forall i :: 0 <= i < |xs| ==> Split(JoinNumbers(xs))[i] == NatToText(xs[i])
  {
    assert Split(JoinNumbers(xs)) == SplitFrom(JoinNumbers(xs), []);
    SplitFromJoin(xs);
  }

  lemma {:induction false} SplitFromJoin(xs: seq<nat>)
    ensures |SplitFrom(JoinNumbers(xs), [])| == |xs|
    ensures forall i :: 0 <= i < |xs| ==> SplitFrom(JoinNumbers(xs), [])[i] == NatToText(xs[i])
  {
    if xs == [] {
    } else if |xs| == 1 {
      var t := NatToText(xs[0]);
      assert SplitFrom(JoinNumbers(xs), []) == [t] by {
        SplitFromToken(t, [], []);
        assert t + [] == t && [] + t == t;
      }
    } else {
      var t := NatToText(xs[0]);
      var rest := JoinNumbers(xs[1..]);
      var r := SplitFrom(JoinNumbers(xs), []);
      assert r == [t] + SplitFrom(rest, []) by {
        assert JoinNumbers(xs) == t + (", " + rest);
        CommaStep(t, rest);
      }
      SplitFromJoin(xs[1..]);
      forall i | 0 < i < |xs|
        ensures r[i] == NatToText(xs[i])
      {
        assert r[i] == SplitFrom(rest, [])[i - 1];
        assert xs[1..][i - 1] == xs[i];
      }
    }
  }

  /** A token followed by ", " is split off as one token. */
  lemma CommaStep(t: string, rest: string)
    requires IsToken(t)
    ensures SplitFrom(t + (", " + rest), []) == [t] + SplitFrom(rest, [])
  {
    SplitFromToken(t, ", " + rest, []);
    assert [] + t == t;
    var comma := ", " + rest;
    assert comma[0] == ',' && comma[1..] == " " + rest;
    assert SplitFrom(comma, t) == [t] + SplitFrom(" " + rest, []);
    var blank := " " + rest;
    assert blank[0] == ' ' && blank[1..] == rest;
    assert SplitFrom(blank, []) == [] + SplitFrom(rest, []);
  }

  /** Writing numbers out and parsing them back gives the same numbers. */
  lemma ParseNumbersRoundTrip(xs: seq<nat>)
    requires forall i :: 0 <= i < |xs| ==> xs[i] <= Int32Max
    ensures ParseNumbers(JoinNumbers(xs)).Some?
    ensures ParseNumbers(JoinNumbers(xs)).value == xs
  {
    var ts := Split(JoinNumbers(xs));
    assert |ts| == |xs| && forall i :: 0 <= i < |xs| ==> ts[i] == NatToText(xs[i]) by {
      SplitJoin(xs);
    }
    ParseEachNumeral(ts, xs);
  }

  /** Tokens that are the numerals of `xs` parse to `xs`. */
  lemma ParseEachNumeral(ts: seq<string>, xs: seq<nat>)
    requires forall i :: 0 <= i < |xs| ==> xs[i] <= Int32Max
    requires |ts| == |xs| && forall i :: 0 <= i < |xs| ==> ts[i] == NatToText(xs[i])
    ensures ParseTokens(ts) == Some(xs)
  {
    forall i | 0 <= i < |ts|
      ensures ParseDigits(ts[i]) == Some(xs[i] as int)
    {
      ParseNumeral(xs[i]);
    }
    var r := ParseTokens(ts);
    assert r.Some?;
    assert r.value == xs;
  }


  predicate IsPrizeChar(c: char) {
    IsDigit(c) || c == '.'
  }

  /** `Regex.Replace(prizeStr, @"[^0-9\.]", "")`. */
  function PrizeText(s: string): (r: string)
    ensures forall i :: 0 <= i < |r| ==> IsPrizeChar(r[i])
    ensures HasDigit(r) <==> HasDigit(s)
    ensures multiset(r)['.'] == multiset(s)['.']
  {
    var r := Filter(s, IsPrizeChar);
    FilterCount(s, IsPrizeChar, '.');
    FilterMembers(s, IsPrizeChar);
    assert HasDigit(s) ==> HasDigit(r) by {
      if HasDigit(s) {
        var i :| 0 <= i < |s| && IsDigit(s[i]);
        assert s[i] in r;
      }
    }
    assert HasDigit(r) ==> HasDigit(s) by {
      if HasDigit(r) {
        var i :| 0 <= i < |r| && IsDigit(r[i]);
        assert r[i] in r;
      }
    }
    r
  }

  /** `decimal.MaxValue`, 2^96 - 1. */
  const DecimalMax: int := 79228162514264337593543950335

  function Pow10(n: nat): (p: nat)
    ensures p >= 1
  {
    if n == 0 then 1 else 10 * Pow10(n - 1)
  }

  /** The position of the first '.', or `|t|` when there is none. */
  function DotIndex(t: string): (k: nat)
    ensures k <= |t|
    ensures k < |t| ==> t[k] == '.'
    ensures forall i :: 0 <= i < k ==> t[i] != '.'
  {
    if t == [] then 0
    else if t[0] == '.' then 0
    else 1 + DotIndex(t[1..])
  }

  /** Text of digits and at most one dot splits at the dot into two
      numerals. */
  lemma DotSplit(t: string)
    requires forall i :: 0 <= i < |t| ==> IsPrizeChar(t[i])
    requires multiset(t)['.'] <= 1
    ensures var k := DotIndex(t);
      AllDigits(t[..k]) && (k < |t| ==> AllDigits(t[k + 1..]))
    ensures AllDigits(t) ==> DotIndex(t) == |t|
  {
    var k := DotIndex(t);
    var whole := t[..k];
    forall i | 0 <= i < k
      ensures IsDigit(whole[i])
    {
      assert whole[i] == t[i];
    }
    if k < |t| {
      FractionDigits(t, k);
    }
  }

  lemma FractionDigits(t: string, k: nat)
    requires forall i :: 0 <= i < |t| ==> IsPrizeChar(t[i])
    requires multiset(t)['.'] <= 1
    requires k < |t| && t[k] == '.'
    ensures AllDigits(t[k + 1..])
  {
    var fraction := t[k + 1..];
    assert t == t[..k] + ([t[k]] + fraction);
    assert multiset(t) == multiset(t[..k]) + multiset{'.'} + multiset(fraction);
    assert multiset(fraction)['.'] == 0;
    forall i | 0 <= i < |fraction|
      ensures IsDigit(fraction[i])
    {
      assert fraction[i] == t[k + 1 + i];
      assert fraction[i] in multiset(fraction);
    }
  }

  /** The value of a numeral with a fractional part. */
  function DecimalValue(whole: string, fraction: string): (v: real)
    requires AllDigits(whole) && AllDigits(fraction)
    ensures v >= 0.0
  {
    DigitsValue(whole) as real + DigitsValue(fraction) as real / Pow10(|fraction|) as real
  }

  /** `decimal.TryParse` of cleaned prize text (digits and dots only) under
      invariant-culture rules: at least one digit, at most one decimal
      point, and a value within `decimal.MaxValue`. */
  function ParseDecimal(t: string): (r: Option<real>)
    requires forall i :: 0 <= i < |t| ==> IsPrizeChar(t[i])
    ensures r.Some? ==> HasDigit(t) && multiset(t)['.'] <= 1 && 0.0 <= r.value <= DecimalMax as real
    ensures t != [] && AllDigits(t) ==>
      r == if DigitsValue(t) <= DecimalMax then Some(DigitsValue(t) as real) else None
  {
    if !HasDigit(t) || multiset(t)['.'] > 1 then None
    else
      DotSplit(t);
      var k := DotIndex(t);
      var v := if k < |t| then DecimalValue(t[..k], t[k + 1..]) else DecimalValue(t, []);
      assert k == |t| ==> t[..k] == t;
      if v > DecimalMax as real then None else Some(v)
  }

  /** A numeral with one decimal point, "12.5", ".5" or "12.", reads as
      its whole part plus its fraction, when within `decimal.MaxValue`. */
  lemma ParseDecimalWithPoint(whole: string, fraction: string)
    requires AllDigits(whole) && AllDigits(fraction)
    requires whole != [] || fraction != []
    ensures forall i :: 0 <= i < |whole + ['.'] + fraction| ==> IsPrizeChar((whole + ['.'] + fraction)[i])
    ensures var v := DecimalValue(whole, fraction);
      ParseDecimal(whole + ['.'] + fraction) == if v <= DecimalMax as real then Some(v) else None
  {
    var t := whole + ['.'] + fraction;
    var w := |whole|;
    assert t[..w] == whole && t[w] == '.' && t[w + 1..] == fraction;
    assert HasDigit(t) by {
      if whole != [] {
        assert IsDigit(t[0]);
      } else {
        assert IsDigit(t[w + 1]);
      }
    }
    assert multiset(t)['.'] == 1 by {
      assert multiset(t) == multiset(whole) + multiset{'.'} + multiset(fraction);
      assert '.' !in whole && '.' !in fraction;
    }
    assert DotIndex(t) == w;
  }

  /** Every digit string is below the next power of ten. */
  lemma {:induction false} DigitsValueBelow(t: string)
    requires AllDigits(t)
    ensures DigitsValue(t) < Pow10(|t|)
  {
    if t != [] {
      DigitsValueBelow(t[..|t| - 1]);
    }
  }

  /** `ParsePrize`: the cleaned text as a decimal, or 0 when it does not
      parse. Never negative. */
  function ParsePrize(s: string): (r: real)
    ensures r >= 0.0
    ensures !HasDigit(s) ==> r == 0.0
    ensures multiset(s)['.'] > 1 ==> r == 0.0
    ensures var t := PrizeText(s);
      HasDigit(t) && AllDigits(t) && DigitsValue(t) <= DecimalMax ==> r == DigitsValue(t) as real
  {
    match ParseDecimal(PrizeText(s))
    case Some(v) => v
    case None => 0.0
  }

  /** Characters other than digits and '.' (the dollar sign, thousands
      separators, blanks) do not affect the prize, wherever they occur. */
  lemma ParsePrizeIgnoresOtherChars(a: string, c: char, b: string)
    requires !IsPrizeChar(c)
    ensures ParsePrize(a + [c] + b) == ParsePrize(a + b)
  {
    PrizeTextDrops(a, c, b);
  }

  lemma PrizeTextDrops(a: string, c: char, b: string)
    requires !IsPrizeChar(c)
    ensures Filter(a + [c] + b, IsPrizeChar) == Filter(a + b, IsPrizeChar)
  {
    FilterAppend(a, [c], IsPrizeChar);
    FilterAppend(a + [c], b, IsPrizeChar);
    FilterAppend(a, b, IsPrizeChar);
    assert Filter([c], IsPrizeChar) == [];
  }

  /** A dollar amount written as a whole number of dollars parses to that
      number, up to `decimal.MaxValue`. */
  lemma ParsePrizeDollars(n: nat)
    requires n <= DecimalMax
    ensures ParsePrize(['$'] + NatToText(n)) == n as real
  {
    var t := NatToText(n);
    ParsePrizeDropsDollar(t);
    assert ParsePrize(t) == n as real by {
      FilterAll(t, IsPrizeChar);
      assert PrizeText(t) == t;
      assert IsDigit(t[0]);
    }
  }

  /** The leading dollar sign does not matter. */
  lemma ParsePrizeDropsDollar(t: string)
    ensures ParsePrize(['$'] + t) == ParsePrize(t)
  {
    FilterAppend(['$'], t, IsPrizeChar);
    assert Filter(['$'], IsPrizeChar) == [];
    assert PrizeText(['$'] + t) == [] + PrizeText(t) == PrizeText(t);
  }

  /** A prize in dollars and cents, "$1234.56", parses to the dollars
      plus the cents as a fraction; thousands separators may be added by
      `ParsePrizeIgnoresOtherChars`. */
  lemma ParsePrizeCents(dollars: nat, cents: nat)
    requires dollars < DecimalMax
    ensures var c := NatToText(cents);
      ParsePrize(['$'] + NatToText(dollars) + ['.'] + c)
        == dollars as real + cents as real / Pow10(|c|) as real
  {
    var d, c := NatToText(dollars), NatToText(cents);
    ParsePrizeDollarsPoint(d, c);
    assert DigitsValue(d) == dollars && DigitsValue(c) == cents;
  }

  /** "$", a whole part, a point and a fraction: the decimal they write. */
  lemma ParsePrizeDollarsPoint(whole: string, fraction: string)
    requires AllDigits(whole) && AllDigits(fraction) && whole != []
    requires DigitsValue(whole) < DecimalMax
    ensures ParsePrize(['$'] + whole + ['.'] + fraction) == DecimalValue(whole, fraction)
  {
    var t := whole + ['.'] + fraction;
    ParsePrizeDropsDollar(t);
    assert ParsePrize(t) == DecimalValue(whole, fraction) by {
      DecimalBelowNext(whole, fraction);
      ParsePrizeWithPoint(whole, fraction);
    }
    PrependGrouped('$', whole, '.', fraction);
  }

  /** Cleaned text with one decimal point is read as that decimal. */
  lemma ParsePrizeWithPoint(whole: string, fraction: string)
    requires AllDigits(whole) && AllDigits(fraction) && whole != []
    requires DecimalValue(whole, fraction) <= DecimalMax as real
    ensures ParsePrize(whole + ['.'] + fraction) == DecimalValue(whole, fraction)
  {
    var t := whole + ['.'] + fraction;
    ParseDecimalWithPoint(whole, fraction);
    FilterAll(t, IsPrizeChar);
    assert PrizeText(t) == t;
  }

  /** A fraction never reaches the next whole number. */
  lemma DecimalBelowNext(whole: string, fraction: string)
    requires AllDigits(whole) && AllDigits(fraction)
    ensures DecimalValue(whole, fraction) < DigitsValue(whole) as real + 1.0
  {
    DigitsValueBelow(fraction);
    QuotientBelowOne(DigitsValue(fraction) as real, Pow10(|fraction|) as real);
  }

  lemma QuotientBelowOne(f: real, p: real)
    requires 0.0 <= f < p
    ensures f / p < 1.0
  {
    var q := f / p;
    assert q * p == f;
  }

  lemma PrependGrouped<T>(x: T, a: seq<T>, y: T, b: seq<T>)
    ensures [x] + a + [y] + b == [x] + (a + [y] + b)
  {
  }

  /** Text with two decimal points anywhere, as the European "1.000.000"
      has, is a zero prize. */
  lemma ParsePrizeTwoDots(a: string, b: string, c: string)
    ensures ParsePrize(a + ['.'] + b + ['.'] + c) == 0.0
  {
    var s := a + ['.'] + b + ['.'] + c;
    assert multiset(s) == multiset(a) + multiset{'.'} + multiset(b) + multiset{'.'} + multiset(c);
    assert multiset(s)['.'] >= 2;
  }

}
