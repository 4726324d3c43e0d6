/** Decimal text of integers: printing two digits at a time, parsing, and locale grouping. */
module IntText {
  import opened Arith
  import opened Decimal
  import opened CountDigits

  const INT_MAX: nat := 0x7fff_ffff

  // The decimal digits of n without leading zeros.
  function DecimalText(n: nat): string
  {
    if n < 10 then [Glyph(n)] else DecimalText(n / 10) + [Glyph(n % 10)]
  }

  lemma {:induction false} DecimalTextSpells(n: nat)
    ensures AllDigits(DecimalText(n)) && |DecimalText(n)| == NumDigits(n) && Spelled(DecimalText(n)) == n
  {
    if n < 10 {
      assert DecimalText(n)[..0] == [];
    } else {
      DecimalTextSpells(n / 10);
      SpelledSnoc(DecimalText(n / 10), Glyph(n % 10));
    }
  }

  // The digits of value that follow those of rest end at size, and nothing else has changed.
  predicate Written(before: string, out: string, begin: nat, size: nat, text: string)
  {
    && begin <= size <= |before| == |out| && out[..begin] == before[..begin] && out[size..] == before[size..]
    && out[begin..size] == text
  }

  lemma PairWritten(before: string, out: string, begin: nat, size: nat, text: string, a: char, b: char)
    requires Written(before, out, begin, size, text) && 2 <= begin
    ensures Written(before, out[begin - 2 := a][begin - 1 := b], begin - 2, size, [a, b] + text)
  {
  }

  lemma DigitWritten(before: string, out: string, begin: nat, size: nat, text: string, a: char)
    requires Written(before, out, begin, size, text) && 1 <= begin
    ensures Written(before, out[begin - 1 := a], begin - 1, size, [a] + text)
  {
  }

  // Writes the decimal digits of value so that they end at size.
  method FormatDecimal(out: array<char>, value: nat, size: nat) returns (begin: nat)
    requires NumDigits(value) <= size <= out.Length
    modifies out
    ensures begin == size - NumDigits(value) && out[begin..size] == DecimalText(value)
    ensures out[..begin] == old(out[..begin]) && out[size..] == old(out[size..])
  {
    var rest := value;
    begin := size;
    ghost var before, text := out[..], "";
    while rest >= 100
      invariant NumDigits(rest) <= begin && begin - NumDigits(rest) == size - NumDigits(value)
      invariant Written(before, out[..], begin, size, text) && DecimalText(value) == DecimalText(rest) + text
    {
      // Copies a pair of digits.
      PairWritten(before, out[..], begin, size, text, Glyph(rest % 100 / 10), Glyph(rest % 10));
      TwoDigits(rest, text);
      text := [Glyph(rest % 100 / 10), Glyph(rest % 10)] + text;
      begin := begin - 2;
      out[begin], out[begin + 1] := Glyph(rest % 100 / 10), Glyph(rest % 10);
      rest := rest / 100;
    }
    if rest < 10 {
      DigitWritten(before, out[..], begin, size, text, Glyph(rest));
      begin := begin - 1;
      out[begin] := Glyph(rest);
    } else {
      PairWritten(before, out[..], begin, size, text, Glyph(rest / 10), Glyph(rest % 10));
      TwoDigitText(rest);
      begin := begin - 2;
      out[begin], out[begin + 1] := Glyph(rest / 10), Glyph(rest % 10);
    }
  }

  lemma TwoDigitText(n: nat)
    requires 10 <= n < 100
    ensures DecimalText(n) == [Glyph(n / 10), Glyph(n % 10)] && NumDigits(n) == 2
  {
  }

  lemma TwoDigits(n: nat, text: string)
    requires n >= 100
    ensures DecimalText(n) + text == DecimalText(n / 100) + ([Glyph(n % 100 / 10), Glyph(n % 10)] + text)
    ensures NumDigits(n) == NumDigits(n / 100) + 2
  {
    assert n / 10 / 10 == n / 100 && n / 10 % 10 == n % 100 / 10;
  }

  // The end of the run of digits that starts at i.
  function RunEnd(s: string, i: nat): (j: nat)
    requires i <= |s|
    ensures i <= j <= |s| && AllDigits(s[i..j])
    ensures j < |s| ==> !IsDigit(s[j])
    decreases |s| - i
  {
    if i < |s| && IsDigit(s[i]) then RunEnd(s, i + 1) else i
  }

  datatype ParsedInt = Parsed(value: nat, end: nat) | TooBig

  // Reads the run of digits at i as a number, which must fit in an int.
  function ReadInt(s: string, i: nat): (r: ParsedInt)
    requires i < |s| && IsDigit(s[i])
    ensures r.Parsed? ==> i < r.end <= |s|
  {
    var j := RunEnd(s, i);
    SpelledBound(s[i..j]);
    if Spelled(s[i..j]) > INT_MAX then TooBig else Parsed(Spelled(s[i..j]), j)
  }

  method ParseNonnegativeInt(s: string, i: nat) returns (r: ParsedInt)
    requires i < |s| && IsDigit(s[i])
    ensures r == ReadInt(s, i)
  {
    var value: nat, big, begin := 0, INT_MAX / 10, i;
    assert s[i..i] == [];
    while true
      invariant Reading(s, i, begin, value) && begin < |s| && IsDigit(s[begin]) && value <= INT_MAX + 2
      decreases |s| - begin
    {
      ReadingStep(s, i, begin, value);
      // Check for overflow.
      if value > big {
        value := INT_MAX + 1;
        break;
      }
      value := value * 10 + Face(s[begin]);
      begin := begin + 1;
      if !(begin != |s| && IsDigit(s[begin])) { break; }
    }
    return if value > INT_MAX then TooBig else Parsed(value, begin);
  }

  // The digits from i to begin have been read and spell value.
  predicate Reading(s: string, i: nat, begin: nat, value: nat)
  {
    i <= begin <= |s| && AllDigits(s[i..begin]) && value == Spelled(s[i..begin]) && RunEnd(s, i) == RunEnd(s, begin)
  }

  lemma ReadingStep(s: string, i: nat, begin: nat, value: nat)
    requires Reading(s, i, begin, value) && begin < |s| && IsDigit(s[begin])
    ensures 0 <= Face(s[begin]) <= 9 && IsDigit(s[i])
    ensures Reading(s, i, begin + 1, value * 10 + Face(s[begin]))
    ensures value > INT_MAX / 10 ==> ReadInt(s, i) == TooBig
    ensures begin + 1 == |s| || !IsDigit(s[begin + 1]) ==> RunEnd(s, i) == begin + 1
  {
    var end := RunEnd(s, i);
    assert s[i..begin + 1] == s[i..begin] + [s[begin]];
    SpelledSnoc(s[i..begin], s[begin]);
    if begin > i { assert IsDigit(s[i..begin][0]); }
    assert RunEnd(s, begin) == RunEnd(s, begin + 1) > begin;
    SpelledPrefix(s, i, begin, end);
  }

  // A longer run of digits spells at least ten times what a proper prefix of it does.
  lemma {:induction false} SpelledPrefix(s: string, i: nat, j: nat, end: nat)
    requires i <= j < end <= |s| && AllDigits(s[i..end])
    ensures Spelled(s[i..end]) >= 10 * Spelled(s[i..j]) >= 0
    decreases end
  {
    var t := s[i..end - 1];
    assert s[i..end] == t + [s[end - 1]];
    SpelledSnoc(t, s[end - 1]);
    SpelledBound(t);
    assert s[i..end][end - 1 - i] == s[end - 1];
    assert AllDigits(s[i..j]) by { assert forall k :: 0 <= k < j - i ==> s[i..j][k] == s[i..end][k]; }
    SpelledBound(s[i..j]);
    if j < end - 1 { SpelledPrefix(s, i, j, end - 1); }
  }

  // Printing and parsing a number gives it back.
  lemma PrintParse(n: nat)
    ensures 0 < |DecimalText(n)| && IsDigit(DecimalText(n)[0])
    ensures ReadInt(DecimalText(n), 0) == if n <= INT_MAX then Parsed(n, NumDigits(n)) else TooBig
  {
    DecimalTextSpells(n);
    assert IsDigit(DecimalText(n)[0]);
    RunAll(DecimalText(n), 0);
    assert DecimalText(n)[0..|DecimalText(n)|] == DecimalText(n);
  }

  lemma {:induction false} RunAll(s: string, i: nat)
    requires i <= |s| && AllDigits(s)
    ensures RunEnd(s, i) == |s|
    decreases |s| - i
  {
    if i < |s| { RunAll(s, i + 1); }
  }
}
