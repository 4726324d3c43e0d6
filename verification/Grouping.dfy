/** Thousands separators: int_writer::on_num fills a buffer of a size it has computed beforehand. */
module Grouping {
  import opened Arith
  import opened Decimal
  import opened CountDigits
  import opened IntText

  const CHAR_MAX: int := 127

  // A group that ends the grouping: no separators beyond it.
  predicate Last(group: int)
  {
    group <= 0 || group == CHAR_MAX
  }

  function Next(groups: seq<int>, g: nat): (r: nat)
    requires g < |groups|
    ensures r < |groups|
  {
    if g + 1 < |groups| then g + 1 else g
  }

  // Digits grouped from the right: group g first, then the following ones, the last repeating.
  function Grouped(digits: string, groups: seq<int>, g: nat, sep: char): string
    requires g < |groups|
    decreases |digits|
  {
    var n := |digits|;
    if Last(groups[g]) || n <= groups[g] then digits
    else Grouped(digits[..n - groups[g]], groups, Next(groups, g), sep) + [sep] + digits[n - groups[g]..]
  }

  function SeparatorCount(n: nat, groups: seq<int>, g: nat): nat
    requires g < |groups|
    decreases n
  {
    if Last(groups[g]) || n <= groups[g] then 0
    else 1 + SeparatorCount(n - groups[g], groups, Next(groups, g))
  }

  lemma {:induction false} GroupedLength(digits: string, groups: seq<int>, g: nat, sep: char)
    requires g < |groups|
    ensures |Grouped(digits, groups, g, sep)| == |digits| + SeparatorCount(|digits|, groups, g)
    decreases |digits|
  {
    var n := |digits|;
    if !Last(groups[g]) && n > groups[g] {
      GroupedLength(digits[..n - groups[g]], groups, Next(groups, g), sep);
    }
  }

  // Deleting the separators.
  function Plain(s: string, sep: char): string
  {
    if s == [] then [] else if s[|s| - 1] == sep then Plain(s[..|s| - 1], sep) else Plain(s[..|s| - 1], sep) + [s[|s| - 1]]
  }

  lemma {:induction false} PlainConcat(s: string, t: string, sep: char)
    ensures Plain(s + t, sep) == Plain(s, sep) + Plain(t, sep)
    decreases |t|
  {
    if t == [] {
      assert s + t == s;
    } else {
      assert (s + t)[..|s + t| - 1] == s + t[..|t| - 1];
      PlainConcat(s, t[..|t| - 1], sep);
    }
  }

  lemma {:induction false} PlainDigits(s: string, sep: char)
    requires sep !in s
    ensures Plain(s, sep) == s
  {
    if s != [] { PlainDigits(s[..|s| - 1], sep); }
  }

  // Deleting the separators gives the digits back.
  lemma {:induction false} GroupedPlain(digits: string, groups: seq<int>, g: nat, sep: char)
    requires g < |groups| && sep !in digits
    ensures Plain(Grouped(digits, groups, g, sep), sep) == digits
    decreases |digits|
  {
    var n := |digits|;
    if Last(groups[g]) || n <= groups[g] {
      PlainDigits(digits, sep);
    } else {
      var front, back := digits[..n - groups[g]], digits[n - groups[g]..];
      var head := Grouped(front, groups, Next(groups, g), sep);
      GroupedPlain(front, groups, Next(groups, g), sep);
      PlainConcat(head, [sep], sep);
      PlainConcat(head + [sep], back, sep);
      PlainDigits(back, sep);
      assert [sep][..0] == [] && Plain([sep], sep) == [];
      assert front + back == digits;
    }
  }

  // The last group repeats as often as the remaining digits need.
  lemma {:induction false} RepeatedGroup(n: nat, groups: seq<int>, g: nat)
    requires g + 1 == |groups| && !Last(groups[g]) && n > 0
    ensures SeparatorCount(n, groups, g) == (n - 1) / groups[g]
    decreases n
  {
    var d := groups[g];
    if n > d {
      RepeatedGroup(n - d, groups, g);
      NatQuotient(n - d - 1, d);
      assert ((n - d - 1) / d + 1) * d == (n - d - 1) / d * d + d;
      DivModUnique(n - 1, d, (n - d - 1) / d + 1, (n - d - 1) % d);
    } else {
      DivModUnique(n - 1, d, 0, n - 1);
    }
  }

  // The size computed in advance.
  method PrecomputedSize(numDigits: nat, groups: seq<int>) returns (size: nat)
    requires 0 < numDigits && groups != []
    ensures size == numDigits + SeparatorCount(numDigits, groups, 0)
  {
    var n, group := numDigits, 0;
    size := numDigits;
    while group != |groups| && n > groups[group] && groups[group] > 0 && groups[group] != CHAR_MAX
      invariant group <= |groups| && 0 < n
      invariant group < |groups| ==> numDigits + SeparatorCount(numDigits, groups, 0) == size + SeparatorCount(n, groups, group)
      invariant group == |groups| ==> !Last(groups[group - 1])
      invariant group == |groups| ==>
        numDigits + SeparatorCount(numDigits, groups, 0) == size + SeparatorCount(n, groups, group - 1)
      decreases |groups| - group
    {
      size := size + 1;
      n := n - groups[group];
      group := group + 1;
    }
    if group == |groups| {
      RepeatedGroup(n, groups, group - 1);
      size := size + (n - 1) / groups[|groups| - 1];
    }
  }

  // Joined by name, so that Missing is unfolded only where a lemma asks for it.
  predicate IsJoined(s: string, front: string, b: string, p: int)
    requires -1 <= p < |b|
  {
    s == front + b[p + 1..]
  }

  // The buffer is filled down to position p, and front is what is still missing.
  ghost predicate Missing(target: string, b: string, p: int, front: string)
  {
    -1 <= p < |b| && |front| == p + 1 && forall s :: IsJoined(s, front, b, p) ==> s == target
  }

  lemma MissingForm(target: string, b: string, p: int, front: string)
    requires Missing(target, b, p, front)
    ensures target == front + b[p + 1..]
  {
    assert IsJoined(front + b[p + 1..], front, b, p);
  }

  lemma WriteOne(target: string, b: string, p: nat, front: string, d: char)
    requires Missing(target, b, p, front + [d])
    ensures Missing(target, b[p := d], p - 1, front)
  {
    MissingForm(target, b, p, front + [d]);
    assert b[p := d][p..] == [d] + b[p + 1..];
  }

  lemma WriteTwo(target: string, b: string, p: nat, front: string, sep: char, d: char)
    requires Missing(target, b, p + 1, front + [sep] + [d])
    ensures Missing(target, b[p + 1 := d][p := sep], p - 1, front)
  {
    WriteOne(target, b, p + 1, front + [sep], d);
    WriteOne(target, b[p + 1 := d], p, front, sep);
  }

  // Grouped by name, so that Filling is unfolded only where a lemma asks for it.
  predicate IsGrouped(s: string, digits: string, groups: seq<int>, g: nat, sep: char)
    requires g < |groups|
  {
    s == Grouped(digits, groups, g, sep)
  }

  // The digits from rem on are written, those before m in group g, and front is what goes before them.
  ghost predicate Filling(front: string, digits: string, rem: nat, m: nat, groups: seq<int>, g: nat, sep: char)
    requires 0 < rem <= m <= |digits| && g < |groups|
  {
    forall s :: IsGrouped(s, digits[..m], groups, g, sep) ==>
      (Last(groups[g]) || m - rem < groups[g]) && s == front + digits[rem..m]
  }

  lemma FillStart(b: string, digits: string, groups: seq<int>, sep: char)
    requires groups != [] && digits != [] && |b| == |digits| + SeparatorCount(|digits|, groups, 0)
    ensures var target := Grouped(digits, groups, 0, sep);
            Missing(target, b, |b| - 1, target) && Filling(target, digits, |digits|, |digits|, groups, 0, sep)
  {
    GroupedLength(digits, groups, 0, sep);
    assert digits[..|digits|] == digits;
  }

  // What is still to be written and what is written of the group make up the grouped form.
  lemma FillForm(front: string, digits: string, rem: nat, m: nat, groups: seq<int>, g: nat, sep: char)
    requires 0 < rem <= m <= |digits| && g < |groups| && Filling(front, digits, rem, m, groups, g, sep)
    ensures Last(groups[g]) || m - rem < groups[g]
    ensures Grouped(digits[..m], groups, g, sep) == front + digits[rem..m]
  {
    assert IsGrouped(Grouped(digits[..m], groups, g, sep), digits[..m], groups, g, sep);
  }

  // Every digit still to be written has its place.
  lemma FillRoom(front: string, digits: string, rem: nat, m: nat, groups: seq<int>, g: nat, sep: char)
    requires 0 < rem <= m <= |digits| && g < |groups| && Filling(front, digits, rem, m, groups, g, sep)
    ensures rem <= |front|
  {
    FillForm(front, digits, rem, m, groups, g, sep);
    GroupedLength(digits[..m], groups, g, sep);
  }

  // No separator among the last digits of a group.
  lemma GroupedBack(digits: string, groups: seq<int>, g: nat, sep: char, k: nat)
    requires g < |groups| && k < |digits| && (Last(groups[g]) || k < groups[g])
    ensures var s := Grouped(digits, groups, g, sep); k < |s| && s[|s| - 1 - k] == digits[|digits| - 1 - k]
  {
  }

  // Writing one digit that does not complete a group.
  lemma FillStep(target: string, b: string, p: nat, front: string, digits: string, rem: nat, m: nat,
                 groups: seq<int>, g: nat, sep: char)
    returns (front': string)
    requires 1 < rem <= m <= |digits| && g < |groups|
    requires Filling(front, digits, rem, m, groups, g, sep) && (Last(groups[g]) || m - rem + 1 < groups[g])
    requires Missing(target, b, p, front)
    ensures Filling(front', digits, rem - 1, m, groups, g, sep)
    ensures Missing(target, b[p := digits[rem - 1]], p - 1, front')
  {
    FillForm(front, digits, rem, m, groups, g, sep);
    FillRoom(front, digits, rem, m, groups, g, sep);
    GroupedBack(digits[..m], groups, g, sep, m - rem);
    front' := front[..|front| - 1];
    assert front' + digits[rem - 1..m] == front + digits[rem..m];
    assert front == front' + [digits[rem - 1]];
    WriteOne(target, b, p, front', digits[rem - 1]);
  }

  // Writing one digit and the separator after its group.
  lemma FillGroup(target: string, b: string, p: nat, front: string, digits: string, rem: nat, m: nat,
                  groups: seq<int>, g: nat, sep: char)
    returns (front': string)
    requires 1 < rem <= m <= |digits| && g < |groups|
    requires Filling(front, digits, rem, m, groups, g, sep) && !Last(groups[g]) && m - rem + 1 == groups[g]
    requires Missing(target, b, p + 1, front)
    ensures Filling(front', digits, rem - 1, rem - 1, groups, Next(groups, g), sep)
    ensures Missing(target, b[p + 1 := digits[rem - 1]][p := sep], p - 1, front')
  {
    FillForm(front, digits, rem, m, groups, g, sep);
    front' := Grouped(digits[..rem - 1], groups, Next(groups, g), sep);
    LastGroup(digits, rem, m);
    SameFront(front, front' + [sep] + [digits[rem - 1]], digits[rem..m]);
    assert front' + digits[rem - 1..rem - 1] == front';
    WriteTwo(target, b, p, front', sep, digits[rem - 1]);
  }

  lemma LastGroup(digits: string, rem: nat, m: nat)
    requires 0 < rem <= m <= |digits|
    ensures digits[..m][..rem - 1] == digits[..rem - 1]
    ensures digits[..m][rem - 1..] == [digits[rem - 1]] + digits[rem..m]
  {
    assert digits[..m][rem - 1..] == digits[rem - 1..m] == [digits[rem - 1]] + digits[rem..m];
  }

  lemma SameFront(a: string, b: string, back: string)
    requires a + back == b + back
    ensures a == b
  {
    assert |a| == |b| && (a + back)[..|a|] == a && (b + back)[..|b|] == b;
  }

  lemma FillLast(target: string, b: string, p: int, front: string, digits: string, m: nat,
                 groups: seq<int>, g: nat, sep: char)
    requires 1 <= m <= |digits| && g < |groups|
    requires Filling(front, digits, 1, m, groups, g, sep) && Missing(target, b, p, front)
    ensures p == 0 && b[0 := digits[0]] == target
  {
    FillForm(front, digits, 1, m, groups, g, sep);
    assert digits[..m] == [digits[0]] + digits[1..m];
    SameFront(front, [digits[0]], digits[1..m]);
    MissingForm(target, b, p, front);
  }

  // on_num; the grouping string and the separator come from the locale, and without either of
  // them the number is printed plainly.
  method OnNum(value: nat, groups: seq<int>, sep: char) returns (out: string)
    requires NumDigits(value) <= 40
    ensures out == if groups == [] || sep == '\0' then DecimalText(value) else Grouped(DecimalText(value), groups, 0, sep)
  {
    if groups == [] || sep == '\0' { return DecimalText(value); }
    var numDigits := NumDigits(value);
    var size := PrecomputedSize(numDigits, groups);
    var digits := new char[40];
    var begin := FormatDecimal(digits, value, numDigits);
    DecimalTextSpells(value);
    assert digits[..numDigits] == digits[0..numDigits];
    out := FillBuffer(digits[..numDigits], size, groups, sep);
  }

  // The test in the fill loop: whether the digit being written completes a group.
  method CompletesGroup(ghost c: nat, digitIndex: nat, groups: seq<int>, group: nat)
    returns (complete: bool, digitIndex': nat, group': nat)
    requires group < |groups| && InGroup(c, digitIndex, groups[group])
    ensures complete <==> !Last(groups[group]) && c + 1 == groups[group]
    ensures !complete ==> Last(groups[group]) || c + 1 < groups[group]
    ensures group' == if complete then Next(groups, group) else group
    ensures InGroup(if complete then 0 else c + 1, digitIndex', groups[group'])
  {
    if groups[group] <= 0 { return false, digitIndex, group; }
    GroupAdvance(c, digitIndex, groups[group]);
    if (digitIndex + 1) % groups[group] != 0 || groups[group] == CHAR_MAX { return false, digitIndex + 1, group; }
    if group + 1 != |groups| {
      ZeroInGroup(groups[group + 1]);
      return true, 0, group + 1;
    }
    return true, digitIndex + 1, group;
  }

  lemma ZeroInGroup(group: int)
    ensures InGroup(0, 0, group)
  {
    if !Last(group) { DivModUnique(0, group, 0, 0); }
  }

  // The backward fill loop of on_num.
  method FillBuffer(digits: string, size: nat, groups: seq<int>, sep: char) returns (out: string)
    requires groups != [] && digits != [] && size == |digits| + SeparatorCount(|digits|, groups, 0)
    ensures out == Grouped(digits, groups, 0, sep)
  {
    var buffer: string := seq(size, _ => ' ');
    var digitIndex, group, p, i := 0, 0, size - 1, |digits| - 1;
    ghost var target, m := Grouped(digits, groups, 0, sep), |digits|;
    ghost var front := target;
    FillStart(buffer, digits, groups, sep);
    ZeroInGroup(groups[0]);
    while i > 0
      invariant 0 <= i < m <= |digits| && 0 <= group < |groups| && 0 <= digitIndex
      invariant InGroup(m - i - 1, digitIndex, groups[group])
      invariant Filling(front, digits, i + 1, m, groups, group, sep) && Missing(target, buffer, p, front)
    {
      FillRoom(front, digits, i + 1, m, groups, group, sep);
      ghost var before, group0 := buffer, group;
      buffer := buffer[p := digits[i]];
      p, i := p - 1, i - 1;
      var complete;
      complete, digitIndex, group := CompletesGroup(m - i - 2, digitIndex, groups, group);
      if !complete {
        front := FillStep(target, before, p + 1, front, digits, i + 2, m, groups, group, sep);
        continue;
      }
      front := FillGroup(target, before, p, front, digits, i + 2, m, groups, group0, sep);
      buffer := buffer[p := sep];
      p, m := p - 1, i + 1;
    }
    FillLast(target, buffer, p, front, digits, m, groups, group, sep);
    out := buffer[p := digits[0]];
  }

  // c digits of the group have been written; digitIndex counts on while a group repeats.
  ghost predicate InGroup(c: nat, digitIndex: nat, group: int)
  {
    forall rest :: IsRest(rest, digitIndex, group) ==> c < group && c == rest
  }

  // The position in the group by name, so that InGroup is unfolded only where a lemma asks for it.
  predicate IsRest(rest: nat, digitIndex: nat, group: int)
  {
    !Last(group) && rest == digitIndex % group
  }

  lemma GroupAdvance(c: nat, digitIndex: nat, group: int)
    requires 0 < group && InGroup(c, digitIndex, group)
    ensures !Last(group) ==> c < group && ((digitIndex + 1) % group == 0 <==> c + 1 == group)
    ensures Last(group) || c + 1 < group ==> InGroup(c + 1, digitIndex + 1, group)
    ensures !Last(group) && c + 1 == group ==> InGroup(0, digitIndex + 1, group)
  {
    if !Last(group) {
      var q := digitIndex / group;
      NatQuotient(digitIndex, group);
      assert IsRest(digitIndex % group, digitIndex, group);
      assert (q + 1) * group == q * group + group;
      if c + 1 < group { DivModUnique(digitIndex + 1, group, q, c + 1); } else {
        DivModUnique(digitIndex + 1, group, q + 1, 0);
      }
    }
  }
}
