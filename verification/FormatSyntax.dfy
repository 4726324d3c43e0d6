/** The grammar of replacement fields: argument ids and format specifiers (format.h). */
module FormatSyntax {
  import opened Decimal
  import opened IntText
  import opened Scanner

  datatype Option<+T> = None | Some(value: T)

  datatype Align = NoAlign | Left | Right | Center | Numeric

  datatype Sign = NoSign | Plus | Minus | Space

  datatype Id = Auto | Index(index: int) | Name(name: string)

  // A width or precision: given in the format string or taken from an argument.
  datatype Amount = Absent | Literal(value: nat) | Dynamic(id: Id)

  // What parse_format_specs reports to its handler, in the order of the fields.
  datatype Syntax = Syntax(fill: Option<string>, align: Align, sign: Sign, hash: bool, zero: bool,
                           width: Amount, precision: Amount, typ: Option<char>)

  const NoSyntax: Syntax := Syntax(None, NoAlign, NoSign, false, false, Absent, Absent, None)

  predicate IsNameStart(c: char)
  {
    'a' <= c <= 'z' || 'A' <= c <= 'Z' || '_' == c
  }

  function NameEnd(fmt: string, i: nat): (j: nat)
    requires i <= |fmt|
    ensures i <= j <= |fmt|
    decreases |fmt| - i
  {
    if i < |fmt| && (IsNameStart(fmt[i]) || IsDigit(fmt[i])) then NameEnd(fmt, i + 1) else i
  }

  predicate At(fmt: string, i: nat, c: char)
  {
    i < |fmt| && fmt[i] == c
  }

  function ParseArgId(fmt: string, i: nat): (r: Result<(Id, nat)>)
    requires i < |fmt|
    ensures r.Ok? ==> i <= r.value.1 <= |fmt|
  {
    var c := fmt[i];
    if c == '}' || c == ':' then Ok((Auto, i))
    else if IsDigit(c) then
      var parsed := if c != '0' then ReadInt(fmt, i) else Parsed(0, i + 1);
      if parsed.TooBig? then Err
      else if At(fmt, parsed.end, '}') || At(fmt, parsed.end, ':') then Ok((Index(parsed.value), parsed.end))
      else Err
    else if !IsNameStart(c) then Err
    else var j := NameEnd(fmt, i + 1); Ok((Name(fmt[i..j]), j))
  }

  // The number of bytes of the code point that starts with c; at least one.
  function CodePointLength(c: char): (n: nat)
    ensures 1 <= n <= 4
  {
    var top := c as int % 256 / 8;
    if top < 16 then 1 else if top < 24 then 1 else if top < 28 then 2 else if top < 30 then 3
    else if top == 30 then 4 else 1
  }

  function AlignOf(c: char): Align
  {
    if c == '<' then Left else if c == '>' then Right else if c == '^' then Center else NoAlign
  }

  // Fill and alignment: the fill is a whole code point in front of the alignment.
  function ParseAlign(fmt: string, i: nat): (r: Result<(Option<string>, Align, nat)>)
    requires i < |fmt|
    ensures r.Ok? ==> i <= r.value.2 <= |fmt|
  {
    var next := i + CodePointLength(fmt[i]);
    var p := if next >= |fmt| then i else next;
    if p != i && AlignOf(fmt[p]) != NoAlign then
      if fmt[i] == '{' then Err else Ok((Some(fmt[i..p]), AlignOf(fmt[p]), p + 1))
    else if AlignOf(fmt[i]) != NoAlign then Ok((None, AlignOf(fmt[i]), i + 1))
    else Ok((None, NoAlign, i))
  }

  function SignOf(c: char): Sign
  {
    if c == '+' then Plus else if c == '-' then Minus else if c == ' ' then Space else NoSign
  }

  // The rest of a "{id}" amount, after the opening brace.
  function ParseDynamic(fmt: string, i: nat): (r: Result<(Amount, nat)>)
    requires i <= |fmt|
    ensures r.Ok? ==> i < r.value.1 <= |fmt|
  {
    if i == |fmt| then Err
    else match ParseArgId(fmt, i)
      case Err => Err
      case Ok((id, j)) => if At(fmt, j, '}') then Ok((Dynamic(id), j + 1)) else Err
  }

  function ParseWidth(fmt: string, i: nat): (r: Result<(Amount, nat)>)
    requires i < |fmt|
    ensures r.Ok? ==> i <= r.value.1 <= |fmt|
  {
    if IsDigit(fmt[i]) then
      var parsed := ReadInt(fmt, i);
      if parsed.TooBig? then Err else Ok((Literal(parsed.value), parsed.end))
    else if fmt[i] == '{' then ParseDynamic(fmt, i + 1)
    else Ok((Absent, i))
  }

  function ParsePrecision(fmt: string, i: nat): (r: Result<(Amount, nat)>)
    requires i < |fmt|
    ensures r.Ok? ==> i < r.value.1 <= |fmt| && r.value.0 != Absent
  {
    var begin := i + 1;
    if begin == |fmt| then Err
    else if IsDigit(fmt[begin]) then
      var parsed := ReadInt(fmt, begin);
      if parsed.TooBig? then Err else Ok((Literal(parsed.value), parsed.end))
    else if fmt[begin] == '{' then ParseDynamic(fmt, begin + 1)
    else Err
  }

  // The stages of parse_format_specs; each returns early at the end of the string.
  function ParseSpecs(fmt: string, i: nat): (r: Result<(Syntax, nat)>)
    requires i <= |fmt|
    ensures r.Ok? ==> i <= r.value.1 <= |fmt| && r.value.0.align != Numeric
  {
    if i == |fmt| then Ok((NoSyntax, i))
    else match ParseAlign(fmt, i)
      case Err => Err
      case Ok((fill, align, j)) => ParseFlags(fmt, j, NoSyntax.(fill := fill, align := align))
  }

  function ParseFlags(fmt: string, i: nat, s: Syntax): (r: Result<(Syntax, nat)>)
    requires i <= |fmt|
    ensures r.Ok? ==> i <= r.value.1 <= |fmt| && r.value.0.align == s.align
  {
    if i == |fmt| then Ok((s, i)) else
    var s1 := s.(sign := SignOf(fmt[i]));
    var i1 := if s1.sign != NoSign then i + 1 else i;
    if i1 == |fmt| then Ok((s1, i1)) else
    var s2 := s1.(hash := fmt[i1] == '#');
    var i2 := if s2.hash then i1 + 1 else i1;
    if i2 == |fmt| then Ok((s2, i2)) else
    var s3 := s2.(zero := fmt[i2] == '0');
    var i3 := if s3.zero then i2 + 1 else i2;
    if i3 == |fmt| then Ok((s3, i3)) else
    ParseAmounts(fmt, i3, s3)
  }

  function ParseAmounts(fmt: string, i: nat, s: Syntax): (r: Result<(Syntax, nat)>)
    requires i < |fmt|
    ensures r.Ok? ==> i <= r.value.1 <= |fmt| && r.value.0.align == s.align
  {
    match ParseWidth(fmt, i)
    case Err => Err
    case Ok((width, j)) =>
      var s1 := s.(width := width);
      if j == |fmt| then Ok((s1, j))
      else if fmt[j] == '.' then
        match ParsePrecision(fmt, j)
        case Err => Err
        case Ok((precision, k)) => ParseType(fmt, k, s1.(precision := precision))
      else ParseType(fmt, j, s1)
  }

  function ParseType(fmt: string, i: nat, s: Syntax): (r: Result<(Syntax, nat)>)
    requires i <= |fmt|
    ensures r.Ok? ==> i <= r.value.1 <= |fmt| && r.value.0.align == s.align
  {
    if i < |fmt| && fmt[i] != '}' then Ok((s.(typ := Some(fmt[i])), i + 1)) else Ok((s, i))
  }

  predicate IsAsciiLetter(c: char)
  {
    'a' <= c <= 'z' || 'A' <= c <= 'Z'
  }

  // The shortcut for a single letter before the closing brace agrees with the full parser.
  lemma SingleLetter(fmt: string, i: nat)
    requires i + 1 < |fmt| && fmt[i + 1] == '}' && IsAsciiLetter(fmt[i])
    ensures ParseSpecs(fmt, i) == Ok((NoSyntax.(typ := Some(fmt[i])), i + 1))
  {
    assert CodePointLength(fmt[i]) == 1;
  }
}
