/** Formatting directly from a format string, and compiling it to parts that are run later. */
module Compile {
  import opened IntText
  import opened Scanner
  import opened FormatSyntax

  datatype ArgType = IntType | UintType | LongLongType | UlongLongType | Int128Type | Uint128Type | BoolType | CharType
                   | FloatType | DoubleType | LongDoubleType | CstringType | StringType | PointerType

  // An argument of a built-in type; num is the value of an integer one, payload anything else.
  datatype Arg = NoArg | Arg(ty: ArgType, num: int, payload: string)

  datatype ArgRef = NoRef | IndexRef(index: int) | NameRef(name: string)

  datatype Specs = Specs(width: int, precision: int, typ: Option<char>, align: Align, sign: Sign, alt: bool, fill: string)

  // Specifiers whose width and precision may refer to arguments.
  datatype DynamicSpecs = DynamicSpecs(specs: Specs, width: ArgRef, precision: ArgRef)

  // The arguments, and how an argument is written without and with specifiers; either may raise.
  datatype Env = Env(args: seq<Arg>, names: map<string, int>, plain: Arg -> Result<string>,
                     styled: (Arg, Specs) -> Result<string>)

  predicate IsIntegral(ty: ArgType)
  {
    ty.IntType? || ty.UintType? || ty.LongLongType? || ty.UlongLongType? || ty.Int128Type? || ty.Uint128Type? ||
    ty.BoolType? || ty.CharType?
  }

  predicate IsArithmetic(ty: ArgType)
  {
    IsIntegral(ty) || ty.FloatType? || ty.DoubleType? || ty.LongDoubleType?
  }

  // check_sign raises no error.
  predicate SignAllowed(ty: ArgType)
  {
    IsArithmetic(ty) && (IsIntegral(ty) ==> ty.IntType? || ty.LongLongType? || ty.CharType?)
  }

  predicate PrecisionAllowed(ty: ArgType)
  {
    !IsIntegral(ty) && !ty.PointerType?
  }

  function Lookup(env: Env, ref: ArgRef): Arg
  {
    match ref
    case NoRef => NoArg
    case IndexRef(i) => if 0 <= i < |env.args| then env.args[i] else NoArg
    case NameRef(name) =>
      if name in env.names && 0 <= env.names[name] < |env.args| then env.args[env.names[name]] else NoArg
  }

  // get_dynamic_spec: the value of an integer argument, which goes through a 64-bit word.
  function DynamicValue(arg: Arg): (r: Result<int>)
    ensures r.Ok? ==> r.value >= 0
  {
    if arg.NoArg? || !IsIntegral(arg.ty) || arg.ty.BoolType? || arg.ty.CharType? then Err
    else if arg.num < 0 then Err
    else var value := arg.num % 0x1_0000_0000_0000_0000; if value > INT_MAX then Err else Ok(value)
  }

  // The next argument id; negative after an explicit one.
  function NextArgId(next: int): Result<(ArgRef, int)>
  {
    if next >= 0 then Ok((IndexRef(next), next + 1)) else Err
  }

  function ResolveId(id: Id, next: int): Result<(ArgRef, int)>
  {
    match id
    case Auto => NextArgId(next)
    case Index(i) => if next > 0 then Err else Ok((IndexRef(i), -1))
    case Name(name) => Ok((NameRef(name), next))
  }

  function LiteralOr(amount: Amount, default: int): int
  {
    if amount.Literal? then amount.value else default
  }

  // specs_setter: everything but amounts taken from arguments.
  function SetSpecs(s: Syntax): Specs
  {
    var fill := if s.fill.Some? then s.fill.value else " ";
    Specs(LiteralOr(s.width, 0), LiteralOr(s.precision, -1), s.typ, if s.zero then Numeric else s.align, s.sign, s.hash,
          if s.zero then "0" + (if fill == [] then [] else fill[1..]) else fill)
  }

  // dynamic_specs_handler: an amount from an argument becomes a reference.
  function AmountRef(amount: Amount, next: int): Result<(ArgRef, int)>
  {
    if amount.Dynamic? then ResolveId(amount.id, next) else Ok((NoRef, next))
  }

  function ApplyDynamic(s: Syntax, next: int): Result<(DynamicSpecs, int)>
  {
    match AmountRef(s.width, next)
    case Err => Err
    case Ok((width, next1)) =>
      match AmountRef(s.precision, next1)
      case Err => Err
      case Ok((precision, next2)) => Ok((DynamicSpecs(SetSpecs(s), width, precision), next2))
  }

  // specs_handler: an amount from an argument is read at once.
  function AmountNow(amount: Amount, default: int, next: int, env: Env): Result<(int, int)>
  {
    if !amount.Dynamic? then Ok((LiteralOr(amount, default), next))
    else match ResolveId(amount.id, next)
      case Err => Err
      case Ok((ref, next1)) =>
        var arg := Lookup(env, ref);
        if arg.NoArg? then Err else
        match DynamicValue(arg)
        case Err => Err
        case Ok(value) => Ok((value, next1))
  }

  // specs_checker over specs_handler: each specifier is checked as it is parsed.
  function ApplyChecked(s: Syntax, ty: ArgType, next: int, env: Env): Result<(Specs, int)>
  {
    if s.align == Numeric && !IsArithmetic(ty) then Err
    else if s.sign != NoSign && !SignAllowed(ty) then Err
    else if s.hash && !IsArithmetic(ty) then Err
    else if s.zero && !IsArithmetic(ty) then Err
    else match AmountNow(s.width, 0, next, env)
      case Err => Err
      case Ok((width, next1)) =>
        match AmountNow(s.precision, -1, next1, env)
        case Err => Err
        case Ok((precision, next2)) =>
          if s.precision != Absent && !PrecisionAllowed(ty) then Err
          else Ok((SetSpecs(s).(width := width, precision := precision), next2))
  }

  // handle_dynamic_spec
  function HandleDynamic(value: int, ref: ArgRef, env: Env): Result<int>
  {
    if ref.NoRef? then Ok(value) else DynamicValue(Lookup(env, ref))
  }

  // What cf::vformat_to does with a replacement before it formats the argument.
  function ResolveSpecs(d: DynamicSpecs, ty: ArgType, env: Env): Result<Specs>
  {
    match HandleDynamic(d.specs.width, d.width, env)
    case Err => Err
    case Ok(width) =>
      match HandleDynamic(d.specs.precision, d.precision, env)
      case Err => Err
      case Ok(precision) =>
        var specs := d.specs.(width := width, precision := precision);
        if specs.align == Numeric && !IsArithmetic(ty) then Err
        else if specs.sign != NoSign && !SignAllowed(ty) then Err
        else if specs.alt && !IsArithmetic(ty) then Err
        else if specs.precision >= 0 && !PrecisionAllowed(ty) then Err
        else Ok(specs)
  }

  // An amount read at once is the amount read through the reference kept for it.
  lemma AmountAgrees(amount: Amount, default: int, next: int, env: Env)
    ensures match AmountRef(amount, next)
            case Err => AmountNow(amount, default, next, env).Err?
            case Ok((ref, next')) =>
              match HandleDynamic(LiteralOr(amount, default), ref, env)
              case Err => AmountNow(amount, default, next, env).Err?
              case Ok(value) => AmountNow(amount, default, next, env) == Ok((value, next'))
    ensures amount == Absent ==> AmountNow(amount, default, next, env) == Ok((default, next))
    ensures amount != Absent && AmountNow(amount, default, next, env).Ok? ==>
              AmountNow(amount, default, next, env).value.0 >= 0
  {
  }

  // Checking while parsing and checking before formatting come to the same.
  lemma SpecsAgree(s: Syntax, ty: ArgType, next: int, env: Env)
    ensures ApplyDynamic(s, next).Err? ==> ApplyChecked(s, ty, next, env).Err?
    ensures ApplyDynamic(s, next).Ok? ==>
      var (d, next1) := ApplyDynamic(s, next).value;
      match ResolveSpecs(d, ty, env)
      case Err => ApplyChecked(s, ty, next, env).Err?
      case Ok(specs) => ApplyChecked(s, ty, next, env) == Ok((specs, next1))
  {
    AmountAgrees(s.width, 0, next, env);
    if AmountRef(s.width, next).Ok? { AmountAgrees(s.precision, -1, AmountRef(s.width, next).value.1, env); }
  }

  // ----- Direct formatting: format_handler -----

  datatype DirectState = DirectState(out: string, next: int)

  function Appended(out: string, text: Result<string>): Result<string>
  {
    match text
    case Err => Err
    case Ok(text) => Ok(out + text)
  }

  // get_arg: a missing argument is an error.
  function Plainly(env: Env, ref: ArgRef, s: DirectState): Result<DirectState>
  {
    var arg := Lookup(env, ref);
    if arg.NoArg? then Err else
    match Appended(s.out, env.plain(arg))
    case Err => Err
    case Ok(out) => Ok(s.(out := out))
  }

  // on_format_specs without its shortcut.
  function DirectParsed(fmt: string, env: Env, arg: Arg, begin: nat, s: DirectState): (r: Result<(DirectState, nat)>)
    requires begin <= |fmt| && arg.Arg?
    ensures r.Ok? ==> begin <= r.value.1 < |fmt|
  {
    match ParseSpecs(fmt, begin)
    case Err => Err
    case Ok((syntax, j)) =>
      match ApplyChecked(syntax, arg.ty, s.next, env)
      case Err => Err
      case Ok((specs, next)) =>
        if !At(fmt, j, '}') then Err else
        match Appended(s.out, env.styled(arg, specs))
        case Err => Err
        case Ok(out) => Ok((DirectState(out, next), j))
  }

  // on_format_specs, with its shortcut for a single letter.
  function DirectSpecs(fmt: string, env: Env, ref: ArgRef, begin: nat, s: DirectState): (r: Result<(DirectState, nat)>)
    requires begin <= |fmt|
    ensures r.Ok? ==> begin <= r.value.1 < |fmt|
  {
    var arg := Lookup(env, ref);
    if arg.NoArg? then Err
    else if begin + 1 < |fmt| && fmt[begin + 1] == '}' && IsAsciiLetter(fmt[begin]) then
      match Appended(s.out, env.styled(arg, SetSpecs(NoSyntax).(typ := Some(fmt[begin]))))
      case Err => Err
      case Ok(out) => Ok((s.(out := out), begin + 1))
    else DirectParsed(fmt, env, arg, begin, s)
  }

  // The shortcut does what parsing would do.
  lemma ShortcutAgrees(fmt: string, env: Env, ref: ArgRef, begin: nat, s: DirectState)
    requires begin <= |fmt| && Lookup(env, ref).Arg?
    ensures DirectSpecs(fmt, env, ref, begin, s) == DirectParsed(fmt, env, Lookup(env, ref), begin, s)
  {
    if begin + 1 < |fmt| && fmt[begin + 1] == '}' && IsAsciiLetter(fmt[begin]) { SingleLetter(fmt, begin); }
  }

  // What follows an argument id; on_format_specs only returns at a closing brace.
  function DirectArg(fmt: string, env: Env, ref: ArgRef, j: nat, s: DirectState): (r: Result<(DirectState, nat)>)
    ensures r.Ok? ==> j < r.value.1 <= |fmt|
  {
    if ref.NameRef? && ref.name !in env.names then Err
    else if At(fmt, j, '}') then
      match Plainly(env, ref, s)
      case Err => Err
      case Ok(s') => Ok((s', j + 1))
    else if At(fmt, j, ':') then
      match DirectSpecs(fmt, env, ref, j + 1, s)
      case Err => Err
      case Ok((s', k)) => Ok((s', k + 1))
    else Err
  }

  // A field that raises an error leaves the state as it was.
  function Leaving<S>(s: S, r: Result<(S, nat)>): Outcome<(S, nat), S>
  {
    match r
    case Err => Raised(s)
    case Ok(step) => Done(step)
  }

  // parse_replacement_field for format_handler.
  function DirectField(fmt: string, env: Env, s: DirectState, i: nat): (r: Result<(DirectState, nat)>)
    ensures i < |fmt| && r.Ok? ==> i < r.value.1 <= |fmt|
  {
    var begin := i + 1;
    if begin >= |fmt| then Err
    else if fmt[begin] == '}' then
      match NextArgId(s.next)
      case Err => Err
      case Ok((ref, next)) =>
        match Plainly(env, ref, s.(next := next))
        case Err => Err
        case Ok(s') => Ok((s', begin + 1))
    else if fmt[begin] == '{' then Ok((s.(out := s.out + fmt[begin..begin + 1]), begin + 1))
    else match ParseArgId(fmt, begin)
      case Err => Err
      case Ok((id, j)) =>
        match ResolveId(id, s.next)
        case Err => Err
        case Ok((ref, next)) => DirectArg(fmt, env, ref, j, s.(next := next))
  }

  function DirectHandler(fmt: string, env: Env): Handler<DirectState>
  {
    Handler((s: DirectState, text: string) => s.(out := s.out + text),
            (s: DirectState, i: nat) => Leaving(s, DirectField(fmt, env, s, i)), (s: DirectState) => s)
  }

  lemma DirectLawful(fmt: string, env: Env)
    ensures Lawful(DirectHandler(fmt, env), |fmt|)
  {
    var h := DirectHandler(fmt, env);
    forall s: DirectState ensures h.text(s, "") == s { assert s.out + "" == s.out; }
  }

  // ----- Compiling to parts: format_string_compiler -----

  datatype Part = Text(text: string) | Field(ref: ArgRef) | Replacement(ref: ArgRef, specs: DynamicSpecs)

  datatype CompileState = CompileState(parts: seq<Part>, next: int)

  function Push(s: CompileState, part: Part): CompileState
  {
    s.(parts := s.parts + [part])
  }

  function PushText(s: CompileState, text: string): CompileState
  {
    if text == "" then s else Push(s, Text(text))
  }

  function CompileSpecs(fmt: string, ref: ArgRef, begin: nat, s: CompileState): (r: Result<(CompileState, nat)>)
    requires begin <= |fmt|
    ensures r.Ok? ==> begin <= r.value.1 < |fmt|
  {
    match ParseSpecs(fmt, begin)
    case Err => Err
    case Ok((syntax, j)) =>
      match ApplyDynamic(syntax, s.next)
      case Err => Err
      case Ok((specs, next)) =>
        if !At(fmt, j, '}') then Err else Ok((Push(s.(next := next), Replacement(ref, specs)), j))
  }

  // What follows an argument id; on_format_specs only returns at a closing brace.
  function CompileArg(fmt: string, ref: ArgRef, j: nat, s: CompileState): (r: Result<(CompileState, nat)>)
    ensures r.Ok? ==> j < r.value.1 <= |fmt|
  {
    if At(fmt, j, '}') then Ok((Push(s, Field(ref)), j + 1))
    else if At(fmt, j, ':') then
      match CompileSpecs(fmt, ref, j + 1, s)
      case Err => Err
      case Ok((s', k)) => Ok((s', k + 1))
    else Err
  }

  // parse_replacement_field for format_string_compiler.
  function CompileField(fmt: string, s: CompileState, i: nat): (r: Result<(CompileState, nat)>)
    ensures i < |fmt| && r.Ok? ==> i < r.value.1 <= |fmt|
  {
    var begin := i + 1;
    if begin >= |fmt| then Err
    else if fmt[begin] == '}' then
      match NextArgId(s.next)
      case Err => Err
      case Ok((ref, next)) => Ok((Push(s.(next := next), Field(ref)), begin + 1))
    else if fmt[begin] == '{' then Ok((PushText(s, fmt[begin..begin + 1]), begin + 1))
    else match ParseArgId(fmt, begin)
      case Err => Err
      case Ok((id, j)) =>
        match ResolveId(id, s.next)
        case Err => Err
        case Ok((ref, next)) => CompileArg(fmt, ref, j, s.(next := next))
  }

  function CompileHandler(fmt: string): Handler<CompileState>
  {
    Handler((s: CompileState, text: string) => PushText(s, text),
            (s: CompileState, i: nat) => Leaving(s, CompileField(fmt, s, i)), (s: CompileState) => s)
  }

  lemma CompileLawful(fmt: string)
    ensures Lawful(CompileHandler(fmt), |fmt|)
  {
  }

  // ----- Running the parts: cf::vformat_to -----

  function RunPart(part: Part, env: Env, out: string): Result<string>
  {
    match part
    case Text(text) => Ok(out + text)
    case Field(ref) => Appended(out, env.plain(Lookup(env, ref)))
    case Replacement(ref, d) =>
      var arg := Lookup(env, ref);
      if arg.NoArg? then Err else
      match ResolveSpecs(d, arg.ty, env)
      case Err => Err
      case Ok(specs) => Appended(out, env.styled(arg, specs))
  }

  // The output, or the output up to the part that raises an error.
  function Run(parts: seq<Part>, env: Env): Outcome<string, string>
  {
    if parts == [] then Done("") else
    match Run(parts[..|parts| - 1], env)
    case Raised(out) => Raised(out)
    case Done(out) => RunLast(parts[|parts| - 1], env, out)
  }

  function RunLast(part: Part, env: Env, out: string): Outcome<string, string>
  {
    match RunPart(part, env, out)
    case Err => Raised(out)
    case Ok(out') => Done(out')
  }

  method RunParts(parts: seq<Part>, env: Env) returns (r: Outcome<string, string>)
    ensures r == Run(parts, env)
  {
    var out := "";
    for i := 0 to |parts|
      invariant Run(parts[..i], env) == Done(out)
    {
      assert parts[..i + 1][..i] == parts[..i];
      match RunPart(parts[i], env, out) {
        case Err =>
          RunStuck(parts[..i + 1], parts[i + 1..], env);
          assert parts[..i + 1] + parts[i + 1..] == parts;
          return Raised(out);
        case Ok(out') =>
          out := out';
      }
    }
    assert parts[..|parts|] == parts;
    r := Done(out);
  }

  lemma {:induction false} RunStuck(parts: seq<Part>, more: seq<Part>, env: Env)
    requires Run(parts, env).Raised?
    ensures Run(parts + more, env) == Run(parts, env)
    decreases |more|
  {
    if more == [] {
      assert parts + more == parts;
    } else {
      RunStuck(parts, more[..|more| - 1], env);
      assert (parts + more)[..|parts + more| - 1] == parts + more[..|more| - 1];
    }
  }

  // ----- Both ways come to the same -----

  // The output, or the output before the error.
  function FormatDirect(fmt: string, env: Env): Outcome<string, string>
  {
    DirectLawful(fmt, env);
    match Scan(DirectHandler(fmt, env), fmt, 0, "", DirectState("", 0))
    case Raised(s) => Raised(s.out)
    case Done(s) => Done(s.out)
  }

  function CompileParts(fmt: string): Result<seq<Part>>
  {
    CompileLawful(fmt);
    match Scan(CompileHandler(fmt), fmt, 0, "", CompileState([], 0))
    case Raised(_) => Err
    case Done(s) => Ok(s.parts)
  }

  method FormatTo(fmt: string, env: Env) returns (r: Outcome<string, string>)
    ensures r == FormatDirect(fmt, env)
  {
    DirectLawful(fmt, env);
    var s := ParseFormatString(DirectHandler(fmt, env), fmt, DirectState("", 0));
    match s {
      case Raised(s') => return Raised(s'.out);
      case Done(s') => return Done(s'.out);
    }
  }

  method CompileFormatString(fmt: string) returns (r: Result<seq<Part>>)
    ensures r == CompileParts(fmt)
  {
    CompileLawful(fmt);
    var s := ParseFormatString(CompileHandler(fmt), fmt, CompileState([], 0));
    match s {
      case Raised(_) => return Err;
      case Done(s') => return Ok(s'.parts);
    }
  }

  // The argument that a part writes exists.
  predicate Exists(part: Part, env: Env)
  {
    part.Text? || !Lookup(env, part.ref).NoArg?
  }

  predicate AllExist(parts: seq<Part>, env: Env)
  {
    forall part <- parts :: Exists(part, env)
  }

  // The parts raise an error after this output, unless the argument of one is missing.
  predicate Doomed(parts: seq<Part>, env: Env, out: string)
  {
    AllExist(parts, env) ==> Run(parts, env) == Raised(out)
  }

  // The parts so far, run on their own, give the output so far.
  predicate Related(sd: DirectState, sc: CompileState, env: Env)
  {
    sd.next == sc.next && AllExist(sc.parts, env) && Run(sc.parts, env) == Done(sd.out)
  }

  lemma DoomedStays(parts: seq<Part>, longer: seq<Part>, env: Env, out: string)
    requires Doomed(parts, env, out) && parts <= longer
    ensures Doomed(longer, env, out)
  {
    assert longer == parts + longer[|parts|..];
    if AllExist(longer, env) {
      forall part <- parts ensures Exists(part, env) { assert part in longer; }
      RunStuck(parts, longer[|parts|..], env);
    }
  }

  // One more part: it fails, or both outputs grow alike.
  lemma PushRun(parts: seq<Part>, part: Part, env: Env)
    requires AllExist(parts, env) && Run(parts, env).Done?
    ensures Run(parts + [part], env) == RunLast(part, env, Run(parts, env).value)
    ensures AllExist(parts + [part], env) <==> Exists(part, env)
  {
    assert (parts + [part])[..|parts|] == parts;
    if Exists(part, env) {
    } else {
      assert (parts + [part])[|parts|] == part;
    }
  }

  lemma TextKeepsRelated(sd: DirectState, sc: CompileState, text: string, env: Env)
    requires Related(sd, sc, env)
    ensures Related(sd.(out := sd.out + text), PushText(sc, text), env) && sc.parts <= PushText(sc, text).parts
  {
    if text == "" {
      assert sd.out + "" == sd.out;
    } else {
      PushRun(sc.parts, Text(text), env);
    }
  }

  lemma SpecsSimulate(fmt: string, env: Env, ref: ArgRef, begin: nat, sd: DirectState, sc: CompileState)
    requires Related(sd, sc, env) && begin <= |fmt|
    ensures var rd, rc := DirectSpecs(fmt, env, ref, begin, sd), CompileSpecs(fmt, ref, begin, sc); Simulates(sd.out, rd, rc, sc, env)
  {
    var arg := Lookup(env, ref);
    if arg.Arg? { ShortcutAgrees(fmt, env, ref, begin, sd); }
    if ParseSpecs(fmt, begin).Ok? {
      var (syntax, j) := ParseSpecs(fmt, begin).value;
      if arg.Arg? { SpecsAgree(syntax, arg.ty, sc.next, env); }
      if ApplyDynamic(syntax, sc.next).Ok? {
        var (d, next) := ApplyDynamic(syntax, sc.next).value;
        PushReplacement(env, ref, d, next, sd, sc);
      }
    }
  }

  lemma PushReplacement(env: Env, ref: ArgRef, d: DynamicSpecs, next: int, sd: DirectState, sc: CompileState)
    requires Related(sd, sc, env)
    ensures var sc', arg := Push(sc.(next := next), Replacement(ref, d)), Lookup(env, ref);
      && sc.parts <= sc'.parts
      && if arg.NoArg? then Doomed(sc'.parts, env, sd.out) else
         match ResolveSpecs(d, arg.ty, env)
         case Err => Doomed(sc'.parts, env, sd.out)
         case Ok(specs) =>
           match Appended(sd.out, env.styled(arg, specs))
           case Err => Doomed(sc'.parts, env, sd.out)
           case Ok(out) => Related(DirectState(out, next), sc', env)
  {
    PushRun(sc.parts, Replacement(ref, d), env);
  }

  // A step of compiling foretells the step of direct formatting.
  predicate Simulates(out: string, rd: Result<(DirectState, nat)>, rc: Result<(CompileState, nat)>, sc: CompileState,
                      env: Env)
  {
    match rc
    case Err => rd.Err?
    case Ok((sc', j)) =>
      sc.parts <= sc'.parts &&
      match rd
      case Err => Doomed(sc'.parts, env, out)
      case Ok((sd', j')) => j' == j && Related(sd', sc', env)
  }

  lemma ArgSimulates(fmt: string, env: Env, ref: ArgRef, j: nat, sd: DirectState, sc: CompileState)
    requires Related(sd, sc, env)
    ensures Simulates(sd.out, DirectArg(fmt, env, ref, j, sd), CompileArg(fmt, ref, j, sc), sc, env)
  {
    if At(fmt, j, '}') {
      PushRun(sc.parts, Field(ref), env);
    } else if At(fmt, j, ':') {
      SpecsSimulate(fmt, env, ref, j + 1, sd, sc);
    }
  }

  lemma FieldSimulates(fmt: string, env: Env, i: nat, sd: DirectState, sc: CompileState)
    requires Related(sd, sc, env) && i < |fmt|
    ensures Simulates(sd.out, DirectField(fmt, env, sd, i), CompileField(fmt, sc, i), sc, env)
  {
    var begin := i + 1;
    if begin >= |fmt| {
    } else if fmt[begin] == '}' {
      if sc.next >= 0 { ArgSimulates(fmt, env, IndexRef(sc.next), begin, sd.(next := sc.next + 1), sc.(next := sc.next + 1)); }
    } else if fmt[begin] == '{' {
      TextKeepsRelated(sd, sc, fmt[begin..begin + 1], env);
    } else if ParseArgId(fmt, begin).Ok? {
      var (id, j) := ParseArgId(fmt, begin).value;
      if ResolveId(id, sc.next).Ok? {
        var (ref, next) := ResolveId(id, sc.next).value;
        ArgSimulates(fmt, env, ref, j, sd.(next := next), sc.(next := next));
      }
    }
  }

  // Compiling only ever adds parts.
  lemma {:induction false} ScanExtends(fmt: string, i: nat, pending: string, s: CompileState)
    requires Lawful(CompileHandler(fmt), |fmt|) && i <= |fmt|
    ensures var r := Scan(CompileHandler(fmt), fmt, i, pending, s); r.Done? ==> s.parts <= r.value.parts
    decreases |fmt| - i
  {
    var h := CompileHandler(fmt);
    if i == |fmt| {
    } else if fmt[i] == '{' {
      match h.field(h.text(s, pending), i) {
        case Raised(_) =>
        case Done((s', j)) =>
          ScanExtends(fmt, j, "", s');
      }
    } else if fmt[i] == '}' {
      if i + 1 < |fmt| && fmt[i + 1] == '}' { ScanExtends(fmt, i + 2, "", h.text(s, pending + "}")); }
    } else {
      ScanExtends(fmt, i + 1, pending + [fmt[i]], s);
    }
  }

  // What the rest of the format string does, from related states.
  lemma {:induction false} ScanSimulates(fmt: string, env: Env, i: nat, pending: string, sd: DirectState, sc: CompileState)
    requires Lawful(DirectHandler(fmt, env), |fmt|) && Lawful(CompileHandler(fmt), |fmt|)
    requires Related(sd, sc, env) && i <= |fmt|
    ensures Foretold(Scan(DirectHandler(fmt, env), fmt, i, pending, sd), Scan(CompileHandler(fmt), fmt, i, pending, sc), env)
    decreases |fmt| - i
  {
    var hd, hc := DirectHandler(fmt, env), CompileHandler(fmt);
    if i == |fmt| {
      TextKeepsRelated(sd, sc, pending, env);
    } else if fmt[i] == '{' {
      TextKeepsRelated(sd, sc, pending, env);
      var sd1, sc1 := hd.text(sd, pending), hc.text(sc, pending);
      FieldSimulates(fmt, env, i, sd1, sc1);
      match hc.field(sc1, i) {
        case Raised(_) =>
        case Done((sc2, j)) =>
          match hd.field(sd1, i) {
            case Raised(_) =>
              ScanExtends(fmt, j, "", sc2);
              var r := Scan(hc, fmt, j, "", sc2);
              if r.Done? { DoomedStays(sc2.parts, r.value.parts, env, sd1.out); }
            case Done((sd2, _)) =>
              ScanSimulates(fmt, env, j, "", sd2, sc2);
          }
      }
    } else if fmt[i] == '}' {
      if i + 1 < |fmt| && fmt[i + 1] == '}' {
        TextKeepsRelated(sd, sc, pending + "}", env);
        ScanSimulates(fmt, env, i + 2, "", hd.text(sd, pending + "}"), hc.text(sc, pending + "}"));
      }
    } else {
      ScanSimulates(fmt, env, i + 1, pending + [fmt[i]], sd, sc);
    }
  }

  predicate Foretold(rd: Outcome<DirectState, DirectState>, rc: Outcome<CompileState, CompileState>, env: Env)
  {
    match rc
    case Raised(_) => rd.Raised?
    case Done(sc) =>
      match rd
      case Raised(sd) => Doomed(sc.parts, env, sd.out)
      case Done(sd) => Related(sd, sc, env)
  }

  // Compiling preserves meaning: it fails only where direct formatting fails, and where it succeeds
  // the parts write what direct formatting writes, up to the same error if there is one.
  lemma CompilingPreservesMeaning(fmt: string, env: Env)
    ensures match CompileParts(fmt)
            case Err => FormatDirect(fmt, env).Raised?
            case Ok(parts) => if AllExist(parts, env) then FormatDirect(fmt, env) == Run(parts, env)
                              else FormatDirect(fmt, env).Raised?
  {
    DirectLawful(fmt, env);
    CompileLawful(fmt);
    ScanSimulates(fmt, env, 0, "", DirectState("", 0), CompileState([], 0));
  }
}
