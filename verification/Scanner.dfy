/** The two scanners of parse_format_string, for any handler whose on_error does not return. */
module Scanner {

  datatype Result<+T> = Ok(value: T) | Err

  // An error that was raised leaves behind the state that the events before it made.
  datatype Outcome<+T, +S> = Done(value: T) | Raised(state: S)

  // What the scanners ask of a handler: text, a replacement field that starts at a '{' and gives
  // the position after it, and the error for a '}' that is not doubled.
  datatype Handler<!S> = Handler(text: (S, string) -> S, field: (S, nat) -> Outcome<(S, nat), S>, unmatched: S -> S)

  // Empty text changes nothing, and a field takes up at least its opening brace.
  ghost predicate Lawful<S(!new)>(h: Handler<S>, n: nat)
  {
    && (forall s: S :: h.text(s, "") == s)
    && (forall s: S, i: nat :: i < n && h.field(s, i).Done? ==> i < h.field(s, i).value.1 <= n)
  }

  // The events of a format string in order, one character at a time: pending is the text not yet
  // handed over.
  function Scan<S(!new)>(h: Handler<S>, fmt: string, i: nat, pending: string, s: S): Outcome<S, S>
    requires Lawful(h, |fmt|) && i <= |fmt|
    decreases |fmt| - i
  {
    if i == |fmt| then Done(h.text(s, pending))
    else if fmt[i] == '{' then
      match h.field(h.text(s, pending), i)
      case Raised(s') => Raised(s')
      case Done((s', j)) => Scan(h, fmt, j, "", s')
    else if fmt[i] == '}' then
      if i + 1 < |fmt| && fmt[i + 1] == '}' then Scan(h, fmt, i + 2, "", h.text(s, pending + "}"))
      else Raised(h.unmatched(s))
    else Scan(h, fmt, i + 1, pending + [fmt[i]], s)
  }

  lemma {:induction false} ScanPlain<S(!new)>(h: Handler<S>, fmt: string, i: nat, j: nat, pending: string, s: S)
    requires Lawful(h, |fmt|) && i <= j <= |fmt|
    requires forall k :: i <= k < j ==> fmt[k] != '{' && fmt[k] != '}'
    ensures Scan(h, fmt, i, pending, s) == Scan(h, fmt, j, pending + fmt[i..j], s)
    decreases j - i
  {
    if i < j {
      ScanPlain(h, fmt, i + 1, j, pending + [fmt[i]], s);
      assert pending + [fmt[i]] + fmt[i + 1..j] == pending + fmt[i..j];
    } else {
      assert pending + fmt[i..j] == pending;
    }
  }

  // The simple loop for small strings.
  method ScanShort<S(!new)>(h: Handler<S>, fmt: string, s0: S) returns (r: Outcome<S, S>)
    requires Lawful(h, |fmt|)
    ensures r == Scan(h, fmt, 0, "", s0)
  {
    var begin, p, s := 0, 0, s0;
    assert fmt[0..0] == "";
    while p != |fmt|
      invariant 0 <= begin <= p <= |fmt|
      invariant Scan(h, fmt, 0, "", s0) == Scan(h, fmt, p, fmt[begin..p], s)
      decreases |fmt| - p
    {
      var c := fmt[p];
      p := p + 1;
      if c == '{' {
        s := h.text(s, fmt[begin..p - 1]);
        match h.field(s, p - 1) {
          case Raised(s') => return Raised(s');
          case Done((s', next)) =>
            s, begin, p := s', next, next;
        }
        assert fmt[begin..p] == "";
      } else if c == '}' {
        if p == |fmt| || fmt[p] != '}' { return Raised(h.unmatched(s)); }
        assert fmt[begin..p] == fmt[begin..p - 1] + "}";
        s := h.text(s, fmt[begin..p]);
        p := p + 1;
        begin := p;
        assert fmt[begin..p] == "";
      } else {
        assert fmt[begin..p] == fmt[begin..p - 1] + [c];
      }
    }
    assert fmt[begin..|fmt|] == fmt[begin..];
    return Done(h.text(s, fmt[begin..]));
  }

  method Find(fmt: string, first: nat, last: nat, value: char) returns (found: bool, out: nat)
    requires first <= last <= |fmt|
    ensures found ==> first <= out < last && fmt[out] == value && forall k :: first <= k < out ==> fmt[k] != value
    ensures !found ==> forall k :: first <= k < last ==> fmt[k] != value
  {
    out := first;
    while out != last
      invariant first <= out <= last && forall k :: first <= k < out ==> fmt[k] != value
    {
      if fmt[out] == value { return true, out; }
      out := out + 1;
    }
    found := false;
  }

  // Hands over the text between two fields, where a '}' must be doubled.
  method Write<S(!new)>(h: Handler<S>, fmt: string, first: nat, last: nat, s0: S) returns (r: Outcome<S, S>)
    requires Lawful(h, |fmt|) && first <= last <= |fmt| && (last < |fmt| ==> fmt[last] == '{')
    requires forall k :: first <= k < last ==> fmt[k] != '{'
    ensures Scan(h, fmt, first, "", s0) == if r.Raised? then r else Scan(h, fmt, last, "", r.value)
  {
    if first == last { return Done(s0); }
    var begin, s := first, s0;
    while true
      invariant first <= begin <= last && Scan(h, fmt, first, "", s0) == Scan(h, fmt, begin, "", s)
      decreases last - begin
    {
      var found, p := Find(fmt, begin, last, '}');
      if !found {
        ScanPlain(h, fmt, begin, last, "", s);
        assert "" + fmt[begin..last] == fmt[begin..last];
        return Done(h.text(s, fmt[begin..last]));
      }
      ScanPlain(h, fmt, begin, p, "", s);
      p := p + 1;
      if p == last || fmt[p] != '}' { return Raised(h.unmatched(s)); }
      assert "" + fmt[begin..p - 1] + "}" == fmt[begin..p];
      s := h.text(s, fmt[begin..p]);
      begin := p + 1;
    }
  }

  // Two searches per field, faster on big strings.
  method ScanLong<S(!new)>(h: Handler<S>, fmt: string, s0: S) returns (r: Outcome<S, S>)
    requires Lawful(h, |fmt|)
    ensures r == Scan(h, fmt, 0, "", s0)
  {
    var begin, s := 0, s0;
    while begin != |fmt|
      invariant 0 <= begin <= |fmt| && Scan(h, fmt, 0, "", s0) == Scan(h, fmt, begin, "", s)
      decreases |fmt| - begin
    {
      var p := begin;
      if fmt[begin] != '{' {
        var found;
        found, p := Find(fmt, begin + 1, |fmt|, '{');
        if !found {
          r := Write(h, fmt, begin, |fmt|, s);
          return;
        }
      }
      r := Write(h, fmt, begin, p, s);
      if r.Raised? { return; }
      match h.field(r.value, p) {
        case Raised(s') => return Raised(s');
        case Done((s', next)) =>
          s, begin := s', next;
      }
    }
    r := Done(s);
  }

  method ParseFormatString<S(!new)>(h: Handler<S>, fmt: string, s0: S) returns (r: Outcome<S, S>)
    requires Lawful(h, |fmt|)
    ensures r == Scan(h, fmt, 0, "", s0)
  {
    if |fmt| < 32 { r := ScanShort(h, fmt, s0); } else { r := ScanLong(h, fmt, s0); }
  }
}
