/** Output through a 256-character buffer, truncated to a limit or only counted (core.h). */
module Buffers {
  import opened Arith

  const BUFFER_SIZE: nat := 256

  function Flatten(pieces: seq<string>): string
  {
    if pieces == [] then [] else Flatten(pieces[..|pieces| - 1]) + pieces[|pieces| - 1]
  }

  // The first n characters of an output.
  function Truncated(s: string, n: nat): string
  {
    s[..Min(n, |s|)]
  }

  // Writing s up to begin, and then on to end.
  lemma WrittenOn(before: string, s: string, begin: nat, end: nat)
    requires begin <= end <= |s|
    ensures before + s[..begin] + s[begin..end] == before + s[..end]
  {
    assert s[..end] == s[..begin] + s[begin..end];
  }

  /** fixed_buffer_traits: hands out what is left of the limit and counts everything. */
  class FixedBufferTraits {
    var count: nat
    const limit: nat

    constructor (limit: nat)
      ensures this.limit == limit && count == 0
    {
      this.limit, count := limit, 0;
    }

    method Limit(size: nat) returns (r: nat)
      modifies this
      ensures count == old(count) + size
      ensures r == Min(limit, count) - Min(limit, old(count))
    {
      var n := if limit > count then limit - count else 0;
      count := count + size;
      r := if size < n then size else n;
    }
  }

  // The output grows by as much of the buffer as the limit leaves.
  lemma CopiedPrefix(total: string, pending: string, before: nat, limit: nat, n: nat)
    requires before <= |total| && pending == total[before..] && n == Min(limit, |total|) - Min(limit, before)
    ensures n <= |pending| && Truncated(total, Min(limit, before)) + pending[..n] == Truncated(total, Min(limit, |total|))
  {
  }

  /** iterator_buffer with fixed_buffer_traits; out is what has been copied to the output iterator. */
  class IteratorBuffer {
    const traits: FixedBufferTraits
    const data: array<char>
    var size: nat
    var out: string
    ghost var total: string

    ghost predicate Valid()
      reads this, traits, data
    {
      && data.Length == BUFFER_SIZE && size <= BUFFER_SIZE
      && traits.count + size == |total|
      && out == Truncated(total, Min(traits.limit, traits.count))
      && data[..size] == total[traits.count..]
    }

    constructor (limit: nat)
      ensures Valid() && fresh(traits) && fresh(data) && total == "" && traits.limit == limit
    {
      traits := new FixedBufferTraits(limit);
      data := new char[BUFFER_SIZE];
      size, out, total := 0, "", "";
    }

    method Flush()
      requires Valid()
      modifies this, traits
      ensures Valid() && total == old(total) && size == 0
    {
      var before := traits.count;
      var n := traits.Limit(size);
      CopiedPrefix(total, data[..size], before, traits.limit, n);
      assert data[..size][..n] == data[..n];
      out := out + data[..n];
      size := 0;
    }

    method Grow()
      requires Valid()
      modifies this, traits
      ensures Valid() && total == old(total) && size < BUFFER_SIZE
    {
      if size == BUFFER_SIZE { Flush(); }
    }

    method TryReserve(newCapacity: nat)
      requires Valid()
      modifies this, traits
      ensures Valid() && total == old(total) && (newCapacity > old(size) ==> size < BUFFER_SIZE)
    {
      if newCapacity > BUFFER_SIZE { Grow(); }
    }

    method PushBack(value: char)
      requires Valid()
      modifies this, traits, data
      ensures Valid() && total == old(total) + [value]
    {
      TryReserve(size + 1);
      data[size] := value;
      size := size + 1;
      total := total + [value];
    }

    method Append(s: string)
      requires Valid()
      modifies this, traits, data
      ensures Valid() && total == old(total) + s
    {
      var begin := 0;
      while true
        invariant Valid() && 0 <= begin <= |s| && total == old(total) + s[..begin]
        decreases |s| - begin
      {
        ghost var start := begin;
        var count := |s| - begin;
        TryReserve(size + count);
        var freeCap := BUFFER_SIZE - size;
        if freeCap < count { count := freeCap; }
        CopyIn(s[begin..begin + count]);
        begin := begin + count;
        WrittenOn(old(total), s, start, begin);
        if !(begin != |s|) { break; }
      }
    }

    // uninitialized_copy_n to the end of the buffer.
    method CopyIn(s: string)
      requires Valid() && |s| <= BUFFER_SIZE - size
      modifies this, data
      ensures Valid() && total == old(total) + s && size == old(size) + |s|
    {
      ghost var before := data[..size];
      forall k | 0 <= k < |s| { data[size + k] := s[k]; }
      assert data[..size + |s|] == before + s;
      size := size + |s|;
      total := total + s;
      assert total[traits.count..] == before + s;
    }

    method Out() returns (r: string)
      requires Valid()
      modifies this, traits
      ensures Valid() && total == old(total) && size == 0
      ensures r == Truncated(total, traits.limit) && r == out
    {
      Flush();
      r := out;
    }

    function Count(): nat
      requires Valid()
      reads this, traits, data
      ensures Count() == |total|
    {
      traits.count + size
    }
  }

  /** counting_buffer: discards the output. */
  class CountingBuffer {
    const data: array<char>
    var size: nat
    var counted: nat
    ghost var total: string

    ghost predicate Valid()
      reads this
    {
      data.Length == BUFFER_SIZE && size <= BUFFER_SIZE && counted + size == |total|
    }

    constructor ()
      ensures Valid() && fresh(data) && total == ""
    {
      data := new char[BUFFER_SIZE];
      size, counted, total := 0, 0, "";
    }

    method Grow()
      requires Valid()
      modifies this
      ensures Valid() && total == old(total) && size < BUFFER_SIZE
    {
      if size != BUFFER_SIZE { return; }
      counted := counted + size;
      size := 0;
    }

    method TryReserve(newCapacity: nat)
      requires Valid()
      modifies this
      ensures Valid() && total == old(total) && (newCapacity > old(size) ==> size < BUFFER_SIZE)
    {
      if newCapacity > BUFFER_SIZE { Grow(); }
    }

    method PushBack(value: char)
      requires Valid()
      modifies this, data
      ensures Valid() && total == old(total) + [value]
    {
      TryReserve(size + 1);
      data[size] := value;
      size := size + 1;
      total := total + [value];
    }

    method Append(s: string)
      requires Valid()
      modifies this, data
      ensures Valid() && total == old(total) + s
    {
      var begin := 0;
      while true
        invariant Valid() && 0 <= begin <= |s| && total == old(total) + s[..begin]
        decreases |s| - begin
      {
        ghost var start := begin;
        var count := |s| - begin;
        TryReserve(size + count);
        var freeCap := BUFFER_SIZE - size;
        if freeCap < count { count := freeCap; }
        forall k | 0 <= k < count { data[size + k] := s[begin + k]; }
        size := size + count;
        begin := begin + count;
        total := total + s[start..begin];
        WrittenOn(old(total), s, start, begin);
        if !(begin != |s|) { break; }
      }
    }

    function Count(): nat
      requires Valid()
      reads this
      ensures Count() == |total|
    {
      counted + size
    }
  }

  // vformat_to_n: the output of a run of appends, truncated to n, and its full size.
  method FormatToN(pieces: seq<string>, n: nat) returns (out: string, size: nat)
    ensures out == Truncated(Flatten(pieces), n) && size == |Flatten(pieces)|
  {
    var buffer := new IteratorBuffer(n);
    for i := 0 to |pieces|
      invariant buffer.Valid() && buffer.traits.limit == n && buffer.total == Flatten(pieces[..i])
      invariant fresh(buffer) && fresh(buffer.traits) && fresh(buffer.data)
    {
      assert pieces[..i + 1][..i] == pieces[..i];
      if |pieces[i]| == 1 { buffer.PushBack(pieces[i][0]); } else { buffer.Append(pieces[i]); }
    }
    assert pieces[..|pieces|] == pieces;
    out := buffer.Out();
    size := buffer.Count();
  }

  // formatted_size: the same run, only counted.
  method FormattedSize(pieces: seq<string>) returns (size: nat)
    ensures size == |Flatten(pieces)|
  {
    var buffer := new CountingBuffer();
    for i := 0 to |pieces|
      invariant buffer.Valid() && buffer.total == Flatten(pieces[..i]) && fresh(buffer) && fresh(buffer.data)
    {
      assert pieces[..i + 1][..i] == pieces[..i];
      if |pieces[i]| == 1 { buffer.PushBack(pieces[i][0]); } else { buffer.Append(pieces[i]); }
    }
    assert pieces[..|pieces|] == pieces;
    size := buffer.Count();
  }
}
