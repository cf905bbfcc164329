/** The end of a command's output, kept in a buffer of fixed size. */
module OutputTail {
  import opened Wrappers

  type byte = bv8

  /** The last n elements, or all of them. */
  function Last<T>(s: seq<T>, n: nat): (r: seq<T>)
    ensures |r| == if |s| < n then |s| else n
  {
    if |s| <= n then s else s[|s| - n..]
  }

  /** Only the tail of what was written before matters to the tail of what is written next. */
  lemma LastOfLast<T>(h: seq<T>, data: seq<T>, n: nat)
    ensures Last(Last(h, n) + data, n) == Last(h + data, n)
  {
    if |h| > n {
      assert h + data == h[..|h| - n] + (Last(h, n) + data);
    }
  }

  /** How the tail moves on: long data replaces it, short data pushes its front out. */
  lemma TailMoves<T>(h: seq<T>, data: seq<T>, n: nat)
    ensures |data| >= n ==> Last(h + data, n) == data[|data| - n..]
    ensures var kept := Last(h, n);
            |data| < n ==> Last(h + data, n) == kept[if |kept| + |data| > n then |kept| + |data| - n else 0..] + data
    ensures |h + data| > n <==> |h| > n || |Last(h, n)| + |data| > n
  {
    if |data| < n {
      LastOfLast(h, data, n);
    }
  }

  class Tail {
    const limit: nat
    const buf: array<byte>
    var len: nat
    var truncated: bool
    ghost var history: seq<byte>

    ghost predicate Valid()
      reads this, buf
    {
      && buf.Length == limit && len <= limit
      && buf[..len] == Last(history, limit)
      && (truncated <==> |history| > limit)
    }

    constructor (limit: nat)
      ensures Valid() && fresh(buf) && this.limit == limit && history == []
    {
      this.limit := limit;
      buf := new byte[limit];
      len, truncated, history := 0, false, [];
    }

    /** Drops the first bytes of the buffer, moving the others to its front in place. */
    method Drop(overflow: nat)
      requires buf.Length == limit && len <= limit && overflow <= len
      modifies this`len, buf
      ensures len == old(len) - overflow && buf[..len] == old(buf[overflow..len])
    {
      for i := 0 to len - overflow
        invariant len == old(len)
        invariant buf[..i] == old(buf[overflow..overflow + i])
        invariant buf[i..] == old(buf[i..])
      {
        assert buf[i..][overflow] == old(buf[i..])[overflow];
        buf[i] := buf[overflow + i];
      }
      len := len - overflow;
    }

    /** Puts bytes behind the first ones of the buffer. */
    method Append(data: seq<byte>)
      requires buf.Length == limit && len + |data| <= limit
      modifies this`len, buf
      ensures len == old(len) + |data| && buf[..len] == old(buf[..len]) + data
    {
      for i := 0 to |data|
        invariant len == old(len)
        invariant buf[..len + i] == old(buf[..len]) + data[..i]
      {
        buf[len + i] := data[i];
      }
      assert data[..|data|] == data;
      len := len + |data|;
    }

    /** After any writes the buffer holds the last bytes of all that was written, and knows
        whether something is missing. */
    method Write(data: seq<byte>) returns (n: nat)
      requires Valid()
      modifies this, buf
      ensures Valid() && n == |data| && history == old(history) + data
    {
      hide Last;
      n := |data|;
      TailMoves(history, data, limit);
      assert buf[0..len] == buf[..len];
      if n >= limit {
        truncated := truncated || n > limit || len > 0;
        len := 0;
        Append(data[n - limit..]);
        history := history + data;
        return;
      }
      if len + n > limit {
        Drop(len + n - limit);
        truncated := true;
      }
      Append(data);
      history := history + data;
    }

    /** The text shown, behind a notice of the limit when some of it is missing. */
    method Shown() returns (notice: Option<nat>, text: seq<byte>)
      requires Valid()
      ensures text == Last(history, limit) && notice == if |history| > limit then Some(limit) else None
    {
      notice := if truncated then Some(limit) else None;
      text := buf[..len];
    }
  }

  function Concat<T>(writes: seq<seq<T>>): seq<T> {
    if writes == [] then [] else Concat(writes[..|writes| - 1]) + writes[|writes| - 1]
  }

  /** A command that writes piece by piece: the pieces do not matter, only what they add up to. */
  method Capture(limit: nat, writes: seq<seq<byte>>) returns (notice: Option<nat>, text: seq<byte>)
    ensures text == Last(Concat(writes), limit)
    ensures notice == if |Concat(writes)| > limit then Some(limit) else None
  {
    var tail := new Tail(limit);
    for i := 0 to |writes|
      invariant fresh(tail) && fresh(tail.buf) && tail.Valid() && tail.limit == limit
                && tail.history == Concat(writes[..i])
    {
      assert writes[..i + 1][..i] == writes[..i];
      var n := tail.Write(writes[i]);
    }
    assert writes[..|writes|] == writes;
    notice, text := tail.Shown();
  }
}
