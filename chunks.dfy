/** The chunk arrays the command fills from a bulk-query result stream: every
    `'readable'` event pushes the chunks `read()` hands out until it returns
    `null`, and the `'end'` event joins them with `join('')`. */
module Chunks {

  /** `chunks.join('')`. */
  function Concat(chunks: seq<string>): string
  {
    if chunks == [] then "" else Concat(chunks[..|chunks| - 1]) + chunks[|chunks| - 1]
  }

  /** Joining is associative over any cut of the chunk array. */
  lemma {:induction false} ConcatAppend(a: seq<string>, b: seq<string>)
    ensures Concat(a + b) == Concat(a) + Concat(b)
    decreases |b|
  {
    if b == [] {
      assert a + b == a;
    } else {
      var n := |b| - 1;
      assert (a + b)[..|a + b| - 1] == a + b[..n];
      ConcatAppend(a, b[..n]);
    }
  }

  /** Where the transport cuts a chunk in two does not change the content. */
  lemma ConcatRechunk(a: seq<string>, x: string, y: string, b: seq<string>)
    ensures Concat(a + [x + y] + b) == Concat(a + [x, y] + b)
  {
    ConcatAppend(a + [x + y], b);
    ConcatAppend(a + [x, y], b);
    ConcatAppend(a, [x + y]);
    ConcatAppend(a, [x, y]);
    assert Concat([x, y]) == Concat([x]) + y;
    assert [x, y][..1] == [x];
  }

  /** The text delivered one character per chunk. */
  function Chars(s: string): (cs: seq<string>)
    ensures |cs| == |s|
  {
    seq(|s|, i requires 0 <= i < |s| => [s[i]])
  }

  /** Delivering the text one character at a time gives back the text itself,
      the same as delivering it in one chunk. */
  lemma {:induction false} ConcatChars(s: string)
    ensures Concat(Chars(s)) == s
    ensures Concat([s]) == s
    decreases |s|
  {
    assert [s][..0] == [];
    if s != [] {
      var n := |s| - 1;
      ConcatChars(s[..n]);
      assert Chars(s)[..n] == Chars(s[..n]);
      assert s == s[..n] + [s[n]];
    }
  }

  /** The array of chunks read so far. */
  class ChunkList {
    var chunks: seq<string>

    /** `const chunks: string[] = []`. */
    constructor ()
      ensures chunks == []
    {
      chunks := [];
    }

    /** One `'readable'` event: push every chunk `read()` returns before it
        returns `null`; `incoming` is that sequence of chunks. */
    method Drain(incoming: seq<string>)
      modifies this
      ensures chunks == old(chunks) + incoming
    {
      var i := 0;
      while i < |incoming|
        invariant 0 <= i <= |incoming|
        invariant chunks == old(chunks) + incoming[..i]
      {
        chunks := chunks + [incoming[i]];
        i := i + 1;
      }
      assert incoming[..i] == incoming;
    }

    /** The `'end'` event's `chunks.join('')`. */
    function Content(): string
      reads this
    {
      Concat(chunks)
    }
  }
}
