/** internal/providers/sourceproviders/customsourceprovider.go: a writer that keeps the last
    "limit" bytes written to it, in a buffer of fixed capacity that it rewrites in place. */
module OutputTails {
  import opened Decimal

  /** The last n bytes of s, or all of it. */
  function LastOf(s: string, n: nat): string {
    if |s| <= n then s else s[|s| - n..]
  }

  class OutputTail {
    const limit: nat
    const buf: array<char>
    var length: nat
    var truncated: bool
    /** Everything ever written. */
    ghost var written: string

    ghost predicate Valid()
      reads this, buf
    {
      && buf.Length == limit && length <= limit
      && buf[..length] == LastOf(written, limit)
      && (truncated <==> |written| > limit)
    }

    constructor (limit: nat)
      ensures Valid() && fresh(buf) && this.limit == limit && written == ""
    {
      this.limit := limit;
      buf := new char[limit](_ => '\0');
      length, truncated, written := 0, false, "";
    }

    /** Whatever the size of data relative to the limit and to what is already there, the buffer
        afterwards holds the last bytes of everything written so far. */
    method Write(data: string) returns (n: nat)
      requires Valid()
      modifies this`length, this`truncated, this`written, buf
      ensures Valid() && n == |data| && written == old(written) + data
    {
      hide LastOf;
      n := |data|;
      LastOfLast(written, data, limit);
      LastOfLength(written, limit);
      LastOfLength(written + data, limit);
      if n >= limit {
        truncated := truncated || n > limit || length > 0;
        CopyInto(buf, 0, data[n - limit..]);
        length := limit;
        assert buf[..limit] == data[n - limit..];
      } else {
        AppendShort(data);
      }
      written := written + data;
    }

    /** The part of Write for data shorter than the limit: drops the overflow, then appends. */
    method AppendShort(data: string)
      requires |data| < limit == buf.Length && length <= limit
      modifies this`length, this`truncated, buf
      ensures length <= limit && buf[..length] == LastOf(old(buf[..length]) + data, limit)
      ensures truncated <==> old(truncated) || old(length) + |data| > limit
    {
      hide LastOf;
      var n := |data|;
      ghost var kept := buf[..length];
      KeptThenData(kept, data, limit);
      if length + n > limit {
        var overflow := length + n - limit;
        ShiftLeft(buf, overflow, length);
        length := length - overflow;
        truncated := true;
      }
      ghost var front := buf[..length];
      assert front == kept[|kept| - length..];
      CopyInto(buf, length, data);
      length := length + n;
      assert buf[..length] == front + data;
    }

    /** The retained bytes, after a notice exactly when something was dropped. */
    method String() returns (s: string)
      requires Valid()
      ensures s == if |written| <= limit then written
                   else "[output truncated; showing last " + Digits(limit) + " bytes]\n" + LastOf(written, limit)
    {
      if truncated {
        return "[output truncated; showing last " + Digits(limit) + " bytes]\n" + buf[..length];
      }
      s := buf[..length];
    }
  }

  /** copy(dst[at:], src). */
  method CopyInto(dst: array<char>, at: nat, src: string)
    requires at + |src| <= dst.Length
    modifies dst
    ensures dst[..at + |src|] == old(dst[..at]) + src
  {
    for i := 0 to |src|
      invariant dst[..at + i] == old(dst[..at]) + src[..i]
    {
      dst[at + i] := src[i];
    }
    assert src[..|src|] == src;
  }

  /** append(buf[:0], buf[drop:end]...): moves buf[drop:end] to the front, in place. */
  method ShiftLeft(buf: array<char>, drop: nat, end: nat)
    requires drop <= end <= buf.Length
    modifies buf
    ensures buf[..end - drop] == old(buf[..end])[drop..]
  {
    for i := 0 to end - drop
      invariant buf[..i] == old(buf[drop..drop + i])
      invariant forall k :: i <= k < buf.Length ==> buf[k] == old(buf[k])
    {
      buf[i] := buf[i + drop];
    }
  }

  /** Only the retained bytes of the past matter for the future. */
  lemma LastOfLast(a: string, b: string, n: nat)
    ensures LastOf(LastOf(a, n) + b, n) == LastOf(a + b, n)
    ensures |b| >= n ==> LastOf(a + b, n) == b[|b| - n..]
  {
  }

  lemma LastOfLength(s: string, n: nat)
    ensures |LastOf(s, n)| == if |s| <= n then |s| else n
  {
  }

  /** Room for short data is made by dropping just the overflow from the front. */
  lemma KeptThenData(kept: string, data: string, n: nat)
    requires |kept| <= n && |data| < n
    ensures kept[if |kept| + |data| > n then |kept| + |data| - n else 0..] + data == LastOf(kept + data, n)
  {
  }

  function Concat(chunks: seq<string>): string {
    if chunks == [] then "" else Concat(chunks[..|chunks| - 1]) + chunks[|chunks| - 1]
  }

  /** Over any sequence of writes only the concatenation counts, not how it was cut up. */
  method WriteAll(tail: OutputTail, chunks: seq<string>)
    requires tail.Valid() && tail.written == ""
    modifies tail`length, tail`truncated, tail`written, tail.buf
    ensures tail.Valid() && tail.buf[..tail.length] == LastOf(Concat(chunks), tail.limit)
    ensures tail.truncated <==> |Concat(chunks)| > tail.limit
  {
    for i := 0 to |chunks|
      invariant tail.Valid() && tail.written == Concat(chunks[..i])
    {
      assert chunks[..i + 1][..i] == chunks[..i];
      var n := tail.Write(chunks[i]);
      assert n == |chunks[i]|;
    }
    assert chunks[..|chunks|] == chunks;
  }
}
