/**
 * `SkipNewlinesReader` in `src/io_utils.rs`: an `io::Read` adaptor that reads
 * at most one buffer-full (1024 bytes, and never more than the caller's
 * buffer) from the wrapped reader and hands on those bytes with every CR
 * (0x0D) and LF (0x0A) removed.
 *
 * The wrapped reader is a `ChunkSource`: a queue of chunks, each `read`
 * delivering as much of the first chunk as fits: a model reader that may return
 * short reads and writes only the bytes it returns. I/O errors are not modelled.
 */
module IoUtils {
  import opened Bytes

  /** `BUF_SIZE`: the capacity of the adaptor's own buffer. */
  const BUF_SIZE: nat := 1024

  predicate IsNewline(b: u8)
  {
    b == 0x0D || b == 0x0A
  }

  /** The bytes of `s` with every CR and LF removed, in their original order. */
  function StripNewlines(s: seq<u8>): (r: seq<u8>)
    ensures |r| <= |s|
    ensures forall i | 0 <= i < |r| :: !IsNewline(r[i])
  {
    if s == [] then []
    else (if IsNewline(s[0]) then [] else [s[0]]) + StripNewlines(s[1..])
  }

  function Min(a: nat, b: nat): nat
  {
    if a <= b then a else b
  }

  /** All the bytes of a queue of chunks, in order. */
  function Flatten(chunks: seq<seq<u8>>): seq<u8>
  {
    if chunks == [] then [] else chunks[0] + Flatten(chunks[1..])
  }

  /** The wrapped reader: each read returns a prefix, at most `len` bytes long, of its first chunk. */
  class ChunkSource {
    var pending: seq<seq<u8>>

    constructor (chunks: seq<seq<u8>>)
      ensures pending == chunks
    {
      pending := chunks;
    }

    /** The bytes the next `read` of at most `len` bytes delivers; none at end of stream. */
    function NextRead(len: nat): (r: seq<u8>)
      reads this
      ensures |r| <= len
    {
      if pending == [] then [] else pending[0][..Min(len, |pending[0]|)]
    }

    /** The chunks left after that read. */
    function AfterRead(len: nat): seq<seq<u8>>
      reads this
    {
      if pending == [] then []
      else if |pending[0]| <= len then pending[1..]
      else [pending[0][len..]] + pending[1..]
    }

    /** `read(&mut dst[0..len])`: copies the next bytes of the stream into `dst` and returns their number. */
    method Read(dst: array<u8>, len: nat) returns (n: nat)
      requires len <= dst.Length
      modifies this, dst
      ensures n == |old(NextRead(len))| && n <= len
      ensures dst[..n] == old(NextRead(len))
      ensures forall k | n <= k < dst.Length :: dst[k] == old(dst[k])
      ensures pending == old(AfterRead(len))
    {
      var chunk := NextRead(len);
      n := |chunk|;
      for k := 0 to n
        invariant dst[..k] == chunk[..k]
        invariant forall m | k <= m < dst.Length :: dst[m] == old(dst[m])
        invariant pending == old(pending)
      {
        dst[k] := chunk[k];
      }
      pending := AfterRead(len);
    }
  }

  /**
   * `Write for &mut [u8]`: copies as much of `data` as fits into `dst` from
   * position `pos` on and returns how much that was.
   */
  method SliceWrite(dst: array<u8>, pos: nat, data: seq<u8>) returns (amt: nat)
    requires pos <= dst.Length
    modifies dst
    ensures amt == Min(|data|, dst.Length - pos)
    ensures dst[pos..pos + amt] == data[..amt]
    ensures forall k | 0 <= k < dst.Length && !(pos <= k < pos + amt) :: dst[k] == old(dst[k])
  {
    amt := Min(|data|, dst.Length - pos);
    for k := 0 to amt
      invariant dst[pos..pos + k] == data[..k]
      invariant forall m | 0 <= m < dst.Length && !(pos <= m < pos + k) :: dst[m] == old(dst[m])
    {
      dst[pos + k] := data[k];
    }
  }

  class SkipNewlinesReader {
    const inner: ChunkSource
    const buf: array<u8>

    ghost predicate Valid()
      reads this
    {
      buf.Length == BUF_SIZE
    }

    /** `SkipNewlinesReader::new`: wraps `inner` with a zeroed buffer. */
    constructor (inner: ChunkSource)
      ensures Valid() && this.inner == inner && fresh(buf)
      ensures forall k | 0 <= k < BUF_SIZE :: buf[k] == 0
    {
      this.inner := inner;
      buf := new u8[BUF_SIZE](_ => 0);
    }

    /**
     * `read(out_buf)`: an empty `out_buf` gets nothing, and neither the wrapped
     * reader nor the buffer is touched. Otherwise one read of at most
     * `min(1024, out_buf.len())` bytes is made into the buffer, and those bytes
     * minus every CR and LF are written to the front of `out_buf`; the rest of
     * `out_buf` is left alone and the number written is returned.
     */
    method Read(outBuf: array<u8>) returns (n: nat)
      requires Valid() && outBuf != buf
      modifies buf, inner, outBuf
      ensures Valid() && n <= Min(BUF_SIZE, outBuf.Length)
      ensures outBuf.Length == 0 ==> n == 0 && unchanged(inner) && unchanged(buf)
      ensures outBuf.Length > 0 ==>
        var chunk := old(inner.NextRead(Min(BUF_SIZE, outBuf.Length)));
        && inner.pending == old(inner.AfterRead(Min(BUF_SIZE, outBuf.Length)))
        && buf[..|chunk|] == chunk
        && (forall k | |chunk| <= k < BUF_SIZE :: buf[k] == old(buf[k]))
        && outBuf[..n] == StripNewlines(chunk)
      ensures StripNewlines(Flatten(old(inner.pending))) == outBuf[..n] + StripNewlines(Flatten(inner.pending))
      ensures forall k | n <= k < outBuf.Length :: outBuf[k] == old(outBuf[k])
    {
      if outBuf.Length == 0 {
        return 0;
      }
      var maxLen := Min(BUF_SIZE, outBuf.Length);
      ghost var chunk := inner.NextRead(maxLen);
      ReadConsumesInOrder(inner.pending, maxLen, chunk, inner.AfterRead(maxLen));
      var bytesRead := inner.Read(buf, maxLen);
      StripAppend(chunk, Flatten(inner.pending));
      if bytesRead == 0 {
        return 0;
      }
      n := Filter(outBuf, bytesRead, chunk);
    }

    /**
     * The labelled loop of `read`: repeatedly finds the first CR or LF in the
     * bytes not yet handled, writes the bytes before it and skips it; when
     * none is left, writes the remainder and stops.
     */
    method Filter(outBuf: array<u8>, bytesRead: nat, ghost chunk: seq<u8>) returns (bytesWritten: nat)
      requires Valid() && outBuf != buf
      requires bytesRead <= outBuf.Length && bytesRead <= BUF_SIZE
      requires |chunk| == bytesRead && buf[..bytesRead] == chunk
      modifies outBuf
      ensures bytesWritten <= bytesRead
      ensures outBuf[..bytesWritten] == StripNewlines(chunk)
      ensures forall k | bytesWritten <= k < outBuf.Length :: outBuf[k] == old(outBuf[k])
    {
      bytesWritten := 0;
      var start := 0;
      assert chunk[..bytesRead] == chunk;
      label outer: while start < bytesRead
        invariant start <= bytesRead && bytesWritten <= start
        invariant outBuf[..bytesWritten] == StripNewlines(chunk[..start])
        invariant forall k | bytesWritten <= k < outBuf.Length :: outBuf[k] == old(outBuf[k])
        decreases bytesRead - start
      {
        ghost var written, before := bytesWritten, outBuf[..];
        for i := 0 to bytesRead - start
          invariant bytesWritten == written && outBuf[..] == before
          invariant forall k | start <= k < start + i :: !IsNewline(chunk[k])
        {
          if buf[start + i] == 0x0D || buf[start + i] == 0x0A {
            var amt := WriteRun(outBuf, bytesWritten, start, start + i, chunk);
            StripAcrossNewline(chunk, start, i);
            bytesWritten := bytesWritten + amt;
            start := start + i + 1;
            continue outer;
          }
        }
        var amt := WriteRun(outBuf, bytesWritten, start, bytesRead, chunk);
        StripAcrossNewline(chunk, start, bytesRead - start);
        bytesWritten := bytesWritten + amt;
        break;
      }
    }

    /**
     * One `out_buf.write(&to_write[..])` of the loop: the newline-free bytes
     * `buf[start..end]` are written in full after the `pos` bytes already
     * written.
     */
    method WriteRun(outBuf: array<u8>, pos: nat, start: nat, end: nat, ghost chunk: seq<u8>)
      returns (amt: nat)
      requires Valid() && outBuf != buf
      requires pos <= start <= end <= |chunk| <= outBuf.Length && |chunk| <= BUF_SIZE
      requires buf[..|chunk|] == chunk
      requires forall k | start <= k < end :: !IsNewline(chunk[k])
      modifies outBuf
      ensures amt == end - start
      ensures outBuf[..pos + amt] == old(outBuf[..pos]) + chunk[start..end]
      ensures forall k | pos + amt <= k < outBuf.Length :: outBuf[k] == old(outBuf[k])
    {
      assert buf[start..end] == chunk[start..end] by {
        assert forall k | start <= k < end :: buf[k] == buf[..|chunk|][k];
      }
      amt := SliceWrite(outBuf, pos, buf[start..end]);
      assert outBuf[..pos + amt] == outBuf[..pos] + outBuf[pos..pos + amt];
    }
  }

  /** Removing newlines distributes over concatenation. */
  lemma {:induction false} StripAppend(a: seq<u8>, b: seq<u8>)
    ensures StripNewlines(a + b) == StripNewlines(a) + StripNewlines(b)
  {
    if a == [] {
      assert a + b == b;
    } else {
      assert (a + b)[1..] == a[1..] + b;
      StripAppend(a[1..], b);
    }
  }

  /** A sequence is left unchanged exactly when it holds no CR or LF. */
  lemma {:induction false} StripIdentity(s: seq<u8>)
    ensures StripNewlines(s) == s <==> forall i | 0 <= i < |s| :: !IsNewline(s[i])
  {
    if s != [] {
      StripIdentity(s[1..]);
      if IsNewline(s[0]) {
        assert |StripNewlines(s)| < |s|;
      }
    }
  }

  /**
   * A single CR or LF between two newline-free runs is dropped and nothing
   * else is: the result is one byte shorter than the input.
   */
  lemma StripDropsOneNewline(a: seq<u8>, nl: u8, b: seq<u8>)
    requires IsNewline(nl)
    requires forall i | 0 <= i < |a| :: !IsNewline(a[i])
    requires forall i | 0 <= i < |b| :: !IsNewline(b[i])
    ensures StripNewlines(a + [nl] + b) == a + b
    ensures |StripNewlines(a + [nl] + b)| == |a + [nl] + b| - 1
  {
    StripAppend(a + [nl], b);
    StripAppend(a, [nl]);
    StripIdentity(a);
    StripIdentity(b);
  }

  /** Nothing is left exactly when every byte is a CR or LF. */
  lemma StripEmpty(s: seq<u8>)
    ensures StripNewlines(s) == [] <==> forall i | 0 <= i < |s| :: IsNewline(s[i])
  {
    StripLength(s);
    NewlinesCount(s);
  }

  /** `Newlines(s)` reaches `|s|` exactly when every byte is a newline. */
  lemma {:induction false} NewlinesCount(s: seq<u8>)
    ensures Newlines(s) <= |s|
    ensures Newlines(s) == |s| <==> forall i | 0 <= i < |s| :: IsNewline(s[i])
  {
    if s != [] {
      NewlinesCount(s[1..]);
      assert forall i | 1 <= i < |s| :: s[i] == s[1..][i - 1];
    }
  }

  /** Removing newlines twice removes nothing more. */
  lemma StripIdempotent(s: seq<u8>)
    ensures StripNewlines(StripNewlines(s)) == StripNewlines(s)
  {
    StripIdentity(StripNewlines(s));
  }

  /** The filtered length is the length less the number of CR and LF bytes. */
  lemma {:induction false} StripLength(s: seq<u8>)
    ensures |StripNewlines(s)| == |s| - Newlines(s)
  {
    if s != [] {
      StripLength(s[1..]);
    }
  }

  function Newlines(s: seq<u8>): nat
  {
    if s == [] then 0 else (if IsNewline(s[0]) then 1 else 0) + Newlines(s[1..])
  }

  /**
   * The step of the labelled loop: bytes `start .. start + i` hold no newline,
   * so handing them on unaltered (and dropping the newline after them, if any)
   * extends the filtered prefix.
   */
  lemma StripAcrossNewline(chunk: seq<u8>, start: nat, i: nat)
    requires start + i <= |chunk|
    requires forall k | start <= k < start + i :: !IsNewline(chunk[k])
    ensures StripNewlines(chunk[..start + i]) == StripNewlines(chunk[..start]) + chunk[start..start + i]
    ensures start + i < |chunk| && IsNewline(chunk[start + i]) ==>
      StripNewlines(chunk[..start + i + 1]) == StripNewlines(chunk[..start]) + chunk[start..start + i]
  {
    var mid := chunk[start..start + i];
    assert chunk[..start + i] == chunk[..start] + mid;
    StripAppend(chunk[..start], mid);
    StripIdentity(mid);
    if start + i < |chunk| && IsNewline(chunk[start + i]) {
      assert chunk[..start + i + 1] == chunk[..start + i] + [chunk[start + i]];
      StripAppend(chunk[..start + i], [chunk[start + i]]);
      assert StripNewlines([chunk[start + i]]) == [];
    }
  }

  /** A read consumes the stream in order: its bytes followed by what is left are the stream. */
  lemma ReadConsumesInOrder(chunks: seq<seq<u8>>, len: nat, next: seq<u8>, after: seq<seq<u8>>)
    requires next == (if chunks == [] then [] else chunks[0][..Min(len, |chunks[0]|)])
    requires after == (if chunks == [] then []
      else if |chunks[0]| <= len then chunks[1..] else [chunks[0][len..]] + chunks[1..])
    ensures next + Flatten(after) == Flatten(chunks)
  {
    if chunks != [] && |chunks[0]| > len {
      var head, rest := chunks[0], Flatten(chunks[1..]);
      assert after[0] == head[len..] && after[1..] == chunks[1..];
      assert Flatten(after) == head[len..] + rest;
      assert next + (head[len..] + rest) == (head[..len] + head[len..]) + rest;
      assert head[..len] + head[len..] == head;
    } else if chunks != [] {
      assert next == chunks[0];
    }
  }
}
