/**
 * Writing the results (src/printer.rs): every path followed by a newline,
 * through a buffered writer over standard output, optionally stopping after
 * the first `limit` paths.
 */
module Printer {
  import opened Wrappers
  import opened Constants

  /** A failure reported by standard output. */
  datatype IoError = IoError

  /** The bytes of `chunks`, one after the other. */
  function Concat(chunks: seq<seq<Byte>>): seq<Byte> {
    if chunks == [] then [] else Concat(chunks[..|chunks| - 1]) + chunks[|chunks| - 1]
  }

  lemma {:induction false} ConcatAppend(a: seq<seq<Byte>>, b: seq<seq<Byte>>)
    ensures Concat(a + b) == Concat(a) + Concat(b)
  {
    if b == [] {
      assert a + b == a;
    } else {
      var c := a + b;
      assert c[..|c| - 1] == a + b[..|b| - 1];
      ConcatAppend(a, b[..|b| - 1]);
    }
  }

  /** Putting the same bytes in front keeps a prefix a prefix. */
  lemma PrefixExtend(a: seq<Byte>, x: seq<Byte>, y: seq<Byte>)
    requires x <= y
    ensures a + x <= a + y
  {
    assert (a + y)[..|a + x|] == a + x;
  }

  /** Being a prefix is transitive. */
  lemma PrefixTrans<T>(a: seq<T>, b: seq<T>, c: seq<T>)
    requires a <= b && b <= c
    ensures a <= c
  {
    assert c[..|b|][..|a|] == c[..|a|];
  }

  lemma AppendEmpty<T>(a: seq<T>)
    ensures a + [] == a && [] + a == a
  {
  }

  lemma Assoc<T>(a: seq<T>, x: seq<T>, y: seq<T>)
    ensures a + x + y == a + (x + y)
  {
  }

  /**
   * The outcome of handing `data` to a writer whose standard output held `w0`
   * and whose buffer held `b0`, given the chunks `sent` offered to standard
   * output meanwhile, the bytes `w` it holds now and the buffer `b`. On
   * success every chunk was taken, and the chunks followed by the buffer are
   * exactly the old buffer followed by `data`. On failure the last chunk was
   * refused and the ones before it were taken; those followed by the buffer
   * still begin with the old buffer; all chunks, the refused one included,
   * are a prefix of the old buffer followed by `data`; and the buffer is
   * empty or holds exactly the refused bytes.
   */
  ghost predicate Passed(w0: seq<Byte>, b0: seq<Byte>, data: seq<Byte>, ok: bool,
                         sent: seq<seq<Byte>>, w: seq<Byte>, b: seq<Byte>)
  {
    if ok then
      w == w0 + Concat(sent) && Concat(sent) + b == b0 + data
    else
      sent != [] && w == w0 + Concat(sent[..|sent| - 1]) &&
      b0 <= Concat(sent[..|sent| - 1]) + b && Concat(sent) <= b0 + data &&
      (b == [] || b == sent[|sent| - 1])
  }

  /**
   * After a failed hand-over with chunks `sent` and buffer `b`: the bytes
   * `front` were taken whole, the chunks before the refused one followed by
   * the buffer beginning with them.
   */
  ghost predicate Kept(front: seq<Byte>, sent: seq<seq<Byte>>, b: seq<Byte>) {
    sent != [] && front <= Concat(sent[..|sent| - 1]) + b
  }

  /**
   * Two hand-overs in a row, the first successful, are one hand-over of both
   * pieces `d`, offering both lists of chunks `sent`.
   */
  lemma PassedThen(w0: seq<Byte>, b0: seq<Byte>, d1: seq<Byte>, s1: seq<seq<Byte>>, w1: seq<Byte>, b1: seq<Byte>,
                   d2: seq<Byte>, ok: bool, s2: seq<seq<Byte>>, w2: seq<Byte>, b2: seq<Byte>,
                   d: seq<Byte>, sent: seq<seq<Byte>>, front: seq<Byte>)
    requires Passed(w0, b0, d1, true, s1, w1, b1)
    requires Passed(w1, b1, d2, ok, s2, w2, b2)
    requires d == d1 + d2 && sent == s1 + s2 && front == b0 + d1
    ensures Passed(w0, b0, d, ok, sent, w2, b2)
    ensures !ok ==> Kept(front, sent, b2)
  {
    ConcatAppend(s1, s2);
    if ok {
      var c1, c2 := Concat(s1), Concat(s2);
      assert w2 == w0 + c1 + c2;
      assert c1 + c2 + b2 == c1 + (c2 + b2) == (c1 + b1) + d2;
    } else {
      PassedThenFailed(w0, b0, d1, s1, w1, b1, d2, s2, w2, b2);
    }
  }

  /** PassedThen when the second hand-over fails: the first piece was still taken whole. */
  lemma PassedThenFailed(w0: seq<Byte>, b0: seq<Byte>, d1: seq<Byte>, s1: seq<seq<Byte>>, w1: seq<Byte>, b1: seq<Byte>,
                         d2: seq<Byte>, s2: seq<seq<Byte>>, w2: seq<Byte>, b2: seq<Byte>)
    requires Passed(w0, b0, d1, true, s1, w1, b1)
    requires Passed(w1, b1, d2, false, s2, w2, b2)
    ensures Passed(w0, b0, d1 + d2, false, s1 + s2, w2, b2)
    ensures Kept(b0 + d1, s1 + s2, b2)
  {
    var s2' := s2[..|s2| - 1];
    assert (s1 + s2)[..|s1 + s2| - 1] == s1 + s2';
    ConcatAppend(s1, s2);
    ConcatAppend(s1, s2');
    PrefixStep(b0, d1, Concat(s1), b1, Concat(s2'), b2, Concat(s2), d2);
  }

  /**
   * The byte-level step behind PassedThenFailed: `c1` then `b1` is `b0`
   * then `d1`; the second piece keeps `b1` in front and stays within `b1`
   * then `d2`.
   */
  lemma PrefixStep(b0: seq<Byte>, d1: seq<Byte>, c1: seq<Byte>, b1: seq<Byte>,
                   c2': seq<Byte>, b2: seq<Byte>, c2: seq<Byte>, d2: seq<Byte>)
    requires c1 + b1 == b0 + d1
    requires b1 <= c2' + b2
    requires c2 <= b1 + d2
    ensures b0 + d1 <= c1 + c2' + b2
    ensures c1 + c2 <= b0 + (d1 + d2)
  {
    PrefixExtend(c1, b1, c2' + b2);
    assert c1 + c2' + b2 == c1 + (c2' + b2);
    PrefixExtend(c1, c2, b1 + d2);
    assert c1 + (b1 + d2) == (c1 + b1) + d2 == b0 + (d1 + d2);
  }

  /** A failed hand-over of `data` is also a failed hand-over of anything `data` begins. */
  lemma PassedWeaken(w0: seq<Byte>, b0: seq<Byte>, data: seq<Byte>, more: seq<Byte>,
                     sent: seq<seq<Byte>>, w: seq<Byte>, b: seq<Byte>)
    requires Passed(w0, b0, data, false, sent, w, b) && data <= more
    ensures Passed(w0, b0, more, false, sent, w, b)
  {
    PrefixExtend(b0, data, more);
    PrefixTrans(Concat(sent), b0 + data, b0 + more);
  }

  /** Writes `i` up to `n` (exclusive) are all accepted. */
  predicate AllAccepted(accepts: nat -> bool, i: nat, n: nat) {
    forall k :: i <= k < n ==> accepts(k)
  }

  /** Of writes `i` up to `n`, the last one is refused and all before it accepted. */
  predicate RefusedLast(accepts: nat -> bool, i: nat, n: nat) {
    i < n && !accepts(n - 1) && AllAccepted(accepts, i, n - 1)
  }

  /**
   * Writes `i` up to `j` accepted, then writes `j` up to `n` accepted or
   * ending in the first refusal, is the same of writes `i` up to `n`.
   */
  lemma AcceptedThen(accepts: nat -> bool, i: nat, j: nat, n: nat, ok: bool)
    requires i <= j <= n && AllAccepted(accepts, i, j)
    requires ok <==> AllAccepted(accepts, j, n)
    requires !ok ==> RefusedLast(accepts, j, n)
    ensures ok <==> AllAccepted(accepts, i, n)
    ensures !ok ==> RefusedLast(accepts, i, n)
  {
    if !ok {
      assert !accepts(n - 1);
    }
  }

  /**
   * Standard output as a sink of bytes. `log` records every write handed to
   * it, in order, whether it was taken or not; whether the k-th one succeeds
   * is given by `accepts(k)`. A write is taken whole or not at all.
   */
  class Stdout {
    var written: seq<Byte>
    var log: seq<seq<Byte>>
    const accepts: nat -> bool

    constructor (accepts: nat -> bool)
      ensures written == [] && log == [] && this.accepts == accepts
    {
      written := [];
      log := [];
      this.accepts := accepts;
    }

    /** Every write attempted since the first `start` was accepted. */
    predicate AcceptedSince(start: nat)
      reads this
    {
      AllAccepted(accepts, start, |log|)
    }

    /** Since the first `start` writes, the last write attempted was refused and all before it accepted. */
    predicate RefusedLastSince(start: nat)
      reads this
    {
      RefusedLast(accepts, start, |log|)
    }

    method WriteAll(data: seq<Byte>) returns (r: Result<(), IoError>)
      modifies this
      ensures log == old(log) + [data]
      ensures r.Ok? <==> accepts(|old(log)|)
      ensures written == if r.Ok? then old(written) + data else old(written)
    {
      if accepts(|log|) {
        written := written + data;
        r := Ok(());
      } else {
        r := Err(IoError);
      }
      log := log + [data];
    }
  }

  /**
   * `BufWriter` over standard output: bytes collect in `buffer` and reach
   * `inner` when the buffer is flushed. Each operation returns the writes
   * `sent` it handed to standard output, in order, as they appear at the end
   * of `inner.log`.
   */
  class BufWriter {
    var buffer: seq<Byte>
    const capacity: nat
    const inner: Stdout

    constructor WithCapacity(capacity: nat, inner: Stdout)
      ensures buffer == [] && this.capacity == capacity && this.inner == inner
    {
      buffer := [];
      this.capacity := capacity;
      this.inner := inner;
    }

    /** Hands the whole buffer to standard output; nothing is written when it is empty. */
    method FlushBuf() returns (r: Result<(), IoError>, ghost sent: seq<seq<Byte>>)
      modifies this, inner
      ensures inner.log == old(inner.log) + sent
      ensures sent == if old(buffer) == [] then [] else [old(buffer)]
      ensures old(buffer) == [] ==> r.Ok? && inner.written == old(inner.written)
      ensures old(buffer) != [] ==> (r.Ok? <==> inner.accepts(|old(inner.log)|))
      ensures r.Ok? ==> buffer == [] && inner.written == old(inner.written) + old(buffer)
      ensures r.Err? ==> buffer == old(buffer) && inner.written == old(inner.written)
      ensures r.Ok? <==> inner.AcceptedSince(|old(inner.log)|)
      ensures r.Err? ==> inner.RefusedLastSince(|old(inner.log)|)
      ensures Passed(old(inner.written), old(buffer), [], r.Ok?, sent, inner.written, buffer)
    {
      if buffer == [] {
        AppendEmpty(inner.written);
        return Ok(()), [];
      }
      sent := [buffer];
      assert sent[..0] == [];
      r := inner.WriteAll(buffer);
      if r.Ok? {
        buffer := [];
      }
    }

    /**
     * `flush`: `flush_buf` followed by the flush of standard output itself.
     * That inner flush cannot fail here, so the contract is FlushBuf's.
     */
    method Flush() returns (r: Result<(), IoError>, ghost sent: seq<seq<Byte>>)
      modifies this, inner
      ensures inner.log == old(inner.log) + sent
      ensures sent == if old(buffer) == [] then [] else [old(buffer)]
      ensures old(buffer) == [] ==> r.Ok? && inner.written == old(inner.written)
      ensures old(buffer) != [] ==> (r.Ok? <==> inner.accepts(|old(inner.log)|))
      ensures r.Ok? ==> buffer == [] && inner.written == old(inner.written) + old(buffer)
      ensures r.Err? ==> buffer == old(buffer) && inner.written == old(inner.written)
      ensures r.Ok? <==> inner.AcceptedSince(|old(inner.log)|)
      ensures r.Err? ==> inner.RefusedLastSince(|old(inner.log)|)
      ensures Passed(old(inner.written), old(buffer), [], r.Ok?, sent, inner.written, buffer)
    {
      r, sent := FlushBuf();
    }

    /**
     * `write_all`: flushes first when `data` does not fit in the spare
     * capacity, then buffers `data`, or writes it straight through when it is
     * at least as large as the whole buffer. Either all of `data` is taken
     * (into the buffer or the sink) or none of it. What standard output is
     * offered on the way is the old buffer, `data`, or both, as `Passed` says.
     */
    method WriteAll(data: seq<Byte>) returns (r: Result<(), IoError>, ghost sent: seq<seq<Byte>>)
      modifies this, inner
      ensures inner.log == old(inner.log) + sent
      ensures inner.written + buffer ==
              if r.Ok? then old(inner.written + buffer) + data else old(inner.written + buffer)
      ensures r.Ok? <==> inner.AcceptedSince(|old(inner.log)|)
      ensures r.Err? ==> inner.RefusedLastSince(|old(inner.log)|)
      ensures Passed(old(inner.written), old(buffer), data, r.Ok?, sent, inner.written, buffer)
      ensures |old(buffer)| + |data| <= capacity && |data| < capacity ==>
              r.Ok? && sent == [] && buffer == old(buffer) + data && inner.written == old(inner.written)
    {
      ghost var l0, w0, b0 := inner.log, inner.written, buffer;
      ghost var s1;
      r, s1 := MakeRoom(|data|);
      if r.Err? {
        sent := s1;
        PassedWeaken(w0, b0, [], data, sent, inner.written, buffer);
        return;
      }
      ghost var l1, w1, b1 := inner.log, inner.written, buffer;
      assert AllAccepted(inner.accepts, |l0|, |l1|);
      ghost var s2;
      r, s2 := Place(data);
      sent := s1 + s2;
      Assoc(l0, s1, s2);
      AcceptedThen(inner.accepts, |l0|, |l1|, |inner.log|, r.Ok?);
      AppendEmpty(data);
      AppendEmpty(b0);
      PassedThen(w0, b0, [], s1, w1, b1, data, r.Ok?, s2, inner.written, buffer, data, sent, b0);
    }

    /**
     * The start of `write_all`: the buffer is flushed when `n` more bytes
     * would not fit beside what it holds.
     */
    method MakeRoom(n: nat) returns (r: Result<(), IoError>, ghost sent: seq<seq<Byte>>)
      modifies this, inner
      ensures inner.log == old(inner.log) + sent
      ensures |old(buffer)| + n <= capacity ==>
              r.Ok? && sent == [] && buffer == old(buffer) && inner.written == old(inner.written)
      ensures r.Ok? ==> inner.written + buffer == old(inner.written + buffer)
      ensures r.Ok? ==> |buffer| + n <= capacity || buffer == []
      ensures r.Err? ==> buffer == old(buffer) && inner.written == old(inner.written)
      ensures r.Ok? <==> inner.AcceptedSince(|old(inner.log)|)
      ensures r.Err? ==> inner.RefusedLastSince(|old(inner.log)|)
      ensures Passed(old(inner.written), old(buffer), [], r.Ok?, sent, inner.written, buffer)
    {
      if |buffer| + n > capacity {
        r, sent := FlushBuf();
        if r.Ok? {
          AppendEmpty(inner.written);
        }
      } else {
        sent := [];
        AppendEmpty(inner.written);
        AppendEmpty(buffer);
        AppendEmpty(inner.log);
        r := Ok(());
      }
    }

    /**
     * The end of `write_all`, once there is room: data at least as large as
     * the whole buffer goes straight to standard output, anything smaller is
     * appended to the buffer.
     */
    method Place(data: seq<Byte>) returns (r: Result<(), IoError>, ghost sent: seq<seq<Byte>>)
      requires |data| >= capacity ==> buffer == []
      modifies this, inner
      ensures inner.log == old(inner.log) + sent
      ensures |data| < capacity ==> r.Ok? && sent == [] && buffer == old(buffer) + data && inner.written == old(inner.written)
      ensures |data| >= capacity ==> buffer == [] && sent == [data]
      ensures |data| >= capacity ==> (r.Ok? <==> inner.accepts(|old(inner.log)|))
      ensures |data| >= capacity ==> inner.written == if r.Ok? then old(inner.written) + data else old(inner.written)
      ensures r.Ok? <==> inner.AcceptedSince(|old(inner.log)|)
      ensures r.Err? ==> inner.RefusedLastSince(|old(inner.log)|)
      ensures inner.written + buffer ==
              if r.Ok? then old(inner.written + buffer) + data else old(inner.written + buffer)
      ensures Passed(old(inner.written), old(buffer), data, r.Ok?, sent, inner.written, buffer)
    {
      if |data| >= capacity {
        sent := [data];
        assert sent[..0] == [];
        r := inner.WriteAll(data);
      } else {
        sent := [];
        AppendEmpty(inner.written);
        buffer := buffer + data;
        r := Ok(());
      }
    }

    /** Dropping the writer flushes what it still holds, ignoring any error. */
    method Drop()
      modifies this, inner
      ensures old(buffer) == [] ==> inner.log == old(inner.log) && inner.written == old(inner.written)
      ensures old(buffer) != [] ==> inner.log == old(inner.log) + [old(buffer)]
      ensures inner.written ==
              if old(buffer) != [] && inner.accepts(|old(inner.log)|) then old(inner.written) + old(buffer)
              else old(inner.written)
    {
      var _, _ := FlushBuf();
    }
  }

  /** The output for `paths`: each path followed by one newline byte. */
  function Framed(paths: seq<seq<Byte>>): seq<Byte> {
    if paths == [] then [] else paths[0] + NEWLINE + Framed(paths[1..])
  }

  /** The paths that are written: the first `limit` ones, or all of them. */
  function Selected(paths: seq<seq<Byte>>, limit: Option<nat>): (taken: seq<seq<Byte>>)
    ensures limit.None? ==> taken == paths
    ensures limit.Some? ==> |taken| == if limit.value < |paths| then limit.value else |paths|
    ensures taken <= paths
  {
    match limit
    case None => paths
    case Some(k) => if k < |paths| then paths[..k] else paths
  }

  lemma {:induction false} FramedConcat(a: seq<seq<Byte>>, b: seq<seq<Byte>>)
    ensures Framed(a + b) == Framed(a) + Framed(b)
  {
    if a == [] {
      assert a + b == b;
    } else {
      assert (a + b)[0] == a[0];
      assert (a + b)[1..] == a[1..] + b;
      FramedConcat(a[1..], b);
    }
  }

  /** Writing one more path extends the output by that path and a newline. */
  lemma FramedSnoc(paths: seq<seq<Byte>>, i: nat)
    requires i < |paths|
    ensures Framed(paths[..i + 1]) == Framed(paths[..i]) + paths[i] + NEWLINE
  {
    assert paths[..i + 1] == paths[..i] + [paths[i]];
    FramedConcat(paths[..i], [paths[i]]);
  }

  // ---------------------------------------------------------------------
  // Reading the output back

  /** Length of the first line of `b`, up to the first newline byte or the end. */
  function LineEnd(b: seq<Byte>): (n: nat)
    ensures n <= |b|
    ensures forall k :: 0 <= k < n ==> b[k] != 10
    ensures n < |b| ==> b[n] == 10
  {
    if b == [] || b[0] == 10 then 0 else 1 + LineEnd(b[1..])
  }

  /** Splits output into its lines, each without its newline. */
  function Lines(b: seq<Byte>): seq<seq<Byte>>
    decreases |b|
  {
    if b == [] then []
    else
      var n := LineEnd(b);
      if n == |b| then [b] else [b[..n]] + Lines(b[n + 1..])
  }

  lemma {:induction false} LineEndOfFramed(p: seq<Byte>, rest: seq<Byte>)
    requires 10 !in p
    ensures LineEnd(p + NEWLINE + rest) == |p|
  {
    if p != [] {
      assert (p + NEWLINE + rest)[1..] == p[1..] + NEWLINE + rest;
      LineEndOfFramed(p[1..], rest);
    }
  }

  /** A consumer splitting the output at newlines gets back the paths, provided none contains a newline. */
  lemma {:induction false} LinesOfFramed(paths: seq<seq<Byte>>)
    requires forall i :: 0 <= i < |paths| ==> 10 !in paths[i]
    ensures Lines(Framed(paths)) == paths
  {
    if paths != [] {
      var p, rest := paths[0], Framed(paths[1..]);
      var b := p + NEWLINE + rest;
      LineEndOfFramed(p, rest);
      assert b[..|p|] == p;
      assert b[|p| + 1..] == rest;
      LinesOfFramed(paths[1..]);
    }
  }

  // ---------------------------------------------------------------------
  // write_paths

  /**
   * The two writes of one pass of the loop in `write_paths`: the path, then
   * a newline; the first error ends it.
   */
  method WriteNewlined(writer: BufWriter, path: seq<Byte>) returns (r: Result<(), IoError>, ghost sent: seq<seq<Byte>>)
    modifies writer, writer.inner
    ensures writer.inner.log == old(writer.inner.log) + sent
    ensures r.Ok? <==> writer.inner.AcceptedSince(|old(writer.inner.log)|)
    ensures r.Err? ==> writer.inner.RefusedLastSince(|old(writer.inner.log)|)
    ensures Passed(old(writer.inner.written), old(writer.buffer), path + NEWLINE, r.Ok?, sent, writer.inner.written, writer.buffer)
    ensures |old(writer.buffer)| + |path| + 1 < writer.capacity ==>
            r.Ok? && sent == [] && writer.buffer == old(writer.buffer) + path + NEWLINE &&
            writer.inner.written == old(writer.inner.written)
  {
    ghost var l0, w0, b0 := writer.inner.log, writer.inner.written, writer.buffer;
    r, sent := writer.WriteAll(path);
    if r.Err? {
      PassedWeaken(w0, b0, path, path + NEWLINE, sent, writer.inner.written, writer.buffer);
      return;
    }
    ghost var l1, w1, b1 := writer.inner.log, writer.inner.written, writer.buffer;
    assert AllAccepted(writer.inner.accepts, |l0|, |l1|);
    ghost var s2;
    r, s2 := writer.WriteAll(NEWLINE);
    AcceptedThen(writer.inner.accepts, |l0|, |l1|, |writer.inner.log|, r.Ok?);
    Assoc(l0, sent, s2);
    PassedThen(w0, b0, path, sent, w1, b1, NEWLINE, r.Ok?, s2, writer.inner.written, writer.buffer,
               path + NEWLINE, sent + s2, b0 + path);
    sent := sent + s2;
  }

  /**
   * One pass of the loop in `write_paths`: the path and a newline, then a
   * flush if the buffer has reached FLUSH_THRESHOLD; the first error ends it.
   * When the line fits in the buffer, the pass writes nothing while the
   * buffer stays below FLUSH_THRESHOLD, and otherwise writes exactly the
   * buffered bytes in one write.
   */
  method WriteLine(writer: BufWriter, path: seq<Byte>) returns (r: Result<(), IoError>, ghost sent: seq<seq<Byte>>)
    requires writer.capacity == BUFFER_SIZE
    modifies writer, writer.inner
    ensures writer.inner.log == old(writer.inner.log) + sent
    ensures r.Ok? <==> writer.inner.AcceptedSince(|old(writer.inner.log)|)
    ensures r.Err? ==> writer.inner.RefusedLastSince(|old(writer.inner.log)|)
    ensures Passed(old(writer.inner.written), old(writer.buffer), path + NEWLINE, r.Ok?, sent, writer.inner.written, writer.buffer)
    ensures r.Ok? ==> |writer.buffer| < FLUSH_THRESHOLD
    ensures |old(writer.buffer)| + |path| + 1 < FLUSH_THRESHOLD ==>
            r.Ok? && sent == [] && writer.buffer == old(writer.buffer) + path + NEWLINE &&
            writer.inner.written == old(writer.inner.written)
    ensures FLUSH_THRESHOLD <= |old(writer.buffer)| + |path| + 1 < BUFFER_SIZE ==>
            sent == [old(writer.buffer) + path + NEWLINE] &&
            (r.Ok? ==> writer.buffer == [] && writer.inner.written == old(writer.inner.written) + sent[0])
  {
    ghost var l0, w0, b0 := writer.inner.log, writer.inner.written, writer.buffer;
    r, sent := WriteNewlined(writer, path);
    if r.Ok? && |writer.buffer| >= FLUSH_THRESHOLD {
      ghost var l2, w2, b2 := writer.inner.log, writer.inner.written, writer.buffer;
      assert AllAccepted(writer.inner.accepts, |l0|, |l2|);
      ghost var s2;
      r, s2 := writer.Flush();
      AcceptedThen(writer.inner.accepts, |l0|, |l2|, |writer.inner.log|, r.Ok?);
      Assoc(l0, sent, s2);
      AppendEmpty(path + NEWLINE);
      PassedThen(w0, b0, path + NEWLINE, sent, w2, b2, [], r.Ok?, s2, writer.inner.written, writer.buffer,
                 path + NEWLINE, sent + s2, b0 + (path + NEWLINE));
      sent := sent + s2;
    }
  }

  /**
   * The loop of `write_paths` over the selected paths; stops at the first
   * error. On success the writes standard output took, followed by what is
   * still buffered, are the framing of all paths. On failure `failedAt` is
   * the path whose pass failed: the framing of the paths before it was taken
   * whole (by standard output or the buffer), and everything offered to
   * standard output, the refused write included, lies within the framing up
   * to and including it.
   */
  method WriteEach(writer: BufWriter, items: seq<seq<Byte>>)
    returns (r: Result<(), IoError>, ghost failedAt: nat, ghost sent: seq<seq<Byte>>)
    requires writer.buffer == [] && writer.capacity == BUFFER_SIZE
    modifies writer, writer.inner
    ensures writer.inner.log == old(writer.inner.log) + sent
    ensures r.Ok? <==> writer.inner.AcceptedSince(|old(writer.inner.log)|)
    ensures r.Err? ==> writer.inner.RefusedLastSince(|old(writer.inner.log)|)
    ensures r.Ok? ==> |writer.buffer| < FLUSH_THRESHOLD
    ensures r.Ok? ==> Passed(old(writer.inner.written), [], Framed(items), true, sent, writer.inner.written, writer.buffer)
    ensures r.Err? ==> failedAt < |items|
    ensures r.Err? ==>
      Passed(old(writer.inner.written), [], Framed(items[..failedAt + 1]), false, sent, writer.inner.written, writer.buffer)
    ensures r.Err? ==> Kept(Framed(items[..failedAt]), sent, writer.buffer)
  {
    ghost var base, log0 := writer.inner.written, writer.inner.log;
    r, failedAt, sent := Ok(()), 0, [];
    AppendEmpty(base);
    AppendEmpty(log0);
    assert items[..0] == [];
    for i := 0 to |items|
      invariant writer.inner.log == log0 + sent
      invariant Passed(base, [], Framed(items[..i]), true, sent, writer.inner.written, writer.buffer)
      invariant |writer.buffer| < FLUSH_THRESHOLD
      invariant writer.inner.AcceptedSince(|log0|)
      invariant r.Ok?
    {
      FramedSnoc(items, i);
      ghost var l1, w1, b1 := writer.inner.log, writer.inner.written, writer.buffer;
      assert AllAccepted(writer.inner.accepts, |log0|, |l1|);
      ghost var s2;
      r, s2 := WriteLine(writer, items[i]);
      AcceptedThen(writer.inner.accepts, |log0|, |l1|, |writer.inner.log|, r.Ok?);
      Assoc(log0, sent, s2);
      Assoc(Framed(items[..i]), items[i], NEWLINE);
      AppendEmpty(Framed(items[..i]));
      PassedThen(base, [], Framed(items[..i]), sent, w1, b1, items[i] + NEWLINE, r.Ok?, s2,
                 writer.inner.written, writer.buffer, Framed(items[..i + 1]), sent + s2, Framed(items[..i]));
      sent := sent + s2;
      if r.Err? {
        failedAt := i;
        return;
      }
    }
    assert items[..|items|] == items;
  }

  /**
   * `write_paths`: writes the selected paths, one per line, to `out` and
   * flushes. On success `out` took every write and holds exactly the framed
   * paths; on failure it is left as FailedRun says.
   */
  method WritePaths(paths: seq<seq<Byte>>, limit: Option<nat>, out: Stdout)
    returns (r: Result<(), IoError>, ghost refused: nat, ghost failedAt: nat)
    modifies out
    ensures r.Ok? ==> out.written == old(out.written) + Framed(Selected(paths, limit))
    ensures r.Ok? <==> out.AcceptedSince(|old(out.log)|)
    ensures r.Err? ==>
      FailedRun(Selected(paths, limit), failedAt, old(out.written), |old(out.log)|, out.accepts, refused, out.log, out.written)
  {
    refused := 0;
    ghost var log0, base := out.log, out.written;
    var writer := new BufWriter.WithCapacity(BUFFER_SIZE, out);
    // `paths.take(k)` when a limit is given, every path otherwise; both loops share one body
    var items := Selected(paths, limit);
    ghost var sent;
    r, failedAt, sent := WriteEach(writer, items);
    if r.Ok? {
      ghost var s2;
      r, failedAt, s2 := FinalFlush(writer, items, base, |log0|, sent);
      Assoc(log0, sent, s2);
      sent := sent + s2;
    }
    if r.Err? {
      ghost var logF, wF, bF := out.log, out.written, writer.buffer;
      assert RefusedLast(out.accepts, |log0|, |logF|);
      refused := |logF| - 1;
      writer.Drop();
      Dropped(items, failedAt, base, log0, sent, refused, out.accepts, logF, wF, bF, out.log, out.written);
    } else {
      // the writer goes out of scope with an empty buffer, so its drop writes nothing
      writer.Drop();
    }
  }

  /**
   * The `writer.flush()` that ends `write_paths`, once every path has been
   * handed over with the writes `before`. It fails only with the last
   * path's bytes still buffered, so the failure is reported as one in the
   * pass for that path.
   */
  method FinalFlush(writer: BufWriter, items: seq<seq<Byte>>, ghost base: seq<Byte>, ghost start: nat,
                    ghost before: seq<seq<Byte>>)
    returns (r: Result<(), IoError>, ghost failedAt: nat, ghost sent: seq<seq<Byte>>)
    requires start + |before| == |writer.inner.log| && writer.inner.AcceptedSince(start)
    requires Passed(base, [], Framed(items), true, before, writer.inner.written, writer.buffer)
    modifies writer, writer.inner
    ensures writer.inner.log == old(writer.inner.log) + sent
    ensures r.Ok? <==> writer.inner.AcceptedSince(start)
    ensures r.Err? ==> writer.inner.RefusedLastSince(start)
    ensures r.Ok? ==> writer.inner.written == base + Framed(items) && writer.buffer == []
    ensures r.Err? ==> failedAt < |items|
    ensures r.Err? ==> Passed(base, [], Framed(items[..failedAt + 1]), false, before + sent, writer.inner.written, writer.buffer)
    ensures r.Err? ==> Kept(Framed(items[..failedAt]), before + sent, writer.buffer)
  {
    failedAt := 0;
    ghost var l1, w1, b1 := writer.inner.log, writer.inner.written, writer.buffer;
    assert AllAccepted(writer.inner.accepts, start, |l1|);
    r, sent := writer.Flush();
    AcceptedThen(writer.inner.accepts, start, |l1|, |writer.inner.log|, r.Ok?);
    AppendEmpty(Framed(items));
    PassedThen(base, [], Framed(items), before, w1, b1, [], r.Ok?, sent, writer.inner.written, writer.buffer,
               Framed(items), before + sent, Framed(items));
    if r.Err? {
      failedAt := |items| - 1;
      FramedSnoc(items, failedAt);
      assert items[..failedAt + 1] == items;
      KeptWeaken(Framed(items[..failedAt]), items[failedAt] + NEWLINE, Framed(items), before + sent, writer.buffer);
    }
  }

  /**
   * How a failed run of `write_paths` over `items` leaves standard output,
   * which held `w0` and had been offered `start` writes before it:
   * `refused` is the first write it refused, and the only write after that
   * is the flush on dropping the writer, which offers the refused bytes
   * once more. Standard output holds the writes before the refusal and,
   * when the drop's write goes through, the refused bytes. Everything
   * offered up to the refusal lies between the framing of the paths before
   * `failedAt` and the framing up to and including it, so no later path
   * reaches standard output.
   */
  ghost predicate FailedRun(items: seq<seq<Byte>>, failedAt: nat, w0: seq<Byte>, start: nat,
                            accepts: nat -> bool, refused: nat, log: seq<seq<Byte>>, w: seq<Byte>)
  {
    start <= refused < |log| <= refused + 2 && !accepts(refused) &&
    (forall k :: start <= k < refused ==> accepts(k)) &&
    (|log| == refused + 2 ==> log[refused + 1] == log[refused]) &&
    w == w0 + Concat(log[start..refused]) + (if |log| == refused + 2 && accepts(refused + 1) then log[refused] else []) &&
    failedAt < |items| &&
    Framed(items[..failedAt]) <= Concat(log[start..refused + 1]) <= Framed(items[..failedAt + 1]) &&
    w0 <= w <= w0 + Framed(items[..failedAt + 1])
  }

  /** A failed run that kept `f` also kept everything `f` begins. */
  lemma KeptWeaken(f: seq<Byte>, more: seq<Byte>, g: seq<Byte>, sent: seq<seq<Byte>>, b: seq<Byte>)
    requires g == f + more && Kept(g, sent, b)
    ensures Kept(f, sent, b)
  {
    PrefixTrans(f, g, Concat(sent[..|sent| - 1]) + b);
  }

  /**
   * The end of a failed run: `refused` is the last chunk offered before the
   * writer is dropped, and the drop offers the buffer once more when it is
   * not empty. Standard output then holds the chunks before the refused one,
   * followed by the refused bytes only if the drop's write went through.
   */
  lemma Dropped(items: seq<seq<Byte>>, failedAt: nat, base: seq<Byte>, pre: seq<seq<Byte>>, sent: seq<seq<Byte>>,
                refused: nat, accepts: nat -> bool, log0: seq<seq<Byte>>, w0: seq<Byte>, b: seq<Byte>,
                log1: seq<seq<Byte>>, w1: seq<Byte>)
    requires failedAt < |items| && log0 == pre + sent && refused + 1 == |log0| && RefusedLast(accepts, |pre|, |log0|)
    requires Passed(base, [], Framed(items[..failedAt + 1]), false, sent, w0, b)
    requires Kept(Framed(items[..failedAt]), sent, b)
    requires b == [] ==> log1 == log0 && w1 == w0
    requires b != [] ==> log1 == log0 + [b] && w1 == if accepts(|log0|) then w0 + b else w0
    ensures FailedRun(items, failedAt, base, |pre|, accepts, refused, log1, w1)
  {
    var start := |pre|;
    assert log0[start..] == sent;
    Failed(items, failedAt, base, sent, w0, b);
    var c', last := Concat(sent[..|sent| - 1]), sent[|sent| - 1];
    DroppedLog(start, refused, accepts, log0, sent, b, log1, w0, w1);
    DroppedBytes(base, c', last, w0, w1, Framed(items[..failedAt + 1]), |log1| == refused + 2 && accepts(refused + 1));
  }

  /** The log-level reasoning behind Dropped: the drop adds at most the refused chunk again. */
  lemma DroppedLog(start: nat, refused: nat, accepts: nat -> bool, log0: seq<seq<Byte>>, sent: seq<seq<Byte>>,
                   b: seq<Byte>, log1: seq<seq<Byte>>, w0: seq<Byte>, w1: seq<Byte>)
    requires refused + 1 == |log0| && RefusedLast(accepts, start, |log0|) && sent == log0[start..]
    requires b == [] || b == sent[|sent| - 1]
    requires b == [] ==> log1 == log0 && w1 == w0
    requires b != [] ==> log1 == log0 + [b] && w1 == if accepts(|log0|) then w0 + b else w0
    ensures start <= refused < |log1| <= refused + 2 && !accepts(refused)
    ensures forall k :: start <= k < refused ==> accepts(k)
    ensures |log1| == refused + 2 ==> log1[refused + 1] == log1[refused]
    ensures log1[start..refused] == sent[..|sent| - 1] && log1[start..refused + 1] == sent
    ensures log1[refused] == sent[|sent| - 1]
    ensures w1 == if |log1| == refused + 2 && accepts(refused + 1) then w0 + sent[|sent| - 1] else w0
  {
    assert log1[..|log0|] == log0;
  }

  /** The byte-level reasoning behind Dropped, with every sequence named. */
  lemma DroppedBytes(base: seq<Byte>, c': seq<Byte>, last: seq<Byte>, w0: seq<Byte>, w1: seq<Byte>,
                     f1: seq<Byte>, added: bool)
    requires w0 == base + c' && w0 + last <= base + f1
    requires w1 == if added then w0 + last else w0
    ensures w1 == base + c' + (if added then last else [])
    ensures base <= w1 <= base + f1
  {
    AppendEmpty(w0);
    PrefixExtend(base, [], c');
    AppendEmpty(base);
    PrefixExtend(w0, [], last);
    PrefixTrans(base, w0, w0 + last);
    PrefixTrans(w0, w0 + last, base + f1);
  }

  /**
   * What a failed run leaves before the writer is dropped: the bytes offered
   * to standard output lie between the framings around the failing path, and
   * standard output holds the bytes offered before the refused chunk, which
   * end where the refused chunk begins.
   */
  lemma Failed(items: seq<seq<Byte>>, failedAt: nat, base: seq<Byte>, sent: seq<seq<Byte>>, w: seq<Byte>, b: seq<Byte>)
    requires failedAt < |items|
    requires Passed(base, [], Framed(items[..failedAt + 1]), false, sent, w, b)
    requires Kept(Framed(items[..failedAt]), sent, b)
    ensures Framed(items[..failedAt]) <= Concat(sent) <= Framed(items[..failedAt + 1])
    ensures Concat(sent) == Concat(sent[..|sent| - 1]) + sent[|sent| - 1]
    ensures w <= w + sent[|sent| - 1] <= base + Framed(items[..failedAt + 1])
  {
    var c', last := Concat(sent[..|sent| - 1]), sent[|sent| - 1];
    assert Concat(sent) == c' + last;
    assert [] + Framed(items[..failedAt + 1]) == Framed(items[..failedAt + 1]);
    FailedBytes(Framed(items[..failedAt]), Framed(items[..failedAt + 1]), c', last, Concat(sent), base, w, b);
  }

  /** The byte-level reasoning behind Failed, with every sequence named. */
  lemma FailedBytes(f0: seq<Byte>, f1: seq<Byte>, c': seq<Byte>, last: seq<Byte>, c: seq<Byte>,
                    base: seq<Byte>, w: seq<Byte>, b: seq<Byte>)
    requires c == c' + last && w == base + c'
    requires b == [] || b == last
    requires f0 <= c' + b && c <= f1
    ensures f0 <= c && w <= w + last <= base + f1
  {
    if b == [] {
      assert c' + b == c';
      PrefixExtend(c', [], last);
      PrefixTrans(f0, c', c);
    }
    PrefixExtend(w, [], last);
    assert w + last == base + c;
    PrefixExtend(base, c, f1);
  }
}
