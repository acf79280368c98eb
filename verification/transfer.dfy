/**
 Downloading and uploading one file between a share and the local file
 system, with the 1024-byte chunked copy both directions share. File handles
 and the data behind them are abstract: an open call is represented by the
 descriptor it returned, the file being read by its bytes, and the read and
 write calls by sequences of the values they returned, one per loop iteration.
 */
module Transfer {
  import opened Wrappers
  import opened Bytes

  /** The size of the copy buffer. */
  const ChunkSize := 1024

  /**
   A file opened for reading. `replies[k]` describes the k-th read call: negative
   for an I/O error; otherwise how many bytes the system is willing to hand over,
   which is clamped to one buffer and to what is left, and at least one byte
   comes back while any is left. Once `replies` runs out, every read fills the buffer.
   */
  datatype Source = Source(fd: int, data: seq<byte>, replies: seq<int>)

  /**
   A file opened for writing. `accepts[k]` describes the k-th write call:
   negative for an error, otherwise how many bytes it takes, which `WriteReturn`
   clamps to the bytes offered, so any value of at least 1024 is a complete
   write. Once `accepts` runs out, every write is complete.
   */
  datatype Sink = Sink(fd: int, accepts: seq<int>)

  function Nth(values: seq<int>, k: nat, otherwise: int): int {
    if k < |values| then values[k] else otherwise
  }

  function Min(a: int, b: int): int {
    if a <= b then a else b
  }

  /** What one read call at offset `pos` returns: an error, 0 at end of data, or a positive count. */
  function ReadReturn(data: seq<byte>, pos: nat, want: int): (n: int)
    requires pos <= |data|
    ensures n < 0 <==> want < 0
    ensures n == 0 <==> want >= 0 && pos == |data|
    ensures n <= ChunkSize && pos + n <= |data|
  {
    if want < 0 then want
    else if pos == |data| then 0
    else if want < 1 then 1
    else Min(want, Min(ChunkSize, |data| - pos))
  }

  /** What one write call of `n` bytes returns: negative on error, otherwise how many bytes it took. */
  function WriteReturn(n: nat, reply: int): (w: int)
    ensures w <= n
    ensures w < 0 <==> reply < 0
    ensures reply >= n ==> w == n
  {
    if reply < 0 then reply else Min(reply, n)
  }

  /** Why the copy loop stopped. */
  datatype Stop = EndOfData | ReadError | ShortWrite

  datatype Copied = Copied(written: seq<byte>, stop: Stop)

  /** The copy from offset `pos` on, at loop iteration `k`, everything before `pos` already written. */
  function CopyFrom(data: seq<byte>, pos: nat, k: nat, replies: seq<int>, accepts: seq<int>): (c: Copied)
    requires pos <= |data|
    ensures c.written <= data
    ensures |c.written| >= pos
    ensures c.stop == EndOfData ==> c.written == data
    ensures c.stop == ShortWrite ==> |c.written| < |data|
    decreases |data| - pos
  {
    var n := ReadReturn(data, pos, Nth(replies, k, ChunkSize));
    if n == 0 then Copied(data, EndOfData)
    else if n < 0 then Copied(data[..pos], ReadError)
    else
      var w := WriteReturn(n, Nth(accepts, k, n));
      if w != n then
        Copied(data[..pos + (if w < 0 then 0 else w)], ShortWrite)
      else
        CopyFrom(data, pos + n, k + 1, replies, accepts)
  }

  /**
   The whole copy loop: the destination is always a prefix of the source, and
   equals it when the source reached its end.
   */
  function Copy(data: seq<byte>, replies: seq<int>, accepts: seq<int>): (c: Copied)
    ensures c.written <= data
    ensures c.stop == EndOfData ==> c.written == data
  {
    CopyFrom(data, 0, 0, replies, accepts)
  }

  /**
   The copy loop as written: read into the buffer while the read returns a
   positive count, write what was read, stop on the first write that does not
   take it all. Only a short write makes the result false; a read error ends
   the loop as if the data had ended.
   */
  method CopyChunks(data: seq<byte>, replies: seq<int>, accepts: seq<int>) returns (written: seq<byte>, success: bool)
    ensures written <= data
    ensures written == Copy(data, replies, accepts).written
    ensures success <==> Copy(data, replies, accepts).stop != ShortWrite
  {
    written := [];
    success := true;
    var pos := 0;
    var k := 0;
    var n := ReadReturn(data, pos, Nth(replies, k, ChunkSize));
    while n > 0
      invariant 0 <= pos <= |data|
      invariant written == data[..pos]
      invariant n == ReadReturn(data, pos, Nth(replies, k, ChunkSize))
      invariant Copy(data, replies, accepts) == CopyFrom(data, pos, k, replies, accepts)
      decreases |data| - pos
    {
      var w := WriteReturn(n, Nth(accepts, k, n));
      if w != n {
        written := written + data[pos..pos + (if w < 0 then 0 else w)];
        success := false;
        break;
      }
      written := written + data[pos..pos + n];
      pos := pos + n;
      k := k + 1;
      n := ReadReturn(data, pos, Nth(replies, k, ChunkSize));
    }
    if success {
      assert n == 0 ==> data[..pos] == data;
    }
  }

  /** Without read errors the copy ends only at the end of the data or at a short write. */
  lemma {:induction false} NoReadErrorWithoutFailedRead(data: seq<byte>, pos: nat, k: nat, replies: seq<int>, accepts: seq<int>)
    requires pos <= |data|
    requires forall i :: 0 <= i < |replies| ==> replies[i] >= 0
    ensures CopyFrom(data, pos, k, replies, accepts).stop != ReadError
    decreases |data| - pos
  {
    var n := ReadReturn(data, pos, Nth(replies, k, ChunkSize));
    if n > 0 && WriteReturn(n, Nth(accepts, k, n)) == n {
      NoReadErrorWithoutFailedRead(data, pos + n, k + 1, replies, accepts);
    }
  }

  /**
   With no read error and every write complete (each accept at least one
   buffer, which covers every chunk size), the destination is an exact copy.
   */
  lemma {:induction false} CleanCopyIsExact(data: seq<byte>, pos: nat, k: nat, replies: seq<int>, accepts: seq<int>)
    requires pos <= |data|
    requires forall i :: 0 <= i < |replies| ==> replies[i] >= 0
    requires forall i :: 0 <= i < |accepts| ==> accepts[i] >= ChunkSize
    ensures CopyFrom(data, pos, k, replies, accepts) == Copied(data, EndOfData)
    decreases |data| - pos
  {
    var n := ReadReturn(data, pos, Nth(replies, k, ChunkSize));
    if n > 0 {
      CleanCopyIsExact(data, pos + n, k + 1, replies, accepts);
    }
  }

  // ---------------------------------------------------------------------------
  // Opening, closing and the two transfer directions.
  // ---------------------------------------------------------------------------

  datatype Side = Remote | Local
  datatype Mode = ReadOnly | WriteCreateTruncate

  /** The open and close calls a transfer makes, in order; `fd` is what the open returned. */
  datatype Io = Open(side: Side, target: string, mode: Mode, fd: int) | Close(side: Side)

  /**
   The result of a transfer: the returned flag, the destination's content
   afterwards if the destination was opened (it is truncated on open and never
   removed), and the calls made.
   */
  datatype Transfer = Transfer(success: bool, destination: Option<seq<byte>>, calls: seq<Io>)

  /** What one call does to the handle of `side`: `true` for a successful open, `false` for a close. */
  function Effect(c: Io, side: Side): seq<bool> {
    if c.Open? && c.side == side && c.fd >= 0 then [true]
    else if c == Close(side) then [false]
    else []
  }

  /** The successful opens and the closes of one side's handle, in call order. */
  function Lifecycle(calls: seq<Io>, side: Side): seq<bool>
    decreases |calls|
  {
    if |calls| == 0 then []
    else Lifecycle(calls[..|calls| - 1], side) + Effect(calls[|calls| - 1], side)
  }

  /**
   Each side's handle is either never opened, or opened once and then closed
   exactly once.
   */
  ghost predicate ClosedOnce(calls: seq<Io>) {
    forall side: Side :: Lifecycle(calls, side) == [] || Lifecycle(calls, side) == [true, false]
  }

  lemma LifecycleOfOne(a: Io, side: Side)
    ensures Lifecycle([a], side) == Effect(a, side)
  {
  }

  lemma LifecycleOfThree(a: Io, b: Io, c: Io, side: Side)
    ensures Lifecycle([a, b, c], side) == Effect(a, side) + Effect(b, side) + Effect(c, side)
  {
    assert [a, b, c][..2] == [a, b] && [a, b][..1] == [a];
    LifecycleOfOne(a, side);
  }

  lemma LifecycleOfFour(a: Io, b: Io, c: Io, d: Io, side: Side)
    ensures Lifecycle([a, b, c, d], side) == Effect(a, side) + Effect(b, side) + Effect(c, side) + Effect(d, side)
  {
    assert [a, b, c, d][..3] == [a, b, c];
    LifecycleOfThree(a, b, c, side);
  }

  /** Two opens on different sides, the first successful and the second not, then a close of the first. */
  lemma SecondOpenFailedClosesFirst(a: Io, b: Io)
    requires a.Open? && a.fd >= 0 && b.Open? && b.fd < 0
    ensures ClosedOnce([a, b, Close(a.side)])
  {
    forall side: Side
      ensures Lifecycle([a, b, Close(a.side)], side) == (if side == a.side then [true, false] else [])
    {
      LifecycleOfThree(a, b, Close(a.side), side);
    }
  }

  /** Two successful opens on the two sides, then a close of each. */
  lemma BothOpenedBothClosed(a: Io, b: Io)
    requires a.Open? && a.fd >= 0 && b.Open? && b.fd >= 0 && a.side != b.side
    ensures ClosedOnce([a, b, Close(b.side), Close(a.side)])
  {
    forall side: Side
      ensures Lifecycle([a, b, Close(b.side), Close(a.side)], side) == [true, false]
    {
      LifecycleOfFour(a, b, Close(b.side), Close(a.side), side);
    }
  }

  lemma FirstOpenFailed(a: Io)
    requires a.Open? && a.fd < 0
    ensures ClosedOnce([a])
  {
  }

  /** The transfer URL: "smb://" ip "/" share "/" path, with no port, unlike the probe URL. */
  function FileUrl(ip: string, share: string, path: string): string {
    "smb://" + ip + "/" + share + "/" + path
  }

  /**
   Download a remote file to a local path. A failed remote open returns false
   before the local file is touched; a failed local open closes the remote
   handle and returns false; otherwise the copy runs and both handles are closed.
   */
  function Download(ip: string, share: string, remotePath: string, localPath: string, remote: Source, local: Sink): (t: Transfer)
    ensures |t.calls| >= 1 && t.calls[0] == Open(Remote, FileUrl(ip, share, remotePath), ReadOnly, remote.fd)
    ensures remote.fd < 0 ==> !t.success && t.destination == None && |t.calls| == 1
    ensures remote.fd >= 0 ==> |t.calls| >= 2 && t.calls[1] == Open(Local, localPath, WriteCreateTruncate, local.fd)
    ensures remote.fd >= 0 && local.fd < 0 ==>
              !t.success && t.destination == None && t.calls[|t.calls| - 1] == Close(Remote)
    ensures remote.fd >= 0 && local.fd >= 0 ==>
              var c := Copy(remote.data, remote.replies, local.accepts);
              t.destination == Some(c.written) && (t.success <==> c.stop != ShortWrite)
    ensures t.destination.Some? <==> remote.fd >= 0 && local.fd >= 0
    ensures t.destination.Some? ==> t.destination.value <= remote.data
    ensures t.success ==> t.destination.Some?
    ensures ClosedOnce(t.calls)
  {
    var src := Open(Remote, FileUrl(ip, share, remotePath), ReadOnly, remote.fd);
    if remote.fd < 0 then
      FirstOpenFailed(src);
      Transfer(false, None, [src])
    else
      var dst := Open(Local, localPath, WriteCreateTruncate, local.fd);
      if local.fd < 0 then
        var calls := [src, dst, Close(Remote)];
        SecondOpenFailedClosesFirst(src, dst);
        Transfer(false, None, calls)
      else
        var c := Copy(remote.data, remote.replies, local.accepts);
        var calls := [src, dst, Close(Local), Close(Remote)];
        BothOpenedBothClosed(src, dst);
        Transfer(c.stop != ShortWrite, Some(c.written), calls)
  }

  /**
   Upload a local file to a share, the mirror image of `Download`: a failed
   local open returns false before the remote side is touched; a failed
   remote open closes the local handle and returns false.
   */
  function Upload(ip: string, share: string, localPath: string, remotePath: string, local: Source, remote: Sink): (t: Transfer)
    ensures |t.calls| >= 1 && t.calls[0] == Open(Local, localPath, ReadOnly, local.fd)
    ensures local.fd < 0 ==> !t.success && t.destination == None && |t.calls| == 1
    ensures local.fd >= 0 ==> |t.calls| >= 2 && t.calls[1] == Open(Remote, FileUrl(ip, share, remotePath), WriteCreateTruncate, remote.fd)
    ensures local.fd >= 0 && remote.fd < 0 ==>
              !t.success && t.destination == None && t.calls[|t.calls| - 1] == Close(Local)
    ensures local.fd >= 0 && remote.fd >= 0 ==>
              var c := Copy(local.data, local.replies, remote.accepts);
              t.destination == Some(c.written) && (t.success <==> c.stop != ShortWrite)
    ensures t.destination.Some? <==> local.fd >= 0 && remote.fd >= 0
    ensures t.destination.Some? ==> t.destination.value <= local.data
    ensures t.success ==> t.destination.Some?
    ensures ClosedOnce(t.calls)
  {
    var src := Open(Local, localPath, ReadOnly, local.fd);
    if local.fd < 0 then
      FirstOpenFailed(src);
      Transfer(false, None, [src])
    else
      var dst := Open(Remote, FileUrl(ip, share, remotePath), WriteCreateTruncate, remote.fd);
      if remote.fd < 0 then
        var calls := [src, dst, Close(Local)];
        SecondOpenFailedClosesFirst(src, dst);
        Transfer(false, None, calls)
      else
        var c := Copy(local.data, local.replies, remote.accepts);
        var calls := [src, dst, Close(Remote), Close(Local)];
        BothOpenedBothClosed(src, dst);
        Transfer(c.stop != ShortWrite, Some(c.written), calls)
  }

  /** A successful transfer whose source never failed a read delivers the whole source. */
  lemma SuccessWithoutReadErrorIsComplete(data: seq<byte>, replies: seq<int>, accepts: seq<int>)
    requires forall i :: 0 <= i < |replies| ==> replies[i] >= 0
    ensures Copy(data, replies, accepts).stop != ShortWrite ==> Copy(data, replies, accepts).written == data
  {
    NoReadErrorWithoutFailedRead(data, 0, 0, replies, accepts);
  }

  /**
   Round trip: uploading a file and downloading it again gives back the same
   bytes, when both transfers report success and neither source failed a read.
   */
  lemma UploadThenDownload(ip: string, share: string, localA: string, remotePath: string, localB: string,
                           original: Source, remoteIn: Sink, remoteFd: int, remoteReplies: seq<int>, localOut: Sink)
    requires forall i :: 0 <= i < |original.replies| ==> original.replies[i] >= 0
    requires forall i :: 0 <= i < |remoteReplies| ==> remoteReplies[i] >= 0
    ensures var up := Upload(ip, share, localA, remotePath, original, remoteIn);
            up.success ==>
              var down := Download(ip, share, remotePath, localB, Source(remoteFd, up.destination.value, remoteReplies), localOut);
              down.success ==> down.destination == Some(original.data)
  {
    var up := Upload(ip, share, localA, remotePath, original, remoteIn);
    if up.success {
      SuccessWithoutReadErrorIsComplete(original.data, original.replies, remoteIn.accepts);
      var down := Download(ip, share, remotePath, localB, Source(remoteFd, up.destination.value, remoteReplies), localOut);
      if down.success {
        SuccessWithoutReadErrorIsComplete(up.destination.value, remoteReplies, localOut.accepts);
      }
    }
  }
}
