/**
 The block cache over an open file. The file is a stub that may fail any call, read less than asked
 for, and get shorter at any time; the bytes it does read are the file's.
 */
module AssetReader {
  import opened Arithmetic
  import opened Assets
  import opened Bytes

  /** The largest size_t, which is no multiple of BUFFER_SIZE. */
  const UNKNOWN_POSITION: nat := 0xFFFF_FFFF

  /** The bytes that a read of `n` bytes at `offset` asks for. */
  function Slice(content: seq<byte>, offset: nat, n: nat): (r: seq<byte>)
  {
    if |content| <= offset then [] else content[offset..offset + Min(n, |content| - offset)]
  }

  /** The first `rc` bytes of `target` are those of the slice. */
  ghost predicate IsAnswer(slice: seq<byte>, target: seq<byte>, rc: int)
  {
    0 <= rc <= |slice| && rc <= |target| && target[..rc] == slice[..rc]
  }

  lemma Joined(content: seq<byte>, from: nat, mid: nat, to: nat)
    requires from <= mid <= to <= |content|
    ensures content[from..mid] + content[mid..to] == content[from..to]
  {
  }

  /** A file and the handle open on it. */
  class File {
    /** The bytes when the file was opened. */
    const content: seq<byte>
    /** Where the file ends now: it only gets shorter. */
    var end: nat
    var position: nat
    ghost var seeks: nat
    /** The calls that failed, and the error of the latest one. */
    ghost var failures: nat
    ghost var lastError: int

    constructor (content: seq<byte>)
      ensures this.content == content && end == |content| && position == 0 && seeks == failures == 0
    {
      failures, lastError := 0, 0;
      this.content := content;
      end := |content|;
      position := 0;
      seeks := 0;
    }

    method GetShorter()
      modifies this`end
      ensures end <= old(end)
    {
      var newEnd: nat := *;
      if newEnd < end { end := newEnd; }
    }

    /** fs_seek(): after an error the position may be anywhere. */
    method Seek(offset: nat) returns (rc: int)
      modifies this
      ensures end <= old(end) && seeks == old(seeks) + 1
      ensures rc >= 0 ==> position == offset && failures == old(failures)
      ensures rc < 0 ==> failures == old(failures) + 1 && lastError == rc
    {
      GetShorter();
      seeks := seeks + 1;
      rc := *;
      position := *;
      if rc >= 0 { position := offset; } else { failures, lastError := failures + 1, rc; }
    }

    /** fs_read() of up to `n` bytes to `buffer[at..]`: an error, the end of the file, or some of the bytes. */
    method Read(buffer: array<byte>, at: nat, n: nat) returns (rc: int)
      requires 0 < n && at + n <= buffer.Length && end <= |content|
      modifies this, buffer
      ensures end <= old(end) && seeks == old(seeks)
      ensures 0 <= rc ==> rc <= n && position == old(position) + rc && failures == old(failures)
      ensures rc < 0 ==> failures == old(failures) + 1 && lastError == rc
      ensures 0 < rc ==> position <= |content| && buffer[at..at + rc] == content[old(position)..position]
      ensures rc == 0 ==> end <= position
      ensures buffer[..at] == old(buffer[..at])
    {
      GetShorter();
      var failed: bool := *;
      if failed {
        rc := -EIO;
        failures, lastError := failures + 1, rc;
        position := *;
        buffer[at] := *;
        return;
      }
      if end <= position { return 0; }
      var count: nat := *;
      count := if count == 0 then 1 else Min(count, Min(n, end - position));
      var done := 0;
      while done < count
        invariant done <= count && position + count <= |content|
        invariant buffer[at..at + done] == content[position..position + done]
        invariant buffer[..at] == old(buffer[..at])
        modifies buffer
      {
        buffer[at + done] := content[position + done];
        done := done + 1;
      }
      position := position + count;
      rc := count;
    }
  }

  /** What the buffer holds is that part of the file. */
  ghost predicate IsMirror(held: seq<byte>, part: seq<byte>)
  {
    held == part
  }

  class AssetReader {
    var file: File
    var isOpen: bool
    var size: nat
    const buffer: array<byte>
    var bufferOffset: nat
    var bufferLength: nat
    var filePosition: nat

    /**
     The buffer mirrors its range of the file, and the recorded position is the handle's or unknown.
     */
    ghost predicate Valid()
      reads this, file, buffer
    {
      && buffer.Length == BUFFER_SIZE
      && (isOpen ==>
            && size == |file.content| <= UNKNOWN_POSITION && file.end <= size
            && bufferOffset <= size && bufferLength <= BUFFER_SIZE && bufferOffset + bufferLength <= size
            && IsMirror(buffer[..bufferLength], file.content[bufferOffset..bufferOffset + bufferLength])
            && (filePosition == UNKNOWN_POSITION || filePosition == file.position))
    }

    /** The handle is at the end of the buffered block, or at the start of the file with nothing buffered. */
    ghost predicate IsInSequence()
      reads this
    {
      && filePosition == bufferOffset + bufferLength
      && bufferOffset % BUFFER_SIZE == 0
      && bufferLength in {0, BUFFER_SIZE, size - bufferOffset}
    }

    /** `offset` is in the buffered block or right after it, where the handle is. */
    ghost predicate Continues(offset: nat)
      reads this
    {
      IsInSequence() && bufferOffset <= offset <= bufferOffset + bufferLength
    }

    /** A read that gives less than the slice stopped where the file ends by now. */
    ghost predicate IsShortOnlyAtEnd(offset: nat, n: nat, rc: int)
      reads this, file
    {
      rc < |Slice(file.content, offset, n)| ==> file.end <= offset + rc
    }

    /** An answer is an error exactly when a call of the file failed since there were `before` failures: its error. */
    ghost predicate IsCounted(rc: int, before: nat)
      reads this`file, file
    {
      if rc < 0 then file.failures > before && rc == file.lastError else file.failures == before
    }

    /** A reader of a file just opened, as OpenRead() leaves it. */
    constructor (file: File)
      requires file.end == |file.content| <= UNKNOWN_POSITION && file.position == 0
      ensures Valid() && isOpen && this.file == file && IsInSequence() && fresh(buffer)
    {
      this.file := file;
      isOpen := true;
      size := |file.content|;
      buffer := new byte[BUFFER_SIZE];
      bufferOffset := 0;
      bufferLength := 0;
      filePosition := 0;
    }

    method Close()
      requires Valid()
      modifies this
      ensures Valid() && !isOpen && file == old(file)
      ensures old(isOpen) ==> size == bufferOffset == bufferLength == filePosition == 0
    {
      if !isOpen { return; }
      isOpen := false;
      size := 0;
      bufferOffset := 0;
      bufferLength := 0;
      filePosition := 0;
    }

    /** Buffers the block at `blockOffset`, with a seek only when the handle is not there. */
    method Fill(blockOffset: nat) returns (rc: int)
      requires Valid() && isOpen && blockOffset < size && blockOffset % BUFFER_SIZE == 0
      modifies this, file, buffer
      ensures Valid() && isOpen && file == old(file) && size == old(size) && rc <= 0
      ensures file.end <= old(file.end) && bufferOffset == blockOffset
      ensures rc == 0 ==> filePosition == bufferOffset + bufferLength
      ensures rc == 0 && bufferLength < Min(BUFFER_SIZE, size - blockOffset) ==> file.end <= bufferOffset + bufferLength
      ensures file.seeks == old(file.seeks) + if old(filePosition) == blockOffset then 0 else 1
      ensures IsCounted(rc, old(file.failures))
    {
      bufferOffset := blockOffset;
      bufferLength := 0;
      rc := MoveTo(blockOffset);
      if rc < 0 { return; }
      var filled;
      rc, filled := ReadBlock(blockOffset, Min(BUFFER_SIZE, size - blockOffset));
      if rc < 0 { return; }
      bufferLength := filled;
    }

    /** Seeks unless the handle is known to be there already. */
    method MoveTo(blockOffset: nat) returns (rc: int)
      requires filePosition == UNKNOWN_POSITION || filePosition == file.position
      requires blockOffset % BUFFER_SIZE == 0
      modifies this`filePosition, file
      ensures file.end <= old(file.end) && rc <= 0
      ensures if rc == 0 then filePosition == file.position == blockOffset else filePosition == UNKNOWN_POSITION
      ensures file.seeks == old(file.seeks) + if old(filePosition) == blockOffset then 0 else 1
      ensures IsCounted(rc, old(file.failures))
    {
      if filePosition != blockOffset {
        filePosition := UNKNOWN_POSITION;
        rc := file.Seek(blockOffset);
        if rc < 0 { return; }
        filePosition := blockOffset;
      }
      rc := 0;
    }

    /** Reads until the block is complete, the file ends, or a read fails. */
    method ReadBlock(blockOffset: nat, expected: nat) returns (rc: int, filled: nat)
      requires buffer.Length == BUFFER_SIZE && expected <= BUFFER_SIZE && blockOffset + expected <= |file.content|
      requires filePosition == file.position == blockOffset && file.end <= |file.content|
      modifies this`filePosition, file, buffer
      ensures file.end <= old(file.end) && file.seeks == old(file.seeks) && rc <= 0
      ensures rc < 0 ==> filePosition == UNKNOWN_POSITION
      ensures rc == 0 ==> filled <= expected && filePosition == file.position == blockOffset + filled
      ensures rc == 0 ==> buffer[..filled] == file.content[blockOffset..blockOffset + filled]
      ensures rc == 0 && filled < expected ==> file.end <= blockOffset + filled
      ensures IsCounted(rc, old(file.failures))
    {
      filled := 0;
      while filled < expected
        invariant filled <= expected && filePosition == file.position == blockOffset + filled
        invariant file.end <= old(file.end) && file.seeks == old(file.seeks) && file.failures == old(file.failures)
        invariant buffer[..filled] == file.content[blockOffset..blockOffset + filled]
      {
        rc := file.Read(buffer, filled, expected - filled);
        if rc < 0 {
          filePosition := UNKNOWN_POSITION;
          return;
        }
        if rc == 0 { return; }
        assert buffer[..filled + rc] == buffer[..filled] + buffer[filled..filled + rc];
        Joined(file.content, blockOffset, blockOffset + filled, blockOffset + filled + rc);
        filled := filled + rc;
        filePosition := filePosition + rc;
      }
      rc := 0;
    }

    /**
     Reads up to `target.Length` bytes from `offset`. What it gives are the bytes of the file as it was opened,
     and it stops before the end of the slice only where the file ends by now.
     */
    method Read(offset: nat, target: array<byte>) returns (rc: int)
      requires Valid() && target != buffer
      modifies this, file, buffer, target
      ensures Valid() && isOpen == old(isOpen) && file == old(file) && file.end <= old(file.end)
      ensures !old(isOpen) ==> rc == -EBADF
      ensures old(isOpen) && 0 <= rc ==>
        IsAnswer(Slice(file.content, offset, target.Length), target[..], rc) && IsShortOnlyAtEnd(offset, target.Length, rc)
      ensures old(isOpen) && 0 <= rc && file.end == |file.content| ==> target[..rc] == Slice(file.content, offset, target.Length)
      ensures old(isOpen && Continues(offset)) && 0 <= rc && file.end == |file.content| ==>
        file.seeks == old(file.seeks) && IsInSequence()
      ensures old(isOpen) ==> IsCounted(rc, old(file.failures))
      ensures old(isOpen) && file.failures == old(file.failures) && file.end == |file.content| ==>
        && rc == (if |file.content| <= offset then 0 else Min(target.Length, |file.content| - offset))
        && forall k :: 0 <= k < rc ==> target[k] == file.content[offset + k]
    {
      if !isOpen { return -EBADF; }
      if target.Length == 0 || size <= offset { return 0; }
      rc := ReadSlice(offset, Min(target.Length, size - offset), target);
      forall k | 0 <= k < rc ensures target[k] == file.content[offset + k] {
        assert target[..rc][k] == file.content[offset..offset + rc][k];
      }
    }

    /** The loop of Read(), for `length` bytes that the file had when it was opened. */
    method ReadSlice(offset: nat, length: nat, target: array<byte>) returns (rc: int)
      requires Valid() && isOpen && target != buffer && length <= target.Length && offset + length <= size
      modifies this, file, buffer, target
      ensures Valid() && isOpen && file == old(file) && file.end <= old(file.end)
      ensures 0 <= rc ==> rc <= length && target[..rc] == file.content[offset..offset + rc] && (rc < length ==> file.end <= offset + rc)
      ensures old(Continues(offset)) && 0 <= rc && file.end == |file.content| ==>
        file.seeks == old(file.seeks) && Continues(offset + rc)
      ensures IsCounted(rc, old(file.failures))
    {
      hide IsInSequence, IsMirror;
      var copied := 0;
      while copied < length
        invariant Valid() && isOpen && file == old(file) && file.end <= old(file.end) && size == old(size)
        invariant file.failures == old(file.failures)
        invariant copied <= length && target[..copied] == file.content[offset..offset + copied]
        invariant old(Continues(offset)) && file.end == size ==> file.seeks == old(file.seeks) && Continues(offset + copied)
        decreases length - copied
      {
        var position := offset + copied;
        rc := Cover(position);
        if rc < 0 { return; }
        if bufferOffset + bufferLength <= position { break; }
        var inBuffer := position - bufferOffset;
        var chunk := Min(length - copied, bufferLength - inBuffer);
        CopyOut(inBuffer, chunk, target, copied, offset);
        copied := copied + chunk;
      }
      rc := copied;
    }

    /** Gets `position` into the buffer unless it is there already; afterwards only the end of the file keeps it out. */
    method Cover(position: nat) returns (rc: int)
      requires Valid() && isOpen && position < size
      modifies this, file, buffer
      ensures Valid() && isOpen && file == old(file) && size == old(size) && rc <= 0 && file.end <= old(file.end)
      ensures rc == 0 ==> bufferOffset <= position && (bufferOffset + bufferLength <= position ==> file.end <= position)
      ensures old(Continues(position)) && rc == 0 && file.end == size ==> file.seeks == old(file.seeks) && Continues(position)
      ensures IsCounted(rc, old(file.failures))
    {
      rc := 0;
      if position < bufferOffset || bufferOffset + bufferLength <= position {
        rc := Fill(position - position % BUFFER_SIZE);
      }
    }

    /** memcpy() of buffered bytes, which continue the bytes from `offset` that `target` holds so far. */
    method CopyOut(from: nat, count: nat, target: array<byte>, at: nat, ghost offset: nat)
      requires Valid() && isOpen && from + count <= bufferLength && at + count <= target.Length && target != buffer
      requires offset + at == bufferOffset + from && target[..at] == file.content[offset..offset + at]
      modifies target
      ensures target[..at + count] == file.content[offset..offset + at + count]
    {
      for i := 0 to count
        invariant target[..at + i] == file.content[offset..offset + at + i]
      {
        assert buffer[from + i] == buffer[..bufferLength][from + i];
        target[at + i] := buffer[from + i];
      }
    }
  }
}
