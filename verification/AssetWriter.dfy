/**
 The staged write: appended bytes collect in a buffer, go to a staged file, and replace the target
 only on commit. The volume is a stub whose every call may fail.
 */
module AssetWriter {
  import opened Assets
  import opened Bytes

  /** A call of the volume that did not do all it was asked for. */
  datatype Failure = WriteFailed(rc: int) | WriteShort | CloseFailed(rc: int) | NoDirectory | RenameFailed(rc: int)

  /** What the first failure of a write is answered with. */
  function Outcome(failed: seq<Failure>): int
  {
    if failed == [] then 0
    else
      match failed[0]
      case WriteFailed(rc) => rc
      case WriteShort => -ENOSPC
      case CloseFailed(rc) => rc
      case NoDirectory => -EIO
      case RenameFailed(rc) => rc
  }

  /** The two files of a write on their volume. */
  class Volume {
    var staged: Option<seq<byte>>
    var target: Option<seq<byte>>
    ghost var renames: nat
    /** The calls that failed or came up short, in order. */
    ghost var failed: seq<Failure>
    /** The handle on the staged file was closed, and the directory of the target was found or made. */
    ghost var isClosed: bool
    ghost var hasDirectory: bool
    /** Deleting the staged file was asked for. */
    ghost var wasDiscarded: bool

    constructor (target: Option<seq<byte>>)
      ensures staged == Some([]) && this.target == target && renames == 0 && failed == [] && !isClosed && !wasDiscarded
    {
      isClosed, hasDirectory, wasDiscarded := false, false, false;
      staged := Some([]);
      this.target := target;
      renames := 0;
      failed := [];
    }

    /** fs_write() at the end of the staged file: all of the bytes, some of them, or an error. */
    method Write(data: seq<byte>) returns (rc: int)
      requires !isClosed
      modifies this`staged, this`failed
      ensures rc <= |data|
      ensures rc == |data| && old(staged).Some? ==> staged == Some(old(staged).value + data)
      ensures failed == old(failed) + (if rc < 0 then [WriteFailed(rc)] else if rc < |data| then [WriteShort] else [])
    {
      rc := *;
      if |data| <= rc { rc := |data|; }
      failed := failed + if rc < 0 then [WriteFailed(rc)] else if rc < |data| then [WriteShort] else [];
      if rc < |data| || staged.None? {
        staged := *;
      } else {
        staged := Some(staged.value + data);
      }
    }

    /** fs_close(): after an error the staged bytes are unknown. */
    method Close() returns (rc: int)
      requires !isClosed
      modifies this`staged, this`failed, this`isClosed
      ensures rc <= 0 && (rc == 0 ==> staged == old(staged)) && isClosed
      ensures failed == old(failed) + (if rc < 0 then [CloseFailed(rc)] else [])
    {
      isClosed := true;
      rc := *;
      if rc > 0 { rc := 0; }
      failed := failed + if rc < 0 then [CloseFailed(rc)] else [];
      if rc < 0 { staged := *; }
    }

    /** Whether the directory of the target is there by now. */
    method EnsureDirectory() returns (ok: bool)
      modifies this`failed, this`hasDirectory
      ensures failed == old(failed) + (if ok then [] else [NoDirectory]) && hasDirectory == ok
    {
      ok := *;
      hasDirectory := ok;
      failed := failed + if ok then [] else [NoDirectory];
    }

    /** Rename() of the staged file to the target, which a failure may have deleted or replaced already. */
    method Rename() returns (rc: int)
      requires isClosed && hasDirectory
      modifies this
      ensures rc <= 0 && renames == old(renames) + 1 && isClosed && wasDiscarded == old(wasDiscarded)
      ensures rc == 0 ==> target == old(staged) && staged == None
      ensures failed == old(failed) + (if rc < 0 then [RenameFailed(rc)] else [])
    {
      renames := renames + 1;
      rc := *;
      if rc > 0 || staged.None? { rc := -EIO; }
      failed := failed + if rc < 0 then [RenameFailed(rc)] else [];
      if rc == 0 {
        target, staged := staged, None;
      } else {
        target := *;
      }
    }

    /** Deletes the staged file, which is closed, if it can. */
    method Discard()
      requires isClosed
      modifies this`staged, this`wasDiscarded
      ensures wasDiscarded
    {
      wasDiscarded := true;
      staged := *;
    }
  }

  /** The file followed by `rest` is `whole`. */
  ghost predicate Completes(file: Option<seq<byte>>, rest: seq<byte>, whole: seq<byte>)
  {
    file.Some? && file.value + rest == whole
  }

  class AssetWriter {
    const volume: Volume
    const buffer: array<byte>
    var isOpen: bool
    var error: int
    var buffered: nat
    var written: nat
    var writeCounter: u32
    /** All bytes appended so far. */
    ghost var appended: seq<byte>

    /** While no write failed, the staged file followed by the buffer is what was appended. */
    ghost predicate Valid()
      reads this, volume, buffer
    {
      && buffer.Length == BUFFER_SIZE && error <= 0 && written == |appended|
      && (isOpen ==> !volume.isClosed && error == Outcome(volume.failed) && (error == 0 ==> volume.failed == []))
      && (isOpen && error == 0 ==>
            buffered < BUFFER_SIZE && Completes(volume.staged, buffer[..buffered], appended))
    }

    /** A write just begun, as BeginWrite() leaves it. */
    constructor (volume: Volume, writeCounter: u32)
      requires volume.staged == Some([]) && volume.failed == [] && !volume.isClosed
      ensures Valid() && isOpen && error == 0 && appended == [] && this.volume == volume && fresh(buffer)
      ensures this.writeCounter == writeCounter
    {
      this.volume := volume;
      buffer := new byte[BUFFER_SIZE];
      isOpen := true;
      error := 0;
      buffered := 0;
      written := 0;
      this.writeCounter := writeCounter;
      appended := [];
    }

    /** Writes the buffer out. A short write means a full volume. */
    method Flush() returns (rc: int)
      requires buffer.Length == BUFFER_SIZE && buffered <= BUFFER_SIZE && error == 0
      requires Completes(volume.staged, buffer[..buffered], appended) && volume.failed == [] && !volume.isClosed
      modifies this`error, this`buffered, volume`staged, volume`failed
      ensures rc == error == Outcome(volume.failed) <= 0 && (rc == 0 ==> volume.failed == [])
      ensures volume.failed != [] ==> !volume.failed[0].RenameFailed?
      ensures rc == 0 ==> buffered == 0 && volume.staged == Some(appended)
    {
      if buffered == 0 {
        assert volume.staged.value + buffer[..0] == volume.staged.value;
        return 0;
      }
      rc := volume.Write(buffer[..buffered]);
      if rc < 0 {
        error := rc;
      } else if rc != buffered {
        error := -ENOSPC;
      } else {
        buffered := 0;
      }
      rc := error;
    }

    /** 0 with all of `data` appended, or the first error of a write, from then on the answer to every call. */
    method Append(data: seq<byte>) returns (rc: int)
      requires Valid()
      modifies this`error, this`buffered, this`written, this`appended, buffer, volume`staged, volume`failed
      ensures Valid()
      ensures !isOpen ==> rc == -EBADF
      ensures !isOpen || old(error) != 0 ==> Unchanged(old(error), old(written), old(appended), old(volume.staged), old(volume.failed))
      ensures isOpen ==> rc == Outcome(volume.failed) && (rc == 0 <==> volume.failed == [])
      ensures isOpen ==> old(volume.failed) <= volume.failed && (old(volume.failed) == [] && volume.failed != [] ==> !volume.failed[0].RenameFailed?)
      ensures isOpen ==> rc == error && (old(error) != 0 ==> rc == old(error))
      ensures isOpen && rc == 0 ==> appended == old(appended) + data
    {
      if !isOpen { return -EBADF; }
      if error != 0 { return error; }
      var offset := 0;
      while offset < |data|
        invariant Valid() && isOpen && error == 0 && offset <= |data| && appended == old(appended) + data[..offset]
        decreases |data| - offset
      {
        var length := if |data| - offset < BUFFER_SIZE - buffered then |data| - offset else BUFFER_SIZE - buffered;
        Collect(data[offset..offset + length]);
        assert data[..offset + length] == data[..offset] + data[offset..offset + length];
        offset := offset + length;
        if buffered == BUFFER_SIZE {
          rc := Flush();
          if rc != 0 { return; }
          assert buffer[..0] == [];
        }
      }
      assert data[..|data|] == data;
      rc := 0;
    }

    ghost predicate Unchanged(error: int, written: nat, appended: seq<byte>, staged: Option<seq<byte>>, failed: seq<Failure>)
      reads this, volume
    {
      this.error == error && this.written == written && this.appended == appended && volume.staged == staged && volume.failed == failed
    }

    /** memcpy() to the end of the buffer. */
    method Collect(data: seq<byte>)
      requires buffer.Length == BUFFER_SIZE && buffered + |data| <= BUFFER_SIZE && written == |appended|
      requires Completes(volume.staged, buffer[..buffered], appended)
      modifies this`buffered, this`written, this`appended, buffer
      ensures buffered == old(buffered) + |data| && written == |appended| && appended == old(appended) + data
      ensures Completes(volume.staged, buffer[..buffered], appended)
    {
      for i := 0 to |data|
        invariant buffer[..buffered + i] == old(buffer[..buffered]) + data[..i]
        modifies buffer
      {
        buffer[buffered + i] := data[i];
      }
      buffered := buffered + |data|;
      written := written + |data|;
      appended := appended + data;
    }

    /**
     0 exactly when no call failed, with the target exactly what was appended; otherwise what the first failure is
     answered with. After a failure before the rename nothing is renamed and the target is as it was.
     */
    method Commit() returns (rc: int)
      requires Valid()
      modifies this, volume
      ensures Valid() && !isOpen
      ensures !old(isOpen) ==> rc == -EBADF && volume.target == old(volume.target) && writeCounter == old(writeCounter)
      ensures old(isOpen) ==> writeCounter == (old(writeCounter) + 1) % 0x1_0000_0000
      ensures rc == 0 ==> old(isOpen && error == 0) && volume.target == Some(old(appended))
      ensures old(isOpen && error != 0) ==> rc == old(error)
      ensures volume.renames <= old(volume.renames) + 1
      ensures !old(isOpen) || old(error != 0) ==> volume.renames == old(volume.renames)
      ensures volume.renames == old(volume.renames) ==> volume.target == old(volume.target)
      ensures old(isOpen) ==> rc == Outcome(volume.failed) && (rc == 0 <==> volume.failed == [])
      ensures old(isOpen) && rc != 0 ==> volume.wasDiscarded
      ensures old(isOpen) ==> buffered == 0
      ensures old(isOpen) && volume.failed == [] ==> volume.target == Some(old(appended))
      ensures old(isOpen && error == 0) ==>
        (volume.renames == old(volume.renames) <==> volume.failed != [] && !volume.failed[0].RenameFailed?)
    {
      if !isOpen { return -EBADF; }
      rc := error;
      if error == 0 { rc := Flush(); }
      var closeResult := volume.Close();
      isOpen := false;
      if rc == 0 { rc := closeResult; }
      if rc == 0 {
        var ok := volume.EnsureDirectory();
        if !ok { rc := -EIO; }
      }
      if rc == 0 { rc := volume.Rename(); }
      if rc != 0 { volume.Discard(); }
      writeCounter := (writeCounter + 1) % 0x1_0000_0000;
      buffered := 0;
    }

    /** Closes without touching the target. */
    method Abort()
      requires Valid()
      modifies this, volume`staged, volume`failed, volume`isClosed, volume`wasDiscarded
      ensures Valid() && !isOpen && writeCounter == old(writeCounter) && appended == old(appended) && written == old(written)
      ensures error == if old(isOpen) then 0 else old(error)
      ensures old(isOpen) ==> buffered == 0
      ensures if old(isOpen) then volume.isClosed && volume.wasDiscarded else volume.staged == old(volume.staged)
    {
      if !isOpen { return; }
      var _ := volume.Close();
      isOpen := false;
      volume.Discard();
      buffered := 0;
      error := 0;
    }
  }

  function Flatten(chunks: seq<seq<byte>>): seq<byte>
  {
    if chunks == [] then [] else Flatten(chunks[..|chunks| - 1]) + chunks[|chunks| - 1]
  }

  /**
   Any run of appends and a commit, whatever fails: it succeeds exactly when no call of the volume failed, and then the
   target is all chunks in order; otherwise the first failure is the answer, and it answers every later call.
   */
  method WriteChunks(writer: AssetWriter, chunks: seq<seq<byte>>) returns (results: seq<int>, rc: int)
    requires writer.Valid() && writer.isOpen && writer.error == 0 && writer.appended == []
    modifies writer, writer.buffer, writer.volume
    ensures |results| == |chunks|
    ensures rc == Outcome(writer.volume.failed) && (rc == 0 <==> writer.volume.failed == [])
    ensures writer.volume.failed == [] ==>
      (forall i :: 0 <= i < |chunks| ==> results[i] == 0) && writer.volume.target == Some(Flatten(chunks))
    ensures writer.volume.failed != [] && !writer.volume.failed[0].RenameFailed? ==>
      writer.volume.target == old(writer.volume.target) && writer.volume.renames == old(writer.volume.renames)
    ensures rc == 0 ==> (forall i :: 0 <= i < |chunks| ==> results[i] == 0) && writer.volume.target == Some(Flatten(chunks))
    ensures forall i :: 0 <= i < |chunks| && results[i] != 0 ==>
      rc == results[i] && (forall j :: i <= j < |chunks| ==> results[j] == results[i])
      && writer.volume.target == old(writer.volume.target) && writer.volume.renames == old(writer.volume.renames)
  {
    results := [];
    for n := 0 to |chunks|
      invariant |results| == n && writer.Valid() && writer.isOpen
      invariant writer.volume.target == old(writer.volume.target) && writer.volume.renames == old(writer.volume.renames)
      invariant writer.error == 0 ==> (forall i :: 0 <= i < n ==> results[i] == 0) && writer.appended == Flatten(chunks[..n])
      invariant forall i, j :: 0 <= i <= j < n && results[i] != 0 ==> results[j] == results[i]
      invariant forall i :: 0 <= i < n && results[i] != 0 ==> writer.error == results[i]
    {
      rc := writer.Append(chunks[n]);
      results := results + [rc];
      assert chunks[..n + 1][..n] == chunks[..n];
    }
    assert chunks[..|chunks|] == chunks;
    rc := writer.Commit();
  }
}
