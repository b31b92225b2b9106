/** Raw cloning of a device to the image file `backup.iso`
    (src/clone/mod.rs, `create_disk_backup`). The device's bytes, whether it
    exists and opens, whether the image opens, and the operating system's
    answers to successive `read` calls are inputs. */
module Clone {
  import opened Wrappers
  import opened Disk

  newtype byte = x: int | 0 <= x < 256

  /** The size of the copy buffer: `vec![0; 1048576]`. */
  const ChunkSize: nat := 1048576

  function Min(a: nat, b: nat): nat { if a <= b then a else b }
  function Max(a: nat, b: nat): nat { if a <= b then b else a }
  function Sum(s: seq<nat>): nat { if s == [] then 0 else s[0] + Sum(s[1..]) }

  // ---------------------------------------------------------------------------
  // Reads

  /** What the operating system answers to one `read` call on the device:
      some bytes (how many it chooses, see `ChunkLength`), an interrupted
      system call, or any other error. */
  datatype ReadEvent = Grant(want: nat) | Interrupted | Failure

  /** The answers to the coming `read` calls; once they are used up every
      read is as long as it may be. */
  function NextEvent(script: seq<ReadEvent>): ReadEvent
  {
    if script == [] then Grant(ChunkSize) else script[0]
  }

  function RestOf(script: seq<ReadEvent>): seq<ReadEvent>
  {
    if script == [] then [] else script[1..]
  }

  /** The length of a successful read when `available` bytes may be read:
      zero only at the end, otherwise any length from 1 to `available`. */
  function ChunkLength(available: nat, want: nat): (n: nat)
    ensures available == 0 ==> n == 0
    ensures available > 0 ==> 1 <= n <= available
    ensures 1 <= want <= available ==> n == want
  {
    if available == 0 then 0 else if want == 0 then 1 else Min(want, available)
  }

  /** What `read` on `File::take(size)` returns. */
  datatype ReadResult = ReadOk(n: nat) | ReadInterrupted | ReadFailed

  /** One `read(&mut buf)` through the `Take` adapter with `limit` bytes still
      allowed and `left` bytes left in the device: with no allowance left it
      answers 0 without asking the operating system; otherwise it asks for at
      most `min(buf.len(), limit)` bytes. */
  function TakeRead(limit: nat, left: nat, script: seq<ReadEvent>): (r: ReadResult)
    ensures limit == 0 ==> r == ReadOk(0)
    ensures r.ReadOk? ==> r.n <= ChunkSize && r.n <= limit && r.n <= left
    ensures r.ReadOk? && r.n == 0 ==> limit == 0 || left == 0
    ensures limit > 0 && NextEvent(script) == Interrupted ==> r == ReadInterrupted
    ensures limit > 0 && NextEvent(script) == Failure ==> r == ReadFailed
  {
    if limit == 0 then ReadOk(0)
    else
      match NextEvent(script)
      case Grant(want) => ReadOk(ChunkLength(Min(Min(ChunkSize, limit), left), want))
      case Interrupted => ReadInterrupted
      case Failure => ReadFailed
  }

  /** The answers left after a read: the operating system is asked only when
      some allowance is left. */
  function ScriptAfter(limit: nat, script: seq<ReadEvent>): seq<ReadEvent>
  {
    if limit == 0 then script else RestOf(script)
  }

  /** The whole copy loop: the lengths of the chunks written, in order, and
      whether a read error other than an interruption ended it. */
  datatype Run = Run(chunks: seq<nat>, failed: bool)

  function Transfer(limit: nat, left: nat, script: seq<ReadEvent>): Run
    decreases |script|, limit
  {
    match TakeRead(limit, left, script)
    case ReadFailed => Run([], true)
    case ReadInterrupted => Transfer(limit, left, ScriptAfter(limit, script))
    case ReadOk(n) =>
      if n == 0 then Run([], false)
      else
        var rest := Transfer(limit - n, left - n, ScriptAfter(limit, script));
        Run([n] + rest.chunks, rest.failed)
  }

  /** `Transfer`'s definition unfolded one read at a time.
      An interruption retries with the next answer, a non-empty read is the
      next chunk, anything else ends the loop. */
  lemma TransferUnfolds(limit: nat, left: nat, script: seq<ReadEvent>)
    ensures TakeRead(limit, left, script) == ReadInterrupted ==>
      Transfer(limit, left, script) == Transfer(limit, left, ScriptAfter(limit, script))
    ensures TakeRead(limit, left, script).ReadOk? && TakeRead(limit, left, script).n > 0 ==>
      var n := TakeRead(limit, left, script).n;
      var rest := Transfer(limit - n, left - n, ScriptAfter(limit, script));
      Transfer(limit, left, script) == Run([n] + rest.chunks, rest.failed)
    ensures TakeRead(limit, left, script) == ReadFailed || TakeRead(limit, left, script) == ReadOk(0) ==>
      Transfer(limit, left, script).chunks == []
  {
  }

  /** Every chunk written is between 1 byte and the buffer size. */
  lemma {:induction false} ChunksFitTheBuffer(limit: nat, left: nat, script: seq<ReadEvent>)
    ensures forall k :: 0 <= k < |Transfer(limit, left, script).chunks| ==>
      1 <= Transfer(limit, left, script).chunks[k] <= ChunkSize
    decreases |script|, limit
  {
    match TakeRead(limit, left, script)
    case ReadFailed =>
    case ReadInterrupted => ChunksFitTheBuffer(limit, left, ScriptAfter(limit, script));
    case ReadOk(n) =>
      if n > 0 {
        ChunksFitTheBuffer(limit - n, left - n, ScriptAfter(limit, script));
      }
  }

  /** The bytes copied never exceed the `take` limit nor what the device
      holds; when no read fails they are exactly the smaller of the two. */
  lemma {:induction false} TransferCopiesUpToLimit(limit: nat, left: nat, script: seq<ReadEvent>)
    ensures Sum(Transfer(limit, left, script).chunks) <= Min(limit, left)
    ensures !Transfer(limit, left, script).failed ==>
      Sum(Transfer(limit, left, script).chunks) == Min(limit, left)
    decreases |script|, limit
  {
    match TakeRead(limit, left, script)
    case ReadFailed =>
    case ReadInterrupted => TransferCopiesUpToLimit(limit, left, ScriptAfter(limit, script));
    case ReadOk(n) =>
      if n > 0 {
        TransferCopiesUpToLimit(limit - n, left - n, ScriptAfter(limit, script));
      }
  }

  /** The loop ends on a failure only if the operating system reported one:
      interruptions alone never stop the copy. */
  lemma {:induction false} OnlyFailuresStopEarly(limit: nat, left: nat, script: seq<ReadEvent>)
    requires Failure !in script
    ensures !Transfer(limit, left, script).failed
    decreases |script|, limit
  {
    match TakeRead(limit, left, script)
    case ReadFailed => assert false;
    case ReadInterrupted =>
      assert Failure !in ScriptAfter(limit, script);
      OnlyFailuresStopEarly(limit, left, ScriptAfter(limit, script));
    case ReadOk(n) =>
      if n > 0 {
        assert Failure !in ScriptAfter(limit, script);
        OnlyFailuresStopEarly(limit - n, left - n, ScriptAfter(limit, script));
      }
  }

  // ---------------------------------------------------------------------------
  // Writing over an existing file

  /** `data` written over `prior` from offset 0 with no truncation. */
  function Overwrite(prior: seq<byte>, data: seq<byte>): seq<byte>
  {
    if |data| >= |prior| then data else data + prior[|data|..]
  }

  /** The file starts with the data written and keeps whatever of its
      previous contents lies beyond it. */
  lemma OverwriteKeepsTail(prior: seq<byte>, data: seq<byte>)
    ensures |Overwrite(prior, data)| == Max(|prior|, |data|)
    ensures Overwrite(prior, data)[..|data|] == data
    ensures forall k :: |data| <= k < |prior| ==> Overwrite(prior, data)[k] == prior[k]
  {
  }

  /** `data` written into `file` at offset `at`. */
  function Splice(file: seq<byte>, at: nat, data: seq<byte>): seq<byte>
    requires at <= |file|
  {
    file[..at] + data + if at + |data| < |file| then file[at + |data|..] else []
  }

  /** Writing the next chunk at the end of what was copied extends the copy. */
  lemma SpliceExtendsOverwrite(prior: seq<byte>, done: seq<byte>, chunk: seq<byte>)
    ensures Splice(Overwrite(prior, done), |done|, chunk) == Overwrite(prior, done + chunk)
  {
    var o := Overwrite(prior, done);
    OverwriteKeepsTail(prior, done);
    assert o[..|done|] == done;
    var a := Splice(o, |done|, chunk);
    assert a == done + chunk + if |done| + |chunk| < |o| then o[|done| + |chunk|..] else [];
    if |done| + |chunk| < |prior| {
      assert o[|done| + |chunk|..] == prior[|done| + |chunk|..];
    }
  }

  // ---------------------------------------------------------------------------
  // The open files

  /** The device opened for reading behind `take(size)`. */
  class SourceReader {
    const data: seq<byte>
    var pos: nat
    var limit: nat
    var script: seq<ReadEvent>

    ghost predicate Valid()
      reads this
    {
      pos <= |data|
    }

    /** `File::open(device)` followed by `take(size)`. */
    constructor (data: seq<byte>, limit: nat, script: seq<ReadEvent>)
      ensures Valid() && this.data == data && pos == 0
      ensures this.limit == limit && this.script == script
    {
      this.data := data;
      pos := 0;
      this.limit := limit;
      this.script := script;
    }

    /** `Take<File>::read`: fills the front of `buf` with the next bytes of
      the device; an interruption or an error reads nothing. */
    method Read(buf: array<byte>) returns (r: ReadResult)
      requires Valid() && buf.Length == ChunkSize
      modifies this, buf
      ensures Valid()
      ensures r == TakeRead(old(limit), |data| - old(pos), old(script))
      ensures script == ScriptAfter(old(limit), old(script))
      ensures r.ReadOk? ==> pos == old(pos) + r.n && limit == old(limit) - r.n
      ensures r.ReadOk? ==> buf[..r.n] == data[old(pos)..old(pos) + r.n]
      ensures !r.ReadOk? ==> pos == old(pos) && limit == old(limit)
    {
      if limit == 0 {
        return ReadOk(0);
      }
      var event := NextEvent(script);
      script := RestOf(script);
      match event {
        case Interrupted => r := ReadInterrupted;
        case Failure => r := ReadFailed;
        case Grant(want) =>
          var n := ChunkLength(Min(Min(buf.Length, limit), |data| - pos), want);
          forall j | 0 <= j < n {
            buf[j] := data[pos + j];
          }
          pos := pos + n;
          limit := limit - n;
          r := ReadOk(n);
      }
    }
  }

  /** The image file `backup.iso`: its contents and the offset of the open
      handle. */
  class ImageFile {
    var contents: seq<byte>
    var cursor: nat

    constructor (contents: seq<byte>)
      ensures this.contents == contents && cursor == 0
    {
      this.contents := contents;
      cursor := 0;
    }

    /** `write_all(chunk)` at the cursor (writes are taken to succeed). */
    method WriteAll(chunk: seq<byte>)
      requires cursor <= |contents|
      modifies this
      ensures contents == Splice(old(contents), old(cursor), chunk)
      ensures cursor == old(cursor) + |chunk|
    {
      contents := Splice(contents, cursor, chunk);
      cursor := cursor + |chunk|;
    }
  }

  /** The state of the copy loop after the chunks `done`: the image holds
      the bytes read so far over its previous contents `prior`, and the
      chunks still to come are those the remaining reads produce. */
  ghost predicate Copying(src: SourceReader, image: ImageFile, prior: seq<byte>, limit0: nat,
                          script0: seq<ReadEvent>, done: seq<nat>)
    reads src, image
  {
    && Written(src, image, prior, done)
    && Accounted(limit0, |src.data|, script0, done, src.limit, src.pos, src.script)
  }

  /** The chunks `done` and those the remaining reads produce make up the
      whole copy, with `pos` bytes copied out of a `limit0` allowance. */
  ghost predicate Accounted(limit0: nat, size: nat, script0: seq<ReadEvent>, done: seq<nat>,
                            limit: nat, pos: nat, script: seq<ReadEvent>)
  {
    && limit + pos == limit0
    && pos <= size
    && var rest := Transfer(limit, size - pos, script);
       Transfer(limit0, size, script0) == Run(done + rest.chunks, rest.failed)
  }

  /** The image holds the chunks `done` read so far over its previous
      contents `prior`, and its cursor is just after them. */
  ghost predicate Written(src: SourceReader, image: ImageFile, prior: seq<byte>, done: seq<nat>)
    reads src, image
  {
    Copied(src.data, src.pos, image.cursor, image.contents, prior, done)
  }

  ghost predicate Copied(data: seq<byte>, pos: nat, cursor: nat, contents: seq<byte>,
                         prior: seq<byte>, done: seq<nat>)
  {
    && pos <= |data|
    && pos == Sum(done) == cursor
    && contents == Overwrite(prior, data[..pos])
    && |contents| >= cursor
  }

  /** The write of one chunk the source has just read. */
  method WriteChunk(src: SourceReader, image: ImageFile, ghost prior: seq<byte>, ghost done: seq<nat>,
                    chunk: seq<byte>)
    requires src.Valid() && image.cursor == Sum(done) && src.pos == Sum(done) + |chunk|
    requires image.contents == Overwrite(prior, src.data[..Sum(done)])
    requires |image.contents| >= image.cursor
    requires chunk == src.data[Sum(done)..src.pos]
    modifies image
    ensures Written(src, image, prior, done + [|chunk|])
  {
    WriteExtendsCopy(prior, src.data, Sum(done), chunk);
    image.WriteAll(chunk);
    OverwriteKeepsTail(prior, src.data[..src.pos]);
    SumAppend(done, |chunk|);
  }

  /** One pass of the copy loop: one read, and the write of what it read. */
  method CopyStep(src: SourceReader, image: ImageFile, buf: array<byte>, ghost prior: seq<byte>,
                  ghost limit0: nat, ghost script0: seq<ReadEvent>, ghost done: seq<nat>)
    returns (stop: bool, ghost done': seq<nat>)
    requires Copying(src, image, prior, limit0, script0, done) && buf.Length == ChunkSize
    modifies src, image, buf
    ensures !stop ==> Copying(src, image, prior, limit0, script0, done')
    ensures stop ==> Written(src, image, prior, done')
    ensures stop ==> Transfer(limit0, |src.data|, script0).chunks == done'
    ensures !stop ==> (|src.script| < old(|src.script|) ||
      (|src.script| == old(|src.script|) && src.limit < old(src.limit)))
  {
    TransferAfterRead(limit0, |src.data|, script0, done, src.limit, src.pos, src.script);
    var res := src.Read(buf);
    done' := done;
    if res.ReadInterrupted? {
      return false, done';
    }
    if res.ReadFailed? || res.n == 0 {
      return true, done';
    }
    WriteChunk(src, image, prior, done, buf[..res.n]);
    done' := done + [res.n];
    stop := false;
  }

  /** How the loop's account of the chunks to come changes with one read. */
  lemma TransferAfterRead(limit0: nat, size: nat, script0: seq<ReadEvent>, done: seq<nat>,
                          limit: nat, pos: nat, script: seq<ReadEvent>)
    requires Accounted(limit0, size, script0, done, limit, pos, script)
    ensures var r := TakeRead(limit, size - pos, script);
      r.ReadInterrupted? ==> Accounted(limit0, size, script0, done, limit, pos, ScriptAfter(limit, script))
    ensures var r := TakeRead(limit, size - pos, script);
      r.ReadFailed? || r == ReadOk(0) ==> Transfer(limit0, size, script0).chunks == done
    ensures var r := TakeRead(limit, size - pos, script);
      r.ReadOk? && r.n > 0 ==>
      Accounted(limit0, size, script0, done + [r.n], limit - r.n, pos + r.n, ScriptAfter(limit, script))
  {
    var left := size - pos;
    var rest := Transfer(limit, left, script);
    var next := ScriptAfter(limit, script);
    match TakeRead(limit, left, script)
    case ReadInterrupted =>
      assert rest == Transfer(limit, left, next);
    case ReadFailed =>
      assert rest.chunks == [];
      assert done + [] == done;
    case ReadOk(n) =>
      if n == 0 {
        assert rest.chunks == [];
        assert done + [] == done;
      } else {
        var after := Transfer(limit - n, left - n, next);
        assert rest == Run([n] + after.chunks, after.failed);
        assert done + ([n] + after.chunks) == (done + [n]) + after.chunks;
      }
  }

  /** The copy loop of `create_disk_backup`: reads chunk after chunk into
      `buf` and writes each one in full at the image's cursor, until a read
      returns nothing or fails with anything but an interruption. */
  method CopyChunks(src: SourceReader, image: ImageFile, buf: array<byte>) returns (ghost done: seq<nat>)
    requires src.Valid() && image.cursor == src.pos == 0
    requires buf.Length == ChunkSize
    modifies src, image, buf
    ensures src.Valid()
    ensures done == Transfer(old(src.limit), |src.data|, old(src.script)).chunks
    ensures image.cursor == Sum(done) == src.pos
    ensures image.contents == Overwrite(old(image.contents), src.data[..Sum(done)])
  {
    ghost var prior := image.contents;
    ghost var limit0, script0 := src.limit, src.script;
    done := [];
    OverwriteKeepsTail(prior, src.data[..0]);
    assert Copying(src, image, prior, limit0, script0, done);
    var stop := false;
    while !stop
      invariant !stop ==> Copying(src, image, prior, limit0, script0, done)
      invariant stop ==> Written(src, image, prior, done)
      invariant stop ==> Transfer(limit0, |src.data|, script0).chunks == done
      invariant buf.Length == ChunkSize
      decreases !stop, |src.script|, src.limit
    {
      stop, done := CopyStep(src, image, buf, prior, limit0, script0, done);
    }
  }

  /** The device node named by the `device` argument. */
  datatype DeviceNode = Missing | Present(opens: bool, bytes: seq<byte>)

  /** `create_disk_backup(device, size)`: if the device exists, copies at most
      `size` of its bytes, chunk by chunk, over the front of `backup.iso`
      (opened without truncation), retrying interrupted reads and silently
      stopping at any other read error; the answer is "COOL DONE" either way.
      A missing device answers "NOT FOUND" and touches nothing. */
  method CreateDiskBackup(device: DeviceNode, size: u64, image: ImageFile, imageOpens: bool,
                          script: seq<ReadEvent>)
    returns (r: Result<string>, ghost copied: nat)
    modifies image
    ensures device.Missing? ==> r == Ok("NOT FOUND") && image.contents == old(image.contents)
    ensures device.Present? && (!device.opens || !imageOpens) ==>
      r.Err? && image.contents == old(image.contents)
    ensures device.Present? && device.opens && imageOpens ==>
      && r == Ok("COOL DONE")
      && copied == Sum(Transfer(size as nat, |device.bytes|, script).chunks)
      && copied <= Min(size as nat, |device.bytes|)
      && image.contents == Overwrite(old(image.contents), device.bytes[..copied])
  {
    copied := 0;
    if device.Missing? {
      return Ok("NOT FOUND"), copied;
    }
    if !device.opens || !imageOpens {
      return Err(IoError), copied;
    }
    var src := new SourceReader(device.bytes, size as nat, script);
    image.cursor := 0;
    var buf := new byte[ChunkSize];
    ghost var done := CopyChunks(src, image, buf);
    copied := Sum(done);
    TransferCopiesUpToLimit(size as nat, |device.bytes|, script);
    return Ok("COOL DONE"), copied;
  }

  /** Writing the device's next bytes at the end of the copy extends it. */
  lemma WriteExtendsCopy(prior: seq<byte>, bytes: seq<byte>, copied: nat, chunk: seq<byte>)
    requires copied + |chunk| <= |bytes|
    requires chunk == bytes[copied..copied + |chunk|]
    ensures Splice(Overwrite(prior, bytes[..copied]), copied, chunk) == Overwrite(prior, bytes[..copied + |chunk|])
  {
    SpliceExtendsOverwrite(prior, bytes[..copied], chunk);
    assert bytes[..copied] + chunk == bytes[..copied + |chunk|];
  }

  lemma {:induction false} SumAppend(s: seq<nat>, x: nat)
    ensures Sum(s + [x]) == Sum(s) + x
  {
    if s != [] {
      SumAppend(s[1..], x);
      assert (s + [x])[1..] == s[1..] + [x];
    }
  }
}
