/** Write Engine (raw-block strategy) and Verification Engine: the chunked
    copy of `write_iso_dd` and the lockstep comparison of
    `verify_written_data`.

    The image is what the file system shows of the image file
    (`ImageFormat.ImageFile`: missing, refused by `open`, or its bytes); the
    target device is a `BlockDevice`, a file object over a fixed number of
    bytes with a current position, as Python's `open(usb_device, 'wb')`
    gives. Chunks are
    `buffer_size * 1024` bytes, read with Python's `file.read(n)`: a zero size
    reads nothing, a negative size reads the rest of the file. */
module Transfer {
  import opened Text
  import opened ImageFormat

  /** `file.read(n)` at offset `pos` of `data`: a contiguous piece at `pos`. */
  function Read(data: seq<byte>, pos: nat, n: int): (c: seq<byte>)
    requires pos <= |data|
    ensures pos + |c| <= |data| && c == data[pos..pos + |c|]
    ensures |c| == 0 <==> n == 0 || pos == |data|
    ensures n > 0 ==> |c| == Min(n, |data| - pos)
    ensures n < 0 ==> pos + |c| == |data|
  {
    data[pos..pos + ReadLength(|data| - pos, n)]
  }

  /** How many bytes `file.read(n)` returns when `avail` bytes are left. */
  function ReadLength(avail: nat, n: int): (k: nat)
    ensures k <= avail
  {
    if n < 0 || n > avail then avail else n
  }

  /** The percentage the engines emit after `done` of `total` bytes:
      `int((done / total) * 100)`, as integer floor division. */
  function Percent(done: nat, total: nat): nat
    requires total > 0
  {
    Quotient(done * 100, total)
  }

  /** `s` with the bytes from `off` on replaced by `data`, one byte at a time. */
  function Splice(s: seq<byte>, off: nat, data: seq<byte>): (r: seq<byte>)
    requires off + |data| <= |s|
    ensures |r| == |s|
    decreases |data|
  {
    if |data| == 0 then s else Splice(s[off := data[0]], off + 1, data[1..])
  }

  /** Writing `data` at `off` puts exactly `data` there and leaves every byte
      outside `off..off+|data|` as it was. */
  lemma {:induction false} SpliceAt(s: seq<byte>, off: nat, data: seq<byte>, i: nat)
    requires off + |data| <= |s| && i < |s|
    ensures Splice(s, off, data)[i] == if off <= i < off + |data| then data[i - off] else s[i]
    decreases |data|
  {
    if |data| > 0 {
      SpliceAt(s[off := data[0]], off + 1, data[1..], i);
    }
  }

  /** Two consecutive writes are one write of their concatenation. */
  lemma SpliceTwice(s: seq<byte>, off: nat, a: seq<byte>, b: seq<byte>)
    requires off + |a| + |b| <= |s|
    ensures Splice(Splice(s, off, a), off + |a|, b) == Splice(s, off, a + b)
  {
    var t := Splice(s, off, a);
    forall i | 0 <= i < |s|
      ensures Splice(t, off + |a|, b)[i] == Splice(s, off, a + b)[i]
    {
      SpliceAt(t, off + |a|, b, i);
      SpliceAt(s, off, a, i);
      SpliceAt(s, off, a + b, i);
    }
  }

  /** A write at offset 0 leaves the data followed by the old tail. */
  lemma SpliceFront(s: seq<byte>, data: seq<byte>)
    requires |data| <= |s|
    ensures Splice(s, 0, data) == data + s[|data|..]
  {
    forall i | 0 <= i < |s|
      ensures Splice(s, 0, data)[i] == (data + s[|data|..])[i]
    {
      SpliceAt(s, 0, data, i);
    }
  }

  // ---------------------------------------------------------------------------
  // The target device
  // ---------------------------------------------------------------------------

  /** The open device file: its bytes and the current write position. Its size
      is fixed; a write that does not fit fails with `ENOSPC`. */
  class BlockDevice {
    var contents: seq<byte>
    var offset: nat

    constructor (initial: seq<byte>)
      ensures contents == initial && offset == 0
    {
      contents := initial;
      offset := 0;
    }

    /** `open(usb_device, 'wb')`: a block device is not truncated; the
        position starts at 0. */
    method Open()
      modifies this
      ensures contents == old(contents) && offset == 0
    {
      offset := 0;
    }

    /** `usb.write(data)`: on success the bytes land at the current position,
        which moves past them; a write that does not fit changes nothing. */
    method Write(data: seq<byte>) returns (ok: bool)
      modifies this
      ensures ok <==> old(offset) + |data| <= |old(contents)|
      ensures ok ==> contents == Splice(old(contents), old(offset), data) && offset == old(offset) + |data|
      ensures !ok ==> contents == old(contents) && offset == old(offset)
    {
      if offset + |data| > |contents| {
        return false;
      }
      contents := Splice(contents, offset, data);
      offset := offset + |data|;
      return true;
    }
  }

  // ---------------------------------------------------------------------------
  // write_iso_dd
  // ---------------------------------------------------------------------------

  const DdDone := "DD模式写入完成"
  const DdFailed := "DD模式写入失败: "
  /** `str(e)` when a chunk does not fit in what is left of the device. */
  const NoSpace := "[Errno 28] No space left on device"

  /** What a write leaves behind: its verdict, the device's bytes, the number
      of bytes written (the device position) and the emitted percentages. */
  datatype DdRun = DdRun(ok: bool, device: seq<byte>, written: nat, progress: seq<int>)

  /** The bytes that go to the device for a chunk read from the image;
      `compress` stands for `zlib.compress`. */
  function Encode(chunk: seq<byte>, compression: bool, compress: seq<byte> -> seq<byte>): seq<byte> {
    if compression then compress(chunk) else chunk
  }

  /** The copy loop from read offset `pos`, with `written` bytes already on
      `device` and `progress` already emitted. */
  function DdLoop(image: seq<byte>, n: int, compression: bool, compress: seq<byte> -> seq<byte>,
                  pos: nat, device: seq<byte>, written: nat, progress: seq<int>): DdRun
    requires pos <= |image| && written <= |device|
    decreases |image| - pos
  {
    var chunk := Read(image, pos, n);
    if |chunk| == 0 then DdRun(true, device, written, progress)
    else
      var data := Encode(chunk, compression, compress);
      if written + |data| > |device| then DdRun(false, device, written, progress)
      else
        DdLoop(image, n, compression, compress, pos + |chunk|, Splice(device, written, data), written + |data|,
               progress + [Percent(written + |data|, |image|)])
  }

  /** The write of `write_iso_dd` onto a device holding `device`, with the
      evidently intended loop behaviour (every chunk is copied; see
      `DdAsWritten` for the code as it stands). */
  function DdWrite(image: ImageFile, bufferKB: int, compression: bool,
                   compress: seq<byte> -> seq<byte>, device: seq<byte>): DdRun
  {
    match image
    case Readable(iso) => DdLoop(iso, bufferKB * 1024, compression, compress, 0, device, 0, [])
    case _ => DdRun(false, device, 0, [])
  }

  /** The message beside the verdict: `str(e)` of the `OSError` that
      `getsize` or `open` raises for an image that is missing or refused,
      otherwise of the `ENOSPC` a chunk that does not fit raises. */
  function DdMessage(isoPath: string, image: ImageFile, r: DdRun): string {
    if r.ok then DdDone
    else if !image.Readable? then DdFailed + OsErrorText(isoPath, image)
    else DdFailed + NoSpace
  }

  /** `write_iso_dd(iso_path, usb_device)`: copies the image to the device chunk
      by chunk, bumping `written` and emitting a percentage after each chunk. */
  method WriteIsoDd(isoPath: string, image: ImageFile, dev: BlockDevice, bufferKB: int, compression: bool,
                    compress: seq<byte> -> seq<byte>)
    returns (ok: bool, message: string, progress: seq<int>)
    modifies dev
    ensures var r := DdWrite(image, bufferKB, compression, compress, old(dev.contents));
            && ok == r.ok && message == DdMessage(isoPath, image, r) && progress == r.progress
            && dev.contents == r.device && (image.Readable? ==> dev.offset == r.written)
  {
    if !image.Readable? {
      return false, DdFailed + OsErrorText(isoPath, image), [];
    }
    var iso := image.bytes;
    var bufferSize := bufferKB * 1024;
    dev.Open();
    ghost var final := DdLoop(iso, bufferSize, compression, compress, 0, dev.contents, 0, []);
    var pos: nat := 0;
    progress := [];
    while true
      invariant pos <= |iso| && dev.offset <= |dev.contents|
      invariant DdLoop(iso, bufferSize, compression, compress, pos, dev.contents, dev.offset, progress) == final
      decreases |iso| - pos
    {
      var step, next, progress' := CopyChunk(iso, dev, pos, bufferSize, compression, compress, progress);
      if step == EndOfImage {
        return true, DdDone, progress;
      } else if step == DeviceFull {
        return false, DdFailed + NoSpace, progress;
      }
      pos, progress := next, progress';
    }
  }

  datatype Step = Copied | EndOfImage | DeviceFull

  /** One turn of the copy loop: read a chunk at `pos`, encode it, write it and
      emit the percentage; it is the next unfolding of `DdLoop`. */
  method CopyChunk(iso: seq<byte>, dev: BlockDevice, pos: nat, n: int, compression: bool,
                   compress: seq<byte> -> seq<byte>, progress: seq<int>)
    returns (step: Step, next: nat, progress': seq<int>)
    requires pos <= |iso| && dev.offset <= |dev.contents|
    modifies dev
    ensures step != Copied ==> dev.contents == old(dev.contents) && dev.offset == old(dev.offset)
    ensures step != Copied ==>
      DdLoop(iso, n, compression, compress, pos, dev.contents, dev.offset, progress)
      == DdRun(step == EndOfImage, dev.contents, dev.offset, progress)
    ensures step == Copied ==>
      pos < next <= |iso| && dev.offset <= |dev.contents| &&
      DdLoop(iso, n, compression, compress, pos, old(dev.contents), old(dev.offset), progress)
      == DdLoop(iso, n, compression, compress, next, dev.contents, dev.offset, progress')
  {
    var chunk := Read(iso, pos, n);
    if |chunk| == 0 {
      return EndOfImage, pos, progress;
    }
    var data := Encode(chunk, compression, compress);
    var fits := dev.Write(data);
    if !fits {
      return DeviceFull, pos, progress;
    }
    return Copied, pos + |chunk|, progress + [Percent(dev.offset, |iso|)];
  }

  // ---------------------------------------------------------------------------
  // Properties of the write
  // ---------------------------------------------------------------------------

  /** Whatever the compressor, the loop only ever writes between the position
      it starts from and the position it ends at. */
  lemma {:induction false} DdLoopFrame(image: seq<byte>, n: int, compression: bool, compress: seq<byte> -> seq<byte>,
                                       pos: nat, device: seq<byte>, written: nat, progress: seq<int>)
    requires pos <= |image| && written <= |device|
    ensures var r := DdLoop(image, n, compression, compress, pos, device, written, progress);
            && written <= r.written <= |device| && |r.device| == |device|
            && forall i :: 0 <= i < |device| && !(written <= i < r.written) ==> r.device[i] == device[i]
    decreases |image| - pos
  {
    var chunk := Read(image, pos, n);
    if |chunk| > 0 {
      var data := Encode(chunk, compression, compress);
      if written + |data| <= |device| {
        var next := written + |data|;
        var d := Splice(device, written, data);
        var progress' := progress + [Percent(next, |image|)];
        var r := DdLoop(image, n, compression, compress, pos + |chunk|, d, next, progress');
        assert DdLoop(image, n, compression, compress, pos, device, written, progress) == r;
        DdLoopFrame(image, n, compression, compress, pos + |chunk|, d, next, progress');
        forall i | 0 <= i < |device| && !(written <= i < r.written)
          ensures r.device[i] == device[i]
        {
          assert r.device[i] == d[i];
          SpliceAt(device, written, data, i);
        }
      }
    }
  }

  /** One turn of the loop with compression off, when the chunk fits. */
  lemma DdLoopStep(image: seq<byte>, n: int, compress: seq<byte> -> seq<byte>,
                   pos: nat, device: seq<byte>, progress: seq<int>)
    requires pos <= |image| && pos <= |device|
    requires var c := Read(image, pos, n); |c| > 0 && pos + |c| <= |device|
    ensures var c := Read(image, pos, n);
            var next := pos + |c|;
            DdLoop(image, n, false, compress, pos, device, pos, progress)
            == DdLoop(image, n, false, compress, next, Splice(device, pos, c), next,
                      progress + [Percent(next, |image|)])
  {
  }

  /** With compression off and a non-zero buffer, the loop copies the image
      from `pos` on, chunk by chunk, for as long as chunks fit: it stops at
      the end of the image (success) or at the first chunk that does not fit
      (failure). */
  lemma {:induction false} DdLoopStops(image: seq<byte>, n: int, compress: seq<byte> -> seq<byte>,
                                       pos: nat, device: seq<byte>, progress: seq<int>)
    requires n != 0 && pos <= |image| && pos <= |device|
    ensures var r := DdLoop(image, n, false, compress, pos, device, pos, progress);
            && pos <= r.written <= |image| && r.written <= |device|
            && (r.ok <==> r.written == |image|)
            && (!r.ok ==> r.written + |Read(image, r.written, n)| > |device|)
    decreases |image| - pos
  {
    var chunk := Read(image, pos, n);
    if |chunk| > 0 && pos + |chunk| <= |device| {
      var next := pos + |chunk|;
      DdLoopStops(image, n, compress, next, Splice(device, pos, chunk), progress + [Percent(next, |image|)]);
    }
  }

  /** ... and when it stops, the device holds the image bytes from `pos` up to
      where it stopped. */
  lemma {:induction false} DdLoopPlain(image: seq<byte>, n: int, compress: seq<byte> -> seq<byte>,
                                       pos: nat, device: seq<byte>, progress: seq<int>)
    requires n != 0 && pos <= |image| && pos <= |device|
    ensures var r := DdLoop(image, n, false, compress, pos, device, pos, progress);
            && pos <= r.written <= |image| && r.written <= |device|
            && r.device == Splice(device, pos, image[pos..r.written])
    decreases |image| - pos
  {
    var chunk := Read(image, pos, n);
    if |chunk| > 0 && pos + |chunk| <= |device| {
      var next := pos + |chunk|;
      var d := Splice(device, pos, chunk);
      var progress' := progress + [Percent(next, |image|)];
      assert Encode(chunk, false, compress) == chunk;
      DdLoopPlain(image, n, compress, next, d, progress');
      PlainFromNext(image, device, pos, chunk, DdLoop(image, n, false, compress, pos, device, pos, progress),
                    DdLoop(image, n, false, compress, next, d, next, progress'));
    } else {
      assert image[pos..pos] == [];
    }
  }

  /** The step of `DdLoopPlain`: a run equal to the run after the first chunk
      has laid down the image from `pos` on. */
  lemma PlainFromNext(image: seq<byte>, device: seq<byte>, pos: nat, chunk: seq<byte>, r0: DdRun, r: DdRun)
    requires r0 == r && pos + |chunk| <= r.written <= |image| && r.written <= |device|
    requires chunk == image[pos..pos + |chunk|]
    requires r.device == Splice(Splice(device, pos, chunk), pos + |chunk|, image[pos + |chunk|..r.written])
    ensures pos <= r0.written <= |image| && r0.written <= |device|
    ensures r0.device == Splice(device, pos, image[pos..r0.written])
  {
    CopyInTwo(image, device, pos, chunk, r.written);
  }

  /** Copying `chunk`, a piece of the image at `pos`, and then the image up to
      `w` after it is copying `image[pos..w]`. */
  lemma CopyInTwo(image: seq<byte>, device: seq<byte>, pos: nat, chunk: seq<byte>, w: nat)
    requires pos + |chunk| <= w <= |image| && w <= |device| && chunk == image[pos..pos + |chunk|]
    ensures Splice(Splice(device, pos, chunk), pos + |chunk|, image[pos + |chunk|..w])
            == Splice(device, pos, image[pos..w])
  {
    SpliceTwice(device, pos, chunk, image[pos + |chunk|..w]);
    SliceConcat(image, pos, pos + |chunk|, w);
  }

  lemma SliceConcat(s: seq<byte>, i: nat, j: nat, k: nat)
    requires i <= j <= k <= |s|
    ensures s[i..j] + s[j..k] == s[i..k]
  {
  }

  /** With compression off, a non-zero buffer and room on the device, the loop
      succeeds and lays the rest of the image down at `pos`. */
  lemma DdLoopCopies(image: seq<byte>, n: int, compress: seq<byte> -> seq<byte>,
                     pos: nat, device: seq<byte>, progress: seq<int>)
    requires n != 0 && pos <= |image| <= |device|
    ensures var r := DdLoop(image, n, false, compress, pos, device, pos, progress);
            r.ok && r.written == |image| && r.device == Splice(device, pos, image[pos..])
  {
    DdLoopStops(image, n, compress, pos, device, progress);
    DdLoopPlain(image, n, compress, pos, device, progress);
    var r := DdLoop(image, n, false, compress, pos, device, pos, progress);
    assert image[pos..r.written] == image[pos..];
  }

  /** The byte-exact copy: the device then starts with the image and keeps
      whatever it held beyond it. */
  lemma DdWriteCopiesImage(image: seq<byte>, bufferKB: int, compress: seq<byte> -> seq<byte>, device: seq<byte>)
    requires bufferKB != 0 && |image| <= |device|
    ensures var r := DdWrite(Readable(image), bufferKB, false, compress, device);
            r.ok && r.device == image + device[|image|..] && r.written == |image|
  {
    DdLoopCopies(image, bufferKB * 1024, compress, 0, device, []);
    assert image[0..] == image;
    SpliceFront(device, image);
  }

  /** A zero buffer reads nothing: the write reports success and leaves the
      device untouched. */
  lemma ZeroBufferWritesNothing(image: seq<byte>, compression: bool, compress: seq<byte> -> seq<byte>,
                                device: seq<byte>)
    ensures DdWrite(Readable(image), 0, compression, compress, device) == DdRun(true, device, 0, [])
  {
  }

  /** With compression off and a non-zero buffer, a device too small for the
      image makes the write fail, after it has laid down a prefix of the image
      that the next chunk would not fit after. */
  lemma DdWriteTooSmall(image: seq<byte>, bufferKB: int, compress: seq<byte> -> seq<byte>, device: seq<byte>)
    requires bufferKB != 0 && |device| < |image|
    ensures var r := DdWrite(Readable(image), bufferKB, false, compress, device);
            && !r.ok && r.written <= |device| && r.device == image[..r.written] + device[r.written..]
            && r.written + |Read(image, r.written, bufferKB * 1024)| > |device|
  {
    DdLoopStops(image, bufferKB * 1024, compress, 0, device, []);
    DdLoopPlain(image, bufferKB * 1024, compress, 0, device, []);
    var r := DdWrite(Readable(image), bufferKB, false, compress, device);
    assert image[0..r.written] == image[..r.written];
    SpliceFront(device, image[..r.written]);
  }

  /** A percentage sequence bounded by `top`: values in `0..top`, never
      decreasing. */
  ghost predicate Rising(p: seq<int>, top: int) {
    && (forall k :: 0 <= k < |p| ==> 0 <= p[k] <= top)
    && (forall k, m :: 0 <= k < m < |p| ==> p[k] <= p[m])
  }

  /** Progress values are percentages in 0..100 that never decrease, and the
      last one is 100 once the whole image is on the device. Stated for the loop
      with compression off, where the read and write positions agree. */
  lemma {:induction false} DdLoopProgress(image: seq<byte>, n: int, compress: seq<byte> -> seq<byte>,
                                          pos: nat, device: seq<byte>, progress: seq<int>)
    requires n != 0 && 0 < |image| && pos <= |image| && pos <= |device|
    requires Rising(progress, Percent(pos, |image|))
    requires pos == |image| ==> |progress| > 0 && progress[|progress| - 1] == 100
    ensures var r := DdLoop(image, n, false, compress, pos, device, pos, progress);
            && Rising(r.progress, 100)
            && (r.ok ==> |r.progress| > 0 && r.progress[|r.progress| - 1] == 100)
    decreases |image| - pos
  {
    var chunk := Read(image, pos, n);
    if |chunk| == 0 {
      PercentFull(|image|);
      assert DdLoop(image, n, false, compress, pos, device, pos, progress) == DdRun(true, device, pos, progress);
    } else if pos + |chunk| <= |device| {
      var next := pos + |chunk|;
      PercentMonotone(pos, next, |image|);
      if next == |image| {
        PercentFull(|image|);
      }
      var d := Splice(device, pos, chunk);
      var progress' := progress + [Percent(next, |image|)];
      assert Rising(progress', Percent(next, |image|));
      DdLoopStep(image, n, compress, pos, device, progress);
      DdLoopProgress(image, n, compress, next, d, progress');
    } else {
      PercentAtMost100(pos, |image|);
      RisingWeaken(progress, Percent(pos, |image|), 100);
      assert DdLoop(image, n, false, compress, pos, device, pos, progress) == DdRun(false, device, pos, progress);
    }
  }

  lemma RisingWeaken(p: seq<int>, top: int, top': int)
    requires Rising(p, top) && top <= top'
    ensures Rising(p, top')
  {
  }

  lemma PercentMonotone(a: nat, b: nat, total: nat)
    requires total > 0 && a <= b
    ensures Percent(a, total) <= Percent(b, total)
  {
    QuotientIsDiv(a * 100, total);
    QuotientIsDiv(b * 100, total);
    DivMonotone(a * 100, b * 100, total);
  }

  lemma PercentAtMost100(done: nat, total: nat)
    requires 0 < total && done <= total
    ensures Percent(done, total) <= 100
  {
    PercentMonotone(done, total, total);
    PercentFull(total);
  }

  /** The whole image is 100 percent. */
  lemma PercentFull(total: nat)
    requires 0 < total
    ensures Percent(total, total) == 100
  {
    QuotientIsDiv(total * 100, total);
    DivUnique(total * 100, total, 100);
  }

  /** Every write with compression off emits percentages in 0..100 that never
      decrease, ending at 100 when it succeeds on a non-empty image. */
  lemma DdWriteProgress(image: seq<byte>, bufferKB: int, compress: seq<byte> -> seq<byte>, device: seq<byte>)
    requires bufferKB != 0
    ensures var r := DdWrite(Readable(image), bufferKB, false, compress, device);
            && (forall k :: 0 <= k < |r.progress| ==> 0 <= r.progress[k] <= 100)
            && (forall k, m :: 0 <= k < m < |r.progress| ==> r.progress[k] <= r.progress[m])
            && (r.ok && |image| > 0 ==> |r.progress| > 0 && r.progress[|r.progress| - 1] == 100)
  {
    if |image| > 0 {
      DdLoopProgress(image, bufferKB * 1024, compress, 0, device, []);
    }
  }

  /** The percentages a loop over `size` bytes in chunks of `n` emits from
      offset `pos` on, one per chunk, each for the end of its chunk. */
  function ChunkPercents(pos: nat, n: nat, size: nat): seq<int>
    requires n > 0
    decreases size - pos
  {
    if pos >= size then []
    else
      var next := Min(pos + n, size);
      [Percent(next, size)] + ChunkPercents(next, n, size)
  }

  /** With compression off, a positive buffer and room on the device, the loop
      emits exactly `ChunkPercents`. */
  lemma {:induction false} DdLoopChunkPercents(image: seq<byte>, n: nat, compress: seq<byte> -> seq<byte>,
                                               pos: nat, device: seq<byte>, progress: seq<int>)
    requires n > 0 && pos <= |image| <= |device|
    ensures DdLoop(image, n, false, compress, pos, device, pos, progress).progress
            == progress + ChunkPercents(pos, n, |image|)
    decreases |image| - pos
  {
    var chunk := Read(image, pos, n);
    if |chunk| > 0 {
      var next := pos + |chunk|;
      assert next == Min(pos + n, |image|);
      var d := Splice(device, pos, chunk);
      var progress' := progress + [Percent(next, |image|)];
      DdLoopStep(image, n, compress, pos, device, progress);
      DdLoopChunkPercents(image, n, compress, next, d, progress');
      assert ChunkPercents(pos, n, |image|) == [Percent(next, |image|)] + ChunkPercents(next, n, |image|);
    }
  }

  /** From offset `pos` on, `ChunkPercents` holds one value per chunk of what
      is left: `ceil((size - pos) / n)` of them, stated without division. */
  lemma {:induction false} ChunkPercentsCount(pos: nat, n: nat, size: nat)
    requires n > 0
    ensures var c := |ChunkPercents(pos, n, size)|;
            if pos >= size then c == 0 else 0 < c && (c - 1) * n < size - pos <= c * n
    decreases size - pos
  {
    if pos < size && pos + n < size {
      ChunkPercentsCount(pos + n, n, size);
      var c := |ChunkPercents(pos + n, n, size)|;
      MulSucc(c - 1, n);
      MulSucc(c, n);
    }
  }

  /** From offset `pos` on, the `i`-th value of `ChunkPercents` is for the end
      of the `i`-th chunk. */
  lemma {:induction false} ChunkPercentsValues(pos: nat, n: nat, size: nat)
    requires n > 0
    ensures forall i :: 0 <= i < |ChunkPercents(pos, n, size)| ==>
              ChunkPercents(pos, n, size)[i] == Percent(Min(pos + (i + 1) * n, size), size)
    decreases size - pos
  {
    var p := ChunkPercents(pos, n, size);
    if pos < size && pos + n < size {
      ChunkPercentsValues(pos + n, n, size);
      var q := ChunkPercents(pos + n, n, size);
      assert p == [Percent(pos + n, size)] + q;
      forall i | 1 <= i < |p|
        ensures p[i] == Percent(Min(pos + (i + 1) * n, size), size)
      {
        var j := i - 1;
        assert 0 <= j < |q|;
        assert p[i] == q[j];
        assert q[j] == Percent(Min(pos + n + (j + 1) * n, size), size);
        MulSucc(i, n);
        assert pos + n + (j + 1) * n == pos + (i + 1) * n;
      }
    }
  }

  lemma MulSucc(i: int, n: int)
    ensures (i + 1) * n == i * n + n
  {
  }

  /** `c` is `ceil(m / n)` when `m` lies in `((c - 1) * n, c * n]`. */
  lemma CeilDivBounds(m: nat, n: nat, c: nat)
    requires n > 0 && 0 < c && (c - 1) * n < m <= c * n
    ensures (m + n - 1) / n == c
  {
    MulSucc(c - 1, n);
    DivUnique(m + n - 1, n, c);
  }

  /** With a positive buffer of `n` bytes the `i`-th emitted value is
      `floor(min((i+1)*n, size) * 100 / size)`, and there is one value per
      chunk: `ceil(size / n)` of them. */
  lemma DdWriteProgressValues(image: seq<byte>, bufferKB: nat, compress: seq<byte> -> seq<byte>, device: seq<byte>)
    requires bufferKB > 0 && |image| <= |device|
    ensures var n := bufferKB * 1024;
            var r := DdWrite(Readable(image), bufferKB, false, compress, device);
            && |r.progress| == (|image| + n - 1) / n
            && forall i :: 0 <= i < |r.progress| ==> r.progress[i] == Percent(Min((i + 1) * n, |image|), |image|)
  {
    var n := bufferKB * 1024;
    DdLoopChunkPercents(image, n, compress, 0, device, []);
    ChunkPercentsCount(0, n, |image|);
    ChunkPercentsValues(0, n, |image|);
    var c := |ChunkPercents(0, n, |image|)|;
    if |image| > 0 {
      CeilDivBounds(|image|, n, c);
    } else {
      DivUnique(n - 1, n, 0);
    }
  }

  /** A 100 MiB image written with the default 4 MiB buffer emits 25 values,
      the last of them 100. */
  lemma HundredMiBWithDefaultBuffer(image: seq<byte>, compress: seq<byte> -> seq<byte>, device: seq<byte>)
    requires |image| == 100 * 1024 * 1024 <= |device|
    ensures var r := DdWrite(Readable(image), 4096, false, compress, device);
            r.ok && |r.progress| == 25 && r.progress[24] == 100
  {
    DdWriteCopiesImage(image, 4096, compress, device);
    DdWriteProgressValues(image, 4096, compress, device);
    PercentFull(|image|);
  }

  // ---------------------------------------------------------------------------
  // write_iso_dd as it stands
  // ---------------------------------------------------------------------------

  /** `str(e)` of the `AttributeError` raised by the call at the end of the
      loop body: `calculate_progress_info` is defined nowhere. */
  const MissingProgressHook := "'USBMaker' object has no attribute 'calculate_progress_info'"

  /** `write_iso_dd` as written: the first chunk is written and its percentage
      emitted, then `self.calculate_progress_info(...)` raises and the method
      returns its failure tuple. Returns the run and the message. */
  function DdAsWritten(isoPath: string, image: ImageFile, bufferKB: int, compression: bool,
                       compress: seq<byte> -> seq<byte>, device: seq<byte>): (r: (DdRun, string))
    ensures r.0.ok <==> image.Readable? && |Read(image.bytes, 0, bufferKB * 1024)| == 0
    ensures !image.Readable? ==> r == (DdRun(false, device, 0, []), DdFailed + OsErrorText(isoPath, image))
    ensures r.0.ok ==> r.0.device == device && r.0.written == 0 && r.0.progress == [] && r.1 == DdDone
    ensures |r.0.progress| <= 1 && |r.0.device| == |device|
  {
    match image
    case Readable(iso) =>
      var chunk := Read(iso, 0, bufferKB * 1024);
      if |chunk| == 0 then (DdRun(true, device, 0, []), DdDone)
      else
        var data := Encode(chunk, compression, compress);
        if |data| > |device| then (DdRun(false, device, 0, []), DdFailed + NoSpace)
        else (DdRun(false, Splice(device, 0, data), |data|, [Percent(|data|, |iso|)]), DdFailed + MissingProgressHook)
    case _ => (DdRun(false, device, 0, []), DdFailed + OsErrorText(isoPath, image))
  }

  /** On every non-empty image that fits the device, the code as written fails
      after one chunk, where the intended loop copies the whole image. */
  lemma AsWrittenFailsEveryNonEmptyImage(isoPath: string, image: seq<byte>, bufferKB: int,
                                        compress: seq<byte> -> seq<byte>, device: seq<byte>)
    requires |image| > 0 && bufferKB != 0 && |image| <= |device|
    ensures var (r, msg) := DdAsWritten(isoPath, Readable(image), bufferKB, false, compress, device);
            !r.ok && msg == DdFailed + MissingProgressHook && |r.progress| == 1
    ensures DdWrite(Readable(image), bufferKB, false, compress, device).ok
  {
    DdWriteCopiesImage(image, bufferKB, compress, device);
  }

  /** A concrete case: a 1 MiB image with the default 4096 KB buffer on a
      device of the same size is copied whole, reports 100 percent, and is
      still reported as failed. */
  lemma AsWrittenOneMiBExample(isoPath: string, image: seq<byte>, compress: seq<byte> -> seq<byte>)
    requires |image| == 1024 * 1024
    ensures var (r, msg) := DdAsWritten(isoPath, Readable(image), 4096, false, compress, image);
            !r.ok && r.device == image && r.progress == [100] && msg == DdFailed + MissingProgressHook
  {
    PercentFull(|image|);
    assert image[0..|image|] == image;
    SpliceFront(image, image);
  }

  // ---------------------------------------------------------------------------
  // verify_written_data
  // ---------------------------------------------------------------------------

  /** The comparison loop's result: verdict, the `verified` counter when the
      loop stopped (the offset of the first unequal chunk on failure), and the
      percentages emitted. */
  datatype VerifyRun = VerifyRun(ok: bool, verified: nat, progress: seq<int>)

  function VerifyLoop(image: seq<byte>, device: seq<byte>, n: int, pos: nat, progress: seq<int>): (r: VerifyRun)
    requires pos <= |image| && pos <= |device|
    ensures pos <= r.verified <= |image|
    decreases |image| - pos
  {
    var chunk := Read(image, pos, n);
    if |chunk| == 0 then VerifyRun(true, pos, progress)
    else
      var onDevice := Read(device, pos, |chunk|);
      if chunk != onDevice then VerifyRun(false, pos, progress)
      else VerifyLoop(image, device, n, pos + |chunk|, progress + [Percent(pos + |chunk|, |image|)])
  }

  /** `verify_written_data` on the image file (a missing or refused file
      raises, which it answers with `False`) and the device's contents. */
  function VerifyWritten(image: ImageFile, device: seq<byte>, bufferKB: int): VerifyRun {
    match image
    case Readable(iso) => VerifyLoop(iso, device, bufferKB * 1024, 0, [])
    case _ => VerifyRun(false, 0, [])
  }

  /** `verify_written_data(iso_path, usb_device)`: re-reads image and device in
      lockstep and answers `False` at the first unequal chunk. */
  method VerifyWrittenData(image: ImageFile, dev: BlockDevice, bufferKB: int)
    returns (ok: bool, progress: seq<int>)
    ensures ok == VerifyWritten(image, dev.contents, bufferKB).ok
    ensures progress == VerifyWritten(image, dev.contents, bufferKB).progress
  {
    if !image.Readable? {
      return false, [];
    }
    ok, progress := CompareChunks(image.bytes, dev.contents, bufferKB * 1024);
  }

  /** The `while True` loop of `verify_written_data` over the image's and the
      device's bytes. */
  method CompareChunks(iso: seq<byte>, device: seq<byte>, bufferSize: int) returns (ok: bool, progress: seq<int>)
    ensures ok == VerifyLoop(iso, device, bufferSize, 0, []).ok
    ensures progress == VerifyLoop(iso, device, bufferSize, 0, []).progress
  {
    var isoSize := |iso|;
    ghost var final := VerifyLoop(iso, device, bufferSize, 0, []);
    var verified: nat := 0;
    progress := [];
    while true
      invariant verified <= |iso| && verified <= |device|
      invariant VerifyLoop(iso, device, bufferSize, verified, progress) == final
      decreases |iso| - verified
    {
      var isoChunk := Read(iso, verified, bufferSize);
      if |isoChunk| == 0 {
        return true, progress;
      }
      var usbChunk := Read(device, verified, |isoChunk|);
      if isoChunk != usbChunk {
        return false, progress;
      }
      VerifyLoopAdvance(iso, device, bufferSize, verified, progress, isoChunk, final);
      progress := progress + [Percent(verified + |isoChunk|, isoSize)];
      verified := verified + |isoChunk|;
    }
  }

  /** One turn of the verification loop, when the chunks are equal. */
  lemma VerifyLoopStep(image: seq<byte>, device: seq<byte>, n: int, pos: nat, progress: seq<int>)
    requires pos <= |image| && pos <= |device|
    requires var c := Read(image, pos, n); |c| > 0 && Read(device, pos, |c|) == c
    ensures var next := pos + |Read(image, pos, n)|;
            next <= |device| &&
            VerifyLoop(image, device, n, pos, progress)
            == VerifyLoop(image, device, n, next, progress + [Percent(next, |image|)])
  {
  }

  /** The loop invariant of `VerifyWrittenData` survives a turn with equal
      chunks. */
  lemma VerifyLoopAdvance(image: seq<byte>, device: seq<byte>, n: int, pos: nat, progress: seq<int>,
                          chunk: seq<byte>, final: VerifyRun)
    requires pos <= |image| && pos <= |device|
    requires chunk == Read(image, pos, n) && |chunk| > 0 && Read(device, pos, |chunk|) == chunk
    requires VerifyLoop(image, device, n, pos, progress) == final
    ensures pos + |chunk| <= |image| && pos + |chunk| <= |device|
    ensures VerifyLoop(image, device, n, pos + |chunk|, progress + [Percent(pos + |chunk|, |image|)]) == final
  {
    VerifyLoopStep(image, device, n, pos, progress);
  }

  // ---------------------------------------------------------------------------
  // Properties of the verification
  // ---------------------------------------------------------------------------

  /** The device holds the image bytes from offset `pos` on, at the same offsets. */
  predicate SameFrom(image: seq<byte>, device: seq<byte>, pos: nat) {
    |image| <= |device| && forall i :: pos <= i < |image| ==> device[i] == image[i]
  }

  /** From offset `pos` on, the loop succeeds iff the rest of the image is on
      the device at the same offsets (or the buffer size is zero). */
  lemma {:induction false} VerifyLoopIff(image: seq<byte>, device: seq<byte>, n: int, pos: nat, progress: seq<int>)
    requires pos <= |image| && pos <= |device|
    ensures VerifyLoop(image, device, n, pos, progress).ok <==> n == 0 || SameFrom(image, device, pos)
    decreases |image| - pos
  {
    var chunk := Read(image, pos, n);
    if |chunk| > 0 {
      var next := pos + |chunk|;
      var onDevice := Read(device, pos, |chunk|);
      if SameFrom(image, device, pos) {
        forall k | 0 <= k < |chunk| ensures chunk[k] == onDevice[k] {
          assert chunk[k] == image[pos + k] && onDevice[k] == device[pos + k];
        }
      }
      if chunk == onDevice {
        assert next <= |device|;
        forall i | pos <= i < next ensures device[i] == image[i] {
          assert chunk[i - pos] == onDevice[i - pos];
        }
        VerifyLoopIff(image, device, n, next, progress + [Percent(next, |image|)]);
      }
    }
  }

  /** `verify_written_data` returns `True` iff the device begins with the image
      (or the buffer size is zero, when no chunk is read at all). */
  lemma VerifyWrittenIff(image: seq<byte>, device: seq<byte>, bufferKB: int)
    ensures VerifyWritten(Readable(image), device, bufferKB).ok <==> bufferKB == 0 || image <= device
  {
    VerifyLoopIff(image, device, bufferKB * 1024, 0, []);
    if SameFrom(image, device, 0) {
      assert device[..|image|] == image;
    }
  }

  /** On failure the loop has stopped at the first unequal chunk: everything
      before offset `verified` matches, the chunk read at `verified` differs
      from the device read at `verified` (which may be short), and one value
      was emitted per matching chunk. */
  lemma {:induction false} VerifyLoopFirstMismatch(image: seq<byte>, device: seq<byte>, n: int, pos: nat,
                                                   progress: seq<int>)
    requires pos <= |image| && pos <= |device| && device[..pos] == image[..pos]
    ensures var r := VerifyLoop(image, device, n, pos, progress);
            && r.verified <= |device| && device[..r.verified] == image[..r.verified]
            && (!r.ok ==> var c := Read(image, r.verified, n);
                          |c| > 0 && Read(device, r.verified, |c|) != c)
            && (r.ok ==> n == 0 || r.verified == |image|)
    decreases |image| - pos
  {
    var chunk := Read(image, pos, n);
    if |chunk| > 0 {
      var next := pos + |chunk|;
      if chunk == Read(device, pos, |chunk|) {
        assert device[pos..next] == chunk == image[pos..next];
        VerifyLoopStep(image, device, n, pos, progress);
        assert device[..next] == device[..pos] + device[pos..next];
        assert image[..next] == image[..pos] + image[pos..next];
        VerifyLoopFirstMismatch(image, device, n, next, progress + [Percent(next, |image|)]);
      }
    }
  }

  lemma VerifyWrittenFirstMismatch(image: seq<byte>, device: seq<byte>, bufferKB: int)
    ensures var r := VerifyWritten(Readable(image), device, bufferKB);
            && r.verified <= |device| && device[..r.verified] == image[..r.verified]
            && (!r.ok ==> var c := Read(image, r.verified, bufferKB * 1024);
                          |c| > 0 && Read(device, r.verified, |c|) != c)
  {
    VerifyLoopFirstMismatch(image, device, bufferKB * 1024, 0, []);
  }

  /** Write followed by verify: with compression off, a non-zero buffer and a
      device large enough, verification of what the write left on the device
      succeeds, whatever the device held beyond the image. */
  lemma WriteThenVerify(image: seq<byte>, bufferKB: int, compress: seq<byte> -> seq<byte>, before: seq<byte>)
    requires bufferKB != 0 && |image| <= |before|
    ensures var w := DdWrite(Readable(image), bufferKB, false, compress, before);
            w.ok && VerifyWritten(Readable(image), w.device, bufferKB).ok
  {
    DdWriteCopiesImage(image, bufferKB, compress, before);
    VerifyWrittenIff(image, image + before[|image|..], bufferKB);
  }
}
