/** Image Inspector: the byte-window tests `verify_iso_integrity` and
    `analyze_iso` apply to the first 32 KiB of an image file.

    ECMA-119 (ISO 9660) puts the volume-descriptor set at logical sector 16,
    i.e. byte 32768, and the primary volume descriptor's Standard Identifier
    "CD001" in its bytes 2 to 6 (section 8.4 of ECMA-119), i.e. at file offset
    32769. Both tests read only `f.read(32768)`, a window that ends before that
    offset; the lemmas below state what the tests therefore do. */
module ImageFormat {
  import opened Text

  /** `f.read(32768)`: the header window. */
  const HeaderSize: nat := 32768
  /** 1 MiB, the smallest size `verify_iso_integrity` accepts. */
  const MinImageSize: nat := 1024 * 1024
  /** File offset of the Standard Identifier of the first volume descriptor. */
  const StandardIdentifierOffset: nat := 16 * 2048 + 1

  /** b'CD001' */
  const CD001: seq<byte> := [0x43, 0x44, 0x30, 0x30, 0x31]
  /** b'EL TORITO' */
  const ElTorito: seq<byte> := [0x45, 0x4C, 0x20, 0x54, 0x4F, 0x52, 0x49, 0x54, 0x4F]
  /** b'EFI' */
  const Efi: seq<byte> := [0x45, 0x46, 0x49]

  /** The bytes `f.read(32768)` returns on a freshly opened file. */
  function Header(file: seq<byte>): (h: seq<byte>)
    ensures |h| == Min(|file|, HeaderSize)
    ensures h <= file
  {
    if |file| <= HeaderSize then file else file[..HeaderSize]
  }

  /** Python's slice `s[i:j]` for non-negative bounds (clamped to the length). */
  function Slice<T>(s: seq<T>, i: nat, j: nat): (r: seq<T>)
    ensures |r| == if Min(j, |s|) <= i then 0 else Min(j, |s|) - i
    ensures i <= |s| && i <= j ==> r == s[i..Min(j, |s|)]
  {
    var hi := Min(j, |s|);
    if hi <= i then [] else s[i..hi]
  }

  // ---------------------------------------------------------------------------
  // The image file and the errors opening it raises
  // ---------------------------------------------------------------------------

  /** Why `open(path, 'rb')` refuses an existing file. */
  datatype OpenRefusal = PermissionDenied | IsADirectory

  /** What the file system shows of the image path: no file (`getsize` and
      `open` raise `FileNotFoundError`), a file of the given size that `open`
      refuses, or the bytes of a readable file. */
  datatype ImageFile = Missing | Unopenable(size: nat, why: OpenRefusal) | Readable(bytes: seq<byte>)

  /** The errno and description that `str(e)` of the `OSError` starts with. */
  function ErrnoText(file: ImageFile): string
    requires !file.Readable?
  {
    match file
    case Unopenable(_, PermissionDenied) => "[Errno 13] Permission denied: "
    case Unopenable(_, IsADirectory) => "[Errno 21] Is a directory: "
    case _ => "[Errno 2] No such file or directory: "
  }

  /** `str(e)` of the `OSError` raised for the image at `path`: the errno, its
      description and the `repr` of the path. */
  function OsErrorText(path: string, file: ImageFile): (t: string)
    requires !file.Readable?
    ensures EndsWith(t, PyRepr(path))
  {
    var why := ErrnoText(file);
    assert (why + PyRepr(path))[|why|..] == PyRepr(path);
    why + PyRepr(path)
  }

  /** The error text names the file: images at two different paths that
      fail in the same way give two different messages. */
  lemma ErrorNamesFile(path: string, path': string, file: ImageFile)
    requires !file.Readable? && OsErrorText(path, file) == OsErrorText(path', file)
    ensures path == path'
  {
    var w := ErrnoText(file);
    assert OsErrorText(path, file)[|w|..] == PyRepr(path);
    assert OsErrorText(path', file)[|w|..] == PyRepr(path');
    ReprInjective(path, path');
  }

  /** A missing file whose path holds no quote, backslash or control
      character, as in `/x.iso`: the path appears between single quotes. */
  lemma MissingPlainPath(path: string)
    requires forall i :: 0 <= i < |path| ==>
               ' ' <= path[i] && path[i] as int != 0x7f && path[i] != '\\' && path[i] != '\'' && path[i] != '"'
    ensures OsErrorText(path, Missing) == "[Errno 2] No such file or directory: " + "'" + path + "'"
  {
    ReprPlain(path);
  }

  // ---------------------------------------------------------------------------
  // verify_iso_integrity: format check, then size check
  // ---------------------------------------------------------------------------

  /** The verdicts of `verify_iso_integrity`. The hashes it reports on success
      are computed by foreign code and are not part of the verdict. */
  datatype Integrity = Verified(size: nat) | NotAnImage | ImplausiblySmall | ReadFailed(error: string)

  /** The message `verify_iso_integrity` returns beside `False`; on the
      exception path it is followed by `str(e)`. */
  function FailureMessage(v: Integrity): string
  {
    match v
    case Verified(_) => ""
    case NotAnImage => "文件不是有效的ISO镜像格式"
    case ImplausiblySmall => "ISO文件大小异常"
    case ReadFailed(e) => "ISO文件验证失败: " + e
  }

  /** `verify_iso_integrity(path)` on what the file system shows of `path`;
      the first `open` raises for a file that is missing or refused. */
  function VerifyIntegrity(path: string, file: ImageFile): (v: Integrity)
    ensures v.ReadFailed? <==> !file.Readable?
    ensures v.ReadFailed? ==> v.error == OsErrorText(path, file)
    ensures file.Readable? ==> (v == NotAnImage <==> !Contains(Header(file.bytes), CD001))
    ensures file.Readable? ==>
      (v == ImplausiblySmall <==> Contains(Header(file.bytes), CD001) && |file.bytes| < MinImageSize)
    ensures v.Verified? ==> v.size == |file.bytes| >= MinImageSize
  {
    match file
    case Readable(f) =>
      if !Contains(Header(f), CD001) then NotAnImage
      else if |f| < MinImageSize then ImplausiblySmall
      else Verified(|f|)
    case _ => ReadFailed(OsErrorText(path, file))
  }

  /** The messages `verification_signal` receives during `verify_iso_integrity`. */
  const CheckingIntegrity := "正在验证ISO文件完整性..."
  const IntegrityPassed := "ISO文件验证通过！"

  /** The emissions of `verification_signal`: the opening message, then
      the pass message on success or the error message, `str(e)` included,
      on the exception path; the two early `return`s emit nothing more. */
  function IntegritySignals(path: string, file: ImageFile): (msgs: seq<string>)
    ensures |msgs| >= 1 && msgs[0] == CheckingIntegrity
    ensures VerifyIntegrity(path, file).Verified? <==> msgs == [CheckingIntegrity, IntegrityPassed]
    ensures VerifyIntegrity(path, file).ReadFailed? <==>
              msgs == [CheckingIntegrity, FailureMessage(VerifyIntegrity(path, file))]
    ensures VerifyIntegrity(path, file) in {NotAnImage, ImplausiblySmall} <==> msgs == [CheckingIntegrity]
  {
    match file
    case Readable(f) =>
      if Contains(Header(f), CD001) && |f| >= MinImageSize then [CheckingIntegrity, IntegrityPassed]
      else [CheckingIntegrity]
    case _ => [CheckingIntegrity, "ISO文件验证失败: " + OsErrorText(path, file)]
  }

  /** Only the first 32768 bytes and the length decide the verdict: changing a
      byte at offset 32768 or later, the Standard Identifier included, never
      changes it. */
  lemma BytesBeyondWindowIgnored(path: string, f: seq<byte>, i: nat, b: byte)
    requires HeaderSize <= i < |f|
    ensures VerifyIntegrity(path, Readable(f[i := b])) == VerifyIntegrity(path, Readable(f))
  {
    assert Header(f[i := b]) == Header(f);
  }

  /** An image with a zeroed system area (sectors 0 to 15) and "CD001" at
      offset 32769, where ECMA-119 puts the identifier of the first volume
      descriptor, is rejected as not an image, whatever its size. */
  lemma {:induction false} StandardLayoutRejected(path: string, f: seq<byte>)
    requires |f| >= StandardIdentifierOffset + |CD001|
    requires f[StandardIdentifierOffset..StandardIdentifierOffset + |CD001|] == CD001
    requires forall k :: 0 <= k < HeaderSize ==> f[k] == 0
    ensures VerifyIntegrity(path, Readable(f)) == NotAnImage
  {
    var h := Header(f);
    forall i: nat ensures !OccursAt(h, CD001, i) {
      if i + |CD001| <= |h| {
        assert h[i..i + |CD001|][0] == h[i] == f[i] == 0;
      }
    }
  }

  /** The format check comes first: a file too small to be an image and
      lacking "CD001" is reported as not an image, and an empty file is too. */
  lemma FormatCheckedBeforeSize(path: string, f: seq<byte>)
    requires |f| < MinImageSize && !Contains(Header(f), CD001)
    ensures VerifyIntegrity(path, Readable(f)) == NotAnImage
  {
  }

  lemma {:induction false} EmptyFileIsNotAnImage(path: string)
    ensures VerifyIntegrity(path, Readable([])) == NotAnImage
  {
    var empty: seq<byte> := [];
    assert !OccursAt(empty, CD001, 0);
  }

  // ---------------------------------------------------------------------------
  // analyze_iso
  // ---------------------------------------------------------------------------

  /** The `info` dictionary `analyze_iso` returns. */
  datatype IsoInfo = IsoInfo(path: string, size: nat, name: string, kind: string,
                             bootable: bool, hybrid: bool, uefi: bool)

  /** `analyze_iso(path)`. `os.path.getsize`, evaluated before the `try`,
      raises to the caller when the file does not exist (`None`); an `open`
      that fails is caught, and the dictionary keeps its initial values. The
      `file` probe after the header checks calls `.stdout` on the `str` that
      `check_output` returns; the `AttributeError` is caught and logged, so no
      field set by that probe ever changes. */
  function AnalyzeIso(path: string, file: ImageFile): (r: Option<IsoInfo>)
    ensures r.None? <==> file.Missing?
    ensures file.Unopenable? ==> r == Some(IsoInfo(path, file.size, Basename(path), "unknown", false, false, false))
    ensures file.Readable? ==>
      r.Some? && r.value.path == path && r.value.name == Basename(path) && r.value.size == |file.bytes|
    ensures r.Some? ==> r.value.kind == "unknown" && !r.value.bootable && !r.value.hybrid
    ensures file.Readable? ==> (r.value.uefi <==> Contains(Header(file.bytes), Efi))
  {
    match file
    case Missing => None
    case Unopenable(size, _) => Some(IsoInfo(path, size, Basename(path), "unknown", false, false, false))
    case Readable(f) =>
      var header := Header(f);
      var kind := if Slice(header, StandardIdentifierOffset, StandardIdentifierOffset + 5) == CD001
                  then "iso9660" else "unknown";
      var bootable := Slice(header, HeaderSize, HeaderSize + 6) == ElTorito;
      var uefi := Contains(header, Efi);
      Some(IsoInfo(path, |f|, Basename(path), kind, bootable, false, uefi))
  }
}
