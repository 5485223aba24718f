/** The write pipeline of `USBMaker`: its advanced options and
    `write_iso_to_usb`, which checks UEFI support when asked to, dispatches to
    the raw-block or the file-copy writer and verifies what it wrote. The
    Qt signals are the logs `progressLog`, `statusLog` and `verificationLog`;
    `check_uefi_support` and `write_iso_9660` are inputs (their verdict, and
    the device the latter leaves). */
module UsbMaker {
  import opened Text
  import opened ImageFormat
  import opened Transfer

  // ---------------------------------------------------------------------------
  // Advanced options
  // ---------------------------------------------------------------------------

  /** A value of the `advanced_options` dictionary. */
  datatype OptionValue = Bool(b: bool) | Int(i: int) | Str(s: string)

  /** Python's truth value of an option. */
  predicate Truthy(v: OptionValue) {
    match v
    case Bool(b) => b
    case Int(i) => i != 0
    case Str(s) => s != ""
  }

  /** The defaults `__init__` installs. */
  const Defaults: map<string, OptionValue> := map[
    "write_method" := Str("dd"),
    "verify_after_write" := Bool(true),
    "buffer_size" := Int(4096),
    "compression" := Bool(false),
    "skip_verify" := Bool(false),
    "force_uefi" := Bool(false),
    "preserve_data" := Bool(false)]

  /** Every option the pipeline looks up is present (none is ever removed). */
  predicate HasOptions(opts: map<string, OptionValue>) {
    Defaults.Keys <= opts.Keys
  }

  /** `dict.update`: the given options replace or add entries; the rest stay. */
  function Updated(opts: map<string, OptionValue>, options: map<string, OptionValue>)
    : (r: map<string, OptionValue>)
    ensures r.Keys == opts.Keys + options.Keys
    ensures forall k :: k in options ==> r[k] == options[k]
    ensures forall k :: k in opts && k !in options ==> r[k] == opts[k]
    ensures HasOptions(opts) ==> HasOptions(r)
  {
    opts + options
  }

  /** `buffer_size * 1024` as `file.read` receives it: `True` and `False`
      count as 1 and 0; a string repeats into a string, which `read` refuses
      (`None`). */
  function BufferKB(v: OptionValue): (kb: Option<int>)
    ensures v.Str? <==> kb.None?
    ensures v.Int? ==> kb == Some(v.i)
    ensures v.Bool? ==> kb == Some(if v.b then 1 else 0)
  {
    match v
    case Bool(b) => Some(if b then 1 else 0)
    case Int(i) => Some(i)
    case Str(_) => None
  }

  /** Whether `write_iso_to_usb` verifies after writing. */
  predicate VerifyEnabled(opts: map<string, OptionValue>)
    requires HasOptions(opts)
  {
    Truthy(opts["verify_after_write"]) && !Truthy(opts["skip_verify"])
  }

  predicate UsesDd(opts: map<string, OptionValue>)
    requires HasOptions(opts)
  {
    opts["write_method"] == Str("dd")
  }

  // ---------------------------------------------------------------------------
  // write_iso_to_usb
  // ---------------------------------------------------------------------------

  const NoUefi := "ISO文件不支持UEFI启动"
  const Verifying := "正在验证写入..."
  const VerifyFailed := "写入验证失败"
  const Done := "写入完成"
  /** `str(e)` for `file.read` given a string. */
  const BadBufferType := "argument should be integer or None, not 'str'"

  /** What `write_iso_9660` returned and left on the device. */
  datatype Iso9660Result = Iso9660Result(ok: bool, message: string, device: seq<byte>)

  /** A writer's verdict, message, the device it leaves and the percentages it
      emitted. */
  datatype Written = Written(ok: bool, message: string, device: seq<byte>, progress: seq<int>)

  /** All that `write_iso_to_usb` does: its answer, the device afterwards and
      the three signals' emissions. */
  datatype Outcome = Outcome(ok: bool, message: string, device: seq<byte>, progress: seq<int>,
                             status: seq<string>, verification: seq<string>)

  /** `write_iso_dd` under the options. */
  function DdStep(opts: map<string, OptionValue>, isoPath: string, image: ImageFile, device: seq<byte>,
                  compress: seq<byte> -> seq<byte>): Written
    requires HasOptions(opts)
  {
    match BufferKB(opts["buffer_size"])
    case None =>
      Written(false, DdFailed + if !image.Readable? then OsErrorText(isoPath, image) else BadBufferType, device, [])
    case Some(kb) =>
      var r := DdWrite(image, kb, Truthy(opts["compression"]), compress, device);
      Written(r.ok, DdMessage(isoPath, image, r), r.device, r.progress)
  }

  /** The chosen writer: raw-block for `'dd'`, file copy for anything else. */
  function WriteStep(opts: map<string, OptionValue>, isoPath: string, image: ImageFile, device: seq<byte>,
                     iso9660: Iso9660Result, compress: seq<byte> -> seq<byte>): Written
    requires HasOptions(opts)
  {
    if UsesDd(opts) then DdStep(opts, isoPath, image, device, compress)
    else Written(iso9660.ok, iso9660.message, iso9660.device, [])
  }

  /** `verify_written_data` under the options; a string buffer size raises
      inside it, which it answers with `False`. */
  function VerifyStep(opts: map<string, OptionValue>, image: ImageFile, device: seq<byte>): VerifyRun
    requires HasOptions(opts)
  {
    match BufferKB(opts["buffer_size"])
    case None => VerifyRun(false, 0, [])
    case Some(kb) => VerifyWritten(image, device, kb)
  }

  /** `f"验证进度: {progress}%"` */
  function VerificationMessage(progress: int): string {
    "验证进度: " + IntToDecimal(progress) + "%"
  }

  /** The messages `verification_signal` receives for the emitted percentages. */
  function VerificationMessages(progress: seq<int>): seq<string> {
    if progress == [] then []
    else [VerificationMessage(progress[0])] + VerificationMessages(progress[1..])
  }

  /** `write_iso_to_usb(iso_path, usb_device)` around a writer whose result is
      `w`: the UEFI gate, the write, then the verification when enabled. */
  function Pipeline(opts: map<string, OptionValue>, image: ImageFile, device: seq<byte>,
                    uefiSupported: bool, w: Written): Outcome
    requires HasOptions(opts)
  {
    if Truthy(opts["force_uefi"]) && !uefiSupported then Outcome(false, NoUefi, device, [], [], [])
    else if !w.ok then Outcome(false, w.message, w.device, w.progress, [], [])
    else if !VerifyEnabled(opts) then Outcome(true, Done, w.device, w.progress, [], [])
    else
      var v := VerifyStep(opts, image, w.device);
      Outcome(v.ok, if v.ok then Done else VerifyFailed, w.device, w.progress, [Verifying],
              VerificationMessages(v.progress))
  }

  /** `write_iso_to_usb(iso_path, usb_device)` as a function of the options,
      the image path and what the file system shows of it, the device's bytes,
      `check_uefi_support`'s answer and the file-copy writer's result, with
      the raw-block writer's loop as evidently intended (`DdWrite`). */
  function WriteToUsb(opts: map<string, OptionValue>, isoPath: string, image: ImageFile, device: seq<byte>,
                      uefiSupported: bool, iso9660: Iso9660Result, compress: seq<byte> -> seq<byte>): Outcome
    requires HasOptions(opts)
  {
    Pipeline(opts, image, device, uefiSupported, WriteStep(opts, isoPath, image, device, iso9660, compress))
  }

  /** `write_iso_dd` as written (`DdAsWritten`) under the options. */
  function DdStepAsWritten(opts: map<string, OptionValue>, isoPath: string, image: ImageFile, device: seq<byte>,
                           compress: seq<byte> -> seq<byte>): (w: Written)
    requires HasOptions(opts)
    ensures w.ok ==> w.device == device && w.progress == []
    ensures |w.progress| <= 1
  {
    match BufferKB(opts["buffer_size"])
    case None =>
      Written(false, DdFailed + if !image.Readable? then OsErrorText(isoPath, image) else BadBufferType, device, [])
    case Some(kb) =>
      var (r, msg) := DdAsWritten(isoPath, image, kb, Truthy(opts["compression"]), compress, device);
      Written(r.ok, msg, r.device, r.progress)
  }

  /** `write_iso_to_usb` with the raw-block writer as written. */
  function WriteToUsbAsWritten(opts: map<string, OptionValue>, isoPath: string, image: ImageFile, device: seq<byte>,
                               uefiSupported: bool, iso9660: Iso9660Result,
                               compress: seq<byte> -> seq<byte>): (r: Outcome)
    requires HasOptions(opts)
    ensures UsesDd(opts) && r.ok ==> r.device == device && r.progress == []
    ensures UsesDd(opts) ==> |r.progress| <= 1
  {
    var w := if UsesDd(opts) then DdStepAsWritten(opts, isoPath, image, device, compress)
             else Written(iso9660.ok, iso9660.message, iso9660.device, []);
    Pipeline(opts, image, device, uefiSupported, w)
  }

  class USBMaker {
    var advancedOptions: map<string, OptionValue>
    /** `progress_signal` emissions */
    var progressLog: seq<int>
    /** `status_signal` emissions */
    var statusLog: seq<string>
    /** `verification_signal` emissions */
    var verificationLog: seq<string>

    predicate Valid()
      reads this
    {
      HasOptions(advancedOptions)
    }

    constructor ()
      ensures Valid() && advancedOptions == Defaults
      ensures progressLog == [] && statusLog == [] && verificationLog == []
    {
      advancedOptions := Defaults;
      progressLog := [];
      statusLog := [];
      verificationLog := [];
    }

    /** `set_advanced_options(options)` */
    method SetAdvancedOptions(options: map<string, OptionValue>)
      requires Valid()
      modifies this
      ensures Valid() && advancedOptions == Updated(old(advancedOptions), options)
      ensures progressLog == old(progressLog) && statusLog == old(statusLog)
      ensures verificationLog == old(verificationLog)
    {
      advancedOptions := Updated(advancedOptions, options);
    }

    /** `write_iso_dd` with the current options. */
    method WriteDd(isoPath: string, image: ImageFile, dev: BlockDevice, compress: seq<byte> -> seq<byte>)
      returns (ok: bool, message: string, progress: seq<int>)
      requires Valid()
      modifies dev
      ensures var w := DdStep(advancedOptions, isoPath, image, old(dev.contents), compress);
              ok == w.ok && message == w.message && progress == w.progress && dev.contents == w.device
    {
      var kb := BufferKB(advancedOptions["buffer_size"]);
      if kb.None? {
        return false, DdFailed + if !image.Readable? then OsErrorText(isoPath, image) else BadBufferType, [];
      }
      ok, message, progress :=
        WriteIsoDd(isoPath, image, dev, kb.value, Truthy(advancedOptions["compression"]), compress);
    }

    /** `verify_written_data` with the current options. */
    method VerifyData(image: ImageFile, dev: BlockDevice) returns (ok: bool, progress: seq<int>)
      requires Valid()
      ensures ok == VerifyStep(advancedOptions, image, dev.contents).ok
      ensures progress == VerifyStep(advancedOptions, image, dev.contents).progress
    {
      var kb := BufferKB(advancedOptions["buffer_size"]);
      if kb.None? {
        return false, [];
      }
      ok, progress := VerifyWrittenData(image, dev, kb.value);
    }

    /** The writer `write_iso_to_usb` dispatches to. */
    method RunWriter(isoPath: string, image: ImageFile, dev: BlockDevice, iso9660: Iso9660Result,
                     compress: seq<byte> -> seq<byte>)
      returns (success: bool, msg: string, progress: seq<int>)
      requires Valid()
      modifies dev
      ensures var w := WriteStep(advancedOptions, isoPath, image, old(dev.contents), iso9660, compress);
              success == w.ok && msg == w.message && progress == w.progress && dev.contents == w.device
    {
      if advancedOptions["write_method"] == Str("dd") {
        success, msg, progress := WriteDd(isoPath, image, dev, compress);
      } else {
        success, msg, progress := iso9660.ok, iso9660.message, [];
        dev.contents := iso9660.device;
      }
    }

    /** `write_iso_to_usb(iso_path, usb_device)` */
    method WriteIsoToUsb(isoPath: string, image: ImageFile, dev: BlockDevice, uefiSupported: bool,
                         iso9660: Iso9660Result, compress: seq<byte> -> seq<byte>)
      returns (ok: bool, message: string)
      requires Valid()
      modifies this, dev
      ensures advancedOptions == old(advancedOptions)
      ensures var r := WriteToUsb(advancedOptions, isoPath, image, old(dev.contents), uefiSupported, iso9660,
                                  compress);
              && ok == r.ok && message == r.message && dev.contents == r.device
              && progressLog == old(progressLog) + r.progress
              && statusLog == old(statusLog) + r.status
              && verificationLog == old(verificationLog) + r.verification
    {
      if Truthy(advancedOptions["force_uefi"]) && !uefiSupported {
        return false, NoUefi;
      }
      ghost var w := WriteStep(advancedOptions, isoPath, image, dev.contents, iso9660, compress);
      var success, msg, progress := RunWriter(isoPath, image, dev, iso9660, compress);
      ghost var r := Pipeline(advancedOptions, image, old(dev.contents), uefiSupported, w);
      assert WriteToUsb(advancedOptions, isoPath, image, old(dev.contents), uefiSupported, iso9660, compress) == r;
      progressLog := progressLog + progress;
      if !success {
        assert r == Outcome(false, msg, dev.contents, progress, [], []);
        return false, msg;
      }
      if VerifyEnabled(advancedOptions) {
        statusLog := statusLog + [Verifying];
        var verified, vprogress := VerifyData(image, dev);
        ghost var v := VerifyStep(advancedOptions, image, dev.contents);
        assert r == Outcome(v.ok, if v.ok then Done else VerifyFailed, dev.contents, progress, [Verifying],
                            VerificationMessages(v.progress));
        verificationLog := verificationLog + VerificationMessages(vprogress);
        if !verified {
          return false, VerifyFailed;
        }
      } else {
        assert r == Outcome(true, Done, dev.contents, progress, [], []);
      }
      return true, Done;
    }
  }

  // ---------------------------------------------------------------------------
  // Properties of the pipeline
  // ---------------------------------------------------------------------------

  /** Forcing UEFI on an image without it stops before any write: the device is
      untouched and nothing is emitted. */
  lemma UefiGateBlocksWrite(opts: map<string, OptionValue>, isoPath: string, image: ImageFile, device: seq<byte>,
                            iso9660: Iso9660Result, compress: seq<byte> -> seq<byte>)
    requires HasOptions(opts) && Truthy(opts["force_uefi"])
    ensures var r := WriteToUsb(opts, isoPath, image, device, false, iso9660, compress);
            && !r.ok && r.message == NoUefi && r.device == device
            && r.progress == [] && r.status == [] && r.verification == []
  {
  }

  /** Forcing UEFI on an image that has it changes nothing: the run is the
      one without the option. */
  lemma UefiGatePassesSupported(opts: map<string, OptionValue>, isoPath: string, image: ImageFile, device: seq<byte>,
                                iso9660: Iso9660Result, compress: seq<byte> -> seq<byte>)
    requires HasOptions(opts)
    ensures WriteToUsb(opts, isoPath, image, device, true, iso9660, compress)
            == WriteToUsb(opts["force_uefi" := Bool(false)], isoPath, image, device, false, iso9660, compress)
  {
    var opts' := opts["force_uefi" := Bool(false)];
    assert HasOptions(opts');
    assert UsesDd(opts) == UsesDd(opts') && VerifyEnabled(opts) == VerifyEnabled(opts');
    assert BufferKB(opts["buffer_size"]) == BufferKB(opts'["buffer_size"]);
    assert WriteStep(opts, isoPath, image, device, iso9660, compress)
           == WriteStep(opts', isoPath, image, device, iso9660, compress);
  }

  /** Past the UEFI gate, the device ends up as the dispatched writer leaves
      it: the raw-block copy exactly when `write_method` is `'dd'`. */
  lemma DispatchByWriteMethod(opts: map<string, OptionValue>, isoPath: string, image: ImageFile, device: seq<byte>,
                              uefiSupported: bool, iso9660: Iso9660Result, compress: seq<byte> -> seq<byte>)
    requires HasOptions(opts) && (uefiSupported || !Truthy(opts["force_uefi"]))
    ensures var r := WriteToUsb(opts, isoPath, image, device, uefiSupported, iso9660, compress);
            && (UsesDd(opts) && opts["buffer_size"].Int? ==>
                  r.device
                  == DdWrite(image, opts["buffer_size"].i, Truthy(opts["compression"]), compress, device).device)
            && (!UsesDd(opts) ==> r.device == iso9660.device && r.progress == [])
  {
  }

  /** The status "正在验证写入..." is emitted exactly when the write succeeded
      and verification is on and not skipped; only then are verification
      messages emitted. */
  lemma VerifyRunsIff(opts: map<string, OptionValue>, isoPath: string, image: ImageFile, device: seq<byte>,
                      uefiSupported: bool, iso9660: Iso9660Result, compress: seq<byte> -> seq<byte>)
    requires HasOptions(opts)
    ensures var r := WriteToUsb(opts, isoPath, image, device, uefiSupported, iso9660, compress);
            var passed := uefiSupported || !Truthy(opts["force_uefi"]);
            && (r.status == [Verifying] <==>
                  passed && WriteStep(opts, isoPath, image, device, iso9660, compress).ok && VerifyEnabled(opts))
            && (r.status == [] || r.status == [Verifying])
            && (r.status == [] ==> r.verification == [])
  {
  }

  /** The answer is `True` exactly when the gate passes, the write succeeds and
      verification, if on, succeeds; then the message is "写入完成". */
  lemma SucceedsIff(opts: map<string, OptionValue>, isoPath: string, image: ImageFile, device: seq<byte>,
                    uefiSupported: bool, iso9660: Iso9660Result, compress: seq<byte> -> seq<byte>)
    requires HasOptions(opts)
    ensures var r := WriteToUsb(opts, isoPath, image, device, uefiSupported, iso9660, compress);
            var w := WriteStep(opts, isoPath, image, device, iso9660, compress);
            && (r.ok <==> (uefiSupported || !Truthy(opts["force_uefi"])) && w.ok
                          && (VerifyEnabled(opts) ==> VerifyStep(opts, image, w.device).ok))
            && (r.ok ==> r.message == Done)
  {
  }

  /** A string buffer size makes the raw-block write fail without touching the
      device. */
  lemma StringBufferFailsDd(opts: map<string, OptionValue>, isoPath: string, image: ImageFile, device: seq<byte>,
                            uefiSupported: bool, iso9660: Iso9660Result, compress: seq<byte> -> seq<byte>)
    requires HasOptions(opts) && UsesDd(opts) && opts["buffer_size"].Str?
    ensures var r := WriteToUsb(opts, isoPath, image, device, uefiSupported, iso9660, compress);
            !r.ok && r.device == device && r.progress == []
  {
  }

  /** Past the UEFI gate, an image that is missing or that `open` refuses
      makes the raw-block write fail with `str(e)` of the `OSError`, which
      names the path, before anything is written; the code as written does
      the same. */
  lemma UnreadableImageFailsDd(opts: map<string, OptionValue>, isoPath: string, image: ImageFile,
                               device: seq<byte>, uefiSupported: bool, iso9660: Iso9660Result,
                               compress: seq<byte> -> seq<byte>)
    requires HasOptions(opts) && UsesDd(opts) && (uefiSupported || !Truthy(opts["force_uefi"]))
    requires !image.Readable?
    ensures WriteToUsb(opts, isoPath, image, device, uefiSupported, iso9660, compress)
            == Outcome(false, DdFailed + OsErrorText(isoPath, image), device, [], [], [])
    ensures WriteToUsbAsWritten(opts, isoPath, image, device, uefiSupported, iso9660, compress)
            == Outcome(false, DdFailed + OsErrorText(isoPath, image), device, [], [], [])
  {
  }

  /** Every verification message is "验证进度: " followed by the percentage and
      "%", one per emitted percentage, in order. */
  lemma {:induction false} VerificationMessagesShape(progress: seq<int>)
    ensures |VerificationMessages(progress)| == |progress|
    ensures forall i :: 0 <= i < |progress| ==> VerificationMessages(progress)[i] == VerificationMessage(progress[i])
    decreases |progress|
  {
    if progress != [] {
      var rest := progress[1..];
      VerificationMessagesShape(rest);
      var m := VerificationMessages(progress);
      assert m == [VerificationMessage(progress[0])] + VerificationMessages(rest);
      forall i | 1 <= i < |progress| ensures m[i] == VerificationMessage(progress[i]) {
        assert m[i] == VerificationMessages(rest)[i - 1];
        assert progress[i] == rest[i - 1];
      }
    }
  }

  /** With the default options, a readable image and a device large enough,
      the write succeeds and is verified: the device starts with the image and
      keeps whatever it held beyond it. */
  lemma DefaultsWriteAndVerify(isoPath: string, image: seq<byte>, device: seq<byte>, uefiSupported: bool,
                               iso9660: Iso9660Result, compress: seq<byte> -> seq<byte>)
    requires |image| <= |device|
    ensures var r := WriteToUsb(Defaults, isoPath, Readable(image), device, uefiSupported, iso9660, compress);
            && r.ok && r.message == Done && r.device == image + device[|image|..]
            && r.status == [Verifying]
            && |r.verification| == |VerifyWritten(Readable(image), r.device, 4096).progress|
  {
    assert HasOptions(Defaults);
    DdWriteCopiesImage(image, 4096, compress, device);
    WriteThenVerify(image, 4096, compress, device);
    VerificationMessagesShape(VerifyStep(Defaults, Readable(image), image + device[|image|..]).progress);
  }

  /** The code as written, with the default options, a non-empty image and a
      device large enough: the call fails with the missing-attribute message
      after one percentage, and verification never starts. */
  lemma DefaultsFailAsWritten(isoPath: string, image: seq<byte>, device: seq<byte>, uefiSupported: bool,
                              iso9660: Iso9660Result, compress: seq<byte> -> seq<byte>)
    requires 0 < |image| <= |device|
    ensures var r := WriteToUsbAsWritten(Defaults, isoPath, Readable(image), device, uefiSupported, iso9660, compress);
            && !r.ok && r.message == DdFailed + MissingProgressHook
            && |r.progress| == 1 && r.status == [] && r.verification == []
    ensures WriteToUsb(Defaults, isoPath, Readable(image), device, uefiSupported, iso9660, compress).ok
  {
    assert HasOptions(Defaults);
    assert UsesDd(Defaults) && !Truthy(Defaults["force_uefi"]);
    assert BufferKB(Defaults["buffer_size"]) == Some(4096) && !Truthy(Defaults["compression"]);
    AsWrittenFailsEveryNonEmptyImage(isoPath, image, 4096, compress, device);
    var (r, msg) := DdAsWritten(isoPath, Readable(image), 4096, false, compress, device);
    assert DdStepAsWritten(Defaults, isoPath, Readable(image), device, compress)
           == Written(false, msg, r.device, r.progress);
    DefaultsWriteAndVerify(isoPath, image, device, uefiSupported, iso9660, compress);
  }
}
