# Bootable USB writer: verified model of the write/verify pipeline

This project models, in Dafny, the core of a macOS tool that writes a bootable
disk image (an ISO file) to a removable USB device. The model covers these
parts of the `USBMaker` class:

- the raw-block writer `write_iso_dd`;
- the lockstep verifier `verify_written_data`;
- the header tests of `verify_iso_integrity` and `analyze_iso`;
- the option gating of `write_iso_to_usb`, with `advanced_options` and
  `set_advanced_options`;
- the device checks `is_removable_device` and `check_disk_safety`, and the
  file-system column of the drive list;
- `format_time`;
- the boot-configuration classification of `detect_boot_config`.

It also models the directory watcher `FSEventStream` of `fs_events.py`. It
starts `fswatch -0` and reports every `.iso` path it prints as a "Created"
event.

Operating-system calls are not modelled, and neither is their output's origin:

- the image file and the device are byte sequences;
- the image is one of the three cases of `ImageFormat.ImageFile`: missing, existing but refused by `open` (permission denied, or a directory), or readable with its bytes; the operations that report `str(e)` also take the image path, since the `OSError` text ends with its `repr`;
- the text `diskutil` prints is a string input;
- `check_uefi_support`, `write_iso_9660`, `os.path.exists`, `Popen` and
  `zlib.compress` are given as inputs (an answer, a result, a set of existing
  paths, a flag, a function).

The Qt signals become logs: `progressLog`, `statusLog` and
`verificationLog` of `UsbMaker.USBMaker`; the callback's invocations become
`events` of `FsEvents.FSEventStream`.

Modules, one per file:

| file | module | models |
|---|---|---|
| `text.dfy` | `Text` | the Python string operations the code uses (`in`, `lower`, `strip`, `split`, `endswith`, decimal formatting, floor division) |
| `image_format.dfy` | `ImageFormat` | the Image Inspector: `verify_iso_integrity`, `analyze_iso` |
| `transfer.dfy` | `Transfer` | the Write Engine's raw-block strategy (`write_iso_dd`) and the Verification Engine (`verify_written_data`) over a `BlockDevice` class |
| `usb_maker.dfy` | `UsbMaker` | the `USBMaker` class: advanced options, `write_iso_to_usb` |
| `devices.dfy` | `Devices` | `is_removable_device`, `check_disk_safety`, the file-system fallback of `get_usb_drives` |
| `time_format.dfy` | `TimeFormat` | `format_time` |
| `boot_config.dfy` | `BootConfig` | `detect_boot_config` |
| `fs_events.dfy` | `FsEvents` | `FSEvents` and the `FSEventStream` class |

The loops of the source are loops here. The following are methods with
`while` loops, each proved against a recursive specification function:

- `WriteIsoDd` and `VerifyWrittenData`, against `DdWrite` and `VerifyWritten`;
- `ParseGrubCfg`, `ParseSyslinuxCfg` and `CollectEfiNames`, against
  `GrubEntries`, `SyslinuxEntries` and `EfiEntries`;
- `FileSystemType`, against its own postcondition;
- `BuildCommand` and `ReadEvents`, against `Existing` and `EventsOf`.

The properties the source promises are then lemmas about those functions.

Two of the source's defects are recorded under "## Findings". The rest of
the model is built on their corrected halves:

- `UsbMaker.WriteToUsb` and `UsbMaker.USBMaker.WriteIsoToUsb` use the
  corrected raw-block writer, `Transfer.DdWrite` and `Transfer.WriteIsoDd`.
- `FsEvents.FSEventStream.Monitor` uses the corrected command,
  `FsEvents.BuildCommand`.

The code as written is modelled beside them:

- `Transfer.DdAsWritten` and `UsbMaker.WriteToUsbAsWritten` for the writer;
  with the default options, `UsbMaker.DefaultsFailAsWritten` shows that every
  non-empty write fails before verification;
- `FsEvents.QuotedCommand` for the command.

## Model

| member | source | states |
|---|---|---|
| ImageFormat.Header | usb_maker.py:803-804 | the header is the first min(size, 32768) bytes of the file, a prefix of it |
| ImageFormat.VerifyIntegrity | usb_maker.py:779-827 | a missing or refused file is a read failure carrying `str(e)` of the `OSError` (`OsErrorText`); otherwise the answer is "not a valid ISO" iff `CD001` occurs nowhere in the first 32768 bytes, "size abnormal" iff it occurs and the file is under 1 MiB, and success (with the size, at least 1 MiB) otherwise |
| ImageFormat.IntegritySignals | usb_maker.py:786-827 | `verification_signal` first gets the opening message; then the pass message iff the verdict is success, the error message `ISO文件验证失败: ` followed by `str(e)` iff the file could not be opened, and nothing more on the two format and size failures |
| ImageFormat.OsErrorText | usb_maker.py:1183-1186 | `str(e)` of the `OSError` for a missing or refused image ends with the `repr` of its path (errno 2 for a missing file, 13 for a refused permission, 21 for a directory) |
| ImageFormat.ErrorNamesFile | usb_maker.py:1209 | two images at different paths that fail in the same way give different error texts: the text names the path |
| ImageFormat.MissingPlainPath | usb_maker.py:1183 | for a missing file at a path like `/x.iso` (no quote, backslash or control character) the text is `[Errno 2] No such file or directory: '/x.iso'` |
| Text.PyRepr | usb_maker.py:1209 | the `repr` of a path, as `str(e)` prints it: the chosen quote at both ends and the escaped path between |
| Text.ReprRoundTrip | usb_maker.py:1209 | the path is read back from its `repr` by stripping the quotes and undoing the escapes |
| Text.ReprInjective | usb_maker.py:1209 | different paths have different `repr`s |
| Text.ReprPlain | usb_maker.py:1209 | a path without quotes, backslashes or control characters is shown between single quotes, unchanged |
| Text.ReprApostrophe | usb_maker.py:1209 | a path with an apostrophe and no double quote is shown between double quotes |
| ImageFormat.BytesBeyondWindowIgnored | usb_maker.py:803-811 | changing any byte at offset 32768 or later never changes the verdict |
| ImageFormat.StandardLayoutRejected | usb_maker.py:803-806 | an image with a zeroed system area (the first 32768 bytes) and `CD001` at offset 32769, where ECMA-119 puts the first volume descriptor's identifier, is rejected as not an ISO, whatever its size |
| ImageFormat.FormatCheckedBeforeSize | usb_maker.py:803-811 | a small file without `CD001` gets the format message, not the size message |
| ImageFormat.EmptyFileIsNotAnImage | usb_maker.py:803-806 | an empty file is "not a valid ISO" |
| ImageFormat.AnalyzeIso | usb_maker.py:1743-1789 | a missing file raises to the caller; a file that cannot be opened gives its path, size and base name with every other field at its initial value; for a readable file path, size and base name are reported, `type` is always "unknown", `bootable` and `hybrid` are always false, and `uefi` holds iff `EFI` occurs in the first 32768 bytes |
| Transfer.Read | usb_maker.py:1191 | `file.read(n)` returns the bytes at the current offset: the next `min(n, rest)` of them, nothing for `n == 0` or at the end, and the whole rest for a negative `n` |
| Transfer.BlockDevice.Open | usb_maker.py:1186 | opening the device keeps its bytes and moves the position to 0 |
| Transfer.BlockDevice.Write | usb_maker.py:1198 | a write that fits puts the data at the position and moves past it; one that does not fit fails and changes nothing |
| Transfer.DdWrite | usb_maker.py:1180-1209 | definition of the corrected write as a function of the image and the device's bytes; its properties are `DdLoopFrame`, `DdLoopStops`, `DdWriteCopiesImage`, `DdWriteTooSmall`, `DdWriteProgress` and `DdWriteProgressValues` |
| Transfer.WriteIsoDd | usb_maker.py:1180-1209 | the verdict, message, emitted percentages, device bytes and final position are those of the copy loop `DdWrite` on the device's old bytes; for a missing or refused image the message is `DD模式写入失败: ` followed by `str(e)`, which names the path (`DdMessage`), and nothing is written |
| Transfer.CopyChunk | usb_maker.py:1191-1202 | one turn of the loop: end of image, device full (nothing changed) or one chunk copied, and in each case the next unfolding of the loop |
| Transfer.DdLoopFrame | usb_maker.py:1190-1202 | whatever the compressor, bytes outside the written range keep their value and the device keeps its size |
| Transfer.DdLoopStops | usb_maker.py:1190-1202 | with compression off the loop succeeds iff it copied up to the end of the image, and on failure the next chunk does not fit |
| Transfer.DdLoopPlain | usb_maker.py:1190-1202 | with compression off, the device then holds the image bytes from the start offset up to where the loop stopped |
| Transfer.DdLoopCopies | usb_maker.py:1190-1202 | on a device large enough the loop copies the whole rest of the image and succeeds |
| Transfer.DdWriteCopiesImage | usb_maker.py:1186-1199 | compression off, non-zero buffer, device large enough: success, everything written, and the device is the image followed by its old tail |
| Transfer.ZeroBufferWritesNothing | usb_maker.py:1188-1193 | a zero buffer reads nothing: success with nothing written and no percentage emitted |
| Transfer.DdWriteTooSmall | usb_maker.py:1190-1209 | a device smaller than the image makes the write fail after a prefix of the image is laid down, at a chunk that does not fit |
| Transfer.Percent | usb_maker.py:1201 | definition of the emitted percentage as `floor(done * 100 / total)`; its properties are `PercentMonotone`, `PercentAtMost100` and `PercentFull` (the float rounding is listed under "## Left out") |
| Transfer.PercentMonotone | usb_maker.py:1201 | the percentage never decreases as the byte count grows |
| Transfer.PercentAtMost100 | usb_maker.py:1201 | up to the whole image the percentage is at most 100 |
| Transfer.PercentFull | usb_maker.py:1201 | the whole image is exactly 100 percent |
| Transfer.DdLoopProgress | usb_maker.py:1190-1202 | the emitted percentages rise monotonically within 0..100 and end at 100 when the loop succeeds |
| Transfer.DdWriteProgress | usb_maker.py:1199-1202 | every write with compression off emits non-decreasing percentages in 0..100, the last one 100 on a successful non-empty write |
| Transfer.DdLoopChunkPercents | usb_maker.py:1190-1202 | on a device large enough the loop emits exactly one percentage per chunk, for the end of that chunk |
| Transfer.ChunkPercentsCount | usb_maker.py:1190-1202 | the number of chunks `c` from an offset satisfies `(c-1)*n < rest <= c*n` |
| Transfer.ChunkPercentsValues | usb_maker.py:1199-1202 | the i-th percentage is that of `min(pos + (i+1)*n, size)` bytes |
| Transfer.DdWriteProgressValues | usb_maker.py:1190-1202 | a whole write emits `ceil(size/n)` percentages, the i-th `floor(min((i+1)*n, size)*100/size)` |
| Transfer.HundredMiBWithDefaultBuffer | usb_maker.py:1188-1202 | a 100 MiB image with the default buffer gives 25 percentages ending in 100 |
| Transfer.DdAsWritten | usb_maker.py:1180-1209 | `write_iso_dd` as written succeeds iff the image is readable and the first read is empty, and then writes and emits nothing; a missing or refused image fails with `str(e)` of its `OSError` and nothing written; it never emits more than one percentage and keeps the device's size |
| Transfer.AsWrittenFailsEveryNonEmptyImage | usb_maker.py:1205 | the code as written fails on every non-empty image, with the missing-attribute message, after one percentage; the intended loop succeeds on the same input |
| Transfer.AsWrittenOneMiBExample | usb_maker.py:1180-1209 | a 1 MiB image is copied whole and reports 100 percent, yet the code as written reports failure |
| Transfer.VerifyLoop | usb_maker.py:1321-1333 | the `verified` counter stays between its start and the image size |
| Transfer.VerifyWritten | usb_maker.py:1315-1337 | definition of `verify_written_data` as a function of the image and the device's bytes; its properties are `VerifyWrittenIff` and `VerifyWrittenFirstMismatch` |
| Transfer.VerifyWrittenData | usb_maker.py:1315-1337 | the verdict and emitted percentages are those of `VerifyWritten` on the image and the device's bytes |
| Transfer.CompareChunks | usb_maker.py:1322-1333 | the `while True` loop's verdict and percentages are those of `VerifyLoop` from offset 0 |
| Transfer.VerifyLoopIff | usb_maker.py:1321-1333 | from an offset, the loop succeeds iff the buffer size is zero or the rest of the image is on the device at the same offsets |
| Transfer.VerifyWrittenIff | usb_maker.py:1315-1337 | `verify_written_data` returns true iff the buffer size is zero or the device begins with the image |
| Transfer.VerifyLoopFirstMismatch | usb_maker.py:1321-1330 | everything before the stop offset matches, and on failure the chunk there differs from the (possibly short) device read |
| Transfer.VerifyWrittenFirstMismatch | usb_maker.py:1321-1330 | the same from offset 0: `False` comes at the first unequal chunk |
| Transfer.WriteThenVerify | usb_maker.py:1180-1337 | a successful plain write is always confirmed by the verifier, whatever the device held beyond the image |
| UsbMaker.Updated | usb_maker.py:1176-1178 | `dict.update`: given keys take the new values, other keys keep theirs, no key is lost |
| UsbMaker.BufferKB | usb_maker.py:1188 | `buffer_size` as a read size: integers as they are, booleans as 1 and 0, strings refused |
| UsbMaker.USBMaker.constructor | usb_maker.py:102-110 | the seven default options; every log empty |
| UsbMaker.USBMaker.SetAdvancedOptions | usb_maker.py:1176-1178 | the options become the update of the old ones; the logs are unchanged |
| UsbMaker.USBMaker.WriteDd | usb_maker.py:1180-1209 | the raw-block write under the current buffer size and compression options |
| UsbMaker.USBMaker.VerifyData | usb_maker.py:1315-1337 | the verifier under the current buffer size option |
| UsbMaker.Pipeline | usb_maker.py:1267-1293 | definition of the steps around the writer: the UEFI gate, the writer's result, then verification when enabled; its properties are stated of `WriteToUsb` |
| UsbMaker.WriteToUsb | usb_maker.py:1267-1293 | definition of `write_iso_to_usb` over the corrected writer; its properties are `UefiGateBlocksWrite`, `UefiGatePassesSupported`, `DispatchByWriteMethod`, `VerifyRunsIff`, `SucceedsIff` and `DefaultsWriteAndVerify` |
| UsbMaker.DdStepAsWritten | usb_maker.py:1180-1209 | the raw-block writer as written under the options succeeds only by writing nothing, and emits at most one percentage |
| UsbMaker.WriteToUsbAsWritten | usb_maker.py:1267-1293 | `write_iso_to_usb` as written with `write_method == 'dd'` succeeds only when nothing was written, and emits at most one percentage; see also `DefaultsFailAsWritten` |
| UsbMaker.USBMaker.RunWriter | usb_maker.py:1275-1278 | the dispatched writer's verdict, message, percentages and device bytes are those of `WriteStep`: the raw-block writer for `'dd'`, the file-copy writer otherwise |
| UsbMaker.USBMaker.WriteIsoToUsb | usb_maker.py:1267-1293 | the answer, the device and the three logs are exactly those of `WriteToUsb` on the options and the device's old bytes, with the corrected raw-block writer |
| UsbMaker.UefiGateBlocksWrite | usb_maker.py:1271-1273 | forcing UEFI on an image without it returns the UEFI message before any write: device untouched, nothing emitted |
| UsbMaker.UefiGatePassesSupported | usb_maker.py:1271-1273 | forcing UEFI on an image with it gives the same run as not forcing it |
| UsbMaker.DispatchByWriteMethod | usb_maker.py:1276-1279 | past the gate, the device is as the raw-block writer leaves it when `write_method == 'dd'`, and as the file-copy writer leaves it otherwise |
| UsbMaker.VerifyRunsIff | usb_maker.py:1281-1288 | the "verifying" status is emitted iff the gate passed, the write succeeded and `verify_after_write and not skip_verify` holds; no verification message without it |
| UsbMaker.SucceedsIff | usb_maker.py:1267-1290 | the answer is true iff the gate passes, the write succeeds and, when enabled, verification succeeds; a true answer carries "写入完成" |
| UsbMaker.UnreadableImageFailsDd | usb_maker.py:1180-1209 | past the UEFI gate with `write_method == 'dd'`, a missing or refused image makes `write_iso_to_usb` return `DD模式写入失败: ` followed by the `OSError` text, with the device untouched and nothing emitted, in the corrected and in the as-written code |
| UsbMaker.StringBufferFailsDd | usb_maker.py:1188-1191 | a string `buffer_size` makes the raw-block write fail with the device untouched |
| UsbMaker.VerificationMessagesShape | usb_maker.py:1332-1333 | one "验证进度: p%" message per verified chunk, in order |
| UsbMaker.DefaultsWriteAndVerify | usb_maker.py:1267-1290 | with the corrected writer, the default options and a device large enough, the call returns "写入完成" after verifying, and the device starts with the image |
| UsbMaker.DefaultsFailAsWritten | usb_maker.py:1205 | with the code as written, the same call on a non-empty image fails with the missing-attribute message after one percentage, and never emits the "verifying" status |
| Devices.MentionsAny | usb_maker.py:515 | `any(w in text ...)` holds iff some word occurs in the text |
| Devices.IsRemovableDevice | usb_maker.py:507-518 | true iff `diskutil info` ran and its lower-cased text contains one of the five keywords; false when it failed |
| Devices.IsRemovableIgnoresCase | usb_maker.py:515 | the answer is the same for the text and its lower-case form |
| Devices.FixedDiskCountsAsRemovable | usb_maker.py:514-515 | any text holding "Removable Media: Fixed", as `diskutil` prints for internal disks, counts as removable |
| Devices.CheckDiskSafety | usb_maker.py:550-566 | false with the "不是可移动设备" message iff not removable; true iff removable and both sizes were obtained; the low-space warning iff free < 10% of total |
| Devices.LowSpaceNeverBlocks | usb_maker.py:560-563 | the free space never changes the verdict |
| Devices.FileSystemType | usb_maker.py:478-488 | the stated personality unless it is "Unknown"; otherwise the first partition name in the accepted list, or "Unknown" when there is none |
| Devices.KnownFileSystemExamples | usb_maker.py:486 | names are compared whole and case-blind: "Microsoft" and "ExFAT" are accepted, "Apple_HFS" and "DOS_FAT_32" are not |
| TimeFormat.FormatTime | usb_maker.py:746-761 | below 60 `s秒`; below 3600 `m分r秒` with `m*60 + r == s`, `1 <= m < 60`, `r < 60`; from 3600 on `h小时m分` with `h*3600 + m*60 <= s < h*3600 + m*60 + 60` |
| TimeFormat.FormatTimeInjectiveBelowHour | usb_maker.py:752-757 | below an hour, different durations get different labels |
| TimeFormat.SecondsDroppedFromAnHour | usb_maker.py:758-761 | from an hour on seconds are dropped: 3600 and 3659 both give "1小时0分" |
| BootConfig.GrubEntryIffQuote | usb_maker.py:1384-1386 | a `menuentry` line yields an entry iff it holds a quote; the entry holds none, and it is the text right after the first quote, ending at the next quote or at the end of the line |
| BootConfig.EfiEntries | usb_maker.py:1368-1371 | every kept name ends in `.efi` in some case, every such name of the listing is kept, and the kept names are a subsequence of the listing |
| BootConfig.CollectEfiNames | usb_maker.py:1366-1371 | the `.efi` names of `EFI/BOOT`, in directory order |
| BootConfig.GrubEntriesFailIff | usb_maker.py:1380-1386 | a GRUB configuration fails to parse iff one of its `menuentry` lines holds no quote |
| BootConfig.SyslinuxEntriesFailIff | usb_maker.py:1395-1401 | a Syslinux configuration fails to parse iff one of its `LABEL` lines has fewer than two words |
| BootConfig.ParseGrubCfg | usb_maker.py:1380-1386 | the GRUB entries line by line, or failure at a `menuentry` line without a quote |
| BootConfig.ParseSyslinuxCfg | usb_maker.py:1395-1401 | the Syslinux labels line by line, or failure at a `LABEL` line without a second word |
| BootConfig.Detect | usb_maker.py:1361-1406 | definition of the configuration found on a mounted volume; its properties are `Classification`, `SyslinuxOverridesGrub`, `UnquotedMenuentryFails` and `EntriesInOrder` |
| BootConfig.DetectBootConfig | usb_maker.py:1339-1416 | off macOS the initial configuration; on macOS `None` if mounting fails, otherwise the classification `Detect` |
| BootConfig.Classification | usb_maker.py:1361-1406 | `type` is hybrid, legacy, uefi or unknown exactly by the presence of `EFI` and of a configuration file; `uefi` is the `EFI` test; `hybrid` agrees with the type |
| BootConfig.SyslinuxOverridesGrub | usb_maker.py:1374-1392 | the bootloader is "syslinux" iff `syslinux.cfg` exists, "grub2" iff only `grub.cfg` does, none otherwise |
| BootConfig.UnquotedMenuentryFails | usb_maker.py:1384-1386 | a `menuentry` line without a quote makes the whole detection return `None` |
| BootConfig.EntriesInOrder | usb_maker.py:1368-1401 | the entries are the `.efi` names, then the GRUB entries, then the Syslinux labels when `syslinux.cfg` exists, each in file order |
| FsEvents.StripPath | fs_events.py:77 | the line with only its leading and trailing NUL and newline characters removed |
| FsEvents.LineEvent | fs_events.py:77-82 | a line yields an event iff its stripped path, lower-cased, ends in `.iso`; the event's name is the stripped path and its mask "Created" |
| FsEvents.EventsAreIsoCreations | fs_events.py:76-84 | every event carries a stripped line that ends in `.iso` and the mask "Created"; at most one per line |
| FsEvents.EventsOfStep | fs_events.py:78-84 | one more line adds its event exactly when it has one and a callback is set |
| FsEvents.UpperCaseSuffixAccepted | fs_events.py:77-82 | "UBUNTU.ISO" is reported, with its case kept |
| FsEvents.ShlexQuote | fs_events.py:60 | `shlex.quote` leaves a string unchanged iff it is non-empty and made of safe characters; otherwise the result is at least two longer and starts and ends with a quote |
| FsEvents.QuotedCommand | fs_events.py:57-60 | the command as written: `['fswatch', '-0']` followed by `shlex.quote` of each existing path, in the order `Existing` keeps |
| FsEvents.EventsOf | fs_events.py:71-84 | definition of the callback's invocations for a run of lines; its properties are `EventsAreIsoCreations` and `EventsOfStep` |
| FsEvents.QuoteChangesUnsafePaths | fs_events.py:60 | `shlex.quote` changes every path holding a character outside its safe set |
| FsEvents.QuotedCommandMangles | fs_events.py:57-68 | a watched path with a space reaches `fswatch` wrapped in literal quotes |
| FsEvents.Existing | fs_events.py:57-60 | the kept paths are existing ones of the list, every existing path of the list is kept, and the kept paths are a subsequence of the list (original order) |
| FsEvents.ExistingKeepsCopies | fs_events.py:57-60 | each existing path is kept as many times as it is listed, and no other path is kept |
| FsEvents.BuildCommand | fs_events.py:57-60 | `['fswatch', '-0']` followed by the existing paths, in order |
| FsEvents.SafePathsNeedNoQuoting | fs_events.py:57-60 | for non-empty paths of safe characters the code as written builds the same command |
| FsEvents.Taken | fs_events.py:71-74 | the loop takes the lines before the first empty one, stopping earlier if `running` is found cleared |
| FsEvents.ReadEvents | fs_events.py:71-84 | the callback's invocations are the events of exactly the lines the loop takes |
| FsEvents.FSEventStream.constructor | fs_events.py:15-26 | no process, no thread, not running |
| FsEvents.FSEventStream.Start | fs_events.py:28-36 | a no-op while running; otherwise running with a thread |
| FsEvents.FSEventStream.Stop | fs_events.py:38-51 | not running and no thread; the process field is kept |
| FsEvents.FSEventStream.Monitor | fs_events.py:53-90 | builds the corrected command (`BuildCommand`), records the process when started, emits the events of the lines taken, and is not running on every exit |

## Left out

- The image hashes (MD5, SHA-256) of `verify_iso_integrity`: foreign code; the verdict does not depend on them.
- `zlib.compress`: a function parameter. The write properties are proved with compression off. With compression on, only the frame (`DdLoopFrame`) is proved, since `written` counts compressed bytes and the percentage can exceed 100.
- Transfer.Percent: the source computes `int((written / iso_size) * 100)` in floating point. The model uses `floor(written * 100 / iso_size)`. The two can differ by one where the float product rounds down (for example, 29 of 100 bytes).
- Transfer.BlockDevice.Open: opening the device always succeeds. The source's `open(usb_device, 'wb')` in `write_iso_dd` and `open(usb_device, 'rb')` in `verify_written_data` raise without root privileges. `write_iso_dd` would then return `(False, "DD模式写入失败: [Errno 13] Permission denied: ...")` with nothing written, and `verify_written_data` would return `False`. Neither case is modelled; the model assumes the device can be opened.
- Text.PyRepr: characters outside ASCII that Python does not count as printable (for example U+00A0) are escaped by `repr` as `\xhh`, `\uhhhh` or `\Uhhhhhhhh`; the model shows them unchanged.
- ImageFormat.OsErrorText: only three `OSError`s of the image are modelled: a missing file, a refused permission and a directory. Other errors (a path too long, an I/O error while reading) are not, and neither is a file that disappears between `getsize` and `open`.
- Transfer.BlockDevice.Write: a write either fits whole or fails with `ENOSPC` and writes nothing. Partial writes and OS buffering are not modelled, and neither is the device vanishing mid-write.
- The speed and remaining-time computation (`calculate_progress_info`, `update_progress`, `format_speed`): floating point and a clock. `calculate_progress_info` is defined nowhere; see Findings.
- TimeFormat.FormatTime: it takes whole seconds. For float input, the source's `int(...)` truncation and `%` on floats are not modelled.
- Devices.CheckDiskSafety: `free < total * 0.1` is a float comparison, modelled exactly as `10 * free < total`. The first message is built from the `ValueError` text.
- `get_drive_size` and `get_free_space`: their `diskutil`/`df`/`statvfs` parsing is not modelled. Their results are `Option<int>` inputs, `None` where they return `None` or raise.
- `get_usb_drives`: only the file-system column is modelled. The regular expressions are inputs (the captured texts). The display string, the volume name and the `CalledProcessError` fallback are left out.
- `write_iso_9660` (the file-copy strategy): mount, walk and per-file copy with OS calls. It is an input: its verdict, message and the device it leaves. Its progress values are not modelled.
- `check_uefi_support`: mounting with `hdiutil`. Its answer is an input.
- The outer `except` of `write_iso_to_usb`: every step it guards catches its own exceptions, and the option keys are always present (`HasOptions`), so it cannot fire in the model.
- `advanced_options` values other than booleans, integers and strings. The option `preserve_data` is never read by the code.
- BootConfig.DetectBootConfig: `hdiutil attach/detach` and the file reads are inputs (`Volume`, `CfgFile`). `os.scandir` order is taken as given. The `boot_config_signal` emission and the logger are not modelled.
- FsEvents.FSEventStream.Monitor: the thread is not modelled. `stop()` running concurrently is the `stopAt` parameter, the loop test at which `running` is found cleared. An exception raised by the callback or by `readline` is not modelled, and neither is the `print` in the handler.
- FsEvents.FSEventStream.Stop: `terminate`/`wait`/`kill` and the join timeout are not modelled. The thread is dropped after the join. `__del__` calls `stop` and is not modelled separately.
- `FSEvents.Delete` and `FSEvents.Modify` are declared constants that the watcher never emits.
- `Text.Lower` folds ASCII letters only, where Python's `str.lower` folds all of Unicode. `Text.Strip` uses the Unicode whitespace set of `str.strip()` without normalisation.
- The rest of the repository (GUI, network, updates, backup and restore, partitioning, `create_bootable_usb`, `write_hybrid_iso`) is not part of this model.
- An empty image file is reported as "not a valid ISO", not as implausibly small, because the format check comes first (`ImageFormat.EmptyFileIsNotAnImage`).

## Findings

| source | as written | input that shows it | evidently intended | confidence | as-written member | corrected member |
|---|---|---|---|---|---|---|
| usb_maker.py:1205 | after each chunk the loop calls `self.calculate_progress_info(written, iso_size)`, a method defined nowhere; the `AttributeError` is caught and `write_iso_dd` returns failure after the first chunk | any non-empty image with a non-zero buffer, for example a 1 MiB image on a 1 MiB device: it is copied whole, 100 percent is emitted, and the answer is `(False, "DD模式写入失败: 'USBMaker' object has no attribute 'calculate_progress_info'")` | the loop runs to the end of the image and returns `(True, "DD模式写入完成")` | high, not executed | Transfer.DdAsWritten | Transfer.WriteIsoDd |
| fs_events.py:60 | each existing path is appended as `shlex.quote(path)` to an argument list passed to `Popen` without a shell, so the quotes are not removed | watching "/Volumes/My ISOs": `fswatch` is given `'/Volumes/My ISOs'`, quote marks included, which names no existing path | the path itself is appended | high, not executed | FsEvents.QuotedCommandMangles | FsEvents.BuildCommand |
