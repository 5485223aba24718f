/** The device checks of `USBMaker` on the text `diskutil` prints: whether a
    disk is removable, whether it is safe to write, and which file system a
    drive list entry shows. The `diskutil`, `df` and `statvfs` calls are inputs. */
module Devices {
  import opened Text

  // ---------------------------------------------------------------------------
  // is_removable_device
  // ---------------------------------------------------------------------------

  /** `removable_keywords` */
  const RemovableKeywords: seq<string> := ["external", "removable", "usb", "flash", "thumb"]

  /** Python's `any(w in text for w in words)`. */
  function MentionsAny(text: string, words: seq<string>): (r: bool)
    ensures r <==> exists k :: 0 <= k < |words| && Contains(text, words[k])
  {
    if words == [] then false
    else Contains(text, words[0]) || MentionsAny(text, words[1..])
  }

  /** `is_removable_device(disk_path)` on the output of `diskutil info`
      (`None`: the command failed, the exception path). */
  function IsRemovableDevice(info: Option<string>): (r: bool)
    ensures r <==> info.Some? &&
                   exists k :: 0 <= k < |RemovableKeywords| && Contains(Lower(info.value), RemovableKeywords[k])
  {
    info.Some? && MentionsAny(Lower(info.value), RemovableKeywords)
  }

  /** The keyword test ignores case: upper-case text gives the same answer as
      its lower-case form. */
  lemma IsRemovableIgnoresCase(info: string)
    ensures IsRemovableDevice(Some(info)) == IsRemovableDevice(Some(Lower(info)))
  {
    assert Lower(Lower(info)) == Lower(info);
  }

  /** "removable" also matches the line `diskutil` prints for an internal disk,
      "Removable Media: Fixed": any text holding it counts as removable. */
  lemma FixedDiskCountsAsRemovable(info: string)
    requires Contains(info, "Removable Media: Fixed")
    ensures IsRemovableDevice(Some(info))
  {
    var line := "Removable Media: Fixed";
    var word := RemovableKeywords[1];
    var i: nat :| OccursAt(info, line, i);
    forall k | 0 <= k < |word| ensures Lower(info)[i + k] == word[k] {
      assert info[i + k] == info[i..i + |line|][k] == line[k];
    }
    assert Lower(info)[i..i + |word|] == word;
    assert OccursAt(Lower(info), word, i);
  }

  // ---------------------------------------------------------------------------
  // check_disk_safety
  // ---------------------------------------------------------------------------

  /** The outcome of `check_disk_safety`: `Safe` is the `True` answer, with
      whether the low-space warning was logged; the other two are `False`
      after `emit_error`. */
  datatype Safety = Safe(lowSpace: bool) | NotRemovable(message: string) | SizeUnreadable

  /** The message `emit_error` receives for a disk that is not removable. */
  function NotRemovableMessage(diskPath: string): string {
    "Disk safety check failed: " + "警告：" + diskPath + " 不是可移动设备！"
  }

  /** `check_disk_safety(disk_path)`. `total` and `free` are what
      `get_drive_size` and `get_free_space` return; `None` when they return
      `None` (no size line to parse) or raise, where the comparison with
      `total_space * 0.1` raises in turn. */
  function CheckDiskSafety(diskPath: string, info: Option<string>, total: Option<int>, free: Option<int>)
    : (r: Safety)
    ensures r.NotRemovable? <==> !IsRemovableDevice(info)
    ensures r.NotRemovable? ==> r.message == NotRemovableMessage(diskPath)
    ensures r.Safe? <==> IsRemovableDevice(info) && total.Some? && free.Some?
    ensures r.Safe? ==> (r.lowSpace <==> 10 * free.value < total.value)
  {
    if !IsRemovableDevice(info) then NotRemovable(NotRemovableMessage(diskPath))
    else if total.None? || free.None? then SizeUnreadable
    else Safe(10 * free.value < total.value)
  }

  /** The low-space test only logs: how much space is free never changes the
      verdict. */
  lemma LowSpaceNeverBlocks(diskPath: string, info: Option<string>, total: int, free: int, free': int)
    ensures CheckDiskSafety(diskPath, info, Some(total), Some(free)).Safe?
            == CheckDiskSafety(diskPath, info, Some(total), Some(free')).Safe?
  {
  }

  // ---------------------------------------------------------------------------
  // The file-system column of get_usb_drives
  // ---------------------------------------------------------------------------

  /** The partition type names the fallback accepts, compared in lower case. */
  const KnownFileSystems: seq<string> := ["microsoft", "fat", "exfat", "apfs", "hfs"]

  predicate KnownFileSystem(name: string) {
    Lower(name) in KnownFileSystems
  }

  /** The file system `get_usb_drives` shows for a disk. `personality` is the
      text the `File System Personality:` pattern captured in `diskutil info`
      (`None`: no match); `names` are the words the partition pattern captured
      in `diskutil list`, in order. A personality that strips to anything but
      "Unknown" is shown as is; otherwise the first accepted partition name is
      shown, and "Unknown" when there is none. */
  method FileSystemType(personality: Option<string>, names: seq<string>) returns (fsType: string)
    ensures var stated := if personality.Some? then Strip(personality.value) else "Unknown";
            && (stated != "Unknown" ==> fsType == stated)
            && (stated == "Unknown" ==>
                  (fsType == "Unknown" && forall i :: 0 <= i < |names| ==> !KnownFileSystem(names[i]))
                  || exists i :: 0 <= i < |names| && fsType == names[i] && KnownFileSystem(names[i])
                                 && forall j :: 0 <= j < i ==> !KnownFileSystem(names[j]))
  {
    fsType := if personality.Some? then Strip(personality.value) else "Unknown";
    if fsType == "Unknown" {
      var k := 0;
      while k < |names|
        invariant k <= |names| && fsType == "Unknown"
        invariant forall j :: 0 <= j < k ==> !KnownFileSystem(names[j])
      {
        if KnownFileSystem(names[k]) {
          fsType := names[k];
          return;
        }
        k := k + 1;
      }
    }
  }

  /** The kept name keeps its spelling: "Microsoft" is accepted and shown as
      "Microsoft"; a name with a prefix, such as "Apple_HFS" or "DOS_FAT_32",
      is not accepted. */
  lemma KnownFileSystemExamples()
    ensures KnownFileSystem("Microsoft") && KnownFileSystem("ExFAT")
    ensures !KnownFileSystem("Apple_HFS") && !KnownFileSystem("DOS_FAT_32")
  {
    assert Lower("Microsoft") == "microsoft";
    assert Lower("ExFAT") == "exfat";
    assert Lower("Apple_HFS") == "apple_hfs";
    assert Lower("DOS_FAT_32") == "dos_fat_32";
  }
}
