/** `detect_boot_config`: the boot configuration found on a mounted volume,
    over an abstract view of the files it consults. Mounting with `hdiutil`
    is left to the caller: a failed mount or unmount is the exception path. */
module BootConfig {
  import opened Text

  /** A configuration file as `os.path.exists` and `open(...).read()` see it. */
  datatype CfgFile = Missing | Unreadable | Present(content: string)

  /** What `detect_boot_config` looks at under the mount point: whether `EFI`
      exists, the names in `EFI/BOOT` (`None`: no such directory), in the order
      `os.scandir` yields them, and the two configuration files. */
  datatype Volume = Volume(efi: bool, efiBoot: Option<seq<string>>, grubCfg: CfgFile, syslinuxCfg: CfgFile)

  /** The `config` dictionary. */
  datatype Config = Config(kind: string, bootloader: Option<string>, entries: seq<string>, uefi: bool, hybrid: bool)

  const Initial := Config("unknown", None, [], false, false)

  // ---------------------------------------------------------------------------
  // Parsing the configuration files
  // ---------------------------------------------------------------------------

  /** `f.name.lower().endswith('.efi')` */
  predicate IsEfiName(name: string) {
    EndsWith(Lower(name), ".efi")
  }

  /** The entry a GRUB line contributes: `line.split("'")[1]` for a line
      containing "menuentry"; `None` when there is no quote, where the index
      raises. */
  function GrubEntry(line: string): Option<string>
    requires Contains(line, "menuentry")
  {
    var parts := Split(line, '\'');
    if |parts| < 2 then None else Some(parts[1])
  }

  /** The entry a Syslinux line contributes: `line.split()[1]` for a line
      starting with "LABEL"; `None` when it has a single word. */
  function SyslinuxEntry(line: string): Option<string>
    requires StartsWith(line, "LABEL")
  {
    var words := Words(line);
    if |words| < 2 then None else Some(words[1])
  }

  predicate StartsWith(s: string, prefix: string) {
    prefix <= s
  }

  /** A GRUB line yields an entry iff it holds a quote, and the entry is the
      text after the first quote, up to the next one if there is one. */
  lemma GrubEntryIffQuote(line: string)
    requires Contains(line, "menuentry")
    ensures GrubEntry(line).Some? <==> '\'' in line
    ensures GrubEntry(line).Some? ==> '\'' !in GrubEntry(line).value
    ensures GrubEntry(line).Some? ==>
              var e := GrubEntry(line).value;
              exists i :: 0 <= i < |line| && line[i] == '\'' && '\'' !in line[..i]
                          && i + 1 + |e| <= |line| && line[i + 1..i + 1 + |e|] == e
                          && (i + 1 + |e| == |line| || line[i + 1 + |e|] == '\'')
  {
    SplitCount(line, '\'');
    var parts := Split(line, '\'');
    if |parts| >= 2 {
      JoinSplit(line, '\'');
      var e := parts[1];
      var tail := Join(parts[2..], '\'');
      var after := if |parts| == 2 then [] else ['\''] + tail;
      assert Join(parts[1..], '\'') == e + after by {
        if |parts| > 2 {
          assert parts[1..][1..] == parts[2..];
        }
      }
      assert line == parts[0] + ['\''] + (e + after);
      var i := |parts[0]|;
      assert line[..i] == parts[0];
      assert line[i + 1..i + 1 + |e|] == e;
      assert i + 1 + |e| < |line| ==> line[i + 1 + |e|] == after[0] == '\'';
    }
  }

  /** A GRUB configuration fails to parse iff one of its `menuentry` lines
      holds no quote. */
  lemma {:induction false} GrubEntriesFailIff(lines: seq<string>)
    ensures GrubEntries(lines).None? <==>
            exists k :: 0 <= k < |lines| && Contains(lines[k], "menuentry") && '\'' !in lines[k]
    decreases |lines|
  {
    if lines != [] {
      GrubEntriesFailIff(lines[1..]);
      if Contains(lines[0], "menuentry") {
        GrubEntryIffQuote(lines[0]);
      }
      if exists k :: 0 <= k < |lines[1..]| && Contains(lines[1..][k], "menuentry") && '\'' !in lines[1..][k] {
        var k :| 0 <= k < |lines[1..]| && Contains(lines[1..][k], "menuentry") && '\'' !in lines[1..][k];
        assert lines[k + 1] == lines[1..][k];
      }
      if exists k :: 0 <= k < |lines| && Contains(lines[k], "menuentry") && '\'' !in lines[k] {
        var k :| 0 <= k < |lines| && Contains(lines[k], "menuentry") && '\'' !in lines[k];
        if k > 0 {
          assert lines[1..][k - 1] == lines[k];
        }
      }
    }
  }

  /** A Syslinux configuration fails to parse iff one of its `LABEL` lines
      has fewer than two words. */
  lemma {:induction false} SyslinuxEntriesFailIff(lines: seq<string>)
    ensures SyslinuxEntries(lines).None? <==>
            exists k :: 0 <= k < |lines| && StartsWith(lines[k], "LABEL") && |Words(lines[k])| < 2
    decreases |lines|
  {
    if lines != [] {
      SyslinuxEntriesFailIff(lines[1..]);
      if exists k :: 0 <= k < |lines[1..]| && StartsWith(lines[1..][k], "LABEL") && |Words(lines[1..][k])| < 2 {
        var k :| 0 <= k < |lines[1..]| && StartsWith(lines[1..][k], "LABEL") && |Words(lines[1..][k])| < 2;
        assert lines[k + 1] == lines[1..][k];
      }
      if exists k :: 0 <= k < |lines| && StartsWith(lines[k], "LABEL") && |Words(lines[k])| < 2 {
        var k :| 0 <= k < |lines| && StartsWith(lines[k], "LABEL") && |Words(lines[k])| < 2;
        if k > 0 {
          assert lines[1..][k - 1] == lines[k];
        }
      }
    }
  }

  // ---------------------------------------------------------------------------
  // detect_boot_config
  // ---------------------------------------------------------------------------

  /** The entries a GRUB configuration contributes, line by line; `None` when a
      line raises. */
  function GrubEntries(lines: seq<string>): Option<seq<string>> {
    if lines == [] then Some([])
    else
      var rest := GrubEntries(lines[1..]);
      if !Contains(lines[0], "menuentry") then rest
      else match GrubEntry(lines[0])
        case None => None
        case Some(e) => if rest.None? then None else Some([e] + rest.value)
  }

  function SyslinuxEntries(lines: seq<string>): Option<seq<string>> {
    if lines == [] then Some([])
    else
      var rest := SyslinuxEntries(lines[1..]);
      if !StartsWith(lines[0], "LABEL") then rest
      else match SyslinuxEntry(lines[0])
        case None => None
        case Some(e) => if rest.None? then None else Some([e] + rest.value)
  }

  /** `[n for n in names if n.lower().endswith('.efi')]`: every kept name is an
      `.efi` name, every `.efi` name is kept, and the order is the listing's. */
  function EfiEntries(names: seq<string>): (r: seq<string>)
    ensures forall k :: 0 <= k < |r| ==> IsEfiName(r[k])
    ensures forall k :: 0 <= k < |names| && IsEfiName(names[k]) ==> names[k] in r
    ensures Subsequence(r, names)
  {
    if names == [] then []
    else
      var rest := EfiEntries(names[1..]);
      if IsEfiName(names[0]) then
        assert ([names[0]] + rest)[1..] == rest;
        [names[0]] + rest
      else
        assert rest != [] ==> IsEfiName(rest[0]);
        rest
  }

  /** The configuration `detect_boot_config` returns for a mounted volume on
      macOS (`None` on the exception path), stated as a function. */
  function Detect(v: Volume): Option<Config> {
    var efiNames := if v.efi && v.efiBoot.Some? then EfiEntries(v.efiBoot.value) else [];
    var grub := match v.grubCfg
                case Missing => Some([])
                case Unreadable => None
                case Present(c) => GrubEntries(Split(c, '\n'));
    var syslinux := match v.syslinuxCfg
                    case Missing => Some([])
                    case Unreadable => None
                    case Present(c) => SyslinuxEntries(Split(c, '\n'));
    if grub.None? || syslinux.None? then None
    else
      var bootloader := if !v.syslinuxCfg.Missing? then Some("syslinux")
                        else if !v.grubCfg.Missing? then Some("grub2") else None;
      var hybrid := v.efi && bootloader.Some?;
      var kind := if hybrid then "hybrid" else if bootloader.Some? then "legacy"
                  else if v.efi then "uefi" else "unknown";
      Some(Config(kind, bootloader, efiNames + grub.value + syslinux.value, v.efi, hybrid))
  }

  /** `detect_boot_config(usb_device)`. `volume` is `None` when `hdiutil attach`
      or `detach` fails; off macOS nothing is mounted and the initial
      configuration is returned. */
  method DetectBootConfig(volume: Option<Volume>, darwin: bool) returns (config: Option<Config>)
    ensures !darwin ==> config == Some(Initial)
    ensures darwin ==> config == if volume.None? then None else Detect(volume.value)
  {
    var c := Initial;
    if !darwin {
      return Some(c);
    }
    if volume.None? {
      return None;
    }
    var v := volume.value;
    if v.efi {
      c := c.(uefi := true, kind := "uefi");
      if v.efiBoot.Some? {
        var names := CollectEfiNames(v.efiBoot.value);
        c := c.(entries := c.entries + names);
      }
    }
    assert c.entries == if v.efi && v.efiBoot.Some? then EfiEntries(v.efiBoot.value) else [];
    ghost var afterEfi := c.entries;
    if !v.grubCfg.Missing? {
      c := c.(bootloader := Some("grub2"), kind := "legacy");
      if v.grubCfg.Unreadable? {
        return None;
      }
      var entries := ParseGrubCfg(v.grubCfg.content);
      if entries.None? {
        return None;
      }
      c := c.(entries := c.entries + entries.value);
    } else {
      assert c.entries == afterEfi + [];
    }
    ghost var afterGrub := c.entries;
    if !v.syslinuxCfg.Missing? {
      c := c.(bootloader := Some("syslinux"), kind := "legacy");
      if v.syslinuxCfg.Unreadable? {
        return None;
      }
      var entries := ParseSyslinuxCfg(v.syslinuxCfg.content);
      if entries.None? {
        return None;
      }
      c := c.(entries := c.entries + entries.value);
    } else {
      assert c.entries == afterGrub + [];
    }
    if c.uefi && c.bootloader.Some? {
      c := c.(hybrid := true, kind := "hybrid");
    }
    return Some(c);
  }

  /** The names in `EFI/BOOT` ending in `.efi`, in any case, in order. */
  method CollectEfiNames(names: seq<string>) returns (entries: seq<string>)
    ensures entries == EfiEntries(names)
  {
    entries := [];
    var k := 0;
    while k < |names|
      invariant k <= |names|
      invariant entries == EfiEntries(names[..k])
    {
      if IsEfiName(names[k]) {
        entries := entries + [names[k]];
      }
      EfiEntriesSnoc(names, k);
      k := k + 1;
    }
    assert names[..k] == names;
  }

  /** The menu entries of `boot/grub/grub.cfg`; `None` when a line raises. */
  method ParseGrubCfg(content: string) returns (entries: Option<seq<string>>)
    ensures entries == GrubEntries(Split(content, '\n'))
  {
    var lines := Split(content, '\n');
    var found: seq<string> := [];
    var k := 0;
    while k < |lines|
      invariant k <= |lines|
      invariant GrubEntries(lines[..k]) == Some(found)
    {
      var line := lines[k];
      GrubEntriesSnoc(lines, k);
      if Contains(line, "menuentry") {
        var parts := Split(line, '\'');
        if |parts| < 2 {
          GrubEntriesAppend(lines[..k + 1], lines[k + 1..]);
          assert lines[..k + 1] + lines[k + 1..] == lines;
          return None;
        }
        found := found + [parts[1]];
      }
      k := k + 1;
    }
    assert lines[..k] == lines;
    return Some(found);
  }

  /** The labels of `syslinux.cfg`; `None` when a line raises. */
  method ParseSyslinuxCfg(content: string) returns (entries: Option<seq<string>>)
    ensures entries == SyslinuxEntries(Split(content, '\n'))
  {
    var lines := Split(content, '\n');
    var found: seq<string> := [];
    var k := 0;
    while k < |lines|
      invariant k <= |lines|
      invariant SyslinuxEntries(lines[..k]) == Some(found)
    {
      var line := lines[k];
      SyslinuxEntriesSnoc(lines, k);
      if StartsWith(line, "LABEL") {
        var words := Words(line);
        if |words| < 2 {
          SyslinuxEntriesAppend(lines[..k + 1], lines[k + 1..]);
          assert lines[..k + 1] + lines[k + 1..] == lines;
          return None;
        }
        found := found + [words[1]];
      }
      k := k + 1;
    }
    assert lines[..k] == lines;
    return Some(found);
  }

  // ---------------------------------------------------------------------------
  // Line-by-line unfolding of the parsers
  // ---------------------------------------------------------------------------

  lemma {:induction false} EfiEntriesSnoc(names: seq<string>, k: nat)
    requires k < |names|
    ensures EfiEntries(names[..k + 1]) == EfiEntries(names[..k]) + (if IsEfiName(names[k]) then [names[k]] else [])
  {
    EfiEntriesAppend(names[..k], [names[k]]);
    assert names[..k] + [names[k]] == names[..k + 1];
  }

  lemma {:induction false} EfiEntriesAppend(a: seq<string>, b: seq<string>)
    ensures EfiEntries(a + b) == EfiEntries(a) + EfiEntries(b)
    decreases |a|
  {
    if a != [] {
      EfiEntriesAppend(a[1..], b);
      assert (a + b)[1..] == a[1..] + b;
    } else {
      assert a + b == b;
    }
  }

  lemma {:induction false} GrubEntriesSnoc(lines: seq<string>, k: nat)
    requires k < |lines| && GrubEntries(lines[..k]).Some?
    ensures var line := lines[k];
            var next := GrubEntries(lines[..k + 1]);
            && (!Contains(line, "menuentry") ==> next == GrubEntries(lines[..k]))
            && (Contains(line, "menuentry") ==>
                  next == if GrubEntry(line).None? then None
                          else Some(GrubEntries(lines[..k]).value + [GrubEntry(line).value]))
  {
    assert lines[..k + 1] == lines[..k] + [lines[k]];
    GrubEntriesAppend(lines[..k], [lines[k]]);
    var one := [lines[k]];
    assert one[1..] == [];
    assert GrubEntries(one[1..]) == Some([]);
    if !Contains(lines[k], "menuentry") {
      assert GrubEntries(one) == Some([]);
      assert GrubEntries(lines[..k]).value + [] == GrubEntries(lines[..k]).value;
    }
    if Contains(lines[k], "menuentry") && GrubEntry(lines[k]).Some? {
      assert [GrubEntry(lines[k]).value] + [] == [GrubEntry(lines[k]).value];
    }
  }

  lemma {:induction false} GrubEntriesAppend(a: seq<string>, b: seq<string>)
    ensures GrubEntries(a + b) ==
            if GrubEntries(a).None? || GrubEntries(b).None? then None
            else Some(GrubEntries(a).value + GrubEntries(b).value)
    decreases |a|
  {
    if a != [] {
      GrubEntriesAppend(a[1..], b);
      assert (a + b)[1..] == a[1..] + b;
      assert (a + b)[0] == a[0];
      var ra, rb := GrubEntries(a[1..]), GrubEntries(b);
      if ra.Some? && rb.Some? && Contains(a[0], "menuentry") && GrubEntry(a[0]).Some? {
        assert [GrubEntry(a[0]).value] + (ra.value + rb.value) == ([GrubEntry(a[0]).value] + ra.value) + rb.value;
      }
    } else {
      assert a + b == b;
      assert GrubEntries(a) == Some([]);
      if GrubEntries(b).Some? {
        assert [] + GrubEntries(b).value == GrubEntries(b).value;
      }
    }
  }

  lemma {:induction false} SyslinuxEntriesSnoc(lines: seq<string>, k: nat)
    requires k < |lines| && SyslinuxEntries(lines[..k]).Some?
    ensures var line := lines[k];
            var next := SyslinuxEntries(lines[..k + 1]);
            && (!StartsWith(line, "LABEL") ==> next == SyslinuxEntries(lines[..k]))
            && (StartsWith(line, "LABEL") ==>
                  next == if SyslinuxEntry(line).None? then None
                          else Some(SyslinuxEntries(lines[..k]).value + [SyslinuxEntry(line).value]))
  {
    assert lines[..k + 1] == lines[..k] + [lines[k]];
    SyslinuxEntriesAppend(lines[..k], [lines[k]]);
    var one := [lines[k]];
    assert one[1..] == [];
    assert SyslinuxEntries(one[1..]) == Some([]);
    if !StartsWith(lines[k], "LABEL") {
      assert SyslinuxEntries(one) == Some([]);
      assert SyslinuxEntries(lines[..k]).value + [] == SyslinuxEntries(lines[..k]).value;
    }
    if StartsWith(lines[k], "LABEL") && SyslinuxEntry(lines[k]).Some? {
      assert [SyslinuxEntry(lines[k]).value] + [] == [SyslinuxEntry(lines[k]).value];
    }
  }

  lemma {:induction false} SyslinuxEntriesAppend(a: seq<string>, b: seq<string>)
    ensures SyslinuxEntries(a + b) ==
            if SyslinuxEntries(a).None? || SyslinuxEntries(b).None? then None
            else Some(SyslinuxEntries(a).value + SyslinuxEntries(b).value)
    decreases |a|
  {
    if a != [] {
      SyslinuxEntriesAppend(a[1..], b);
      assert (a + b)[1..] == a[1..] + b;
      assert (a + b)[0] == a[0];
      var ra, rb := SyslinuxEntries(a[1..]), SyslinuxEntries(b);
      if ra.Some? && rb.Some? && StartsWith(a[0], "LABEL") && SyslinuxEntry(a[0]).Some? {
        assert [SyslinuxEntry(a[0]).value] + (ra.value + rb.value) == ([SyslinuxEntry(a[0]).value] + ra.value) + rb.value;
      }
    } else {
      assert a + b == b;
      assert SyslinuxEntries(a) == Some([]);
      if SyslinuxEntries(b).Some? {
        assert [] + SyslinuxEntries(b).value == SyslinuxEntries(b).value;
      }
    }
  }

  // ---------------------------------------------------------------------------
  // Properties of the classification
  // ---------------------------------------------------------------------------

  /** The four kinds: "hybrid" iff an `EFI` directory and a bootloader
      configuration, "legacy" iff only the latter, "uefi" iff only the former,
      "unknown" iff neither; `uefi` reports the `EFI` directory and `hybrid`
      agrees with the kind. */
  lemma Classification(v: Volume)
    requires Detect(v).Some?
    ensures var c := Detect(v).value;
            var legacy := !v.grubCfg.Missing? || !v.syslinuxCfg.Missing?;
            && c.uefi == v.efi && c.hybrid == (c.kind == "hybrid")
            && (c.kind == "hybrid" <==> v.efi && legacy)
            && (c.kind == "legacy" <==> !v.efi && legacy)
            && (c.kind == "uefi" <==> v.efi && !legacy)
            && (c.kind == "unknown" <==> !v.efi && !legacy)
  {
  }

  /** The Syslinux check runs last: with both configuration files present the
      bootloader is reported as "syslinux", and "grub2" only without one. */
  lemma SyslinuxOverridesGrub(v: Volume)
    requires Detect(v).Some?
    ensures var b := Detect(v).value.bootloader;
            && (b == Some("syslinux") <==> !v.syslinuxCfg.Missing?)
            && (b == Some("grub2") <==> v.syslinuxCfg.Missing? && !v.grubCfg.Missing?)
            && (b.None? <==> v.syslinuxCfg.Missing? && v.grubCfg.Missing?)
  {
  }

  /** A GRUB line that mentions "menuentry" without a quote, such as a comment
      `# menuentry`, makes the whole detection fail. */
  lemma UnquotedMenuentryFails(v: Volume, k: nat)
    requires v.grubCfg.Present? && k < |Split(v.grubCfg.content, '\n')|
    requires var line := Split(v.grubCfg.content, '\n')[k];
             Contains(line, "menuentry") && '\'' !in line
    ensures Detect(v).None?
  {
    var lines := Split(v.grubCfg.content, '\n');
    assert lines == lines[..k] + [lines[k]] + lines[k + 1..];
    GrubEntriesAppend(lines[..k] + [lines[k]], lines[k + 1..]);
    GrubEntriesAppend(lines[..k], [lines[k]]);
    GrubEntryIffQuote(lines[k]);
  }

  /** The entries are the `.efi` names, then the GRUB entries, then the
      Syslinux labels, each in file order. */
  lemma EntriesInOrder(v: Volume)
    requires Detect(v).Some? && v.efi && v.efiBoot.Some?
    requires v.grubCfg.Present?
    ensures Detect(v).value.entries
            == EfiEntries(v.efiBoot.value) + GrubEntries(Split(v.grubCfg.content, '\n')).value
               + (if v.syslinuxCfg.Present? then SyslinuxEntries(Split(v.syslinuxCfg.content, '\n')).value else [])
  {
  }
}
