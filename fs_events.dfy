/** The directory watcher: `FSEventStream` runs `fswatch -0` on the watched
    paths and hands every reported `.iso` path to its callback as a "Created"
    event. The thread, the `fswatch` process and the callback are abstracted:
    `Monitor` is the thread's body, fed the lines `readline()` returns, and
    the callback's invocations are recorded in `events`. */
module FsEvents {
  import opened Text

  /** `FSEvents.Create`, `FSEvents.Delete`, `FSEvents.Modify` */
  const Create := "Created"
  const Delete := "Removed"
  const Modify := "Updated"

  /** The object handed to the callback: its `name` and `mask` attributes. */
  datatype Event = Event(name: string, mask: string)

  // ---------------------------------------------------------------------------
  // The line filter
  // ---------------------------------------------------------------------------

  predicate NulOrNewline(c: char) { c == '\0' || c == '\n' }

  /** `line` without its leading NUL and newline characters. */
  function DropLeading(line: string): (r: string)
    ensures |r| <= |line| && r == line[|line| - |r|..]
    ensures forall k :: 0 <= k < |line| - |r| ==> NulOrNewline(line[k])
    ensures r != [] ==> !NulOrNewline(r[0])
    decreases |line|
  {
    if line != [] && NulOrNewline(line[0]) then DropLeading(line[1..]) else line
  }

  /** `line` without its trailing NUL and newline characters. */
  function DropTrailing(line: string): (r: string)
    ensures |r| <= |line| && r == line[..|r|]
    ensures forall k :: |r| <= k < |line| ==> NulOrNewline(line[k])
    ensures r != [] ==> !NulOrNewline(r[|r| - 1])
    decreases |line|
  {
    if line != [] && NulOrNewline(line[|line| - 1]) then DropTrailing(line[..|line| - 1]) else line
  }

  /** `line.strip('\0\n')`: the line with the NUL and newline characters at
      both ends removed, and nothing else. */
  function StripPath(line: string): (r: string)
    ensures exists i, j :: 0 <= i <= j <= |line| && r == line[i..j]
                           && (forall k :: 0 <= k < i ==> NulOrNewline(line[k]))
                           && (forall k :: j <= k < |line| ==> NulOrNewline(line[k]))
    ensures r != [] ==> !NulOrNewline(r[0]) && !NulOrNewline(r[|r| - 1])
  {
    var l := DropLeading(line);
    var r := DropTrailing(l);
    var i := |line| - |l|;
    assert r == line[i..i + |r|];
    r
  }

  /** `path.lower().endswith('.iso')` */
  predicate IsIsoPath(path: string) {
    EndsWith(Lower(path), ".iso")
  }

  /** The event a line produces, if any. */
  function LineEvent(line: string): (e: Option<Event>)
    ensures e.Some? <==> IsIsoPath(StripPath(line))
    ensures e.Some? ==> e.value == Event(StripPath(line), Create)
  {
    var path := StripPath(line);
    if IsIsoPath(path) then Some(Event(path, Create)) else None
  }

  /** The callback invocations for a run of lines. */
  function EventsOf(lines: seq<string>, hasCallback: bool): seq<Event> {
    if lines == [] || !hasCallback then []
    else
      var rest := EventsOf(lines[..|lines| - 1], hasCallback);
      var e := LineEvent(lines[|lines| - 1]);
      if e.Some? then rest + [e.value] else rest
  }

  /** `e` is an event some line of `lines` produces. */
  predicate FromSomeLine(e: Event, lines: seq<string>) {
    e.mask == Create && IsIsoPath(e.name) && exists k :: 0 <= k < |lines| && e.name == StripPath(lines[k])
  }

  /** Every event carries the stripped path of a line, that path ends in
      `.iso` in some case, and its mask is "Created"; there is at most one
      event per line. */
  lemma {:induction false} EventsAreIsoCreations(lines: seq<string>, hasCallback: bool)
    ensures |EventsOf(lines, hasCallback)| <= |lines|
    ensures forall e :: e in EventsOf(lines, hasCallback) ==> FromSomeLine(e, lines)
    decreases |lines|
  {
    if lines != [] && hasCallback {
      var init := lines[..|lines| - 1];
      var last := lines[|lines| - 1];
      EventsAreIsoCreations(init, hasCallback);
      forall e | e in EventsOf(init, hasCallback) ensures FromSomeLine(e, lines) {
        FromSomeLineExtends(e, lines);
      }
      var ev := LineEvent(last);
      if ev.Some? {
        assert FromSomeLine(ev.value, lines);
        assert EventsOf(lines, hasCallback) == EventsOf(init, hasCallback) + [ev.value];
      } else {
        assert EventsOf(lines, hasCallback) == EventsOf(init, hasCallback);
      }
    }
  }

  lemma FromSomeLineExtends(e: Event, lines: seq<string>)
    requires lines != [] && FromSomeLine(e, lines[..|lines| - 1])
    ensures FromSomeLine(e, lines)
  {
    var k :| 0 <= k < |lines| - 1 && e.name == StripPath(lines[..|lines| - 1][k]);
    assert lines[k] == lines[..|lines| - 1][k];
  }

  /** One line more: it adds its event, if it has one and there is a callback. */
  lemma EventsOfStep(lines: seq<string>, k: nat, hasCallback: bool)
    requires k < |lines|
    ensures hasCallback && LineEvent(lines[k]).Some? ==>
              EventsOf(lines[..k + 1], hasCallback) == EventsOf(lines[..k], hasCallback) + [LineEvent(lines[k]).value]
    ensures !(hasCallback && LineEvent(lines[k]).Some?) ==>
              EventsOf(lines[..k + 1], hasCallback) == EventsOf(lines[..k], hasCallback)
  {
    assert lines[..k + 1][..k] == lines[..k];
  }

  /** Upper-case suffixes are accepted; the path keeps its case. */
  lemma UpperCaseSuffixAccepted()
    ensures LineEvent("/Downloads/UBUNTU.ISO\0") == Some(Event("/Downloads/UBUNTU.ISO", Create))
  {
    var p := "/Downloads/UBUNTU.ISO";
    var line := p + "\0";
    assert DropLeading(line) == line;
    assert line[..|line| - 1] == p;
    assert DropTrailing(p) == p;
    assert DropTrailing(line) == p;
    assert StripPath(line) == p;
    assert Lower(p)[|p| - 4..] == ".iso";
    assert IsIsoPath(p);
    assert line == "/Downloads/UBUNTU.ISO\0";
    assert LineEvent(line) == Some(Event(p, Create));
  }

  // ---------------------------------------------------------------------------
  // The fswatch command
  // ---------------------------------------------------------------------------

  /** The characters `shlex.quote` leaves unquoted: ASCII letters, digits and
      `_@%+=:,./-`. */
  predicate ShellSafe(c: char) {
    'a' <= c <= 'z' || 'A' <= c <= 'Z' || '0' <= c <= '9' || c in "_@%+=:,./-"
  }

  /** `s.replace("'", "'\"'\"'")` */
  function EscapeQuotes(s: string): (r: string)
    ensures |r| >= |s|
  {
    if s == [] then []
    else (if s[0] == '\'' then "'\"'\"'" else [s[0]]) + EscapeQuotes(s[1..])
  }

  /** `shlex.quote(s)` */
  function ShlexQuote(s: string): (r: string)
    ensures r == s <==> s != [] && forall k :: 0 <= k < |s| ==> ShellSafe(s[k])
    ensures r != s ==> |r| >= |s| + 2 && r[0] == '\'' && r[|r| - 1] == '\''
  {
    if s == [] then "''"
    else if forall k :: 0 <= k < |s| ==> ShellSafe(s[k]) then s
    else "'" + EscapeQuotes(s) + "'"
  }

  /** `shlex.quote` changes every path holding a character outside its safe
      set, such as a space. */
  lemma QuoteChangesUnsafePaths(s: string)
    requires exists k :: 0 <= k < |s| && !ShellSafe(s[k])
    ensures ShlexQuote(s) != s
  {
    assert |ShlexQuote(s)| == |EscapeQuotes(s)| + 2;
  }

  /** The command line as written: `['fswatch', '-0']` and `shlex.quote` of
      each existing path. The list is given to `Popen` without a shell, so the
      quotes reach `fswatch` as part of the path. */
  function QuotedCommand(paths: seq<string>, existing: set<string>): (r: seq<string>)
    ensures |r| == 2 + |Existing(paths, existing)| && r[..2] == ["fswatch", "-0"]
    ensures forall k :: 2 <= k < |r| ==> r[k] == ShlexQuote(Existing(paths, existing)[k - 2])
  {
    if paths == [] then ["fswatch", "-0"]
    else
      var init := QuotedCommand(paths[..|paths| - 1], existing);
      var p := paths[|paths| - 1];
      if p in existing then init + [ShlexQuote(p)] else init
  }

  /** A watched directory with a space in its name, such as
      "/Volumes/My ISOs", reaches `fswatch` wrapped in single quotes, as a
      path that does not exist. */
  lemma QuotedCommandMangles(dir: string)
    requires ' ' in dir && '\'' !in dir
    ensures QuotedCommand([dir], {dir}) == ["fswatch", "-0", "'" + dir + "'"]
    ensures "'" + dir + "'" != dir
  {
    var k :| 0 <= k < |dir| && dir[k] == ' ';
    assert !ShellSafe(dir[k]);
    EscapeQuotesNoQuote(dir);
    assert [dir][..0] == [];
  }

  lemma {:induction false} EscapeQuotesNoQuote(s: string)
    requires '\'' !in s
    ensures EscapeQuotes(s) == s
    decreases |s|
  {
    if s != [] {
      EscapeQuotesNoQuote(s[1..]);
      assert [s[0]] + s[1..] == s;
    }
  }

  /** The existing paths, in their original order. */
  function Existing(paths: seq<string>, existing: set<string>): (r: seq<string>)
    ensures forall k :: 0 <= k < |r| ==> r[k] in existing && r[k] in paths
    ensures forall p :: p in paths && p in existing ==> p in r
    ensures Subsequence(r, paths)
  {
    if paths == [] then []
    else
      var init := paths[..|paths| - 1];
      var last := paths[|paths| - 1];
      var rest := Existing(init, existing);
      assert paths == init + [last];
      assert forall p :: p in paths ==> p in init || p == last;
      if last in existing then
        SubsequenceKeepLast(rest, init, last);
        rest + [last]
      else
        SubsequenceSkipLast(rest, init, last);
        rest
  }

  /** Every existing path is kept as many times as it is listed, and no
      other path is kept. */
  lemma {:induction false} ExistingKeepsCopies(paths: seq<string>, existing: set<string>)
    ensures forall p :: multiset(Existing(paths, existing))[p] == if p in existing then multiset(paths)[p] else 0
    decreases |paths|
  {
    if paths != [] {
      var init := paths[..|paths| - 1];
      var last := paths[|paths| - 1];
      ExistingKeepsCopies(init, existing);
      assert paths == init + [last];
      assert multiset(paths) == multiset(init) + multiset{last};
    }
  }

  /** The command line with the paths passed as they are (the evidently
      intended form of `_monitor_thread`'s loop): `['fswatch', '-0']` and the
      existing paths, in order. */
  method BuildCommand(paths: seq<string>, existing: set<string>) returns (cmd: seq<string>)
    ensures cmd == ["fswatch", "-0"] + Existing(paths, existing)
  {
    cmd := ["fswatch", "-0"];
    var k := 0;
    while k < |paths|
      invariant k <= |paths|
      invariant cmd == ["fswatch", "-0"] + Existing(paths[..k], existing)
    {
      ExistingStep(paths, existing, k);
      if paths[k] in existing {
        cmd := cmd + [paths[k]];
      }
      k := k + 1;
    }
    assert paths[..k] == paths;
  }

  /** One path more: it is kept iff it exists. */
  lemma ExistingStep(paths: seq<string>, existing: set<string>, k: nat)
    requires k < |paths|
    ensures paths[k] in existing ==>
              Existing(paths[..k + 1], existing) == Existing(paths[..k], existing) + [paths[k]]
    ensures paths[k] !in existing ==> Existing(paths[..k + 1], existing) == Existing(paths[..k], existing)
  {
    assert paths[..k + 1][..k] == paths[..k];
  }

  /** For paths that need no quoting the two commands agree. */
  lemma {:induction false} SafePathsNeedNoQuoting(paths: seq<string>, existing: set<string>)
    requires forall k, m :: 0 <= k < |paths| && 0 <= m < |paths[k]| ==> ShellSafe(paths[k][m])
    requires forall k :: 0 <= k < |paths| ==> paths[k] != []
    ensures QuotedCommand(paths, existing) == ["fswatch", "-0"] + Existing(paths, existing)
    decreases |paths|
  {
    if paths != [] {
      var init := paths[..|paths| - 1];
      SafePathsNeedNoQuoting(init, existing);
      assert ShlexQuote(paths[|paths| - 1]) == paths[|paths| - 1];
    }
  }

  // ---------------------------------------------------------------------------
  // FSEventStream
  // ---------------------------------------------------------------------------

  /** How many lines the read loop takes when `running` is cleared before the
      `stopAt`-th test of the loop condition: it stops at that test, at the
      first empty line, or at the end of the output. */
  function Taken(lines: seq<string>, stopAt: nat, k: nat): (n: nat)
    requires k <= |lines|
    ensures k <= n <= |lines| && (k <= stopAt ==> n <= stopAt)
    ensures forall j :: k <= j < n ==> j < stopAt && lines[j] != ""
    ensures n < |lines| && k <= stopAt ==> n == stopAt || lines[n] == ""
    decreases |lines| - k
  {
    if k == |lines| || k >= stopAt || lines[k] == "" then k else Taken(lines, stopAt, k + 1)
  }

  /** The read loop of `_monitor_thread`: `readline()` gives `lines[k]`, and
      `""` once the output is exhausted; the loop ends on an empty line, or
      when `running` is found cleared at the `stopAt`-th test. The callback's
      invocations, in order. */
  method ReadEvents(lines: seq<string>, stopAt: nat, hasCallback: bool) returns (emitted: seq<Event>)
    ensures emitted == EventsOf(lines[..Taken(lines, stopAt, 0)], hasCallback)
  {
    emitted := [];
    var k := 0;
    while k < stopAt
      invariant k <= |lines| && Taken(lines, stopAt, k) == Taken(lines, stopAt, 0)
      invariant emitted == EventsOf(lines[..k], hasCallback)
    {
      if k == |lines| || lines[k] == "" {
        break;
      }
      var e := LineEvent(lines[k]);
      EventsOfStep(lines, k, hasCallback);
      if e.Some? && hasCallback {
        emitted := emitted + [e.value];
      }
      k := k + 1;
    }
  }

  class FSEventStream {
    var paths: seq<string>
    var hasCallback: bool
    /** `self.process is not None` */
    var process: bool
    /** `self.thread is not None` */
    var thread: bool
    var running: bool
    /** The callback's invocations, in order. */
    var events: seq<Event>
    /** The command the last run of the thread started. */
    var command: seq<string>

    constructor (paths: seq<string>, hasCallback: bool)
      ensures this.paths == paths && this.hasCallback == hasCallback
      ensures !process && !thread && !running && events == [] && command == []
    {
      this.paths := paths;
      this.hasCallback := hasCallback;
      process := false;
      thread := false;
      running := false;
      events := [];
      command := [];
    }

    /** `start()`: a no-op while running; otherwise sets `running` and
        creates the thread. */
    method Start()
      modifies this
      ensures old(running) ==> running && thread == old(thread)
      ensures !old(running) ==> running && thread
      ensures paths == old(paths) && hasCallback == old(hasCallback) && process == old(process)
      ensures events == old(events) && command == old(command)
    {
      if running {
        return;
      }
      running := true;
      thread := true;
    }

    /** `stop()`: clears `running`, terminates the process (the field keeps
        it) and joins and drops the thread. */
    method Stop()
      modifies this
      ensures !running && !thread
      ensures paths == old(paths) && hasCallback == old(hasCallback) && process == old(process)
      ensures events == old(events) && command == old(command)
    {
      running := false;
      if thread {
        thread := false;
      }
    }

    /** `_monitor_thread()`: builds the command from the paths that exist,
        starts `fswatch` (`launched`: `Popen` succeeded) and handles the lines
        `readline()` returns until an empty one or until `running` is found
        cleared, which happens at the `stopAt`-th test; `running` is cleared
        on every exit. */
    method Monitor(existing: set<string>, launched: bool, lines: seq<string>, stopAt: nat)
      modifies this
      ensures !running
      ensures paths == old(paths) && hasCallback == old(hasCallback) && thread == old(thread)
      ensures command == ["fswatch", "-0"] + Existing(paths, existing)
      ensures process == (old(process) || launched)
      ensures var n := if launched && old(running) then Taken(lines, stopAt, 0) else 0;
              events == old(events) + EventsOf(lines[..n], hasCallback)
    {
      command := BuildCommand(paths, existing);
      if !launched {
        running := false;
        assert lines[..0] == [];
        return;
      }
      process := true;
      if running {
        var emitted := ReadEvents(lines, stopAt, hasCallback);
        events := events + emitted;
      } else {
        assert lines[..0] == [];
      }
      running := false;
    }
  }
}
