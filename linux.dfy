/** Device inventory on Linux (src/disk/linux.rs). Every filesystem call of
    the source is an input: the listing of `/sys/block`, the existence test
    and the attribute reader over sysfs, the lines of the mount table and the
    `statvfs` figures of each device node. */
module Linux {
  import opened Wrappers
  import opened Disk

  // ---------------------------------------------------------------------------
  // Paths and their ancestors

  /** `Path::file_name` of a normalised absolute path: its last component,
      none for `/`. */
  function FileName(p: Path): (r: Option<string>)
  {
    if p == [] then None else Some(p[|p| - 1])
  }

  /** `Path::parent`: the next ancestor. */
  function Parent(p: Path): (q: Path)
    requires p != []
  {
    p[..|p| - 1]
  }

  /** A path other than `/` is its parent followed by its file name, so
      walking the parents visits every prefix of the path, and the ancestor
      `p[..k + 1]` has the file name `p[k]`. */
  lemma AncestorsSplitPath(p: Path, k: nat)
    requires k < |p|
    ensures p != [] && Parent(p) + [FileName(p).value] == p
    ensures FileName(p[..k + 1]) == Some(p[k])
  {
  }

  /** `str::starts_with("usb")`. */
  predicate StartsWithUsb(name: string)
  {
    |name| >= 3 && name[..3] == "usb"
  }

  /** `is_external_device`: walks `path.ancestors()` (the path itself, then
      each parent up to `/`) and answers true at the first ancestor whose file
      name starts with "usb". The ancestor `p[..k+1]` has file name `p[k]`, so
      the answer is whether any component starts with "usb"; `/` has none. */
  function IsExternalDevice(p: Path): (r: bool)
    ensures r <==> exists k :: 0 <= k < |p| && StartsWithUsb(p[k])
  {
    match FileName(p)
    case None => false
    case Some(name) =>
      if StartsWithUsb(name) then true else IsExternalDevice(Parent(p))
  }

  /** The three attribute files `disk_attributes` looks for in a directory. */
  predicate HasAttributeFiles(dir: Path, present: Path -> bool)
  {
    && present(dir + ["manufacturer"])
    && present(dir + ["product"])
    && present(dir + ["serial"])
  }

  /** `disk_attributes`: the nearest ancestor of `p`, starting with `p`
      itself, that holds `manufacturer`, `product` and `serial`; `present`
      stands for `Path::exists`. */
  function DiskAttributes(p: Path, present: Path -> bool): (r: Option<Path>)
    ensures r.Some? ==>
      && |r.value| <= |p| && r.value == p[..|r.value|]
      && HasAttributeFiles(r.value, present)
      && forall k :: |r.value| < k <= |p| ==> !HasAttributeFiles(p[..k], present)
    ensures r.None? ==> forall k :: 0 <= k <= |p| ==> !HasAttributeFiles(p[..k], present)
  {
    if HasAttributeFiles(p, present) then Some(p)
    else if p == [] then None
    else
      var r := DiskAttributes(Parent(p), present);
      assert forall k :: 0 <= k < |p| ==> Parent(p)[..k] == p[..k];
      assert p[..|p|] == p;
      r
  }

  // ---------------------------------------------------------------------------
  // Capacity

  /** The fields of `statvfs` that `calculate_disk_usage` reads, already
      widened to `u64`. */
  datatype StatVfs = StatVfs(blocks: u64, blocksFree: u64, blocksAvailable: u64, fragmentSize: u64)

  /** A number of fragments of `size` bytes, in bytes. */
  function Bytes(count: u64, size: u64): nat { count as int * size as int }

  function TotalBytes(st: StatVfs): nat { Bytes(st.blocks, st.fragmentSize) }
  function FreeToRootBytes(st: StatVfs): nat { Bytes(st.blocksFree, st.fragmentSize) }
  function AvailableBytes(st: StatVfs): nat { Bytes(st.blocksAvailable, st.fragmentSize) }

  /** The `u64` arithmetic of `calculate_disk_usage` neither overflows nor
      underflows (either would panic). */
  predicate UsageFits(st: StatVfs)
  {
    && TotalBytes(st) < U64Bound
    && FreeToRootBytes(st) <= TotalBytes(st)
    && AvailableBytes(st) < U64Bound
    && TotalBytes(st) - FreeToRootBytes(st) + AvailableBytes(st) < U64Bound
  }

  /** The triple `(total_space, used, free)`. */
  datatype Usage = Usage(totalSpace: u64, used: u64, free: u64)

  /** `calculate_disk_usage`: `used` is the space not free even to root,
      `free` the space available to unprivileged users, and the reported
      total is their sum. A failed `statvfs` is the error. */
  function CalculateDiskUsage(stat: Result<StatVfs>): (r: Result<Usage>)
    requires stat.Ok? ==> UsageFits(stat.value)
    ensures r.Err? <==> stat.Err?
    ensures r.Ok? ==>
      && r.value.used as int + FreeToRootBytes(stat.value) == TotalBytes(stat.value)
      && r.value.free as int == AvailableBytes(stat.value)
      && r.value.totalSpace as int == r.value.used as int + r.value.free as int
  {
    match stat
    case Err(e) => Err(e)
    case Ok(st) =>
      var total := TotalBytes(st);
      var availToRoot := FreeToRootBytes(st);
      var used := total - availToRoot;
      var free := AvailableBytes(st);
      Ok(Usage((used + free) as u64, used as u64, free as u64))
  }

  /** The reported total leaves out the blocks reserved for root: when no more
      blocks are available than are free, it is at most the filesystem's size,
      and equal to it exactly when nothing is reserved. */
  lemma UsageTotalExcludesReserved(st: StatVfs)
    requires UsageFits(st)
    requires st.blocksAvailable <= st.blocksFree
    ensures CalculateDiskUsage(Ok(st)).value.totalSpace as int <= TotalBytes(st)
    ensures st.fragmentSize > 0 ==>
      ((CalculateDiskUsage(Ok(st)).value.totalSpace as int == TotalBytes(st))
       <==> (st.blocksAvailable == st.blocksFree))
  {
    var u := CalculateDiskUsage(Ok(st)).value;
    var s := st.fragmentSize as int;
    var gap := st.blocksFree as int - st.blocksAvailable as int;
    assert FreeToRootBytes(st) - AvailableBytes(st) == gap * s;
    assert u.totalSpace as int == TotalBytes(st) - gap * s;
    assert 0 <= gap * s;
    assert s > 0 ==> (gap * s == 0 <==> gap == 0);
  }

  // ---------------------------------------------------------------------------
  // Trimming attribute values

  /** Rust's `char::is_whitespace`: the Unicode White_Space property. */
  predicate IsWhitespace(c: char)
  {
    || ('\t' <= c <= '\r') || c == ' ' || c == '\U{0085}' || c == '\U{00A0}'
    || c == '\U{1680}' || ('\U{2000}' <= c <= '\U{200A}') || c == '\U{2028}'
    || c == '\U{2029}' || c == '\U{202F}' || c == '\U{205F}' || c == '\U{3000}'
  }

  /** Where `str::trim_start` cuts: the number of leading whitespace
      characters. */
  function TrimStartIndex(s: string): (i: nat)
    ensures i <= |s|
    ensures forall k :: 0 <= k < i ==> IsWhitespace(s[k])
    ensures i < |s| ==> !IsWhitespace(s[i])
  {
    if s != [] && IsWhitespace(s[0]) then 1 + TrimStartIndex(s[1..]) else 0
  }

  /** Where `str::trim_end` cuts: the length left once trailing whitespace
      is removed. */
  function TrimEndIndex(s: string): (j: nat)
    ensures j <= |s|
    ensures forall k :: j <= k < |s| ==> IsWhitespace(s[k])
    ensures j > 0 ==> !IsWhitespace(s[j - 1])
  {
    if s != [] && IsWhitespace(s[|s| - 1]) then TrimEndIndex(s[..|s| - 1]) else |s|
  }

  /** `str::trim`: the slice of `s` left when leading and trailing whitespace
      is cut off; it neither starts nor ends with whitespace, and everything
      cut off is whitespace. */
  function Trim(s: string): (r: string)
    ensures exists i, j ::
      && 0 <= i <= j <= |s| && r == s[i..j]
      && (forall k :: 0 <= k < i ==> IsWhitespace(s[k]))
      && (forall k :: j <= k < |s| ==> IsWhitespace(s[k]))
    ensures r != [] ==> !IsWhitespace(r[0]) && !IsWhitespace(r[|r| - 1])
  {
    var i := TrimStartIndex(s);
    var j := i + TrimEndIndex(s[i..]);
    assert forall k :: j <= k < |s| ==> IsWhitespace(s[k]) by {
      forall k | j <= k < |s| ensures IsWhitespace(s[k]) { assert s[k] == s[i..][k - i]; }
    }
    assert j > i ==> s[i] == s[i..][0];
    s[i..j]
  }

  /** Trimming a value a second time changes nothing. */
  lemma TrimIsIdempotent(s: string)
    ensures Trim(Trim(s)) == Trim(s)
  {
    var r := Trim(s);
    if r != [] {
      assert TrimStartIndex(r) == 0;
      assert r[0..] == r;
      assert TrimEndIndex(r) == |r|;
    }
  }

  // ---------------------------------------------------------------------------
  // The mount table

  /** One line of the mount table, already split on whitespace, or a line
      that could not be read (`line?` fails). */
  datatype MountLine = Line(tokens: seq<string>) | Unreadable

  /** The line names the device `path` in its first token. */
  predicate Names(path: string, l: MountLine)
  {
    l.Line? && |l.tokens| > 0 && l.tokens[0] == path
  }

  /** The line is read, has a first token and names some other device. */
  predicate PassesOver(path: string, l: MountLine)
  {
    l.Line? && |l.tokens| > 0 && l.tokens[0] != path
  }

  /** No `parts[i]` index of `disk_info` is out of bounds: every line read
      before the first match has a token and the match has three. */
  predicate ScanIsSafe(path: string, lines: seq<MountLine>)
  {
    lines == [] ||
    match lines[0]
    case Unreadable => true
    case Line(t) => |t| > 0 && (if t[0] == path then |t| >= 3 else ScanIsSafe(path, lines[1..]))
  }

  /** The loop of `disk_info` over the lines of the mount table. */
  function ScanMounts(path: string, lines: seq<MountLine>): (r: Result<Option<(string, string)>>)
    requires ScanIsSafe(path, lines)
    ensures r.Ok? ==> r.value.Some?
    ensures r.Err? <==>
      exists i :: 0 <= i < |lines| && lines[i].Unreadable?
        && forall j :: 0 <= j < i ==> PassesOver(path, lines[j])
    ensures (forall j :: 0 <= j < |lines| ==> PassesOver(path, lines[j])) ==>
      r == Ok(Some(("Unknown", "Unknown")))
    ensures forall i :: 0 <= i < |lines| && Names(path, lines[i]) && (forall j :: 0 <= j < i ==> PassesOver(path, lines[j])) ==>
      |lines[i].tokens| >= 3
    ensures forall i :: 0 <= i < |lines| && Names(path, lines[i]) && (forall j :: 0 <= j < i ==> PassesOver(path, lines[j])) ==>
      r == Ok(Some((lines[i].tokens[1], lines[i].tokens[2])))
  {
    if lines == [] then Ok(Some(("Unknown", "Unknown")))
    else
      match lines[0]
      case Unreadable => Err(IoError)
      case Line(parts) =>
        if parts[0] == path then
          assert Names(path, lines[0]) && !PassesOver(path, lines[0]);
          Ok(Some((parts[1], parts[2])))
        else
          var r := ScanMounts(path, lines[1..]);
          assert PassesOver(path, lines[0]);
          assert forall i :: 1 <= i < |lines| ==> lines[i] == lines[1..][i - 1];
          r
  }

  /** The three outcomes of the scan are exhaustive: it fails on an unreadable
      line, returns the first matching line's mount point and filesystem, or
      answers ("Unknown", "Unknown") when no line matches. */
  lemma {:induction false} ScanMountsCases(path: string, lines: seq<MountLine>)
    requires ScanIsSafe(path, lines)
    ensures
      || (forall j :: 0 <= j < |lines| ==> PassesOver(path, lines[j]))
      || (exists i :: 0 <= i < |lines| && Names(path, lines[i]) && forall j :: 0 <= j < i ==> PassesOver(path, lines[j]))
      || (exists i :: 0 <= i < |lines| && lines[i].Unreadable? && forall j :: 0 <= j < i ==> PassesOver(path, lines[j]))
  {
    if lines != [] {
      match lines[0]
      case Unreadable =>
      case Line(t) =>
        if t[0] != path {
          ScanMountsCases(path, lines[1..]);
          assert forall i :: 1 <= i < |lines| ==> lines[i] == lines[1..][i - 1];
          if exists i :: 0 <= i < |lines[1..]| && Names(path, lines[1..][i]) && forall j :: 0 <= j < i ==> PassesOver(path, lines[1..][j]) {
            var i :| 0 <= i < |lines[1..]| && Names(path, lines[1..][i]) && forall j :: 0 <= j < i ==> PassesOver(path, lines[1..][j]);
            assert Names(path, lines[i + 1]);
          } else if exists i :: 0 <= i < |lines[1..]| && lines[1..][i].Unreadable? && forall j :: 0 <= j < i ==> PassesOver(path, lines[1..][j]) {
            var i :| 0 <= i < |lines[1..]| && lines[1..][i].Unreadable? && forall j :: 0 <= j < i ==> PassesOver(path, lines[1..][j]);
            assert lines[i + 1].Unreadable?;
          }
        } else {
          assert Names(path, lines[0]);
        }
    }
  }

  /** `disk_info`: the mount point and filesystem of `path` from the mount
      table, where `mounts` is the result of opening and reading it. It never
      answers `None`. */
  function DiskInfo(path: string, mounts: Result<seq<MountLine>>): (r: Result<Option<(string, string)>>)
    requires mounts.Ok? ==> ScanIsSafe(path, mounts.value)
    ensures mounts.Err? ==> r.Err?
    ensures r.Ok? ==> r.value.Some?
  {
    match mounts
    case Err(e) => Err(e)
    case Ok(lines) => ScanMounts(path, lines)
  }

  // ---------------------------------------------------------------------------
  // Finding external disks

  /** What the loop of `find_external_disks` learns about one entry of
      `/sys/block`. */
  datatype BlockEntry = BlockEntry(
    fileName: string,            // `entry.file_name()`
    hasDeviceLink: bool,         // `path.join("device").exists()`
    canonical: Result<Path>,     // `device_path.canonicalize()`
    stat: Result<StatVfs>)       // `statvfs` of `/dev/<file name>`

  /** The sysfs oracles: `Path::exists` and `fs::read_to_string`. */
  datatype SysFs = SysFs(present: Path -> bool, read: Path -> Result<string>)

  /** The fate of one entry: skipped, turned into a disk, ending the whole
      call with an error (a `?`), or a panic (`usage.unwrap()` on a failed
      `statvfs`, or the `u64` arithmetic of `calculate_disk_usage`). */
  datatype Step = Skip | Emit(disk: Disk) | Abort | Panic

  /** The entry reaches `calculate_disk_usage` (linux.rs line 106): it is
      readable, has a `device` link that resolves, below a USB bus. */
  predicate ReachesUsage(e: Result<BlockEntry>)
  {
    e.Ok? && e.value.hasDeviceLink && e.value.canonical.Ok? && IsExternalDevice(e.value.canonical.value)
  }

  /** The usage of the entry's device node is computable. */
  predicate UsageIsComputable(e: BlockEntry)
  {
    e.stat.Ok? && UsageFits(e.stat.value)
  }

  /** The attribute directory of an entry that reaches it. */
  function InfoPath(e: Result<BlockEntry>, fs: SysFs): Option<Path>
    requires e.Ok? && e.value.canonical.Ok?
  {
    DiskAttributes(e.value.canonical.value, fs.present)
  }

  /** One of the three attribute reads `read("product")?`, `read("serial")?`,
      `read("version")?` fails. */
  predicate SomeReadFails(dir: Path, fs: SysFs)
  {
    fs.read(dir + ["product"]).Err? || fs.read(dir + ["serial"]).Err? || fs.read(dir + ["version"]).Err?
  }

  /** An entry aborts the call exactly when reading it from the listing,
      resolving its `device` link, or reading one of its attribute files
      fails. */
  predicate EntryFails(e: Result<BlockEntry>, fs: SysFs)
  {
    || e.Err?
    || (e.value.hasDeviceLink && e.value.canonical.Err?)
    || (ReachesUsage(e) && UsageIsComputable(e.value) && InfoPath(e, fs).Some?
        && SomeReadFails(InfoPath(e, fs).value, fs))
  }

  /** The body of the loop of `find_external_disks` for one entry. */
  function ExamineEntry(e: Result<BlockEntry>, fs: SysFs): (s: Step)
    ensures s.Skip? <==>
      e.Ok? && (!e.value.hasDeviceLink ||
        (e.value.canonical.Ok? &&
          (!IsExternalDevice(e.value.canonical.value)
           || (UsageIsComputable(e.value) && InfoPath(e, fs).None?))))
    ensures s.Panic? <==> ReachesUsage(e) && !UsageIsComputable(e.value)
    ensures s.Abort? <==> EntryFails(e, fs)
    ensures s.Emit? ==>
      && ReachesUsage(e) && UsageIsComputable(e.value) && InfoPath(e, fs).Some?
      && var dir := InfoPath(e, fs).value;
         var usage := CalculateDiskUsage(e.value.stat).value;
         && !SomeReadFails(dir, fs)
         && s.disk == Disk(["dev", e.value.fileName],
                           Trim(fs.read(dir + ["product"]).value), Trim(fs.read(dir + ["serial"]).value),
                           Unknown, [], Trim(fs.read(dir + ["version"]).value),
                           usage.totalSpace, usage.used, usage.free)
    ensures s.Emit? ==> DiskIsConsistent(s.disk)
  {
    match e
    case Err(_) => Abort
    case Ok(entry) =>
      if !entry.hasDeviceLink then Skip
      else match entry.canonical
        case Err(_) => Abort
        case Ok(devicePath) =>
          if !IsExternalDevice(devicePath) then Skip
          else
            var diskName := ["dev", entry.fileName];
            if entry.stat.Err? || !UsageFits(entry.stat.value) then Panic
            else
              var usage := CalculateDiskUsage(entry.stat).value;
              match DiskAttributes(devicePath, fs.present)
              case None => Skip
              case Some(infoPath) =>
                var model := fs.read(infoPath + ["product"]);
                var serial := fs.read(infoPath + ["serial"]);
                var version := fs.read(infoPath + ["version"]);
                if model.Err? || serial.Err? || version.Err? then Abort
                else Emit(Disk(diskName, Trim(model.value), Trim(serial.value), Unknown, [],
                               Trim(version.value), usage.totalSpace, usage.used, usage.free))
  }

  /** The fate of every entry of the listing, in order: a step aborts
      exactly when its entry fails, and every disk emitted is consistent. */
  function Steps(entries: seq<Result<BlockEntry>>, fs: SysFs): (steps: seq<Step>)
    ensures |steps| == |entries|
    ensures forall i :: 0 <= i < |entries| ==> steps[i] == ExamineEntry(entries[i], fs)
    ensures forall i :: 0 <= i < |entries| ==> (steps[i].Abort? <==> EntryFails(entries[i], fs))
    ensures forall i :: 0 <= i < |entries| && steps[i].Emit? ==> DiskIsConsistent(steps[i].disk)
  {
    seq(|entries|, i requires 0 <= i < |entries| => ExamineEntry(entries[i], fs))
  }

  /** No step from `from` on panics before the first one that aborts: the
      source returns at the first `?` error, so later entries never run. */
  predicate PanicFree(steps: seq<Step>, from: nat)
    requires from <= |steps|
    decreases |steps| - from
  {
    from == |steps| || (!steps[from].Panic? && (steps[from].Abort? || PanicFree(steps, from + 1)))
  }

  /** The loop of `find_external_disks` from step `from` on, as a function:
      the disks of the emitting entries in order, or an error as soon as one
      entry aborts. */
  function Collect(steps: seq<Step>, from: nat): (r: Result<seq<Disk>>)
    requires from <= |steps| && PanicFree(steps, from)
    decreases |steps| - from
  {
    if from == |steps| then Ok([])
    else
      match steps[from]
      case Abort => Err(IoError)
      case Skip => Collect(steps, from + 1)
      case Emit(d) =>
        match Collect(steps, from + 1)
        case Err(e) => Err(e)
        case Ok(ds) => Ok([d] + ds)
  }

  /** The positions, from `from` on, of the steps that emit a disk, in
      increasing order. */
  function EmittedFrom(steps: seq<Step>, from: nat): (idx: seq<nat>)
    requires from <= |steps|
    ensures forall k :: 0 <= k < |idx| ==> from <= idx[k] < |steps| && steps[idx[k]].Emit?
    ensures forall k, l :: 0 <= k < l < |idx| ==> idx[k] < idx[l]
    ensures forall i :: from <= i < |steps| && steps[i].Emit? ==> i in idx
    decreases |steps| - from
  {
    if from == |steps| then []
    else
      var rest := EmittedFrom(steps, from + 1);
      if steps[from].Emit? then [from] + rest else rest
  }

  /** A single entry that fails aborts the whole call, and only then does it
      fail: errors are not isolated per device. */
  lemma {:induction false} CollectFailsIffSomeStepAborts(steps: seq<Step>, from: nat)
    requires from <= |steps| && PanicFree(steps, from)
    ensures Collect(steps, from).Err? <==> exists i :: from <= i < |steps| && steps[i].Abort?
    decreases |steps| - from
  {
    if from < |steps| && !steps[from].Abort? {
      CollectFailsIffSomeStepAborts(steps, from + 1);
    }
  }

  /** On success the disks are exactly those of the emitting entries, in entry
      order; hence there are at most as many disks as entries. */
  lemma {:induction false} CollectKeepsEntryOrder(steps: seq<Step>, from: nat)
    requires from <= |steps| && PanicFree(steps, from)
    requires Collect(steps, from).Ok?
    ensures |Collect(steps, from).value| == |EmittedFrom(steps, from)| <= |steps| - from
    ensures forall k :: 0 <= k < |EmittedFrom(steps, from)| ==>
      Collect(steps, from).value[k] == steps[EmittedFrom(steps, from)[k]].disk
    decreases |steps| - from
  {
    if from < |steps| {
      CollectKeepsEntryOrder(steps, from + 1);
    }
  }

  /** Every disk of a successful scan is the disk of some emitting step. */
  lemma {:induction false} CollectedDisksAreEmitted(steps: seq<Step>, from: nat)
    requires from <= |steps| && PanicFree(steps, from)
    requires Collect(steps, from).Ok?
    ensures forall d :: d in Collect(steps, from).value ==>
      exists i :: from <= i < |steps| && steps[i] == Emit(d)
    decreases |steps| - from
  {
    if from < |steps| {
      CollectedDisksAreEmitted(steps, from + 1);
    }
  }

  /** Whatever the entries after an aborting one are, the call fails there
      without reaching them, provided nothing before it panics. */
  lemma {:induction false} AbortShieldsLaterEntries(steps: seq<Step>, from: nat, i: nat)
    requires from <= i < |steps| && steps[i].Abort?
    requires forall j :: from <= j < i ==> !steps[j].Panic?
    ensures PanicFree(steps, from) && Collect(steps, from).Err?
    decreases i - from
  {
    if from < i {
      AbortShieldsLaterEntries(steps, from + 1, i);
    }
  }

  /** What a scan of the whole listing guarantees: it fails exactly when some
      entry fails to be read, resolved or have its attributes read; on
      success it holds at most one disk per entry, each of type Unknown,
      without partitions and with used + free == total. */
  lemma ScanGuarantees(entries: seq<Result<BlockEntry>>, fs: SysFs)
    requires PanicFree(Steps(entries, fs), 0)
    ensures Collect(Steps(entries, fs), 0).Err? <==>
      exists i :: 0 <= i < |entries| && EntryFails(entries[i], fs)
    ensures Collect(Steps(entries, fs), 0).Ok? ==>
      |Collect(Steps(entries, fs), 0).value| <= |entries|
    ensures Collect(Steps(entries, fs), 0).Ok? ==>
      forall d :: d in Collect(Steps(entries, fs), 0).value ==> DiskIsConsistent(d)
  {
    var steps := Steps(entries, fs);
    CollectFailsIffSomeStepAborts(steps, 0);
    if Collect(steps, 0).Ok? {
      CollectKeepsEntryOrder(steps, 0);
      CollectedDisksAreEmitted(steps, 0);
      forall d | d in Collect(steps, 0).value ensures DiskIsConsistent(d) {
        var i :| 0 <= i < |steps| && steps[i] == Emit(d);
        assert steps[i].Emit? && steps[i].disk == d;
      }
    }
  }

  /** The disk has the type, partitions and space figures every disk of
      `find_external_disks` has. */
  predicate DiskIsConsistent(d: Disk)
  {
    d.diskType == Unknown && d.partitions == [] &&
    d.usedSpace as int + d.freeSpace as int == d.totalSpace as int
  }

  /** `find_external_disks`: lists `/sys/block` and keeps, in listing order,
      the entries that have a `device` link resolving below a USB bus and an
      attribute directory. */
  method FindExternalDisks(listing: Result<seq<Result<BlockEntry>>>, fs: SysFs) returns (r: Result<seq<Disk>>)
    requires listing.Ok? ==> PanicFree(Steps(listing.value, fs), 0)
    ensures listing.Err? ==> r.Err?
    ensures listing.Ok? ==> r == Collect(Steps(listing.value, fs), 0)
  {
    if listing.Err? {
      return Err(listing.error);
    }
    var entries := listing.value;
    ghost var steps := Steps(entries, fs);
    var disks: seq<Disk> := [];
    var i := 0;
    assert forall ds: seq<Disk> :: disks + ds == ds;
    while i < |entries|
      invariant 0 <= i <= |entries|
      invariant PanicFree(steps, i)
      invariant Collect(steps, 0) ==
        match Collect(steps, i)
        case Err(e) => Err(e)
        case Ok(ds) => Ok(disks + ds)
    {
      var step := ExamineEntry(entries[i], fs);
      assert step == steps[i];
      if step.Abort? {
        return Err(IoError);
      } else if step.Emit? {
        assert forall ds: seq<Disk> :: disks + ([step.disk] + ds) == (disks + [step.disk]) + ds;
        disks := disks + [step.disk];
      }
      i := i + 1;
    }
    assert disks + [] == disks;
    return Ok(disks);
  }
}
