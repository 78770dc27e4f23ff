/**
 * Disk information for Linux: the arithmetic `get_info` applies to `statfs`, the lookup of a
 * block device's name and properties in procfs and sysfs, the filesystem magic-number table,
 * and the layout of a block device's `stat` file.
 *
 * The system calls and file reads themselves are not modelled: their results are inputs,
 * a `StatFs` record for `statfs` and a `Sysfs` view for what is read under /proc and /sys.
 */
module Linux {
  import opened Wrappers
  import opened Ints
  import opened Text
  import Paths

  // ================================================================ get_info: space arithmetic

  /** The `struct statfs` fields `get_info` reads, with their 64-bit Linux types. */
  datatype StatFs = StatFs(
    f_type: i64,
    f_bsize: i64,
    f_blocks: u64,
    f_bfree: u64,
    f_bavail: u64,
    f_files: u64,
    f_ffree: u64,
    f_frsize: i64)

  /** Bytes of a filesystem: capacity less reserved blocks, free to unprivileged users, in use. */
  datatype Space = Space(total: nat, free: nat, used: nat)

  /** The three corruption errors of `get_info`, with the values its messages report. */
  datatype InfoError =
    | BavailExceedsBfree(bavail: u64, bfree: u64)
    | ReservedExceedsBlocks(reserved: u64, blocks: u64)
    | FreeExceedsTotal(free: nat, total: nat)

  /** The unit of the block counts: the fragment size when positive, else the block size. */
  function BlockUnit(frsize: i64, bsize: i64): (unit: u64)
    ensures frsize > 0 ==> unit == frsize
    ensures frsize <= 0 && bsize >= 0 ==> unit == bsize
    ensures frsize <= 0 && bsize < 0 ==> unit == bsize + U64_LIMIT
  {
    if frsize > 0 then I64AsU64(frsize) else I64AsU64(bsize)
  }

  /**
   * The space computation of `get_info`: reserved = bfree - bavail, total = (blocks -
   * reserved) * unit, free = bavail * unit, used = total - free, each subtraction checked.
   */
  function DiskSpace(st: StatFs): (r: Result<Space, InfoError>)
    ensures var unit := BlockUnit(st.f_frsize, st.f_bsize);
      && (r.Failure? && r.error.BavailExceedsBfree? <==> st.f_bavail > st.f_bfree)
      && (r.Failure? && r.error.BavailExceedsBfree? ==>
            r.error == BavailExceedsBfree(st.f_bavail, st.f_bfree))
      && (r.Failure? && r.error.ReservedExceedsBlocks? <==>
            st.f_bavail <= st.f_bfree && st.f_bfree - st.f_bavail > st.f_blocks)
      && (r.Failure? && r.error.ReservedExceedsBlocks? ==>
            r.error == ReservedExceedsBlocks(st.f_bfree - st.f_bavail, st.f_blocks))
      && (r.Failure? && r.error.FreeExceedsTotal? ==>
            && st.f_bavail <= st.f_bfree && st.f_bfree - st.f_bavail <= st.f_blocks
            && r.error.free == st.f_bavail * unit
            && r.error.total == (st.f_blocks - (st.f_bfree - st.f_bavail)) * unit
            && r.error.free > r.error.total)
      && (r.Success? ==>
            && r.value.total == (st.f_blocks - (st.f_bfree - st.f_bavail)) * unit
            && r.value.free == st.f_bavail * unit
            && r.value.used + r.value.free == r.value.total)
  {
    var unit := BlockUnit(st.f_frsize, st.f_bsize);
    if st.f_bfree < st.f_bavail then Failure(BavailExceedsBfree(st.f_bavail, st.f_bfree))
    else
      var reserved := st.f_bfree - st.f_bavail;
      if st.f_blocks < reserved then Failure(ReservedExceedsBlocks(reserved, st.f_blocks))
      else
        var total := (st.f_blocks - reserved) * unit;
        var free := st.f_bavail * unit;
        if total < free then Failure(FreeExceedsTotal(free, total))
        else Success(Space(total, free, total - free))
  }

  lemma MulMonotone(x: nat, y: nat, u: nat)
    requires u > 0
    ensures x * u < y * u <==> x < y
  {
    if x < y {
      assert y * u == x * u + (y - x) * u;
    } else {
      assert x * u == y * u + (x - y) * u;
    }
  }

  /**
   * Once the first two checks pass, the used space is the allocated blocks, blocks - bfree,
   * times the unit; so the third check fails exactly when bfree exceeds blocks.
   */
  lemma UsedIsAllocatedBlocks(st: StatFs)
    requires st.f_bavail <= st.f_bfree <= st.f_blocks
    ensures DiskSpace(st).Success?
    ensures DiskSpace(st).value.used == (st.f_blocks - st.f_bfree) * BlockUnit(st.f_frsize, st.f_bsize)
  {
    var unit := BlockUnit(st.f_frsize, st.f_bsize);
    var a := st.f_blocks - st.f_bfree;
    assert st.f_blocks - (st.f_bfree - st.f_bavail) == a + st.f_bavail;
    assert (a + st.f_bavail) * unit == a * unit + st.f_bavail * unit;
  }

  lemma FreeExceedsTotalIff(st: StatFs)
    requires st.f_bavail <= st.f_bfree && st.f_bfree - st.f_bavail <= st.f_blocks
    requires BlockUnit(st.f_frsize, st.f_bsize) > 0
    ensures DiskSpace(st).Failure? <==> st.f_bfree > st.f_blocks
    ensures DiskSpace(st).Failure? ==> DiskSpace(st).error.FreeExceedsTotal?
  {
    var unit := BlockUnit(st.f_frsize, st.f_bsize);
    MulMonotone(st.f_blocks - (st.f_bfree - st.f_bavail), st.f_bavail, unit);
  }

  /** With a non-zero unit, `get_info` succeeds exactly when bavail <= bfree <= blocks. */
  lemma DiskSpaceSucceedsIff(st: StatFs)
    requires BlockUnit(st.f_frsize, st.f_bsize) > 0
    ensures DiskSpace(st).Success? <==> st.f_bavail <= st.f_bfree <= st.f_blocks
  {
    if st.f_bavail <= st.f_bfree && st.f_bfree - st.f_bavail <= st.f_blocks {
      FreeExceedsTotalIff(st);
    }
  }

  /** A zero unit (both sizes zero) makes every size zero; only the first two checks can fail. */
  lemma ZeroUnitSpace(st: StatFs)
    requires st.f_frsize <= 0 && st.f_bsize == 0
    requires st.f_bavail <= st.f_bfree && st.f_bfree - st.f_bavail <= st.f_blocks
    ensures DiskSpace(st) == Success(Space(0, 0, 0))
  {
  }

  // ================================================================ get_fs_type

  /** The filesystem magic numbers `get_fs_type` names, with their names. */
  const FsTypeNames: map<u64, string> := map[
    0x01021994 := "TMPFS",
    0x4d44 := "MSDOS",
    0x6969 := "NFS",
    0xEF53 := "EXT4",
    0xf15f := "ecryptfs",
    0x794c7630 := "overlayfs",
    0x52654973 := "REISERFS"
  ]

  /** The name of a filesystem magic number (`statfs.f_type`), "UNKNOWN" outside the table. */
  function GetFsType(fsType: u64): (name: string)
    ensures fsType in FsTypeNames ==> name == FsTypeNames[fsType]
    ensures fsType !in FsTypeNames ==> name == "UNKNOWN"
  {
    if fsType == 0x01021994 then "TMPFS"
    else if fsType == 0x4d44 then "MSDOS"
    else if fsType == 0x6969 then "NFS"
    else if fsType == 0xEF53 then "EXT4"
    else if fsType == 0xf15f then "ecryptfs"
    else if fsType == 0x794c7630 then "overlayfs"
    else if fsType == 0x52654973 then "REISERFS"
    else "UNKNOWN"
  }

  /** The seven names are distinct and none is "UNKNOWN": a known name identifies its magic number. */
  lemma {:induction false} FsTypeNameIdentifiesMagic(a: u64, b: u64)
    requires GetFsType(a) == GetFsType(b) != "UNKNOWN"
    ensures a == b
  {
    var na, nb := GetFsType(a), GetFsType(b);
    assert na[0] == nb[0] && |na| == |nb|;
    if |na| > 1 {
      assert na[1] == nb[1];
    }
  }

  // ================================================================ /proc/diskstats

  /** The first three fields of a `/proc/diskstats` line. */
  datatype DiskstatsEntry = DiskstatsEntry(major: u64, minor: u64, name: string)

  /**
   * A line read as `<major> <minor> <name> ...`: None when it has fewer than three fields or
   * when one of the two numbers is not a u64.
   */
  function ParseDiskstatsLine(line: string): (e: Option<DiskstatsEntry>)
    ensures e.Some? ==> IsWord(e.value.name)
    ensures AllWhitespace(line) ==> e.None?
    ensures |SplitWhitespace(line)| < 3 ==> e.None?
    ensures |SplitWhitespace(line)| >= 3 ==>
      (e.Some? <==> ParseU64(SplitWhitespace(line)[0]).Some? && ParseU64(SplitWhitespace(line)[1]).Some?)
    ensures e.Some? ==>
      && e.value.name == SplitWhitespace(line)[2]
      && Some(e.value.major) == ParseU64(SplitWhitespace(line)[0])
      && Some(e.value.minor) == ParseU64(SplitWhitespace(line)[1])
  {
    var fields := SplitWhitespace(line);
    if |fields| < 3 then None
    else
      match (ParseU64(fields[0]), ParseU64(fields[1]))
      case (Some(major), Some(minor)) => Some(DiskstatsEntry(major, minor, fields[2]))
      case _ => None
  }

  /** A well-formed line of another device: the scan goes on past it. */
  ghost predicate PassedOver(line: string, major: u64, minor: u64) {
    var e := ParseDiskstatsLine(line);
    e.Some? && (e.value.major != major || e.value.minor != minor)
  }

  /** A well-formed line of the device sought. */
  ghost predicate Describes(line: string, major: u64, minor: u64) {
    var e := ParseDiskstatsLine(line);
    e.Some? && e.value.major == major && e.value.minor == minor
  }

  /** Line i is the device's, and every line before it is a well-formed line of another device. */
  ghost predicate FirstMatchAt(lines: seq<string>, i: int, major: u64, minor: u64) {
    && 0 <= i < |lines|
    && Describes(lines[i], major, minor)
    && forall j :: 0 <= j < i ==> PassedOver(lines[j], major, minor)
  }

  /** A malformed line reached after passing over the lines before it: no line is the first match. */
  lemma ScanStopsAt(lines: seq<string>, k: nat, major: u64, minor: u64)
    requires k < |lines| && ParseDiskstatsLine(lines[k]).None?
    requires forall j :: 0 <= j < k ==> PassedOver(lines[j], major, minor)
    ensures forall i :: !FirstMatchAt(lines, i, major, minor)
  {
  }

  /**
   * `resolve_device_name_from_content`: the name on the first line for `major:minor`. The scan
   * gives up (None) at the first line that is blank, has fewer than three fields or does not
   * start with two numbers, even when a later line would match.
   */
  method ResolveDeviceNameFromContent(content: string, major: u64, minor: u64) returns (name: Option<string>)
    ensures name.Some? ==> exists i ::
      FirstMatchAt(Lines(content), i, major, minor)
      && ParseDiskstatsLine(Lines(content)[i]).value.name == name.value
    ensures name.None? ==> forall i :: !FirstMatchAt(Lines(content), i, major, minor)
  {
    var lines := Lines(content);
    for k := 0 to |lines|
      invariant forall j :: 0 <= j < k ==> PassedOver(lines[j], major, minor)
    {
      var fields := SplitWhitespace(lines[k]);
      if |fields| < 1 {
        ScanStopsAt(lines, k, major, minor);
        return None;
      }
      var devMajor := ParseU64(fields[0]);
      if devMajor.None? {
        ScanStopsAt(lines, k, major, minor);
        return None;
      }
      if |fields| < 2 {
        ScanStopsAt(lines, k, major, minor);
        return None;
      }
      var devMinor := ParseU64(fields[1]);
      if devMinor.None? {
        ScanStopsAt(lines, k, major, minor);
        return None;
      }
      if |fields| < 3 {
        ScanStopsAt(lines, k, major, minor);
        return None;
      }
      var devName := fields[2];
      assert ParseDiskstatsLine(lines[k]) == Some(DiskstatsEntry(devMajor.value, devMinor.value, devName));
      if devMajor.value == major && devMinor.value == minor {
        assert FirstMatchAt(lines, k, major, minor);
        return Some(devName);
      }
    }
    return None;
  }

  /** At most one line is the first match. */
  lemma FirstMatchUnique(lines: seq<string>, i: int, j: int, major: u64, minor: u64)
    requires FirstMatchAt(lines, i, major, minor) && FirstMatchAt(lines, j, major, minor)
    ensures i == j
  {
  }

  /** A malformed line hides every line after it. */
  lemma MalformedLineEndsScan(lines: seq<string>, k: int, i: int, major: u64, minor: u64)
    requires 0 <= k < |lines| && ParseDiskstatsLine(lines[k]).None?
    requires FirstMatchAt(lines, i, major, minor)
    ensures i < k
  {
  }

  /** Empty `/proc/diskstats` content names no device. */
  lemma EmptyDiskstats(major: u64, minor: u64)
    ensures forall i :: !FirstMatchAt(Lines(""), i, major, minor)
  {
  }

  /** A line `<pad><major><sep><minor><sep><name><rest>` parses to its three fields. */
  lemma ParseDiskstatsLineOf(pad: string, major: u64, sep1: string, minor: u64, sep2: string,
                             name: string, rest: string)
    requires AllWhitespace(pad)
    requires sep1 != [] && AllWhitespace(sep1) && sep2 != [] && AllWhitespace(sep2)
    requires IsWord(name)
    requires rest == [] || IsWhitespace(rest[0])
    ensures ParseDiskstatsLine(pad + ToDecimal(major) + (sep1 + ToDecimal(minor) + (sep2 + name + rest)))
         == Some(DiskstatsEntry(major, minor, name))
  {
    var line := pad + ToDecimal(major) + (sep1 + ToDecimal(minor) + (sep2 + name + rest));
    LeadingFields(pad, ToDecimal(major), sep1, ToDecimal(minor), sep2, name, rest);
    ParseToDecimal(major);
    ParseToDecimal(minor);
    var fields := SplitWhitespace(line);
    assert ParseU64(fields[0]) == Some(major) && ParseU64(fields[1]) == Some(minor);
  }

  lemma LeadingFields(pad: string, a: string, sep1: string, b: string, sep2: string,
                      c: string, rest: string)
    requires AllWhitespace(pad) && AllWhitespace(sep1) && AllWhitespace(sep2)
    requires IsWord(a) && IsWord(b) && IsWord(c) && sep1 != [] && sep2 != []
    requires rest == [] || IsWhitespace(rest[0])
    ensures var fields := SplitWhitespace(pad + a + (sep1 + b + (sep2 + c + rest)));
      |fields| >= 3 && fields[0] == a && fields[1] == b && fields[2] == c
  {
    var u3 := sep2 + c + rest;
    var u2 := sep1 + b + u3;
    assert u2[0] == sep1[0] && u3[0] == sep2[0];
    SplitPaddedWord(sep2, c, rest);
    SplitPaddedWord(sep1, b, u3);
    SplitPaddedWord(pad, a, u2);
  }

  /** The SATA listing of the source's tests, shortened: `8:16` is `sdb`, on the third line. */
  lemma DiskstatsSataExample()
    ensures var content := "   8       0 sda 1000" + "\n" + ("   8       1 sda1 500" + "\n" + "   8      16 sdb 2000");
      FirstMatchAt(Lines(content), 2, 8, 16)
      && ParseDiskstatsLine(Lines(content)[2]).value.name == "sdb"
  {
    var l0, l1, l2 := "   8       0 sda 1000", "   8       1 sda1 500", "   8      16 sdb 2000";
    SataLines(l0, l1, l2);
    SataLine0();
    SataLine1();
    SataLine2();
    FirstMatchOfThree(l0, l1, l2, 8, 16);
  }

  lemma FirstMatchOfThree(l0: string, l1: string, l2: string, major: u64, minor: u64)
    requires PassedOver(l0, major, minor) && PassedOver(l1, major, minor) && Describes(l2, major, minor)
    ensures FirstMatchAt([l0, l1, l2], 2, major, minor)
  {
  }

  lemma SataLines(l0: string, l1: string, l2: string)
    requires l0 == "   8       0 sda 1000" && l1 == "   8       1 sda1 500" && l2 == "   8      16 sdb 2000"
    ensures Lines(l0 + "\n" + (l1 + "\n" + l2)) == [l0, l1, l2]
  {
    assert NoNewline(l0);
    assert NoNewline(l1);
    assert NoNewline(l2);
    ThreeLines(l0, l1, l2);
  }

  lemma ThreeLines(l0: string, l1: string, l2: string)
    requires NoNewline(l0) && NoNewline(l1) && NoNewline(l2) && l2 != []
    requires StripCarriageReturn(l0) == l0 && StripCarriageReturn(l1) == l1
    ensures Lines(l0 + "\n" + (l1 + "\n" + l2)) == [l0, l1, l2]
  {
    TwoLines(l1, l2);
    LinesCons(l0, l1 + "\n" + l2);
  }

  lemma TwoLines(l1: string, l2: string)
    requires NoNewline(l1) && NoNewline(l2) && l2 != []
    requires StripCarriageReturn(l1) == l1
    ensures Lines(l1 + "\n" + l2) == [l1, l2]
  {
    LinesSingle(l2);
    LinesCons(l1, l2);
  }

  lemma SataLine0()
    ensures ParseDiskstatsLine("   8       0 sda 1000") == Some(DiskstatsEntry(8, 0, "sda"))
  {
    assert ToDecimal(8) == "8" && ToDecimal(0) == "0";
    assert "   8       0 sda 1000" == "   " + ToDecimal(8) + ("       " + ToDecimal(0) + (" " + "sda" + " 1000"));
    ParseDiskstatsLineOf("   ", 8, "       ", 0, " ", "sda", " 1000");
  }

  lemma SataLine1()
    ensures ParseDiskstatsLine("   8       1 sda1 500") == Some(DiskstatsEntry(8, 1, "sda1"))
  {
    assert ToDecimal(8) == "8" && ToDecimal(1) == "1";
    assert "   8       1 sda1 500" == "   " + ToDecimal(8) + ("       " + ToDecimal(1) + (" " + "sda1" + " 500"));
    ParseDiskstatsLineOf("   ", 8, "       ", 1, " ", "sda1", " 500");
  }

  lemma SataLine2()
    ensures ParseDiskstatsLine("   8      16 sdb 2000") == Some(DiskstatsEntry(8, 16, "sdb"))
  {
    assert ToDecimal(8) == "8" && ToDecimal(16) == "16";
    assert "   8      16 sdb 2000" == "   " + ToDecimal(8) + ("      " + ToDecimal(16) + (" " + "sdb" + " 2000"));
    ParseDiskstatsLineOf("   ", 8, "      ", 16, " ", "sdb", " 2000");
  }

  // ================================================================ sysfs

  /**
   * What the code reads from procfs and sysfs: the content of /proc/diskstats (None when it
   * cannot be read), the targets of the /sys/class/block symlinks, the readable files with
   * their contents, and the answers `Path::exists` gives.
   */
  datatype Sysfs = Sysfs(
    diskstats: Option<string>,
    links: map<string, string>,
    files: map<string, string>,
    pathExists: string -> bool)

  function ClassBlockLink(device: string): string {
    "/sys/class/block/" + device
  }

  function RotationalPath(device: string): string {
    "/sys/block/" + device + "/queue/rotational"
  }

  function NrRequestsPath(device: string): string {
    "/sys/block/" + device + "/queue/nr_requests"
  }

  /**
   * `parent_device_from_sysfs_path`: the name of the directory holding the device in its sysfs
   * path, when that name differs from the device and has a queue/rotational file; otherwise
   * the device itself.
   */
  function ParentDeviceFromSysfsPath(target: string, deviceName: string, pathExists: string -> bool): (parent: string)
    ensures var p := Paths.ParentFileName(target);
      parent != deviceName <==> p.Some? && p.value != deviceName && pathExists(RotationalPath(p.value))
    ensures parent != deviceName ==> Paths.ParentFileName(target) == Some(parent)
  {
    match Paths.ParentFileName(target)
    case Some(parentName) =>
      if parentName != deviceName && pathExists(RotationalPath(parentName)) then parentName else deviceName
    case None => deviceName
  }

  /** A partition `.../disk/part` resolves to its disk when the disk has queue statistics. */
  lemma PartitionResolvesToDisk(a: string, disk: string, part: string, pathExists: string -> bool)
    requires a != [] && Paths.IsNormalName(disk) && Paths.IsNormalName(part) && disk != part
    requires pathExists(RotationalPath(disk))
    ensures ParentDeviceFromSysfsPath(a + "/" + disk + "/" + part, part, pathExists) == disk
  {
    Paths.ParentFileNameOfNested(a, disk, part);
  }

  /** A whole disk `.../dir/disk` stays itself when `dir` has no queue statistics. */
  lemma WholeDiskResolvesToItself(a: string, dir: string, disk: string, pathExists: string -> bool)
    requires a != [] && Paths.IsNormalName(dir) && Paths.IsNormalName(disk)
    requires !pathExists(RotationalPath(dir))
    ensures ParentDeviceFromSysfsPath(a + "/" + dir + "/" + disk, disk, pathExists) == disk
  {
    Paths.ParentFileNameOfNested(a, dir, disk);
  }

  /** `resolve_parent_device`: follow the /sys/class/block link, or keep the name when it cannot be read. */
  function ResolveParentDevice(sys: Sysfs, deviceName: string): (parent: string)
    ensures parent == deviceName || sys.pathExists(RotationalPath(parent))
    ensures ClassBlockLink(deviceName) !in sys.links ==> parent == deviceName
    ensures ClassBlockLink(deviceName) in sys.links ==>
      parent == ParentDeviceFromSysfsPath(sys.links[ClassBlockLink(deviceName)], deviceName, sys.pathExists)
  {
    var link := ClassBlockLink(deviceName);
    if link in sys.links then ParentDeviceFromSysfsPath(sys.links[link], deviceName, sys.pathExists)
    else deviceName
  }

  /** A one-character flag other than whitespace is the trim of exactly the texts padding it. */
  lemma FlagIff(content: string, flag: string)
    requires |flag| == 1 && !IsWhitespace(flag[0])
    ensures Trim(content) == flag <==> PaddedBy(content, flag)
  {
    TrimIff(content, flag);
  }

  /**
   * `parse_rotational`: "1" (HDD) or "0" (SSD) with only whitespace around it; anything
   * else is unknown.
   */
  function ParseRotational(content: string): (r: Option<bool>)
    ensures r == Some(true) <==> PaddedBy(content, "1")
    ensures r == Some(false) <==> PaddedBy(content, "0")
  {
    FlagIff(content, "1");
    FlagIff(content, "0");
    var t := Trim(content);
    if t == "1" then Some(true)
    else if t == "0" then Some(false)
    else None
  }

  /** A flag followed by a line feed, as sysfs writes it, is read as that flag. */
  lemma ParseRotationalOfLine(flag: string, line: string)
    requires flag == "0" || flag == "1"
    requires line == flag + "\n"
    ensures ParseRotational(line) == Some(flag == "1")
  {
    TrimPadded([], flag, "\n");
    assert line == [] + flag + "\n";
  }

  /** A single word other than "0" and "1" is unknown. */
  lemma ParseRotationalOfOtherWord(w: string)
    requires w != [] && !IsWhitespace(w[0]) && !IsWhitespace(w[|w| - 1])
    requires w != "0" && w != "1"
    ensures ParseRotational(w) == None
  {
    TrimUnpadded(w);
  }

  lemma ParseRotationalOfHddLine()
    ensures ParseRotational("1\n") == Some(true)
  {
    ParseRotationalOfLine("1", "1\n");
  }

  lemma ParseRotationalOfSsdLine()
    ensures ParseRotational("0\n") == Some(false)
  {
    ParseRotationalOfLine("0", "0\n");
  }

  lemma ParseRotationalOfBareHdd()
    ensures ParseRotational("1") == Some(true)
  {
    PaddedBySelf("1");
  }

  lemma ParseRotationalOfBareSsd()
    ensures ParseRotational("0") == Some(false)
  {
    PaddedBySelf("0");
  }

  lemma ParseRotationalRejectsOthers()
    ensures ParseRotational("garbage") == None && ParseRotational("2") == None
  {
    ParseRotationalOfOtherWord("garbage");
    ParseRotationalOfOtherWord("2");
  }

  lemma ParseRotationalOfEmpty()
    ensures ParseRotational("") == None
  {
    TrimUnpadded("");
  }

  /** `read_sysfs_rotational`: None when queue/rotational cannot be read or says something else. */
  function ReadSysfsRotational(sys: Sysfs, device: string): (r: Option<bool>)
    ensures r == Some(false) <==> RotationalPath(device) in sys.files && PaddedBy(sys.files[RotationalPath(device)], "0")
    ensures r == Some(true) <==> RotationalPath(device) in sys.files && PaddedBy(sys.files[RotationalPath(device)], "1")
  {
    var path := RotationalPath(device);
    if path in sys.files then ParseRotational(sys.files[path]) else None
  }

  /** `parse_nr_requests`: the u64 the trimmed content spells. */
  function ParseNrRequests(content: string): (r: Option<u64>)
    ensures AllWhitespace(content) ==> r.None?
    ensures r.Some? ==> forall i :: 0 <= i < |content| ==>
      IsWhitespace(content[i]) || IsDigit(content[i]) || content[i] == '+'
    ensures forall n: u64 :: r == Some(n) <==> PaddedU64(content, n)
  {
    var r := ParseU64(Trim(content));
    forall n: u64 ensures r == Some(n) <==> PaddedU64(content, n) {
      TrimParseIff(content, n);
    }
    if r.Some? then
      forall i | 0 <= i < |content| && !IsWhitespace(content[i]) {
        TrimKeepsNonWhitespace(content, i);
      }
      r
    else
      r
  }

  /** A padded decimal number parses to that number. */
  lemma ParseNrRequestsOfDecimal(pre: string, n: u64, post: string)
    requires AllWhitespace(pre) && AllWhitespace(post)
    ensures ParseNrRequests(pre + ToDecimal(n) + post) == Some(n)
  {
    TrimPadded(pre, ToDecimal(n), post);
    ParseToDecimal(n);
  }

  /** Text that does not start with a digit or '+' is not a number. */
  lemma ParseNrRequestsOfWord(w: string)
    requires w != [] && !IsWhitespace(w[0]) && !IsWhitespace(w[|w| - 1])
    requires !IsDigit(w[0]) && w[0] != '+'
    ensures ParseNrRequests(w) == None
  {
    TrimUnpadded(w);
  }

  lemma ParseNrRequestsOfLine()
    ensures ParseNrRequests("256\n") == Some(256)
  {
    assert ToDecimal(256) == "256";
    assert "256\n" == [] + ToDecimal(256) + "\n";
    ParseNrRequestsOfDecimal([], 256, "\n");
  }

  lemma ParseNrRequestsOfPadded()
    ensures ParseNrRequests("  " + "64" + "  \n") == Some(64)
  {
    assert ToDecimal(64) == "64";
    ParseNrRequestsOfDecimal("  ", 64, "  \n");
  }

  lemma ParseNrRequestsOfBare()
    ensures ParseNrRequests("128") == Some(128)
  {
    assert ToDecimal(128) == "128";
    assert "128" == [] + ToDecimal(128) + [];
    ParseNrRequestsOfDecimal([], 128, []);
  }

  lemma ParseNrRequestsRejects()
    ensures ParseNrRequests("") == None && ParseNrRequests("garbage") == None
  {
    ParseNrRequestsOfWord("garbage");
  }

  /** Two words separated by whitespace are not a number, whatever the words are. */
  lemma ParseNrRequestsOfTwoWords(w1: string, sep: string, w2: string)
    requires IsWord(w1) && IsWord(w2) && sep != [] && AllWhitespace(sep)
    ensures ParseNrRequests(w1 + sep + w2) == None
  {
    var s := w1 + sep + w2;
    assert s[0] == w1[0] && s[|s| - 1] == w2[|w2| - 1];
    TrimUnpadded(s);
    assert IsWhitespace(s[|w1|]);
  }

  lemma ParseNrRequestsOfOneSpaceTwo()
    ensures ParseNrRequests("1 2") == None
  {
    ParseNrRequestsOfTwoWords("1", " ", "2");
    assert "1" + " " + "2" == "1 2";
  }

  /** `read_sysfs_nr_requests`: 0 when queue/nr_requests cannot be read or parsed. */
  function ReadSysfsNrRequests(sys: Sysfs, device: string): (n: u64)
    ensures NrRequestsPath(device) !in sys.files ==> n == 0
    ensures NrRequestsPath(device) in sys.files ==>
      n == ParseNrRequests(sys.files[NrRequestsPath(device)]).GetOr(0)
  {
    var path := NrRequestsPath(device);
    if path in sys.files then ParseNrRequests(sys.files[path]).GetOr(0) else 0
  }

  /**
   * `get_block_device_properties`: the device's name, whether it is rotational and its
   * nr_requests. An unknown device is ("", true, 0); a known one is taken as rotational
   * unless its (parent's) queue/rotational definitely says "0".
   */
  method GetBlockDeviceProperties(sys: Sysfs, major: u64, minor: u64)
    returns (name: string, rotational: bool, nrRequests: u64)
    ensures name == [] <==>
      sys.diskstats.None? || forall i :: !FirstMatchAt(Lines(sys.diskstats.value), i, major, minor)
    ensures name == [] ==> rotational && nrRequests == 0
    ensures name != [] ==> exists i ::
      FirstMatchAt(Lines(sys.diskstats.value), i, major, minor)
      && ParseDiskstatsLine(Lines(sys.diskstats.value)[i]).value.name == name
    ensures name != [] ==>
      var parent := ResolveParentDevice(sys, name);
      && (!rotational <==> ReadSysfsRotational(sys, parent) == Some(false))
      && nrRequests == ReadSysfsNrRequests(sys, parent)
  {
    if sys.diskstats.None? {
      return [], true, 0;
    }
    var found := ResolveDeviceNameFromContent(sys.diskstats.value, major, minor);
    if found.None? {
      return [], true, 0;
    }
    var deviceName := found.value;
    var parent := ResolveParentDevice(sys, deviceName);
    var rot := ReadSysfsRotational(sys, parent);
    nrRequests := ReadSysfsNrRequests(sys, parent);
    rotational := rot.GetOr(true);
    name := deviceName;
  }

  // ================================================================ get_info

  /** The `DiskInfo` record `get_info` returns (sizes unbounded, see README). */
  datatype DiskInfo = DiskInfo(
    total: nat,
    free: nat,
    used: nat,
    files: u64,
    ffree: u64,
    fstype: string,
    major: u64,
    minor: u64,
    name: string,
    rotational: bool,
    nrrequests: u64)

  /**
   * `get_info` after its two system calls: `st` is what `statfs` returned, `major:minor` the
   * device numbers `stat` gave, `sys` the procfs and sysfs view.
   */
  method GetInfo(st: StatFs, major: u64, minor: u64, sys: Sysfs) returns (r: Result<DiskInfo, InfoError>)
    ensures DiskSpace(st).Failure? ==> r == Failure(DiskSpace(st).error)
    ensures DiskSpace(st).Success? ==>
      && r.Success?
      && r.value.total == DiskSpace(st).value.total
      && r.value.free == DiskSpace(st).value.free
      && r.value.used == DiskSpace(st).value.used
      && r.value.files == st.f_files && r.value.ffree == st.f_ffree
      && r.value.fstype == GetFsType(I64AsU64(st.f_type))
      && r.value.major == major && r.value.minor == minor
    ensures r.Success? ==> r.value.used + r.value.free == r.value.total
    ensures r.Success? ==> (r.value.name == [] <==>
      sys.diskstats.None? || forall i :: !FirstMatchAt(Lines(sys.diskstats.value), i, major, minor))
    ensures r.Success? && r.value.name == [] ==> r.value.rotational && r.value.nrrequests == 0
    ensures r.Success? && r.value.name != [] ==> exists i ::
      FirstMatchAt(Lines(sys.diskstats.value), i, major, minor)
      && ParseDiskstatsLine(Lines(sys.diskstats.value)[i]).value.name == r.value.name
    ensures r.Success? && r.value.name != [] ==>
      var parent := ResolveParentDevice(sys, r.value.name);
      && (!r.value.rotational <==> ReadSysfsRotational(sys, parent) == Some(false))
      && r.value.nrrequests == ReadSysfsNrRequests(sys, parent)
  {
    var space := DiskSpace(st);
    if space.Failure? {
      return Failure(space.error);
    }
    var name, rotational, nrRequests := GetBlockDeviceProperties(sys, major, minor);
    r := Success(DiskInfo(
      space.value.total, space.value.free, space.value.used,
      st.f_files, st.f_ffree, GetFsType(I64AsU64(st.f_type)),
      major, minor, name, rotational, nrRequests));
  }

  // ================================================================ drive stats

  /** The counters of a block device's `stat` file that `read_drive_stats` fills. */
  datatype IOStats = IOStats(
    read_ios: u64,
    read_merges: u64,
    read_sectors: u64,
    read_ticks: u64,
    write_ios: u64,
    write_merges: u64,
    write_sectors: u64,
    write_ticks: u64,
    current_ios: u64,
    total_ticks: u64,
    req_ticks: u64,
    discard_ios: u64,
    discard_merges: u64,
    discard_sectors: u64,
    discard_ticks: u64)

  /** The first eleven counters are values 0..10: reads, writes, in flight, time spent. */
  predicate BaseCountersAre(io: IOStats, values: seq<u64>)
    requires |values| >= 11
  {
    && io.read_ios == values[0] && io.read_merges == values[1]
    && io.read_sectors == values[2] && io.read_ticks == values[3]
    && io.write_ios == values[4] && io.write_merges == values[5]
    && io.write_sectors == values[6] && io.write_ticks == values[7]
    && io.current_ios == values[8] && io.total_ticks == values[9]
    && io.req_ticks == values[10]
  }

  /** The four discard counters are values 11..14. */
  predicate DiscardCountersAre(io: IOStats, values: seq<u64>)
    requires |values| >= 15
  {
    && io.discard_ios == values[11] && io.discard_merges == values[12]
    && io.discard_sectors == values[13] && io.discard_ticks == values[14]
  }

  /** Both are `ErrorKind::InvalidData` in the source. */
  datatype StatsError = UnparsableToken(token: string) | TooFewValues(count: nat)

  /** The whitespace-separated tokens of the first line of a `stat` file; none for an empty file. */
  function StatTokens(content: string): (tokens: seq<string>)
    ensures content == [] ==> tokens == []
    ensures content != [] ==> tokens == SplitWhitespace(Lines(content)[0])
    ensures forall i :: 0 <= i < |tokens| ==> IsWord(tokens[i])
  {
    var lines := Lines(content);
    if lines == [] then [] else SplitWhitespace(lines[0])
  }

  /** The values of tokens that all parse as u64, in order. */
  ghost function TokenValues(tokens: seq<string>): (values: seq<u64>)
    requires forall i :: 0 <= i < |tokens| ==> ParseU64(tokens[i]).Some?
    ensures |values| == |tokens|
    ensures forall i :: 0 <= i < |tokens| ==> ParseU64(tokens[i]) == Some(values[i])
  {
    seq(|tokens|, i requires 0 <= i < |tokens| => ParseU64(tokens[i]).value)
  }

  /** Token i is the first one that is not a u64. */
  ghost predicate FirstBadToken(tokens: seq<string>, i: int) {
    && 0 <= i < |tokens|
    && ParseU64(tokens[i]).None?
    && forall j :: 0 <= j < i ==> ParseU64(tokens[j]).Some?
  }

  /** `read_stat` after opening the file: every token of the first line as a u64, in order. */
  method ReadStat(content: string) returns (r: Result<seq<u64>, StatsError>)
    ensures r.Success? <==> forall i :: 0 <= i < |StatTokens(content)| ==> ParseU64(StatTokens(content)[i]).Some?
    ensures r.Success? ==> r.value == TokenValues(StatTokens(content))
    ensures r.Failure? ==> exists i ::
      FirstBadToken(StatTokens(content), i) && r.error == UnparsableToken(StatTokens(content)[i])
  {
    var tokens := StatTokens(content);
    var stats: seq<u64> := [];
    for k := 0 to |tokens|
      invariant |stats| == k
      invariant forall i :: 0 <= i < k ==> ParseU64(tokens[i]) == Some(stats[i])
    {
      var v := ParseU64(tokens[k]);
      if v.None? {
        assert FirstBadToken(tokens, k);
        return Failure(UnparsableToken(tokens[k]));
      }
      stats := stats + [v.value];
    }
    assert stats == TokenValues(tokens);
    return Success(stats);
  }

  /**
   * `read_drive_stats`: fewer than 11 values is an error; the first 11 fill the read, write,
   * in-flight and time counters in order; the four discard counters are filled only when
   * there are more than 14 values and are 0 otherwise.
   */
  method ReadDriveStats(content: string) returns (r: Result<IOStats, StatsError>)
    ensures var tokens := StatTokens(content);
      r.Success? <==> |tokens| >= 11 && forall i :: 0 <= i < |tokens| ==> ParseU64(tokens[i]).Some?
    ensures r.Failure? && r.error.TooFewValues? ==>
      && r.error.count == |StatTokens(content)| < 11
      && forall i :: 0 <= i < |StatTokens(content)| ==> ParseU64(StatTokens(content)[i]).Some?
    ensures r.Failure? && r.error.UnparsableToken? ==> exists i ::
      FirstBadToken(StatTokens(content), i) && r.error.token == StatTokens(content)[i]
    ensures r.Success? ==> BaseCountersAre(r.value, TokenValues(StatTokens(content)))
    ensures r.Success? && |StatTokens(content)| > 14 ==>
      DiscardCountersAre(r.value, TokenValues(StatTokens(content)))
    ensures r.Success? && |StatTokens(content)| <= 14 ==>
      r.value.discard_ios == r.value.discard_merges == r.value.discard_sectors == r.value.discard_ticks == 0
  {
    var read := ReadStat(content);
    if read.Failure? {
      return Failure(read.error);
    }
    var stats := read.value;
    if |stats| < 11 {
      return Failure(TooFewValues(|stats|));
    }
    var io := IOStats(stats[0], stats[1], stats[2], stats[3], stats[4], stats[5], stats[6],
                      stats[7], stats[8], stats[9], stats[10], 0, 0, 0, 0);
    if |stats| > 14 {
      io := io.(discard_ios := stats[11]);
      io := io.(discard_merges := stats[12]);
      io := io.(discard_sectors := stats[13]);
      io := io.(discard_ticks := stats[14]);
    }
    return Success(io);
  }
}
