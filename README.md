# Linux disk information, modelled in Dafny

A model of `crates/utils/src/os/linux.rs`, the Linux part of the storage server's OS
utilities. The model covers four things:

- `get_info`: computes a filesystem's total, free and used bytes from `statfs`, rejects
  three kinds of corrupt counts, and attaches the device's name, rotational flag and
  `nr_requests`;
- `get_block_device_properties`: the lookup behind those three values. It finds the device
  name for `major:minor` in `/proc/diskstats`, resolves a partition to its parent disk
  through the `/sys/class/block` link, and reads `queue/rotational` and
  `queue/nr_requests` from sysfs;
- `get_fs_type`: the table from filesystem magic numbers to names;
- `read_drive_stats` / `read_stat`: read the first line of a block device's `stat` file as
  `u64` counters and lay them out as `IOStats`.

The system calls and file reads are replaced by inputs:

- `Linux.StatFs` is the record `statfs` returns;
- the device numbers are the ones `stat` gives;
- `Linux.Sysfs` is what the code reads under `/proc` and `/sys`. It holds the diskstats
  content (None when unreadable), the `/sys/class/block` link targets, the readable files
  with their contents, and a `pathExists` oracle for `Path::exists`.

The Rust standard-library behaviour the code relies on is modelled as well:

- `str::trim`, `str::split_whitespace`, `str::lines` and `u64::from_str` in module `Text`;
- `Path::parent` and `Path::file_name` in module `Paths`.

Modules:

- `Wrappers`: `Option` (with `GetOr`, Rust's `unwrap_or`) and `Result`;
- `Ints`: `u64`, `i64` and the `as u64` cast;
- `Text`, `Paths`: the standard-library parts above;
- `Linux`: the model of `linux.rs` itself.

The form follows the source:

- The diskstats scan, `read_stat` and `read_drive_stats` are methods with loops or
  sequential updates, like the Rust loops and field assignments. The diskstats scan keeps
  the source's early `?` returns.
- `get_block_device_properties` and `get_info` call those methods and are methods too.
- Everything else is a pure function.

## Model

| member | source | states |
|---|---|---|
| Ints.I64AsU64 | crates/utils/src/os/linux.rs:34-38 | `x as u64` keeps a non-negative `i64` and adds 2^64 to a negative one |
| Linux.BlockUnit | crates/utils/src/os/linux.rs:34-38 | the block unit is `f_frsize` when positive, otherwise `f_bsize` cast to `u64` (negative sizes wrap) |
| Linux.DiskSpace | crates/utils/src/os/linux.rs:40-70 | each of the three corruption errors occurs exactly under its condition and carries the values its message reports; on success, total = (blocks − reserved)·unit, free = bavail·unit and used + free = total |
| Linux.UsedIsAllocatedBlocks | crates/utils/src/os/linux.rs:44-70 | when bavail ≤ bfree ≤ blocks the computation succeeds and used = (blocks − bfree)·unit, the space held by allocated blocks |
| Linux.FreeExceedsTotalIff | crates/utils/src/os/linux.rs:62-70 | once the first two checks pass and the unit is non-zero, the third check fails exactly when bfree > blocks |
| Linux.DiskSpaceSucceedsIff | crates/utils/src/os/linux.rs:44-70 | with a non-zero unit, `get_info`'s arithmetic succeeds iff bavail ≤ bfree ≤ blocks |
| Linux.ZeroUnitSpace | crates/utils/src/os/linux.rs:34-70 | with both sizes zero, every size is zero and only the first two checks can fail |
| Linux.GetInfo | crates/utils/src/os/linux.rs:22-91 | the arithmetic's error is returned unchanged; on success the sizes, the inode counts, the fs type name of `f_type as u64` and the device numbers are those inputs; the name is empty iff diskstats is unreadable or has no first match, and then the device is rotational with 0 requests; otherwise the name is the first match's, the device is non-rotational exactly when its parent's `queue/rotational` reads "0", and `nrrequests` is its parent's `nr_requests` |
| Linux.GetFsType | crates/utils/src/os/linux.rs:228-243 | each of the seven magic numbers gets its name, every other number gets "UNKNOWN" |
| Linux.FsTypeNameIdentifiesMagic | crates/utils/src/os/linux.rs:230-242 | two numbers with the same known name are the same number (the table is injective) |
| Linux.ParseDiskstatsLine | crates/utils/src/os/linux.rs:131-134 | fewer than three whitespace-separated fields, or a first or second field that does not parse as `u64`, gives nothing; otherwise the entry is (first field's value, second field's value, third field), and the name is a non-empty token without whitespace |
| Linux.ParseDiskstatsLineOf | crates/utils/src/os/linux.rs:131-134 | a line of whitespace, the decimal major, whitespace, the decimal minor, whitespace, a name and anything from whitespace on parses to exactly (major, minor, name) |
| Linux.ResolveDeviceNameFromContent | crates/utils/src/os/linux.rs:129-140 | Some(name) iff some line is the first match for `major:minor` (a line for that device with only well-formed lines of other devices before it), and the name is that line's third field |
| Linux.ScanStopsAt | crates/utils/src/os/linux.rs:130-134 | a malformed line reached after passing over the lines before it means no line is a first match |
| Linux.FirstMatchUnique | crates/utils/src/os/linux.rs:130-137 | at most one line is the first match |
| Linux.MalformedLineEndsScan | crates/utils/src/os/linux.rs:130-134 | the first match lies before every malformed line, so a matching line after a malformed one is never found |
| Linux.EmptyDiskstats | crates/utils/src/os/linux.rs:353-356 | empty diskstats content has no first match for any device |
| Linux.DiskstatsSataExample | crates/utils/src/os/linux.rs:330-338 | in the SATA listing, its lines shortened after the first counter, `8:16` is found on the third line, named `sdb` |
| Linux.ParentDeviceFromSysfsPath | crates/utils/src/os/linux.rs:167-181 | the result differs from the device exactly when the link target's parent has a file name that differs from the device and has a `queue/rotational` file; it is then that name |
| Linux.PartitionResolvesToDisk | crates/utils/src/os/linux.rs:360-377 | a target `.../disk/part` for device `part` resolves to `disk` when `disk` has queue statistics |
| Linux.WholeDiskResolvesToItself | crates/utils/src/os/linux.rs:379-387 | a target `.../dir/disk` for device `disk` stays `disk` when `dir` has no queue statistics |
| Linux.ResolveParentDevice | crates/utils/src/os/linux.rs:150-156 | an unreadable link keeps the device name; a readable link gives what `parent_device_from_sysfs_path` makes of its target; any result other than the device itself has a `queue/rotational` file |
| Linux.FlagIff | crates/utils/src/os/linux.rs:193-196 | a one-character flag is the trim of a text iff the text is that flag padded with whitespace |
| Linux.ParseRotational | crates/utils/src/os/linux.rs:192-198 | Some(true) iff the content is "1" padded with whitespace, Some(false) iff it is "0" padded with whitespace |
| Linux.ParseRotationalOfLine | crates/utils/src/os/linux.rs:391-401 | "0\n" and "1\n", as sysfs writes them, read as SSD and HDD |
| Linux.ParseRotationalOfOtherWord | crates/utils/src/os/linux.rs:403-408 | a single word other than "0" and "1" is unknown |
| Linux.ParseRotationalOfHddLine | crates/utils/src/os/linux.rs:393 | "1\n" is Some(true) |
| Linux.ParseRotationalOfSsdLine | crates/utils/src/os/linux.rs:399 | "0\n" is Some(false) |
| Linux.ParseRotationalOfBareHdd | crates/utils/src/os/linux.rs:394 | "1" is Some(true) |
| Linux.ParseRotationalOfBareSsd | crates/utils/src/os/linux.rs:400 | "0" is Some(false) |
| Linux.ParseRotationalRejectsOthers | crates/utils/src/os/linux.rs:406-407 | "garbage" and "2" are None |
| Linux.ParseRotationalOfEmpty | crates/utils/src/os/linux.rs:405 | "" is None |
| Linux.ReadSysfsRotational | crates/utils/src/os/linux.rs:185-188 | Some(false) / Some(true) iff the device's `queue/rotational` is readable and is "0" / "1" padded with whitespace |
| Linux.ParseNrRequests | crates/utils/src/os/linux.rs:212-214 | Some(n) iff the content is a spelling of n (optional '+', leading zeros, the decimal form of n) padded with whitespace; so all-whitespace content is None, and a parsed content holds nothing but whitespace, digits and '+' |
| Linux.ParseNrRequestsOfDecimal | crates/utils/src/os/linux.rs:212-214 | the decimal form of any `u64`, padded with whitespace, parses back to that number |
| Linux.ParseNrRequestsOfWord | crates/utils/src/os/linux.rs:419-423 | a word that starts with neither a digit nor '+' is None |
| Linux.ParseNrRequestsOfLine | crates/utils/src/os/linux.rs:414 | "256\n" is 256 |
| Linux.ParseNrRequestsOfBare | crates/utils/src/os/linux.rs:415 | "128" is 128 |
| Linux.ParseNrRequestsOfPadded | crates/utils/src/os/linux.rs:416 | "  64  \n" is 64 |
| Linux.ParseNrRequestsRejects | crates/utils/src/os/linux.rs:421-422 | "" and "garbage" are None |
| Linux.ParseNrRequestsOfTwoWords | crates/utils/src/os/linux.rs:212-214 | two words with whitespace between them are never a number |
| Linux.ParseNrRequestsOfOneSpaceTwo | crates/utils/src/os/linux.rs:212-214 | "1 2" is None |
| Linux.ReadSysfsNrRequests | crates/utils/src/os/linux.rs:202-208 | 0 when `queue/nr_requests` is unreadable or unparsable, otherwise its value |
| Linux.GetBlockDeviceProperties | crates/utils/src/os/linux.rs:103-118 | an unknown device is ("", rotational, 0); a found device has the first match's name, is non-rotational exactly when its parent's `queue/rotational` reads "0", and has its parent's `nr_requests` |
| Linux.StatTokens | crates/utils/src/os/linux.rs:298-302 | empty content has no tokens; otherwise the tokens are the whitespace-separated words of the first line |
| Linux.TokenValues | crates/utils/src/os/linux.rs:302-306 | the values of tokens that all parse, one per token, each the token's parse |
| Linux.ReadStat | crates/utils/src/os/linux.rs:288-311 | succeeds iff every token of the first line parses as `u64`, with those values in order; otherwise fails on the first token that does not |
| Linux.ReadDriveStats | crates/utils/src/os/linux.rs:256-286 | fewer than 11 values (all of which parse) or a bad token is an error; the first 11 values fill the read, write, in-flight and time counters in order; the discard counters are values 11–14 when there are more than 14 values and 0 otherwise |
| Text.IsWhitespace | crates/utils/src/os/linux.rs:131 | the whitespace characters are exactly space, tab, line feed, vertical tab, form feed and carriage return |
| Text.TrimStart | crates/utils/src/os/linux.rs:193 | the result is a suffix, what it drops is whitespace, and it starts with non-whitespace |
| Text.TrimEnd | crates/utils/src/os/linux.rs:193 | the result is a prefix, what it drops is whitespace, and it ends with non-whitespace |
| Text.Trim | crates/utils/src/os/linux.rs:193 | the result starts and ends with non-whitespace, and is empty iff the input is all whitespace |
| Text.TrimKeepsNonWhitespace | crates/utils/src/os/linux.rs:213 | every non-whitespace character of the input survives trimming |
| Text.TrimPadded | crates/utils/src/os/linux.rs:193 | trimming whitespace + core + whitespace gives back exactly the core |
| Text.TrimUnpadded | crates/utils/src/os/linux.rs:193 | a text without whitespace at either end is its own trim |
| Text.TrimIff | crates/utils/src/os/linux.rs:193 | trimming gives a given core iff the input is that core padded with whitespace |
| Text.PaddedBySelf | crates/utils/src/os/linux.rs:193 | every text is padded by itself |
| Text.SplitWhitespace | crates/utils/src/os/linux.rs:131 | every token is a non-empty run without whitespace; there are none iff the input is all whitespace |
| Text.SplitPadded | crates/utils/src/os/linux.rs:131 | leading whitespace does not change the tokens |
| Text.SplitPaddedWord | crates/utils/src/os/linux.rs:131 | a word after whitespace and before whitespace (or the end) is the first token |
| Text.Lines | crates/utils/src/os/linux.rs:130 | no line contains a line feed; there are no lines iff the text is empty |
| Text.LinesCons | crates/utils/src/os/linux.rs:130 | a line ended by a line feed is the first line, a carriage return before the feed dropped |
| Text.LinesSingle | crates/utils/src/os/linux.rs:130 | a non-empty text without a line feed is a single line |
| Text.ParseU64 | crates/utils/src/os/linux.rs:132 | a parsed text is non-empty, without whitespace, and all digits except a leading '+' |
| Text.ParseU64Iff | crates/utils/src/os/linux.rs:132 | a text parses to n iff it is an optional '+', any number of '0's, and the decimal form of n |
| Text.TrimParseIff | crates/utils/src/os/linux.rs:213 | a trimmed text parses to n iff the text is such a spelling of n padded with whitespace |
| Text.ZerosValue | crates/utils/src/os/linux.rs:132 | leading zeros change no value |
| Text.CanonicalDecimal | crates/utils/src/os/linux.rs:132 | a digit string without a leading zero (or the single "0") is the decimal form of its value |
| Text.StripZeros | crates/utils/src/os/linux.rs:132 | every digit string is some zeros followed by the decimal form of its value |
| Text.ToDecimal | crates/utils/src/os/linux.rs:213 | the decimal form of n is non-empty, all digits, denotes n, and has no leading zero unless n is 0 |
| Text.ParseToDecimal | crates/utils/src/os/linux.rs:213 | the decimal form of any `u64`, with or without a '+', parses back to it |
| Text.ParseRejectsOverflow | crates/utils/src/os/linux.rs:303-305 | a number of 2^64 or more does not parse |
| Paths.Components | crates/utils/src/os/linux.rs:168-169 | the root is the first component exactly for an absolute path and appears nowhere else, "." appears only first, and every `Normal` component is a plain name |
| Paths.ParentFileName | crates/utils/src/os/linux.rs:168-169 | a parent file name is a plain name: non-empty, no '/', neither "." nor ".." |
| Paths.ComponentsAppend | crates/utils/src/os/linux.rs:168-169 | appending "/name" to a non-empty path appends one `Normal(name)` component |
| Paths.ParentFileNameOfNested | crates/utils/src/os/linux.rs:360-377 | the parent file name of `.../p/d` is `p`, as for `nvme0n1` in `.../nvme0n1/nvme0n1p1` |
| Paths.ParentFileNameOfName | crates/utils/src/os/linux.rs:168-169 | a bare name has no parent file name |

## Left out

- The system calls `statfs` and `stat` and the file reads under `/proc` and `/sys` are inputs
  (`StatFs`, the device numbers, `Sysfs`); so are their I/O errors, and `same_disk`, which is
  only two `stat` calls and a comparison.
- `get_drive_stats` only formats the path `/sys/dev/block/<major>:<minor>/stat`. The model
  takes the file's content directly, and an unopenable or unreadable file is not modelled.
- `resolve_device_name_from_diskstats` and the file read inside `read_sysfs_rotational` and
  `read_sysfs_nr_requests` are `Sysfs` lookups (`diskstats`, `files`).
- Linux.DiskSpace: the products `(blocks - reserved) * bsize` and `bavail * bsize` are
  unbounded, while the source multiplies `u64` values, which overflows (a panic or a
  wrap-around, depending on the build) only beyond 16 EiB. The sizes in `Space` and
  `DiskInfo` are therefore `nat`.
- Linux.GetInfo: inherits the unbounded sizes of DiskSpace.
- Text.IsWhitespace: only ASCII whitespace is modelled, while `char::is_whitespace` is the
  full Unicode White_Space set, so `trim` and `split_whitespace` differ on the non-ASCII
  whitespace characters.
- Non-UTF-8 file content (an error for `read_to_string` and `lines`) and
  `to_string_lossy` on non-UTF-8 paths are not modelled, since strings are sequences of
  characters.
- Error message texts are left out. The errors keep the values the messages report.
- `Paths` handles Unix paths made of '/' only. Windows prefixes and verbatim paths do not
  apply on Linux.
- `DiskInfo` and `IOStats` are declared in `crates/utils/src/os/mod.rs`, which is not part of
  this model. The model gives them exactly the fields `linux.rs` sets, so any other field
  `IOStats` may have (left at its default by `read_drive_stats`) is not modelled.
- `crates/ecstore/benches/walk_dir_benchmark.rs` is a Criterion benchmark of directory
  walking with no disk-information logic, and is not modelled.
