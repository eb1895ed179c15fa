# ioandroid: minizip's Android file adapter, modelled in Dafny

`ioandroid.c` supplies minizip's file callbacks on Android. It opens files
with `open64` and large-file flags instead of `fopen`. It also accepts
paths of the form `/proc/self/fd/<N>`. For such a path it *adopts* the
caller's already-open descriptor `N` and does not open a file. Adopted
descriptors go into a process-wide registry (`fd_list`), so the same
descriptor cannot be adopted twice while a stream uses it. Closing an
adopted stream only unregisters the descriptor. Closing an owned stream
closes the descriptor. For split archives, `android_opendisk64_file_func`
derives the name of volume *n* by writing `.z%02d` of *n + 1* over the last
`.` of the archive's name, cut to the space the old name took.

The model has these modules:

- `CTypes` (base.dfy): the `int` range and C strings. `UpToNul` reads a
  buffer as a C string. `Wrappers` holds `Option`.
- `FdRegistry` (registry.dfy): the registry as a class `FdList`. An `array`
  holds `fd_list`; `size` and `capacity` are fields. `AddFd`, `RemoveFd`
  (with its compaction loop `ShiftDown` and its tail `Shrink`) and `HasFd`
  are methods. Each one is proved against the sequence `Contents()`. The
  reference definitions it is proved against are `RemoveFirst`,
  `GrowCapacity` and `ShrinkCapacity`. Whether `realloc` succeeds is a
  boolean parameter.
- `Strtol` (strtol.dfy): `strtol(str, &end, 10)` as section 7.22.1.4 of
  ISO C11 describes it. `ConvertToInt` is `convert_to_int`. It accepts a
  string only when strtol consumed all of it, the string is not empty,
  ERANGE was not set and the value fits an `int`.
- `OsModel` (os.dfy): the operating system as a class `Os`. It holds the
  set of open descriptors and logs of the `open64` and `lseek64` calls
  made. What `open64`, `close` and `lseek64` return is chosen
  nondeterministically, which allows more than POSIX does: `open64` may
  return any descriptor that is not open, not just the lowest, so the
  results hold whichever one a system picks. `close` always releases the
  descriptor (see "## Left out"). `fd_is_valid` is
  membership in the open set (`Os.IsValidFd`).
- `Volume` (volume.dfy): `VolumeName` is the reference definition of the
  derived volume name. `DiskFilename` is the C loop: it copies the name
  into an `array` (`CopyString`), scans it backward from its terminator,
  and at the first dot found runs `Snprintf` over it (`FormatAtDot`). It
  is proved to produce `VolumeName`.
- `IoAndroid` (ioandroid.dfy): the mode-to-flags translation, the handle
  record `FILE_IOANDROID`, the open route, and the callbacks `Open64`,
  `OpenDisk64`, `Seek64`, `CloseFile` and `ErrorFile`. `Open64`,
  `OpenDisk64` and `CloseFile` are proved against a relation between two
  `World` values (`OpenSpec`, `OpenDiskSpec`, `CloseSpec`). A `World`
  snapshots the registry and the OS state. `Seek64` states directly the
  lseek64 call it logs.
- `Lifecycle` (lifecycle.dfy): properties across calls, stated on those
  relations. The registry stays consistent. A registered descriptor stays
  registered through any run of calls until its stream is closed, so
  adopting it again meanwhile fails. An adopted descriptor outlives its
  stream and can be adopted again. No
  volume is ever derived from the name of an adopted stream.

The `ZLIB_FILEFUNC_*` constants come from `ioapi.h`, which is not part of
this model. The model uses the values that minizip's `ioapi.h` ships with:
modes READ 1, WRITE 2, READWRITEFILTER 3, EXISTING 4, CREATE 8, and
origins SEEK_SET 0, SEEK_CUR 1, SEEK_END 2. Mode bits are a `bv32`, the
bit pattern of the C `int`.

Three details of the code shape the model:

- `convert_to_int` uses `strtol`, which skips leading white space and
  accepts a sign and leading zeros, so `/proc/self/fd/ 7`,
  `/proc/self/fd/+7` and `/proc/self/fd/007` all adopt descriptor 7
  (`IoAndroid.DescriptorPathLeadingSpace`, `Strtol.ConvertToIntPlusSign`,
  `Strtol.ConvertToIntLeadingZeros`).
- `add_fd` makes no duplicate check; `android_open64_file_func` checks
  through `has_fd` first. Uniqueness of the registry is therefore an
  invariant of the callbacks (`Lifecycle.OpenKeepsConsistent`), not of
  `AddFd`.
- The `malloc` of the handle in `file_build_ioandroid` is never checked
  for failure, so the model has no allocation-failure path.

## Model

| member | source | states |
|---|---|---|
| `FdRegistry.FdList.constructor` | ioandroid.c:18-20 | The registry starts empty with capacity 0. Its buffer is freshly allocated. |
| `FdRegistry.FdList.AddFd` | ioandroid.c:22-43 | A full registry first grows 0 to 1, or doubles. If that reallocation fails, the call returns -1 and the list, size and capacity are unchanged. Otherwise fd is appended after the old entries (no duplicate check) and the call returns 0. Capacity stays 0 or a power of two and at least the size. The buffer afterwards is the old one or a freshly allocated one. |
| `FdRegistry.FdList.RemoveFd` | ioandroid.c:45-76 | Returns 1 and changes nothing when fd is absent. Otherwise it returns 0, the contents are the old contents with the first occurrence of fd removed in order, and the capacity is halved at most once. The buffer afterwards is the old one or a freshly allocated one. |
| `FdRegistry.FdList.ShiftDown` | ioandroid.c:49-57 | The compaction loop moves every entry after the match down one slot and drops the size by one. |
| `FdRegistry.FdList.Shrink` | ioandroid.c:63-75 | If at most half the buffer is used, the capacity becomes half. A failed reallocation to a non-zero size keeps the old buffer. A zero-size request leaves capacity 0. Contents never change. The buffer afterwards is the old one or a freshly allocated one. |
| `FdRegistry.FdList.HasFd` | ioandroid.c:78-87 | Returns 1 exactly when fd is registered, else 0. |
| `FdRegistry.Realloc` | ioandroid.c:32 | A successful realloc gives a new buffer of the new size that starts with whatever fits of the old contents. |
| `FdRegistry.CapacityAfterAddsStep` | ioandroid.c:24-39 | After n adds to an empty registry, the capacity is the smallest power of two that holds n entries. |
| `FdRegistry.GrowKeepsShape` | ioandroid.c:24-39 | Growth keeps the capacity 0 or a power of two and leaves room for the new entry. |
| `FdRegistry.ShrinkKeepsShape` | ioandroid.c:63-73 | Halving keeps the capacity 0 or a power of two. |
| `FdRegistry.GrowCapacity` | ioandroid.c:24-39 | Reference definition: a full registry's capacity becomes 1 from 0, or doubles; a registry with room keeps its capacity. |
| `FdRegistry.ShrinkCapacity` | ioandroid.c:63-73 | Reference definition: after a removal the capacity halves when at most half is used, unless the reallocation to a non-zero size failed. |
| `FdRegistry.RemoveFirst` | ioandroid.c:49-57 | Reference definition: the list with its first occurrence of fd taken out, everything else in order. |
| `FdRegistry.RemoveFirstAt` | ioandroid.c:49-56 | Removing the first match at index i gives the entries before i followed by the entries after i. |
| `FdRegistry.RemoveFirstAbsent` | ioandroid.c:58-61 | Removing an absent value changes nothing. |
| `FdRegistry.RemoveFirstMultiset` | ioandroid.c:49-56 | A removal takes away exactly one copy of the value, if it was present. |
| `FdRegistry.RemoveFirstUnique` | ioandroid.c:45-57 | On a duplicate-free registry, a removal leaves the value absent and the registry duplicate-free. |
| `FdRegistry.AppendUnique` | ioandroid.c:41 | Appending an unregistered descriptor keeps the registry duplicate-free. |
| `Strtol.StrtolBase10` | ioandroid.c:128 | strtol base 10 skips white space, reads an optional sign, then the longest digit run. With no digits it returns 0 with end at the start. Out-of-range values clamp to a bound of `long` and set ERANGE. |
| `Strtol.StrtolOfDecimal` | ioandroid.c:128 | strtol reads back all of `%d`'s output, exactly, unless the value lies outside `long`. |
| `Strtol.ConvertToInt` | ioandroid.c:124-135 | The empty string is refused. An accepted string yields an `int` and ends in a digit. |
| `Strtol.ConvertToIntOfDecimal` | ioandroid.c:124-135 | The decimal form of n is accepted exactly when n is an `int`, and yields n. |
| `Strtol.ConvertToIntLeadingSpace` | ioandroid.c:128-131 | Leading white space does not change the outcome. |
| `Strtol.ConvertToIntTrailing` | ioandroid.c:129-131 | A trailing non-digit makes the parse partial, so it is refused. |
| `Strtol.ConvertToIntLongWidth` | ioandroid.c:128-131 | The outcome is the same for every `long` at least as wide as `int` (ILP32 or LP64). |
| `Strtol.AcceptedShape` | ioandroid.c:123-134 | A string `convert_to_int` accepts is white space, then at most one sign, then a non-empty run of digits that reaches the end of the string. |
| `Strtol.AcceptedChars` | ioandroid.c:123-134 | Hence such a string holds only white space, `+`, `-` and digits (never a dot). |
| `Strtol.ConvertToIntOfParts` | ioandroid.c:123-134 | Conversely, white space, then an optional sign, then digits, is accepted exactly when the signed value is an `int`, and yields that value. |
| `Strtol.ConvertToIntPlusSign` | ioandroid.c:127 | `"+7"` is accepted as 7. |
| `Strtol.ConvertToIntLeadingZeros` | ioandroid.c:127 | `"007"` is accepted as 7. |
| `OsModel.Os.Open` | ioandroid.c:182 | open64 returns -1 with nothing opened, or a descriptor that was not open and now is. The call is logged with its path, flags and permissions. |
| `OsModel.Os.IsValidFd` | ioandroid.c:137-140 | fd_is_valid holds exactly for a descriptor in the open set. |
| `OsModel.Os.Close` | ioandroid.c:318 | close releases the descriptor and returns 0 or -1; closing a descriptor that is not open returns -1. |
| `OsModel.Os.Lseek64` | ioandroid.c:295 | lseek64 returns -1 or a non-negative offset for an open descriptor. It is logged, and open descriptors are unchanged. |
| `Volume.LastDot` | ioandroid.c:207-210 | Gives the index of a dot with no dot after it, or None exactly when the name has no dot. |
| `Volume.Format02d` | ioandroid.c:211-212 | `%02d` output is at least two characters, digits (after a minus for negatives), and denotes the number. |
| `Volume.Truncate` | ioandroid.c:211 | snprintf keeps at most room characters of the text, as a prefix. |
| `Volume.VolumeName` | ioandroid.c:205-214 | Reference definition of a volume's name: None without a dot; otherwise the name up to its last dot, then as much of `.z%02d` of disk + 1 as fits in the bytes the old tail took. |
| `Volume.VolumeNameShape` | ioandroid.c:205-218 | A name is derived exactly when the original has a dot. Everything before the last dot is kept, the rest is a prefix of `.zNN`, and the result is never longer than the original. |
| `Volume.VolumeNameWhole` | ioandroid.c:211-212 | When the old extension leaves room, the new name is the stem followed by the whole suffix. |
| `Volume.VolumeNameLastDot` | ioandroid.c:207-212 | The derived name has its last dot where the original had it. |
| `Volume.VolumeNameRederived` | ioandroid.c:207-212 | Deriving again from a derived name gives the same name as deriving from the original, for disks of equal digit count. |
| `Volume.VolumeNameFirstDisk` | ioandroid.c:207-212 | "archive.zip" with disk 0 becomes "archive.z01". |
| `Volume.VolumeNameTenthDisk` | ioandroid.c:207-212 | "archive.zip" with disk 9 becomes "archive.z10". |
| `Volume.VolumeNameNoDot` | ioandroid.c:216-218 | "archivezip" has no volume name. |
| `Volume.VolumeNameDotInDirectory` | ioandroid.c:207-210 | The last dot may lie in a directory: "dir.d/archive" becomes "dir.z01". |
| `Volume.VolumeNameShortExtension` | ioandroid.c:211-212 | A one-character extension cuts the suffix: "a.b" becomes "a.z". |
| `Volume.VolumeNameCollision` | ioandroid.c:211-212 | For "archive.zip", disk 99 and disk 9 get the same name, because the suffix is truncated. |
| `Volume.Snprintf` | ioandroid.c:211-212 | snprintf writes at most size - 1 characters of the text, then a NUL, and leaves the rest of the buffer alone. |
| `Volume.CopyString` | ioandroid.c:205 | strdup gives a fresh buffer holding the name and its terminator. |
| `Volume.FormatAtDot` | ioandroid.c:211-213 | After snprintf writes a NUL-free text at index i of the copied name, the buffer read as a C string, which is also the returned string, is the stem before i followed by what fits of the text. |
| `Volume.DiskFilename` | ioandroid.c:205-214 | The backward scan finds an index exactly when the name has a dot, and that index is the last dot. The buffer then reads as `VolumeName`. |
| `IoAndroid.ModeToFlags` | ioandroid.c:149-155 | No flags exactly when the mode has no read intent and neither EXISTING nor CREATE. Flags always include large-file. Create always comes with truncate and write-only. |
| `IoAndroid.ModePriority` | ioandroid.c:149-155 | Read intent wins over EXISTING and CREATE, and EXISTING wins over CREATE. |
| `IoAndroid.ModeLowBits` | ioandroid.c:149-155 | Only the four low mode bits matter. |
| `IoAndroid.MinizipModes` | ioandroid.c:149-155 | READ with EXISTING (reading an archive) gives read-only; READ, WRITE and EXISTING (appending) gives read-write; READ, WRITE and CREATE, and WRITE with CREATE (creating) give write/create/truncate. WRITE alone gives no flags. |
| `IoAndroid.FileBuild` | ioandroid.c:107-122 | No handle for a negative descriptor. Otherwise the handle records the descriptor, the name, strlen + 1 and the ownership flag. |
| `IoAndroid.HasAdoptPrefix` | ioandroid.c:160-162 | The strncmp test: the name starts with `/proc/self/fd/`. |
| `IoAndroid.OpenRoute` | ioandroid.c:149-186 | A NULL name or no flags rejects. Adoption needs the `/proc/self/fd/` prefix and an `int`. Other names are opened with the translated flags. |
| `IoAndroid.DescriptorPathRoute` | ioandroid.c:157-166 | `/proc/self/fd/` plus the decimal form of n adopts n exactly when n is an `int`; otherwise it rejects. |
| `IoAndroid.MalformedDescriptorPaths` | ioandroid.c:160-166 | The prefix alone, or a number followed by a non-digit, is rejected. |
| `IoAndroid.DescriptorPathLeadingSpace` | ioandroid.c:162-164 | White space before the descriptor number does not change the route. |
| `IoAndroid.OpenSpec` | ioandroid.c:142-190 | Relation between the world before and after open64 and its result: which route is taken, what is registered or opened, and which handle comes back. |
| `IoAndroid.Open64` | ioandroid.c:142-190 | A rejected route returns NULL and changes nothing. An adoption succeeds only for an open, unregistered descriptor with registry room: it gives a non-owning handle and registers the descriptor once; otherwise NULL and nothing changes. Other paths make one open64 call; a negative result gives NULL, success gives an owning handle for the new descriptor. The registry's buffer afterwards is the old one or a freshly allocated one, so a caller can go on making calls. |
| `IoAndroid.OpenDiskSpec` | ioandroid.c:192-222 | Relation for opendisk64: NULL and no change without a stream or a dot; otherwise `OpenSpec` on the `VolumeName` of the stream's name. |
| `IoAndroid.OpenDisk64` | ioandroid.c:192-222 | A NULL stream, or a name without a dot, gives NULL with nothing opened. Otherwise the call behaves as `Open64` on the derived volume name. The registry's buffer afterwards is the old one or a freshly allocated one, so a caller can go on making calls. |
| `IoAndroid.SeekWhence` | ioandroid.c:281-293 | SEEK_SET, SEEK_CUR and SEEK_END map to a whence; every other origin gives none. |
| `IoAndroid.SeekWhenceOriginOf` | ioandroid.c:281-293 | Origins and whence values correspond one to one. |
| `IoAndroid.ToOff64` | ioandroid.c:295 | The unsigned 64-bit offset is reinterpreted as off64_t: same value mod 2^64, negative from 2^63 on. |
| `IoAndroid.Seek64` | ioandroid.c:268-300 | A NULL stream or an unknown origin returns -1 without calling lseek64. Otherwise there is exactly one lseek64 call on the stream's descriptor, and the result is 0, or -1 if lseek64 failed. |
| `IoAndroid.CloseSpec` | ioandroid.c:302-324 | Relation for close: -1 for NULL; an owning stream's descriptor leaves the open set and close's status is returned; an adopted stream's first registration is removed with the capacity given by `ShrinkCapacity`, and 0 is returned. |
| `IoAndroid.CloseFile` | ioandroid.c:302-324 | A NULL stream returns -1. An owning stream closes its descriptor and returns close's status. An adopted stream leaves the descriptor open, removes its first registration and returns 0. The registry's buffer afterwards is the old one or a freshly allocated one, so a caller can go on making calls. |
| `IoAndroid.ErrorFile` | ioandroid.c:326-330 | Always 0. |
| `Lifecycle.OpenKeepsConsistent` | ioandroid.c:167-186 | open64 keeps open descriptors non-negative, the registry duplicate-free, and the capacity above the size and 0 or a power of two. |
| `Lifecycle.OpenDiskKeepsConsistent` | ioandroid.c:192-222 | opendisk64 keeps the same invariant. |
| `Lifecycle.CloseKeepsConsistent` | ioandroid.c:302-324 | close keeps the same invariant. |
| `Lifecycle.OpenedHandle` | ioandroid.c:180-186 | A returned handle is well formed and names the path. It owns its descriptor exactly when the path lacks the `/proc/self/fd/` prefix. |
| `Lifecycle.PlainPathKeepsRegistry` | ioandroid.c:181-184 | A path without the prefix never changes the registry. |
| `Lifecycle.AdoptedIsRegistered` | ioandroid.c:167-180 | An adopted descriptor was open and unregistered before, and is registered after. Adoption opens nothing. |
| `Lifecycle.RegistrationSurvivesOpen` | ioandroid.c:142-190 | Any open64 keeps every registered descriptor registered. |
| `Lifecycle.RegistrationSurvivesOpenDisk` | ioandroid.c:192-222 | Any opendisk64 keeps every registered descriptor registered. |
| `Lifecycle.RegistrationSurvivesClose` | ioandroid.c:302-324 | Closing any stream other than an adopted stream of fd keeps fd registered: removing another descriptor's entry leaves fd's in place. |
| `Lifecycle.RegistrationKept` | ioandroid.c:167-180 | Through any run of open64, opendisk64 and close calls that does not close an adopted stream of fd, a registered fd stays registered. |
| `Lifecycle.SecondAdoptionFails` | ioandroid.c:171-174 | Adopting a registered descriptor returns NULL and changes nothing. |
| `Lifecycle.AdoptionExclusive` | ioandroid.c:167-180 | After a stream adopts fd, and through any later calls that do not close it, adopting fd again returns NULL and changes nothing. |
| `Lifecycle.AdoptedSurvivesClose` | ioandroid.c:317-321 | Closing an adopted stream returns 0, leaves the descriptor open and removes its registration. |
| `Lifecycle.OwnedReleasedOnClose` | ioandroid.c:317-318 | Closing an owning stream releases the descriptor and leaves the registry alone. |
| `Lifecycle.ReadoptAfterClose` | ioandroid.c:167-180 | After an adopted stream is closed, opening the same path again adopts the descriptor anew (given registry room). |
| `Lifecycle.NoVolumesOfDescriptorPath` | ioandroid.c:160-166 | Every name open64 adopts (the prefix, then white space, a sign and digits that `convert_to_int` accepts) has no dot, so opendisk64 on an adopted stream returns NULL and changes nothing. |
| `Lifecycle.VolumeHandleName` | ioandroid.c:205-218 | A volume opened by opendisk64 carries the derived name. That name keeps the stem and is never longer than the archive's name. |

## Left out

- `android_read_file_func`, `android_write_file_func` and `android_tell64_file_func` (ioandroid.c:224-266): they only forward to `read`, `write` and `lseek64`.
- `fill_android_filefunc64` (ioandroid.c:332-343): it only fills in minizip's table of callbacks.
- The `OPEN_FUNC` macro (ioandroid.c:12-16): open64 and open are both the one `Os.Open`.
- The real OS calls: `Os` stands in for them. `fd_is_valid` is membership in the open set, so an `fcntl` failure other than EBADF (which the code counts as valid) is not modelled.
- `malloc`, `strdup` and `free`: handles are values, and the copies of the name are the strings themselves. The unchecked `malloc` in `file_build_ioandroid` has no failure path.
- `OsModel.Os.Close`: close always releases the descriptor, as Linux and Android do even when close fails. POSIX leaves the descriptor's state unspecified after close fails with EINTR, and on a system that keeps it open `Lifecycle.OwnedReleasedOnClose` would not hold.
- Thread safety: the registry has no synchronisation and the model is sequential.
- `FdRegistry.FdList.AddFd`: realloc is modelled as a fresh array that copies the old contents, so aliasing of the old buffer is not captured. `new_capacity * sizeof(int)` and `<< 1` overflowing `size_t` are not modelled.
- `IoAndroid.ModeToFlags`: flags are symbolic (`OpenFlags`). Each branch's flags are assumed non-zero. On a platform where `O_LARGEFILE | O_RDONLY` is 0, a read open would be refused.
- `IoAndroid.OpenDisk64`: it requires `numberDisk < INT_MAX`, because `number_disk + 1` overflows otherwise (undefined behaviour in C).
- `IoAndroid.FileBuild`: `strlen(filename) + 1` is stored in an `int`; names longer than `INT_MAX - 1` are not modelled.
- File names are byte sequences: one element of a `string` stands for one C `char`, and encodings are not interpreted.
- The numeric values of `O_*` flags and of `ZLIB_FILEFUNC_*` constants: the latter are the stock minizip values, used as stand-ins.
