/** The minizip file-function callbacks of ioandroid.c: opening a path (or
    adopting a descriptor named `/proc/self/fd/<N>`), opening a sibling volume
    of a split archive, seeking, closing and reporting errors. The process
    state they touch is a `World`: the adopted-descriptor registry and the
    operating system's open descriptors and call logs. */
module IoAndroid {
  import opened Wrappers
  import opened CTypes
  import opened Strtol
  import opened FdRegistry
  import opened OsModel
  import opened Volume

  // ---------------------------------------------------------------------------
  // Open modes (ZLIB_FILEFUNC_MODE_* of minizip's ioapi.h)

  const MODE_READ: bv32 := 1
  const MODE_WRITE: bv32 := 2
  const MODE_READWRITEFILTER: bv32 := 3
  const MODE_EXISTING: bv32 := 4
  const MODE_CREATE: bv32 := 8

  /** O_LARGEFILE | O_RDONLY */
  const ReadFlags := OpenFlags(true, ReadOnly, false, false)
  /** O_LARGEFILE | O_RDWR */
  const ExistingFlags := OpenFlags(true, ReadWrite, false, false)
  /** O_LARGEFILE | O_WRONLY | O_CREAT | O_TRUNC */
  const CreateFlags := OpenFlags(true, WriteOnly, true, true)

  /** The open flags for a minizip mode: read intent first, then "existing",
      then "create"; None when the mode asks for none of them (flags stay 0
      and nothing is opened). */
  function ModeToFlags(mode: bv32): (r: Option<OpenFlags>)
    ensures r.Some? ==> r.value.largeFile
    ensures r.Some? && r.value.create ==> r.value.truncate && r.value.access == WriteOnly
    ensures r.None? <==> mode & MODE_READWRITEFILTER != MODE_READ && mode & (MODE_EXISTING | MODE_CREATE) == 0
  {
    if mode & MODE_READWRITEFILTER == MODE_READ then Some(ReadFlags)
    else if mode & MODE_EXISTING != 0 then Some(ExistingFlags)
    else if mode & MODE_CREATE != 0 then Some(CreateFlags)
    else None
  }

  /** Read intent wins over the other bits, and "existing" wins over "create":
      adding EXISTING or CREATE to a read mode still opens read-only, and adding
      CREATE to an "existing" mode still opens read-write without truncating. */
  lemma ModePriority(mode: bv32)
    ensures mode & MODE_READWRITEFILTER == MODE_READ ==>
              ModeToFlags(mode | MODE_EXISTING | MODE_CREATE) == Some(ReadFlags)
    ensures mode & MODE_READWRITEFILTER != MODE_READ ==>
              ModeToFlags(mode | MODE_EXISTING) == Some(ExistingFlags)
              && ModeToFlags(mode | MODE_EXISTING | MODE_CREATE) == Some(ExistingFlags)
    ensures mode & MODE_READWRITEFILTER != MODE_READ && mode & MODE_EXISTING == 0 ==>
              ModeToFlags(mode | MODE_CREATE) == Some(CreateFlags)
  {
  }

  /** Only the four low bits matter. */
  lemma ModeLowBits(mode: bv32)
    ensures ModeToFlags(mode) == ModeToFlags(mode & 0xF)
  {
  }

  /** The modes minizip passes: reading an archive (READ | EXISTING), appending
      to one (READ | WRITE | EXISTING), creating one (READ | WRITE | CREATE, or
      WRITE | CREATE); WRITE alone opens nothing. */
  lemma MinizipModes()
    ensures ModeToFlags(MODE_READ | MODE_EXISTING) == Some(ReadFlags)
    ensures ModeToFlags(MODE_EXISTING | MODE_WRITE | MODE_READ) == Some(ExistingFlags)
    ensures ModeToFlags(MODE_READ | MODE_WRITE | MODE_CREATE) == Some(CreateFlags)
    ensures ModeToFlags(MODE_WRITE | MODE_CREATE) == Some(CreateFlags)
    ensures ModeToFlags(MODE_WRITE) == None
  {
  }

  // ---------------------------------------------------------------------------
  // Handles (FILE_IOANDROID)

  /** An open stream: the descriptor, strlen(filename) + 1, a copy of the
      name, and whether closing the stream closes the descriptor. */
  datatype Handle = Handle(fd: int, filenameLength: int, filename: string, shouldClose: bool)
  {
    predicate Valid() {
      fd >= 0 && NoNul(filename) && filenameLength == |filename| + 1
    }
  }

  /** file_build_ioandroid: no handle for a negative descriptor; otherwise one
      that records the name with the length of its C string. */
  function FileBuild(fd: int, filename: string, shouldClose: bool): (r: Option<Handle>)
    requires NoNul(filename)
    ensures r.None? <==> fd < 0
    ensures r.Some? ==> r.value.Valid()
    ensures r.Some? ==> r.value.fd == fd && r.value.filename == filename && r.value.shouldClose == shouldClose
  {
    if fd < 0 then None else Some(Handle(fd, |filename| + 1, filename, shouldClose))
  }

  // ---------------------------------------------------------------------------
  // Which way open64 goes

  const ADOPT_PREFIX: string := "/proc/self/fd/"

  /** strncmp(name, prefix, strlen(prefix)) == 0 on a C string. */
  predicate HasAdoptPrefix(name: string) {
    |name| >= |ADOPT_PREFIX| && name[..|ADOPT_PREFIX|] == ADOPT_PREFIX
  }

  datatype Route =
    | Rejected             // NULL name, no flags, or an unparsable descriptor number
    | Adopt(fd: int)       // a /proc/self/fd/<fd> name
    | OpenPath(flags: OpenFlags)

  /** The decision android_open64_file_func takes before touching any state. */
  function OpenRoute(filename: Option<string>, mode: bv32): (r: Route)
    ensures r.Adopt? ==> filename.Some? && HasAdoptPrefix(filename.value) && IsInt(r.fd)
    ensures r.OpenPath? ==> filename.Some? && !HasAdoptPrefix(filename.value) && ModeToFlags(mode) == Some(r.flags)
    ensures filename.None? || ModeToFlags(mode).None? ==> r.Rejected?
  {
    if filename.None? || ModeToFlags(mode).None? then Rejected
    else if HasAdoptPrefix(filename.value) then
      match ConvertToInt(filename.value[|ADOPT_PREFIX|..], LP64)
      case None => Rejected
      case Some(fd) => Adopt(fd)
    else OpenPath(ModeToFlags(mode).value)
  }

  /** `/proc/self/fd/` followed by the decimal form of an `int` adopts exactly
      that descriptor; a number outside `int` is rejected. */
  lemma DescriptorPathRoute(fd: int, mode: bv32)
    requires ModeToFlags(mode).Some?
    ensures OpenRoute(Some(ADOPT_PREFIX + DecimalString(fd)), mode)
              == if IsInt(fd) then Adopt(fd) else Rejected
  {
    var name := ADOPT_PREFIX + DecimalString(fd);
    assert name[..|ADOPT_PREFIX|] == ADOPT_PREFIX;
    assert name[|ADOPT_PREFIX|..] == DecimalString(fd);
    ConvertToIntOfDecimal(fd, LP64);
  }

  /** The prefix alone, or a number followed by anything that is not a digit,
      is rejected: no file is opened for it. */
  lemma MalformedDescriptorPaths(digits: string, c: char, mode: bv32)
    requires !IsDigit(c)
    ensures OpenRoute(Some(ADOPT_PREFIX), mode) == Rejected
    ensures OpenRoute(Some(ADOPT_PREFIX + digits + [c]), mode) == Rejected
  {
    assert ADOPT_PREFIX[|ADOPT_PREFIX|..] == [];
    var name := ADOPT_PREFIX + digits + [c];
    assert name[..|ADOPT_PREFIX|] == ADOPT_PREFIX;
    assert name[|ADOPT_PREFIX|..] == digits + [c];
    ConvertToIntTrailing(digits, c, LP64);
  }

  /** strtol skips white space, so a descriptor number may be preceded by it:
      `/proc/self/fd/ 7` routes like `/proc/self/fd/7`. */
  lemma DescriptorPathLeadingSpace(c: char, rest: string, mode: bv32)
    requires IsSpace(c)
    ensures OpenRoute(Some(ADOPT_PREFIX + [c] + rest), mode) == OpenRoute(Some(ADOPT_PREFIX + rest), mode)
  {
    var p := |ADOPT_PREFIX|;
    var spaced := ADOPT_PREFIX + [c] + rest;
    var plain := ADOPT_PREFIX + rest;
    assert spaced[..p] == ADOPT_PREFIX && plain[..p] == ADOPT_PREFIX;
    assert spaced[p..] == [c] + rest && plain[p..] == rest;
    ConvertToIntLeadingSpace(c, rest, LP64);
  }

  // ---------------------------------------------------------------------------
  // The state the callbacks act on

  datatype World = World(
    registered: seq<int>,      // fd_list[..fd_list_size]
    capacity: nat,             // fd_list_capacity
    openFds: set<int>,         // descriptors open in the process
    opens: seq<OpenCall>,      // open64 calls made
    seeks: seq<SeekCall>)      // lseek64 calls made

  ghost function WorldOf(reg: FdList, os: Os): World
    reads reg, reg.list, os
    requires reg.Valid()
  {
    World(reg.Contents(), reg.capacity, os.openFds, os.opens, os.seeks)
  }

  /** What holds between calls: descriptors are non-negative, the registry
      has no descriptor twice, and its capacity holds all entries and is 0 or
      a power of two. */
  predicate Consistent(w: World) {
    && (forall fd :: fd in w.openFds ==> fd >= 0)
    && Unique(w.registered) && |w.registered| <= w.capacity && CapacityShape(w.capacity)
  }

  /** Whether add_fd succeeds: there is a free slot or the growth succeeds. */
  predicate RegistryRoom(w: World, reallocOk: bool) {
    |w.registered| != w.capacity || reallocOk
  }

  /** android_open64_file_func, from world w to world w2 with result h. */
  predicate OpenSpec(w: World, filename: Option<string>, mode: bv32, reallocOk: bool,
                     w2: World, h: Option<Handle>)
  {
    match OpenRoute(filename, mode)
    case Rejected => h.None? && w2 == w
    case Adopt(fd) =>
      if fd in w.openFds && fd !in w.registered && RegistryRoom(w, reallocOk) then
        h == Some(Handle(fd, |filename.value| + 1, filename.value, false))
        && w2 == w.(registered := w.registered + [fd],
                    capacity := GrowCapacity(w.capacity, |w.registered|))
      else h.None? && w2 == w
    case OpenPath(flags) =>
      && w2.registered == w.registered && w2.capacity == w.capacity && w2.seeks == w.seeks
      && w2.opens == w.opens + [OpenCall(filename.value, flags, CreatePermissions)]
      && (h.None? ==> w2.openFds == w.openFds)
      && (h.Some? ==> h == Some(Handle(h.value.fd, |filename.value| + 1, filename.value, true))
                      && h.value.fd >= 0 && h.value.fd !in w.openFds
                      && w2.openFds == w.openFds + {h.value.fd})
  }

  /** android_open64_file_func. */
  method Open64(reg: FdList, os: Os, filename: Option<string>, mode: bv32, reallocOk: bool)
    returns (h: Option<Handle>)
    requires reg.Valid() && os.Valid()
    requires filename.Some? ==> NoNul(filename.value)
    modifies reg, reg.list, os
    ensures reg.Valid() && os.Valid()
    ensures reg.list == old(reg.list) || fresh(reg.list)
    ensures OpenSpec(old(WorldOf(reg, os)), filename, mode, reallocOk, WorldOf(reg, os), h)
  {
    var flags := ModeToFlags(mode);
    if filename.None? || flags.None? {
      return None;
    }
    var name := filename.value;
    if HasAdoptPrefix(name) {
      var parsed := ConvertToInt(name[|ADOPT_PREFIX|..], LP64);
      if parsed.None? {
        return None;
      }
      var fd := parsed.value;
      if !os.IsValidFd(fd) {
        return None;
      }
      var has := reg.HasFd(fd);
      if has != 0 {
        return None;
      }
      var added := reg.AddFd(fd, reallocOk);
      if added < 0 {
        return None;
      }
      h := FileBuild(fd, name, false);
    } else {
      var fd := os.Open(name, flags.value, CreatePermissions);
      h := FileBuild(fd, name, true);
    }
  }

  // ---------------------------------------------------------------------------
  // Sibling volumes

  /** android_opendisk64_file_func, from world w to world w2 with result h. */
  predicate OpenDiskSpec(w: World, stream: Option<Handle>, numberDisk: int, mode: bv32,
                         reallocOk: bool, w2: World, h: Option<Handle>)
  {
    if stream.None? then h.None? && w2 == w
    else match VolumeName(stream.value.filename, numberDisk)
      case None => h.None? && w2 == w
      case Some(name) => OpenSpec(w, Some(name), mode, reallocOk, w2, h)
  }

  /** android_opendisk64_file_func: derive the volume's name from the stream's
      and open it like any other name. */
  method OpenDisk64(reg: FdList, os: Os, stream: Option<Handle>, numberDisk: int, mode: bv32,
                    reallocOk: bool)
    returns (h: Option<Handle>)
    requires reg.Valid() && os.Valid()
    requires stream.Some? ==> stream.value.Valid()
    requires IsInt(numberDisk) && numberDisk < INT_MAX
    modifies reg, reg.list, os
    ensures reg.Valid() && os.Valid()
    ensures reg.list == old(reg.list) || fresh(reg.list)
    ensures OpenDiskSpec(old(WorldOf(reg, os)), stream, numberDisk, mode, reallocOk, WorldOf(reg, os), h)
  {
    if stream.None? {
      return None;
    }
    var s := stream.value;
    var i, diskFilename := DiskFilename(s.filename, s.filenameLength, numberDisk);
    h := None;
    if i >= 0 {
      h := Open64(reg, os, Some(diskFilename), mode, reallocOk);
    }
  }

  // ---------------------------------------------------------------------------
  // Seeking

  const ZLIB_SEEK_SET: int := 0
  const ZLIB_SEEK_CUR: int := 1
  const ZLIB_SEEK_END: int := 2

  /** The lseek whence for a minizip origin; None for any other value. */
  function SeekWhence(origin: int): (r: Option<Whence>)
    ensures r.None? <==> origin !in {ZLIB_SEEK_SET, ZLIB_SEEK_CUR, ZLIB_SEEK_END}
  {
    if origin == ZLIB_SEEK_CUR then Some(SeekCur)
    else if origin == ZLIB_SEEK_END then Some(SeekEnd)
    else if origin == ZLIB_SEEK_SET then Some(SeekSet)
    else None
  }

  /** The minizip origin that stands for a whence. */
  function OriginOf(whence: Whence): int {
    match whence
    case SeekSet => ZLIB_SEEK_SET
    case SeekCur => ZLIB_SEEK_CUR
    case SeekEnd => ZLIB_SEEK_END
  }

  /** Origins and whence values correspond one to one. */
  lemma SeekWhenceOriginOf(origin: int, whence: Whence)
    ensures SeekWhence(origin) == Some(whence) <==> origin == OriginOf(whence)
  {
  }

  const TWO_63: int := 0x8000_0000_0000_0000
  const TWO_64: int := 0x1_0000_0000_0000_0000

  /** A ZPOS64_T offset as the off64_t lseek64 receives: two's complement
      reinterpretation, so offsets from 2^63 on become negative. */
  function ToOff64(offset: nat): (r: int)
    requires offset < TWO_64
    ensures -TWO_63 <= r < TWO_63
    ensures r % TWO_64 == offset
    ensures r < 0 <==> offset >= TWO_63
  {
    if offset < TWO_63 then offset else offset - TWO_64
  }

  /** android_seek64_file_func: -1 for a NULL stream and for an unknown
      origin (without calling lseek64); otherwise one lseek64 call, and 0
      unless it failed. */
  method Seek64(os: Os, stream: Option<Handle>, offset: nat, origin: int) returns (r: int)
    requires os.Valid() && offset < TWO_64
    modifies os
    ensures os.Valid() && os.openFds == old(os.openFds) && os.opens == old(os.opens)
    ensures r == 0 || r == -1
    ensures stream.None? || SeekWhence(origin).None? ==> r == -1 && os.seeks == old(os.seeks)
    ensures stream.Some? && SeekWhence(origin).Some? ==>
              && |os.seeks| == |old(os.seeks)| + 1
              && os.seeks[..|old(os.seeks)|] == old(os.seeks)
              && var c := os.seeks[|old(os.seeks)|];
                 && c == SeekCall(stream.value.fd, ToOff64(offset), SeekWhence(origin).value, c.result)
                 && r == (if c.result < 0 then -1 else 0)
  {
    if stream.None? {
      return -1;
    }
    var whence := SeekWhence(origin);
    if whence.None? {
      return -1;
    }
    r := 0;
    var result := os.Lseek64(stream.value.fd, ToOff64(offset), whence.value);
    if result < 0 {
      r := -1;
    }
  }

  // ---------------------------------------------------------------------------
  // Closing and errors

  /** android_close_file_func, from world w to world w2 with result r. */
  predicate CloseSpec(w: World, stream: Option<Handle>, reallocOk: bool, w2: World, r: int) {
    if stream.None? then r == -1 && w2 == w
    else if stream.value.shouldClose then
      var fd := stream.value.fd;
      && w2 == w.(openFds := w.openFds - {fd})
      && (r == 0 || r == -1)
      && (fd !in w.openFds ==> r == -1)
    else
      var fd := stream.value.fd;
      && r == 0
      && (fd !in w.registered ==> w2 == w)
      && (fd in w.registered ==>
            w2 == w.(registered := RemoveFirst(w.registered, fd),
                     capacity := ShrinkCapacity(w.capacity, |w.registered| - 1, reallocOk)))
  }

  /** android_close_file_func: close an owned descriptor, or unregister an
      adopted one and leave it open; 0 unless close failed, -1 for NULL. */
  method CloseFile(reg: FdList, os: Os, stream: Option<Handle>, reallocOk: bool) returns (r: int)
    requires reg.Valid() && os.Valid()
    modifies reg, reg.list, os
    ensures reg.Valid() && os.Valid()
    ensures reg.list == old(reg.list) || fresh(reg.list)
    ensures CloseSpec(old(WorldOf(reg, os)), stream, reallocOk, WorldOf(reg, os), r)
  {
    if stream.None? {
      return -1;
    }
    var s := stream.value;
    r := 0;
    if s.shouldClose {
      r := os.Close(s.fd);
    } else {
      var removed := reg.RemoveFd(s.fd, reallocOk);
    }
  }

  /** android_error_file_func: errors are never reported. */
  function ErrorFile(stream: Option<Handle>): (r: int)
    ensures r == 0
  {
    0
  }
}
