/** Properties of the callbacks over whole sequences of calls: the registry
    stays consistent, a descriptor is adopted at most once at a time, adopted
    descriptors outlive their streams and owned ones do not. */
module Lifecycle {
  import opened Wrappers
  import opened CTypes
  import opened Strtol
  import opened FdRegistry
  import opened OsModel
  import opened Volume
  import opened IoAndroid

  /** open64 keeps the registry consistent. */
  lemma OpenKeepsConsistent(w: World, filename: Option<string>, mode: bv32, reallocOk: bool,
                            w2: World, h: Option<Handle>)
    requires Consistent(w) && OpenSpec(w, filename, mode, reallocOk, w2, h)
    ensures Consistent(w2)
  {
    match OpenRoute(filename, mode)
    case Rejected =>
    case OpenPath(_) =>
    case Adopt(fd) =>
      if h.Some? {
        AppendUnique(w.registered, fd);
        GrowKeepsShape(w.capacity, |w.registered|);
      }
  }

  /** opendisk64 keeps the registry consistent. */
  lemma OpenDiskKeepsConsistent(w: World, stream: Option<Handle>, numberDisk: int, mode: bv32,
                                reallocOk: bool, w2: World, h: Option<Handle>)
    requires Consistent(w) && OpenDiskSpec(w, stream, numberDisk, mode, reallocOk, w2, h)
    ensures Consistent(w2)
  {
    if stream.Some? && VolumeName(stream.value.filename, numberDisk).Some? {
      OpenKeepsConsistent(w, VolumeName(stream.value.filename, numberDisk), mode, reallocOk, w2, h);
    }
  }

  /** close keeps the registry consistent. */
  lemma CloseKeepsConsistent(w: World, stream: Option<Handle>, reallocOk: bool, w2: World, r: int)
    requires Consistent(w) && CloseSpec(w, stream, reallocOk, w2, r)
    ensures Consistent(w2)
  {
    if stream.Some? && !stream.value.shouldClose && stream.value.fd in w.registered {
      var s := w.registered;
      var fd := stream.value.fd;
      RemoveFirstUnique(s, fd);
      RemoveFirstMultiset(s, fd);
      assert |RemoveFirst(s, fd)| == |multiset(RemoveFirst(s, fd))| == |s| - 1;
      ShrinkKeepsShape(w.capacity, |s| - 1, reallocOk);
    }
  }

  /** A handle open64 returns describes the name it was given, and it owns its
      descriptor exactly when the name is not a /proc/self/fd/ path. */
  lemma {:induction false} OpenedHandle(w: World, filename: Option<string>, mode: bv32,
                                        reallocOk: bool, w2: World, h: Option<Handle>)
    requires Consistent(w) && (filename.Some? ==> NoNul(filename.value))
    requires OpenSpec(w, filename, mode, reallocOk, w2, h) && h.Some?
    ensures filename.Some? && h.value.Valid() && h.value.filename == filename.value
    ensures h.value.shouldClose <==> !HasAdoptPrefix(filename.value)
  {
    match OpenRoute(filename, mode)
    case Adopt(fd) =>
      assert fd in w.openFds;
    case OpenPath(_) =>
  }

  /** A plain path never changes the registry, whatever open64 returns. */
  lemma PlainPathKeepsRegistry(w: World, name: string, mode: bv32, reallocOk: bool,
                               w2: World, h: Option<Handle>)
    requires !HasAdoptPrefix(name) && OpenSpec(w, Some(name), mode, reallocOk, w2, h)
    ensures w2.registered == w.registered && w2.capacity == w.capacity
  {
  }

  /** An adopted descriptor is registered, was already open, and adoption
      opens nothing. */
  lemma AdoptedIsRegistered(w: World, filename: Option<string>, mode: bv32, reallocOk: bool,
                            w2: World, h: Option<Handle>)
    requires OpenSpec(w, filename, mode, reallocOk, w2, h) && h.Some? && !h.value.shouldClose
    ensures h.value.fd in w2.registered && h.value.fd !in w.registered
    ensures h.value.fd in w.openFds && w2.openFds == w.openFds && w2.opens == w.opens
  {
    match OpenRoute(filename, mode)
    case Adopt(fd) =>
      assert w2.registered == w.registered + [fd];
    case OpenPath(_) =>
  }

  /** A registered descriptor stays registered across any open64. */
  lemma RegistrationSurvivesOpen(w: World, fd: int, filename: Option<string>, mode: bv32,
                                 reallocOk: bool, w2: World, h: Option<Handle>)
    requires fd in w.registered && OpenSpec(w, filename, mode, reallocOk, w2, h)
    ensures fd in w2.registered
  {
  }

  /** ... and across any opendisk64. */
  lemma RegistrationSurvivesOpenDisk(w: World, fd: int, stream: Option<Handle>, numberDisk: int,
                                     mode: bv32, reallocOk: bool, w2: World, h: Option<Handle>)
    requires fd in w.registered && OpenDiskSpec(w, stream, numberDisk, mode, reallocOk, w2, h)
    ensures fd in w2.registered
  {
  }

  /** ... and across the close of any stream other than an adopted stream of fd. */
  lemma RegistrationSurvivesClose(w: World, fd: int, stream: Option<Handle>, reallocOk: bool,
                                  w2: World, r: int)
    requires fd in w.registered && CloseSpec(w, stream, reallocOk, w2, r)
    requires stream.Some? && !stream.value.shouldClose ==> stream.value.fd != fd
    ensures fd in w2.registered
  {
    if stream.Some? && !stream.value.shouldClose && stream.value.fd in w.registered {
      var x := stream.value.fd;
      RemoveFirstMultiset(w.registered, x);
      assert fd in multiset(w.registered);
      assert fd in multiset(RemoveFirst(w.registered, x));
    }
  }

  /** One call of a callback between two worlds, with the values the OS and
      realloc chose. */
  datatype Callback =
    | OpenFile(filename: Option<string>, mode: bv32, reallocOk: bool, h: Option<Handle>)
    | OpenDisk(stream: Option<Handle>, numberDisk: int, mode: bv32, reallocOk: bool, h: Option<Handle>)
    | CloseStream(stream: Option<Handle>, reallocOk: bool, r: int)

  predicate Step(w: World, c: Callback, w2: World) {
    match c
    case OpenFile(filename, mode, ok, h) => OpenSpec(w, filename, mode, ok, w2, h)
    case OpenDisk(stream, n, mode, ok, h) => OpenDiskSpec(w, stream, n, mode, ok, w2, h)
    case CloseStream(stream, ok, r) => CloseSpec(w, stream, ok, w2, r)
  }

  /** ws[i + 1] is the world after calls[i] on ws[i]. */
  predicate Run(ws: seq<World>, calls: seq<Callback>) {
    |ws| == |calls| + 1 && forall i :: 0 <= i < |calls| ==> Step(ws[i], calls[i], ws[i + 1])
  }

  /** Whether a call closes an adopted stream of fd. */
  predicate ReleasesFd(c: Callback, fd: int) {
    c.CloseStream? && c.stream.Some? && !c.stream.value.shouldClose && c.stream.value.fd == fd
  }

  /** Once registered, a descriptor stays registered through any run of calls
      that does not close an adopted stream of it. */
  lemma {:induction false} RegistrationKept(ws: seq<World>, calls: seq<Callback>, fd: int)
    requires Run(ws, calls) && fd in ws[0].registered
    requires forall i :: 0 <= i < |calls| ==> !ReleasesFd(calls[i], fd)
    ensures fd in ws[|calls|].registered
  {
    if |calls| > 0 {
      var n := |calls| - 1;
      assert Run(ws[..n + 1], calls[..n]) by {
        forall i | 0 <= i < n ensures Step(ws[..n + 1][i], calls[..n][i], ws[..n + 1][i + 1]) {
          assert Step(ws[i], calls[i], ws[i + 1]);
        }
      }
      assert forall i :: 0 <= i < n ==> !ReleasesFd(calls[..n][i], fd) by {
        forall i | 0 <= i < n ensures !ReleasesFd(calls[..n][i], fd) {
          assert calls[..n][i] == calls[i];
        }
      }
      RegistrationKept(ws[..n + 1], calls[..n], fd);
      assert Step(ws[n], calls[n], ws[n + 1]) && !ReleasesFd(calls[n], fd);
      match calls[n]
      case OpenFile(filename, mode, ok, h) =>
        RegistrationSurvivesOpen(ws[n], fd, filename, mode, ok, ws[n + 1], h);
      case OpenDisk(stream, k, mode, ok, h) =>
        RegistrationSurvivesOpenDisk(ws[n], fd, stream, k, mode, ok, ws[n + 1], h);
      case CloseStream(stream, ok, r) =>
        RegistrationSurvivesClose(ws[n], fd, stream, ok, ws[n + 1], r);
    }
  }

  /** Adopting a registered descriptor fails and changes nothing. */
  lemma SecondAdoptionFails(w: World, fd: int, filename: Option<string>, mode: bv32,
                            reallocOk: bool, w2: World, h: Option<Handle>)
    requires fd in w.registered
    requires OpenRoute(filename, mode) == Adopt(fd)
    requires OpenSpec(w, filename, mode, reallocOk, w2, h)
    ensures h.None? && w2 == w
  {
  }

  /** While a stream holds an adopted descriptor, that is after its adoption
      and through any calls that do not close it, adopting it again fails and
      changes nothing. */
  lemma AdoptionExclusive(ws: seq<World>, calls: seq<Callback>, fd: int,
                          filename: Option<string>, mode: bv32, reallocOk: bool,
                          w2: World, h: Option<Handle>)
    requires Run(ws, calls) && |calls| > 0
    requires calls[0].OpenFile? && calls[0].h.Some? && !calls[0].h.value.shouldClose
    requires fd == calls[0].h.value.fd
    requires forall i :: 0 < i < |calls| ==> !ReleasesFd(calls[i], fd)
    requires OpenRoute(filename, mode) == Adopt(fd)
    requires OpenSpec(ws[|calls|], filename, mode, reallocOk, w2, h)
    ensures h.None? && w2 == ws[|calls|]
  {
    assert Step(ws[0], calls[0], ws[1]);
    AdoptedIsRegistered(ws[0], calls[0].filename, calls[0].mode, calls[0].reallocOk, ws[1], calls[0].h);
    var rest := calls[1..];
    assert Run(ws[1..], rest) by {
      forall i | 0 <= i < |rest| ensures Step(ws[1..][i], rest[i], ws[1..][i + 1]) {
        assert Step(ws[i + 1], calls[i + 1], ws[i + 2]);
      }
    }
    assert forall i :: 0 <= i < |rest| ==> !ReleasesFd(rest[i], fd) by {
      forall i | 0 <= i < |rest| ensures !ReleasesFd(rest[i], fd) {
        assert rest[i] == calls[i + 1];
      }
    }
    RegistrationKept(ws[1..], rest, fd);
    assert ws[1..][|rest|] == ws[|calls|];
    SecondAdoptionFails(ws[|calls|], fd, filename, mode, reallocOk, w2, h);
  }

  /** Closing an adopted stream reports success, leaves the descriptor open
      and unregisters it. */
  lemma AdoptedSurvivesClose(w: World, h: Handle, reallocOk: bool, w2: World, r: int)
    requires Consistent(w) && h.fd in w.registered && !h.shouldClose
    requires CloseSpec(w, Some(h), reallocOk, w2, r)
    ensures r == 0 && w2.openFds == w.openFds && h.fd !in w2.registered
  {
    RemoveFirstUnique(w.registered, h.fd);
  }

  /** Closing an owned stream releases its descriptor and leaves the registry
      alone. */
  lemma OwnedReleasedOnClose(w: World, h: Handle, reallocOk: bool, w2: World, r: int)
    requires h.shouldClose && CloseSpec(w, Some(h), reallocOk, w2, r)
    ensures h.fd !in w2.openFds && w2.registered == w.registered && w2.capacity == w.capacity
  {
  }

  /** Adopt, close, adopt again: once its stream is closed the descriptor can
      be adopted anew (given room in the registry). */
  lemma {:induction false} ReadoptAfterClose(w: World, name: string, mode: bv32, ok1: bool,
                                             w2: World, h: Option<Handle>,
                                             ok2: bool, w3: World, r: int,
                                             ok3: bool, w4: World, h2: Option<Handle>)
    requires Consistent(w)
    requires OpenSpec(w, Some(name), mode, ok1, w2, h) && h.Some? && !h.value.shouldClose
    requires CloseSpec(w2, h, ok2, w3, r)
    requires OpenSpec(w3, Some(name), mode, ok3, w4, h2) && RegistryRoom(w3, ok3)
    ensures h2 == h
  {
    AdoptedIsRegistered(w, Some(name), mode, ok1, w2, h);
    OpenKeepsConsistent(w, Some(name), mode, ok1, w2, h);
    AdoptedSurvivesClose(w2, h.value, ok2, w3, r);
  }

  /** A name that open64 adopts (the prefix, then anything convert_to_int
      accepts: white space, a sign, digits) has no dot, so no sibling volume
      is ever derived from an adopted stream: opendisk64 returns NULL and
      changes nothing. */
  lemma NoVolumesOfDescriptorPath(w: World, h: Handle, openMode: bv32, numberDisk: int, mode: bv32,
                                  reallocOk: bool, w2: World, h2: Option<Handle>)
    requires OpenRoute(Some(h.filename), openMode).Adopt?
    requires OpenDiskSpec(w, Some(h), numberDisk, mode, reallocOk, w2, h2)
    ensures h2.None? && w2 == w
  {
    AdoptedNameHasNoDot(h.filename, openMode);
    VolumeNameShape(h.filename, numberDisk);
  }

  lemma AdoptedNameHasNoDot(name: string, openMode: bv32)
    requires OpenRoute(Some(name), openMode).Adopt?
    ensures '.' !in name
  {
    var p := |ADOPT_PREFIX|;
    var rest := name[p..];
    assert ConvertToInt(rest, LP64).Some?;
    AcceptedChars(rest, LP64);
    forall k | 0 <= k < |name| ensures name[k] != '.' {
      if k >= p {
        assert name[k] == rest[k - p];
      } else {
        assert name[k] == ADOPT_PREFIX[k];
      }
    }
  }

  /** A volume opened by opendisk64 has the derived name: the stream's name up
      to its last dot, then the disk suffix, never longer than the original. */
  lemma VolumeHandleName(w: World, stream: Handle, numberDisk: int, mode: bv32,
                         reallocOk: bool, w2: World, h: Option<Handle>)
    requires Consistent(w) && stream.Valid()
    requires OpenDiskSpec(w, Some(stream), numberDisk, mode, reallocOk, w2, h) && h.Some?
    ensures VolumeName(stream.filename, numberDisk) == Some(h.value.filename)
    ensures |h.value.filename| <= |stream.filename|
    ensures h.value.filename[..LastDot(stream.filename).value]
              == stream.filename[..LastDot(stream.filename).value]
  {
    var name := VolumeName(stream.filename, numberDisk);
    VolumeNameShape(stream.filename, numberDisk);
    assert name.Some?;
    var i := LastDot(stream.filename).value;
    assert NoNul(name.value) by {
      assert NoNul(stream.filename[..i]) by { assert forall k :: 0 <= k < i ==> stream.filename[..i][k] == stream.filename[k]; }
      VolumeSuffixChars(numberDisk + 1);
    }
    OpenedHandle(w, name, mode, reallocOk, w2, h);
  }
}
