/** The operating system as the adapter sees it: a set of open descriptors
    and a record of the `open64` and `lseek64` calls made. What the OS returns
    is chosen nondeterministically. For `open` this allows more than POSIX
    does: any descriptor that is not open may come back, not only the lowest
    one. `close` always releases the descriptor, even when it reports
    failure, as on Linux and Android; POSIX leaves the descriptor's state
    unspecified after a close interrupted by a signal. */
module OsModel {

  /** The `whence` argument of lseek. */
  datatype Whence = SeekSet | SeekCur | SeekEnd

  datatype Access = ReadOnly | WriteOnly | ReadWrite

  /** The flags argument of open: O_LARGEFILE, the access mode, O_CREAT, O_TRUNC. */
  datatype OpenFlags = OpenFlags(largeFile: bool, access: Access, create: bool, truncate: bool)

  /** Permission bits passed on create: 0666, read and write for everyone. */
  const CreatePermissions: int := 0x1B6

  datatype OpenCall = OpenCall(path: string, flags: OpenFlags, permissions: int)

  /** One lseek64 call and the offset (or -1) it returned. */
  datatype SeekCall = SeekCall(fd: int, offset: int, whence: Whence, result: int)

  /** What open may return: a descriptor that was not open, or -1. */
  predicate OpenMayReturn(fd: int, openFds: set<int>) {
    fd == -1 || (fd >= 0 && fd !in openFds)
  }

  /** What close may return: -1 always may (EBADF, EIO, ...), 0 only for an
      open descriptor. */
  predicate CloseMayReturn(status: int, fd: int, openFds: set<int>) {
    status == -1 || (status == 0 && fd in openFds)
  }

  /** What lseek may return: -1, or a new offset for an open descriptor. */
  predicate SeekMayReturn(result: int, fd: int, openFds: set<int>) {
    result == -1 || (result >= 0 && fd in openFds)
  }

  class Os {
    var openFds: set<int>
    var opens: seq<OpenCall>
    var seeks: seq<SeekCall>

    ghost predicate Valid()
      reads this
    {
      forall fd :: fd in openFds ==> fd >= 0
    }

    constructor (fds: set<int>)
      requires forall fd :: fd in fds ==> fd >= 0
      ensures Valid() && openFds == fds && opens == [] && seeks == []
    {
      openFds, opens, seeks := fds, [], [];
    }

    /** fd_is_valid(fd): whether fcntl(fd, F_GETFD) finds fd open. */
    predicate IsValidFd(fd: int)
      reads this
    {
      fd in openFds
    }

    /** open64(path, flags, permissions): a descriptor not open before, or -1. */
    method Open(path: string, flags: OpenFlags, permissions: int) returns (fd: int)
      requires Valid()
      modifies this
      ensures Valid() && seeks == old(seeks)
      ensures opens == old(opens) + [OpenCall(path, flags, permissions)]
      ensures fd < 0 ==> fd == -1 && openFds == old(openFds)
      ensures fd >= 0 ==> fd !in old(openFds) && openFds == old(openFds) + {fd}
    {
      assert OpenMayReturn(-1, openFds);
      var chosen :| OpenMayReturn(chosen, openFds);
      assert OpenMayReturn(chosen, openFds);
      fd := chosen;
      if fd >= 0 {
        openFds := openFds + {fd};
      }
      opens := opens + [OpenCall(path, flags, permissions)];
    }

    /** close(fd): the descriptor is released whatever status is reported;
        closing a descriptor that is not open fails with EBADF. */
    method Close(fd: int) returns (status: int)
      requires Valid()
      modifies this
      ensures Valid() && opens == old(opens) && seeks == old(seeks)
      ensures openFds == old(openFds) - {fd}
      ensures status == 0 || status == -1
      ensures fd !in old(openFds) ==> status == -1
    {
      assert CloseMayReturn(-1, fd, openFds);
      var chosen :| CloseMayReturn(chosen, fd, openFds);
      assert CloseMayReturn(chosen, fd, openFds);
      status := chosen;
      openFds := openFds - {fd};
    }

    /** lseek64(fd, offset, whence): a new offset, or -1. Open descriptors
        stay open. */
    method Lseek64(fd: int, offset: int, whence: Whence) returns (result: int)
      requires Valid()
      modifies this
      ensures Valid() && openFds == old(openFds) && opens == old(opens)
      ensures result == -1 || (result >= 0 && fd in openFds)
      ensures seeks == old(seeks) + [SeekCall(fd, offset, whence, result)]
    {
      assert SeekMayReturn(-1, fd, openFds);
      var chosen :| SeekMayReturn(chosen, fd, openFds);
      assert SeekMayReturn(chosen, fd, openFds);
      result := chosen;
      seeks := seeks + [SeekCall(fd, offset, whence, result)];
    }
  }
}
