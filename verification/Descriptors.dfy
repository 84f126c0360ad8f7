/**
 * File descriptors whose every system call may fail: the answers of the kernel are an arbitrary sequence, and
 * what was done to which descriptor is kept in a log.
 */
module Descriptors {
  import opened Bytes

  /** What an operation may raise; the last four come from outside, at any call. */
  datatype Exception = Domain | NotCommitted | NameUnavailable | OsFailure | Missing | Other | Interrupt

  /** The reported metadata of an object; `inode` stands for its device and inode numbers. */
  datatype Metadata = Metadata(
    regular: bool, directory: bool, links: nat, size: nat, inode: nat, modified: int, changed: int)

  /** The kernel's answer to one call: an exception, or values; `effect` says that a failing call acted all the same. */
  datatype Answer = Answer(raised: Option<Exception>, effect: bool, success: bool, retry: bool, meta: Metadata, digest: ByteString)

  /** Names are relative to the descriptor `at`; without one they start at the root of the tree. */
  datatype Event =
    | Opened(fd: nat, at: Option<nat>, name: ByteString)
    | OpenFailed(at: Option<nat>, name: ByteString)
    | Closed(fd: nat, failed: bool)
    | Inspected(fd: nat, meta: Metadata)
    | FilesystemChecked(fd: nat, isCgroup2: bool)
    | Copied(fd: nat, to: nat, digest: ByteString) // copying hashes what it reads
    | Hashed(fd: nat, digest: ByteString)
    | Synced(fd: nat)
    | PrimitiveLoaded(available: bool) // whether the linking primitive can be called at all
    | LinkRefused(fd: nat, parent: nat, name: ByteString)
    | LinkMade(fd: nat, parent: nat, name: ByteString)
    | NameInspected(parent: nat, name: ByteString, meta: Metadata)
    | DirectoryMade(parent: nat, name: ByteString)
    | RemovalTried(parent: nat, name: ByteString)

  /** What the kernel is asked. */
  datatype Call =
    | OpenCall(at: Option<nat>, name: ByteString)
    | CloseCall(fd: nat)
    | InspectCall(fd: nat)
    | FilesystemCall(fd: nat)
    | CopyCall(fd: nat, to: nat)
    | HashCall(fd: nat)
    | SyncCall(fd: nat)
    | PrimitiveCall
    | LinkCall(fd: nat, parent: nat, name: ByteString)
    | InspectNameCall(parent: nat, name: ByteString)
    | MakeDirectoryCall(parent: nat, name: ByteString)
    | RemoveDirectoryCall(parent: nat, name: ByteString)
    | OtherCall

  /** The kernel's behaviour: what it answers to a call after what has happened, at a given time. */
  type Behaviour = (seq<Event>, nat, Call) -> Answer

  /** The event mentions no descriptor that has not been opened yet. */
  predicate Known(e: Event, count: nat) {
    match e
    case Opened(fd, at, _) => fd < count && (at.Some? ==> at.value < fd)
    case OpenFailed(at, _) => at.Some? ==> at.value < count
    case Closed(fd, _) => fd < count
    case Inspected(fd, _) => fd < count
    case FilesystemChecked(fd, _) => fd < count
    case Copied(fd, to, _) => fd < count && to < count
    case Hashed(fd, _) => fd < count
    case Synced(fd) => fd < count
    case PrimitiveLoaded(_) => true
    case LinkRefused(fd, parent, _) => fd < count && parent < count
    case LinkMade(fd, parent, _) => fd < count && parent < count
    case NameInspected(parent, _, _) => parent < count
    case DirectoryMade(parent, _) => parent < count
    case RemovalTried(parent, _) => parent < count
  }

  /** `fd` was opened by walking the components one after another, each relative to the one before. */
  ghost predicate ReachedBy(log: seq<Event>, fd: nat, parts: seq<ByteString>)
    decreases |parts|
  {
    if parts == [] then Opened(fd, None, []) in log
    else exists at: nat | Opened(fd, Some(at), parts[|parts| - 1]) in log :: ReachedBy(log, at, parts[..|parts| - 1])
  }

  lemma {:induction false} ReachedLater(log: seq<Event>, later: seq<Event>, fd: nat, parts: seq<ByteString>)
    requires ReachedBy(log, fd, parts) && log <= later
    ensures ReachedBy(later, fd, parts)
    decreases |parts|
  {
    if parts != [] {
      var n := |parts| - 1;
      var at: nat :| Opened(fd, Some(at), parts[n]) in log && ReachedBy(log, at, parts[..n]);
      ReachedLater(log, later, at, parts[..n]);
    }
  }

  lemma AnchorReached(log: seq<Event>, fd: nat)
    requires Opened(fd, None, []) in log
    ensures ReachedBy(log, fd, [])
  {
  }

  lemma ReachedOneMore(log: seq<Event>, at: nat, fd: nat, parts: seq<ByteString>, n: nat)
    requires n < |parts| && ReachedBy(log, at, parts[..n]) && Opened(fd, Some(at), parts[n]) in log
    ensures ReachedBy(log, fd, parts[..n + 1])
  {
    assert parts[..n + 1][..n] == parts[..n];
  }

  /** The log has grown, and not by a link. */
  predicate NoLinks(before: seq<Event>, after: seq<Event>) {
    before <= after && forall i | |before| <= i < |after| :: !after[i].LinkMade?
  }

  ghost predicate Distinct(fds: seq<nat>) {
    forall i, j | 0 <= i < j < |fds| :: fds[i] != fds[j]
  }

  /** What an opening method leaves behind: one new descriptor, or exactly what was held before. */
  ghost predicate Owns(before: set<nat>, after: set<nat>, raised: Option<Exception>, fd: nat) {
    if raised.None? then fd !in before && after == before + {fd} else after == before
  }

  /** Descriptors are numbered as they are opened; `held` are open, `attempts` are the closes tried so far. */
  class Kernel {
    const answers: Behaviour
    var clock: nat
    var count: nat
    var log: seq<Event>
    ghost var held: set<nat>
    ghost var attempts: seq<nat>

    /** Every descriptor ever opened is either held or has had exactly one close attempt. */
    ghost predicate Valid()
      reads this
    {
      && Distinct(attempts)
      && (forall fd: nat :: fd in held || fd in attempts <==> fd < count)
      && (forall fd | fd in held :: fd !in attempts)
      && (forall e | e in log :: Known(e, count))
    }

    constructor (answers: Behaviour)
      ensures Valid() && held == {} && log == [] && this.answers == answers
    {
      this.answers := answers;
      clock, count, held, attempts, log := 0, 0, {}, [], [];
    }

    /** What the kernel would answer now. */
    function Next(call: Call): Answer
      reads this
    {
      answers(log, clock, call)
    }

    method Ask(call: Call) returns (a: Answer)
      modifies this`clock
      ensures a == old(Next(call))
    {
      a := answers(log, clock, call);
      clock := clock + 1;
    }

    method Open(at: Option<nat>, name: ByteString) returns (raised: Option<Exception>, fd: nat)
      requires Valid() && (at.Some? ==> at.value in held)
      modifies this
      ensures Valid() && Owns(old(held), held, raised, fd) && raised == old(Next(OpenCall(at, name))).raised
      ensures log == old(log) + [if raised.None? then Opened(fd, at, name) else OpenFailed(at, name)]
      ensures fd == old(count) && count == old(count) + (if raised.None? then 1 else 0)
    {
      var a := Ask(OpenCall(at, name));
      raised, fd := a.raised, count;
      log := log + [if raised.None? then Opened(fd, at, name) else OpenFailed(at, name)];
      if raised.None? {
        held, count := held + {fd}, count + 1;
      }
    }

    /** One close attempt. It may fail, and it is never repeated. */
    method Close(fd: nat) returns (failed: bool)
      requires Valid() && fd in held
      modifies this
      ensures Valid() && held == old(held) - {fd} && attempts == old(attempts) + [fd]
      ensures log == old(log) + [Closed(fd, failed)] && count == old(count)
      ensures failed == old(Next(CloseCall(fd))).raised.Some?
    {
      var a := Ask(CloseCall(fd));
      failed := a.raised.Some?;
      held, attempts, log := held - {fd}, attempts + [fd], log + [Closed(fd, failed)];
    }

    method Inspect(fd: nat) returns (raised: Option<Exception>, meta: Metadata)
      requires Valid() && fd in held
      modifies this`clock, this`log
      ensures Valid() && log == if raised.None? then old(log) + [Inspected(fd, meta)] else old(log)
      ensures raised == old(Next(InspectCall(fd))).raised && meta == old(Next(InspectCall(fd))).meta
    {
      var a := Ask(InspectCall(fd));
      raised, meta := a.raised, a.meta;
      log := if raised.None? then log + [Inspected(fd, meta)] else log;
    }

    method CheckFilesystem(fd: nat) returns (raised: Option<Exception>, isCgroup2: bool)
      requires Valid() && fd in held
      modifies this`clock, this`log
      ensures Valid() && log == if raised.None? then old(log) + [FilesystemChecked(fd, isCgroup2)] else old(log)
      ensures raised == old(Next(FilesystemCall(fd))).raised && isCgroup2 == old(Next(FilesystemCall(fd))).success
    {
      var a := Ask(FilesystemCall(fd));
      raised, isCgroup2 := a.raised, a.success;
      log := if raised.None? then log + [FilesystemChecked(fd, isCgroup2)] else log;
    }

    method Copy(fd: nat, to: nat) returns (raised: Option<Exception>, digest: ByteString)
      requires Valid() && fd in held && to in held
      modifies this`clock, this`log
      ensures Valid() && log == if raised.None? then old(log) + [Copied(fd, to, digest)] else old(log)
      ensures raised == old(Next(CopyCall(fd, to))).raised && digest == old(Next(CopyCall(fd, to))).digest
    {
      var a := Ask(CopyCall(fd, to));
      raised, digest := a.raised, a.digest;
      log := if raised.None? then log + [Copied(fd, to, digest)] else log;
    }

    method Hash(fd: nat) returns (raised: Option<Exception>, digest: ByteString)
      requires Valid() && fd in held
      modifies this`clock, this`log
      ensures Valid() && log == if raised.None? then old(log) + [Hashed(fd, digest)] else old(log)
      ensures raised == old(Next(HashCall(fd))).raised && digest == old(Next(HashCall(fd))).digest
    {
      var a := Ask(HashCall(fd));
      raised, digest := a.raised, a.digest;
      log := if raised.None? then log + [Hashed(fd, digest)] else log;
    }

    /** A call that only succeeds or fails. */
    method Try() returns (raised: Option<Exception>)
      requires Valid()
      modifies this`clock
      ensures Valid() && raised == old(Next(OtherCall)).raised
    {
      var a := Ask(OtherCall);
      raised := a.raised;
    }

    /** Looks the linking primitive up. */
    method LoadPrimitive() returns (raised: Option<Exception>, available: bool)
      requires Valid()
      modifies this`clock, this`log
      ensures Valid() && log == old(log) + [PrimitiveLoaded(available)]
      ensures raised == old(Next(PrimitiveCall)).raised
      ensures available <==> raised.None? && old(Next(PrimitiveCall)).success
    {
      var a := Ask(PrimitiveCall);
      raised, available := a.raised, a.raised.None? && a.success;
      log := log + [PrimitiveLoaded(available)];
    }

    /** One `linkat`: it reports success or an error number, or an exception arrives before or after it acted. */
    method Link(fd: nat, parent: nat, name: ByteString) returns (raised: Option<Exception>, success: bool, retry: bool)
      requires Valid() && fd in held && parent in held
      modifies this`clock, this`log
      ensures Valid()
      ensures raised.None? ==>
                log == old(log) + [if success then LinkMade(fd, parent, name) else LinkRefused(fd, parent, name)]
      ensures raised.Some? ==> log == old(log) || log == old(log) + [LinkMade(fd, parent, name)]
      ensures raised == old(Next(LinkCall(fd, parent, name))).raised
      ensures success == old(Next(LinkCall(fd, parent, name))).success
    {
      var a := Ask(LinkCall(fd, parent, name));
      raised, success, retry := a.raised, a.success, a.retry;
      if raised.None? {
        log := log + [if success then LinkMade(fd, parent, name) else LinkRefused(fd, parent, name)];
      } else if a.effect {
        log := log + [LinkMade(fd, parent, name)];
      }
    }

    method Sync(fd: nat) returns (raised: Option<Exception>)
      requires Valid() && fd in held
      modifies this`clock, this`log
      ensures Valid() && log == if raised.None? then old(log) + [Synced(fd)] else old(log)
      ensures raised == old(Next(SyncCall(fd))).raised
    {
      var a := Ask(SyncCall(fd));
      raised := a.raised;
      log := if raised.None? then log + [Synced(fd)] else log;
    }

    method InspectName(parent: nat, name: ByteString) returns (raised: Option<Exception>, meta: Metadata)
      requires Valid() && parent in held
      modifies this`clock, this`log
      ensures Valid() && log == if raised.None? then old(log) + [NameInspected(parent, name, meta)] else old(log)
      ensures raised == old(Next(InspectNameCall(parent, name))).raised
      ensures meta == old(Next(InspectNameCall(parent, name))).meta
    {
      var a := Ask(InspectNameCall(parent, name));
      raised, meta := a.raised, a.meta;
      log := if raised.None? then log + [NameInspected(parent, name, meta)] else log;
    }

    method MakeDirectory(parent: nat, name: ByteString) returns (raised: Option<Exception>)
      requires Valid() && parent in held
      modifies this`clock, this`log
      ensures Valid() && log == if raised.None? then old(log) + [DirectoryMade(parent, name)] else old(log)
      ensures raised == old(Next(MakeDirectoryCall(parent, name))).raised
    {
      var a := Ask(MakeDirectoryCall(parent, name));
      raised := a.raised;
      log := if raised.None? then log + [DirectoryMade(parent, name)] else log;
    }

    method RemoveDirectory(parent: nat, name: ByteString) returns (raised: Option<Exception>)
      requires Valid() && parent in held
      modifies this`clock, this`log
      ensures Valid() && log == old(log) + [RemovalTried(parent, name)]
    {
      var a := Ask(RemoveDirectoryCall(parent, name));
      raised, log := a.raised, log + [RemovalTried(parent, name)];
    }
  }
}
