/** Opening the delegated root and its leaves by descriptor: which object each descriptor is, and who owns it. */
module BindingIo {
  import opened Bytes
  import opened Descriptors

  /** The kernel-reported identity of a directory that was inspected before, and how to reach it. */
  datatype RootHandle = RootHandle(path: seq<ByteString>, inode: nat)

  datatype LeafHandle = LeafHandle(root: RootHandle, name: ByteString, inode: nat)

  const DOT: Byte := 46

  predicate SafeComponent(name: ByteString) {
    name !in {[], [DOT], [DOT, DOT]} && SLASH !in name && 0 !in name
  }

  /** The descriptor was reached through safe components only. */
  ghost predicate WalkedTo(log: seq<Event>, fd: nat, path: seq<ByteString>) {
    ReachedBy(log, fd, path) && forall name | name in path :: SafeComponent(name)
  }

  /** The descriptor is the recorded root: same path, same identity, on a cgroup-v2 filesystem. */
  ghost predicate IsRoot(log: seq<Event>, fd: nat, root: RootHandle) {
    && WalkedTo(log, fd, root.path) && FilesystemChecked(fd, true) in log
    && exists meta: Metadata | Inspected(fd, meta) in log :: meta.inode == root.inode
  }

  /** The descriptor is the recorded leaf, opened below the recorded root. */
  ghost predicate IsLeaf(log: seq<Event>, fd: nat, leaf: LeafHandle) {
    && leaf.inode != 0
    && (exists meta: Metadata | Inspected(fd, meta) in log :: meta.inode == leaf.inode)
    && (exists rootFd: nat | Opened(fd, Some(rootFd), leaf.name) in log :: IsRoot(log, rootFd, leaf.root))
  }

  /** Nothing raises, every filesystem is cgroup-v2, and `inodes` says which object each descriptor is. */
  ghost predicate Quiet(answers: Behaviour, inodes: nat -> nat) {
    forall log, clock, call ::
      var a := answers(log, clock, call);
      a.raised.None? && a.success && (call.InspectCall? ==> a.meta.inode == inodes(call.fd))
  }

  lemma IsRootLater(log: seq<Event>, later: seq<Event>, fd: nat, root: RootHandle)
    requires IsRoot(log, fd, root) && log <= later
    ensures IsRoot(later, fd, root)
  {
    ReachedLater(log, later, fd, root.path);
  }

  /** The one close attempt of a descriptor whose use has failed. */
  method CloseAfterFailure(k: Kernel, fd: nat, primary: Exception) returns (raised: Option<Exception>)
    requires k.Valid() && fd in k.held
    modifies k
    ensures k.Valid() && k.held == old(k.held) - {fd} && raised.Some? && k.count == old(k.count)
    ensures k.attempts == old(k.attempts) + [fd]
    ensures exists failed: bool :: k.log == old(k.log) + [Closed(fd, failed)]
  {
    var failed := k.Close(fd);
    raised := Some(if failed then Other else primary);
  }

  /** New events that open, inspect and close, but make and remove nothing; what they open is numbered from `first`. */
  predicate OnlyLooks(before: seq<Event>, after: seq<Event>, first: nat) {
    before <= after && forall i | |before| <= i < |after| :: Looks(after[i], first)
  }

  predicate Looks(e: Event, first: nat) {
    !e.DirectoryMade? && !e.RemovalTried? && (e.Opened? ==> first <= e.fd)
  }

  predicate Inspects(e: Event) {
    e.Inspected? || e.FilesystemChecked?
  }

  /** A walk begins by opening the root directory, or failing to. */
  predicate StartsWalk(e: Event) {
    (e.Opened? || e.OpenFailed?) && e.at == None && e.name == []
  }

  /** New events that open and close, and do nothing else. */
  predicate OnlyWalks(before: seq<Event>, after: seq<Event>, first: nat) {
    before <= after && forall i | |before| <= i < |after| :: Walks(after[i], first)
  }

  predicate Walks(e: Event, first: nat) {
    e.OpenFailed? || e.Closed? || (e.Opened? && first <= e.fd)
  }

  /** Moves on from one directory to an object in it; if that fails neither stays open. */
  method Descend(k: Kernel, current: nat, name: ByteString, ghost inodes: nat -> nat)
    returns (raised: Option<Exception>, next: nat)
    requires k.Valid() && current in k.held
    modifies k
    ensures k.Valid() && OnlyWalks(old(k.log), k.log, old(k.count)) && old(k.count) <= k.count
    ensures raised.Some? ==> k.held == old(k.held) - {current}
    ensures raised.None? ==> next !in old(k.held) && k.held == old(k.held) - {current} + {next}
    ensures raised.None? ==> next == old(k.count) == k.count - 1 && Opened(next, Some(current), name) in k.log
    ensures Quiet(k.answers, inodes) ==> raised.None?
  {
    hide Kernel.Valid;
    raised, next := k.Open(Some(current), name);
    if raised.Some? {
      raised := CloseAfterFailure(k, current, raised.value);
      return;
    }
    assert k.log[|k.log| - 1] == Opened(next, Some(current), name);
    var failed := k.Close(current);
    if failed { // the descriptor's state is ambiguous: it is never closed again
      raised := CloseAfterFailure(k, next, OsFailure);
    }
  }

  method OpenAnchor(k: Kernel, ghost inodes: nat -> nat) returns (raised: Option<Exception>, current: nat)
    requires k.Valid()
    modifies k
    ensures k.Valid() && Owns(old(k.held), k.held, raised, current)
    ensures OnlyWalks(old(k.log), k.log, old(k.count)) && |old(k.log)| < |k.log| && StartsWalk(k.log[|old(k.log)|])
    ensures current == old(k.count) && k.count == current + (if raised.None? then 1 else 0)
    ensures raised.None? ==> Opened(current, None, []) in k.log
    ensures Quiet(k.answers, inodes) ==> raised.None?
  {
    hide Kernel.Valid;
    raised, current := k.Open(None, []);
    assert k.log[|k.log| - 1] in k.log;
  }

  /** From the root directory down, by safe names only. */
  method SecureOpenAbsoluteDirectory(k: Kernel, path: seq<ByteString>, ghost inodes: nat -> nat)
    returns (raised: Option<Exception>, current: nat)
    requires k.Valid()
    modifies k
    ensures k.Valid() && Owns(old(k.held), k.held, raised, current) && old(k.count) <= k.count
    ensures OnlyWalks(old(k.log), k.log, old(k.count)) && |old(k.log)| < |k.log| && StartsWalk(k.log[|old(k.log)|])
    ensures raised.None? ==> current == old(k.count) + |path| == k.count - 1 && WalkedTo(k.log, current, path)
    ensures Quiet(k.answers, inodes) ==> (raised.None? <==> forall name | name in path :: SafeComponent(name))
  {
    hide Kernel.Valid, ReachedBy, SafeComponent, Quiet;
    raised, current := OpenAnchor(k, inodes);
    if raised.Some? { return; }
    AnchorReached(k.log, current);
    for i := 0 to |path|
      invariant k.Valid() && current !in old(k.held) && k.held == old(k.held) + {current}
      invariant current == old(k.count) + i == k.count - 1
      invariant OnlyWalks(old(k.log), k.log, old(k.count)) && |old(k.log)| < |k.log| && StartsWalk(k.log[|old(k.log)|])
      invariant ReachedBy(k.log, current, path[..i]) && forall j | 0 <= j < i :: SafeComponent(path[j])
    {
      if !SafeComponent(path[i]) {
        assert path[i] in path;
        raised := CloseAfterFailure(k, current, OsFailure);
        return;
      }
      ghost var before := k.log;
      var next;
      raised, next := Descend(k, current, path[i], inodes);
      if raised.Some? { return; }
      ReachedLater(before, k.log, current, path[..i]);
      ReachedOneMore(k.log, current, next, path, i);
      current := next;
    }
    assert path[..|path|] == path;
    raised := None;
  }

  /** Among the new events either no identity or no filesystem is the root's. */
  predicate Mismatch(before: seq<Event>, after: seq<Event>, root: RootHandle) {
    || (forall i | |before| <= i < |after| && after[i].Inspected? :: after[i].meta.inode != root.inode)
    || (forall i | |before| <= i < |after| && after[i].FilesystemChecked? :: !after[i].isCgroup2)
  }

  /** Compares an open directory with the recorded root, and closes it if they differ. */
  method KeepIfRoot(k: Kernel, fd: nat, root: RootHandle, ghost inodes: nat -> nat)
    returns (kept: bool, status: Metadata)
    requires k.Valid() && fd in k.held
    modifies k
    ensures k.Valid() && OnlyLooks(old(k.log), k.log, k.count) && k.count == old(k.count)
    ensures k.held == if kept then old(k.held) else old(k.held) - {fd}
    ensures if kept then status.inode == root.inode
                         && k.log == old(k.log) + [Inspected(fd, status)] + [FilesystemChecked(fd, true)]
            else Mismatch(old(k.log), k.log, root)
    ensures Quiet(k.answers, inodes) ==> (kept <==> inodes(fd) == root.inode)
  {
    hide Kernel.Valid;
    var raised, isCgroup2;
    kept := false;
    raised, status := k.Inspect(fd);
    if raised.None? {
      raised, isCgroup2 := k.CheckFilesystem(fd);
      kept := raised.None? && isCgroup2 && status.inode == root.inode;
    }
    if !kept {
      var failed := k.Close(fd);
    }
  }

  /** In a quiet run the object at the end of the root's path is the recorded one. */
  ghost predicate RootIsThere(answers: Behaviour, inodes: nat -> nat, root: RootHandle, first: nat) {
    Quiet(answers, inodes) && inodes(first + |root.path|) == root.inode && forall name | name in root.path :: SafeComponent(name)
  }

  /** There is such a run for every root reached by safe names and every identity of what lies below it. */
  lemma QuietRunsExist(root: RootHandle, first: nat, below: nat) returns (answers: Behaviour, inodes: nat -> nat)
    requires forall name | name in root.path :: SafeComponent(name)
    ensures RootIsThere(answers, inodes, root, first) && inodes(first + |root.path| + 1) == below
  {
    inodes := fd => if fd == first + |root.path| then root.inode else below;
    var of := inodes;
    answers := (log: seq<Event>, clock: nat, call: Call) =>
      Answer(None, false, true, false,
             Metadata(false, true, 1, 0, if call.InspectCall? then of(call.fd) else 0, 0, 0), []);
  }

  /** Opens the recorded root again. If it fails, nothing it opened was found to be that root. */
  method OpenRoot(k: Kernel, root: RootHandle, ghost inodes: nat -> nat) returns (raised: Option<Exception>, fd: nat)
    requires k.Valid()
    modifies k
    ensures k.Valid() && Owns(old(k.held), k.held, raised, fd) && old(k.count) <= k.count
    ensures OnlyLooks(old(k.log), k.log, old(k.count)) && |old(k.log)| < |k.log| && StartsWalk(k.log[|old(k.log)|])
    ensures if raised.None? then old(k.count) <= fd && IsRoot(k.log, fd, root)
            else forall other: nat | old(k.count) <= other :: !IsRoot(k.log, other, root)
    ensures raised.None? ==> fd == old(k.count) + |root.path| == k.count - 1
    ensures RootIsThere(k.answers, inodes, root, old(k.count)) ==> raised.None?
  {
    ghost var before, first := k.log, k.count;
    assert forall e | e in before :: Known(e, first);
    hide WalkedTo, IsRoot, Kernel.Valid, Known, Quiet, SafeComponent;
    raised, fd := SecureOpenAbsoluteDirectory(k, root.path, inodes);
    ghost var walked := k.log;
    NothingInspected(before, walked, first);
    if raised.Some? {
      NotTheRoot(walked, k.log, first, root);
      return;
    }
    hide Mismatch;
    var kept, status := KeepIfRoot(k, fd, root, inodes);
    if kept {
      TheRoot(walked, k.log, fd, status, root);
    } else {
      NotTheRoot(walked, k.log, first, root);
      raised := Some(OsFailure);
    }
  }

  lemma TheRoot(walked: seq<Event>, log: seq<Event>, fd: nat, status: Metadata, root: RootHandle)
    requires WalkedTo(walked, fd, root.path) && status.inode == root.inode
    requires log == walked + [Inspected(fd, status)] + [FilesystemChecked(fd, true)]
    ensures IsRoot(log, fd, root)
  {
    ReachedLater(walked, log, fd, root.path);
    assert log[|walked|] == Inspected(fd, status) && log[|walked| + 1] == FilesystemChecked(fd, true);
  }

  lemma NotTheRoot(walked: seq<Event>, log: seq<Event>, first: nat, root: RootHandle)
    requires walked <= log && forall e | e in walked && Inspects(e) :: e.fd < first
    requires Mismatch(walked, log, root)
    ensures forall other: nat | first <= other :: !IsRoot(log, other, root)
  {
    forall other: nat, meta: Metadata | first <= other
      ensures Inspected(other, meta) in log && FilesystemChecked(other, true) in log ==> meta.inode != root.inode
    {
      OldOrNew(walked, log, Inspected(other, meta));
      OldOrNew(walked, log, FilesystemChecked(other, true));
    }
  }

  lemma OldOrNew(before: seq<Event>, log: seq<Event>, e: Event)
    requires before <= log
    ensures e in log ==> e in before || exists i :: |before| <= i < |log| && log[i] == e
  {
    if e in log {
      var i :| 0 <= i < |log| && log[i] == e;
      if i < |before| {
        assert before[i] == e;
      }
    }
  }

  /** Descriptors opened by a walk have not been inspected during it. */
  lemma NothingInspected(before: seq<Event>, after: seq<Event>, first: nat)
    requires forall e | e in before :: Known(e, first)
    requires OnlyWalks(before, after, first)
    ensures forall e | e in after && Inspects(e) :: e.fd < first
  {
    forall e | e in after && Inspects(e)
      ensures e.fd < first
    {
      var i :| 0 <= i < |after| && after[i] == e;
      assert after[i] == before[i] && before[i] in before;
    }
  }

  /** Runs one operation on a descriptor and closes it, whether the operation fails or not. */
  method RunAndClose(k: Kernel, fd: nat) returns (raised: Option<Exception>)
    requires k.Valid() && fd in k.held
    modifies k
    ensures k.Valid() && k.held == old(k.held) - {fd} && k.attempts == old(k.attempts) + [fd]
    ensures old(k.Next(OtherCall)).raised.Some? ==> raised.Some?
    ensures (forall log, clock, call :: k.answers(log, clock, call).raised.None?) ==> raised.None?
  {
    raised := k.Try();
    if raised.Some? {
      raised := CloseAfterFailure(k, fd, raised.value);
      return;
    }
    var failed := k.Close(fd);
    raised := if failed then Some(OsFailure) else None;
  }

  /** Compares an open directory with the recorded leaf, and closes it if they differ. */
  method KeepIfLeaf(k: Kernel, fd: nat, leaf: LeafHandle, ghost inodes: nat -> nat)
    returns (raised: Option<Exception>, status: Metadata)
    requires k.Valid() && fd in k.held
    modifies k
    ensures k.Valid() && OnlyLooks(old(k.log), k.log, k.count) && k.count == old(k.count)
    ensures k.held == if raised.None? then old(k.held) else old(k.held) - {fd}
    ensures raised.None? ==> status.inode == leaf.inode != 0 && k.log == old(k.log) + [Inspected(fd, status)]
    ensures Quiet(k.answers, inodes) ==> (raised.None? <==> inodes(fd) == leaf.inode != 0)
  {
    hide Kernel.Valid;
    raised, status := k.Inspect(fd);
    if raised.Some? {
      raised := CloseAfterFailure(k, fd, raised.value);
      return;
    }
    if status.inode == 0 || status.inode != leaf.inode {
      raised := CloseAfterFailure(k, fd, OsFailure);
    }
  }

  /** One new descriptor, of the recorded leaf below the recorded root, or none. */
  method OpenLeaf(k: Kernel, leaf: LeafHandle, ghost inodes: nat -> nat) returns (raised: Option<Exception>, fd: nat)
    requires k.Valid()
    modifies k
    ensures k.Valid() && Owns(old(k.held), k.held, raised, fd) && OnlyLooks(old(k.log), k.log, old(k.count))
    ensures raised.None? ==> IsLeaf(k.log, fd, leaf)
    ensures RootIsThere(k.answers, inodes, leaf.root, old(k.count)) ==>
              (raised.None? <==> inodes(old(k.count) + |leaf.root.path| + 1) == leaf.inode != 0)
  {
    hide Kernel.Valid, IsRoot, IsLeaf, Quiet;
    fd := 0;
    var rootFd, status;
    raised, rootFd := OpenRoot(k, leaf.root, inodes);
    if raised.Some? { return; }
    ghost var before := k.log;
    raised, fd := Descend(k, rootFd, leaf.name, inodes);
    if raised.Some? { return; }
    IsRootLater(before, k.log, rootFd, leaf.root);
    before := k.log;
    raised, status := KeepIfLeaf(k, fd, leaf, inodes);
    if raised.Some? { return; }
    IsRootLater(before, k.log, rootFd, leaf.root);
    TheLeaf(before, k.log, fd, rootFd, status, leaf);
  }

  lemma TheLeaf(before: seq<Event>, log: seq<Event>, fd: nat, rootFd: nat, status: Metadata, leaf: LeafHandle)
    requires Opened(fd, Some(rootFd), leaf.name) in before && IsRoot(log, rootFd, leaf.root)
    requires log == before + [Inspected(fd, status)] && status.inode == leaf.inode != 0
    ensures IsLeaf(log, fd, leaf)
  {
    hide IsRoot;
    assert log[|before|] == Inspected(fd, status);
  }

  // ----- Creating a leaf

  /** At `i` the removal of the named leaf was attempted below the recorded root. */
  ghost predicate RemovedAt(log: seq<Event>, i: nat, root: RootHandle, name: ByteString)
    requires i < |log|
  {
    log[i].RemovalTried? && log[i].name == name && IsRoot(log, log[i].parent, root)
  }

  /** At `i` closing the root failed; it was then looked for again, and nothing opened since is that root. */
  ghost predicate RootLostAt(log: seq<Event>, i: nat, rootFd: nat, root: RootHandle)
    requires i < |log|
  {
    && log[i] == Closed(rootFd, true) && i + 1 < |log| && StartsWalk(log[i + 1])
    && forall j | i < j < |log| && log[j].Opened? :: !IsRoot(log, log[j].fd, root)
  }

  ghost predicate CleanedUpAt(log: seq<Event>, i: nat, rootFd: nat, root: RootHandle, name: ByteString)
    requires i < |log|
  {
    RemovedAt(log, i, root, name) || RootLostAt(log, i, rootFd, root)
  }

  /** The directory made at `i` was removed again, as far as that could be attempted. */
  ghost predicate CleanedUpAfter(log: seq<Event>, i: nat, root: RootHandle, name: ByteString)
    requires i < |log| && log[i].DirectoryMade?
  {
    exists j | i < j < |log| :: CleanedUpAt(log, j, log[i].parent, root, name)
  }

  /** Opens the new directory and takes its identity, then closes it and the root. */
  method IdentifyLeaf(k: Kernel, rootFd: nat, root: RootHandle, name: ByteString, ghost inodes: nat -> nat)
    returns (raised: Option<Exception>, leaf: LeafHandle, rootOpen: bool, ghost leafFd: nat)
    requires k.Valid() && rootFd in k.held && IsRoot(k.log, rootFd, root)
    modifies k
    ensures k.Valid() && OnlyLooks(old(k.log), k.log, old(k.count)) && old(k.count) <= k.count
    ensures k.held == if rootOpen then old(k.held) else old(k.held) - {rootFd}
    ensures raised.None? ==> !rootOpen && leaf.root == root && leaf.name == name && IsLeaf(k.log, leafFd, leaf)
    ensures |old(k.log)| < |k.log| && (raised.Some? && !rootOpen ==> k.log[|k.log| - 1] == Closed(rootFd, true))
    ensures Quiet(k.answers, inodes) ==> (raised.None? <==> inodes(old(k.count)) != 0)
  {
    hide Kernel.Valid, IsRoot;
    ghost var before := k.log;
    leaf, rootOpen := LeafHandle(root, name, 0), true;
    var fd, status;
    raised, fd := k.Open(Some(rootFd), name);
    leafFd := fd;
    if raised.Some? { return; }
    assert k.log[|before|] == Opened(fd, Some(rootFd), name);
    raised, status := k.Inspect(fd);
    if raised.None? {
      assert k.log[|before| + 1] == Inspected(fd, status);
      leaf := LeafHandle(root, name, status.inode);
      raised := if status.inode == 0 then Some(OsFailure) else None;
    }
    var leafFailed := k.Close(fd);
    if leafFailed { raised := Some(OsFailure); }
    if raised.Some? { return; }
    var rootFailed := k.Close(rootFd);
    rootOpen := false;
    if rootFailed { return Some(OsFailure), leaf, rootOpen, leafFd; }
    assert k.log[|before|] == Opened(fd, Some(rootFd), name) && k.log[|before| + 1] == Inspected(fd, status);
    IsRootLater(before, k.log, rootFd, root);
  }

  /** Removes the directory again, by the root's descriptor or, if that is gone, by a new one. */
  method RemoveLeaf(
      k: Kernel, rootFd: nat, rootOpen: bool, root: RootHandle, name: ByteString, ghost inodes: nat -> nat)
    requires k.Valid() && k.log != [] && rootOpen == (rootFd in k.held)
    requires if rootOpen then IsRoot(k.log, rootFd, root) else k.log[|k.log| - 1] == Closed(rootFd, true)
    modifies k
    ensures k.Valid() && k.held == old(k.held) - {rootFd} && old(k.log) <= k.log
    ensures forall i | |old(k.log)| <= i < |k.log| :: !k.log[i].DirectoryMade?
    ensures exists j | |old(k.log)| - 1 <= j < |k.log| :: CleanedUpAt(k.log, j, rootFd, root, name)
  {
    hide Kernel.Valid, IsRoot;
    ghost var n := |k.log|;
    var reopened, cleanupFd, failure := None, rootFd, None;
    if !rootOpen {
      reopened, cleanupFd := OpenRoot(k, root, inodes);
      if reopened.Some? {
        assert CleanedUpAt(k.log, n - 1, rootFd, root, name);
        return;
      }
    }
    ghost var before := k.log;
    failure := k.RemoveDirectory(cleanupFd, name);
    var failed := k.Close(cleanupFd);
    IsRootLater(before, k.log, cleanupFd, root);
    assert k.log[|before|] == RemovalTried(cleanupFd, name);
    assert CleanedUpAt(k.log, |before|, rootFd, root, name);
  }

  /** Makes the directory, or else closes the root. */
  method MakeLeaf(k: Kernel, rootFd: nat, name: ByteString, ghost inodes: nat -> nat) returns (raised: Option<Exception>)
    requires k.Valid() && rootFd in k.held
    modifies k
    ensures k.Valid() && k.count == old(k.count)
    ensures k.held == if raised.None? then old(k.held) else old(k.held) - {rootFd}
    ensures if raised.None? then k.log == old(k.log) + [DirectoryMade(rootFd, name)]
            else OnlyLooks(old(k.log), k.log, k.count)
    ensures Quiet(k.answers, inodes) ==> raised.None?
  {
    hide Kernel.Valid;
    raised := k.MakeDirectory(rootFd, name);
    if raised.Some? {
      var failed := k.Close(rootFd);
    }
  }

  /**
   * Creates a leaf directory. No descriptor survives the call. If it fails after the directory was made, its
   * removal below the same root is attempted, unless closing the root failed and it could not be found again.
   */
  method CreateLeaf(k: Kernel, root: RootHandle, name: ByteString, ghost inodes: nat -> nat)
    returns (raised: Option<Exception>, leaf: LeafHandle, ghost leafFd: nat)
    requires k.Valid()
    modifies k
    ensures k.Valid() && k.held == old(k.held) && old(k.log) <= k.log
    ensures raised.None? ==> leaf.root == root && leaf.name == name && IsLeaf(k.log, leafFd, leaf)
    ensures raised.None? ==> forall i | |old(k.log)| <= i < |k.log| :: !k.log[i].RemovalTried?
    ensures raised.None? ==> exists i | |old(k.log)| <= i < |k.log| :: MadeAt(k.log, i, root, name)
    ensures raised.Some? ==>
              forall i | |old(k.log)| <= i < |k.log| && k.log[i].DirectoryMade? :: CleanedUpAfter(k.log, i, root, name)
    ensures RootIsThere(k.answers, inodes, root, old(k.count)) ==>
              (raised.None? <==> inodes(old(k.count) + |root.path| + 1) != 0)
  {
    hide Kernel.Valid, IsRoot, IsLeaf, CleanedUpAt, Quiet;
    leaf, leafFd := LeafHandle(root, name, 0), 0;
    var rootFd;
    raised, rootFd := OpenRoot(k, root, inodes);
    if raised.Some? { return; }
    ghost var before, n := k.log, |k.log|;
    raised := MakeLeaf(k, rootFd, name, inodes);
    if raised.Some? { return; }
    IsRootLater(before, k.log, rootFd, root);
    ghost var made := k.log;
    var rootOpen;
    raised, leaf, rootOpen, leafFd := IdentifyLeaf(k, rootFd, root, name, inodes);
    IsRootLater(made, k.log, rootFd, root);
    assert k.log[n] == DirectoryMade(rootFd, name);
    if raised.Some? {
      RemoveLeaf(k, rootFd, rootOpen, root, name, inodes);
      assert k.log[n] == DirectoryMade(rootFd, name) && CleanedUpAfter(k.log, n, root, name);
    } else {
      assert MadeAt(k.log, n, root, name);
    }
  }

  ghost predicate MadeAt(log: seq<Event>, i: nat, root: RootHandle, name: ByteString)
    requires i < |log|
  {
    log[i].DirectoryMade? && log[i].name == name && IsRoot(log, log[i].parent, root)
  }
}
