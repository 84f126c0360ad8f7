/**
 * Publishing one verified local copy without replacing anything, under a failure at any system call.
 */
module Publication {
  import opened Bytes
  import opened Descriptors

  /** An absolute path: the components of its directory, and its last component. */
  datatype Path = Path(directory: seq<ByteString>, name: ByteString)

  // ----- A run that nothing disturbs

  /** The two files of such a run, by descriptor, and what is reported of them. */
  datatype World = World(
    file: nat, output: nat, sourceMeta: Metadata, outputMeta: Metadata, published: Metadata, digest: ByteString)

  predicate HasLink(log: seq<Event>) {
    exists i | 0 <= i < |log| :: log[i].LinkMade?
  }

  predicate HasCopy(log: seq<Event>) {
    exists i | 0 <= i < |log| :: log[i].Copied?
  }

  /** Nothing raises but the lookup of a name that is not there yet, and each object is always reported alike. */
  predicate Undisturbed(w: World, log: seq<Event>, call: Call, a: Answer) {
    match call
    case InspectNameCall(_, _) => if HasLink(log) then a.raised.None? && a.meta == w.published else a.raised == Some(Missing)
    case InspectCall(fd) =>
      && a.raised.None?
      && if fd == w.file then a.meta == w.sourceMeta
         else if fd != w.output then a.meta.directory
         else if HasLink(log) then a.meta == w.published
         else if HasCopy(log) then a.meta == w.outputMeta
         else a.meta.regular && a.meta.links == 0
    case _ => a.raised.None? && a.success && a.digest == w.digest
  }

  ghost predicate Calm(answers: Behaviour, w: World) {
    forall log, clock, call :: Undisturbed(w, log, call, answers(log, clock, call))
  }

  /** None of these descriptors is one of the two files. */
  predicate Directories(w: World, first: nat, last: nat) {
    !(first <= w.file <= last) && !(first <= w.output <= last)
  }

  // ----- Descriptor ownership

  ghost function Without(held: set<nat>, descriptors: seq<Option<nat>>): set<nat> {
    set fd | fd in held && Some(fd) !in descriptors
  }

  /** Attempts every close, whatever the earlier ones do. */
  method CloseIndependently(k: Kernel, descriptors: seq<Option<nat>>, ghost w: World) returns (failures: nat)
    requires k.Valid()
    requires forall i | 0 <= i < |descriptors| && descriptors[i].Some? :: descriptors[i].value in k.held
    requires forall i, j | 0 <= i < j < |descriptors| && descriptors[i].Some? :: descriptors[i] != descriptors[j]
    modifies k
    ensures k.Valid() && NoLinks(old(k.log), k.log) && k.count == old(k.count)
    ensures k.held == Without(old(k.held), descriptors)
    ensures Calm(k.answers, w) ==> failures == 0
  {
    hide Kernel.Valid;
    failures := 0;
    for i := 0 to |descriptors|
      invariant k.Valid() && NoLinks(old(k.log), k.log) && k.count == old(k.count)
      invariant k.held == Without(old(k.held), descriptors[..i])
      invariant Calm(k.answers, w) ==> failures == 0
    {
      assert descriptors[..i + 1] == descriptors[..i] + [descriptors[i]];
      if descriptors[i].Some? {
        assert descriptors[i] !in descriptors[..i];
        var failed := k.Close(descriptors[i].value);
        failures := failures + (if failed then 1 else 0);
      }
    }
    assert descriptors[..|descriptors|] == descriptors;
  }

  /** Closes `fd`, and `current` if given, unless `fd` is a directory. */
  method RequireDirectory(k: Kernel, fd: nat, current: Option<nat>, ghost w: World) returns (raised: Option<Exception>)
    requires k.Valid() && fd in k.held && (current.Some? ==> current.value in k.held && current.value != fd)
    modifies k
    ensures k.Valid() && NoLinks(old(k.log), k.log) && k.count == old(k.count)
    ensures raised.None? ==> k.held == old(k.held) && exists meta | Inspected(fd, meta) in k.log :: meta.directory
    ensures raised.Some? ==> k.held == Without(old(k.held), [Some(fd), current])
    ensures Calm(k.answers, w) && Directories(w, fd, fd) ==> raised.None?
  {
    hide Kernel.Valid;
    var meta;
    raised, meta := k.Inspect(fd);
    if raised.Some? || !meta.directory {
      var failures := CloseIndependently(k, [Some(fd), current], w);
      return Some(Domain);
    }
    assert k.log[|k.log| - 1] == Inspected(fd, meta);
  }

  /** Opens and checks one directory; on failure it and `current`, if given, are closed. */
  method OpenDirectory(k: Kernel, current: Option<nat>, name: ByteString, ghost w: World)
    returns (raised: Option<Exception>, following: nat)
    requires k.Valid() && (current.Some? ==> current.value in k.held)
    modifies k
    ensures k.Valid() && NoLinks(old(k.log), k.log)
    ensures raised.None? ==> following !in old(k.held) && k.held == old(k.held) + {following}
    ensures raised.None? ==> Opened(following, current, name) in k.log
    ensures raised.None? ==> following == old(k.count) && k.count == old(k.count) + 1
    ensures raised.Some? ==> k.held == Without(old(k.held), [current])
    ensures Calm(k.answers, w) && Directories(w, old(k.count), old(k.count)) ==> raised.None?
  {
    hide Kernel.Valid;
    raised, following := k.Open(current, name);
    if raised.Some? {
      var failures := CloseIndependently(k, [current], w);
      return;
    }
    assert k.log[|k.log| - 1] == Opened(following, current, name);
    raised := RequireDirectory(k, following, current, w);
  }

  /** Moves on to a directory in the current one, which is closed either way. */
  method Advance(k: Kernel, current: nat, name: ByteString, ghost w: World)
    returns (raised: Option<Exception>, following: nat)
    requires k.Valid() && current in k.held
    modifies k
    ensures k.Valid() && NoLinks(old(k.log), k.log)
    ensures raised.None? ==> following !in old(k.held) && k.held == old(k.held) - {current} + {following}
    ensures raised.None? ==> Opened(following, Some(current), name) in k.log
    ensures raised.None? ==> following == old(k.count) && k.count == old(k.count) + 1
    ensures raised.Some? ==> k.held == old(k.held) - {current}
    ensures Calm(k.answers, w) && Directories(w, old(k.count), old(k.count)) ==> raised.None?
  {
    hide Kernel.Valid, Calm;
    raised, following := OpenDirectory(k, Some(current), name, w);
    if raised.Some? { return; }
    var failures := CloseIndependently(k, [Some(current)], w);
    if failures > 0 {
      failures := CloseIndependently(k, [Some(following)], w);
      raised := Some(Domain);
    }
  }

  /** An anchor, then one component after another; only the last descriptor survives. */
  method OpenDirectoryPartsSecure(k: Kernel, parts: seq<ByteString>, ghost w: World)
    returns (raised: Option<Exception>, current: nat)
    requires k.Valid()
    modifies k
    ensures k.Valid() && NoLinks(old(k.log), k.log)
    ensures Owns(old(k.held), k.held, raised, current)
    ensures raised.None? ==> ReachedBy(k.log, current, parts)
    ensures raised.None? ==> exists meta | Inspected(current, meta) in k.log :: meta.directory
    ensures raised.None? ==> current == old(k.count) + |parts| && k.count == current + 1
    ensures Calm(k.answers, w) && Directories(w, old(k.count), old(k.count) + |parts|) ==> raised.None?
  {
    hide Kernel.Valid, ReachedBy, Calm;
    raised, current := OpenDirectory(k, None, [], w);
    if raised.Some? { return; }
    AnchorReached(k.log, current);
    for part := 0 to |parts|
      invariant k.Valid() && NoLinks(old(k.log), k.log)
      invariant current !in old(k.held) && k.held == old(k.held) + {current}
      invariant current == old(k.count) + part && k.count == current + 1
      invariant ReachedBy(k.log, current, parts[..part])
    {
      ghost var before := k.log;
      var following;
      raised, following := Advance(k, current, parts[part], w);
      if raised.Some? { return; }
      ReachedLater(before, k.log, current, parts[..part]);
      ReachedOneMore(k.log, current, following, parts, part);
      current := following;
    }
    assert parts[..|parts|] == parts;
    ghost var before := k.log;
    raised := RequireDirectory(k, current, None, w);
    ReachedLater(before, k.log, current, parts);
  }

  /** The descriptors of a file and of its parent were opened by walking its path. */
  ghost predicate FileReached(log: seq<Event>, file: nat, parent: nat, path: Path) {
    ReachedBy(log, parent, path.directory) && Opened(file, Some(parent), path.name) in log
  }

  lemma FileReachedLater(log: seq<Event>, later: seq<Event>, file: nat, parent: nat, path: Path)
    requires FileReached(log, file, parent, path) && log <= later
    ensures FileReached(later, file, parent, path)
  {
    ReachedLater(log, later, parent, path.directory);
  }

  /** Opens a regular file with one link below `parent`, which is closed too if that fails. */
  method OpenRegularFile(k: Kernel, parent: nat, name: ByteString, ghost w: World)
    returns (raised: Option<Exception>, file: nat, meta: Metadata)
    requires k.Valid() && parent in k.held
    modifies k
    ensures k.Valid() && NoLinks(old(k.log), k.log)
    ensures raised.Some? ==> k.held == old(k.held) - {parent}
    ensures raised.None? ==> file !in old(k.held) && k.held == old(k.held) + {file}
    ensures raised.None? ==> Opened(file, Some(parent), name) in k.log && Inspected(file, meta) in k.log
    ensures raised.None? ==> meta.regular && meta.links == 1 && file == old(k.count) && k.count == file + 1
    ensures Calm(k.answers, w) && w.file == old(k.count) && w.sourceMeta.regular && w.sourceMeta.links == 1 ==>
              raised.None? && meta == w.sourceMeta
  {
    hide Kernel.Valid;
    var failures;
    meta := Metadata(false, false, 0, 0, 0, 0, 0);
    raised, file := k.Open(Some(parent), name);
    if raised.Some? {
      failures := CloseIndependently(k, [None, Some(parent)], w);
      return;
    }
    assert k.log[|k.log| - 1] == Opened(file, Some(parent), name);
    raised, meta := k.Inspect(file);
    if raised.Some? || !meta.regular || meta.links != 1 {
      failures := CloseIndependently(k, [Some(file), Some(parent)], w);
      return Some(Domain), file, meta;
    }
    assert k.log[|k.log| - 1] == Inspected(file, meta);
  }

  /** The source file and its parent: both descriptors, or neither. */
  method OpenRegularPathSecure(k: Kernel, path: Path, ghost w: World)
    returns (raised: Option<Exception>, file: nat, parent: nat, meta: Metadata)
    requires k.Valid()
    modifies k
    ensures k.Valid() && NoLinks(old(k.log), k.log)
    ensures raised.Some? ==> k.held == old(k.held)
    ensures raised.None? ==> file != parent && file !in old(k.held) && parent !in old(k.held)
    ensures raised.None? ==> k.held == old(k.held) + {file, parent}
    ensures raised.None? ==> FileReached(k.log, file, parent, path)
    ensures raised.None? ==> Inspected(file, meta) in k.log && meta.regular && meta.links == 1
    ensures raised.None? ==> file == old(k.count) + |path.directory| + 1 && k.count == file + 1
    ensures SourceReady(k.answers, w, old(k.count) + |path.directory| + 1) ==> raised.None? && meta == w.sourceMeta
  {
    hide Kernel.Valid, ReachedBy, Undisturbed;
    file, meta := 0, Metadata(false, false, 0, 0, 0, 0, 0);
    raised, parent := OpenDirectoryPartsSecure(k, path.directory, w);
    if raised.Some? { return; }
    ghost var before := k.log;
    raised := InspectAgain(k, parent, w);
    if raised.Some? { return; }
    raised, file, meta := OpenRegularFile(k, parent, path.name, w);
    ReachedLater(before, k.log, parent, path.directory);
  }

  /** The source is the first file opened in a calm run, and a regular one. */
  ghost predicate SourceReady(answers: Behaviour, w: World, fd: nat) {
    Calm(answers, w) && w.file == fd < w.output && w.sourceMeta.regular && w.sourceMeta.links == 1
  }

  /** Inspects a directory once more, for its identity, and closes it if that fails. */
  method InspectAgain(k: Kernel, fd: nat, ghost w: World) returns (raised: Option<Exception>)
    requires k.Valid() && fd in k.held
    modifies k
    ensures k.Valid() && NoLinks(old(k.log), k.log) && k.count == old(k.count)
    ensures k.held == if raised.None? then old(k.held) else old(k.held) - {fd}
    ensures Calm(k.answers, w) ==> raised.None?
  {
    hide Kernel.Valid;
    var meta;
    raised, meta := k.Inspect(fd);
    if raised.Some? {
      var failures := CloseIndependently(k, [Some(fd)], w);
    }
  }

  method OpenDestinationParentSecure(k: Kernel, directory: seq<ByteString>, ghost w: World)
    returns (raised: Option<Exception>, parent: nat)
    requires k.Valid()
    modifies k
    ensures k.Valid() && NoLinks(old(k.log), k.log)
    ensures Owns(old(k.held), k.held, raised, parent)
    ensures raised.None? ==> ReachedBy(k.log, parent, directory)
    ensures raised.None? ==> parent == old(k.count) + |directory| && k.count == parent + 1
    ensures Calm(k.answers, w) && Directories(w, old(k.count), old(k.count) + |directory|) ==> raised.None?
  {
    hide Kernel.Valid, ReachedBy, Calm;
    raised, parent := OpenDirectoryPartsSecure(k, directory, w);
    if raised.Some? { return; }
    ghost var before := k.log;
    raised := InspectAgain(k, parent, w);
    ReachedLater(before, k.log, parent, directory);
  }

  /** The output is opened after the source in a calm run, and is a regular file without a name. */
  ghost predicate OutputReady(answers: Behaviour, w: World, fd: nat) {
    Calm(answers, w) && w.file < w.output == fd && w.outputMeta.regular && w.outputMeta.links == 0
  }

  /** An anonymous file has no name below its parent. */
  method CreateTemporaryOutput(k: Kernel, parent: nat, ghost w: World) returns (raised: Option<Exception>, fd: nat)
    requires k.Valid() && parent in k.held
    modifies k
    ensures k.Valid() && NoLinks(old(k.log), k.log)
    ensures Owns(old(k.held), k.held, raised, fd)
    ensures raised.None? ==> Opened(fd, Some(parent), []) in k.log && fd == old(k.count)
    ensures OutputReady(k.answers, w, old(k.count)) && !HasLink(old(k.log)) ==> raised.None?
  {
    hide Kernel.Valid;
    raised, fd := k.Open(Some(parent), []);
    if raised.Some? { return; }
    assert k.log[|k.log| - 1] == Opened(fd, Some(parent), []);
    var meta;
    raised, meta := k.Inspect(fd);
    if raised.Some? || !meta.regular || meta.links != 0 {
      var failures := CloseIndependently(k, [Some(fd)], w);
      raised := Some(Domain);
    }
  }

  // ----- The commit point and what surrounds it

  /** An exception that arrives from outside is none of the three this module raises itself. */
  function External(raised: Option<Exception>): Option<Exception> {
    if raised.Some? && raised.value in {Domain, NotCommitted, NameUnavailable} then Some(Other) else raised
  }

  /** At `n` the output was linked, after the primitive was found at `v` and the first attempt, if there were two, was refused. */
  predicate LinkedAt(log: seq<Event>, v: nat, n: nat, output: nat, parent: nat, name: ByteString) {
    && v < n < |log| && n <= v + 2 && log[v] == PrimitiveLoaded(true) && log[n] == LinkMade(output, parent, name)
    && (n == v + 2 ==> log[v + 1] == LinkRefused(output, parent, name))
  }

  /** The only link since `v` is the one at `n`, if there is one. */
  predicate OnlyLink(log: seq<Event>, v: nat, n: Option<nat>, output: nat, parent: nat, name: ByteString) {
    && (n.Some? ==> LinkedAt(log, v, n.value, output, parent, name))
    && forall i | v <= i < |log| && Some(i) != n :: !log[i].LinkMade?
  }

  /** The last thing reported is that the primitive is missing or refuses this link. */
  predicate Refused(log: seq<Event>, output: nat, parent: nat, name: ByteString) {
    log != [] && log[|log| - 1] in {PrimitiveLoaded(false), LinkRefused(output, parent, name)}
  }

  predicate NoSync(before: seq<Event>, after: seq<Event>) {
    forall i | |before| <= i < |after| :: !after[i].Synced?
  }

  /** The primitive is there, and the kernel makes this link whenever it is asked to. */
  ghost predicate LinkSucceeds(answers: Behaviour, output: nat, parent: nat, name: ByteString) {
    forall log, clock, call | call in {PrimitiveCall, LinkCall(output, parent, name)} ::
      answers(log, clock, call).raised.None? && answers(log, clock, call).success
  }

  /**
   * Links the anonymous file under its final name, by descriptor or else by its kernel path. It reports "not
   * committed" only if the kernel reported that the primitive is missing or that it refuses the link.
   */
  method PublishAnonymousNoReplace(k: Kernel, temporary: nat, parent: nat, name: ByteString)
    returns (raised: Option<Exception>, ghost n: Option<nat>)
    requires k.Valid() && temporary in k.held && parent in k.held
    modifies k`clock, k`log
    ensures k.Valid() && old(k.log) < k.log && OnlyLink(k.log, |old(k.log)|, n, temporary, parent, name)
    ensures raised.None? ==> n == Some(|k.log| - 1)
    ensures raised == Some(NotCommitted) ==> n == None && Refused(k.log, temporary, parent, name)
    ensures NoSync(old(k.log), k.log)
    ensures LinkSucceeds(k.answers, temporary, parent, name) ==> raised.None?
  {
    hide Kernel.Valid;
    ghost var v := |k.log|;
    var available, success, retry;
    n := None;
    raised, available := k.LoadPrimitive();
    if raised.Some? { return if raised == Some(OsFailure) then Some(NotCommitted) else External(raised), n; }
    if !available { return Some(NotCommitted), n; }
    raised, success, retry := k.Link(temporary, parent, name);
    n := if |k.log| == v + 2 && k.log[v + 1].LinkMade? then Some(v + 1) else None;
    if raised.Some? { return External(raised), n; }
    if !success && retry {
      raised, success, retry := k.Link(temporary, parent, name);
      n := if |k.log| == v + 3 && k.log[v + 2].LinkMade? then Some(v + 2) else None;
      if raised.Some? { return External(raised), n; }
    }
    raised := if success then None else Some(NotCommitted);
  }

  datatype State = NotCommittedState | CommittedNotDurable | CommittedNameUnavailable | Durable | CommitOutcomeUnknown

  /** What was verified before the commit point, and the descriptors it was verified on. */
  datatype Candidate = Candidate(
    source: nat, sourceMeta: Metadata, output: nat, parent: nat, name: ByteString,
    meta: Metadata, sourceDigest: ByteString, preparedDigest: ByteString)

  /** The operation's request. */
  datatype Request = Request(source: Path, target: Path, bytes: nat, expected: ByteString)

  predicate SameButChanged(before: Metadata, after: Metadata) {
    before.links == 0 && after.links == 1 && after == before.(links := 1, changed := after.changed)
  }

  /** The calls that make a candidate: the source copied and unchanged, the output synced, read back and unchanged. */
  function Verification(c: Candidate, expected: ByteString): (r: seq<Event>)
    ensures |r| == 6 && forall e | e in r :: !e.LinkMade?
  {
    [Copied(c.source, c.output, expected), Inspected(c.source, c.sourceMeta), Synced(c.output),
     Inspected(c.output, c.meta), Hashed(c.output, expected), Inspected(c.output, c.meta)]
  }

  predicate CandidateOk(c: Candidate, r: Request) {
    && c.meta.regular && c.meta.links == 0 && c.meta.size == r.bytes && c.name == r.target.name
    && c.sourceDigest == c.preparedDigest == r.expected
  }

  /** A calm run in which everything is as requested; the first descriptor is `first`. */
  ghost predicate Ideal(answers: Behaviour, w: World, r: Request, first: nat) {
    && SourceReady(answers, w, first + |r.source.directory| + 1) && w.output == w.file + |r.target.directory| + 2
    && w.digest == r.expected && w.sourceMeta.size == r.bytes
    && w.outputMeta.regular && w.outputMeta.links == 0 && w.outputMeta.size == r.bytes
    && SameButChanged(w.outputMeta, w.published)
  }

  ghost predicate IdealRun(answers: Behaviour, w: World, r: Request) {
    exists first :: Ideal(answers, w, r, first)
  }

  /** The answers of such a run. */
  function IdealAnswer(w: World, log: seq<Event>, call: Call): (a: Answer)
    ensures Undisturbed(w, log, call, a)
  {
    var directory := Metadata(false, true, 1, 0, 1, 0, 0);
    var ok := Answer(None, false, true, false, directory, w.digest);
    match call
    case InspectNameCall(_, _) => if HasLink(log) then ok.(meta := w.published) else ok.(raised := Some(Missing))
    case InspectCall(fd) =>
      if fd == w.file then ok.(meta := w.sourceMeta)
      else if fd != w.output then ok
      else if HasLink(log) then ok.(meta := w.published)
      else if HasCopy(log) then ok.(meta := w.outputMeta)
      else ok.(meta := Metadata(true, false, 0, 0, 3, 0, 0))
    case _ => ok
  }

  /** There is an ideal run for every request. */
  lemma IdealRunsExist(r: Request, first: nat) returns (answers: Behaviour, w: World)
    ensures Ideal(answers, w, r, first)
  {
    var file := first + |r.source.directory| + 1;
    var sourceMeta, outputMeta := Metadata(true, false, 1, r.bytes, 2, 0, 0), Metadata(true, false, 0, r.bytes, 3, 0, 0);
    w := World(file, file + |r.target.directory| + 2, sourceMeta, outputMeta, outputMeta.(links := 1, changed := 1), r.expected);
    var world := w;
    answers := (log, clock, call) => IdealAnswer(world, log, call);
  }

  /** The output of an ideal run, as it was verified. */
  ghost predicate IdealOutput(answers: Behaviour, w: World, r: Request, c: Candidate) {
    IdealRun(answers, w, r) && c.output == w.output && c.meta == w.outputMeta
  }

  /** Reads the output back: inspected, hashed and inspected again. */
  method VerifyOutput(k: Kernel, r: Request, output: nat, ghost w: World)
    returns (raised: Option<Exception>, meta: Metadata, digest: ByteString)
    requires k.Valid() && output in k.held
    modifies k`clock, k`log
    ensures k.Valid() && NoLinks(old(k.log), k.log)
    ensures raised.None? ==> meta.regular && meta.links == 0 && meta.size == r.bytes && digest == r.expected
    ensures raised.None? ==>
              k.log == old(k.log) + [Inspected(output, meta), Hashed(output, r.expected), Inspected(output, meta)]
    ensures IdealRun(k.answers, w, r) && output == w.output && HasCopy(old(k.log)) && !HasLink(old(k.log)) ==>
              raised.None? && meta == w.outputMeta
  {
    hide Kernel.Valid;
    var after;
    digest := [];
    raised, meta := k.Inspect(output);
    if raised.Some? { return; }
    if !meta.regular || meta.links != 0 || meta.size != r.bytes { return Some(Domain), meta, digest; }
    raised, digest := k.Hash(output);
    if raised.Some? { return; }
    raised, after := k.Inspect(output);
    if raised.Some? { return; }
    if after != meta || digest != r.expected { return Some(Domain), meta, digest; }
  }

  /** Copies the source, checks that it did not change, and syncs the output. */
  method CopySource(k: Kernel, r: Request, source: nat, sourceMeta: Metadata, output: nat, ghost w: World)
    returns (raised: Option<Exception>, digest: ByteString)
    requires k.Valid() && source in k.held && output in k.held
    modifies k`clock, k`log
    ensures k.Valid() && NoLinks(old(k.log), k.log)
    ensures raised.None? ==> digest == r.expected
    ensures raised.None? ==>
              k.log == old(k.log) + [Copied(source, output, r.expected), Inspected(source, sourceMeta), Synced(output)]
    ensures IdealRun(k.answers, w, r) && source == w.file && sourceMeta == w.sourceMeta ==> raised.None?
  {
    hide Kernel.Valid;
    var after;
    raised, digest := k.Copy(source, output);
    if raised.Some? { return; }
    raised, after := k.Inspect(source);
    if raised.Some? { return; }
    if after != sourceMeta || digest != r.expected { return Some(Domain), digest; }
    raised := k.Sync(output);
  }

  lemma NoLinkSoFar(before: seq<Event>, log: seq<Event>)
    requires NoLinks(before, log)
    ensures HasLink(log) ==> HasLink(before)
    ensures |before| < |log| && log[|before|].Copied? ==> HasCopy(log)
  {
    if HasLink(log) {
      var i :| 0 <= i < |log| && log[i].LinkMade?;
      assert before[i] == log[i];
    }
  }

  /** Copies the source and checks the anonymous output; the result is what will be published. */
  method VerifyTemporary(
      k: Kernel, r: Request, source: nat, sourceMeta: Metadata, temporary: nat, parent: nat, ghost w: World)
    returns (raised: Option<Exception>, candidate: Candidate)
    requires k.Valid() && source in k.held && temporary in k.held
    modifies k`clock, k`log
    ensures k.Valid() && NoLinks(old(k.log), k.log)
    ensures raised.None? ==>
              && (candidate.source, candidate.sourceMeta) == (source, sourceMeta)
              && (candidate.output, candidate.parent) == (temporary, parent)
              && CandidateOk(candidate, r)
              && k.log == old(k.log) + Verification(candidate, r.expected)
    ensures IdealRun(k.answers, w, r) && (source, sourceMeta, temporary) == (w.file, w.sourceMeta, w.output)
              && !HasLink(old(k.log)) ==>
              raised.None? && IdealOutput(k.answers, w, r, candidate)
  {
    hide Kernel.Valid, HasLink, HasCopy;
    ghost var before := k.log;
    candidate := Candidate(source, sourceMeta, temporary, parent, r.target.name, sourceMeta, [], []);
    var sourceDigest, preparedDigest, meta;
    raised, sourceDigest := CopySource(k, r, source, sourceMeta, temporary, w);
    if raised.Some? { return; }
    NoLinkSoFar(before, k.log);
    raised, meta, preparedDigest := VerifyOutput(k, r, temporary, w);
    if raised.Some? { return; }
    raised := k.Try(); // constructing the record
    candidate := candidate.(meta := meta, sourceDigest := sourceDigest, preparedDigest := preparedDigest);
    assert k.log == before + Verification(candidate, r.expected);
  }

  /** From the link to a confirmed name: each call on the verified output or on its parent, in this order. */
  function Confirmation(c: Candidate, expected: ByteString, m: Metadata): (r: seq<Event>)
    ensures |r| == 6 && r[0] == LinkMade(c.output, c.parent, c.name)
    ensures forall i | 1 <= i < 6 :: !r[i].LinkMade?
  {
    [LinkMade(c.output, c.parent, c.name), Inspected(c.output, m), Hashed(c.output, expected), Inspected(c.output, m),
     Synced(c.parent), NameInspected(c.parent, c.name, m)]
  }

  /** The link at `n` is followed by the first `count` calls of a confirmation, itself included. */
  ghost predicate Confirmed(log: seq<Event>, v: nat, n: nat, count: nat, c: Candidate, expected: ByteString) {
    && LinkedAt(log, v, n, c.output, c.parent, c.name)
    && exists m: Metadata | SameButChanged(c.meta, m) ::
         count <= 6 && n + count <= |log| && log[n..n + count] == Confirmation(c, expected, m)[..count]
  }

  /** A report of the kernel, after position `v`, that the verified inode is linked. */
  ghost predicate ReportedLinked(log: seq<Event>, v: nat, c: Candidate) {
    exists i | v <= i < |log| :: ReportsLinked(log[i], c)
  }

  predicate ReportsLinked(e: Event, c: Candidate) {
    e.Inspected? && e.fd == c.output && e.meta.links >= 1 && e.meta.inode == c.meta.inode
  }

  /** What each state claims to have happened since the verification ended at `v`. */
  ghost predicate Claims(log: seq<Event>, v: nat, state: State, c: Candidate, expected: ByteString)
    requires v <= |log|
  {
    match state
    case NotCommittedState => NoLinks(log[..v], log)
    case CommittedNotDurable =>
      (exists n: nat :: LinkedAt(log, v, n, c.output, c.parent, c.name)) || ReportedLinked(log, v, c)
    case CommittedNameUnavailable => exists n: nat :: Confirmed(log, v, n, 5, c, expected)
    case Durable => exists n: nat :: Confirmed(log, v, n, 6, c, expected)
    case CommitOutcomeUnknown => true
  }

  /** Nothing but the verified output was linked, under the requested name, and at most once. */
  predicate OneLink(log: seq<Event>, c: Candidate) {
    && (forall i | 0 <= i < |log| && log[i].LinkMade? :: log[i] == LinkMade(c.output, c.parent, c.name))
    && (forall i, j | 0 <= i < j < |log| && log[i].LinkMade? :: !log[j].LinkMade?)
  }

  /** The checks on the linked file, by its descriptor, and the sync of its directory. */
  method VerifyPublished(k: Kernel, r: Request, c: Candidate, ghost w: World)
    returns (raised: Option<Exception>, published: Metadata)
    requires k.Valid() && c.output in k.held && c.parent in k.held && CandidateOk(c, r)
    modifies k`clock, k`log
    ensures k.Valid() && NoLinks(old(k.log), k.log)
    ensures raised.None? ==> SameButChanged(c.meta, published) && published.regular && published.size == r.bytes
    ensures raised.None? ==> k.log == old(k.log) + Confirmation(c, r.expected, published)[1..5]
    ensures raised.Some? ==> NoSync(old(k.log), k.log)
    ensures IdealOutput(k.answers, w, r, c) && HasLink(old(k.log)) ==> raised.None? && published == w.published
  {
    hide Kernel.Valid;
    var digest, later;
    raised, published := k.Inspect(c.output);
    if raised.Some? { return; }
    if !published.regular || published.size != r.bytes || !SameButChanged(c.meta, published) {
      return Some(Domain), published;
    }
    raised, digest := k.Hash(c.output);
    if raised.Some? { return; }
    raised, later := k.Inspect(c.output);
    if raised.Some? { return; }
    if later != published || digest != r.expected { return Some(Domain), published; }
    raised := k.Sync(c.parent);
  }

  lemma ConfirmedSoFar(
      before: seq<Event>, log: seq<Event>, v: nat, count: nat, c: Candidate, expected: ByteString, m: Metadata)
    requires SameButChanged(c.meta, m) && 0 < count <= 6 && before + Confirmation(c, expected, m)[..count] <= log
    requires LinkedAt(log, v, |before|, c.output, c.parent, c.name)
    ensures Confirmed(log, v, |before|, count, c, expected)
  {
    var confirmation := Confirmation(c, expected, m)[..count];
    assert log[|before|..|before| + count] == (before + confirmation)[|before|..] == confirmation;
  }

  lemma LinkedLater(log: seq<Event>, later: seq<Event>, v: nat, n: Option<nat>, output: nat, parent: nat, name: ByteString)
    requires OnlyLink(log, v, n, output, parent, name) && NoLinks(log, later)
    ensures OnlyLink(later, v, n, output, parent, name)
  {
    assert forall i | 0 <= i < |log| :: later[i] == log[i];
  }

  /**
   * From the commit point on. The state moves forward with what has been established, and every exception
   * leaves it where it is; in an ideal run there is none.
   */
  method Commit(k: Kernel, r: Request, candidate: Candidate, ghost w: World)
    returns (raised: Option<Exception>, state: State, ghost n: Option<nat>)
    requires k.Valid() && candidate.output in k.held && candidate.parent in k.held && CandidateOk(candidate, r)
    modifies k`clock, k`log
    ensures k.Valid() && old(k.log) < k.log
    ensures OnlyLink(k.log, |old(k.log)|, n, candidate.output, candidate.parent, candidate.name)
    ensures state in {NotCommittedState, CommittedNotDurable, CommittedNameUnavailable, Durable}
    ensures raised.None? ==> state == Durable
    ensures state == NotCommittedState && raised == Some(NotCommitted) ==>
              n == None && Refused(k.log, candidate.output, candidate.parent, candidate.name)
    ensures state != NotCommittedState ==> Claims(k.log, |old(k.log)|, state, candidate, r.expected)
    ensures state in {NotCommittedState, CommittedNotDurable} ==> NoSync(old(k.log), k.log)
    ensures IdealOutput(k.answers, w, r, candidate) ==> raised.None?
  {
    hide Kernel.Valid, Confirmed, Confirmation, CandidateOk, IdealOutput, LinkedAt, OnlyLink, NoSync, HasLink;
    state := NotCommittedState;
    ghost var v := |k.log|;
    var output, parent, name := candidate.output, candidate.parent, candidate.name;
    IdealLinks(k.answers, w, r, candidate);
    raised, n := PublishAnonymousNoReplace(k, output, parent, name);
    if raised.Some? { return; }
    state := CommittedNotDurable;
    ghost var linked := k.log;
    OnlyIsLinked(linked, v, n.value, output, parent, name);
    assert linked[|linked| - 1] == LinkMade(output, parent, name) by {
      LinkIsThere(linked, v, n.value, output, parent, name);
    }
    var published;
    raised, published := VerifyPublished(k, r, candidate, w);
    LinkedLater(linked, k.log, v, n, output, parent, name);
    OnlyIsLinked(k.log, v, n.value, output, parent, name);
    if raised.Some? {
      NoSyncLater(old(k.log), linked, k.log);
      return;
    }
    LinkThenChecks(linked, k.log, candidate, r.expected, published);
    ghost var synced := k.log;
    raised, state := ConfirmName(k, r, candidate, published, v, linked[..|linked| - 1], w);
    LinkedLater(synced, k.log, v, n, output, parent, name);
  }

  lemma IdealLinks(answers: Behaviour, w: World, r: Request, c: Candidate)
    ensures IdealOutput(answers, w, r, c) ==> LinkSucceeds(answers, c.output, c.parent, c.name)
  {
  }

  lemma NoSyncLater(before: seq<Event>, linked: seq<Event>, log: seq<Event>)
    requires before <= linked <= log && NoSync(before, linked) && NoSync(linked, log)
    ensures NoSync(before, log)
  {
    assert forall i | 0 <= i < |linked| :: log[i] == linked[i];
  }

  lemma LinkIsThere(log: seq<Event>, v: nat, n: nat, output: nat, parent: nat, name: ByteString)
    requires LinkedAt(log, v, n, output, parent, name)
    ensures v < n < |log| && log[n] == LinkMade(output, parent, name) && HasLink(log)
  {
  }

  lemma HasLinkLater(log: seq<Event>, later: seq<Event>)
    requires HasLink(log) && log <= later
    ensures HasLink(later)
  {
    var i :| 0 <= i < |log| && log[i].LinkMade?;
    assert later[i] == log[i];
  }

  lemma LinkedAtLater(log: seq<Event>, later: seq<Event>, v: nat, n: nat, output: nat, parent: nat, name: ByteString)
    requires LinkedAt(log, v, n, output, parent, name) && log <= later
    ensures LinkedAt(later, v, n, output, parent, name)
  {
  }

  lemma OnlyIsLinked(log: seq<Event>, v: nat, n: nat, output: nat, parent: nat, name: ByteString)
    requires OnlyLink(log, v, Some(n), output, parent, name)
    ensures LinkedAt(log, v, n, output, parent, name) && HasLink(log)
  {
  }

  lemma LinkThenChecks(linked: seq<Event>, log: seq<Event>, c: Candidate, expected: ByteString, m: Metadata)
    requires linked != [] && linked[|linked| - 1] == LinkMade(c.output, c.parent, c.name)
    requires log == linked + Confirmation(c, expected, m)[1..5]
    ensures linked[..|linked| - 1] + Confirmation(c, expected, m)[..5] == log
  {
    var confirmation := Confirmation(c, expected, m);
    assert [confirmation[0]] + confirmation[1..5] == confirmation[..5];
    assert linked == linked[..|linked| - 1] + [confirmation[0]];
  }

  /** Looks the name up, once the directory is synced. */
  method ConfirmName(
      k: Kernel, r: Request, c: Candidate, published: Metadata, ghost v: nat, ghost before: seq<Event>, ghost w: World)
    returns (raised: Option<Exception>, state: State)
    requires k.Valid() && c.parent in k.held && SameButChanged(c.meta, published)
    requires before + Confirmation(c, r.expected, published)[..5] == k.log
    requires published.regular && published.size == r.bytes
    requires LinkedAt(k.log, v, |before|, c.output, c.parent, c.name)
    modifies k`clock, k`log
    ensures k.Valid() && NoLinks(old(k.log), k.log)
    ensures state in {CommittedNameUnavailable, Durable} && (raised.None? ==> state == Durable)
    ensures v <= |k.log| && Claims(k.log, v, state, c, r.expected)
    ensures IdealOutput(k.answers, w, r, c) && HasLink(old(k.log)) && published == w.published ==> raised.None?
  {
    LinkIsThere(k.log, v, |before|, c.output, c.parent, c.name);
    hide Kernel.Valid, Confirmed, Confirmation, LinkedAt, HasLink, IdealOutput;
    ghost var confirmation, linked := Confirmation(c, r.expected, published), k.log;
    raised := CheckName(k, r, c, published, w);
    LinkedAtLater(linked, k.log, v, |before|, c.output, c.parent, c.name);
    ConfirmedSoFar(before, k.log, v, 5, c, r.expected, published);
    state := CommittedNameUnavailable;
    if raised.Some? { return; }
    state := Durable;
    LastConfirmation(c, r.expected, published);
    assert confirmation[..5] + [confirmation[5]] == confirmation[..6];
    ConfirmedSoFar(before, k.log, v, 6, c, r.expected, published);
    raised := RecordIt(k, r, c, w);
  }

  /** Constructs a record, which may raise. */
  method RecordIt(k: Kernel, ghost r: Request, ghost c: Candidate, ghost w: World) returns (raised: Option<Exception>)
    requires k.Valid()
    modifies k`clock
    ensures k.Valid()
    ensures IdealOutput(k.answers, w, r, c) ==> raised.None?
  {
    raised := k.Try();
  }

  /** The name must now be that of the verified file, unchanged since. */
  method CheckName(k: Kernel, r: Request, c: Candidate, published: Metadata, ghost w: World)
    returns (raised: Option<Exception>)
    requires k.Valid() && c.parent in k.held && published.regular && published.size == r.bytes
    modifies k`clock, k`log
    ensures k.Valid() && NoLinks(old(k.log), k.log)
    ensures raised.None? ==> k.log == old(k.log) + [NameInspected(c.parent, c.name, published)]
    ensures IdealOutput(k.answers, w, r, c) && HasLink(old(k.log)) && published == w.published ==> raised.None?
  {
    hide Kernel.Valid, HasLink;
    raised := RecordIt(k, r, c, w);
    if raised.Some? { return; }
    var named;
    raised, named := k.InspectName(c.parent, c.name);
    if raised.Some? { return if raised.value in {OsFailure, Missing} then Some(NameUnavailable) else raised; }
    if named != published || !named.regular || named.size != r.bytes { raised := Some(NameUnavailable); }
  }

  lemma LastConfirmation(c: Candidate, expected: ByteString, m: Metadata)
    ensures Confirmation(c, expected, m)[5] == NameInspected(c.parent, c.name, m)
  {
  }

  /** After an exception at the commit point: does the kernel now report the verified inode as linked? */
  method InspectAfterFailure(k: Kernel, candidate: Candidate) returns (state: State)
    requires k.Valid() && candidate.output in k.held
    modifies k`clock, k`log
    ensures k.Valid() && NoLinks(old(k.log), k.log)
    ensures state in {CommittedNotDurable, CommitOutcomeUnknown}
    ensures state == CommittedNotDurable <==> ReportedLinked(k.log, |old(k.log)|, candidate)
  {
    ghost var n := |k.log|;
    var raised, meta := k.Inspect(candidate.output);
    if raised.None? && meta.links >= 1 && meta.inode == candidate.meta.inode {
      assert ReportsLinked(k.log[n], candidate);
      return CommittedNotDurable;
    }
    state := CommitOutcomeUnknown;
  }

  /** The candidate's descriptors are those of the request, and position `v` comes right after its verification. */
  ghost predicate CandidateOf(log: seq<Event>, v: nat, c: Candidate, r: Request) {
    && CandidateOk(c, r) && 6 <= v <= |log| && log[v - 6..v] == Verification(c, r.expected)
    && (exists sourceParent: nat | Opened(c.source, Some(sourceParent), r.source.name) in log ::
          ReachedBy(log, sourceParent, r.source.directory))
    && ReachedBy(log, c.parent, r.target.directory) && Opened(c.output, Some(c.parent), []) in log
  }

  /**
   * What a report claims is what happened: nothing was linked if it says not committed; otherwise, after
   * its verification, exactly the claimed calls were made on the very descriptors that were verified.
   */
  ghost predicate Sound(log: seq<Event>, state: State, c: Option<Candidate>, r: Request) {
    if state == NotCommittedState then forall i | 0 <= i < |log| :: !log[i].LinkMade?
    else c.Some? && OneLink(log, c.value) && exists v :: CommittedFrom(log, v, state, c.value, r)
  }

  ghost predicate CommittedFrom(log: seq<Event>, v: nat, state: State, c: Candidate, r: Request) {
    CandidateOf(log, v, c, r) && NoLinks([], log[..v]) && Claims(log, v, state, c, r.expected)
  }

  lemma {:induction false} SoundLater(log: seq<Event>, later: seq<Event>, state: State, c: Option<Candidate>, r: Request)
    requires Sound(log, state, c, r) && NoLinks(log, later)
    ensures Sound(later, state, c, r)
  {
    hide CandidateOf, Claims, CommittedFrom;
    assert forall i | 0 <= i < |log| :: later[i] == log[i];
    if state != NotCommittedState {
      var n :| CommittedFrom(log, n, state, c.value, r);
      CommittedLater(log, later, n, state, c.value, r);
    }
  }

  lemma CommittedLater(log: seq<Event>, later: seq<Event>, n: nat, state: State, c: Candidate, r: Request)
    requires CommittedFrom(log, n, state, c, r) && NoLinks(log, later)
    ensures CommittedFrom(later, n, state, c, r)
  {
    hide Claims, CandidateOf;
    assert n <= |log| by {
      CommitPointInside(log, n, c, r);
    }
    assert later[..n] == log[..n];
    CandidateLater(log, later, n, c, r);
    ClaimsLater(log, later, n, state, c, r.expected);
  }

  lemma CommitPointInside(log: seq<Event>, n: nat, c: Candidate, r: Request)
    requires CandidateOf(log, n, c, r)
    ensures 6 <= n <= |log|
  {
  }

  lemma CandidateLater(log: seq<Event>, later: seq<Event>, n: nat, c: Candidate, r: Request)
    requires CandidateOf(log, n, c, r) && log <= later
    ensures CandidateOf(later, n, c, r)
  {
    hide Verification, CandidateOk;
    assert later[n - 6..n] == log[n - 6..n];
    var sourceParent: nat :| Opened(c.source, Some(sourceParent), r.source.name) in log
                             && ReachedBy(log, sourceParent, r.source.directory);
    ReachedLater(log, later, sourceParent, r.source.directory);
    ReachedLater(log, later, c.parent, r.target.directory);
  }

  lemma ClaimsLater(log: seq<Event>, later: seq<Event>, v: nat, state: State, c: Candidate, expected: ByteString)
    requires v <= |log| && Claims(log, v, state, c, expected) && NoLinks(log, later)
    ensures Claims(later, v, state, c, expected)
  {
    hide Confirmed;
    match state
    case NotCommittedState =>
      assert later[..v] == log[..v];
    case CommittedNotDurable =>
      if ReportedLinked(log, v, c) {
        var i :| v <= i < |log| && ReportsLinked(log[i], c);
        assert ReportsLinked(later[i], c);
      } else {
        var n: nat :| LinkedAt(log, v, n, c.output, c.parent, c.name);
        assert LinkedAt(later, v, n, c.output, c.parent, c.name);
      }
    case CommittedNameUnavailable =>
      var n: nat :| Confirmed(log, v, n, 5, c, expected);
      ConfirmedLater(log, later, v, n, 5, c, expected);
    case Durable =>
      var n: nat :| Confirmed(log, v, n, 6, c, expected);
      ConfirmedLater(log, later, v, n, 6, c, expected);
    case CommitOutcomeUnknown =>
  }

  lemma ConfirmedLater(
      log: seq<Event>, later: seq<Event>, v: nat, n: nat, count: nat, c: Candidate, expected: ByteString)
    requires Confirmed(log, v, n, count, c, expected) && log <= later
    ensures Confirmed(later, v, n, count, c, expected)
  {
    hide Confirmation;
    assert n + count <= |log| ==> later[n..n + count] == log[n..n + count];
  }

  /** The commit, and the look at what became of it if its outcome is unclear. */
  method Publish(k: Kernel, r: Request, candidate: Candidate, ghost w: World)
    returns (raised: Option<Exception>, state: State)
    requires k.Valid() && candidate.output in k.held && candidate.parent in k.held
    requires CandidateOf(k.log, |k.log|, candidate, r) && NoLinks([], k.log)
    modifies k`clock, k`log
    ensures k.Valid() && Sound(k.log, state, Some(candidate), r)
    ensures raised.None? ==> state == Durable
    ensures state == NotCommittedState ==> Refused(k.log, candidate.output, candidate.parent, candidate.name)
    ensures IdealOutput(k.answers, w, r, candidate) ==> raised.None?
  {
    hide Kernel.Valid, CandidateOf, Claims, IdealOutput, OnlyLink, LinkedAt, Refused;
    ghost var before, v := k.log, |k.log|;
    assert CandidateOk(candidate, r) by {
      CandidateIsOk(k.log, v, candidate, r);
    }
    hide CandidateOk;
    ghost var n;
    raised, state, n := Commit(k, r, candidate, w);
    ghost var committed := k.log;
    if raised.Some? && state == NotCommittedState && raised != Some(NotCommitted) {
      state := InspectAfterFailure(k, candidate);
      InspectionClaims(committed, k.log, v, state, candidate, r.expected);
      LinkedLater(committed, k.log, v, n, candidate.output, candidate.parent, candidate.name);
    }
    assert k.log[..v] == before;
    CandidateLater(before, k.log, v, candidate, r);
    CommittedHere(k.log, v, n, state, candidate, r);
  }

  lemma CandidateIsOk(log: seq<Event>, n: nat, c: Candidate, r: Request)
    requires CandidateOf(log, n, c, r)
    ensures CandidateOk(c, r)
  {
  }

  lemma InspectionClaims(
      committed: seq<Event>, log: seq<Event>, n: nat, state: State, c: Candidate, expected: ByteString)
    requires n <= |committed| && committed <= log && state in {CommittedNotDurable, CommitOutcomeUnknown}
    requires state == CommittedNotDurable ==> ReportedLinked(log, |committed|, c)
    ensures Claims(log, n, state, c, expected)
  {
  }

  lemma CommittedHere(log: seq<Event>, v: nat, n: Option<nat>, state: State, c: Candidate, r: Request)
    requires CandidateOf(log, v, c, r) && v <= |log| && NoLinks([], log[..v])
    requires OnlyLink(log, v, n, c.output, c.parent, c.name)
    requires if state == NotCommittedState then n == None else Claims(log, v, state, c, r.expected)
    ensures Sound(log, state, Some(c), r)
  {
    hide CandidateOf, Claims;
    assert forall i | 0 <= i < v :: log[..v][i] == log[i];
    if state != NotCommittedState {
      assert CommittedFrom(log, v, state, c, r);
    }
  }

  /** Every descriptor ever opened has had one close attempt, and only one. */
  ghost predicate EachClosedOnce(attempts: seq<nat>, count: nat) {
    Distinct(attempts) && forall fd: nat :: fd in attempts <==> fd < count
  }

  /** The descriptors an operation holds, each at most once. */
  ghost predicate Holds(held: set<nat>, descriptors: seq<Option<nat>>) {
    && (forall i | 0 <= i < |descriptors| && descriptors[i].Some? :: descriptors[i].value in held)
    && (forall i, j | 0 <= i < j < |descriptors| && descriptors[i].Some? :: descriptors[i] != descriptors[j])
    && (forall fd | fd in held :: Some(fd) in descriptors)
  }

  method OpenInputs(k: Kernel, r: Request, ghost w: World)
    returns (raised: Option<Exception>, fds: seq<Option<nat>>, sourceMeta: Metadata)
    requires k.Valid() && k.held == {} && k.log == []
    modifies k
    ensures k.Valid() && NoLinks([], k.log) && |fds| == 4 && Holds(k.held, fds)
    ensures raised.None? ==> forall i | 0 <= i < 4 :: fds[i].Some?
    ensures raised.None? ==> FileReached(k.log, fds[2].value, fds[3].value, r.source)
    ensures raised.None? ==> ReachedBy(k.log, fds[1].value, r.target.directory)
    ensures raised.None? ==> Opened(fds[0].value, fds[1], []) in k.log
    ensures Ideal(k.answers, w, r, old(k.count)) ==>
              raised.None? && fds[2] == Some(w.file) && fds[0] == Some(w.output) && sourceMeta == w.sourceMeta
  {
    hide Kernel.Valid, ReachedBy, Calm, HasLink;
    fds := [None, None, None, None];
    var file, sourceParent, parent, fd;
    raised, file, sourceParent, sourceMeta := OpenRegularPathSecure(k, r.source, w);
    if raised.Some? { return; }
    fds := [None, None, Some(file), Some(sourceParent)];
    if sourceMeta.size != r.bytes { return Some(Domain), fds, sourceMeta; }
    ghost var before := k.log;
    raised, parent := OpenDestinationParentSecure(k, r.target.directory, w);
    if raised.Some? { return; }
    FileReachedLater(before, k.log, file, sourceParent, r.source);
    fds := [None, Some(parent), Some(file), Some(sourceParent)];
    before := k.log;
    var missing := RequireMissing(k, parent, r.target.name, w);
    if missing.Some? { return missing, fds, sourceMeta; }
    raised, fd := CreateTemporaryOutput(k, parent, w);
    if raised.Some? { return; }
    FileReachedLater(before, k.log, file, sourceParent, r.source);
    ReachedLater(before, k.log, parent, r.target.directory);
    fds := [Some(fd), Some(parent), Some(file), Some(sourceParent)];
  }

  /** Goes on only if the lookup of the name raises that it is missing. */
  method RequireMissing(k: Kernel, parent: nat, name: ByteString, ghost w: World) returns (raised: Option<Exception>)
    requires k.Valid() && parent in k.held && NoLinks([], k.log)
    modifies k`clock, k`log
    ensures k.Valid() && NoLinks([], k.log) && old(k.log) <= k.log && !HasLink(k.log)
    ensures Calm(k.answers, w) ==> raised.None?
  {
    hide Kernel.Valid;
    var found, named := k.InspectName(parent, name);
    raised := if found.None? then Some(Domain) else if found == Some(Missing) then None else found;
  }

  /**
   * The whole operation. Whatever fails, the reported state is sound and every descriptor opened has had
   * exactly one close attempt; a record is returned only for a durable publication, and is returned if nothing
   * fails. A verified candidate is reported as not committed only if the kernel refused the link.
   */
  method PrepareLocalSource(k: Kernel, r: Request, ghost w: World)
    returns (returned: bool, state: State, candidate: Option<Candidate>)
    requires k.Valid() && k.held == {} && k.log == []
    modifies k
    ensures EachClosedOnce(k.attempts, k.count)
    ensures Sound(k.log, state, candidate, r)
    ensures returned ==> state == Durable
    ensures Ideal(k.answers, w, r, old(k.count)) ==> returned
    ensures candidate.Some? && state == NotCommittedState ==> WasRefused(k.log, candidate.value)
  {
    hide Sound, CandidateOf, Claims, ReachedBy, Verification, Ideal, IdealOutput, HasLink, Refused, WasRefused;
    state, candidate := NotCommittedState, None;
    var raised, fds, sourceMeta := OpenInputs(k, r, w);
    NothingLinked(k.log, candidate, r);
    IdealIsCalm(k.answers, w, r, old(k.count));
    if raised.None? {
      ghost var before := k.log;
      var verified;
      raised, verified := VerifyTemporary(k, r, fds[2].value, sourceMeta, fds[0].value, fds[1].value, w);
      NothingLinked(k.log, candidate, r);
      if raised.None? {
        candidate := Some(verified);
        VerifiedCandidate(before, k.log, verified, fds[3].value, r);
        raised, state := Publish(k, r, verified, w);
        RefusalStays(k.log, k.log, verified);
      }
    }
    ghost var before := k.log;
    var failures := CloseIndependently(k, fds, w);
    SoundLater(before, k.log, state, candidate, r);
    if candidate.Some? {
      RefusalStays(before, k.log, candidate.value);
    }
    returned := raised.None? && failures == 0;
  }

  /** At some point the kernel reported that the primitive is missing, or that it refuses to link this output. */
  predicate WasRefused(log: seq<Event>, c: Candidate) {
    exists i | 0 <= i < |log| :: log[i] in {PrimitiveLoaded(false), LinkRefused(c.output, c.parent, c.name)}
  }

  lemma RefusalStays(log: seq<Event>, later: seq<Event>, c: Candidate)
    requires log <= later
    ensures Refused(log, c.output, c.parent, c.name) || WasRefused(log, c) ==> WasRefused(later, c)
  {
    if Refused(log, c.output, c.parent, c.name) {
      assert later[|log| - 1] == log[|log| - 1];
    } else if WasRefused(log, c) {
      var i :| 0 <= i < |log| && log[i] in {PrimitiveLoaded(false), LinkRefused(c.output, c.parent, c.name)};
      assert later[i] == log[i];
    }
  }

  lemma IdealIsCalm(answers: Behaviour, w: World, r: Request, first: nat)
    ensures Ideal(answers, w, r, first) ==> Calm(answers, w) && IdealRun(answers, w, r)
  {
  }

  lemma NothingLinked(log: seq<Event>, c: Option<Candidate>, r: Request)
    requires NoLinks([], log)
    ensures Sound(log, NotCommittedState, c, r) && !HasLink(log)
  {
  }

  lemma VerifiedCandidate(before: seq<Event>, log: seq<Event>, c: Candidate, sourceParent: nat, r: Request)
    requires log == before + Verification(c, r.expected) && CandidateOk(c, r)
    requires FileReached(before, c.source, sourceParent, r.source)
    requires ReachedBy(before, c.parent, r.target.directory) && Opened(c.output, Some(c.parent), []) in before
    ensures CandidateOf(log, |log|, c, r)
  {
    hide Verification, CandidateOk;
    assert log[|log| - 6..] == Verification(c, r.expected);
    ReachedLater(before, log, sourceParent, r.source.directory);
    ReachedLater(before, log, c.parent, r.target.directory);
    assert Opened(c.source, Some(sourceParent), r.source.name) in log;
  }
}
