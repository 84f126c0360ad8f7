/** Observing a process tree: which identities belong to it, whatever has been reparented or reused. */
module ProcessObserver {

  /** A PID with its start time, so that a reused PID is another identity. */
  type Identity = (nat, nat)

  datatype Snapshot = Snapshot(pid: nat, start: nat, parent: nat, group: nat, rss: nat) {
    function Id(): Identity {
      (pid, start)
    }
  }

  /** A PID whose known identity is alive in these snapshots. */
  predicate KnownPid(snapshots: seq<Snapshot>, known: set<Identity>, pid: nat) {
    exists s | s in snapshots :: s.pid == pid && s.Id() in known
  }

  ghost predicate Closed(snapshots: seq<Snapshot>, known: set<Identity>) {
    forall s | s in snapshots && KnownPid(snapshots, known, s.parent) :: s.Id() in known
  }

  /** What belongs to the tree outright: everything known before, the live root, the group's members. */
  ghost predicate Seeded(snapshots: seq<Snapshot>, root: Identity, prior: set<Identity>, known: set<Identity>) {
    && prior <= known
    && (forall s | s in snapshots && (s.Id() == root || s.group == root.0) :: s.Id() in known)
  }

  /** `known` lies inside every closed set that contains the seeds. */
  ghost predicate Minimal(snapshots: seq<Snapshot>, root: Identity, prior: set<Identity>, known: set<Identity>) {
    forall other: set<Identity> | Seeded(snapshots, root, prior, other) && Closed(snapshots, other) :: known <= other
  }

  function Identities(snapshots: seq<Snapshot>): set<Identity> {
    set s | s in snapshots :: s.Id()
  }

  method Seed(snapshots: seq<Snapshot>, root: Identity, prior: set<Identity>) returns (known: set<Identity>)
    ensures Seeded(snapshots, root, prior, known) && Minimal(snapshots, root, prior, known)
    ensures known <= prior + Identities(snapshots)
  {
    known := prior;
    if root in Identities(snapshots) {
      known := known + {root};
    }
    for i := 0 to |snapshots|
      invariant prior <= known <= prior + Identities(snapshots)
      invariant root in Identities(snapshots) ==> root in known
      invariant forall j | 0 <= j < i && snapshots[j].group == root.0 :: snapshots[j].Id() in known
      invariant Minimal(snapshots, root, prior, known)
    {
      if snapshots[i].group == root.0 {
        assert snapshots[i] in snapshots;
        known := known + {snapshots[i].Id()};
      }
    }
  }

  /** One pass over the snapshots: children of PIDs known at its start join; `changed` says whether the set was not closed. */
  method AddChildren(snapshots: seq<Snapshot>, root: Identity, prior: set<Identity>, before: set<Identity>)
    returns (known: set<Identity>, changed: bool)
    requires Minimal(snapshots, root, prior, before)
    ensures before <= known <= before + Identities(snapshots)
    ensures Minimal(snapshots, root, prior, known)
    ensures changed <==> known != before
    ensures changed <==> !Closed(snapshots, before)
  {
    known, changed := before, false;
    var currentPids := set s | s in snapshots && s.Id() in before :: s.pid;
    assert forall pid :: pid in currentPids <==> KnownPid(snapshots, before, pid);
    for i := 0 to |snapshots|
      invariant before <= known <= before + Identities(snapshots)
      invariant forall j | 0 <= j < i && snapshots[j].parent in currentPids :: snapshots[j].Id() in known
      invariant Minimal(snapshots, root, prior, known)
      invariant changed <==> known != before
      invariant changed ==> !Closed(snapshots, before)
    {
      var s := snapshots[i];
      assert s in snapshots;
      if s.parent in currentPids && s.Id() !in known {
        JoinsEveryClosedSet(snapshots, root, prior, before, known, s);
        known, changed := known + {s.Id()}, true;
      }
    }
  }

  lemma JoinsEveryClosedSet(
      snapshots: seq<Snapshot>, root: Identity, prior: set<Identity>, before: set<Identity>, known: set<Identity>, s: Snapshot)
    requires Minimal(snapshots, root, prior, before) && Minimal(snapshots, root, prior, known)
    requires s in snapshots && KnownPid(snapshots, before, s.parent)
    ensures Minimal(snapshots, root, prior, known + {s.Id()})
  {
    forall other: set<Identity> | Seeded(snapshots, root, prior, other) && Closed(snapshots, other)
      ensures known + {s.Id()} <= other
    {
      var p :| p in snapshots && p.pid == s.parent && p.Id() in before;
      assert KnownPid(snapshots, other, s.parent);
    }
  }

  /**
   * The observation ends, loses nothing it knew, and returns the least set that contains the seeds and is
   * closed under "its parent PID belongs to a currently known identity".
   */
  method ObserveProcesses(snapshots: seq<Snapshot>, root: Identity, prior: set<Identity>)
    returns (known: set<Identity>, escaped: set<Identity>, groupRss: nat)
    ensures Seeded(snapshots, root, prior, known) && Closed(snapshots, known)
    ensures Minimal(snapshots, root, prior, known)
    ensures known <= prior + Identities(snapshots)
    ensures forall id :: id in escaped <==>
              exists s | s in snapshots && s.Id() == id :: id in known && s.group != root.0 && s.pid != root.0
    ensures groupRss == GroupRss(snapshots, root.0)
  {
    known := Seed(snapshots, root, prior);
    var changed := true;
    while changed
      invariant Seeded(snapshots, root, prior, known) && Minimal(snapshots, root, prior, known)
      invariant known <= prior + Identities(snapshots)
      invariant !changed ==> Closed(snapshots, known)
      decreases changed, |Identities(snapshots) - known|
    {
      ghost var before := known;
      known, changed := AddChildren(snapshots, root, prior, known);
      if changed {
        FewerLeft(Identities(snapshots), before, known);
      }
    }
    escaped := set s | s in snapshots && s.Id() in known && s.group != root.0 && s.pid != root.0 :: s.Id();
    groupRss := 0;
    for i := 0 to |snapshots|
      invariant groupRss == GroupRss(snapshots[..i], root.0)
    {
      assert snapshots[..i + 1][..i] == snapshots[..i];
      groupRss := groupRss + (if snapshots[i].group == root.0 then snapshots[i].rss else 0);
    }
    assert snapshots[..|snapshots|] == snapshots;
  }

  function GroupRss(snapshots: seq<Snapshot>, group: nat): nat {
    if snapshots == [] then 0 else
    var n := |snapshots| - 1;
    GroupRss(snapshots[..n], group) + (if snapshots[n].group == group then snapshots[n].rss else 0)
  }

  lemma FewerLeft(all: set<Identity>, before: set<Identity>, known: set<Identity>)
    requires before <= known <= before + all && known != before
    ensures |all - known| < |all - before|
  {
    var id :| id in known && id !in before;
    assert all - known <= (all - before) - {id};
    SubsetIsSmaller(all - known, (all - before) - {id});
  }

  lemma {:induction false} SubsetIsSmaller(a: set<Identity>, b: set<Identity>)
    requires a <= b
    ensures |a| <= |b|
    decreases a
  {
    if a != {} {
      var x :| x in a;
      SubsetIsSmaller(a - {x}, b - {x});
    }
  }

  /** Two sets that are both least are the same: the result does not depend on the order of the snapshots. */
  lemma LeastIsUnique(
      snapshots: seq<Snapshot>, reordered: seq<Snapshot>, root: Identity, prior: set<Identity>,
      a: set<Identity>, b: set<Identity>)
    requires forall s :: s in snapshots <==> s in reordered
    requires Seeded(snapshots, root, prior, a) && Closed(snapshots, a) && Minimal(snapshots, root, prior, a)
    requires Seeded(reordered, root, prior, b) && Closed(reordered, b) && Minimal(reordered, root, prior, b)
    ensures a == b
  {
    SameSnapshots(snapshots, reordered, root, prior, a);
    SameSnapshots(reordered, snapshots, root, prior, b);
  }

  lemma SameSnapshots(
      snapshots: seq<Snapshot>, reordered: seq<Snapshot>, root: Identity, prior: set<Identity>, known: set<Identity>)
    requires forall s :: s in snapshots <==> s in reordered
    requires Seeded(snapshots, root, prior, known) && Closed(snapshots, known)
    ensures Seeded(reordered, root, prior, known) && Closed(reordered, known)
  {
    forall pid
      ensures KnownPid(snapshots, known, pid) <==> KnownPid(reordered, known, pid)
    {
    }
  }

  // ----- Membership, told by descent

  /** The snapshot belongs outright, or its parent PID is that of a live process known before. */
  predicate StartsLine(snapshots: seq<Snapshot>, root: Identity, prior: set<Identity>, s: Snapshot) {
    || s.Id() == root || s.group == root.0 || s.Id() in prior
    || exists p | p in snapshots :: p.Id() in prior && p.pid == s.parent
  }

  /** A line of descent through the snapshots: each process's parent PID is that of the one before. */
  predicate Line(snapshots: seq<Snapshot>, root: Identity, prior: set<Identity>, line: seq<Snapshot>) {
    && line != [] && (forall s | s in line :: s in snapshots) && StartsLine(snapshots, root, prior, line[0])
    && forall i | 0 < i < |line| :: line[i].parent == line[i - 1].pid
  }

  ghost predicate Descends(snapshots: seq<Snapshot>, root: Identity, prior: set<Identity>, s: Snapshot) {
    exists line :: Line(snapshots, root, prior, line) && line[|line| - 1] == s
  }

  lemma {:induction false} LinesStayInside(
      snapshots: seq<Snapshot>, root: Identity, prior: set<Identity>, known: set<Identity>, line: seq<Snapshot>)
    requires Seeded(snapshots, root, prior, known) && Closed(snapshots, known) && Line(snapshots, root, prior, line)
    ensures line[|line| - 1].Id() in known
    decreases |line|
  {
    var n := |line| - 1;
    assert line[n] in line && line[0] in line;
    if n > 0 {
      LinesStayInside(snapshots, root, prior, known, line[..n]);
      assert line[n - 1] in line;
      assert KnownPid(snapshots, known, line[n].parent);
    } else if exists p | p in snapshots :: p.Id() in prior && p.pid == line[0].parent {
      assert KnownPid(snapshots, known, line[0].parent);
    }
  }

  /** The ends of lines, and nothing else, are what a closed set with the seeds must hold besides what was known. */
  lemma EndsAreClosed(snapshots: seq<Snapshot>, root: Identity, prior: set<Identity>) returns (ends: set<Identity>)
    ensures forall id :: id in ends <==>
              id in prior || exists s | s in snapshots && s.Id() == id :: Descends(snapshots, root, prior, s)
    ensures Seeded(snapshots, root, prior, ends) && Closed(snapshots, ends)
  {
    ends := prior + set s | s in snapshots && Descends(snapshots, root, prior, s) :: s.Id();
    forall s | s in snapshots && StartsLine(snapshots, root, prior, s)
      ensures s.Id() in ends
    {
      assert Line(snapshots, root, prior, [s]) && [s][|[s]| - 1] == s;
    }
    forall s | s in snapshots && KnownPid(snapshots, ends, s.parent)
      ensures s.Id() in ends
    {
      var p :| p in snapshots && p.pid == s.parent && p.Id() in ends;
      if p.Id() in prior {
        assert StartsLine(snapshots, root, prior, s);
      } else {
        var q :| q in snapshots && q.Id() == p.Id() && Descends(snapshots, root, prior, q);
        LineOneMore(snapshots, root, prior, q, s);
      }
    }
  }

  lemma LineOneMore(snapshots: seq<Snapshot>, root: Identity, prior: set<Identity>, q: Snapshot, s: Snapshot)
    requires Descends(snapshots, root, prior, q) && s in snapshots && s.parent == q.pid
    ensures Descends(snapshots, root, prior, s)
  {
    var line :| Line(snapshots, root, prior, line) && line[|line| - 1] == q;
    var longer := line + [s];
    assert longer[0] == line[0];
    assert Line(snapshots, root, prior, longer) && longer[|longer| - 1] == s;
  }

  /**
   * Who belongs: exactly what was known before, and the live processes to which a line of descent leads from
   * the root, from a member of its group, or from a live process known before.
   */
  lemma MembersDescend(snapshots: seq<Snapshot>, root: Identity, prior: set<Identity>, known: set<Identity>)
    requires Seeded(snapshots, root, prior, known) && Closed(snapshots, known) && Minimal(snapshots, root, prior, known)
    ensures forall id :: id in known <==>
              id in prior || exists s | s in snapshots && s.Id() == id :: Descends(snapshots, root, prior, s)
  {
    var ends := EndsAreClosed(snapshots, root, prior);
    forall s | s in snapshots && Descends(snapshots, root, prior, s)
      ensures s.Id() in known
    {
      var line :| Line(snapshots, root, prior, line) && line[|line| - 1] == s;
      LinesStayInside(snapshots, root, prior, known, line);
    }
  }
}
