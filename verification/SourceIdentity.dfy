/** Capturing a source tree and checking later that nothing in it was replaced, added or removed. */
module SourceIdentity {
  import opened Bytes

  datatype FileType = Directory | Regular | Special

  datatype Metadata = Metadata(
    device: nat, inode: nat, fileType: FileType, permissions: nat, birth: Option<int>,
    modified: int, changed: int, size: nat, link: bool)

  /** A relative path as its components; the root is the empty path. */
  type Path = seq<ByteString>

  // ----- Identities

  predicate MatchesCommon(captured: Metadata, now: Metadata) {
    && captured.device == now.device && captured.inode == now.inode
    && captured.fileType == now.fileType && captured.permissions == now.permissions
    && (captured.birth.Some? ==> captured.birth == now.birth)
    && captured.modified == now.modified
    && (captured.fileType == Regular ==> captured.size == now.size)
  }

  predicate MatchesPath(captured: Metadata, now: Metadata) {
    MatchesCommon(captured, now) && captured.changed == now.changed
  }

  predicate Bound(captured: Metadata, now: Metadata) {
    !now.link && MatchesPath(captured, now)
  }

  // ----- A tree that does not change while it is walked

  /** `listing` is the order in which a directory's names are returned. */
  datatype Tree = Tree(nodes: map<Path, Metadata>, listing: Path -> seq<ByteString>) {
    predicate IsDirectory(p: Path) {
      p in nodes && nodes[p].fileType == Directory && !nodes[p].link
    }

    ghost predicate Lists(p: Path) {
      && (forall i, j | 0 <= i < j < |listing(p)| :: listing(p)[i] != listing(p)[j])
      && (forall c :: c in listing(p) <==> p + [c] in nodes)
    }

    ghost predicate Valid() {
      && [] in nodes
      && (forall p | p in nodes && p != [] :: IsDirectory(Parent(p)))
      && (forall p | p in nodes && IsDirectory(p) :: Lists(p))
    }
  }

  function Parent(p: Path): Path
    requires p != []
  {
    p[..|p| - 1]
  }

  lemma ParentOf(p: Path, c: ByteString)
    ensures Parent(p + [c]) == p
  {
  }

  /** The children of `p` named by the first `n` entries of its listing. */
  ghost predicate Listed(t: Tree, p: Path, n: nat, q: Path)
    requires n <= |t.listing(p)|
  {
    exists i | 0 <= i < n :: q == p + [t.listing(p)[i]]
  }

  // ----- Walking

  /**
   * The state of a walk: what it has seen, and the directories whose contents it has not read. Every
   * other directory it has seen has had all its children seen, and no unread directory any of them.
   */
  ghost predicate Walking(t: Tree, seen: set<Path>, pending: seq<Path>) {
    && seen <= t.nodes.Keys && [] in seen
    && (forall p | p in pending :: p in seen && t.IsDirectory(p))
    && (forall i, j | 0 <= i < j < |pending| :: pending[i] != pending[j])
    && (forall p | p in t.nodes && p != [] :: p in seen <==> Parent(p) in seen && Parent(p) !in pending)
  }

  lemma {:induction false} WalkReachesAll(t: Tree, seen: set<Path>, p: Path)
    requires t.Valid() && Walking(t, seen, []) && p in t.nodes
    ensures p in seen
    decreases |p|
  {
    if p != [] {
      assert t.IsDirectory(Parent(p));
      WalkReachesAll(t, seen, Parent(p));
    }
  }

  lemma WalkStarts(t: Tree)
    requires t.Valid() && t.IsDirectory([])
    ensures Walking(t, {[]}, [[]])
  {
  }

  ghost function Children(t: Tree, p: Path): set<Path> {
    set q | q in t.nodes && q != [] && Parent(q) == p
  }

  /** How many objects the walk can still meet. */
  ghost function Unseen(t: Tree, seen: set<Path>): nat {
    |t.nodes.Keys - seen|
  }

  lemma UnseenShrinks(t: Tree, seen: set<Path>, more: set<Path>)
    requires more <= t.nodes.Keys && more !! seen
    ensures Unseen(t, seen + more) + |more| == Unseen(t, seen)
  {
    assert t.nodes.Keys - seen == (t.nodes.Keys - (seen + more)) + more * (t.nodes.Keys - seen);
    assert more * (t.nodes.Keys - seen) == more;
  }

  /** `directories` are the directories among the children of `p`. */
  ghost predicate Subdirectories(t: Tree, p: Path, directories: seq<Path>) {
    && (forall q :: q in directories <==> q in Children(t, p) && t.IsDirectory(q))
    && (forall i, j | 0 <= i < j < |directories| :: directories[i] != directories[j])
  }

  lemma UnreadChildren(t: Tree, seen: set<Path>, pending: seq<Path>, p: Path)
    requires Walking(t, seen, pending) && p in pending
    ensures Children(t, p) !! seen
  {
  }

  lemma StillDistinct(t: Tree, seen: set<Path>, pending: seq<Path>, directories: seq<Path>)
    requires Walking(t, seen, pending) && pending != []
    requires Subdirectories(t, pending[|pending| - 1], directories)
    ensures var p, pending' := pending[|pending| - 1], pending[..|pending| - 1] + directories;
            && (forall i, j | 0 <= i < j < |pending'| :: pending'[i] != pending'[j])
            && (forall q :: q in pending' <==> (q in pending && q != p) || q in directories)
  {
    var p, rest := pending[|pending| - 1], pending[..|pending| - 1];
    UnreadChildren(t, seen, pending, p);
    assert forall q | q in rest :: q in pending && q in seen;
    assert forall q | q in directories :: q !in seen;
    assert forall q | q in pending && q != p :: q in rest;
    assert p !in rest;
    var pending' := rest + directories;
    forall i, j | 0 <= i < j < |pending'|
      ensures pending'[i] != pending'[j]
    {
      if i < |rest| <= j {
        assert pending'[i] in rest && pending'[j] in directories;
      }
    }
  }

  lemma NextSeen(t: Tree, seen: set<Path>, pending: seq<Path>, pending': seq<Path>, p: Path, q: Path)
    requires t.Valid() && Walking(t, seen, pending) && p in pending && q in t.nodes && q != []
    requires forall r :: r in pending' <==> (r in pending && r != p) || (r in Children(t, p) && t.IsDirectory(r))
    ensures var seen' := seen + Children(t, p);
            q in seen' <==> Parent(q) in seen' && Parent(q) !in pending'
  {
    UnreadChildren(t, seen, pending, p);
    assert t.IsDirectory(Parent(q));
    assert q in Children(t, p) <==> Parent(q) == p;
    assert q in seen <==> Parent(q) in seen && Parent(q) !in pending;
    assert Parent(q) in pending ==> Parent(q) in seen;
  }

  lemma WalkGetsCloser(t: Tree, seen: set<Path>, pending: seq<Path>, directories: seq<Path>)
    requires pending != [] && Children(t, pending[|pending| - 1]) !! seen
    requires Subdirectories(t, pending[|pending| - 1], directories)
    ensures var pending', seen' := pending[..|pending| - 1] + directories, seen + Children(t, pending[|pending| - 1]);
            Unseen(t, seen') < Unseen(t, seen) || (Unseen(t, seen') == Unseen(t, seen) && |pending'| < |pending|)
  {
    var p := pending[|pending| - 1];
    UnseenShrinks(t, seen, Children(t, p));
    if directories != [] {
      assert directories[0] in Children(t, p);
    }
  }

  /** Reading the last pending directory completely keeps the walk's state. */
  lemma WalkOneMore(t: Tree, seen: set<Path>, pending: seq<Path>, directories: seq<Path>)
    requires t.Valid() && Walking(t, seen, pending) && pending != []
    requires Subdirectories(t, pending[|pending| - 1], directories)
    ensures var p, pending' := pending[|pending| - 1], pending[..|pending| - 1] + directories;
            var seen' := seen + Children(t, p);
            Walking(t, seen', pending') && Children(t, p) !! seen
  {
    var p, pending' := pending[|pending| - 1], pending[..|pending| - 1] + directories;
    assert p in pending;
    UnreadChildren(t, seen, pending, p);
    StillDistinct(t, seen, pending, directories);
    hide Children, Subdirectories;
    forall q | q in t.nodes && q != []
      ensures q in seen + Children(t, p) <==> Parent(q) in seen + Children(t, p) && Parent(q) !in pending'
    {
      NextSeen(t, seen, pending, pending', p, q);
    }
  }

  // ----- Discovery

  /** What discovery accepts of one object. */
  predicate Supported(m: Metadata) {
    !m.link && m.fileType != Special && m.inode != 0
  }

  /** Reads one directory: its children's metadata, and which of them are directories. */
  method DiscoverChildren(t: Tree, p: Path, entriesBefore: map<Path, Metadata>)
    returns (ok: bool, entries: map<Path, Metadata>, directories: seq<Path>, children: seq<Path>)
    requires t.Valid() && t.IsDirectory(p)
    requires forall q | q in entriesBefore :: q in t.nodes && entriesBefore[q] == t.nodes[q]
    ensures ok <==> forall q | q in Children(t, p) :: Supported(t.nodes[q])
    ensures ok ==> entries.Keys == entriesBefore.Keys + Children(t, p)
    ensures ok ==> forall q | q in entries :: q in t.nodes && entries[q] == t.nodes[q]
    ensures ok ==> Subdirectories(t, p, directories)
    ensures ok ==> |children| == |t.listing(p)| && forall i | 0 <= i < |children| :: children[i] == p + [t.listing(p)[i]]
  {
    entries, directories, children := entriesBefore, [], [];
    var names := t.listing(p);
    assert t.Lists(p);
    for i := 0 to |names|
      invariant forall q :: q in entries <==> q in entriesBefore || Listed(t, p, i, q)
      invariant forall q | q in entries :: q in t.nodes && entries[q] == t.nodes[q]
      invariant forall q | Listed(t, p, i, q) :: Supported(t.nodes[q])
      invariant forall q :: q in directories <==> Listed(t, p, i, q) && t.IsDirectory(q)
      invariant forall a, b | 0 <= a < b < |directories| :: directories[a] != directories[b]
      invariant |children| == i && forall a | 0 <= a < i :: children[a] == p + [names[a]]
    {
      var child := p + [names[i]];
      assert names[i] in names;
      ParentOf(p, names[i]);
      ListedOneMore(t, p, i);
      var metadata := t.nodes[child];
      if !Supported(metadata) {
        assert child in Children(t, p);
        return false, entries, directories, children;
      }
      entries := entries[child := metadata];
      children := children + [child];
      if metadata.fileType == Directory {
        directories := directories + [child];
      }
    }
    AllListed(t, p);
    ok := true;
  }

  lemma ListedOneMore(t: Tree, p: Path, n: nat)
    requires n < |t.listing(p)| && t.Lists(p)
    ensures forall q :: Listed(t, p, n + 1, q) <==> Listed(t, p, n, q) || q == p + [t.listing(p)[n]]
    ensures !Listed(t, p, n, p + [t.listing(p)[n]])
  {
    forall i | 0 <= i < n
      ensures p + [t.listing(p)[i]] != p + [t.listing(p)[n]]
    {
      assert (p + [t.listing(p)[i]])[|p|] == t.listing(p)[i];
      assert (p + [t.listing(p)[n]])[|p|] == t.listing(p)[n];
    }
    forall q
      ensures Listed(t, p, n + 1, q) <==> Listed(t, p, n, q) || q == p + [t.listing(p)[n]]
    {
      if Listed(t, p, n + 1, q) {
        var i :| 0 <= i < n + 1 && q == p + [t.listing(p)[i]];
        assert i == n || Listed(t, p, n, q);
      }
      if Listed(t, p, n, q) {
        var i :| 0 <= i < n && q == p + [t.listing(p)[i]];
        assert Listed(t, p, n + 1, q);
      }
      assert q == p + [t.listing(p)[n]] ==> Listed(t, p, n + 1, q);
    }
  }

  lemma AllListed(t: Tree, p: Path)
    requires t.Valid() && t.IsDirectory(p)
    ensures forall q :: Listed(t, p, |t.listing(p)|, q) <==> q in Children(t, p)
  {
    assert t.Lists(p);
    forall q
      ensures Listed(t, p, |t.listing(p)|, q) <==> q in Children(t, p)
    {
      if q in Children(t, p) {
        var c := q[|q| - 1];
        assert q == p + [c] && c in t.listing(p);
        var i :| 0 <= i < |t.listing(p)| && t.listing(p)[i] == c;
      }
      if Listed(t, p, |t.listing(p)|, q) {
        var i :| 0 <= i < |t.listing(p)| && q == p + [t.listing(p)[i]];
        assert t.listing(p)[i] in t.listing(p);
      }
    }
  }

  /**
   * Discovery ends, and it succeeds exactly when every object is supported; it then has captured every
   * object of the tree with its metadata.
   */
  method Discover(t: Tree) returns (ok: bool, entries: map<Path, Metadata>)
    requires t.Valid()
    ensures ok <==> forall p | p in t.nodes :: Supported(t.nodes[p])
    ensures ok <==> forall p | p in t.nodes ::
                      !t.nodes[p].link && t.nodes[p].fileType in {Regular, Directory} && t.nodes[p].inode > 0
    ensures ok ==> entries == t.nodes
  {
    hide Walking, Children, Subdirectories, Unseen;
    ok, entries := false, map[];
    var root := t.nodes[[]];
    if !Supported(root) { return; }
    entries := map[[] := root];
    if root.fileType == Regular {
      OnlyRoot(t);
      return true, entries;
    }
    var pending: seq<Path> := [[]];
    WalkStarts(t);
    assert entries.Keys == {[]};
    while pending != []
      invariant Walking(t, entries.Keys, pending)
      invariant forall p | p in entries :: p in t.nodes && entries[p] == t.nodes[p] && Supported(entries[p])
      decreases Unseen(t, entries.Keys), |pending|
    {
      var current := pending[|pending| - 1];
      PendingIsDirectory(t, entries.Keys, pending);
      ghost var seen := entries.Keys;
      var read, directories, children;
      read, entries, directories, children := DiscoverChildren(t, current, entries);
      ChildrenAreThere(t, current);
      if !read { return; }
      WalkOneMore(t, seen, pending, directories);
      WalkGetsCloser(t, seen, pending, directories);
      assert entries.Keys == seen + Children(t, current);
      pending := pending[..|pending| - 1] + directories;
    }
    forall p | p in t.nodes
      ensures p in entries
    {
      WalkReachesAll(t, entries.Keys, p);
    }
    ok := true;
  }

  lemma PendingIsDirectory(t: Tree, seen: set<Path>, pending: seq<Path>)
    requires Walking(t, seen, pending) && pending != []
    ensures var p := pending[|pending| - 1];
            p in pending && p in seen && t.IsDirectory(p) && Children(t, p) !! seen
  {
    UnreadChildren(t, seen, pending, pending[|pending| - 1]);
  }

  lemma ChildrenAreThere(t: Tree, p: Path)
    ensures Children(t, p) <= t.nodes.Keys
  {
  }

  lemma OnlyRoot(t: Tree)
    requires t.Valid() && !t.IsDirectory([])
    ensures forall p | p in t.nodes :: p == []
  {
    forall p | p in t.nodes
      ensures p == []
    {
      NoDescendants(t, p);
    }
  }

  lemma {:induction false} NoDescendants(t: Tree, p: Path)
    requires t.Valid() && !t.IsDirectory([]) && p in t.nodes
    ensures p == []
    decreases |p|
  {
    if p != [] {
      NoDescendants(t, Parent(p));
    }
  }

  // ----- Verification

  /** The later tree has exactly the captured paths, each still bound to its captured object. */
  ghost predicate Unchanged(captured: map<Path, Metadata>, later: Tree) {
    captured.Keys == later.nodes.Keys && forall p | p in captured :: Bound(captured[p], later.nodes[p])
  }

  /** Reads one directory again; any child that is unknown, met before or not bound ends the check. */
  method VerifyChildren(captured: map<Path, Metadata>, t: Tree, p: Path, seenBefore: set<Path>)
    returns (ok: bool, seen: set<Path>, directories: seq<Path>)
    requires t.Valid() && t.IsDirectory(p) && Children(t, p) !! seenBefore
    ensures ok <==> forall q | q in Children(t, p) :: q in captured && Bound(captured[q], t.nodes[q])
    ensures ok ==> seen == seenBefore + Children(t, p)
    ensures ok ==> Subdirectories(t, p, directories)
  {
    seen, directories := seenBefore, [];
    var names := t.listing(p);
    assert t.Lists(p);
    AllListed(t, p);
    for i := 0 to |names|
      invariant forall q :: q in seen <==> q in seenBefore || Listed(t, p, i, q)
      invariant forall q | Listed(t, p, i, q) :: q in captured && Bound(captured[q], t.nodes[q])
      invariant forall q :: q in directories <==> Listed(t, p, i, q) && t.IsDirectory(q)
      invariant forall a, b | 0 <= a < b < |directories| :: directories[a] != directories[b]
    {
      var child := p + [names[i]];
      assert names[i] in names;
      ParentOf(p, names[i]);
      ListedOneMore(t, p, i);
      assert child in Children(t, p);
      if child !in captured || child in seen { return false, seen, directories; }
      var metadata := t.nodes[child];
      if metadata.link || (captured[child].fileType == Directory) != (metadata.fileType == Directory)
         || !MatchesPath(captured[child], metadata) {
        return false, seen, directories;
      }
      seen := seen + {child};
      if captured[child].fileType == Directory {
        directories := directories + [child];
      }
    }
    ok := true;
  }

  /**
   * What an object must look like later: every field as captured, and no link; only a birth time that was not
   * captured, and the size of anything but a regular file, are free.
   */
  function AsCaptured(captured: Metadata, now: Metadata): Metadata {
    Metadata(captured.device, captured.inode, captured.fileType, captured.permissions,
             if captured.birth == None then now.birth else captured.birth, captured.modified, captured.changed,
             if captured.fileType == Regular then captured.size else now.size, false)
  }

  lemma UnchangedByField(captured: map<Path, Metadata>, later: Tree)
    ensures Unchanged(captured, later)
            <==> && captured.Keys == later.nodes.Keys
                 && forall p | p in captured :: later.nodes[p] == AsCaptured(captured[p], later.nodes[p])
  {
    if captured.Keys == later.nodes.Keys {
      forall p | p in captured
        ensures Bound(captured[p], later.nodes[p]) <==> later.nodes[p] == AsCaptured(captured[p], later.nodes[p])
      {
      }
    }
  }

  /**
   * On a tree that does not change meanwhile, the check ends, and it succeeds exactly when the later tree
   * has the captured paths and every object is still the captured one.
   */
  method VerifyBindings(captured: map<Path, Metadata>, later: Tree) returns (ok: bool)
    requires later.Valid() && [] in captured
    requires captured[[]].fileType != Directory ==> captured.Keys == {[]}
    ensures ok <==> Unchanged(captured, later)
    ensures ok <==> && captured.Keys == later.nodes.Keys
                    && forall p | p in captured :: later.nodes[p] == AsCaptured(captured[p], later.nodes[p])
  {
    UnchangedByField(captured, later);
    hide AsCaptured, Walking, Children, Subdirectories, Unseen;
    var root := later.nodes[[]];
    if !Bound(captured[[]], root) { return false; }
    if captured[[]].fileType != Directory {
      OnlyRoot(later);
      assert later.nodes.Keys == {[]};
      return true;
    }
    var seen: set<Path>, pending: seq<Path> := {[]}, [[]];
    WalkStarts(later);
    while pending != []
      invariant Walking(later, seen, pending)
      invariant forall p | p in seen :: p in captured && p in later.nodes && Bound(captured[p], later.nodes[p])
      decreases Unseen(later, seen), |pending|
    {
      var directory := pending[|pending| - 1];
      PendingIsDirectory(later, seen, pending);
      ghost var before := seen;
      var read, directories;
      read, seen, directories := VerifyChildren(captured, later, directory, seen);
      ChildrenAreThere(later, directory);
      if !read { return false; }
      if !Bound(captured[directory], later.nodes[directory]) { return false; }
      WalkOneMore(later, before, pending, directories);
      WalkGetsCloser(later, before, pending, directories);
      pending := pending[..|pending| - 1] + directories;
    }
    forall p | p in later.nodes
      ensures p in seen
    {
      WalkReachesAll(later, seen, p);
    }
    assert seen == later.nodes.Keys;
    ok := seen == captured.Keys;
  }

  // ----- The order of the entries

  /** The sort key: depth, folded path, files after directories, path; `order` compares path texts. */
  datatype Ordering = Ordering(fold: Path -> ByteString, text: Path -> ByteString, less: (ByteString, ByteString) -> bool)

  predicate Precedes(o: Ordering, nodes: map<Path, Metadata>, a: Path, b: Path)
    requires a in nodes && b in nodes
  {
    var fileA, fileB := nodes[a].fileType != Directory, nodes[b].fileType != Directory;
    if |a| != |b| then |a| < |b|
    else if o.fold(a) != o.fold(b) then o.less(o.fold(a), o.fold(b))
    else if fileA != fileB then fileB
    else o.text(a) == o.text(b) || o.less(o.text(a), o.text(b))
  }

  /** Sorted entries list every directory before everything it contains, at any depth. */
  lemma DirectoriesComeFirst(o: Ordering, t: Tree, entries: seq<Path>, i: nat, j: nat)
    requires t.Valid() && (forall p | p in entries :: p in t.nodes)
    requires forall a, b | 0 <= a < b < |entries| :: Precedes(o, t.nodes, entries[a], entries[b])
    requires i < |entries| && j < |entries| && entries[i] < entries[j]
    ensures i < j && t.IsDirectory(entries[i])
  {
    assert entries[i] in entries && entries[j] in entries;
    PrefixIsDirectory(t, entries[i], entries[j]);
  }

  lemma {:induction false} PrefixIsDirectory(t: Tree, p: Path, q: Path)
    requires t.Valid() && q in t.nodes && p < q
    ensures t.IsDirectory(p)
    decreases |q|
  {
    if |p| + 1 == |q| {
      assert Parent(q) == p;
    } else {
      PrefixIsDirectory(t, p, Parent(q));
    }
  }
}
