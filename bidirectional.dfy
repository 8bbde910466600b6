/** BidirectionalFileSync: one polling cycle that reconciles a source
    directory with a destination directory by comparing a fresh scan of the
    source with the last snapshot taken of the destination. */
module BidirectionalFileSync {
  import opened Bytes
  import opened ModifiedUtf8
  import opened DigestHex

  /** A path relative to the synchronised directory. */
  type Path = JString

  /** The SHA-256 of a file's bytes, or None when reading or hashing it
      throws. */
  type Digester = seq<byte> -> Option<seq<byte>>

  /** What a snapshot records for a file. */
  datatype FileMeta = FileMeta(lastModified: int, checksum: string)

  /** FileMeta.equals: both fields equal. The checksum is never null (a
      failed hash is recorded as ""), so Objects.equals is plain equality. */
  predicate MetaEquals(a: FileMeta, b: FileMeta)
  {
    a.lastModified == b.lastModified && a.checksum == b.checksum
  }

  /** The record equality is structural equality, and neither field alone
      decides it. */
  lemma MetaEqualsNeedsBoth(a: FileMeta, b: FileMeta)
    ensures MetaEquals(a, b) <==> a == b
    ensures !MetaEquals(FileMeta(a.lastModified, "0"), FileMeta(a.lastModified, "1"))
    ensures !MetaEquals(FileMeta(0, a.checksum), FileMeta(1, a.checksum))
  {
  }

  /** A file on disk: its modification time in milliseconds and its bytes. */
  datatype FileEntry = FileEntry(mtime: int, content: seq<byte>)

  /** A directory tree: the regular files under it, by relative path. */
  type Tree = map<Path, FileEntry>

  /** A scan of a tree. */
  type Snapshot = map<Path, FileMeta>

  function Meta(f: FileEntry, digest: Digester): FileMeta
  {
    FileMeta(f.mtime, Checksum(digest(f.content)))
  }

  /** scanDirectory: a record for every file, built from nothing, so entries
      of an earlier scan never survive. */
  function Scan(t: Tree, digest: Digester): (s: Snapshot)
    ensures s.Keys == t.Keys
    ensures forall p :: p in s ==> s[p].lastModified == t[p].mtime
  {
    map p | p in t :: Meta(t[p], digest)
  }

  function Lookup(s: Snapshot, p: Path): Option<FileMeta>
  {
    if p in s then Some(s[p]) else None
  }

  /** A file operation the cycle performs. */
  datatype Action =
    | CopyToDst(path: Path)    // copyFile(srcDir, dstDir, path)
    | CopyToSrc(path: Path)    // copyFile(dstDir, srcDir, path)
    | DeleteAtDst(path: Path)  // deleteFile(dstDir, path)

  /** The copy decision for a path of the fresh source scan, given what the
      destination snapshot holds for it: a path the snapshot lacks is
      copied to the destination; unequal records are settled by the later
      modification time; equal times do nothing. The checksum only takes
      part through the equality test, which can never separate records
      whose times differ, so the decision is by time alone. */
  function Decide(p: Path, newMeta: FileMeta, oldMeta: Option<FileMeta>): (a: Option<Action>)
    ensures a == Some(CopyToDst(p)) <==> oldMeta.None? || newMeta.lastModified > oldMeta.value.lastModified
    ensures a == Some(CopyToSrc(p)) <==> oldMeta.Some? && oldMeta.value.lastModified > newMeta.lastModified
    ensures a.None? <==> oldMeta.Some? && oldMeta.value.lastModified == newMeta.lastModified
  {
    match oldMeta
    case None => Some(CopyToDst(p))
    case Some(prev) =>
      if MetaEquals(newMeta, prev) then None
      else if newMeta.lastModified > prev.lastModified then Some(CopyToDst(p))
      else if prev.lastModified > newMeta.lastModified then Some(CopyToSrc(p))
      else None
  }

  /** Whether `order` lists each element of `keys` exactly once: an
      iteration order of a map's key set. */
  ghost predicate Enumerates(order: seq<Path>, keys: set<Path>)
  {
    && (forall p :: p in keys <==> p in order)
    && (forall i, j :: 0 <= i < j < |order| ==> order[i] != order[j])
  }

  /** The actions of the first loop, visiting the fresh scan in `order`. */
  function CopyPhase(newState: Snapshot, dstState: Snapshot, order: seq<Path>): (r: seq<Action>)
    requires forall i :: 0 <= i < |order| ==> order[i] in newState
    ensures |r| <= |order|
    ensures forall i :: 0 <= i < |r| ==> !r[i].DeleteAtDst? && r[i].path in order
  {
    if order == [] then []
    else
      var p := order[|order| - 1];
      var front := CopyPhase(newState, dstState, order[..|order| - 1]);
      match Decide(p, newState[p], Lookup(dstState, p))
      case None => front
      case Some(a) => front + [a]
  }

  /** The actions of the second loop, visiting the destination snapshot's
      paths in `order`: every one the fresh scan lacks is deleted. */
  function DeletePhase(newState: Snapshot, order: seq<Path>): (r: seq<Action>)
    ensures |r| <= |order|
    ensures forall i :: 0 <= i < |r| ==> r[i].DeleteAtDst? && r[i].path in order && r[i].path !in newState
  {
    if order == [] then []
    else
      var p := order[|order| - 1];
      var front := DeletePhase(newState, order[..|order| - 1]);
      if p in newState then front else front + [DeleteAtDst(p)]
  }

  /** All the file operations of one cycle, in the order performed. */
  function Plan(newState: Snapshot, dstState: Snapshot, copyOrder: seq<Path>, deleteOrder: seq<Path>): (r: seq<Action>)
    requires forall i :: 0 <= i < |copyOrder| ==> copyOrder[i] in newState
    ensures |r| <= |copyOrder| + |deleteOrder|
  {
    CopyPhase(newState, dstState, copyOrder) + DeletePhase(newState, deleteOrder)
  }

  /** The first loop performs exactly the decided copies, and nothing else. */
  lemma {:induction false} CopyPhaseMembers(newState: Snapshot, dstState: Snapshot, order: seq<Path>)
    requires forall i :: 0 <= i < |order| ==> order[i] in newState
    ensures forall a :: a in CopyPhase(newState, dstState, order) <==>
      a.path in order && Decide(a.path, newState[a.path], Lookup(dstState, a.path)) == Some(a)
  {
    if order != [] {
      var front := order[..|order| - 1];
      CopyPhaseMembers(newState, dstState, front);
      assert order == front + [order[|order| - 1]];
    }
  }

  /** The second loop deletes exactly the snapshot's paths that the fresh
      scan lacks: never a path of the fresh scan. */
  lemma {:induction false} DeletePhaseMembers(newState: Snapshot, order: seq<Path>)
    ensures forall a :: a in DeletePhase(newState, order) <==>
      a.DeleteAtDst? && a.path in order && a.path !in newState
  {
    if order != [] {
      var front := order[..|order| - 1];
      DeletePhaseMembers(newState, front);
      assert order == front + [order[|order| - 1]];
    }
  }

  /** Visiting a longer order appends the actions for the extra paths. */
  lemma {:induction false} CopyPhaseAppend(newState: Snapshot, dstState: Snapshot, a: seq<Path>, b: seq<Path>)
    requires forall i :: 0 <= i < |a| ==> a[i] in newState
    requires forall i :: 0 <= i < |b| ==> b[i] in newState
    ensures CopyPhase(newState, dstState, a + b) == CopyPhase(newState, dstState, a) + CopyPhase(newState, dstState, b)
    decreases |b|
  {
    if b == [] {
      assert a + b == a;
    } else {
      var front := b[..|b| - 1];
      assert (a + b)[..|a + b| - 1] == a + front;
      CopyPhaseAppend(newState, dstState, a, front);
    }
  }

  /** Every copy comes before every delete. */
  lemma CopiesBeforeDeletes(newState: Snapshot, dstState: Snapshot, copyOrder: seq<Path>, deleteOrder: seq<Path>)
    requires forall i :: 0 <= i < |copyOrder| ==> copyOrder[i] in newState
    ensures var plan := Plan(newState, dstState, copyOrder, deleteOrder);
      forall i, j :: 0 <= i < j < |plan| && plan[i].DeleteAtDst? ==> plan[j].DeleteAtDst?
  {
    var copies := CopyPhase(newState, dstState, copyOrder);
    var deletes := DeletePhase(newState, deleteOrder);
    CopyPhaseMembers(newState, dstState, copyOrder);
    DeletePhaseMembers(newState, deleteOrder);
    var plan := copies + deletes;
    forall i, j | 0 <= i < j < |plan| && plan[i].DeleteAtDst?
      ensures plan[j].DeleteAtDst?
    {
      assert plan[j] in deletes by {
        assert plan[j] == deletes[j - |copies|];
      }
    }
  }

  /** The two trees after some file operations, and whether all of them
      succeeded; the first one that throws ends the cycle. */
  datatype Outcome = Outcome(src: Tree, dst: Tree, completed: bool)

  /** One file operation. copyFile replaces an existing target and keeps
      the source's modification time (REPLACE_EXISTING, COPY_ATTRIBUTES)
      and throws NoSuchFileException when the file to copy is missing;
      deleteFile uses deleteIfExists, so a missing file is not an error. */
  function Apply(a: Action, src: Tree, dst: Tree): (r: Option<(Tree, Tree)>)
    ensures r.None? <==> (a.CopyToDst? && a.path !in src) || (a.CopyToSrc? && a.path !in dst)
    ensures r.Some? && !a.DeleteAtDst? ==>
      a.path in r.value.0 && a.path in r.value.1 && r.value.0[a.path] == r.value.1[a.path]
    ensures r.Some? && a.DeleteAtDst? ==> r.value.0 == src && a.path !in r.value.1
  {
    match a
    case CopyToDst(p) => if p in src then Some((src, dst[p := src[p]])) else None
    case CopyToSrc(p) => if p in dst then Some((src[p := dst[p]], dst)) else None
    case DeleteAtDst(p) => Some((src, dst - {p}))
  }

  /** Performing the actions in order, stopping at the first that throws. */
  function Run(acts: seq<Action>, src: Tree, dst: Tree): (r: Outcome)
    ensures (forall i :: 0 <= i < |acts| ==> acts[i].DeleteAtDst?) ==> r.completed && r.src == src
  {
    if acts == [] then Outcome(src, dst, true)
    else match Apply(acts[0], src, dst)
      case None => Outcome(src, dst, false)
      case Some((src1, dst1)) => Run(acts[1..], src1, dst1)
  }

  lemma {:induction false} RunAppend(a: seq<Action>, b: seq<Action>, src: Tree, dst: Tree)
    ensures Run(a + b, src, dst)
         == var r := Run(a, src, dst); if r.completed then Run(b, r.src, r.dst) else r
  {
    if a == [] {
      assert a + b == b;
    } else {
      assert (a + b)[0] == a[0] && (a + b)[1..] == a[1..] + b;
      match Apply(a[0], src, dst)
      case None =>
      case Some((src1, dst1)) => RunAppend(a[1..], b, src1, dst1);
    }
  }

  /** Whether two trees hold the same file, or both none, at p. */
  predicate Agree(t1: Tree, t2: Tree, p: Path)
  {
    (p in t1 <==> p in t2) && (p in t1 ==> t1[p] == t2[p])
  }

  function Paths(acts: seq<Action>): set<Path>
  {
    set i | 0 <= i < |acts| :: acts[i].path
  }

  predicate DistinctPaths(acts: seq<Action>)
  {
    forall i, j :: 0 <= i < j < |acts| ==> acts[i].path != acts[j].path
  }

  /** An operation reads and writes only its own path. */
  lemma ApplyLocal(a: Action, s: Tree, d: Tree, s2: Tree, d2: Tree)
    requires Agree(s, s2, a.path) && Agree(d, d2, a.path)
    ensures Apply(a, s, d).Some? <==> Apply(a, s2, d2).Some?
    ensures Apply(a, s, d).Some? ==>
      Agree(Apply(a, s, d).value.0, Apply(a, s2, d2).value.0, a.path) &&
      Agree(Apply(a, s, d).value.1, Apply(a, s2, d2).value.1, a.path)
  {
  }

  lemma ApplyFrame(a: Action, s: Tree, d: Tree, p: Path)
    requires Apply(a, s, d).Some? && p != a.path
    ensures Agree(Apply(a, s, d).value.0, s, p) && Agree(Apply(a, s, d).value.1, d, p)
  {
  }

  /** Operations on distinct paths do not interfere: they all succeed when
      each would succeed on the starting trees, every path no operation
      names keeps its file, and every named path ends as its own operation
      alone would leave it. */
  lemma {:induction false} RunPointwise(acts: seq<Action>, s: Tree, d: Tree)
    requires DistinctPaths(acts)
    requires forall i :: 0 <= i < |acts| ==> Apply(acts[i], s, d).Some?
    ensures var r := Run(acts, s, d);
      && r.completed
      && (forall p :: p !in Paths(acts) ==> Agree(r.src, s, p) && Agree(r.dst, d, p))
      && (forall i :: 0 <= i < |acts| ==>
            Agree(r.src, Apply(acts[i], s, d).value.0, acts[i].path) &&
            Agree(r.dst, Apply(acts[i], s, d).value.1, acts[i].path))
  {
    if acts != [] {
      var a, rest := acts[0], acts[1..];
      var (s1, d1) := Apply(a, s, d).value;
      forall i | 0 <= i < |rest|
        ensures Apply(rest[i], s1, d1).Some?
      {
        assert rest[i] == acts[i + 1];
        ApplyFrame(a, s, d, rest[i].path);
        ApplyLocal(rest[i], s, d, s1, d1);
      }
      assert DistinctPaths(rest) by {
        forall i, j | 0 <= i < j < |rest| ensures rest[i].path != rest[j].path {
          assert rest[i] == acts[i + 1] && rest[j] == acts[j + 1];
        }
      }
      RunPointwise(rest, s1, d1);
      var r := Run(acts, s, d);
      assert r == Run(rest, s1, d1);
      forall p | p !in Paths(acts)
        ensures Agree(r.src, s, p) && Agree(r.dst, d, p)
      {
        assert p != acts[0].path;
        assert p !in Paths(rest);
        ApplyFrame(a, s, d, p);
      }
      forall i | 0 <= i < |acts|
        ensures Agree(r.src, Apply(acts[i], s, d).value.0, acts[i].path)
        ensures Agree(r.dst, Apply(acts[i], s, d).value.1, acts[i].path)
      {
        if i == 0 {
          assert a.path !in Paths(rest);
        } else {
          var b := acts[i];
          assert b == rest[i - 1];
          ApplyFrame(a, s, d, b.path);
          ApplyLocal(b, s, d, s1, d1);
        }
      }
    }
  }

  /** Among operations on distinct paths, one that would throw on the
      starting trees still throws when its turn comes, so the cycle fails. */
  lemma {:induction false} RunFailsAt(acts: seq<Action>, s: Tree, d: Tree, k: nat)
    requires DistinctPaths(acts)
    requires k < |acts| && Apply(acts[k], s, d).None?
    ensures !Run(acts, s, d).completed
  {
    if k > 0 && Apply(acts[0], s, d).Some? {
      var (s1, d1) := Apply(acts[0], s, d).value;
      var rest := acts[1..];
      assert rest[k - 1] == acts[k];
      ApplyFrame(acts[0], s, d, acts[k].path);
      ApplyLocal(acts[k], s, d, s1, d1);
      assert DistinctPaths(rest) by {
        forall i, j | 0 <= i < j < |rest| ensures rest[i].path != rest[j].path {
          assert rest[i] == acts[i + 1] && rest[j] == acts[j + 1];
        }
      }
      RunFailsAt(rest, s1, d1, k - 1);
    }
  }

  /** An operation of such a run leaves its path alike on both sides: a
      copy leaves the same entry on both, and a delete of a path the source
      lacks leaves it on neither. */
  lemma ActionConverges(acts: seq<Action>, s: Tree, d: Tree, a: Action)
    requires DistinctPaths(acts)
    requires forall i :: 0 <= i < |acts| ==> Apply(acts[i], s, d).Some?
    requires a in acts
    requires a.DeleteAtDst? ==> a.path !in s
    ensures var r := Run(acts, s, d); Agree(r.src, r.dst, a.path)
  {
    ActionAt(acts, s, d, a);
  }

  /** What an operation on path `a.path` inside a run of distinct-path
      operations leaves at that path. */
  lemma ActionAt(acts: seq<Action>, s: Tree, d: Tree, a: Action)
    requires DistinctPaths(acts)
    requires forall i :: 0 <= i < |acts| ==> Apply(acts[i], s, d).Some?
    requires a in acts
    ensures var r := Run(acts, s, d);
      && Apply(a, s, d).Some?
      && Agree(r.src, Apply(a, s, d).value.0, a.path)
      && Agree(r.dst, Apply(a, s, d).value.1, a.path)
  {
    RunPointwise(acts, s, d);
    var i :| 0 <= i < |acts| && acts[i] == a;
  }

  lemma {:induction false} CopyPhaseDistinct(newState: Snapshot, dstState: Snapshot, order: seq<Path>)
    requires forall i :: 0 <= i < |order| ==> order[i] in newState
    requires forall i, j :: 0 <= i < j < |order| ==> order[i] != order[j]
    ensures DistinctPaths(CopyPhase(newState, dstState, order))
  {
    if order != [] {
      var front := order[..|order| - 1];
      var p := order[|order| - 1];
      CopyPhaseDistinct(newState, dstState, front);
      CopyPhaseMembers(newState, dstState, front);
      assert p !in front;
    }
  }

  lemma {:induction false} DeletePhaseDistinct(newState: Snapshot, order: seq<Path>)
    requires forall i, j :: 0 <= i < j < |order| ==> order[i] != order[j]
    ensures DistinctPaths(DeletePhase(newState, order))
  {
    if order != [] {
      var front := order[..|order| - 1];
      var p := order[|order| - 1];
      DeletePhaseDistinct(newState, front);
      DeletePhaseMembers(newState, front);
      assert p !in front;
    }
  }

  /** No path is operated on twice in one cycle: the copies name distinct
      paths of the fresh scan and the deletes distinct paths outside it. */
  lemma PlanDistinct(newState: Snapshot, dstState: Snapshot, copyOrder: seq<Path>, deleteOrder: seq<Path>)
    requires forall i :: 0 <= i < |copyOrder| ==> copyOrder[i] in newState
    requires forall i, j :: 0 <= i < j < |copyOrder| ==> copyOrder[i] != copyOrder[j]
    requires forall i, j :: 0 <= i < j < |deleteOrder| ==> deleteOrder[i] != deleteOrder[j]
    ensures DistinctPaths(Plan(newState, dstState, copyOrder, deleteOrder))
  {
    var copies := CopyPhase(newState, dstState, copyOrder);
    var deletes := DeletePhase(newState, deleteOrder);
    CopyPhaseDistinct(newState, dstState, copyOrder);
    DeletePhaseDistinct(newState, deleteOrder);
    CopyPhaseMembers(newState, dstState, copyOrder);
    DeletePhaseMembers(newState, deleteOrder);
    var plan := copies + deletes;
    forall i, j | 0 <= i < j < |plan|
      ensures plan[i].path != plan[j].path
    {
      if j >= |copies| && i < |copies| {
        assert plan[i] in copies;
        assert plan[j] == deletes[j - |copies|];
        assert plan[j] in deletes;
      }
    }
  }

  /** Against a snapshot that names only files still in the destination,
      every operation of the cycle would succeed on the starting trees. */
  lemma PlanApplicable(s: Tree, d: Tree, snap: Snapshot, digest: Digester, copyOrder: seq<Path>, deleteOrder: seq<Path>)
    requires forall i :: 0 <= i < |copyOrder| ==> copyOrder[i] in s
    requires forall p :: p in snap ==> p in d
    ensures var plan := Plan(Scan(s, digest), snap, copyOrder, deleteOrder);
      forall i :: 0 <= i < |plan| ==> Apply(plan[i], s, d).Some?
  {
    var newState := Scan(s, digest);
    var copies := CopyPhase(newState, snap, copyOrder);
    var deletes := DeletePhase(newState, deleteOrder);
    var plan := copies + deletes;
    CopyPhaseMembers(newState, snap, copyOrder);
    DeletePhaseMembers(newState, deleteOrder);
    forall i | 0 <= i < |plan|
      ensures Apply(plan[i], s, d).Some?
    {
      if i < |copies| {
        var a := plan[i];
        assert a in copies;
        if a.CopyToSrc? {
          assert Lookup(snap, a.path).Some?;
        }
      } else {
        assert plan[i] == deletes[i - |copies|];
      }
    }
  }

  /** Where the copy loop puts a copy of a visited path: to the
      destination when the snapshot lacks it or records an earlier time,
      back to the source when the snapshot records a later one. */
  lemma PlannedCopy(newState: Snapshot, dstState: Snapshot, order: seq<Path>, p: Path)
    requires forall i :: 0 <= i < |order| ==> order[i] in newState
    requires p in order
    ensures (p !in dstState || newState[p].lastModified > dstState[p].lastModified) ==>
      CopyToDst(p) in CopyPhase(newState, dstState, order)
    ensures p in dstState && dstState[p].lastModified > newState[p].lastModified ==>
      CopyToSrc(p) in CopyPhase(newState, dstState, order)
  {
    CopyPhaseMembers(newState, dstState, order);
    if p in dstState {
      assert Lookup(dstState, p) == Some(dstState[p]);
    }
  }

  /** The delete loop deletes a visited path the fresh scan lacks. */
  lemma PlannedDelete(newState: Snapshot, order: seq<Path>, p: Path)
    requires p in order && p !in newState
    ensures DeleteAtDst(p) in DeletePhase(newState, order)
  {
    DeletePhaseMembers(newState, order);
  }

  /** The copy loop leaves alone a path the snapshot records with the
      fresh scan's time. */
  lemma NotCopied(newState: Snapshot, dstState: Snapshot, order: seq<Path>, p: Path)
    requires forall i :: 0 <= i < |order| ==> order[i] in newState
    requires p in newState ==> p in dstState && dstState[p].lastModified == newState[p].lastModified
    ensures forall a :: a in CopyPhase(newState, dstState, order) ==> a.path != p
  {
    CopyPhaseMembers(newState, dstState, order);
    if p in dstState {
      assert Lookup(dstState, p) == Some(dstState[p]);
    }
  }

  /** Any other path, one the snapshot records with the fresh scan's time
      or one neither has, is not touched by the cycle. */
  lemma Unplanned(newState: Snapshot, dstState: Snapshot, copyOrder: seq<Path>, deleteOrder: seq<Path>, p: Path)
    requires forall i :: 0 <= i < |copyOrder| ==> copyOrder[i] in newState
    requires p in newState ==> p in dstState && dstState[p].lastModified == newState[p].lastModified
    requires p !in newState ==> p !in deleteOrder
    ensures p !in Paths(Plan(newState, dstState, copyOrder, deleteOrder))
  {
    var copies := CopyPhase(newState, dstState, copyOrder);
    var deletes := DeletePhase(newState, deleteOrder);
    var plan := copies + deletes;
    NotCopied(newState, dstState, copyOrder, p);
    forall i | 0 <= i < |plan| ensures plan[i].path != p {
      if i < |copies| {
        assert plan[i] in copies;
      } else {
        assert plan[i] == deletes[i - |copies|];
      }
    }
  }

  /** The two trees after a cycle with a fresh snapshot, at one path. */
  lemma ConvergesAt(s: Tree, d: Tree, digest: Digester, copyOrder: seq<Path>, deleteOrder: seq<Path>, p: Path)
    requires Enumerates(copyOrder, s.Keys) && Enumerates(deleteOrder, d.Keys)
    requires forall p :: p in s && p in d && s[p].mtime == d[p].mtime ==> Meta(s[p], digest) == Meta(d[p], digest)
    ensures var r := Run(Plan(Scan(s, digest), Scan(d, digest), copyOrder, deleteOrder), s, d);
      && (p in r.src <==> p in r.dst)
      && (p in r.src ==> Meta(r.src[p], digest) == Meta(r.dst[p], digest))
  {
    var newState, snap := Scan(s, digest), Scan(d, digest);
    var plan := Plan(newState, snap, copyOrder, deleteOrder);
    PlanDistinct(newState, snap, copyOrder, deleteOrder);
    PlanApplicable(s, d, snap, digest, copyOrder, deleteOrder);
    if p in s && (p !in d || s[p].mtime > d[p].mtime) {
      PlannedCopy(newState, snap, copyOrder, p);
      ActionConverges(plan, s, d, CopyToDst(p));
    } else if p in s && d[p].mtime > s[p].mtime {
      PlannedCopy(newState, snap, copyOrder, p);
      ActionConverges(plan, s, d, CopyToSrc(p));
    } else if p !in s && p in d {
      PlannedDelete(newState, deleteOrder, p);
      ActionConverges(plan, s, d, DeleteAtDst(p));
    } else {
      assert p !in s ==> p !in deleteOrder;
      Unplanned(newState, snap, copyOrder, deleteOrder, p);
      RunPointwise(plan, s, d);
    }
  }

  /** One cycle against an up-to-date destination snapshot, when no file
      present on both sides has equal times but different checksums,
      performs all its operations and leaves the two trees scanning alike:
      the same paths, each with the same time and checksum. */
  lemma Convergence(s: Tree, d: Tree, digest: Digester, copyOrder: seq<Path>, deleteOrder: seq<Path>)
    requires Enumerates(copyOrder, s.Keys) && Enumerates(deleteOrder, d.Keys)
    requires forall p :: p in s && p in d && s[p].mtime == d[p].mtime ==> Meta(s[p], digest) == Meta(d[p], digest)
    ensures var r := Run(Plan(Scan(s, digest), Scan(d, digest), copyOrder, deleteOrder), s, d);
      r.completed && Scan(r.src, digest) == Scan(r.dst, digest)
  {
    FreshPlanCompletes(s, d, digest, copyOrder, deleteOrder);
    var r := Run(Plan(Scan(s, digest), Scan(d, digest), copyOrder, deleteOrder), s, d);
    forall p
      ensures p in r.src <==> p in r.dst
      ensures p in r.src ==> Meta(r.src[p], digest) == Meta(r.dst[p], digest)
    {
      ConvergesAt(s, d, digest, copyOrder, deleteOrder, p);
    }
    ScanAlike(r.src, r.dst, digest);
  }

  /** With a fresh destination snapshot every operation of the cycle
      succeeds. */
  lemma FreshPlanCompletes(s: Tree, d: Tree, digest: Digester, copyOrder: seq<Path>, deleteOrder: seq<Path>)
    requires Enumerates(copyOrder, s.Keys) && Enumerates(deleteOrder, d.Keys)
    ensures Run(Plan(Scan(s, digest), Scan(d, digest), copyOrder, deleteOrder), s, d).completed
  {
    PlanDistinct(Scan(s, digest), Scan(d, digest), copyOrder, deleteOrder);
    PlanApplicable(s, d, Scan(d, digest), digest, copyOrder, deleteOrder);
    RunPointwise(Plan(Scan(s, digest), Scan(d, digest), copyOrder, deleteOrder), s, d);
  }

  /** Trees with the same paths, each with the same time and checksum, scan
      alike. */
  lemma ScanAlike(t1: Tree, t2: Tree, digest: Digester)
    requires forall p :: (p in t1 <==> p in t2) && (p in t1 ==> Meta(t1[p], digest) == Meta(t2[p], digest))
    ensures Scan(t1, digest) == Scan(t2, digest)
  {
  }

  /** A destination snapshot that is out of date can abort the cycle: when
      it records a later time for a path than the fresh source scan, but
      the file has since gone from the destination, the copy back throws,
      the cycle fails, and (see WatchAndSync) neither snapshot is updated. */
  lemma StaleSnapshotAborts(s: Tree, d: Tree, snap: Snapshot, digest: Digester,
                            copyOrder: seq<Path>, deleteOrder: seq<Path>, p: Path)
    requires Enumerates(copyOrder, s.Keys) && Enumerates(deleteOrder, snap.Keys)
    requires p in s && p in snap && p !in d && snap[p].lastModified > s[p].mtime
    ensures !Run(Plan(Scan(s, digest), snap, copyOrder, deleteOrder), s, d).completed
  {
    var newState := Scan(s, digest);
    var copies := CopyPhase(newState, snap, copyOrder);
    var plan := copies + DeletePhase(newState, deleteOrder);
    PlanDistinct(newState, snap, copyOrder, deleteOrder);
    PlannedCopy(newState, snap, copyOrder, p);
    var k :| 0 <= k < |copies| && copies[k] == CopyToSrc(p);
    assert plan[k] == CopyToSrc(p);
    RunFailsAt(plan, s, d, k);
  }

  /** One synchronised directory: the files on disk and the shared
      snapshot map (stateA or stateB) last recorded for it. */
  class Device {
    var tree: Tree
    var state: Snapshot

    /** The initial scanDirectory of main. */
    constructor (files: Tree, digest: Digester)
      ensures tree == files && state == Scan(files, digest)
    {
      tree := files;
      state := Scan(files, digest);
    }
  }

  /** copyFile: Files.copy with REPLACE_EXISTING and COPY_ATTRIBUTES. */
  method CopyFile(from: Device, to: Device, p: Path) returns (ok: bool)
    requires from != to
    modifies to
    ensures ok <==> p in from.tree
    ensures ok ==> to.tree == old(to.tree)[p := from.tree[p]]
    ensures !ok ==> to.tree == old(to.tree)
    ensures to.state == old(to.state)
  {
    if p !in from.tree {
      return false;
    }
    to.tree := to.tree[p := from.tree[p]];
    ok := true;
  }

  /** deleteFile: Files.deleteIfExists. */
  method DeleteFile(dev: Device, p: Path)
    modifies dev
    ensures dev.tree == old(dev.tree) - {p}
    ensures dev.state == old(dev.state)
  {
    dev.tree := dev.tree - {p};
  }

  /** The body of the first loop for one path of the fresh scan. */
  method SyncPath(src: Device, dst: Device, newState: Snapshot, p: Path) returns (copied: bool)
    requires src != dst && p in newState
    modifies src, dst
    ensures var step := Decide(p, newState[p], Lookup(old(dst.state), p));
      Outcome(src.tree, dst.tree, copied)
        == Run(if step.Some? then [step.value] else [], old(src.tree), old(dst.tree))
    ensures src.state == old(src.state) && dst.state == old(dst.state)
  {
    copied := true;
    if p !in dst.state {
      copied := CopyFile(src, dst, p);
    } else if !MetaEquals(newState[p], dst.state[p]) {
      if newState[p].lastModified > dst.state[p].lastModified {
        copied := CopyFile(src, dst, p);
      } else if dst.state[p].lastModified > newState[p].lastModified {
        copied := CopyFile(dst, src, p);
      }
    }
  }

  /** Visiting one more path appends what `Decide` gives for it. */
  lemma CopyPhaseLast(newState: Snapshot, dstState: Snapshot, order: seq<Path>, i: nat)
    requires forall k :: 0 <= k < |order| ==> order[k] in newState
    requires i < |order|
    ensures var step := Decide(order[i], newState[order[i]], Lookup(dstState, order[i]));
      CopyPhase(newState, dstState, order[..i + 1])
        == CopyPhase(newState, dstState, order[..i]) + (if step.Some? then [step.value] else [])
  {
    assert order[..i + 1][..i] == order[..i];
  }

  /** The copy loop's actions split at any visited position. */
  lemma CopyPhaseSplit(newState: Snapshot, dstState: Snapshot, order: seq<Path>, i: nat)
    requires forall k :: 0 <= k < |order| ==> order[k] in newState
    requires i < |order|
    ensures CopyPhase(newState, dstState, order)
         == CopyPhase(newState, dstState, order[..i + 1]) + CopyPhase(newState, dstState, order[i + 1..])
  {
    CopyPhaseAppend(newState, dstState, order[..i + 1], order[i + 1..]);
    assert order[..i + 1] + order[i + 1..] == order;
  }

  /** One step of the copy loop: the outcome of visiting `order[i]` after a
      completed prefix extends the prefix's run, or, when the copy throws,
      is already the outcome of the whole loop. */
  lemma CopyPhaseStep(newState: Snapshot, dstState: Snapshot, order: seq<Path>, i: nat,
                      s0: Tree, d0: Tree, s1: Tree, d1: Tree, r: Outcome)
    requires forall k :: 0 <= k < |order| ==> order[k] in newState
    requires i < |order|
    requires Run(CopyPhase(newState, dstState, order[..i]), s0, d0) == Outcome(s1, d1, true)
    requires var step := Decide(order[i], newState[order[i]], Lookup(dstState, order[i]));
      r == Run(if step.Some? then [step.value] else [], s1, d1)
    ensures r.completed ==> Run(CopyPhase(newState, dstState, order[..i + 1]), s0, d0) == r
    ensures !r.completed ==> Run(CopyPhase(newState, dstState, order), s0, d0) == r
  {
    var before := CopyPhase(newState, dstState, order[..i]);
    var step := Decide(order[i], newState[order[i]], Lookup(dstState, order[i]));
    var single := if step.Some? then [step.value] else [];
    CopyPhaseLast(newState, dstState, order, i);
    RunAppend(before, single, s0, d0);
    if !r.completed {
      CopyPhaseSplit(newState, dstState, order, i);
      RunAppend(before + single, CopyPhase(newState, dstState, order[i + 1..]), s0, d0);
    }
  }

  /** The first loop of watchAndSync: visit the fresh scan in `order`,
      stopping at the first copy that throws. */
  method CopyPass(src: Device, dst: Device, newState: Snapshot, order: seq<Path>) returns (ok: bool)
    requires src != dst
    requires forall i :: 0 <= i < |order| ==> order[i] in newState
    modifies src, dst
    ensures Outcome(src.tree, dst.tree, ok) == Run(CopyPhase(newState, old(dst.state), order), old(src.tree), old(dst.tree))
    ensures src.state == old(src.state) && dst.state == old(dst.state)
  {
    ghost var s0, d0 := src.tree, dst.tree;
    assert order[..0] == [];
    for i := 0 to |order|
      invariant src.state == old(src.state) && dst.state == old(dst.state)
      invariant Outcome(src.tree, dst.tree, true) == Run(CopyPhase(newState, dst.state, order[..i]), s0, d0)
    {
      ghost var s1, d1 := src.tree, dst.tree;
      var copied := SyncPath(src, dst, newState, order[i]);
      CopyPhaseStep(newState, dst.state, order, i, s0, d0, s1, d1, Outcome(src.tree, dst.tree, copied));
      if !copied {
        return false;
      }
    }
    assert order[..|order|] == order;
    ok := true;
  }

  /** One step of the delete loop: visiting `order[j]` after a completed
      prefix deletes it from the destination exactly when the fresh scan
      lacks it, and the run stays complete. */
  lemma DeletePhaseStep(newState: Snapshot, order: seq<Path>, j: nat, s: Tree, d0: Tree, d1: Tree)
    requires j < |order|
    requires Run(DeletePhase(newState, order[..j]), s, d0) == Outcome(s, d1, true)
    ensures Run(DeletePhase(newState, order[..j + 1]), s, d0)
         == Outcome(s, if order[j] in newState then d1 else d1 - {order[j]}, true)
  {
    var p := order[j];
    var before := DeletePhase(newState, order[..j]);
    var single := if p in newState then [] else [DeleteAtDst(p)];
    calc {
      Run(DeletePhase(newState, order[..j + 1]), s, d0);
      { assert order[..j + 1][..j] == order[..j];
        assert DeletePhase(newState, order[..j + 1]) == before + single; }
      Run(before + single, s, d0);
      { RunAppend(before, single, s, d0); }
      Run(single, s, d1);
      Outcome(s, if p in newState then d1 else d1 - {p}, true);
    }
  }

  /** The second loop of watchAndSync: visit the snapshot's paths in
      `order` and delete from the destination each one the fresh scan
      lacks. deleteIfExists never throws here. */
  method DeletePass(src: Device, dst: Device, newState: Snapshot, order: seq<Path>)
    requires src != dst
    modifies dst
    ensures Run(DeletePhase(newState, order), src.tree, old(dst.tree)) == Outcome(src.tree, dst.tree, true)
    ensures dst.state == old(dst.state)
  {
    ghost var d0 := dst.tree;
    assert order[..0] == [];
    for j := 0 to |order|
      invariant dst.state == old(dst.state)
      invariant Run(DeletePhase(newState, order[..j]), src.tree, d0) == Outcome(src.tree, dst.tree, true)
    {
      var p := order[j];
      DeletePhaseStep(newState, order, j, src.tree, d0, dst.tree);
      if p !in newState {
        DeleteFile(dst, p);
      }
    }
    assert order[..|order|] == order;
  }

  /** One pass of watchAndSync's loop: scan the source, run the first loop
      over the fresh scan in copyOrder and the second over the destination
      snapshot's paths in deleteOrder, then replace the source's snapshot by
      the fresh scan and the destination's by a rescan. An operation that
      throws ends the pass where it stands, leaving both snapshots as they
      were. */
  method WatchAndSync(src: Device, dst: Device, digest: Digester, copyOrder: seq<Path>, deleteOrder: seq<Path>)
    returns (ok: bool)
    requires src != dst
    requires Enumerates(copyOrder, src.tree.Keys)
    requires Enumerates(deleteOrder, dst.state.Keys)
    modifies src, dst
    ensures var r := Run(Plan(Scan(old(src.tree), digest), old(dst.state), copyOrder, deleteOrder),
                         old(src.tree), old(dst.tree));
      && src.tree == r.src && dst.tree == r.dst && ok == r.completed
      && (ok ==> src.state == Scan(old(src.tree), digest) && dst.state == Scan(dst.tree, digest))
      && (!ok ==> src.state == old(src.state) && dst.state == old(dst.state))
  {
    var newState := Scan(src.tree, digest);
    ghost var s0, d0 := src.tree, dst.tree;
    ghost var copies := CopyPhase(newState, dst.state, copyOrder);
    ghost var deletes := DeletePhase(newState, deleteOrder);
    RunAppend(copies, deletes, s0, d0);
    ok := CopyPass(src, dst, newState, copyOrder);
    if !ok {
      return;
    }
    DeletePass(src, dst, newState, deleteOrder);
    src.state := newState;
    dst.state := Scan(dst.tree, digest);
  }
}
