/**
 * The part of the host the orphan-file reconciler acts on: a directory tree
 * (System.IO.Directory, File, DirectoryInfo) and the two collaborators it calls,
 * the archiver and the rename tracker, whose calls are kept in a log.
 *
 * A path is the sequence of its components; the tree maps each existing path
 * to a directory or a file. A file holds the XML document it parses to, or
 * None when it is not well-formed XML.
 */
module FileSystem {
  import opened Optional
  import opened Xml
  import opened Guids

  type Path = seq<string>

  datatype Entry = Directory | File(content: Option<Element>)

  type Tree = map<Path, Entry>

  predicate IsPrefix(a: Path, b: Path) {
    |a| <= |b| && b[..|a|] == a
  }

  /** Path.GetDirectoryName. */
  function Parent(p: Path): Path
    requires |p| > 0
  {
    p[..|p| - 1]
  }

  /** Path.GetFileName. */
  function FileName(p: Path): string
    requires |p| > 0
  {
    p[|p| - 1]
  }

  predicate DirectlyIn(p: Path, folder: Path) {
    |p| == |folder| + 1 && p[..|folder|] == folder
  }

  /** Directory.Exists. */
  predicate IsDir(t: Tree, p: Path) {
    p in t && t[p].Directory?
  }

  /** File.Exists. */
  predicate IsFile(t: Tree, p: Path) {
    p in t && t[p].File?
  }

  /**
   * A real directory tree: the empty path is the (implicit) root, and every
   * entry below the top level sits in a directory that exists.
   */
  ghost predicate WellFormed(t: Tree) {
    && [] !in t
    && forall p :: p in t && |p| > 1 ==> IsDir(t, Parent(p))
  }

  /** The files directly in folder: the snapshot Directory.GetFiles takes. */
  function FilesIn(t: Tree, folder: Path): (r: set<Path>)
    ensures forall p :: p in r <==> IsFile(t, p) && DirectlyIn(p, folder)
  {
    set p | p in t && t[p].File? && DirectlyIn(p, folder)
  }

  /** The directories directly in folder: the snapshot Directory.GetDirectories takes. */
  function DirsIn(t: Tree, folder: Path): (r: set<Path>)
    ensures forall p :: p in r <==> IsDir(t, p) && DirectlyIn(p, folder)
  {
    set p | p in t && t[p].Directory? && DirectlyIn(p, folder)
  }

  /** Every entry directly in folder: DirectoryInfo.GetFileSystemInfos. */
  function EntriesIn(t: Tree, folder: Path): (r: set<Path>)
    ensures forall p :: p in r <==> p in t && DirectlyIn(p, folder)
  {
    set p | p in t && DirectlyIn(p, folder)
  }

  /** Every entry strictly below folder. */
  function Below(t: Tree, folder: Path): (r: set<Path>)
    ensures forall p :: p in r <==> p in t && IsPrefix(folder, p) && p != folder
  {
    set p | p in t && IsPrefix(folder, p) && p != folder
  }

  /** Every entry strictly below d needs d to be a directory. */
  lemma EntriesBelowNeedDir(t: Tree, d: Path)
    requires WellFormed(t) && |d| > 0
    ensures forall p :: p in t && IsPrefix(d, p) && p != d ==> IsDir(t, d)
  {
    forall p | p in t && IsPrefix(d, p) && p != d ensures IsDir(t, d) {
      AncestorIsDir(t, p, d);
    }
  }

  lemma PrefixExtend(a: Path, p: Path, name: string)
    ensures IsPrefix(a, p) ==> IsPrefix(a, p + [name])
    ensures IsPrefix(a, p + [name]) ==> IsPrefix(a, p) || a == p + [name]
  {
    if IsPrefix(a, p + [name]) && |a| <= |p| {
      assert (p + [name])[..|a|] == p[..|a|];
    }
    if IsPrefix(a, p) {
      assert (p + [name])[..|a|] == p[..|a|];
    }
  }

  lemma {:induction false} SubsetCard<T>(a: set<T>, b: set<T>)
    requires a <= b
    ensures |a| <= |b|
    decreases b
  {
    if a != {} {
      var x :| x in a;
      SubsetCard(a - {x}, b - {x});
    }
  }

  /** The walk's measure: a subdirectory has strictly fewer entries below it than its parent. */
  lemma BelowShrinks(t: Tree, folder: Path, dir: Path)
    requires dir in t && DirectlyIn(dir, folder)
    ensures |Below(t, dir)| < |Below(t, folder)|
  {
    var a := Below(t, dir);
    var b := Below(t, folder);
    forall p | p in a ensures p in b - {dir} {
      assert p[..|folder|] == dir[..|folder|];
    }
    SubsetCard(a, b - {dir});
  }

  // ---------------------------------------------------------------------------
  // Directory.Move

  /**
   * When Directory.Move(src, dst) succeeds: the source is a directory, the
   * destination does not exist yet, its parent does, and it does not lie
   * inside the source. Otherwise the call throws an IOException.
   */
  predicate MoveAllowed(t: Tree, src: Path, dst: Path) {
    && IsDir(t, src)
    && |dst| > 0
    && dst !in t
    && (|dst| == 1 || IsDir(t, Parent(dst)))
    && !IsPrefix(src, dst)
  }

  function Relocate(p: Path, src: Path, dst: Path): Path
    requires IsPrefix(src, p)
  {
    dst + p[|src|..]
  }

  /** Where an entry at q after the move came from, when q lies inside dst. */
  function Origin(q: Path, src: Path, dst: Path): Path
    requires IsPrefix(dst, q)
  {
    src + q[|dst|..]
  }

  /** The paths the moved entries occupy afterwards. */
  function MovedPaths(t: Tree, src: Path, dst: Path): set<Path> {
    set p | p in t && IsPrefix(src, p) :: Relocate(p, src, dst)
  }

  /** The tree after moving src, with everything below it, to dst. */
  function MoveTree(t: Tree, src: Path, dst: Path): Tree {
    (map p | p in t && !IsPrefix(src, p) :: t[p])
    + (map q | q in MovedPaths(t, src, dst) :: if IsPrefix(dst, q) && Origin(q, src, dst) in t then t[Origin(q, src, dst)] else Directory)
  }

  lemma MovedPathsExactly(t: Tree, src: Path, dst: Path, q: Path)
    ensures q in MovedPaths(t, src, dst) <==> IsPrefix(dst, q) && Origin(q, src, dst) in t
  {
    if q in MovedPaths(t, src, dst) {
      var p :| p in t && IsPrefix(src, p) && Relocate(p, src, dst) == q;
      assert q[|dst|..] == p[|src|..];
      assert p == src + p[|src|..];
    }
    if IsPrefix(dst, q) && Origin(q, src, dst) in t {
      var p := Origin(q, src, dst);
      assert p[|src|..] == q[|dst|..];
      assert q == dst + q[|dst|..];
      assert Relocate(p, src, dst) == q;
    }
  }

  /** What MoveTree holds at one path. */
  lemma MoveTreeAt(t: Tree, src: Path, dst: Path, q: Path)
    ensures IsPrefix(dst, q) && Origin(q, src, dst) in t ==>
              q in MoveTree(t, src, dst) && MoveTree(t, src, dst)[q] == t[Origin(q, src, dst)]
    ensures !(IsPrefix(dst, q) && Origin(q, src, dst) in t) ==>
              (q in MoveTree(t, src, dst) <==> q in t && !IsPrefix(src, q))
    ensures !(IsPrefix(dst, q) && Origin(q, src, dst) in t) && q in MoveTree(t, src, dst) ==>
              MoveTree(t, src, dst)[q] == t[q]
  {
    MovedPathsExactly(t, src, dst, q);
  }

  lemma {:induction false} AncestorIsDir(t: Tree, p: Path, a: Path)
    requires WellFormed(t) && p in t
    requires IsPrefix(a, p) && 0 < |a| < |p|
    ensures IsDir(t, a)
    decreases |p|
  {
    var q := Parent(p);
    assert IsDir(t, q);
    if |a| < |q| {
      assert q[..|a|] == a;
      AncestorIsDir(t, q, a);
    }
  }

  /** In a well-formed tree, every non-empty prefix of an entry is itself an entry. */
  lemma PrefixesExist(t: Tree, d: Path)
    requires WellFormed(t) && |d| > 0
    ensures forall p :: p in t && IsPrefix(d, p) ==> d in t
  {
    forall p | p in t && IsPrefix(d, p) ensures d in t {
      if |d| < |p| {
        AncestorIsDir(t, p, d);
      } else {
        assert p == d;
      }
    }
  }

  /** Nothing lies below a path that does not exist. */
  lemma NothingBelowMissing(t: Tree, d: Path)
    requires WellFormed(t) && |d| > 0 && d !in t
    ensures forall p :: p in t ==> !IsPrefix(d, p)
  {
    PrefixesExist(t, d);
  }

  lemma PrefixOfParent(a: Path, p: Path)
    requires |p| > 0
    ensures IsPrefix(a, Parent(p)) ==> IsPrefix(a, p)
  {
  }

  /** Two prefixes of one path are prefixes of each other. */
  lemma PrefixesCompare(a: Path, b: Path, q: Path)
    requires IsPrefix(b, q)
    ensures IsPrefix(a, q) ==> IsPrefix(a, b) || IsPrefix(b, a)
  {
    if IsPrefix(a, q) {
      if |a| <= |b| {
        assert b[..|a|] == q[..|a|];
      } else {
        assert a[..|b|] == q[..|b|];
      }
    }
  }

  /** Every entry outside the moved directory stays where it was, with the same contents. */
  lemma {:induction false} MoveKeepsOthers(t: Tree, src: Path, dst: Path, p: Path)
    requires WellFormed(t) && MoveAllowed(t, src, dst)
    requires p in t && !IsPrefix(src, p)
    ensures p in MoveTree(t, src, dst) && MoveTree(t, src, dst)[p] == t[p]
  {
    NothingBelowMissing(t, dst);
    MoveTreeAt(t, src, dst, p);
  }

  /** Everything that was inside the moved directory is now at the same relative place inside dst. */
  lemma {:induction false} MovePreservesChildren(t: Tree, src: Path, dst: Path, rest: Path)
    requires src + rest in t
    ensures dst + rest in MoveTree(t, src, dst) && MoveTree(t, src, dst)[dst + rest] == t[src + rest]
  {
    var q := dst + rest;
    assert IsPrefix(dst, q) && q[|dst|..] == rest;
    MoveTreeAt(t, src, dst, q);
  }

  /** Nothing remains at or below src: dst is neither inside src nor above it. */
  lemma {:induction false} MoveEmptiesSource(t: Tree, src: Path, dst: Path, q: Path)
    requires WellFormed(t) && MoveAllowed(t, src, dst)
    requires q in MoveTree(t, src, dst)
    ensures !IsPrefix(src, q)
  {
    MoveTreeAt(t, src, dst, q);
    if IsPrefix(dst, q) && Origin(q, src, dst) in t {
      PrefixesCompare(src, dst, q);
      PrefixesExist(t, dst);
    }
  }

  /** After a legal move, the parent of every moved entry is a directory. */
  lemma {:induction false} MovedParentIsDir(t: Tree, src: Path, dst: Path, rest: Path)
    requires WellFormed(t) && MoveAllowed(t, src, dst)
    requires src + rest in t && |dst + rest| > 1
    ensures IsDir(MoveTree(t, src, dst), Parent(dst + rest))
  {
    if |rest| == 0 {
      assert dst + rest == dst;
      PrefixOfParent(src, dst);
      MoveKeepsOthers(t, src, dst, Parent(dst));
    } else {
      var o := src + rest;
      var up := rest[..|rest| - 1];
      assert Parent(o) == src + up;
      assert Parent(dst + rest) == dst + up;
      MovePreservesChildren(t, src, dst, up);
    }
  }

  /** After a legal move, the parent of every entry that stayed is still a directory. */
  lemma {:induction false} KeptParentIsDir(t: Tree, src: Path, dst: Path, q: Path)
    requires WellFormed(t) && MoveAllowed(t, src, dst)
    requires q in t && !IsPrefix(src, q) && |q| > 1
    ensures IsDir(MoveTree(t, src, dst), Parent(q))
  {
    PrefixOfParent(src, q);
    MoveKeepsOthers(t, src, dst, Parent(q));
  }

  /** A legal move keeps the tree well formed. */
  lemma {:induction false} MoveWellFormed(t: Tree, src: Path, dst: Path)
    requires WellFormed(t) && MoveAllowed(t, src, dst)
    ensures WellFormed(MoveTree(t, src, dst))
  {
    var r := MoveTree(t, src, dst);
    MoveTreeAt(t, src, dst, []);
    forall q | q in r && |q| > 1 ensures IsDir(r, Parent(q)) {
      MoveTreeAt(t, src, dst, q);
      if IsPrefix(dst, q) && Origin(q, src, dst) in t {
        var rest := q[|dst|..];
        assert q == dst + rest;
        MovedParentIsDir(t, src, dst, rest);
      } else {
        KeptParentIsDir(t, src, dst, q);
      }
    }
  }

  lemma RelocateInjective(p: Path, x: Path, src: Path, dst: Path)
    requires IsPrefix(src, p) && IsPrefix(src, x)
    ensures Relocate(p, src, dst) == Relocate(x, src, dst) ==> p == x
  {
    assert Relocate(p, src, dst)[|dst|..] == p[|src|..];
    assert Relocate(x, src, dst)[|dst|..] == x[|src|..];
    assert p == src + p[|src|..];
    assert x == src + x[|src|..];
  }

  lemma {:induction false} RelocateCard(s: set<Path>, src: Path, dst: Path)
    requires forall p :: p in s ==> IsPrefix(src, p)
    ensures |set p | p in s :: Relocate(p, src, dst)| == |s|
    decreases s
  {
    if s != {} {
      var x :| x in s;
      var s' := s - {x};
      RelocateCard(s', src, dst);
      var img := set p | p in s :: Relocate(p, src, dst);
      var img' := set p | p in s' :: Relocate(p, src, dst);
      assert img == img' + {Relocate(x, src, dst)};
      forall p | p in s' ensures Relocate(p, src, dst) != Relocate(x, src, dst) {
        RelocateInjective(p, x, src, dst);
      }
    }
  }

  lemma MoveTreeKeys(t: Tree, src: Path, dst: Path)
    ensures MoveTree(t, src, dst).Keys == (set p | p in t && !IsPrefix(src, p)) + MovedPaths(t, src, dst)
  {
  }

  /** A move neither creates nor destroys entries. */
  lemma {:induction false} MoveKeepsSize(t: Tree, src: Path, dst: Path)
    requires WellFormed(t) && MoveAllowed(t, src, dst)
    ensures |MoveTree(t, src, dst)| == |t|
  {
    var kept := set p | p in t && !IsPrefix(src, p);
    var moved := set p | p in t && IsPrefix(src, p);
    var img := MovedPaths(t, src, dst);
    assert img == set p | p in moved :: Relocate(p, src, dst);
    RelocateCard(moved, src, dst);
    assert t.Keys == kept + moved;
    assert kept !! moved;
    NothingBelowMissing(t, dst);
    forall q | q in img ensures q !in kept {
      MovedPathsExactly(t, src, dst, q);
    }
    MoveTreeKeys(t, src, dst);
    assert |MoveTree(t, src, dst).Keys| == |kept| + |img|;
  }

  /**
   * Moving a subdirectory src of d to target/<name of src> leaves d with
   * fewer subdirectories: none arrives, and src is gone.
   */
  lemma {:induction false} MoveLeavesNoNewChild(t: Tree, d: Path, src: Path, target: Path)
    requires WellFormed(t) && IsDir(t, d) && DirectlyIn(src, d)
    requires MoveAllowed(t, src, target + [FileName(src)])
    ensures DirsIn(MoveTree(t, src, target + [FileName(src)]), d) <= DirsIn(t, d) - {src}
  {
    var dst := target + [FileName(src)];
    var r := MoveTree(t, src, dst);
    PrefixesExist(t, dst);
    assert src == d + [FileName(src)];
    assert dst[..|target|] == target;
    forall q | q in DirsIn(r, d) ensures q in DirsIn(t, d) && q != src {
      MoveTreeAt(t, src, dst, q);
      PrefixesCompare(dst, d, q);
      MoveEmptiesSource(t, src, dst, q);
    }
  }

  // ---------------------------------------------------------------------------
  // The effect of one reconciliation on the files in the tree

  /** A path that a subdirectory move into target can produce for a file: at least two levels below target. */
  predicate RelocatedInto(p: Path, target: Path) {
    |p| >= |target| + 2 && p[..|target|] == target
  }

  /**
   * The path q lies strictly inside the destination of one of the moves
   * recorded in moves from index from on.
   */
  ghost predicate Carried(q: Path, moves: seq<Path>, from: nat) {
    exists i :: from <= i < |moves| && IsPrefix(moves[i], q) && moves[i] != q
  }

  /** The record of moves only grows at its end. */
  predicate MovesExtend(before: seq<Path>, after: seq<Path>) {
    |before| <= |after| && after[..|before|] == before
  }

  /** Every move recorded from index from on went to a folder directly in target. */
  predicate MovesInto(moves: seq<Path>, from: nat, target: Path) {
    forall i :: from <= i < |moves| ==> DirectlyIn(moves[i], target)
  }

  /**
   * Every file of after was in before, at the same path and with the same
   * contents, unless it lies inside the destination of a move recorded in
   * moves from index from on.
   */
  ghost predicate FilesKeptOrCarried(before: Tree, after: Tree, moves: seq<Path>, from: nat) {
    forall p :: IsFile(after, p) ==> (p in before && before[p] == after[p]) || Carried(p, moves, from)
  }

  lemma CarriedGrow(q: Path, moves: seq<Path>, moves': seq<Path>, from: nat, from': nat)
    requires Carried(q, moves, from) && MovesExtend(moves, moves') && from' <= from
    ensures Carried(q, moves', from')
  {
    var i :| from <= i < |moves| && IsPrefix(moves[i], q) && moves[i] != q;
    assert moves'[i] == moves'[..|moves|][i];
  }

  /** A file carried by moves into target lies at least two levels below target. */
  lemma CarriedInto(q: Path, moves: seq<Path>, from: nat, target: Path)
    requires Carried(q, moves, from) && MovesInto(moves, from, target)
    ensures RelocatedInto(q, target)
  {
    var i :| from <= i < |moves| && IsPrefix(moves[i], q) && moves[i] != q;
    assert q[..|target|] == moves[i][..|target|];
  }

  lemma MovesExtendTransitive(a: seq<Path>, b: seq<Path>, c: seq<Path>)
    requires MovesExtend(a, b) && MovesExtend(b, c)
    ensures MovesExtend(a, c)
  {
    assert c[..|a|] == c[..|b|][..|a|];
  }

  lemma FilesKeptOrCarriedTransitive(a: Tree, b: Tree, c: Tree, m: seq<Path>, m': seq<Path>, from: nat)
    requires FilesKeptOrCarried(a, b, m, from) && FilesKeptOrCarried(b, c, m', |m|)
    requires MovesExtend(m, m') && from <= |m|
    ensures FilesKeptOrCarried(a, c, m', from)
  {
    forall p | IsFile(c, p) && !(p in a && a[p] == c[p]) ensures Carried(p, m', from) {
      if Carried(p, m', |m|) {
        CarriedGrow(p, m', m', |m|, from);
      } else {
        CarriedGrow(p, m, m', from, from);
      }
    }
  }

  /** Removing entries keeps every file that is left where it was. */
  lemma FilesKeptInSubtree(before: Tree, after: Tree, moves: seq<Path>, from: nat)
    requires after.Keys <= before.Keys && forall p :: p in after ==> after[p] == before[p]
    ensures FilesKeptOrCarried(before, after, moves, from)
  {
  }

  /** Moving src to dst keeps every other file where it was; a file that arrives lies strictly inside dst. */
  lemma {:induction false} MoveIntoTarget(t: Tree, src: Path, dst: Path, moves: seq<Path>)
    requires WellFormed(t) && MoveAllowed(t, src, dst)
    ensures FilesKeptOrCarried(t, MoveTree(t, src, dst), moves + [dst], |moves|)
  {
    var r := MoveTree(t, src, dst);
    var ms := moves + [dst];
    forall q | IsFile(r, q) ensures (q in t && t[q] == r[q]) || Carried(q, ms, |moves|) {
      MoveTreeAt(t, src, dst, q);
      if IsPrefix(dst, q) && Origin(q, src, dst) in t {
        assert dst[|dst|..] == [];
        assert Origin(dst, src, dst) == src;
        assert q != dst;
        assert ms[|moves|] == dst;
      }
    }
  }

  /** s is a tail of p. */
  predicate IsSuffix(s: Path, p: Path) {
    |s| <= |p| && p[|p| - |s|..] == s
  }

  lemma SuffixTransitive(a: Path, b: Path, c: Path)
    requires IsSuffix(a, b) && IsSuffix(b, c)
    ensures IsSuffix(a, c)
  {
    assert c[|c| - |a|..] == c[|c| - |b|..][|b| - |a|..];
  }

  /** A tail of head + tail that is no longer than tail is a tail of tail. */
  lemma SuffixOfTail(a: Path, head: Path, tail: Path)
    requires IsSuffix(a, head + tail) && |a| <= |tail|
    ensures IsSuffix(a, tail)
  {
    assert (head + tail)[|head + tail| - |a|..] == tail[|tail| - |a|..];
  }

  /**
   * Where a chain of subdirectory moves into target can take a file that was
   * at p: it stays at p, or it lands at least two levels below target,
   * under a tail of its old path, and no deeper than before when it already
   * was inside target.
   */
  predicate Carries(p: Path, q: Path, target: Path) {
    q == p || (RelocatedInto(q, target) && IsSuffix(q[|target|..], p) && (IsPrefix(target, p) ==> |q| <= |p|))
  }

  lemma CarriesTransitive(p: Path, q: Path, r: Path, target: Path)
    requires Carries(p, q, target) && Carries(q, r, target)
    ensures Carries(p, r, target)
  {
    if q != p && r != q {
      assert q == target + q[|target|..];
      SuffixOfTail(r[|target|..], target, q[|target|..]);
      SuffixTransitive(r[|target|..], q[|target|..], p);
    }
  }

  /** Moving a directory src that does not contain target to target/<name of src> carries what is inside src. */
  lemma MoveCarries(p: Path, src: Path, target: Path)
    requires |src| > 0 && IsPrefix(src, p) && p != src && !IsPrefix(src, target)
    ensures Carries(p, Relocate(p, src, target + [FileName(src)]), target)
  {
    var q := Relocate(p, src, target + [FileName(src)]);
    assert p[|src| - 1..] == [p[|src| - 1]] + p[|src|..];
    assert q[|target|..] == p[|src| - 1..];
    assert q[..|target|] == target;
    if IsPrefix(target, p) {
      PrefixesCompare(src, target, p);
    }
  }

  // ---------------------------------------------------------------------------
  // The host: the tree plus the log of collaborator calls

  /** A call the core made to a collaborator. */
  datatype Event =
    | Archived(path: Path, content: Option<Element>)     // uSyncIOHelper.ArchiveFile
    | Renamed(itemType: string, key: Guid, alias: string) // Tracker.AddAction(SyncActionType.Rename, ...)

  /** A collaborator call that threw. */
  datatype Fault =
    | MoveRefused(src: Path, dst: Path) // Directory.Move
    | LoadFailed(path: Path)            // XElement.Load
    | NoDirectoryName(path: Path)       // Path.GetDirectoryName of an empty path

  /** XElement.Load succeeds: the path is a file holding well-formed XML. */
  predicate Loadable(t: Tree, p: Path) {
    IsFile(t, p) && t[p].content.Some?
  }

  class Workspace {
    var tree: Tree
    var log: seq<Event>
    /** Where each Directory.Move that succeeded put its directory, in order. */
    ghost var moves: seq<Path>
    /** Every collaborator call that threw, in order. */
    ghost var faults: seq<Fault>

    ghost predicate Valid()
      reads this
    {
      WellFormed(tree)
    }

    constructor (t: Tree)
      requires WellFormed(t)
      ensures Valid() && tree == t && log == [] && moves == [] && faults == []
    {
      tree := t;
      log := [];
      moves := [];
      faults := [];
    }

    /** Directory.Move(src, dst); ok is false where the call would throw, and then nothing changed. */
    method MoveDirectory(src: Path, dst: Path) returns (ok: bool)
      requires Valid()
      modifies this
      ensures Valid()
      ensures ok == MoveAllowed(old(tree), src, dst)
      ensures tree == if ok then MoveTree(old(tree), src, dst) else old(tree)
      ensures moves == if ok then old(moves) + [dst] else old(moves)
      ensures faults == if ok then old(faults) else old(faults) + [MoveRefused(src, dst)]
      ensures log == old(log)
    {
      ok := MoveAllowed(tree, src, dst);
      if ok {
        MoveWellFormed(tree, src, dst);
        tree := MoveTree(tree, src, dst);
        moves := moves + [dst];
      } else {
        faults := faults + [MoveRefused(src, dst)];
      }
    }

    /** uSyncIOHelper.ArchiveFile: the file leaves the tree and its contents go to the archive. */
    method ArchiveFile(p: Path)
      requires Valid() && IsFile(tree, p)
      modifies this
      ensures Valid()
      ensures tree == old(tree) - {p}
      ensures log == old(log) + [Archived(p, old(tree)[p].content)]
      ensures moves == old(moves) && faults == old(faults)
    {
      log := log + [Archived(p, tree[p].content)];
      tree := tree - {p};
    }

    /** File.Delete on an existing file. */
    method DeleteFile(p: Path)
      requires Valid() && IsFile(tree, p)
      modifies this
      ensures Valid()
      ensures tree == old(tree) - {p}
      ensures log == old(log) && moves == old(moves) && faults == old(faults)
    {
      tree := tree - {p};
    }

    /** DirectoryInfo.Delete on an existing, empty directory. */
    method DeleteEmptyDirectory(p: Path)
      requires Valid() && IsDir(tree, p) && EntriesIn(tree, p) == {}
      modifies this
      ensures Valid()
      ensures tree == old(tree) - {p}
      ensures log == old(log) && moves == old(moves) && faults == old(faults)
    {
      var r := tree - {p};
      forall q | q in r && |q| > 1 ensures IsDir(r, Parent(q)) {
        assert IsDir(tree, Parent(q));
        assert DirectlyIn(q, Parent(q)) && q !in EntriesIn(tree, p);
      }
      tree := r;
    }

    /** Tracker.AddAction(SyncActionType.Rename, key, alias, type). */
    method AddRename(itemType: string, key: Guid, alias: string)
      modifies this
      ensures tree == old(tree)
      ensures log == old(log) + [Renamed(itemType, key, alias)]
      ensures moves == old(moves) && faults == old(faults)
    {
      log := log + [Renamed(itemType, key, alias)];
    }

    /** XElement.Load(p): the parsed document, or a fault where the call would throw. */
    method Load(p: Path) returns (e: Option<Element>)
      modifies this
      ensures e.Some? <==> Loadable(old(tree), p)
      ensures e.Some? ==> e == old(tree)[p].content
      ensures tree == old(tree) && log == old(log) && moves == old(moves)
      ensures faults == if e.Some? then old(faults) else old(faults) + [LoadFailed(p)]
    {
      if Loadable(tree, p) {
        e := tree[p].content;
      } else {
        e := None;
        faults := faults + [LoadFailed(p)];
      }
    }

    /** Path.GetDirectoryName(p): the folder holding p, or a fault for an empty path. */
    method DirectoryName(p: Path) returns (d: Option<Path>)
      modifies this
      ensures d == if |p| == 0 then None else Some(Parent(p))
      ensures tree == old(tree) && log == old(log) && moves == old(moves)
      ensures faults == if |p| == 0 then old(faults) + [NoDirectoryName(p)] else old(faults)
    {
      if |p| == 0 {
        d := None;
        faults := faults + [NoDirectoryName(p)];
      } else {
        d := Some(Parent(p));
      }
    }
  }
}
