/**
 * NameChecker: the orphan-file reconciler of the back office.
 *
 * Items are saved to disk under a human-readable file name. When an item is
 * renamed, the freshly written file (newFile) and the file written under the
 * old name both carry the item's key. The reconciler walks the item type's
 * folder, finds every other *.config file with the same key, archives it,
 * moves the folders beside it next to the new file, deletes a redirect file
 * and removes the old folder once it is empty.
 */
module NameChecker {
  import opened Optional
  import opened Text
  import opened Guids
  import opened Xml
  import opened FileSystem

  // ---------------------------------------------------------------------------
  // Widening an integer id into a guid

  /** System.Int32. */
  type Int32 = x: int | -0x8000_0000 <= x < 0x8000_0000

  const IdPrefix: string := "00000000-0000-0000-0000-"

  /** Guid.TryParse(string.Format("00000000-0000-0000-0000-{0:D12}", key)). */
  function WidenKey(key: Int32): Option<Guid> {
    TryParse(IdPrefix + FormatD(key, 12))
  }

  /** The number a sequence of decimal digits (held in nibbles) denotes. */
  function NibblesDecimal(ns: seq<Nibble>): nat {
    if ns == [] then 0 else NibblesDecimal(ns[..|ns| - 1]) * 10 + ns[|ns| - 1]
  }

  lemma {:induction false} NibblesOfDigits(s: string, ns: seq<Nibble>)
    requires AllDigits(s) && |ns| == |s|
    requires forall i :: 0 <= i < |s| ==> ns[i] == HexValue(s[i])
    ensures NibblesDecimal(ns) == DecimalValue(s)
    ensures forall i :: 0 <= i < |ns| ==> ns[i] < 10
  {
    if s != [] {
      NibblesOfDigits(s[..|s| - 1], ns[..|ns| - 1]);
    }
  }

  lemma {:induction false} NibblesDecimalZero(ns: seq<Nibble>)
    ensures NibblesDecimal(ns) == 0 <==> forall i :: 0 <= i < |ns| ==> ns[i] == 0
  {
    if ns != [] {
      NibblesDecimalZero(ns[..|ns| - 1]);
      var init := ns[..|ns| - 1];
      assert forall i :: 0 <= i < |init| ==> init[i] == ns[i];
    }
  }

  lemma Pow10Twelve()
    ensures Pow10(12) == 1_000_000_000_000
  {
    assert Pow10(0) == 1;
  }

  function Zeros(n: nat): string {
    seq(n, _ => '0')
  }

  lemma DigitsOfWidened(digits: string)
    requires |digits| == 12
    ensures DigitsOf(IdPrefix + digits) == Zeros(20) + digits
  {
    assert IdPrefix == Zeros(8) + "-" + Zeros(4) + "-" + Zeros(4) + "-" + Zeros(4) + "-";
    var s := IdPrefix + digits;
    assert s[..8] == Zeros(8);
    assert s[9..13] == Zeros(4);
    assert s[14..18] == Zeros(4);
    assert s[19..23] == Zeros(4);
    assert s[24..] == digits;
    assert Zeros(8) + Zeros(4) + Zeros(4) + Zeros(4) == Zeros(20);
  }

  lemma WidenedIsDForm(digits: string)
    requires |digits| == 12 && AllDigits(digits)
    ensures IsDForm(IdPrefix + digits)
  {
    var s := IdPrefix + digits;
    DigitsOfWidened(digits);
    assert s[8] == '-' && s[13] == '-' && s[18] == '-' && s[23] == '-';
    forall i | 0 <= i < 32 ensures IsHex(DigitsOf(s)[i]) {
      if i >= 20 {
        assert DigitsOf(s)[i] == digits[i - 20];
      }
    }
  }

  /** The widened key parses exactly when the id is not negative. */
  lemma WidenKeyDefined(key: Int32)
    ensures WidenKey(key).Some? <==> key >= 0
  {
    var digits := FormatD(key, 12);
    if key >= 0 {
      Pow10Twelve();
      WidenedIsDForm(digits);
    } else {
      assert |IdPrefix + digits| >= 37;
    }
  }

  /**
   * A non-negative id becomes the guid whose first twenty nibbles are zero
   * and whose last twelve nibbles are the id's decimal digits.
   */
  lemma WidenKeyDigits(key: Int32)
    requires key >= 0
    ensures WidenKey(key).Some?
    ensures forall i :: 0 <= i < 20 ==> WidenKey(key).value[i] == 0
    ensures forall i :: 20 <= i < 32 ==> WidenKey(key).value[i] < 10
    ensures NibblesDecimal(WidenKey(key).value[20..]) == key
  {
    WidenKeyDefined(key);
    Pow10Twelve();
    var digits := FormatD(key, 12);
    var s := IdPrefix + digits;
    var g := WidenKey(key).value;
    DigitsOfWidened(digits);
    assert DigitsOf(s)[20..] == digits;
    forall i | 0 <= i < 20 ensures g[i] == 0 {
      assert DigitsOf(s)[i] == '0';
    }
    NibblesOfDigits(digits, g[20..]);
  }

  /** Distinct non-negative ids widen to distinct guids. */
  lemma WidenKeyInjective(a: Int32, b: Int32)
    requires WidenKey(a).Some? && WidenKey(a) == WidenKey(b)
    ensures a == b
  {
    WidenKeyDefined(a);
    WidenKeyDefined(b);
    WidenKeyDigits(a);
    WidenKeyDigits(b);
  }

  lemma EmptyTail()
    ensures NibblesDecimal(Empty[20..]) == 0
  {
    NibblesDecimalZero(Empty[20..]);
  }

  /** Id 0 widens to Guid.Empty, and no other id does. */
  lemma WidenKeyEmpty(key: Int32)
    ensures WidenKey(key) == Some(Empty) <==> key == 0
  {
    WidenKeyDefined(key);
    if key == 0 {
      WidenKeyDigits(0);
      var g := WidenKey(0).value;
      NibblesDecimalZero(g[20..]);
      assert forall i :: 20 <= i < 32 ==> g[i] == g[20..][i - 20];
      assert g == Empty;
    } else if key > 0 {
      WidenKeyDigits(key);
      EmptyTail();
    }
  }

  // ---------------------------------------------------------------------------
  // Reading a file's key

  /** The text of a node that may be missing (XElement.Value behind a null check). */
  function TextOf(e: Option<Element>): Option<string> {
    if e.Some? then Some(Value(e.value)) else None
  }

  /** The four places a key may be kept, in the order they are tried. */
  function KeyCandidates(node: Element): (r: seq<Guid>)
    ensures |r| == 4
  {
    var info := FirstElement(node, "Info");
    [ ValueOrEmpty(TextOf(FirstElement(node, "Key"))),
      if info.Some? then ValueOrEmpty(TextOf(FirstElement(info.value, "Key"))) else Empty,
      ValueOrEmpty(Attribute(node, "Key")),
      ValueOrEmpty(Attribute(node, "guid")) ]
  }

  /** The key of a loaded document: the first place that holds a non-Empty guid, tried in a fixed order. */
  function KeyOf(node: Element): (g: Guid)
    ensures g == Empty <==> forall i :: 0 <= i < 4 ==> KeyCandidates(node)[i] == Empty
    ensures g != Empty ==> exists i :: 0 <= i < 4 && KeyCandidates(node)[i] == g
                                       && forall j :: 0 <= j < i ==> KeyCandidates(node)[j] == Empty
  {
    var c := KeyCandidates(node);
    var fromElement := ValueOrEmpty(TextOf(FirstElement(node, "Key")));
    var fromInfo :=
      if fromElement == Empty && FirstElement(node, "Info").Some? then
        ValueOrEmpty(TextOf(FirstElement(FirstElement(node, "Info").value, "Key")))
      else fromElement;
    var fromAttribute := if fromInfo == Empty then ValueOrEmpty(Attribute(node, "Key")) else fromInfo;
    var g := if fromAttribute == Empty then ValueOrEmpty(Attribute(node, "guid")) else fromAttribute;
    assert g != Empty ==>
      (c[0] == g) || (c[0] == Empty && c[1] == g) || (c[0] == Empty && c[1] == Empty && c[2] == g)
      || (c[0] == Empty && c[1] == Empty && c[2] == Empty && c[3] == g);
    g
  }

  /** GetKey(file): a missing file or one that is not well-formed XML reads as Guid.Empty. */
  function GetKey(t: Tree, file: Path): (g: Guid)
    ensures g != Empty ==> IsFile(t, file) && t[file].content.Some? && g == KeyOf(t[file].content.value)
    ensures IsFile(t, file) && t[file].content.Some? ==> g == KeyOf(t[file].content.value)
  {
    if IsFile(t, file) && t[file].content.Some? then KeyOf(t[file].content.value) else Empty
  }

  // ---------------------------------------------------------------------------
  // Which files are orphans

  /** Matches the search pattern "*.config" of Directory.GetFiles. */
  predicate IsConfigName(name: string) {
    |name| >= 7 && EqualsIgnoreCase(name[|name| - 7..], ".config")
  }

  /** String.Equals(a, b, StringComparison.OrdinalIgnoreCase) on two full paths. */
  predicate SamePathIgnoreCase(a: Path, b: Path) {
    |a| == |b| && forall i :: 0 <= i < |a| ==> EqualsIgnoreCase(a[i], b[i])
  }

  /** Directory.GetFiles(folder, "*.config"). */
  function ConfigFilesIn(t: Tree, folder: Path): (r: set<Path>)
    ensures forall p :: p in r <==> IsFile(t, p) && DirectlyIn(p, folder) && IsConfigName(FileName(p))
  {
    set p | p in FilesIn(t, folder) && IsConfigName(FileName(p))
  }

  /** A file the reconciler treats as an orphan of the item with this key. */
  predicate IsOrphan(t: Tree, p: Path, key: Guid, newFile: Path) {
    && |p| > 0
    && IsFile(t, p)
    && IsConfigName(FileName(p))
    && !SamePathIgnoreCase(p, newFile)
    && GetKey(t, p) != Empty
    && GetKey(t, p) == key
  }

  /** The folder the subfolders of an orphan's folder are moved into: Path.GetDirectoryName(newFile). */
  function TargetOf(newFile: Path): (r: Path)
    ensures |newFile| > 0 ==> r == Parent(newFile)
  {
    if |newFile| > 0 then Parent(newFile) else []
  }

  /**
   * No orphan is left anywhere below folder, except files lying inside a
   * directory created by one of the moves recorded in moves from index from on.
   */
  ghost predicate NoOrphanLeft(t: Tree, folder: Path, key: Guid, newFile: Path, moves: seq<Path>, from: nat) {
    forall p :: IsPrefix(folder, p) && p != folder && IsOrphan(t, p, key, newFile) ==> Carried(p, moves, from)
  }

  /** There is no orphan anywhere below folder. */
  ghost predicate NoOrphanUnder(t: Tree, folder: Path, key: Guid, newFile: Path) {
    forall p :: IsPrefix(folder, p) && p != folder ==> !IsOrphan(t, p, key, newFile)
  }

  /** With no move recorded, nothing is exempt, so no orphan is left at all. */
  lemma NoMovesNoOrphan(t: Tree, folder: Path, key: Guid, newFile: Path, moves: seq<Path>)
    requires NoOrphanLeft(t, folder, key, newFile, moves, |moves|)
    ensures NoOrphanUnder(t, folder, key, newFile)
  {
  }

  /** A collaborator call the walk may make while reconciling this key. */
  predicate OrphanEvent(e: Event, key: Guid, newFile: Path, addRename: bool) {
    match e
    case Archived(p, content) =>
      && |p| > 0
      && IsConfigName(FileName(p))
      && !SamePathIgnoreCase(p, newFile)
      && content.Some?
      && key != Empty
      && KeyOf(content.value) == key
    case Renamed(_, _, _) => addRename
  }

  /** The log grew by appending only calls the walk may make. */
  ghost predicate LogExtends(before: seq<Event>, after: seq<Event>, key: Guid, newFile: Path, addRename: bool) {
    && |after| >= |before|
    && after[..|before|] == before
    && forall i :: |before| <= i < |after| ==> OrphanEvent(after[i], key, newFile, addRename)
  }

  /** A fault the calls ManageOrphan(_, newFile, addRename) make can raise. */
  predicate ThrownBy(e: Fault, newFile: Path, addRename: bool) {
    match e
    case MoveRefused(src, dst) => |newFile| > 0 && |src| > 0 && dst == Parent(newFile) + [FileName(src)]
    case LoadFailed(p) => addRename && p == newFile
    case NoDirectoryName(p) => p == newFile && |p| == 0
  }

  /**
   * ok is false exactly when one collaborator call threw: nothing threw on
   * success, and on failure the single fault is the last thing that happened.
   */
  ghost predicate FailsOnFault(f0: seq<Fault>, f: seq<Fault>, newFile: Path, addRename: bool, ok: bool) {
    if ok then f == f0
    else |f| == |f0| + 1 && f[..|f0|] == f0 && ThrownBy(f[|f0|], newFile, addRename)
  }

  // ---------------------------------------------------------------------------
  // Handling one orphan

  /** The two element readers the rename record uses: NameFromNode and GetTypeFromElement. */
  datatype Readers = Readers(nameFromNode: Element -> string, typeFromElement: Element -> Option<string>)

  /**
   * The rename action recorded for the new file: with addRename, exactly one
   * when the type reader knows the document, carrying that type, the key read
   * from the document and the alias the name reader gives; none otherwise.
   */
  function RenameRecord(t: Tree, newFile: Path, addRename: bool, readers: Readers): (r: seq<Event>)
    requires addRename ==> Loadable(t, newFile)
    ensures |r| <= 1
    ensures addRename ==> (r != [] <==> readers.typeFromElement(t[newFile].content.value).Some?)
    ensures r != [] ==> addRename && r[0].Renamed? && r[0].key == GetKey(t, newFile)
    ensures r != [] ==> r[0].itemType == readers.typeFromElement(t[newFile].content.value).value
                        && r[0].alias == readers.nameFromNode(t[newFile].content.value)
  {
    if !addRename then []
    else
      var element := t[newFile].content.value;
      match readers.typeFromElement(element)
      case None => []
      case Some(itemType) => [Renamed(itemType, KeyOf(element), readers.nameFromNode(element))]
  }

  function RedirectOf(file: Path): Path
    requires |file| > 0
  {
    Parent(file) + ["redirect.config"]
  }

  // ---------------------------------------------------------------------------
  // No file is lost

  /**
   * What became of the file that was at p in t0: it lies at q in t with the
   * same contents, or it was archived from q, or q is the redirect.config
   * deleted beside an archived file. q is p itself or a place that moves into
   * target can have carried it to. Only the calls logged from index from on count.
   */
  ghost predicate FileFate(t0: Tree, t: Tree, log: seq<Event>, from: nat, target: Path, p: Path, q: Path)
    requires IsFile(t0, p)
  {
    && Carries(p, q, target)
    && ( (q in t && t[q] == t0[p])
      || (exists i :: from <= i < |log| && log[i] == Archived(q, t0[p].content))
      || (exists i :: from <= i < |log| && log[i].Archived? && |log[i].path| > 0 && q == RedirectOf(log[i].path)))
  }

  /** Every file of t0 has a fate in t. */
  ghost predicate FilesAccounted(t0: Tree, t: Tree, log: seq<Event>, from: nat, target: Path) {
    forall p :: IsFile(t0, p) ==> exists q :: FileFate(t0, t, log, from, target, p, q)
  }

  /** Every file of t0 is still in t, unchanged, at its old place or where moves into target can have carried it. */
  ghost predicate FilesCarried(t0: Tree, t: Tree, target: Path) {
    forall p :: IsFile(t0, p) ==> exists q :: Carries(p, q, target) && q in t && t[q] == t0[p]
  }

  lemma FilesCarriedRefl(t: Tree, target: Path)
    ensures FilesCarried(t, t, target)
  {
    forall p | IsFile(t, p) ensures exists q :: Carries(p, q, target) && q in t && t[q] == t[p] {
      assert Carries(p, p, target);
    }
  }

  lemma FilesCarriedAccounted(t0: Tree, t: Tree, log: seq<Event>, from: nat, target: Path)
    requires FilesCarried(t0, t, target)
    ensures FilesAccounted(t0, t, log, from, target)
  {
    forall p | IsFile(t0, p) ensures exists q :: FileFate(t0, t, log, from, target, p, q) {
      var q :| Carries(p, q, target) && q in t && t[q] == t0[p];
      assert FileFate(t0, t, log, from, target, p, q);
    }
  }

  /** A fate stays a fate when the log grows and more of it counts. */
  lemma FateLog(t0: Tree, t: Tree, log: seq<Event>, log': seq<Event>, from: nat, from': nat, target: Path, p: Path, q: Path)
    requires IsFile(t0, p) && FileFate(t0, t, log, from, target, p, q)
    requires |log| <= |log'| && log'[..|log|] == log && from' <= from
    ensures FileFate(t0, t, log', from', target, p, q)
  {
    if !(q in t && t[q] == t0[p]) {
      if exists i :: from <= i < |log| && log[i] == Archived(q, t0[p].content) {
        var i :| from <= i < |log| && log[i] == Archived(q, t0[p].content);
        assert log'[i] == log'[..|log|][i];
      } else {
        var i :| from <= i < |log| && log[i].Archived? && |log[i].path| > 0 && q == RedirectOf(log[i].path);
        assert log'[i] == log'[..|log|][i];
      }
    }
  }

  lemma FilesAccountedTransitive(t0: Tree, t1: Tree, t2: Tree, log1: seq<Event>, log2: seq<Event>, from: nat, target: Path)
    requires FilesAccounted(t0, t1, log1, from, target) && FilesAccounted(t1, t2, log2, |log1|, target)
    requires |log1| <= |log2| && log2[..|log1|] == log1 && from <= |log1|
    ensures FilesAccounted(t0, t2, log2, from, target)
  {
    forall p | IsFile(t0, p) ensures exists q :: FileFate(t0, t2, log2, from, target, p, q) {
      var q1 :| FileFate(t0, t1, log1, from, target, p, q1);
      if q1 in t1 && t1[q1] == t0[p] {
        assert IsFile(t1, q1);
        var q2 :| FileFate(t1, t2, log2, |log1|, target, q1, q2);
        CarriesTransitive(p, q1, q2, target);
        FateLog(t1, t2, log2, log2, |log1|, from, target, q1, q2);
        assert FileFate(t0, t2, log2, from, target, p, q2);
      } else {
        FateLog(t0, t1, log1, log2, from, from, target, p, q1);
        assert FileFate(t0, t2, log2, from, target, p, q1);
      }
    }
  }

  lemma FilesAccountedLog(t0: Tree, t: Tree, log: seq<Event>, log': seq<Event>, from: nat, target: Path)
    requires FilesAccounted(t0, t, log, from, target) && |log| <= |log'| && log'[..|log|] == log
    ensures FilesAccounted(t0, t, log', from, target)
  {
    forall p | IsFile(t0, p) ensures exists q :: FileFate(t0, t, log', from, target, p, q) {
      var q :| FileFate(t0, t, log, from, target, p, q);
      FateLog(t0, t, log, log', from, from, target, p, q);
    }
  }

  // ---------------------------------------------------------------------------
  // Moving the subfolders of the orphan's folder

  /** An entry lying in, or below, one of the subdirectories of d. */
  predicate InSubfolder(t: Tree, d: Path, p: Path) {
    |p| > |d| && p[..|d|] == d && IsDir(t, p[..|d| + 1])
  }

  /** Every entry of t0 that is not in one of the moved subdirectories of d is still in t, unchanged. */
  ghost predicate KeptOutside(t0: Tree, t: Tree, d: Path, moved: set<Path>) {
    forall p :: p in t0 && !(|p| > |d| && p[..|d| + 1] in moved) ==> p in t && t[p] == t0[p]
  }

  /**
   * Every moved subdirectory now exists under target; target was not inside
   * it, and its new place is not d or above d.
   */
  ghost predicate TargetsMade(t: Tree, d: Path, target: Path, moved: set<Path>) {
    forall s :: s in moved && |s| > 0 ==>
      !IsPrefix(s, target) && IsDir(t, target + [FileName(s)]) && !IsPrefix(target + [FileName(s)], d)
  }

  /** Everything that was inside one of the subdirectories s in dirs now lies at target/<name of s>/..., unchanged. */
  ghost predicate SubfoldersRelocated(t0: Tree, t: Tree, target: Path, dirs: set<Path>) {
    forall s, p :: s in dirs && |s| > 0 && p in t0 && IsPrefix(s, p) ==>
      Relocate(p, s, target + [FileName(s)]) in t && t[Relocate(p, s, target + [FileName(s)])] == t0[p]
  }

  lemma KeptOutsideSubfolders(t0: Tree, t: Tree, d: Path, moved: set<Path>)
    requires moved <= DirsIn(t0, d) && KeptOutside(t0, t, d, moved)
    ensures forall p :: p in t0 && !InSubfolder(t0, d, p) ==> p in t && t[p] == t0[p]
  {
    forall p | p in t0 && !InSubfolder(t0, d, p) ensures p in t && t[p] == t0[p] {
      if |p| > |d| {
        assert p[..|d| + 1][..|d|] == p[..|d|];
      }
    }
  }

  lemma MoveStepKeeps(t0: Tree, before: Tree, d: Path, sub: Path, dst: Path, moved: set<Path>)
    requires WellFormed(before) && MoveAllowed(before, sub, dst) && DirectlyIn(sub, d)
    requires KeptOutside(t0, before, d, moved)
    ensures KeptOutside(t0, MoveTree(before, sub, dst), d, moved + {sub})
  {
    forall p | p in t0 && !(|p| > |d| && p[..|d| + 1] in moved + {sub})
      ensures p in MoveTree(before, sub, dst) && MoveTree(before, sub, dst)[p] == t0[p]
    {
      MoveKeepsOthers(before, sub, dst, p);
    }
  }

  /** The move of sub creates target/<name of sub>, which is neither d nor above it; target is not inside sub. */
  lemma NewTargetMade(before: Tree, d: Path, target: Path, sub: Path)
    requires WellFormed(before) && IsDir(before, d) && DirectlyIn(sub, d)
    requires MoveAllowed(before, sub, target + [FileName(sub)])
    ensures target != d && !IsPrefix(sub, target)
    ensures IsDir(MoveTree(before, sub, target + [FileName(sub)]), target + [FileName(sub)])
    ensures !IsPrefix(target + [FileName(sub)], d)
  {
    var dst := target + [FileName(sub)];
    assert sub == d + [FileName(sub)];
    PrefixExtend(sub, target, FileName(sub));
    assert dst + [] == dst && sub + [] == sub;
    MovePreservesChildren(before, sub, dst, []);
    PrefixesExist(before, dst);
  }

  /** The move of sub leaves the folder an earlier move created where it is. */
  lemma EarlierTargetKept(before: Tree, d: Path, target: Path, sub: Path, s: Path)
    requires WellFormed(before) && DirectlyIn(sub, d) && |s| > 0
    requires MoveAllowed(before, sub, target + [FileName(sub)])
    requires IsDir(before, target + [FileName(s)]) && !IsPrefix(sub, target)
    ensures IsDir(MoveTree(before, sub, target + [FileName(sub)]), target + [FileName(s)])
  {
    PrefixExtend(sub, target, FileName(s));
    assert sub == d + [FileName(sub)];
    assert (target + [FileName(s)])[..|target|] == target;
    MoveKeepsOthers(before, sub, target + [FileName(sub)], target + [FileName(s)]);
  }

  lemma MoveStepTargets(before: Tree, d: Path, target: Path, sub: Path, moved: set<Path>)
    requires WellFormed(before) && IsDir(before, d) && DirectlyIn(sub, d)
    requires MoveAllowed(before, sub, target + [FileName(sub)])
    requires TargetsMade(before, d, target, moved)
    ensures target != d
    ensures TargetsMade(MoveTree(before, sub, target + [FileName(sub)]), d, target, moved + {sub})
  {
    NewTargetMade(before, d, target, sub);
    forall s | s in moved && |s| > 0 ensures IsDir(MoveTree(before, sub, target + [FileName(sub)]), target + [FileName(s)]) {
      EarlierTargetKept(before, d, target, sub, s);
    }
  }

  /**
   * A place inside the destination of an earlier move is not inside sub, a
   * subdirectory of d that may be moved to target/<its name>.
   */
  lemma OutsideMovedSub(d: Path, target: Path, sub: Path, s: Path, q: Path)
    requires DirectlyIn(sub, d) && |s| > 0 && target != d
    requires !IsPrefix(sub, target + [FileName(sub)]) && !IsPrefix(target + [FileName(s)], d)
    requires IsPrefix(target + [FileName(s)], q)
    ensures !IsPrefix(sub, q)
  {
    var dest := target + [FileName(s)];
    assert sub == d + [FileName(sub)];
    assert IsPrefix(sub, sub);
    PrefixesCompare(sub, dest, q);
    PrefixExtend(sub, target, FileName(s));
    PrefixExtend(sub, target, FileName(sub));
    PrefixExtend(dest, d, FileName(sub));
  }

  /** What was inside sub lies at target/<name of sub>/... once sub has been moved there. */
  lemma MovedSubRelocated(t0: Tree, before: Tree, d: Path, target: Path, sub: Path, moved: set<Path>, p: Path)
    requires DirectlyIn(sub, d) && sub !in moved && KeptOutside(t0, before, d, moved)
    requires p in t0 && IsPrefix(sub, p)
    ensures Relocate(p, sub, target + [FileName(sub)]) in MoveTree(before, sub, target + [FileName(sub)])
            && MoveTree(before, sub, target + [FileName(sub)])[Relocate(p, sub, target + [FileName(sub)])] == t0[p]
  {
    assert p[..|d| + 1] == sub;
    assert sub + p[|sub|..] == p;
    MovePreservesChildren(before, sub, target + [FileName(sub)], p[|sub|..]);
  }

  /** What an earlier move relocated stays where it is when sub is moved. */
  lemma EarlierMoveKept(t0: Tree, before: Tree, d: Path, target: Path, sub: Path, moved: set<Path>, s: Path, p: Path)
    requires WellFormed(before) && DirectlyIn(sub, d) && s in moved && |s| > 0
    requires MoveAllowed(before, sub, target + [FileName(sub)])
    requires target == d ==> moved == {}
    requires TargetsMade(before, d, target, moved) && SubfoldersRelocated(t0, before, target, moved)
    requires p in t0 && IsPrefix(s, p)
    ensures Relocate(p, s, target + [FileName(s)]) in MoveTree(before, sub, target + [FileName(sub)])
            && MoveTree(before, sub, target + [FileName(sub)])[Relocate(p, s, target + [FileName(s)])] == t0[p]
  {
    var q := Relocate(p, s, target + [FileName(s)]);
    assert q[..|target + [FileName(s)]|] == target + [FileName(s)];
    OutsideMovedSub(d, target, sub, s, q);
    MoveKeepsOthers(before, sub, target + [FileName(sub)], q);
  }

  /** A move of sub out of d keeps what earlier moves relocated and relocates what was inside sub. */
  lemma MoveStepRelocates(t0: Tree, before: Tree, d: Path, target: Path, sub: Path, moved: set<Path>)
    requires WellFormed(before) && DirectlyIn(sub, d) && sub !in moved
    requires MoveAllowed(before, sub, target + [FileName(sub)])
    requires target == d ==> moved == {}
    requires KeptOutside(t0, before, d, moved) && TargetsMade(before, d, target, moved)
    requires SubfoldersRelocated(t0, before, target, moved)
    ensures SubfoldersRelocated(t0, MoveTree(before, sub, target + [FileName(sub)]), target, moved + {sub})
  {
    var after := MoveTree(before, sub, target + [FileName(sub)]);
    forall s, p | s in moved + {sub} && |s| > 0 && p in t0 && IsPrefix(s, p)
      ensures Relocate(p, s, target + [FileName(s)]) in after
              && after[Relocate(p, s, target + [FileName(s)])] == t0[p]
    {
      if s == sub {
        MovedSubRelocated(t0, before, d, target, sub, moved, p);
      } else {
        EarlierMoveKept(t0, before, d, target, sub, moved, s, p);
      }
    }
  }

  /** What has been established after moving the subdirectories in moved out of d. */
  ghost predicate MoveProgress(t0: Tree, t: Tree, d: Path, target: Path, moved: set<Path>,
                               moves0: seq<Path>, moves: seq<Path>) {
    && |t| == |t0|
    && MovesExtend(moves0, moves) && MovesInto(moves, |moves0|, target)
    && FilesKeptOrCarried(t0, t, moves, |moves0|)
    && KeptOutside(t0, t, d, moved)
    && TargetsMade(t, d, target, moved)
    && SubfoldersRelocated(t0, t, target, moved)
    && (target == d ==> moved == {})
    && (moved == {} ==> t == t0 && moves == moves0)
  }

  lemma MoveProgressStart(t: Tree, d: Path, target: Path, moves: seq<Path>)
    ensures MoveProgress(t, t, d, target, {}, moves, moves)
  {
    FilesKeptInSubtree(t, t, moves, |moves|);
  }

  /** Every subdirectory of d in t is one of s. */
  ghost predicate ChildDirsWithin(t: Tree, d: Path, s: set<Path>) {
    forall q :: IsDir(t, q) && DirectlyIn(q, d) ==> q in s
  }

  lemma MovesRecorded(moves0: seq<Path>, moves: seq<Path>, dst: Path, target: Path)
    requires MovesExtend(moves0, moves) && MovesInto(moves, |moves0|, target) && DirectlyIn(dst, target)
    ensures MovesExtend(moves0, moves + [dst]) && MovesInto(moves + [dst], |moves0|, target)
    ensures MovesExtend(moves, moves + [dst])
  {
    assert (moves + [dst])[..|moves|] == moves;
    MovesExtendTransitive(moves0, moves, moves + [dst]);
    forall i | |moves0| <= i < |moves + [dst]| ensures DirectlyIn((moves + [dst])[i], target) {
      if i < |moves| {
        assert (moves + [dst])[i] == moves[i];
      }
    }
  }

  lemma MoveProgressStep(t0: Tree, before: Tree, d: Path, target: Path, sub: Path, moved: set<Path>,
                         remaining: set<Path>, moves0: seq<Path>, moves: seq<Path>)
    requires WellFormed(before) && IsDir(before, d) && DirectlyIn(sub, d) && sub !in moved
    requires MoveAllowed(before, sub, target + [FileName(sub)])
    requires MoveProgress(t0, before, d, target, moved, moves0, moves)
    requires ChildDirsWithin(before, d, remaining)
    ensures MoveProgress(t0, MoveTree(before, sub, target + [FileName(sub)]), d, target, moved + {sub},
                         moves0, moves + [target + [FileName(sub)]])
    ensures ChildDirsWithin(MoveTree(before, sub, target + [FileName(sub)]), d, remaining - {sub})
  {
    var dst := target + [FileName(sub)];
    MovesRecorded(moves0, moves, dst, target);
    MoveIntoTarget(before, sub, dst, moves);
    FilesKeptOrCarriedTransitive(t0, before, MoveTree(before, sub, dst), moves, moves + [dst], |moves0|);
    MoveKeepsSize(before, sub, dst);
    MoveLeavesNoNewChild(before, d, sub, target);
    MoveStepKeeps(t0, before, d, sub, dst, moved);
    MoveStepTargets(before, d, target, sub, moved);
    MoveStepRelocates(t0, before, d, target, sub, moved);
  }

  /**
   * The outcome of moving the subdirectories of d to target: the size is
   * kept, every moved file lies inside a recorded move's destination, every
   * old file is still there, unchanged, at its old place or where the moves
   * carried it, entries outside the subdirectories of d stay where they were,
   * nothing moves when d has no subdirectory, and a move onto d itself fails.
   * On success d has no subdirectory left, each former one exists under
   * target with its own name, and everything that was inside it lies at the
   * same place relative to its new location.
   */
  ghost predicate ChildFoldersMoved(t0: Tree, t: Tree, d: Path, target: Path, ok: bool,
                                    moves0: seq<Path>, moves: seq<Path>) {
    && |t| == |t0|
    && MovesExtend(moves0, moves) && MovesInto(moves, |moves0|, target)
    && FilesKeptOrCarried(t0, t, moves, |moves0|)
    && FilesCarried(t0, t, target)
    && (forall p :: p in t0 && !InSubfolder(t0, d, p) ==> p in t && t[p] == t0[p])
    && (DirsIn(t0, d) == {} ==> ok && t == t0 && moves == moves0)
    && (target == d && DirsIn(t0, d) != {} ==> !ok)
    && (ok ==> DirsIn(t, d) == {})
    && (ok ==> TargetsMade(t, d, target, DirsIn(t0, d)))
    && (ok ==> SubfoldersRelocated(t0, t, target, DirsIn(t0, d)))
  }

  lemma NoChildDirsLeft(t: Tree, d: Path)
    requires ChildDirsWithin(t, d, {})
    ensures DirsIn(t, d) == {}
  {
  }

  /** The files inside the moved subdirectories are where the moves carried them; the others stayed. */
  lemma MovedFilesCarried(t0: Tree, t: Tree, d: Path, target: Path, moved: set<Path>)
    requires moved <= DirsIn(t0, d) && KeptOutside(t0, t, d, moved)
    requires TargetsMade(t, d, target, moved) && SubfoldersRelocated(t0, t, target, moved)
    ensures FilesCarried(t0, t, target)
  {
    forall p | IsFile(t0, p) ensures exists q :: Carries(p, q, target) && q in t && t[q] == t0[p] {
      if |p| > |d| && p[..|d| + 1] in moved {
        var s := p[..|d| + 1];
        assert IsPrefix(s, p) && p != s;
        MoveCarries(p, s, target);
        assert Carries(p, Relocate(p, s, target + [FileName(s)]), target);
      } else {
        assert Carries(p, p, target);
      }
    }
  }

  lemma NothingMovedWithoutChildren(t0: Tree, t: Tree, d: Path, target: Path, moved: set<Path>, remaining: set<Path>,
                                    moves0: seq<Path>, moves: seq<Path>)
    requires MoveProgress(t0, t, d, target, moved, moves0, moves)
    requires remaining + moved == DirsIn(t0, d)
    ensures DirsIn(t0, d) == {} ==> remaining == {} && t == t0 && moves == moves0
    ensures target == d ==> moved == {}
  {
  }

  /** The state of the loop in MoveChildFolders: moved and remaining split the subdirectories d had at the start. */
  ghost predicate MoveLoop(t0: Tree, t: Tree, d: Path, target: Path, moved: set<Path>, remaining: set<Path>,
                           moves0: seq<Path>, moves: seq<Path>) {
    && remaining !! moved && remaining + moved == DirsIn(t0, d)
    && MoveProgress(t0, t, d, target, moved, moves0, moves) && ChildDirsWithin(t, d, remaining)
  }

  lemma ChildFoldersMovedAtEnd(t0: Tree, t: Tree, d: Path, target: Path, moved: set<Path>, remaining: set<Path>,
                               ok: bool, moves0: seq<Path>, moves: seq<Path>)
    requires MoveLoop(t0, t, d, target, moved, remaining, moves0, moves)
    requires ok ==> remaining == {}
    requires !ok ==> remaining != {}
    ensures ChildFoldersMoved(t0, t, d, target, ok, moves0, moves)
  {
    KeptOutsideSubfolders(t0, t, d, moved);
    NothingMovedWithoutChildren(t0, t, d, target, moved, remaining, moves0, moves);
    MovedFilesCarried(t0, t, d, target, moved);
    if ok {
      NoChildDirsLeft(t, d);
      assert moved == DirsIn(t0, d);
    }
  }

  lemma MoveLoopStep(t0: Tree, before: Tree, d: Path, target: Path, sub: Path, moved: set<Path>,
                     remaining: set<Path>, moves0: seq<Path>, moves: seq<Path>)
    requires WellFormed(before) && IsDir(t0, d) && sub in remaining
    requires MoveLoop(t0, before, d, target, moved, remaining, moves0, moves)
    requires MoveAllowed(before, sub, target + [FileName(sub)])
    ensures MoveLoop(t0, MoveTree(before, sub, target + [FileName(sub)]), d, target, moved + {sub}, remaining - {sub},
                     moves0, moves + [target + [FileName(sub)]])
  {
    var after := MoveTree(before, sub, target + [FileName(sub)]);
    var moves' := moves + [target + [FileName(sub)]];
    assert sub in DirsIn(t0, d) && sub !in moved;
    assert d in before && before[d] == t0[d];
    MoveProgressStep(t0, before, d, target, sub, moved, remaining, moves0, moves);
    assert MoveProgress(t0, after, d, target, moved + {sub}, moves0, moves');
    assert ChildDirsWithin(after, d, remaining - {sub});
    MoveOne(remaining, moved, sub);
  }

  /** Moving one element from one set of a split to the other keeps the split. */
  lemma MoveOne<T>(remaining: set<T>, moved: set<T>, x: T)
    requires x in remaining && remaining !! moved
    ensures (remaining - {x}) !! (moved + {x}) && (remaining - {x}) + (moved + {x}) == remaining + moved
  {
  }

  /** The only fault of MoveChildFolders: Directory.Move of one of d's subfolders to target/<its name> threw. */
  ghost predicate ChildMoveRefused(f0: seq<Fault>, f: seq<Fault>, t0: Tree, d: Path, target: Path) {
    && |f| == |f0| + 1 && f[..|f0|] == f0
    && f[|f0|].MoveRefused? && f[|f0|].src in DirsIn(t0, d) && |f[|f0|].src| > 0
    && f[|f0|].dst == target + [FileName(f[|f0|].src)]
  }

  /** One turn of the loop in MoveChildFolders: Directory.Move(sub, target/<name of sub>). */
  method MoveChildFolder(ws: Workspace, d: Path, target: Path, sub: Path,
                         ghost t0: Tree, ghost moved: set<Path>, ghost remaining: set<Path>, ghost moves0: seq<Path>)
    returns (ok: bool)
    requires ws.Valid() && IsDir(t0, d) && sub in remaining
    requires MoveLoop(t0, ws.tree, d, target, moved, remaining, moves0, ws.moves)
    modifies ws
    ensures ws.Valid() && ws.log == old(ws.log)
    ensures ok == MoveAllowed(old(ws.tree), sub, target + [FileName(sub)])
    ensures ws.tree == if ok then MoveTree(old(ws.tree), sub, target + [FileName(sub)]) else old(ws.tree)
    ensures ws.moves == if ok then old(ws.moves) + [target + [FileName(sub)]] else old(ws.moves)
    ensures ws.faults == if ok then old(ws.faults) else old(ws.faults) + [MoveRefused(sub, target + [FileName(sub)])]
    ensures ok ==> MoveLoop(t0, ws.tree, d, target, moved + {sub}, remaining - {sub}, moves0, ws.moves)
  {
    ghost var before := ws.tree;
    ghost var movesBefore := ws.moves;
    ok := ws.MoveDirectory(sub, target + [FileName(sub)]);
    if ok {
      MoveLoopStep(t0, before, d, target, sub, moved, remaining, moves0, movesBefore);
    }
  }

  /**
   * The first step of ManageOrphan: every subdirectory of orphanDir is moved
   * to targetDir/<its name>. A move that throws aborts the rest (ok is false).
   */
  method MoveChildFolders(ws: Workspace, orphanDir: Path, targetDir: Path) returns (ok: bool)
    requires ws.Valid() && IsDir(ws.tree, orphanDir) && IsDir(ws.tree, targetDir)
    modifies ws
    ensures ws.Valid() && ws.log == old(ws.log)
    ensures ChildFoldersMoved(old(ws.tree), ws.tree, orphanDir, targetDir, ok, old(ws.moves), ws.moves)
    ensures ok ==> ws.faults == old(ws.faults)
    ensures !ok ==> ChildMoveRefused(old(ws.faults), ws.faults, old(ws.tree), orphanDir, targetDir)
  {
    ghost var t0 := ws.tree;
    ghost var moves0 := ws.moves;
    ghost var moved: set<Path> := {};
    var remaining := DirsIn(ws.tree, orphanDir);
    MoveProgressStart(t0, orphanDir, targetDir, moves0);
    ok := true;
    while remaining != {}
      invariant ws.Valid() && ws.log == old(ws.log) && ws.faults == old(ws.faults)
      invariant MoveLoop(t0, ws.tree, orphanDir, targetDir, moved, remaining, moves0, ws.moves)
      decreases remaining
    {
      var sub :| sub in remaining;
      ok := MoveChildFolder(ws, orphanDir, targetDir, sub, t0, moved, remaining, moves0);
      if !ok {
        ChildFoldersMovedAtEnd(t0, ws.tree, orphanDir, targetDir, moved, remaining, ok, moves0, ws.moves);
        return;
      }
      remaining := remaining - {sub};
      moved := moved + {sub};
    }
    ChildFoldersMovedAtEnd(t0, ws.tree, orphanDir, targetDir, moved, remaining, ok, moves0, ws.moves);
  }

  /** A path directly in target, or target itself, is never inside a recorded move into target. */
  lemma NotCarriedShallow(q: Path, moves: seq<Path>, from: nat, target: Path)
    requires MovesInto(moves, from, target) && |q| < |target| + 2
    ensures !Carried(q, moves, from)
  {
    forall i | from <= i < |moves| && IsPrefix(moves[i], q) ensures moves[i] == q {
      assert |moves[i]| == |target| + 1;
    }
  }

  /** Where the new file lies, the moves of MoveChildFolders leave it alone. */
  lemma NewFileStays(t0: Tree, t1: Tree, d: Path, newFile: Path, moves: seq<Path>, from: nat)
    requires WellFormed(t0) && |newFile| > 0 && IsDir(t0, d)
    requires FilesKeptOrCarried(t0, t1, moves, from) && MovesInto(moves, from, Parent(newFile))
    requires forall p :: p in t0 && !InSubfolder(t0, d, p) ==> p in t1 && t1[p] == t0[p]
    requires forall s :: s in DirsIn(t0, d) ==> !IsPrefix(s, Parent(newFile))
    ensures Loadable(t1, newFile) ==> Loadable(t0, newFile)
    ensures Loadable(t0, newFile) ==> newFile in t1 && t1[newFile] == t0[newFile]
  {
    NotCarriedShallow(newFile, moves, from, Parent(newFile));
    if |newFile| > |d| {
      var s := newFile[..|d| + 1];
      assert s[..|d|] == newFile[..|d|];
      assert IsDir(t0, s) && s[..|d|] == d ==> s in DirsIn(t0, d);
      if |newFile| > |d| + 1 {
        assert Parent(newFile)[..|d| + 1] == s;
      } else {
        assert s == newFile;
      }
    }
  }

  // ---------------------------------------------------------------------------
  // Archiving the orphan and cleaning up its folder

  /** The tree left behind after the orphan is archived, redirect.config deleted and an empty folder removed. */
  ghost function AfterCleanup(t: Tree, file: Path): Tree
    requires |file| > 0
  {
    var archived := t - {file};
    var unredirected := if IsFile(archived, RedirectOf(file)) then archived - {RedirectOf(file)} else archived;
    if IsDir(unredirected, Parent(file)) && EntriesIn(unredirected, Parent(file)) == {} then
      unredirected - {Parent(file)}
    else
      unredirected
  }

  /** The state between the two halves of ManageOrphan: after the subfolders moved, if they did. */
  ghost predicate MovedOrKept(t0: Tree, t1: Tree, d: Path, target: Path, moves0: seq<Path>, moves1: seq<Path>) {
    if IsDir(t0, d) && IsDir(t0, target) then ChildFoldersMoved(t0, t1, d, target, true, moves0, moves1)
    else t1 == t0 && moves1 == moves0
  }

  lemma MapRemoveCard(m: Tree, k: Path)
    requires k in m
    ensures |m - {k}| == |m| - 1
  {
    assert (m - {k}).Keys == m.Keys - {k};
  }

  lemma {:induction false} CleanupKeeps(t1: Tree, file: Path)
    requires |file| > 0 && file in t1
    ensures AfterCleanup(t1, file).Keys <= t1.Keys - {file}
    ensures |AfterCleanup(t1, file)| < |t1|
    ensures forall p :: p in AfterCleanup(t1, file) ==> AfterCleanup(t1, file)[p] == t1[p]
    ensures forall p :: p in t1 && p != file && p != RedirectOf(file) && p != Parent(file) ==> p in AfterCleanup(t1, file)
    ensures !IsFile(AfterCleanup(t1, file), RedirectOf(file))
  {
    var archived := t1 - {file};
    MapRemoveCard(t1, file);
    var unredirected := if IsFile(archived, RedirectOf(file)) then archived - {RedirectOf(file)} else archived;
    SubsetCard(unredirected.Keys, archived.Keys);
    SubsetCard(AfterCleanup(t1, file).Keys, unredirected.Keys);
  }

  /** The files directly in d, the orphan among them, are where they were after the subfolders moved. */
  lemma DirectFilesStay(t0: Tree, t1: Tree, d: Path, target: Path, moves0: seq<Path>, moves1: seq<Path>)
    requires MovedOrKept(t0, t1, d, target, moves0, moves1)
    ensures forall p :: IsFile(t0, p) && DirectlyIn(p, d) ==> p in t1 && t1[p] == t0[p]
    ensures forall p :: p in t0 && !IsPrefix(d, p) ==> p in t1 && t1[p] == t0[p]
    ensures |t1| == |t0| && FilesKeptOrCarried(t0, t1, moves1, |moves0|) && FilesCarried(t0, t1, target)
    ensures MovesExtend(moves0, moves1) && MovesInto(moves1, |moves0|, target)
  {
    forall p | IsFile(t0, p) && DirectlyIn(p, d) ensures p in t1 && t1[p] == t0[p] {
      assert p[..|d| + 1] == p;
    }
    if !(IsDir(t0, d) && IsDir(t0, target)) {
      FilesCarriedRefl(t0, target);
    }
  }

  /** The moves of the first step leave everything outside d alone. */
  lemma OutsideFolderStays(t0: Tree, t1: Tree, d: Path, target: Path, moves0: seq<Path>, moves1: seq<Path>)
    requires MovedOrKept(t0, t1, d, target, moves0, moves1)
    ensures forall p :: p in t0 && !IsPrefix(d, p) ==> p in t1 && t1[p] == t0[p]
  {
  }

  /** The moves of the first step leave the orphan alone. */
  lemma OrphanStays(t0: Tree, t1: Tree, file: Path, target: Path, moves0: seq<Path>, moves1: seq<Path>)
    requires IsFile(t0, file) && |file| > 0 && MovedOrKept(t0, t1, Parent(file), target, moves0, moves1)
    ensures file in t1 && t1[file] == t0[file]
  {
    assert file[..|Parent(file)| + 1] == file;
  }

  lemma CleanupFolder(t1: Tree, file: Path)
    requires |file| > 0 && IsDir(t1, Parent(file))
    ensures var t := AfterCleanup(t1, file);
      Parent(file) in t <==> EntriesIn(t, Parent(file)) != {}
  {
    var d := Parent(file);
    assert RedirectOf(file) != d && file != d;
  }

  lemma CleanupKeepsNoDirs(t1: Tree, file: Path)
    requires |file| > 0 && file in t1
    ensures forall q :: IsDir(AfterCleanup(t1, file), q) ==> IsDir(t1, q)
  {
    CleanupKeeps(t1, file);
  }

  /**
   * What ManageOrphan leaves behind, stated against the tree it started
   * from: every file is an old one at its old place or inside a recorded
   * move's destination, the tree is smaller, the orphan and redirect.config are gone.
   */
  lemma {:induction false} CleanupOutcome(t0: Tree, t1: Tree, file: Path, newFile: Path, moves0: seq<Path>, moves1: seq<Path>)
    requires WellFormed(t0) && IsFile(t0, file) && |newFile| > 0
    requires MovedOrKept(t0, t1, Parent(file), Parent(newFile), moves0, moves1)
    ensures var t := AfterCleanup(t1, file);
      && FilesKeptOrCarried(t0, t, moves1, |moves0|)
      && |t| < |t0| && file !in t
      && !IsFile(t, RedirectOf(file))
  {
    var d := Parent(file);
    assert file[..|d|] == d;
    DirectFilesStay(t0, t1, d, Parent(newFile), moves0, moves1);
    CleanupKeeps(t1, file);
    FilesKeptInSubtree(t1, AfterCleanup(t1, file), moves1, |moves1|);
    FilesKeptOrCarriedTransitive(t0, t1, AfterCleanup(t1, file), moves1, moves1, |moves0|);
  }

  /** Archiving the orphan and deleting redirect.config lose no file: each is an archive call of the log. */
  lemma CleanupAccounted(t0: Tree, t1: Tree, file: Path, target: Path, log: seq<Event>, from: nat)
    requires WellFormed(t1) && |file| > 0 && IsFile(t0, file) && file in t1 && t1[file] == t0[file]
    requires FilesCarried(t0, t1, target)
    requires from < |log| && log[|log| - 1] == Archived(file, t0[file].content)
    ensures FilesAccounted(t0, AfterCleanup(t1, file), log, from, target)
  {
    var t := AfterCleanup(t1, file);
    CleanupKeeps(t1, file);
    forall p | IsFile(t0, p) ensures exists q :: FileFate(t0, t, log, from, target, p, q) {
      var q :| Carries(p, q, target) && q in t1 && t1[q] == t0[p];
      assert |file| > 1 ==> IsDir(t1, Parent(file));
      if q == file {
        assert log[|log| - 1] == Archived(q, t0[p].content);
      } else if q == RedirectOf(file) {
        assert log[|log| - 1].Archived? && log[|log| - 1].path == file;
      }
      assert FileFate(t0, t, log, from, target, p, q);
    }
  }

  /** A place inside target/<name> is neither d nor directly in d, when target/<name> is not d or above it and target is not d. */
  lemma InsideTargetNotInOrphanFolder(d: Path, target: Path, name: string, q: Path)
    requires IsPrefix(target + [name], q) && !IsPrefix(target + [name], d) && target != d
    ensures q != d && !DirectlyIn(q, d)
  {
    if |q| == |d| + 1 {
      assert q[..|d|] + [q[|d|]] == q;
      assert (target + [name])[..|target|] == target;
      assert (d + [q[|d|]])[..|d|] == d;
      PrefixExtend(target + [name], d, q[|d|]);
    }
  }

  /**
   * What a successful ManageOrphan leaves behind: the orphan and its
   * redirect.config are gone, the tree is smaller, nothing outside the
   * orphan's folder changed, nor did the other files directly in it; when
   * both folders existed, the orphan's folder has no subfolders left and
   * everything that was inside them now lies beside the new file; and the
   * orphan's folder exists afterwards only if it still holds something.
   */
  ghost predicate OrphanRemoved(t0: Tree, t: Tree, file: Path, newFile: Path)
    requires |file| > 0 && |newFile| > 0
  {
    && |t| < |t0| && file !in t && !IsFile(t, RedirectOf(file))
    && (forall p :: p in t0 && !IsPrefix(Parent(file), p) ==> p in t && t[p] == t0[p])
    && (forall p :: IsFile(t0, p) && DirectlyIn(p, Parent(file)) && p != file && p != RedirectOf(file) ==>
          p in t && t[p] == t0[p])
    && (IsDir(t0, Parent(file)) && IsDir(t0, Parent(newFile)) ==>
          DirsIn(t, Parent(file)) == {} && SubfoldersRelocated(t0, t, Parent(newFile), DirsIn(t0, Parent(file))))
    && (IsDir(t0, Parent(file)) ==> (Parent(file) in t <==> EntriesIn(t, Parent(file)) != {}))
  }

  /** The cleanup touches nothing inside the new places of the moved subfolders. */
  lemma CleanupKeepsRelocated(t0: Tree, t1: Tree, file: Path, target: Path, moves0: seq<Path>, moves1: seq<Path>)
    requires |file| > 0 && file in t1 && IsDir(t0, Parent(file)) && IsDir(t0, target)
    requires MovedOrKept(t0, t1, Parent(file), target, moves0, moves1)
    ensures SubfoldersRelocated(t0, AfterCleanup(t1, file), target, DirsIn(t0, Parent(file)))
  {
    var d := Parent(file);
    var t := AfterCleanup(t1, file);
    SubfoldersMovedOut(t0, t1, d, target, moves0, moves1);
    forall s, p | s in DirsIn(t0, d) && |s| > 0 && p in t0 && IsPrefix(s, p)
      ensures Relocate(p, s, target + [FileName(s)]) in t && t[Relocate(p, s, target + [FileName(s)])] == t0[p]
    {
      var q := Relocate(p, s, target + [FileName(s)]);
      assert q[..|target| + 1] == target + [FileName(s)];
      KeptThroughCleanup(t1, file, target, FileName(s), q);
    }
  }

  /** What the first step of a successful ManageOrphan established about the subfolders of d. */
  lemma SubfoldersMovedOut(t0: Tree, t1: Tree, d: Path, target: Path, moves0: seq<Path>, moves1: seq<Path>)
    requires IsDir(t0, d) && IsDir(t0, target) && MovedOrKept(t0, t1, d, target, moves0, moves1)
    ensures DirsIn(t0, d) != {} ==> target != d
    ensures TargetsMade(t1, d, target, DirsIn(t0, d)) && SubfoldersRelocated(t0, t1, target, DirsIn(t0, d))
  {
  }

  /** The cleanup leaves alone whatever lies inside target/<name>, a folder that is not the orphan's folder or above it. */
  lemma KeptThroughCleanup(t1: Tree, file: Path, target: Path, name: string, q: Path)
    requires |file| > 0 && file in t1 && q in t1
    requires IsPrefix(target + [name], q) && !IsPrefix(target + [name], Parent(file)) && target != Parent(file)
    ensures q in AfterCleanup(t1, file) && AfterCleanup(t1, file)[q] == t1[q]
  {
    CleanupKeeps(t1, file);
    assert DirectlyIn(file, Parent(file)) && DirectlyIn(RedirectOf(file), Parent(file));
    InsideTargetNotInOrphanFolder(Parent(file), target, name, q);
  }

  /** What ManageOrphan leaves behind: everything outside the orphan's folder. */
  lemma {:induction false} CleanupKeepsOutside(t0: Tree, t1: Tree, file: Path, newFile: Path, moves0: seq<Path>, moves1: seq<Path>)
    requires WellFormed(t0) && IsFile(t0, file) && |newFile| > 0
    requires MovedOrKept(t0, t1, Parent(file), Parent(newFile), moves0, moves1)
    ensures var t := AfterCleanup(t1, file);
      forall p :: p in t0 && !IsPrefix(Parent(file), p) ==> p in t && t[p] == t0[p]
  {
    var d := Parent(file);
    OutsideFolderStays(t0, t1, d, Parent(newFile), moves0, moves1);
    OrphanStays(t0, t1, file, Parent(newFile), moves0, moves1);
    CleanupKeeps(t1, file);
    assert IsPrefix(d, file) && IsPrefix(d, RedirectOf(file)) && IsPrefix(d, d) by {
      assert file[..|d|] == d && RedirectOf(file)[..|d|] == d;
    }
  }

  /** What ManageOrphan leaves behind: the other files next to the orphan, redirect.config aside. */
  lemma {:induction false} CleanupKeepsSiblings(t0: Tree, t1: Tree, file: Path, newFile: Path, moves0: seq<Path>, moves1: seq<Path>)
    requires WellFormed(t0) && IsFile(t0, file) && |newFile| > 0
    requires MovedOrKept(t0, t1, Parent(file), Parent(newFile), moves0, moves1)
    ensures var t := AfterCleanup(t1, file);
      forall p :: IsFile(t0, p) && DirectlyIn(p, Parent(file)) && p != file && p != RedirectOf(file) ==>
        p in t && t[p] == t0[p]
  {
    var d := Parent(file);
    DirectFilesStay(t0, t1, d, Parent(newFile), moves0, moves1);
    CleanupKeeps(t1, file);
  }

  /** What ManageOrphan leaves behind: no subfolder, and the folder exists exactly when something is left in it. */
  lemma {:induction false} CleanupEmptiesFolder(t0: Tree, t1: Tree, file: Path, newFile: Path, moves0: seq<Path>, moves1: seq<Path>)
    requires WellFormed(t0) && IsFile(t0, file) && |newFile| > 0 && IsDir(t0, Parent(file))
    requires MovedOrKept(t0, t1, Parent(file), Parent(newFile), moves0, moves1)
    ensures var t := AfterCleanup(t1, file);
      && (IsDir(t0, Parent(newFile)) ==> DirsIn(t, Parent(file)) == {})
      && (Parent(file) in t <==> EntriesIn(t, Parent(file)) != {})
  {
    var d := Parent(file);
    DirectFilesStay(t0, t1, d, Parent(newFile), moves0, moves1);
    CleanupFolder(t1, file);
    if IsDir(t0, Parent(newFile)) {
      CleanupKeepsNoDirs(t1, file);
    }
  }

  /** The orphan itself and the new file are untouched by the moves of the first step. */
  lemma MovesKeepOrphan(t0: Tree, t1: Tree, file: Path, newFile: Path, moves0: seq<Path>, moves1: seq<Path>)
    requires WellFormed(t0) && IsFile(t0, file) && |newFile| > 0
    requires MovedOrKept(t0, t1, Parent(file), Parent(newFile), moves0, moves1)
    ensures file in t1 && t1[file] == t0[file]
    ensures Loadable(t1, newFile) <==> Loadable(t0, newFile)
    ensures Loadable(t0, newFile) ==> t1[newFile] == t0[newFile]
  {
    var d := Parent(file);
    assert file[..|d|] == d;
    DirectFilesStay(t0, t1, d, Parent(newFile), moves0, moves1);
    if IsDir(t0, d) && IsDir(t0, Parent(newFile)) {
      NewFileStays(t0, t1, d, newFile, moves1, |moves0|);
    }
  }

  lemma CleanupRemovesOrphan(t0: Tree, t1: Tree, file: Path, newFile: Path, moves0: seq<Path>, moves1: seq<Path>)
    requires WellFormed(t0) && IsFile(t0, file) && |file| > 0 && |newFile| > 0
    requires MovedOrKept(t0, t1, Parent(file), Parent(newFile), moves0, moves1)
    ensures FilesKeptOrCarried(t0, AfterCleanup(t1, file), moves1, |moves0|)
    ensures OrphanRemoved(t0, AfterCleanup(t1, file), file, newFile)
  {
    CleanupOutcome(t0, t1, file, newFile, moves0, moves1);
    CleanupKeepsOutside(t0, t1, file, newFile, moves0, moves1);
    CleanupKeepsSiblings(t0, t1, file, newFile, moves0, moves1);
    if IsDir(t0, Parent(file)) {
      CleanupEmptiesFolder(t0, t1, file, newFile, moves0, moves1);
      if IsDir(t0, Parent(newFile)) {
        MovesKeepOrphan(t0, t1, file, newFile, moves0, moves1);
        CleanupKeepsRelocated(t0, t1, file, Parent(newFile), moves0, moves1);
      }
    }
  }

  /**
   * The rename step of ManageOrphan: with addRename the new file is loaded
   * (ok is false where XElement.Load throws) and, when its type is known, a
   * rename action is added under the key read from it.
   */
  method RecordRename(ws: Workspace, newFile: Path, addRename: bool, readers: Readers) returns (ok: bool)
    modifies ws
    ensures ws.tree == old(ws.tree) && ws.moves == old(ws.moves)
    ensures ok <==> (addRename ==> Loadable(ws.tree, newFile))
    ensures ok ==> ws.log == old(ws.log) + RenameRecord(ws.tree, newFile, addRename, readers)
    ensures !ok ==> ws.log == old(ws.log)
    ensures ws.faults == if ok then old(ws.faults) else old(ws.faults) + [LoadFailed(newFile)]
  {
    if addRename {
      var loaded := ws.Load(newFile);
      if loaded.None? {
        return false;
      }
      var element := loaded.value;
      var alias := readers.nameFromNode(element);
      var itemType := readers.typeFromElement(element);
      if itemType.Some? {
        ws.AddRename(itemType.value, GetKey(ws.tree, newFile), alias);
      }
    }
    ok := true;
  }

  /** The last steps of ManageOrphan: archive the orphan, delete redirect.config, remove the folder once empty. */
  method Cleanup(ws: Workspace, file: Path)
    requires ws.Valid() && IsFile(ws.tree, file)
    modifies ws
    ensures ws.Valid() && ws.moves == old(ws.moves) && ws.faults == old(ws.faults)
    ensures ws.tree == AfterCleanup(old(ws.tree), file)
    ensures ws.log == old(ws.log) + [Archived(file, old(ws.tree)[file].content)]
  {
    var folder := Parent(file);
    ws.ArchiveFile(file);
    var redirect := folder + ["redirect.config"];
    if IsFile(ws.tree, redirect) {
      ws.DeleteFile(redirect);
    }
    if IsDir(ws.tree, folder) && EntriesIn(ws.tree, folder) == {} {
      ws.DeleteEmptyDirectory(folder);
    }
  }

  /**
   * The rest of ManageOrphan once the subfolders are moved (or were left
   * alone): the rename record, then the archive and the cleanup. t0 and
   * moves0 are the tree and the recorded moves before the subfolders moved.
   */
  method ArchiveOrphan(ws: Workspace, file: Path, newFile: Path, addRename: bool, readers: Readers,
                       ghost t0: Tree, ghost moves0: seq<Path>) returns (ok: bool)
    requires ws.Valid() && WellFormed(t0) && IsFile(t0, file) && |file| > 0 && |newFile| > 0
    requires MovedOrKept(t0, ws.tree, Parent(file), Parent(newFile), moves0, ws.moves)
    modifies ws
    ensures ws.Valid() && ws.moves == old(ws.moves)
    ensures FilesKeptOrCarried(t0, ws.tree, ws.moves, |moves0|) && |ws.tree| <= |t0|
    ensures FilesAccounted(t0, ws.tree, ws.log, old(|ws.log|), Parent(newFile))
    ensures ok <==> (addRename ==> Loadable(t0, newFile))
    ensures !ok ==> ws.log == old(ws.log)
    ensures ok ==> ws.log == old(ws.log) + RenameRecord(t0, newFile, addRename, readers)
                                         + [Archived(file, t0[file].content)]
    ensures ok ==> OrphanRemoved(t0, ws.tree, file, newFile)
    ensures ws.faults == if ok then old(ws.faults) else old(ws.faults) + [LoadFailed(newFile)]
  {
    ghost var t1 := ws.tree;
    ghost var log0 := ws.log;
    MovesKeepOrphan(t0, t1, file, newFile, moves0, ws.moves);
    DirectFilesStay(t0, t1, Parent(file), Parent(newFile), moves0, ws.moves);
    ok := RecordRename(ws, newFile, addRename, readers);
    if !ok {
      FilesCarriedAccounted(t0, t1, log0, |log0|, Parent(newFile));
      return;
    }
    Cleanup(ws, file);
    CleanupAccounted(t0, t1, file, Parent(newFile), ws.log, |log0|);
    CleanupRemovesOrphan(t0, t1, file, newFile, moves0, ws.moves);
  }

  /**
   * ManageOrphan once the new file's folder is known: the subfolders are
   * moved, then the rename record, the archive and the cleanup follow.
   */
  method MoveAndArchive(ws: Workspace, file: Path, newFile: Path, addRename: bool, readers: Readers) returns (ok: bool)
    requires ws.Valid() && IsFile(ws.tree, file) && |newFile| > 0
    modifies ws
    ensures ws.Valid()
    ensures MovesExtend(old(ws.moves), ws.moves) && MovesInto(ws.moves, old(|ws.moves|), Parent(newFile))
    ensures FilesKeptOrCarried(old(ws.tree), ws.tree, ws.moves, old(|ws.moves|)) && |ws.tree| <= old(|ws.tree|)
    ensures FilesAccounted(old(ws.tree), ws.tree, ws.log, old(|ws.log|), Parent(newFile))
    ensures !ok ==> ws.log == old(ws.log)
    ensures ok ==> addRename ==> Loadable(old(ws.tree), newFile)
    ensures !(IsDir(old(ws.tree), Parent(file)) && IsDir(old(ws.tree), Parent(newFile))
              && DirsIn(old(ws.tree), Parent(file)) != {}) ==>
              (ok <==> (addRename ==> Loadable(old(ws.tree), newFile)))
    ensures (Parent(newFile) == Parent(file) && IsDir(old(ws.tree), Parent(file))
             && DirsIn(old(ws.tree), Parent(file)) != {}) ==> !ok
    ensures ok ==> ws.log == old(ws.log) + RenameRecord(old(ws.tree), newFile, addRename, readers)
                                         + [Archived(file, old(ws.tree)[file].content)]
    ensures ok ==> OrphanRemoved(old(ws.tree), ws.tree, file, newFile)
    ensures FailsOnFault(old(ws.faults), ws.faults, newFile, addRename, ok)
  {
    ghost var t0 := ws.tree;
    ghost var log0 := ws.log;
    ghost var moves0 := ws.moves;
    ghost var faults0 := ws.faults;
    var orphanDir := Parent(file);
    var targetDir := Parent(newFile);
    if IsDir(ws.tree, orphanDir) && IsDir(ws.tree, targetDir) {
      ok := MoveChildFolders(ws, orphanDir, targetDir);
      if !ok {
        FilesCarriedAccounted(t0, ws.tree, log0, |log0|, targetDir);
        return;
      }
      NewFileStays(t0, ws.tree, orphanDir, newFile, ws.moves, |moves0|);
    }
    DirectFilesStay(t0, ws.tree, orphanDir, targetDir, moves0, ws.moves);
    ok := ArchiveOrphan(ws, file, newFile, addRename, readers, t0, moves0);
    if !ok {
      assert ws.faults[..|faults0|] == faults0;
    }
  }

  /**
   * ManageOrphan(file, newFile, addRename): moves the subfolders of the
   * orphan's folder next to the new file, records a rename, archives the
   * orphan, deletes a sibling redirect.config and removes the orphan's folder
   * once it is empty. ok is false where the source throws: Path.GetDirectoryName
   * of an empty path, a Directory.Move that fails, or XElement.Load of a new
   * file that is missing or not well-formed.
   */
  method ManageOrphan(ws: Workspace, file: Path, newFile: Path, addRename: bool, readers: Readers) returns (ok: bool)
    requires ws.Valid() && IsFile(ws.tree, file)
    modifies ws
    ensures ws.Valid()
    ensures MovesExtend(old(ws.moves), ws.moves) && MovesInto(ws.moves, old(|ws.moves|), TargetOf(newFile))
    ensures FilesKeptOrCarried(old(ws.tree), ws.tree, ws.moves, old(|ws.moves|)) && |ws.tree| <= old(|ws.tree|)
    ensures FilesAccounted(old(ws.tree), ws.tree, ws.log, old(|ws.log|), TargetOf(newFile))
    ensures |newFile| == 0 ==> !ok && ws.tree == old(ws.tree) && ws.moves == old(ws.moves)
    ensures !ok ==> ws.log == old(ws.log)
    ensures ok ==> |newFile| > 0 && (addRename ==> Loadable(old(ws.tree), newFile))
    ensures |newFile| > 0 && !(IsDir(old(ws.tree), Parent(file)) && IsDir(old(ws.tree), Parent(newFile))
                               && DirsIn(old(ws.tree), Parent(file)) != {}) ==>
              (ok <==> (addRename ==> Loadable(old(ws.tree), newFile)))
    ensures (|newFile| > 0 && Parent(newFile) == Parent(file) && IsDir(old(ws.tree), Parent(file))
             && DirsIn(old(ws.tree), Parent(file)) != {}) ==> !ok
    ensures ok ==> ws.log == old(ws.log) + RenameRecord(old(ws.tree), newFile, addRename, readers)
                                         + [Archived(file, old(ws.tree)[file].content)]
    ensures ok ==> OrphanRemoved(old(ws.tree), ws.tree, file, newFile)
    ensures FailsOnFault(old(ws.faults), ws.faults, newFile, addRename, ok)
  {
    ghost var t0 := ws.tree;
    ghost var log0 := ws.log;
    ghost var faults0 := ws.faults;
    var targetName := ws.DirectoryName(newFile);
    if targetName.None? {
      FilesCarriedRefl(t0, []);
      FilesCarriedAccounted(t0, t0, log0, |log0|, []);
      assert ws.faults[..|faults0|] == faults0;
      return false;
    }
    ok := MoveAndArchive(ws, file, newFile, addRename, readers);
  }

  // ---------------------------------------------------------------------------
  // Walking a folder

  /**
   * What any stretch of the walk keeps: only calls the walk may make for this
   * key are logged, the recorded moves all went into the new file's folder,
   * every file afterwards is an old one at its old place or lies inside one
   * of those moves' destinations, every old file has a fate, and the tree
   * does not grow.
   */
  ghost predicate WalkStep(t: Tree, t': Tree, log: seq<Event>, log': seq<Event>, moves: seq<Path>, moves': seq<Path>,
                           key: Guid, newFile: Path, addRename: bool) {
    && LogExtends(log, log', key, newFile, addRename)
    && MovesExtend(moves, moves') && MovesInto(moves', |moves|, TargetOf(newFile))
    && FilesKeptOrCarried(t, t', moves', |moves|)
    && FilesAccounted(t, t', log', |log|, TargetOf(newFile))
    && |t'| <= |t|
  }

  lemma WalkStepNone(t: Tree, log: seq<Event>, moves: seq<Path>, key: Guid, newFile: Path, addRename: bool)
    ensures WalkStep(t, t, log, log, moves, moves, key, newFile, addRename)
  {
    FilesCarriedRefl(t, TargetOf(newFile));
    FilesCarriedAccounted(t, t, log, |log|, TargetOf(newFile));
  }

  lemma LogExtendsTransitive(a: seq<Event>, b: seq<Event>, c: seq<Event>, key: Guid, newFile: Path, addRename: bool)
    requires LogExtends(a, b, key, newFile, addRename) && LogExtends(b, c, key, newFile, addRename)
    ensures LogExtends(a, c, key, newFile, addRename)
  {
    assert c[..|a|] == c[..|b|][..|a|];
  }

  lemma MovesIntoTransitive(a: seq<Path>, b: seq<Path>, c: seq<Path>, target: Path)
    requires MovesExtend(b, c) && MovesInto(b, |a|, target) && MovesInto(c, |b|, target)
    ensures MovesInto(c, |a|, target)
  {
    forall i | |a| <= i < |c| ensures DirectlyIn(c[i], target) {
      if i < |b| {
        assert c[i] == c[..|b|][i];
      }
    }
  }

  lemma {:induction false} WalkStepTransitive(t: Tree, t': Tree, t'': Tree, log: seq<Event>, log': seq<Event>, log'': seq<Event>,
                                               moves: seq<Path>, moves': seq<Path>, moves'': seq<Path>,
                                               key: Guid, newFile: Path, addRename: bool)
    requires WalkStep(t, t', log, log', moves, moves', key, newFile, addRename)
    requires WalkStep(t', t'', log', log'', moves', moves'', key, newFile, addRename)
    ensures WalkStep(t, t'', log, log'', moves, moves'', key, newFile, addRename)
  {
    LogExtendsTransitive(log, log', log'', key, newFile, addRename);
    MovesExtendTransitive(moves, moves', moves'');
    MovesIntoTransitive(moves, moves', moves'', TargetOf(newFile));
    FilesKeptOrCarriedTransitive(t, t', t'', moves', moves'', |moves|);
    FilesAccountedTransitive(t, t', t'', log', log'', |log|, TargetOf(newFile));
  }

  /** A file the later state still holds, not carried by a recorded move, was the same file, so the same orphan, before. */
  lemma OrphansWereThere(t: Tree, t': Tree, key: Guid, newFile: Path, moves: seq<Path>, from: nat)
    requires FilesKeptOrCarried(t, t', moves, from)
    ensures forall p :: IsOrphan(t', p, key, newFile) && !Carried(p, moves, from) ==> IsOrphan(t, p, key, newFile)
  {
  }

  /** Archiving an orphan appends only calls the walk may make. */
  lemma OrphanEventsAppend(a: seq<Event>, b: seq<Event>, t: Tree, file: Path, key: Guid, newFile: Path,
                           addRename: bool, readers: Readers)
    requires LogExtends(a, b, key, newFile, addRename)
    requires IsOrphan(t, file, key, newFile) && (addRename ==> Loadable(t, newFile))
    ensures LogExtends(a, b + RenameRecord(t, newFile, addRename, readers) + [Archived(file, t[file].content)],
                       key, newFile, addRename)
  {
    var c := b + RenameRecord(t, newFile, addRename, readers) + [Archived(file, t[file].content)];
    forall i | |a| <= i < |c| ensures OrphanEvent(c[i], key, newFile, addRename) {
      if i < |b| {
        assert c[i] == b[i];
      }
    }
    assert c[..|a|] == b[..|a|];
  }

  /** No orphan among the files directly in folder, except files inside a recorded move's destination. */
  ghost predicate NoDirectOrphan(t: Tree, folder: Path, key: Guid, newFile: Path, moves: seq<Path>, from: nat) {
    forall p :: DirectlyIn(p, folder) && IsOrphan(t, p, key, newFile) ==> Carried(p, moves, from)
  }

  /** What the file pass of CheckFolder keeps true while it works through the files still to visit. */
  ghost predicate FileProgress(t0: Tree, t: Tree, log0: seq<Event>, log: seq<Event>, moves0: seq<Path>, moves: seq<Path>,
                               files: set<Path>, folder: Path, key: Guid, newFile: Path, addRename: bool) {
    && WalkStep(t0, t, log0, log, moves0, moves, key, newFile, addRename)
    && (t == t0 || |t| < |t0|)
    && (forall f :: f in files ==> DirectlyIn(f, folder) && IsConfigName(FileName(f)))
    && (forall p :: DirectlyIn(p, folder) && IsOrphan(t, p, key, newFile) ==> p in files || Carried(p, moves, |moves0|))
    && ((forall p :: DirectlyIn(p, folder) ==> !IsOrphan(t0, p, key, newFile)) ==> t == t0 && log == log0 && moves == moves0)
  }

  lemma FileProgressStart(t: Tree, log: seq<Event>, moves: seq<Path>, folder: Path, key: Guid, newFile: Path,
                          addRename: bool)
    ensures FileProgress(t, t, log, log, moves, moves, ConfigFilesIn(t, folder), folder, key, newFile, addRename)
  {
    WalkStepNone(t, log, moves, key, newFile, addRename);
  }

  lemma FileProgressDone(t0: Tree, t: Tree, log0: seq<Event>, log: seq<Event>, moves0: seq<Path>, moves: seq<Path>,
                         folder: Path, key: Guid, newFile: Path, addRename: bool)
    requires FileProgress(t0, t, log0, log, moves0, moves, {}, folder, key, newFile, addRename)
    ensures NoDirectOrphan(t, folder, key, newFile, moves, |moves0|)
  {
  }

  /** What the file pass needs to know about one call of ManageOrphan. */
  ghost predicate OrphanHandled(t: Tree, t': Tree, log: seq<Event>, log': seq<Event>, moves: seq<Path>, moves': seq<Path>,
                                file: Path, newFile: Path, addRename: bool, readers: Readers, ok: bool)
    requires IsFile(t, file)
  {
    && MovesExtend(moves, moves') && MovesInto(moves', |moves|, TargetOf(newFile))
    && FilesKeptOrCarried(t, t', moves', |moves|)
    && FilesAccounted(t, t', log', |log|, TargetOf(newFile))
    && |t'| <= |t|
    && (!ok ==> log' == log)
    && (ok ==> |t'| < |t| && file !in t' && (addRename ==> Loadable(t, newFile))
               && log' == log + RenameRecord(t, newFile, addRename, readers) + [Archived(file, t[file].content)])
  }

  /** ManageOrphan, seen through what the file pass needs of it. */
  method HandleOrphan(ws: Workspace, file: Path, newFile: Path, addRename: bool, readers: Readers) returns (ok: bool)
    requires ws.Valid() && IsFile(ws.tree, file)
    modifies ws
    ensures ws.Valid()
    ensures OrphanHandled(old(ws.tree), ws.tree, old(ws.log), ws.log, old(ws.moves), ws.moves,
                          file, newFile, addRename, readers, ok)
    ensures FailsOnFault(old(ws.faults), ws.faults, newFile, addRename, ok)
    ensures |newFile| > 0 && !(IsDir(old(ws.tree), Parent(file)) && IsDir(old(ws.tree), Parent(newFile))
                               && DirsIn(old(ws.tree), Parent(file)) != {}) ==>
              (ok <==> (addRename ==> Loadable(old(ws.tree), newFile)))
  {
    ok := ManageOrphan(ws, file, newFile, addRename, readers);
  }

  /** Handling an orphan, successfully or not, is a stretch of the walk. */
  lemma OrphanHandledStep(t: Tree, t': Tree, log: seq<Event>, log': seq<Event>, moves: seq<Path>, moves': seq<Path>,
                          file: Path, key: Guid, newFile: Path, addRename: bool, readers: Readers, ok: bool)
    requires IsOrphan(t, file, key, newFile)
    requires OrphanHandled(t, t', log, log', moves, moves', file, newFile, addRename, readers, ok)
    ensures WalkStep(t, t', log, log', moves, moves', key, newFile, addRename)
  {
    if ok {
      OrphanEventsAppend(log, log, t, file, key, newFile, addRename, readers);
    }
  }

  lemma FileProgressSkip(t0: Tree, t: Tree, log0: seq<Event>, log: seq<Event>, moves0: seq<Path>, moves: seq<Path>,
                         files: set<Path>, file: Path, folder: Path, key: Guid, newFile: Path, addRename: bool)
    requires FileProgress(t0, t, log0, log, moves0, moves, files, folder, key, newFile, addRename)
    requires file in files && !IsOrphan(t, file, key, newFile)
    ensures FileProgress(t0, t, log0, log, moves0, moves, files - {file}, folder, key, newFile, addRename)
  {
  }

  lemma FileProgressOrphan(t0: Tree, t: Tree, t': Tree, log0: seq<Event>, log: seq<Event>, log': seq<Event>,
                           moves0: seq<Path>, moves: seq<Path>, moves': seq<Path>,
                           files: set<Path>, file: Path, folder: Path, key: Guid, newFile: Path, addRename: bool,
                           readers: Readers)
    requires FileProgress(t0, t, log0, log, moves0, moves, files, folder, key, newFile, addRename)
    requires file in files && IsOrphan(t, file, key, newFile)
    requires OrphanHandled(t, t', log, log', moves, moves', file, newFile, addRename, readers, true)
    ensures FileProgress(t0, t', log0, log', moves0, moves', files - {file}, folder, key, newFile, addRename)
  {
    OrphanHandledStep(t, t', log, log', moves, moves', file, key, newFile, addRename, readers, true);
    WalkStepTransitive(t0, t, t', log0, log, log', moves0, moves, moves', key, newFile, addRename);
    OrphansWereThere(t, t', key, newFile, moves', |moves|);
    forall p | DirectlyIn(p, folder) && IsOrphan(t', p, key, newFile)
      ensures p in files - {file} || Carried(p, moves', |moves0|)
    {
      if Carried(p, moves', |moves|) {
        CarriedGrow(p, moves', moves', |moves|, |moves0|);
      } else if Carried(p, moves, |moves0|) {
        CarriedGrow(p, moves, moves', |moves0|, |moves0|);
      }
    }
  }

  /** One turn of the file pass: the file is skipped, or it is an orphan and ManageOrphan handles it. */
  method CheckFile(ws: Workspace, file: Path, folder: Path, key: Guid, newFile: Path, addRename: bool, readers: Readers,
                   ghost t0: Tree, ghost log0: seq<Event>, ghost moves0: seq<Path>, ghost files: set<Path>)
    returns (ok: bool)
    requires ws.Valid() && file in files
    requires FileProgress(t0, ws.tree, log0, ws.log, moves0, ws.moves, files, folder, key, newFile, addRename)
    modifies ws
    ensures ws.Valid()
    ensures ok ==> FileProgress(t0, ws.tree, log0, ws.log, moves0, ws.moves, files - {file}, folder, key, newFile, addRename)
    ensures !ok ==> WalkStep(t0, ws.tree, log0, ws.log, moves0, ws.moves, key, newFile, addRename)
    ensures (forall p :: DirectlyIn(p, folder) ==> !IsOrphan(t0, p, key, newFile)) ==> ok
    ensures FailsOnFault(old(ws.faults), ws.faults, newFile, addRename, ok)
  {
    ok := true;
    ghost var t := ws.tree;
    ghost var moves := ws.moves;
    if !SamePathIgnoreCase(file, newFile) {
      var fileKey := GetKey(ws.tree, file);
      if fileKey != Empty && fileKey == key {
        ghost var log := ws.log;
        assert IsOrphan(t, file, key, newFile);
        ok := HandleOrphan(ws, file, newFile, addRename, readers);
        if ok {
          FileProgressOrphan(t0, t, ws.tree, log0, log, ws.log, moves0, moves, ws.moves, files, file, folder, key, newFile,
                             addRename, readers);
        } else {
          OrphanHandledStep(t, ws.tree, log, ws.log, moves, ws.moves, file, key, newFile, addRename, readers, false);
          WalkStepTransitive(t0, t, ws.tree, log0, log, ws.log, moves0, moves, ws.moves, key, newFile, addRename);
        }
        return;
      }
    }
    FileProgressSkip(t0, t, log0, ws.log, moves0, moves, files, file, folder, key, newFile, addRename);
  }

  /**
   * The file pass of CheckFolder: every *.config file directly in folder,
   * other than newFile, whose key is the item's key, is handled by
   * ManageOrphan. ok is false where ManageOrphan throws, which ends the walk.
   */
  method CheckFiles(ws: Workspace, folder: Path, key: Guid, newFile: Path, addRename: bool, readers: Readers)
    returns (ok: bool)
    requires ws.Valid()
    modifies ws
    ensures ws.Valid()
    ensures WalkStep(old(ws.tree), ws.tree, old(ws.log), ws.log, old(ws.moves), ws.moves, key, newFile, addRename)
    ensures ok ==> ws.tree == old(ws.tree) || |ws.tree| < old(|ws.tree|)
    ensures ok ==> NoDirectOrphan(ws.tree, folder, key, newFile, ws.moves, old(|ws.moves|))
    ensures (forall p :: DirectlyIn(p, folder) ==> !IsOrphan(old(ws.tree), p, key, newFile)) ==>
              ok && ws.tree == old(ws.tree) && ws.log == old(ws.log) && ws.moves == old(ws.moves)
    ensures FailsOnFault(old(ws.faults), ws.faults, newFile, addRename, ok)
  {
    ghost var t0 := ws.tree;
    ghost var log0 := ws.log;
    ghost var moves0 := ws.moves;
    var files := ConfigFilesIn(ws.tree, folder);
    FileProgressStart(t0, log0, moves0, folder, key, newFile, addRename);
    ok := true;
    while files != {}
      invariant ws.Valid() && ws.faults == old(ws.faults)
      invariant FileProgress(t0, ws.tree, log0, ws.log, moves0, ws.moves, files, folder, key, newFile, addRename)
      decreases files
    {
      var file :| file in files;
      ok := CheckFile(ws, file, folder, key, newFile, addRename, readers, t0, log0, moves0, files);
      if !ok {
        return;
      }
      files := files - {file};
    }
    FileProgressDone(t0, ws.tree, log0, ws.log, moves0, ws.moves, folder, key, newFile, addRename);
  }

  // ---------------------------------------------------------------------------
  // The recursive walk

  /** Nothing lies strictly below a folder that is not a directory, so no orphan does either. */
  lemma MissingFolderHasNoOrphan(t: Tree, folder: Path, key: Guid, newFile: Path, moves: seq<Path>, from: nat)
    requires WellFormed(t) && |folder| > 0 && !IsDir(t, folder)
    ensures NoOrphanLeft(t, folder, key, newFile, moves, from) && NoOrphanUnder(t, folder, key, newFile)
  {
    EntriesBelowNeedDir(t, folder);
  }

  /**
   * Every orphan still below folder either lies inside a recorded move's
   * destination or below one of the subfolders the walk has yet to visit.
   */
  ghost predicate Pending(t: Tree, folder: Path, dirs: set<Path>, key: Guid, newFile: Path, moves: seq<Path>, from: nat) {
    forall p :: IsPrefix(folder, p) && p != folder && IsOrphan(t, p, key, newFile) ==>
      Carried(p, moves, from) || (|p| > |folder| + 1 && p[..|folder| + 1] in dirs)
  }

  lemma PendingStart(t: Tree, folder: Path, key: Guid, newFile: Path, moves: seq<Path>, from: nat)
    requires WellFormed(t) && NoDirectOrphan(t, folder, key, newFile, moves, from)
    ensures Pending(t, folder, DirsIn(t, folder), key, newFile, moves, from)
  {
    forall p | IsPrefix(folder, p) && p != folder && IsOrphan(t, p, key, newFile) && !Carried(p, moves, from)
      ensures |p| > |folder| + 1 && p[..|folder| + 1] in DirsIn(t, folder)
    {
      var a := p[..|folder| + 1];
      assert a[..|folder|] == folder;
      if |p| > |folder| + 1 {
        AncestorIsDir(t, p, a);
      }
    }
  }

  lemma PendingStep(t: Tree, t': Tree, folder: Path, dir: Path, dirs: set<Path>, key: Guid, newFile: Path,
                    moves: seq<Path>, moves': seq<Path>, from: nat)
    requires Pending(t, folder, dirs, key, newFile, moves, from) && DirectlyIn(dir, folder)
    requires FilesKeptOrCarried(t, t', moves', |moves|) && MovesExtend(moves, moves') && from <= |moves|
    requires NoOrphanLeft(t', dir, key, newFile, moves', |moves|)
    ensures Pending(t', folder, dirs - {dir}, key, newFile, moves', from)
  {
    OrphansWereThere(t, t', key, newFile, moves', |moves|);
    forall p | IsPrefix(folder, p) && p != folder && IsOrphan(t', p, key, newFile)
      ensures Carried(p, moves', from) || (|p| > |folder| + 1 && p[..|folder| + 1] in dirs - {dir})
    {
      if |p| > |folder| + 1 && p[..|folder| + 1] == dir {
        assert IsPrefix(dir, p) && p != dir;
        CarriedGrow(p, moves', moves', |moves|, from);
      } else if Carried(p, moves', |moves|) {
        CarriedGrow(p, moves', moves', |moves|, from);
      } else if Carried(p, moves, from) {
        CarriedGrow(p, moves, moves', from, from);
      }
    }
  }

  lemma PendingDone(t: Tree, folder: Path, key: Guid, newFile: Path, moves: seq<Path>, from: nat)
    requires Pending(t, folder, {}, key, newFile, moves, from)
    ensures NoOrphanLeft(t, folder, key, newFile, moves, from)
  {
  }

  lemma NoOrphanUnderSubfolder(t: Tree, folder: Path, dir: Path, key: Guid, newFile: Path)
    requires DirectlyIn(dir, folder)
    ensures NoOrphanUnder(t, folder, key, newFile) ==> NoOrphanUnder(t, dir, key, newFile)
  {
    forall p | IsPrefix(dir, p) && p != dir ensures IsPrefix(folder, p) && p != folder {
      assert p[..|folder|] == dir[..|folder|];
    }
  }

  /** What the subfolder pass of CheckFolder keeps true while it works through the subfolders still to visit. */
  ghost predicate WalkProgress(t0: Tree, t1: Tree, t: Tree, log1: seq<Event>, log: seq<Event>,
                               moves1: seq<Path>, moves: seq<Path>, from: nat, dirs: set<Path>,
                               folder: Path, key: Guid, newFile: Path, addRename: bool) {
    && WalkStep(t1, t, log1, log, moves1, moves, key, newFile, addRename)
    && from <= |moves1|
    && (|t| < |t0| || (t == t0 && t1 == t0))
    && (t == t1 || |t| < |t1|)
    && (forall d :: d in dirs ==> d in t1 && DirectlyIn(d, folder))
    && Pending(t, folder, dirs, key, newFile, moves, from)
    && (NoOrphanUnder(t1, folder, key, newFile) ==> t == t1 && log == log1 && moves == moves1)
  }

  /** One turn of the subfolder pass keeps WalkProgress, given what the walk of that subfolder promises. */
  lemma WalkProgressStep(t0: Tree, t1: Tree, t: Tree, t': Tree, log1: seq<Event>, log: seq<Event>, log': seq<Event>,
                         moves1: seq<Path>, moves: seq<Path>, moves': seq<Path>, from: nat,
                         dirs: set<Path>, dir: Path, folder: Path, key: Guid, newFile: Path, addRename: bool)
    requires WalkProgress(t0, t1, t, log1, log, moves1, moves, from, dirs, folder, key, newFile, addRename) && dir in dirs
    requires WalkStep(t, t', log, log', moves, moves', key, newFile, addRename)
    requires t' == t || |t'| < |t|
    requires NoOrphanUnder(t, dir, key, newFile) ==> t' == t && log' == log && moves' == moves
    requires NoOrphanLeft(t', dir, key, newFile, moves', |moves|)
    ensures WalkProgress(t0, t1, t', log1, log', moves1, moves', from, dirs - {dir}, folder, key, newFile, addRename)
  {
    WalkStepTransitive(t1, t, t', log1, log, log', moves1, moves, moves', key, newFile, addRename);
    NoOrphanUnderSubfolder(t1, folder, dir, key, newFile);
    PendingStep(t, t', folder, dir, dirs, key, newFile, moves, moves', from);
  }

  /**
   * The subfolder pass of CheckFolder: each subfolder of folder, as listed
   * once the file pass is over, is walked in turn. t0 is the tree the
   * enclosing CheckFolder started from, and moves recorded from index from
   * on are the ones that walk made.
   */
  method CheckSubfolders(ws: Workspace, folder: Path, key: Guid, newFile: Path, addRename: bool, readers: Readers,
                         ghost t0: Tree, ghost from: nat) returns (ok: bool)
    requires ws.Valid() && IsDir(ws.tree, folder) && (ws.tree == t0 || |ws.tree| < |t0|)
    requires from <= |ws.moves| && NoDirectOrphan(ws.tree, folder, key, newFile, ws.moves, from)
    modifies ws
    decreases |t0|, |Below(t0, folder)|, 0
    ensures ws.Valid()
    ensures WalkStep(old(ws.tree), ws.tree, old(ws.log), ws.log, old(ws.moves), ws.moves, key, newFile, addRename)
    ensures ok ==> ws.tree == old(ws.tree) || |ws.tree| < old(|ws.tree|)
    ensures NoOrphanUnder(old(ws.tree), folder, key, newFile) ==>
              ok && ws.tree == old(ws.tree) && ws.log == old(ws.log) && ws.moves == old(ws.moves)
    ensures ok ==> NoOrphanLeft(ws.tree, folder, key, newFile, ws.moves, from)
    ensures FailsOnFault(old(ws.faults), ws.faults, newFile, addRename, ok)
  {
    ghost var t1 := ws.tree;
    ghost var log1 := ws.log;
    ghost var moves1 := ws.moves;
    var dirs := DirsIn(ws.tree, folder);
    PendingStart(ws.tree, folder, key, newFile, ws.moves, from);
    WalkStepNone(t1, log1, moves1, key, newFile, addRename);
    ok := true;
    while dirs != {}
      invariant ws.Valid() && ws.faults == old(ws.faults)
      invariant WalkProgress(t0, t1, ws.tree, log1, ws.log, moves1, ws.moves, from, dirs, folder, key, newFile, addRename)
      decreases dirs
    {
      var dir :| dir in dirs;
      if ws.tree == t0 {
        BelowShrinks(t0, folder, dir);
      }
      ghost var t := ws.tree;
      ghost var log := ws.log;
      ghost var moves := ws.moves;
      ok := CheckFolder(ws, dir, key, newFile, addRename, readers);
      if !ok {
        NoOrphanUnderSubfolder(t1, folder, dir, key, newFile);
        WalkStepTransitive(t1, t, ws.tree, log1, log, ws.log, moves1, moves, ws.moves, key, newFile, addRename);
        return;
      }
      WalkProgressStep(t0, t1, t, ws.tree, log1, log, ws.log, moves1, moves, ws.moves, from, dirs, dir, folder,
                       key, newFile, addRename);
      dirs := dirs - {dir};
    }
    PendingDone(ws.tree, folder, key, newFile, ws.moves, from);
  }

  /** The files directly in a folder are below it. */
  lemma NoOrphanUnderDirect(t: Tree, folder: Path, key: Guid, newFile: Path)
    ensures NoOrphanUnder(t, folder, key, newFile) ==> forall p :: DirectlyIn(p, folder) ==> !IsOrphan(t, p, key, newFile)
  {
  }

  /**
   * CheckFolder(folder, key, newFile, addRename): the recursive walk. An
   * existing folder has its *.config files checked, then, if it still
   * exists, each of its subfolders is walked in turn. ok is false where a
   * ManageOrphan call throws, which ends the whole walk.
   */
  method CheckFolder(ws: Workspace, folder: Path, key: Guid, newFile: Path, addRename: bool, readers: Readers)
    returns (ok: bool)
    requires ws.Valid()
    modifies ws
    decreases |ws.tree|, |Below(ws.tree, folder)|, 1
    ensures ws.Valid()
    ensures WalkStep(old(ws.tree), ws.tree, old(ws.log), ws.log, old(ws.moves), ws.moves, key, newFile, addRename)
    ensures ok ==> ws.tree == old(ws.tree) || |ws.tree| < old(|ws.tree|)
    ensures !IsDir(old(ws.tree), folder) ==>
              ok && ws.tree == old(ws.tree) && ws.log == old(ws.log) && ws.moves == old(ws.moves)
    ensures NoOrphanUnder(old(ws.tree), folder, key, newFile) ==>
              ok && ws.tree == old(ws.tree) && ws.log == old(ws.log) && ws.moves == old(ws.moves)
    ensures ok && |folder| > 0 ==> NoOrphanLeft(ws.tree, folder, key, newFile, ws.moves, old(|ws.moves|))
    ensures FailsOnFault(old(ws.faults), ws.faults, newFile, addRename, ok)
  {
    ghost var t0 := ws.tree;
    ghost var log0 := ws.log;
    ghost var moves0 := ws.moves;
    if !IsDir(ws.tree, folder) {
      if |folder| > 0 {
        MissingFolderHasNoOrphan(ws.tree, folder, key, newFile, ws.moves, |moves0|);
      }
      WalkStepNone(t0, log0, moves0, key, newFile, addRename);
      return true;
    }
    NoOrphanUnderDirect(t0, folder, key, newFile);
    ok := CheckFiles(ws, folder, key, newFile, addRename, readers);
    if !ok {
      return;
    }
    if !IsDir(ws.tree, folder) {
      if |folder| > 0 {
        MissingFolderHasNoOrphan(ws.tree, folder, key, newFile, ws.moves, |moves0|);
      }
      return;
    }
    ghost var t1 := ws.tree;
    ghost var log1 := ws.log;
    ghost var moves1 := ws.moves;
    ok := CheckSubfolders(ws, folder, key, newFile, addRename, readers, t0, |moves0|);
    WalkStepTransitive(t0, t1, ws.tree, log0, log1, ws.log, moves0, moves1, ws.moves, key, newFile, addRename);
  }

  // ---------------------------------------------------------------------------
  // The entry points

  /** Guid.Empty is never the key of an orphan, so a walk for it finds nothing. */
  lemma EmptyKeyHasNoOrphan(t: Tree, folder: Path, newFile: Path)
    ensures NoOrphanUnder(t, folder, Empty, newFile)
  {
  }

  /**
   * ManageOrphanFiles(typeFolder, Key, newFile, addRename): walks the item
   * type's folder, Path.Combine(MappedFolder(), typeFolder), for other files
   * carrying the key of the item just saved to newFile.
   */
  method ManageOrphanFiles(ws: Workspace, mappedFolder: Path, typeFolder: Path, key: Guid, newFile: Path,
                           addRename: bool, readers: Readers) returns (ok: bool)
    requires ws.Valid()
    modifies ws
    ensures ws.Valid()
    ensures WalkStep(old(ws.tree), ws.tree, old(ws.log), ws.log, old(ws.moves), ws.moves, key, newFile, addRename)
    ensures ok ==> ws.tree == old(ws.tree) || |ws.tree| < old(|ws.tree|)
    ensures key == Empty || !IsDir(old(ws.tree), mappedFolder + typeFolder) ==>
              ok && ws.tree == old(ws.tree) && ws.log == old(ws.log) && ws.moves == old(ws.moves)
    ensures NoOrphanUnder(old(ws.tree), mappedFolder + typeFolder, key, newFile) ==>
              ok && ws.tree == old(ws.tree) && ws.log == old(ws.log) && ws.moves == old(ws.moves)
    ensures ok && |mappedFolder + typeFolder| > 0 ==>
              NoOrphanLeft(ws.tree, mappedFolder + typeFolder, key, newFile, ws.moves, old(|ws.moves|))
    ensures ok && |mappedFolder + typeFolder| > 0 && |ws.moves| == old(|ws.moves|) ==>
              NoOrphanUnder(ws.tree, mappedFolder + typeFolder, key, newFile)
    ensures FailsOnFault(old(ws.faults), ws.faults, newFile, addRename, ok)
  {
    var path := mappedFolder + typeFolder;
    EmptyKeyHasNoOrphan(ws.tree, path, newFile);
    ok := CheckFolder(ws, path, key, newFile, addRename, readers);
    if ok && |path| > 0 && |ws.moves| == old(|ws.moves|) {
      NoMovesNoOrphan(ws.tree, path, key, newFile, ws.moves);
    }
  }

  /** The readers are never consulted when no rename is recorded. */
  const NoReaders := Readers(_ => "", _ => None)

  /** ManageOrphanFiles(typeFolder, Key, newFile): the walk without rename records, so only archive calls are made. */
  method ManageOrphanFilesForKey(ws: Workspace, mappedFolder: Path, typeFolder: Path, key: Guid, newFile: Path)
    returns (ok: bool)
    requires ws.Valid()
    modifies ws
    ensures ws.Valid()
    ensures WalkStep(old(ws.tree), ws.tree, old(ws.log), ws.log, old(ws.moves), ws.moves, key, newFile, false)
    ensures forall i :: |old(ws.log)| <= i < |ws.log| ==> ws.log[i].Archived?
    ensures key == Empty ==> ok && ws.tree == old(ws.tree) && ws.log == old(ws.log) && ws.moves == old(ws.moves)
    ensures ok && |mappedFolder + typeFolder| > 0 ==>
              NoOrphanLeft(ws.tree, mappedFolder + typeFolder, key, newFile, ws.moves, old(|ws.moves|))
    ensures ok && |mappedFolder + typeFolder| > 0 && |ws.moves| == old(|ws.moves|) ==>
              NoOrphanUnder(ws.tree, mappedFolder + typeFolder, key, newFile)
    ensures FailsOnFault(old(ws.faults), ws.faults, newFile, false, ok)
  {
    ok := ManageOrphanFiles(ws, mappedFolder, typeFolder, key, newFile, false, NoReaders);
  }

  /**
   * ManageOrphanFiles(typeFolder, int key, newFile): an integer id is widened
   * to the guid 00000000-0000-0000-0000-<id as twelve digits>; a negative id
   * does not parse, and nothing happens.
   */
  method ManageOrphanFilesForId(ws: Workspace, mappedFolder: Path, typeFolder: Path, id: Int32, newFile: Path)
    returns (ok: bool)
    requires ws.Valid()
    modifies ws
    ensures ws.Valid()
    ensures forall i :: |old(ws.log)| <= i < |ws.log| ==> ws.log[i].Archived?
    ensures id <= 0 ==> ok && ws.tree == old(ws.tree) && ws.log == old(ws.log) && ws.moves == old(ws.moves)
    ensures WidenKey(id).Some? ==>
              WalkStep(old(ws.tree), ws.tree, old(ws.log), ws.log, old(ws.moves), ws.moves, WidenKey(id).value, newFile, false)
    ensures ok && WidenKey(id).Some? && |mappedFolder + typeFolder| > 0 ==>
              NoOrphanLeft(ws.tree, mappedFolder + typeFolder, WidenKey(id).value, newFile, ws.moves, old(|ws.moves|))
    ensures FailsOnFault(old(ws.faults), ws.faults, newFile, false, ok)
  {
    WidenKeyDefined(id);
    WidenKeyEmpty(id);
    match WidenKey(id)
    case None =>
      ok := true;
    case Some(key) =>
      ok := ManageOrphanFilesForKey(ws, mappedFolder, typeFolder, key, newFile);
  }
}
