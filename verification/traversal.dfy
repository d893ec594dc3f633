/**
  `traverse`: a depth-limited, pre-order walk of a folder that looks only at
  the first page of each children listing. A lookup that fails inside the
  walk is not caught by the source; here it ends the walk with `Failed`.
 */
module Traversal {
  import opened DriveModel

  /** The outcome of a walk: the source's None, an uncaught lookup failure, or the list of entries. */
  datatype Walk = NotFolder | Failed(missing: FileId) | Found(entries: seq<Entry>)

  /** Sequencing of two walks: the first failure wins, otherwise the entries are concatenated. */
  function Then(a: Walk, b: Walk): Walk {
    match a
    case Found(xs) => (match b case Found(ys) => Found(xs + ys) case _ => b)
    case _ => a
  }

  /**
    A folder entry followed by the walk below it. Extending a list by None
    raises in the source; that case cannot arise for a folder and is modelled
    as a failure at the folder.
   */
  function Prepend(e: Entry, w: Walk): Walk {
    match w
    case Found(xs) => Found([e] + xs)
    case Failed(m) => Failed(m)
    case NotFolder => Failed(e.id)
  }

  function Measure(depth: int): nat {
    if depth <= 0 then 0 else depth
  }

  /** `traverse(service, id, depth)`. */
  function Traverse(drive: Drive, id: FileId, depth: int): (r: Walk)
    ensures r.NotFolder? <==> id in drive && !IsFolderRecord(drive[id])
    ensures r.Failed? ==> r.missing !in drive
    decreases Measure(depth), 1
  {
    match GetFile(drive, id)
    case None => Failed(id)
    case Some(f) =>
      if !IsFolderRecord(f) then NotFolder
      else if depth <= 0 then Found([])
      else Children(drive, FirstPage(f), depth)
  }

  /** The loop over the first page of children, at the parent's depth. */
  function Children(drive: Drive, kids: seq<FileId>, depth: int): (r: Walk)
    requires depth >= 1
    ensures !r.NotFolder?
    ensures r.Failed? ==> r.missing !in drive
    decreases Measure(depth), 0, |kids|
  {
    if |kids| == 0 then Found([])
    else
      var c := kids[0];
      match GetFile(drive, c)
      case None => Failed(c)
      case Some(f) =>
        var here := ToEntry(c, f);
        var head := if IsFolderRecord(f) then Prepend(here, Traverse(drive, c, depth - 1)) else Found([here]);
        Then(head, Children(drive, kids[1..], depth))
  }

  /**
    `to` is reached from `from` in exactly `k` steps, each step going from a
    folder to an id on the first page of its children listing.
   */
  ghost predicate Reaches(drive: Drive, from: FileId, to: FileId, k: nat)
    decreases k
  {
    if k == 0 then from == to
    else
      && from in drive
      && IsFolderRecord(drive[from])
      && exists c :: c in FirstPage(drive[from]) && Reaches(drive, c, to, k - 1)
  }

  /** `x` is a descendant of `root` at some level 1..depth. */
  ghost predicate WithinDepth(drive: Drive, root: FileId, x: FileId, depth: int) {
    exists k: nat :: 1 <= k <= depth && Reaches(drive, root, x, k)
  }

  function EntryIds(es: seq<Entry>): set<FileId> {
    set e | e in es :: e.id
  }

  // ---------------------------------------------------------------- base cases

  /** A non-folder root gives None whatever the depth; a folder root with a spent depth gives []. */
  lemma TraverseBaseCases(drive: Drive, id: FileId)
    ensures id in drive && !IsFolderRecord(drive[id]) ==> forall d :: Traverse(drive, id, d) == NotFolder
    ensures id in drive && IsFolderRecord(drive[id]) ==> forall d :: d <= 0 ==> Traverse(drive, id, d) == Found([])
    ensures id !in drive ==> forall d :: Traverse(drive, id, d) == Failed(id)
  {
  }

  /** The walk fails at its root exactly when the lookup of the root fails. */
  lemma RootLookupFailureFailsWalk(drive: Drive, id: FileId, depth: int)
    ensures Traverse(drive, id, depth) == Failed(id) <==> GetFile(drive, id).None?
  {
  }

  /** `is_folder` agrees with the root check of `traverse`. */
  lemma IsFolderAgreesWithTraverse(drive: Drive, id: FileId, depth: int)
    ensures IsFolder(drive, id) <==> !Traverse(drive, id, depth).NotFolder? && Traverse(drive, id, depth) != Failed(id)
  {
  }

  // ---------------------------------------------------------------- soundness

  /** Every entry describes a file of the drive and lies at level 1..depth below the root. */
  lemma TraverseSound(drive: Drive, root: FileId, depth: int)
    requires Traverse(drive, root, depth).Found?
    ensures forall e :: e in Traverse(drive, root, depth).entries ==>
      Describes(drive, e) && WithinDepth(drive, root, e.id, depth)
    decreases Measure(depth), 1
  {
    if depth >= 1 && IsFolderRecord(drive[root]) {
      var kids := FirstPage(drive[root]);
      ChildrenSound(drive, kids, depth);
      forall e | e in Children(drive, kids, depth).entries
        ensures WithinDepth(drive, root, e.id, depth)
      {
        var c, k: nat :| c in kids && k < depth && Reaches(drive, c, e.id, k);
        assert Reaches(drive, root, e.id, k + 1);
      }
    }
  }

  lemma ChildrenSound(drive: Drive, kids: seq<FileId>, depth: int)
    requires depth >= 1
    requires Children(drive, kids, depth).Found?
    ensures forall e :: e in Children(drive, kids, depth).entries ==>
      Describes(drive, e) && exists c, k: nat :: c in kids && k < depth && Reaches(drive, c, e.id, k)
    decreases Measure(depth), 0, |kids|
  {
    if |kids| > 0 {
      var c := kids[0];
      var here := ToEntry(c, drive[c]);
      var head := if IsFolderRecord(drive[c]) then Prepend(here, Traverse(drive, c, depth - 1)) else Found([here]);
      var rest := Children(drive, kids[1..], depth);
      assert head.Found? && rest.Found?;
      assert Children(drive, kids, depth).entries == head.entries + rest.entries;
      if IsFolderRecord(drive[c]) {
        TraverseSound(drive, c, depth - 1);
      }
      ChildrenSound(drive, kids[1..], depth);
      forall e | e in head.entries + rest.entries
        ensures Describes(drive, e) && exists c', k: nat :: c' in kids && k < depth && Reaches(drive, c', e.id, k)
      {
        if e == here {
          assert Reaches(drive, c, e.id, 0);
        } else if e in head.entries {
          assert e in Traverse(drive, c, depth - 1).entries;
          var k: nat :| 1 <= k <= depth - 1 && Reaches(drive, c, e.id, k);
        } else {
          assert e in rest.entries;
          var c', k: nat :| c' in kids[1..] && k < depth && Reaches(drive, c', e.id, k);
          assert c' in kids;
        }
      }
      assert forall e :: e in Children(drive, kids, depth).entries ==>
        Describes(drive, e) && exists c, k: nat :: c in kids && k < depth && Reaches(drive, c, e.id, k);
    }
  }

  // ---------------------------------------------------------------- completeness

  /** Every descendant at level 1..depth appears among the entries. */
  lemma TraverseComplete(drive: Drive, root: FileId, depth: int, x: FileId, k: nat)
    requires Traverse(drive, root, depth).Found?
    requires 1 <= k <= depth
    requires Reaches(drive, root, x, k)
    ensures x in EntryIds(Traverse(drive, root, depth).entries)
    decreases Measure(depth), 1
  {
    var kids := FirstPage(drive[root]);
    var c :| c in kids && Reaches(drive, c, x, k - 1);
    ChildrenComplete(drive, kids, depth, c, x, k - 1);
  }

  lemma ChildrenComplete(drive: Drive, kids: seq<FileId>, depth: int, c: FileId, x: FileId, k: nat)
    requires depth >= 1
    requires Children(drive, kids, depth).Found?
    requires c in kids && k < depth
    requires Reaches(drive, c, x, k)
    ensures x in EntryIds(Children(drive, kids, depth).entries)
    decreases Measure(depth), 0, |kids|
  {
    var c0 := kids[0];
    var here := ToEntry(c0, drive[c0]);
    var head := if IsFolderRecord(drive[c0]) then Prepend(here, Traverse(drive, c0, depth - 1)) else Found([here]);
    var rest := Children(drive, kids[1..], depth);
    var es := Children(drive, kids, depth).entries;
    assert head.Found? && rest.Found?;
    assert es == head.entries + rest.entries;
    if c0 == c {
      if k == 0 {
        assert here in es;
      } else {
        TraverseComplete(drive, c, depth - 1, x, k);
        var e :| e in Traverse(drive, c, depth - 1).entries && e.id == x;
        assert e in es;
      }
    } else {
      assert c in kids[1..];
      ChildrenComplete(drive, kids[1..], depth, c, x, k);
      var e :| e in rest.entries && e.id == x;
      assert e in es;
    }
  }

  /**
    The traversal lists exactly the descendants at levels 1..depth, each
    entry being the service's record for it with the joined owner names.
   */
  lemma TraverseListsExactlyDescendants(drive: Drive, root: FileId, depth: int)
    requires Traverse(drive, root, depth).Found?
    ensures forall e :: e in Traverse(drive, root, depth).entries ==> Describes(drive, e)
    ensures forall x :: x in EntryIds(Traverse(drive, root, depth).entries) <==> WithinDepth(drive, root, x, depth)
  {
    var es := Traverse(drive, root, depth).entries;
    TraverseSound(drive, root, depth);
    forall x ensures x in EntryIds(es) <==> WithinDepth(drive, root, x, depth) {
      if WithinDepth(drive, root, x, depth) {
        var k: nat :| 1 <= k <= depth && Reaches(drive, root, x, k);
        TraverseComplete(drive, root, depth, x, k);
      }
    }
  }

  /** The root itself is listed only if it is its own descendant within the depth. */
  lemma RootNotListedWithoutCycle(drive: Drive, root: FileId, depth: int)
    requires Traverse(drive, root, depth).Found?
    requires !WithinDepth(drive, root, root, depth)
    ensures root !in EntryIds(Traverse(drive, root, depth).entries)
  {
    TraverseListsExactlyDescendants(drive, root, depth);
  }

  // ---------------------------------------------------------------- failures

  lemma TraverseFailedSound(drive: Drive, root: FileId, depth: int)
    requires Traverse(drive, root, depth).Failed?
    ensures var m := Traverse(drive, root, depth).missing; m == root || WithinDepth(drive, root, m, depth)
    decreases Measure(depth), 1
  {
    if root in drive {
      var kids := FirstPage(drive[root]);
      var m := Traverse(drive, root, depth).missing;
      ChildrenFailedSound(drive, kids, depth);
      var c, k: nat :| c in kids && k < depth && Reaches(drive, c, m, k);
      assert Reaches(drive, root, m, k + 1);
    }
  }

  lemma ChildrenFailedSound(drive: Drive, kids: seq<FileId>, depth: int)
    requires depth >= 1
    requires Children(drive, kids, depth).Failed?
    ensures exists c, k: nat :: c in kids && k < depth && Reaches(drive, c, Children(drive, kids, depth).missing, k)
    decreases Measure(depth), 0, |kids|
  {
    var c := kids[0];
    var m := Children(drive, kids, depth).missing;
    if c !in drive {
      assert Reaches(drive, c, m, 0);
    } else {
      var here := ToEntry(c, drive[c]);
      var head := if IsFolderRecord(drive[c]) then Prepend(here, Traverse(drive, c, depth - 1)) else Found([here]);
      var rest := Children(drive, kids[1..], depth);
      if head.Failed? {
        assert IsFolderRecord(drive[c]);
        var sub := Traverse(drive, c, depth - 1);
        assert sub.Failed? && sub.missing == m;
        TraverseFailedSound(drive, c, depth - 1);
        var k: nat :| 1 <= k <= depth - 1 && Reaches(drive, c, m, k);
      } else {
        assert rest.Failed? && rest.missing == m;
        ChildrenFailedSound(drive, kids[1..], depth);
        var c', k: nat :| c' in kids[1..] && k < depth && Reaches(drive, c', m, k);
        assert c' in kids;
      }
    }
  }

  /**
    The walk fails exactly when the root, or some descendant within the depth,
    is a file the service cannot return.
   */
  lemma TraverseFailsExactlyOnMissing(drive: Drive, root: FileId, depth: int)
    ensures Traverse(drive, root, depth).Failed? <==>
      root !in drive || exists x :: WithinDepth(drive, root, x, depth) && x !in drive
  {
    var w := Traverse(drive, root, depth);
    if w.Failed? {
      TraverseFailedSound(drive, root, depth);
    } else if x :| WithinDepth(drive, root, x, depth) && x !in drive {
      var k: nat :| 1 <= k <= depth && Reaches(drive, root, x, k);
      assert root in drive && IsFolderRecord(drive[root]);
      TraverseListsExactlyDescendants(drive, root, depth);
      assert x in EntryIds(w.entries);
    }
  }

  // ---------------------------------------------------------------- order

  /** The entries one child of the root contributes: itself, then its own walk if it is a folder. */
  function Block(drive: Drive, c: FileId, depth: int): seq<Entry>
    requires c in drive
  {
    var here := ToEntry(c, drive[c]);
    if IsFolderRecord(drive[c]) then
      [here] + (match Traverse(drive, c, depth - 1) case Found(xs) => xs case _ => [])
    else [here]
  }

  /**
    Pre-order in first-page order: the entries are the children's blocks laid
    end to end, in the order of the first page of the root's listing.
   */
  lemma TraverseIsPreOrder(drive: Drive, root: FileId, depth: int)
    requires Traverse(drive, root, depth).Found?
    requires depth >= 1 && IsFolderRecord(drive[root])
    ensures var kids := FirstPage(drive[root]);
      && (forall i :: 0 <= i < |kids| ==> kids[i] in drive)
      && Traverse(drive, root, depth).entries
         == Flatten(seq(|kids|, i requires 0 <= i < |kids| && kids[i] in drive => Block(drive, kids[i], depth)))
  {
    ChildrenIsBlocks(drive, FirstPage(drive[root]), depth);
  }

  lemma {:induction false} ChildrenIsBlocks(drive: Drive, kids: seq<FileId>, depth: int)
    requires depth >= 1
    requires Children(drive, kids, depth).Found?
    ensures forall i :: 0 <= i < |kids| ==> kids[i] in drive
    ensures Children(drive, kids, depth).entries
         == Flatten(seq(|kids|, i requires 0 <= i < |kids| && kids[i] in drive => Block(drive, kids[i], depth)))
    decreases |kids|
  {
    if |kids| > 0 {
      var c := kids[0];
      var rest := Children(drive, kids[1..], depth);
      ChildrenIsBlocks(drive, kids[1..], depth);
      var blocks := seq(|kids|, i requires 0 <= i < |kids| && kids[i] in drive => Block(drive, kids[i], depth));
      var tail := seq(|kids| - 1, i requires 0 <= i < |kids| - 1 && kids[1..][i] in drive => Block(drive, kids[1..][i], depth));
      assert blocks[1..] == tail;
      assert blocks[0] == Block(drive, c, depth);
    }
  }

  // ---------------------------------------------------------------- first page only

  /**
    Only the first page of a children listing is walked: a child that the
    service lists on a later page is not in the result.
   */
  lemma LaterPagesNotWalked()
    ensures var file := FileRecord("text/plain", ["Ann"], []);
      var drive := map["root" := FileRecord(FolderMimeType, ["Ann"], [["a"], ["b"]]), "a" := file, "b" := file];
      && "b" in AllChildren(drive["root"])
      && Traverse(drive, "root", 5) == Found([ToEntry("a", file)])
  {
  }
}
