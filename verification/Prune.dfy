// pruneEmptyDirs of internal/mirror/mirror.go: what its fixpoint is, and what
// pruning does to the modified test. The loop itself is Mirror.PruneEmptyDirs.

module Prune {
  import opened Paths
  import opened FileSystem
  import opened SyncIndex

  predicate StagingDir(fs: FS, q: Path)
  {
    q in fs && q != [] && q[|q| - 1] == ".staging" && fs[q].Dir?
  }

  /** q is a .staging directory or below one: the walk never enters it. */
  predicate Shielded(fs: FS, q: Path)
  {
    exists k :: 1 <= k <= |q| && StagingDir(fs, q[..k])
  }

  predicate HasChild(fs: FS, q: Path)
  {
    exists c :: c in fs && c != [] && Parent(c) == q
  }

  /** What one visit of the walk unlinks. */
  predicate Removable(fs: FS, stuck: set<Path>, q: Path)
  {
    q in fs && q != [] && fs[q].Dir? && !Shielded(fs, q) && !HasChild(fs, q) && q !in stuck
  }

  predicate Anchor(fs: FS, stuck: set<Path>, w: Path)
    requires w in fs
  {
    !fs[w].Dir? || StagingDir(fs, w) || w in stuck
  }

  /** Pruning keeps the root, everything shielded, and every directory with a
      non-directory, a .staging directory or an undeletable node at or below it. */
  predicate Kept(fs: FS, stuck: set<Path>, q: Path)
  {
    q in fs && (q == [] || Shielded(fs, q) || exists w :: w in fs && q <= w && Anchor(fs, stuck, w))
  }

  function KeptNodes(fs: FS, stuck: set<Path>): set<Path>
  {
    set q | q in fs && Kept(fs, stuck, q)
  }

  // ------------------------------------------------------------ the fixpoint

  /** fs is what is left of fs0 after some empty directories went. */
  ghost predicate Pruning(fs0: FS, fs: FS, stuck: set<Path>, now: Time)
  {
    && Tree(fs0) && Tree(fs)
    && fs.Keys <= fs0.Keys
    && fs == Restrict(fs0, fs.Keys, now)
    && forall q :: q in fs0 && Kept(fs0, stuck, q) ==> q in fs
  }

  lemma ShieldStays(fs0: FS, fs: FS, stuck: set<Path>, now: Time, q: Path)
    requires Pruning(fs0, fs, stuck, now) && q in fs
    ensures Shielded(fs0, q) <==> Shielded(fs, q)
    ensures fs0[q].Dir? <==> fs[q].Dir?
  {
    forall k | 1 <= k <= |q| ensures StagingDir(fs, q[..k]) <==> StagingDir(fs0, q[..k]) {
      TreePrefix(fs, q[..k], q);
    }
  }

  lemma PruningStarts(fs0: FS, stuck: set<Path>, now: Time)
    requires Tree(fs0)
    ensures Pruning(fs0, fs0, stuck, now)
  {
  }

  lemma AnchorBlocks(fs0: FS, fs: FS, stuck: set<Path>, now: Time, p: Path, w: Path)
    requires Pruning(fs0, fs, stuck, now)
    requires w in fs0 && p <= w && Anchor(fs0, stuck, w)
    ensures !Removable(fs, stuck, p)
  {
    assert Kept(fs0, stuck, w);
    TreePrefix(fs, p, w);
    ShieldStays(fs0, fs, stuck, now, p);
    if w == p {
      assert p[..|p|] == p;
      assert StagingDir(fs0, p) ==> Shielded(fs0, p);
    } else {
      var c := w[..|p| + 1];
      TreePrefix(fs, c, w);
      assert Parent(c) == p;
    }
  }

  /** No visit removes a node that is to be kept. */
  lemma KeptIsNotRemovable(fs0: FS, fs: FS, stuck: set<Path>, now: Time, p: Path)
    requires Pruning(fs0, fs, stuck, now) && Kept(fs0, stuck, p)
    ensures !Removable(fs, stuck, p)
  {
    ShieldStays(fs0, fs, stuck, now, p);
    if p != [] && !Shielded(fs0, p) {
      var w :| w in fs0 && p <= w && Anchor(fs0, stuck, w);
      AnchorBlocks(fs0, fs, stuck, now, p, w);
    }
  }

  lemma PruningStep(fs0: FS, fs: FS, stuck: set<Path>, now: Time, p: Path)
    requires Pruning(fs0, fs, stuck, now) && Removable(fs, stuck, p)
    ensures Pruning(fs0, Restrict(fs, fs.Keys - {p}, now), stuck, now)
  {
    var keep := fs.Keys - {p};
    var r := Restrict(fs, keep, now);
    forall q | q in fs0 && Kept(fs0, stuck, q) ensures q in r {
      KeptIsNotRemovable(fs0, fs, stuck, now, q);
    }
    forall q | q in keep && q != [] ensures Parent(q) in keep {
      assert Seated(fs, q);
    }
    RestrictTree(fs, keep, now);
    RestrictTwice(fs0, fs, p, now);
  }

  lemma RestrictTwice(fs0: FS, fs: FS, p: Path, now: Time)
    requires fs.Keys <= fs0.Keys && fs == Restrict(fs0, fs.Keys, now) && p in fs
    ensures var r := Restrict(fs, fs.Keys - {p}, now);
            r == Restrict(fs0, r.Keys, now)
  {
    var r := Restrict(fs, fs.Keys - {p}, now);
    forall q | q in r ensures r[q] == Restrict(fs0, r.Keys, now)[q] {
      assert LosesChild(fs0, r.Keys, q) <==> LosesChild(fs0, fs.Keys, q) || LosesChild(fs, fs.Keys - {p}, q) by {
        if c :| c in fs0 && c !in r.Keys && c != [] && Parent(c) == q {
          assert c == p || c !in fs.Keys;
        }
      }
    }
  }

  lemma PruningTree(fs0: FS, fs: FS, stuck: set<Path>, now: Time)
    requires Pruning(fs0, fs, stuck, now)
    ensures Tree(fs)
  {
  }

  lemma Unlinks(fs: FS, p: Path, now: Time)
    requires p in fs
    ensures |Restrict(fs, fs.Keys - {p}, now)| == |fs| - 1
  {
    var r := Restrict(fs, fs.Keys - {p}, now);
    assert r.Keys == fs.Keys - {p};
    assert |r| == |r.Keys| && |fs| == |fs.Keys|;
  }

  lemma RemovableIsThere(fs: FS, stuck: set<Path>, p: Path)
    ensures Removable(fs, stuck, p) ==> p in fs
  {
  }

  lemma {:induction false} DepthBound(fs: FS) returns (b: nat)
    ensures forall q :: q in fs ==> |q| <= b
    decreases |fs|
  {
    if fs == map[] {
      b := 0;
    } else {
      var p :| p in fs;
      var rest := DepthBound(fs - {p});
      b := if |p| > rest then |p| else rest;
      assert forall q :: q in fs ==> q == p || q in fs - {p};
    }
  }

  /** At the fixpoint a node that is not kept would have ever deeper children. */
  lemma {:induction false} NothingUnkeptIsLeft(fs0: FS, fs: FS, stuck: set<Path>, now: Time, q: Path, b: nat)
    requires Pruning(fs0, fs, stuck, now)
    requires forall p :: p in fs ==> !Removable(fs, stuck, p)
    requires forall p :: p in fs ==> |p| <= b
    requires q in fs
    ensures Kept(fs0, stuck, q)
    decreases b - |q|
  {
    ShieldStays(fs0, fs, stuck, now, q);
    if q != [] && !Shielded(fs0, q) && !Anchor(fs0, stuck, q) {
      assert !Removable(fs, stuck, q) && HasChild(fs, q);
      var c :| c in fs && c != [] && Parent(c) == q;
      NothingUnkeptIsLeft(fs0, fs, stuck, now, c, b);
      KeptUpward(fs0, stuck, q, c);
    }
  }

  /** The fixpoint is unique, whatever the visiting order: exactly the kept
      nodes are left, and the only other change is the mtime of directories
      that lost an entry. */
  lemma FixpointIsExact(fs0: FS, fs: FS, stuck: set<Path>, now: Time)
    requires Pruning(fs0, fs, stuck, now)
    requires forall p :: p in fs ==> !Removable(fs, stuck, p)
    ensures fs == Restrict(fs0, KeptNodes(fs0, stuck), now)
    ensures fs.Keys == KeptNodes(fs0, stuck)
  {
    var b := DepthBound(fs);
    forall q | q in fs ensures q in KeptNodes(fs0, stuck) {
      NothingUnkeptIsLeft(fs0, fs, stuck, now, q, b);
    }
    assert fs.Keys == KeptNodes(fs0, stuck);
  }

  /** Pruning never touches a file, a .staging directory or its content. */
  lemma PruneKeepsBytes(fs: FS, stuck: set<Path>, now: Time, p: Path)
    requires Tree(fs)
    ensures var r := Restrict(fs, KeptNodes(fs, stuck), now);
            && Tree(r)
            && (forall q :: q in fs && !fs[q].Dir? ==> q in r && r[q] == fs[q])
            && (forall q :: q in fs && Shielded(fs, q) ==> Same(fs, r, q))
            && TreeBytes(r, p) == TreeBytes(fs, p)
  {
    hide Restrict;
    var keep := KeptNodes(fs, stuck);
    var r := Restrict(fs, keep, now);
    forall q | q in fs && !fs[q].Dir? ensures q in keep {
      assert q <= q && Anchor(fs, stuck, q);
    }
    forall q | q in keep && q in fs && q != [] ensures Parent(q) in keep {
      assert Seated(fs, q);
      KeptUpward(fs, stuck, Parent(q), q);
    }
    RestrictTree(fs, keep, now);
    forall q | q in fs && Shielded(fs, q) ensures Same(fs, r, q) {
      ShieldedStays(fs, stuck, now, q);
    }
    hide KeptNodes, Tree;
    TreeBytesFrame(r, fs, p);
  }

  /** Nothing below a .staging directory loses an entry. */
  lemma ShieldedStays(fs: FS, stuck: set<Path>, now: Time, q: Path)
    requires q in fs && Shielded(fs, q)
    ensures Same(fs, Restrict(fs, KeptNodes(fs, stuck), now), q)
  {
    hide Restrict;
    forall c | c in fs && c != [] && Parent(c) == q ensures Shielded(fs, c) {
      var k :| 1 <= k <= |q| && StagingDir(fs, q[..k]);
      assert c[..k] == q[..k];
    }
  }

  lemma KeptUpward(fs: FS, stuck: set<Path>, p: Path, q: Path)
    requires Tree(fs) && q in fs && p <= q && Kept(fs, stuck, q)
    ensures Kept(fs, stuck, p)
  {
    TreePrefix(fs, p, q);
    if p != q && p != [] {
      if Shielded(fs, q) {
        var k :| 1 <= k <= |q| && StagingDir(fs, q[..k]);
        if k <= |p| {
          assert p[..k] == q[..k];
        } else {
          assert p <= q[..k] && Anchor(fs, stuck, q[..k]);
        }
      } else {
        var w :| w in fs && q <= w && Anchor(fs, stuck, w);
        assert p <= w;
      }
    }
  }

  /** Disks that agree on everything with the same first component as q. */
  ghost predicate SameUnder(a: FS, b: FS, top: string)
  {
    forall q: Path :: q != [] && q[0] == top ==> Same(a, b, q)
  }

  lemma SameKept(a: FS, b: FS, stuck: set<Path>, q: Path)
    requires q != [] && SameUnder(a, b, q[0])
    ensures Kept(a, stuck, q) ==> Kept(b, stuck, q)
  {
    assert Same(a, b, q);
    if Kept(a, stuck, q) {
      if Shielded(a, q) {
        var k :| 1 <= k <= |q| && StagingDir(a, q[..k]);
        assert Same(a, b, q[..k]);
        assert StagingDir(b, q[..k]);
      } else {
        var w :| w in a && q <= w && Anchor(a, stuck, w);
        assert Same(a, b, w);
        assert w in b && Anchor(b, stuck, w);
      }
    }
  }

  lemma SameUnderSwaps(a: FS, b: FS, top: string)
    requires SameUnder(a, b, top)
    ensures SameUnder(b, a, top)
  {
    forall q: Path | q != [] && q[0] == top ensures Same(b, a, q) {
      assert Same(a, b, q);
    }
  }

  /** Which directories lose an entry to a prune of fs. */
  ghost predicate LosesEntry(fs: FS, stuck: set<Path>, q: Path)
  {
    exists c :: c in fs && !Kept(fs, stuck, c) && c != [] && Parent(c) == q
  }

  /** Pruning b, seen from a disk a that agrees with it on q's first component. */
  lemma PruneElsewhere(a: FS, b: FS, stuck: set<Path>, now: Time, q: Path)
    requires q != [] && SameUnder(a, b, q[0])
    ensures var r := Restrict(b, KeptNodes(b, stuck), now);
            && (q in r <==> q in a && Kept(a, stuck, q))
            && (q in r ==> r[q] == if a[q].Dir? && LosesEntry(a, stuck, q) then Dir(now) else a[q])
  {
    assert Same(a, b, q);
    SameUnderSwaps(a, b, q[0]);
    SameKept(a, b, stuck, q);
    SameKept(b, a, stuck, q);
    forall c | c != [] && c[0] == q[0]
      ensures Same(a, b, c) && (Kept(a, stuck, c) <==> Kept(b, stuck, c))
    {
      SameKept(a, b, stuck, c);
      SameKept(b, a, stuck, c);
    }
    hide Kept;
    assert forall c: Path :: c != [] && Parent(c) == q ==> c[0] == q[0];
    assert LosesEntry(a, stuck, q) <==> LosesChild(b, KeptNodes(b, stuck), q) by {
      LosesEntryIs(a, b, stuck, q);
    }
  }

  lemma LosesEntryIs(a: FS, b: FS, stuck: set<Path>, q: Path)
    requires q != []
    requires forall c: Path :: c != [] && c[0] == q[0] ==> Same(a, b, c) && (Kept(a, stuck, c) <==> Kept(b, stuck, c))
    ensures LosesEntry(a, stuck, q) <==> LosesChild(b, KeptNodes(b, stuck), q)
  {
    hide Kept;
    assert forall c: Path :: c != [] && Parent(c) == q ==> c[0] == q[0];
  }

  /** What goes, without reference to what is kept: exactly the directories other
      than the root, outside every .staging, with nothing at or below them but
      directories, none of which is a .staging or cannot be unlinked. */
  lemma PrunedIff(fs: FS, stuck: set<Path>, now: Time, q: Path)
    requires q in fs
    ensures q !in Restrict(fs, KeptNodes(fs, stuck), now) <==>
            && q != []
            && (forall k :: 1 <= k <= |q| ==> !(q[..k] in fs && fs[q[..k]].Dir? && q[k - 1] == ".staging"))
            && (forall w :: w in fs && q <= w ==>
                  fs[w].Dir? && w !in stuck && (w != [] ==> w[|w| - 1] != ".staging"))
  {
    assert forall k :: 1 <= k <= |q| ==> q[..k][|q[..k]| - 1] == q[k - 1];
    assert forall w :: w in fs ==> (Anchor(fs, stuck, w) <==>
      !fs[w].Dir? || (w != [] && w[|w| - 1] == ".staging") || w in stuck);
  }

  /** The mirror's own staging area is never pruned, empty or not. */
  lemma StagingSurvives(fs: FS, stuck: set<Path>, now: Time, q: Path)
    requires Tree(fs) && STAGING in fs && fs[STAGING].Dir? && STAGING <= q && q in fs
    ensures Same(fs, Restrict(fs, KeptNodes(fs, stuck), now), q)
  {
    assert q[..1] == STAGING;
    assert StagingDir(fs, q[..1]);
    ShieldedStays(fs, stuck, now, q);
  }

  // ------------------------------------------- pruning and the modified test

  lemma PrunedMTime(fs: FS, stuck: set<Path>, now: Time, q: Path)
    requires q in fs && q in KeptNodes(fs, stuck)
    ensures var keep := KeptNodes(fs, stuck);
            var r := Restrict(fs, keep, now);
            q in r && MTimeAt(r, q) == if fs[q].Dir? && LosesChild(fs, keep, q) then now else MTimeAt(fs, q)
  {
    hide KeptNodes;
  }

  /** A newer mtime at or below p comes from a directory that lost an entry. */
  lemma NewerMeansPruned(fs: FS, stuck: set<Path>, now: Time, p: Path, limit: Time) returns (c: Path)
    requires TreeNewest(fs, p) <= limit < TreeNewest(Restrict(fs, KeptNodes(fs, stuck), now), p)
    ensures now > limit && c in fs && p < c && !Kept(fs, stuck, c)
  {
    hide Restrict, Kept;
    var keep := KeptNodes(fs, stuck);
    var r := Restrict(fs, keep, now);
    NewestBounds(fs, Below(fs, p));
    NewestBounds(r, Below(r, p));
    var q :| q in Below(r, p) && MTimeAt(r, q) == TreeNewest(r, p);
    assert q in Below(fs, p);
    PrunedMTime(fs, stuck, now, q);
    c :| c in fs && c !in keep && c != [] && Parent(c) == q;
  }

  lemma PrunedMeansNewer(fs: FS, stuck: set<Path>, now: Time, p: Path, c: Path)
    requires Tree(fs) && Kept(fs, stuck, p) && c in fs && p < c && !Kept(fs, stuck, c)
    ensures now <= TreeNewest(Restrict(fs, KeptNodes(fs, stuck), now), p)
  {
    hide Restrict;
    var keep := KeptNodes(fs, stuck);
    var r := Restrict(fs, keep, now);
    var top := TopmostUnkept(fs, stuck, p, c);
    var q := Parent(top);
    TreePrefix(fs, q, top);
    assert LosesChild(fs, keep, q);
    PrunedMTime(fs, stuck, now, q);
    hide Kept, KeptNodes;
    NewestBounds(r, Below(r, p));
    assert q in Below(r, p);
  }

  /** Pruning makes an unedited directory entry look locally modified exactly
      when the slot survives, an empty directory strictly below it is pruned,
      and the prune runs more than the slop after the newest synced mtime. */
  lemma PruneFlagsIff(fs: FS, stuck: set<Path>, now: Time, e: Entry, p: Path)
    requires Tree(fs) && e.dir && p in fs && !Modified(fs, e, p)
    ensures Modified(Restrict(fs, KeptNodes(fs, stuck), now), e, p) <==>
            Kept(fs, stuck, p) && now > e.syncMod + SLOP &&
            exists c :: c in fs && p < c && !Kept(fs, stuck, c)
  {
    var r := Restrict(fs, KeptNodes(fs, stuck), now);
    assert p in r <==> Kept(fs, stuck, p);
    hide Restrict, KeptNodes, Kept;
    PruneKeepsBytes(fs, stuck, now, p);
    if p in r {
      if TreeNewest(r, p) > e.syncMod + SLOP {
        var c := NewerMeansPruned(fs, stuck, now, p, e.syncMod + SLOP);
      }
      if c :| c in fs && p < c && !Kept(fs, stuck, c) {
        PrunedMeansNewer(fs, stuck, now, p, c);
      }
    }
  }

  /** The first directory on the way from a kept one to an unkept one that goes. */
  lemma TopmostUnkept(fs: FS, stuck: set<Path>, p: Path, c: Path) returns (top: Path)
    requires Tree(fs) && c in fs && p < c && Kept(fs, stuck, p) && !Kept(fs, stuck, c)
    ensures top in fs && p < top && !Kept(fs, stuck, top) && p <= Parent(top) && Kept(fs, stuck, Parent(top))
    decreases |c|
  {
    assert Seated(fs, c);
    var q := Parent(c);
    assert p == q || p < q by { assert p == c[..|p|] == q[..|p|]; }
    if Kept(fs, stuck, Parent(c)) {
      top := c;
    } else {
      top := TopmostUnkept(fs, stuck, p, Parent(c));
    }
  }

  /** A synced directory with one file and one empty directory, pruned later:
      nobody edited it, yet the next unforced open of it would be refused. */
  lemma PruneFlagsAnUneditedSlot()
    ensures var f := File([1], 10, false);
            var fs: FS := map[[] := Dir(10), ["h"] := Dir(10), ["h", "d"] := Dir(10),
                              ["h", "d", "f"] := f, ["h", "d", "e"] := Dir(10)];
            var e := Entry("h/d", true, 1, 10, 10, 10);
            && Tree(fs)
            && !Modified(fs, e, ["h", "d"])
            && Modified(Restrict(fs, KeptNodes(fs, {}), 11 + SLOP), e, ["h", "d"])
  {
    var f := File([1], 10, false);
    var slot, file, empty := ["h", "d"], ["h", "d", "f"], ["h", "d", "e"];
    var fs: FS := map[[] := Dir(10), ["h"] := Dir(10), slot := Dir(10), file := f, empty := Dir(10)];
    var e := Entry("h/d", true, 1, 10, 10, 10);
    assert Parent(slot) == ["h"] && Parent(file) == slot && Parent(empty) == slot && Parent(["h"]) == [];
    assert Seated(fs, slot) && Seated(fs, file) && Seated(fs, empty) && Seated(fs, ["h"]) && Seated(fs, []);
    assert Tree(fs);
    SlotUnmodified(fs, slot, file, empty, e);
    assert Anchor(fs, {}, file) && slot <= file;
    assert !Shielded(fs, empty) by {
      assert empty[..1] == ["h"] && empty[..2] == slot && empty[..3] == empty;
    }
    assert !Kept(fs, {}, empty);
    PruneFlagsIff(fs, {}, 11 + SLOP, e, slot);
  }

  lemma SlotUnmodified(fs: FS, slot: Path, file: Path, empty: Path, e: Entry)
    requires Below(fs, slot) == {slot, file, empty} && file != slot && file != empty
    requires fs[slot] == Dir(10) && fs[empty] == Dir(10) && fs[file] == File([1], 10, false)
    requires e.dir && e.size == 1 && e.syncMod == 10
    ensures !Modified(fs, e, slot)
  {
    NewestBounds(fs, Below(fs, slot));
    SumTake(fs, Below(fs, slot), file);
    SumZero(fs, Below(fs, slot) - {file});
  }
}
