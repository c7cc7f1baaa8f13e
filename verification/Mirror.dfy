// The Mirror of internal/mirror/mirror.go: the disk below the root together
// with the sync index, and the methods that change them. What each method must
// leave behind is stated by the functions of Promotion, Retention and Prune;
// the methods that change the disk alone come with their own small lemmas,
// and a collection is followed as a whole for the labels that are pinned.

module MirrorCache {
  import opened Paths
  import opened FileSystem
  import opened SyncIndex
  import opened Promotion
  import opened Retention
  import opened Prune

  /** Anything in .staging older than this is a crashed request's leftover. */
  const STAGING_MAX_AGE: Time := 3_600_000_000_000

  /** A direct child of .staging that is past its age at now. */
  predicate StaleStaging(fs: FS, now: Time, c: Path)
  {
    c in fs && |c| == 2 && Parent(c) == STAGING && fs[c].mtime + STAGING_MAX_AGE < now
  }

  /** Stale is what lies directly in .staging and is more than an hour old. */
  lemma StaleIs(fs: FS, now: Time, c: Path)
    ensures StaleStaging(fs, now, c) <==>
            |c| == 2 && c[0] == ".staging" && c in fs && fs[c].mtime + 3_600_000_000_000 < now
  {
    if |c| == 2 {
      assert Parent(c) == [c[0]];
    }
  }

  ghost predicate AwayFromStale(fs: FS, now: Time, q: Path)
  {
    q != STAGING && forall c :: StaleStaging(fs, now, c) ==> !(c <= q)
  }

  /** Of what was at or below c exactly that is left which a node that cannot be
      unlinked holds in place. */
  ghost predicate Cleared(fs: FS, later: FS, stuck: set<Path>, c: Path)
  {
    forall q :: c <= q ==> (q in later <==> q in fs && exists s :: s in stuck && s in fs && q <= s)
  }

  /** No stale child that has been swept lies above q. */
  ghost predicate Unswept(fs0: FS, now: Time, todo: set<Path>, q: Path)
  {
    q != STAGING && forall c :: StaleStaging(fs0, now, c) && c !in todo ==> !(c <= q)
  }

  /** The sweep of fs0 with the stale children in todo still ahead. */
  ghost predicate Sweeping(fs0: FS, fs: FS, stuck: set<Path>, now: Time, todo: set<Path>)
  {
    && Tree(fs) && (forall c :: c in todo ==> StaleStaging(fs0, now, c))
    && (forall q :: Unswept(fs0, now, todo, q) ==> Same(fs0, fs, q))
    && (forall c :: StaleStaging(fs0, now, c) && c !in todo ==> Cleared(fs0, fs, stuck, c))
  }

  lemma SiblingsAreApart(fs: FS, now: Time, c: Path, d: Path, q: Path)
    requires StaleStaging(fs, now, c) && StaleStaging(fs, now, d) && c <= q && d <= q
    ensures c == d && q != STAGING
  {
  }

  lemma SweepOne(fs0: FS, fs: FS, stuck: set<Path>, now: Time, todo: set<Path>, c: Path)
    requires Sweeping(fs0, fs, stuck, now, todo) && c in todo
    ensures Sweeping(fs0, RemoveAll(fs, c, stuck, now), stuck, now, todo - {c})
  {
    hide RemoveAll, Tree, Cleared, Same, StaleStaging;
    var r := RemoveAll(fs, c, stuck, now);
    SweepStays(fs, stuck, now, fs0, c);
    SweepClears(fs0, fs, stuck, now, todo, c);
    forall d | StaleStaging(fs0, now, d) && d !in todo ensures Cleared(fs0, r, stuck, d) {
      SweepKeepsCleared(fs0, fs, stuck, now, c, d);
    }
    forall q | Unswept(fs0, now, todo - {c}, q) ensures Same(fs0, r, q) {
      assert Unswept(fs0, now, todo, q) && !(c <= q);
      SameTrans(fs0, fs, r, q);
    }
  }

  /** One removal changes nothing away from its target. */
  lemma SweepStays(fs: FS, stuck: set<Path>, now: Time, fs0: FS, c: Path)
    requires Tree(fs) && StaleStaging(fs0, now, c)
    ensures var r := RemoveAll(fs, c, stuck, now);
            Tree(r) && forall q :: q != STAGING && !(c <= q) ==> Same(fs, r, q)
  {
    var r := RemoveAll(fs, c, stuck, now);
    RemoveAllFrame(fs, c, stuck, now);
    forall q | q != STAGING && !(c <= q) ensures Same(fs, r, q) {
      RemoveAllAt(fs, c, stuck, now, q);
    }
  }

  lemma SweepClears(fs0: FS, fs: FS, stuck: set<Path>, now: Time, todo: set<Path>, c: Path)
    requires Sweeping(fs0, fs, stuck, now, todo) && c in todo
    ensures Cleared(fs0, RemoveAll(fs, c, stuck, now), stuck, c)
  {
    ClearedNow(fs, stuck, now, c);
    hide Cleared, RemoveAll, Tree, StaleStaging;
    forall q | c <= q ensures Same(fs0, fs, q) {
      forall d | StaleStaging(fs0, now, d) && d !in todo ensures !(d <= q) {
        if d <= q { SiblingsAreApart(fs0, now, c, d, q); }
      }
      SiblingsAreApart(fs0, now, c, c, q);
    }
    AgreeingClears(fs0, fs, RemoveAll(fs, c, stuck, now), stuck, c);
  }

  lemma SweepKeepsCleared(fs0: FS, fs: FS, stuck: set<Path>, now: Time, c: Path, d: Path)
    requires Tree(fs) && StaleStaging(fs0, now, c) && StaleStaging(fs0, now, d) && c != d
    requires Cleared(fs0, fs, stuck, d)
    ensures Cleared(fs0, RemoveAll(fs, c, stuck, now), stuck, d)
  {
    var r := RemoveAll(fs, c, stuck, now);
    SweepStays(fs, stuck, now, fs0, c);
    hide RemoveAll, Tree, StaleStaging;
    forall q | d <= q ensures Same(fs, r, q) {
      if c <= q { SiblingsAreApart(fs0, now, c, d, q); }
      SiblingsAreApart(fs0, now, d, d, q);
    }
  }

  lemma ClearedNow(fs: FS, stuck: set<Path>, now: Time, c: Path)
    ensures Cleared(fs, RemoveAll(fs, c, stuck, now), stuck, c)
  {
  }

  lemma AgreeingClears(fs0: FS, fs: FS, r: FS, stuck: set<Path>, c: Path)
    requires AgreeAt(fs0, fs, c) && Cleared(fs, r, stuck, c)
    ensures Cleared(fs0, r, stuck, c)
  {
    forall q | c <= q ensures q in r <==> q in fs0 && exists s :: s in stuck && s in fs0 && q <= s {
      assert Same(fs0, fs, q);
      forall s | q <= s ensures s in fs0 <==> s in fs {
        assert c <= s && Same(fs0, fs, s);
      }
    }
  }

  /** A whole collection on a pinned label: it keeps every entry; of its nodes
      it removes exactly the directories that pruning does not keep, and of the
      directories it keeps it moves the mtime of exactly those that lose an entry. */
  lemma PinnedCollection(env: Limits, s: Sweep, order: seq<Entry>, q: Path)
    requires Starts(s, order) && Tree(s.fs)
    requires forall k :: k in s.entries ==> ValidKey(k)
    requires q != [] && q[0] in env.pinned
    ensures var end := Visits(env, s, order);
            var r := Restrict(end.fs, KeptNodes(end.fs, env.stuck), env.now);
            && (forall k :: k in s.entries && HostLabel(k) == q[0] ==> k in end.entries)
            && (q in r <==> q in s.fs && Kept(s.fs, env.stuck, q))
            && (q in r ==> r[q] == if s.fs[q].Dir? && LosesEntry(s.fs, env.stuck, q) then Dir(env.now) else s.fs[q])
            && (q in s.fs && !s.fs[q].Dir? ==> q in r && r[q] == s.fs[q])
  {
    hide Visits, Starts, Tree, LosesEntry, Restrict, KeptNodes;
    PinnedIsUntouched(env, s, order);
    PruneElsewhere(s.fs, Visits(env, s, order).fs, env.stuck, env.now, q);
    assert q in s.fs && !s.fs[q].Dir? ==> q <= q && Anchor(s.fs, env.stuck, q);
  }

  /** Pinning does not keep an empty directory. */
  lemma PinnedEmptyDirGoes(env: Limits, now: Time)
    requires env.stuck == {} && "h" in env.pinned
    ensures var fs: FS := map[[] := Dir(now), ["h"] := Dir(now), ["h", "e"] := Dir(now)];
            Tree(fs) && !Kept(fs, env.stuck, ["h", "e"])
  {
    var fs: FS := map[[] := Dir(now), ["h"] := Dir(now), ["h", "e"] := Dir(now)];
    assert Parent(["h", "e"]) == ["h"] && Parent(["h"]) == [];
    assert Seated(fs, ["h"]) && Seated(fs, ["h", "e"]);
    var q: Path := ["h", "e"];
    assert q[..1] == ["h"] && q[..2] == q;
    assert !Shielded(fs, q);
  }

  lemma SlotHasParent(fs: FS, staged: Path, dst: Path, temp: string)
    requires Ready(fs, staged, dst, temp)
    ensures dst != []
  {
  }

  class Mirror {
    var fs: FS
    const idx: Index

    ghost predicate Valid()
      reads this, idx
    {
      && Tree(fs)
      && idx.Valid() && Shaped(idx.entries)
      && (forall k :: k in idx.entries ==> idx.entries[k].size >= 0)
    }

    constructor (disk: FS)
      requires Tree(disk)
      ensures Valid() && fs == disk && idx.entries == map[] && fresh(idx)
    {
      fs := disk;
      idx := new Index();
    }

    /** Refuses when an entry at or below rel counts as modified. */
    method CheckOverwrite(rel: string, force: bool) returns (ok: bool)
      requires Valid()
      ensures ok <==> GuardPasses(fs, idx.entries, rel, force)
      ensures force ==> ok
      ensures !force ==> (ok <==> forall k :: k in idx.entries && Split(rel) <= Split(k) ==>
                                    !Modified(fs, idx.entries[k], Split(k)))
    {
      hide Split, HasPrefix;
      GuardIs(fs, idx.entries, rel, force);
      if force {
        return true;
      }
      var es := idx.Descendants(rel);
      for i := 0 to |es|
        invariant forall j :: 0 <= j < i ==> !Modified(fs, es[j], Split(es[j].rel))
      {
        var modified := LocallyModified(fs, es[i], Split(es[i].rel), {});
        if modified {
          return false;
        }
      }
      ghost var m := AtOrBelow(idx.entries, rel);
      forall k | k in m ensures !Modified(fs, m[k], Split(k)) {
        assert Names(es, k);
      }
      return true;
    }

    /** Installs the staged copy at rel and records it, or fails at one of the
        steps f names and leaves what that step leaves. */
    method Promote(staged: Path, rel: string, dir: bool, temp: string, f: Faults, now: Time) returns (ok: bool)
      requires Valid() && ValidKey(rel) && Ready(fs, staged, Split(rel), temp)
      modifies this, idx
      ensures Valid()
      ensures var o := Promotion.Promote(old(fs), staged, Split(rel), temp, f, now);
              o.trace != [] && ok == o.ok && fs == o.trace[|o.trace| - 1]
      ensures Settled(old(fs), Promotion.Promote(old(fs), staged, Split(rel), temp, f, now), staged, Split(rel), temp, f)
      ensures ok ==> Split(rel) in fs && idx.entries == Recorded(fs, old(idx.entries), rel, dir, now)
      ensures !ok ==> idx.entries == old(idx.entries)
    {
      var dst := Split(rel);
      PromoteIsCrashSafe(fs, staged, dst, temp, f, now);
      ok := MoveIntoPlace(staged, dst, temp, f, now);
      if !ok {
        return;
      }
      var size, syncMod := 0, now;
      if dir {
        var _, treeSize, latest := DirFingerprint(fs, dst, {});
        size, syncMod := treeSize, latest;
        idx.DeleteDescendantsOf(rel);
      } else {
        size, syncMod := StatSize(fs[dst]), fs[dst].mtime;
        idx.DeleteAncestorDirsOf(rel);
      }
      SyncedKeepsShape(old(idx.entries), rel, dir, size, syncMod, now);
      idx.Record(rel, dir, size, syncMod, now);
    }

    /** A request served again from the mirror. */
    method Touch(rel: string, now: Time)
      requires Valid()
      modifies idx
      ensures Valid() && idx.entries == Touched(old(idx.entries), rel, now)
    {
      TouchedKeepsShape(idx.entries, rel, now);
      idx.Touch(rel, now);
    }

    /** The renames of Promote, one disk state after another. */
    method MoveIntoPlace(staged: Path, dst: Path, temp: string, f: Faults, now: Time) returns (ok: bool)
      requires Tree(fs) && Ready(fs, staged, dst, temp)
      modifies this`fs
      ensures var o := Promotion.Promote(old(fs), staged, dst, temp, f, now);
              o.trace != [] && ok == o.ok && fs == o.trace[|o.trace| - 1]
    {
      hide Rename, RemoveAll, MakeTemp, MkdirAll, Tree, Ready, CanRename, Frame, SameTree, AgreeAt, InStaging;
      SlotHasParent(fs, staged, dst, temp);
      var parent := Parent(dst);
      var depth := if f.mkdirDepth < |parent| then f.mkdirDepth else |parent|;
      var made := MkdirAll(fs, parent[..depth], now);
      if made.None? {
        return false;
      }
      MkdirEffect(fs, staged, dst, temp, depth, now);
      fs := made.value;
      if depth < |parent| {
        return false;
      }
      ghost var d := fs;
      var taken := dst in fs;
      if taken {
        if !f.makesTemp {
          return false;
        }
        MakeTempEffect(d, staged, dst, temp, now);
        fs := MakeTemp(fs, temp, now);
        if !f.movesAside {
          fs := RemoveAll(fs, Aside(temp), f.stuck, now);
          return false;
        }
        MoveAsideEffect(d, staged, dst, temp, now);
        fs := Rename(fs, dst, OldCopy(temp), now);
      }
      if !f.installs {
        if taken && f.rollsBack {
          fs := Rename(fs, OldCopy(temp), dst, now);
        }
        return false;
      }
      fs := Rename(fs, staged, dst, now);
      if taken {
        fs := RemoveAll(fs, Aside(temp), f.stuck, now);
      }
      return true;
    }

    /** Unlinks the stale children of .staging and nothing else. */
    method SweepStaging(stuck: set<Path>, now: Time)
      requires Valid()
      modifies this`fs
      ensures Valid()
      ensures forall q :: AwayFromStale(old(fs), now, q) ==> Same(old(fs), fs, q)
      ensures forall c :: StaleStaging(old(fs), now, c) ==> Cleared(old(fs), fs, stuck, c)
    {
      ghost var fs0 := fs;
      hide RemoveAll, Tree;
      var todo := set c | c in fs && StaleStaging(fs, now, c);
      while todo != {}
        invariant Sweeping(fs0, fs, stuck, now, todo)
        decreases todo
      {
        var c :| c in todo;
        SweepOne(fs0, fs, stuck, now, todo, c);
        fs := RemoveAll(fs, c, stuck, now);
        todo := todo - {c};
      }
    }

    /** Repeats passes over the tree until one removes nothing. Every visiting
        order ends at the same disk. */
    method PruneEmptyDirs(stuck: set<Path>, now: Time)
      requires Valid()
      modifies this`fs
      ensures Valid()
      ensures fs == Restrict(old(fs), KeptNodes(old(fs), stuck), now)
      ensures fs.Keys == KeptNodes(old(fs), stuck)
    {
      ghost var fs0 := fs;
      PruningStarts(fs0, stuck, now);
      hide Pruning, Removable, Restrict, KeptNodes, Tree;
      var removed := true;
      while removed
        invariant Pruning(fs0, fs, stuck, now)
        invariant !removed ==> forall p :: p in fs ==> !Removable(fs, stuck, p)
        decreases |fs|, removed
      {
        removed := false;
        ghost var pass := fs;
        var todo := fs.Keys;
        while todo != {}
          invariant Pruning(fs0, fs, stuck, now)
          invariant if removed then |fs| < |pass| else fs == pass
          invariant !removed ==> forall p :: p in fs ==> p in todo || !Removable(fs, stuck, p)
          decreases todo
        {
          var p :| p in todo;
          todo := todo - {p};
          if Removable(fs, stuck, p) {
            RemovableIsThere(fs, stuck, p);
            PruningStep(fs0, fs, stuck, now, p);
            Unlinks(fs, p, now);
            fs := Restrict(fs, fs.Keys - {p}, now);
            removed := true;
          }
        }
      }
      FixpointIsExact(fs0, fs, stuck, now);
      PruningTree(fs0, fs, stuck, now);
    }

    /** One collection: sweep .staging, visit every candidate, prune. */
    method GC(env: Limits) returns (res: Sweep, ghost order: seq<Entry>, ghost start: Sweep)
      requires Valid()
      modifies this, idx
      ensures Valid()
      ensures Tree(start.fs) && Starts(start, order) && start.entries == old(idx.entries)
      ensures forall q :: AwayFromStale(old(fs), env.now, q) ==> Same(old(fs), start.fs, q)
      ensures forall c :: StaleStaging(old(fs), env.now, c) ==> Cleared(old(fs), start.fs, env.stuck, c)
      ensures forall q :: !InStaging(q) ==> Same(old(fs), start.fs, q)
      ensures res == Visits(env, start, order)
      ensures idx.entries == res.entries
      ensures fs == Restrict(res.fs, KeptNodes(res.fs, env.stuck), env.now)
    {
      var total := idx.TotalBytes();
      SweepStaging(env.stuck, env.now);
      var candidates := idx.Candidates();
      order := candidates;
      res := Sweep(fs, idx.entries, total, [], [], 0);
      start := res;
      for i := 0 to |candidates|
        invariant res == At(env, start, order, i)
        invariant fs == res.fs && idx.entries == res.entries && Tree(fs) && idx.Valid()
        invariant forall k :: k in idx.entries ==> k in start.entries && idx.entries[k] == start.entries[k]
      {
        var e := candidates[i];
        AtNext(env, start, order, i);
        res := Consider(env, res, e);
      }
      assert candidates[..|candidates|] == candidates;
      EvictionKeepsShape(start.entries, idx.entries);
      PruneEmptyDirs(env.stuck, env.now);
    }

    /** The body of the loop: what becomes of one candidate. */
    method Consider(env: Limits, s: Sweep, e: Entry) returns (r: Sweep)
      requires Tree(fs) && idx.Valid() && fs == s.fs && idx.entries == s.entries && Split(e.rel) != []
      modifies this`fs, idx
      ensures r == Visit(env, s, e) && fs == r.fs && idx.entries == r.entries
      ensures Tree(fs) && idx.Valid() && idx.entries.Keys <= s.entries.Keys
      ensures forall k :: k in idx.entries ==> idx.entries[k] == s.entries[k]
    {
      hide RemoveAll, Tree, Modified;
      var p := Split(e.rel);
      r := s;
      if !Expired(env, e) && !(s.total > env.maxBytes) {
        return;
      }
      if HostLabel(e.rel) in env.pinned {
        return;
      }
      if p !in fs {
        idx.Delete(e.rel);
        r := r.(entries := idx.entries);
        return;
      }
      var modified := LocallyModified(fs, e, p, {});
      if modified {
        r := r.(retained := r.retained + [e.rel]);
        return;
      }
      if e.rel in env.inUse {
        return;
      }
      RemoveAllFrame(fs, p, env.stuck, env.now);
      var failed := StuckBelow(fs, p, env.stuck);
      fs := RemoveAll(fs, p, env.stuck, env.now);
      if failed {
        r := r.(fs := fs);
        return;
      }
      idx.Delete(e.rel);
      r := Sweep(fs, idx.entries, r.total - e.size, r.removed + [e.rel], r.retained, r.bytes + e.size);
    }
  }
}
