// Whole runs of the mirror: promotes, re-opens and collections in any order,
// on slots none of which contains another, with nobody editing the disk: every
// file outside .staging lies in the slot of one entry, and the bytes that the
// index counts are those on disk until a step that is named here loses some.

module MirrorRuns {
  import opened Paths
  import opened FileSystem
  import opened SyncIndex
  import opened Promotion
  import opened Retention
  import opened Prune
  import MirrorCache

  datatype State = State(fs: FS, entries: Entries)

  /** One thing that happens to the mirror. staged and temp name the paths a
      promote works with; swept is the disk after GC has cleaned .staging. */
  datatype Event =
    | Stages
    | Promotes(rel: string, dir: bool, staged: Path, temp: string, f: Faults, now: Time)
    | Touches(rel: string, now: Time)
    | Collects(env: Limits, order: seq<Entry>, swept: FS)

  ghost predicate OnlyStagingDiffers(a: FS, b: FS)
  {
    forall q :: !InStaging(q) ==> Same(a, b, q)
  }

  /** rel neither contains nor lies inside another slot. */
  ghost predicate Unnested(m: Entries, rel: string)
  {
    forall k :: k in m && k != rel ==> !(Split(k) <= Split(rel)) && !(Split(rel) <= Split(k))
  }

  /** The event takes s to t. A promote may fail at any step, and a collection
      may meet nodes that it cannot unlink. */
  ghost predicate Steps(s: State, e: Event, t: State)
  {
    match e
    case Stages =>
      t.entries == s.entries && Tree(t.fs) && OnlyStagingDiffers(s.fs, t.fs)
    case Promotes(rel, dir, staged, temp, f, now) =>
      && ValidKey(rel) && Unnested(s.entries, rel)
      && Ready(s.fs, staged, Split(rel), temp)
      && (if dir then s.fs[staged].Dir? else s.fs[staged].File?)
      && var o := Promote(s.fs, staged, Split(rel), temp, f, now);
      && o.trace != [] && t.fs == o.trace[|o.trace| - 1]
      && if o.ok then Split(rel) in t.fs && t.entries == Recorded(t.fs, s.entries, rel, dir, now)
         else t.entries == s.entries
    case Touches(rel, now) =>
      t.fs == s.fs && t.entries == Touched(s.entries, rel, now)
    case Collects(env, order, swept) =>
      && Tree(swept) && OnlyStagingDiffers(s.fs, swept)
      && var start := Sweep(swept, s.entries, Total(s.entries), [], [], 0);
      && Starts(start, order)
      && var end := Visits(env, start, order);
      && t.entries == end.entries
      && t.fs == Restrict(end.fs, KeptNodes(end.fs, env.stuck), env.now)
  }

  ghost predicate Run(states: seq<State>, events: seq<Event>)
  {
    && |states| == |events| + 1
    && forall i :: 0 <= i < |events| ==> Steps(states[i], events[i], states[i + 1])
  }

  // ------------------------------------------- the mirror takes these steps

  method Promoting(m: MirrorCache.Mirror, rel: string, dir: bool, staged: Path, temp: string, f: Faults, now: Time)
    returns (ok: bool)
    requires m.Valid() && ValidKey(rel) && Ready(m.fs, staged, Split(rel), temp) && Unnested(m.idx.entries, rel)
    requires if dir then m.fs[staged].Dir? else m.fs[staged].File?
    modifies m, m.idx
    ensures m.Valid()
    ensures Steps(State(old(m.fs), old(m.idx.entries)), Promotes(rel, dir, staged, temp, f, now),
                  State(m.fs, m.idx.entries))
  {
    ok := m.Promote(staged, rel, dir, temp, f, now);
  }

  method Touching(m: MirrorCache.Mirror, rel: string, now: Time)
    requires m.Valid()
    modifies m.idx
    ensures m.Valid()
    ensures Steps(State(m.fs, old(m.idx.entries)), Touches(rel, now), State(m.fs, m.idx.entries))
  {
    m.Touch(rel, now);
  }

  method Collecting(m: MirrorCache.Mirror, env: Limits) returns (ghost order: seq<Entry>, ghost swept: FS)
    requires m.Valid()
    modifies m, m.idx
    ensures m.Valid()
    ensures Steps(State(old(m.fs), old(m.idx.entries)), Collects(env, order, swept), State(m.fs, m.idx.entries))
  {
    ghost var start: Sweep;
    var res;
    res, order, start := m.GC(env);
    swept := start.fs;
  }

  // ------------------------------------------------------------ the invariant

  ghost predicate FileAt(fs: FS, q: Path)
  {
    q in fs && fs[q].File?
  }

  ghost predicate CoveredBy(m: Entries, q: Path)
  {
    exists k :: k in m && Split(k) <= q
  }

  /** The index accounts for the disk: its slots do not contain each other,
      every file is under one, and none holds more than its entry says. */
  ghost predicate Covers(fs: FS, m: Entries)
  {
    && Tree(fs)
    && Keyed(m)
    && (forall k :: k in m ==> ValidKey(k))
    && (forall a, b :: a in m && b in m && Split(a) <= Split(b) ==> a == b)
    && (forall k :: k in m ==> TreeBytes(fs, Split(k)) <= m[k].size)
    && (forall q :: FileAt(fs, q) && !InStaging(q) ==> CoveredBy(m, q))
  }

  /** Every slot still holds all its entry says. */
  ghost predicate Whole(fs: FS, m: Entries)
  {
    forall k :: k in m ==> TreeBytes(fs, Split(k)) == m[k].size
  }

  /** Outside .staging the two disks have the same files, of the same sizes. */
  ghost predicate SameFiles(a: FS, b: FS)
  {
    forall q :: !InStaging(q) ==> SameFileAt(a, b, q)
  }

  ghost predicate SameFileAt(a: FS, b: FS, q: Path)
  {
    (FileAt(a, q) <==> FileAt(b, q)) && SizeAt(a, q) == SizeAt(b, q)
  }

  lemma KeyIsOutside(k: string, q: Path)
    requires ValidKey(k) && Split(k) <= q
    ensures !InStaging(q) && !InStaging(Split(k)) && |Split(k)| >= 2
  {
    ValidKeyPath(k);
  }

  /** Outside .staging b has some of the files of a, and nothing else. */
  ghost predicate Thins(a: FS, b: FS)
  {
    forall q :: !InStaging(q) ==> ThinsAt(a, b, q)
  }

  ghost predicate ThinsAt(a: FS, b: FS, q: Path)
  {
    (FileAt(b, q) ==> FileAt(a, q)) && SizeAt(b, q) <= SizeAt(a, q)
  }

  lemma ThinningKeepsCover(a: FS, b: FS, m: Entries)
    requires Covers(a, m) && Tree(b) && Thins(a, b)
    ensures Covers(b, m)
  {
    forall k | k in m ensures TreeBytes(b, Split(k)) <= m[k].size {
      forall q | Split(k) <= q ensures SizeAt(b, q) <= SizeAt(a, q) {
        KeyIsOutside(k, q);
        assert ThinsAt(a, b, q);
      }
      TreeBytesShrink(b, a, Split(k));
    }
    forall q | FileAt(b, q) && !InStaging(q) ensures CoveredBy(m, q) {
      assert ThinsAt(a, b, q);
    }
  }

  lemma SameFilesKeepWhole(a: FS, b: FS, m: Entries)
    requires Covers(a, m) && Tree(b) && SameFiles(a, b)
    ensures Covers(b, m) && (Whole(b, m) <==> Whole(a, m))
  {
    forall q | !InStaging(q) ensures ThinsAt(a, b, q) {
      assert SameFileAt(a, b, q);
    }
    ThinningKeepsCover(a, b, m);
    forall k | k in m ensures TreeBytes(b, Split(k)) == TreeBytes(a, Split(k)) {
      SameBytes(a, b, k);
    }
  }

  lemma SameBytes(a: FS, b: FS, k: string)
    requires ValidKey(k)
    requires forall q :: Split(k) <= q && !InStaging(q) ==> SameFileAt(a, b, q)
    ensures TreeBytes(a, Split(k)) == TreeBytes(b, Split(k))
  {
    forall q | Split(k) <= q ensures SizeAt(a, q) == SizeAt(b, q) {
      KeyIsOutside(k, q);
      assert SameFileAt(a, b, q);
    }
    TreeBytesFrame(a, b, Split(k));
  }

  // ---------------------------------------------------------------- promotes

  lemma FileBytes(fs: FS, p: Path)
    requires Tree(fs) && p in fs && fs[p].File?
    ensures TreeBytes(fs, p) == |fs[p].bytes|
  {
    forall q | q in Below(fs, p) ensures q == p {
      TreePrefix(fs, p, q);
    }
    assert Below(fs, p) == {p};
    SumTake(fs, {p}, p);
  }

  lemma SyncedUnnested(m: Entries, rel: string, dir: bool, size: int, syncMod: Time, now: Time)
    requires Unnested(m, rel) && Keyed(m)
    ensures Synced(m, rel, dir, size, syncMod, now) == m[rel := Entry(rel, dir, size, syncMod, now, now)]
  {
    forall k | k in m && k != rel ensures !HasPrefix(k, rel + "/") && !HasPrefix(rel, k + "/") {
      PrefixIsStrictlyBelow(k, rel);
      PrefixIsStrictlyBelow(rel, k);
    }
  }

  /** What a failed promote leaves outside .staging: everything, or everything
      but the slot. */
  lemma FailedPromote(s: State, e: Event, t: State)
    requires e.Promotes? && Steps(s, e, t) && Covers(s.fs, s.entries) && t.entries == s.entries
    requires Tree(t.fs) && Frame(s.fs, t.fs, Split(e.rel))
    requires SameTree(t.fs, Split(e.rel), s.fs, Split(e.rel)) || Split(e.rel) !in t.fs
    ensures Covers(t.fs, t.entries)
    ensures SameTree(t.fs, Split(e.rel), s.fs, Split(e.rel)) ==> (Whole(t.fs, t.entries) <==> Whole(s.fs, s.entries))
  {
    var dst := Split(e.rel);
    hide Steps, Tree, Whole;
    if SameTree(t.fs, dst, s.fs, dst) {
      AgreeIsSameTree(t.fs, s.fs, dst);
      forall q | !InStaging(q) ensures SameFileAt(s.fs, t.fs, q) {
        if dst <= q {
          assert Same(t.fs, s.fs, q);
        } else {
          assert FrameAt(s.fs, t.fs, dst, q);
        }
      }
      SameFilesKeepWhole(s.fs, t.fs, s.entries);
    } else {
      forall q | !InStaging(q) ensures ThinsAt(s.fs, t.fs, q) {
        if dst <= q {
          NothingUnder(t.fs, dst, q);
        } else {
          assert FrameAt(s.fs, t.fs, dst, q);
        }
      }
      ThinningKeepsCover(s.fs, t.fs, s.entries);
    }
  }

  lemma NothingUnder(fs: FS, p: Path, q: Path)
    requires Tree(fs) && p !in fs && p <= q
    ensures q !in fs
  {
    if q in fs { TreePrefix(fs, p, q); }
  }

  lemma NoBytes(fs: FS, p: Path)
    requires Tree(fs) && p !in fs
    ensures TreeBytes(fs, p) == 0
  {
    forall q | p <= q ensures q !in fs {
      NothingUnder(fs, p, q);
    }
    assert Below(fs, p) == {};
  }

  lemma NotCovered(m: Entries, rel: string, q: Path)
    requires Unnested(m, rel) && rel !in m && Split(rel) <= q
    ensures !CoveredBy(m, q)
  {
    forall k | k in m ensures !(Split(k) <= q) {
      PrefixesChain(Split(rel), Split(k), q);
    }
  }

  lemma UncoveredHasNoBytes(fs: FS, m: Entries, q: Path)
    requires Covers(fs, m) && !InStaging(q) && !CoveredBy(m, q)
    ensures SizeAt(fs, q) == 0
  {
    assert !FileAt(fs, q);
  }

  /** The bytes in a slot that has no entry and overlaps none. */
  lemma UnlistedSlotIsBare(fs: FS, m: Entries, rel: string)
    requires Covers(fs, m) && ValidKey(rel) && Unnested(m, rel) && rel !in m
    ensures TreeBytes(fs, Split(rel)) == 0
  {
    hide Covers, CoveredBy, Unnested, SizeAt;
    forall q | q in Below(fs, Split(rel)) ensures SizeAt(fs, q) == 0 {
      KeyIsOutside(rel, q);
      NotCovered(m, rel, q);
      UncoveredHasNoBytes(fs, m, q);
    }
    SumZero(fs, Below(fs, Split(rel)));
  }

  /** Whether the event loses bytes of a listed slot: a promote that strands a
      slot that holds some, or a collection that cannot remove a slot from which
      it can remove a file with bytes. */
  ghost predicate Loses(s: State, e: Event)
  {
    match e
    case Promotes(rel, _, _, _, f, _) =>
      Split(rel) != [] && Split(rel) in s.fs && Strands(f, Split(rel)) && TreeBytes(s.fs, Split(rel)) > 0
    case Collects(env, order, swept) =>
      var start := Sweep(swept, s.entries, Total(s.entries), [], [], 0);
      exists i :: 0 <= i < |order| && Halved(env, start, order, i)
    case _ => false
  }

  /** Candidate i cannot be removed, and its slot has bytes that can. */
  ghost predicate Halved(env: Limits, s: Sweep, order: seq<Entry>, i: nat)
    requires i < |order|
  {
    VerdictAt(env, s, order, i) == Undeletable && HasLooseBytes(s.fs, Split(order[i].rel), env.stuck)
  }

  /** The bytes in the slot of candidate i after n candidates. */
  ghost function Held(env: Limits, s: Sweep, order: seq<Entry>, n: nat, i: nat): nat
    requires n <= |order| && i < |order|
  {
    TreeBytes(At(env, s, order, n).fs, Split(order[i].rel))
  }

  lemma PromoteKeepsAccount(s: State, e: Event, t: State)
    requires e.Promotes? && Steps(s, e, t) && Covers(s.fs, s.entries)
    ensures Covers(t.fs, t.entries)
    ensures Whole(s.fs, s.entries) ==> (Whole(t.fs, t.entries) <==> !Loses(s, e))
  {
    var dst := Split(e.rel);
    PromoteIsCrashSafe(s.fs, e.staged, dst, e.temp, e.f, e.now);
    var o := Promote(s.fs, e.staged, dst, e.temp, e.f, e.now);
    assert t.fs in o.trace;
    if dst in s.fs {
      SlotIsEmptiedIff(s.fs, e.staged, dst, e.temp, e.f, e.now);
    }
    hide Promote;
    if o.ok {
      InstalledKeepsAccount(s, e, t);
      assert !(dst in s.fs && Strands(e.f, dst));
    } else {
      RootsAgree(t.fs, s.fs, dst);
      FailedPromote(s, e, t);
      if dst in s.fs && Strands(e.f, dst) {
        StrandedSlot(s, e.rel, t.fs);
      }
    }
  }

  lemma RootsAgree(a: FS, b: FS, p: Path)
    ensures SameTree(a, p, b, p) ==> (p in a <==> p in b)
  {
    assert p + [] == p;
  }

  /** Once the slot is empty its entry is whole only if it never held a byte. */
  lemma StrandedSlot(s: State, rel: string, fs: FS)
    requires Covers(s.fs, s.entries) && ValidKey(rel) && Unnested(s.entries, rel)
    requires Tree(fs) && Frame(s.fs, fs, Split(rel)) && Split(rel) !in fs
    ensures Whole(s.fs, s.entries) ==> (Whole(fs, s.entries) <==> TreeBytes(s.fs, Split(rel)) == 0)
  {
    var m, p := s.entries, Split(rel);
    NoBytes(fs, p);
    if rel !in m {
      UnlistedSlotIsBare(s.fs, m, rel);
    }
    forall k | k in m && k != rel ensures TreeBytes(fs, Split(k)) == TreeBytes(s.fs, Split(k)) {
      ElsewhereBytes(s.fs, fs, m, rel, k);
    }
  }

  lemma ElsewhereBytes(a: FS, b: FS, m: Entries, rel: string, k: string)
    requires Unnested(m, rel) && k in m && k != rel && ValidKey(k) && Frame(a, b, Split(rel))
    ensures TreeBytes(a, Split(k)) == TreeBytes(b, Split(k))
  {
    forall q | Split(k) <= q && !InStaging(q) ensures SameFileAt(a, b, q) {
      PrefixesChain(Split(k), Split(rel), q);
      assert FrameAt(a, b, Split(rel), q);
    }
    SameBytes(a, b, k);
  }

  lemma InstalledKeepsAccount(s: State, e: Event, t: State)
    requires e.Promotes? && Covers(s.fs, s.entries)
    requires ValidKey(e.rel) && Unnested(s.entries, e.rel)
    requires Tree(t.fs) && Frame(s.fs, t.fs, Split(e.rel)) && SameTree(t.fs, Split(e.rel), s.fs, e.staged)
    requires e.staged in s.fs && (if e.dir then s.fs[e.staged].Dir? else s.fs[e.staged].File?)
    requires Split(e.rel) in t.fs && t.entries == Recorded(t.fs, s.entries, e.rel, e.dir, e.now)
    ensures Covers(t.fs, t.entries) && (Whole(s.fs, s.entries) ==> Whole(t.fs, t.entries))
  {
    var dst, m := Split(e.rel), s.entries;
    assert dst + [] == dst && e.staged + [] == e.staged;
    assert t.fs[dst] == s.fs[e.staged];
    if !e.dir {
      FileBytes(t.fs, dst);
    }
    var entry := t.entries[e.rel];
    SyncedUnnested(m, e.rel, e.dir, entry.size, entry.syncMod, e.now);
    assert entry.rel == e.rel && entry.size == TreeBytes(t.fs, dst);
    hide SameTree, Recorded, Covers, TreeBytes;
    AddKeepsAccount(s.fs, t.fs, m, e.rel, entry);
  }

  /** Replacing what is at one unnested slot, and its entry. */
  lemma AddKeepsAccount(a: FS, b: FS, m: Entries, rel: string, entry: Entry)
    requires Covers(a, m) && Tree(b) && ValidKey(rel) && Unnested(m, rel)
    requires Frame(a, b, Split(rel))
    requires entry.rel == rel && entry.size == TreeBytes(b, Split(rel))
    ensures Covers(b, m[rel := entry]) && (Whole(a, m) ==> Whole(b, m[rel := entry]))
  {
    hide Split, ValidKey, TreeBytes;
    var r := m[rel := entry];
    forall q | !InStaging(q) && !(Split(rel) <= q) ensures SameFileAt(a, b, q) {
      assert FrameAt(a, b, Split(rel), q);
    }
    forall k | k in m && k != rel ensures TreeBytes(b, Split(k)) == TreeBytes(a, Split(k)) {
      ElsewhereBytes(a, b, m, rel, k);
    }
    hide Frame, Tree;
    forall q | FileAt(b, q) && !InStaging(q) ensures CoveredBy(r, q) {
      if Split(rel) <= q {
        assert rel in r;
      } else {
        assert SameFileAt(a, b, q) && CoveredBy(m, q);
        var k :| k in m && Split(k) <= q;
        assert k in r;
      }
    }
  }

  // ------------------------------------------------------------- collections

  /** Dropping an entry whose slot is empty on disk, and clearing the slot. */
  lemma DropKeepsCover(a: FS, b: FS, m: Entries, rel: string)
    requires Covers(a, m) && rel in m && Tree(b)
    requires forall q :: !InStaging(q) && !(Split(rel) <= q) ==> SameFileAt(a, b, q)
    requires forall q :: FileAt(b, q) ==> !(Split(rel) <= q)
    ensures Covers(b, m - {rel})
  {
    forall k | k in m - {rel} ensures TreeBytes(b, Split(k)) <= m[k].size {
      forall q | Split(k) <= q && !InStaging(q) ensures SameFileAt(a, b, q) {
        PrefixesChain(Split(k), Split(rel), q);
      }
      SameBytes(a, b, k);
    }
    forall q | FileAt(b, q) && !InStaging(q) ensures CoveredBy(m - {rel}, q) {
      assert SameFileAt(a, b, q);
      var k :| k in m && Split(k) <= q;
      assert k in m - {rel};
    }
  }

  lemma SweptFiles(fs: FS, p: Path, stuck: set<Path>, now: Time)
    requires Tree(fs) && p != []
    ensures var swept := RemoveAll(fs, p, stuck, now);
            Tree(swept) && (forall q :: ThinsAt(fs, swept, q)) && (forall q :: !(p <= q) ==> SameFileAt(fs, swept, q))
  {
    RemoveAllFrame(fs, p, stuck, now);
    var swept := RemoveAll(fs, p, stuck, now);
    hide RemoveAll;
    forall q ensures ThinsAt(fs, swept, q) && (!(p <= q) ==> SameFileAt(fs, swept, q)) {
      if !(p <= q) { RemoveAllAt(fs, p, stuck, now, q); }
    }
  }

  lemma VisitKeepsCover(env: Limits, s: Sweep, e: Entry)
    requires Covers(s.fs, s.entries) && e.rel in s.entries && s.entries[e.rel] == e
    ensures var r := Visit(env, s, e); Covers(r.fs, r.entries)
  {
    hide Covers, RemoveAll, Modified, StuckBelow;
    var p := Split(e.rel);
    CoversTree(s.fs, s.entries);
    SlotIsOutside(s.fs, s.entries, e.rel);
    var swept := RemoveAll(s.fs, p, env.stuck, env.now);
    SweptFiles(s.fs, p, env.stuck, env.now);
    match Judge(env, s, e)
    case Gone =>
      forall q ensures FileAt(s.fs, q) ==> !(p <= q) {
        if p <= q { NothingUnder(s.fs, p, q); }
      }
      DropKeepsCover(s.fs, s.fs, s.entries, e.rel);
    case Evicted =>
      RemovalAt(s.fs, p, env);
      NotStuck(env, s, e);
      DropKeepsCover(s.fs, swept, s.entries, e.rel);
    case Undeletable =>
      ThinningKeepsCover(s.fs, swept, s.entries);
    case _ =>
  }

  lemma SlotIsOutside(fs: FS, m: Entries, k: string)
    requires Covers(fs, m) && k in m
    ensures Split(k) != [] && !InStaging(Split(k))
  {
    KeyIsOutside(k, Split(k));
  }

  lemma NotStuck(env: Limits, s: Sweep, e: Entry)
    ensures Judge(env, s, e) == Evicted ==> !StuckBelow(s.fs, Split(e.rel), env.stuck)
  {
  }

  lemma {:induction false} VisitsKeepCover(env: Limits, s: Sweep, order: seq<Entry>, n: nat)
    requires Starts(s, order) && n <= |order| && Covers(s.fs, s.entries)
    ensures var t := At(env, s, order, n); Covers(t.fs, t.entries)
  {
    hide Visit, Visits, Covers, Total, Names, VerdictAt;
    if n > 0 {
      VisitsKeepCover(env, s, order, n - 1);
      ListedAt(env, s, order, n - 1);
      AtNext(env, s, order, n - 1);
      VisitKeepsCover(env, At(env, s, order, n - 1), order[n - 1]);
    } else {
      VisitsNone(env, s);
      assert order[..0] == [];
    }
  }

  /** Visiting candidate n changes no file of another slot, and those of its own
      only by removing it. */
  lemma VisitFiles(env: Limits, s: Sweep, order: seq<Entry>, n: nat, i: nat)
    requires Starts(s, order) && Covers(s.fs, s.entries) && n < |order| && i < |order|
    requires i != n || VerdictAt(env, s, order, n) !in {Evicted, Undeletable}
    ensures SlotFiles(At(env, s, order, n).fs, At(env, s, order, n + 1).fs, order[i].rel)
  {
    hide Judge, Visits, Covers, Total, VerdictAt, TreeBytes;
    VisitsKeepCover(env, s, order, n);
    AtNext(env, s, order, n);
    VerdictIs(env, s, order, n);
    var t, u, e, k := At(env, s, order, n), At(env, s, order, n + 1), order[n], order[i].rel;
    SlotsApart(s, order, n, i);
    if VerdictAt(env, s, order, n) in {Evicted, Undeletable} {
      CoversTree(t.fs, t.entries);
      SweptFiles(t.fs, Split(e.rel), env.stuck, env.now);
      hide RemoveAll;
      forall q | Split(k) <= q ensures SameFileAt(t.fs, u.fs, q) {
        PrefixesChain(Split(k), Split(e.rel), q);
      }
    }
  }

  /** The two disks have the same files, of the same sizes, in the slot of k. */
  ghost predicate SlotFiles(a: FS, b: FS, k: string)
  {
    forall q :: Split(k) <= q ==> SameFileAt(a, b, q)
  }

  lemma SlotFilesTrans(a: FS, b: FS, c: FS, k: string)
    requires SlotFiles(a, b, k) && SlotFiles(b, c, k)
    ensures SlotFiles(a, c, k)
  {
    forall q | Split(k) <= q ensures SameFileAt(a, c, q) {
      assert SameFileAt(a, b, q) && SameFileAt(b, c, q);
    }
  }

  lemma SlotFilesCount(a: FS, b: FS, k: string, stuck: set<Path>)
    requires SlotFiles(a, b, k)
    ensures TreeBytes(a, Split(k)) == TreeBytes(b, Split(k))
    ensures HasLooseBytes(a, Split(k), stuck) <==> HasLooseBytes(b, Split(k), stuck)
  {
    forall q | Split(k) <= q
      ensures SizeAt(a, q) == SizeAt(b, q) && (LooseAt(a, Split(k), stuck, q) <==> LooseAt(b, Split(k), stuck, q))
    {
      assert SameFileAt(a, b, q);
    }
    TreeBytesFrame(a, b, Split(k));
    assert forall q :: LooseAt(a, Split(k), stuck, q) ==> LooseAt(b, Split(k), stuck, q);
    assert forall q :: LooseAt(b, Split(k), stuck, q) ==> LooseAt(a, Split(k), stuck, q);
  }

  lemma CoversTree(fs: FS, m: Entries)
    requires Covers(fs, m)
    ensures Tree(fs)
  {
  }

  lemma SlotsApart(s: Sweep, order: seq<Entry>, n: nat, i: nat)
    requires Starts(s, order) && Covers(s.fs, s.entries) && n < |order| && i < |order|
    ensures ValidKey(order[i].rel) && ValidKey(order[n].rel) && Split(order[n].rel) != []
    ensures i != n ==> !(Split(order[i].rel) <= Split(order[n].rel)) && !(Split(order[n].rel) <= Split(order[i].rel))
  {
    ValidKeyPath(order[n].rel);
  }

  /** Until it is visited, and after, the files of a slot stay. */
  lemma {:induction false} FilesUntil(env: Limits, s: Sweep, order: seq<Entry>, n: nat, i: nat)
    requires Starts(s, order) && Covers(s.fs, s.entries) && i < |order| && n <= |order|
    ensures n <= i ==> SlotFiles(s.fs, At(env, s, order, n).fs, order[i].rel)
    ensures n > i ==> SlotFiles(At(env, s, order, i + 1).fs, At(env, s, order, n).fs, order[i].rel)
    decreases n
  {
    hide SlotFiles, Starts, Covers, Visits;
    if n == 0 || n == i + 1 {
      SameSlotFiles(At(env, s, order, n).fs, order[i].rel);
      VisitsNone(env, s);
      assert order[..0] == [];
    } else {
      FilesUntil(env, s, order, n - 1, i);
      VisitFiles(env, s, order, n - 1, i);
      var k := order[i].rel;
      if n <= i {
        SlotFilesTrans(s.fs, At(env, s, order, n - 1).fs, At(env, s, order, n).fs, k);
      } else {
        SlotFilesTrans(At(env, s, order, i + 1).fs, At(env, s, order, n - 1).fs, At(env, s, order, n).fs, k);
      }
    }
  }

  lemma SameSlotFiles(fs: FS, k: string)
    ensures SlotFiles(fs, fs, k)
  {
  }

  /** What the visit of an undeletable candidate does to its slot. */
  lemma HalvedShrinks(env: Limits, s: Sweep, order: seq<Entry>, i: nat)
    requires Starts(s, order) && Covers(s.fs, s.entries) && i < |order| && VerdictAt(env, s, order, i) == Undeletable
    ensures Halved(env, s, order, i) <==> Held(env, s, order, i + 1, i) != Held(env, s, order, i, i)
  {
    hide Judge, Visits, Covers, Total, VerdictAt, TreeBytes, SlotFiles, HasLooseBytes;
    VisitsKeepCover(env, s, order, i);
    AtNext(env, s, order, i);
    VerdictIs(env, s, order, i);
    FilesUntil(env, s, order, i, i);
    var t, p := At(env, s, order, i), Split(order[i].rel);
    SlotFilesCount(s.fs, t.fs, order[i].rel, env.stuck);
    CoversTree(t.fs, t.entries);
    RemovalLosesBytesIff(t.fs, p, env.stuck, env.now);
  }

  /** A pass over a whole mirror leaves it whole exactly when no candidate
      that it fails to remove has bytes that it can remove. */
  lemma PassIsWholeIff(env: Limits, s: Sweep, order: seq<Entry>)
    requires Starts(s, order) && Covers(s.fs, s.entries) && Whole(s.fs, s.entries)
    ensures var end := Visits(env, s, order);
            Whole(end.fs, end.entries) <==> forall i :: 0 <= i < |order| ==> !Halved(env, s, order, i)
  {
    hide Judge, Visits, Covers, Total, VerdictAt, HasLooseBytes, TreeBytes;
    var end, n := Visits(env, s, order), |order|;
    assert order[..n] == order;
    ListedAt(env, s, order, n);
    forall i: nat | i < n
      ensures order[i].rel in end.entries ==>
                (Halved(env, s, order, i) <==> TreeBytes(end.fs, Split(order[i].rel)) != end.entries[order[i].rel].size)
      ensures Halved(env, s, order, i) ==> order[i].rel in end.entries
    {
      SlotAfterPass(env, s, order, i);
    }
    forall k | k in end.entries ensures exists i :: 0 <= i < n && order[i].rel == k {
      assert Names(order, k);
    }
  }

  lemma SlotAfterPass(env: Limits, s: Sweep, order: seq<Entry>, i: nat)
    requires Starts(s, order) && Covers(s.fs, s.entries) && Whole(s.fs, s.entries) && i < |order|
    ensures var end, k := Visits(env, s, order), order[i].rel;
            && (Halved(env, s, order, i) ==> k in end.entries)
            && (k in end.entries ==> (Halved(env, s, order, i) <==> TreeBytes(end.fs, Split(k)) != end.entries[k].size))
  {
    hide Judge, Visits, Covers, Total, VerdictAt, TreeBytes, SlotFiles, HasLooseBytes;
    var n, k := |order|, order[i].rel;
    assert order[..n] == order;
    ListedAt(env, s, order, n);
    FilesUntil(env, s, order, n, i);
    FilesUntil(env, s, order, i, i);
    SlotFilesCount(At(env, s, order, i + 1).fs, At(env, s, order, n).fs, k, env.stuck);
    SlotFilesCount(s.fs, At(env, s, order, i).fs, k, env.stuck);
    if VerdictAt(env, s, order, i) == Undeletable {
      HalvedShrinks(env, s, order, i);
    } else if VerdictAt(env, s, order, i) != Evicted {
      VisitFiles(env, s, order, i, i);
      SlotFilesCount(At(env, s, order, i).fs, At(env, s, order, i + 1).fs, k, env.stuck);
    }
  }

  lemma RestrictFile(fs: FS, keep: set<Path>, now: Time, q: Path)
    requires q in fs && !fs[q].Dir? ==> q in Restrict(fs, keep, now)
    ensures SameFileAt(fs, Restrict(fs, keep, now), q)
  {
  }

  lemma PruneKeepsAccount(fs: FS, stuck: set<Path>, m: Entries, now: Time)
    requires Covers(fs, m)
    ensures var r := Restrict(fs, KeptNodes(fs, stuck), now);
            Covers(r, m) && (Whole(r, m) <==> Whole(fs, m))
  {
    var r := Restrict(fs, KeptNodes(fs, stuck), now);
    PruneKeepsBytes(fs, stuck, now, []);
    hide KeptNodes, Restrict;
    forall q ensures SameFileAt(fs, r, q) {
      RestrictFile(fs, KeptNodes(fs, stuck), now, q);
    }
    SameFilesKeepWhole(fs, r, m);
  }

  lemma CollectKeepsAccount(s: State, e: Event, t: State)
    requires e.Collects? && Steps(s, e, t) && Covers(s.fs, s.entries)
    ensures Covers(t.fs, t.entries)
    ensures Whole(s.fs, s.entries) ==> (Whole(t.fs, t.entries) <==> !Loses(s, e))
  {
    hide Covers, Visits, KeptNodes, Restrict, SameFileAt, Starts, Tree, Whole, Halved;
    var start := Sweep(e.swept, s.entries, Total(s.entries), [], [], 0);
    StagingKeepsAccount(s.fs, e.swept, s.entries);
    VisitsKeepCover(e.env, start, e.order, |e.order|);
    assert e.order[..|e.order|] == e.order;
    var end := Visits(e.env, start, e.order);
    PruneKeepsAccount(end.fs, e.env.stuck, end.entries, e.env.now);
    if Whole(s.fs, s.entries) {
      PassIsWholeIff(e.env, start, e.order);
    }
  }

  lemma StagingKeepsAccount(a: FS, b: FS, m: Entries)
    requires Covers(a, m) && Tree(b) && OnlyStagingDiffers(a, b)
    ensures Covers(b, m) && (Whole(b, m) <==> Whole(a, m))
  {
    forall q | !InStaging(q) ensures SameFileAt(a, b, q) {
      assert Same(a, b, q);
    }
    SameFilesKeepWhole(a, b, m);
  }

  lemma TouchKeepsAccount(fs: FS, m: Entries, rel: string, now: Time)
    requires Covers(fs, m)
    ensures Covers(fs, Touched(m, rel, now)) && (Whole(fs, Touched(m, rel, now)) <==> Whole(fs, m))
  {
    var r := Touched(m, rel, now);
    assert r.Keys == m.Keys && forall k :: k in m ==> r[k].size == m[k].size && r[k].rel == m[k].rel;
    forall q | FileAt(fs, q) && !InStaging(q) ensures CoveredBy(r, q) {
      var k :| k in m && Split(k) <= q;
      assert k in r;
    }
  }

  // ------------------------------------------------------------- main results

  /** Each step keeps the account; from a whole mirror it leaves a whole one
      exactly when it loses nothing. */
  lemma StepKeepsAccount(s: State, e: Event, t: State)
    requires Steps(s, e, t) && Covers(s.fs, s.entries)
    ensures Covers(t.fs, t.entries)
    ensures Whole(s.fs, s.entries) ==> (Whole(t.fs, t.entries) <==> !Loses(s, e))
  {
    hide Covers, Whole, OnlyStagingDiffers, Visits, Promote;
    match e
    case Stages => StagingKeepsAccount(s.fs, t.fs, s.entries);
    case Promotes(_, _, _, _, _, _) => PromoteKeepsAccount(s, e, t);
    case Touches(rel, now) => TouchKeepsAccount(s.fs, s.entries, rel, now);
    case Collects(_, _, _) => CollectKeepsAccount(s, e, t);
  }

  lemma {:induction false} RunKeepsAccount(states: seq<State>, events: seq<Event>, i: nat)
    requires Run(states, events) && Covers(states[0].fs, states[0].entries) && i <= |events|
    ensures Covers(states[i].fs, states[i].entries)
    ensures Whole(states[0].fs, states[0].entries) && (forall j :: 0 <= j < i ==> !Loses(states[j], events[j])) ==>
              Whole(states[i].fs, states[i].entries)
  {
    hide Steps, Covers, Whole, Loses;
    if i > 0 {
      RunKeepsAccount(states, events, i - 1);
      StepKeepsAccount(states[i - 1], events[i - 1], states[i]);
    }
  }

  function Outside(fs: FS): set<Path>
  {
    set q | q in fs && !InStaging(q)
  }

  ghost function Covered(fs: FS, m: Entries): set<Path>
  {
    set q | q in fs && CoveredBy(m, q)
  }

  lemma CoveredByRest(m: Entries, k: string, q: Path)
    requires k in m && Unnested(m, k)
    ensures CoveredBy(m, q) <==> Split(k) <= q || CoveredBy(m - {k}, q)
    ensures !(Split(k) <= q && CoveredBy(m - {k}, q))
  {
    if CoveredBy(m, q) {
      var j :| j in m && Split(j) <= q;
      assert j == k || j in m - {k};
    }
    if CoveredBy(m - {k}, q) {
      var j :| j in m - {k} && Split(j) <= q;
      assert j in m;
      PrefixesChain(Split(j), Split(k), q);
    }
  }

  lemma CoveredSplits(fs: FS, m: Entries, k: string)
    requires k in m && Unnested(m, k)
    ensures var here, rest := Below(fs, Split(k)), Covered(fs, m - {k});
            Covered(fs, m) == here + rest && here !! rest
  {
    var here, rest := Below(fs, Split(k)), Covered(fs, m - {k});
    hide CoveredBy, Unnested;
    forall q | q in fs ensures (q in Covered(fs, m) <==> q in here || q in rest) && !(q in here && q in rest) {
      CoveredByRest(m, k, q);
    }
  }

  lemma UnnestedRest(m: Entries, k: string, j: string)
    requires Unnested(m, j)
    ensures Unnested(m - {k}, j)
  {
  }

  lemma NothingCovered(fs: FS)
    ensures Total(map[]) == Sum(fs, Covered(fs, map[])) == 0
  {
    assert Covered(fs, map[]) == {};
  }

  /** Summed over unnested slots, the index is at least the bytes on disk, and
      equal exactly when every slot is whole. */
  lemma {:induction false} TotalIsCovered(fs: FS, m: Entries)
    requires forall k :: k in m ==> Unnested(m, k) && TreeBytes(fs, Split(k)) <= m[k].size
    ensures Sum(fs, Covered(fs, m)) <= Total(m)
    ensures Sum(fs, Covered(fs, m)) == Total(m) <==> Whole(fs, m)
    decreases |m|
  {
    hide Unnested, Covered, Below, Total, Sum, Split;
    if m == map[] {
      NothingCovered(fs);
    } else {
      var k :| k in m;
      TotalTake(m, k);
      CoveredSplits(fs, m, k);
      forall j | j in m - {k} ensures Unnested(m - {k}, j) {
        UnnestedRest(m, k, j);
      }
      TotalIsCovered(fs, m - {k});
      SumUnion(fs, Below(fs, Split(k)), Covered(fs, m - {k}));
    }
  }

  /** TotalBytes bounds what the files outside .staging take, and is exactly
      that when and only when every slot is whole. */
  lemma AccountIsExactIff(fs: FS, m: Entries)
    requires Covers(fs, m)
    ensures Sum(fs, Outside(fs)) <= Total(m)
    ensures Sum(fs, Outside(fs)) == Total(m) <==> Whole(fs, m)
  {
    hide Total, Sum, TreeBytes, Whole;
    TotalIsCovered(fs, m);
    var c, o := Covered(fs, m), Outside(fs);
    forall q | q in c ensures q in o {
      var k :| k in m && Split(k) <= q;
      KeyIsOutside(k, q);
    }
    forall q | q in o - c ensures SizeAt(fs, q) == 0 {
      assert FileAt(fs, q) ==> CoveredBy(m, q);
    }
    SumUnion(fs, c, o - c);
    SumZero(fs, o - c);
    assert c + (o - c) == o;
  }

  /** Byte conservation over whole runs, from a mirror with no files and an
      empty index, whatever fails: at every state every file outside .staging
      lies under exactly one entry and TotalBytes is at least the bytes on disk
      there. It is exactly that as long as no step has lost bytes of a slot. */
  lemma BytesAreConserved(states: seq<State>, events: seq<Event>, i: nat)
    requires Run(states, events) && i <= |events|
    requires Tree(states[0].fs) && states[0].entries == map[]
    requires forall q :: FileAt(states[0].fs, q) ==> InStaging(q)
    ensures var s := states[i];
            && Sum(s.fs, Outside(s.fs)) <= Total(s.entries)
            && (Sum(s.fs, Outside(s.fs)) == Total(s.entries) <==> Whole(s.fs, s.entries))
            && ((forall j :: 0 <= j < i ==> !Loses(states[j], events[j])) ==> Sum(s.fs, Outside(s.fs)) == Total(s.entries))
            && forall q :: FileAt(s.fs, q) && !InStaging(q) ==>
                 && CoveredBy(s.entries, q)
                 && forall a, b :: a in s.entries && b in s.entries && Split(a) <= q && Split(b) <= q ==> a == b
  {
    hide Loses, Steps;
    RunKeepsAccount(states, events, i);
    var s := states[i];
    AccountIsExactIff(s.fs, s.entries);
    forall q, a, b | FileAt(s.fs, q) && a in s.entries && b in s.entries && Split(a) <= q && Split(b) <= q
      ensures a == b
    {
      PrefixesChain(Split(a), Split(b), q);
    }
  }

  // --------------------------------------------------------------- a witness

  /** A synced directory with two one-byte files, of which b cannot be unlinked. */
  function TwoFiles(now: Time): FS
  {
    map[[] := Dir(now), ["h"] := Dir(now), ["h", "d"] := Dir(now),
        ["h", "d", "a"] := File([1], now, false), ["h", "d", "b"] := File([2], now, false)]
  }

  lemma TwoFilesAreTwoBytes(now: Time)
    ensures Tree(TwoFiles(now)) && TreeBytes(TwoFiles(now), ["h", "d"]) == 2
    ensures TreeNewest(TwoFiles(now), ["h", "d"]) <= now
  {
    var fs, p, a, b := TwoFiles(now), ["h", "d"], ["h", "d", "a"], ["h", "d", "b"];
    assert Parent(a) == p && Parent(b) == p && Parent(p) == ["h"] && Parent(["h"]) == [];
    forall q | q in fs ensures Seated(fs, q) {}
    assert Below(fs, p) == {p, a, b};
    SumTake(fs, {p, a, b}, a);
    assert {p, a, b} - {a} == {p, b};
    SumTake(fs, {p, b}, b);
    assert {p, b} - {b} == {p};
    SumTake(fs, {p}, p);
    NewestBounds(fs, Below(fs, p));
  }

  lemma TwoFilesAreCovered(now: Time, rel: string, e: Entry)
    requires ValidKey(rel) && Split(rel) == ["h", "d"] && e.rel == rel && e.size == 2
    ensures Covers(TwoFiles(now), map[rel := e]) && Whole(TwoFiles(now), map[rel := e])
  {
    var fs, m: Entries := TwoFiles(now), map[rel := e];
    TwoFilesAreTwoBytes(now);
    hide TreeBytes;
    forall q | FileAt(fs, q) ensures CoveredBy(m, q) {
      assert rel in m && Split(rel) <= q;
    }
  }

  ghost predicate Doomed(env: Limits, fs: FS, e: Entry)
  {
    var p := Split(e.rel);
    && Expired(env, e) && HostLabel(e.rel) !in env.pinned && p in fs && !Modified(fs, e, p)
    && e.rel !in env.inUse && StuckBelow(fs, p, env.stuck)
  }

  lemma OneStarts(fs: FS, e: Entry)
    requires e.size >= 0
    ensures Starts(Sweep(fs, map[e.rel := e], Total(map[e.rel := e]), [], [], 0), [e])
  {
    hide Total;
    var order := [e];
    assert order[0].rel == e.rel;
    assert Names(order, e.rel);
  }

  /** A mirror with one slot, which a collection fails to remove but takes bytes
      from: the entry stays in the index with its old size. */
  lemma OneSlotIsHalved(fs: FS, entry: Entry, env: Limits) returns (s: State, e: Event, t: State)
    requires entry.size >= 0 && Covers(fs, map[entry.rel := entry]) && Whole(fs, map[entry.rel := entry])
    requires Doomed(env, fs, entry) && HasLooseBytes(fs, Split(entry.rel), env.stuck)
    ensures s == State(fs, map[entry.rel := entry]) && Steps(s, e, t)
    ensures !Whole(t.fs, t.entries) && Sum(t.fs, Outside(t.fs)) < Total(t.entries)
  {
    hide TreeBytes, Visits, Restrict, KeptNodes, Sum, Total, Covers, Whole, Starts, HasLooseBytes, Modified, StuckBelow, Tree, Split;
    var m: Entries, order := map[entry.rel := entry], [entry];
    var start := Sweep(fs, m, Total(m), [], [], 0);
    var end := Visits(env, start, order);
    s := State(fs, m);
    e := Collects(env, order, fs);
    t := State(Restrict(end.fs, KeptNodes(end.fs, env.stuck), env.now), end.entries);
    CoversTree(fs, m);
    OneStarts(fs, entry);
    assert OnlyStagingDiffers(fs, fs) by { SameEverywhere(fs); }
    VisitsNone(env, start);
    assert order[..0] == [];
    assert VerdictAt(env, start, order, 0) == Undeletable;
    assert Halved(env, start, order, 0);
    assert Loses(s, e);
    StepKeepsAccount(s, e, t);
    AccountIsExactIff(t.fs, t.entries);
  }

  lemma SameEverywhere(fs: FS)
    ensures OnlyStagingDiffers(fs, fs)
  {
  }

  lemma TwoFilesAreDoomed(rel: string, env: Limits, e: Entry)
    requires Split(rel) == ["h", "d"] && e == Entry(rel, true, 2, 10, 10, 10)
    requires env == Limits(11, 0, 100, {}, {}, {["h", "d", "b"]})
    ensures Doomed(env, TwoFiles(10), e) && HasLooseBytes(TwoFiles(10), Split(rel), env.stuck)
  {
    var fs, p, a, b := TwoFiles(10), ["h", "d"], ["h", "d", "a"], ["h", "d", "b"];
    TwoFilesAreTwoBytes(10);
    hide TreeBytes, TreeNewest;
    assert p <= b && b in fs;
    assert LooseAt(fs, p, env.stuck, a);
  }

  /** Such a mirror: a goes, b stays, the index counts both. */
  lemma HalfEvictionBreaksTheAccount() returns (s: State, e: Event, t: State)
    ensures Steps(s, e, t) && Covers(s.fs, s.entries) && Whole(s.fs, s.entries)
    ensures !Whole(t.fs, t.entries) && Sum(t.fs, Outside(t.fs)) < Total(t.entries)
  {
    hide TreeBytes, TreeNewest, Steps, Covers, Whole, Sum, Total, Doomed, HasLooseBytes, TwoFiles, Outside;
    SplitJoin(["h", "d"]);
    var rel := Join(["h", "d"]);
    var entry := Entry(rel, true, 2, 10, 10, 10);
    var env := Limits(11, 0, 100, {}, {}, {["h", "d", "b"]});
    KeyIsValid(rel);
    TwoFilesAreCovered(10, rel, entry);
    TwoFilesAreDoomed(rel, env, entry);
    s, e, t := OneSlotIsHalved(TwoFiles(10), entry, env);
  }

  lemma KeyIsValid(rel: string)
    requires Split(rel) == ["h", "d"]
    ensures ValidKey(rel)
  {
  }
}
