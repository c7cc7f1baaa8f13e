// The eviction loop of GC in internal/mirror/mirror.go: one pass over the
// candidates, least recently used first, that drops, keeps or evicts each.

module Retention {
  import opened Paths
  import opened FileSystem
  import opened SyncIndex

  /** What a GC call is given: the configured limits, the oracle for files in
      use, and the disk nodes that cannot be unlinked. */
  datatype Limits = Limits(
    now: Time, ttl: int, maxBytes: int, pinned: set<string>, inUse: set<string>, stuck: set<Path>)

  datatype Sweep = Sweep(
    fs: FS, entries: Entries, total: int, removed: seq<string>, retained: seq<string>, bytes: int)

  /** Why the loop leaves, drops or evicts a candidate. */
  datatype Verdict = Fresh | Pinned | Gone | EditedLocally | InUse | Undeletable | Evicted

  predicate Expired(env: Limits, e: Entry)
  {
    env.now - e.lastUsed > env.ttl
  }

  function HostLabel(rel: string): string
  {
    Split(rel)[0]
  }

  predicate StuckBelow(fs: FS, p: Path, stuck: set<Path>)
  {
    exists s :: s in stuck && s in fs && p <= s
  }

  ghost function Judge(env: Limits, s: Sweep, e: Entry): Verdict
  {
    var p := Split(e.rel);
    if !Expired(env, e) && s.total <= env.maxBytes then Fresh
    else if HostLabel(e.rel) in env.pinned then Pinned
    else if p !in s.fs then Gone
    else if Modified(s.fs, e, p) then EditedLocally
    else if e.rel in env.inUse then InUse
    else if StuckBelow(s.fs, p, env.stuck) then Undeletable
    else Evicted
  }

  /** What a verdict does, given the disk a removal would leave. */
  function Carry(v: Verdict, s: Sweep, e: Entry, swept: FS): Sweep
  {
    match v
    case Fresh => s
    case Pinned => s
    case Gone => s.(entries := s.entries - {e.rel})
    case EditedLocally => s.(retained := s.retained + [e.rel])
    case InUse => s
    case Undeletable => s.(fs := swept)
    case Evicted =>
      Sweep(swept, s.entries - {e.rel}, s.total - e.size, s.removed + [e.rel], s.retained, s.bytes + e.size)
  }

  ghost function Visit(env: Limits, s: Sweep, e: Entry): Sweep
  {
    Carry(Judge(env, s, e), s, e, RemoveAll(s.fs, Split(e.rel), env.stuck, env.now))
  }

  ghost function Visits(env: Limits, s: Sweep, order: seq<Entry>): Sweep
  {
    if order == [] then s
    else Visit(env, Visits(env, s, order[..|order| - 1]), order[|order| - 1])
  }

  /** The loop starts from the whole index, with the running total it sums to. */
  ghost predicate Starts(s: Sweep, order: seq<Entry>)
  {
    && Lists(order, s.entries) && OldestFirst(order)
    && s.total == Total(s.entries)
    && s.removed == [] && s.retained == [] && s.bytes == 0
    && (forall k :: k in s.entries ==> s.entries[k].size >= 0)
  }

  /** The state and the verdict when candidate i is considered. */
  ghost function At(env: Limits, s: Sweep, order: seq<Entry>, i: nat): Sweep
    requires i <= |order|
  {
    Visits(env, s, order[..i])
  }

  ghost function VerdictAt(env: Limits, s: Sweep, order: seq<Entry>, i: nat): Verdict
    requires i < |order|
  {
    Judge(env, At(env, s, order, i), order[i])
  }

  lemma VisitsNone(env: Limits, s: Sweep)
    ensures Visits(env, s, []) == s
  {
  }

  lemma AtNext(env: Limits, s: Sweep, order: seq<Entry>, i: nat)
    requires i < |order|
    ensures At(env, s, order, i + 1) == Visit(env, At(env, s, order, i), order[i])
  {
    assert order[..i + 1][..i] == order[..i];
  }

  ghost function Freed(m: Entries, removed: seq<string>): int
  {
    if removed == [] then 0
    else
      var k := removed[|removed| - 1];
      Freed(m, removed[..|removed| - 1]) + (if k in m then m[k].size else 0)
  }

  // ------------------------------------------------------------- bookkeeping

  /** What holds of the index after i candidates. */
  ghost predicate Listed(env: Limits, s: Sweep, order: seq<Entry>, i: nat)
    requires i <= |order|
  {
    var t := At(env, s, order, i);
    && t.entries.Keys <= s.entries.Keys
    && (forall k :: k in t.entries ==> t.entries[k] == s.entries[k])
    && (forall j :: 0 <= j < |order| ==>
          (order[j].rel in t.entries <==> i <= j || VerdictAt(env, s, order, j) !in {Gone, Evicted}))
  }

  /** What holds of the totals after i candidates. */
  ghost predicate Booked(env: Limits, s: Sweep, order: seq<Entry>, i: nat)
    requires i <= |order|
  {
    var t := At(env, s, order, i);
    && t.bytes == Freed(s.entries, t.removed)
    && t.total == s.total - t.bytes
    && Total(t.entries) <= t.total
  }

  lemma {:induction false} ListedAt(env: Limits, s: Sweep, order: seq<Entry>, i: nat)
    requires Starts(s, order) && i <= |order|
    ensures Listed(env, s, order, i)
  {
    hide Judge, RemoveAll, Visits, Total, VerdictAt, Names, Modified, OldestFirst;
    if i > 0 {
      ListedAt(env, s, order, i - 1);
      AtNext(env, s, order, i - 1);
      var t, e := At(env, s, order, i - 1), order[i - 1];
      VerdictIs(env, s, order, i - 1);
      assert Carry(Judge(env, t, e), t, e, RemoveAll(t.fs, Split(e.rel), env.stuck, env.now)).entries
          == if Judge(env, t, e) in {Gone, Evicted} then t.entries - {e.rel} else t.entries;
    } else {
      VisitsNone(env, s);
      assert order[..0] == [];
    }
  }

  lemma VerdictIs(env: Limits, s: Sweep, order: seq<Entry>, i: nat)
    requires i < |order|
    ensures VerdictAt(env, s, order, i) == Judge(env, At(env, s, order, i), order[i])
  {
  }

  lemma {:induction false} BookedAt(env: Limits, s: Sweep, order: seq<Entry>, i: nat)
    requires Starts(s, order) && i <= |order|
    ensures Booked(env, s, order, i)
  {
    hide Judge, RemoveAll, Visits, Total, VerdictAt, Freed;
    if i > 0 {
      BookedAt(env, s, order, i - 1);
      ListedAt(env, s, order, i - 1);
      AtNext(env, s, order, i - 1);
      var t, e := At(env, s, order, i - 1), order[i - 1];
      TotalTake(t.entries, e.rel);
      FreedNext(s.entries, t.removed, e.rel);
    } else {
      VisitsNone(env, s);
      assert order[..0] == [];
      FreedNone(s.entries);
    }
  }

  lemma FreedNone(m: Entries)
    ensures Freed(m, []) == 0
  {
  }

  lemma FreedNext(m: Entries, removed: seq<string>, k: string)
    requires k in m
    ensures Freed(m, removed + [k]) == Freed(m, removed) + m[k].size
  {
    assert (removed + [k])[..|removed + [k]| - 1] == removed;
  }

  lemma BooksBalance(env: Limits, s: Sweep, order: seq<Entry>, i: nat)
    requires Starts(s, order) && i <= |order|
    ensures Listed(env, s, order, i) && Booked(env, s, order, i)
  {
    ListedAt(env, s, order, i);
    BookedAt(env, s, order, i);
  }

  lemma {:induction false} TotalOnlyFalls(env: Limits, s: Sweep, order: seq<Entry>, i: nat, j: nat)
    requires Starts(s, order) && i <= j <= |order|
    ensures At(env, s, order, j).total <= At(env, s, order, i).total
    decreases j
  {
    hide Judge, RemoveAll, Visits;
    if i < j {
      TotalOnlyFalls(env, s, order, i, j - 1);
      AtNext(env, s, order, j - 1);
      assert s.entries[order[j - 1].rel] == order[j - 1];
    }
  }

  // ------------------------------------------------------------ main results

  /** Candidate k was passed over: pinned, edited, in use or undeletable. */
  ghost predicate Spared(env: Limits, s: Sweep, order: seq<Entry>, k: string)
  {
    exists i :: 0 <= i < |order| && order[i].rel == k &&
                VerdictAt(env, s, order, i) in {Pinned, EditedLocally, InUse, Undeletable}
  }

  /** A survivor that is not spared was fresh: unexpired, and the running total
      was already within the cap. */
  lemma SurvivorIsFreshOrSpared(env: Limits, s: Sweep, order: seq<Entry>, k: string) returns (i: nat)
    requires Starts(s, order) && k in Visits(env, s, order).entries
    ensures i < |order| && k in s.entries && order[i] == s.entries[k] && order[i].rel == k
    ensures Spared(env, s, order, k) || VerdictAt(env, s, order, i) == Fresh
  {
    BooksBalance(env, s, order, |order|);
    assert order[..|order|] == order;
    assert Names(order, k);
    i :| 0 <= i < |order| && order[i].rel == k;
    assert VerdictAt(env, s, order, i) !in {Gone, Evicted};
  }

  /** The loop looks at a candidate exactly when it is expired or the running
      total is over the cap. */
  lemma FreshIff(env: Limits, s: Sweep, order: seq<Entry>, i: nat)
    requires i < |order|
    ensures VerdictAt(env, s, order, i) == Fresh <==>
            !Expired(env, order[i]) && At(env, s, order, i).total <= env.maxBytes
  {
    hide Visits, Modified, RemoveAll;
  }

  /** GC reaches its target: the index fits the cap or every survivor was
      spared; and every survivor past its TTL was spared. */
  lemma ReachesTarget(env: Limits, s: Sweep, order: seq<Entry>)
    requires Starts(s, order)
    ensures var end := Visits(env, s, order);
            && (Total(end.entries) <= env.maxBytes || forall k :: k in end.entries ==> Spared(env, s, order, k))
            && end.entries.Keys <= s.entries.Keys
            && (forall k :: k in end.entries && env.now - s.entries[k].lastUsed > env.ttl ==> Spared(env, s, order, k))
  {
    hide Judge, VerdictAt, Visits, Total, Spared, Names;
    var end := Visits(env, s, order);
    assert order[..|order|] == order;
    BooksBalance(env, s, order, |order|);
    forall k | k in end.entries
      ensures Spared(env, s, order, k) ||
              (end.total <= env.maxBytes && !Expired(env, s.entries[k]))
    {
      var i := SurvivorIsFreshOrSpared(env, s, order, k);
      FreshIff(env, s, order, i);
      TotalOnlyFalls(env, s, order, i, |order|);
    }
  }

  /** Eviction is least recently used: whatever was used strictly before an
      evicted entry is gone from the index or was spared. */
  lemma EvictsOldestFirst(env: Limits, s: Sweep, order: seq<Entry>, j: nat, k: string)
    requires Starts(s, order) && j < |order| && VerdictAt(env, s, order, j) == Evicted
    requires k in s.entries && s.entries[k].lastUsed < order[j].lastUsed
    ensures k !in Visits(env, s, order).entries || Spared(env, s, order, k)
  {
    hide Judge, VerdictAt, Visits, Total, Spared, Names, Lists;
    if k in Visits(env, s, order).entries {
      var i := SurvivorIsFreshOrSpared(env, s, order, k);
      FreshIff(env, s, order, i);
      FreshIff(env, s, order, j);
      if i < j {
        TotalOnlyFalls(env, s, order, i, j);
      } else {
        assert i == j || order[j].lastUsed <= order[i].lastUsed;
      }
    }
  }

  /** Exactly the evicted entries are reported removed, each once; the bytes
      reported are their sizes, and the running total fell by just that. */
  lemma ReportsWhatItRemoved(env: Limits, s: Sweep, order: seq<Entry>, k: string)
    requires Starts(s, order)
    ensures var end := Visits(env, s, order);
            && end.bytes == Freed(s.entries, end.removed)
            && end.total == Total(s.entries) - end.bytes
            && (k in end.removed <==> exists i :: 0 <= i < |order| && order[i].rel == k && VerdictAt(env, s, order, i) == Evicted)
            && (k in end.removed ==> k in s.entries && k !in end.entries)
            && multiset(end.removed)[k] <= 1
  {
    BooksBalance(env, s, order, |order|);
    assert order[..|order|] == order;
    RemovedUpTo(env, s, order, |order|, k);
    RemovedOnce(env, s, order, |order|, k);
  }

  lemma {:induction false} RemovedUpTo(env: Limits, s: Sweep, order: seq<Entry>, n: nat, k: string)
    requires Starts(s, order) && n <= |order|
    ensures k in At(env, s, order, n).removed <==>
            exists i :: 0 <= i < n && order[i].rel == k && VerdictAt(env, s, order, i) == Evicted
  {
    hide Judge, RemoveAll, Visits, Total, VerdictAt, Names;
    if n > 0 {
      RemovedUpTo(env, s, order, n - 1, k);
      AtNext(env, s, order, n - 1);
      VerdictIs(env, s, order, n - 1);
    } else {
      VisitsNone(env, s);
      assert order[..0] == [];
    }
  }

  lemma {:induction false} RemovedOnce(env: Limits, s: Sweep, order: seq<Entry>, n: nat, k: string)
    requires Starts(s, order) && n <= |order|
    ensures multiset(At(env, s, order, n).removed)[k] <= 1
  {
    hide Judge, RemoveAll, Visits, Total, VerdictAt, Names;
    if n > 0 {
      RemovedOnce(env, s, order, n - 1, k);
      RemovedUpTo(env, s, order, n - 1, k);
      AtNext(env, s, order, n - 1);
      OneMore(At(env, s, order, n - 1).removed, order[n - 1].rel, k);
    } else {
      VisitsNone(env, s);
      assert order[..0] == [];
    }
  }

  lemma OneMore(removed: seq<string>, last: string, k: string)
    ensures multiset(removed + [last])[k] == multiset(removed)[k] + (if k == last then 1 else 0)
    ensures k !in removed ==> multiset(removed)[k] == 0
  {
    assert multiset(removed + [last]) == multiset(removed) + multiset{last};
  }

  /** The retained list names exactly the entries found locally modified. */
  lemma {:induction false} RetainedUpTo(env: Limits, s: Sweep, order: seq<Entry>, n: nat, k: string)
    requires Starts(s, order) && n <= |order|
    ensures k in At(env, s, order, n).retained <==>
            exists i :: 0 <= i < n && order[i].rel == k && VerdictAt(env, s, order, i) == EditedLocally
  {
    hide Judge, RemoveAll, Visits, Total, VerdictAt, Names;
    if n > 0 {
      RetainedUpTo(env, s, order, n - 1, k);
      AtNext(env, s, order, n - 1);
      VerdictIs(env, s, order, n - 1);
    } else {
      VisitsNone(env, s);
      assert order[..0] == [];
    }
  }

  // ------------------------------------------------ what becomes of each one

  /** Nothing but its age and the cap stands between e and eviction. */
  ghost predicate Evictable(env: Limits, fs: FS, e: Entry)
  {
    var p := Split(e.rel);
    && HostLabel(e.rel) !in env.pinned && p in fs && !Modified(fs, e, p)
    && e.rel !in env.inUse && !StuckBelow(fs, p, env.stuck)
  }

  /** The loop looks at e: it is past its TTL or the mirror is over its cap. */
  predicate Due(env: Limits, t: Sweep, e: Entry)
  {
    env.now - e.lastUsed > env.ttl || t.total > env.maxBytes
  }

  ghost predicate Listing(s: seq<string>, t: seq<string>, k: string, added: bool)
  {
    t == if added then s + [k] else s
  }

  /** Every outcome of considering one candidate, from the state it is considered
      in: which list it goes to, whether its entry stays, and what happens to the
      disk and the totals. */
  lemma CandidateOutcome(env: Limits, t: Sweep, e: Entry)
    ensures var r, p := Visit(env, t, e), Split(e.rel);
            var looked := Due(env, t, e) && HostLabel(e.rel) !in env.pinned;
            var gone := looked && p !in t.fs;
            var edited := looked && Modified(t.fs, e, p);
            var free := looked && p in t.fs && !Modified(t.fs, e, p) && e.rel !in env.inUse;
            var evicted := free && forall q :: q in env.stuck && q in t.fs ==> !(p <= q);
            && r.entries == (if gone || evicted then t.entries - {e.rel} else t.entries)
            && Listing(t.removed, r.removed, e.rel, evicted)
            && Listing(t.retained, r.retained, e.rel, edited)
            && r.total == (if evicted then t.total - e.size else t.total)
            && r.bytes == (if evicted then t.bytes + e.size else t.bytes)
            && r.fs == (if free then RemoveAll(t.fs, p, env.stuck, env.now) else t.fs)
  {
    hide RemoveAll, Modified;
    ModifiedIsThere(t.fs, e, Split(e.rel));
  }

  lemma ModifiedIsThere(fs: FS, e: Entry, p: Path)
    ensures Modified(fs, e, p) ==> p in fs
  {
  }

  /** Only the visit of a candidate touches its entry and its place in the lists. */
  lemma FateIsSealed(env: Limits, s: Sweep, order: seq<Entry>, i: nat)
    requires Starts(s, order) && i < |order|
    ensures var k, t, end := order[i].rel, At(env, s, order, i + 1), Visits(env, s, order);
            && (k in end.entries <==> k in t.entries)
            && (k in end.removed <==> k in t.removed) && k !in At(env, s, order, i).removed
            && (k in end.retained <==> k in t.retained) && k !in At(env, s, order, i).retained
  {
    hide Judge, Visits, Total, VerdictAt, Names;
    var k := order[i].rel;
    assert order[..|order|] == order;
    ListedAt(env, s, order, |order|);
    ListedAt(env, s, order, i + 1);
    RemovedUpTo(env, s, order, |order|, k);
    RemovedUpTo(env, s, order, i + 1, k);
    RemovedUpTo(env, s, order, i, k);
    RetainedUpTo(env, s, order, |order|, k);
    RetainedUpTo(env, s, order, i + 1, k);
    RetainedUpTo(env, s, order, i, k);
  }

  /** An edited copy survives every collection: its entry stays, it is not
      reported removed, its visit leaves the disk alone; and it is reported
      retained exactly when it is unpinned and due. */
  lemma EditedSurvives(env: Limits, s: Sweep, order: seq<Entry>, i: nat)
    requires Starts(s, order) && i < |order|
    requires Modified(At(env, s, order, i).fs, order[i], Split(order[i].rel))
    ensures var t, e, end := At(env, s, order, i), order[i], Visits(env, s, order);
            && e.rel in end.entries && e.rel !in end.removed
            && At(env, s, order, i + 1).fs == t.fs
            && (e.rel in end.retained <==> Due(env, t, e) && HostLabel(e.rel) !in env.pinned)
  {
    hide Visit, Visits, Modified, Total, RemoveAll, Names;
    var t, e := At(env, s, order, i), order[i];
    AtNext(env, s, order, i);
    ListedAt(env, s, order, i);
    CandidateOutcome(env, t, e);
    FateIsSealed(env, s, order, i);
    ModifiedIsThere(t.fs, e, Split(e.rel));
  }

  /** So does one that is in use, unless it was gone from disk already. */
  lemma InUseSurvives(env: Limits, s: Sweep, order: seq<Entry>, i: nat)
    requires Starts(s, order) && i < |order|
    requires order[i].rel in env.inUse && Split(order[i].rel) in At(env, s, order, i).fs
    ensures var e, end := order[i], Visits(env, s, order);
            && e.rel in end.entries && e.rel !in end.removed
            && At(env, s, order, i + 1).fs == At(env, s, order, i).fs
  {
    hide Visit, Visits, Modified, Total, RemoveAll, Names;
    AtNext(env, s, order, i);
    ListedAt(env, s, order, i);
    CandidateOutcome(env, At(env, s, order, i), order[i]);
    FateIsSealed(env, s, order, i);
  }

  /** Whatever is reported retained was found edited, unpinned and due. */
  lemma RetainedWasEdited(env: Limits, s: Sweep, order: seq<Entry>, k: string) returns (i: nat)
    requires Starts(s, order) && k in Visits(env, s, order).retained
    ensures i < |order| && order[i].rel == k
    ensures var t := At(env, s, order, i);
            Modified(t.fs, order[i], Split(k)) && Due(env, t, order[i]) && HostLabel(k) !in env.pinned
  {
    hide Visit, Visits, Modified, Total, RemoveAll, Names, VerdictAt, Judge;
    assert order[..|order|] == order;
    RetainedUpTo(env, s, order, |order|, k);
    i :| 0 <= i < |order| && order[i].rel == k && VerdictAt(env, s, order, i) == EditedLocally;
    RetainedUpTo(env, s, order, |order|, k);
    FateIsSealed(env, s, order, i);
    AtNext(env, s, order, i);
    CandidateOutcome(env, At(env, s, order, i), order[i]);
  }

  /** Exactly these are evicted: unpinned, due, on disk, unedited, not in use and
      free of nodes that cannot be unlinked. */
  lemma EvictedIff(env: Limits, s: Sweep, order: seq<Entry>, i: nat)
    requires Starts(s, order) && i < |order|
    ensures var t, e := At(env, s, order, i), order[i];
            e.rel in Visits(env, s, order).removed <==> Due(env, t, e) && Evictable(env, t.fs, e)
  {
    hide Visit, Visits, Modified, Total, RemoveAll, Names;
    AtNext(env, s, order, i);
    CandidateOutcome(env, At(env, s, order, i), order[i]);
    FateIsSealed(env, s, order, i);
  }

  /** An entry touched within the TTL of a collection is evicted only to meet the
      cap. */
  lemma TouchedIsNotExpired(m: Entries, rel: string, touched: Time, env: Limits)
    requires rel in m && touched <= env.now <= touched + env.ttl
    ensures !Expired(env, Touched(m, rel, touched)[rel])
  {
  }

  // ---------------------------------------------------------------- the disk

  ghost predicate NothingBelow(fs: FS, p: Path)
  {
    forall q :: p <= q ==> q !in fs
  }

  /** Candidate i was removed, wholly or in part, and q is at or below it. */
  ghost predicate HitBy(env: Limits, s: Sweep, order: seq<Entry>, i: nat, q: Path)
    requires i < |order|
  {
    VerdictAt(env, s, order, i) in {Evicted, Undeletable} && Split(order[i].rel) <= q
  }

  /** The file or other non-directory at q is as it was. */
  ghost predicate LeafKept(a: FS, b: FS, q: Path)
  {
    q in a && !a[q].Dir? ==> q in b && b[q] == a[q]
  }

  lemma RemovalAt(fs: FS, p: Path, env: Limits)
    requires Tree(fs) && p != []
    ensures var swept := RemoveAll(fs, p, env.stuck, env.now);
            && Tree(swept) && swept.Keys <= fs.Keys
            && (forall q :: !(p <= q) ==> LeafKept(fs, swept, q))
            && (!StuckBelow(fs, p, env.stuck) ==> NothingBelow(swept, p))
  {
    RemoveAllFrame(fs, p, env.stuck, env.now);
    hide RemoveAll;
  }

  /** After n candidates: the slot of every evicted one is gone from the disk,
      and every file that none of the removals reached is there unchanged. */
  lemma {:induction false} DiskAt(env: Limits, s: Sweep, order: seq<Entry>, n: nat)
    requires Starts(s, order) && n <= |order| && Tree(s.fs)
    requires forall k :: k in s.entries ==> ValidKey(k)
    ensures var t := At(env, s, order, n);
            && Tree(t.fs) && t.fs.Keys <= s.fs.Keys
            && (forall i :: 0 <= i < n && VerdictAt(env, s, order, i) == Evicted ==> NothingBelow(t.fs, Split(order[i].rel)))
            && (forall q :: (forall i :: 0 <= i < n ==> !HitBy(env, s, order, i, q)) ==> LeafKept(s.fs, t.fs, q))
  {
    hide Modified, RemoveAll, Visits, Tree, Total, VerdictAt, StuckBelow, NothingBelow, LeafKept, Split;
    if n > 0 {
      DiskAt(env, s, order, n - 1);
      AtNext(env, s, order, n - 1);
      VerdictIs(env, s, order, n - 1);
      var t, e := At(env, s, order, n - 1), order[n - 1];
      ValidKeyPath(e.rel);
      RemovalAt(t.fs, Split(e.rel), env);
      var u := At(env, s, order, n);
      assert u.fs.Keys <= t.fs.Keys;
      forall i | 0 <= i < n && VerdictAt(env, s, order, i) == Evicted
        ensures NothingBelow(u.fs, Split(order[i].rel))
      {
        if i < n - 1 { NothingBelowShrinks(t.fs, u.fs, Split(order[i].rel)); }
      }
      forall q | forall i :: 0 <= i < n ==> !HitBy(env, s, order, i, q) ensures LeafKept(s.fs, u.fs, q) {
        assert !HitBy(env, s, order, n - 1, q);
        LeafKeptTrans(s.fs, t.fs, u.fs, q);
      }
    } else {
      VisitsNone(env, s);
      assert order[..0] == [];
      forall q ensures LeafKept(s.fs, s.fs, q) { LeafKeptTrans(s.fs, s.fs, s.fs, q); }
    }
  }

  lemma NothingBelowShrinks(a: FS, b: FS, p: Path)
    ensures NothingBelow(a, p) && b.Keys <= a.Keys ==> NothingBelow(b, p)
  {
  }

  lemma LeafKeptTrans(a: FS, b: FS, c: FS, q: Path)
    ensures LeafKept(a, a, q)
    ensures LeafKept(a, b, q) && LeafKept(b, c, q) ==> LeafKept(a, c, q)
    ensures b == c && LeafKept(a, b, q) ==> LeafKept(a, c, q)
  {
  }

  /** The recorded sizes of the entries dropped so far because their slots were
      already gone from disk; the running total still counts them. */
  ghost function GoneBytes(env: Limits, s: Sweep, order: seq<Entry>, n: nat): int
    requires n <= |order|
  {
    if n == 0 then 0
    else GoneBytes(env, s, order, n - 1) + (if VerdictAt(env, s, order, n - 1) == Gone then order[n - 1].size else 0)
  }

  /** The running total is the index total plus what was already gone. */
  lemma {:induction false} GapIsGone(env: Limits, s: Sweep, order: seq<Entry>, n: nat)
    requires Starts(s, order) && n <= |order|
    ensures At(env, s, order, n).total == Total(At(env, s, order, n).entries) + GoneBytes(env, s, order, n)
    ensures GoneBytes(env, s, order, n) >= 0
  {
    hide Judge, RemoveAll, Visits, Total, VerdictAt, Names;
    if n > 0 {
      GapIsGone(env, s, order, n - 1);
      ListedAt(env, s, order, n - 1);
      AtNext(env, s, order, n - 1);
      VerdictIs(env, s, order, n - 1);
      TotalTake(At(env, s, order, n - 1).entries, order[n - 1].rel);
    } else {
      VisitsNone(env, s);
      assert order[..0] == [];
    }
  }

  /** No greedier than needed: an entry within its TTL goes only while the
      running total, which is the index total plus what was found gone, is still
      above the cap. */
  lemma NoGreedierThanNeeded(env: Limits, s: Sweep, order: seq<Entry>, i: nat)
    requires Starts(s, order) && i < |order| && VerdictAt(env, s, order, i) == Evicted
    ensures Expired(env, order[i]) ||
            env.maxBytes < At(env, s, order, i).total
                        == Total(At(env, s, order, i).entries) + GoneBytes(env, s, order, i)
  {
    hide Judge, VerdictAt, Visits, Total;
    FreshIff(env, s, order, i);
    GapIsGone(env, s, order, i);
  }

  /** Of the entries within their TTL that nothing else protects, one is evicted
      although the index already fits the cap exactly when the cap lies below
      the index total plus what was found gone. */
  lemma EvictsUnderCapIff(env: Limits, s: Sweep, order: seq<Entry>, i: nat)
    requires Starts(s, order) && i < |order|
    requires !Expired(env, order[i]) && Evictable(env, At(env, s, order, i).fs, order[i])
    ensures var t := At(env, s, order, i);
            (VerdictAt(env, s, order, i) == Evicted && Total(t.entries) <= env.maxBytes
             <==> Total(t.entries) <= env.maxBytes < Total(t.entries) + GoneBytes(env, s, order, i))
  {
    hide Visits, Total, Modified, StuckBelow, RemoveAll;
    FreshIff(env, s, order, i);
    GapIsGone(env, s, order, i);
  }

  function Pair(a: Entry, b: Entry): Entries
  {
    map[a.rel := a, b.rel := b]
  }

  lemma PairTotal(a: Entry, b: Entry)
    requires a.rel != b.rel
    ensures Total(Pair(a, b)) == a.size + b.size && Total(Pair(a, b) - {a.rel}) == b.size
  {
    var m := Pair(a, b);
    TotalTake(m, a.rel);
    TotalTake(m - {a.rel}, b.rel);
    assert m - {a.rel} - {b.rel} == map[];
  }

  lemma PairStarts(fs: FS, a: Entry, b: Entry)
    requires a.rel != b.rel && a.lastUsed <= b.lastUsed && a.size >= 0 && b.size >= 0
    ensures Starts(Sweep(fs, Pair(a, b), a.size + b.size, [], [], 0), [a, b])
  {
    hide Total;
    PairTotal(a, b);
    var order := [a, b];
    assert order[0].rel == a.rel && order[1].rel == b.rel;
    assert Names(order, a.rel) && Names(order, b.rel);
  }

  /** It happens: the older of two entries is gone from disk, and the younger
      one, which alone fits the cap, is evicted. */
  lemma GoneEntryEvictsAnother(env: Limits, fs: FS, a: Entry, b: Entry)
    requires a.rel != b.rel && a.lastUsed <= b.lastUsed && a.size >= 0 && b.size >= 0
    requires HostLabel(a.rel) !in env.pinned && Split(a.rel) !in fs
    requires !Expired(env, b) && Evictable(env, fs, b)
    requires b.size <= env.maxBytes < a.size + b.size
    ensures var s, order := Sweep(fs, Pair(a, b), a.size + b.size, [], [], 0), [a, b];
            && Starts(s, order) && VerdictAt(env, s, order, 1) == Evicted
            && Total(At(env, s, order, 1).entries) <= env.maxBytes
  {
    hide Total, Modified, StuckBelow, RemoveAll, Starts, Visits, Split;
    var s, order := Sweep(fs, Pair(a, b), a.size + b.size, [], [], 0), [a, b];
    PairStarts(fs, a, b);
    PairTotal(a, b);
    VisitsNone(env, s);
    assert order[..0] == [];
    AtNext(env, s, order, 0);
  }

  /** A mirror with such a pair. */
  lemma SuchAPair() returns (env: Limits, fs: FS, a: Entry, b: Entry)
    ensures Tree(fs) && a.rel != b.rel && a.lastUsed <= b.lastUsed && a.size >= 0 && b.size >= 0
    ensures HostLabel(a.rel) !in env.pinned && Split(a.rel) !in fs
    ensures !Expired(env, b) && Evictable(env, fs, b)
    ensures b.size <= env.maxBytes < a.size + b.size
  {
    SplitJoin(["h", "a"]);
    SplitJoin(["h", "b"]);
    a := Entry(Join(["h", "a"]), false, 3, 0, 0, 0);
    b := Entry(Join(["h", "b"]), false, 2, 1, 1, 1);
    fs := map[[] := Dir(0), ["h"] := Dir(0), ["h", "b"] := File([7, 7], 1, false)];
    assert Seated(fs, ["h"]) && Seated(fs, ["h", "b"]);
    env := Limits(2, 10, 4, {}, {}, {});
  }

  /** The eviction pass leaves a pinned label every entry and every disk node. */
  lemma PinnedIsUntouched(env: Limits, s: Sweep, order: seq<Entry>)
    requires Starts(s, order) && Tree(s.fs)
    requires forall k :: k in s.entries ==> ValidKey(k)
    ensures var end := Visits(env, s, order);
            && (forall q: Path :: q != [] && q[0] in env.pinned ==> Same(s.fs, end.fs, q))
            && (forall k :: k in s.entries && HostLabel(k) in env.pinned ==> k in end.entries)
  {
    hide Modified, StuckBelow, RemoveAll, Visits, Tree, Same, Total, VerdictAt;
    assert order[..|order|] == order;
    PinnedDisk(env, s, order, |order|);
    ListedAt(env, s, order, |order|);
    forall k | k in s.entries && HostLabel(k) in env.pinned
      ensures k in Visits(env, s, order).entries
    {
      assert Names(order, k);
      var i :| 0 <= i < |order| && order[i].rel == k;
      VerdictIs(env, s, order, i);
    }
  }

  lemma {:induction false} PinnedDisk(env: Limits, s: Sweep, order: seq<Entry>, n: nat)
    requires Starts(s, order) && n <= |order| && Tree(s.fs)
    requires forall k :: k in s.entries ==> ValidKey(k)
    ensures var t := At(env, s, order, n);
            Tree(t.fs) && forall q: Path :: q != [] && q[0] in env.pinned ==> Same(s.fs, t.fs, q)
  {
    hide Modified, StuckBelow, RemoveAll, Visits, Tree, Same, Total;
    if n > 0 {
      PinnedDisk(env, s, order, n - 1);
      AtNext(env, s, order, n - 1);
      var t, e := At(env, s, order, n - 1), order[n - 1];
      ValidKeyPath(e.rel);
      RemovalStaysUnderLabel(t.fs, Split(e.rel), env);
      var swept := RemoveAll(t.fs, Split(e.rel), env.stuck, env.now);
      if HostLabel(e.rel) !in env.pinned {
        forall q: Path | q != [] && q[0] in env.pinned ensures Same(s.fs, swept, q) {
          SameTrans(s.fs, t.fs, swept, q);
        }
      }
    } else {
      VisitsNone(env, s);
      assert order[..0] == [];
      forall q: Path ensures Same(s.fs, s.fs, q) { SameRefl(s.fs, q); }
    }
  }

  lemma RemovalStaysUnderLabel(fs: FS, p: Path, env: Limits)
    requires Tree(fs) && |p| >= 2
    ensures var swept := RemoveAll(fs, p, env.stuck, env.now);
            && Tree(swept)
            && forall q: Path :: q != [] && q[0] != p[0] ==> Same(fs, swept, q)
  {
    RemoveAllFrame(fs, p, env.stuck, env.now);
    var swept := RemoveAll(fs, p, env.stuck, env.now);
    hide RemoveAll;
    forall q: Path | q != [] && q[0] != p[0] ensures Same(fs, swept, q) {
      RemoveAllAt(fs, p, env.stuck, env.now, q);
    }
  }
}
