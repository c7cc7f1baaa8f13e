// The sync index of internal/index/index.go: one entry per mirrored path, and
// the modified-since-sync test. Entries are keyed by string, as in the source;
// the path of an entry on disk is Split(key).

module SyncIndex {
  import opened Paths
  import opened FileSystem

  /** The 2 s granularity slop of the modified test. */
  const SLOP: Time := 2_000_000_000

  /** What Stat reports as the size of something that is not a regular file. */
  const NON_FILE_SIZE: nat := 4096

  datatype Entry = Entry(rel: string, dir: bool, size: int, syncMod: Time, lastSync: Time, lastUsed: Time)

  type Entries = map<string, Entry>

  // ------------------------------------------------------------ fingerprints

  function StatSize(n: Node): nat
  {
    if n.File? then |n.bytes| else NON_FILE_SIZE
  }

  /** The tree or file at p diverged from what e recorded. */
  ghost predicate Modified(fs: FS, e: Entry, p: Path)
  {
    p in fs &&
    if e.dir
    then TreeBytes(fs, p) != e.size || TreeNewest(fs, p) > e.syncMod + SLOP
    else fs[p].mtime > e.syncMod + SLOP || StatSize(fs[p]) != e.size
  }

  /** No node at or below root is one that cannot be read. */
  ghost predicate Readable(fs: FS, root: Path, unreadable: set<Path>)
  {
    forall q :: q in Below(fs, root) ==> q !in unreadable
  }

  /** Walks the tree at root; fails when it is missing or when anything in it
      cannot be read. The result does not depend on the visiting order. */
  method DirFingerprint(fs: FS, root: Path, unreadable: set<Path>) returns (ok: bool, size: int, latest: Time)
    ensures ok <==> root in fs && Readable(fs, root, unreadable)
    ensures ok ==> size == TreeBytes(fs, root) && latest == TreeNewest(fs, root)
  {
    ok, size, latest := root in fs, 0, 0;
    if !ok { return; }
    var todo := Below(fs, root);
    ghost var seen: set<Path> := {};
    NewestBounds(fs, seen);
    while todo != {}
      invariant ok && todo + seen == Below(fs, root) && todo !! seen && seen !! unreadable
      invariant size == Sum(fs, seen)
      invariant forall p :: p in seen ==> MTimeAt(fs, p) <= latest
      invariant latest == 0 || exists p :: p in seen && MTimeAt(fs, p) == latest
      decreases todo
    {
      var p :| p in todo;
      if p in unreadable {
        return false, size, latest;
      }
      if fs[p].mtime > latest {
        latest := fs[p].mtime;
        assert MTimeAt(fs, p) == latest;
      }
      if fs[p].File? {
        size := size + |fs[p].bytes|;
      }
      todo := todo - {p};
      SumTake(fs, seen + {p}, p);
      assert seen + {p} - {p} == seen;
      seen := seen + {p};
    }
    assert seen == Below(fs, root);
    NewestBounds(fs, seen);
  }

  /** A directory that cannot be read through, and a file that cannot be read,
      count as unmodified. */
  method LocallyModified(fs: FS, e: Entry, p: Path, unreadable: set<Path>) returns (modified: bool)
    ensures modified <==> Modified(fs, e, p) && if e.dir then Readable(fs, p, unreadable) else p !in unreadable
  {
    if e.dir {
      var ok, size, latest := DirFingerprint(fs, p, unreadable);
      if !ok {
        return false;
      }
      if size != e.size {
        return true;
      }
      return latest > e.syncMod + SLOP;
    }
    if p !in fs || p in unreadable {
      return false;
    }
    if fs[p].mtime > e.syncMod + SLOP {
      return true;
    }
    return StatSize(fs[p]) != e.size;
  }

  // ------------------------------------------------------------- total bytes

  ghost function Total(m: Entries): int
  {
    if m == map[] then 0
    else
      var k :| k in m;
      m[k].size + Total(m - {k})
  }

  lemma {:induction false} TotalTake(m: Entries, k: string)
    requires k in m
    ensures Total(m) == m[k].size + Total(m - {k})
    decreases |m|
  {
    var c :| c in m && Total(m) == m[c].size + Total(m - {c});
    if c != k {
      TotalTake(m - {c}, k);
      TotalTake(m - {k}, c);
      assert m - {c} - {k} == m - {k} - {c};
    }
  }

  lemma {:induction false} TotalNonNegative(m: Entries)
    requires forall k :: k in m ==> m[k].size >= 0
    ensures Total(m) >= 0
    decreases |m|
  {
    if m != map[] {
      var k :| k in m;
      TotalTake(m, k);
      TotalNonNegative(m - {k});
    }
  }

  // ------------------------------------------------------------------- shape

  ghost predicate Keyed(m: Entries)
  {
    forall k :: k in m ==> m[k].rel == k
  }

  /** order names every entry of m once. */
  ghost predicate Lists(order: seq<Entry>, m: Entries)
  {
    && (forall i :: 0 <= i < |order| ==> order[i].rel in m && m[order[i].rel] == order[i])
    && (forall k :: k in m ==> Names(order, k))
    && (forall i, j :: 0 <= i < j < |order| ==> order[i].rel != order[j].rel)
  }

  ghost predicate Names(order: seq<Entry>, k: string)
  {
    exists i :: 0 <= i < |order| && order[i].rel == k
  }

  /** out is order with e put in at i. */
  ghost predicate Inserted(order: seq<Entry>, i: nat, e: Entry, out: seq<Entry>)
  {
    && i <= |order| && |out| == |order| + 1
    && forall j {:trigger out[j]} :: 0 <= j < |out| ==> out[j] == if j < i then order[j] else if j == i then e else order[j - 1]
  }

  lemma InsertNames(order: seq<Entry>, i: nat, e: Entry, out: seq<Entry>, k: string)
    requires Inserted(order, i, e, out)
    ensures k == e.rel || Names(order, k) ==> Names(out, k)
  {
    if k == e.rel {
      assert out[i].rel == k;
    } else if Names(order, k) {
      var j :| 0 <= j < |order| && order[j].rel == k;
      assert out[if j < i then j else j + 1].rel == k;
    }
  }

  lemma ListsInsert(order: seq<Entry>, m: Entries, i: nat, e: Entry, out: seq<Entry>)
    requires Lists(order, m) && e.rel !in m && Inserted(order, i, e, out)
    ensures Lists(out, m[e.rel := e])
  {
    forall k | k in m[e.rel := e] ensures Names(out, k) {
      InsertNames(order, i, e, out, k);
    }
    hide Names;
  }

  ghost predicate OldestFirst(order: seq<Entry>)
  {
    forall i, j :: 0 <= i < j < |order| ==> order[i].lastUsed <= order[j].lastUsed
  }

  function AtOrBelow(m: Entries, prefix: string): Entries
  {
    map k | k in m && (k == prefix || HasPrefix(k, prefix + "/")) :: m[k]
  }

  function NotStrictlyBelow(m: Entries, prefix: string): Entries
  {
    map k | k in m && !HasPrefix(k, prefix + "/") :: m[k]
  }

  function WithoutAncestorDirs(m: Entries, rel: string): Entries
  {
    map k | k in m && !(m[k].dir && HasPrefix(rel, k + "/")) :: m[k]
  }

  /** The index part of Promote: drop what the new slot supersedes, then record. */
  function Synced(m: Entries, rel: string, dir: bool, size: int, syncMod: Time, now: Time): Entries
  {
    (if dir then NotStrictlyBelow(m, rel) else WithoutAncestorDirs(m, rel))
    [rel := Entry(rel, dir, size, syncMod, now, now)]
  }

  function Touched(m: Entries, rel: string, now: Time): Entries
  {
    if rel in m then m[rel := m[rel].(lastUsed := now)] else m
  }

  /** String-prefix Descendants are the entries inside the subtree. */
  lemma DescendantsAreSubtree(m: Entries, prefix: string, k: string)
    requires k in m
    ensures k in AtOrBelow(m, prefix) <==> Split(prefix) <= Split(k)
  {
    PrefixIsStrictlyBelow(k, prefix);
    if Split(prefix) == Split(k) {
      SplitInjective(prefix, k);
    }
  }

  /** Every key is a labelled path, and no directory entry has a file entry
      strictly below it. */
  ghost predicate Shaped(m: Entries)
  {
    && Keyed(m)
    && (forall k :: k in m ==> ValidKey(k))
    && (forall d, f :: d in m && f in m && m[d].dir && !m[f].dir ==> !(Split(d) < Split(f)))
  }

  lemma SyncedKeepsShape(m: Entries, rel: string, dir: bool, size: int, syncMod: Time, now: Time)
    requires Shaped(m) && ValidKey(rel)
    ensures Shaped(Synced(m, rel, dir, size, syncMod, now))
  {
    var r := Synced(m, rel, dir, size, syncMod, now);
    forall d, f | d in r && f in r && r[d].dir && !r[f].dir
      ensures !(Split(d) < Split(f))
    {
      PrefixIsStrictlyBelow(f, d);
    }
  }

  // ---------------------------------------------------------------- last use

  /** A re-open moves the last use of an existing entry to now and nothing else. */
  lemma TouchMovesLastUse(m: Entries, rel: string, now: Time)
    ensures var r := Touched(m, rel, now);
            && r.Keys == m.Keys
            && (forall k :: k in m && k != rel ==> r[k] == m[k])
            && (rel in m ==>
                  && r[rel].lastUsed == now && r[rel].lastSync == m[rel].lastSync && r[rel].syncMod == m[rel].syncMod
                  && r[rel].size == m[rel].size && r[rel].dir == m[rel].dir && r[rel].rel == m[rel].rel)
  {
  }

  /** What a sync leaves in the index: the new entry, synced and used now; of the
      others it drops exactly those the new copy supersedes and changes none. */
  lemma SyncReplaces(m: Entries, rel: string, dir: bool, size: int, syncMod: Time, now: Time, k: string)
    ensures var r := Synced(m, rel, dir, size, syncMod, now);
            if k == rel then
              && k in r && r[k].rel == rel && r[k].dir == dir && r[k].size == size
              && r[k].syncMod == syncMod && r[k].lastSync == now && r[k].lastUsed == now
            else
              && (k in r <==> k in m && !(if dir then Split(rel) < Split(k) else m[k].dir && Split(k) < Split(rel)))
              && (k in r ==> r[k] == m[k])
  {
    PrefixIsStrictlyBelow(k, rel);
    PrefixIsStrictlyBelow(rel, k);
  }

  /** The entry used after all others is the last candidate. */
  lemma LastUsedIsListedLast(order: seq<Entry>, m: Entries, k: string)
    requires Lists(order, m) && OldestFirst(order) && k in m
    requires forall j :: j in m && j != k ==> m[j].lastUsed < m[k].lastUsed
    ensures order != [] && order[|order| - 1] == m[k]
  {
    assert Names(order, k);
    var i :| 0 <= i < |order| && order[i].rel == k;
    var last := order[|order| - 1];
    assert last.rel in m && m[last.rel] == last;
    assert order[i].lastUsed <= last.lastUsed;
  }

  /** Touching moves an entry to the end of the candidates. */
  lemma TouchedIsListedLast(order: seq<Entry>, m: Entries, rel: string, now: Time)
    requires Keyed(m) && rel in m && forall j :: j in m ==> m[j].lastUsed < now
    requires Lists(order, Touched(m, rel, now)) && OldestFirst(order)
    ensures order != [] && order[|order| - 1].rel == rel && order[|order| - 1].lastUsed == now
  {
    TouchMovesLastUse(m, rel, now);
    LastUsedIsListedLast(order, Touched(m, rel, now), rel);
  }

  lemma TouchedKeepsShape(m: Entries, rel: string, now: Time)
    ensures Shaped(m) ==> Shaped(Touched(m, rel, now))
  {
  }

  lemma EvictionKeepsShape(m: Entries, left: Entries)
    ensures Shaped(m) && (forall k :: k in left ==> k in m && left[k] == m[k]) ==> Shaped(left)
  {
  }

  /** What requests, re-opens and eviction do to the index. The label and path
      of a sync are the request's; the key is what Rel makes of them. */
  datatype IndexOp =
    | Sync(hostLabel: string, remotePath: string, dir: bool, size: int, syncMod: Time)
    | Touch(touched: string)
    | Drop(dropped: string)

  function Apply(m: Entries, op: IndexOp, now: Time): Entries
  {
    match op
    case Sync(l, p, dir, size, syncMod) =>
      if ValidLabel(l) && Rel(l, p).Ok? then Synced(m, Rel(l, p).name, dir, size, syncMod, now) else m
    case Touch(rel) => Touched(m, rel, now)
    case Drop(rel) => m - {rel}
  }

  function ApplyAll(m: Entries, ops: seq<IndexOp>, now: Time): Entries
    decreases |ops|
  {
    if ops == [] then m else ApplyAll(Apply(m, ops[0], now), ops[1..], now + 1)
  }

  lemma {:induction false} ShapeOverRuns(m: Entries, ops: seq<IndexOp>, now: Time)
    requires Shaped(m)
    ensures Shaped(ApplyAll(m, ops, now))
    decreases |ops|
  {
    if ops != [] {
      var op := ops[0];
      if op.Sync? && ValidLabel(op.hostLabel) {
        RelIsLabelledWalk(op.hostLabel, op.remotePath);
        if Rel(op.hostLabel, op.remotePath).Ok? {
          SyncedKeepsShape(m, Rel(op.hostLabel, op.remotePath).name, op.dir, op.size, op.syncMod, now);
        }
      }
      ShapeOverRuns(Apply(m, op, now), ops[1..], now + 1);
    }
  }

  /** Any reachable index: shape, and the label of a key is its first component. */
  lemma ReachableIndexIsShaped(ops: seq<IndexOp>, now: Time)
    ensures Shaped(ApplyAll(map[], ops, now))
  {
    ShapeOverRuns(map[], ops, now);
  }

  // -------------------------------------------------------------- antichains

  /** No entry lies inside another. */
  ghost predicate Antichain(m: Entries)
  {
    forall a, b :: a in m && b in m && Split(a) <= Split(b) ==> a == b
  }

  /** Recording a directory keeps an antichain exactly when no entry lies above
      it: only what lies below is dropped. */
  lemma DirSyncKeepsAntichainIff(m: Entries, rel: string, size: int, syncMod: Time, now: Time)
    requires Antichain(m)
    ensures Antichain(Synced(m, rel, true, size, syncMod, now)) <==> forall k :: k in m ==> !(Split(k) < Split(rel))
  {
    var r := Synced(m, rel, true, size, syncMod, now);
    forall k | k in m ensures k in r <==> k == rel || !(Split(rel) < Split(k)) {
      PrefixIsStrictlyBelow(k, rel);
    }
    SyncedAntichainIff(m, r, rel);
  }

  /** Recording a file keeps an antichain exactly when no file entry lies above
      it and no entry at all below: only directories above are dropped. */
  lemma FileSyncKeepsAntichainIff(m: Entries, rel: string, size: int, syncMod: Time, now: Time)
    requires Antichain(m)
    ensures Antichain(Synced(m, rel, false, size, syncMod, now)) <==>
            forall k :: k in m ==> !(Split(rel) < Split(k)) && (Split(k) < Split(rel) ==> m[k].dir)
  {
    var r := Synced(m, rel, false, size, syncMod, now);
    forall k | k in m ensures k in r <==> k == rel || !(m[k].dir && Split(k) < Split(rel)) {
      PrefixIsStrictlyBelow(rel, k);
    }
    SyncedAntichainIff(m, r, rel);
  }

  /** r is rel and some entries of an antichain. */
  lemma SyncedAntichainIff(m: Entries, r: Entries, rel: string)
    requires Antichain(m) && rel in r && forall k :: k in r && k != rel ==> k in m
    ensures Antichain(r) <==> forall k :: k in r ==> !(Split(k) < Split(rel)) && !(Split(rel) < Split(k))
  {
    forall a, b | a in r && b in r && Split(a) <= Split(b)
      ensures a == b || a == rel || b == rel
      ensures Split(a) == Split(b) ==> a == b
    {
      if Split(a) == Split(b) { SplitInjective(a, b); }
    }
  }

  lemma KeyOf(hostLabel: string, rest: Path)
    requires ValidLabel(hostLabel) && rest != [] && AllPlain(rest)
    requires forall c <- rest :: '\0' !in c && '\\' !in c
    ensures Rel(hostLabel, "/" + Join(rest)).Ok?
    ensures Split(Rel(hostLabel, "/" + Join(rest)).name) == [hostLabel] + rest
  {
    var path := "/" + Join(rest);
    assert TrimSlash(path) == Join(rest);
    SplitJoin(rest);
    PlainWalk([], rest);
    RenderFirst(false, rest);
    JoinLacks(rest, '\0');
    JoinLacks(rest, '\\');
    RelIsLabelledWalk(hostLabel, path);
    assert [] + rest == rest;
  }

  /** Opening a directory and then a directory inside it leaves both entries. */
  lemma NestedDirsCoexist(now: Time) returns (ops: seq<IndexOp>)
    ensures |ops| == 2 && !Antichain(ApplyAll(map[], ops, now))
  {
    var p, q: Path := ["a"], ["a", "b"];
    KeyOf("h", p);
    KeyOf("h", q);
    var outer, inner := "/" + Join(p), "/" + Join(q);
    var k, l := Rel("h", outer).name, Rel("h", inner).name;
    ops := [Sync("h", outer, true, 0, 0), Sync("h", inner, true, 0, 0)];
    var first := Apply(map[], ops[0], now);
    var second := Apply(first, ops[1], now + 1);
    assert ops[1..] == [ops[1]] && ops[1..][1..] == [];
    assert ApplyAll(map[], ops, now) == ApplyAll(first, ops[1..], now + 1) == ApplyAll(second, [], now + 2) == second;
    assert Split(k) == ["h", "a"] && Split(l) == ["h", "a", "b"];
    assert Split(k) < Split(l);
    PrefixIsStrictlyBelow(k, l);
    assert k in second && l in second;
  }

  // ----------------------------------------------------------------- the class

  class Index {
    var entries: Entries

    ghost predicate Valid()
      reads this
    {
      Keyed(entries)
    }

    constructor ()
      ensures Valid() && entries == map[]
    {
      entries := map[];
    }

    method Record(rel: string, dir: bool, size: int, syncMod: Time, now: Time)
      requires Valid()
      modifies this
      ensures Valid()
      ensures entries == old(entries)[rel := Entry(rel, dir, size, syncMod, now, now)]
    {
      entries := entries[rel := Entry(rel, dir, size, syncMod, now, now)];
    }

    method Touch(rel: string, now: Time)
      requires Valid()
      modifies this
      ensures Valid() && entries == Touched(old(entries), rel, now)
      ensures entries.Keys == old(entries).Keys
      ensures rel in entries ==> entries[rel] == old(entries)[rel].(lastUsed := now)
      ensures forall k :: k in entries && k != rel ==> entries[k] == old(entries)[k]
    {
      if rel in entries {
        entries := entries[rel := entries[rel].(lastUsed := now)];
      }
    }

    method Delete(rel: string)
      requires Valid()
      modifies this
      ensures Valid() && entries == old(entries) - {rel}
    {
      entries := entries - {rel};
    }

    method Descendants(prefix: string) returns (out: seq<Entry>)
      requires Valid()
      ensures Lists(out, AtOrBelow(entries, prefix))
    {
      out := [];
      var todo := entries.Keys;
      while todo != {}
        invariant todo <= entries.Keys
        invariant Lists(out, AtOrBelow(entries - todo, prefix))
        decreases todo
      {
        var rel :| rel in todo;
        ghost var before := AtOrBelow(entries - todo, prefix);
        if rel == prefix || HasPrefix(rel, prefix + "/") {
          ListsInsert(out, before, |out|, entries[rel], out + [entries[rel]]);
          out := out + [entries[rel]];
          assert AtOrBelow(entries - (todo - {rel}), prefix) == before[rel := entries[rel]];
        } else {
          assert AtOrBelow(entries - (todo - {rel}), prefix) == before;
        }
        todo := todo - {rel};
      }
      assert entries - todo == entries;
    }

    method DeleteDescendantsOf(prefix: string)
      requires Valid()
      modifies this
      ensures Valid() && entries == NotStrictlyBelow(old(entries), prefix)
    {
      var todo := entries.Keys;
      while todo != {}
        invariant todo <= old(entries).Keys
        invariant entries == map k | k in old(entries) && (k in todo || !HasPrefix(k, prefix + "/")) :: old(entries)[k]
        decreases todo
      {
        var rel :| rel in todo;
        if HasPrefix(rel, prefix + "/") {
          entries := entries - {rel};
        }
        todo := todo - {rel};
      }
    }

    method DeleteAncestorDirsOf(rel: string)
      requires Valid()
      modifies this
      ensures Valid() && entries == WithoutAncestorDirs(old(entries), rel)
    {
      var todo := entries.Keys;
      while todo != {}
        invariant todo <= old(entries).Keys
        invariant entries == map k | k in old(entries) && (k in todo || !(old(entries)[k].dir && HasPrefix(rel, k + "/")))
                             :: old(entries)[k]
        decreases todo
      {
        var r :| r in todo;
        if entries[r].dir && HasPrefix(rel, r + "/") {
          entries := entries - {r};
        }
        todo := todo - {r};
      }
    }

    /** Every entry once, least recently used first; ties in any order. */
    method Candidates() returns (out: seq<Entry>)
      requires Valid()
      ensures Lists(out, entries) && OldestFirst(out)
    {
      out := [];
      var todo := entries.Keys;
      while todo != {}
        invariant todo <= entries.Keys
        invariant Lists(out, entries - todo) && OldestFirst(out)
        decreases todo
      {
        var rel :| rel in todo;
        out := InsertByLastUsed(out, entries[rel], entries - todo);
        todo := todo - {rel};
        assert entries - todo == (entries - (todo + {rel}))[rel := entries[rel]];
      }
      assert entries - todo == entries;
    }

    method TotalBytes() returns (t: int)
      requires Valid()
      ensures t == Total(entries)
    {
      t := 0;
      var todo := entries.Keys;
      while todo != {}
        invariant todo <= entries.Keys
        invariant t == Total(entries - todo)
        decreases todo
      {
        var rel :| rel in todo;
        t := t + entries[rel].size;
        TotalTake(entries - (todo - {rel}), rel);
        assert entries - (todo - {rel}) - {rel} == entries - todo;
        todo := todo - {rel};
      }
      assert entries - todo == entries;
    }
  }

  lemma OrderInsert(order: seq<Entry>, i: nat, e: Entry, out: seq<Entry>)
    requires OldestFirst(order) && Inserted(order, i, e, out)
    requires forall j :: 0 <= j < i ==> order[j].lastUsed <= e.lastUsed
    requires i < |order| ==> e.lastUsed < order[i].lastUsed
    ensures OldestFirst(out)
  {
  }

  /** Places one more entry in an ordered listing. */
  method InsertByLastUsed(order: seq<Entry>, e: Entry, ghost m: Entries) returns (out: seq<Entry>)
    requires Lists(order, m) && OldestFirst(order) && e.rel !in m
    ensures Lists(out, m[e.rel := e]) && OldestFirst(out)
  {
    var i := 0;
    while i < |order| && order[i].lastUsed <= e.lastUsed
      invariant 0 <= i <= |order|
      invariant forall j :: 0 <= j < i ==> order[j].lastUsed <= e.lastUsed
    {
      i := i + 1;
    }
    out := order[..i] + [e] + order[i..];
    ListsInsert(order, m, i, e, out);
    OrderInsert(order, i, e, out);
  }
}
