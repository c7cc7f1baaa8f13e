// The disk below the mirror root: a finite map from component paths to nodes,
// with a logical clock. Operations move the mtime of every directory that
// gains or loses an entry, as a POSIX file system does. A removal may meet
// nodes that it cannot unlink, and leaves them in the directories above them;
// MkdirAll fails where something on the way is not a directory. The byte total
// of a subtree is a sum over its nodes, its newest mtime a maximum.

module FileSystem {
  import opened Basics
  import opened Paths

  /** Nanoseconds since Go's zero time. */
  type Time = nat

  datatype Node =
    | File(bytes: seq<byte>, mtime: Time, exec: bool)
    | Dir(mtime: Time)
    | Other(mtime: Time)

  type FS = map<Path, Node>

  const STAGING: Path := [".staging"]

  function Parent(p: Path): Path
    requires p != []
  {
    p[..|p| - 1]
  }

  ghost predicate Seated(fs: FS, p: Path)
  {
    p != [] ==> Parent(p) in fs && fs[Parent(p)].Dir?
  }

  /** Every node but the root sits in a directory. */
  ghost predicate Tree(fs: FS)
  {
    && [] in fs && fs[[]].Dir?
    && forall p {:trigger Seated(fs, p)} :: p in fs ==> Seated(fs, p)
  }

  lemma {:induction false} TreePrefix(fs: FS, p: Path, q: Path)
    requires Tree(fs) && q in fs && p <= q
    ensures p in fs && (p != q ==> fs[p].Dir?)
    decreases |q|
  {
    if p != q {
      assert Seated(fs, q);
      assert p <= Parent(q);
      TreePrefix(fs, p, Parent(q));
    }
  }

  // ------------------------------------------------------------- operations

  predicate LosesChild(fs: FS, keep: set<Path>, q: Path)
  {
    exists c :: c in fs && c !in keep && c != [] && Parent(c) == q
  }

  /** Unlinks every node outside keep. */
  function Restrict(fs: FS, keep: set<Path>, now: Time): (r: FS)
    ensures r.Keys == fs.Keys * keep
    ensures forall q :: q in r && !fs[q].Dir? ==> r[q] == fs[q]
    ensures forall q :: q in r && fs[q].Dir? ==> r[q].Dir?
    ensures forall q :: q in r && r[q] != fs[q] ==> LosesChild(fs, keep, q)
  {
    map q | q in fs && q in keep :: if fs[q].Dir? && LosesChild(fs, keep, q) then Dir(now) else fs[q]
  }

  /** Whether a node that cannot be unlinked holds q in place. */
  predicate Held(fs: FS, stuck: set<Path>, q: Path)
  {
    exists s :: s in stuck && s in fs && q <= s
  }

  function Survivors(fs: FS, p: Path, stuck: set<Path>): set<Path>
  {
    set q | q in fs && (p <= q ==> Held(fs, stuck, q))
  }

  /** os.RemoveAll: unlinks what it can at and below p; it succeeds when no
      node there is stuck. */
  function RemoveAll(fs: FS, p: Path, stuck: set<Path>, now: Time): FS
  {
    Restrict(fs, Survivors(fs, p, stuck), now)
  }

  function Prefixes(p: Path): set<Path>
  {
    set k | 0 <= k <= |p| :: p[..k]
  }

  lemma PrefixesAre(p: Path)
    ensures forall q :: q in Prefixes(p) <==> q <= p
  {
    forall q ensures q in Prefixes(p) <==> q <= p {
      if q <= p { assert q == p[..|q|]; }
    }
  }

  predicate Blocked(fs: FS, p: Path)
  {
    exists k :: 0 <= k <= |p| && p[..k] in fs && !fs[p[..k]].Dir?
  }

  function MkdirNode(fs: FS, p: Path, now: Time, q: Path): Node
    requires q in fs || q in Prefixes(p)
  {
    if q !in fs || (q < p && p[..|q| + 1] !in fs) then Dir(now) else fs[q]
  }

  /** os.MkdirAll: fails, creating nothing, when a prefix of p is not a directory. */
  function MkdirAll(fs: FS, p: Path, now: Time): Option<FS>
  {
    if Blocked(fs, p) then None
    else Some(map q | q in fs.Keys + Prefixes(p) :: MkdirNode(fs, p, now, q))
  }

  /** What MkdirAll changes: missing prefixes of p appear as directories, and
      only directories above p see their mtime move. */
  lemma MkdirAllAdds(fs: FS, p: Path, now: Time)
    requires Tree(fs) && MkdirAll(fs, p, now).Some?
    ensures var r := MkdirAll(fs, p, now).value;
            && Tree(r) && p in r && r[p].Dir?
            && (forall q :: q in r <==> q in fs || q <= p)
            && (forall q :: q in fs && !(q < p) ==> r[q] == fs[q])
            && (forall q :: q in fs && q < p ==> fs[q].Dir? && r[q].Dir?)
            && (forall q :: q in r && q !in fs ==> r[q].Dir?)
  {
    PrefixesAre(p);
    var r := MkdirAll(fs, p, now).value;
    forall q | q <= p ensures q in fs ==> fs[q].Dir? {
      assert q == p[..|q|];
    }
    assert r[p].Dir? by { assert p <= p; }
    forall q | q in r ensures Seated(r, q) {
      assert q in fs ==> Seated(fs, q);
      assert q <= p && q != [] ==> Parent(q) <= p;
    }
  }

  function RenameKeys(fs: FS, src: Path, dst: Path): set<Path>
  {
    (set q | q in fs && src <= q :: dst + q[|src|..]) + (set q | q in fs && !(src <= q))
  }

  function RenameNode(fs: FS, src: Path, dst: Path, now: Time, q: Path): Node
    requires src != [] && dst != []
    requires dst <= q ==> src + q[|dst|..] in fs
    requires !(dst <= q) ==> q in fs
  {
    if dst <= q then fs[src + q[|dst|..]]
    else if fs[q].Dir? && (q == Parent(src) || q == Parent(dst)) then Dir(now)
    else fs[q]
  }

  /** When a rename onto a free name in an existing directory is possible. */
  ghost predicate CanRename(fs: FS, src: Path, dst: Path)
  {
    && Tree(fs) && src != [] && dst != [] && src in fs && dst !in fs
    && Parent(dst) in fs && fs[Parent(dst)].Dir? && !(src <= dst)
  }

  /** The two disks have the same node, or none, at q. */
  ghost predicate Same(fs1: FS, fs2: FS, q: Path)
  {
    (q in fs1 <==> q in fs2) && (q in fs1 ==> fs1[q] == fs2[q])
  }

  /** The two disks are identical at and below p. */
  ghost predicate AgreeAt(fs1: FS, fs2: FS, p: Path)
  {
    forall q :: p <= q ==> Same(fs1, fs2, q)
  }

  lemma RenameDomain(fs: FS, src: Path, dst: Path)
    requires CanRename(fs, src, dst)
    ensures !(dst <= src)
    ensures forall q :: q in RenameKeys(fs, src, dst) <==>
                        if dst <= q then src + q[|dst|..] in fs else q in fs && !(src <= q)
  {
    if dst <= src { TreePrefix(fs, dst, src); }
    forall q
      ensures q in RenameKeys(fs, src, dst) <==>
              if dst <= q then src + q[|dst|..] in fs else q in fs && !(src <= q)
    {
      if dst <= q {
        var o := src + q[|dst|..];
        assert o[|src|..] == q[|dst|..];
        assert dst + o[|src|..] == q;
        if q in fs { TreePrefix(fs, dst, q); }
        if q in RenameKeys(fs, src, dst) {
          var x :| x in fs && src <= x && q == dst + x[|src|..];
          assert x == src + q[|dst|..];
        }
      }
    }
  }

  /** os.Rename of a file or a whole subtree. */
  function Rename(fs: FS, src: Path, dst: Path, now: Time): FS
    requires CanRename(fs, src, dst)
  {
    RenameDomain(fs, src, dst);
    map q | q in RenameKeys(fs, src, dst) :: RenameNode(fs, src, dst, now, q)
  }

  lemma RenameKeepsTree(fs: FS, src: Path, dst: Path, now: Time)
    requires CanRename(fs, src, dst)
    ensures Tree(Rename(fs, src, dst, now))
  {
    RenameDomain(fs, src, dst);
    var r := Rename(fs, src, dst, now);
    forall p | p in r ensures Seated(r, p) {
      assert p in fs ==> Seated(fs, p);
      if dst < p {
        var o := src + p[|dst|..];
        assert Seated(fs, o);
        assert dst <= Parent(p);
        assert src + Parent(p)[|dst|..] == Parent(o);
      } else if p == dst {
        assert !(dst <= Parent(dst));
        assert !(src <= Parent(dst));
      } else if p != [] {
        assert !(src <= Parent(p)) && !(dst <= Parent(p));
      }
    }
  }

  // -------------------------------------------------------------- subtrees

  /** The subtree at p1 of one disk is the subtree at p2 of another, node for node. */
  ghost predicate SameTree(fs1: FS, p1: Path, fs2: FS, p2: Path)
  {
    forall r: Path ::
      && (p1 + r in fs1 <==> p2 + r in fs2)
      && (p1 + r in fs1 ==> fs1[p1 + r] == fs2[p2 + r])
  }

  lemma SameTreeTrans(fs1: FS, p1: Path, fs2: FS, p2: Path, fs3: FS, p3: Path)
    requires SameTree(fs1, p1, fs2, p2) && SameTree(fs2, p2, fs3, p3)
    ensures SameTree(fs1, p1, fs3, p3)
  {
    forall r: Path
      ensures (p1 + r in fs1 <==> p3 + r in fs3) && (p1 + r in fs1 ==> fs1[p1 + r] == fs3[p3 + r])
    {
      assert p1 + r in fs1 <==> p2 + r in fs2;
    }
  }

  lemma SameRefl(fs: FS, q: Path)
    ensures Same(fs, fs, q)
  {
  }

  lemma SameTrans(a: FS, b: FS, c: FS, q: Path)
    ensures Same(a, b, q) && Same(b, c, q) ==> Same(a, c, q)
  {
  }

  lemma AgreeIsSameTree(fs1: FS, fs2: FS, p: Path)
    ensures AgreeAt(fs1, fs2, p) <==> SameTree(fs1, p, fs2, p)
  {
    if SameTree(fs1, p, fs2, p) {
      forall q | p <= q ensures Same(fs1, fs2, q) {
        assert q == p + q[|p|..];
      }
    }
    if AgreeAt(fs1, fs2, p) {
      assert forall r: Path :: Same(fs1, fs2, p + r);
    }
  }

  lemma AgreeTrans(fs1: FS, fs2: FS, fs3: FS, p: Path)
    requires AgreeAt(fs1, fs2, p) && AgreeAt(fs2, fs3, p)
    ensures AgreeAt(fs1, fs3, p) && SameTree(fs1, p, fs3, p)
  {
    forall q | p <= q ensures Same(fs1, fs3, q) {
      assert Same(fs1, fs2, q) && Same(fs2, fs3, q);
    }
    AgreeIsSameTree(fs1, fs3, p);
  }

  /** A rename carries the whole subtree across. */
  lemma RenameMoves(fs: FS, src: Path, dst: Path, now: Time)
    requires CanRename(fs, src, dst)
    ensures SameTree(Rename(fs, src, dst, now), dst, fs, src)
  {
    RenameDomain(fs, src, dst);
    var r := Rename(fs, src, dst, now);
    forall t: Path
      ensures (dst + t in r <==> src + t in fs) && (dst + t in r ==> r[dst + t] == fs[src + t])
    {
      assert (dst + t)[|dst|..] == t;
    }
  }

  /** Away from the two names a rename changes nothing but the mtimes of the
      two directories involved. */
  lemma RenameFrame(fs: FS, src: Path, dst: Path, now: Time)
    requires CanRename(fs, src, dst)
    ensures var r := Rename(fs, src, dst, now);
            && (forall q :: !(src <= q) && !(dst <= q) ==> (q in r <==> q in fs))
            && (forall q :: q in fs && !(src <= q) && !(dst <= q) ==>
                  r[q] == fs[q] || (fs[q].Dir? && r[q] == Dir(now) && (q == Parent(src) || q == Parent(dst))))
            && (forall q :: src <= q ==> q !in r)
  {
    RenameDomain(fs, src, dst);
    var r := Rename(fs, src, dst, now);
  }

  /** One node under a rename. */
  lemma RenameAt(fs: FS, src: Path, dst: Path, now: Time, q: Path)
    requires CanRename(fs, src, dst) && !(src <= q) && !(dst <= q)
    ensures var r := Rename(fs, src, dst, now);
            Same(fs, r, q) || (q in fs && q in r && fs[q].Dir? && r[q].Dir? && (q == Parent(src) || q == Parent(dst)))
  {
    RenameFrame(fs, src, dst, now);
  }

  /** One node under a removal. */
  lemma RemoveAllAt(fs: FS, p: Path, stuck: set<Path>, now: Time, q: Path)
    requires Tree(fs) && p != [] && !(p <= q)
    ensures var r := RemoveAll(fs, p, stuck, now);
            Same(fs, r, q) || (q in fs && q in r && fs[q].Dir? && r[q].Dir? && q == Parent(p))
  {
    RemoveAllFrame(fs, p, stuck, now);
  }

  /** One node under a MkdirAll. */
  lemma MkdirAllAt(fs: FS, p: Path, now: Time, q: Path)
    requires Tree(fs) && MkdirAll(fs, p, now).Some?
    ensures var r := MkdirAll(fs, p, now).value;
            Same(fs, r, q) || (q <= p && q in r && r[q].Dir? && (q in fs ==> fs[q].Dir?))
  {
    MkdirAllAdds(fs, p, now);
  }

  lemma RestrictTree(fs: FS, keep: set<Path>, now: Time)
    requires Tree(fs) && [] in keep
    requires forall q :: q in keep && q in fs && q != [] ==> Parent(q) in keep
    ensures Tree(Restrict(fs, keep, now))
  {
    var r := Restrict(fs, keep, now);
    forall q | q in r ensures Seated(r, q) {
      assert Seated(fs, q);
    }
  }

  lemma RemoveAllFrame(fs: FS, p: Path, stuck: set<Path>, now: Time)
    requires Tree(fs) && p != []
    ensures var r := RemoveAll(fs, p, stuck, now);
            && Tree(r)
            && (forall q :: q in r ==> q in fs)
            && (forall q :: q in fs && !(p <= q) ==> q in r)
            && (forall q :: q in fs && !(p <= q) && q != Parent(p) ==> r[q] == fs[q])
            && (forall q :: q in r ==> if fs[q].Dir? then r[q].Dir? else r[q] == fs[q])
            && ((forall s :: s in stuck && s in fs ==> !(p <= s)) ==> forall q :: p <= q ==> q !in r)
  {
    var keep := Survivors(fs, p, stuck);
    forall q | q in keep && q in fs && q != [] ensures Parent(q) in keep {
      assert Seated(fs, q);
      if p <= Parent(q) {
        assert p <= q;
        var s :| s in stuck && s in fs && q <= s;
        assert Parent(q) <= s;
      }
    }
    RestrictTree(fs, keep, now);
    var r := RemoveAll(fs, p, stuck, now);
    assert forall c :: c in fs && c !in keep && c != [] ==> p == c || p <= Parent(c);
  }

  // ------------------------------------------------------------ byte totals

  function SizeAt(fs: FS, p: Path): nat
  {
    if p in fs && fs[p].File? then |fs[p].bytes| else 0
  }

  ghost function Sum(fs: FS, s: set<Path>): nat
  {
    if s == {} then 0
    else
      var p :| p in s;
      SizeAt(fs, p) + Sum(fs, s - {p})
  }

  lemma {:induction false} SumTake(fs: FS, s: set<Path>, p: Path)
    requires p in s
    ensures Sum(fs, s) == SizeAt(fs, p) + Sum(fs, s - {p})
    decreases s
  {
    var c :| c in s && Sum(fs, s) == SizeAt(fs, c) + Sum(fs, s - {c});
    if c != p {
      SumTake(fs, s - {c}, p);
      SumTake(fs, s - {p}, c);
      assert s - {c} - {p} == s - {p} - {c};
    }
  }

  lemma {:induction false} SumUnion(fs: FS, a: set<Path>, b: set<Path>)
    requires a !! b
    ensures Sum(fs, a + b) == Sum(fs, a) + Sum(fs, b)
    decreases a
  {
    if a == {} {
      assert a + b == b;
    } else {
      var p :| p in a;
      SumTake(fs, a, p);
      SumTake(fs, a + b, p);
      assert a + b - {p} == (a - {p}) + b;
      SumUnion(fs, a - {p}, b);
    }
  }

  lemma {:induction false} SumAgrees(fs1: FS, fs2: FS, s: set<Path>)
    requires forall p :: p in s ==> SizeAt(fs1, p) == SizeAt(fs2, p)
    ensures Sum(fs1, s) == Sum(fs2, s)
    decreases s
  {
    if s != {} {
      var p :| p in s;
      SumTake(fs1, s, p);
      SumTake(fs2, s, p);
      SumAgrees(fs1, fs2, s - {p});
    }
  }

  lemma {:induction false} SumZero(fs: FS, s: set<Path>)
    requires forall p :: p in s ==> SizeAt(fs, p) == 0
    ensures Sum(fs, s) == 0
    decreases s
  {
    if s != {} {
      var p :| p in s;
      SumTake(fs, s, p);
      SumZero(fs, s - {p});
    }
  }

  function Below(fs: FS, p: Path): set<Path>
  {
    set q | q in fs && p <= q
  }

  /** Bytes of the regular files at and below p. */
  ghost function TreeBytes(fs: FS, p: Path): nat
  {
    Sum(fs, Below(fs, p))
  }

  /** TreeBytes depends only on the files at and below p. */
  lemma TreeBytesFrame(fs1: FS, fs2: FS, p: Path)
    requires forall q :: p <= q ==> SizeAt(fs1, q) == SizeAt(fs2, q)
    ensures TreeBytes(fs1, p) == TreeBytes(fs2, p)
  {
    var a, b := Below(fs1, p), Below(fs2, p);
    SumUnion(fs1, a * b, a - b);
    SumUnion(fs2, a * b, b - a);
    assert a == a * b + (a - b) && b == a * b + (b - a);
    SumZero(fs1, a - b);
    SumZero(fs2, b - a);
    SumAgrees(fs1, fs2, a * b);
  }

  lemma {:induction false} SumShrinks(fs1: FS, fs2: FS, s: set<Path>)
    requires forall p :: p in s ==> SizeAt(fs1, p) <= SizeAt(fs2, p)
    ensures Sum(fs1, s) <= Sum(fs2, s)
    decreases s
  {
    if s != {} {
      var p :| p in s;
      SumTake(fs1, s, p);
      SumTake(fs2, s, p);
      SumShrinks(fs1, fs2, s - {p});
    }
  }

  lemma TreeBytesShrink(fs1: FS, fs2: FS, p: Path)
    requires forall q :: p <= q ==> SizeAt(fs1, q) <= SizeAt(fs2, q)
    ensures TreeBytes(fs1, p) <= TreeBytes(fs2, p)
  {
    var a, b := Below(fs1, p), Below(fs2, p);
    SumUnion(fs1, a * b, a - b);
    SumUnion(fs2, a * b, b - a);
    assert a == a * b + (a - b) && b == a * b + (b - a);
    SumZero(fs1, a - b);
    SumShrinks(fs1, fs2, a * b);
  }

  lemma SumShrinksStrictly(fs1: FS, fs2: FS, s: set<Path>, q: Path)
    requires forall p :: p in s ==> SizeAt(fs1, p) <= SizeAt(fs2, p)
    requires q in s && SizeAt(fs1, q) < SizeAt(fs2, q)
    ensures Sum(fs1, s) < Sum(fs2, s)
  {
    SumTake(fs1, s, q);
    SumTake(fs2, s, q);
    SumShrinks(fs1, fs2, s - {q});
  }

  /** There is a non-empty file at or below p that a removal can unlink. */
  ghost predicate HasLooseBytes(fs: FS, p: Path, stuck: set<Path>)
  {
    exists q :: LooseAt(fs, p, stuck, q)
  }

  predicate LooseAt(fs: FS, p: Path, stuck: set<Path>, q: Path)
  {
    q in fs && p <= q && fs[q].File? && fs[q].bytes != [] && q !in stuck
  }

  /** Which files a removal leaves: those it cannot unlink. */
  lemma RemovedSize(fs: FS, p: Path, stuck: set<Path>, now: Time, q: Path)
    requires Tree(fs) && p <= q
    ensures SizeAt(RemoveAll(fs, p, stuck, now), q) == if q in stuck then SizeAt(fs, q) else 0
  {
    if q in fs && fs[q].File? {
      forall s | s in stuck && s in fs && q <= s ensures s == q {
        TreePrefix(fs, q, s);
      }
      assert Held(fs, stuck, q) <==> q in stuck;
    }
  }

  /** A removal takes bytes exactly when there is a non-empty file to unlink. */
  lemma RemovalLosesBytesIff(fs: FS, p: Path, stuck: set<Path>, now: Time)
    requires Tree(fs)
    ensures TreeBytes(RemoveAll(fs, p, stuck, now), p) != TreeBytes(fs, p) <==> HasLooseBytes(fs, p, stuck)
  {
    hide Sum, Tree;
    var r := RemoveAll(fs, p, stuck, now);
    var all, left := Below(fs, p), Below(r, p);
    assert left <= all;
    forall q | q in all ensures SizeAt(r, q) == if q in stuck then SizeAt(fs, q) else 0 {
      RemovedSize(fs, p, stuck, now, q);
    }
    hide RemoveAll;
    SumUnion(r, left, all - left);
    SumZero(r, all - left);
    assert left + (all - left) == all;
    if q :| LooseAt(fs, p, stuck, q) {
      SumShrinksStrictly(r, fs, all, q);
    } else {
      forall q | q in all ensures SizeAt(r, q) == SizeAt(fs, q) {
        assert !LooseAt(fs, p, stuck, q);
      }
      SumAgrees(r, fs, all);
    }
  }

  // ----------------------------------------------------------- newest mtime

  function MTimeAt(fs: FS, p: Path): Time
  {
    if p in fs then fs[p].mtime else 0
  }

  ghost function Newest(fs: FS, s: set<Path>): Time
  {
    if s == {} then 0
    else
      var p :| p in s;
      var rest := Newest(fs, s - {p});
      if MTimeAt(fs, p) > rest then MTimeAt(fs, p) else rest
  }

  lemma {:induction false} NewestBounds(fs: FS, s: set<Path>)
    ensures forall p :: p in s ==> MTimeAt(fs, p) <= Newest(fs, s)
    ensures Newest(fs, s) == 0 || exists p :: p in s && MTimeAt(fs, p) == Newest(fs, s)
    decreases s
  {
    if s != {} {
      var p :| p in s && Newest(fs, s) == var rest := Newest(fs, s - {p});
                                         if MTimeAt(fs, p) > rest then MTimeAt(fs, p) else rest;
      NewestBounds(fs, s - {p});
    }
  }

  ghost function TreeNewest(fs: FS, p: Path): Time
  {
    Newest(fs, Below(fs, p))
  }
}
