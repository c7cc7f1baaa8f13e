// internal/tarstream/tarstream.go: Pack and Unpack over an archive taken as a
// list of members. What a tar reader makes of hostile bytes is a free choice of
// members: any name, any declared size, any data, a clean or a broken end.

module TarStream {
  import opened Basics
  import opened Paths
  import opened FileSystem

  datatype Kind = TypeDir | TypeReg | Special

  /** data is what the reader delivers for the member. When that is less than
      size, fault tells a read error from io.EOF. */
  datatype Member = Member(name: string, kind: Kind, size: int, data: seq<byte>, fault: bool, exec: bool)

  datatype Archive = Archive(members: seq<Member>, clean: bool)

  datatype UnpackError =
    | NoError
    | BrokenArchive
    | TooManyEntries
    | BadName(error: NameError)
    | MkdirFailed
    | OverBudget
    | OpenFailed
    | CopyFailed

  datatype Unpacking = Unpacking(fs: FS, remaining: int, entries: nat, skipped: nat, err: UnpackError)

  /** Where the operating system goes for an absolute name. */
  function PathOf(name: string): Path
  {
    Reduce(true, [], Split(name))
  }

  function DirOf(p: Path): Path
  {
    if p == [] then [] else Parent(p)
  }

  /** Creates p with O_EXCL: its parent is a directory and p is free. */
  function Create(fs: FS, p: Path, bytes: seq<byte>, exec: bool, now: Time): FS
    requires p != []
  {
    fs[Parent(p) := Dir(now)][p := File(bytes, now, exec)]
  }

  // ----------------------------------------------------------------- unpack

  /** io.CopyN of the declared size. */
  function Delivered(m: Member): seq<byte>
    requires m.size >= 0
  {
    if |m.data| < m.size then m.data else m.data[..m.size]
  }

  function ExtractFile(st: Unpacking, m: Member, target: Path, now: Time): Unpacking
  {
    if m.size < 0 || m.size > st.remaining then st.(err := OverBudget)
    else
      match MkdirAll(st.fs, DirOf(target), now)
      case None => st.(err := MkdirFailed)
      case Some(fs) =>
        if target == [] || target in fs then st.(fs := fs, err := OpenFailed)
        else
          var got := Delivered(m);
          var written := Create(fs, target, got, m.exec, now);
          if |got| < m.size && m.fault then st.(fs := written, err := CopyFailed)
          else st.(fs := written, remaining := st.remaining - |got|)
  }

  function ExtractAt(st: Unpacking, m: Member, target: Path, now: Time): Unpacking
  {
    match m.kind
    case TypeDir =>
      (match MkdirAll(st.fs, target, now)
       case None => st.(err := MkdirFailed)
       case Some(fs) => st.(fs := fs))
    case TypeReg => ExtractFile(st, m, target, now)
    case Special => st.(skipped := st.skipped + 1)
  }

  /** The body of the loop. */
  function Extract(st: Unpacking, dest: Path, m: Member, maxEntries: nat, now: Time): Unpacking
  {
    var next := st.(entries := st.entries + 1);
    if next.entries > maxEntries then next.(err := TooManyEntries)
    else
      match SafeJoin(Render(true, dest), m.name)
      case Err(error) => next.(err := BadName(error))
      case Ok(name) => ExtractAt(next, m, PathOf(name), now)
  }

  function ExtractAll(st: Unpacking, dest: Path, ms: seq<Member>, maxEntries: nat, now: Time): Unpacking
    decreases |ms|
  {
    if ms == [] || st.err != NoError then st
    else ExtractAll(Extract(st, dest, ms[0], maxEntries, now), dest, ms[1..], maxEntries, now)
  }

  function Unpacked(fs: FS, dest: Path, a: Archive, maxBytes: int, maxEntries: nat, now: Time): Unpacking
  {
    match MkdirAll(fs, dest, now)
    case None => Unpacking(fs, maxBytes, 0, 0, MkdirFailed)
    case Some(made) =>
      var end := ExtractAll(Unpacking(made, maxBytes, 0, 0, NoError), dest, a.members, maxEntries, now);
      if end.err == NoError && !a.clean then end.(err := BrokenArchive) else end
  }

  class Disk {
    var fs: FS

    constructor (nodes: FS)
      ensures fs == nodes
    {
      fs := nodes;
    }

    method MakeAll(p: Path, now: Time) returns (ok: bool)
      modifies this
      ensures ok <==> MkdirAll(old(fs), p, now).Some?
      ensures fs == if ok then MkdirAll(old(fs), p, now).value else old(fs)
    {
      var r := MkdirAll(fs, p, now);
      ok := r.Some?;
      if ok {
        fs := r.value;
      }
    }

    method Unpack(dest: Path, a: Archive, maxBytes: int, maxEntries: nat, now: Time)
      returns (skipped: nat, err: UnpackError)
      modifies this
      ensures var r := Unpacked(old(fs), dest, a, maxBytes, maxEntries, now);
              fs == r.fs && skipped == r.skipped && err == r.err
    {
      hide MkdirAll, SafeJoin, PathOf;
      skipped := 0;
      var ok := MakeAll(dest, now);
      if !ok {
        return skipped, MkdirFailed;
      }
      var remaining, entries, i := maxBytes, 0, 0;
      ghost var first := Unpacking(fs, maxBytes, 0, 0, NoError);
      while i < |a.members|
        invariant 0 <= i <= |a.members|
        invariant ExtractAll(Unpacking(fs, remaining, entries, skipped, NoError), dest, a.members[i..], maxEntries, now)
               == ExtractAll(first, dest, a.members, maxEntries, now)
      {
        var m := a.members[i];
        assert a.members[i..][0] == m && a.members[i..][1..] == a.members[i + 1..];
        entries := entries + 1;
        if entries > maxEntries {
          return skipped, TooManyEntries;
        }
        var joined := SafeJoin(Render(true, dest), m.name);
        if joined.Err? {
          return skipped, BadName(joined.error);
        }
        var target := PathOf(joined.name);
        match m.kind {
          case TypeDir =>
            ok := MakeAll(target, now);
            if !ok {
              return skipped, MkdirFailed;
            }
          case TypeReg =>
            if m.size < 0 || m.size > remaining {
              return skipped, OverBudget;
            }
            ok := MakeAll(DirOf(target), now);
            if !ok {
              return skipped, MkdirFailed;
            }
            if target == [] || target in fs {
              return skipped, OpenFailed;
            }
            var got := Delivered(m);
            fs := Create(fs, target, got, m.exec, now);
            if |got| < m.size && m.fault {
              return skipped, CopyFailed;
            }
            remaining := remaining - |got|;
          case Special =>
            skipped := skipped + 1;
        }
        i := i + 1;
      }
      err := if a.clean then NoError else BrokenArchive;
    }
  }

  // ------------------------------------------------- bounds on any archive

  /** What was at q is still there; only a directory's mtime may have moved. */
  ghost predicate Kept(a: FS, b: FS, q: Path)
  {
    q in a ==> q in b && (b[q] == a[q] || (a[q].Dir? && b[q].Dir?))
  }

  ghost predicate AllKept(a: FS, b: FS)
  {
    forall q :: Kept(a, b, q)
  }

  /** A node that appeared at q is a directory on the way to target, or target. */
  ghost predicate NewAt(a: FS, b: FS, dest: Path, target: Path, q: Path)
  {
    q in b && q !in a ==> dest <= q <= target && (b[q].Dir? || (b[q].File? && q == target))
  }

  /** The effect of one member: at most target and directories on the way. */
  ghost predicate Adds(a: FS, b: FS, dest: Path, target: Path)
  {
    AllKept(a, b) && forall q :: NewAt(a, b, dest, target, q)
  }

  lemma AddedBytes(a: FS, b: FS, dest: Path, target: Path)
    requires Adds(a, b, dest, target) && dest <= target
    ensures TreeBytes(b, dest) == TreeBytes(a, dest) + (if target in a then 0 else SizeAt(b, target))
  {
    var rest := if target in a then b else b - {target};
    forall q | dest <= q ensures SizeAt(a, q) == SizeAt(rest, q) {
      assert Kept(a, b, q) && NewAt(a, b, dest, target, q);
    }
    TreeBytesFrame(a, rest, dest);
    if target !in a && target in b {
      SumTake(b, Below(b, dest), target);
      assert Below(b, dest) - {target} == Below(rest, dest);
      SumAgrees(b, rest, Below(rest, dest));
    } else {
      TreeBytesFrame(rest, b, dest);
    }
  }

  lemma MkdirAdds(fs: FS, dest: Path, p: Path, target: Path, now: Time)
    requires Tree(fs) && dest in fs && p <= target && (dest <= p || p <= dest <= target)
    requires MkdirAll(fs, p, now).Some?
    ensures var r := MkdirAll(fs, p, now).value;
            Tree(r) && p in r && r[p].Dir? && Adds(fs, r, dest, target) && (target !in fs && p != target ==> target !in r)
  {
    var r := MkdirAll(fs, p, now).value;
    MkdirAllAdds(fs, p, now);
    hide MkdirAll;
    forall q ensures Kept(fs, r, q) && NewAt(fs, r, dest, target, q) {
      if q in r && q !in fs && q <= dest {
        TreePrefix(fs, q, dest);
      }
    }
  }

  lemma CreateAdds(fs: FS, dest: Path, target: Path, bytes: seq<byte>, exec: bool, now: Time)
    requires Tree(fs) && target != [] && target !in fs && dest <= target
    requires Parent(target) in fs && fs[Parent(target)].Dir?
    ensures var r := Create(fs, target, bytes, exec, now);
            Tree(r) && Adds(fs, r, dest, target) && target in r && r[target] == File(bytes, now, exec)
  {
    var r := Create(fs, target, bytes, exec, now);
    forall q ensures Kept(fs, r, q) && NewAt(fs, r, dest, target, q) {
    }
    forall q | q in r ensures Seated(r, q) {
      assert q in fs ==> Seated(fs, q);
    }
  }

  lemma AddsTrans(a: FS, b: FS, c: FS, dest: Path, target: Path)
    requires Adds(a, b, dest, target) && Adds(b, c, dest, target)
    ensures Adds(a, c, dest, target)
  {
    forall q ensures Kept(a, c, q) && NewAt(a, c, dest, target, q) {
      assert Kept(a, b, q) && Kept(b, c, q) && NewAt(a, b, dest, target, q) && NewAt(b, c, dest, target, q);
    }
  }

  /** What one member at target may do to the disk and to the budget. */
  ghost predicate Within(st: Unpacking, next: Unpacking, dest: Path, target: Path)
  {
    && Tree(next.fs) && Adds(st.fs, next.fs, dest, target)
    && next.remaining <= st.remaining
    && TreeBytes(next.fs, dest) <= TreeBytes(st.fs, dest) + Left(st)
    && (next.err == NoError ==> TreeBytes(next.fs, dest) + next.remaining == TreeBytes(st.fs, dest) + st.remaining)
  }

  function Left(st: Unpacking): nat
  {
    if st.remaining > 0 then st.remaining else 0
  }

  lemma NothingAdded(fs: FS, dest: Path, target: Path)
    ensures Adds(fs, fs, dest, target)
  {
    assert forall q :: Kept(fs, fs, q) && NewAt(fs, fs, dest, target, q);
  }

  lemma FileIsBounded(st: Unpacking, dest: Path, m: Member, target: Path, now: Time)
    requires Tree(st.fs) && dest in st.fs && dest != [] && dest <= target && st.err == NoError
    ensures Within(st, ExtractFile(st, m, target, now), dest, target)
  {
    NothingAdded(st.fs, dest, target);
    AddedBytes(st.fs, st.fs, dest, target);
    var next := ExtractFile(st, m, target, now);
    var made := MkdirAll(st.fs, Parent(target), now);
    if 0 <= m.size <= st.remaining && made.Some? {
      MkdirAdds(st.fs, dest, Parent(target), target, now);
      AddedBytes(st.fs, made.value, dest, target);
      if target !in made.value {
        CreateAdds(made.value, dest, target, Delivered(m), m.exec, now);
        AddsTrans(st.fs, made.value, next.fs, dest, target);
        AddedBytes(st.fs, next.fs, dest, target);
      } else {
        hide Adds, Tree, MkdirAll, TreeBytes;
        assert TreeBytes(next.fs, dest) == TreeBytes(made.value, dest);
      }
    }
  }

  /** An accepted name is extracted where a walk from dest ends, never above. */
  lemma TargetIsBelow(dest: Path, name: string)
    requires AllPlain(dest)
    ensures var r := SafeJoin(Render(true, dest), name);
            && (r.Ok? <==> Acceptable(name))
            && (r.Ok? ==> PathOf(r.name) == Walk(dest, Split(name)) && dest <= PathOf(r.name))
  {
    SafeJoinIsWalk(true, dest, name);
    if Acceptable(name) {
      var target := Walk(dest, Split(name));
      SplitOfRender(true, target);
      assert [] + target == target;
    }
  }

  lemma AtIsBounded(st: Unpacking, dest: Path, m: Member, target: Path, now: Time)
    requires Tree(st.fs) && dest in st.fs && dest != [] && dest <= target && st.err == NoError
    ensures Within(st, ExtractAt(st, m, target, now), dest, target)
    ensures ExtractAt(st, m, target, now).entries == st.entries
  {
    hide ExtractFile;
    match m.kind
    case TypeDir =>
      hide TreeBytes;
      NothingAdded(st.fs, dest, target);
      if MkdirAll(st.fs, target, now).Some? {
        MkdirAdds(st.fs, dest, target, target, now);
        AddedBytes(st.fs, MkdirAll(st.fs, target, now).value, dest, target);
      }
      hide MkdirAll;
    case TypeReg =>
      FileIsBounded(st, dest, m, target, now);
      EntriesStay(st, m, target, now);
    case Special =>
      hide TreeBytes;
      NothingAdded(st.fs, dest, target);
  }

  lemma EntriesStay(st: Unpacking, m: Member, target: Path, now: Time)
    ensures ExtractFile(st, m, target, now).entries == st.entries
  {
  }

  lemma MemberIsBounded(st: Unpacking, dest: Path, m: Member, maxEntries: nat, now: Time) returns (target: Path)
    requires Tree(st.fs) && dest in st.fs && dest != [] && AllPlain(dest) && st.err == NoError
    ensures var next := Extract(st, dest, m, maxEntries, now);
            && dest <= target && Within(st, next, dest, target) && next.entries == st.entries + 1
            && (st.entries >= maxEntries ==> next.fs == st.fs && next.err != NoError)
  {
    hide SafeJoin, PathOf, ExtractAt, Tree, TreeBytes, Adds, Walk, Acceptable;
    TargetIsBelow(dest, m.name);
    var next := st.(entries := st.entries + 1);
    var r := SafeJoin(Render(true, dest), m.name);
    target := if r.Ok? then PathOf(r.name) else dest;
    NothingAdded(st.fs, dest, target);
    AtIsBounded(next, dest, m, target, now);
  }

  /** q is new: a directory on the way to one of the targets made, or one. */
  ghost predicate MadeAt(a: FS, b: FS, dest: Path, made: set<Path>, q: Path)
  {
    q in b && q !in a ==>
      dest <= q && (b[q].Dir? || (b[q].File? && q in made)) && exists t :: t in made && q <= t
  }

  ghost predicate Made(a: FS, b: FS, dest: Path, made: set<Path>)
  {
    AllKept(a, b) && forall q :: MadeAt(a, b, dest, made, q)
  }

  lemma MadeMore(a: FS, b: FS, c: FS, dest: Path, target: Path, made: set<Path>)
    requires Adds(a, b, dest, target) && Made(b, c, dest, made)
    ensures Made(a, c, dest, made + {target})
    ensures a == b ==> Made(a, c, dest, made)
  {
    forall q ensures Kept(a, c, q) && MadeAt(a, c, dest, made + {target}, q) {
      assert Kept(a, b, q) && Kept(b, c, q) && NewAt(a, b, dest, target, q) && MadeAt(b, c, dest, made, q);
      if q in b && q !in a {
        assert target in made + {target} && q <= target;
      } else if q in c && q !in b {
        var t :| t in made && q <= t;
        assert t in made + {target};
      }
    }
  }

  /** From any point of any archive, however it ends: what is on disk stays, no
      file is written over, so in particular none is written twice; what
      appears is a file or a directory at or below dest, on the way to one of at
      most as many targets as members are left to the cap; and the bytes that
      appear fit the budget that is left. */
  lemma {:induction false} ExtractionIsBounded(st: Unpacking, dest: Path, ms: seq<Member>, maxEntries: nat, now: Time)
    returns (made: set<Path>)
    requires Tree(st.fs) && dest in st.fs && st.fs[dest].Dir? && dest != [] && AllPlain(dest)
    ensures var end := ExtractAll(st, dest, ms, maxEntries, now);
            && Tree(end.fs) && Made(st.fs, end.fs, dest, made)
            && |made| <= (if st.entries < maxEntries then maxEntries - st.entries else 0)
            && TreeBytes(end.fs, dest) <= TreeBytes(st.fs, dest) + Left(st)
    decreases |ms|
  {
    made := {};
    assert Made(st.fs, st.fs, dest, {}) by {
      assert forall q :: Kept(st.fs, st.fs, q) && MadeAt(st.fs, st.fs, dest, {}, q);
    }
    if ms != [] && st.err == NoError {
      var target := MemberIsBounded(st, dest, ms[0], maxEntries, now);
      var next := Extract(st, dest, ms[0], maxEntries, now);
      var end := ExtractAll(st, dest, ms, maxEntries, now);
      assert end == ExtractAll(next, dest, ms[1..], maxEntries, now);
      assert next.err != NoError ==> end == next;
      assert dest in next.fs && next.fs[dest].Dir? by { assert Kept(st.fs, next.fs, dest); }
      hide Extract, ExtractAll, Adds, Made, Tree, TreeBytes;
      made := ExtractionIsBounded(next, dest, ms[1..], maxEntries, now);
      MadeMore(st.fs, next.fs, end.fs, dest, target, made);
      if st.entries < maxEntries {
        made := made + {target};
      }
    }
  }

  /** A new node is a missing directory above dest, or what a member made. */
  ghost predicate UnpackedAt(a: FS, b: FS, dest: Path, made: set<Path>, q: Path)
  {
    Kept(a, b, q) && (q in b && q !in a ==> MadeAt(a, b, dest, made, q) || (q <= dest && b[q].Dir?))
  }

  /** The bounds of Unpack, on every archive and every disk, whatever it returns. */
  lemma UnpackIsBounded(fs: FS, dest: Path, a: Archive, maxBytes: int, maxEntries: nat, now: Time)
    returns (made: set<Path>)
    requires Tree(fs) && dest != [] && AllPlain(dest)
    ensures var end := Unpacked(fs, dest, a, maxBytes, maxEntries, now);
            && Tree(end.fs) && (forall q :: UnpackedAt(fs, end.fs, dest, made, q))
            && |made| <= maxEntries
            && TreeBytes(end.fs, dest) <= TreeBytes(fs, dest) + (if maxBytes > 0 then maxBytes else 0)
  {
    hide ExtractAll, Tree, TreeBytes, Made;
    var r := MkdirAll(fs, dest, now);
    made := {};
    if r.Some? {
      var st := Unpacking(r.value, maxBytes, 0, 0, NoError);
      MkdirAllAdds(fs, dest, now);
      MkdirFree(fs, dest, now);
      hide MkdirAll;
      made := ExtractionIsBounded(st, dest, a.members, maxEntries, now);
      var end := ExtractAll(st, dest, a.members, maxEntries, now);
      forall q ensures UnpackedAt(fs, end.fs, dest, made, q) {
        MadeMeans(r.value, end.fs, dest, made, q);
      }
    }
  }

  lemma MadeMeans(a: FS, b: FS, dest: Path, made: set<Path>, q: Path)
    requires Made(a, b, dest, made)
    ensures Kept(a, b, q) && MadeAt(a, b, dest, made, q)
  {
  }

  lemma MkdirFree(fs: FS, dest: Path, now: Time)
    requires Tree(fs) && MkdirAll(fs, dest, now).Some?
    ensures TreeBytes(MkdirAll(fs, dest, now).value, dest) == TreeBytes(fs, dest)
  {
    MkdirAllAdds(fs, dest, now);
    TreeBytesFrame(MkdirAll(fs, dest, now).value, fs, dest);
  }

  // ------------------------------------------- what success and failure mean

  function Target(dest: Path, m: Member): Path
  {
    Walk(dest, Split(m.name))
  }

  /** m was extracted in full: a directory is there; a file has the first
      m.size bytes of what the archive delivers, or all of it when that is less
      and ends without an error. */
  ghost predicate Extracted(fs: FS, dest: Path, m: Member)
  {
    && Acceptable(m.name)
    && match m.kind
       case TypeDir => Target(dest, m) in fs && fs[Target(dest, m)].Dir?
       case TypeReg =>
         && Target(dest, m) in fs && fs[Target(dest, m)].File? && fs[Target(dest, m)].exec == m.exec
         && var bytes := fs[Target(dest, m)].bytes;
         && bytes <= m.data && 0 <= |bytes| <= m.size
         && (|bytes| < m.size ==> bytes == m.data && !m.fault)
       case Special => true
  }

  function Specials(ms: seq<Member>): nat
  {
    if ms == [] then 0 else (if ms[0].kind.Special? then 1 else 0) + Specials(ms[1..])
  }

  /** The bytes that the regular members take. */
  function Taken(ms: seq<Member>): int
  {
    if ms == [] then 0
    else (if ms[0].kind.TypeReg? then (if |ms[0].data| < ms[0].size then |ms[0].data| else ms[0].size) else 0)
         + Taken(ms[1..])
  }

  lemma OneExtracted(st: Unpacking, dest: Path, m: Member, maxEntries: nat, now: Time)
    requires Tree(st.fs) && dest in st.fs && dest != [] && AllPlain(dest) && st.err == NoError
    requires Extract(st, dest, m, maxEntries, now).err == NoError
    ensures var next := Extract(st, dest, m, maxEntries, now);
            && Extracted(next.fs, dest, m) && next.entries == st.entries + 1 <= maxEntries
            && next.skipped == st.skipped + Specials([m]) && next.remaining == st.remaining - Taken([m])
            && (m.kind.TypeReg? ==> Target(dest, m) !in st.fs)
  {
    hide SafeJoin, PathOf, Walk, Acceptable, AllPlain, Render;
    TargetIsBelow(dest, m.name);
    var target := Target(dest, m);
    match m.kind
    case TypeDir =>
      MkdirAdds(st.fs, dest, target, target, now);
    case TypeReg =>
      var made := MkdirAll(st.fs, DirOf(target), now).value;
      assert target != [];
      MkdirAdds(st.fs, dest, Parent(target), target, now);
      CreateAdds(made, dest, target, Delivered(m), m.exec, now);
      assert Kept(st.fs, made, target);
    case Special =>
  }

  lemma StaysExtracted(a: FS, b: FS, dest: Path, m: Member)
    ensures Extracted(a, dest, m) && AllKept(a, b) ==> Extracted(b, dest, m)
  {
    hide Walk, Acceptable;
    assert AllKept(a, b) ==> Kept(a, b, Target(dest, m));
  }

  lemma {:induction false} AllExtracted(st: Unpacking, dest: Path, ms: seq<Member>, maxEntries: nat, now: Time)
    requires Tree(st.fs) && dest in st.fs && st.fs[dest].Dir? && dest != [] && AllPlain(dest)
    requires ExtractAll(st, dest, ms, maxEntries, now).err == NoError
    ensures var end := ExtractAll(st, dest, ms, maxEntries, now);
            && (forall i :: 0 <= i < |ms| ==> Extracted(end.fs, dest, ms[i]))
            && (ms != [] ==> st.entries + |ms| <= maxEntries)
            && end.skipped == st.skipped + Specials(ms) && end.remaining == st.remaining - Taken(ms)
    decreases |ms|
  {
    hide Extract, Extracted, Tree, TreeBytes;
    if ms != [] {
      var next := Extract(st, dest, ms[0], maxEntries, now);
      var end := ExtractAll(st, dest, ms, maxEntries, now);
      assert end == ExtractAll(next, dest, ms[1..], maxEntries, now);
      OneExtracted(st, dest, ms[0], maxEntries, now);
      var target := MemberIsBounded(st, dest, ms[0], maxEntries, now);
      assert dest in next.fs && next.fs[dest].Dir? by { assert Kept(st.fs, next.fs, dest); }
      AllExtracted(next, dest, ms[1..], maxEntries, now);
      var made := ExtractionIsBounded(next, dest, ms[1..], maxEntries, now);
      StaysExtracted(next.fs, end.fs, dest, ms[0]);
      forall i | 0 <= i < |ms| ensures Extracted(end.fs, dest, ms[i]) {
        if i > 0 { assert ms[i] == ms[1..][i - 1]; }
      }
    }
  }

  /** Unpack returns without an error only from a clean archive within the entry
      cap, every member of which it has extracted in full, with the special ones
      counted as skipped; and the regular ones take at most maxBytes. */
  lemma SuccessIsComplete(fs: FS, dest: Path, a: Archive, maxBytes: int, maxEntries: nat, now: Time)
    requires Tree(fs) && dest != [] && AllPlain(dest)
    requires Unpacked(fs, dest, a, maxBytes, maxEntries, now).err == NoError
    ensures var end := Unpacked(fs, dest, a, maxBytes, maxEntries, now);
            && a.clean && |a.members| <= maxEntries && dest in end.fs && end.fs[dest].Dir?
            && (forall i :: 0 <= i < |a.members| ==> Extracted(end.fs, dest, a.members[i]))
            && end.skipped == Specials(a.members)
            && (Taken(a.members) == 0 || Taken(a.members) <= maxBytes)
  {
    var made := MkdirAll(fs, dest, now).value;
    MkdirAllAdds(fs, dest, now);
    var st := Unpacking(made, maxBytes, 0, 0, NoError);
    hide MkdirAll, Extracted, ExtractAll, Tree, Walk;
    AllExtracted(st, dest, a.members, maxEntries, now);
    BudgetHolds(st, dest, a.members, maxEntries, now);
    var paths := ExtractionIsBounded(st, dest, a.members, maxEntries, now);
    assert Kept(made, ExtractAll(st, dest, a.members, maxEntries, now).fs, dest);
  }

  /** The budget never falls below zero, or below where it started. */
  lemma {:induction false} BudgetHolds(st: Unpacking, dest: Path, ms: seq<Member>, maxEntries: nat, now: Time)
    ensures var end := ExtractAll(st, dest, ms, maxEntries, now);
            end.remaining <= st.remaining && (end.remaining == st.remaining || end.remaining >= 0)
    decreases |ms|
  {
    hide MkdirAll, SafeJoin, PathOf, Create;
    if ms != [] && st.err == NoError {
      BudgetHolds(Extract(st, dest, ms[0], maxEntries, now), dest, ms[1..], maxEntries, now);
    }
  }

  /** How an archive ends shows in the error alone, and only when every member has
      been extracted. */
  lemma BrokenArchiveIff(fs: FS, dest: Path, a: Archive, maxBytes: int, maxEntries: nat, now: Time)
    ensures var whole := Unpacked(fs, dest, a.(clean := true), maxBytes, maxEntries, now);
            var end := Unpacked(fs, dest, a, maxBytes, maxEntries, now);
            && end == whole.(err := end.err)
            && (end.err == BrokenArchive <==> !a.clean && whole.err == NoError)
            && (whole.err != NoError || a.clean ==> end.err == whole.err)
  {
    hide MkdirAll;
    var r := MkdirAll(fs, dest, now);
    if r.Some? {
      NotBroken(Unpacking(r.value, maxBytes, 0, 0, NoError), dest, a.members, maxEntries, now);
    }
  }

  lemma {:induction false} NotBroken(st: Unpacking, dest: Path, ms: seq<Member>, maxEntries: nat, now: Time)
    requires st.err != BrokenArchive
    ensures ExtractAll(st, dest, ms, maxEntries, now).err != BrokenArchive
    decreases |ms|
  {
    hide MkdirAll, SafeJoin, PathOf, Create;
    if ms != [] && st.err == NoError {
      NotBroken(Extract(st, dest, ms[0], maxEntries, now), dest, ms[1..], maxEntries, now);
    }
  }

  /** Why member m, number i of the archive, is refused with what is on disk and
      left of the budget, and what that leaves on disk: nothing new, the
      directories above a target that is taken, or the part that was delivered. */
  ghost predicate Refused(
    fs: FS, left: int, i: nat, dest: Path, m: Member, maxEntries: nat, now: Time, err: UnpackError, after: FS)
  {
    match err
    case TooManyEntries => i >= maxEntries && after == fs
    case BadName(_) => !Acceptable(m.name) && after == fs
    case OverBudget => m.kind.TypeReg? && (m.size < 0 || m.size > left) && after == fs
    case MkdirFailed =>
      && Acceptable(m.name) && after == fs
      && Blocked(fs, if m.kind.TypeReg? then DirOf(Target(dest, m)) else Target(dest, m))
    case OpenFailed =>
      && m.kind.TypeReg? && Acceptable(m.name) && MkdirAll(fs, DirOf(Target(dest, m)), now) == Some(after)
      && (Target(dest, m) in fs || Target(dest, m) <= DirOf(Target(dest, m)))
    case CopyFailed =>
      && m.kind.TypeReg? && |m.data| < m.size && m.fault && Acceptable(m.name)
      && Target(dest, m) !in fs && Target(dest, m) in after && after[Target(dest, m)] == File(m.data, now, m.exec)
    case _ => false
  }

  lemma RefusalHasCause(st: Unpacking, dest: Path, m: Member, maxEntries: nat, now: Time)
    requires st.err == NoError && AllPlain(dest)
    ensures var next := Extract(st, dest, m, maxEntries, now);
            next.err == NoError ||
            Refused(st.fs, st.remaining, st.entries, dest, m, maxEntries, now, next.err, next.fs)
  {
    hide SafeJoin, PathOf, Walk, Acceptable, AllPlain, Render;
    TargetIsBelow(dest, m.name);
    PrefixesAre(DirOf(Target(dest, m)));
  }

  /** An error of Unpack has its cause in the first member that it names; all
      members before that one have been extracted. */
  lemma {:induction false} FailureHasCause(
    st: Unpacking, dest: Path, ms: seq<Member>, maxEntries: nat, now: Time) returns (i: nat)
    requires AllPlain(dest) && st.err == NoError && ExtractAll(st, dest, ms, maxEntries, now).err != NoError
    ensures i < |ms|
    ensures var sofar, end := ExtractAll(st, dest, ms[..i], maxEntries, now), ExtractAll(st, dest, ms, maxEntries, now);
            && sofar.err == NoError
            && Refused(sofar.fs, sofar.remaining, sofar.entries, dest, ms[i], maxEntries, now, end.err, end.fs)
    decreases |ms|
  {
    hide Extract, Refused;
    assert ms != [];
    RefusalHasCause(st, dest, ms[0], maxEntries, now);
    var next := Extract(st, dest, ms[0], maxEntries, now);
    if next.err != NoError {
      i := 0;
      assert ms[..0] == [];
    } else {
      var j := FailureHasCause(next, dest, ms[1..], maxEntries, now);
      i := j + 1;
      assert ms[..i][0] == ms[0] && ms[..i][1..] == ms[1..][..j];
    }
  }

  // ------------------------------------------------------------------- pack

  /** The header and data Pack writes for one node. */
  function PackMember(n: Node, rel: Path): Member
    requires !n.Other?
  {
    match n
    case Dir(_) => Member(Join(rel) + "/", TypeDir, 0, [], false, true)
    case File(bytes, _, exec) => Member(Join(rel), TypeReg, |bytes|, bytes, false, exec)
  }

  function PackNode(fs: FS, dir: Path, p: Path): seq<Member>
    requires p in fs && dir <= p
  {
    if p == dir || fs[p].Other? then [] else [PackMember(fs[p], p[|dir|..])]
  }

  predicate Under(fs: FS, dir: Path, order: seq<Path>)
  {
    forall i :: 0 <= i < |order| ==> order[i] in fs && dir <= order[i]
  }

  function Packed(fs: FS, dir: Path, order: seq<Path>): seq<Member>
    requires Under(fs, dir, order)
  {
    if order == [] then [] else PackNode(fs, dir, order[0]) + Packed(fs, dir, order[1..])
  }

  lemma {:induction false} PackedSnoc(fs: FS, dir: Path, order: seq<Path>, p: Path)
    requires Under(fs, dir, order) && p in fs && dir <= p
    ensures Under(fs, dir, order + [p])
    ensures Packed(fs, dir, order + [p]) == Packed(fs, dir, order) + PackNode(fs, dir, p)
    decreases |order|
  {
    if order != [] {
      assert (order + [p])[1..] == order[1..] + [p];
      PackedSnoc(fs, dir, order[1..], p);
    }
  }

  ghost predicate Distinct(s: seq<Path>)
  {
    forall i, j :: 0 <= i < j < |s| ==> s[i] != s[j]
  }

  function Elements(s: seq<Path>): set<Path>
  {
    set p | p in s
  }

  /** The order in which a walk visits dir and everything below it. */
  ghost predicate Visits(fs: FS, dir: Path, order: seq<Path>)
  {
    Distinct(order) && Elements(order) == Below(fs, dir)
  }

  lemma VisitsUnder(fs: FS, dir: Path, order: seq<Path>)
    requires Visits(fs, dir, order)
    ensures Under(fs, dir, order)
  {
    assert forall i :: 0 <= i < |order| ==> order[i] in Elements(order);
  }

  function NonRegular(fs: FS, s: set<Path>): set<Path>
  {
    set p | p in s && p in fs && fs[p].Other?
  }

  lemma NonRegularMore(fs: FS, order: seq<Path>, i: nat)
    requires Distinct(order) && i < |order| && order[i] in fs
    ensures |NonRegular(fs, Elements(order[..i + 1]))|
         == |NonRegular(fs, Elements(order[..i]))| + (if fs[order[i]].Other? then 1 else 0)
  {
    var p := order[i];
    assert order[..i + 1] == order[..i] + [p];
    assert p !in order[..i];
    var s := NonRegular(fs, Elements(order[..i]));
    assert NonRegular(fs, Elements(order[..i + 1])) == if fs[p].Other? then s + {p} else s;
  }

  /** Pack over a walk in any order: the members, and how many nodes were
      neither directories nor regular files. It stops at the first node that
      cannot be read or that shrinks while it is, with what it has by then. */
  method Pack(fs: FS, dir: Path, order: seq<Path>, failing: set<Path>)
    returns (members: seq<Member>, skipped: nat, ok: bool)
    requires Visits(fs, dir, order) && dir in fs && fs[dir].Dir?
    ensures Under(fs, dir, order) && (ok <==> Below(fs, dir) !! failing)
    ensures ok ==> members == Packed(fs, dir, order) && skipped == |NonRegular(fs, Below(fs, dir))|
    ensures !ok ==> exists i :: 0 <= i < |order| && StopsAt(fs, dir, order, failing, i, members)
  {
    VisitsUnder(fs, dir, order);
    hide NonRegular, Packed, PackMember;
    members, skipped, ok := [], 0, true;
    assert Packed(fs, dir, []) == [] && NonRegular(fs, Elements([])) == {} by { NothingPacked(fs, dir); }
    for i := 0 to |order|
      invariant ok && Under(fs, dir, order[..i]) && members == Packed(fs, dir, order[..i])
      invariant skipped == |NonRegular(fs, Elements(order[..i]))|
      invariant forall j :: 0 <= j < i ==> order[j] !in failing
    {
      var p := order[i];
      assert order[..i + 1] == order[..i] + [p];
      assert p in Elements(order);
      if p in failing {
        assert StopsAt(fs, dir, order, failing, i, members);
        return members, skipped, false;
      }
      PackedSnoc(fs, dir, order[..i], p);
      NonRegularMore(fs, order, i);
      if p == dir {
        continue;
      }
      match fs[p] {
        case Other(_) =>
          skipped := skipped + 1;
        case _ =>
          members := members + [PackMember(fs[p], p[|dir|..])];
      }
    }
    assert order[..|order|] == order;
    assert forall q :: q in Elements(order) ==> q !in failing;
  }

  /** The first failing node of the walk is i, and members are those before it. */
  ghost predicate StopsAt(
    fs: FS, dir: Path, order: seq<Path>, failing: set<Path>, i: nat, members: seq<Member>)
    requires i < |order|
  {
    && order[i] in failing && (forall j :: 0 <= j < i ==> order[j] !in failing)
    && Under(fs, dir, order[..i]) && members == Packed(fs, dir, order[..i])
  }

  lemma NothingPacked(fs: FS, dir: Path)
    ensures Packed(fs, dir, []) == [] && NonRegular(fs, Elements([])) == {}
  {
  }

  // ------------------------------------------------- pack, then unpack

  predicate PortableName(c: string)
  {
    Plain(c) && '\\' !in c && '\0' !in c
  }

  /** Nothing that is packed has a backslash in its name. */
  ghost predicate Portable(fs: FS, dir: Path)
  {
    forall p :: p in fs && dir <= p && !fs[p].Other? ==> PortablePath(p[|dir|..])
  }

  predicate PortablePath(rel: Path)
  {
    forall c <- rel :: PortableName(c)
  }

  /** The names Pack writes lead Unpack to the same place below dest. */
  lemma PackedName(dest: Path, rel: Path, n: Node)
    requires AllPlain(dest) && PortablePath(rel) && rel != [] && !n.Other?
    ensures var r := SafeJoin(Render(true, dest), PackMember(n, rel).name);
            r.Ok? && PathOf(r.name) == dest + rel
  {
    var name, base := PackMember(n, rel).name, Join(rel);
    assert AllPlain(rel) by { assert forall c <- rel :: PortableName(c); }
    JoinLacks(rel, '\\');
    JoinLacks(rel, '\0');
    RenderFirst(false, rel);
    SplitJoin(rel);
    PlainWalk(dest, rel);
    if n.Dir? {
      SplitConcat(base, "");
      assert name == base + "/" + "" && Split("") == [""];
      assert (rel + [""])[..|rel|] == rel;
      StaysInsidePrefix(rel + [""]);
    }
    TargetIsBelow(dest, name);
  }

  /** A packed name is the path below the directory; a slash at its end says that
      the member is a directory. */
  lemma PackedNameSays(rel: Path, n: Node)
    requires AllPlain(rel) && rel != [] && !n.Other?
    ensures var name := PackMember(n, rel).name;
            && name != "" && (name[|name| - 1] == '/' <==> n.Dir?)
            && Split(name) == if n.Dir? then rel + [""] else rel
  {
    SplitJoin(rel);
    RenderFirst(false, rel);
    assert Plain(rel[|rel| - 1]);
    if n.Dir? {
      SplitConcat(Join(rel), "");
      assert (Join(rel) + "/") + "" == Join(rel) + "/";
    } else {
      if Join(rel)[|Join(rel)| - 1] == '/' { LastPiece(Join(rel)); }
    }
  }

  lemma LastPiece(name: string)
    requires name != "" && name[|name| - 1] == '/'
    ensures var cs := Split(name); cs != [] && cs[|cs| - 1] == ""
  {
    var cut := name[..|name| - 1];
    SplitConcat(cut, "");
    assert name == (cut + "/") + "";
  }

  predicate Alike(a: Node, b: Node)
  {
    || (a.Dir? && b.Dir?)
    || (a.File? && b.File? && a.bytes == b.bytes && a.exec == b.exec)
  }

  /** At r below the two directories: the same, less non-regular nodes. */
  ghost predicate RestoredAt(fs: FS, dir: Path, out: FS, dest: Path, r: Path)
  {
    if dir + r in fs && !fs[dir + r].Other? then dest + r in out && Alike(fs[dir + r], out[dest + r])
    else dest + r !in out
  }

  ghost predicate Restored(fs: FS, dir: Path, out: FS, dest: Path)
  {
    forall r: Path :: RestoredAt(fs, dir, out, dest, r)
  }

  /** At r with the nodes in done unpacked: nothing false is there, no file
      before its turn, and what is done is there. */
  ghost predicate PartlyAt(fs: FS, dir: Path, out: FS, dest: Path, done: set<Path>, r: Path)
  {
    && (dest + r in out ==>
          dir + r in fs && Alike(fs[dir + r], out[dest + r]) && (out[dest + r].File? ==> dir + r in done))
    && (dir + r in done && dir + r in fs && !fs[dir + r].Other? ==> dest + r in out)
  }

  ghost predicate Partly(fs: FS, dir: Path, out: FS, dest: Path, done: set<Path>)
  {
    && Tree(fs) && dir in fs && fs[dir].Dir? && Tree(out) && dest in out && out[dest].Dir?
    && forall r: Path :: PartlyAt(fs, dir, out, dest, done, r)
  }

  /** A directory of the source can be made in the copy. */
  lemma MakeCopied(fs: FS, dir: Path, out: FS, dest: Path, done: set<Path>, rel: Path, now: Time)
    requires Partly(fs, dir, out, dest, done) && dir + rel in fs && fs[dir + rel].Dir?
    ensures var r := MkdirAll(out, dest + rel, now);
            r.Some? && Partly(fs, dir, r.value, dest, done) && dest + rel in r.value && r.value[dest + rel].Dir?
            && (forall q :: !(q <= dest + rel) ==> (q in r.value <==> q in out))
  {
    var p := dest + rel;
    forall k | 0 <= k <= |p| && p[..k] in out ensures out[p[..k]].Dir? {
      if k <= |dest| {
        assert p[..k] == dest[..k];
        TreePrefix(out, p[..k], dest);
      } else {
        var t := rel[..k - |dest|];
        assert p[..k] == dest + t;
        assert PartlyAt(fs, dir, out, dest, done, t);
        TreePrefix(fs, dir + t, dir + rel);
      }
    }
    assert !Blocked(out, p);
    var r := MkdirAll(out, p, now).value;
    MkdirAllAdds(out, p, now);
    hide MkdirAll, Blocked;
    forall t: Path ensures PartlyAt(fs, dir, r, dest, done, t) {
      assert PartlyAt(fs, dir, out, dest, done, t);
      if dest + t in r && dest + t !in out {
        assert t <= rel by { assert dest + t <= dest + rel; assert (dest + t)[|dest|..] == t && p[|dest|..] == rel; }
        TreePrefix(fs, dir + t, dir + rel);
      }
    }
  }

  lemma CreateCopied(fs: FS, dir: Path, out: FS, dest: Path, done: set<Path>, rel: Path, now: Time)
    requires Partly(fs, dir, out, dest, done) && rel != [] && dir + rel in fs && fs[dir + rel].File?
    requires dest + rel !in out && dest + Parent(rel) in out && out[dest + Parent(rel)].Dir?
    ensures var n := fs[dir + rel];
            Partly(fs, dir, Create(out, dest + rel, n.bytes, n.exec, now), dest, done + {dir + rel})
  {
    var p, n := dest + rel, fs[dir + rel];
    var r := Create(out, p, n.bytes, n.exec, now);
    assert Parent(p) == dest + Parent(rel);
    CreateAdds(out, dest, p, n.bytes, n.exec, now);
    forall t: Path ensures PartlyAt(fs, dir, r, dest, done + {dir + rel}, t) {
      assert PartlyAt(fs, dir, out, dest, done, t);
      assert dest + t == p <==> t == rel by { assert (dest + t)[|dest|..] == t && p[|dest|..] == rel; }
      assert dir + t == dir + rel <==> t == rel by { assert (dir + t)[|dir|..] == t && (dir + rel)[|dir|..] == rel; }
    }
    assert Kept(out, r, dest);
  }

  lemma FileCopied(st: Unpacking, fs: FS, dir: Path, dest: Path, done: set<Path>, rel: Path, now: Time)
    requires Partly(fs, dir, st.fs, dest, done) && rel != [] && dir + rel in fs && fs[dir + rel].File?
    requires dir + rel !in done && st.err == NoError
    ensures var n := fs[dir + rel];
            var next := ExtractFile(st, PackMember(n, rel), dest + rel, now);
            && (next.err == NoError <==> |n.bytes| <= st.remaining)
            && (next.err == NoError ==>
                  Partly(fs, dir, next.fs, dest, done + {dir + rel})
                  && next == st.(fs := next.fs, remaining := st.remaining - |n.bytes|))
  {
    var n := fs[dir + rel];
    if |n.bytes| <= st.remaining {
      assert Parent(dest + rel) == dest + Parent(rel) && Parent(dir + rel) == dir + Parent(rel);
      assert Seated(fs, dir + rel);
      MakeCopied(fs, dir, st.fs, dest, done, Parent(rel), now);
      var made := MkdirAll(st.fs, dest + Parent(rel), now).value;
      assert PartlyAt(fs, dir, st.fs, dest, done, rel);
      assert dest + rel !in made;
      CreateCopied(fs, dir, made, dest, done, rel, now);
      hide MkdirAll, Partly, Create;
      assert Delivered(PackMember(n, rel)) == n.bytes;
    }
  }

  lemma DirCopied(fs: FS, dir: Path, out: FS, dest: Path, done: set<Path>, rel: Path)
    requires Partly(fs, dir, out, dest, done) && dir + rel in fs
    requires fs[dir + rel].File? ==> dir + rel in done
    requires !fs[dir + rel].Other? ==> dest + rel in out
    ensures Partly(fs, dir, out, dest, done + {dir + rel})
  {
    forall t: Path ensures PartlyAt(fs, dir, out, dest, done + {dir + rel}, t) {
      assert PartlyAt(fs, dir, out, dest, done, t);
      assert dir + t == dir + rel <==> t == rel by { assert (dir + t)[|dir|..] == t && (dir + rel)[|dir|..] == rel; }
    }
  }

  /** One packed member is copied, exactly when the two caps allow it. */
  lemma MemberCopied(st: Unpacking, fs: FS, dir: Path, dest: Path, done: set<Path>, rel: Path, maxEntries: nat, now: Time)
    requires Partly(fs, dir, st.fs, dest, done) && AllPlain(dest) && PortablePath(rel) && rel != []
    requires dir + rel in fs && !fs[dir + rel].Other? && dir + rel !in done
    requires st.err == NoError && st.remaining >= 0
    ensures var next := Extract(st, dest, PackMember(fs[dir + rel], rel), maxEntries, now);
            && (next.err == NoError <==> st.entries < maxEntries && SizeAt(fs, dir + rel) <= st.remaining)
            && (next.err == NoError ==>
                  Partly(fs, dir, next.fs, dest, done + {dir + rel})
                  && next == st.(fs := next.fs, remaining := st.remaining - SizeAt(fs, dir + rel), entries := st.entries + 1))
  {
    hide SafeJoin, PathOf, ExtractFile, Partly, Render;
    var n := fs[dir + rel];
    var next := st.(entries := st.entries + 1);
    PackedName(dest, rel, n);
    match n
    case File(_, _, _) =>
      FileCopied(next, fs, dir, dest, done, rel, now);
    case Dir(_) =>
      MakeCopied(fs, dir, st.fs, dest, done, rel, now);
      DirCopied(fs, dir, MkdirAll(st.fs, dest + rel, now).value, dest, done, rel);
  }

  /** What a walk still has to pack. */
  ghost predicate ToDo(fs: FS, dir: Path, order: seq<Path>, done: set<Path>)
  {
    && Distinct(order) && Under(fs, dir, order)
    && forall i :: 0 <= i < |order| ==> order[i] !in done
  }

  lemma DistinctTail(order: seq<Path>)
    requires Distinct(order) && order != []
    ensures Distinct(order[1..]) && order[0] !in Elements(order[1..])
    ensures Elements(order) == {order[0]} + Elements(order[1..])
  {
    assert order == [order[0]] + order[1..];
  }

  lemma ToDoTail(fs: FS, dir: Path, order: seq<Path>, done: set<Path>)
    requires ToDo(fs, dir, order, done) && order != []
    ensures ToDo(fs, dir, order[1..], done + {order[0]}) && Under(fs, dir, order[1..])
    ensures Sum(fs, Elements(order)) == SizeAt(fs, order[0]) + Sum(fs, Elements(order[1..]))
    ensures Elements(order) == {order[0]} + Elements(order[1..])
  {
    DistinctTail(order);
    SumTake(fs, Elements(order), order[0]);
    assert Elements(order) - {order[0]} == Elements(order[1..]);
  }

  lemma ExtractOne(st: Unpacking, dest: Path, m: Member, rest: seq<Member>, maxEntries: nat, now: Time)
    requires st.err == NoError
    ensures ExtractAll(st, dest, [m] + rest, maxEntries, now)
         == ExtractAll(Extract(st, dest, m, maxEntries, now), dest, rest, maxEntries, now)
    ensures var next := Extract(st, dest, m, maxEntries, now);
            next.err != NoError ==> ExtractAll(next, dest, rest, maxEntries, now) == next
  {
    assert ([m] + rest)[1..] == rest;
  }

  lemma {:induction false} RestIsCopied(
    st: Unpacking, fs: FS, dir: Path, dest: Path, order: seq<Path>, done: set<Path>, maxEntries: nat, now: Time)
    requires ToDo(fs, dir, order, done) && Partly(fs, dir, st.fs, dest, done) && AllPlain(dest)
    requires Under(fs, dir, order) && Portable(fs, dir) && st.err == NoError && st.remaining >= 0 && st.entries <= maxEntries
    ensures var end := ExtractAll(st, dest, Packed(fs, dir, order), maxEntries, now);
            && (end.err == NoError <==>
                  Sum(fs, Elements(order)) <= st.remaining
                  && st.entries + |Packed(fs, dir, order)| <= maxEntries)
            && (end.err == NoError ==>
                  Partly(fs, dir, end.fs, dest, done + Elements(order)) && end.skipped == st.skipped)
    decreases |order|
  {
    hide Extract, Partly, PackMember, ToDo, Portable;
    var ms := Packed(fs, dir, order);
    if order == [] {
      assert Elements(order) == {} && done + {} == done;
    } else {
      var p, rest := order[0], order[1..];
      ToDoTail(fs, dir, order, done);
      assert done + {p} + Elements(rest) == done + Elements(order);
      assert p in fs && dir <= p && p !in done && (!fs[p].Other? ==> PortablePath(p[|dir|..])) by { ToDoHead(fs, dir, order, done); }
      var rel := p[|dir|..];
      assert p == dir + rel;
      if p == dir || fs[p].Other? {
        assert ms == Packed(fs, dir, rest);
        SkipCopied(fs, dir, st.fs, dest, done, rel);
        RestIsCopied(st, fs, dir, dest, rest, done + {p}, maxEntries, now);
      } else {
        MemberCopied(st, fs, dir, dest, done, rel, maxEntries, now);
        ExtractOne(st, dest, PackMember(fs[p], rel), Packed(fs, dir, rest), maxEntries, now);
        var next := Extract(st, dest, PackMember(fs[p], rel), maxEntries, now);
        if next.err == NoError {
          RestIsCopied(next, fs, dir, dest, rest, done + {p}, maxEntries, now);
        }
      }
    }
  }

  lemma ToDoHead(fs: FS, dir: Path, order: seq<Path>, done: set<Path>)
    requires ToDo(fs, dir, order, done) && Portable(fs, dir) && order != []
    ensures var p := order[0];
            p in fs && dir <= p && p !in done && (!fs[p].Other? ==> PortablePath(p[|dir|..]))
  {
  }

  lemma SkipCopied(fs: FS, dir: Path, out: FS, dest: Path, done: set<Path>, rel: Path)
    requires Partly(fs, dir, out, dest, done) && dir + rel in fs && (dir + rel == dir || fs[dir + rel].Other?)
    ensures Partly(fs, dir, out, dest, done + {dir + rel}) && SizeAt(fs, dir + rel) == 0
  {
    assert dir + rel == dir ==> rel == [] by { assert (dir + rel)[|dir|..] == rel; }
    assert dest + [] == dest;
    DirCopied(fs, dir, out, dest, done, rel);
  }

  /** The directories and regular files strictly below dir. */
  function Contents(fs: FS, dir: Path, s: set<Path>): set<Path>
  {
    set p | p in s && p in fs && p != dir && !fs[p].Other?
  }

  lemma ContentsMore(fs: FS, dir: Path, s: set<Path>, p: Path)
    requires p in fs && p !in s
    ensures |Contents(fs, dir, {p} + s)|
         == |Contents(fs, dir, s)| + (if p == dir || fs[p].Other? then 0 else 1)
  {
    var c := Contents(fs, dir, s);
    assert Contents(fs, dir, {p} + s) == if p == dir || fs[p].Other? then c else c + {p};
  }

  lemma {:induction false} PackedCount(fs: FS, dir: Path, order: seq<Path>)
    requires Distinct(order) && Under(fs, dir, order)
    ensures |Packed(fs, dir, order)| == |Contents(fs, dir, Elements(order))|
    decreases |order|
  {
    hide Contents, Elements, PackMember;
    if order == [] {
      assert Contents(fs, dir, Elements(order)) == {} by { NoContents(fs, dir); }
    } else {
      DistinctTail(order);
      PackedCount(fs, dir, order[1..]);
      ContentsMore(fs, dir, Elements(order[1..]), order[0]);
    }
  }

  lemma NoContents(fs: FS, dir: Path)
    ensures Contents(fs, dir, Elements([])) == {}
  {
  }

  lemma {:induction false} BadNameFails(
    st: Unpacking, dest: Path, ms: seq<Member>, i: nat, maxEntries: nat, now: Time)
    requires i < |ms| && SafeJoin(Render(true, dest), ms[i].name).Err?
    ensures ExtractAll(st, dest, ms, maxEntries, now).err != NoError
    decreases |ms|
  {
    hide ExtractAt, SafeJoin, Render;
    if st.err == NoError && i > 0 {
      BadNameFails(Extract(st, dest, ms[0], maxEntries, now), dest, ms[1..], i - 1, maxEntries, now);
    }
  }

  lemma {:induction false} IsPacked(fs: FS, dir: Path, order: seq<Path>, p: Path) returns (i: nat)
    requires Under(fs, dir, order) && p in order && p in fs && dir < p && !fs[p].Other?
    ensures i < |Packed(fs, dir, order)| && Packed(fs, dir, order)[i] == PackMember(fs[p], p[|dir|..])
    decreases |order|
  {
    if order[0] == p {
      i := 0;
    } else {
      assert order == [order[0]] + order[1..];
      var j := IsPacked(fs, dir, order[1..], p);
      i := |PackNode(fs, dir, order[0])| + j;
    }
  }

  lemma {:induction false} JoinHas(cs: Path, c: string, x: char)
    requires c in cs && x in c
    ensures x in Join(cs)
  {
    if |cs| > 1 && c != cs[0] {
      assert c in cs[1..];
      JoinHas(cs[1..], c, x);
    }
  }

  /** Names as a POSIX file system allows them. */
  ghost predicate PosixNames(fs: FS)
  {
    forall p :: p in fs ==> forall c <- p :: Plain(c) && '\0' !in c
  }

  /** A packed name with a backslash is always refused. */
  lemma BackslashFails(st: Unpacking, fs: FS, dir: Path, dest: Path, order: seq<Path>, maxEntries: nat, now: Time)
    requires Visits(fs, dir, order) && Under(fs, dir, order) && PosixNames(fs) && !Portable(fs, dir)
    ensures ExtractAll(st, dest, Packed(fs, dir, order), maxEntries, now).err != NoError
  {
    hide Packed, ExtractAll;
    var p :| p in fs && dir <= p && !fs[p].Other? && !PortablePath(p[|dir|..]);
    var rel := p[|dir|..];
    var c :| c in rel && !PortableName(c);
    assert c in p && dir < p;
    JoinHas(rel, c, '\\');
    assert p in Elements(order);
    var i := IsPacked(fs, dir, order, p);
    var name := PackMember(fs[p], rel).name;
    assert Join(rel) <= name;
    BadNameFails(st, dest, Packed(fs, dir, order), i, maxEntries, now);
  }

  /** Packing a tree and unpacking it into an empty or absent directory succeeds
      exactly when no packed name has a backslash and the two caps allow it; and
      then it restores every directory, empty ones too, every file's bytes and
      owner-execute bit, and nothing else. The order of the walk does not matter. */
  lemma PackThenUnpack(
    fs: FS, dir: Path, order: seq<Path>, disk: FS, dest: Path, maxBytes: nat, maxEntries: nat, now: Time)
    requires Tree(fs) && dir in fs && fs[dir].Dir? && PosixNames(fs) && Visits(fs, dir, order)
    requires Tree(disk) && dest != [] && AllPlain(dest) && !Blocked(disk, dest)
    requires forall q :: q in disk ==> !(dest < q)
    ensures Under(fs, dir, order)
    ensures var end := Unpacked(disk, dest, Archive(Packed(fs, dir, order), true), maxBytes, maxEntries, now);
            && (end.err == NoError <==>
                  Portable(fs, dir) && TreeBytes(fs, dir) <= maxBytes
                  && |Contents(fs, dir, Below(fs, dir))| <= maxEntries)
            && (end.err == NoError ==> Restored(fs, dir, end.fs, dest) && end.skipped == 0)
  {
    VisitsUnder(fs, dir, order);
    hide Packed, ExtractAll, Portable, Contents;
    var made := MkdirAll(disk, dest, now).value;
    var st := Unpacking(made, maxBytes, 0, 0, NoError);
    if !Portable(fs, dir) {
      BackslashFails(st, fs, dir, dest, order, maxEntries, now);
    } else {
      MkdirAllAdds(disk, dest, now);
      hide MkdirAll;
      forall r: Path ensures PartlyAt(fs, dir, made, dest, {}, r) {
        assert r == [] ==> dest + r == dest && dir + r == dir;
        assert r != [] ==> dest < dest + r;
      }
      assert ToDo(fs, dir, order, {});
      RestIsCopied(st, fs, dir, dest, order, {}, maxEntries, now);
      PackedCount(fs, dir, order);
      var end := ExtractAll(st, dest, Packed(fs, dir, order), maxEntries, now);
      if end.err == NoError {
        AllCopied(fs, dir, end.fs, dest, {} + Elements(order));
      }
    }
  }

  lemma AllCopied(fs: FS, dir: Path, out: FS, dest: Path, done: set<Path>)
    requires Partly(fs, dir, out, dest, done) && done == Below(fs, dir)
    ensures Restored(fs, dir, out, dest)
  {
    forall r: Path ensures RestoredAt(fs, dir, out, dest, r) {
      assert PartlyAt(fs, dir, out, dest, done, r);
    }
  }
}
