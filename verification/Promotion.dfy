// Promote of internal/mirror/mirror.go as the sequence of disks it passes
// through, for every step that may fail, and the locally-modified guard that
// precedes it.

module Promotion {
  import opened Paths
  import opened FileSystem
  import opened SyncIndex

  /** Which steps of one promote succeed. MkdirAll stops after mkdirDepth
      levels; the final RemoveAll cannot unlink the nodes in stuck. It is not
      atomic: halfway names the nodes it has yet to unlink when it is looked at,
      so that each choice of it is one of the disks on the way. */
  datatype Faults = Faults(
    mkdirDepth: nat, makesTemp: bool, movesAside: bool, installs: bool, rollsBack: bool, stuck: set<Path>,
    halfway: set<Path>)

  /** Every disk from the call to the return, and whether Promote reports success. */
  datatype Outcome = Outcome(trace: seq<FS>, ok: bool)

  function Aside(temp: string): Path
  {
    STAGING + [temp]
  }

  function OldCopy(temp: string): Path
  {
    Aside(temp) + ["payload"]
  }

  predicate InStaging(p: Path)
  {
    p != [] && p[0] == STAGING[0]
  }

  lemma StagingIsClosed(p: Path, q: Path)
    requires p != [] && p <= q
    ensures InStaging(p) <==> InStaging(q)
  {
  }

  function MakeTemp(fs: FS, temp: string, now: Time): FS
  {
    fs[Aside(temp) := Dir(now)][STAGING := Dir(now)]
  }

  /** What handle sets up before it calls Promote: a staged copy below
      .staging, a slot outside it, and a name MkdirTemp finds free. */
  ghost predicate Ready(fs: FS, staged: Path, dst: Path, temp: string)
  {
    && Tree(fs)
    && STAGING in fs && fs[STAGING].Dir?
    && |staged| >= 2 && InStaging(staged) && staged in fs
    && |dst| >= 2 && !InStaging(dst)
    && Aside(temp) !in fs
  }

  /** From a slot that is free: the rename that installs the new copy. */
  function Install(before: seq<FS>, d: FS, staged: Path, dst: Path, f: Faults, now: Time): Outcome
    requires CanRename(d, staged, dst)
  {
    if f.installs then Outcome(before + [d, Rename(d, staged, dst, now)], true)
    else Outcome(before + [d], false)
  }

  /** From a slot that is taken: aside, install or roll back, clean up. */
  function Replace(before: seq<FS>, d: FS, staged: Path, dst: Path, temp: string, f: Faults, now: Time): Outcome
    requires Ready(d, staged, dst, temp) && dst in d
  {
    MakeTempEffect(d, staged, dst, temp, now);
    var d2 := MakeTemp(d, temp, now);
    if !f.makesTemp then Outcome(before + [d], false)
    else if !f.movesAside then Outcome(before + [d, d2] + Clear(d2, temp, f, now), false)
    else
      MoveAsideEffect(d, staged, dst, temp, now);
      var d3 := Rename(d2, dst, OldCopy(temp), now);
      if !f.installs then
        if f.rollsBack then Outcome(before + [d, d2, d3, Rename(d3, OldCopy(temp), dst, now)], false)
        else Outcome(before + [d, d2, d3], false)
      else
        var d4 := Rename(d3, staged, dst, now);
        Outcome(before + [d, d2, d3, d4] + Clear(d4, temp, f, now), true)
  }

  /** The removal of the aside directory, seen on the way and at its end. */
  function Clear(d: FS, temp: string, f: Faults, now: Time): seq<FS>
  {
    [RemoveAll(d, Aside(temp), f.stuck + f.halfway, now), RemoveAll(d, Aside(temp), f.stuck, now)]
  }

  /** The disks MkdirAll passes through, one level after another. */
  function Levels(fs: FS, p: Path, now: Time): seq<FS>
    requires !Blocked(fs, p)
  {
    seq(|p|, (k: nat) requires k < |p| => Level(fs, p, k, now))
  }

  function Level(fs: FS, p: Path, k: nat, now: Time): FS
    requires k <= |p| && !Blocked(fs, p)
  {
    LevelIsFree(fs, p, k);
    MkdirAll(fs, p[..k], now).value
  }

  lemma LevelIsFree(fs: FS, p: Path, k: nat)
    requires k <= |p| && !Blocked(fs, p)
    ensures !Blocked(fs, p[..k])
  {
    forall j | 0 <= j <= k ensures p[..k][..j] in fs ==> fs[p[..k][..j]].Dir? {
      assert p[..k][..j] == p[..j];
    }
  }

  function Promote(fs: FS, staged: Path, dst: Path, temp: string, f: Faults, now: Time): Outcome
    requires Ready(fs, staged, dst, temp)
  {
    var parent := Parent(dst);
    var depth := if f.mkdirDepth < |parent| then f.mkdirDepth else |parent|;
    var made := MkdirAll(fs, parent[..depth], now);
    if made.None? then Outcome([fs], false)
    else
      var before := [fs] + Levels(fs, parent[..depth], now);
      if depth < |parent| then Outcome(before + [made.value], false)
      else
        MkdirEffect(fs, staged, dst, temp, depth, now);
        if dst in made.value then Replace(before, made.value, staged, dst, temp, f, now)
        else Install(before, made.value, staged, dst, f, now)
  }

  // ---------------------------------------------------------- step by step

  /** Outside .staging and the slot, only directories above the slot may
      appear or see their mtime move. */
  ghost predicate Frame(fs: FS, s: FS, dst: Path)
  {
    forall q :: !InStaging(q) && !(dst <= q) ==> FrameAt(fs, s, dst, q)
  }

  ghost predicate FrameAt(fs: FS, s: FS, dst: Path, q: Path)
  {
    Same(fs, s, q) || (q < dst && q in s && s[q].Dir? && (q in fs ==> fs[q].Dir?))
  }

  lemma FrameRefl(fs: FS, dst: Path)
    ensures Frame(fs, fs, dst) && SameTree(fs, dst, fs, dst)
  {
  }

  lemma FrameTrans(a: FS, b: FS, c: FS, dst: Path)
    requires Frame(a, b, dst) && Frame(b, c, dst)
    ensures Frame(a, c, dst)
  {
    forall q | !InStaging(q) && !(dst <= q) ensures FrameAt(a, c, dst, q) {
      assert FrameAt(a, b, dst, q) && FrameAt(b, c, dst, q);
    }
  }

  lemma MkdirEffect(fs: FS, staged: Path, dst: Path, temp: string, depth: nat, now: Time)
    requires Ready(fs, staged, dst, temp) && depth <= |dst| - 1
    requires MkdirAll(fs, Parent(dst)[..depth], now).Some?
    ensures var d := MkdirAll(fs, Parent(dst)[..depth], now).value;
            && Ready(d, staged, dst, temp)
            && Frame(fs, d, dst) && AgreeAt(d, fs, dst) && AgreeAt(d, fs, staged)
            && (depth == |dst| - 1 && dst !in d ==> CanRename(d, staged, dst))
  {
    var p := Parent(dst)[..depth];
    var d := MkdirAll(fs, p, now).value;
    MkdirAllAdds(fs, p, now);
    hide MkdirAll;
    forall q | !InStaging(q) && !(dst <= q) ensures FrameAt(fs, d, dst, q) { MkdirAt(fs, dst, depth, now, q); }
    forall q | dst <= q ensures Same(d, fs, q) { MkdirAt(fs, dst, depth, now, q); }
    forall q | staged <= q ensures Same(d, fs, q) {
      StagingIsClosed(staged, q);
      MkdirAt(fs, dst, depth, now, q);
    }
    hide Tree;
    MkdirAt(fs, dst, depth, now, STAGING);
    MkdirAt(fs, dst, depth, now, Aside(temp));
    MkdirAt(fs, dst, depth, now, staged);
    assert depth == |dst| - 1 ==> p == Parent(dst);
    assert !(staged <= dst) by { StagedApart(fs, staged, dst, temp); }
  }

  lemma MkdirAt(fs: FS, dst: Path, depth: nat, now: Time, q: Path)
    requires Tree(fs) && |dst| >= 2 && !InStaging(dst) && depth <= |dst| - 1
    requires MkdirAll(fs, Parent(dst)[..depth], now).Some?
    ensures var d := MkdirAll(fs, Parent(dst)[..depth], now).value;
            && FrameAt(fs, d, dst, q)
            && (InStaging(q) || dst <= q ==> Same(fs, d, q) && Same(d, fs, q))
  {
    var p := Parent(dst)[..depth];
    MkdirAllAt(fs, p, now, q);
    hide MkdirAll;
    assert q <= p ==> q < dst;
    assert q < dst && q != [] ==> q[0] == dst[0];
  }

  lemma MakeTempEffect(d: FS, staged: Path, dst: Path, temp: string, now: Time)
    requires Ready(d, staged, dst, temp)
    ensures var r := MakeTemp(d, temp, now);
            && Tree(r) && Aside(temp) in r && r[Aside(temp)].Dir? && staged in r
            && Frame(d, r, dst) && AgreeAt(r, d, dst) && AgreeAt(r, d, staged)
            && OldCopy(temp) !in r
  {
    var r := MakeTemp(d, temp, now);
    assert Parent(Aside(temp)) == STAGING && Parent(OldCopy(temp)) == Aside(temp);
    assert InStaging(STAGING) && InStaging(Aside(temp));
    forall q | q in r ensures Seated(r, q) {
      assert q in d ==> Seated(d, q);
    }
    assert OldCopy(temp) in d ==> Seated(d, OldCopy(temp));
    assert staged != STAGING && !(staged <= Aside(temp)) by {
      assert staged <= Aside(temp) ==> staged == Aside(temp);
    }
    forall q ensures Same(d, r, q) || q == STAGING || q == Aside(temp) {}
    forall q | dst <= q ensures Same(r, d, q) { StagingIsClosed(dst, q); }
    forall q | staged <= q ensures Same(r, d, q) {}
  }

  /** The staged copy and the place for the old copy do not overlap. */
  lemma StagedApart(d: FS, staged: Path, dst: Path, temp: string)
    requires Ready(d, staged, dst, temp)
    ensures !(Aside(temp) <= staged) && !(staged <= OldCopy(temp))
    ensures !(staged <= dst) && !(OldCopy(temp) <= dst)
    ensures InStaging(OldCopy(temp)) && InStaging(Aside(temp)) && !InStaging(Parent(dst))
  {
    if Aside(temp) <= staged { TreePrefix(d, Aside(temp), staged); }
  }

  lemma MoveAsideEffect(d: FS, staged: Path, dst: Path, temp: string, now: Time)
    requires Ready(d, staged, dst, temp) && dst in d
    ensures var d2 := MakeTemp(d, temp, now);
            && CanRename(d2, dst, OldCopy(temp))
            && var d3 := Rename(d2, dst, OldCopy(temp), now);
            && Tree(d3) && Frame(d2, d3, dst) && dst !in d3
            && SameTree(d3, OldCopy(temp), d2, dst) && AgreeAt(d3, d2, staged)
            && CanRename(d3, staged, dst) && CanRename(d3, OldCopy(temp), dst)
  {
    MakeTempEffect(d, staged, dst, temp, now);
    StagedApart(d, staged, dst, temp);
    var aside, d2 := OldCopy(temp), MakeTemp(d, temp, now);
    hide MakeTemp;
    assert Parent(aside) == Aside(temp);
    assert Same(d2, d, dst);
    assert !(dst <= aside) by { if dst <= aside { StagingIsClosed(dst, aside); } }
    assert CanRename(d2, dst, aside);
    MoveAsideFacts(d2, staged, dst, aside, now);
  }

  lemma MoveAsideFacts(d2: FS, staged: Path, dst: Path, aside: Path, now: Time)
    requires CanRename(d2, dst, aside)
    requires InStaging(staged) && staged in d2 && |staged| >= 2 && !InStaging(dst) && |dst| >= 2
    requires |aside| == 3 && InStaging(aside) && !(Parent(aside) <= staged) && !(staged <= aside)
    ensures var d3 := Rename(d2, dst, aside, now);
            && Tree(d3) && Frame(d2, d3, dst) && dst !in d3
            && SameTree(d3, aside, d2, dst) && AgreeAt(d3, d2, staged)
            && CanRename(d3, staged, dst) && CanRename(d3, aside, dst)
  {
    var d3 := Rename(d2, dst, aside, now);
    RenameKeepsTree(d2, dst, aside, now);
    RenameMoves(d2, dst, aside, now);
    RenameFrame(d2, dst, aside, now);
    hide Rename;
    StagingIsClosed(Parent(aside), aside);
    StagingIsClosed(Parent(dst), dst);
    forall q | !InStaging(q) && !(dst <= q) ensures FrameAt(d2, d3, dst, q) {
      if aside <= q { StagingIsClosed(aside, q); }
      RenameAt(d2, dst, aside, now, q);
    }
    StagedStays(d2, staged, dst, aside, now);
    AgreesHere(d3, d2, staged);
    assert dst + [] == dst && aside + [] == aside;
    assert aside in d3;
    TreePrefix(d2, Parent(dst), dst);
    RenameAt(d2, dst, aside, now, Parent(dst));
    assert !(staged <= dst) by { if staged <= dst { StagingIsClosed(staged, dst); } }
    assert !(aside <= dst) by { if aside <= dst { StagingIsClosed(aside, dst); } }
  }

  lemma StagedStays(d2: FS, staged: Path, dst: Path, aside: Path, now: Time)
    requires CanRename(d2, dst, aside)
    requires InStaging(staged) && !InStaging(dst) && |dst| >= 2
    requires |aside| == 3 && |staged| >= 2 && !(Parent(aside) <= staged) && !(staged <= aside)
    ensures AgreeAt(Rename(d2, dst, aside, now), d2, staged)
  {
    var d3 := Rename(d2, dst, aside, now);
    forall q | staged <= q ensures Same(d3, d2, q) {
      StagingIsClosed(staged, q);
      if dst <= q { StagingIsClosed(dst, q); }
      PrefixesChain(staged, aside, q);
      RenameAt(d2, dst, aside, now, q);
      hide Rename, CanRename;
      assert !(staged <= Parent(aside));
      StagingIsClosed(Parent(dst), dst);
    }
  }

  lemma AgreesHere(a: FS, b: FS, p: Path)
    requires AgreeAt(a, b, p)
    ensures Same(a, b, p)
  {
    assert p <= p;
  }

  lemma PrefixesChain(a: Path, b: Path, q: Path)
    requires a <= q
    ensures b <= q ==> a <= b || b <= a
  {
  }

  /** Installing a staged copy into a free slot. */
  lemma InstallEffect(d: FS, staged: Path, dst: Path, now: Time)
    requires CanRename(d, staged, dst) && |staged| >= 2 && InStaging(staged) && !InStaging(dst)
    ensures var r := Rename(d, staged, dst, now);
            Tree(r) && Frame(d, r, dst) && SameTree(r, dst, d, staged) && staged !in r && dst in r
  {
    var r := Rename(d, staged, dst, now);
    RenameKeepsTree(d, staged, dst, now);
    RenameMoves(d, staged, dst, now);
    RenameFrame(d, staged, dst, now);
    hide Rename;
    assert dst + [] == dst && staged + [] == staged;
    StagingIsClosed(Parent(staged), staged);
    forall q | !InStaging(q) && !(dst <= q) ensures FrameAt(d, r, dst, q) {
      if staged <= q { StagingIsClosed(staged, q); }
      RenameAt(d, staged, dst, now, q);
    }
  }

  lemma CleanUpEffect(d: FS, dst: Path, aside: Path, stuck: set<Path>, now: Time)
    requires Tree(d) && dst != [] && !InStaging(dst) && |aside| >= 2 && InStaging(aside)
    ensures var r := RemoveAll(d, aside, stuck, now);
            Tree(r) && Frame(d, r, dst) && AgreeAt(r, d, dst) && r.Keys <= d.Keys
  {
    var r := RemoveAll(d, aside, stuck, now);
    RemoveAllFrame(d, aside, stuck, now);
    StagingIsClosed(Parent(aside), aside);
    hide RemoveAll;
    forall q | !InStaging(q) ensures Same(d, r, q) && Same(r, d, q) {
      if aside <= q { StagingIsClosed(aside, q); }
      RemoveAllAt(d, aside, stuck, now, q);
    }
    forall q | dst <= q ensures Same(r, d, q) { StagingIsClosed(dst, q); }
  }

  // ------------------------------------------------------------ crash safety

  ghost predicate OldWhole(fs: FS, s: FS, dst: Path, temp: string)
  {
    SameTree(s, dst, fs, dst) || SameTree(s, OldCopy(temp), fs, dst)
  }

  /** No disk state loses data: the slot holds the whole new copy, or the whole
      old copy is at the slot or in .staging, or there was none and there is none. */
  ghost predicate CrashSafe(fs: FS, s: FS, staged: Path, dst: Path, temp: string)
  {
    && Frame(fs, s, dst)
    && (|| SameTree(s, dst, fs, staged)
        || (if dst in fs then OldWhole(fs, s, dst, temp) else dst !in s))
  }

  /** What the caller finds when Promote returns. */
  ghost predicate Settled(fs: FS, o: Outcome, staged: Path, dst: Path, temp: string, f: Faults)
    requires o.trace != []
  {
    var s := o.trace[|o.trace| - 1];
    if o.ok then SameTree(s, dst, fs, staged) && staged !in s && dst in s
    else if dst in fs && f.makesTemp && f.movesAside && !f.installs && !f.rollsBack && !SameTree(s, dst, fs, dst)
    then SameTree(s, OldCopy(temp), fs, dst) && dst !in s
    else SameTree(s, dst, fs, dst)
  }

  ghost predicate AllCrashSafe(fs: FS, trace: seq<FS>, staged: Path, dst: Path, temp: string)
  {
    forall i :: 0 <= i < |trace| ==> Tree(trace[i]) && CrashSafe(fs, trace[i], staged, dst, temp)
  }

  lemma AllCrashSafeAppend(fs: FS, a: seq<FS>, b: seq<FS>, staged: Path, dst: Path, temp: string)
    requires AllCrashSafe(fs, a, staged, dst, temp) && AllCrashSafe(fs, b, staged, dst, temp)
    ensures AllCrashSafe(fs, a + b, staged, dst, temp)
  {
    hide CrashSafe, Tree;
  }

  /** A disk that still has the old copy at the slot. */
  lemma OldAtSlot(fs: FS, s: FS, staged: Path, dst: Path, temp: string)
    requires Tree(s) && Frame(fs, s, dst) && SameTree(s, dst, fs, dst)
    ensures AllCrashSafe(fs, [s], staged, dst, temp)
  {
    assert dst + [] == dst;
  }

  lemma ClearIsCrashSafe(fs: FS, d: FS, staged: Path, dst: Path, temp: string, f: Faults, now: Time)
    requires Tree(d) && Frame(fs, d, dst) && dst != [] && !InStaging(dst) && InStaging(Aside(temp))
    requires SameTree(d, dst, fs, dst) || SameTree(d, dst, fs, staged)
    ensures AllCrashSafe(fs, Clear(d, temp, f, now), staged, dst, temp)
    ensures var last := Clear(d, temp, f, now)[1];
            && (SameTree(d, dst, fs, dst) ==> SameTree(last, dst, fs, dst))
            && (SameTree(d, dst, fs, staged) ==> SameTree(last, dst, fs, staged))
            && last.Keys <= d.Keys && Same(last, d, dst)
  {
    hide SameTree, Frame, RemoveAll, Tree, CrashSafe, Same;
    ClearOnce(fs, d, staged, dst, temp, f.stuck + f.halfway, now);
    ClearOnce(fs, d, staged, dst, temp, f.stuck, now);
  }

  lemma ClearOnce(fs: FS, d: FS, staged: Path, dst: Path, temp: string, stuck: set<Path>, now: Time)
    requires Tree(d) && Frame(fs, d, dst) && dst != [] && !InStaging(dst) && InStaging(Aside(temp))
    requires SameTree(d, dst, fs, dst) || SameTree(d, dst, fs, staged)
    ensures var r := RemoveAll(d, Aside(temp), stuck, now);
            && Tree(r) && CrashSafe(fs, r, staged, dst, temp)
            && (SameTree(d, dst, fs, dst) ==> SameTree(r, dst, fs, dst))
            && (SameTree(d, dst, fs, staged) ==> SameTree(r, dst, fs, staged))
            && r.Keys <= d.Keys && Same(r, d, dst)
  {
    hide RemoveAll, Frame, SameTree, AgreeAt;
    var r := RemoveAll(d, Aside(temp), stuck, now);
    CleanUpEffect(d, dst, Aside(temp), stuck, now);
    FrameTrans(fs, d, r, dst);
    AgreeIsSameTree(r, d, dst);
    AgreesHere(r, d, dst);
    if SameTree(d, dst, fs, dst) {
      SameTreeTrans(r, dst, d, dst, fs, dst);
      OldAtSlot(fs, r, staged, dst, temp);
      assert [r][0] == r;
    }
    if SameTree(d, dst, fs, staged) {
      SameTreeTrans(r, dst, d, dst, fs, staged);
    }
  }

  lemma ReplaceIsCrashSafe(
    before: seq<FS>, fs: FS, d: FS, staged: Path, dst: Path, temp: string, f: Faults, now: Time)
    requires Ready(d, staged, dst, temp) && dst in d && dst in fs
    requires Tree(fs) && Frame(fs, d, dst) && AgreeAt(d, fs, dst) && AgreeAt(d, fs, staged)
    requires before != [] && before[0] == fs && AllCrashSafe(fs, before, staged, dst, temp)
    ensures var o := Replace(before, d, staged, dst, temp, f, now);
            && o.trace != [] && o.trace[0] == fs
            && AllCrashSafe(fs, o.trace, staged, dst, temp)
            && Settled(fs, o, staged, dst, temp, f)
  {
    hide Rename, RemoveAll, MakeTemp, Frame, SameTree, AgreeAt, Tree, CanRename, AllCrashSafe, CrashSafe, Clear;
    AgreeIsSameTree(d, fs, dst);
    OldAtSlot(fs, d, staged, dst, temp);
    AllCrashSafeAppend(fs, before, [d], staged, dst, temp);
    if f.makesTemp {
      MakeTempEffect(d, staged, dst, temp, now);
      var d2 := MakeTemp(d, temp, now);
      FrameTrans(fs, d, d2, dst);
      AgreeTrans(d2, d, fs, dst);
      AgreeTrans(d2, d, fs, staged);
      OldAtSlot(fs, d2, staged, dst, temp);
      AllCrashSafeAppend(fs, before + [d], [d2], staged, dst, temp);
      assert before + [d] + [d2] == before + [d, d2];
      StagedApart(d, staged, dst, temp);
      if !f.movesAside {
        ClearIsCrashSafe(fs, d2, staged, dst, temp, f, now);
        AllCrashSafeAppend(fs, before + [d, d2], Clear(d2, temp, f, now), staged, dst, temp);
        ClearLast(before + [d, d2], d2, temp, f, now);
      } else {
        SwapIsCrashSafe(before, fs, d, staged, dst, temp, f, now);
      }
    }
  }

  lemma ClearLast(before: seq<FS>, d: FS, temp: string, f: Faults, now: Time)
    ensures var trace := before + Clear(d, temp, f, now);
            trace[|trace| - 1] == Clear(d, temp, f, now)[1] == RemoveAll(d, Aside(temp), f.stuck, now)
  {
    hide RemoveAll;
  }

  /** From the first rename on: the old copy is aside until the new one is in. */
  lemma SwapIsCrashSafe(
    before: seq<FS>, fs: FS, d: FS, staged: Path, dst: Path, temp: string, f: Faults, now: Time)
    requires Ready(d, staged, dst, temp) && dst in d && dst in fs
    requires Tree(fs) && Frame(fs, d, dst) && AgreeAt(d, fs, dst) && AgreeAt(d, fs, staged)
    requires before != [] && before[0] == fs && f.makesTemp && f.movesAside
    requires AllCrashSafe(fs, before + [d, MakeTemp(d, temp, now)], staged, dst, temp)
    ensures var o := Replace(before, d, staged, dst, temp, f, now);
            && o.trace != [] && o.trace[0] == fs
            && AllCrashSafe(fs, o.trace, staged, dst, temp)
            && Settled(fs, o, staged, dst, temp, f)
  {
    hide Rename, RemoveAll, MakeTemp, Frame, SameTree, AgreeAt, Tree, CanRename, AllCrashSafe, CrashSafe, Clear;
    StagedApart(d, staged, dst, temp);
    MakeTempEffect(d, staged, dst, temp, now);
    var d2, aside := MakeTemp(d, temp, now), OldCopy(temp);
    FrameTrans(fs, d, d2, dst);
    AgreeTrans(d2, d, fs, dst);
    AgreeTrans(d2, d, fs, staged);
    MoveAsideEffect(d, staged, dst, temp, now);
    var d3 := Rename(d2, dst, aside, now);
    FrameTrans(fs, d2, d3, dst);
    SameTreeTrans(d3, aside, d2, dst, fs, dst);
    AgreeTrans(d3, d2, fs, staged);
    OldAside(fs, d3, staged, dst, temp);
    var so := before + [d, d2];
    AllCrashSafeAppend(fs, so, [d3], staged, dst, temp);
    assert so + [d3] == before + [d, d2, d3];
    if f.installs {
      InstallEffect(d3, staged, dst, now);
      var d4 := Rename(d3, staged, dst, now);
      FrameTrans(fs, d3, d4, dst);
      SameTreeTrans(d4, dst, d3, staged, fs, staged);
      NewAtSlot(fs, d4, staged, dst, temp);
      AllCrashSafeAppend(fs, so + [d3], [d4], staged, dst, temp);
      assert so + [d3] + [d4] == before + [d, d2, d3, d4];
      ClearIsCrashSafe(fs, d4, staged, dst, temp, f, now);
      AllCrashSafeAppend(fs, before + [d, d2, d3, d4], Clear(d4, temp, f, now), staged, dst, temp);
      ClearLast(before + [d, d2, d3, d4], d4, temp, f, now);
    } else if f.rollsBack {
      InstallEffect(d3, aside, dst, now);
      var d4 := Rename(d3, aside, dst, now);
      FrameTrans(fs, d3, d4, dst);
      SameTreeTrans(d4, dst, d3, aside, fs, dst);
      OldAtSlot(fs, d4, staged, dst, temp);
      AllCrashSafeAppend(fs, so + [d3], [d4], staged, dst, temp);
      assert so + [d3] + [d4] == before + [d, d2, d3, d4];
    }
  }

  lemma OldAside(fs: FS, s: FS, staged: Path, dst: Path, temp: string)
    requires Tree(s) && Frame(fs, s, dst) && SameTree(s, OldCopy(temp), fs, dst) && dst in fs
    ensures AllCrashSafe(fs, [s], staged, dst, temp)
  {
    hide Frame, SameTree, Tree;
  }

  lemma NewAtSlot(fs: FS, s: FS, staged: Path, dst: Path, temp: string)
    requires Tree(s) && Frame(fs, s, dst) && SameTree(s, dst, fs, staged)
    ensures AllCrashSafe(fs, [s], staged, dst, temp)
  {
    hide Frame, SameTree, Tree;
  }

  /** Crash safety of Promote: every disk state on the way, whichever steps
      fail, keeps the old copy whole or has the new copy whole, and touches
      nothing else; the caller's verdict says which. */
  lemma PromoteIsCrashSafe(fs: FS, staged: Path, dst: Path, temp: string, f: Faults, now: Time)
    requires Ready(fs, staged, dst, temp)
    ensures var o := Promote(fs, staged, dst, temp, f, now);
            && o.trace != [] && o.trace[0] == fs
            && (forall s <- o.trace :: Tree(s) && CrashSafe(fs, s, staged, dst, temp))
            && Settled(fs, o, staged, dst, temp, f)
  {
    hide Rename, RemoveAll, MakeTemp, MkdirAll, Replace, SameTree, CanRename, Levels, AllCrashSafe, CrashSafe, Frame, AgreeAt, Tree;
    var parent := Parent(dst);
    var depth := if f.mkdirDepth < |parent| then f.mkdirDepth else |parent|;
    var p := parent[..depth];
    var o := Promote(fs, staged, dst, temp, f, now);
    FrameRefl(fs, dst);
    OldAtSlot(fs, fs, staged, dst, temp);
    if MkdirAll(fs, p, now).Some? {
      FreeIfMade(fs, p, now);
      var d, before := MkdirAll(fs, p, now).value, [fs] + Levels(fs, p, now);
      LevelsAreCrashSafe(fs, staged, dst, temp, depth, now);
      AllCrashSafeAppend(fs, [fs], Levels(fs, p, now), staged, dst, temp);
      MkdirEffect(fs, staged, dst, temp, depth, now);
      AgreeIsSameTree(d, fs, dst);
      AgreeIsSameTree(d, fs, staged);
      AgreesHere(d, fs, dst);
      ReadyTree(d, staged, dst, temp);
      OldAtSlot(fs, d, staged, dst, temp);
      AllCrashSafeAppend(fs, before, [d], staged, dst, temp);
      if depth == |parent| {
        if dst in d {
          ReplaceIsCrashSafe(before, fs, d, staged, dst, temp, f, now);
        } else if f.installs {
          InstallEffect(d, staged, dst, now);
          var r := Rename(d, staged, dst, now);
          FrameTrans(fs, d, r, dst);
          SameTreeTrans(r, dst, d, staged, fs, staged);
          NewAtSlot(fs, r, staged, dst, temp);
          AllCrashSafeAppend(fs, before + [d], [r], staged, dst, temp);
          assert before + [d] + [r] == before + [d, r];
        }
      }
    }
    EachIsCrashSafe(fs, o.trace, staged, dst, temp);
  }

  lemma EachIsCrashSafe(fs: FS, trace: seq<FS>, staged: Path, dst: Path, temp: string)
    requires AllCrashSafe(fs, trace, staged, dst, temp)
    ensures forall s <- trace :: Tree(s) && CrashSafe(fs, s, staged, dst, temp)
  {
    hide Tree, CrashSafe;
  }

  lemma ReadyTree(fs: FS, staged: Path, dst: Path, temp: string)
    requires Ready(fs, staged, dst, temp)
    ensures Tree(fs)
  {
  }

  lemma FreeIfMade(fs: FS, p: Path, now: Time)
    ensures MkdirAll(fs, p, now).Some? <==> !Blocked(fs, p)
  {
  }

  lemma LevelsAreCrashSafe(fs: FS, staged: Path, dst: Path, temp: string, depth: nat, now: Time)
    requires Ready(fs, staged, dst, temp) && depth <= |dst| - 1 && !Blocked(fs, Parent(dst)[..depth])
    ensures AllCrashSafe(fs, Levels(fs, Parent(dst)[..depth], now), staged, dst, temp)
  {
    hide MkdirAll, Frame, SameTree, AgreeAt, Tree, CrashSafe, Blocked;
    var p := Parent(dst)[..depth];
    var all := Levels(fs, p, now);
    forall k: nat | k < |all| ensures Tree(all[k]) && CrashSafe(fs, all[k], staged, dst, temp) {
      LevelIsFree(fs, p, k);
      assert p[..k] == Parent(dst)[..k];
      FreeIfMade(fs, p[..k], now);
      MkdirEffect(fs, staged, dst, temp, k, now);
      AgreeIsSameTree(all[k], fs, dst);
      ReadyTree(all[k], staged, dst, temp);
      OldAtSlot(fs, all[k], staged, dst, temp);
      assert [all[k]][0] == all[k];
    }
  }

  /** A promote gets as far as moving the old copy aside. */
  predicate Swaps(f: Faults, dst: Path)
    requires dst != []
  {
    f.mkdirDepth >= |Parent(dst)| && f.makesTemp && f.movesAside
  }

  /** A promote takes the old copy out of its slot for good exactly when it has
      been moved aside and neither the install nor the rollback succeeds. */
  predicate Strands(f: Faults, dst: Path)
    requires dst != []
  {
    Swaps(f, dst) && !f.installs && !f.rollsBack
  }

  lemma SlotIsEmptiedIff(fs: FS, staged: Path, dst: Path, temp: string, f: Faults, now: Time)
    requires Ready(fs, staged, dst, temp) && dst in fs
    ensures var o := Promote(fs, staged, dst, temp, f, now);
            o.trace != [] && (dst !in o.trace[|o.trace| - 1] <==> Strands(f, dst))
  {
    PromoteIsCrashSafe(fs, staged, dst, temp, f, now);
    var parent := Parent(dst);
    var o := Promote(fs, staged, dst, temp, f, now);
    var last := o.trace[|o.trace| - 1];
    hide Rename, RemoveAll, MakeTemp, MkdirAll, Settled, CrashSafe;
    if f.mkdirDepth >= |parent| {
      assert parent[..|parent|] == parent;
      DirsAbove(fs, dst, now);
      var d := MkdirAll(fs, parent, now).value;
      MkdirEffect(fs, staged, dst, temp, |parent|, now);
      AgreesHere(d, fs, dst);
      if Strands(f, dst) {
        MoveAsideEffect(d, staged, dst, temp, now);
      } else {
        StaysOrReplaced(fs, o, staged, dst, temp, f);
      }
    } else {
      StaysOrReplaced(fs, o, staged, dst, temp, f);
    }
  }

  ghost predicate AllHave(trace: seq<FS>, dst: Path)
  {
    forall i :: 0 <= i < |trace| ==> dst in trace[i]
  }

  lemma AllHaveAppend(a: seq<FS>, b: seq<FS>, dst: Path)
    ensures AllHave(a, dst) && AllHave(b, dst) <==> AllHave(a + b, dst)
  {
    if AllHave(a + b, dst) {
      assert forall i :: 0 <= i < |a| ==> a[i] == (a + b)[i];
      assert forall i :: 0 <= i < |b| ==> b[i] == (a + b)[|a| + i];
    }
  }

  /** A slot that was taken is empty at some moment of a promote, between its two
      renames, exactly when the promote gets as far as the first of them. */
  lemma SlotIsAbsentIff(fs: FS, staged: Path, dst: Path, temp: string, f: Faults, now: Time)
    requires Ready(fs, staged, dst, temp) && dst in fs
    ensures !AllHave(Promote(fs, staged, dst, temp, f, now).trace, dst) <==> Swaps(f, dst)
  {
    hide Rename, RemoveAll, MakeTemp, MkdirAll, SameTree, CanRename, Levels, AllHave, Frame, AgreeAt, Tree, Clear;
    var parent := Parent(dst);
    var depth := if f.mkdirDepth < |parent| then f.mkdirDepth else |parent|;
    var p := parent[..depth];
    ReadyTree(fs, staged, dst, temp);
    LevelsAboveAreFree(fs, dst, depth);
    FreeIfMade(fs, p, now);
    var d, levels := MkdirAll(fs, p, now).value, Levels(fs, p, now);
    MkdirEffect(fs, staged, dst, temp, depth, now);
    AgreesHere(d, fs, dst);
    LevelsHave(fs, staged, dst, temp, depth, now);
    OneHas(fs, dst);
    OneHas(d, dst);
    AllHaveAppend([fs], levels, dst);
    AllHaveAppend([fs] + levels, [d], dst);
    if depth == |parent| {
      assert p == parent;
      ReplaceHas([fs] + levels, d, staged, dst, temp, f, now);
    }
  }

  lemma OneHas(fs: FS, dst: Path)
    ensures AllHave([fs], dst) <==> dst in fs
  {
    assert [fs][0] == fs;
  }

  lemma LevelsAboveAreFree(fs: FS, dst: Path, depth: nat)
    requires Tree(fs) && dst in fs && depth < |dst|
    ensures !Blocked(fs, Parent(dst)[..depth])
  {
    var p := Parent(dst)[..depth];
    forall k | 0 <= k <= |p| ensures p[..k] in fs && fs[p[..k]].Dir? {
      assert p[..k] == dst[..k];
      TreePrefix(fs, p[..k], dst);
    }
  }

  lemma LevelsHave(fs: FS, staged: Path, dst: Path, temp: string, depth: nat, now: Time)
    requires Ready(fs, staged, dst, temp) && dst in fs && depth <= |dst| - 1 && !Blocked(fs, Parent(dst)[..depth])
    ensures AllHave(Levels(fs, Parent(dst)[..depth], now), dst)
  {
    hide MkdirAll, Frame, AgreeAt, Tree, Blocked;
    var p := Parent(dst)[..depth];
    var all := Levels(fs, p, now);
    forall k: nat | k < |all| ensures dst in all[k] {
      LevelIsFree(fs, p, k);
      assert p[..k] == Parent(dst)[..k];
      FreeIfMade(fs, p[..k], now);
      MkdirEffect(fs, staged, dst, temp, k, now);
      AgreesHere(all[k], fs, dst);
    }
  }

  lemma ReplaceHas(before: seq<FS>, d: FS, staged: Path, dst: Path, temp: string, f: Faults, now: Time)
    requires Ready(d, staged, dst, temp) && dst in d && AllHave(before, dst)
    ensures AllHave(Replace(before, d, staged, dst, temp, f, now).trace, dst) <==> !(f.makesTemp && f.movesAside)
  {
    hide Rename, RemoveAll, MakeTemp, SameTree, CanRename, AllHave, Frame, AgreeAt, Tree, Clear;
    OneHas(d, dst);
    AllHaveAppend(before, [d], dst);
    if f.makesTemp {
      MakeTempEffect(d, staged, dst, temp, now);
      var d2 := MakeTemp(d, temp, now);
      AgreesHere(d2, d, dst);
      OneHas(d2, dst);
      AllHaveAppend(before + [d], [d2], dst);
      assert before + [d] + [d2] == before + [d, d2];
      if f.movesAside {
        MoveAsideEffect(d, staged, dst, temp, now);
        var d3 := Rename(d2, dst, OldCopy(temp), now);
        OneHas(d3, dst);
        var o := Replace(before, d, staged, dst, temp, f, now);
        var rest := o.trace[|before| + 3..];
        AllHaveAppend(before + [d, d2], [d3], dst);
        AllHaveAppend(before + [d, d2] + [d3], rest, dst);
        assert o.trace == before + [d, d2] + [d3] + rest;
      } else {
        ClearHas(d2, staged, dst, temp, f, now);
        AllHaveAppend(before + [d, d2], Clear(d2, temp, f, now), dst);
      }
    }
  }

  lemma ClearHas(d: FS, staged: Path, dst: Path, temp: string, f: Faults, now: Time)
    requires Tree(d) && dst in d && dst != [] && !InStaging(dst)
    ensures AllHave(Clear(d, temp, f, now), dst)
  {
    assert InStaging(Aside(temp));
    assert !(Aside(temp) <= dst) by { if Aside(temp) <= dst { StagingIsClosed(Aside(temp), dst); } }
    RemoveAllFrame(d, Aside(temp), f.stuck + f.halfway, now);
    RemoveAllFrame(d, Aside(temp), f.stuck, now);
  }

  lemma DirsAbove(fs: FS, dst: Path, now: Time)
    requires Tree(fs) && dst in fs && dst != []
    ensures MkdirAll(fs, Parent(dst), now).Some?
  {
    var p := Parent(dst);
    forall k | 0 <= k <= |p| ensures p[..k] in fs && fs[p[..k]].Dir? {
      assert p[..k] == dst[..k];
      TreePrefix(fs, p[..k], dst);
    }
  }

  lemma StaysOrReplaced(fs: FS, o: Outcome, staged: Path, dst: Path, temp: string, f: Faults)
    requires o.trace != [] && Settled(fs, o, staged, dst, temp, f) && dst in fs
    requires !(f.makesTemp && f.movesAside && !f.installs && !f.rollsBack) || SameTree(o.trace[|o.trace| - 1], dst, fs, dst)
    ensures dst in o.trace[|o.trace| - 1]
  {
    assert dst + [] == dst;
  }

  // ---------------------------------------------------------------- clean up

  /** What is left at or below p is held there by nodes that cannot be unlinked. */
  ghost predicate ClearedOut(fs: FS, p: Path, stuck: set<Path>)
  {
    forall q :: p <= q && q in fs ==> HeldBy(stuck, q)
  }

  predicate HeldBy(stuck: set<Path>, q: Path)
  {
    exists s :: s in stuck && q <= s
  }

  lemma RemovedIsClearedOut(fs: FS, p: Path, stuck: set<Path>, now: Time)
    ensures ClearedOut(RemoveAll(fs, p, stuck, now), p, stuck)
  {
  }

  /** A promote that succeeds, and one whose first rename fails, leaves nothing in
      the aside directory that it can unlink, nor the directory itself. */
  lemma PromoteCleansUp(fs: FS, staged: Path, dst: Path, temp: string, f: Faults, now: Time)
    requires Ready(fs, staged, dst, temp)
    ensures var o := Promote(fs, staged, dst, temp, f, now);
            && o.trace != []
            && (o.ok || (dst in fs && f.makesTemp && !f.movesAside) ==>
                  ClearedOut(o.trace[|o.trace| - 1], Aside(temp), f.stuck))
  {
    hide Rename, RemoveAll, MakeTemp, MkdirAll, Levels, SameTree, AgreeAt, Frame, Tree, CanRename, ClearedOut;
    var parent := Parent(dst);
    var depth := if f.mkdirDepth < |parent| then f.mkdirDepth else |parent|;
    var p := parent[..depth];
    NothingAside(fs, staged, dst, temp, f.stuck);
    if MkdirAll(fs, p, now).Some? {
      MkdirEffect(fs, staged, dst, temp, depth, now);
      var d := MkdirAll(fs, p, now).value;
      AgreesHere(d, fs, dst);
      NothingAside(d, staged, dst, temp, f.stuck);
      if depth == |parent| {
        if dst in d {
          RemovedIsClearedOut(MakeTemp(d, temp, now), Aside(temp), f.stuck, now);
          if f.makesTemp && f.movesAside && f.installs {
            MakeTempEffect(d, staged, dst, temp, now);
            MoveAsideEffect(d, staged, dst, temp, now);
            var d4 := Rename(Rename(MakeTemp(d, temp, now), dst, OldCopy(temp), now), staged, dst, now);
            RemovedIsClearedOut(d4, Aside(temp), f.stuck, now);
          }
        } else if f.installs {
          InstalledAside(d, staged, dst, temp, f.stuck, now);
        }
      }
    }
  }

  lemma NothingAside(fs: FS, staged: Path, dst: Path, temp: string, stuck: set<Path>)
    requires Ready(fs, staged, dst, temp)
    ensures ClearedOut(fs, Aside(temp), stuck)
  {
    forall q | Aside(temp) <= q ensures q !in fs {
      if q in fs { TreePrefix(fs, Aside(temp), q); }
    }
  }

  lemma InstalledAside(d: FS, staged: Path, dst: Path, temp: string, stuck: set<Path>, now: Time)
    requires Ready(d, staged, dst, temp) && CanRename(d, staged, dst)
    ensures ClearedOut(Rename(d, staged, dst, now), Aside(temp), stuck)
  {
    RenameFrame(d, staged, dst, now);
    hide Rename;
    forall q | Aside(temp) <= q ensures q !in Rename(d, staged, dst, now) {
      StagingIsClosed(Aside(temp), q);
      if dst <= q { StagingIsClosed(dst, q); }
      if q in d { TreePrefix(d, Aside(temp), q); }
    }
  }

  // ---------------------------------------------------------- the index part

  /** The entry Promote records for a slot it has just installed. */
  ghost function Recorded(fs: FS, m: Entries, rel: string, dir: bool, now: Time): Entries
    requires Split(rel) in fs
  {
    var p := Split(rel);
    if dir then Synced(m, rel, dir, TreeBytes(fs, p), TreeNewest(fs, p), now)
    else Synced(m, rel, dir, StatSize(fs[p]), fs[p].mtime, now)
  }

  /** From the promote on, a directory slot is reported exactly when its total
      of regular-file bytes changed or some node in it is more than the slop
      newer than the newest node synced; a file slot exactly when its own size
      or mtime did that. Untouched slots are never reported. */
  lemma FingerprintDetects(synced: FS, later: FS, m: Entries, rel: string, dir: bool, now: Time)
    requires Split(rel) in synced
    ensures var p := Split(rel);
            var e := Recorded(synced, m, rel, dir, now)[rel];
            && (AgreeAt(later, synced, p) ==> !Modified(later, e, p))
            && (dir ==> (Modified(later, e, p) <==>
                  p in later &&
                  (|| TreeBytes(later, p) != TreeBytes(synced, p)
                   || exists q :: q in later && p <= q && later[q].mtime > TreeNewest(synced, p) + 2_000_000_000)))
            && (!dir ==> (Modified(later, e, p) <==>
                  p in later &&
                  (|| StatSize(later[p]) != StatSize(synced[p])
                   || later[p].mtime > synced[p].mtime + 2_000_000_000)))
  {
    var p := Split(rel);
    NewestBounds(later, Below(later, p));
    NewestBounds(synced, Below(synced, p));
    if AgreeAt(later, synced, p) {
      AgreesHere(later, synced, p);
      forall q | p <= q ensures (q in later <==> q in synced) && SizeAt(later, q) == SizeAt(synced, q) {
        assert Same(later, synced, q);
      }
      assert Below(later, p) == Below(synced, p);
      TreeBytesFrame(later, synced, p);
      assert forall q :: q in Below(later, p) ==> Same(later, synced, q);
    }
    if dir && p in later && TreeNewest(later, p) > TreeNewest(synced, p) + SLOP {
      var q :| q in Below(later, p) && MTimeAt(later, q) == TreeNewest(later, p);
      assert q in later && p <= q && later[q].mtime > TreeNewest(synced, p) + SLOP;
    }
    if q :| dir && p in later && q in later && p <= q && later[q].mtime > TreeNewest(synced, p) + SLOP {
      assert q in Below(later, p) && MTimeAt(later, q) <= TreeNewest(later, p);
    }
  }

  // -------------------------------------------------------------- the guard

  /** CheckOverwrite: what the request may replace without force. */
  ghost predicate GuardPasses(fs: FS, m: Entries, rel: string, force: bool)
  {
    force || forall k :: k in AtOrBelow(m, rel) ==> !Modified(fs, m[k], Split(k))
  }

  /** With force the guard passes; without, exactly when no entry in the subtree
      that the request replaces is modified. */
  lemma GuardIs(fs: FS, m: Entries, rel: string, force: bool)
    ensures GuardPasses(fs, m, rel, force) <==>
            force || forall k :: k in m && Split(rel) <= Split(k) ==> !Modified(fs, m[k], Split(k))
  {
    hide Modified, Split;
    forall k | k in m ensures k in AtOrBelow(m, rel) <==> Split(rel) <= Split(k) {
      DescendantsAreSubtree(m, rel, k);
    }
  }

  /** After a passing unforced check, no modified entry is at or below the slot,
      and no disk state of the promote that follows changes a modified entry
      that does not contain the slot. */
  lemma GuardProtects(fs: FS, m: Entries, rel: string, staged: Path, temp: string, f: Faults, now: Time, k: string)
    requires Ready(fs, staged, Split(rel), temp)
    requires GuardPasses(fs, m, rel, false)
    requires k in m && ValidKey(k) && Modified(fs, m[k], Split(k))
    ensures !(Split(rel) <= Split(k))
    ensures forall s <- Promote(fs, staged, Split(rel), temp, f, now).trace ::
              AgreeAt(s, fs, Split(k)) || Split(k) < Split(rel)
  {
    DescendantsAreSubtree(m, rel, k);
    PromoteIsCrashSafe(fs, staged, Split(rel), temp, f, now);
    ValidKeyPath(k);
    var p, dst := Split(k), Split(rel);
    forall s <- Promote(fs, staged, dst, temp, f, now).trace
      ensures AgreeAt(s, fs, p) || p < dst
    {
      hide Promote;
      assert CrashSafe(fs, s, staged, dst, temp);
      forall q | p <= q && !(p < dst) ensures Same(s, fs, q) {
        StagingIsClosed(p, q);
        PrefixesChain(p, dst, q);
        assert FrameAt(fs, s, dst, q);
      }
    }
  }

  /** The guard covers every overlapping entry on every disk exactly when no
      entry lies strictly above the slot: an edit recorded only by an enclosing
      directory entry is not seen. */
  lemma GuardCoversOverlapsIff(m: Entries, rel: string)
    requires Keyed(m)
    ensures (forall fs: FS :: Tree(fs) && GuardPasses(fs, m, rel, false) ==>
               forall k :: k in m && (Split(rel) <= Split(k) || Split(k) < Split(rel)) ==>
                 !Modified(fs, m[k], Split(k)))
       <==> (forall k :: k in m ==> !(Split(k) < Split(rel)))
  {
    if forall k :: k in m ==> !(Split(k) < Split(rel)) {
      forall fs: FS, k | Tree(fs) && GuardPasses(fs, m, rel, false) && k in m && Split(rel) <= Split(k)
        ensures !Modified(fs, m[k], Split(k))
      {
        DescendantsAreSubtree(m, rel, k);
      }
    }
    if above :| above in m && Split(above) < Split(rel) {
      var fs := EditedAbove(m, rel, above);
      assert Modified(fs, m[above], Split(above));
    }
  }

  /** A disk on which the guard passes although the entry above was edited. */
  lemma EditedAbove(m: Entries, rel: string, above: string) returns (fs: FS)
    requires Keyed(m) && above in m && Split(above) < Split(rel)
    ensures Tree(fs) && GuardPasses(fs, m, rel, false) && Modified(fs, m[above], Split(above))
  {
    var p := Split(above);
    var t := m[above].syncMod + SLOP + 1;
    PrefixesAre(p);
    fs := map q | q in Prefixes(p) :: Dir(t);
    assert [] in fs by { assert [] <= p; }
    forall q | q in fs ensures Seated(fs, q) {
      assert q != [] ==> Parent(q) <= p;
    }
    assert p in Below(fs, p);
    NewestBounds(fs, Below(fs, p));
    assert MTimeAt(fs, p) == t;
    forall k | k in AtOrBelow(m, rel) ensures !Modified(fs, m[k], Split(k)) {
      DescendantsAreSubtree(m, rel, k);
      assert !(Split(k) <= p);
    }
  }
}
