// What can always happen next in a conversation: somebody can move until the
// daemon is done, and when nothing fails the transfer succeeds. Then several
// transfers to one slot.

module Progress {
  import opened Basics
  import opened Paths
  import opened FileSystem
  import opened Framing
  import opened Lines
  import opened Promotion
  import opened Conversation
  import opened Outcomes

  // ------------------------------------------------------------ construction

  function Tick(n: nat): string
  {
    seq(n, i => 'a')
  }

  /** Among n + 1 names one is free on a disk that uses at most n of them. */
  lemma {:induction false} FreshTemp(used: set<Path>, n: nat) returns (temp: string)
    requires |used| <= n
    ensures Aside(temp) !in used && |temp| <= n
    decreases n
  {
    if Aside(Tick(n)) !in used {
      temp := Tick(n);
    } else {
      temp := FreshTemp(used - {Aside(Tick(n))}, n - 1);
      assert |Tick(n)| == n;
      assert Aside(temp) != Aside(Tick(n)) by { assert Aside(temp)[1] == temp && Aside(Tick(n))[1] == Tick(n); }
    }
  }

  /** A disk like fs outside .staging, with an empty staged file. */
  function StagedDisk(fs: FS, staged: Path): FS
  {
    map q | q in fs.Keys + Prefixes(staged) && (InStaging(q) ==> q <= staged)
      :: if q == staged then File([], 0, false) else if InStaging(q) || q !in fs then Dir(0) else fs[q]
  }

  lemma StagedDiskIsFine(p: Plan, fs: FS)
    requires p.Valid() && Tree(fs)
    ensures var d := StagedDisk(fs, p.staged);
            && SlotUnchanged(p, fs, d) && IsStaged(p, d) && d[p.staged].bytes == []
            && forall q :: !InStaging(q) ==> Same(fs, d, q)
  {
    PrefixesAre(p.staged);
    var d := StagedDisk(fs, p.staged);
    assert p.staged <= p.staged;
    forall q | !InStaging(q) ensures Same(fs, d, q) {
      assert q <= p.staged && q != [] ==> InStaging(q);
    }
    forall q | q in d ensures Seated(d, q) {
      if q != [] {
        if InStaging(q) {
          assert Parent(q) <= p.staged && Parent(q) != p.staged;
          assert Parent(q) != [] ==> InStaging(Parent(q));
        } else {
          assert Seated(fs, q) && Same(fs, d, q);
          assert !InStaging(Parent(q));
        }
      }
    }
    forall q | p.dst <= q ensures Same(d, fs, q) {
      StagingIsClosed(p.dst, q);
    }
    AgreeIsSameTree(d, fs, p.dst);
  }

  // -------------------------------------------------------------- no deadlock

  /** Only these can happen without anybody's having to fail. */
  predicate Regular(a: Action)
  {
    !a.GivesUp? && !a.Breaks? && !a.Fails? && !a.Elsewhere?
  }

  predicate ClientCanGo(n: Net)
  {
    n.client.SendingHeader? || n.client.SendingPayload? || (!n.client.ClientEnded? && n.down != [])
  }

  lemma ClientGoes(p: Plan, s: State) returns (a: Action, t: State)
    requires p.Valid() && ClientCanGo(s.net)
    ensures Regular(a) && ClientSteps(p, s.net, a, t.net) && t == s.(net := t.net)
    ensures a == if s.net.client.AwaitingFirst? || s.net.client.AwaitingDone? then Hears
                 else if s.net.toSend == [] then Finishes else Sends(|s.net.toSend|)
  {
    var n := s.net;
    if n.client.AwaitingFirst? || n.client.AwaitingDone? {
      a := Hears;
      t := s.(net := Hear(p, n.(seen := n.seen + [n.down[0]], down := n.down[1..]), n.down[0]));
    } else if n.toSend == [] {
      a := Finishes;
      t := s.(net := if n.client.SendingHeader? then n.(client := AwaitingFirst)
                     else if p.wait then n.(client := AwaitingDone) else Leave(n, true));
    } else {
      a := Sends(|n.toSend|);
      t := s.(net := if n.upEnded then n.(toSend := [], lost := true) else n.(toSend := [], up := n.up + n.toSend));
      assert n.toSend[..|n.toSend|] == n.toSend && n.toSend[|n.toSend|..] == [];
    }
  }

  /** A client that cannot go on has sent everything the daemon waits for. */
  lemma NothingUnsent(p: Plan, s: State)
    requires p.Valid() && Inv(p, s) && !ClientCanGo(s.net) && !s.net.upEnded
    ensures !s.net.downEnded && s.net.down == [] && s.net.seen == s.work.emitted
    ensures s.work.emitted == [] ==> s.net.client == AwaitingFirst
    ensures s.work.emitted == [Received] ==> s.net.client == AwaitingDone
  {
    hide Conversation.Wire, SlotIs, Says;
    assert s.net.seen + s.net.down == s.net.seen;
  }

  lemma HeaderIsThere(p: Plan, s: State)
    requires p.Valid() && Inv(p, s) && s.work.pc.ReadingHeader? && !ClientCanGo(s.net)
    ensures !s.net.upEnded ==> s.net.up == p.Header() && !ReadRequest(s.net.up).Ended?
    ensures !s.net.upEnded && |p.json| < MAX_HEADER ==> ReadRequest(s.net.up).Line?
  {
    hide SlotIs, Framed;
    if !s.net.upEnded {
      NothingUnsent(p, s);
      var up, pay := s.net.up, p.Payload();
      assert up + pay == p.Header() + pay;
      assert |up| == |p.Header()|;
      assert up == (up + pay)[..|up|] == (p.Header() + pay)[..|up|] == p.Header();
      SkipsClean(p.json, [NEWLINE]);
      assert FirstNewline([NEWLINE]) == 0;
    }
  }

  lemma PayloadIsThere(p: Plan, s: State)
    requires p.Valid() && Inv(p, s) && s.work.pc.Receiving? && !ClientCanGo(s.net)
    ensures CanRead(p, s)
  {
    hide SlotIs, Framed, Concat;
    if !s.net.upEnded {
      NothingUnsent(p, s);
      var got := s.mirror.fs[p.staged].bytes;
      var cur, rest :| Midway(p, s.net, s.work.remaining, s.work.total, got, cur, rest);
      AheadIsLong(cur, rest);
      assert s.net.up + [] == s.net.up;
      assert s.net.up == cur + Framed(rest);
      if cur == [] {
        HeaderAhead(s.net.up, rest);
      }
    }
  }

  lemma StagingIsThere(p: Plan, fs: FS)
    requires p.Valid() && Tree(fs) && IsStaged(p, fs)
    ensures STAGING in fs && fs[STAGING].Dir?
  {
    assert STAGING == p.staged[..1];
    TreePrefix(fs, STAGING, p.staged);
  }

  lemma DaemonGoes(p: Plan, s: State) returns (a: Action, t: State)
    requires p.Valid() && Inv(p, s) && !ClientCanGo(s.net) && !s.work.pc.DaemonEnded?
    ensures Regular(a) && (ReceiveSteps(p, s, a, t) || PromoteSteps(p, s, a, t))
  {
    var fs, pc := s.mirror.fs, s.work.pc;
    match pc
    case ReadingHeader =>
      HeaderIsThere(p, s);
      a := ReadsHeader;
      t := match ReadRequest(s.net.up)
           case Line(_, rest) => s.(net := s.net.(up := rest), work := s.work.(pc := Checking, gotHeader := true))
           case _ => Close(Lock(s));
    case Checking =>
      a, t := Checks(true), Goto(Emit(Lock(s), Received), Preparing);
    case Preparing =>
      StagedDiskIsFine(p, fs);
      a := Prepares(StagedDisk(fs, p.staged));
      t := OnDisk(s, StagedDisk(fs, p.staged)).(work := s.work.(pc := Receiving, remaining := 0, total := 0));
    case Receiving =>
      PayloadIsThere(p, s);
      a, t := Reads(Call(1, 1), 0), AfterRead(p, s, ReadNow(p, s, Call(1, 1)), 0);
    case _ =>
      a, t := PromoteGoes(p, s);
  }

  lemma PlacingGoes(p: Plan, s: State) returns (a: Action, t: State)
    requires p.Valid() && Inv(p, s) && s.work.pc.Placing?
    ensures Regular(a) && PromoteSteps(p, s, a, t)
  {
    hide Rename, CanRename, MakeTemp, Says, Heard, SlotHolds, Tree;
    var fs := s.mirror.fs;
    if p.dst in fs {
      StagingIsThere(p, fs);
      var temp := FreshTemp(fs.Keys, |fs.Keys|);
      a, t := MakesTemp(temp, 0), Goto(OnDisk(s, MakeTemp(fs, temp, 0)), Stashing(temp));
    } else if CanRename(fs, p.staged, p.dst) {
      a, t := Installs(true, 0), Goto(InSlot(OnDisk(s, Rename(fs, p.staged, p.dst, 0)), Replaced), Opening);
    } else {
      a, t := Installs(false, 0), Finish(s, DoneError);
    }
  }

  lemma SwapGoes(p: Plan, s: State) returns (a: Action, t: State)
    requires p.Valid() && (s.work.pc.Stashing? || s.work.pc.Vacant?)
    ensures Regular(a) && PromoteSteps(p, s, a, t)
  {
    hide Rename, CanRename;
    var fs := s.mirror.fs;
    match s.work.pc
    case Stashing(temp) =>
      if CanRename(fs, p.dst, OldCopy(temp)) {
        a := MovesAside(true, 0);
        t := Goto(InSlot(OnDisk(s, Rename(fs, p.dst, OldCopy(temp), 0)), Away(temp)), Vacant(temp));
      } else {
        a, t := MovesAside(false, 0), Goto(s, Abandoning(temp));
      }
    case Vacant(temp) =>
      if CanRename(fs, p.staged, p.dst) {
        a, t := Installs(true, 0), Goto(InSlot(OnDisk(s, Rename(fs, p.staged, p.dst, 0)), Replaced), Clearing(temp));
      } else {
        a, t := Installs(false, 0), Goto(s, Reverting(temp));
      }
  }

  lemma PromoteGoes(p: Plan, s: State) returns (a: Action, t: State)
    requires p.Valid() && Inv(p, s) && s.work.pc.Locked() && !s.work.pc.Preparing? && !s.work.pc.Receiving?
    ensures Regular(a) && PromoteSteps(p, s, a, t)
  {
    hide Rename, CanRename, MakeTemp, MkdirAll, Says, Heard, Conversation.Wire, SlotHolds, Tree;
    var fs, pc := s.mirror.fs, s.work.pc;
    match pc
    case Installing =>
      var k := |Parent(p.dst)|;
      a := MakesLevel(k, 0);
      t := match MkdirAll(fs, Parent(p.dst)[..k], 0)
           case None => Finish(s, DoneError)
           case Some(made) => Goto(OnDisk(s, made), Placing);
    case Placing =>
      a, t := PlacingGoes(p, s);
    case Stashing(_) =>
      a, t := SwapGoes(p, s);
    case Vacant(_) =>
      a, t := SwapGoes(p, s);
    case Reverting(temp) =>
      a, t := Reverts(false, 0), Finish(s, DoneError);
    case Abandoning(_) =>
      a, t := Cleared, Finish(s, DoneError);
    case Clearing(_) =>
      a, t := Cleared, Goto(s, Opening);
    case Opening =>
      a, t := Opens(true), Finish(s.(work := s.work.(shown := true)), DoneOk);
  }

  /** No deadlock: until the daemon is done, at every reachable state the client
      or the daemon can take a step without either's giving up, whatever the
      connection has lost. */
  lemma SomeoneCanGoOn(p: Plan, states: seq<State>, actions: seq<Action>, i: nat) returns (a: Action, t: State)
    requires Run(p, states, actions) && i < |states| && !states[i].work.pc.DaemonEnded?
    ensures Regular(a) && Steps(p, states[i], a, t)
  {
    RunKeepsInv(p, states, actions, i);
    if ClientCanGo(states[i].net) {
      a, t := ClientGoes(p, states[i]);
    } else {
      a, t := DaemonGoes(p, states[i]);
    }
  }

  // ------------------------------------------------ when nothing fails

  ghost predicate NetGoes(n: Net, w: Work)
  {
    && n.seen + n.down == w.emitted && DoneError !in w.emitted && n.client != ClientEnded(false)
    && (if w.pc.DaemonEnded? then w.shown else !n.lost && !n.downEnded)
    && (w.pc.DaemonEnded? || (w.pc.Locked() && !w.pc.Preparing?) ==>
          n.client == AwaitingDone || n.client == ClientEnded(true))
  }

  ghost predicate DiskGoes(p: Plan, fs: FS, pc: DaemonPC)
    requires p.dst != []
  {
    match pc
    case Placing => Parent(p.dst) in fs && fs[Parent(p.dst)].Dir?
    case Stashing(temp) => CanRename(fs, p.dst, OldCopy(temp))
    case Vacant(temp) => CanRename(fs, p.staged, p.dst)
    case Abandoning(_) => false
    case Reverting(_) => false
    case Clearing(_) => true
    case Opening => true
    case DaemonEnded => true
    case _ => !Blocked(fs, Parent(p.dst))
  }

  /** So far nothing has failed, and nothing has to: the header and the file are
      within their limits and the slot's directories can be made. */
  ghost predicate Goes(p: Plan, s: State)
    requires p.Valid()
  {
    && Inv(p, s) && |p.json| < MAX_HEADER && |p.Content()| <= p.maxPayload
    && NetGoes(s.net, s.work) && DiskGoes(p, s.mirror.fs, s.work.pc)
  }

  function ClientRank(n: Net): nat
  {
    match n.client
    case SendingHeader => if n.toSend == [] then 5 else 6
    case AwaitingFirst => 4
    case SendingPayload => if n.toSend == [] then 2 else 3
    case AwaitingDone => 1
    case ClientEnded(_) => 0
  }

  function DaemonRank(pc: DaemonPC): nat
  {
    match pc
    case ReadingHeader => 12
    case Checking => 11
    case Preparing => 10
    case Receiving => 9
    case Installing => 8
    case Placing => 7
    case Stashing(_) => 6
    case Vacant(_) => 5
    case Reverting(_) => 4
    case Abandoning(_) => 3
    case Clearing(_) => 2
    case Opening => 1
    case DaemonEnded => 0
  }

  /** The step brings the conversation nearer to its end. */
  predicate Nearer(s: State, t: State)
  {
    || ClientRank(t.net) < ClientRank(s.net)
    || (ClientRank(t.net) == ClientRank(s.net) && DaemonRank(t.work.pc) < DaemonRank(s.work.pc))
    || (ClientRank(t.net) == ClientRank(s.net) && t.work.pc == s.work.pc && |t.net.up| < |s.net.up|)
  }

  ghost predicate GoodStep(p: Plan, s: State, a: Action, t: State)
    requires p.Valid()
  {
    Steps(p, s, a, t) && Goes(p, t) && Nearer(s, t)
  }

  lemma ClientGoodStep(p: Plan, s: State) returns (a: Action, t: State)
    requires p.Valid() && Goes(p, s) && ClientCanGo(s.net)
    ensures GoodStep(p, s, a, t)
  {
    hide Conversation.Wire, SlotIs, DiskGoes;
    a, t := ClientGoes(p, s);
    StepKeepsInv(p, s, a, t);
    if a == Hears {
      NextMessage(s.net.seen, s.net.down, s.work.emitted);
      FirstIsReceived(s);
    }
  }

  /** The first event is Received, the second DoneOk. */
  lemma FirstIsReceived(s: State)
    requires Says(s) && NetGoes(s.net, s.work) && s.net.down != []
    ensures s.net.seen == [] ==> s.net.down[0] == Received
    ensures s.net.seen == [Received] ==> s.net.down[0] == DoneOk
  {
    var e := s.work.emitted;
    assert e[|s.net.seen|] == s.net.down[0] by { assert (s.net.seen + s.net.down)[|s.net.seen|] == s.net.down[0]; }
  }

  /** Without a hitch the daemon only changes its place, the disk and the slot. */
  lemma Onward(p: Plan, s: State, a: Action, t: State)
    requires p.Valid() && Goes(p, s) && Steps(p, s, a, t)
    requires t.net == s.net && t.work == s.work.(pc := t.work.pc)
    requires s.net.client == AwaitingDone || s.net.client == ClientEnded(true)
    requires t.work.pc.Locked() && s.work.pc.Locked() && DaemonRank(t.work.pc) < DaemonRank(s.work.pc)
    requires DiskGoes(p, t.mirror.fs, t.work.pc)
    ensures GoodStep(p, s, a, t)
  {
    hide Inv, Steps, DiskGoes;
    StepKeepsInv(p, s, a, t);
  }

  lemma HeaderGood(p: Plan, s: State) returns (a: Action, t: State)
    requires p.Valid() && Goes(p, s) && !ClientCanGo(s.net) && s.work.pc.ReadingHeader?
    ensures GoodStep(p, s, a, t)
  {
    hide SlotIs, Blocked, ReadRequest, Framed, Conversation.Wire;
    assert !s.net.upEnded by { StillUp(p, s); }
    HeaderIsThere(p, s);
    var rest := ReadRequest(s.net.up).rest;
    a := ReadsHeader;
    t := s.(net := s.net.(up := rest), work := s.work.(pc := Checking, gotHeader := true));
    StepKeepsInv(p, s, a, t);
  }

  /** A client that has not been answered has not left. */
  lemma StillUp(p: Plan, s: State)
    requires p.Valid() && Goes(p, s) && s.work.emitted == []
    ensures !s.net.upEnded
  {
    hide Conversation.Wire, SlotIs;
    assert s.net.seen == [];
  }

  lemma CheckGood(p: Plan, s: State) returns (a: Action, t: State)
    requires p.Valid() && Goes(p, s) && !ClientCanGo(s.net) && s.work.pc.Checking?
    ensures GoodStep(p, s, a, t)
  {
    hide SlotIs, Conversation.Wire, Blocked;
    a, t := Checks(true), Goto(Emit(Lock(s), Received), Preparing);
    Told(s.net.seen, s.net.down, s.work.emitted, Received);
    StepKeepsInv(p, s, a, t);
  }

  lemma BlockedSame(a: FS, b: FS, p: Path)
    requires !Blocked(a, p) && forall q :: q <= p ==> Same(a, b, q)
    ensures !Blocked(b, p)
  {
    forall k | 0 <= k <= |p| && p[..k] in b ensures b[p[..k]].Dir? {
      assert p[..k] <= p && Same(a, b, p[..k]);
    }
  }

  lemma AboveIsOutside(p: Plan, q: Path)
    requires p.Valid() && q <= Parent(p.dst)
    ensures !InStaging(q)
  {
    assert q != [] ==> q[0] == p.dst[0];
  }

  lemma PrepareGood(p: Plan, s: State) returns (a: Action, t: State)
    requires p.Valid() && Goes(p, s) && !ClientCanGo(s.net) && s.work.pc.Preparing?
    ensures GoodStep(p, s, a, t)
  {
    hide SlotHolds, Conversation.Wire, Blocked, Tree, StagedDisk;
    var d := StagedDisk(s.mirror.fs, p.staged);
    StagedDiskIsFine(p, s.mirror.fs);
    a := Prepares(d);
    t := OnDisk(s, d).(work := s.work.(pc := Receiving, remaining := 0, total := 0));
    assert Steps(p, s, a, t);
    StepKeepsInv(p, s, a, t);
    WaitingIsDone(p, s);
    forall q | q <= Parent(p.dst) ensures Same(s.mirror.fs, d, q) {
      AboveIsOutside(p, q);
    }
    BlockedSame(s.mirror.fs, d, Parent(p.dst));
  }

  /** After Received the client can go on until it has sent its file. */
  lemma WaitingIsDone(p: Plan, s: State)
    requires p.Valid() && Goes(p, s) && !ClientCanGo(s.net) && s.work.emitted == [Received]
    ensures s.net.client == AwaitingDone || s.net.client == ClientEnded(true)
  {
    hide Conversation.Wire, SlotIs, DiskGoes;
  }

  lemma ReadGood(p: Plan, s: State) returns (a: Action, t: State)
    requires p.Valid() && Goes(p, s) && !ClientCanGo(s.net) && s.work.pc.Receiving?
    ensures GoodStep(p, s, a, t)
  {
    hide SlotIs, Blocked, ReadStep, Says, Heard, Midway, CanRead;
    var c := Call(1, 1);
    PayloadIsThere(p, s);
    NoSpuriousReadError(p, s, c);
    a, t := Reads(c, 0), AfterRead(p, s, ReadNow(p, s, c), 0);
    assert Steps(p, s, a, t);
    StepKeepsInv(p, s, a, t);
    forall q | q <= Parent(p.dst) ensures Same(s.mirror.fs, t.mirror.fs, q) {
      AboveIsOutside(p, q);
    }
    BlockedSame(s.mirror.fs, t.mirror.fs, Parent(p.dst));
  }

  lemma LevelGood(p: Plan, s: State) returns (a: Action, t: State)
    requires p.Valid() && Goes(p, s) && s.work.pc.Installing?
    ensures GoodStep(p, s, a, t)
  {
    hide SlotHolds, MkdirAll, Says, Heard, Tree;
    var k := |Parent(p.dst)|;
    assert Parent(p.dst)[..k] == Parent(p.dst);
    FreeIfMade(s.mirror.fs, Parent(p.dst), 0);
    MkdirAllAdds(s.mirror.fs, Parent(p.dst), 0);
    var made := MkdirAll(s.mirror.fs, Parent(p.dst), 0).value;
    a, t := MakesLevel(k, 0), Goto(OnDisk(s, made), Placing);
    Onward(p, s, a, t);
  }

  lemma TakenGood(p: Plan, s: State) returns (a: Action, t: State)
    requires p.Valid() && Goes(p, s) && s.work.pc.Placing? && p.dst in s.mirror.fs
    ensures GoodStep(p, s, a, t)
  {
    hide SlotHolds, Says, Heard, MakeTemp, Rename;
    var fs := s.mirror.fs;
    StagingIsThere(p, fs);
    var temp := FreshTemp(fs.Keys, |fs.Keys|);
    MoveAsideEffect(fs, p.staged, p.dst, temp, 0);
    a, t := MakesTemp(temp, 0), Goto(OnDisk(s, MakeTemp(fs, temp, 0)), Stashing(temp));
    Onward(p, s, a, t);
  }

  lemma FreeGood(p: Plan, s: State) returns (a: Action, t: State)
    requires p.Valid() && Goes(p, s) && s.work.pc.Placing? && p.dst !in s.mirror.fs
    ensures GoodStep(p, s, a, t)
  {
    hide SlotHolds, Says, Heard, Rename;
    var fs := s.mirror.fs;
    if p.staged <= p.dst { StagingIsClosed(p.staged, p.dst); }
    a, t := Installs(true, 0), Goto(InSlot(OnDisk(s, Rename(fs, p.staged, p.dst, 0)), Replaced), Opening);
    Onward(p, s, a, t);
  }

  lemma StashGood(p: Plan, s: State) returns (a: Action, t: State)
    requires p.Valid() && Goes(p, s) && s.work.pc.Stashing?
    ensures GoodStep(p, s, a, t)
  {
    hide Rename, CanRename, SameTree, Heard, Tree;
    var fs, temp := s.mirror.fs, s.work.pc.temp;
    AsideMoves(p, fs, s.mirror.before, temp, 0);
    a := MovesAside(true, 0);
    t := Goto(InSlot(OnDisk(s, Rename(fs, p.dst, OldCopy(temp), 0)), Away(temp)), Vacant(temp));
    Onward(p, s, a, t);
  }

  lemma LastGood(p: Plan, s: State) returns (a: Action, t: State)
    requires p.Valid() && Goes(p, s) && (s.work.pc.Vacant? || s.work.pc.Clearing?)
    ensures GoodStep(p, s, a, t)
  {
    hide Rename, CanRename, SlotHolds, Says, Heard, Tree;
    var fs, pc := s.mirror.fs, s.work.pc;
    if pc.Vacant? {
      a := Installs(true, 0);
      t := Goto(InSlot(OnDisk(s, Rename(fs, p.staged, p.dst, 0)), Replaced), Clearing(pc.temp));
    } else {
      a, t := Cleared, Goto(s, Opening);
    }
    Onward(p, s, a, t);
  }

  lemma OpenGood(p: Plan, s: State) returns (a: Action, t: State)
    requires p.Valid() && Goes(p, s) && s.work.pc.Opening?
    ensures GoodStep(p, s, a, t)
  {
    hide SlotHolds, Tree;
    a, t := Opens(true), Finish(s.(work := s.work.(shown := true)), DoneOk);
    Told(s.net.seen, s.net.down, s.work.emitted, DoneOk);
    StepKeepsInv(p, s, a, t);
  }

  lemma DaemonGoodStep(p: Plan, s: State) returns (a: Action, t: State)
    requires p.Valid() && Goes(p, s) && !ClientCanGo(s.net) && !s.work.pc.DaemonEnded?
    ensures GoodStep(p, s, a, t)
  {
    assert !s.work.pc.Abandoning? && !s.work.pc.Reverting?;
    hide Goes, GoodStep;
    match s.work.pc
    case ReadingHeader => a, t := HeaderGood(p, s);
    case Checking => a, t := CheckGood(p, s);
    case Preparing => a, t := PrepareGood(p, s);
    case Receiving => a, t := ReadGood(p, s);
    case Installing => a, t := LevelGood(p, s);
    case Placing =>
      if p.dst in s.mirror.fs {
        a, t := TakenGood(p, s);
      } else {
        a, t := FreeGood(p, s);
      }
    case Stashing(_) => a, t := StashGood(p, s);
    case Vacant(_) => a, t := LastGood(p, s);
    case Clearing(_) => a, t := LastGood(p, s);
    case Opening => a, t := OpenGood(p, s);
    case _ =>
  }

  ghost predicate Follows(p: Plan, states: seq<State>, actions: seq<Action>)
    requires p.Valid()
  {
    && |states| == |actions| + 1
    && forall i :: 0 <= i < |actions| ==> Steps(p, states[i], actions[i], states[i + 1])
  }

  lemma Prepend(p: Plan, s: State, a: Action, states: seq<State>, actions: seq<Action>)
    requires p.Valid() && Follows(p, states, actions) && Steps(p, s, a, states[0])
    ensures Follows(p, [s] + states, [a] + actions)
  {
    hide Steps;
    var ss, aa := [s] + states, [a] + actions;
    forall i | 0 <= i < |aa| ensures Steps(p, ss[i], aa[i], ss[i + 1]) {
      if i > 0 {
        assert ss[i] == states[i - 1] && aa[i] == actions[i - 1] && ss[i + 1] == states[i - 1 + 1];
      }
    }
  }

  lemma {:induction false} Drive(p: Plan, s: State) returns (states: seq<State>, actions: seq<Action>)
    requires p.Valid() && Goes(p, s)
    ensures Follows(p, states, actions) && states[0] == s
    ensures var end := states[|states| - 1];
            Goes(p, end) && end.work.pc.DaemonEnded? && !ClientCanGo(end.net)
    decreases ClientRank(s.net), DaemonRank(s.work.pc), |s.net.up|
  {
    hide Goes, Steps;
    if !ClientCanGo(s.net) && s.work.pc.DaemonEnded? {
      states, actions := [s], [];
    } else {
      var a, t;
      if ClientCanGo(s.net) {
        a, t := ClientGoodStep(p, s);
      } else {
        a, t := DaemonGoodStep(p, s);
      }
      var ss, aa := Drive(p, t);
      Prepend(p, s, a, ss, aa);
      states, actions := [s] + ss, [a] + aa;
      assert states[|states| - 1] == ss[|ss| - 1];
    }
  }

  /** When nothing has to fail there is a run that succeeds: the client returns
      nil, the opener has succeeded and the slot holds the file. */
  lemma TransferCanSucceed(p: Plan, start: State) returns (states: seq<State>, actions: seq<Action>)
    requires p.Valid() && Initial(p, start) && !Blocked(start.mirror.fs, Parent(p.dst))
    requires |p.json| < MAX_HEADER && |p.Content()| <= p.maxPayload
    ensures Run(p, states, actions) && states[0] == start
    ensures var end := states[|states| - 1];
            && end.net.client == ClientEnded(true) && end.work.pc == DaemonEnded && end.work.shown
            && end.mirror.slot == Replaced
            && var v := end.mirror.after; p.dst in v && v[p.dst].File? && v[p.dst].bytes == p.Content()
  {
    InitialInv(p, start);
    assert Goes(p, start);
    hide Steps, Blocked, Initial;
    states, actions := Drive(p, start);
    EndIsSuccess(p, states[|states| - 1]);
  }

  lemma EndIsSuccess(p: Plan, s: State)
    requires p.Valid() && Goes(p, s) && s.work.pc.DaemonEnded? && !ClientCanGo(s.net)
    ensures s.net.client == ClientEnded(true) && s.work.shown && s.mirror.slot == Replaced
    ensures var v := s.mirror.after; p.dst in v && v[p.dst].File? && v[p.dst].bytes == p.Content()
  {
    assert s.net.seen + [] == s.net.seen;
  }

  // ------------------------------------------- promote, with nobody between

  ghost predicate ReplaceSteps(p: Plan, s: seq<State>, temp: string, stuck: set<Path>, now: Time)
    requires p.dst != [] && |s| == 7
  {
    && PromoteSteps(p, s[0], MakesLevel(|Parent(p.dst)|, now), s[1])
    && PromoteSteps(p, s[1], MakesTemp(temp, now), s[2])
    && PromoteSteps(p, s[2], MovesAside(true, now), s[3])
    && PromoteSteps(p, s[3], Installs(true, now), s[4])
    && PromoteSteps(p, s[4], Clears(stuck, now), s[5])
    && PromoteSteps(p, s[5], Cleared, s[6])
  }

  lemma ReplaceDisks(p: Plan, s: seq<State>, temp: string, stuck: set<Path>, now: Time)
    requires p.dst != [] && |s| == 7 && ReplaceSteps(p, s, temp, stuck, now)
    requires MkdirAll(s[0].mirror.fs, Parent(p.dst), now).Some?
    ensures MkdirAll(s[0].mirror.fs, Parent(p.dst), now) == Some(s[1].mirror.fs)
    ensures s[2].mirror.fs == MakeTemp(s[1].mirror.fs, temp, now)
    ensures CanRename(s[2].mirror.fs, p.dst, OldCopy(temp))
    ensures s[3].mirror.fs == Rename(s[2].mirror.fs, p.dst, OldCopy(temp), now)
    ensures CanRename(s[3].mirror.fs, p.staged, p.dst)
    ensures s[4].mirror.fs == Rename(s[3].mirror.fs, p.staged, p.dst, now)
    ensures s[5].mirror.fs == RemoveAll(s[4].mirror.fs, Aside(temp), stuck, now) == s[6].mirror.fs
  {
    hide Rename, CanRename, MakeTemp, MkdirAll, RemoveAll;
    assert Parent(p.dst)[..|Parent(p.dst)|] == Parent(p.dst);
    assert s[2].work.pc == Stashing(temp);
    assert s[3].work.pc == Vacant(temp);
    assert s[4].work.pc == Clearing(temp) == s[5].work.pc;
  }

  /** The steps of a replace with no other request in between pass through the
      disks of Promotion.Promote, and end at its last. */
  lemma ReplaceFollowsPromote(
    p: Plan, s: seq<State>, temp: string, stuck: set<Path>, halfway: set<Path>, now: Time)
    requires p.Valid() && |s| == 7 && ReplaceSteps(p, s, temp, stuck, now)
    requires Ready(s[0].mirror.fs, p.staged, p.dst, temp) && p.dst in s[0].mirror.fs
    ensures var f := Faults(|Parent(p.dst)|, true, true, true, true, stuck, halfway);
            var o := Promote(s[0].mirror.fs, p.staged, p.dst, temp, f, now);
            var n := |o.trace|;
            && o.ok && n > 6 && o.trace[0] == s[0].mirror.fs
            && o.trace[n - 6] == s[1].mirror.fs && o.trace[n - 5] == s[2].mirror.fs
            && o.trace[n - 4] == s[3].mirror.fs && o.trace[n - 3] == s[4].mirror.fs
            && o.trace[n - 1] == s[5].mirror.fs == s[6].mirror.fs
  {
    hide Rename, CanRename, MakeTemp, MkdirAll, RemoveAll, Tree, ReplaceSteps;
    var fs, parent := s[0].mirror.fs, Parent(p.dst);
    assert parent[..|parent|] == parent;
    ReadyTree(fs, p.staged, p.dst, temp);
    DirsAbove(fs, p.dst, now);
    ReplaceDisks(p, s, temp, stuck, now);
    MkdirEffect(fs, p.staged, p.dst, temp, |parent|, now);
    AgreesHere(s[1].mirror.fs, fs, p.dst);
  }

  // ------------------------------------ promote, whichever steps fail

  ghost predicate DaemonSteps(p: Plan, s: State, a: Action, t: State)
    requires p.dst != []
  {
    ReceiveSteps(p, s, a, t) || PromoteSteps(p, s, a, t)
  }

  /** A path of the daemon alone. */
  ghost predicate Walks(p: Plan, ss: seq<State>, aa: seq<Action>)
    requires p.dst != []
  {
    |ss| == |aa| + 1 && forall i :: 0 <= i < |aa| ==> DaemonSteps(p, ss[i], aa[i], ss[i + 1])
  }

  lemma WalkOn(p: Plan, s: State, a: Action, ss: seq<State>, aa: seq<Action>)
    requires p.dst != [] && Walks(p, ss, aa) && DaemonSteps(p, s, a, ss[0])
    ensures Walks(p, [s] + ss, [a] + aa)
  {
    hide DaemonSteps;
    var s', a' := [s] + ss, [a] + aa;
    forall i | 0 <= i < |a'| ensures DaemonSteps(p, s'[i], a'[i], s'[i + 1]) {
      if i > 0 {
        assert s'[i] == ss[i - 1] && a'[i] == aa[i - 1] && s'[i + 1] == ss[i - 1 + 1];
      }
    }
  }

  /** Where the daemon is when Promote has returned. */
  ghost predicate Returned(t: State, fs: FS, ok: bool)
  {
    && t.mirror.fs == fs
    && if ok then t.work.pc.Opening? && t.mirror.slot == Replaced
       else t.work.pc.DaemonEnded? && t.work.emitted != [] && t.work.emitted[|t.work.emitted| - 1] == DoneError
  }

  lemma Stop(p: Plan, s: State) returns (ss: seq<State>, aa: seq<Action>)
    requires p.dst != [] && (s.work.pc.Installing? || s.work.pc.Placing?)
    ensures Walks(p, ss, aa) && ss[0] == s && Returned(ss[|ss| - 1], s.mirror.fs, false)
  {
    ss, aa := [s, Finish(s, DoneError)], [Fails];
  }

  /** From the aside directory, cleared as far as it can be. */
  lemma ClearAway(p: Plan, s: State, stuck: set<Path>, now: Time) returns (ss: seq<State>, aa: seq<Action>)
    requires p.dst != [] && (s.work.pc.Clearing? || s.work.pc.Abandoning?)
    requires s.work.pc.Clearing? ==> s.mirror.slot == Replaced
    ensures Walks(p, ss, aa) && ss[0] == s
    ensures Returned(ss[|ss| - 1], RemoveAll(s.mirror.fs, Aside(s.work.pc.temp), stuck, now), s.work.pc.Clearing?)
  {
    hide RemoveAll;
    var t := OnDisk(s, RemoveAll(s.mirror.fs, Aside(s.work.pc.temp), stuck, now));
    ss := [s, t, if s.work.pc.Clearing? then Goto(t, Opening) else Finish(t, DoneError)];
    aa := [Clears(stuck, now), Cleared];
  }

  lemma GoBack(p: Plan, s: State, ok: bool, now: Time) returns (ss: seq<State>, aa: seq<Action>)
    requires p.dst != [] && s.work.pc.Vacant? && (ok ==> CanRename(s.mirror.fs, OldCopy(s.work.pc.temp), p.dst))
    ensures Walks(p, ss, aa) && ss[0] == s
    ensures Returned(ss[|ss| - 1],
                     if ok then Rename(s.mirror.fs, OldCopy(s.work.pc.temp), p.dst, now) else s.mirror.fs, false)
  {
    hide Rename, CanRename;
    var temp := s.work.pc.temp;
    var t := Goto(s, Reverting(temp));
    var u := if ok then Finish(InSlot(OnDisk(t, Rename(t.mirror.fs, OldCopy(temp), p.dst, now)), Untouched), DoneError)
             else Finish(t, DoneError);
    ss, aa := [s, t, u], [Installs(false, now), Reverts(ok, now)];
  }

  /** With the old copy aside: install the new one and clean up, or go back. */
  lemma SwapIsFollowed(p: Plan, s: State, f: Faults, now: Time) returns (ss: seq<State>, aa: seq<Action>)
    requires p.dst != [] && s.work.pc.Vacant?
    requires CanRename(s.mirror.fs, p.staged, p.dst) && CanRename(s.mirror.fs, OldCopy(s.work.pc.temp), p.dst)
    ensures Walks(p, ss, aa) && ss[0] == s
    ensures var d, temp := s.mirror.fs, s.work.pc.temp;
            Returned(ss[|ss| - 1],
                     if f.installs then RemoveAll(Rename(d, p.staged, p.dst, now), Aside(temp), f.stuck, now)
                     else if f.rollsBack then Rename(d, OldCopy(temp), p.dst, now)
                     else d,
                     f.installs)
  {
    hide Rename, CanRename, RemoveAll, Walks;
    if f.installs {
      var fs := Rename(s.mirror.fs, p.staged, p.dst, now);
      ss, aa := ClearAway(p, Goto(InSlot(OnDisk(s, fs), Replaced), Clearing(s.work.pc.temp)), f.stuck, now);
      ss, aa := Onto(p, s, Installs(true, now), ss, aa);
    } else {
      ss, aa := GoBack(p, s, f.rollsBack, now);
    }
  }

  /** From a taken slot: for every choice of failing steps there is a path of the
      daemon that ends as Replace does. */
  lemma ReplaceIsFollowed(
    p: Plan, s: State, before: seq<FS>, temp: string, f: Faults, now: Time) returns (ss: seq<State>, aa: seq<Action>)
    requires p.Valid() && s.work.pc.Placing? && p.dst in s.mirror.fs
    requires Ready(s.mirror.fs, p.staged, p.dst, temp)
    ensures Walks(p, ss, aa) && ss[0] == s
    ensures var o := Replace(before, s.mirror.fs, p.staged, p.dst, temp, f, now);
            o.trace != [] && Returned(ss[|ss| - 1], o.trace[|o.trace| - 1], o.ok)
  {
    hide Rename, CanRename, MakeTemp, RemoveAll, Tree, Frame, AgreeAt, SameTree, Walks;
    var d := s.mirror.fs;
    if !f.makesTemp {
      ss, aa := Stop(p, s);
    } else {
      MakeTempEffect(d, p.staged, p.dst, temp, now);
      var d2 := MakeTemp(d, temp, now);
      var s2 := Goto(OnDisk(s, d2), Stashing(temp));
      if !f.movesAside {
        var s3 := Goto(s2, Abandoning(temp));
        ss, aa := ClearAway(p, s3, f.stuck, now);
        ss, aa := Onto(p, s2, MovesAside(false, now), ss, aa);
      } else {
        MoveAsideEffect(d, p.staged, p.dst, temp, now);
        var s3 := Goto(InSlot(OnDisk(s2, Rename(d2, p.dst, OldCopy(temp), now)), Away(temp)), Vacant(temp));
        ss, aa := SwapIsFollowed(p, s3, f, now);
        ss, aa := Onto(p, s2, MovesAside(true, now), ss, aa);
      }
      ss, aa := Onto(p, s, MakesTemp(temp, now), ss, aa);
    }
  }

  lemma Onto(p: Plan, s: State, a: Action, ss: seq<State>, aa: seq<Action>) returns (ss': seq<State>, aa': seq<Action>)
    requires p.dst != [] && Walks(p, ss, aa) && DaemonSteps(p, s, a, ss[0])
    ensures Walks(p, ss', aa') && ss' == [s] + ss && aa' == [a] + aa
    ensures ss'[|ss'| - 1] == ss[|ss| - 1]
  {
    WalkOn(p, s, a, ss, aa);
    ss', aa' := [s] + ss, [a] + aa;
  }

  lemma FreeIsFollowed(p: Plan, s: State, f: Faults, now: Time) returns (ss: seq<State>, aa: seq<Action>)
    requires p.dst != [] && s.work.pc.Placing? && CanRename(s.mirror.fs, p.staged, p.dst)
    ensures Walks(p, ss, aa) && ss[0] == s
    ensures Returned(ss[|ss| - 1],
                     if f.installs then Rename(s.mirror.fs, p.staged, p.dst, now) else s.mirror.fs, f.installs)
  {
    hide Rename, Walks;
    assert p.dst !in s.mirror.fs;
    if f.installs {
      ss, aa := Ends(p, Goto(InSlot(OnDisk(s, Rename(s.mirror.fs, p.staged, p.dst, now)), Replaced), Opening));
    } else {
      ss, aa := Ends(p, Finish(s, DoneError));
    }
    ss, aa := Onto(p, s, Installs(f.installs, now), ss, aa);
  }

  /** For every choice of failing steps, with no other request in between, there
      is a path of the daemon that ends on the last disk of Promotion.Promote and
      with its verdict. */
  lemma PromoteIsFollowed(p: Plan, s: State, temp: string, f: Faults, now: Time)
    returns (ss: seq<State>, aa: seq<Action>)
    requires p.Valid() && s.work.pc.Installing? && Ready(s.mirror.fs, p.staged, p.dst, temp)
    ensures Walks(p, ss, aa) && ss[0] == s
    ensures var o := Promote(s.mirror.fs, p.staged, p.dst, temp, f, now);
            o.trace != [] && Returned(ss[|ss| - 1], o.trace[|o.trace| - 1], o.ok)
  {
    hide Rename, CanRename, MakeTemp, RemoveAll, MkdirAll, Tree, Frame, AgreeAt, SameTree, Walks, Replace, Levels;
    var fs, parent := s.mirror.fs, Parent(p.dst);
    var depth := if f.mkdirDepth < |parent| then f.mkdirDepth else |parent|;
    var made := MkdirAll(fs, parent[..depth], now);
    if made.None? {
      ss, aa := Ends(p, Finish(s, DoneError));
      ss, aa := Onto(p, s, MakesLevel(depth, now), ss, aa);
    } else {
      FreeIfMade(fs, parent[..depth], now);
      MkdirEffect(fs, p.staged, p.dst, temp, depth, now);
      var s2 := Goto(OnDisk(s, made.value), if depth == |parent| then Placing else Installing);
      var before := [fs] + Levels(fs, parent[..depth], now);
      if depth < |parent| {
        ss, aa := Stop(p, s2);
      } else if p.dst in made.value {
        ss, aa := ReplaceIsFollowed(p, s2, before, temp, f, now);
      } else {
        ss, aa := FreeIsFollowed(p, s2, f, now);
      }
      ss, aa := Onto(p, s, MakesLevel(depth, now), ss, aa);
    }
  }

  lemma Ends(p: Plan, s: State) returns (ss: seq<State>, aa: seq<Action>)
    requires p.dst != []
    ensures Walks(p, ss, aa) && ss == [s] && aa == []
  {
    ss, aa := [s], [];
  }

  // ---------------------------------------------- several requests, one slot

  /** A request that has ended, and how it left the slot. */
  datatype Request = Request(p: Plan, states: seq<State>, actions: seq<Action>)
  {
    ghost predicate Ended()
    {
      Run(p, states, actions) && states[|states| - 1].work.pc.DaemonEnded?
    }

    function Last(): State
      requires states != []
    {
      states[|states| - 1]
    }
  }

  /** Requests that held the lock of one slot one after another, with nobody else
      at the slot: each finds what the one before it has left. */
  ghost predicate InTurn(rs: seq<Request>, dst: Path)
  {
    && (forall i :: 0 <= i < |rs| ==> rs[i].Ended() && rs[i].p.dst == dst)
    && forall i :: 0 < i < |rs| ==>
         SameTree(rs[i].Last().mirror.before, dst, rs[i - 1].Last().mirror.after, dst)
  }

  /** What the slot holds after a sequence of requests. */
  ghost predicate HoldsOneOf(rs: seq<Request>, dst: Path, v: FS)
    requires rs != [] && rs[0].states != []
  {
    || SameTree(v, dst, rs[0].Last().mirror.before, dst)
    || dst !in v
    || exists j :: 0 <= j < |rs| && dst in v && v[dst].File? && v[dst].bytes == rs[j].p.Content()
  }

  /** After any number of requests on one slot it holds what it held before the
      first, or the whole file of one of them, or nothing. */
  lemma {:induction false} SlotHistory(rs: seq<Request>, dst: Path)
    requires rs != [] && InTurn(rs, dst)
    ensures rs[0].states != [] && rs[|rs| - 1].states != []
    ensures HoldsOneOf(rs, dst, rs[|rs| - 1].Last().mirror.after)
    decreases |rs|
  {
    hide Run, SameTree, Inv;
    var n := |rs| - 1;
    var r := rs[n];
    assert r.Ended() && rs[0].Ended();
    EndedSlot(r);
    EndedSlot(rs[0]);
    var v, before := r.Last().mirror.after, r.Last().mirror.before;
    if n > 0 {
      var init := rs[..n];
      assert rs[n - 1].Ended();
      assert init[n - 1] == rs[n - 1] && init[0] == rs[0];
      SlotHistory(init, dst);
      var w := init[n - 1].Last().mirror.after;
      assert SameTree(before, dst, w, dst);
      if SameTree(v, dst, before, dst) {
        SameTreeTrans(v, dst, before, dst, w, dst);
        RootOf(v, dst, w, dst);
        if SameTree(w, dst, rs[0].Last().mirror.before, dst) {
          SameTreeTrans(v, dst, w, dst, rs[0].Last().mirror.before, dst);
        } else if j :| 0 <= j < |init| && dst in w && w[dst].File? && w[dst].bytes == init[j].p.Content() {
          assert init[j] == rs[j];
        }
      }
    }
  }

  lemma EndedSlot(r: Request)
    requires r.Ended()
    ensures r.states != []
    ensures var m := r.Last().mirror;
            || SameTree(m.after, r.p.dst, m.before, r.p.dst)
            || r.p.dst !in m.after
            || (r.p.dst in m.after && m.after[r.p.dst].File? && m.after[r.p.dst].bytes == r.p.Content())
  {
    TransferIsAtomic(r.p, r.states, r.actions, |r.states| - 1);
  }
}
