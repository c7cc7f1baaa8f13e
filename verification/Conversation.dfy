// One inline file transfer end to end: Open of internal/client/client.go from
// the dial onward, handle and receiveInline of internal/daemon/server.go with
// Promote of internal/mirror/mirror.go rename by rename, and the connection
// between them, as interleaved steps. The connection delivers in any fragments
// and may break at any time, losing whatever is in flight; every step that can
// fail may fail; other requests work on the same disk in between. Here are the
// steps and the invariant that all of them keep.

module Conversation {
  import opened Basics
  import opened Paths
  import opened FileSystem
  import opened Framing
  import opened Lines
  import opened Promotion

  /** What is fixed for one conversation. The client reads chunks, one after
      another, from its file. */
  datatype Plan = Plan(
    json: seq<byte>, chunks: seq<seq<byte>>, wait: bool, maxPayload: int, staged: Path, dst: Path)
  {
    function Content(): seq<byte>
    {
      Concat(chunks)
    }

    ghost predicate Valid()
    {
      && NEWLINE !in json && WriteRequest(json).Wire? && WellSized(chunks)
      && |staged| >= 2 && InStaging(staged) && |dst| >= 2 && !InStaging(dst)
    }

    function Header(): seq<byte>
    {
      json + [NEWLINE]
    }

    function Payload(): seq<byte>
      requires WellSized(chunks)
    {
      Framed(chunks)
    }
  }

  datatype Message = Received | DoneOk | DoneError

  datatype ClientPC = SendingHeader | AwaitingFirst | SendingPayload | AwaitingDone | ClientEnded(ok: bool)

  /** From Preparing to Opening the request holds the lock of its slot. */
  datatype DaemonPC =
    | ReadingHeader
    | Checking
    | Preparing
    | Receiving
    | Installing              // making the directories above the slot
    | Placing                 // about to look whether the slot is taken
    | Stashing(temp: string)  // the aside directory is there
    | Abandoning(temp: string)
    | Vacant(temp: string)    // the old copy is aside, the new one not yet in
    | Reverting(temp: string)
    | Clearing(temp: string)  // the new copy is in, the old one on its way out
    | Opening
    | DaemonEnded
  {
    predicate Locked()
    {
      !ReadingHeader? && !Checking? && !DaemonEnded?
    }

    predicate HasAside()
    {
      Stashing? || Abandoning? || Vacant? || Reverting? || Clearing?
    }

    predicate HasStaged()
    {
      Receiving? || Installing? || Placing? || Stashing? || Vacant?
    }
  }

  /** What has become of the slot: as it was when the lock was taken, empty with
      the old copy in an aside directory, or holding the new file. */
  datatype Slot = Untouched | Away(temp: string) | Replaced

  /** The client and the wires. up and down are in flight; once ended, a direction
      carries nothing more. seen records the events the client has read; lost,
      that some of what the client had to send will not arrive. */
  datatype Net = Net(
    client: ClientPC, toSend: seq<byte>, seen: seq<Message>,
    up: seq<byte>, upEnded: bool, lost: bool, down: seq<Message>, downEnded: bool)

  /** The daemon. emitted records the events it wrote; shown, that the opener
      succeeded. */
  datatype Work = Work(
    pc: DaemonPC, remaining: nat, total: nat, emitted: seq<Message>, gotHeader: bool, shown: bool)

  /** The disk now, when the lock was taken, and when it was released. */
  datatype Mirrored = Mirrored(fs: FS, before: FS, after: FS, slot: Slot)

  datatype State = State(net: Net, work: Work, mirror: Mirrored)

  ghost predicate Initial(p: Plan, s: State)
  {
    && s.net == Net(SendingHeader, p.Header(), [], [], false, false, [], false)
    && s.work == Work(ReadingHeader, 0, 0, [], false, false)
    && Tree(s.mirror.fs) && s.mirror.slot == Untouched
  }

  // ------------------------------------------------------------------- steps

  datatype Action =
    | Sends(n: nat)               // some bytes leave the client
    | Finishes                    // everything of this phase has left
    | Hears                       // the client reads the next event
    | GivesUp                     // any client-side failure
    | Breaks(i: nat, j: nat)      // the connection; only so much in flight arrives
    | ReadsHeader
    | Checks(pass: bool)          // Validate, the slot lock, CheckOverwrite
    | Prepares(disk: FS)          // StagingDir and the empty staged file
    | Reads(call: Call, now: Time)
    | MakesLevel(k: nat, now: Time)
    | MakesTemp(temp: string, now: Time)
    | MovesAside(ok: bool, now: Time)
    | Installs(ok: bool, now: Time)
    | Reverts(ok: bool, now: Time)
    | Clears(stuck: set<Path>, now: Time)
    | Cleared
    | Opens(ok: bool)
    | Fails                       // any other daemon-side failure
    | Elsewhere(disk: FS)         // other requests

  function Leave(n: Net, ok: bool): Net
  {
    n.(client := ClientEnded(ok), upEnded := true)
  }

  function Hear(p: Plan, n: Net, m: Message): Net
    requires WellSized(p.chunks)
  {
    if n.client.AwaitingFirst? then
      if m == Received then n.(client := SendingPayload, toSend := p.Payload())
      else Leave(n, m == DoneOk).(lost := true)
    else
      if m == Received then n else Leave(n, m == DoneOk)
  }

  ghost predicate ClientSteps(p: Plan, n: Net, a: Action, t: Net)
    requires WellSized(p.chunks)
  {
    match a
    case Sends(k) =>
      && (n.client.SendingHeader? || n.client.SendingPayload?) && 0 < k <= |n.toSend|
      && t == if n.upEnded then n.(toSend := n.toSend[k..], lost := true)
              else n.(toSend := n.toSend[k..], up := n.up + n.toSend[..k])
    case Finishes =>
      && n.toSend == []
      && (|| (n.client.SendingHeader? && t == n.(client := AwaitingFirst))
          || (n.client.SendingPayload? && t == if p.wait then n.(client := AwaitingDone) else Leave(n, true)))
    case Hears =>
      && (n.client.AwaitingFirst? || n.client.AwaitingDone?) && n.down != []
      && t == Hear(p, n.(seen := n.seen + [n.down[0]], down := n.down[1..]), n.down[0])
    case GivesUp => !n.client.ClientEnded? && t == Leave(n, false).(lost := true)
    case _ => false
  }

  function Emit(s: State, m: Message): State
  {
    s.(work := s.work.(emitted := s.work.emitted + [m]),
       net := s.net.(down := if s.net.downEnded then s.net.down else s.net.down + [m]))
  }

  /** The daemon closes the connection and, if it has it, releases the lock. */
  function Close(s: State): State
  {
    s.(work := s.work.(pc := DaemonEnded), mirror := s.mirror.(after := s.mirror.fs),
       net := s.net.(upEnded := true, lost := true, downEnded := true))
  }

  function Finish(s: State, m: Message): State
  {
    Close(Emit(s, m))
  }

  function Goto(s: State, pc: DaemonPC): State
  {
    s.(work := s.work.(pc := pc))
  }

  function OnDisk(s: State, fs: FS): State
  {
    s.(mirror := s.mirror.(fs := fs))
  }

  function InSlot(s: State, slot: Slot): State
  {
    s.(mirror := s.mirror.(slot := slot))
  }

  /** The disk of this moment is the one the request starts from. */
  function Lock(s: State): State
  {
    s.(mirror := s.mirror.(before := s.mirror.fs))
  }

  /** Whether the next read returns without waiting for more bytes. */
  predicate CanRead(p: Plan, s: State)
  {
    if s.net.upEnded then true
    else if s.work.remaining > 0 then s.net.up != [] || s.work.remaining + s.work.total > p.maxPayload
    else |s.net.up| >= 4 &&
         var n := FromBigEndian(s.net.up[..4]);
         n == 0 || n > MAX_CHUNK || n + s.work.total > p.maxPayload || |s.net.up| > 4
  }

  function ReadNow(p: Plan, s: State, c: Call): ReadResult
  {
    ReadStep(Reader(s.net.up, s.work.remaining, false, s.work.total), c, p.maxPayload, false)
  }

  ghost predicate IsStaged(p: Plan, fs: FS)
  {
    p.staged in fs && fs[p.staged].File?
  }

  /** What io.Copy does with one read: append to the staged file, stop at EOF,
      or give up. */
  function AfterRead(p: Plan, s: State, r: ReadResult, now: Time): State
    requires IsStaged(p, s.mirror.fs)
  {
    match r.err
    case NoError =>
      var file := s.mirror.fs[p.staged];
      OnDisk(s, s.mirror.fs[p.staged := File(file.bytes + r.out, now, file.exec)])
      .(net := s.net.(up := r.r.input), work := s.work.(remaining := r.r.remaining, total := r.r.total))
    case EOF => Goto(s.(net := s.net.(up := r.r.input)), Installing)
    case _ => Finish(s, DoneError)
  }

  ghost predicate SlotUnchanged(p: Plan, a: FS, b: FS)
  {
    Tree(b) && SameTree(b, p.dst, a, p.dst)
  }

  /** The steps up to a complete staged file. */
  ghost predicate ReceiveSteps(p: Plan, s: State, a: Action, t: State)
  {
    match a
    case ReadsHeader =>
      && s.work.pc.ReadingHeader?
      && (match ReadRequest(s.net.up)
          case Line(_, rest) =>
            t == s.(net := s.net.(up := rest), work := s.work.(pc := Checking, gotHeader := true))
          case BufferFull(_, _) => t == Close(Lock(s))
          case Ended(_) => s.net.upEnded && t == Close(Lock(s)))
    case Checks(pass) =>
      && s.work.pc.Checking?
      && t == if pass then Goto(Emit(Lock(s), Received), Preparing) else Finish(Lock(s), DoneError)
    case Prepares(disk) =>
      && s.work.pc.Preparing? && SlotUnchanged(p, s.mirror.fs, disk)
      && IsStaged(p, disk) && disk[p.staged].bytes == []
      && t == OnDisk(s, disk).(work := s.work.(pc := Receiving, remaining := 0, total := 0))
    case Reads(c, now) =>
      && s.work.pc.Receiving? && CanRead(p, s) && c.size > 0 && IsStaged(p, s.mirror.fs)
      && t == AfterRead(p, s, ReadNow(p, s, c), now)
    case Fails =>
      || (s.work.pc.ReadingHeader? && t == Close(Lock(s)))
      || (s.work.pc in {Preparing, Receiving, Installing, Placing} && t == Finish(s, DoneError))
    case _ => false
  }

  /** Promote, one change of the disk at a time, and the opener. */
  ghost predicate PromoteSteps(p: Plan, s: State, a: Action, t: State)
    requires p.dst != []
  {
    var fs, pc := s.mirror.fs, s.work.pc;
    match a
    case MakesLevel(k, now) =>
      && pc.Installing? && k <= |Parent(p.dst)|
      && (match MkdirAll(fs, Parent(p.dst)[..k], now)
          case None => t == Finish(s, DoneError)
          case Some(made) => t == Goto(OnDisk(s, made), if k == |Parent(p.dst)| then Placing else Installing))
    case MakesTemp(temp, now) =>
      && pc.Placing? && p.dst in fs && STAGING in fs && fs[STAGING].Dir? && Aside(temp) !in fs
      && t == Goto(OnDisk(s, MakeTemp(fs, temp, now)), Stashing(temp))
    case MovesAside(ok, now) =>
      && pc.Stashing?
      && if ok then
           && CanRename(fs, p.dst, OldCopy(pc.temp))
           && t == Goto(InSlot(OnDisk(s, Rename(fs, p.dst, OldCopy(pc.temp), now)), Away(pc.temp)), Vacant(pc.temp))
         else t == Goto(s, Abandoning(pc.temp))
    case Installs(ok, now) =>
      && ((pc.Placing? && p.dst !in fs) || pc.Vacant?)
      && if ok then
           && CanRename(fs, p.staged, p.dst)
           && t == Goto(InSlot(OnDisk(s, Rename(fs, p.staged, p.dst, now)), Replaced),
                        if pc.Vacant? then Clearing(pc.temp) else Opening)
         else t == if pc.Vacant? then Goto(s, Reverting(pc.temp)) else Finish(s, DoneError)
    case Reverts(ok, now) =>
      && pc.Reverting?
      && if ok then
           && CanRename(fs, OldCopy(pc.temp), p.dst)
           && t == Finish(InSlot(OnDisk(s, Rename(fs, OldCopy(pc.temp), p.dst, now)), Untouched), DoneError)
         else t == Finish(s, DoneError)
    case Clears(stuck, now) =>
      && (pc.Clearing? || pc.Abandoning?) && t == OnDisk(s, RemoveAll(fs, Aside(pc.temp), stuck, now))
    case Cleared =>
      || (pc.Clearing? && t == Goto(s, Opening))
      || (pc.Abandoning? && t == Finish(s, DoneError))
    case Opens(ok) =>
      pc.Opening? && t == if ok then Finish(s.(work := s.work.(shown := true)), DoneOk) else Finish(s, DoneError)
    case _ => false
  }

  /** The connection breaks, or another request changes the mirror. While this
      one holds the lock of its slot, the slot, its staged file and its aside
      directory are its own; before and after, others may use the slot. */
  ghost predicate OutsideSteps(p: Plan, s: State, a: Action, t: State)
  {
    match a
    case Breaks(i, j) =>
      && i <= |s.net.up| && j <= |s.net.down|
      && t == s.(net := s.net.(up := s.net.up[..i], upEnded := true, lost := true,
                               down := s.net.down[..j], downEnded := true))
    case Elsewhere(disk) =>
      && Tree(disk)
      && (s.work.pc.Locked() ==> SlotUnchanged(p, s.mirror.fs, disk))
      && (s.work.pc.HasStaged() ==> Same(s.mirror.fs, disk, p.staged))
      && (s.work.pc.HasAside() ==> AgreeAt(disk, s.mirror.fs, Aside(s.work.pc.temp)))
      && t == OnDisk(s, disk)
    case _ => false
  }

  ghost predicate Steps(p: Plan, s: State, a: Action, t: State)
    requires WellSized(p.chunks) && p.dst != []
  {
    || (ClientSteps(p, s.net, a, t.net) && t == s.(net := t.net))
    || ReceiveSteps(p, s, a, t)
    || PromoteSteps(p, s, a, t)
    || OutsideSteps(p, s, a, t)
  }

  ghost predicate Run(p: Plan, states: seq<State>, actions: seq<Action>)
  {
    && p.Valid() && |states| == |actions| + 1 && Initial(p, states[0])
    && forall i :: 0 <= i < |actions| ==> Steps(p, states[i], actions[i], states[i + 1])
  }

  // -------------------------------------------------------------- invariants

  /** What the client has still to put on the wire, if nothing is lost. */
  function Unsent(p: Plan, n: Net): seq<byte>
    requires WellSized(p.chunks)
  {
    match n.client
    case SendingHeader => n.toSend + p.Payload()
    case AwaitingFirst => p.Payload()
    case SendingPayload => n.toSend
    case _ => []
  }

  /** ahead is the wire from where the daemon has read to: in flight and unsent,
      or, when some of it is lost, beginning with what is still in flight. */
  ghost predicate Flows(p: Plan, n: Net, ahead: seq<byte>)
    requires WellSized(p.chunks)
  {
    n.up <= ahead && (!n.lost ==> n.up + Unsent(p, n) == ahead) && (n.lost ==> n.upEnded)
  }

  /** The daemon is inside the payload: cur is left of the open chunk, then come
      rest, and got + cur + rest is the file. */
  ghost predicate Midway(
    p: Plan, n: Net, remaining: nat, total: nat, got: seq<byte>, cur: seq<byte>, rest: seq<seq<byte>>)
    requires WellSized(p.chunks)
  {
    && |cur| == remaining && WellSized(rest)
    && Flows(p, n, cur + Framed(rest))
    && got + cur + Concat(rest) == p.Content()
    && total == |got| && (got != [] ==> total <= p.maxPayload)
  }

  ghost predicate Arriving(p: Plan, s: State)
    requires WellSized(p.chunks)
  {
    && IsStaged(p, s.mirror.fs)
    && exists cur, rest :: Midway(p, s.net, s.work.remaining, s.work.total, s.mirror.fs[p.staged].bytes, cur, rest)
  }

  ghost predicate Complete(p: Plan, fs: FS)
  {
    IsStaged(p, fs) && fs[p.staged].bytes == p.Content()
  }

  ghost predicate Fits(p: Plan)
  {
    p.Content() != [] ==> |p.Content()| <= p.maxPayload
  }

  /** The staged file lies neither in nor above the aside directory. */
  predicate Apart(staged: Path, temp: string)
  {
    !(Aside(temp) <= staged) && !(staged <= OldCopy(temp))
  }

  ghost predicate Wire(p: Plan, s: State)
    requires WellSized(p.chunks)
  {
    match s.work.pc
    case ReadingHeader => Flows(p, s.net, p.Header() + p.Payload())
    case Checking => Flows(p, s.net, p.Payload())
    case Preparing => Flows(p, s.net, p.Payload())
    case Receiving => Arriving(p, s)
    case Installing => Complete(p, s.mirror.fs) && Fits(p)
    case Placing => Complete(p, s.mirror.fs) && Fits(p)
    case Stashing(temp) => Complete(p, s.mirror.fs) && Fits(p) && Apart(p.staged, temp)
    case Vacant(temp) => Complete(p, s.mirror.fs) && Fits(p)
    case _ => true
  }

  /** The disk as the request sees it or has left it. */
  function View(s: State): FS
  {
    if s.work.pc.DaemonEnded? then s.mirror.after else s.mirror.fs
  }

  /** A disk on which the slot is as told, next to what it was under the lock. */
  ghost predicate SlotHolds(p: Plan, v: FS, before: FS, slot: Slot)
  {
    match slot
    case Untouched => SameTree(v, p.dst, before, p.dst)
    case Away(temp) => p.dst !in v && p.dst in before && SameTree(v, OldCopy(temp), before, p.dst)
    case Replaced => p.dst in v && v[p.dst].File? && v[p.dst].bytes == p.Content() && Fits(p)
  }

  ghost predicate SlotIs(p: Plan, s: State)
  {
    && Tree(s.mirror.fs)
    && if s.work.pc.ReadingHeader? || s.work.pc.Checking? then s.mirror.slot == Untouched
       else SlotHolds(p, View(s), s.mirror.before, s.mirror.slot)
  }

  /** What the daemon has said, and what it has done to the slot, by where it is. */
  ghost predicate Says(s: State)
  {
    var w, slot := s.work, s.mirror.slot;
    && (w.gotHeader <==> w.emitted != [] || w.pc.Checking?)
    && match w.pc
       case ReadingHeader => w.emitted == [] && slot == Untouched && !w.shown
       case Checking => w.emitted == [] && slot == Untouched && !w.shown
       case Vacant(temp) => w.emitted == [Received] && slot == Away(temp) && !w.shown
       case Reverting(temp) => w.emitted == [Received] && slot == Away(temp) && !w.shown
       case Clearing(_) => w.emitted == [Received] && slot == Replaced && !w.shown
       case Opening => w.emitted == [Received] && slot == Replaced && !w.shown
       case DaemonEnded =>
         && w.emitted in {[], [DoneError], [Received, DoneError], [Received, DoneOk]}
         && (w.shown <==> w.emitted == [Received, DoneOk])
         && (w.shown ==> slot == Replaced)
         && (slot.Away? ==> w.emitted == [Received, DoneError])
       case _ => w.emitted == [Received] && slot == Untouched && !w.shown
  }

  /** What the client has heard, by where it is. */
  ghost predicate Heard(p: Plan, n: Net, emitted: seq<Message>)
  {
    && n.seen + n.down <= emitted && (!n.downEnded ==> n.seen + n.down == emitted)
    && (n.downEnded ==> n.upEnded) && (n.client.ClientEnded? ==> n.upEnded)
    && (n.upEnded && !n.lost ==> n.client.ClientEnded?)
    && (!n.client.SendingHeader? && !n.client.SendingPayload? && n.client != ClientEnded(false) ==> n.toSend == [])
    && match n.client
       case SendingHeader => n.seen == []
       case AwaitingFirst => n.seen == []
       case SendingPayload => n.seen == [Received]
       case AwaitingDone => n.seen == [Received] && p.wait
       case ClientEnded(ok) => ok ==> n.seen == [Received, DoneOk] || (!p.wait && n.seen == [Received])
  }

  ghost predicate Inv(p: Plan, s: State)
    requires WellSized(p.chunks)
  {
    && (s.work.gotHeader ==> |p.json| < MAX_HEADER)
    && Wire(p, s) && SlotIs(p, s) && Says(s) && Heard(p, s.net, s.work.emitted)
  }

  // ------------------------------------------------------- the client's steps

  lemma InitialInv(p: Plan, s: State)
    requires p.Valid() && Initial(p, s)
    ensures Inv(p, s)
  {
    assert [] + (p.Header() + p.Payload()) == p.Header() + p.Payload();
  }

  /** Moving n bytes from the sender to the wire. */
  lemma Passing(up: seq<byte>, toSend: seq<byte>, n: nat, tail: seq<byte>)
    requires n <= |toSend|
    ensures (up + toSend[..n]) + (toSend[n..] + tail) == up + (toSend + tail)
    ensures (up + toSend[..n]) + toSend[n..] == up + toSend
  {
  }

  lemma FlowsAfterSend(p: Plan, n: Net, k: nat, t: Net, ahead: seq<byte>)
    requires WellSized(p.chunks) && Flows(p, n, ahead) && ClientSteps(p, n, Sends(k), t)
    ensures Flows(p, t, ahead)
  {
    if !n.upEnded {
      Passing(n.up, n.toSend, k, p.Payload());
      assert t.up + Unsent(p, t) == n.up + Unsent(p, n);
    }
  }

  lemma FlowsAfterClient(p: Plan, n: Net, a: Action, t: Net, ahead: seq<byte>)
    requires WellSized(p.chunks) && Flows(p, n, ahead) && ClientSteps(p, n, a, t)
    ensures Flows(p, t, ahead)
  {
    match a
    case Sends(k) => FlowsAfterSend(p, n, k, t, ahead);
    case Finishes =>
      assert [] + p.Payload() == p.Payload();
    case _ =>
  }

  lemma WireAfterClient(p: Plan, s: State, a: Action, t: State)
    requires WellSized(p.chunks) && Wire(p, s) && ClientSteps(p, s.net, a, t.net) && t == s.(net := t.net)
    ensures Wire(p, t)
  {
    hide ClientSteps, Flows;
    match s.work.pc
    case ReadingHeader => FlowsAfterClient(p, s.net, a, t.net, p.Header() + p.Payload());
    case Checking => FlowsAfterClient(p, s.net, a, t.net, p.Payload());
    case Preparing => FlowsAfterClient(p, s.net, a, t.net, p.Payload());
    case Receiving =>
      var got := s.mirror.fs[p.staged].bytes;
      var cur, rest :| Midway(p, s.net, s.work.remaining, s.work.total, got, cur, rest);
      FlowsAfterClient(p, s.net, a, t.net, cur + Framed(rest));
      assert Midway(p, t.net, t.work.remaining, t.work.total, got, cur, rest);
    case _ =>
  }

  lemma NextMessage(seen: seq<Message>, down: seq<Message>, emitted: seq<Message>)
    requires down != [] && seen + down <= emitted
    ensures (seen + [down[0]]) + down[1..] == seen + down
    ensures |seen| < |emitted| && emitted[|seen|] == down[0] && seen + [down[0]] <= emitted
  {
    assert (seen + down)[|seen|] == down[0];
  }

  lemma HeardAfterClient(p: Plan, s: State, a: Action, t: Net)
    requires WellSized(p.chunks) && Says(s) && Heard(p, s.net, s.work.emitted) && ClientSteps(p, s.net, a, t)
    ensures Heard(p, t, s.work.emitted)
  {
    if a.Hears? {
      NextMessage(s.net.seen, s.net.down, s.work.emitted);
    }
  }

  lemma ClientKeepsInv(p: Plan, s: State, a: Action, t: State)
    requires WellSized(p.chunks) && Inv(p, s) && ClientSteps(p, s.net, a, t.net) && t == s.(net := t.net)
    ensures Inv(p, t)
  {
    WireAfterClient(p, s, a, t);
    HeardAfterClient(p, s, a, t.net);
    hide ClientSteps, Wire, SlotHolds;
  }

  // ------------------------------------------------------ everybody else's

  lemma BreakKeepsInv(p: Plan, s: State, i: nat, j: nat, t: State)
    requires WellSized(p.chunks) && Inv(p, s) && OutsideSteps(p, s, Breaks(i, j), t)
    ensures Inv(p, t)
  {
    hide SlotHolds, Framed, Concat, Tree;
    assert s.net.seen + s.net.down[..j] <= s.net.seen + s.net.down;
    if s.work.pc.Receiving? {
      var got := s.mirror.fs[p.staged].bytes;
      var cur, rest :| Midway(p, s.net, s.work.remaining, s.work.total, got, cur, rest);
      assert Midway(p, t.net, t.work.remaining, t.work.total, got, cur, rest);
    }
  }

  lemma RootOf(a: FS, p: Path, b: FS, q: Path)
    requires SameTree(a, p, b, q)
    ensures (p in a <==> q in b) && (p in a ==> a[p] == b[q])
  {
    assert p + [] == p && q + [] == q;
  }

  lemma AsideTree(a: FS, b: FS, temp: string)
    requires AgreeAt(a, b, Aside(temp))
    ensures SameTree(a, OldCopy(temp), b, OldCopy(temp))
  {
    forall q | OldCopy(temp) <= q ensures Same(a, b, q) {
      assert Aside(temp) <= q;
    }
    AgreeIsSameTree(a, b, OldCopy(temp));
  }

  /** The slot stays as it was when the slot and the old copy stay. */
  lemma SlotStays(p: Plan, a: FS, b: FS, before: FS, slot: Slot)
    requires SlotHolds(p, a, before, slot) && SameTree(b, p.dst, a, p.dst)
    requires slot.Away? ==> SameTree(b, OldCopy(slot.temp), a, OldCopy(slot.temp))
    ensures SlotHolds(p, b, before, slot)
  {
    RootOf(b, p.dst, a, p.dst);
    match slot
    case Untouched => SameTreeTrans(b, p.dst, a, p.dst, before, p.dst);
    case Away(temp) => SameTreeTrans(b, OldCopy(temp), a, OldCopy(temp), before, p.dst);
    case Replaced =>
  }

  lemma ElsewhereKeepsInv(p: Plan, s: State, disk: FS, t: State)
    requires WellSized(p.chunks) && Inv(p, s) && OutsideSteps(p, s, Elsewhere(disk), t)
    ensures Inv(p, t)
  {
    hide Framed, Concat, SlotHolds, SameTree, AgreeAt, Tree;
    if s.work.pc.HasAside() {
      AsideTree(disk, s.mirror.fs, s.work.pc.temp);
    }
    if s.work.pc.Locked() {
      SlotStays(p, s.mirror.fs, disk, s.mirror.before, s.mirror.slot);
    }
    if s.work.pc.Receiving? {
      var got := s.mirror.fs[p.staged].bytes;
      var cur, rest :| Midway(p, s.net, s.work.remaining, s.work.total, got, cur, rest);
      assert Midway(p, t.net, t.work.remaining, t.work.total, got, cur, rest);
    }
  }

  // ---------------------------------------------------- the daemon receives

  lemma Told(seen: seq<Message>, down: seq<Message>, emitted: seq<Message>, m: Message)
    ensures seen + (down + [m]) == (seen + down) + [m]
    ensures seen + down <= emitted ==> seen + down <= emitted + [m]
    ensures emitted == [] ==> emitted + [m] == [m]
    ensures emitted == [Received] ==> emitted + [m] == [Received, m]
  {
  }

  lemma EmitKeepsHeard(p: Plan, s: State, m: Message)
    requires Heard(p, s.net, s.work.emitted)
    ensures var t := Emit(s, m); Heard(p, t.net, t.work.emitted)
    ensures var t := Finish(s, m); Heard(p, t.net, t.work.emitted)
  {
    Told(s.net.seen, s.net.down, s.work.emitted, m);
  }

  /** Ending with an error leaves the slot as the daemon finds it. */
  lemma ErrorKeepsInv(p: Plan, s: State, t: State)
    requires WellSized(p.chunks) && Inv(p, s) && s.work.pc.Locked()
    requires t == Finish(s, DoneError)
    ensures Inv(p, t)
  {
    hide Wire, SlotHolds, Tree, Heard;
    EndedWire(p, t);
    EmitKeepsHeard(p, s, DoneError);
    Told(s.net.seen, s.net.down, s.work.emitted, DoneError);
  }

  lemma UnlockedEnd(p: Plan, s: State, t: State)
    requires WellSized(p.chunks) && Inv(p, s) && s.work.pc.ReadingHeader? && t == Close(Lock(s))
    ensures Inv(p, t)
  {
    hide Wire, Tree, SameTree;
    EndedWire(p, t);
    SameTreeHere(s.mirror.fs, p.dst);
  }

  lemma EndedWire(p: Plan, s: State)
    requires WellSized(p.chunks) && s.work.pc.DaemonEnded?
    ensures Wire(p, s)
  {
  }

  lemma SameTreeHere(fs: FS, p: Path)
    ensures SameTree(fs, p, fs, p)
  {
  }

  lemma FailKeepsInv(p: Plan, s: State, t: State)
    requires WellSized(p.chunks) && Inv(p, s) && ReceiveSteps(p, s, Fails, t)
    ensures Inv(p, t)
  {
    hide Inv;
    if s.work.pc.ReadingHeader? {
      UnlockedEnd(p, s, t);
    } else {
      ErrorKeepsInv(p, s, t);
    }
  }

  lemma CheckKeepsInv(p: Plan, s: State, pass: bool, t: State)
    requires WellSized(p.chunks) && Inv(p, s) && ReceiveSteps(p, s, Checks(pass), t)
    ensures Inv(p, t)
  {
    hide Tree, SameTree, Framed, Heard, WellSized, Arriving, Complete, Fits, ReadRequest, AfterRead, CanRead, Concat;
    SameTreeHere(s.mirror.fs, p.dst);
    var m := if pass then Received else DoneError;
    EmitKeepsHeard(p, Lock(s), m);
    Told(s.net.seen, s.net.down, s.work.emitted, m);
  }

  /** The line the daemon finds is the header, and only a header below the limit
      is found. */
  lemma HeaderArrives(json: seq<byte>, payload: seq<byte>, up: seq<byte>)
    requires NEWLINE !in json && up <= json + [NEWLINE] + payload && ReadRequest(up).Line?
    ensures |json| < MAX_HEADER && up == json + [NEWLINE] + ReadRequest(up).rest
    ensures ReadRequest(up).line == json + [NEWLINE]
  {
    var i := FirstNewline(up);
    assert forall k :: 0 <= k < |json| ==> json[k] in json;
    assert forall k :: 0 <= k < |json| && k < |up| ==> up[k] == json[k];
    assert up[i] == NEWLINE && i >= |json|;
    assert forall k :: 0 <= k < i ==> up[k] in up[..i];
    assert up[|json|] == NEWLINE && i == |json|;
    assert up == up[..i + 1] + up[i + 1..];
  }

  lemma HeaderKeepsInv(p: Plan, s: State, t: State)
    requires p.Valid() && Inv(p, s) && ReceiveSteps(p, s, ReadsHeader, t)
    ensures Inv(p, t)
  {
    hide ReadRequest, Tree, SlotHolds, Heard, Framed;
    if ReadRequest(s.net.up).Line? {
      HeaderArrives(p.json, p.Payload(), s.net.up);
      HeaderPasses(p, s, t);
    } else {
      UnlockedEnd(p, s, t);
    }
  }

  lemma HeaderPasses(p: Plan, s: State, t: State)
    requires p.Valid() && Wire(p, s) && s.work.pc.ReadingHeader?
    requires ReadRequest(s.net.up).Line? && s.net.up == p.Header() + ReadRequest(s.net.up).rest
    requires t == s.(net := s.net.(up := ReadRequest(s.net.up).rest), work := s.work.(pc := Checking, gotHeader := true))
    ensures Wire(p, t) && (Heard(p, s.net, s.work.emitted) ==> Heard(p, t.net, t.work.emitted))
  {
    hide ReadRequest, Framed;
    Passed(p.Header(), ReadRequest(s.net.up).rest, Unsent(p, s.net), p.Payload());
  }

  /** What follows a prefix both sides share. */
  lemma Passed(out: seq<byte>, up: seq<byte>, unsent: seq<byte>, ahead: seq<byte>)
    requires out + up <= out + ahead
    ensures up <= ahead && ((out + up) + unsent == out + ahead <==> up + unsent == ahead)
  {
    assert (out + ahead)[|out|..] == ahead && (out + up)[|out|..] == up;
    assert (out + up) + unsent == out + (up + unsent);
    assert (out + (up + unsent))[|out|..] == up + unsent;
  }

  /** One read inside the payload: it takes a prefix of what is ahead, and what
      it hands over continues the file; EOF comes only where the file ends. */
  lemma ReadAdvances(up: seq<byte>, total: nat, cur: seq<byte>, rest: seq<seq<byte>>, c: Call, maxPayload: int)
    returns (cur': seq<byte>, rest': seq<seq<byte>>)
    requires WellSized(rest) && up <= cur + Framed(rest)
    ensures var r := ReadStep(Reader(up, |cur|, false, total), c, maxPayload, false);
            && (r.err == NoError ==>
                  && WellSized(rest') && |cur'| == r.r.remaining && r.r.total == total + |r.out|
                  && r.out + cur' + Concat(rest') == cur + Concat(rest)
                  && (r.out != [] ==> r.r.total <= maxPayload)
                  && exists taken :: Takes(taken, up, r.r.input, cur + Framed(rest), cur' + Framed(rest')))
            && (r.err == EOF ==> cur == [] && rest == [])
  {
    var r := ReadStep(Reader(up, |cur|, false, total), c, maxPayload, false);
    cur', rest' := cur, rest;
    if cur != [] {
      cur' := BodyAdvances(up, total, cur, rest, c, maxPayload);
      assert r.err == NoError ==> Takes(r.out, up, r.r.input, cur + Framed(rest), cur' + Framed(rest));
    } else if r.err in {NoError, EOF} {
      HeaderRead(Reader(up, 0, false, total), c, maxPayload, false);
      HeaderAhead(up, rest);
      if rest == [] {
        ZeroEnds(up, total, c, maxPayload);
      } else {
        OpensChunk(up, total, c, maxPayload);
        hide ReadStep, Framed;
        var first, more, body := rest[0], rest[1..], up[4..];
        cur' := BodyAdvances(body, total, first, more, c, maxPayload);
        rest' := more;
        assert [] + Concat(rest) == first + Concat(more);
        assert Takes(up[..4] + r.out, up, r.r.input, [] + Framed(rest), cur' + Framed(more)) by {
          TakesMore(up[..4], r.out, body, r.r.input, first + Framed(more), cur' + Framed(more));
          assert up == up[..4] + body;
        }
      }
    }
  }

  lemma TakesMore(
    head: seq<byte>, taken: seq<byte>, up: seq<byte>, up': seq<byte>, ahead: seq<byte>, ahead': seq<byte>)
    requires Takes(taken, up, up', ahead, ahead')
    ensures Takes(head + taken, head + up, up', head + ahead, ahead')
  {
  }

  lemma HeaderAhead(up: seq<byte>, rest: seq<seq<byte>>)
    requires WellSized(rest) && |up| >= 4 && up <= [] + Framed(rest)
    ensures FromBigEndian(up[..4]) == if rest == [] then 0 else |rest[0]|
    ensures rest != [] ==>
              && Sized(rest[0]) && WellSized(rest[1..]) && up[4..] <= rest[0] + Framed(rest[1..])
              && [] + Framed(rest) == up[..4] + (rest[0] + Framed(rest[1..]))
              && Concat(rest) == rest[0] + Concat(rest[1..])
  {
    var ahead := [] + Framed(rest);
    FramedHead(rest, []);
    assert Framed(rest) + [] == ahead;
    assert up[..4] == ahead[..4];
    if rest != [] {
      assert Sized(rest[0]) && rest == [rest[0]] + rest[1..];
      FirstChunk(rest[0], rest[1..], []);
      assert ahead[4..] == rest[0] + Framed(rest[1..]);
      assert ahead == ahead[..4] + ahead[4..];
    }
  }

  lemma ZeroEnds(up: seq<byte>, total: nat, c: Call, maxPayload: int)
    requires |up| >= 4 && FromBigEndian(up[..4]) == 0
    ensures ReadStep(Reader(up, 0, false, total), c, maxPayload, false).err == EOF
  {
  }

  lemma OpensChunk(up: seq<byte>, total: nat, c: Call, maxPayload: int)
    requires |up| >= 4 && 0 < FromBigEndian(up[..4]) <= MAX_CHUNK
    ensures ReadStep(Reader(up, 0, false, total), c, maxPayload, false)
         == ReadStep(Reader(up[4..], FromBigEndian(up[..4]), false, total), c, maxPayload, false)
  {
  }

  /** A reader took taken off the wire. */
  ghost predicate Takes(taken: seq<byte>, up: seq<byte>, up': seq<byte>, ahead: seq<byte>, ahead': seq<byte>)
  {
    up == taken + up' && ahead == taken + ahead'
  }

  lemma BodyAdvances(up: seq<byte>, total: nat, cur: seq<byte>, rest: seq<seq<byte>>, c: Call, maxPayload: int)
    returns (cur': seq<byte>)
    requires WellSized(rest) && up <= cur + Framed(rest) && cur != []
    ensures var r := ReadStep(Reader(up, |cur|, false, total), c, maxPayload, false);
            && r.err != EOF
            && (r.err == NoError ==>
                  && |cur'| == r.r.remaining && r.r.total == total + |r.out|
                  && r.out + cur' + Concat(rest) == cur + Concat(rest)
                  && (r.out != [] ==> r.r.total <= maxPayload)
                  && Takes(r.out, up, r.r.input, cur + Framed(rest), cur' + Framed(rest)))
  {
    var r := ReadStep(Reader(up, |cur|, false, total), c, maxPayload, false);
    BodyRead(Reader(up, |cur|, false, total), c, maxPayload, false);
    hide ReadStep, Framed, Concat;
    assert |r.out| <= |cur|;
    cur' := cur[|r.out|..];
    var ahead := cur + Framed(rest);
    assert r.out == up[..|r.out|] == ahead[..|r.out|] == cur[..|r.out|];
    assert cur == r.out + cur';
    assert ahead == r.out + (cur' + Framed(rest));
  }

  lemma AppendKeepsSlot(p: Plan, s: State, bytes: seq<byte>, now: Time)
    requires p.Valid() && SlotIs(p, s) && s.work.pc.Receiving? && IsStaged(p, s.mirror.fs)
    requires s.mirror.slot == Untouched
    ensures var fs := s.mirror.fs[p.staged := File(bytes, now, s.mirror.fs[p.staged].exec)];
            Tree(fs) && SlotHolds(p, fs, s.mirror.before, s.mirror.slot)
  {
    var a := s.mirror.fs;
    var fs := a[p.staged := File(bytes, now, a[p.staged].exec)];
    forall q | q in fs ensures Seated(fs, q) {
      assert Seated(a, q);
    }
    forall q | p.dst <= q ensures Same(fs, a, q) {
      StagingIsClosed(p.dst, q);
    }
    AgreeIsSameTree(fs, a, p.dst);
    SlotStays(p, a, fs, s.mirror.before, s.mirror.slot);
  }

  /** A read that hands over bytes leaves the daemon further along. */
  lemma ReadMovesOn(
    p: Plan, n: Net, remaining: nat, total: nat, got: seq<byte>, cur: seq<byte>, rest: seq<seq<byte>>, c: Call)
    returns (cur': seq<byte>, rest': seq<seq<byte>>)
    requires WellSized(p.chunks) && Midway(p, n, remaining, total, got, cur, rest)
    requires ReadStep(Reader(n.up, remaining, false, total), c, p.maxPayload, false).err == NoError
    ensures var r := ReadStep(Reader(n.up, remaining, false, total), c, p.maxPayload, false);
            Midway(p, n.(up := r.r.input), r.r.remaining, r.r.total, got + r.out, cur', rest')
  {
    hide ReadStep, Framed, Concat;
    var r := ReadStep(Reader(n.up, remaining, false, total), c, p.maxPayload, false);
    cur', rest' := ReadAdvances(n.up, total, cur, rest, c, p.maxPayload);
    var taken :| Takes(taken, n.up, r.r.input, cur + Framed(rest), cur' + Framed(rest'));
    Passed(taken, r.r.input, Unsent(p, n), cur' + Framed(rest'));
    assert (got + r.out) + cur' + Concat(rest') == got + (r.out + cur' + Concat(rest'));
    assert got + cur + Concat(rest) == got + (cur + Concat(rest));
  }

  lemma MoreKeepsInv(p: Plan, s: State, c: Call, now: Time, t: State)
    requires p.Valid() && Inv(p, s) && ReceiveSteps(p, s, Reads(c, now), t) && ReadNow(p, s, c).err == NoError
    ensures Inv(p, t)
  {
    hide ReadStep, Framed, SlotHolds, Concat, WellSized, Midway, Tree;
    var got := s.mirror.fs[p.staged].bytes;
    var cur, rest :| Midway(p, s.net, s.work.remaining, s.work.total, got, cur, rest);
    AppendKeepsSlot(p, s, got + ReadNow(p, s, c).out, now);
    var cur', rest' := ReadMovesOn(p, s.net, s.work.remaining, s.work.total, got, cur, rest, c);
    assert Midway(p, t.net, t.work.remaining, t.work.total, t.mirror.fs[p.staged].bytes, cur', rest');
  }

  lemma EOFIsTheEnd(
    p: Plan, n: Net, remaining: nat, total: nat, got: seq<byte>, cur: seq<byte>, rest: seq<seq<byte>>, c: Call)
    requires WellSized(p.chunks) && Midway(p, n, remaining, total, got, cur, rest)
    requires ReadStep(Reader(n.up, remaining, false, total), c, p.maxPayload, false).err == EOF
    ensures got == p.Content() && Fits(p)
  {
    hide ReadStep, Framed;
    var cur', rest' := ReadAdvances(n.up, total, cur, rest, c, p.maxPayload);
  }

  lemma EOFKeepsInv(p: Plan, s: State, c: Call, now: Time, t: State)
    requires p.Valid() && Inv(p, s) && ReceiveSteps(p, s, Reads(c, now), t) && ReadNow(p, s, c).err == EOF
    ensures Inv(p, t)
  {
    hide ReadStep, Framed, SlotHolds, Concat, WellSized, Midway, Tree;
    var got := s.mirror.fs[p.staged].bytes;
    var cur, rest :| Midway(p, s.net, s.work.remaining, s.work.total, got, cur, rest);
    EOFIsTheEnd(p, s.net, s.work.remaining, s.work.total, got, cur, rest, c);
  }

  lemma ReadKeepsInv(p: Plan, s: State, c: Call, now: Time, t: State)
    requires p.Valid() && Inv(p, s) && ReceiveSteps(p, s, Reads(c, now), t)
    ensures Inv(p, t)
  {
    hide ReadNow, Inv;
    match ReadNow(p, s, c).err
    case NoError => MoreKeepsInv(p, s, c, now, t);
    case EOF => EOFKeepsInv(p, s, c, now, t);
    case _ => ErrorKeepsInv(p, s, t);
  }

  lemma PrepareKeepsInv(p: Plan, s: State, disk: FS, t: State)
    requires p.Valid() && Inv(p, s) && ReceiveSteps(p, s, Prepares(disk), t)
    ensures Inv(p, t)
  {
    hide Framed, Concat, SlotHolds, SameTree, Tree;
    SlotStays(p, s.mirror.fs, disk, s.mirror.before, s.mirror.slot);
    assert [] + p.Payload() == p.Payload() && [] + [] + Concat(p.chunks) == p.Content();
    assert Midway(p, t.net, 0, 0, [], [], p.chunks);
  }

  lemma ReceiveKeepsInv(p: Plan, s: State, a: Action, t: State)
    requires p.Valid() && Inv(p, s) && ReceiveSteps(p, s, a, t)
    ensures Inv(p, t)
  {
    hide Inv;
    match a
    case ReadsHeader => HeaderKeepsInv(p, s, t);
    case Checks(pass) => CheckKeepsInv(p, s, pass, t);
    case Prepares(disk) => PrepareKeepsInv(p, s, disk, t);
    case Reads(c, now) => ReadKeepsInv(p, s, c, now, t);
    case Fails => FailKeepsInv(p, s, t);
    case _ =>
  }

  // --------------------------------------------------- the daemon promotes

  /** The daemon moves on under the lock, saying nothing. */
  lemma MoveKeepsInv(p: Plan, s: State, fs: FS, slot: Slot, pc: DaemonPC, t: State)
    requires WellSized(p.chunks) && Inv(p, s) && s.work.pc.Locked()
    requires pc.Locked() && !pc.Preparing? && !pc.Receiving? && t == Goto(InSlot(OnDisk(s, fs), slot), pc)
    requires Tree(fs) && SlotHolds(p, fs, s.mirror.before, slot)
    requires pc.HasStaged() ==> Complete(p, fs) && Fits(p)
    requires pc.Stashing? ==> Apart(p.staged, pc.temp)
    requires slot == if pc.Vacant? || pc.Reverting? then Away(pc.temp)
                     else if pc.Clearing? || pc.Opening? then Replaced else Untouched
    ensures Inv(p, t)
  {
    hide Tree, SlotHolds, Complete, Fits, Heard, Apart;
  }

  /** A disk that agrees at the slot and at the staged file. */
  lemma AgreeingDisk(p: Plan, a: FS, b: FS, before: FS, slot: Slot)
    requires !slot.Away? && SlotHolds(p, a, before, slot) && AgreeAt(b, a, p.dst)
    ensures SlotHolds(p, b, before, slot)
    ensures Complete(p, a) && AgreeAt(b, a, p.staged) ==> Complete(p, b)
  {
    AgreeIsSameTree(b, a, p.dst);
    SlotStays(p, a, b, before, slot);
    if AgreeAt(b, a, p.staged) {
      AgreesHere(b, a, p.staged);
    }
  }

  lemma LevelEffect(p: Plan, fs: FS, k: nat, now: Time)
    requires p.Valid() && Tree(fs) && k <= |Parent(p.dst)| && MkdirAll(fs, Parent(p.dst)[..k], now).Some?
    ensures var d := MkdirAll(fs, Parent(p.dst)[..k], now).value;
            Tree(d) && AgreeAt(d, fs, p.dst) && AgreeAt(d, fs, p.staged)
  {
    var q := Parent(p.dst)[..k];
    var d := MkdirAll(fs, q, now).value;
    MkdirAllAdds(fs, q, now);
    hide MkdirAll, Tree;
    forall r | p.dst <= r ensures Same(d, fs, r) { MkdirAt(fs, p.dst, k, now, r); }
    forall r | p.staged <= r ensures Same(d, fs, r) {
      StagingIsClosed(p.staged, r);
      MkdirAt(fs, p.dst, k, now, r);
    }
  }

  lemma LevelKeepsInv(p: Plan, s: State, k: nat, now: Time, t: State)
    requires p.Valid() && Inv(p, s) && PromoteSteps(p, s, MakesLevel(k, now), t)
    ensures Inv(p, t)
  {
    hide MkdirAll, Tree, SlotHolds, AgreeAt, Complete, Fits, Heard;
    var made := MkdirAll(s.mirror.fs, Parent(p.dst)[..k], now);
    if made.Some? {
      LevelEffect(p, s.mirror.fs, k, now);
      AgreeingDisk(p, s.mirror.fs, made.value, s.mirror.before, s.mirror.slot);
      MoveKeepsInv(p, s, made.value, Untouched, if k == |Parent(p.dst)| then Placing else Installing, t);
    } else {
      ErrorKeepsInv(p, s, t);
    }
  }

  lemma TempKeepsInv(p: Plan, s: State, temp: string, now: Time, t: State)
    requires p.Valid() && Inv(p, s) && PromoteSteps(p, s, MakesTemp(temp, now), t)
    ensures Inv(p, t)
  {
    hide MakeTemp, Tree, SlotHolds, AgreeAt, Fits, Heard;
    var fs := s.mirror.fs;
    MakeTempEffect(fs, p.staged, p.dst, temp, now);
    StagedApart(fs, p.staged, p.dst, temp);
    var d := MakeTemp(fs, temp, now);
    AgreeingDisk(p, fs, d, s.mirror.before, s.mirror.slot);
    MoveKeepsInv(p, s, d, Untouched, Stashing(temp), t);
  }

  lemma AsideKeepsInv(p: Plan, s: State, ok: bool, now: Time, t: State)
    requires p.Valid() && Inv(p, s) && PromoteSteps(p, s, MovesAside(ok, now), t)
    ensures Inv(p, t)
  {
    hide Rename, CanRename, Tree, SameTree, AgreeAt, Fits, Heard, Complete, Frame;
    var fs, temp := s.mirror.fs, s.work.pc.temp;
    if ok {
      AsideMoves(p, fs, s.mirror.before, temp, now);
      MoveKeepsInv(p, s, Rename(fs, p.dst, OldCopy(temp), now), Away(temp), Vacant(temp), t);
    } else {
      MoveKeepsInv(p, s, fs, Untouched, Abandoning(temp), t);
    }
  }

  lemma AsideMoves(p: Plan, fs: FS, before: FS, temp: string, now: Time)
    requires p.Valid() && Complete(p, fs) && Apart(p.staged, temp)
    requires CanRename(fs, p.dst, OldCopy(temp)) && SameTree(fs, p.dst, before, p.dst)
    ensures var r := Rename(fs, p.dst, OldCopy(temp), now);
            Tree(r) && SlotHolds(p, r, before, Away(temp)) && Complete(p, r) && CanRename(r, p.staged, p.dst)
  {
    hide Rename, SameTree, Frame;
    var aside := OldCopy(temp);
    assert Parent(aside) == Aside(temp) && p.dst in fs;
    MoveAsideFacts(fs, p.staged, p.dst, aside, now);
    var r := Rename(fs, p.dst, aside, now);
    RootOf(fs, p.dst, before, p.dst);
    SameTreeTrans(r, aside, fs, p.dst, before, p.dst);
    AgreesHere(r, fs, p.staged);
  }

  /** The staged file, renamed, is what the slot holds. */
  lemma StagedMoves(p: Plan, fs: FS, before: FS, now: Time)
    requires p.Valid() && Complete(p, fs) && Fits(p) && CanRename(fs, p.staged, p.dst)
    ensures var r := Rename(fs, p.staged, p.dst, now);
            Tree(r) && SlotHolds(p, r, before, Replaced)
  {
    hide Rename, SameTree, Frame;
    InstallEffect(fs, p.staged, p.dst, now);
    RootOf(Rename(fs, p.staged, p.dst, now), p.dst, fs, p.staged);
  }

  lemma InstallKeepsInv(p: Plan, s: State, ok: bool, now: Time, t: State)
    requires p.Valid() && Inv(p, s) && PromoteSteps(p, s, Installs(ok, now), t)
    ensures Inv(p, t)
  {
    hide Rename, CanRename, Tree, SlotHolds, Fits, Heard, Complete;
    var fs, pc := s.mirror.fs, s.work.pc;
    if ok {
      StagedMoves(p, fs, s.mirror.before, now);
      MoveKeepsInv(p, s, Rename(fs, p.staged, p.dst, now), Replaced, if pc.Vacant? then Clearing(pc.temp) else Opening, t);
    } else if pc.Vacant? {
      MoveKeepsInv(p, s, fs, s.mirror.slot, Reverting(pc.temp), t);
    } else {
      ErrorKeepsInv(p, s, t);
    }
  }

  /** Renaming the old copy back restores the slot. */
  lemma OldMovesBack(p: Plan, fs: FS, before: FS, temp: string, now: Time)
    requires p.Valid() && CanRename(fs, OldCopy(temp), p.dst) && SlotHolds(p, fs, before, Away(temp))
    ensures var r := Rename(fs, OldCopy(temp), p.dst, now);
            Tree(r) && SlotHolds(p, r, before, Untouched)
  {
    hide Rename, SameTree, Frame;
    InstallEffect(fs, OldCopy(temp), p.dst, now);
    SameTreeTrans(Rename(fs, OldCopy(temp), p.dst, now), p.dst, fs, OldCopy(temp), before, p.dst);
  }

  lemma RevertKeepsInv(p: Plan, s: State, ok: bool, now: Time, t: State)
    requires p.Valid() && Inv(p, s) && PromoteSteps(p, s, Reverts(ok, now), t)
    ensures Inv(p, t)
  {
    hide Rename, CanRename, Tree, SlotHolds, Heard;
    if ok {
      var fs, temp := s.mirror.fs, s.work.pc.temp;
      OldMovesBack(p, fs, s.mirror.before, temp, now);
      EndedWire(p, t);
      EmitKeepsHeard(p, s, DoneError);
      Told(s.net.seen, s.net.down, s.work.emitted, DoneError);
    } else {
      ErrorKeepsInv(p, s, t);
    }
  }

  lemma ClearKeepsInv(p: Plan, s: State, stuck: set<Path>, now: Time, t: State)
    requires p.Valid() && Inv(p, s) && PromoteSteps(p, s, Clears(stuck, now), t)
    ensures Inv(p, t)
  {
    hide RemoveAll, Tree, SlotHolds, AgreeAt, Heard, Frame;
    var fs, temp := s.mirror.fs, s.work.pc.temp;
    CleanUpEffect(fs, p.dst, Aside(temp), stuck, now);
    var r := RemoveAll(fs, Aside(temp), stuck, now);
    AgreeingDisk(p, fs, r, s.mirror.before, s.mirror.slot);
    MoveKeepsInv(p, s, r, s.mirror.slot, s.work.pc, t);
  }

  lemma ClearedKeepsInv(p: Plan, s: State, t: State)
    requires p.Valid() && Inv(p, s) && PromoteSteps(p, s, Cleared, t)
    ensures Inv(p, t)
  {
    hide Tree, SlotHolds, Heard;
    if s.work.pc.Clearing? {
      MoveKeepsInv(p, s, s.mirror.fs, Replaced, Opening, t);
    } else {
      ErrorKeepsInv(p, s, t);
    }
  }

  lemma OpenKeepsInv(p: Plan, s: State, ok: bool, t: State)
    requires p.Valid() && Inv(p, s) && PromoteSteps(p, s, Opens(ok), t)
    ensures Inv(p, t)
  {
    hide Tree, SlotHolds, Heard;
    if ok {
      EndedWire(p, t);
      EmitKeepsHeard(p, s, DoneOk);
      Told(s.net.seen, s.net.down, s.work.emitted, DoneOk);
    } else {
      ErrorKeepsInv(p, s, t);
    }
  }

  lemma PromoteKeepsInv(p: Plan, s: State, a: Action, t: State)
    requires p.Valid() && Inv(p, s) && PromoteSteps(p, s, a, t)
    ensures Inv(p, t)
  {
    hide Inv;
    match a
    case MakesLevel(k, now) => LevelKeepsInv(p, s, k, now, t);
    case MakesTemp(temp, now) => TempKeepsInv(p, s, temp, now, t);
    case MovesAside(ok, now) => AsideKeepsInv(p, s, ok, now, t);
    case Installs(ok, now) => InstallKeepsInv(p, s, ok, now, t);
    case Reverts(ok, now) => RevertKeepsInv(p, s, ok, now, t);
    case Clears(stuck, now) => ClearKeepsInv(p, s, stuck, now, t);
    case Cleared => ClearedKeepsInv(p, s, t);
    case Opens(ok) => OpenKeepsInv(p, s, ok, t);
    case _ =>
  }

  lemma StepKeepsInv(p: Plan, s: State, a: Action, t: State)
    requires p.Valid() && Inv(p, s) && Steps(p, s, a, t)
    ensures Inv(p, t)
  {
    hide Inv, ClientSteps, ReceiveSteps, PromoteSteps, OutsideSteps;
    if ClientSteps(p, s.net, a, t.net) && t == s.(net := t.net) {
      ClientKeepsInv(p, s, a, t);
    } else if ReceiveSteps(p, s, a, t) {
      ReceiveKeepsInv(p, s, a, t);
    } else if PromoteSteps(p, s, a, t) {
      PromoteKeepsInv(p, s, a, t);
    } else {
      OutsideKeepsInv(p, s, a, t);
    }
  }

  lemma OutsideKeepsInv(p: Plan, s: State, a: Action, t: State)
    requires WellSized(p.chunks) && Inv(p, s) && OutsideSteps(p, s, a, t)
    ensures Inv(p, t)
  {
    hide Inv;
    match a
    case Breaks(i, j) => BreakKeepsInv(p, s, i, j, t);
    case Elsewhere(disk) => ElsewhereKeepsInv(p, s, disk, t);
    case _ =>
  }

  lemma {:induction false} RunKeepsInv(p: Plan, states: seq<State>, actions: seq<Action>, i: nat)
    requires Run(p, states, actions) && i < |states|
    ensures Inv(p, states[i])
  {
    hide Inv, Steps;
    if i == 0 {
      InitialInv(p, states[0]);
    } else {
      RunKeepsInv(p, states, actions, i - 1);
      StepKeepsInv(p, states[i - 1], actions[i - 1], states[i]);
    }
  }
}
