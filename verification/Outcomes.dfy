// What whole runs of a conversation come to: what the slot holds, what both
// sides may say, and why.

module Outcomes {
  import opened Basics
  import opened Paths
  import opened FileSystem
  import opened Framing
  import opened Lines
  import opened Promotion
  import opened Conversation

  // ------------------------------------------------------------- the slot

  /** Under the lock and when it has been released, at every moment, the slot
      holds what it held when the lock was taken, or exactly the bytes the client
      read; or it is empty and its old copy is whole in the aside directory. It
      is that exactly between the two renames of a promote, and for good only if
      neither the second nor its rollback succeeds and an error was reported.
      Never a part of the file. */
  lemma TransferIsAtomic(p: Plan, states: seq<State>, actions: seq<Action>, i: nat)
    requires Run(p, states, actions) && i < |states|
    requires !states[i].work.pc.ReadingHeader? && !states[i].work.pc.Checking?
    ensures var s := states[i];
            var v, before, pc := View(s), s.mirror.before, s.work.pc;
            && (|| SameTree(v, p.dst, before, p.dst)
                || (p.dst in v && v[p.dst].File? && v[p.dst].bytes == p.Content() && Fits(p))
                || (s.mirror.slot.Away? && p.dst !in v && SameTree(v, OldCopy(s.mirror.slot.temp), before, p.dst)))
            && (s.mirror.slot.Away? ==>
                  p.dst in before && (pc.Vacant? || pc.Reverting? || (pc.DaemonEnded? && s.work.emitted == [Received, DoneError])))
            && (pc.Vacant? || pc.Reverting? ==> s.mirror.slot == Away(pc.temp) && p.dst !in v)
  {
    RunKeepsInv(p, states, actions, i);
  }

  /** Only a failed rollback ends a conversation with the slot empty. */
  lemma EndsAway(p: Plan, s: State, a: Action, t: State)
    requires p.Valid() && Inv(p, s) && Steps(p, s, a, t)
    requires !s.work.pc.DaemonEnded? && t.work.pc.DaemonEnded? && t.mirror.slot.Away?
    ensures a.Reverts? && !a.ok && s.work.pc == Reverting(t.mirror.slot.temp)
  {
    hide Conversation.Wire, SlotIs, Heard, Rename, CanRename, MakeTemp, MkdirAll, RemoveAll, ReadNow, ReadRequest;
  }

  lemma EndedStays(p: Plan, s: State, a: Action, t: State)
    requires p.Valid() && Steps(p, s, a, t) && s.work.pc.DaemonEnded?
    ensures t.work == s.work && t.mirror.slot == s.mirror.slot && t.mirror.after == s.mirror.after
  {
  }

  /** Every conversation that ends with the slot empty has tried to rename the
      old copy back and failed: after a failed second rename nothing else ends it. */
  lemma {:induction false} EmptyOnlyAfterFailedRollback(p: Plan, states: seq<State>, actions: seq<Action>, i: nat)
    returns (j: nat)
    requires Run(p, states, actions) && i < |states|
    requires states[i].work.pc.DaemonEnded? && states[i].mirror.slot.Away?
    ensures j < i && actions[j].Reverts? && !actions[j].ok
    ensures states[j].work.pc == Reverting(states[i].mirror.slot.temp)
  {
    hide Inv, Steps;
    assert i > 0;
    RunKeepsInv(p, states, actions, i - 1);
    var s, a, t := states[i - 1], actions[i - 1], states[i];
    if s.work.pc.DaemonEnded? {
      EndedStays(p, s, a, t);
      j := EmptyOnlyAfterFailedRollback(p, states, actions, i - 1);
    } else {
      EndsAway(p, s, a, t);
      j := i - 1;
    }
  }

  /** With the old copy aside the daemon can only install the new one or go back:
      its next change of place is one of the two. */
  lemma VacantInstallsOrReverts(p: Plan, s: State, a: Action, t: State)
    requires p.Valid() && Steps(p, s, a, t) && s.work.pc.Vacant? && t.work.pc != s.work.pc
    ensures || (t.work.pc == Clearing(s.work.pc.temp) && t.mirror.slot == Replaced)
            || (t.work.pc == Reverting(s.work.pc.temp) && t.mirror == s.mirror && t.net == s.net)
  {
  }

  /** What has happened when the daemon says or does something. */
  lemma {:induction false} EventsHaveCauses(p: Plan, states: seq<State>, actions: seq<Action>, i: nat)
    requires Run(p, states, actions) && i < |states|
    ensures Received in states[i].work.emitted ==> Happened(actions, i, Checks(true))
    ensures states[i].work.shown ==> Happened(actions, i, Opens(true))
    ensures states[i].mirror.slot == Replaced ==> exists now :: Happened(actions, i, Installs(true, now))
    ensures states[i].mirror.slot != Untouched ==> Happened(actions, i, Checks(true))
  {
    hide Inv, Steps;
    if i > 0 {
      EventsHaveCauses(p, states, actions, i - 1);
      RunKeepsInv(p, states, actions, i - 1);
      var s, a, t := states[i - 1], actions[i - 1], states[i];
      CauseOfEvent(p, s, a, t);
      HappenedBefore(actions, i - 1, Checks(true));
      HappenedBefore(actions, i - 1, Opens(true));
      if t.mirror.slot == Replaced {
        if s.mirror.slot == Replaced {
          var now :| Happened(actions, i - 1, Installs(true, now));
          HappenedBefore(actions, i - 1, Installs(true, now));
        } else {
          assert Happened(actions, i, Installs(true, a.now));
        }
      }
    } else {
      assert states[0].work.emitted == [];
    }
  }

  predicate Happened(actions: seq<Action>, i: nat, a: Action)
    requires i <= |actions|
  {
    a in actions[..i]
  }

  lemma HappenedBefore(actions: seq<Action>, i: nat, a: Action)
    requires i < |actions|
    ensures Happened(actions, i, a) ==> Happened(actions, i + 1, a)
    ensures Happened(actions, i + 1, actions[i])
  {
    assert actions[..i + 1] == actions[..i] + [actions[i]];
  }

  lemma CauseOfEvent(p: Plan, s: State, a: Action, t: State)
    requires p.Valid() && Inv(p, s) && Steps(p, s, a, t)
    ensures Received in t.work.emitted ==> Received in s.work.emitted || a == Checks(true)
    ensures t.work.shown ==> s.work.shown || a == Opens(true)
    ensures t.mirror.slot == Replaced ==> s.mirror.slot == Replaced || (a.Installs? && a.ok)
    ensures t.mirror.slot != Untouched ==> s.mirror.slot != Untouched || Received in s.work.emitted
  {
    hide Conversation.Wire, SlotIs, Heard, Rename, CanRename, MakeTemp, MkdirAll, RemoveAll, ReadNow, ReadRequest;
  }

  /** Nothing of the file is sent before the daemon has accepted the request. */
  lemma ShipsOnlyWhenAccepted(p: Plan, states: seq<State>, actions: seq<Action>, i: nat)
    requires Run(p, states, actions) && i < |states|
    requires states[i].net.client.SendingPayload? || states[i].net.client.AwaitingDone?
    ensures states[i].net.seen == [Received] && states[i].work.gotHeader && Happened(actions, i, Checks(true))
  {
    RunKeepsInv(p, states, actions, i);
    EventsHaveCauses(p, states, actions, i);
    var n, emitted := states[i].net, states[i].work.emitted;
    assert n.seen <= n.seen + n.down <= emitted;
    assert emitted[0] == n.seen[0];
  }

  /** A request that is refused never gets anything but its header onto the wire. */
  lemma RefusedShipsNothing(p: Plan, states: seq<State>, actions: seq<Action>, i: nat)
    requires Run(p, states, actions) && i < |actions| && actions[i].Sends?
    requires !Happened(actions, i, Checks(true))
    ensures states[i].net.client == SendingHeader
  {
    hide ReceiveSteps, PromoteSteps, OutsideSteps;
    assert Steps(p, states[i], actions[i], states[i + 1]);
    if !states[i].net.client.SendingHeader? {
      SendsAre(p, states[i], actions[i], states[i + 1]);
      ShipsOnlyWhenAccepted(p, states, actions, i);
    }
  }

  lemma SendsAre(p: Plan, s: State, a: Action, t: State)
    requires p.Valid() && Steps(p, s, a, t) && a.Sends?
    ensures s.net.client.SendingHeader? || s.net.client.SendingPayload?
  {
  }

  /** What the client tells its user, and why. */
  ghost predicate Answers(n: Net, actions: seq<Action>, i: nat)
    requires i <= |actions|
  {
    && (DoneOk in n.seen ==> n.client == ClientEnded(true))
    && (DoneError in n.seen ==> n.client == ClientEnded(false))
    && (n.client == ClientEnded(false) ==> DoneError in n.seen || Happened(actions, i, GivesUp))
  }

  /** Over every run: a client that reads "done" returns at once, nil exactly when
      it says "ok"; and it returns an error only after it has read that the
      request failed or could not go on itself. */
  lemma {:induction false} ClientAnswers(p: Plan, states: seq<State>, actions: seq<Action>, i: nat)
    requires Run(p, states, actions) && i < |states|
    ensures Answers(states[i].net, actions, i)
  {
    hide Steps;
    if i > 0 {
      ClientAnswers(p, states, actions, i - 1);
      HappenedBefore(actions, i - 1, GivesUp);
      AnswerAfter(p, states[i - 1], actions[i - 1], states[i]);
    }
  }

  lemma AnswerAfter(p: Plan, s: State, a: Action, t: State)
    requires p.Valid() && Steps(p, s, a, t)
    ensures s.net.client.ClientEnded? ==> t.net.client == s.net.client && t.net.seen == s.net.seen
    ensures !s.net.client.ClientEnded? && DoneOk !in s.net.seen && DoneError !in s.net.seen ==>
              && (DoneOk in t.net.seen ==> t.net.client == ClientEnded(true))
              && (DoneError in t.net.seen ==> t.net.client == ClientEnded(false))
              && (t.net.client == ClientEnded(false) ==> DoneError in t.net.seen || a == GivesUp)
  {
    hide ReceiveSteps, PromoteSteps, OutsideSteps, Framed;
    if !(ClientSteps(p, s.net, a, t.net) && t == s.(net := t.net)) {
      OthersLeaveTheClient(p, s, a, t);
    }
  }

  lemma OthersLeaveTheClient(p: Plan, s: State, a: Action, t: State)
    requires p.dst != [] && (ReceiveSteps(p, s, a, t) || PromoteSteps(p, s, a, t) || OutsideSteps(p, s, a, t))
    ensures t.net.client == s.net.client && t.net.seen == s.net.seen
  {
    hide Rename, CanRename, MakeTemp, MkdirAll, RemoveAll, ReadNow, ReadRequest, PromoteSteps;
    if PromoteSteps(p, s, a, t) {
      PromoteLeavesTheClient(p, s, a, t);
    }
  }

  lemma PromoteLeavesTheClient(p: Plan, s: State, a: Action, t: State)
    requires p.dst != [] && PromoteSteps(p, s, a, t)
    ensures t.net.client == s.net.client && t.net.seen == s.net.seen
  {
    hide Rename, CanRename, MakeTemp, MkdirAll, RemoveAll;
  }

  /** A client that waits returns nil only when its bytes were in the slot and
      the opener had succeeded when the daemon released it; one that does not
      wait, only when the daemon has accepted the request and everything it had
      to send has left it. */
  lemma NilIsTrue(p: Plan, states: seq<State>, actions: seq<Action>, i: nat)
    requires Run(p, states, actions) && i < |states| && states[i].net.client == ClientEnded(true)
    ensures var s := states[i];
            && s.work.gotHeader && Received in s.work.emitted && s.net.toSend == []
            && (p.wait ==>
                  && s.work.pc == DaemonEnded && s.work.shown
                  && var v := s.mirror.after; p.dst in v && v[p.dst].File? && v[p.dst].bytes == p.Content())
  {
    RunKeepsInv(p, states, actions, i);
    var s := states[i];
    assert s.net.seen <= s.net.seen + s.net.down <= s.work.emitted;
    assert s.net.seen[0] == Received == s.work.emitted[0];
  }

  predicate IsDone(m: Message)
  {
    m != Received
  }

  /** Once a header has been read, the daemon ends the conversation with exactly
      one "done", its last event, and says "ok" only after the opener has; until
      it ends it has sent none; without a header it never sends anything. */
  lemma OneDoneAndLast(p: Plan, states: seq<State>, actions: seq<Action>, i: nat)
    requires Run(p, states, actions) && i < |states|
    ensures var w := states[i].work;
            && (forall j :: 0 <= j < |w.emitted| && IsDone(w.emitted[j]) ==> j == |w.emitted| - 1 && w.pc == DaemonEnded)
            && (w.pc == DaemonEnded && w.gotHeader ==> w.emitted != [] && IsDone(w.emitted[|w.emitted| - 1]))
            && (DoneOk in w.emitted <==> w.shown)
            && (!w.gotHeader ==> w.emitted == [])
            && (w.gotHeader ==> |p.json| < MAX_HEADER)
  {
    RunKeepsInv(p, states, actions, i);
  }

  /** A read that has what it needs, of a file within the cap, succeeds. */
  lemma BodyReadSucceeds(up: seq<byte>, size: nat, total: nat, c: Call, maxPayload: int)
    requires size > 0 && c.size > 0 && up != [] && size + total <= maxPayload
    ensures var r := ReadStep(Reader(up, size, false, total), c, maxPayload, false);
            r.err == NoError && |r.r.input| < |up|
  {
  }

  lemma ReadSucceeds(up: seq<byte>, total: nat, cur: seq<byte>, rest: seq<seq<byte>>, c: Call, maxPayload: int)
    requires WellSized(rest) && up <= cur + Framed(rest) && c.size > 0
    requires total + |cur + Concat(rest)| <= maxPayload
    requires if cur != [] then up != [] else |up| >= 4 && (FromBigEndian(up[..4]) > 0 ==> |up| > 4)
    ensures var r := ReadStep(Reader(up, |cur|, false, total), c, maxPayload, false);
            r.err in {NoError, EOF} && (r.err == NoError ==> |r.r.input| < |up|)
  {
    hide ReadStep, Framed, Concat;
    if cur != [] {
      BodyReadSucceeds(up, |cur|, total, c, maxPayload);
    } else {
      HeaderAhead(up, rest);
      if rest == [] {
        ZeroEnds(up, total, c, maxPayload);
      } else {
        OpensChunk(up, total, c, maxPayload);
        BodyReadSucceeds(up[4..], |rest[0]|, total, c, maxPayload);
      }
    }
  }

  /** While nothing is lost, a file within the cap is never refused by a read:
      each one hands over bytes or the clean end. */
  lemma NoSpuriousReadError(p: Plan, s: State, c: Call)
    requires p.Valid() && Inv(p, s) && c.size > 0
    requires s.work.pc == Receiving && !s.net.lost && CanRead(p, s)
    requires |p.Content()| <= p.maxPayload
    ensures ReadNow(p, s, c).err in {NoError, EOF}
    ensures ReadNow(p, s, c).err == NoError ==> |ReadNow(p, s, c).r.input| < |s.net.up|
  {
    hide ReadStep, Framed, Concat, SlotIs, Says;
    var got := s.mirror.fs[p.staged].bytes;
    var cur, rest :| Midway(p, s.net, s.work.remaining, s.work.total, got, cur, rest);
    assert got + cur + Concat(rest) == got + (cur + Concat(rest));
    EnoughToRead(p, s, cur, rest);
    ReadSucceeds(s.net.up, s.work.total, cur, rest, c, p.maxPayload);
  }

  /** When the next read need not wait, the bytes it needs are there. */
  lemma EnoughToRead(p: Plan, s: State, cur: seq<byte>, rest: seq<seq<byte>>)
    requires WellSized(p.chunks) && Heard(p, s.net, s.work.emitted) && !s.net.lost && CanRead(p, s)
    requires WellSized(rest) && |cur| == s.work.remaining && Flows(p, s.net, cur + Framed(rest))
    requires s.work.total + |cur + Concat(rest)| <= p.maxPayload
    ensures if cur != [] then s.net.up != [] else |s.net.up| >= 4 && (FromBigEndian(s.net.up[..4]) > 0 ==> |s.net.up| > 4)
  {
    hide Framed, Concat;
    var up := s.net.up;
    AheadIsLong(cur, rest);
    if s.net.upEnded {
      assert up == cur + Framed(rest);
    }
    if cur == [] {
      assert |up| >= 4;
      HeaderAhead(up, rest);
    }
  }

  lemma AheadIsLong(cur: seq<byte>, rest: seq<seq<byte>>)
    requires WellSized(rest)
    ensures |cur + Framed(rest)| >= |cur| + 4
    ensures rest != [] ==> |Framed(rest)| > 4
    ensures rest != [] ==> |Concat(rest)| >= |rest[0]|
  {
    FramedHead(rest, []);
    assert Framed(rest) + [] == Framed(rest);
    if rest != [] { assert Sized(rest[0]); }
  }
}
