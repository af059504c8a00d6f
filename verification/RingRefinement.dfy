/** When every packet of the stream is always cut at the same boundaries, fits a slot and arrives at
    most one ring length ahead, the 4096-slot ring is as good as an unbounded buffer. */
module RingRefinement {
  import opened Bytes
  import opened Wire
  import opened GapModel
  import opened GapDelivery

  // ----- Uniformly cut streams -----

  /** The packets of a stream: first sequence number to message bodies. */
  type Cut = map<u64, seq<seq<byte>>>

  ghost predicate GoodPacket(first: u64, bodies: seq<seq<byte>>) {
    && 1 <= |bodies| < U16_MOD && InSpace(first, |bodies|) && Sendable(bodies)
    && |EncodeBodies(bodies)| <= MAX_PACKET_BYTES
  }

  ghost predicate GoodCut(cut: Cut) {
    && (forall s :: s in cut ==> GoodPacket(s, cut[s]))
    && forall s, t :: s in cut && t in cut && s < t ==> s + |cut[s]| <= t
  }

  /** No packet of the cut straddles the number q. */
  ghost predicate Boundary(cut: Cut, q: u64) {
    forall s :: s in cut ==> s + |cut[s]| <= q || q <= s
  }

  /** The header and bytes of one whole packet of the cut. */
  ghost predicate WholePacket(cut: Cut, h: MoldHeader, data: seq<byte>) {
    h.seqNum in cut && h.msgCount == |cut[h.seqNum]| && data == EncodeBodies(cut[h.seqNum])
  }

  ghost predicate Uniform(cut: Cut, es: seq<Event>) {
    forall i :: 0 <= i < |es| && DataStart(es[i]).Some? ==>
      WholePacket(cut, ParseHeader(es[i].payload).value, es[i].payload[MOLD_HEADER_SIZE..])
  }

  /** Every packet arrives at most CAPACITY past the number expected at that time. */
  ghost predicate InWindow(cfg: Config, es: seq<Event>) {
    forall n :: 0 <= n < |es| && DataStart(es[n]).Some? && Run(cfg, es[..n]).synced ==>
      DataStart(es[n]).value <= Run(cfg, es[..n]).next + CAPACITY
  }

  /** The packets received so far that are not older than the join: an unbounded buffer. */
  ghost function Received(es: seq<Event>, first: u64): set<u64> {
    if es == [] then {}
    else
      var last := DataStart(es[|es| - 1]);
      Received(es[..|es| - 1], first)
      + if last.Some? && last.value >= first then {last.value} else {}
  }

  // ----- The refinement relation -----

  ghost predicate FromCut(cut: Cut, received: set<u64>, d: Delivery) {
    exists s :: s in received && s in cut && s <= d.seqNum < s + |cut[s]| && d.body == cut[s][d.seqNum - s]
  }

  ghost predicate HoldsPacket(cut: Cut, slot: Slot, s: u64)
    requires s in cut
  {
    slot.Held? && slot.seqNum == s && slot.msgCount == |cut[s]| && slot.data == EncodeBodies(cut[s])
  }

  /** The occupied slots are exactly the received packets not yet delivered. */
  ghost predicate RingHolds(cut: Cut, received: set<u64>, ring: Ring, next: u64) {
    && (forall s :: s in received && s >= next ==>
          s in cut && s <= next + CAPACITY && HoldsPacket(cut, ring[Index(s)], s))
    && forall i :: 0 <= i < CAPACITY && ring[i].Held? ==> ring[i].seqNum in received && ring[i].seqNum >= next
  }

  /** The refinement relation between events of a flush. */
  ghost predicate Draining(cut: Cut, first: u64, received: set<u64>, st: State) {
    && Ordered(st) && Keyed(st.ring) && st.synced && st.next == first + |st.log|
    && Boundary(cut, st.next)
    && (forall s :: s in received ==> s in cut && s >= first)
    && (forall k :: 0 <= k < |st.log| ==> FromCut(cut, received, st.log[k]))
    && RingHolds(cut, received, st.ring, st.next)
    && st.stats.overflows == 0
  }

  /** The state agrees with the unbounded buffer: everything below `next` is received and delivered
      with its body, the packet at `next` is the first one missing, the rest is in its slot, and no
      slot was ever fought over. */
  ghost predicate Ideal(cut: Cut, first: u64, received: set<u64>, st: State) {
    Draining(cut, first, received, st) && st.next !in received && Settled(st)
  }

  // ----- Delivery and flush -----

  lemma MoreReceived(cut: Cut, received: set<u64>, log: seq<Delivery>, s: u64)
    requires forall k :: 0 <= k < |log| ==> FromCut(cut, received, log[k])
    ensures forall k :: 0 <= k < |log| ==> FromCut(cut, received + {s}, log[k])
  {
    forall k | 0 <= k < |log|
      ensures FromCut(cut, received + {s}, log[k])
    {
      var t :| t in received && t in cut && t <= log[k].seqNum < t + |cut[t]|
               && log[k].body == cut[t][log[k].seqNum - t];
      assert t in received + {s};
    }
  }

  lemma WholeFrames(bodies: seq<seq<byte>>)
    requires Sendable(bodies)
    ensures Frames(EncodeBodies(bodies), |bodies|) == bodies
  {
    assert EncodeBodies(bodies) + [] == EncodeBodies(bodies);
    FramingRoundTrip(bodies, []);
  }

  lemma ExtendsFromCut(cut: Cut, received: set<u64>, st: State, st': State, recv: u64)
    requires st.next in cut && st.next in received
    requires Extends(st, st', st.next, cut[st.next], recv)
    requires forall k :: 0 <= k < |st.log| ==> FromCut(cut, received, st.log[k])
    ensures forall k :: 0 <= k < |st'.log| ==> FromCut(cut, received, st'.log[k])
  {
    forall k | 0 <= k < |st'.log|
      ensures FromCut(cut, received, st'.log[k])
    {
      if k < |st.log| {
        assert st'.log[k] == st.log[k];
      }
    }
  }

  /** Delivering the packet that starts at `next`, whole. */
  lemma DeliverPacket(cut: Cut, received: set<u64>, st: State, recv: u64)
    requires GoodCut(cut) && Ordered(st) && st.next in cut && st.next in received
    requires forall k :: 0 <= k < |st.log| ==> FromCut(cut, received, st.log[k])
    ensures var bodies := cut[st.next];
            var st' := Deliver(st, st.next, |bodies|, EncodeBodies(bodies), recv);
            && Ordered(st') && Grows(st, st') && st'.next == st.next + |bodies| && Boundary(cut, st'.next)
            && forall k :: 0 <= k < |st'.log| ==> FromCut(cut, received, st'.log[k])
  {
    var bodies := cut[st.next];
    assert GoodPacket(st.next, bodies);
    WholeFrames(bodies);
    DeliverExtends(st, st.next, |bodies|, EncodeBodies(bodies), recv);
    ExtendsFromCut(cut, received, st, Deliver(st, st.next, |bodies|, EncodeBodies(bodies), recv), recv);
  }

  lemma FlushOneDrains(cut: Cut, first: u64, received: set<u64>, st: State)
    requires GoodCut(cut) && Draining(cut, first, received, st) && Starts(st.ring, st.next)
    ensures Draining(cut, first, received, FlushOne(st))
  {
    var i := Index(st.next);
    var slot := st.ring[i];
    assert HoldsPacket(cut, slot, st.next);
    DeliverPacket(cut, received, st, slot.recv);
    FlushOneKeeps(st);
    var st' := FlushOne(st);
    forall s | s in received && s >= st'.next
      ensures s <= st'.next + CAPACITY && HoldsPacket(cut, st'.ring[Index(s)], s)
    {
      assert HoldsPacket(cut, st.ring[Index(s)], s);
    }
    forall j | 0 <= j < CAPACITY && st'.ring[j].Held?
      ensures st'.ring[j].seqNum in received && st'.ring[j].seqNum >= st'.next
    {
      assert st.ring[j].seqNum in received && SlotOk(st.ring[j], j);
    }
  }

  lemma {:induction false} FlushIsIdeal(cut: Cut, first: u64, received: set<u64>, st: State)
    requires GoodCut(cut) && Draining(cut, first, received, st)
    ensures var st' := Flush(st);
            && Draining(cut, first, received, st') && st'.next !in received && !Starts(st'.ring, st'.next)
            && SameTracker(st, st') && Grows(st, st')
    decreases Occupied(st.ring)
  {
    if Starts(st.ring, st.next) {
      OccupiedAfterFree(st.ring, Index(st.next));
      FlushOneKeeps(st);
      FlushOneDrains(cut, first, received, st);
      FlushIsIdeal(cut, first, received, FlushOne(st));
    }
  }

  // ----- One packet -----

  /** The three ways a packet can relate to what is expected. */
  lemma OldPacket(cut: Cut, first: u64, received: set<u64>, st: State, s: u64)
    requires GoodCut(cut) && Ideal(cut, first, received, st) && s in cut && s < st.next
    ensures s + |cut[s]| <= st.next
    ensures s >= first ==> s in received
  {
    if s >= first {
      var d := st.log[s - first];
      assert FromCut(cut, received, d) && d.seqNum == s;
    }
  }

  /** The slot of a packet that arrives inside the window is free or already holds that packet. */
  lemma NoCollision(cut: Cut, received: set<u64>, st: State, s: u64)
    requires RingHolds(cut, received, st.ring, st.next) && Keyed(st.ring) && st.next !in received
    requires st.next < s <= st.next + CAPACITY
    ensures var slot := st.ring[Index(s)];
            slot.Held? ==> slot.seqNum == s
  {
    var slot := st.ring[Index(s)];
    if slot.Held? {
      assert slot.seqNum in received && SlotOk(slot, Index(s));
      SameSlot(st.next, s, slot.seqNum);
    }
  }

  /** With uniform cuts nothing goes stale, so a packet ahead of `next` is lost to an occupied slot
      exactly when an undelivered packet a multiple of 4096 away was received, which takes an arrival
      outside the window. */
  lemma UniformOverflowsExactly(cut: Cut, first: u64, received: set<u64>, st: State, h: MoldHeader,
                                data: seq<byte>, now: u64)
    requires GoodCut(cut) && Ideal(cut, first, received, st) && WholePacket(cut, h, data) && st.next < h.seqNum
    ensures var st' := BufferPacket(st, h, data, now);
            var rival := exists t :: t in received && t > st.next && t != h.seqNum && Index(t) == Index(h.seqNum);
            && (st'.stats.overflows == 1 <==> rival)
            && (rival ==> h.seqNum > st.next + CAPACITY && st'.ring == st.ring)
  {
    var slot := st.ring[Index(h.seqNum)];
    if slot.Held? {
      assert slot.seqNum in received && SlotOk(slot, Index(h.seqNum));
    }
    forall t | t in received && t > st.next && t != h.seqNum && Index(t) == Index(h.seqNum)
      ensures slot.Held? && slot.seqNum == t && h.seqNum > st.next + CAPACITY
    {
      assert HoldsPacket(cut, st.ring[Index(t)], t);
      if h.seqNum <= st.next + CAPACITY {
        SameSlot(st.next, h.seqNum, t);
      }
    }
  }

  lemma FillSlot(cut: Cut, received: set<u64>, ring: Ring, next: u64, s: u64, slot: Slot)
    requires RingHolds(cut, received, ring, next) && next !in received
    requires s in cut && next < s <= next + CAPACITY && HoldsPacket(cut, slot, s)
    ensures RingHolds(cut, received + {s}, ring[Index(s) := slot], next)
  {
    var ring' := ring[Index(s) := slot];
    forall t | t in received + {s} && t >= next
      ensures t in cut && t <= next + CAPACITY && HoldsPacket(cut, ring'[Index(t)], t)
    {
      if t != s {
        assert HoldsPacket(cut, ring[Index(t)], t);
        if Index(t) == Index(s) {
          SameSlot(next, s, t);
        }
      }
    }
  }

  lemma AheadPacket(cfg: Config, cut: Cut, first: u64, received: set<u64>, st: State, h: MoldHeader,
                    data: seq<byte>, now: u64)
    requires GoodCut(cut) && Ideal(cut, first, received, st) && WholePacket(cut, h, data)
    requires st.next < h.seqNum <= st.next + CAPACITY
    ensures Ideal(cut, first, received + {h.seqNum}, BufferPacket(HandleGap(st, h.seqNum, now), h, data, now))
  {
    var s := h.seqNum;
    assert GoodPacket(s, cut[s]);
    NoCollision(cut, received, st, s);
    FillSlot(cut, received, st.ring, st.next, s, Held(s, h.msgCount, now, data));
    MoreReceived(cut, received, st.log, s);
    BufferKeeps(HandleGap(st, s, now), h, data, now);
  }

  /** Two numbers of one window that share a slot are the same number. */
  lemma SameSlot(next: u64, s: u64, t: u64)
    requires next < s <= next + CAPACITY && next < t <= next + CAPACITY && Index(s) == Index(t)
    ensures s == t
  {
  }

  /** Right after a packet that starts at `next` was delivered, before the flush. */
  lemma DirectDrains(cut: Cut, first: u64, received: set<u64>, st: State, recv: u64)
    requires GoodCut(cut) && Ideal(cut, first, received, st) && st.next in cut
    ensures var bodies := cut[st.next];
            Draining(cut, first, received + {st.next}, Deliver(st, st.next, |bodies|, EncodeBodies(bodies), recv))
  {
    var s, bodies := st.next, cut[st.next];
    var more := received + {s};
    var direct := Deliver(st, s, |bodies|, EncodeBodies(bodies), recv);
    assert GoodPacket(s, bodies);
    MoreReceived(cut, received, st.log, s);
    DeliverPacket(cut, more, st, recv);
    forall i | 0 <= i < CAPACITY && st.ring[i].Held?
      ensures st.ring[i].seqNum in more && st.ring[i].seqNum >= direct.next
    {
      assert st.ring[i].seqNum in received && st.ring[i].seqNum >= st.next;
    }
  }

  lemma NextPacket(cut: Cut, first: u64, received: set<u64>, st: State, h: MoldHeader, data: seq<byte>, now: u64)
    requires GoodCut(cut) && Ideal(cut, first, received, st) && WholePacket(cut, h, data) && h.seqNum == st.next
    ensures var st' := ClearGap(Flush(Deliver(st, h.seqNum, h.msgCount, data, now)));
            Ideal(cut, first, received + {h.seqNum}, st')
  {
    DirectDrains(cut, first, received, st, now);
    FlushIsIdeal(cut, first, received + {h.seqNum}, Deliver(st, h.seqNum, h.msgCount, data, now));
  }

  lemma CheckIdeal(cfg: Config, cut: Cut, first: u64, received: set<u64>, st: State, now: u64)
    requires Ideal(cut, first, received, st)
    ensures Ideal(cut, first, received, CheckTimeout(cfg, st, now))
  {
  }

  /** A packet with messages adds its number to what was received, unless it is older than the join. */
  lemma DataIdeal(cfg: Config, cut: Cut, first: u64, received: set<u64>, st: State, h: MoldHeader,
                  data: seq<byte>, now: u64)
    requires GoodCut(cut) && Ideal(cut, first, received, st) && h.msgCount > 0
    requires WholePacket(cut, h, data) && h.seqNum <= st.next + CAPACITY
    ensures Ideal(cut, first, if h.seqNum >= first then received + {h.seqNum} else received,
                  OnData(cfg, st, h, data, now))
  {
    assert GoodPacket(h.seqNum, cut[h.seqNum]);
    if h.seqNum < st.next {
      OldPacket(cut, first, received, st, h.seqNum);
      assert h.seqNum >= first ==> received + {h.seqNum} == received;
    } else if h.seqNum > st.next {
      AheadPacket(cfg, cut, first, received, st, h, data, now);
      CheckIdeal(cfg, cut, first, received + {h.seqNum},
                 BufferPacket(HandleGap(st, h.seqNum, now), h, data, now), now);
    } else {
      NextPacket(cut, first, received, st, h, data, now);
    }
  }

  lemma HeaderIdeal(cfg: Config, cut: Cut, first: u64, received: set<u64>, st: State, h: MoldHeader,
                    data: seq<byte>, now: u64)
    requires GoodCut(cut) && Ideal(cut, first, received, st)
    requires h.msgCount > 0 ==> WholePacket(cut, h, data) && h.seqNum <= st.next + CAPACITY
    ensures Ideal(cut, first,
                  received + (if h.msgCount > 0 && h.seqNum >= first then {h.seqNum} else {}),
                  OnHeader(cfg, st, h, data, now))
  {
    assert received + {} == received;
    if h.msgCount == 0 {
      var beat := st.(stats := st.stats.(heartbeats := st.stats.heartbeats + 1));
      CheckIdeal(cfg, cut, first, received, beat, now);
    } else {
      DataIdeal(cfg, cut, first, received, CountPacket(st, h), h, data, now);
    }
  }

  // ----- Runs -----

  lemma {:induction false} NothingReceived(es: seq<Event>, first: u64)
    requires SyncSeq(es).None?
    ensures Received(es, first) == {}
  {
    if es != [] {
      var n := |es| - 1;
      SyncSeqOfPrefix(es, n);
      assert es[n..] == [es[n]] && [es[n]][1..] == [];
      NothingReceived(es[..n], first);
    }
  }

  lemma JoinIsIdeal(cfg: Config, cut: Cut, es: seq<Event>, h: MoldHeader)
    requires AllFit(es) && SyncSeq(es).None? && InSpace(h.seqNum, h.msgCount) && Boundary(cut, h.seqNum)
    ensures Ideal(cut, h.seqNum, {}, Sync(Run(cfg, es), h))
  {
    ExactlyOnceInOrder(cfg, es);
    RunInv(cfg, es);
    NoOverflowBeforeJoin(cfg, es);
    SyncKeeps(Run(cfg, es), h);
  }

  lemma {:induction false} NoOverflowBeforeJoin(cfg: Config, es: seq<Event>)
    requires AllFit(es) && SyncSeq(es).None?
    ensures Run(cfg, es).stats.overflows == 0
  {
    if es != [] {
      var n := |es| - 1;
      SyncSeqOfPrefix(es, n);
      assert es[n..] == [es[n]];
      NoOverflowBeforeJoin(cfg, es[..n]);
    }
  }

  /** One more event of a run that has joined. */
  lemma StepIdeal(cfg: Config, cut: Cut, first: u64, received: set<u64>, st: State, e: Event)
    requires GoodCut(cut) && Ideal(cut, first, received, st)
    requires DataStart(e).Some? ==>
               WholePacket(cut, ParseHeader(e.payload).value, e.payload[MOLD_HEADER_SIZE..])
               && DataStart(e).value <= st.next + CAPACITY
    ensures var start := DataStart(e);
            Ideal(cut, first, received + (if start.Some? && start.value >= first then {start.value} else {}),
                  Step(cfg, st, e))
  {
    assert received + {} == received;
    if e.Tick? {
      CheckIdeal(cfg, cut, first, received, st, e.now);
    } else if ParseHeader(e.payload).Some? {
      HeaderIdeal(cfg, cut, first, received, st, ParseHeader(e.payload).value, e.payload[MOLD_HEADER_SIZE..], e.now);
    }
  }

  /** The datagram a run joins with. */
  lemma JoinStepIdeal(cfg: Config, cut: Cut, es: seq<Event>, e: Event)
    requires GoodCut(cut) && AllFit(es) && Fits(e) && SyncSeq(es).None?
    requires e.Datagram? && ParseHeader(e.payload).Some? && Boundary(cut, ParseHeader(e.payload).value.seqNum)
    requires DataStart(e).Some? ==>
               WholePacket(cut, ParseHeader(e.payload).value, e.payload[MOLD_HEADER_SIZE..])
    ensures var first := ParseHeader(e.payload).value.seqNum;
            Ideal(cut, first, if DataStart(e).Some? then {first} else {}, Step(cfg, Run(cfg, es), e))
  {
    var h := ParseHeader(e.payload).value;
    JoinIsIdeal(cfg, cut, es, h);
    HeaderIdeal(cfg, cut, h.seqNum, {}, Sync(Run(cfg, es), h), h, e.payload[MOLD_HEADER_SIZE..], e.now);
    assert {} + {h.seqNum} == {h.seqNum};
  }

  /** The last event of a run that had joined before. */
  lemma LaterStepIdeal(cfg: Config, cut: Cut, es: seq<Event>, first: u64, n: nat)
    requires GoodCut(cut) && Uniform(cut, es) && InWindow(cfg, es) && n + 1 == |es|
    requires Run(cfg, es[..n]).synced && Ideal(cut, first, Received(es[..n], first), Run(cfg, es[..n]))
    ensures Ideal(cut, first, Received(es, first), Run(cfg, es))
  {
    var start := DataStart(es[n]);
    StepIdeal(cfg, cut, first, Received(es[..n], first), Run(cfg, es[..n]), es[n]);
    assert Run(cfg, es) == Step(cfg, Run(cfg, es[..n]), es[n]);
    assert Received(es, first)
        == Received(es[..n], first) + (if start.Some? && start.value >= first then {start.value} else {});
  }

  /** The last event of a run that joins with it. */
  lemma FirstStepIdeal(cfg: Config, cut: Cut, es: seq<Event>, first: u64, n: nat)
    requires GoodCut(cut) && Uniform(cut, es) && AllFit(es) && n + 1 == |es|
    requires SyncSeq(es[..n]).None? && SyncSeq(es[n..]) == Some(first) && Boundary(cut, first)
    ensures Ideal(cut, first, Received(es, first), Run(cfg, es))
  {
    assert es[n..] == [es[n]];
    var start := DataStart(es[n]);
    NothingReceived(es[..n], first);
    JoinStepIdeal(cfg, cut, es[..n], es[n]);
    assert Run(cfg, es) == Step(cfg, Run(cfg, es[..n]), es[n]);
    assert Received(es, first) == if start.Some? then {first} else {};
  }

  /** The ring refines the unbounded buffer over every uniformly cut, windowed run. */
  lemma {:induction false} RingRefinesUnboundedBuffer(cfg: Config, cut: Cut, es: seq<Event>, first: u64)
    requires GoodCut(cut) && Uniform(cut, es) && InWindow(cfg, es) && AllFit(es)
    requires SyncSeq(es) == Some(first) && Boundary(cut, first)
    ensures Ideal(cut, first, Received(es, first), Run(cfg, es))
  {
    var n := |es| - 1;
    SyncSeqOfPrefix(es, n);
    if SyncSeq(es[..n]).Some? {
      WindowOfPrefix(cfg, cut, es, n);
      RingRefinesUnboundedBuffer(cfg, cut, es[..n], first);
      LaterStepIdeal(cfg, cut, es, first, n);
    } else {
      FirstStepIdeal(cfg, cut, es, first, n);
    }
  }

  lemma WindowOfPrefix(cfg: Config, cut: Cut, es: seq<Event>, n: nat)
    requires InWindow(cfg, es) && Uniform(cut, es) && n <= |es|
    ensures InWindow(cfg, es[..n]) && Uniform(cut, es[..n])
  {
    forall i | 0 <= i < n
      ensures es[..n][..i] == es[..i] && es[..n][i] == es[i]
    {
    }
  }

  // ----- The outcome depends only on what was received -----

  /** `next` is the least number at or after the join that no received packet covers. */
  lemma NextIsLeastMissing(cut: Cut, first: u64, received: set<u64>, st: State, q: u64)
    requires GoodCut(cut) && Ideal(cut, first, received, st) && first <= q <= st.next
    ensures q == st.next <==> !exists s :: s in received && s in cut && s <= q < s + |cut[s]|
  {
    if q < st.next {
      assert FromCut(cut, received, st.log[q - first]);
    }
  }

  /** Order independence: two runs that joined at the same number and received the same packets, in
      whatever order and however often, have delivered the same messages, expect the same number and
      hold the same packets. */
  lemma OutcomeIgnoresArrivalOrder(cfg: Config, cut: Cut, es: seq<Event>, fs: seq<Event>, first: u64)
    requires GoodCut(cut) && Boundary(cut, first) && SyncSeq(es) == SyncSeq(fs) == Some(first)
    requires Uniform(cut, es) && InWindow(cfg, es) && AllFit(es)
    requires Uniform(cut, fs) && InWindow(cfg, fs) && AllFit(fs)
    requires Received(es, first) == Received(fs, first)
    ensures var a, b := Run(cfg, es), Run(cfg, fs);
            && a.next == b.next && |a.log| == |b.log|
            && (forall k :: 0 <= k < |a.log| ==>
                  a.log[k].seqNum == b.log[k].seqNum && a.log[k].body == b.log[k].body)
            && (forall i :: 0 <= i < CAPACITY ==> SameContents(a.ring[i], b.ring[i]))
            && a.stats.overflows == b.stats.overflows == 0
  {
    var a, b := Run(cfg, es), Run(cfg, fs);
    var received := Received(es, first);
    RingRefinesUnboundedBuffer(cfg, cut, es, first);
    RingRefinesUnboundedBuffer(cfg, cut, fs, first);
    if a.next < b.next {
      NextIsLeastMissing(cut, first, received, a, a.next);
      NextIsLeastMissing(cut, first, received, b, a.next);
    } else {
      NextIsLeastMissing(cut, first, received, b, b.next);
      NextIsLeastMissing(cut, first, received, a, b.next);
    }
    forall k | 0 <= k < |a.log|
      ensures a.log[k].seqNum == b.log[k].seqNum && a.log[k].body == b.log[k].body
    {
      SameBody(cut, received, a.log[k], b.log[k]);
    }
    forall i | 0 <= i < CAPACITY
      ensures SameContents(a.ring[i], b.ring[i])
    {
      SameSlotContents(cut, first, received, a, b, i);
      SameSlotContents(cut, first, received, b, a, i);
    }
  }

  /** Equal up to the arrival time of the copy that is kept. */
  ghost predicate SameContents(a: Slot, b: Slot) {
    a.Held? == b.Held? && (a.Held? ==> a == b.(recv := a.recv))
  }

  lemma SameBody(cut: Cut, received: set<u64>, d: Delivery, f: Delivery)
    requires GoodCut(cut) && FromCut(cut, received, d) && FromCut(cut, received, f) && d.seqNum == f.seqNum
    ensures d.body == f.body
  {
  }

  lemma SameSlotContents(cut: Cut, first: u64, received: set<u64>, a: State, b: State, i: nat)
    requires Ideal(cut, first, received, a) && Ideal(cut, first, received, b) && a.next == b.next && i < CAPACITY
    ensures a.ring[i].Held? ==> SameContents(a.ring[i], b.ring[i])
  {
    if a.ring[i].Held? {
      var s := a.ring[i].seqNum;
      assert s in received && SlotOk(a.ring[i], i);
      assert HoldsPacket(cut, a.ring[Index(s)], s) && HoldsPacket(cut, b.ring[Index(s)], s);
    }
  }
}
