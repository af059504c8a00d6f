/** From lossy, duplicated, reordered datagrams on two lines to the right order books. */
module EndToEnd {
  import opened Bytes
  import opened Wire
  import opened Itch
  import G = GapModel
  import opened GapDelivery
  import opened GapAuthenticity
  import A = Arbitrator
  import opened BookModel
  import opened BookFacts
  import B = MultiModel
  import opened MultiFacts

  /** The one true stream of messages, by sequence number. */
  type Stream = u64 -> seq<byte>

  /** Every message the datagram carries is the stream's message of that number. */
  ghost predicate Carries(stream: Stream, e: G.Event) {
    e.Datagram? && ParseHeader(e.payload).Some? ==>
      var h := ParseHeader(e.payload).value;
      var bodies := Frames(e.payload[MOLD_HEADER_SIZE..], h.msgCount);
      forall i :: 0 <= i < |bodies| && h.seqNum + i < U64_MOD ==> bodies[i] == stream(h.seqNum + i)
  }

  ghost predicate AllCarry(stream: Stream, es: seq<G.Event>) {
    forall i :: 0 <= i < |es| ==> Carries(stream, es[i])
  }

  /** The stream's messages first, first + 1, .., first + n - 1. */
  ghost function Segment(stream: Stream, first: u64, n: nat): seq<seq<byte>>
    requires first + n < U64_MOD
  {
    seq(n, k requires 0 <= k < n => stream(first + k))
  }

  function BodiesOf(log: seq<G.Delivery>): seq<seq<byte>> {
    seq(|log|, k requires 0 <= k < |log| => log[k].body)
  }

  /** The books of a consumer that applies every message as it is delivered. */
  ghost function BooksFrom(hooked: bool, log: seq<G.Delivery>): B.Multi {
    B.Run(hooked, BodiesOf(log))
  }

  lemma FramedIsStream(stream: Stream, es: seq<G.Event>, d: G.Delivery)
    requires AllCarry(stream, es) && FramedIn(es, d)
    ensures d.body == stream(d.seqNum)
  {
    var i :| 0 <= i < |es| && Framed(es[i], d);
    assert Carries(stream, es[i]);
    var k := d.seqNum - ParseHeader(es[i].payload).value.seqNum;
    assert ParseHeader(es[i].payload).value.seqNum + k == d.seqNum;
  }

  /** What reaches the books is the stream itself, from the join up to `next`. */
  lemma DeliveredIsTheStream(cfg: G.Config, es: seq<G.Event>, stream: Stream, first: u64)
    requires AllFit(es) && AllCarry(stream, es) && SyncSeq(es) == Some(first)
    ensures var st := G.Run(cfg, es);
            && first <= st.next
            && BodiesOf(st.log) == Segment(stream, first, st.next - first)
  {
    var st := G.Run(cfg, es);
    ExactlyOnceInOrder(cfg, es);
    DeliveredIsAuthentic(cfg, es);
    LogIsSegment(st.log, es, stream, first);
  }

  lemma LogIsSegment(log: seq<G.Delivery>, es: seq<G.Event>, stream: Stream, first: u64)
    requires LogFrom(log, es) && AllCarry(stream, es) && first + |log| < U64_MOD
    requires forall k :: 0 <= k < |log| ==> log[k].seqNum == first + k
    ensures BodiesOf(log) == Segment(stream, first, |log|)
  {
    forall k | 0 <= k < |log|
      ensures log[k].body == stream(first + k)
    {
      FramedIsStream(stream, es, log[k]);
    }
  }

  lemma BooksOfSegment(hooked: bool, gap: G.State, stream: Stream, first: u64)
    requires first <= gap.next && BodiesOf(gap.log) == Segment(stream, first, gap.next - first)
    ensures BooksFrom(hooked, gap.log) == B.Run(hooked, Segment(stream, first, gap.next - first))
  {
  }

  /** End to end: whatever the two lines lose, repeat, reorder, cut short or push out of the ring, the
      books are those of the true stream applied once each in order from the join to `next`. */
  lemma BooksAreThoseOfTheStream(cfg: G.Config, es: seq<A.Event>, hooked: bool, stream: Stream, first: u64)
    requires AllFit(A.EraseAll(es)) && AllCarry(stream, A.EraseAll(es)) && SyncSeq(A.EraseAll(es)) == Some(first)
    ensures var gap := A.Run(cfg, es).gap;
            && first <= gap.next
            && BooksFrom(hooked, gap.log) == B.Run(hooked, Segment(stream, first, gap.next - first))
  {
    var gap := A.Run(cfg, es).gap;
    assert gap == G.Run(cfg, A.EraseAll(es)) by {
      A.ArbitrationErasesLabels(cfg, es);
    }
    DeliveredIsTheStream(cfg, A.EraseAll(es), stream, first);
    BooksOfSegment(hooked, gap, stream, first);
  }

  /** Two arbitrated runs over the same stream that joined at the same number and got equally far have
      identical books, whichever line won which packet. */
  lemma SameProgressSameBooks(cfg: G.Config, cfg': G.Config, es: seq<A.Event>, fs: seq<A.Event>, hooked: bool,
                              stream: Stream, first: u64)
    requires AllFit(A.EraseAll(es)) && AllCarry(stream, A.EraseAll(es)) && SyncSeq(A.EraseAll(es)) == Some(first)
    requires AllFit(A.EraseAll(fs)) && AllCarry(stream, A.EraseAll(fs)) && SyncSeq(A.EraseAll(fs)) == Some(first)
    requires A.Run(cfg, es).gap.next == A.Run(cfg', fs).gap.next
    ensures BooksFrom(hooked, A.Run(cfg, es).gap.log) == BooksFrom(hooked, A.Run(cfg', fs).gap.log)
  {
    var next := A.Run(cfg, es).gap.next;
    BooksAtNext(cfg, es, hooked, stream, first, next);
    BooksAtNext(cfg', fs, hooked, stream, first, next);
  }

  lemma BooksAtNext(cfg: G.Config, es: seq<A.Event>, hooked: bool, stream: Stream, first: u64, next: u64)
    requires AllFit(A.EraseAll(es)) && AllCarry(stream, A.EraseAll(es)) && SyncSeq(A.EraseAll(es)) == Some(first)
    requires A.Run(cfg, es).gap.next == next
    ensures first <= next
    ensures BooksFrom(hooked, A.Run(cfg, es).gap.log) == B.Run(hooked, Segment(stream, first, next - first))
  {
    BooksAreThoseOfTheStream(cfg, es, hooked, stream, first);
  }

  /** With references used as the venue promises, every book then holds exactly its symbol's live
      orders of the stream, and its top is the true best of each side. */
  lemma EveryBookIsRight(cfg: G.Config, es: seq<A.Event>, hooked: bool, stream: Stream, first: u64, symbol: Symbol)
    requires AllFit(A.EraseAll(es)) && AllCarry(stream, A.EraseAll(es)) && SyncSeq(A.EraseAll(es)) == Some(first)
    requires first <= A.Run(cfg, es).gap.next
    requires Admissible(Segment(stream, first, A.Run(cfg, es).gap.next - first))
    ensures var flat := FlatRun(Segment(stream, first, A.Run(cfg, es).gap.next - first));
            var books := BooksFrom(hooked, A.Run(cfg, es).gap.log).books;
            if symbol in books then
              && books[symbol].live == Project(flat, symbol)
              && TrueBest(books[symbol].live, true, TopOf(books[symbol]).bid)
              && TrueBest(books[symbol].live, false, TopOf(books[symbol]).ask)
            else Project(flat, symbol) == map[]
  {
    var segment := Segment(stream, first, A.Run(cfg, es).gap.next - first);
    BooksAreThoseOfTheStream(cfg, es, hooked, stream, first);
    BooksRefineFlatMap(hooked, segment);
    var books := B.Run(hooked, segment).books;
    if symbol in books {
      assert BookRefines(books[symbol], FlatRun(segment), symbol);
      TopIsTrue(books[symbol]);
    }
  }
}
