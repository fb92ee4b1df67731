/** AsyncConnection: a 65536-byte read buffer in front of ConferenceDistributor::msgGet. */
module Connection {
  import opened Sequences
  import opened Framing

  const MAX_MSG := 65536

  /** What one read delivers: the messages, and the bytes left for the next read. */
  function Receive(pending: seq<byte>, chunk: seq<byte>): (seq<seq<byte>>, seq<byte>) {
    var r := ConferenceSplit(pending + chunk);
    (r.msgs, (pending + chunk)[r.consumed..])
  }

  /** The messages delivered, and the bytes left, after a list of reads. */
  function ReceiveAll(pending: seq<byte>, chunks: seq<seq<byte>>): (seq<seq<byte>>, seq<byte>)
    decreases |chunks|
  {
    if chunks == [] then ([], pending)
    else
      var (msgs, left) := Receive(pending, chunks[0]);
      var (more, last) := ReceiveAll(left, chunks[1..]);
      (msgs + more, last)
  }

  class AsyncConnection {
    const read_buffer_: array<byte>
    var m_read_pos: nat
    const mq_recv: MessageQueue

    ghost predicate Valid()
      reads this, read_buffer_, mq_recv
    {
      && read_buffer_.Length == MAX_MSG && m_read_pos < MAX_MSG && mq_recv.items == []
      && ConferenceStops(Pending())
    }

    ghost function Pending(): seq<byte>
      requires read_buffer_.Length == MAX_MSG && m_read_pos <= MAX_MSG
      reads this, read_buffer_
    {
      read_buffer_[..m_read_pos]
    }

    constructor ()
      ensures Valid() && Pending() == [] && fresh(read_buffer_) && fresh(mq_recv)
    {
      read_buffer_ := new byte[MAX_MSG](_ => 0);
      mq_recv := new MessageQueue();
      m_read_pos := 0;
    }

    /** async_read_some put chunk at m_read_pos, then on_read runs; processed is what msgProcess is called with. */
    method OnRead(chunk: seq<byte>) returns (processed: seq<seq<byte>>)
      requires Valid() && |chunk| <= MAX_MSG - m_read_pos
      requires !ConferenceSplit(Pending() + chunk).stuck
      modifies this`m_read_pos, read_buffer_, mq_recv
      ensures Valid() && (processed, Pending()) == Receive(old(Pending()), chunk)
      ensures Concat(processed) + Pending() == old(Pending()) + chunk
      ensures IsSplitInto(processed, Pending()) && ConferenceStops(Pending())
      ensures forall m :: m in processed ==> m != [] && (|m| >= 4 ==> DeclaredLen(m) == |m|)
    {
      ReceivedIsRead(Pending(), chunk);
      processed := [];
      Empty(Pending());
      if |chunk| > 0 {
        ghost var stream := Pending() + chunk;
        Store(chunk);
        var msg := read_buffer_[..m_read_pos];
        ConferenceLeftover(msg);
        var ret := ConferenceMsgGet(msg, mq_recv);
        Empty(ConferenceSplit(msg).msgs);
        if ret > 0 {
          DiscardFront(ret);
        }
        assert Pending() == stream[ret..];
        processed := Drain();
      }
    }

    method Store(chunk: seq<byte>)
      requires read_buffer_.Length == MAX_MSG && m_read_pos + |chunk| <= MAX_MSG
      modifies this`m_read_pos, read_buffer_
      ensures m_read_pos == old(m_read_pos) + |chunk| && Pending() == old(Pending()) + chunk
    {
      forall i | 0 <= i < |chunk| {
        read_buffer_[m_read_pos + i] := chunk[i];
      }
      m_read_pos := m_read_pos + |chunk|;
    }

    /** memmove of everything behind the handled bytes to the front. */
    method DiscardFront(ret: nat)
      requires read_buffer_.Length == MAX_MSG && ret <= m_read_pos <= MAX_MSG
      modifies this`m_read_pos, read_buffer_
      ensures m_read_pos == old(m_read_pos) - ret && Pending() == old(Pending())[ret..]
    {
      forall i | 0 <= i < MAX_MSG - ret {
        read_buffer_[i] := read_buffer_[ret + i];
      }
      m_read_pos := m_read_pos - ret;
    }

    method Drain() returns (processed: seq<seq<byte>>)
      modifies mq_recv
      ensures mq_recv.items == [] && processed == old(mq_recv.items)
    {
      processed := [];
      Empty(mq_recv.items);
      while mq_recv.items != []
        invariant processed + mq_recv.items == old(mq_recv.items)
        decreases |mq_recv.items|
      {
        Assoc(processed, [mq_recv.items[0]], mq_recv.items[1..]);
        Uncons(mq_recv.items);
        var tmp := mq_recv.Pop();
        processed := processed + [tmp];
      }
      Empty(processed);
    }
  }

  /**
   What a read does to the stream, without saying how: nothing is lost, every message is a frame of the
   length declared at its place, and what is left over cannot be split.
   */
  predicate IsRead(pending: seq<byte>, chunk: seq<byte>, msgs: seq<seq<byte>>, left: seq<byte>) {
    && Concat(msgs) + left == pending + chunk
    && IsSplitInto(msgs, left)
    && ConferenceStops(left)
  }

  lemma ReceivedIsRead(pending: seq<byte>, chunk: seq<byte>)
    requires !ConferenceSplit(pending + chunk).stuck
    ensures var (msgs, left) := Receive(pending, chunk);
            IsRead(pending, chunk, msgs, left)
            && forall m :: m in msgs ==> m != [] && (|m| >= 4 ==> DeclaredLen(m) == |m|)
  {
    ConferenceDecomposition(pending + chunk);
    var (msgs, left) := Receive(pending, chunk);
    FramesDeclareTheirLength(msgs, left);
  }

  /** The messages of all reads. */
  function Delivered(msgs: seq<seq<seq<byte>>>): seq<seq<byte>> {
    if msgs == [] then [] else msgs[0] + Delivered(msgs[1..])
  }

  /**
   Any number of reads, one after the other: together they are one read of the whole stream. rests[i] is
   what is left before read i.
   */
  lemma {:induction false} ReadsAreOneRead(chunks: seq<seq<byte>>, msgs: seq<seq<seq<byte>>>, rests: seq<seq<byte>>)
    requires |msgs| == |chunks| && |rests| == |chunks| + 1 && ConferenceStops(rests[0])
    requires forall i :: 0 <= i < |chunks| ==> IsRead(rests[i], chunks[i], msgs[i], rests[i + 1])
    ensures IsRead(rests[0], Concat(chunks), Delivered(msgs), rests[|chunks|])
    decreases |chunks|
  {
    if chunks == [] {
      Empty(rests[0]);
    } else {
      assert IsRead(rests[0], chunks[0], msgs[0], rests[1]);
      forall i | 0 <= i < |chunks| - 1
        ensures IsRead(rests[1..][i], chunks[1..][i], msgs[1..][i], rests[1..][i + 1])
      {
        var j := i + 1;
        assert IsRead(rests[j], chunks[j], msgs[j], rests[j + 1]);
      }
      ReadsAreOneRead(chunks[1..], msgs[1..], rests[1..]);
      TwoReads(rests[0], chunks[0], msgs[0], rests[1], Concat(chunks[1..]), Delivered(msgs[1..]), rests[|chunks|]);
    }
  }

  lemma TwoReads(p: seq<byte>, c: seq<byte>, a: seq<seq<byte>>, q: seq<byte>, d: seq<byte>, b: seq<seq<byte>>, r: seq<byte>)
    requires IsRead(p, c, a, q) && IsRead(q, d, b, r)
    ensures IsRead(p, c + d, a + b, r)
  {
    SplitIntoExtends(a, q, d);
    SplitIntoJoins(a, b, r);
    ConcatAppend(a, b);
    Assoc(Concat(a), Concat(b), r);
    Assoc(Concat(a), q, d);
    Assoc(p, c, d);
  }

  /** What a read delivers and leaves is determined by the bytes. */
  lemma ReadIsDetermined(p: seq<byte>, c: seq<byte>, a: seq<seq<byte>>, q: seq<byte>, b: seq<seq<byte>>, r: seq<byte>)
    requires IsRead(p, c, a, q) && IsRead(p, c, b, r)
    ensures a == b && q == r
  {
    SplitIntoUnique(a, q, b, r);
  }

  lemma LeftoverStops(a: seq<byte>)
    requires !ConferenceSplit(a).stuck
    ensures ConferenceStops(a[ConferenceSplit(a).consumed..])
  {
    ConferenceLeftover(a);
  }

  /** One read of c + rest is a read of c followed by a read of rest. */
  lemma ReadInTwo(pending: seq<byte>, c: seq<byte>, rest: seq<byte>)
    requires !ConferenceSplit(pending + c).stuck
    ensures var (msgs, left) := Receive(pending, c);
            var (more, last) := Receive(left, rest);
            Receive(pending, c + rest) == (msgs + more, last)
    ensures ConferenceSplit(pending + (c + rest)).stuck <==> ConferenceSplit(Receive(pending, c).1 + rest).stuck
  {
    var a := pending + c;
    var r := ConferenceSplit(a);
    Assoc(pending, c, rest);
    ConferenceChunks(a, rest);
    var t := ConferenceSplit(a[r.consumed..] + rest);
    SliceOfConcat(a, rest, r.consumed);
    DropDrop(a + rest, r.consumed, t.consumed);
  }

  /**
   However the stream is cut into reads, the messages delivered and the bytes left over are those of the
   stream split in one piece.
   */
  lemma {:induction false} ReadsDoNotMatter(pending: seq<byte>, chunks: seq<seq<byte>>)
    requires ConferenceStops(pending)
    requires !ConferenceSplit(pending + Concat(chunks)).stuck
    ensures ReceiveAll(pending, chunks) == Receive(pending, Concat(chunks))
    decreases |chunks|
  {
    if chunks == [] {
      Empty(pending);
    } else {
      var c, rest := chunks[0], Concat(chunks[1..]);
      Assoc(pending, c, rest);
      ConferenceChunks(pending + c, rest);
      ReadInTwo(pending, c, rest);
      LeftoverStops(pending + c);
      ReadsDoNotMatter(Receive(pending, c).1, chunks[1..]);
    }
  }
}
