/** ConferenceDistributor::msgProcess: the request is byte-swapped in place and a response frame is laid out. */
module ConferenceWriter {
  import opened Sequences
  import opened Framing

  const CONFERENCE_TAG := 0x6012

  /** A 16-bit value in network order. */
  function Bytes16(v: nat): seq<byte>
    requires v < 65536
  {
    [v / 256, v % 256]
  }

  /** Where in the request, in network order, the byte comes from that ends up at i in host order. */
  function FieldByte(i: nat): nat {
    if i < 4 || 8 <= i < 12 || 22 <= i < 26 then (if i % 2 == 0 then i + 1 else i - 1)
    else if 14 <= i < 22 then 35 - i
    else i
  }

  /** All fields swapped; ntohs of the 32-bit len keeps two of its bytes and clears the other two. */
  function RequestInHostOrder(m: seq<byte>): seq<byte>
    requires |m| >= 26
  {
    seq(|m|, i requires 0 <= i < |m| => if i == 12 || i == 13 then 0 else m[FieldByte(i)])
  }

  /** Only Overload is swapped when the tag is not the conference tag. */
  function OverloadInHostOrder(m: seq<byte>): seq<byte>
    requires |m| >= 4
  {
    [m[1], m[0], m[3], m[2]] + m[4..]
  }

  /** Byte i of the frame sent: 22 header bytes, then the response, which lies over the total and index fields. */
  function FrameByte(m: seq<byte>, response: seq<byte>, i: nat): byte
    requires |m| >= 26 && i < CONFERENCE_HEAD + |response| <= 65536
  {
    if i == 2 || i == 3 then Bytes16((CONFERENCE_HEAD + |response|) % 65536)[i - 2]
    else if i == 10 || i == 11 then Bytes16(|response|)[i - 10]
    else if i == 4 then 1
    else if i == 5 then 2
    else if i == 6 || i == 7 || i == 12 || i == 13 then 0
    else if i < 22 then m[i]
    else response[i - 22]
  }

  function ConferenceFrame(m: seq<byte>, response: seq<byte>): seq<byte>
    requires |m| >= 26 && CONFERENCE_HEAD + |response| <= 65536
  {
    var n := CONFERENCE_HEAD + |response|;
    seq(n, i requires 0 <= i < n => FrameByte(m, response, i))
  }

  /** A store or memcpy into the write buffer. */
  method Put(buffer: array<byte>, at: nat, bytes: seq<byte>)
    requires at + |bytes| <= buffer.Length
    modifies buffer
    ensures forall i :: 0 <= i < buffer.Length ==>
              buffer[i] == if at <= i < at + |bytes| then bytes[i - at] else old(buffer[i])
  {
    forall i | 0 <= i < |bytes| {
      buffer[at + i] := bytes[i];
    }
  }

  /** The value of a 16-bit field in a little-endian host's memory. */
  function Host16(s: seq<byte>, at: nat): nat
    requires at + 2 <= |s|
  {
    U16(s[at + 1], s[at])
  }

  /** x = ntohs(x) for a 16-bit field in memory. */
  method Swap16(msg: array<byte>, at: nat)
    requires at + 2 <= msg.Length
    modifies msg
    ensures msg[at] == old(msg[at + 1]) && msg[at + 1] == old(msg[at])
    ensures forall i :: 0 <= i < msg.Length && i != at && i != at + 1 ==> msg[i] == old(msg[i])
  {
    msg[at], msg[at + 1] := msg[at + 1], msg[at];
  }

  /** id = ntohll(id), and len = ntohs(len) on a 32-bit len. */
  method SwapIdAndLen(msg: array<byte>)
    requires msg.Length >= 26
    modifies msg
    ensures forall i :: 0 <= i < msg.Length && !(10 <= i < 22) ==> msg[i] == old(msg[i])
    ensures forall i :: 14 <= i < 22 ==> msg[i] == old(msg[35 - i])
    ensures msg[10] == old(msg[11]) && msg[11] == old(msg[10]) && msg[12] == msg[13] == 0
  {
    for j := 0 to 4
      invariant forall i :: 0 <= i < msg.Length && !(14 <= i < 14 + j || 22 - j <= i < 22) ==> msg[i] == old(msg[i])
      invariant forall i :: 14 <= i < 14 + j || 22 - j <= i < 22 ==> msg[i] == old(msg[35 - i])
    {
      msg[14 + j], msg[21 - j] := msg[21 - j], msg[14 + j];
    }
    msg[10], msg[11], msg[12], msg[13] := msg[11], msg[10], 0, 0;
  }

  method HeadToHostOrder(msg: array<byte>)
    requires msg.Length >= 26
    modifies msg
    ensures forall i :: 0 <= i < msg.Length ==>
              msg[i] == if i == 12 || i == 13 then 0 else if i < 8 then old(msg[i]) else old(msg[FieldByte(i)])
  {
    Swap16(msg, 8);
    SwapIdAndLen(msg);
    Swap16(msg, 22);
    Swap16(msg, 24);
  }

  /** htonll(id): the eight bytes at 14 in reverse. */
  function IdInNetworkOrder(s: seq<byte>): seq<byte>
    requires |s| >= 26
  {
    [s[21], s[20], s[19], s[18], s[17], s[16], s[15], s[14]]
  }

  lemma BytesOfHost(s: seq<byte>, at: nat)
    requires at + 2 <= |s|
    ensures Bytes16(Host16(s, at)) == [s[at + 1], s[at]]
  {
  }

  /** The 26 header bytes as they are before lengths and response go in, from a request in host order. */
  function HeaderByte(h: seq<byte>, i: nat): byte
    requires |h| >= 26 && i < 26
  {
    if i < 2 then h[1 - i]
    else if i == 4 then 1
    else if i == 5 then 2
    else if 8 <= i < 10 then h[17 - i]
    else if 14 <= i < 22 then h[35 - i]
    else if 22 <= i < 24 then h[45 - i]
    else if 24 <= i then h[49 - i]
    else 0
  }

  /** Lines 135 to 148 of DataProcess.cpp. */
  method LayOutHeader(h: seq<byte>, write_buffer_: array<byte>)
    requires |h| >= 26 && write_buffer_.Length >= 26
    requires forall i :: 0 <= i < write_buffer_.Length ==> write_buffer_[i] == 0
    modifies write_buffer_
    ensures forall i :: 0 <= i < 26 ==> write_buffer_[i] == HeaderByte(h, i)
  {
    BytesOfHost(h, 0);
    BytesOfHost(h, 8);
    BytesOfHost(h, 22);
    BytesOfHost(h, 24);
    Put(write_buffer_, 0, Bytes16(Host16(h, 0)));
    Put(write_buffer_, 4, [0x01, 0x02]);
    Put(write_buffer_, 8, Bytes16(Host16(h, 8)));
    Put(write_buffer_, 14, IdInNetworkOrder(h));
    Put(write_buffer_, 22, Bytes16(Host16(h, 22)));
    Put(write_buffer_, 24, Bytes16(Host16(h, 24)));
  }

  lemma HeaderOfHostOrder(m: seq<byte>, i: nat)
    requires |m| >= 26 && (i < 2 || 8 <= i < 10 || 14 <= i < 22)
    ensures HeaderByte(RequestInHostOrder(m), i) == m[i]
  {
  }

  /** Lines 191 to 194. */
  method PutLengthsAndText(response: seq<byte>, write_buffer_: array<byte>)
    requires CONFERENCE_HEAD + |response| <= 65536 == write_buffer_.Length
    modifies write_buffer_
    ensures forall i :: 0 <= i < |response| ==> write_buffer_[22 + i] == response[i]
    ensures var len := Bytes16((CONFERENCE_HEAD + |response|) % 65536); write_buffer_[2] == len[0] && write_buffer_[3] == len[1]
    ensures var len := Bytes16(|response|); write_buffer_[10] == len[0] && write_buffer_[11] == len[1]
    ensures write_buffer_[12] == 0 && write_buffer_[13] == 0
    ensures forall i :: 0 <= i < 22 && !(2 <= i < 4) && !(10 <= i < 14) ==> write_buffer_[i] == old(write_buffer_[i])
  {
    Put(write_buffer_, 2, Bytes16((CONFERENCE_HEAD + |response|) % 65536));
    Put(write_buffer_, 10, Bytes16(|response|) + [0, 0]);
    Put(write_buffer_, 22, response);
  }

  /** Lines 135 to 148 and 191 to 194, from a request already in host order. */
  method LayOut(msg: array<byte>, response: seq<byte>, ghost m: seq<byte>) returns (write_buffer_: array<byte>, len: nat)
    requires msg.Length == |m| >= 26 && msg[..] == RequestInHostOrder(m)
    requires CONFERENCE_HEAD + |response| <= 65536
    ensures fresh(write_buffer_) && len == CONFERENCE_HEAD + |response| <= write_buffer_.Length
    ensures write_buffer_[..len] == ConferenceFrame(m, response)
  {
    write_buffer_ := new byte[65536](_ => 0);
    LayOutHeader(msg[..], write_buffer_);
    len := CONFERENCE_HEAD + |response|;
    PutLengthsAndText(response, write_buffer_);
    FrameOf(m, response, write_buffer_[..len]);
  }

  /** A buffer with the header, both lengths and the text in place is the frame. */
  lemma FrameOf(m: seq<byte>, response: seq<byte>, s: seq<byte>)
    requires |m| >= 26 && |s| == CONFERENCE_HEAD + |response| <= 65536
    requires forall i :: 0 <= i < |response| ==> s[22 + i] == response[i]
    requires s[2] == Bytes16(|s| % 65536)[0] && s[3] == Bytes16(|s| % 65536)[1]
    requires s[10] == Bytes16(|response|)[0] && s[11] == Bytes16(|response|)[1] && s[12] == 0 && s[13] == 0
    requires forall i :: 0 <= i < 22 && !(2 <= i < 4) && !(10 <= i < 14) ==> s[i] == HeaderByte(RequestInHostOrder(m), i)
    ensures s == ConferenceFrame(m, response)
  {
    forall i | 0 <= i < |s|
      ensures s[i] == FrameByte(m, response, i)
    {
      if i < 2 || 8 <= i < 10 || 14 <= i < 22 {
        HeaderOfHostOrder(m, i);
      } else if 22 <= i {
        assert s[i] == s[22 + (i - 22)];
      }
    }
  }

  /**
   The message holds what is swapped in place: its 4 Overload bytes and, with the conference tag, all 26
   header bytes. On a shorter one the code reaches past the end of the string.
   */
  predicate Processable(m: seq<byte>) {
    m != [] ==> |m| >= 4 && (U16(m[0], m[1]) == CONFERENCE_TAG ==> |m| >= 26)
  }

  datatype Reply = NoReply | Reply(frame: seq<byte>)

  /**
   msgProcess. responseFor gives the response text of a command, empty for an unknown one. A response must
   fit the 65536-byte write buffer.
   */
  method MsgProcess(msg: array<byte>, responseFor: nat -> seq<byte>) returns (sent: Reply)
    requires Processable(msg[..])
    requires forall cmd: nat :: CONFERENCE_HEAD + |responseFor(cmd)| <= 65536
    modifies msg
    ensures var m := old(msg[..]);
            if m == [] then sent == NoReply
            else if U16(m[0], m[1]) != CONFERENCE_TAG then sent == NoReply && msg[..] == OverloadInHostOrder(m)
            else
              var r := responseFor(U16(m[8], m[9]));
              msg[..] == RequestInHostOrder(m) && sent == if r == [] then NoReply else Reply(ConferenceFrame(m, r))
  {
    if msg.Length == 0 {
      return NoReply;
    }
    ghost var m := msg[..];
    Swap16(msg, 0);
    Swap16(msg, 2);
    if Host16(msg[..], 0) == CONFERENCE_TAG {
      HeadToHostOrder(msg);
      assert msg[..] == RequestInHostOrder(m);
      var response := responseFor(Host16(msg[..], 8));
      if |response| == 0 {
        return NoReply;
      }
      var write_buffer_, len := LayOut(msg, response, m);
      return Reply(write_buffer_[..len]);
    } else {
      assert msg[..] == OverloadInHostOrder(m);
      return NoReply;
    }
  }

  // ---- What the frames mean to the other side ----

  /** Swapping the fields a second time gives the request back, except for the two cleared bytes of len. */
  lemma HostOrderTwice(m: seq<byte>, i: nat)
    requires |m| >= 26 && i < |m|
    ensures RequestInHostOrder(RequestInHostOrder(m))[i] == if i == 12 || i == 13 then 0 else m[i]
  {
  }

  /** In a little-endian host's memory the swapped fields have the values sent in network order. */
  lemma HostFieldsHaveNetworkValues(m: seq<byte>)
    requires |m| >= 26
    ensures var h := RequestInHostOrder(m);
            && Host16(h, 0) == 256 * (m[0] as int) + (m[1] as int)    // tag
            && Host16(h, 2) == 256 * (m[2] as int) + (m[3] as int)    // len of Overload
            && h[4..8] == m[4..8]                                     // version
            && Host16(h, 8) == 256 * (m[8] as int) + (m[9] as int)    // cmd
            && Host16(h, 10) == 256 * (m[10] as int) + (m[11] as int) // len, of which two bytes are lost
            && h[12] == 0 && h[13] == 0
            && (forall i :: 14 <= i < 22 ==> h[i] == m[35 - i])       // id
            && Host16(h, 22) == 256 * (m[22] as int) + (m[23] as int) // total
            && Host16(h, 24) == 256 * (m[24] as int) + (m[25] as int) // index
            && h[26..] == m[26..]
  {
    assert RequestInHostOrder(m)[4..8] == m[4..8];
    assert RequestInHostOrder(m)[26..] == m[26..];
  }

  lemma LengthsOfReply(m: seq<byte>, response: seq<byte>)
    requires |m| >= 26 && CONFERENCE_HEAD + |response| <= 65535
    ensures var f := ConferenceFrame(m, response);
            256 * (f[2] as int) + (f[3] as int) == |f| && 256 * (f[10] as int) + (f[11] as int) == |response|
  {
  }

  lemma HeaderOfReply(m: seq<byte>, response: seq<byte>)
    requires |m| >= 26 && CONFERENCE_HEAD + |response| <= 65535
    ensures var f := ConferenceFrame(m, response);
            && f[..2] == m[..2] && f[8..10] == m[8..10] && f[14..22] == m[14..22]
            && f[4..8] == [1, 2, 0, 0] && f[12..14] == [0, 0]
  {
  }

  /** The response carries tag, command and id of the request, version 1.2, and the lengths of frame and text. */
  lemma ReplyEchoesRequest(m: seq<byte>, response: seq<byte>)
    requires |m| >= 26 && CONFERENCE_HEAD + |response| <= 65535
    ensures var f := ConferenceFrame(m, response);
            && f[..2] == m[..2] && f[8..10] == m[8..10] && f[14..22] == m[14..22] && f[22..] == response
            && f[4..8] == [1, 2, 0, 0] && f[12..14] == [0, 0]
            && 256 * (f[2] as int) + (f[3] as int) == |f| && 256 * (f[10] as int) + (f[11] as int) == |response|
  {
    LengthsOfReply(m, response);
    HeaderOfReply(m, response);
  }

  /**
   One frame, split again: it comes back whole exactly when its length fits the 16-bit field. At 65536
   bytes, the most the buffer takes, the field is 0 and the receiver gets stuck.
   */
  lemma OneFrameRoundTripIff(m: seq<byte>, response: seq<byte>)
    requires |m| >= 26 && response != [] && CONFERENCE_HEAD + |response| <= 65536
    ensures var f := ConferenceFrame(m, response);
            ConferenceSplit(f) == Split([f], |f|, false) <==> CONFERENCE_HEAD + |response| <= 65535
    ensures CONFERENCE_HEAD + |response| == 65536 ==> ConferenceSplit(ConferenceFrame(m, response)).stuck
  {
    var f := ConferenceFrame(m, response);
    if |f| <= 65535 {
      FrameSplits(f, []);
      Empty(f);
      assert ConferenceSplit([]) == Split([], 0, false);
    } else {
      assert DeclaredLen(f) == 0;
    }
  }

  /** No frame declares less than what msgProcess swaps. */
  predicate LongFrames(s: seq<byte>)
    decreases |s|
  {
    ConferenceStops(s) || DeclaredLen(s) == 0
    || (DeclaredLen(s) >= 4 && (U16(s[0], s[1]) == CONFERENCE_TAG ==> DeclaredLen(s) >= 26)
        && LongFrames(s[DeclaredLen(s)..]))
  }

  predicate AllProcessable(msgs: seq<seq<byte>>) {
    forall m :: m in msgs ==> Processable(m)
  }

  lemma AllOfCons(m: seq<byte>, msgs: seq<seq<byte>>)
    ensures AllProcessable([m] + msgs) <==> Processable(m) && AllProcessable(msgs)
  {
    assert m in [m] + msgs;
    assert forall x :: x in msgs ==> x in [m] + msgs;
  }

  /** Every message queued from a buffer may be passed to msgProcess exactly when its length fields say so. */
  lemma {:induction false} QueuedAreProcessableIff(s: seq<byte>)
    ensures AllProcessable(ConferenceSplit(s).msgs) <==> LongFrames(s)
    decreases |s|
  {
    if !ConferenceStops(s) && DeclaredLen(s) > 0 {
      var len := DeclaredLen(s);
      QueuedAreProcessableIff(s[len..]);
      AllOfCons(s[..len], ConferenceSplit(s[len..]).msgs);
    }
  }

  /** A 23-byte buffer that declares 4 has its first 4 bytes queued, and they are no complete request. */
  lemma ShortFrameIsQueued(s: seq<byte>)
    requires |s| == 23 && U16(s[0], s[1]) == CONFERENCE_TAG && DeclaredLen(s) == 4
    ensures ConferenceSplit(s).msgs == [s[..4]] && !Processable(s[..4])
  {
    assert ConferenceStops(s[4..]);
  }

  lemma FrameSplits(f: seq<byte>, rest: seq<byte>)
    requires |f| > CONFERENCE_HEAD && DeclaredLen(f) == |f|
    ensures ConferenceSplit(f + rest) == Prepend(f, ConferenceSplit(rest))
  {
    ConferenceHead(f, rest);
    Empty(rest);
    assert f[..|f|] == f && f[|f|..] == [];
  }

  datatype Exchange = Exchange(request: seq<byte>, response: seq<byte>)

  predicate Sendable(x: Exchange) {
    |x.request| >= 26 && x.response != [] && CONFERENCE_HEAD + |x.response| <= 65535
  }

  function Frames(xs: seq<Exchange>): seq<seq<byte>>
    requires forall i :: 0 <= i < |xs| ==> Sendable(xs[i])
  {
    if xs == [] then []
    else
      assert Sendable(xs[0]);
      [ConferenceFrame(xs[0].request, xs[0].response)] + Frames(xs[1..])
  }

  /** Round trip: any number of response frames in a row are split into exactly those frames, nothing left. */
  lemma {:induction false} RoundTrip(xs: seq<Exchange>)
    requires forall i :: 0 <= i < |xs| ==> Sendable(xs[i])
    ensures ConferenceSplit(Concat(Frames(xs))) == Split(Frames(xs), |Concat(Frames(xs))|, false)
  {
    if xs != [] {
      assert Sendable(xs[0]);
      var f, more := ConferenceFrame(xs[0].request, xs[0].response), Frames(xs[1..]);
      RoundTrip(xs[1..]);
      ReplyEchoesRequest(xs[0].request, xs[0].response);
      Cons(f, more);
      FrameSplits(f, Concat(more));
    }
  }
}
