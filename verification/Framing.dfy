/** Splitting a received byte buffer into messages: the two msgGet methods of DataProcess.cpp. */
module Framing {
  import opened Sequences

  type byte = x: int | 0 <= x < 256

  /** Two bytes in network order. */
  function U16(hi: byte, lo: byte): nat { hi * 256 + lo }

  /** ntohs(overload->len): the length field of the Overload structure, bytes 2 and 3. */
  function DeclaredLen(s: seq<byte>): (n: nat)
    requires |s| >= 4
    ensures n <= 65535
  {
    U16(s[2], s[3])
  }

  const CONFERENCE_HEAD := 22  // sizeof(ConferenceMngHead), packed
  const DEVICE_HEAD := 24      // sizeof(DeviceMngHead), packed

  function Concat(parts: seq<seq<byte>>): seq<byte> {
    if parts == [] then [] else parts[0] + Concat(parts[1..])
  }

  lemma {:induction false} ConcatAppend(p: seq<seq<byte>>, q: seq<seq<byte>>)
    ensures Concat(p + q) == Concat(p) + Concat(q)
  {
    if p == [] {
      Empty(q);
      Empty(Concat(q));
    } else {
      ConcatAppend(p[1..], q);
      HeadTail(p, q);
      Assoc(p[0], Concat(p[1..]), Concat(q));
    }
  }

  /** std::queue<std::string> */
  class MessageQueue {
    var items: seq<seq<byte>>

    constructor ()
      ensures items == []
    {
      items := [];
    }

    method Emplace(m: seq<byte>)
      modifies this
      ensures items == old(items) + [m]
    {
      items := items + [m];
    }

    method Pop() returns (m: seq<byte>)
      requires items != []
      modifies this
      ensures m == old(items)[0] && items == old(items)[1..]
    {
      m := items[0];
      items := items[1..];
    }
  }

  // ---- ConferenceDistributor::msgGet ----

  /** stuck: the loop has reached a frame of declared length 0 and will not get past it. */
  datatype Split = Split(msgs: seq<seq<byte>>, consumed: nat, stuck: bool)

  function Prepend(m: seq<byte>, r: Split): Split { Split([m] + r.msgs, |m| + r.consumed, r.stuck) }

  /** r, then t on what r has left; a stuck r has no continuation. */
  function Chain(r: Split, t: Split): Split {
    if r.stuck then r else Split(r.msgs + t.msgs, r.consumed + t.consumed, t.stuck)
  }

  lemma PrependChain(m: seq<byte>, r: Split, t: Split)
    ensures Chain(Prepend(m, r), t) == Prepend(m, Chain(r, t))
  {
    Assoc([m], r.msgs, t.msgs);
  }

  predicate ConferenceStops(s: seq<byte>) {
    |s| <= CONFERENCE_HEAD || |s| < DeclaredLen(s)
  }

  function ConferenceSplit(s: seq<byte>): (r: Split)
    ensures r.consumed <= |s|
    decreases |s|
  {
    if ConferenceStops(s) then Split([], 0, false)
    else
      var len := DeclaredLen(s);
      if len == 0 then Split([], 0, true)
      else
        Prepend(s[..len], ConferenceSplit(s[len..]))
  }

  /** A length field has 16 bits, so the test len > 65536 of the code never fires and is not repeated here. */
  method ConferenceMsgGet(buff: seq<byte>, q_recv: MessageQueue) returns (handleLen: nat)
    requires !ConferenceSplit(buff).stuck
    modifies q_recv
    ensures q_recv.items == old(q_recv.items) + ConferenceSplit(buff).msgs
    ensures handleLen == ConferenceSplit(buff).consumed
  {
    handleLen := 0;
    if |buff| <= CONFERENCE_HEAD {
      return;
    }
    var tmp := buff;
    ghost var got: seq<seq<byte>> := [];
    while |tmp| > CONFERENCE_HEAD
      invariant !ConferenceSplit(tmp).stuck
      invariant q_recv.items == old(q_recv.items) + got
      invariant ConferenceSplit(buff).msgs == got + ConferenceSplit(tmp).msgs
      invariant ConferenceSplit(buff).consumed == handleLen + ConferenceSplit(tmp).consumed
      decreases |tmp|
    {
      var len := DeclaredLen(tmp);
      if |tmp| < len {
        break;
      }
      q_recv.Emplace(tmp[..len]);
      Assoc(got, [tmp[..len]], ConferenceSplit(tmp[len..]).msgs);
      got := got + [tmp[..len]];
      tmp := tmp[len..];
      handleLen := handleLen + len;
    }
  }

  /** The queued messages are, byte for byte, the part of the buffer reported as handled. */
  lemma {:induction false} ConferenceConserves(s: seq<byte>)
    ensures var r := ConferenceSplit(s); Concat(r.msgs) == s[..r.consumed]
    ensures forall m :: m in ConferenceSplit(s).msgs ==> m != []
    decreases |s|
  {
    if !ConferenceStops(s) && DeclaredLen(s) > 0 {
      var len := DeclaredLen(s);
      ConferenceConserves(s[len..]);
      var rest := ConferenceSplit(s[len..]);
      Cons(s[..len], rest.msgs);
      DropDrop(s, len, rest.consumed);
    }
  }

  /** What is left unhandled always fits in a 65536-byte read buffer with room to spare. */
  lemma {:induction false} ConferenceLeftover(s: seq<byte>)
    requires !ConferenceSplit(s).stuck
    ensures var r := ConferenceSplit(s); ConferenceStops(s[r.consumed..]) && |s| - r.consumed < 65535
    decreases |s|
  {
    if ConferenceStops(s) {
      assert s[0..] == s;
    } else {
      var len := DeclaredLen(s);
      ConferenceLeftover(s[len..]);
      var rest := ConferenceSplit(s[len..]);
      DropDrop(s, len, rest.consumed);
    }
  }

  lemma ConferenceHead(a: seq<byte>, b: seq<byte>)
    requires !ConferenceStops(a)
    ensures var len := DeclaredLen(a);
            ConferenceSplit(a + b) ==
              if len == 0 then Split([], 0, true) else Prepend(a[..len], ConferenceSplit(a[len..] + b))
  {
    SliceOfConcat(a, b, DeclaredLen(a));
    assert DeclaredLen(a + b) == DeclaredLen(a);
  }

  ghost predicate ChunkLaw(a: seq<byte>, b: seq<byte>) {
    var r := ConferenceSplit(a);
    ConferenceSplit(a + b) == Chain(r, ConferenceSplit(a[r.consumed..] + b))
  }

  lemma ChunkLawAtStop(a: seq<byte>, b: seq<byte>)
    requires ConferenceStops(a)
    ensures ChunkLaw(a, b)
  {
    assert a[0..] == a;
    Empty(ConferenceSplit(a + b).msgs);
  }

  lemma ChunkLawStep(a: seq<byte>, b: seq<byte>, len: nat)
    requires !ConferenceStops(a) && len == DeclaredLen(a) > 0
    requires ChunkLaw(a[len..], b)
    ensures ChunkLaw(a, b)
  {
    var rest := ConferenceSplit(a[len..]);
    ConferenceHead(a, b);
    DropDrop(a, len, rest.consumed);
    PrependChain(a[..len], rest, ConferenceSplit(a[len..][rest.consumed..] + b));
  }

  /** In bytes: what is queued first, and when anything is. */
  lemma ConferenceFirstMessage(s: seq<byte>)
    ensures |s| <= 22 ==> ConferenceSplit(s).msgs == []
    ensures |s| > 22 ==>
              var msgs, len := ConferenceSplit(s).msgs, 256 * (s[2] as int) + (s[3] as int);
              if 0 < len <= |s| then msgs != [] && msgs[0] == s[..len] else msgs == []
  {
  }

  /** Chunk independence: the buffer a + b splits into the messages of a, then those of a's unhandled tail + b. */
  lemma {:induction false} ConferenceChunks(a: seq<byte>, b: seq<byte>)
    ensures ChunkLaw(a, b)
    decreases |a|
  {
    if ConferenceStops(a) {
      ChunkLawAtStop(a, b);
    } else if DeclaredLen(a) == 0 {
      ConferenceHead(a, b);
    } else {
      ConferenceChunks(a[DeclaredLen(a)..], b);
      ChunkLawStep(a, b, DeclaredLen(a));
    }
  }

  // ---- When the conference loop ends ----

  datatype Loop = Loop(tmp: seq<byte>, handleLen: nat, queued: seq<seq<byte>>)

  /** The loop after n iterations, or at its end if that comes first. */
  function Iterate(l: Loop, n: nat): Loop
    decreases n
  {
    if n == 0 || ConferenceStops(l.tmp) then l
    else
      var len := DeclaredLen(l.tmp);
      Iterate(Loop(l.tmp[len..], l.handleLen + len, l.queued + [l.tmp[..len]]), n - 1)
  }

  lemma {:induction false} EndsWithin(l: Loop)
    requires !ConferenceSplit(l.tmp).stuck
    ensures ConferenceStops(Iterate(l, |l.tmp|).tmp)
    decreases |l.tmp|
  {
    if !ConferenceStops(l.tmp) {
      var len := DeclaredLen(l.tmp);
      var m := Loop(l.tmp[len..], l.handleLen + len, l.queued + [l.tmp[..len]]);
      EndsWithin(m);
      MoreIterations(m, |m.tmp|, |l.tmp| - 1);
    }
  }

  lemma {:induction false} MoreIterations(l: Loop, i: nat, n: nat)
    requires i <= n && ConferenceStops(Iterate(l, i).tmp)
    ensures ConferenceStops(Iterate(l, n).tmp)
    decreases n
  {
    if i > 0 && !ConferenceStops(l.tmp) {
      var len := DeclaredLen(l.tmp);
      MoreIterations(Loop(l.tmp[len..], l.handleLen + len, l.queued + [l.tmp[..len]]), i - 1, n - 1);
    }
  }

  lemma {:induction false} NeverEnds(l: Loop, n: nat)
    requires ConferenceSplit(l.tmp).stuck
    ensures !ConferenceStops(Iterate(l, n).tmp)
    decreases n
  {
    if n > 0 {
      var len := DeclaredLen(l.tmp);
      assert len == 0 ==> l.tmp[len..] == l.tmp;
      NeverEnds(Loop(l.tmp[len..], l.handleLen + len, l.queued + [l.tmp[..len]]), n - 1);
    }
  }

  predicate EndsAfter(s: seq<byte>, n: nat) { ConferenceStops(Iterate(Loop(s, 0, []), n).tmp) }

  lemma LoopEndsIffNotStuck(s: seq<byte>)
    ensures (exists n: nat :: EndsAfter(s, n)) <==> !ConferenceSplit(s).stuck
  {
    if ConferenceSplit(s).stuck {
      forall n: nat
        ensures !EndsAfter(s, n)
      {
        NeverEnds(Loop(s, 0, []), n);
      }
    } else {
      EndsWithin(Loop(s, 0, []));
      assert EndsAfter(s, |s|);
    }
  }

  /** Each frame, followed by the others and the tail, starts a long enough buffer and declares its own length. */
  predicate IsSplitInto(frames: seq<seq<byte>>, tail: seq<byte>)
    decreases |frames|
  {
    frames != [] ==>
      var s := Concat(frames) + tail;
      !ConferenceStops(s) && DeclaredLen(s) == |frames[0]| > 0 && IsSplitInto(frames[1..], tail)
  }

  /** Longer than a header, and of declared length 0. */
  predicate ZeroFrame(s: seq<byte>) {
    |s| > CONFERENCE_HEAD && DeclaredLen(s) == 0
  }

  lemma FirstFrame(frames: seq<seq<byte>>, tail: seq<byte>)
    requires frames != []
    ensures var s := Concat(frames) + tail;
            s[..|frames[0]|] == frames[0] && s[|frames[0]|..] == Concat(frames[1..]) + tail
  {
    Assoc(frames[0], Concat(frames[1..]), tail);
    SplitConcat(frames[0], Concat(frames[1..]) + tail);
  }

  lemma {:induction false} ParsedAsSplit(frames: seq<seq<byte>>, tail: seq<byte>)
    requires IsSplitInto(frames, tail)
    ensures ConferenceSplit(Concat(frames) + tail).stuck == ConferenceSplit(tail).stuck
    decreases |frames|
  {
    if frames == [] {
      Empty(tail);
    } else {
      FirstFrame(frames, tail);
      ParsedAsSplit(frames[1..], tail);
    }
  }

  ghost predicate DecompositionLaw(s: seq<byte>) {
    var r := ConferenceSplit(s);
    var tail := s[r.consumed..];
    && s == Concat(r.msgs) + tail && IsSplitInto(r.msgs, tail)
    && (if r.stuck then ZeroFrame(tail) else ConferenceStops(tail))
  }

  lemma DecompositionStep(s: seq<byte>, len: nat)
    requires !ConferenceStops(s) && len == DeclaredLen(s) > 0 && DecompositionLaw(s[len..])
    ensures DecompositionLaw(s)
  {
    var r := ConferenceSplit(s[len..]);
    var tail := s[len..][r.consumed..];
    DropDrop(s, len, r.consumed);
    Cons(s[..len], r.msgs);
    Cut(s, len);
    Assoc(s[..len], Concat(r.msgs), tail);
  }

  /** Every buffer is frames of positive declared length and a tail: too short, or of declared length 0. */
  lemma {:induction false} ConferenceDecomposition(s: seq<byte>)
    ensures DecompositionLaw(s)
    decreases |s|
  {
    if ConferenceStops(s) || DeclaredLen(s) == 0 {
      Empty(s);
    } else {
      ConferenceDecomposition(s[DeclaredLen(s)..]);
      DecompositionStep(s, DeclaredLen(s));
    }
  }

  /** More bytes behind the tail change nothing in the frames. */
  lemma {:induction false} SplitIntoExtends(frames: seq<seq<byte>>, tail: seq<byte>, more: seq<byte>)
    requires IsSplitInto(frames, tail)
    ensures IsSplitInto(frames, tail + more)
    decreases |frames|
  {
    if frames != [] {
      SplitIntoExtends(frames[1..], tail, more);
      Assoc(Concat(frames), tail, more);
    }
  }

  /** Frames a, then what is behind them split into frames b. */
  lemma {:induction false} SplitIntoJoins(a: seq<seq<byte>>, b: seq<seq<byte>>, tail: seq<byte>)
    requires IsSplitInto(a, Concat(b) + tail) && IsSplitInto(b, tail)
    ensures IsSplitInto(a + b, tail)
    decreases |a|
  {
    if a == [] {
      Empty(b);
    } else {
      SplitIntoJoins(a[1..], b, tail);
      HeadTail(a, b);
      ConcatAppend(a, b);
      Assoc(Concat(a), Concat(b), tail);
    }
  }

  /** There is only one way to split a buffer up to a tail that stops. */
  lemma {:induction false} SplitIntoUnique(a: seq<seq<byte>>, s: seq<byte>, b: seq<seq<byte>>, t: seq<byte>)
    requires IsSplitInto(a, s) && IsSplitInto(b, t) && Concat(a) + s == Concat(b) + t
    requires ConferenceStops(s) && ConferenceStops(t)
    ensures a == b && s == t
    decreases |a|
  {
    Empty(s);
    Empty(t);
    if a != [] && b != [] {
      FirstFrame(a, s);
      FirstFrame(b, t);
      SplitIntoUnique(a[1..], s, b[1..], t);
      Uncons(a);
      Uncons(b);
    }
  }

  /** A frame of four bytes or more carries its own length. */
  lemma {:induction false} FramesDeclareTheirLength(frames: seq<seq<byte>>, tail: seq<byte>)
    requires IsSplitInto(frames, tail)
    ensures forall f :: f in frames ==> f != [] && (|f| >= 4 ==> DeclaredLen(f) == |f|)
    decreases |frames|
  {
    if frames != [] {
      FramesDeclareTheirLength(frames[1..], tail);
      FirstFrame(frames, tail);
      var s, f := Concat(frames) + tail, frames[0];
      assert |f| >= 4 ==> f[2] == s[..|f|][2] && f[3] == s[..|f|][3];
    }
  }

  /** Behind some frames of positive declared length stands one of declared length 0. */
  ghost predicate HitsZeroFrame(s: seq<byte>) {
    exists frames, tail :: s == Concat(frames) + tail && IsSplitInto(frames, tail) && ZeroFrame(tail)
  }

  /** The loop ends exactly on the buffers in which no frame of declared length 0 comes up. */
  lemma ConferenceLoopEndsIff(s: seq<byte>)
    ensures (exists n: nat :: EndsAfter(s, n)) <==> !HitsZeroFrame(s)
  {
    LoopEndsIffNotStuck(s);
    ConferenceDecomposition(s);
    if HitsZeroFrame(s) {
      var frames, tail :| s == Concat(frames) + tail && IsSplitInto(frames, tail) && ZeroFrame(tail);
      ParsedAsSplit(frames, tail);
      assert ConferenceSplit(tail).stuck;
    }
  }

  /** 23 zero bytes from the network are enough. */
  lemma ZeroBytesNeverEnd(s: seq<byte>)
    requires |s| == 23 && forall i :: 0 <= i < |s| ==> s[i] == 0
    ensures forall n: nat :: !EndsAfter(s, n)
  {
    assert ConferenceSplit(s).stuck;
    LoopEndsIffNotStuck(s);
  }

  // ---- BaseProcess::msgGet ----

  /** The messages queued, with the handled length, or before substr threw std::out_of_range. */
  datatype DeviceResult = Returned(msgs: seq<seq<byte>>, consumed: nat) | Threw(msgs: seq<seq<byte>>)

  /** Too short for a header and its declared body. */
  predicate DeviceStops(s: seq<byte>) {
    |s| <= DEVICE_HEAD || |s| < DEVICE_HEAD + DeclaredLen(s)
  }

  /** Header and body are there but the 4-byte end tag is not. */
  predicate EndTagCut(s: seq<byte>) {
    !DeviceStops(s) && |s| < DEVICE_HEAD + DeclaredLen(s) + 4
  }

  function PrependFrame(f: seq<byte>, r: DeviceResult): DeviceResult {
    match r
    case Returned(msgs, consumed) => Returned([f] + msgs, |f| + consumed)
    case Threw(msgs) => Threw([f] + msgs)
  }

  function DeviceSplit(s: seq<byte>): DeviceResult
    decreases |s|
  {
    if DeviceStops(s) then Returned([], 0)
    else if EndTagCut(s) then Threw([s])
    else
      var len := DEVICE_HEAD + DeclaredLen(s) + 4;
      PrependFrame(s[..len], DeviceSplit(s[len..]))
  }

  /** std::string::substr(0, n) */
  function Prefix(s: seq<byte>, n: nat): seq<byte> { if n <= |s| then s[..n] else s }

  /** r with the messages got, of n bytes, in front. */
  function Extend(got: seq<seq<byte>>, n: nat, r: DeviceResult): DeviceResult {
    match r
    case Returned(msgs, consumed) => Returned(got + msgs, n + consumed)
    case Threw(msgs) => Threw(got + msgs)
  }

  lemma ExtendByFrame(got: seq<seq<byte>>, n: nat, f: seq<byte>, r: DeviceResult)
    ensures Extend(got, n, PrependFrame(f, r)) == Extend(got + [f], n + |f|, r)
  {
    Assoc(got, [f], r.msgs);
  }

  method DeviceMsgGet(buff: seq<byte>, q_recv: MessageQueue) returns (handleLen: nat, threw: bool)
    modifies q_recv
    ensures q_recv.items == old(q_recv.items) + DeviceSplit(buff).msgs
    ensures threw <==> DeviceSplit(buff).Threw?
    ensures !threw ==> handleLen == DeviceSplit(buff).consumed
  {
    handleLen, threw := 0, false;
    if |buff| <= DEVICE_HEAD {
      return;
    }
    var tmp := buff;
    ghost var got: seq<seq<byte>> := [];
    Empty(DeviceSplit(buff).msgs);
    while |tmp| > DEVICE_HEAD
      invariant q_recv.items == old(q_recv.items) + got
      invariant DeviceSplit(buff) == Extend(got, handleLen, DeviceSplit(tmp))
      decreases |tmp|
    {
      var len := DeclaredLen(tmp);
      if |tmp| < DEVICE_HEAD + len {
        break;
      }
      len := DEVICE_HEAD + len + 4;
      q_recv.Emplace(Prefix(tmp, len));
      Assoc(old(q_recv.items), got, [Prefix(tmp, len)]);
      if len > |tmp| {
        threw := true;
        return;
      }
      ExtendByFrame(got, handleLen, tmp[..len], DeviceSplit(tmp[len..]));
      got := got + [tmp[..len]];
      tmp := tmp[len..];
      handleLen := handleLen + len;
    }
    Empty(got);
  }

  /** Header, body of the declared length, end tag. */
  predicate WholeFrame(f: seq<byte>) {
    |f| >= DEVICE_HEAD + 4 && |f| == DEVICE_HEAD + DeclaredLen(f) + 4
  }

  predicate WholeFrames(frames: seq<seq<byte>>) { forall f :: f in frames ==> WholeFrame(f) }

  function AfterFrames(frames: seq<seq<byte>>, r: DeviceResult): DeviceResult {
    Extend(frames, |Concat(frames)|, r)
  }

  lemma FrameSplitsOff(f: seq<byte>, rest: seq<byte>)
    requires WholeFrame(f)
    ensures DeviceSplit(f + rest) == PrependFrame(f, DeviceSplit(rest))
  {
    assert DeclaredLen(f + rest) == DeclaredLen(f);
    SplitConcat(f, rest);
  }

  lemma PrependAfter(f: seq<byte>, frames: seq<seq<byte>>, r: DeviceResult)
    ensures PrependFrame(f, AfterFrames(frames, r)) == AfterFrames([f] + frames, r)
  {
    Assoc([f], frames, r.msgs);
    Cons(f, frames);
  }

  /** Whole frames are queued one by one, whatever follows them. */
  lemma {:induction false} DeviceSplitsFrames(frames: seq<seq<byte>>, tail: seq<byte>)
    requires WholeFrames(frames)
    ensures DeviceSplit(Concat(frames) + tail) == AfterFrames(frames, DeviceSplit(tail))
  {
    if frames == [] {
      Empty(tail);
      Empty(DeviceSplit(tail).msgs);
    } else {
      var f, more := frames[0], frames[1..];
      DeviceSplitsFrames(more, tail);
      FrameSplitsOff(f, Concat(more) + tail);
      Assoc(f, Concat(more), tail);
      PrependAfter(f, more, DeviceSplit(tail));
      Uncons(frames);
    }
  }

  /** The frames the loop gets past, and the tail at which it ends. */
  function DeviceTail(s: seq<byte>): seq<byte>
    decreases |s|
  {
    if DeviceStops(s) || EndTagCut(s) then s else DeviceTail(s[DEVICE_HEAD + DeclaredLen(s) + 4..])
  }

  function DeviceFrames(s: seq<byte>): seq<seq<byte>>
    decreases |s|
  {
    if DeviceStops(s) || EndTagCut(s) then []
    else
      var len := DEVICE_HEAD + DeclaredLen(s) + 4;
      [s[..len]] + DeviceFrames(s[len..])
  }

  lemma Reassemble(f: seq<byte>, frames: seq<seq<byte>>, tail: seq<byte>)
    ensures Concat([f] + frames) + tail == f + (Concat(frames) + tail)
  {
    Cons(f, frames);
    Assoc(f, Concat(frames), tail);
  }

  /** Every buffer is whole frames followed by a tail that is too short or has its end tag cut. */
  lemma {:induction false} DeviceDecomposition(s: seq<byte>)
    ensures WholeFrames(DeviceFrames(s)) && s == Concat(DeviceFrames(s)) + DeviceTail(s)
    ensures DeviceStops(DeviceTail(s)) || EndTagCut(DeviceTail(s))
    decreases |s|
  {
    if !DeviceStops(s) && !EndTagCut(s) {
      var len := DEVICE_HEAD + DeclaredLen(s) + 4;
      DeviceDecomposition(s[len..]);
      assert WholeFrame(s[..len]);
      Reassemble(s[..len], DeviceFrames(s[len..]), DeviceTail(s[len..]));
      Cut(s, len);
    }
  }

  /** It throws exactly when the buffer ends inside the end tag of a frame; otherwise the frames and their length. */
  lemma DeviceOutcome(s: seq<byte>)
    ensures var frames, tail := DeviceFrames(s), DeviceTail(s);
            DeviceSplit(s) == if EndTagCut(tail) then Threw(frames + [tail]) else Returned(frames, |Concat(frames)|)
  {
    DeviceDecomposition(s);
    DeviceSplitsFrames(DeviceFrames(s), DeviceTail(s));
  }

  /** In bytes: the first frame queued is a 24-byte header, a body of the declared length and a 4-byte end tag. */
  lemma DeviceFirstFrame(s: seq<byte>)
    requires |s| > 24 && |s| >= 24 + (256 * (s[2] as int) + (s[3] as int)) + 4
    ensures var r := DeviceSplit(s); r.msgs != [] && r.msgs[0] == s[..24 + (256 * (s[2] as int) + (s[3] as int)) + 4]
  {
    assert !DeviceStops(s) && !EndTagCut(s);
  }

  /** Cutting a whole frame 1 to 4 bytes short makes msgGet throw, except a bare header. */
  lemma CutFrameThrows(f: seq<byte>, i: nat)
    requires WholeFrame(f) && 1 <= i <= 4
    ensures DeviceSplit(f[..|f| - i]).Threw? <==> DeclaredLen(f) > 0 || i < 4
  {
    var cut := f[..|f| - i];
    assert DeclaredLen(cut) == DeclaredLen(f);
  }

  /** As long as a does not throw, a + b splits into the frames of a, then those of a's tail + b. */
  lemma DeviceChunks(a: seq<byte>, b: seq<byte>)
    requires DeviceSplit(a).Returned?
    ensures DeviceSplit(a + b) == AfterFrames(DeviceFrames(a), DeviceSplit(DeviceTail(a) + b))
  {
    DeviceDecomposition(a);
    DeviceSplitsFrames(DeviceFrames(a), DeviceTail(a) + b);
    Assoc(Concat(DeviceFrames(a)), DeviceTail(a), b);
  }
}
