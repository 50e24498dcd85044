/** Transfers with failed and repeated attempts: memory ends up with every data packet exactly once. */
module KermitTransfer {
  import opened ByteSums
  import opened CTypes
  import opened Kermit
  import opened KermitProtocol

  // ----- framing looks at one attempt only -----

  predicate Ended(f: Framing) {
    f.BadHeader? || f.Failed? || f.Good?
  }

  function Longer(f: Framing, t: seq<byte>): Framing {
    if Ended(f) then f.(rest := f.rest + t) else f
  }

  lemma {:induction false} FrameLonger(s: seq<byte>, t: seq<byte>)
    requires Ended(Frame(s))
    ensures Frame(s + t) == Longer(Frame(s), t)
    decreases |s|
  {
    assert (s + t)[1..] == s[1..] + t;
    if s[0] == START_CHAR {
      LengthLonger(s[1..], t);
    } else {
      FrameLonger(s[1..], t);
    }
  }

  lemma {:induction false} LengthLonger(s: seq<byte>, t: seq<byte>)
    requires Ended(FrameLength(s))
    ensures FrameLength(s + t) == Longer(FrameLength(s), t)
  {
    assert (s + t)[1..] == s[1..] + t;
    if !IsControl(s[0]) {
      SeqLonger(UnChar(s[0]), s[0], s[1..], t);
    }
  }

  lemma {:induction false} SeqLonger(length: int, sum: nat, s: seq<byte>, t: seq<byte>)
    requires Ended(FrameSeq(length, sum, s))
    ensures FrameSeq(length, sum, s + t) == Longer(FrameSeq(length, sum, s), t)
  {
    assert (s + t)[1..] == s[1..] + t;
    if !IsControl(s[0]) {
      TypeLonger(UnChar(s[0]), length - 1, sum + s[0], s[1..], t);
    }
  }

  lemma {:induction false} TypeLonger(n: byte, length: int, sum: nat, s: seq<byte>, t: seq<byte>)
    requires Ended(FrameType(n, length, sum, s))
    ensures FrameType(n, length, sum, s + t) == Longer(FrameType(n, length, sum, s), t)
  {
    hide FrameLong, FrameData, BlockCheck;
    assert (s + t)[1..] == s[1..] + t;
    if !IsControl(s[0]) {
      if length - 1 == -2 {
        LongLonger(n, s[0], sum + s[0], s[1..], t);
      } else {
        DataLonger(n, s[0], length - 1, sum + s[0], [], s[1..], t);
      }
    }
  }

  lemma {:induction false} LongLonger(n: byte, typ: byte, sum: nat, s: seq<byte>, t: seq<byte>)
    requires Ended(FrameLong(n, typ, sum, s))
    ensures FrameLong(n, typ, sum, s + t) == Longer(FrameLong(n, typ, sum, s), t)
  {
    assert (s + t)[1..] == s[1..] + t;
    if !IsControl(s[0]) {
      assert (s + t)[2..] == s[2..] + t;
      if !IsControl(s[1]) {
        assert (s + t)[3..] == s[3..] + t;
        if !IsControl(s[2]) && s[2] == BlockCheck(sum + s[0] + s[1]) {
          DataLonger(n, typ, UnChar(s[0]) * 95 + UnChar(s[1]), sum + s[0] + s[1] + s[2], [], s[3..], t);
        }
      }
    }
  }

  lemma {:induction false} DataLonger(n: byte, typ: byte, length: int, sum: nat, data: seq<byte>, s: seq<byte>,
                                      t: seq<byte>)
    requires Ended(FrameData(n, typ, length, sum, data, s))
    ensures FrameData(n, typ, length, sum, data, s + t) == Longer(FrameData(n, typ, length, sum, data, s), t)
    decreases |s|
  {
    assert (s + t)[1..] == s[1..] + t;
    if length <= 1 {
      if |s| >= 2 {
        assert (s + t)[2..] == s[2..] + t;
      }
    } else if !IsControl(s[0]) {
      DataLonger(n, typ, length - 1, sum + s[0], data + [s[0]], s[1..], t);
    }
  }

  // ----- attempts -----

  /** A complete transmission of `p`: noise, then characters framed as exactly this packet. */
  ghost predicate IsGoodAttempt(a: seq<byte>, p: Packet) {
    Frame(a) == Good(p.n, p.typ, p.data, [])
  }

  /** One that fails, under the number of the packet, under another one, or before its number is read. */
  ghost predicate IsFailedAttempt(a: seq<byte>) {
    (Frame(a).Failed? || Frame(a).BadHeader?) && Frame(a).rest == []
  }

  /** All attempts at one packet. The last is good; a break packet, which ends the transfer, is received
      only once. */
  ghost predicate AreAttempts(p: Packet, attempts: seq<seq<byte>>) {
    && attempts != []
    && IsGoodAttempt(attempts[|attempts| - 1], p)
    && forall i :: 0 <= i < |attempts| - 1 ==>
         IsFailedAttempt(attempts[i]) || (IsGoodAttempt(attempts[i], p) && p.typ != BREAK_TYPE)
  }

  /** An attempt the receiver takes for the packet numbered `n`, or whose number it cannot read: it goes back
      to the checkpoint. */
  ghost predicate GoesBack(a: seq<byte>, n: int) {
    Frame(a).BadHeader? || (Frame(a).Failed? && Frame(a).n == n)
  }

  /** An attempt at `p` that fails under another number: a checkpoint is taken if the one before was good. */
  ghost predicate Strays(a: seq<byte>, p: Packet) {
    Frame(a).Failed? && Frame(a).n != p.n
  }

  ghost function Payload(p: Packet): seq<byte> {
    if p.typ == DATA_TYPE then p.data else []
  }

  /** The payload once for every good attempt directly followed by one that strays. */
  ghost function Doubled(p: Packet, attempts: seq<seq<byte>>): seq<byte> {
    if |attempts| < 2 then []
    else DoubledBy(p, IsGoodAttempt(attempts[0], p), attempts[1]) + Doubled(p, attempts[1..])
  }

  ghost function DoubledBy(p: Packet, good: bool, a: seq<byte>): seq<byte> {
    if good && Strays(a, p) then Payload(p) else []
  }

  ghost function Line(attempts: seq<seq<byte>>): seq<byte> {
    if attempts == [] then [] else attempts[0] + Line(attempts[1..])
  }

  /** An encoded packet, after any noise without start or ^C characters, is a good attempt. */
  lemma {:induction false} EncodedIsGood(noise: seq<byte>, p: Packet)
    requires IsPacket(p)
    requires forall i :: 0 <= i < |noise| ==> noise[i] != START_CHAR && noise[i] != ETX_CHAR
    ensures IsGoodAttempt(noise + Encode(p), p)
  {
    if noise == [] {
      FrameEncoded(p, []);
      assert Encode(p) + [] == Encode(p) == noise + Encode(p);
    } else {
      EncodedIsGood(noise[1..], p);
      assert (noise + Encode(p))[1..] == noise[1..] + Encode(p);
    }
  }

  /** After a good packet: stop on a break, otherwise carry on. */
  ghost function Finish(r: Receiver, p: Packet, t: seq<byte>): Outcome {
    if p.typ == BREAK_TYPE then Done(r, t) else Transfer(r, t)
  }

  /** The receiver once `p` is stored behind `base`. */
  ghost function Delivered(base: DataState, quote: byte, p: Packet): Receiver {
    Deliver(Receiver(base, base, p.n, quote), p.typ, p.data)
  }

  /** Where a receiver at its checkpoint or behind `p` stands: `good` if the last attempt was good. */
  ghost predicate Between(r: Receiver, x: DataState, p: Packet, good: bool) {
    r.saved == x && if good then r == Delivered(x, r.quote, p) else r.current == x
  }

  lemma {:induction false} FirstAttempt(r: Receiver, p: Packet, a: seq<byte>) returns (next: Receiver)
    requires r.lastN != p.n && (IsFailedAttempt(a) || IsGoodAttempt(a, p))
    ensures next == Step(r, Frame(a))
    ensures Between(next, if GoesBack(a, r.lastN) then r.saved else r.current, p, IsGoodAttempt(a, p))
    ensures p.typ == SEND_TYPE || next.quote == r.quote
  {
    next := Step(r, Frame(a));
  }

  lemma {:induction false} NextAttempt(r: Receiver, x: DataState, p: Packet, good: bool, a: seq<byte>)
      returns (next: Receiver)
    requires Between(r, x, p, good) && (IsFailedAttempt(a) || IsGoodAttempt(a, p))
    ensures next == Step(r, Frame(a))
    ensures Between(next, Feed(x, r.quote, DoubledBy(p, good, a)), p, IsGoodAttempt(a, p))
    ensures p.typ == SEND_TYPE || next.quote == r.quote
  {
    next := Step(r, Frame(a));
  }

  /** The line behind one attempt. */
  lemma {:induction false} AttemptStep(r: Receiver, p: Packet, attempts: seq<seq<byte>>, t: seq<byte>)
    requires AreAttempts(p, attempts)
    ensures attempts != [] && (IsFailedAttempt(attempts[0]) || IsGoodAttempt(attempts[0], p))
    ensures var next := Step(r, Frame(attempts[0]));
            Transfer(r, Line(attempts) + t) ==
            if |attempts| == 1 then Finish(next, p, t) else Transfer(next, Line(attempts[1..]) + t)
    ensures |attempts| > 1 ==> AreAttempts(p, attempts[1..])
  {
    hide Feed;
    var a := attempts[0];
    var s := Line(attempts[1..]) + t;
    assert Line(attempts) + t == a + s;
    FrameLonger(a, s);
    assert [] + s == s;
    if |attempts| == 1 {
      assert Line(attempts[1..]) == [];
      assert s == t;
    }
  }

  lemma {:induction false} NothingDoubled(p: Packet, attempts: seq<seq<byte>>)
    requires Payload(p) == []
    ensures Doubled(p, attempts) == []
  {
    if |attempts| >= 2 {
      NothingDoubled(p, attempts[1..]);
    }
  }

  lemma {:induction false} LaterAttempts(r: Receiver, x: DataState, p: Packet, good: bool, attempts: seq<seq<byte>>,
                                         t: seq<byte>)
    requires AreAttempts(p, attempts) && Between(r, x, p, good)
    ensures var more := DoubledBy(p, good, attempts[0]) + Doubled(p, attempts);
            Transfer(r, Line(attempts) + t) == Finish(Delivered(Feed(x, r.quote, more), r.quote, p), p, t)
    decreases |attempts|
  {
    hide Transfer, Line, Feed, IsGoodAttempt, IsFailedAttempt, AreAttempts, Between;
    AttemptStep(r, p, attempts, t);
    var next := NextAttempt(r, x, p, good, attempts[0]);
    var one := DoubledBy(p, good, attempts[0]);
    var y := Feed(x, r.quote, one);
    if |attempts| == 1 {
      assert one + Doubled(p, attempts) == one;
      LastIsGood(next, y, p, attempts);
    } else {
      LaterAttempts(next, y, p, IsGoodAttempt(attempts[0], p), attempts[1..], t);
      FeedConcat(x, r.quote, one, Doubled(p, attempts));
      if p.typ == SEND_TYPE {
        NothingDoubled(p, attempts);
        NoFeed(y, r.quote);
        NoFeed(y, next.quote);
      }
    }
  }

  lemma NoFeed(x: DataState, quote: byte)
    ensures Feed(x, quote, []) == x
  {
  }

  lemma LastIsGood(r: Receiver, x: DataState, p: Packet, attempts: seq<seq<byte>>)
    requires AreAttempts(p, attempts) && |attempts| == 1 && Between(r, x, p, IsGoodAttempt(attempts[0], p))
    ensures r == Delivered(x, r.quote, p)
  {
  }

  /** What a packet is stored behind: the checkpoint if the first attempt goes back to it, and what is doubled. */
  ghost function Base(r: Receiver, p: Packet, attempts: seq<seq<byte>>): DataState
    requires attempts != []
  {
    Feed(if GoesBack(attempts[0], r.lastN) then r.saved else r.current, r.quote, Doubled(p, attempts))
  }

  /** Whatever attempts a packet takes, however their numbers and headers are damaged: it ends as if it had
      come once exactly if the first attempt does not go back and nothing is doubled, or if what is lost by
      going back is what is doubled. */
  lemma {:induction false} ReceivedOnceIff(r: Receiver, p: Packet, attempts: seq<seq<byte>>, t: seq<byte>)
    requires r.lastN != p.n && AreAttempts(p, attempts)
    ensures Transfer(r, Line(attempts) + t) == Finish(Delivered(Base(r, p, attempts), r.quote, p), p, t)
    ensures Delivered(Base(r, p, attempts), r.quote, p) == Delivered(r.current, r.quote, p) <==>
            if GoesBack(attempts[0], r.lastN) then Feed(r.saved, r.quote, Doubled(p, attempts)) == r.current
            else Doubled(p, attempts) == []
  {
    AttemptsEnd(r, p, attempts, t);
    FeedGrows(r.current, r.quote, Doubled(p, attempts));
    NoFeed(r.current, r.quote);
    hide Feed, Doubled;
    SameBase(Base(r, p, attempts), r.current, r.quote, p);
  }

  lemma SameBase(x: DataState, y: DataState, quote: byte, p: Packet)
    ensures Delivered(x, quote, p) == Delivered(y, quote, p) <==> x == y
  {
    assert Delivered(x, quote, p).saved == x;
  }

  lemma {:induction false} AttemptsEnd(r: Receiver, p: Packet, attempts: seq<seq<byte>>, t: seq<byte>)
    requires r.lastN != p.n && AreAttempts(p, attempts)
    ensures Transfer(r, Line(attempts) + t) == Finish(Delivered(Base(r, p, attempts), r.quote, p), p, t)
  {
    hide Transfer, Line, Feed, IsGoodAttempt, IsFailedAttempt, AreAttempts, Between, GoesBack;
    AttemptStep(r, p, attempts, t);
    var next := FirstAttempt(r, p, attempts[0]);
    var x := if GoesBack(attempts[0], r.lastN) then r.saved else r.current;
    NoFeed(x, r.quote);
    if |attempts| == 1 {
      LastIsGood(next, x, p, attempts);
    } else {
      LaterAttempts(next, x, p, IsGoodAttempt(attempts[0], p), attempts[1..], t);
      if p.typ == SEND_TYPE {
        NothingDoubled(p, attempts);
        NoFeed(x, next.quote);
      }
    }
  }

  /** The packet before: its number and what it stored. */
  datatype Prior = Prior(n: int, payload: seq<byte>)

  const NO_PACKET := Prior(-1, [])

  /** Attempts that end as if the packet had come once: the first goes back only where the packet before
      stored nothing, and no payload is doubled. */
  ghost predicate IsDelivery(prior: Prior, p: Packet, attempts: seq<seq<byte>>) {
    && AreAttempts(p, attempts)
    && p.n != prior.n
    && (GoesBack(attempts[0], prior.n) ==> prior.payload == [])
    && Doubled(p, attempts) == []
  }

  /** However many attempts a packet takes, it is delivered once. */
  lemma {:induction false} DeliveredOnce(r: Receiver, prior: Prior, p: Packet, attempts: seq<seq<byte>>, t: seq<byte>)
    requires IsDelivery(prior, p, attempts) && r.lastN == prior.n && (prior.payload == [] ==> r.saved == r.current)
    ensures Transfer(r, Line(attempts) + t) == Finish(Delivered(r.current, r.quote, p), p, t)
  {
    hide Transfer, Line, Feed, GoesBack, AreAttempts;
    NoFeed(r.current, r.quote);
    AttemptsEnd(r, p, attempts, t);
  }

  // ----- whole transfers -----

  datatype Delivery = Delivery(packet: Packet, attempts: seq<seq<byte>>)

  /** Every packet is delivered and only the last one ends the transfer. */
  ghost predicate IsTransfer(prior: Prior, ds: seq<Delivery>)
    decreases |ds|
  {
    && ds != []
    && (ds[0].packet.typ == BREAK_TYPE <==> |ds| == 1)
    && IsDelivery(prior, ds[0].packet, ds[0].attempts)
    && (|ds| > 1 ==> IsTransfer(Prior(ds[0].packet.n, Payload(ds[0].packet)), ds[1..]))
  }

  /** Everything on the line. */
  ghost function Wire(ds: seq<Delivery>): seq<byte> {
    if ds == [] then [] else Line(ds[0].attempts) + Wire(ds[1..])
  }

  /** The data of the data packets, each once and in order. */
  ghost function DataOf(ds: seq<Delivery>): seq<byte> {
    if ds == [] then []
    else Payload(ds[0].packet) + DataOf(ds[1..])
  }

  /** From any receiver state, a transfer without further send-initiate packets stores the unquoted
      data of its data packets behind what is already there. */
  lemma {:induction false} TransferStores(r: Receiver, prior: Prior, ds: seq<Delivery>, t: seq<byte>)
    requires IsTransfer(prior, ds) && r.lastN == prior.n && (prior.payload == [] ==> r.saved == r.current)
    requires forall i :: 0 <= i < |ds| ==> ds[i].packet.typ != SEND_TYPE
    ensures Transfer(r, Wire(ds) + t).Done?
    ensures Transfer(r, Wire(ds) + t).r.current == Feed(r.current, r.quote, DataOf(ds))
    ensures Transfer(r, Wire(ds) + t).rest == t
    decreases |ds|
  {
    hide Transfer, Line, Feed, IsDelivery;
    var d, rest := ds[0], ds[1..];
    assert Wire(ds) + t == Line(d.attempts) + (Wire(rest) + t);
    DeliveredOnce(r, prior, d.packet, d.attempts, Wire(rest) + t);
    NoFeed(r.current, r.quote);
    var next := Delivered(r.current, r.quote, d.packet);
    FeedConcat(r.current, r.quote, Payload(d.packet), DataOf(rest));
    if rest == [] {
      assert Wire(rest) + t == t;
      assert DataOf(ds) == [];
    } else {
      TransferStores(next, Prior(d.packet.n, Payload(d.packet)), rest, t);
    }
  }

  /** A transfer that opens with a send-initiate packet: memory holds the unquoted data, counted once,
      and the size returned is its length. */
  lemma {:induction false} TransferFromStart(ds: seq<Delivery>, quote: byte, t: seq<byte>)
    requires IsTransfer(NO_PACKET, ds) && |ds| >= 2 && ds[0].packet.typ == 'S' as byte
    requires forall i :: 1 <= i < |ds| ==> ds[i].packet.typ != 'S' as byte
    requires quote == if |ds[0].packet.data| >= 6 then ds[0].packet.data[5] else '#' as byte
    ensures Transfer(START_STATE, Wire(ds) + t).Done?
    ensures Transfer(START_STATE, Wire(ds) + t).r.current
         == Feed(DataState([], false), quote, DataOf(ds[1..]))
  {
    hide Transfer, Line, Feed, IsDelivery;
    var d, rest := ds[0], ds[1..];
    assert Wire(ds) + t == Line(d.attempts) + (Wire(rest) + t);
    DeliveredOnce(START_STATE, NO_PACKET, d.packet, d.attempts, Wire(rest) + t);
    TransferStores(Delivered(START_STATE.current, K_ESCAPE, d.packet), Prior(d.packet.n, []), rest, t);
  }

  /** A file sent with control prefixing, cut into data packets anywhere, arrives as it was. */
  lemma {:induction false} FileArrives(file: seq<byte>, ds: seq<Delivery>, quote: byte, t: seq<byte>)
    requires IsTransfer(NO_PACKET, ds) && |ds| >= 2 && ds[0].packet.typ == 'S' as byte
    requires forall i :: 1 <= i < |ds| ==> ds[i].packet.typ != 'S' as byte
    requires quote == if |ds[0].packet.data| >= 6 then ds[0].packet.data[5] else '#' as byte
    requires FaithfulQuote(quote) && DataOf(ds[1..]) == PrefixedAll(file, quote)
    ensures Transfer(START_STATE, Wire(ds) + t).Done?
    ensures Transfer(START_STATE, Wire(ds) + t).r.current == DataState(file, false)
  {
    hide IsTransfer, Transfer, Feed, DataOf, PrefixedAll, FaithfulQuote;
    TransferFromStart(ds, quote, t);
    UnquoteUndoesPrefixing(DataState([], false), file, quote);
    assert [] + file == file;
  }

  // ----- the replies -----

  function NumberAfter(prev: int, f: Framing): int {
    if f.Failed? || f.Good? then f.n else prev
  }

  /** The replies to the attempts at one packet. */
  ghost function RepliesTo(prev: int, attempts: seq<seq<byte>>): seq<Reply>
    decreases |attempts|
  {
    if attempts == [] then []
    else
      var f := Frame(attempts[0]);
      AnswerTo(prev, f) + RepliesTo(NumberAfter(prev, f), attempts[1..])
  }

  /** Every attempt is answered, and positively exactly if it is good. */
  lemma {:induction false} GoodIsAcknowledged(prev: int, p: Packet, attempts: seq<seq<byte>>, i: nat)
    requires forall k :: 0 <= k < |attempts| ==> IsGoodAttempt(attempts[k], p) || IsFailedAttempt(attempts[k])
    requires i < |attempts|
    ensures var rs := RepliesTo(prev, attempts);
            |rs| == |attempts| &&
            if IsGoodAttempt(attempts[i], p) then rs[i] == (if p.typ == 'S' as byte then Params(p.n) else Ack(p.n))
            else rs[i].Nack?
    decreases |attempts|
  {
    hide Frame;
    var next := NumberAfter(prev, Frame(attempts[0]));
    assert IsGoodAttempt(attempts[0], p) || IsFailedAttempt(attempts[0]);
    if |attempts| > 1 {
      GoodIsAcknowledged(next, p, attempts[1..], if i > 0 then i - 1 else 0);
    } else {
      assert RepliesTo(next, attempts[1..]) == [];
    }
  }

  /** What k_recv answers while the attempts at one packet arrive. */
  lemma {:induction false} AttemptsAnswered(prev: int, p: Packet, attempts: seq<seq<byte>>, t: seq<byte>)
    requires AreAttempts(p, attempts)
    ensures Conversation(prev, Line(attempts) + t) ==
            RepliesTo(prev, attempts) + if p.typ == 'B' as byte then [] else Conversation(p.n, t)
    decreases |attempts|
  {
    hide Frame, AreAttempts, IsGoodAttempt, IsFailedAttempt, Line, Conversation, AnswerTo;
    FirstOfLine(p, attempts, t);
    LineSplit(attempts, t);
    var a, s := attempts[0], Line(attempts[1..]) + t;
    var next := NumberAfter(prev, Frame(a));
    ReplyStep(prev, a, s);
    if |attempts| == 1 {
      assert RepliesTo(next, attempts[1..]) == [];
      assert AnswerTo(prev, Frame(a)) + [] == AnswerTo(prev, Frame(a));
    } else {
      AttemptsAnswered(next, p, attempts[1..], t);
      Associates(AnswerTo(prev, Frame(a)), RepliesTo(next, attempts[1..]),
                 if p.typ == 'B' as byte then [] else Conversation(p.n, t));
    }
  }

  lemma Associates(a: seq<Reply>, b: seq<Reply>, c: seq<Reply>)
    ensures a + (b + c) == a + b + c
  {
  }

  lemma LineSplit(attempts: seq<seq<byte>>, t: seq<byte>)
    requires attempts != []
    ensures Line(attempts) + t == attempts[0] + (Line(attempts[1..]) + t)
    ensures |attempts| == 1 ==> Line(attempts[1..]) + t == t
  {
    LineStep(attempts);
    hide Line;
    Append(attempts[0], Line(attempts[1..]), t);
  }

  lemma LineStep(attempts: seq<seq<byte>>)
    requires attempts != []
    ensures Line(attempts) == attempts[0] + Line(attempts[1..])
    ensures |attempts| == 1 ==> Line(attempts[1..]) == []
  {
  }

  lemma Append(a: seq<byte>, b: seq<byte>, t: seq<byte>)
    ensures a + b + t == a + (b + t)
    ensures b == [] ==> b + t == t
  {
  }

  lemma FirstOfLine(p: Packet, attempts: seq<seq<byte>>, t: seq<byte>)
    requires AreAttempts(p, attempts)
    ensures attempts != []
    ensures var a, s := attempts[0], Line(attempts[1..]) + t;
            && Frame(a + s) == Longer(Frame(a), s) && Ended(Frame(a)) && Frame(a).rest == []
            && (Frame(a).Good? ==> Frame(a).typ == p.typ && Frame(a).n == p.n)
            && (if |attempts| == 1 then Frame(a).Good?
                else AreAttempts(p, attempts[1..]) && (Frame(a).Good? ==> p.typ != 'B' as byte))
  {
    hide Frame, Line;
    var a := attempts[0];
    assert IsFailedAttempt(a) || IsGoodAttempt(a, p);
    FrameLonger(a, Line(attempts[1..]) + t);
  }

  lemma ReplyStep(prev: int, a: seq<byte>, s: seq<byte>)
    requires Frame(a + s) == Longer(Frame(a), s) && Ended(Frame(a)) && Frame(a).rest == []
    ensures Conversation(prev, a + s) ==
            AnswerTo(prev, Frame(a)) + if Frame(a).Good? && Frame(a).typ == 'B' as byte then []
                                       else Conversation(NumberAfter(prev, Frame(a)), s)
  {
    hide Frame;
    assert [] + s == s;
  }

  // ----- packets byte by byte -----

  /** A short packet: mark, length, number, type, data, check and carriage return. The check is the sum of the
      characters behind the mark, bits 6 and 7 added to the low six, as a printable character. */
  lemma ShortPacketBytes(p: Packet)
    requires IsPacket(p) && !p.extended
    ensures var h := [(|p.data| + 35) as byte, (p.n + 32) as byte, p.typ];
            var sum := Sum(h + p.data);
            Encode(p) == [0x01] + h + p.data + [((sum + (sum / 64) % 4) % 64 + 32) as byte, 0x0D]
  {
    hide Sum;
  }

  /** A long packet: length 0, number, type, the length in two characters, a check of these five, data, and the
      check of all; the long length counts the data and the last check, in base 95. */
  lemma LongPacketBytes(p: Packet)
    requires IsPacket(p) && p.extended
    ensures p.hi * 95 + p.lo == |p.data| + 1
    ensures var five: seq<byte> := [0x20, (p.n + 32) as byte, p.typ, (p.hi + 32) as byte, (p.lo + 32) as byte];
            var h := five + [((Sum(five) + (Sum(five) / 64) % 4) % 64 + 32) as byte];
            var sum := Sum(h + p.data);
            Encode(p) == [0x01] + h + p.data + [((sum + (sum / 64) % 4) % 64 + 32) as byte, 0x0D]
  {
    hide Sum, Header, LongHeader;
    LongHeaderBytes(p);
  }

  lemma LongHeaderBytes(p: Packet)
    requires IsPacket(p) && p.extended
    ensures var five: seq<byte> := [0x20, (p.n + 32) as byte, p.typ, (p.hi + 32) as byte, (p.lo + 32) as byte];
            Header(p) == five + [BlockCheck(Sum(five))]
  {
    hide Sum, BlockCheck;
    HeaderOf([0x20, (p.n + 32) as byte, p.typ], (p.hi + 32) as byte, (p.lo + 32) as byte);
  }

  lemma HeaderOf(first: seq<byte>, hi: byte, lo: byte)
    requires |first| == 3
    ensures LongHeader(first, hi, lo) ==
            [first[0], first[1], first[2], hi, lo] + [BlockCheck(Sum([first[0], first[1], first[2], hi, lo]))]
  {
    hide Sum, BlockCheck;
    assert first + [hi, lo] == [first[0], first[1], first[2], hi, lo];
  }

  /** A packet from its bytes. */
  lemma FromBytes(p: Packet, h: seq<byte>, sum: nat, check: byte, t: seq<byte>)
    requires IsPacket(p) && !p.extended && h == [(|p.data| + 35) as byte, (p.n + 32) as byte, p.typ]
    requires sum == Sum(h + p.data) && check == ((sum + (sum / 64) % 4) % 64 + 32) as byte
    ensures Frame([0x01] + h + p.data + [check, 0x0D] + t) == Good(p.n, p.typ, p.data, t)
  {
    ShortPacketBytes(p);
    hide Frame, Encode, Sum;
    FrameEncoded(p, t);
  }

  lemma SumMore(a: byte, b: byte, c: byte, data: seq<byte>)
    ensures Sum([a, b, c] + data) == a + b + c + Sum(data)
  {
    SumConcat([a, b, c], data);
    SumThree(a, b, c);
  }

  /** ^C between packets ends the transfer at once and without a reply, whatever noise stands before it. */
  lemma {:induction false} CtrlCEnds(r: Receiver, prev: int, noise: seq<byte>, t: seq<byte>)
    requires forall i :: 0 <= i < |noise| ==> noise[i] != 0x01 && noise[i] != 0x03
    ensures Frame(noise + [0x03] + t) == Interrupted
    ensures Transfer(r, noise + [0x03] + t) == Aborted && Conversation(prev, noise + [0x03] + t) == []
  {
    var s := noise + [0x03] + t;
    if noise != [] {
      assert s[1..] == noise[1..] + [0x03] + t;
      CtrlCEnds(r, prev, noise[1..], t);
    }
  }

  /** No character of a good packet's data is below 0x20: a control character spoils the packet. */
  lemma {:induction false} DataIsPrintable(n: byte, typ: byte, length: int, sum: nat, data: seq<byte>, s: seq<byte>)
    requires forall i :: 0 <= i < |data| ==> data[i] >= 0x20
    requires FrameData(n, typ, length, sum, data, s).Good?
    ensures var d := FrameData(n, typ, length, sum, data, s).data;
      forall i :: 0 <= i < |d| ==> d[i] >= 0x20
    decreases |s|
  {
    if length > 1 {
      DataIsPrintable(n, typ, length - 1, sum + s[0], data + [s[0]], s[1..]);
    }
  }

  /** An end-of-transfer packet with number 1: mark, "#!B(" and carriage return. */
  lemma BreakPacketBytes(t: seq<byte>)
    ensures Frame([0x01] + [0x23, 0x21, 0x42] + [] + [0x28, 0x0D] + t) == Good(1, 0x42, [], t)
  {
    SumThree(0x23, 0x21, 0x42);
    assert [0x23, 0x21, 0x42] + [] == [0x23, 0x21, 0x42];
    FromBytes(Packet(1, 0x42, [], false, 0, 0), [0x23, 0x21, 0x42], 134, 0x28, t);
  }

  /** A send-initiate packet with number 0 that asks for '#' as its quote: ") S", "~* @-#" and "W". */
  lemma SendPacketBytes(t: seq<byte>)
    ensures Frame([0x01] + [0x29, 0x20, 0x53] + [0x7E, 0x2A, 0x20, 0x40, 0x2D, 0x23] + [0x57, 0x0D] + t)
         == Good(0, 0x53, [0x7E, 0x2A, 0x20, 0x40, 0x2D, 0x23], t)
  {
    var data: seq<byte> := [0x7E, 0x2A, 0x20, 0x40, 0x2D, 0x23];
    assert data == [0x7E, 0x2A, 0x20] + [0x40, 0x2D, 0x23];
    SumMore(0x7E, 0x2A, 0x20, [0x40, 0x2D, 0x23]);
    SumThree(0x40, 0x2D, 0x23);
    SumMore(0x29, 0x20, 0x53, data);
    FromBytes(Packet(0, 0x53, data, false, 0, 0), [0x29, 0x20, 0x53], 500, 0x57, t);
  }

  /** A data packet with number 2 and the data "#A": the bytes of "%", "2", "D", then "#A" and "R". */
  lemma DataPacketBytes(t: seq<byte>)
    ensures Frame([0x01] + [0x25, 0x22, 0x44] + [0x23, 0x41] + [0x52, 0x0D] + t) == Good(2, 0x44, [0x23, 0x41], t)
  {
    var data: seq<byte> := [0x23, 0x41];
    SumSnoc([], 0x23);
    SumSnoc([0x23], 0x41);
    assert [] + [0x23] == [0x23] && [0x23] + [0x41] == data;
    SumMore(0x25, 0x22, 0x44, data);
    FromBytes(Packet(2, 0x44, data, false, 0, 0), [0x25, 0x22, 0x44], 239, 0x52, t);
  }

  /** The three packets in a row: "#A" with the quote '#' is stored as the control character 0x01, and each packet
      is acknowledged. */
  lemma {:induction false} BytesStored()
    ensures var end := [0x01] + [0x23, 0x21, 0x42] + [] + [0x28, 0x0D] + [];
            var data := [0x01] + [0x25, 0x22, 0x44] + [0x23, 0x41] + [0x52, 0x0D] + end;
            var s := [0x01] + [0x29, 0x20, 0x53] + [0x7E, 0x2A, 0x20, 0x40, 0x2D, 0x23] + [0x57, 0x0D] + data;
            && Transfer(START_STATE, s).Done? && Transfer(START_STATE, s).r.current.stored == [0x01]
            && Conversation(0, s) == [Params(0), Ack(2), Ack(1)]
  {
    var end: seq<byte> := [0x01] + [0x23, 0x21, 0x42] + [] + [0x28, 0x0D] + [];
    var data: seq<byte> := [0x01] + [0x25, 0x22, 0x44] + [0x23, 0x41] + [0x52, 0x0D] + end;
    var s: seq<byte> := [0x01] + [0x29, 0x20, 0x53] + [0x7E, 0x2A, 0x20, 0x40, 0x2D, 0x23] + [0x57, 0x0D] + data;
    BreakPacketBytes([]);
    DataPacketBytes(end);
    SendPacketBytes(data);
    ThreePackets(s, data, end);
  }

  lemma {:induction false} ThreePackets(s: seq<byte>, data: seq<byte>, end: seq<byte>)
    requires Frame(s) == Good(0, 0x53, [0x7E, 0x2A, 0x20, 0x40, 0x2D, 0x23], data)
    requires Frame(data) == Good(2, 0x44, [0x23, 0x41], end) && Frame(end) == Good(1, 0x42, [], [])
    ensures Transfer(START_STATE, s).Done? && Transfer(START_STATE, s).r.current.stored == [0x01]
    ensures Conversation(0, s) == [Params(0), Ack(2), Ack(1)]
  {
    QuotedA();
    hide Frame, Feed;
    var none, one := DataState([], false), DataState([0x01], false);
    var r1, r2 := Receiver(none, none, 0, 0x23), Receiver(one, none, 2, 0x23);
    assert Transfer(START_STATE, s) == Transfer(r1, data);
    assert Transfer(r1, data) == Transfer(r2, end);
    assert Transfer(r2, end) == Done(Receiver(one, one, 1, 0x23), []);
    assert Conversation(2, end) == [Ack(1)] + [];
    assert Conversation(0, data) == [Ack(2)] + Conversation(2, end);
  }

  lemma QuotedA()
    ensures Feed(DataState([], false), 0x23, [0x23, 0x41]) == DataState([0x01], false)
  {
    var d := DataState([], false);
    assert [0x23, 0x41][..1] == [0x23] && [0x23][..0] == [];
    assert Feed(d, 0x23, [0x23][..0]) == d;
    assert Feed(d, 0x23, [0x23]) == DataState([], true);
    assert [] + [0x01] == [0x01];
  }

  // ----- attempts that are not harmless -----

  const DATA_PACKET := Packet(0, DATA_TYPE, [0x41], false, 0, 0)
  const END_PACKET := Packet(1, BREAK_TYPE, [], false, 0, 0)

  /** What becomes of a data packet, some more characters and the end of the transfer. */
  ghost function Ending(more: seq<byte>): Outcome {
    Transfer(START_STATE, Encode(DATA_PACKET) + (more + Encode(END_PACKET)))
  }

  /** An attempt that fails at its type character. */
  function ShortAttempt(n: byte): seq<byte> {
    [START_CHAR, ToChar(3), ToChar(n), 0x05]
  }

  lemma {:induction false} ShortAttemptFails(n: byte)
    requires n < 224
    ensures Frame(ShortAttempt(n)) == Failed(n, [])
  {
    var a := ShortAttempt(n);
    CharCodes(3);
    CharCodes(n);
    assert a[1..] == [a[1], a[2], a[3]] && a[1..][1..] == [a[2], a[3]] && a[1..][1..][1..] == [a[3]];
  }

  /** A first attempt at the last packet with a damaged length character: the byte received and acknowledged
      before is gone. */
  lemma {:induction false} DamagedHeaderLosesData()
    ensures var a := [START_CHAR, 0x05];
            Frame(a) == BadHeader([]) && Ending(a).Done? && Ending(a).r.current.stored == []
  {
    var a := [START_CHAR, 0x05];
    assert a[1..] == [0x05] && [0x05][1..] == [];
    hide Frame, Transfer, Feed;
    EndAfter(a);
  }

  /** One whose number arrives as that of the packet before: the byte is gone. */
  lemma {:induction false} OldNumberLosesData()
    ensures Frame(ShortAttempt(0)) == Failed(0, [])
    ensures Ending(ShortAttempt(0)).Done? && Ending(ShortAttempt(0)).r.current.stored == []
  {
    hide Frame, Transfer, Feed, ShortAttempt;
    ShortAttemptFails(0);
    EndAfter(ShortAttempt(0));
  }

  /** One whose number arrives as neither: nothing happens to the byte. */
  lemma {:induction false} OtherNumberIsHarmless()
    ensures Frame(ShortAttempt(5)) == Failed(5, [])
    ensures Ending(ShortAttempt(5)).Done? && Ending(ShortAttempt(5)).r.current.stored == [0x41]
  {
    hide Frame, Transfer, Feed, ShortAttempt;
    ShortAttemptFails(5);
    EndAfter(ShortAttempt(5));
  }

  /** The data packet sent again, as when its acknowledgement is lost, with such an attempt first: the byte is
      stored twice. */
  lemma {:induction false} OtherNumberDoublesData()
    ensures var again := ShortAttempt(5) + Encode(DATA_PACKET);
            Ending(again).Done? && Ending(again).r.current.stored == [0x41, 0x41]
  {
    hide Frame, Transfer, Feed, Encode, AreAttempts, Line, Doubled, GoesBack, ShortAttempt;
    var a, b, t := Encode(DATA_PACKET), ShortAttempt(5), Encode(END_PACKET);
    ShortAttemptFails(5);
    ThreeAttempts(a, b);
    assert a + (b + a + t) == Line([a, b, a]) + t;
    var r := StoredTwice([a, b, a], t);
    SentOnce(END_PACKET);
    NewNumber(r, t);
    EndArrives(r, [t]);
  }

  /** An encoded packet does not go back unless it has the old number. */
  lemma NewNumber(r: Receiver, t: seq<byte>)
    requires IsGoodAttempt(t, END_PACKET) && r.lastN == 0
    ensures r.lastN != END_PACKET.n && !GoesBack(t, r.lastN)
  {
  }

  lemma {:induction false} StoredTwice(attempts: seq<seq<byte>>, t: seq<byte>) returns (r: Receiver)
    requires AreAttempts(DATA_PACKET, attempts) && Doubled(DATA_PACKET, attempts) == [0x41] &&
             !GoesBack(attempts[0], -1)
    ensures r.lastN == 0 && r.current.stored == [0x41, 0x41]
    ensures Transfer(START_STATE, Line(attempts) + t) == Transfer(r, t)
  {
    hide Frame, Transfer, Feed, AreAttempts, Line, Doubled, GoesBack;
    AttemptsEnd(START_STATE, DATA_PACKET, attempts, t);
    FeedOne([], 0x41);
    FeedOne([0x41], 0x41);
    assert [] + [0x41] == [0x41] && [0x41] + [0x41] == [0x41, 0x41];
    r := Delivered(DataState([0x41], false), K_ESCAPE, DATA_PACKET);
  }

  lemma {:induction false} ThreeAttempts(a: seq<byte>, b: seq<byte>)
    requires a == Encode(DATA_PACKET) && Frame(b) == Failed(5, [])
    ensures AreAttempts(DATA_PACKET, [a, b, a]) && Doubled(DATA_PACKET, [a, b, a]) == [0x41]
    ensures Line([a, b, a]) == a + b + a && !GoesBack(a, -1)
  {
    hide Encode, Frame, Line;
    SentOnce(DATA_PACKET);
    var s := [a, b, a];
    assert s[1..] == [b, a] && s[1..][1..] == [a];
    assert Doubled(DATA_PACKET, s[1..]) == [] by {
      assert Doubled(DATA_PACKET, [a]) == [];
      assert !IsGoodAttempt(b, DATA_PACKET);
    }
    assert [0x41] + [] == [0x41];
    LineOfThree(a, b);
  }

  lemma LineOfThree(a: seq<byte>, b: seq<byte>)
    ensures Line([a, b, a]) == a + b + a
  {
    var s := [a, b, a];
    assert s[1..] == [b, a] && s[1..][1..] == [a];
    assert Line([a]) == a + Line([]) == a;
  }

  /** The last packet, perhaps after one failed attempt. */
  lemma {:induction false} EndAfter(a: seq<byte>)
    requires IsFailedAttempt(a)
    ensures Ending(a).Done?
    ensures Ending(a).r.current.stored == if GoesBack(a, 0) then [] else [0x41]
  {
    hide Frame, Transfer, Feed, Encode, IsFailedAttempt;
    var t := Encode(END_PACKET);
    FeedOne([], 0x41);
    assert [] + [0x41] == [0x41];
    AfterOnePacket(DATA_PACKET, a + t);
    SentOnce(END_PACKET);
    assert [a, t][1..] == [t];
    EndArrives(Receiver(DataState([0x41], false), DataState([], false), 0, K_ESCAPE), [a, t]);
  }

  lemma {:induction false} EndArrives(r: Receiver, attempts: seq<seq<byte>>)
    requires AreAttempts(END_PACKET, attempts) && r.lastN != END_PACKET.n
    ensures Transfer(r, Line(attempts)).Done?
    ensures Transfer(r, Line(attempts)).r.current == if GoesBack(attempts[0], r.lastN) then r.saved else r.current
  {
    hide Frame, Transfer, Feed, AreAttempts, Line;
    AttemptsEnd(r, END_PACKET, attempts, []);
    assert Line(attempts) + [] == Line(attempts);
    NothingDoubled(END_PACKET, attempts);
    NoFeed(r.saved, r.quote);
    NoFeed(r.current, r.quote);
  }

  /** A packet received at the first attempt. */
  lemma SentOnce(p: Packet)
    requires IsPacket(p)
    ensures IsGoodAttempt(Encode(p), p) && AreAttempts(p, [Encode(p)]) && Line([Encode(p)]) == Encode(p)
  {
    EncodedIsGood([], p);
    hide Encode, Frame;
    assert [] + Encode(p) == Encode(p);
    assert Line([Encode(p)]) == Encode(p) + Line([]) == Encode(p);
  }

  lemma {:induction false} AfterOnePacket(p: Packet, t: seq<byte>)
    requires IsPacket(p) && p.typ == DATA_TYPE
    ensures Transfer(START_STATE, Encode(p) + t)
         == Transfer(Receiver(Feed(DataState([], false), K_ESCAPE, p.data), DataState([], false), p.n, K_ESCAPE), t)
  {
    FrameEncoded(p, t);
  }

  lemma {:induction false} FeedOne(stored: seq<byte>, c: byte)
    requires c != K_ESCAPE
    ensures Feed(DataState(stored, false), K_ESCAPE, [c]) == DataState(stored + [c], false)
  {
    assert [c][..0] == [];
    assert Feed(DataState(stored, false), K_ESCAPE, [c][..0]) == DataState(stored, false);
  }
}
