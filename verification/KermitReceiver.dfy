/** k_recv of cmd_load.c as a machine over the characters on the line. */
module KermitProtocol {
  import opened ByteSums
  import opened CTypes
  import opened Kermit

  // ----- one packet on the line -----

  /** How one attempt to receive a packet ends; `rest` is what is left on the line. */
  datatype Framing =
    | Starved
    | Interrupted
    | BadHeader(rest: seq<byte>)
    | Failed(n: byte, rest: seq<byte>)
    | Good(n: byte, typ: byte, data: seq<byte>, rest: seq<byte>)

  ghost function Frame(s: seq<byte>): Framing {
    if s == [] then Starved
    else if s[0] == START_CHAR then FrameLength(s[1..])
    else if s[0] == ETX_CHAR then Interrupted
    else Frame(s[1..])
  }

  ghost function FrameLength(s: seq<byte>): Framing {
    if s == [] then Starved
    else if IsControl(s[0]) then BadHeader(s[1..])
    else FrameSeq(UnChar(s[0]), s[0], s[1..])
  }

  ghost function FrameSeq(length: int, sum: nat, s: seq<byte>): Framing {
    if s == [] then Starved
    else if IsControl(s[0]) then BadHeader(s[1..])
    else FrameType(UnChar(s[0]), length - 1, sum + s[0], s[1..])
  }

  ghost function FrameType(n: byte, length: int, sum: nat, s: seq<byte>): Framing {
    if s == [] then Starved
    else if IsControl(s[0]) then Failed(n, s[1..])
    else if length - 1 == -2 then FrameLong(n, s[0], sum + s[0], s[1..])
    else FrameData(n, s[0], length - 1, sum + s[0], [], s[1..])
  }

  /** An extended length: two characters and a check of the header. */
  ghost function FrameLong(n: byte, typ: byte, sum: nat, s: seq<byte>): Framing {
    if s == [] then Starved
    else if IsControl(s[0]) then Failed(n, s[1..])
    else if |s| == 1 then Starved
    else if IsControl(s[1]) then Failed(n, s[2..])
    else if |s| == 2 then Starved
    else if IsControl(s[2]) || s[2] != BlockCheck(sum + s[0] + s[1]) then Failed(n, s[3..])
    else FrameData(n, typ, UnChar(s[0]) * 95 + UnChar(s[1]), sum + s[0] + s[1] + s[2], [], s[3..])
  }

  ghost function FrameData(n: byte, typ: byte, length: int, sum: nat, data: seq<byte>, s: seq<byte>): Framing
    decreases |s|
  {
    if length <= 1 then FrameCheck(n, typ, sum, data, s)
    else if s == [] then Starved
    else if IsControl(s[0]) then Failed(n, s[1..])
    else FrameData(n, typ, length - 1, sum + s[0], data + [s[0]], s[1..])
  }

  ghost function FrameCheck(n: byte, typ: byte, sum: nat, data: seq<byte>, s: seq<byte>): Framing {
    if s == [] then Starved
    else if IsControl(s[0]) || s[0] != BlockCheck(sum) then Failed(n, s[1..])
    else if |s| == 1 then Starved
    else if s[1] != END_CHAR then Failed(n, s[2..])
    else Good(n, typ, data, s[2..])
  }

  // ----- the receiver between packets -----

  /** `current` and `saved` are the data machine and its checkpoint; `lastN` is -1 before the first packet. */
  datatype Receiver = Receiver(current: DataState, saved: DataState, lastN: int, quote: byte)

  const START_STATE := Receiver(DataState([], false), DataState([], false), -1, K_ESCAPE)

  /** Same number: go back to the checkpoint. New number: take a new one. */
  function Checkpoint(r: Receiver, n: byte): Receiver {
    if n == r.lastN then r.(current := r.saved) else r.(lastN := n, saved := r.current)
  }

  /** The quote a send-initiate packet asks for. The receiver's buffer keeps at most 18 parameters. */
  function QuoteOf(data: seq<byte>): byte {
    if |data| >= 6 then data[5] else K_ESCAPE
  }

  ghost function Deliver(r: Receiver, typ: byte, data: seq<byte>): Receiver {
    if typ == DATA_TYPE then r.(current := Feed(r.current, r.quote, data))
    else if typ == SEND_TYPE then r.(quote := QuoteOf(data))
    else r
  }

  ghost function Step(r: Receiver, f: Framing): Receiver
    requires f.BadHeader? || f.Failed? || f.Good?
  {
    match f
    case BadHeader(_) => r.(current := r.saved)
    case Failed(n, _) => var c := Checkpoint(r, n); c.(current := c.saved)
    case Good(n, typ, data, _) => Deliver(Checkpoint(r, n), typ, data)
  }

  /** The replies, by kind and number; their characters are not modelled. */
  datatype Reply = Ack(n: int) | Nack(n: int) | Params(n: int)

  /** The reply to an attempt: positive exactly if it is good. `prev` is the number read last. */
  ghost function AnswerTo(prev: int, f: Framing): seq<Reply> {
    match f
    case BadHeader(_) => [Nack(prev)]
    case Failed(n, _) => [Nack(n)]
    case Good(n, typ, _, _) => [if typ == 0x53 then Params(n) else Ack(n)]
    case _ => []
  }

  lemma {:induction false} FrameConsumes(s: seq<byte>)
    ensures var f := Frame(s); f.BadHeader? || f.Failed? || f.Good? ==> |f.rest| < |s|
  {
    if s != [] && s[0] == START_CHAR {
      var h := s[1..];
      if |h| >= 2 && !IsControl(h[0]) && !IsControl(h[1]) {
        var sum: nat := h[0];
        TypeConsumes(UnChar(h[1]), UnChar(h[0]) - 1, sum + h[1], h[1..][1..]);
      }
    } else if s != [] {
      FrameConsumes(s[1..]);
    }
  }

  lemma TypeConsumes(n: byte, length: int, sum: nat, s: seq<byte>)
    ensures var f := FrameType(n, length, sum, s); f.BadHeader? || f.Failed? || f.Good? ==> |f.rest| <= |s|
  {
    if s != [] && !IsControl(s[0]) {
      if length - 1 == -2 {
        var t := s[1..];
        if |t| >= 3 {
          DataConsumes(n, s[0], UnChar(t[0]) * 95 + UnChar(t[1]), sum + s[0] + t[0] + t[1] + t[2], [], t[3..]);
        }
      } else {
        DataConsumes(n, s[0], length - 1, sum + s[0], [], s[1..]);
      }
    }
  }

  lemma {:induction false} DataConsumes(n: byte, typ: byte, length: int, sum: nat, data: seq<byte>, s: seq<byte>)
    ensures var f := FrameData(n, typ, length, sum, data, s);
      (f.BadHeader? || f.Failed? || f.Good? ==> |f.rest| <= |s|)
    decreases |s|
  {
    if length > 1 && s != [] && !IsControl(s[0]) {
      DataConsumes(n, typ, length - 1, sum + s[0], data + [s[0]], s[1..]);
    }
  }

  /** After the sequence character a packet can only fail or succeed under its own number. */
  lemma TypeKeepsNumber(n: byte, length: int, sum: nat, s: seq<byte>)
    ensures var f := FrameType(n, length, sum, s);
      f.Starved? || ((f.Failed? || f.Good?) && f.n == n)
  {
    if s != [] && !IsControl(s[0]) {
      if length - 1 == -2 {
        var t := s[1..];
        if |t| >= 3 {
          DataKeepsNumber(n, s[0], UnChar(t[0]) * 95 + UnChar(t[1]), sum + s[0] + t[0] + t[1] + t[2], [], t[3..]);
        }
      } else {
        DataKeepsNumber(n, s[0], length - 1, sum + s[0], [], s[1..]);
      }
    }
  }

  lemma {:induction false} DataKeepsNumber(n: byte, typ: byte, length: int, sum: nat, data: seq<byte>, s: seq<byte>)
    ensures var f := FrameData(n, typ, length, sum, data, s);
      f.Starved? || ((f.Failed? || f.Good?) && f.n == n)
    decreases |s|
  {
    if length > 1 && s != [] && !IsControl(s[0]) {
      DataKeepsNumber(n, typ, length - 1, sum + s[0], data + [s[0]], s[1..]);
    }
  }

  // ----- a whole transfer -----

  datatype Outcome =
    | Waiting(r: Receiver)
    | Aborted
    | Done(r: Receiver, rest: seq<byte>)

  ghost function Transfer(r: Receiver, s: seq<byte>): Outcome
    decreases |s|
  {
    FrameConsumes(s);
    match Frame(s)
    case Starved => Waiting(r)
    case Interrupted => Aborted
    case BadHeader(rest) => Transfer(Step(r, Frame(s)), rest)
    case Failed(_, rest) => Transfer(Step(r, Frame(s)), rest)
    case Good(_, typ, _, rest) =>
      if typ == BREAK_TYPE then Done(Step(r, Frame(s)), rest) else Transfer(Step(r, Frame(s)), rest)
  }

  /** All replies of a transfer: one to each attempt, until the good end of the transfer. */
  ghost function Conversation(prev: int, s: seq<byte>): seq<Reply>
    decreases |s|
  {
    FrameConsumes(s);
    var f := Frame(s);
    match f
    case BadHeader(rest) => AnswerTo(prev, f) + Conversation(prev, rest)
    case Failed(n, rest) => AnswerTo(prev, f) + Conversation(n, rest)
    case Good(n, typ, _, rest) => AnswerTo(prev, f) + if typ == 0x42 then [] else Conversation(n, rest)
    case _ => []
  }

  // ----- what the sender puts on the line -----

  /** A packet; an extended one carries its length in two characters. */
  datatype Packet = Packet(n: byte, typ: byte, data: seq<byte>, extended: bool, hi: byte, lo: byte)

  ghost predicate IsPacket(p: Packet) {
    && p.n < 224
    && !IsControl(p.typ)
    && (forall i :: 0 <= i < |p.data| ==> !IsControl(p.data[i]))
    && (if p.extended then p.hi < 224 && p.lo < 224 && p.hi * 95 + p.lo == |p.data| + 1 else |p.data| + 3 < 224)
  }

  ghost function LongHeader(first: seq<byte>, hi: byte, lo: byte): seq<byte> {
    first + [hi, lo, BlockCheck(Sum(first + [hi, lo]))]
  }

  ghost function Header(p: Packet): seq<byte>
    requires IsPacket(p)
  {
    if p.extended then LongHeader([ToChar(0), ToChar(p.n), p.typ], ToChar(p.hi), ToChar(p.lo))
    else [ToChar(|p.data| + 3), ToChar(p.n), p.typ]
  }

  /** Mark, length, number, type, data, block check and end of line. */
  ghost function Encode(p: Packet): seq<byte>
    requires IsPacket(p)
  {
    [START_CHAR] + Header(p) + p.data + [BlockCheck(Sum(Header(p) + p.data)), END_CHAR]
  }

  lemma {:induction false} FrameDataEncoded(n: byte, typ: byte, sum: nat, done: seq<byte>, data: seq<byte>,
                                            t: seq<byte>)
    requires forall i :: 0 <= i < |data| ==> !IsControl(data[i])
    ensures FrameData(n, typ, |data| + 1, sum, done, data + ([BlockCheck(sum + Sum(data)), END_CHAR] + t))
         == Good(n, typ, done + data, t)
    decreases |data|
  {
    var check := [BlockCheck(sum + Sum(data)), END_CHAR] + t;
    var s := data + check;
    if data == [] {
      assert s == check && check[2..] == t;
      assert done + data == done;
    } else {
      SumFirst(data);
      assert s[1..] == data[1..] + check;
      FrameDataEncoded(n, typ, sum + data[0], done + [data[0]], data[1..], t);
      assert done + [data[0]] + data[1..] == done + data;
    }
  }

  lemma {:induction false} FrameStart(s: seq<byte>)
    ensures Frame([START_CHAR] + s) == FrameLength(s)
  {
    assert ([START_CHAR] + s)[1..] == s;
  }

  lemma EncodeSplit(h: seq<byte>, data: seq<byte>, check: seq<byte>, t: seq<byte>)
    ensures [START_CHAR] + h + data + check + t == [START_CHAR] + (h + (data + (check + t)))
  {
  }

  /** The receiver frames an encoded packet as that packet. */
  lemma {:induction false} FrameEncoded(p: Packet, t: seq<byte>)
    requires IsPacket(p)
    ensures Frame(Encode(p) + t) == Good(p.n, p.typ, p.data, t)
  {
    hide BlockCheck, Header, Frame, FrameLength, FrameData, Sum, ToChar;
    var h := Header(p);
    var check := [BlockCheck(Sum(h) + Sum(p.data)), END_CHAR];
    var tail := p.data + (check + t);
    SumConcat(h, p.data);
    EncodeSplit(h, p.data, check, t);
    FrameStart(h + tail);
    if p.extended {
      FrameLongHeader(p, h, tail);
    } else {
      FrameShortHeader(p, h, tail);
    }
    FrameDataEncoded(p.n, p.typ, Sum(h), [], p.data, t);
    assert [] + p.data == p.data;
  }

  lemma {:induction false} SumThree(a: byte, b: byte, c: byte)
    ensures Sum([a, b, c]) == a + b + c
  {
    assert [a, b, c] == [] + [a] + [b] + [c];
    SumSnoc([], a);
    SumSnoc([] + [a], b);
    SumSnoc([] + [a] + [b], c);
  }

  lemma CharCodes(x: nat)
    requires x < 224
    ensures !IsControl(ToChar(x)) && UnChar(ToChar(x)) == x
  {
  }

  lemma CheckIsPrintable(sum: nat)
    ensures !IsControl(BlockCheck(sum))
  {
  }

  // Reading one more character of the header.

  lemma {:induction false} ReadLength(c: byte, s: seq<byte>)
    requires !IsControl(c)
    ensures FrameLength([c] + s) == FrameSeq(UnChar(c), c, s)
  {
    assert ([c] + s)[1..] == s;
  }

  lemma {:induction false} ReadSeq(length: int, sum: nat, c: byte, s: seq<byte>)
    requires !IsControl(c)
    ensures FrameSeq(length, sum, [c] + s) == FrameType(UnChar(c), length - 1, sum + c, s)
  {
    assert ([c] + s)[1..] == s;
  }

  lemma {:induction false} ReadType(n: byte, length: int, sum: nat, c: byte, s: seq<byte>)
    requires !IsControl(c)
    ensures FrameType(n, length, sum, [c] + s) ==
              if length == -1 then FrameLong(n, c, sum + c, s) else FrameData(n, c, length - 1, sum + c, [], s)
  {
    assert ([c] + s)[1..] == s;
  }

  lemma {:induction false} ReadLong(n: byte, typ: byte, sum: nat, a: byte, b: byte, c: byte, s: seq<byte>)
    requires !IsControl(a) && !IsControl(b) && !IsControl(c) && c == BlockCheck(sum + a + b)
    ensures FrameLong(n, typ, sum, [a, b, c] + s)
         == FrameData(n, typ, UnChar(a) * 95 + UnChar(b), sum + a + b + c, [], s)
  {
    assert ([a, b, c] + s)[3..] == s;
  }

  lemma {:induction false} ReadThree(a: byte, b: byte, c: byte, s: seq<byte>)
    requires !IsControl(a) && !IsControl(b) && !IsControl(c)
    ensures FrameLength([a, b, c] + s) ==
              if UnChar(a) == 0 then FrameLong(UnChar(b), c, Sum([a, b, c]), s)
              else FrameData(UnChar(b), c, UnChar(a) - 2, Sum([a, b, c]), [], s)
  {
    SumThree(a, b, c);
    assert [a, b, c] + s == [a] + ([b] + ([c] + s));
    ReadLength(a, [b] + ([c] + s));
    ReadSeq(UnChar(a), a, b, [c] + s);
    var sum: nat := a;
    ReadType(UnChar(b), UnChar(a) - 1, sum + b, c, s);
  }

  lemma {:induction false} FrameShortHeader(p: Packet, h: seq<byte>, tail: seq<byte>)
    requires IsPacket(p) && !p.extended && h == Header(p)
    ensures FrameLength(h + tail) == FrameData(p.n, p.typ, |p.data| + 1, Sum(h), [], tail)
  {
    CharCodes(|p.data| + 3);
    CharCodes(p.n);
    ReadThree(ToChar(|p.data| + 3), ToChar(p.n), p.typ, tail);
  }

  lemma {:induction false} SumTwoMore(s: seq<byte>, a: byte, b: byte)
    ensures Sum(s + [a, b]) == Sum(s) + a + b
  {
    SumSnoc(s, a);
    SumSnoc(s + [a], b);
    assert s + [a] + [b] == s + [a, b];
  }

  lemma {:induction false} LongHeaderSum(first: seq<byte>, a: byte, b: byte, c: byte)
    requires c == BlockCheck(Sum(first + [a, b]))
    ensures c == BlockCheck(Sum(first) + a + b)
    ensures Sum(LongHeader(first, a, b)) == Sum(first) + a + b + c
  {
    SumTwoMore(first, a, b);
    SumSnoc(first + [a, b], c);
    assert LongHeader(first, a, b) == first + [a, b] + [c];
  }

  lemma {:induction false} ReadLongHeader(l: byte, n: byte, typ: byte, a: byte, b: byte, c: byte, tail: seq<byte>)
    requires UnChar(l) == 0 && !IsControl(l) && !IsControl(n) && !IsControl(typ) && !IsControl(a) && !IsControl(b)
    requires c == BlockCheck(Sum([l, n, typ] + [a, b]))
    ensures FrameLength([l, n, typ] + ([a, b, c] + tail))
         == FrameData(UnChar(n), typ, UnChar(a) * 95 + UnChar(b), Sum(LongHeader([l, n, typ], a, b)), [], tail)
  {
    LongHeaderSum([l, n, typ], a, b, c);
    CheckIsPrintable(Sum([l, n, typ] + [a, b]));
    ReadThree(l, n, typ, [a, b, c] + tail);
    ReadLong(UnChar(n), typ, Sum([l, n, typ]), a, b, c, tail);
  }

  lemma {:induction false} FrameLongHeader(p: Packet, h: seq<byte>, tail: seq<byte>)
    requires IsPacket(p) && p.extended && h == Header(p)
    ensures FrameLength(h + tail) == FrameData(p.n, p.typ, |p.data| + 1, Sum(h), [], tail)
  {
    var l, n, a, b := ToChar(0), ToChar(p.n), ToChar(p.hi), ToChar(p.lo);
    var c := BlockCheck(Sum([l, n, p.typ] + [a, b]));
    CharCodes(0);
    CharCodes(p.n);
    CharCodes(p.hi);
    CharCodes(p.lo);
    assert h + tail == [l, n, p.typ] + ([a, b, c] + tail);
    ReadLongHeader(l, n, p.typ, a, b, c, tail);
  }
}
