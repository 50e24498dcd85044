/** k_recv of cmd_load.c over real memory: every data character is written at once, errors only move
    the write address back. */
module KermitMemory {
  import opened CTypes
  import opened Kermit
  import opened KermitProtocol
  import opened KermitTransfer

  const SEND_DATA_SIZE := 20

  /** How reading a packet ends: the line is silent, ^C, a negative or a positive reply. */
  datatype Status = Silent | Stopped | Refused | Accepted(typ: byte)

  class MemoryReceiver {
    const mem: array<byte>
    const start: nat
    const input: seq<byte>
    const sendParms: array<byte>
    var pos: nat
    var addr: nat
    var addrSaved: nat
    var escape: bool
    var escapeSaved: bool
    var lastN: int
    var hisQuote: byte
    var sendPtr: nat
    var replies: seq<Reply>

    ghost predicate Valid()
      reads this
    {
      && mem != sendParms
      && sendParms.Length == SEND_DATA_SIZE
      && start + |input| <= mem.Length
      && addrSaved <= addr <= pos <= |input|
    }

    ghost function Abs(): Receiver
      requires Valid()
      reads this, mem
    {
      Receiver(DataState(mem[start..start + addr], escape),
               DataState(mem[start..start + addrSaved], escapeSaved), lastN, hisQuote)
    }

    /** The characters not yet read. */
    ghost function Rest(): seq<byte>
      requires Valid()
      reads this
    {
      input[pos..]
    }

    constructor (mem: array<byte>, start: nat, input: seq<byte>)
      requires start + |input| <= mem.Length
      ensures Valid() && Abs() == START_STATE && Rest() == input
      ensures this.mem == mem && this.start == start && this.input == input && fresh(sendParms)
    {
      this.mem, this.start, this.input := mem, start, input;
      sendParms := new byte[SEND_DATA_SIZE](_ => 0);
      pos, addr, addrSaved, escape, escapeSaved := 0, 0, 0, false, false;
      lastN, hisQuote, sendPtr, replies := -1, K_ESCAPE, 0, [];
    }

    /** k_data_save */
    method Save()
      requires Valid()
      modifies this`addrSaved, this`escapeSaved
      ensures Valid()
      ensures Abs() == old(Abs()).(saved := old(Abs()).current)
    {
      addrSaved, escapeSaved := addr, escape;
    }

    /** k_data_restore */
    method Restore()
      requires Valid()
      modifies this`addr, this`escape
      ensures Valid()
      ensures Abs() == old(Abs()).(current := old(Abs()).saved)
    {
      addr, escape := addrSaved, escapeSaved;
    }

    /** k_data_char for a character just read, with bin_data_char writing straight into memory. */
    method DataChar(c: byte)
      requires Valid() && addr < pos
      modifies this`addr, this`escape, mem
      ensures Valid()
      ensures Abs() == old(Abs()).(current := FeedChar(old(Abs()).current, hisQuote, c))
      ensures addr <= old(addr) + 1
    {
      if escape {
        StoreChar(KTrans(c));
        escape := false;
      } else if c == hisQuote {
        escape := true;
      } else {
        StoreChar(c);
      }
    }

    /** bin_data_char */
    method StoreChar(c: byte)
      requires Valid() && addr < pos
      modifies this`addr, mem
      ensures Valid() && addr == old(addr) + 1
      ensures mem[start..start + addr] == old(mem[start..start + addr]) + [c]
      ensures mem[start..start + addrSaved] == old(mem[start..start + addrSaved])
    {
      mem[start + addr] := c;
      addr := addr + 1;
    }

    /** getc; on a silent line the original waits for ever. */
    method GetC() returns (ok: bool, c: byte)
      requires Valid()
      modifies this`pos
      ensures Valid() && Abs() == old(Abs())
      ensures ok <==> old(Rest()) != []
      ensures ok ==> c == old(Rest())[0] && Rest() == old(Rest())[1..] && addr < pos
      ensures !ok ==> Rest() == []
    {
      if pos == |input| {
        return false, 0;
      }
      ok, c := true, input[pos];
      pos := pos + 1;
    }

    /** The error exit: go back to the checkpoint and send a negative reply. */
    method PacketError(n: int) returns (st: Status)
      requires Valid()
      modifies this`addr, this`escape, this`replies
      ensures Valid() && st == Refused
      ensures Abs() == old(Abs()).(current := old(Abs()).saved)
      ensures Rest() == old(Rest()) && replies == old(replies) + [Nack(n)]
    {
      Restore();
      replies := replies + [Nack(n)];
      st := Refused;
    }

    /** Buffer one parameter of a send-initiate packet, backing off when the buffer is full. */
    method BufferParm(c: byte, ghost data: seq<byte>)
      requires Valid() && Buffered(data)
      modifies this`sendPtr, sendParms
      ensures Buffered(data + [c])
    {
      sendParms[sendPtr] := c;
      sendPtr := sendPtr + 1;
      if sendPtr >= SEND_DATA_SIZE {
        sendPtr := sendPtr - 1;
      }
    }

    ghost predicate Buffered(data: seq<byte>)
      reads this, sendParms
    {
      && sendParms.Length == SEND_DATA_SIZE
      && sendPtr == (if |data| < SEND_DATA_SIZE - 1 then |data| else SEND_DATA_SIZE - 1)
      && forall i :: 0 <= i < sendPtr ==> sendParms[i] == data[i]
    }

    /** The part of handle_send_packet that reads the quote character. */
    method HandleSendPacket(n: int, ghost data: seq<byte>)
      requires Valid() && Buffered(data)
      modifies this`hisQuote, this`sendPtr, this`replies
      ensures Valid()
      ensures Abs() == old(Abs()).(quote := QuoteOf(data))
      ensures Rest() == old(Rest()) && replies == old(replies) + [Params(n)]
    {
      hisQuote := K_ESCAPE;
      if sendPtr == SEND_DATA_SIZE - 1 {
        sendPtr := sendPtr - 1;
      }
      var bytes := sendPtr;
      if bytes >= 6 {
        hisQuote := sendParms[5];
      }
      replies := replies + [Params(n)];
    }

    /** What a stage of the packet reader promises when the rest of the packet frames as `f` and the
        data machine was checkpointed as `c`. */
    ghost predicate Reached(st: Status, f: Framing, c: Receiver)
      requires Valid()
      reads this, mem
    {
      match f
      case Starved => st == Silent
      case Interrupted => st == Stopped
      case BadHeader(rest) => st == Refused && Rest() == rest && Abs() == c.(current := c.saved)
      case Failed(_, rest) => st == Refused && Rest() == rest && Abs() == c.(current := c.saved)
      case Good(_, typ, data, rest) => st == Accepted(typ) && Rest() == rest && Abs() == Deliver(c, typ, data)
    }

    /** The data machine after `data` of a packet of type `typ` has been passed on. */
    ghost function Passed(c: Receiver, typ: byte, data: seq<byte>): Receiver {
      if typ == DATA_TYPE then c.(current := Feed(c.current, c.quote, data)) else c
    }

    /** The block check, the end of line and the reply. */
    method ReadCheck(n: byte, typ: byte, sum: nat, ghost data: seq<byte>, ghost c: Receiver, ghost f: Framing)
        returns (st: Status)
      requires Valid() && Buffered(if typ == SEND_TYPE then data else [])
      requires Abs() == Passed(c, typ, data) && f == FrameCheck(n, typ, sum, data, Rest())
      modifies this`pos, this`addr, this`escape, this`hisQuote, this`sendPtr, this`replies
      ensures Valid() && Reached(st, f, c)
      ensures replies == old(replies) + AnswerTo(n, f)
    {
      hide Feed, BlockCheck;
      var ok, ch := GetC();
      if !ok {
        return Silent;
      }
      if IsControl(ch) || ch != BlockCheck(sum) {
        st := PacketError(n);
        return;
      }
      ok, ch := GetC();
      if !ok {
        return Silent;
      }
      if ch != END_CHAR {
        st := PacketError(n);
      } else {
        st := Accept(n, typ, data);
      }
    }

    /** The positive reply. */
    method Accept(n: byte, typ: byte, ghost data: seq<byte>) returns (st: Status)
      requires Valid() && Buffered(if typ == SEND_TYPE then data else [])
      modifies this`hisQuote, this`sendPtr, this`replies
      ensures Valid() && st == Accepted(typ) && Rest() == old(Rest())
      ensures Abs() == if typ == SEND_TYPE then old(Abs()).(quote := QuoteOf(data)) else old(Abs())
      ensures replies == old(replies) + [if typ == 0x53 then Params(n) else Ack(n)]
    {
      if typ == SEND_TYPE {
        HandleSendPacket(n, data);
      } else {
        replies := replies + [Ack(n)];
      }
      st := Accepted(typ);
    }

    /** One data character goes to the data machine or the parameter buffer. */
    method PassOn(typ: byte, ch: byte, ghost data: seq<byte>, ghost c: Receiver)
      requires Valid() && addr < pos && Abs() == Passed(c, typ, data)
      requires Buffered(if typ == SEND_TYPE then data else [])
      modifies this`addr, this`escape, this`sendPtr, mem, sendParms
      ensures Valid() && Abs() == Passed(c, typ, data + [ch])
      ensures Buffered(if typ == SEND_TYPE then data + [ch] else [])
      ensures Rest() == old(Rest())
    {
      assert (data + [ch])[..|data|] == data;
      if typ == DATA_TYPE {
        DataChar(ch);
      } else if typ == SEND_TYPE {
        BufferParm(ch, data);
      }
    }

    /** One turn of the data loop; `stop` when the packet ends here. */
    method ReadOne(n: byte, typ: byte, length: int, sum: nat, ghost data: seq<byte>, ghost c: Receiver,
                   ghost f: Framing)
      returns (stop: bool, st: Status, ch: byte)
      requires Valid() && length > 1 && Abs() == Passed(c, typ, data)
      requires Buffered(if typ == SEND_TYPE then data else [])
      requires f == FrameData(n, typ, length, sum, data, Rest())
      modifies this, mem, sendParms
      ensures Valid()
      ensures stop ==> Reached(st, f, c) && replies == old(replies) + AnswerTo(n, f)
      ensures !stop ==> replies == old(replies)
      ensures !stop ==> Abs() == Passed(c, typ, data + [ch]) && |Rest()| < |old(Rest())|
      ensures !stop ==> Buffered(if typ == SEND_TYPE then data + [ch] else [])
      ensures !stop ==> f == FrameData(n, typ, length - 1, sum + ch, data + [ch], Rest())
    {
      var ok;
      ok, ch := GetC();
      if !ok {
        return true, Silent, ch;
      }
      if IsControl(ch) {
        st := PacketError(n);
        return true, st, ch;
      }
      PassOn(typ, ch, data, c);
      stop, st := false, Silent;
    }

    /** The loop over the data characters. */
    method ReadData(n: byte, typ: byte, length0: int, sum0: nat, ghost c: Receiver, ghost f: Framing)
        returns (st: Status)
      requires Valid() && Buffered([]) && Abs() == c
      requires f == FrameData(n, typ, length0, sum0, [], Rest())
      modifies this, mem, sendParms
      ensures Valid() && Reached(st, f, c)
      ensures replies == old(replies) + AnswerTo(n, f)
    {
      var length := length0;
      var sum: nat := sum0;
      ghost var data: seq<byte> := [];
      while length > 1
        invariant Valid() && Buffered(if typ == SEND_TYPE then data else [])
        invariant Abs() == Passed(c, typ, data) && replies == old(replies)
        invariant f == FrameData(n, typ, length, sum, data, Rest())
        decreases |Rest()|
      {
        var stop, ch;
        stop, st, ch := ReadOne(n, typ, length, sum, data, c, f);
        if stop {
          return;
        }
        sum := sum + ch;
        length := length - 1;
        data := data + [ch];
      }
      st := ReadCheck(n, typ, sum, data, c, f);
    }

    /** The check of a header with an extended length. */
    method ReadHeaderCheck(n: byte, typ: byte, sum: nat, length: nat, ghost c: Receiver, ghost f: Framing)
        returns (st: Status)
      requires Valid() && Buffered([]) && Abs() == c
      requires f == (if Rest() == [] then Starved
                     else if IsControl(Rest()[0]) || Rest()[0] != BlockCheck(sum) then Failed(n, Rest()[1..])
                     else FrameData(n, typ, length, sum + Rest()[0], [], Rest()[1..]))
      modifies this, mem, sendParms
      ensures Valid() && Reached(st, f, c)
      ensures replies == old(replies) + AnswerTo(n, f)
    {
      var ok, check := GetC();
      if !ok {
        return Silent;
      }
      if IsControl(check) || check != BlockCheck(sum) {
        st := PacketError(n);
        return;
      }
      st := ReadData(n, typ, length, sum + check, c, f);
    }

    /** The two characters of an extended length. */
    method ReadLong(n: byte, typ: byte, sum: nat, ghost c: Receiver, ghost f: Framing) returns (st: Status)
      requires Valid() && Buffered([]) && Abs() == c
      requires f == FrameLong(n, typ, sum, Rest())
      modifies this, mem, sendParms
      ensures Valid() && Reached(st, f, c)
      ensures replies == old(replies) + AnswerTo(n, f)
    {
      hide BlockCheck, FrameData, Feed;
      ghost var s := Rest();
      var ok, hi := GetC();
      if !ok {
        return Silent;
      }
      if IsControl(hi) {
        st := PacketError(n);
        return;
      }
      var lo;
      ok, lo := GetC();
      if !ok {
        return Silent;
      }
      assert Rest() == s[2..];
      if IsControl(lo) {
        st := PacketError(n);
        return;
      }
      assert |s| > 2 ==> s[3..] == s[2..][1..] && s[2] == s[2..][0];
      st := ReadHeaderCheck(n, typ, sum + hi + lo, UnChar(hi) * 95 + UnChar(lo), c, f);
    }

    /** The type character, after the sequence number has been acted on. */
    method ReadType(n: byte, length: int, sum: nat, ghost c: Receiver, ghost f: Framing) returns (st: Status)
      requires Valid() && Buffered([]) && Abs() == c
      requires f == FrameType(n, length, sum, Rest())
      modifies this, mem, sendParms
      ensures Valid() && Reached(st, f, c)
      ensures replies == old(replies) + AnswerTo(n, f)
    {
      hide FrameLong, FrameData, Feed, BlockCheck;
      var ok, typ := GetC();
      if !ok {
        return Silent;
      }
      if IsControl(typ) {
        st := PacketError(n);
      } else if length - 1 == -2 {
        st := ReadLong(n, typ, sum + typ, c, f);
      } else {
        st := ReadData(n, typ, length - 1, sum + typ, c, f);
      }
    }

    /** Act on the sequence number: repeat from the checkpoint or take a new one. */
    method NewNumber(n: byte)
      requires Valid()
      modifies this`addr, this`escape, this`addrSaved, this`escapeSaved, this`lastN
      ensures Valid() && Rest() == old(Rest()) && lastN == n
      ensures Abs() == Checkpoint(old(Abs()), n)
    {
      if n == lastN {
        Restore();
      } else {
        lastN := n;
        Save();
      }
    }

    /** The length and sequence characters. `r` is the receiver before this packet. */
    method ReadHeader(ghost r: Receiver, ghost f: Framing) returns (st: Status)
      requires Valid() && Buffered([]) && Abs() == r
      requires f == FrameLength(Rest())
      modifies this, mem, sendParms
      ensures Valid() && Progress(st, f, r)
      ensures replies == old(replies) + AnswerTo(old(LastRead()), f)
    {
      var prev := if lastN < 0 then 0 else lastN;
      var ok, len := GetC();
      if !ok {
        return Silent;
      }
      if IsControl(len) {
        st := PacketError(prev);
        return;
      }
      var ch;
      ok, ch := GetC();
      if !ok {
        return Silent;
      }
      if IsControl(ch) {
        st := PacketError(prev);
        return;
      }
      var sum: nat := len;
      st := ReadNumbered(UnChar(ch), UnChar(len) - 1, sum + ch, r, f);
    }

    /** The rest of a packet whose number is `n`. */
    method ReadNumbered(n: byte, length: int, sum: nat, ghost r: Receiver, ghost f: Framing) returns (st: Status)
      requires Valid() && Buffered([]) && Abs() == r
      requires f == FrameType(n, length, sum, Rest())
      modifies this, mem, sendParms
      ensures Valid() && Progress(st, f, r)
      ensures replies == old(replies) + AnswerTo(n, f) && (f.Starved? || f.Failed? || f.Good?)
    {
      NewNumber(n);
      TypeKeepsNumber(n, length, sum, Rest());
      st := ReadType(n, length, sum, Checkpoint(r, n), f);
    }

    /** One packet from the state `r`: either no packet, or the step of the packet machine. */
    ghost predicate Progress(st: Status, f: Framing, r: Receiver)
      requires Valid()
      reads this, mem
    {
      match f
      case Starved => st == Silent
      case Interrupted => st == Stopped
      case BadHeader(rest) => st == Refused && Rest() == rest && Abs() == Step(r, f)
      case Failed(_, rest) => st == Refused && Rest() == rest && Abs() == Step(r, f)
      case Good(_, typ, data, rest) => st == Accepted(typ) && Rest() == rest && Abs() == Step(r, f)
    }

    /** The number in a negative reply to an attempt whose own number is not read. */
    ghost function LastRead(): int
      reads this
    {
      if lastN < 0 then 0 else lastN
    }

    /** One turn of the main loop of k_recv. */
    method ReadPacket(ghost f: Framing) returns (st: Status)
      requires Valid() && f == Frame(Rest())
      modifies this, mem, sendParms
      ensures Valid() && Progress(st, f, old(Abs()))
      ensures replies == old(replies) + AnswerTo(old(LastRead()), f)
    {
      ghost var r := Abs();
      sendPtr := 0;
      var ok, c := GetC();
      while ok && c != START_CHAR && c != ETX_CHAR
        invariant Valid() && Buffered([]) && Abs() == r && replies == old(replies)
        invariant if !ok then f == Starved
                  else f == if c == START_CHAR then FrameLength(Rest())
                            else if c == ETX_CHAR then Interrupted
                            else Frame(Rest())
        decreases |Rest()|, ok
      {
        ok, c := GetC();
      }
      if !ok {
        return Silent;
      }
      if c == ETX_CHAR {
        return Stopped;
      }
      st := ReadHeader(r, f);
    }

    /** What one packet means for the transfer as a whole. */
    method Turn(ghost t: Outcome) returns (st: Status)
      requires Valid() && t == Transfer(Abs(), Rest())
      modifies this, mem, sendParms
      ensures Valid()
      ensures match st
              case Silent => t.Waiting?
              case Stopped => t == Aborted
              case Refused => t == Transfer(Abs(), Rest()) && |Rest()| < |old(Rest())|
              case Accepted(typ) => |Rest()| < |old(Rest())| &&
                                    t == if typ == BREAK_TYPE then Done(Abs(), Rest()) else Transfer(Abs(), Rest())
      ensures old(replies) + old(Conversation(LastRead(), Rest())) ==
                replies + if st == Refused || (st.Accepted? && st.typ != 0x42) then Conversation(LastRead(), Rest())
                          else []
    {
      ghost var f, before, prev, s := Frame(Rest()), replies, LastRead(), Rest();
      FrameConsumes(s);
      hide Feed, Frame;
      st := ReadPacket(f);
      assert f.Failed? || f.Good? ==> LastRead() == f.n;
      assert f.BadHeader? ==> LastRead() == prev;
      Said(before, prev, s);
    }

    /** k_recv: `finished` is false where the original goes on waiting for characters. */
    method KRecv() returns (finished: bool, size: nat)
      requires Valid() && Abs() == START_STATE && Rest() == input
      modifies this, mem, sendParms
      ensures Valid()
      ensures match Transfer(START_STATE, input)
              case Waiting(_) => !finished
              case Aborted => finished && size == 0
              case Done(r, rest) => finished && size == |r.current.stored| && Rest() == rest
                                    && start + size <= mem.Length && mem[start..start + size] == r.current.stored
      ensures replies == old(replies) + Conversation(0, input)
    {
      ghost var t := Transfer(START_STATE, input);
      while true
        invariant Valid() && t == Transfer(Abs(), Rest())
        invariant replies + Conversation(LastRead(), Rest()) == old(replies) + Conversation(0, input)
        decreases |Rest()|
      {
        var st := Turn(t);
        match st
        case Silent => return false, 0;
        case Stopped => return true, 0;
        case Refused =>
        case Accepted(typ) =>
          if typ == BREAK_TYPE {
            return true, addr;
          }
      }
    }

    /** A file sent with control prefixing, cut into packets anywhere and with any number of failed or
        repeated attempts, is what memory holds, and its length is what k_recv returns. */
    method ReceiveFile(ghost file: seq<byte>, ghost ds: seq<Delivery>, ghost quote: byte, ghost t: seq<byte>)
        returns (finished: bool, size: nat)
      requires Valid() && Abs() == START_STATE && Rest() == input == Wire(ds) + t
      requires IsTransfer(NO_PACKET, ds) && |ds| >= 2 && ds[0].packet.typ == 'S' as byte
      requires forall i :: 1 <= i < |ds| ==> ds[i].packet.typ != 'S' as byte
      requires quote == if |ds[0].packet.data| >= 6 then ds[0].packet.data[5] else '#' as byte
      requires FaithfulQuote(quote) && DataOf(ds[1..]) == PrefixedAll(file, quote)
      modifies this, mem, sendParms
      ensures Valid() && finished && size == |file| && start + size <= mem.Length
      ensures mem[start..start + size] == file
      ensures replies == old(replies) + Conversation(0, input)
    {
      FileArrives(file, ds, quote, t);
      hide IsTransfer, Wire, DataOf, PrefixedAll, FaithfulQuote;
      finished, size := KRecv();
    }
  }

  /** One attempt and the replies behind it. */
  lemma Said(before: seq<Reply>, prev: int, s: seq<byte>)
    ensures var f := Frame(s);
            before + Conversation(prev, s) ==
              if f.BadHeader? then (before + AnswerTo(prev, f)) + Conversation(prev, f.rest)
              else if f.Failed? then (before + AnswerTo(prev, f)) + Conversation(f.n, f.rest)
              else if f.Good? then
                (before + AnswerTo(prev, f)) + if f.typ == 0x42 then [] else Conversation(f.n, f.rest)
              else before + []
  {
    hide Frame, AnswerTo;
  }
}
