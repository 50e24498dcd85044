/** The serial download loop of bootstrap.c: head frames announce a length, command frames are run only
    when their CRC matches, other bytes are dropped. */
module Bootstrap {
  import opened CTypes
  import opened CrcWords
  import opened Crc16
  import opened Crc16Errors

  const XHEAD: bv8 := 0xAB
  const XCMD: bv8 := 0xCD
  const HEAD_LENGTH := 5
  const MAX_BUFF_SIZE := 1024

  datatype Reply = Ack | Nak

  /** A frame, leading byte and CRC trailer included, that leaves no remainder. */
  ghost predicate FrameOk(f: seq<bv8>) {
    |f| >= 2 && Crc(Bits(f)) == ZERO
  }

  function FrameWord(hi: bv8, lo: bv8): bv16 {
    ((hi as bv16) << 8) | (lo as bv16)
  }

  /** What the C string functions see of a buffer. */
  function StringOf(s: seq<bv8>): seq<bv8> {
    if s == [] || s[0] == 0 then [] else [s[0]] + StringOf(s[1..])
  }

  lemma {:induction false} StringOfPadded(s: seq<bv8>, t: seq<bv8>)
    requires t != [] && t[0] == 0
    ensures StringOf(s + t) == StringOf(s)
  {
    if s == [] {
      assert s + t == t;
    } else {
      StringOfPadded(s[1..], t);
      assert (s + t)[1..] == s[1..] + t;
    }
  }

  // ----- the loop as a function of the bytes on the line -----

  datatype Event = Sent(reply: Reply) | Ran(command: seq<bv8>)

  /** The length a head frame announces, leading byte and trailer included. */
  function Announced(f: seq<bv8>): nat
    requires |f| == HEAD_LENGTH
  {
    256 * (f[1] as nat) + f[2] as nat + 3
  }

  /** The string of a command frame. */
  function CommandIn(f: seq<bv8>): seq<bv8>
    requires |f| >= 3
  {
    StringOf(f[1..|f| - 2])
  }

  /** A text without NUL is what stands between the leading byte and the two bytes of the trailer. */
  lemma CommandInIs(lead: bv8, text: seq<bv8>, hi: bv8, lo: bv8)
    ensures 0 !in text ==> CommandIn([lead] + (text + [hi, lo])) == text
  {
    if 0 !in text {
      var f := [lead] + (text + [hi, lo]);
      assert f[1..|f| - 2] == text;
      NoNul(text);
    }
  }

  lemma {:induction false} NoNul(s: seq<bv8>)
    requires 0 !in s
    ensures StringOf(s) == s
  {
    if s != [] {
      NoNul(s[1..]);
      assert s == [s[0]] + s[1..];
    }
  }

  ghost function HeadEvents(f: seq<bv8>): seq<Event> {
    [Sent(if FrameOk(f) then Ack else Nak)]
  }

  ghost function CommandEvents(f: seq<bv8>): seq<Event>
    requires |f| >= 3
  {
    if FrameOk(f) then [Sent(Ack), Ran(CommandIn(f))] else [Sent(Nak)]
  }

  /** One turn of the loop: it waits for more bytes, or meets a command frame whose announced length does not
      fit its buffer, or comes to the next turn. */
  datatype Turn =
    | Waiting
    | Unannounced
    | Next(cmdLen: nat, events: seq<Event>, rest: seq<bv8>)

  ghost function TurnOf(cmdLen: nat, input: seq<bv8>): (t: Turn)
    ensures t.Next? ==> |t.rest| < |input|
  {
    if input == [] then Waiting
    else if input[0] == XHEAD then
      if |input| < HEAD_LENGTH then Waiting
      else
        var f := input[..HEAD_LENGTH];
        Next(if FrameOk(f) then Announced(f) else 0, HeadEvents(f), input[HEAD_LENGTH..])
    else if input[0] == XCMD then
      if !(3 <= cmdLen <= MAX_BUFF_SIZE) then Unannounced
      else if |input| < cmdLen then Waiting
      else Next(cmdLen, CommandEvents(input[..cmdLen]), input[cmdLen..])
    else Next(cmdLen, [], input[1..])
  }

  /** What the loop sends and runs, in order, for all the bytes that arrive. */
  ghost function Download(cmdLen: nat, input: seq<bv8>): seq<Event>
    decreases |input|
  {
    var t := TurnOf(cmdLen, input);
    if t.Next? then t.events + Download(t.cmdLen, t.rest) else []
  }

  /** The CRC comparison of both branches of the loop. */
  method TrailerMatches(frame: seq<bv8>) returns (ok: bool)
    requires |frame| >= 2
    ensures ok <==> FrameOk(frame)
  {
    var n := |frame| - 2;
    var cksum := CalcCrc16(frame[..n]);
    ok := cksum == FrameWord(frame[n], frame[n + 1]);
    SplitTrailer(frame, n);
    SameWord(cksum, FrameWord(frame[n], frame[n + 1]), ok);
  }

  lemma SplitTrailer(frame: seq<bv8>, n: nat)
    requires n + 2 == |frame|
    ensures FrameOk(frame) <==> Crc(Bits(frame[..n])) == ToWord(FrameWord(frame[n], frame[n + 1]))
  {
    assert frame == frame[..n] + [frame[n], frame[n + 1]];
    TrailerCheck(frame[..n], frame[n], frame[n + 1], FrameWord(frame[n], frame[n + 1]));
  }

  lemma SameWord(x: bv16, y: bv16, same: bool)
    requires same <==> x == y
    ensures same <==> ToWord(x) == ToWord(y)
  {
    if !same && ToWord(x) == ToWord(y) {
      ToWordInjective(x, y);
    }
  }

  class Downloader {
    const recvBuf: array<bv8>
    var cmdLen: nat

    ghost predicate Valid() {
      recvBuf.Length == MAX_BUFF_SIZE
    }

    constructor ()
      ensures Valid() && fresh(recvBuf) && cmdLen == 0
    {
      recvBuf := new bv8[MAX_BUFF_SIZE];
      cmdLen := 0;
    }

    /** Store the leading byte and the bytes that follow it. */
    method Receive(first: bv8, rest: seq<bv8>)
      requires Valid() && |rest| + 1 <= MAX_BUFF_SIZE
      modifies recvBuf
      ensures recvBuf[..|rest| + 1] == [first] + rest
    {
      recvBuf[0] := first;
      for i := 0 to |rest|
        invariant recvBuf[..i + 1] == [first] + rest[..i]
      {
        recvBuf[i + 1] := rest[i];
      }
      assert rest[..|rest|] == rest;
    }

    /** A head frame: five bytes that announce the length of the next command. */
    method HeadFrame(rest: seq<bv8>) returns (reply: Reply)
      requires Valid() && |rest| == HEAD_LENGTH - 1
      modifies recvBuf, this`cmdLen
      ensures reply == Ack <==> FrameOk([XHEAD] + rest)
      ensures cmdLen == if reply == Ack then Announced([XHEAD] + rest) else 0
    {
      hide FrameOk;
      Receive(XHEAD, rest);
      var ok := TrailerMatches(recvBuf[..HEAD_LENGTH]);
      if ok {
        cmdLen := 256 * (recvBuf[1] as nat) + recvBuf[2] as nat + 3;
        reply := Ack;
      } else {
        cmdLen := 0;
        reply := Nak;
      }
      assert recvBuf[..HEAD_LENGTH][1] == rest[0] && recvBuf[..HEAD_LENGTH][2] == rest[1];
    }

    method Clear()
      modifies recvBuf
      ensures forall i :: 0 <= i < recvBuf.Length ==> recvBuf[i] == 0
    {
      for i := 0 to recvBuf.Length
        invariant forall j :: 0 <= j < i ==> recvBuf[j] == 0
      {
        recvBuf[i] := 0;
      }
    }

    /** Put zeros over the trailer and hand over the string behind the leading byte. */
    method TakeCommand(ghost frame: seq<bv8>) returns (command: seq<bv8>)
      requires Valid() && 3 <= cmdLen <= MAX_BUFF_SIZE && recvBuf[..cmdLen] == frame
      modifies recvBuf
      ensures command == CommandIn(frame)
    {
      hide StringOf;
      var n := cmdLen;
      recvBuf[n - 1] := 0;
      recvBuf[n - 2] := 0;
      assert recvBuf[1..n - 2] == frame[1..n - 2];
      assert recvBuf[1..] == recvBuf[1..n - 2] + recvBuf[n - 2..];
      StringOfPadded(frame[1..n - 2], recvBuf[n - 2..]);
      command := StringOf(recvBuf[1..]);
    }

    /** A command frame: the string before the trailer is run only if the CRC matches. */
    method CommandFrame(rest: seq<bv8>) returns (reply: Reply, run: Option<seq<bv8>>)
      requires Valid() && 3 <= cmdLen <= MAX_BUFF_SIZE && |rest| == cmdLen - 1
      modifies recvBuf
      ensures reply == Ack <==> FrameOk([XCMD] + rest)
      ensures run == if reply == Ack then Some(CommandIn([XCMD] + rest)) else None
      ensures var text := rest[..|rest| - 2]; FrameOk([0xCD] + rest) && 0 !in text ==> run == Some(text)
      ensures reply == Nak ==> forall i :: 0 <= i < recvBuf.Length ==> recvBuf[i] == 0
    {
      CommandInIs(XCMD, rest[..|rest| - 2], rest[|rest| - 2], rest[|rest| - 1]);
      assert rest[..|rest| - 2] + [rest[|rest| - 2], rest[|rest| - 1]] == rest;
      hide FrameOk, CommandIn;
      Receive(XCMD, rest);
      var ok := TrailerMatches(recvBuf[..cmdLen]);
      if !ok {
        Clear();
        return Nak, None;
      }
      var command := TakeCommand([XCMD] + rest);
      return Ack, Some(command);
    }

    /** One turn of the loop over the bytes from `pos` on. `done` is false if it does not come to the next. */
    method OneTurn(input: seq<bv8>, pos: nat, ghost t: Turn) returns (done: bool, events: seq<Event>, next: nat)
      requires Valid() && pos < |input| && t == TurnOf(cmdLen, input[pos..])
      modifies this`cmdLen, recvBuf
      ensures done <==> t.Next?
      ensures done ==> pos < next <= |input| && t == Next(cmdLen, events, input[next..])
    {
      hide TurnOf, HeadEvents, CommandEvents;
      var cr := input[pos];
      TurnHere(cmdLen, input, pos);
      done, events, next := false, [], pos;
      if cr == XHEAD {
        if |input| - pos >= HEAD_LENGTH {
          done, next := true, pos + HEAD_LENGTH;
          events := TakeHead(input[pos + 1..next]);
        }
      } else if cr == XCMD {
        if 3 <= cmdLen <= MAX_BUFF_SIZE && |input| - pos >= cmdLen {
          done, next := true, pos + cmdLen;
          events := TakeFrame(input[pos + 1..next]);
        }
      } else {
        done, next := true, pos + 1;
      }
    }

    method TakeHead(rest: seq<bv8>) returns (events: seq<Event>)
      requires Valid() && |rest| == HEAD_LENGTH - 1
      modifies this`cmdLen, recvBuf
      ensures events == HeadEvents([XHEAD] + rest)
      ensures cmdLen == if FrameOk([XHEAD] + rest) then Announced([XHEAD] + rest) else 0
    {
      hide FrameOk, Announced;
      var reply := HeadFrame(rest);
      events := [Sent(reply)];
    }

    method TakeFrame(rest: seq<bv8>) returns (events: seq<Event>)
      requires Valid() && 3 <= cmdLen <= MAX_BUFF_SIZE && |rest| == cmdLen - 1
      modifies recvBuf
      ensures events == CommandEvents([XCMD] + rest)
    {
      hide FrameOk, CommandIn;
      var reply, run := CommandFrame(rest);
      events := [Sent(reply)];
      if run.Some? {
        events := events + [Ran(run.value)];
      }
    }

    /** download_process, until it waits for a byte that does not come or is sent a command frame without a
        length that fits its buffer. */
    method DownloadProcess(input: seq<bv8>) returns (events: seq<Event>)
      requires Valid()
      modifies this`cmdLen, recvBuf
      ensures events == Download(0, input)
    {
      hide TurnOf;
      cmdLen := 0;
      events := [];
      var pos := 0;
      assert input[0..] == input;
      while pos < |input|
        invariant pos <= |input|
        invariant events + Download(cmdLen, input[pos..]) == Download(0, input)
        decreases |input| - pos
      {
        var done, more, next := OneTurn(input, pos, TurnOf(cmdLen, input[pos..]));
        if !done {
          return;
        }
        events, pos := events + more, next;
      }
      NothingLeft(cmdLen);
    }
  }

  lemma NothingLeft(cmdLen: nat)
    ensures Download(cmdLen, []) == []
  {
  }

  lemma SameFrame(input: seq<bv8>, pos: nat, next: nat)
    requires pos < next <= |input|
    ensures input[pos..][..next - pos] == [input[pos]] + input[pos + 1..next]
    ensures input[pos..][next - pos..] == input[next..]
  {
  }

  /** A turn in the middle of the input. */
  lemma TurnHere(cmdLen: nat, input: seq<bv8>, pos: nat)
    requires pos < |input|
    ensures TurnOf(cmdLen, input[pos..]) ==
            if input[pos] == XHEAD then
              if |input| - pos < HEAD_LENGTH then Waiting
              else
                var f := [XHEAD] + input[pos + 1..pos + HEAD_LENGTH];
                Next(if FrameOk(f) then Announced(f) else 0, HeadEvents(f), input[pos + HEAD_LENGTH..])
            else if input[pos] == XCMD then
              if !(3 <= cmdLen <= MAX_BUFF_SIZE) then Unannounced
              else if |input| - pos < cmdLen then Waiting
              else Next(cmdLen, CommandEvents([XCMD] + input[pos + 1..pos + cmdLen]), input[pos + cmdLen..])
            else Next(cmdLen, [], input[pos + 1..])
  {
    hide FrameOk, Announced, HeadEvents, CommandEvents;
    if input[pos] == XHEAD && |input| - pos >= HEAD_LENGTH {
      SameFrame(input, pos, pos + HEAD_LENGTH);
    } else if input[pos] == XCMD && 3 <= cmdLen <= |input| - pos {
      SameFrame(input, pos, pos + cmdLen);
    } else {
      SameFrame(input, pos, pos + 1);
    }
  }

  // ----- what the CRC gate guarantees -----

  /** A received frame with an error confined to sixteen consecutive bits. */
  ghost predicate Damaged(sent: seq<bv8>, received: seq<bv8>) {
    |received| == |sent| && exists p: nat :: IsBurst(XorSeq(Bits(sent), Bits(received)), p)
  }

  /** A damaged copy of a correct frame is never accepted, so its command is never run. */
  lemma DamagedFrameRejected(sent: seq<bv8>, received: seq<bv8>)
    requires FrameOk(sent) && Damaged(sent, received)
    ensures !FrameOk(received)
  {
    var p: nat :| IsBurst(XorSeq(Bits(sent), Bits(received)), p);
    BurstDetected(Bits(sent), Bits(received), p);
  }

  /** In particular a change to two adjacent bytes, CRC trailer included. */
  lemma AdjacentBytesRejected(sent: seq<bv8>, received: seq<bv8>, k: nat)
    requires FrameOk(sent) && |received| == |sent| && received != sent
    requires forall i :: 0 <= i < |sent| && i != k && i != k + 1 ==> received[i] == sent[i]
    ensures !FrameOk(received)
  {
    AdjacentBytesAreBurst(sent, received, k);
    DamagedFrameRejected(sent, received);
  }

  // ----- sessions -----

  /** What the host puts on the line: a byte that starts no frame, a head frame that announces the length of a
      text, or a command frame with a text, each frame as sent and as it arrives. */
  datatype Item =
    | Noise(b: bv8)
    | Head(length: nat, sent: seq<bv8>, received: seq<bv8>)
    | Command(text: seq<bv8>, sent: seq<bv8>, received: seq<bv8>)

  /** A correct frame that arrives intact, or damaged behind its leading byte. */
  ghost predicate Arrives(sent: seq<bv8>, received: seq<bv8>) {
    && FrameOk(sent)
    && (received == sent || (Damaged(sent, received) && received[0] == sent[0]))
  }

  /** Leading byte 0xAB, the length with the high byte first, and two trailer bytes. */
  ghost predicate IsHead(f: seq<bv8>, length: nat) {
    |f| == 5 && f[0] == 0xAB && 256 * (f[1] as int) + f[2] as int == length
  }

  /** Leading byte 0xCD, the text, and two trailer bytes. */
  ghost predicate IsCommand(f: seq<bv8>, text: seq<bv8>) {
    |f| == |text| + 3 && f[0] == 0xCD && f[1..|text| + 1] == text && 0 !in text
  }

  /** The host sends a command frame only with a text of the length it has announced in an acknowledged head frame;
      `announced` is None before that. */
  ghost predicate IsSession(announced: Option<nat>, items: seq<Item>)
    decreases |items|
  {
    if items == [] then true
    else match items[0]
      case Noise(b) => b != 0xAB && b != 0xCD && IsSession(announced, items[1..])
      case Head(length, s, r) =>
        IsHead(s, length) && Arrives(s, r) && IsSession(if r == s then Some(length) else None, items[1..])
      case Command(text, s, r) =>
        && announced == Some(|text|) && |text| + 3 <= 1024
        && IsCommand(s, text) && Arrives(s, r) && IsSession(announced, items[1..])
  }

  ghost function Line(items: seq<Item>): seq<bv8> {
    if items == [] then []
    else (match items[0]
            case Noise(b) => [b]
            case Head(_, _, r) => r
            case Command(_, _, r) => r) + Line(items[1..])
  }

  /** Intact frames are acknowledged and their texts run; damaged ones are refused. */
  ghost function Expected(items: seq<Item>): seq<Event> {
    if items == [] then []
    else (match items[0]
            case Noise(_) => []
            case Head(_, s, r) => [Sent(if r == s then Ack else Nak)]
            case Command(text, s, r) => if r == s then [Sent(Ack), Ran(text)] else [Sent(Nak)]) + Expected(items[1..])
  }

  function LengthOf(announced: Option<nat>): nat {
    if announced.Some? then announced.value + 3 else 0
  }

  /** Whatever arrives intact and whatever does not: over any session the loop acknowledges exactly the intact
      frames, and runs exactly the texts of the intact command frames, in order. */
  lemma {:induction false} SessionRunsIntactCommands(announced: Option<nat>, items: seq<Item>)
    requires IsSession(announced, items)
    ensures Download(LengthOf(announced), Line(items)) == Expected(items)
    decreases |items|
  {
    hide TurnOf, Arrives, IsHead, IsCommand;
    if items == [] {
      NothingLeft(LengthOf(announced));
    } else {
      var rest := Line(items[1..]);
      match items[0]
      case Noise(b) =>
        NoiseTurn(LengthOf(announced), b, rest);
        SessionRunsIntactCommands(announced, items[1..]);
      case Head(length, s, r) =>
        HeadTurn(LengthOf(announced), length, s, r, rest);
        SessionRunsIntactCommands(if r == s then Some(length) else None, items[1..]);
      case Command(text, s, r) =>
        CommandTurn(text, s, r, rest);
        SessionRunsIntactCommands(announced, items[1..]);
    }
  }

  lemma NoiseTurn(cmdLen: nat, b: bv8, rest: seq<bv8>)
    requires b != 0xAB && b != 0xCD
    ensures TurnOf(cmdLen, [b] + rest) == Next(cmdLen, [], rest)
  {
    assert ([b] + rest)[1..] == rest;
  }

  lemma HeadTurn(cmdLen: nat, length: nat, sent: seq<bv8>, received: seq<bv8>, rest: seq<bv8>)
    requires IsHead(sent, length) && Arrives(sent, received)
    ensures TurnOf(cmdLen, received + rest) ==
            if received == sent then Next(length + 3, [Sent(Ack)], rest) else Next(0, [Sent(Nak)], rest)
  {
    hide FrameOk, Damaged;
    FrameArrives(sent, received, rest);
  }

  lemma CommandTurn(text: seq<bv8>, sent: seq<bv8>, received: seq<bv8>, rest: seq<bv8>)
    requires IsCommand(sent, text) && Arrives(sent, received) && |text| + 3 <= 1024
    ensures TurnOf(|text| + 3, received + rest) ==
            Next(|text| + 3, if received == sent then [Sent(Ack), Ran(text)] else [Sent(Nak)], rest)
  {
    var n := |text|;
    assert sent == [sent[0]] + (text + [sent[n + 1], sent[n + 2]]) by {
      assert sent[1..] == sent[1..n + 1] + sent[n + 1..];
    }
    CommandInIs(sent[0], text, sent[n + 1], sent[n + 2]);
    hide FrameOk, Damaged, CommandIn;
    FrameArrives(sent, received, rest);
  }

  lemma FrameArrives(sent: seq<bv8>, received: seq<bv8>, rest: seq<bv8>)
    requires Arrives(sent, received)
    ensures |received| == |sent| >= 2 && received[0] == sent[0] && (FrameOk(received) <==> received == sent)
    ensures (received + rest)[..|sent|] == received && (received + rest)[|sent|..] == rest
  {
    if received != sent {
      DamagedFrameRejected(sent, received);
    }
  }

  /** A correct command frame stands in the input, and `command` is its string. */
  ghost predicate Carries(input: seq<bv8>, command: seq<bv8>) {
    exists i: nat, n: nat :: n >= 3 && i + n <= |input| && CarriesAt(input, i, n, command)
  }

  ghost predicate CarriesAt(input: seq<bv8>, i: nat, n: nat, command: seq<bv8>)
    requires n >= 3 && i + n <= |input|
  {
    input[i] == XCMD && FrameOk(input[i..i + n]) && command == CommandIn(input[i..i + n])
  }

  /** What one turn runs stands at the start of the input. */
  lemma TurnRuns(cmdLen: nat, input: seq<bv8>, command: seq<bv8>)
    requires TurnOf(cmdLen, input).Next? && Ran(command) in TurnOf(cmdLen, input).events
    ensures 3 <= cmdLen <= |input| && CarriesAt(input, 0, cmdLen, command)
  {
    hide FrameOk, CommandIn, Announced;
    assert 3 <= cmdLen <= |input| ==> input[0..cmdLen] == input[..cmdLen];
  }

  lemma TurnLeaves(cmdLen: nat, input: seq<bv8>)
    requires TurnOf(cmdLen, input).Next?
    ensures var rest := TurnOf(cmdLen, input).rest; |rest| <= |input| && rest == input[|input| - |rest|..]
  {
    hide FrameOk, CommandIn, Announced;
  }

  lemma CarriesLater(input: seq<bv8>, k: nat, command: seq<bv8>)
    requires k <= |input| && Carries(input[k..], command)
    ensures Carries(input, command)
  {
    hide FrameOk, CommandIn;
    var i: nat, n: nat :| n >= 3 && i + n <= |input[k..]| && CarriesAt(input[k..], i, n, command);
    assert input[k..][i..i + n] == input[k + i..k + i + n];
    assert CarriesAt(input, k + i, n, command);
  }

  /** Whatever bytes arrive, from whomever: only the string of a frame with a matching CRC is ever run. */
  lemma {:induction false} OnlyCheckedCommandsRun(cmdLen: nat, input: seq<bv8>, command: seq<bv8>)
    requires Ran(command) in Download(cmdLen, input)
    ensures Carries(input, command)
    decreases |input|
  {
    hide TurnOf, CarriesAt;
    var t := TurnOf(cmdLen, input);
    if Ran(command) in t.events {
      TurnRuns(cmdLen, input, command);
    } else {
      OnlyCheckedCommandsRun(t.cmdLen, t.rest, command);
      TurnLeaves(cmdLen, input);
      CarriesLater(input, |input| - |t.rest|, command);
    }
  }
}
