/** The log ring of cmd_log.c: a scratch buffer in which level tags are written over used characters, and
    a ring that keeps the last characters of the stream under either of two cursor layouts. */
module LogBuffer {
  import opened CTypes

  const LOGBUFF_LEN := 16384
  const SCRATCH := 1024
  const DEFAULT_LEVEL := 4
  const NUL := '\0'

  // ----- the text that is logged -----

  /** A piece of the stream: an inserted tag, or none, and characters of an argument up to a line feed. */
  datatype Piece = Piece(tag: string, text: string)

  /** The line starts with a level tag of its own. A string stands for the C string up to its NUL. */
  predicate HasTag(s: string) {
    |s| >= 3 && s[0] == '<' && '0' <= s[1] <= '7' && s[2] == '>'
  }

  /** The number of characters up to and including the first line feed. */
  ghost function LineLength(s: string): (n: nat)
    ensures n <= |s| && (s != [] ==> n > 0)
    ensures forall i :: 0 <= i < n - 1 ==> s[i] != '\n'
    ensures n < |s| ==> n > 0 && s[n - 1] == '\n'
  {
    if s == [] then 0 else if s[0] == '\n' then 1 else 1 + LineLength(s[1..])
  }

  function LevelOf(level: int, s: string): int
    requires s != []
  {
    if level >= 0 then level else if HasTag(s) then s[1] as int - '0' as int else DEFAULT_LEVEL
  }

  function TagFor(level: int, s: string): string {
    if level < 0 && !HasTag(s) then "<4>" else ""
  }

  /** The level after a line: unknown again once a line feed is seen. */
  function LevelAfter(level: int, line: string): int
    requires line != []
  {
    if line[|line| - 1] == '\n' then -1 else LevelOf(level, line)
  }

  /** How one argument is cut into pieces, starting with `level`, which is negative at a line start. */
  ghost function Pieces(level: int, s: string): seq<Piece>
    decreases |s|
  {
    if s == [] then []
    else
      var n := LineLength(s);
      [Piece(TagFor(level, s), s[..n])] + Pieces(LevelAfter(level, s[..n]), s[n..])
  }

  ghost function FinalLevel(level: int, s: string): int
    decreases |s|
  {
    if s == [] then level
    else
      var n := LineLength(s);
      FinalLevel(LevelAfter(level, s[..n]), s[n..])
  }

  ghost function Stream(ps: seq<Piece>): string {
    if ps == [] then [] else ps[0].tag + ps[0].text + Stream(ps[1..])
  }

  ghost function Texts(ps: seq<Piece>): string {
    if ps == [] then [] else ps[0].text + Texts(ps[1..])
  }

  // ----- the ring -----

  /** The last `n` characters. */
  ghost function LastOf(s: string, n: nat): string {
    if |s| <= n then s else s[|s| - n..]
  }

  lemma WrapMask(x: nat)
    ensures Wrap32(x) % LOGBUFF_LEN == x % LOGBUFF_LEN
  {
    var q := x / U32_LIMIT;
    assert x == q * U32_LIMIT + Wrap32(x);
    MulMod(q * (U32_LIMIT / LOGBUFF_LEN), Wrap32(x));
  }

  lemma MulMod(q: nat, r: nat)
    ensures (q * LOGBUFF_LEN + r) % LOGBUFF_LEN == r % LOGBUFF_LEN
  {
  }

  lemma ModDiffer(i: nat, n: nat)
    requires i < n < i + LOGBUFF_LEN
    ensures i % LOGBUFF_LEN != n % LOGBUFF_LEN
  {
  }

  /** The ring holds the last characters of `logged`, each at its position modulo the length. */
  ghost predicate Holds(ring: seq<char>, logged: string) {
    && |ring| == LOGBUFF_LEN
    && forall i: nat :: |logged| - LOGBUFF_LEN <= i < |logged| ==> ring[i % LOGBUFF_LEN] == logged[i]
  }

  lemma HoldsMore(ring: seq<char>, logged: string, c: char)
    requires Holds(ring, logged)
    ensures Holds(ring[|logged| % LOGBUFF_LEN := c], logged + [c])
  {
    var n := |logged|;
    var next := ring[n % LOGBUFF_LEN := c];
    forall i: nat | n + 1 - LOGBUFF_LEN <= i < n + 1
      ensures next[i % LOGBUFF_LEN] == (logged + [c])[i]
    {
      if i < n {
        ModDiffer(i, n);
      }
    }
  }

  /** The cursors of layout 1 after `n` characters. */
  ghost predicate Cursor1(start: u32, size: u32, n: nat) {
    size == Min(n, LOGBUFF_LEN) && (start + size) % LOGBUFF_LEN == n % LOGBUFF_LEN
  }

  /** The cursors of layout 2 after `n` characters. */
  ghost predicate Cursor2(start: u32, end: u32, n: nat) {
    Wrap32(end - start) == Min(n, LOGBUFF_LEN) && end % LOGBUFF_LEN == n % LOGBUFF_LEN
  }

  lemma Cursor1Step(start: u32, size: u32, n: nat)
    requires Cursor1(start, size, n)
    ensures Wrap32(start + size) % LOGBUFF_LEN == n % LOGBUFF_LEN
    ensures if size < LOGBUFF_LEN then Cursor1(start, size + 1, n + 1) else Cursor1(Wrap32(start + 1), size, n + 1)
  {
    WrapMask(start + size);
    ModStep(start + size, n);
    if size >= LOGBUFF_LEN {
      WrapMask(start + 1);
      SumMod(Wrap32(start + 1), start + 1, size);
    }
  }

  lemma Cursor2Step(start: u32, end: u32, n: nat)
    requires Cursor2(start, end, n)
    ensures var e := Wrap32(end + 1);
      Cursor2(if Wrap32(e - start) > LOGBUFF_LEN then Wrap32(start + 1) else start, e, n + 1)
  {
    WrapMask(end + 1);
    ModStep(end, n);
    WrapUp(end, start);
  }

  /** Moving one cursor up adds one to the distance; moving both leaves it. */
  lemma WrapUp(end: u32, start: u32)
    requires Wrap32(end - start) < U32_LIMIT - 1
    ensures Wrap32(Wrap32(end + 1) - start) == Wrap32(end - start) + 1
    ensures Wrap32(Wrap32(end + 1) - Wrap32(start + 1)) == Wrap32(end - start)
  {
    var d := end - start;
    assert Wrap32(d) == if d >= 0 then d else d + U32_LIMIT;
  }

  lemma ModStep(x: nat, n: nat)
    requires x % LOGBUFF_LEN == n % LOGBUFF_LEN
    ensures (x + 1) % LOGBUFF_LEN == (n + 1) % LOGBUFF_LEN
  {
  }

  lemma SumMod(a: nat, b: nat, c: nat)
    requires a % LOGBUFF_LEN == b % LOGBUFF_LEN
    ensures (a + c) % LOGBUFF_LEN == (b + c) % LOGBUFF_LEN
  {
  }

  lemma WrapNext(n: nat)
    ensures Wrap32(Wrap32(n) + 1) == Wrap32(n + 1)
  {
  }

  class Log {
    const lbuf: array<char>
    const buf: array<char>
    const version: int
    var start: u32
    var size: u32
    var end: u32
    var chars: u32
    var msgLevel: int
    ghost var logged: string

    ghost predicate Valid()
      reads this, lbuf
    {
      && buf.Length == SCRATCH && lbuf.Length == LOGBUFF_LEN && buf != lbuf
      && Holds(lbuf[..], logged)
      && chars == Wrap32(|logged|)
      && (if version == 2 then Cursor2(start, end, |logged|) else Cursor1(start, size, |logged|))
    }

    constructor (version: int)
      ensures Valid() && logged == [] && msgLevel == -1 && this.version == version
    {
      this.version := version;
      lbuf, buf := new char[LOGBUFF_LEN], new char[SCRATCH];
      start, size, end, chars, msgLevel := 0, 0, 0, 0, -1;
      logged := [];
    }

    /** Layout 2: the character goes to the end cursor. */
    method StoreAtEnd(c: char)
      requires lbuf.Length == LOGBUFF_LEN && Cursor2(start, end, |logged|)
      modifies lbuf, this`start, this`end
      ensures Cursor2(start, end, |logged| + 1)
      ensures lbuf[..] == old(lbuf[..])[|logged| % LOGBUFF_LEN := c]
    {
      Cursor2Step(start, end, |logged|);
      lbuf[end % LOGBUFF_LEN] := c;
      hide Cursor2;
      end := Wrap32(end + 1);
      if Wrap32(end - start) > LOGBUFF_LEN {
        start := Wrap32(start + 1);
      }
    }

    /** Layout 1: it goes behind the `size` characters from the start cursor on. */
    method StoreBehind(c: char)
      requires lbuf.Length == LOGBUFF_LEN && Cursor1(start, size, |logged|)
      modifies lbuf, this`start, this`size
      ensures Cursor1(start, size, |logged| + 1)
      ensures lbuf[..] == old(lbuf[..])[|logged| % LOGBUFF_LEN := c]
    {
      Cursor1Step(start, size, |logged|);
      hide Cursor1;
      lbuf[Wrap32(start + size) % LOGBUFF_LEN] := c;
      if size < LOGBUFF_LEN {
        size := size + 1;
      } else {
        start := Wrap32(start + 1);
      }
    }

    /** The ring part of the inner loop of logbuff_printk. */
    method PutChar(c: char)
      requires Valid()
      modifies lbuf, this`start, this`size, this`end, this`chars, this`logged
      ensures Valid() && logged == old(logged) + [c]
    {
      hide Holds, Cursor1, Cursor2;
      HoldsMore(lbuf[..], logged, c);
      WrapNext(|logged|);
      if version == 2 {
        StoreAtEnd(c);
      } else {
        StoreBehind(c);
      }
      chars := Wrap32(chars + 1);
      logged := logged + [c];
    }

    /** The inner loop of logbuff_printk: log the scratch characters from `from` through a line feed. */
    method PutLine(from: nat, bufEnd: nat) returns (lineFeed: bool, p: nat)
      requires Valid() && from < bufEnd <= SCRATCH
      modifies lbuf, this`start, this`size, this`end, this`chars, this`logged
      ensures Valid()
      ensures var s := buf[from..bufEnd]; var n := LineLength(s);
        && logged == old(logged) + s[..n]
        && (lineFeed <==> s[n - 1] == '\n')
        && p == (if lineFeed then from + n - 1 else bufEnd)
        && (!lineFeed ==> n == |s|)
    {
      ghost var s := buf[from..bufEnd];
      ghost var n := LineLength(s);
      hide LineLength, Holds, Cursor1, Cursor2;
      p, lineFeed := from, false;
      assert s[..0] == [];
      while p < bufEnd
        invariant from <= p <= bufEnd && p - from <= n && Valid()
        invariant logged == old(logged) + s[..p - from]
        invariant p > from ==> p - from < n || s[n - 1] != '\n'
        decreases bufEnd - p
      {
        assert buf[p] == s[p - from];
        assert s[..p - from] + [s[p - from]] == s[..p - from + 1];
        PutChar(buf[p]);
        if buf[p] == '\n' {
          lineFeed := true;
          return;
        }
        p := p + 1;
      }
    }

    /** strcpy into the scratch buffer, behind the three bytes kept for a tag. */
    method CopyLine(line: string)
      requires buf.Length == SCRATCH && |line| + 4 <= SCRATCH
      modifies buf
      ensures buf[3..3 + |line|] == line && buf[3 + |line|] == NUL
    {
      for i := 0 to |line|
        invariant buf[3..3 + i] == line[..i]
      {
        buf[3 + i] := line[i];
        assert buf[3..3 + i + 1] == buf[3..3 + i] + [line[i]];
      }
      buf[3 + |line|] := NUL;
      assert line[..|line|] == line;
    }

    /** The test for a level tag at `p`; the NUL behind the line stops it. */
    method TagAt(p: nat, bufEnd: nat) returns (tagged: bool)
      requires buf.Length == SCRATCH && p < bufEnd < SCRATCH && buf[bufEnd] == NUL
      ensures tagged <==> HasTag(buf[p..bufEnd])
    {
      ghost var s := buf[p..bufEnd];
      assert forall i :: 0 <= i < |s| ==> s[i] == buf[p + i];
      tagged := !(buf[p] != '<' || buf[p + 1] < '0' || buf[p + 1] > '7' || buf[p + 2] != '>');
    }

    /** Write the default tag before what is to be logged. */
    method WriteTag(p: nat, bufEnd: nat)
      requires buf.Length == SCRATCH && p + 3 <= bufEnd < SCRATCH
      modifies buf
      ensures forall i :: p + 3 <= i < SCRATCH ==> buf[i] == old(buf[i])
      ensures buf[p + 1] == '4' && buf[p..bufEnd] == "<4>" + old(buf[p + 3..bufEnd])
    {
      ghost var s := buf[p + 3..bufEnd];
      buf[p], buf[p + 1], buf[p + 2] := '<', (DEFAULT_LEVEL + '0' as int) as char, '>';
      assert forall i :: 0 <= i < |s| ==> s[i] == buf[p + 3 + i];
      assert buf[p..bufEnd] == buf[p..p + 3] + buf[p + 3..bufEnd];
      assert buf[p + 3..bufEnd] == s;
    }

    /** At a line start take the level from the line, or write a tag over the three characters before
        `from`: they are reserved or logged already, and nothing from `from` on is overwritten. */
    method SettleLevel(from: nat, bufEnd: nat) returns (p: nat)
      requires buf.Length == SCRATCH && 3 <= from < bufEnd < SCRATCH && buf[bufEnd] == NUL
      modifies this`msgLevel, buf
      ensures forall i :: from <= i < SCRATCH ==> buf[i] == old(buf[i])
      ensures p <= from && buf[p..bufEnd] == TagFor(old(msgLevel), old(buf[from..bufEnd])) + old(buf[from..bufEnd])
      ensures msgLevel == LevelOf(old(msgLevel), old(buf[from..bufEnd]))
    {
      ghost var s := buf[from..bufEnd];
      p := from;
      if msgLevel < 0 {
        var tagged := TagAt(p, bufEnd);
        assert s[0] == buf[from] && (tagged ==> s[1] == buf[p + 1]);
        if !tagged {
          p := p - 3;
          WriteTag(p, bufEnd);
        }
        msgLevel := buf[p + 1] as int - '0' as int;
      }
    }

    /** One turn of the outer loop: settle the level and log the line. */
    method PutPiece(from: nat, bufEnd: nat) returns (p: nat)
      requires Valid() && 3 <= from < bufEnd < SCRATCH && buf[bufEnd] == NUL
      modifies this, lbuf, buf
      ensures Valid()
      ensures forall i :: from <= i < SCRATCH ==> buf[i] == old(buf[i])
      ensures var s := old(buf[from..bufEnd]); var n := LineLength(s);
        && logged == old(logged) + (TagFor(old(msgLevel), s) + s[..n])
        && msgLevel == LevelAfter(old(msgLevel), s[..n])
        && (if n < |s| then p == from + n else p >= bufEnd)
        && p <= bufEnd + 1
    {
      hide LineLength, HasTag, Holds, TagFor, Cursor1, Cursor2;
      ghost var s := buf[from..bufEnd];
      TagWithinLine(s);
      LineBehindTag(msgLevel, s);
      p := SettleLevel(from, bufEnd);
      var lineFeed;
      lineFeed, p := PutLine(p, bufEnd);
      if lineFeed {
        msgLevel := -1;
      }
      p := p + 1;
    }

    /** The same, and what is left of the line. */
    method NextLine(from: nat, bufEnd: nat, ghost s: string) returns (p: nat)
      requires Valid() && 3 <= from < bufEnd < SCRATCH && buf[bufEnd] == NUL && s == buf[from..bufEnd]
      modifies this, lbuf, buf
      ensures Valid() && buf[bufEnd] == NUL && from < p <= bufEnd + 1
      ensures var n := LineLength(s);
        && logged == old(logged) + (TagFor(old(msgLevel), s) + s[..n])
        && msgLevel == LevelAfter(old(msgLevel), s[..n])
        && s[n..] == if p < bufEnd then buf[p..bufEnd] else []
    {
      hide LineLength, LevelAfter, TagFor, Holds, Cursor1, Cursor2;
      ghost var before := buf[..];
      p := PutPiece(from, bufEnd);
      if p < bufEnd {
        SameTail(before, buf[..], from, p, bufEnd);
        assert before[from..bufEnd] == s && buf[..][p..bufEnd] == buf[p..bufEnd];
      }
    }

    method LogbuffPrintk(line: string) returns (i: nat)
      requires Valid() && |line| + 4 <= SCRATCH
      modifies this, lbuf, buf
      ensures Valid() && i == |line|
      ensures logged == old(logged) + Stream(Pieces(old(msgLevel), line))
      ensures msgLevel == FinalLevel(old(msgLevel), line)
      ensures line == "" ==> logged == old(logged) && msgLevel == old(msgLevel)
      ensures line != "" && '\n' !in line[..|line| - 1] ==>
        var tagged := |line| >= 3 && line[0] == '<' && '0' <= line[1] <= '7' && line[2] == '>';
        && logged == (if old(msgLevel) < 0 && !tagged then old(logged) + "<4>" + line else old(logged) + line)
        && msgLevel == (if line[|line| - 1] == '\n' then -1
                        else if old(msgLevel) >= 0 then old(msgLevel)
                        else if tagged then line[1] as int - '0' as int else 4)
    {
      hide LineLength, Stream, Pieces, FinalLevel, LevelAfter, TagFor, Holds, Cursor1, Cursor2;
      CopyLine(line);
      i := |line|;
      var bufEnd := 3 + i;
      var p := 3;
      ghost var rest := line;
      while p < bufEnd
        invariant Valid() && 3 <= p <= bufEnd + 1 && buf[bufEnd] == NUL
        invariant rest == if p < bufEnd then buf[p..bufEnd] else []
        invariant logged + Stream(Pieces(msgLevel, rest)) == old(logged) + Stream(Pieces(old(msgLevel), line))
        invariant FinalLevel(msgLevel, rest) == FinalLevel(old(msgLevel), line)
        decreases bufEnd - p
      {
        NextPiece(msgLevel, rest, logged);
        p := NextLine(p, bufEnd, rest);
        rest := rest[LineLength(rest)..];
      }
      NoPieces(msgLevel, logged);
      OneLine(old(msgLevel), line, old(logged));
    }

    /** Any sequence of log calls. */
    method LogAll(lines: seq<string>)
      requires Valid() && forall k :: 0 <= k < |lines| ==> |lines[k]| + 4 <= SCRATCH
      modifies this, lbuf, buf
      ensures Valid()
      ensures logged == old(logged) + Stream(RunPieces(old(msgLevel), lines))
      ensures Texts(RunPieces(old(msgLevel), lines)) == Concat(lines)
      ensures Proper(old(msgLevel) < 0, RunPieces(old(msgLevel), lines))
    {
      hide Stream, Pieces, FinalLevel, RunPieces, RunLevel, Holds, Cursor1, Cursor2, Texts, Concat, Proper;
      RunTexts(msgLevel, lines);
      RunProper(msgLevel, lines);
      assert lines[..0] == [];
      NoLines(msgLevel, logged);
      for k := 0 to |lines|
        invariant Valid()
        invariant msgLevel == RunLevel(old(msgLevel), lines[..k])
        invariant logged == old(logged) + Stream(RunPieces(old(msgLevel), lines[..k]))
      {
        RunStep(old(msgLevel), lines, k, old(logged));
        var _ := LogbuffPrintk(lines[k]);
      }
      assert lines[..|lines|] == lines;
    }

    /** What a reader of the ring sees: the characters from `start` on, `size` or `end - start` of them. */
    ghost function Window(): string
      requires Valid()
      reads this, lbuf
    {
      ReadBack(lbuf[..], start, if version == 2 then Wrap32(end - start) else size)
    }

    /** Under both layouts the window is the last LOGBUFF_LEN characters of all that was logged. */
    lemma WindowIsTail()
      requires Valid()
      ensures Window() == LastOf(logged, LOGBUFF_LEN)
      ensures Window() == if |logged| <= 16384 then logged else logged[|logged| - 16384..]
    {
      var n := |logged|;
      if version == 2 {
        Cursor2Is1(start, end, n);
      }
      WindowTail(lbuf[..], logged, start);
    }
  }

  ghost function ReadBack(ring: seq<char>, start: nat, size: nat): string
    requires |ring| == LOGBUFF_LEN
  {
    seq(size, i requires i >= 0 => ring[(start + i) % LOGBUFF_LEN])
  }

  lemma Cursor2Is1(start: u32, end: u32, n: nat)
    requires Cursor2(start, end, n)
    ensures Cursor1(start, Wrap32(end - start), n)
  {
    var d := Wrap32(end - start);
    assert d == if end >= start then end - start else end - start + U32_LIMIT;
    if end < start {
      assert (end + U32_LIMIT) % LOGBUFF_LEN == end % LOGBUFF_LEN by {
        MulMod(U32_LIMIT / LOGBUFF_LEN, end);
      }
    }
  }

  lemma WindowTail(ring: seq<char>, logged: string, start: u32)
    requires Holds(ring, logged) && Cursor1(start, Min(|logged|, LOGBUFF_LEN), |logged|)
    ensures ReadBack(ring, start, Min(|logged|, LOGBUFF_LEN)) == LastOf(logged, LOGBUFF_LEN)
  {
    var n, size := |logged|, Min(|logged|, LOGBUFF_LEN);
    var w, t := ReadBack(ring, start, size), LastOf(logged, LOGBUFF_LEN);
    forall i | 0 <= i < size
      ensures w[i] == t[i]
    {
      SamePlace(start, n - size, size, i);
      assert ring[(n - size + i) % LOGBUFF_LEN] == logged[n - size + i];
    }
  }

  lemma SamePlace(a: nat, b: nat, size: nat, i: nat)
    requires (a + size) % LOGBUFF_LEN == (b + size) % LOGBUFF_LEN
    ensures (a + i) % LOGBUFF_LEN == (b + i) % LOGBUFF_LEN
  {
    var q := (a + size) / LOGBUFF_LEN - (b + size) / LOGBUFF_LEN;
    assert a - b == q * LOGBUFF_LEN;
    if q >= 0 {
      MulMod(q, b + i);
    } else {
      MulMod(-q, a + i);
    }
  }

  // ----- runs of log calls -----

  ghost function RunLevel(level: int, lines: seq<string>): int {
    if lines == [] then level
    else FinalLevel(RunLevel(level, lines[..|lines| - 1]), lines[|lines| - 1])
  }

  ghost function RunPieces(level: int, lines: seq<string>): seq<Piece> {
    if lines == [] then []
    else
      var n := |lines| - 1;
      RunPieces(level, lines[..n]) + Pieces(RunLevel(level, lines[..n]), lines[n])
  }

  ghost function Concat(lines: seq<string>): string {
    if lines == [] then [] else Concat(lines[..|lines| - 1]) + lines[|lines| - 1]
  }

  lemma NoLines(level: int, before: string)
    ensures before + Stream(RunPieces(level, [])) == before && RunLevel(level, []) == level
  {
    assert Stream([]) == [];
  }

  lemma RunStep(level: int, lines: seq<string>, k: nat, before: string)
    requires k < |lines|
    ensures var l := RunLevel(level, lines[..k]);
      && before + Stream(RunPieces(level, lines[..k + 1])) ==
           before + Stream(RunPieces(level, lines[..k])) + Stream(Pieces(l, lines[k]))
      && RunLevel(level, lines[..k + 1]) == FinalLevel(l, lines[k])
  {
    assert lines[..k + 1][..k] == lines[..k];
    StreamConcat(RunPieces(level, lines[..k]), Pieces(RunLevel(level, lines[..k]), lines[k]));
  }

  lemma {:induction false} StreamConcat(a: seq<Piece>, b: seq<Piece>)
    ensures Stream(a + b) == Stream(a) + Stream(b) && Texts(a + b) == Texts(a) + Texts(b)
  {
    if a == [] {
      assert a + b == b;
    } else {
      assert (a + b)[1..] == a[1..] + b;
      StreamConcat(a[1..], b);
    }
  }

  lemma TextsCons(p: Piece, rest: seq<Piece>)
    ensures Texts([p] + rest) == p.text + Texts(rest)
  {
    assert ([p] + rest)[1..] == rest;
  }

  /** The first piece and the rest of a text. */
  lemma PiecesStep(level: int, s: string) returns (p: Piece, next: int, rest: string)
    requires s != []
    ensures Pieces(level, s) == [p] + Pieces(next, rest)
    ensures p.text + rest == s && |rest| < |s|
  {
    hide LevelAfter, TagFor;
    var n := LineLength(s);
    hide LineLength;
    p, next, rest := Piece(TagFor(level, s), s[..n]), LevelAfter(level, s[..n]), s[n..];
  }

  lemma {:induction false} TextsOfPieces(level: int, s: string)
    ensures Texts(Pieces(level, s)) == s
    decreases |s|
  {
    if s != [] {
      hide Pieces, Texts;
      var p, next, rest := PiecesStep(level, s);
      TextsOfPieces(next, rest);
      TextsCons(p, Pieces(next, rest));
    }
  }

  /** Without the inserted tags the stream is what the callers gave, in order and complete. */
  lemma {:induction false} RunTexts(level: int, lines: seq<string>)
    ensures Texts(RunPieces(level, lines)) == Concat(lines)
  {
    if lines != [] {
      var n := |lines| - 1;
      RunTexts(level, lines[..n]);
      var l := RunLevel(level, lines[..n]);
      TextsOfPieces(l, lines[n]);
      StreamConcat(RunPieces(level, lines[..n]), Pieces(l, lines[n]));
    }
  }

  /** Every line that starts in `s` carries a level tag; `first` when `s` itself starts a line. */
  ghost predicate Tagged(first: bool, s: string) {
    forall i :: 0 <= i < |s| && (if i == 0 then first else s[i - 1] == '\n') ==> HasTag(s[i..])
  }

  /** What follows `s` starts a line. */
  predicate AtLineStart(first: bool, s: string) {
    if s == [] then first else s[|s| - 1] == '\n'
  }

  lemma TaggedConcat(first: bool, a: string, b: string)
    requires Tagged(first, a) && Tagged(AtLineStart(first, a), b)
    ensures Tagged(first, a + b) && AtLineStart(first, a + b) == AtLineStart(AtLineStart(first, a), b)
  {
    var s := a + b;
    forall i | 0 <= i < |s| && (if i == 0 then first else s[i - 1] == '\n')
      ensures HasTag(s[i..])
    {
      if i < |a| {
        assert HasTag(a[i..]);
        assert s[i..] == a[i..] + b;
      } else {
        assert s[i..] == b[i - |a|..];
      }
    }
  }

  /** One line with its tag, inserted or its own. */
  lemma LineTagged(level: int, s: string)
    requires s != []
    ensures var n := LineLength(s);
      var line := TagFor(level, s) + s[..n];
      && line != []
      && Tagged(level < 0, line)
      && (AtLineStart(level < 0, line) <==> LevelAfter(level, s[..n]) < 0)
  {
    var n := LineLength(s);
    TagWithinLine(s);
    var line := TagFor(level, s) + s[..n];
    assert forall i :: 0 <= i < |line| - 1 ==> line[i] != '\n';
    assert line[|line| - 1] == s[n - 1];
    assert line[0..] == line;
  }

  lemma {:induction false} PiecesTagged(level: int, s: string)
    ensures var t := Stream(Pieces(level, s));
      Tagged(level < 0, t) && (AtLineStart(level < 0, t) <==> FinalLevel(level, s) < 0)
    decreases |s|
  {
    if s != [] {
      var n := LineLength(s);
      var after := LevelAfter(level, s[..n]);
      PiecesTagged(after, s[n..]);
      LineTagged(level, s);
      hide Tagged, TagFor, LevelAfter, LineLength;
      NextPiece(level, s, []);
      var line, rest := TagFor(level, s) + s[..n], Stream(Pieces(after, s[n..]));
      assert [] + Stream(Pieces(level, s)) == Stream(Pieces(level, s));
      assert [] + line + rest == line + rest;
      TaggedConcat(level < 0, line, rest);
    }
  }

  /** However the arguments cut the text into calls, every line of the log starts with a level tag. */
  lemma {:induction false} RunTagged(level: int, lines: seq<string>)
    ensures var t := Stream(RunPieces(level, lines));
      Tagged(level < 0, t) && (AtLineStart(level < 0, t) <==> RunLevel(level, lines) < 0)
  {
    if lines != [] {
      var n := |lines| - 1;
      RunTagged(level, lines[..n]);
      var l := RunLevel(level, lines[..n]);
      PiecesTagged(l, lines[n]);
      StreamConcat(RunPieces(level, lines[..n]), Pieces(l, lines[n]));
      hide Tagged, Pieces;
      TaggedConcat(level < 0, Stream(RunPieces(level, lines[..n])), Stream(Pieces(l, lines[n])));
    }
  }

  /** A tag of its own lies within the first line. */
  lemma TagWithinLine(s: string)
    requires s != []
    ensures HasTag(s) <==> HasTag(s[..LineLength(s)])
    ensures HasTag(s) ==> LineLength(s) >= 3
  {
    var n := LineLength(s);
    assert n < |s| ==> s[n - 1] == '\n';
  }

  lemma LineBehindTag(level: int, s: string)
    requires s != []
    ensures var tag, n := TagFor(level, s), LineLength(s);
      && LineLength(tag + s) == |tag| + n
      && (tag + s)[..|tag| + n] == tag + s[..n]
      && (tag + s)[|tag| + n - 1] == s[n - 1]
  {
    hide HasTag, LineLength;
    if TagFor(level, s) == "" {
      assert "" + s == s;
    } else {
      LineCons('>', s);
      LineCons('4', ['>'] + s);
      LineCons('<', ['4'] + (['>'] + s));
      assert "<4>" + s == ['<'] + (['4'] + (['>'] + s));
    }
  }

  lemma LineCons(c: char, s: string)
    requires c != '\n' && s != []
    ensures LineLength([c] + s) == 1 + LineLength(s)
  {
    assert ([c] + s)[1..] == s;
  }

  lemma SameTail(a: seq<char>, b: seq<char>, from: nat, p: nat, to: nat)
    requires from <= p <= to <= |a| == |b| && forall i :: from <= i < to ==> b[i] == a[i]
    ensures b[p..to] == a[from..to][p - from..]
  {
  }

  lemma NextPiece(level: int, s: string, before: string)
    requires s != []
    ensures var n := LineLength(s);
      && before + Stream(Pieces(level, s)) ==
           before + (TagFor(level, s) + s[..n]) + Stream(Pieces(LevelAfter(level, s[..n]), s[n..]))
      && FinalLevel(level, s) == FinalLevel(LevelAfter(level, s[..n]), s[n..])
  {
    hide LineLength, TagFor, LevelAfter;
    var n := LineLength(s);
    var p, rest := Piece(TagFor(level, s), s[..n]), Pieces(LevelAfter(level, s[..n]), s[n..]);
    assert Pieces(level, s) == [p] + rest;
    hide Pieces, FinalLevel;
    StreamCons(p, rest, before);
  }

  lemma StreamCons(p: Piece, rest: seq<Piece>, before: string)
    ensures before + Stream([p] + rest) == before + (p.tag + p.text) + Stream(rest)
  {
    assert ([p] + rest)[1..] == rest;
  }

  /** One line, or the part of one, goes to the log as it is; only at a line start, and when it has no tag of
      its own, "<4>" is put in front. */
  lemma OneLine(level: int, line: string, before: string)
    ensures line == "" ==> before + Stream(Pieces(level, line)) == before && FinalLevel(level, line) == level
    ensures line != "" && '\n' !in line[..|line| - 1] ==>
      var tagged := |line| >= 3 && line[0] == '<' && '0' <= line[1] <= '7' && line[2] == '>';
      && before + Stream(Pieces(level, line)) == (if level < 0 && !tagged then before + "<4>" + line else before + line)
      && FinalLevel(level, line) == (if line[|line| - 1] == '\n' then -1
                                     else if level >= 0 then level
                                     else if tagged then line[1] as int - '0' as int else 4)
  {
    if line == "" {
      NoPieces(level, before);
    } else if '\n' !in line[..|line| - 1] {
      FirstLine(line, "");
      assert line + "" == line;
      var n := LineLength(line);
      assert line[..n] == line && line[n..] == "";
      hide LineLength;
      NextPiece(level, line, before);
      var tag := TagFor(level, line);
      NoPieces(LevelAfter(level, line), before + (tag + line));
      assert before + ("" + line) == before + line && before + ("<4>" + line) == before + "<4>" + line;
    }
  }

  /** A text of several lines is logged as if each were given in a call of its own. */
  lemma LineByLine(level: int, line: string, rest: string)
    requires line != "" && '\n' !in line[..|line| - 1] && line[|line| - 1] == '\n'
    ensures Stream(Pieces(level, line + rest)) == Stream(Pieces(level, line)) + Stream(Pieces(-1, rest))
    ensures FinalLevel(level, line + rest) == FinalLevel(-1, rest)
  {
    hide HasTag, LineLength, Pieces, FinalLevel, Stream;
    var s := line + rest;
    FirstLine(line, rest);
    FirstLine(line, "");
    Parts(line, rest);
    TagWithinLine(s);
    TagWithinLine(line);
    FirstOf(level, s);
    FirstOf(level, line);
    NoPieces(-1, TagFor(level, line) + line);
  }

  lemma Parts(line: string, rest: string)
    ensures (line + rest)[..|line|] == line && (line + rest)[|line|..] == rest
    ensures line[..|line|] == line && line[|line|..] == "" && line + "" == line
  {
  }

  lemma FirstOf(level: int, s: string)
    requires s != []
    ensures var n := LineLength(s);
      && Stream(Pieces(level, s)) ==
           (TagFor(level, s) + s[..n]) + Stream(Pieces(LevelAfter(level, s[..n]), s[n..]))
      && FinalLevel(level, s) == FinalLevel(LevelAfter(level, s[..n]), s[n..])
  {
    hide LineLength, TagFor, LevelAfter, Pieces, FinalLevel;
    NextPiece(level, s, []);
    var n := LineLength(s);
    var line := TagFor(level, s) + s[..n];
    assert [] + Stream(Pieces(level, s)) == Stream(Pieces(level, s));
    assert [] + line == line;
  }

  lemma {:induction false} FirstLine(line: string, rest: string)
    requires line != "" && '\n' !in line[..|line| - 1] && (rest == "" || line[|line| - 1] == '\n')
    ensures LineLength(line + rest) == |line|
  {
    assert (line + rest)[1..] == line[1..] + rest;
    if |line| > 1 {
      assert line[..|line| - 1][0] == line[0];
      assert line[1..][..|line| - 2] == line[..|line| - 1][1..];
      FirstLine(line[1..], rest);
    }
  }

  // ----- where tags stand -----

  /** "<4>" stands before a piece exactly if the piece starts a line, being the first with `first` or following
      a line feed, and has no tag of its own. A line feed ends a piece. */
  ghost predicate Proper(first: bool, ps: seq<Piece>)
    decreases ps
  {
    ps == [] ||
    var t := ps[0].text;
    && t != "" && '\n' !in t[..|t| - 1]
    && ps[0].tag ==
       (if first && !(|t| >= 3 && t[0] == '<' && '0' <= t[1] <= '7' && t[2] == '>') then "<4>" else "")
    && Proper(t[|t| - 1] == '\n', ps[1..])
  }

  /** What follows the pieces starts a line. */
  ghost predicate FreshAfter(first: bool, ps: seq<Piece>)
    decreases ps
  {
    if ps == [] then first
    else FreshAfter(ps[0].text != "" && ps[0].text[|ps[0].text| - 1] == '\n', ps[1..])
  }

  lemma {:induction false} ProperConcat(first: bool, a: seq<Piece>, b: seq<Piece>)
    requires Proper(first, a) && Proper(FreshAfter(first, a), b)
    ensures Proper(first, a + b) && FreshAfter(first, a + b) == FreshAfter(FreshAfter(first, a), b)
    decreases a
  {
    if a == [] {
      assert a + b == b;
    } else {
      assert (a + b)[1..] == a[1..] + b;
      ProperConcat(a[0].text[|a[0].text| - 1] == '\n', a[1..], b);
    }
  }

  lemma ProperCons(first: bool, p: Piece, rest: seq<Piece>)
    requires var t := p.text;
      && t != "" && '\n' !in t[..|t| - 1]
      && p.tag == (if first && !(|t| >= 3 && t[0] == '<' && '0' <= t[1] <= '7' && t[2] == '>') then "<4>" else "")
      && Proper(t[|t| - 1] == '\n', rest)
    ensures Proper(first, [p] + rest)
    ensures FreshAfter(first, [p] + rest) == FreshAfter(p.text[|p.text| - 1] == '\n', rest)
  {
    assert ([p] + rest)[1..] == rest;
  }

  lemma LineProper(level: int, s: string)
    requires s != []
    ensures var n := LineLength(s); var p := Piece(TagFor(level, s), s[..n]);
      && p.text != "" && '\n' !in p.text[..n - 1]
      && p.tag == (if level < 0 && !(n >= 3 && s[0] == '<' && '0' <= s[1] <= '7' && s[2] == '>') then "<4>" else "")
      && (p.text[n - 1] == '\n' <==> LevelAfter(level, p.text) < 0)
  {
    TagWithinLine(s);
  }

  lemma {:induction false} PiecesProper(level: int, s: string)
    ensures Proper(level < 0, Pieces(level, s))
    ensures FreshAfter(level < 0, Pieces(level, s)) <==> FinalLevel(level, s) < 0
    decreases |s|
  {
    if s != [] {
      var n := LineLength(s);
      var after := LevelAfter(level, s[..n]);
      LineProper(level, s);
      PiecesProper(after, s[n..]);
      hide LineLength, LevelAfter, TagFor, Proper, FreshAfter;
      var p := Piece(TagFor(level, s), s[..n]);
      assert Pieces(level, s) == [p] + Pieces(after, s[n..]);
      ProperCons(level < 0, p, Pieces(after, s[n..]));
    }
  }

  /** However the arguments cut the text into calls: no tag is missing and none stands anywhere else. */
  lemma {:induction false} RunProper(level: int, lines: seq<string>)
    ensures Proper(level < 0, RunPieces(level, lines))
    ensures FreshAfter(level < 0, RunPieces(level, lines)) <==> RunLevel(level, lines) < 0
  {
    if lines != [] {
      var n := |lines| - 1;
      RunProper(level, lines[..n]);
      var l := RunLevel(level, lines[..n]);
      PiecesProper(l, lines[n]);
      ProperConcat(level < 0, RunPieces(level, lines[..n]), Pieces(l, lines[n]));
    }
  }

  lemma NoPieces(level: int, before: string)
    ensures before + Stream(Pieces(level, [])) == before && FinalLevel(level, []) == level
  {
  }
}
