/** The Kermit receiver of cmd_load.c: packets are checked while their data is already being written
    to memory, and a failed or repeated packet is undone by going back to a checkpoint. Packet layout,
    control prefixing and block check follow section 6 of the Kermit Protocol Manual. */
module Kermit {
  import opened CTypes

  const START_CHAR: byte := 0x01
  const ETX_CHAR: byte := 0x03
  const END_CHAR: byte := 0x0D
  const SPACE: byte := 0x20
  const K_ESCAPE: byte := 0x23
  const SEND_TYPE: byte := 0x53
  const DATA_TYPE: byte := 0x44
  const BREAK_TYPE: byte := 0x42

  function ToChar(x: int): byte {
    (x + SPACE) % 0x100
  }

  function UnChar(x: byte): byte {
    (x - SPACE) % 0x100
  }

  /** (c & 0xE0) == 0 */
  predicate IsControl(c: byte) {
    c < 0x20
  }

  /** The block check character of type 1 for a sum of characters. */
  function BlockCheck(sum: nat): byte {
    ToChar((sum + (sum / 64) % 4) % 64)
  }

  // ----- control prefixing -----

  /** ktrans: (in & 0x60) == 0x40 clears bit 6, (in & 0x7f) == 0x3f sets it. */
  function KTrans(c: byte): byte {
    if (c / 32) % 4 == 2 then c - 0x40
    else if c % 0x80 == 0x3F then c + 0x40
    else c
  }

  /** What has been stored and whether the last character was the quote. */
  datatype DataState = DataState(stored: seq<byte>, escape: bool)

  /** k_data_char with bin_data_char. */
  function FeedChar(d: DataState, quote: byte, c: byte): DataState {
    if d.escape then DataState(d.stored + [KTrans(c)], false)
    else if c == quote then d.(escape := true)
    else d.(stored := d.stored + [c])
  }

  ghost function Feed(d: DataState, quote: byte, data: seq<byte>): DataState {
    if data == [] then d
    else FeedChar(Feed(d, quote, data[..|data| - 1]), quote, data[|data| - 1])
  }

  lemma {:induction false} FeedConcat(d: DataState, quote: byte, a: seq<byte>, b: seq<byte>)
    ensures Feed(d, quote, a + b) == Feed(Feed(d, quote, a), quote, b)
  {
    if b == [] {
      assert a + b == a;
    } else {
      FeedConcat(d, quote, a, b[..|b| - 1]);
      assert (a + b)[..|a + b| - 1] == a + b[..|b| - 1];
    }
  }

  /** The sender's side, section 6 of the protocol manual: control characters travel as the quote and
      the character with bit 6 inverted, the quote (with or without the high bit) as the quote and itself. */
  function Prefixed(b: byte, quote: byte): seq<byte> {
    if b % 0x80 < 0x20 then [quote, b + 0x40]
    else if b % 0x80 == 0x7F then [quote, b - 0x40]
    else if b % 0x80 == quote % 0x80 then [quote, b]
    else [b]
  }

  ghost function PrefixedAll(bs: seq<byte>, quote: byte): seq<byte> {
    if bs == [] then [] else PrefixedAll(bs[..|bs| - 1], quote) + Prefixed(bs[|bs| - 1], quote)
  }

  /** The quotes the protocol allows, 33 to 62 and 96 to 126, and whatever else ktrans does not change. */
  predicate FaithfulQuote(q: byte) {
    q % 0x80 <= 62 || q % 0x80 >= 96
  }

  lemma {:induction false} FeedPrefixed(d: DataState, b: byte, quote: byte)
    requires !d.escape && FaithfulQuote(quote)
    ensures Feed(d, quote, Prefixed(b, quote)) == DataState(d.stored + [b], false)
  {
    var p := Prefixed(b, quote);
    if |p| == 2 {
      assert p[..1][..0] == [] && p[..1] == [quote];
      assert Feed(d, quote, p[..1]) == FeedChar(Feed(d, quote, p[..1][..0]), quote, quote);
    } else {
      assert p[..0] == [];
    }
  }

  /** Decoding undoes the sender's prefixing. */
  lemma {:induction false} UnquoteUndoesPrefixing(d: DataState, bs: seq<byte>, quote: byte)
    requires !d.escape && FaithfulQuote(quote)
    ensures Feed(d, quote, PrefixedAll(bs, quote)) == DataState(d.stored + bs, false)
  {
    if bs == [] {
      assert d.stored + bs == d.stored;
    } else {
      hide Feed, FeedChar, Prefixed, FaithfulQuote;
      var n := |bs| - 1;
      UnquoteUndoesPrefixing(d, bs[..n], quote);
      FeedConcat(d, quote, PrefixedAll(bs[..n], quote), Prefixed(bs[n], quote));
      FeedPrefixed(DataState(d.stored + bs[..n], false), bs[n], quote);
      assert d.stored + bs[..n] + [bs[n]] == d.stored + bs;
    }
  }

  /** Of all bytes that can be asked for as the quote, the round trip holds for exactly these. */
  lemma {:induction false} RoundTripIff(quote: byte)
    ensures (forall bs: seq<byte> :: Feed(DataState([], false), quote, PrefixedAll(bs, quote)) == DataState(bs, false))
            <==> FaithfulQuote(quote)
  {
    hide Feed, PrefixedAll, FaithfulQuote, KTrans;
    if FaithfulQuote(quote) {
      forall bs: seq<byte>
        ensures Feed(DataState([], false), quote, PrefixedAll(bs, quote)) == DataState(bs, false)
      {
        UnquoteUndoesPrefixing(DataState([], false), bs, quote);
        assert [] + bs == bs;
      }
    } else {
      QuoteChanges(quote);
    }
  }

  /** Any other quote does not come back itself. */
  lemma {:induction false} QuoteChanges(quote: byte)
    requires !FaithfulQuote(quote)
    ensures Feed(DataState([], false), quote, PrefixedAll([quote], quote)) == DataState([KTrans(quote)], false)
    ensures KTrans(quote) != quote
  {
    var bs := [quote];
    assert bs[..0] == [] && PrefixedAll(bs[..0], quote) == [];
    assert PrefixedAll(bs, quote) == [] + Prefixed(quote, quote) == [quote, quote];
    hide PrefixedAll, Feed;
    FeedQuoteTwice(quote);
  }

  /** Every character leaves a trace: a byte more, or a pending quote. */
  lemma {:induction false} FeedGrows(d: DataState, quote: byte, data: seq<byte>)
    ensures var f := Feed(d, quote, data);
            |data| <= 2 * |f.stored| + (if f.escape then 1 else 0) - 2 * |d.stored| - (if d.escape then 1 else 0)
  {
    if data != [] {
      FeedGrows(d, quote, data[..|data| - 1]);
    }
  }

  lemma {:induction false} FeedQuoteTwice(quote: byte)
    ensures Feed(DataState([], false), quote, [quote, quote]) == DataState([KTrans(quote)], false)
  {
    var p, d := [quote, quote], DataState([], false);
    assert p[..1] == [quote] && p[..1][..0] == [];
    assert Feed(d, quote, p[..1]) == FeedChar(Feed(d, quote, p[..1][..0]), quote, quote);
  }
}
