/** The formats on the wire, apart from the functions that write and read them (RFC 7252, RFC 7959 and RFC 6690). */
module CoapWire {
  import opened Octets
  import opened Arith
  import opened CoapOption
  import opened CoapInt
  import opened CoapMessage
  import opened CoapPacket
  import opened CoapLinks
  import CoapBlocks

  /** The characters of a string as bytes. */
  function Ascii(s: string): seq<byte>
    requires forall i :: 0 <= i < |s| ==> s[i] < 128 as char
  {
    seq(|s|, i requires 0 <= i < |s| => s[i] as int)
  }

  /** The first four bytes: version 1, type, token length, code, message id. */
  lemma LeadFormat(p: Msg)
    requires Ranged(p)
    ensures var d := Packet(p);
      && |d| >= 4 + |p.token| && d[0] == 1 * 64 + p.kind * 16 + |p.token| && d[1] == p.code
      && 256 * (d[2] as int) + d[3] == p.mid && d[4..4 + |p.token|] == p.token
  {
    hide OptionBytes, Ranged;
    RangedParts(p);
    var d := Packet(p);
    var rest := OptionBytes(p) + Tail(p.payload);
    assert Lead(p) + p.token + OptionBytes(p) + Tail(p.payload) == Lead(p) + (p.token + rest);
    assert forall i :: 0 <= i < 4 ==> d[i] == Lead(p)[i];
    assert d[4..4 + |p.token|] == p.token;
  }

  /** Deltas and lengths of options at the bounds of their three forms. */
  lemma HeaderFormat()
    ensures Header(0, 0) == [0x00] && Header(11, 5) == [0xB5] && Header(12, 12) == [0xCC]
    ensures Header(13, 13) == [0xDD, 0, 0] && Header(35, 268) == [0xDD, 22, 255]
    ensures Header(269, 270) == [0xEE, 0, 0, 0, 1] && Header(1, 269 + 0x1234) == [0x1E, 0x12, 0x34]
  {
  }

  /** Numbers are written with the most significant byte first, and without zeros in front. */
  lemma IntFormat()
    ensures IntBytes(0) == [] && IntBytes(1) == [1] && IntBytes(255) == [255] && IntBytes(256) == [1, 0]
    ensures IntBytes(0x12_3456) == [0x12, 0x34, 0x56] && IntBytes(0xFEDC_BA98) == [0xFE, 0xDC, 0xBA, 0x98]
  {
  }

  /** Number, more flag and size exponent of a block. */
  lemma BlockFormat()
    ensures BlockValue(Block(3, true, 64, 192)) == 0x3A && BlockValue(Block(0, false, 16, 0)) == 0x00
    ensures BlockValue(Block(1, false, 1024, 1024)) == 0x16
    ensures ParseBlock(0x3A) == Block(3, true, 64, 192) && ParseBlock(0x16) == Block(1, false, 1024, 1024)
  {
    assert Pow2(6) == 2 * Pow2(5) == 4 * Pow2(4) == 8 * Pow2(3);
    assert Pow2(2) == 2 * Pow2(1) == 4 * Pow2(0);
  }

  /** What follows the options: the marker and the payload, of which the parser takes the first 1024 bytes. */
  lemma PayloadTaken(d: seq<byte>)
    requires Complete(d)
    ensures Parsed(d).1 == BAD_REQUEST_4_00 <==> d[0] / 64 != 1
    ensures Parsed(d).1 == NO_ERROR ==>
      var p := PayloadOf(d, 4 + TokenLength(d));
      Parsed(d).0.payload == if |p| > 1024 then p[..1024] else p
  {
    hide WellFormed, DecodeAll, PayloadOf, HeaderOf;
    if d[0] / 64 == 1 {
      var i := HEADER_LEN + TokenLength(d);
      NotBadRequest(HeaderOf(d, d[HEADER_LEN..i]), DecodeAll(d, i, 0));
    }
  }

  lemma {:induction false} NotBadRequest(m: Msg, opts: seq<Opt>)
    ensures ReceiveAll(m, opts).1 != BAD_REQUEST_4_00
    decreases |opts|
  {
    hide IntValue, ParseBlock;
    if opts != [] {
      NotBadRequest(Receive(m, opts[0].number, opts[0].value).0, opts[1..]);
    }
  }

  /** What is said of a block that does not exist. */
  lemma OutOfScope()
    ensures CoapBlocks.OUT_OF_SCOPE == Ascii("BlockOutOfScope")
  {
  }

  /** The list of resources in link format. */
  lemma LinkFormat(rs: seq<Resource>, i: nat)
    requires i <= |rs|
    ensures Text(rs, 0) == []
    ensures i > 0 ==>
      var r := rs[i - 1];
      Text(rs, i) ==
        Text(rs, i - 1) + (if i > 1 then Ascii(",") else []) + Ascii("</") + r.url + Ascii(">") +
          (if r.attributes == [] then [] else Ascii(";") + r.attributes)
  {
    assert Ascii("</") == [LESS, SLASH] && Ascii(",") == [COMMA] && Ascii(">") == [GREATER];
    assert Ascii(";") == [SEMICOLON];
    if i > 0 {
      var r, t := rs[i - 1], Text(rs, i - 1) + (if i > 1 then [COMMA] else []);
      var attributes := if r.attributes == [] then [] else [SEMICOLON] + r.attributes;
      assert Link(r) == [LESS, SLASH] + r.url + [GREATER] + attributes;
      assert t + ([LESS, SLASH] + r.url + [GREATER] + attributes) == t + [LESS, SLASH] + r.url + [GREATER] + attributes;
    }
  }
}
