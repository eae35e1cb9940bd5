/** Whole packets as bytes: writing them, reading them, and that reading undoes writing. */
module CoapPacket {
  import opened Octets
  import opened CoapOption
  import opened CoapMessage

  const MAX_HEADER_SIZE := 70
  const MAX_CHUNK_SIZE := 1024
  const HEADER_LEN := 4

  function Lead(p: Msg): (h: seq<byte>)
    requires p.kind < 4 && |p.token| <= TOKEN_LEN && p.mid < 0x1_0000
    ensures |h| == HEADER_LEN
  {
    [0x40 + p.kind * 16 + |p.token|, p.code, p.mid / 256, p.mid % 256]
  }

  function OptionBytes(p: Msg): seq<byte>
    requires Typed(p)
  {
    SentOrdered(p, 0, 0);
    EncodeAll(0, Options(p))
  }

  /** The payload with its marker, if there is one. */
  function Tail(payload: seq<byte>): seq<byte> {
    if payload == [] then [] else [0xFF] + payload
  }

  /** Everything in front of the payload marker. */
  function Head(p: Msg): seq<byte>
    requires Ranged(p)
  {
    Lead(p) + p.token + OptionBytes(p)
  }

  /** The packet on the wire. */
  function Packet(p: Msg): seq<byte>
    requires Ranged(p)
  {
    Head(p) + Tail(p.payload)
  }

  function TokenLength(d: seq<byte>): nat
    requires d != []
  {
    if d[0] % 16 < TOKEN_LEN then d[0] % 16 else TOKEN_LEN
  }

  /** A packet the parser, which checks no lengths, can be given. */
  predicate Complete(d: seq<byte>) {
    |d| >= HEADER_LEN &&
    (d[0] / 64 == 1 ==> HEADER_LEN + TokenLength(d) <= |d| && WellFormed(d, HEADER_LEN + TokenLength(d)))
  }

  function HeaderOf(d: seq<byte>, token: seq<byte>): Msg
    requires |d| >= HEADER_LEN
  {
    Empty(d[0] / 16 % 4, d[1], 256 * (d[2] as int) + d[3], token)
  }

  /**
   * What a received packet says; the payload is cut at the chunk size. Of another version only the header is looked
   * at.
   */
  function Parsed(d: seq<byte>): (Msg, Status)
    requires Complete(d)
  {
    var i := HEADER_LEN + TokenLength(d);
    if d[0] / 64 != 1 then (HeaderOf(d, seq(TokenLength(d), _ => 0)), BAD_REQUEST_4_00)
    else
      var (m, st) := ReceiveAll(HeaderOf(d, d[HEADER_LEN..i]), DecodeAll(d, i, 0));
      if st != NO_ERROR then (m, st) else (m.(payload := Cut(PayloadOf(d, i), MAX_CHUNK_SIZE)), NO_ERROR)
  }

  lemma LeadBack(d: seq<byte>, p: Msg)
    requires Ranged(p) && At(d, 0, Lead(p) + p.token)
    ensures |d| >= HEADER_LEN && TokenLength(d) == |p.token| && HEADER_LEN + |p.token| <= |d|
    ensures d[0] / 64 == 1
    ensures HeaderOf(d, d[HEADER_LEN..HEADER_LEN + |p.token|]) == Empty(p.kind, p.code, p.mid, p.token)
  {
    var l := Lead(p);
    AtSplit(d, 0, l, p.token);
    assert forall k :: 0 <= k < HEADER_LEN ==> d[k] == d[0..HEADER_LEN][k];
  }

  /** The parts of a packet are where the parser looks for them. */
  lemma PartsBack(p: Msg)
    requires Ranged(p) && |Head(p)| <= MAX_HEADER_SIZE
    ensures var d, i := Packet(p), HEADER_LEN + |p.token|;
      && |d| >= HEADER_LEN && TokenLength(d) == |p.token| && d[0] / 64 == 1 && i <= |d|
      && HeaderOf(d, d[HEADER_LEN..i]) == Empty(p.kind, p.code, p.mid, p.token)
      && WellFormed(d, i) && DecodeAll(d, i, 0) == Options(p) && PayloadOf(d, i) == p.payload
  {
    hide At, Lead, EncodeAll, Options, WellFormed, DecodeAll, PayloadOf, Ordered, Writable, HeaderOf, TokenLength,
      Ranged, Empty;
    RangedParts(p);
    var d, tail := Packet(p), Tail(p.payload);
    var opts, e := Options(p), OptionBytes(p);
    SentOrdered(p, 0, 0);
    OptionsIs(p);
    AllAt(d, Lead(p) + p.token, e, tail);
    LeadBack(d, p);
    ShortWritable(0, opts, PROXY_URI);
    OptionsBack(d, HEADER_LEN + |p.token|, 0, opts, tail);
  }

  /**
   * Reading back what was written: type, code, message id, token and payload return, and all options and their fields
   * do exactly when every set field can be carried. A packet with Proxy-Uri is refused, with its options read and its
   * payload not looked at.
   */
  lemma PacketBack(p: Msg)
    requires Ranged(p) && |Head(p)| <= MAX_HEADER_SIZE && |p.payload| <= MAX_CHUNK_SIZE
    ensures Complete(Packet(p)) && TokenLength(Packet(p)) == |p.token|
    ensures DecodeAll(Packet(p), HEADER_LEN + |p.token|, 0) == Options(p)
    ensures var (r, st) := Parsed(Packet(p));
      && st == Answer(p) && r.kind == p.kind && r.code == p.code && r.mid == p.mid && r.token == p.token
      && r.payload == (if st == NO_ERROR then p.payload else [])
      && (Agrees(p, r) <==> Carriable(p))
  {
    hide Packet, Head, Options, Rebuilt, Agrees, Carriable, WellFormed, DecodeAll, PayloadOf, HeaderOf, TokenLength,
      Ranged,
      ReceiveAll, Empty;
    RangedParts(p);
    PartsBack(p);
    OptionsRebuild(p);
    var q := Empty(p.kind, p.code, p.mid, p.token);
    EmptyIs(p.kind, p.code, p.mid, p.token);
    RebuiltHeader(q, p, 0);
    AgreesPayload(p, Rebuilt(q, p, 0), p.payload);
  }

  lemma RangedParts(p: Msg)
    requires Ranged(p)
    ensures Typed(p) && p.kind < 4 && |p.token| <= TOKEN_LEN && p.mid < 0x1_0000
  {
  }

  lemma OptionsIs(p: Msg)
    requires Typed(p)
    ensures Options(p) == SentFrom(p, 0)
  {
  }

  lemma EmptyIs(kind: nat, code: byte, mid: nat, token: seq<byte>)
    ensures var q := Empty(kind, code, mid, token);
      q.kind == kind && q.code == code && q.mid == mid && q.token == token && q.payload == []
  {
  }

  lemma AgreesPayload(p: Msg, r: Msg, payload: seq<byte>)
    ensures Agrees(p, r) <==> Agrees(p, r.(payload := payload))
  {
    hide ORDER;
    forall i | 0 <= i < |ORDER| ensures CameBack(p, r, ORDER[i]) <==> CameBack(p, r.(payload := payload), ORDER[i]) {
    }
  }

  lemma AllAt(d: seq<byte>, a: seq<byte>, b: seq<byte>, c: seq<byte>)
    requires d == a + b + c
    ensures At(d, 0, a) && At(d, |a|, b) && At(d, |a| + |b|, c)
  {
  }
}
