/** A packet written by one node and read, in the same buffer, by another. */
module CoapExchange {
  import opened Octets
  import opened CoapOption
  import opened CoapMessage
  import opened CoapPacket
  import CoapSerialize
  import CoapParse

  lemma SentInBitmap(p: Msg)
    requires Ranged(p)
    ensures CoapParse.InBitmap(Options(p))
  {
    RangedParts(p);
    OptionsIs(p);
    SentOrdered(p, 0, 0);
  }

  /**
   * What arrives is what was sent; the texts, block descriptors and accepted types exactly when they can be carried.
   * With Proxy-Uri among the options the packet is refused, and its payload not read.
   */
  method Exchange(p: Msg, buffer: array<byte>) returns (r: Msg, st: Status)
    requires Ranged(p) && |Head(p)| <= MAX_HEADER_SIZE && |p.payload| <= MAX_CHUNK_SIZE
    requires |Packet(p)| < buffer.Length
    modifies buffer
    ensures st == if PROXY_URI in p.options then PROXYING_NOT_SUPPORTED_5_05 else NO_ERROR
    ensures r.kind == p.kind && r.code == p.code && r.mid == p.mid && r.token == p.token
    ensures r.payload == if PROXY_URI in p.options then [] else p.payload
    ensures Agrees(p, r) <==> Carriable(p)
  {
    hide Packet, Head, Ranged, Agrees, Carriable, Complete, DecodeAll, CoapParse.InBitmap, CoapParse.View;
    PacketBack(p);
    SentInBitmap(p);
    var length := CoapSerialize.SerializeMessage(p, buffer);
    var h;
    h, st := CoapParse.ParseMessage(buffer, length);
    r := CoapParse.View(h, buffer[..]);
  }
}
