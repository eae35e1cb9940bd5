/** Messages sent in transactions: which of them are kept to be sent again. */
module CoapSending {
  import opened Octets
  import opened ContikiList
  import opened CoapTransactions
  import opened CoapMessage
  import opened CoapPacket
  import CoapSerialize

  /** The type of confirmable messages. */
  const TYPE_CON := 0

  /** The type looked at in the packet is the one the message was written with. */
  lemma ConfirmableExactly(p: Msg)
    requires Ranged(p)
    ensures Packet(p) != [] && (Confirmable(Packet(p)) <==> p.kind == TYPE_CON)
  {
    hide Ranged, OptionBytes;
    RangedParts(p);
    assert Packet(p)[0] == Lead(p)[0];
  }

  /** Sent once more, a confirmable message is kept, its timer running, until it has been sent five times. */
  method SendAgain(ts: Transactions, t: Node<Trans>, ghost p: Msg, time: nat, rand: nat)
    requires ts.ValidBut(t) && t in ts.list.items && CoapTransactions.Ready(t.value, ts.clock) && ts.clock <= time
    requires Ranged(p) && t.value.packet == Packet(p)
    modifies ts, ts.list, ts.memb.count, ts.memb.mem
    ensures ts.Valid() && ts.clock == time && t.value.sent == old(t.value.sent) + [time]
    ensures t in ts.list.items <==> p.kind == TYPE_CON && |t.value.sent| <= MAX_RETRANSMIT
    ensures t in ts.list.items ==> t.value.armed && ts.list.items == old(ts.list.items)
    ensures t !in ts.list.items ==> ts.list.items == Without(old(ts.list.items), t)
    ensures t.value.packet == Packet(p) && t.value.mid == old(t.value.mid) && t.value.peer == old(t.value.peer)
  {
    hide Packet, Confirmable, InUse, Linked, CoapTransactions.Ready, CoapTransactions.Open, Without;
    ConfirmableExactly(p);
    ts.SendTransaction(t, time, rand);
  }

  /** A message is written into a new transaction, if there is one, and sent. */
  method SendMessage(ts: Transactions, p: Msg, buffer: array<byte>, peer: nat, time: nat, rand: nat)
    returns (t: Node?<Trans>)
    requires ts.Valid() && ts.clock <= time
    requires Ranged(p) && |Head(p)| <= MAX_HEADER_SIZE && |Packet(p)| <= buffer.Length
    modifies ts, ts.list, ts.memb.count, ts.memb.mem, buffer
    ensures ts.Valid()
    ensures t == null <==> forall n :: n in ts.memb.mem ==> n in old(ts.list.items)
    ensures t == null ==> ts.list.items == old(ts.list.items)
    ensures t != null ==>
      t.value.mid == p.mid && t.value.peer == peer && t.value.packet == Packet(p) && t.value.sent == [time]
    ensures t != null && p.kind == TYPE_CON ==> ts.list.items == old(ts.list.items) + [t] && t.value.armed
    ensures t != null && p.kind != TYPE_CON ==> ts.list.items == old(ts.list.items)
  {
    hide Packet, Head, Confirmable, InUse, Linked, CoapTransactions.Ready, CoapTransactions.Open, Without;
    ConfirmableExactly(p);
    t := ts.NewTransaction(p.mid, peer);
    if t != null {
      var length := CoapSerialize.SerializeMessage(p, buffer);
      NewReady(t.value.(packet := buffer[..length]), ts.clock);
      ts.Store(t, buffer[..length]);
      LinkedDistinct(ts.list.head, ts.list.items);
      WithoutAt(ts.list.items, |ts.list.items| - 1);
      SendAgain(ts, t, p, time, rand);
    }
  }
}
