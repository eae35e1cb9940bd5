/** Any run of reads, writes and seeks on an open file behaves like the same run on a byte string. */
module FatRun {
  import opened Octets
  import opened FatAlloc
  import opened FatBytesSpec
  import FatCursor
  import opened FatState
  import opened FatVol
  import opened FatFile

  datatype Op = DoRead(n: nat) | DoWrite(data: seq<byte>) | DoSeek(ofs: nat)

  datatype Reply = Got(bytes: seq<byte>) | Stored(count: nat) | Moved

  /** A byte string, a position in it, and whether the volume that holds it has no free cluster. */
  datatype Text = Text(bytes: seq<byte>, pos: nat, full: bool)

  predicate Legal(op: Op) {
    match op
    case DoRead(n) => true
    case DoWrite(data) => |data| < 0x1_0000_0000
    case DoSeek(ofs) => ofs < 0x1_0000_0000
  }

  /**
   * One operation on the byte string. A write is cut short only on a full volume, or when the file would reach 4 GiB,
   * and then nothing is written; a seek past the end stops short only on a full volume.
   */
  ghost predicate Step(t: Text, op: Op, reply: Reply, t': Text) {
    && t.pos <= |t.bytes| && t'.pos <= |t'.bytes|
    && match op
       case DoRead(n) =>
         reply == Got(Slice(t.bytes, t.pos, n)) && t'.bytes == t.bytes && t'.pos == t.pos + |reply.bytes|
       case DoWrite(data) =>
         && reply.Stored? && reply.count <= |data|
         && t'.bytes == Overwrite(t.bytes, t.pos, data[..reply.count]) && t'.pos == t.pos + reply.count
         && (|t.bytes| + |data| >= 0x1_0000_0000 ==> reply.count == 0)
         && (|t.bytes| + |data| < 0x1_0000_0000 && reply.count < |data| ==> t'.full)
       case DoSeek(ofs) =>
         && reply == Moved && t.bytes <= t'.bytes && t'.pos <= ofs
         && |t'.bytes| == (if t'.pos > |t.bytes| then t'.pos else |t.bytes|)
         && (t'.pos < ofs ==> |t.bytes| <= t'.pos && t'.full)
  }

  /** The replies are those of the byte string, one operation after the other. */
  ghost predicate Explained(trace: seq<Text>, ops: seq<Op>, replies: seq<Reply>) {
    && |trace| == |replies| + 1 && |replies| <= |ops|
    && forall i :: 0 <= i < |replies| ==> Step(trace[i], ops[i], replies[i], trace[i + 1])
  }

  ghost function Now(f: File): Text
    requires f.Usable() && !f.error && !f.fs.disk.failed
    reads f, f.buf, f.fs, f.fs.win, f.fs.disk
  {
    Text(f.Content(), f.fptr, NoFree(f.fs.View().Table()))
  }

  /** One operation on the file. */
  method Perform(f: File, op: Op) returns (ok: bool, reply: Reply)
    requires f.Usable() && !f.error && f.canRead && f.canWrite && Legal(op)
    modifies f, f.buf, f.fs, f.fs.win, f.fs.disk
    ensures f.Usable() && ok == !f.error && (old(f.fs.disk.failed) ==> f.fs.disk.failed)
    ensures !f.fs.disk.failed ==> ok && f.St().Follows(old(f.St()))
    ensures !f.fs.disk.failed ==> Step(old(Now(f)), op, reply, Now(f))
  {
    hide State.Sound, State.Data, State.Bytes, State.Follows, Vol.Valid, State.Ready, Overwrite, Slice, NoFree,
      Vol.Table;
    match op
    case DoRead(n) =>
      var rbuff := new byte[n](i => 0);
      var r, br := f.Read(rbuff, n);
      return r == FR_OK, Got(rbuff[..br]);
    case DoWrite(data) =>
      var r, bw := f.Write(data);
      return r == FR_OK, Stored(bw);
    case DoSeek(ofs) =>
      var r := f.Seek(ofs);
      return r == FR_OK, Moved;
  }

  /** A whole run; it stops early only at a disk error. */
  method Replay(f: File, ops: seq<Op>) returns (replies: seq<Reply>, ghost trace: seq<Text>)
    requires f.Usable() && !f.error && !f.fs.disk.failed && f.canRead && f.canWrite && forall op :: op in ops ==>
      Legal(op)
    modifies f, f.buf, f.fs, f.fs.win, f.fs.disk
    ensures !f.fs.disk.failed ==>
      && f.Usable() && !f.error && f.St().Follows(old(f.St()))
      && |replies| == |ops| && Explained(trace, ops, replies)
      && trace[0] == old(Now(f)) && trace[|ops|] == Now(f)
  {
    hide State.Sound, State.Data, State.Bytes, State.Follows, Vol.Valid, Step, FatCursor.Aimed, NoFree, Vol.Table;
    replies, trace := [], [Now(f)];
    ghost var s := f.St();
    FollowsSelf(s);
    ValidOf(s);
    for i := 0 to |ops|
      invariant f.Usable() && !f.error && |replies| == i
      invariant !f.fs.disk.failed ==> f.St().Follows(s) && Explained(trace, ops, replies)
      invariant !f.fs.disk.failed ==> trace[0] == old(Now(f)) && trace[i] == Now(f)
    {
      ghost var s1 := f.St();
      var ok, reply := Perform(f, ops[i]);
      if !ok { return; }
      replies := replies + [reply];
      if !f.fs.disk.failed {
        FollowsTrans(s, s1, f.St());
        trace := trace + [Now(f)];
      }
    }
  }
}
