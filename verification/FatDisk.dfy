/** The block device behind the file system: an array of 512-byte sectors. */
module FatDisk {
  import opened FatBytes
  import opened Octets

  /**
   * Any call may fail; a failed call transfers nothing. failed records whether a call whose answer is
   * checked has failed so far, lost whether one whose answer is ignored has.
   */
  class Disk {
    var sectors: seq<Sector>
    ghost var failed: bool
    ghost var lost: bool

    constructor (init: seq<Sector>)
      ensures sectors == init && !failed && !lost
    {
      sectors := init;
      failed, lost := false, false;
    }

    /** disk_read of one sector. */
    method ReadOne(buf: array<byte>, sect: nat) returns (ok: bool)
      requires buf.Length == 512 && AllSectors(sectors)
      modifies this`failed, buf
      ensures ok ==> sect < |sectors| && buf[..] == sectors[sect]
      ensures !ok ==> buf[..] == old(buf[..])
      ensures failed == (old(failed) || !ok)
    {
      ok := *;
      if sect >= |sectors| {
        ok := false;
      }
      if ok {
        forall i | 0 <= i < 512 {
          buf[i] := sectors[sect][i];
        }
      }
      failed := failed || !ok;
    }

    /** disk_write of one sector. */
    method WriteOne(buf: array<byte>, sect: nat) returns (ok: bool)
      requires buf.Length == 512
      modifies this`sectors, this`failed
      ensures ok ==> sect < |old(sectors)| && sectors == old(sectors)[sect := buf[..]]
      ensures !ok ==> sectors == old(sectors)
      ensures failed == (old(failed) || !ok)
    {
      ok := *;
      if sect >= |sectors| {
        ok := false;
      }
      if ok {
        sectors := sectors[sect := buf[..]];
      }
      failed := failed || !ok;
    }

    /** disk_write of one sector by a caller that ignores the answer. */
    method CopyOne(buf: array<byte>, sect: nat)
      requires buf.Length == 512
      modifies this`sectors, this`lost
      ensures lost ==> sectors == old(sectors) || old(lost)
      ensures !lost ==> sect < |old(sectors)| && sectors == old(sectors)[sect := buf[..]]
      ensures sectors == old(sectors) || (sect < |old(sectors)| && sectors == old(sectors)[sect := buf[..]])
      ensures old(lost) ==> lost
    {
      var ok: bool := *;
      if ok && sect < |sectors| {
        sectors := sectors[sect := buf[..]];
      } else {
        lost := true;
      }
    }

    /** disk_read of count sectors into buf[ofs..]. */
    method Read(buf: array<byte>, ofs: nat, sect: nat, count: nat) returns (ok: bool)
      requires ofs + 512 * count <= buf.Length && AllSectors(sectors)
      modifies this`failed, buf
      ensures ok ==> sect + count <= |sectors|
      ensures ok ==> buf[..] == Splice(old(buf[..]), ofs, Flat(sectors[sect..sect + count]))
      ensures !ok ==> buf[..] == old(buf[..])
      ensures failed == (old(failed) || !ok)
    {
      ok := *;
      if sect + count > |sectors| {
        ok := false;
      }
      if ok {
        var bytes := Flat(sectors[sect..sect + count]);
        forall i | 0 <= i < |bytes| {
          buf[ofs + i] := bytes[i];
        }
        assert buf[..] == Splice(old(buf[..]), ofs, bytes);
      }
      failed := failed || !ok;
    }

    /** disk_write of count sectors. */
    method Write(src: seq<byte>, sect: nat, count: nat) returns (ok: bool)
      requires |src| == 512 * count
      modifies this`sectors, this`failed
      ensures ok ==> sect + count <= |old(sectors)| && sectors == Splice(old(sectors), sect, Chop(src, count))
      ensures !ok ==> sectors == old(sectors)
      ensures failed == (old(failed) || !ok)
    {
      ok := *;
      if sect + count > |sectors| {
        ok := false;
      }
      if ok {
        sectors := Splice(sectors, sect, Chop(src, count));
      }
      failed := failed || !ok;
    }
  }

  /** mem_set of the whole buffer to zero. */
  method ClearBuffer(a: array<byte>)
    requires a.Length == 512
    modifies a
    ensures a[..] == Zeros()
  {
    forall i | 0 <= i < 512 {
      a[i] := 0;
    }
  }
}
