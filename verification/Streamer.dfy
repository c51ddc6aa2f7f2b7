/**
 Byte access to a disk that is read in 512-byte sectors (`streamer.c`).
 */
module Streamer {
  import opened Words

  const SECTOR_SIZE: nat := 512

  /** Byte `k` of the output holds the disk byte at `pos + k`, wherever that is on the disk. */
  ghost predicate Delivered(disk: seq<Byte>, pos: int, out: seq<Byte>) {
    forall k :: 0 <= k < |out| && 0 <= pos + k < |disk| ==> out[k] == disk[pos + k]
  }

  /** The output with positions [at, at + |part|) replaced. */
  ghost function Overwrite(out: seq<Byte>, at: nat, part: seq<Byte>): seq<Byte>
    requires at + |part| <= |out|
  {
    out[..at] + part + out[at + |part|..]
  }

  lemma OverwriteTwice(out: seq<Byte>, at: nat, a: seq<Byte>, b: seq<Byte>)
    requires at + |a| + |b| <= |out|
    ensures Overwrite(Overwrite(out, at, a), at + |a|, b) == Overwrite(out, at, a + b)
  {
  }

  /** Wholly on the disk, what is delivered is the slice of the disk. */
  lemma DeliveredIsSlice(disk: seq<Byte>, pos: nat, out: seq<Byte>)
    requires Delivered(disk, pos, out) && pos + |out| <= |disk|
    ensures out == disk[pos..pos + |out|]
  {
  }

  class Stream {
    const disk: seq<Byte>
    var pos: int

    constructor (disk: seq<Byte>)
      ensures this.disk == disk && pos == 0
    {
      this.disk, pos := disk, 0;
    }

    /** `diskstreamer_seek` */
    method Seek(pos: int)
      modifies this
      ensures this.pos == pos
    {
      this.pos := pos;
    }

    /** `disk_read_block` of one sector; what a sector beyond the disk reads as is not specified. */
    method ReadSector(sector: int) returns (buf: array<Byte>)
      ensures fresh(buf) && buf.Length == SECTOR_SIZE
      ensures Delivered(disk, SECTOR_SIZE * sector, buf[..])
    {
      buf := new Byte[SECTOR_SIZE];
      var i := 0;
      while i < SECTOR_SIZE
        invariant 0 <= i <= SECTOR_SIZE
        invariant forall k ::
          0 <= k < i && 0 <= SECTOR_SIZE * sector + k < |disk| ==> buf[k] == disk[SECTOR_SIZE * sector + k]
      {
        if 0 <= SECTOR_SIZE * sector + i < |disk| {
          buf[i] := disk[SECTOR_SIZE * sector + i];
        }
        i := i + 1;
      }
    }

    /** The copy loop of `diskstreamer_read`. */
    method CopyBytes(out: array<Byte>, at: nat, buf: array<Byte>, offset: nat, count: nat)
      requires out != buf && at + count <= out.Length && offset + count <= buf.Length
      modifies out
      ensures out[..] == Overwrite(old(out[..]), at, buf[offset..offset + count])
    {
      var i := 0;
      while i < count
        invariant 0 <= i <= count
        invariant forall j :: 0 <= j < out.Length ==>
          out[j] == if at <= j < at + i then buf[offset + (j - at)] else old(out[j])
      {
        out[at + i] := buf[offset + i];
        i := i + 1;
      }
    }

    lemma SectorPart(sector: seq<Byte>, offset: nat, count: nat)
      requires pos >= 0 && |sector| == SECTOR_SIZE && Delivered(disk, SECTOR_SIZE * (pos / SECTOR_SIZE), sector)
      requires offset == pos % SECTOR_SIZE && offset + count <= SECTOR_SIZE
      ensures Delivered(disk, pos, sector[offset..offset + count])
    {
      var part := sector[offset..offset + count];
      forall k | 0 <= k < |part| && 0 <= pos + k < |disk|
        ensures part[k] == disk[pos + k]
      {
        assert SECTOR_SIZE * (pos / SECTOR_SIZE) + (offset + k) == pos + k;
        assert sector[offset + k] == disk[SECTOR_SIZE * (pos / SECTOR_SIZE) + (offset + k)];
      }
    }

    lemma DeliveredAppend(start: int, a: seq<Byte>, b: seq<Byte>)
      requires Delivered(disk, start, a) && Delivered(disk, start + |a|, b)
      ensures Delivered(disk, start, a + b)
    {
      forall k | 0 <= k < |a + b| && 0 <= start + k < |disk|
        ensures (a + b)[k] == disk[start + k]
      {
        if k >= |a| {
          assert b[k - |a|] == disk[start + |a| + (k - |a|)];
        }
      }
    }

    /**
     `diskstreamer_read`: `total` bytes into `out` from index `at`. When the read ends at or crosses a
     sector boundary it recurses, also for the zero bytes left at an exact boundary. No byte is read at any
     position, the division of which rounds towards zero.
     */
    method Read(out: array<Byte>, at: nat, total: nat) returns (res: int, ghost part: seq<Byte>)
      requires at + total <= out.Length && (total > 0 ==> pos >= 0 && pos + total < 0x8000_0000)
      modifies this, out
      ensures res == 0 && pos == old(pos) + total
      ensures |part| == total && Delivered(disk, old(pos), part)
      ensures out[..] == Overwrite(old(out[..]), at, part)
      decreases total
    {
      var sector := if pos >= 0 then pos / SECTOR_SIZE else -(-pos / SECTOR_SIZE);
      var offset := pos - SECTOR_SIZE * sector;
      var totalToRead := total;
      var overflow := offset + totalToRead >= SECTOR_SIZE;
      if overflow {
        totalToRead := totalToRead - (offset + totalToRead - SECTOR_SIZE);
      }
      var buf := ReadSector(sector);
      ghost var first, before := [], out[..];
      if totalToRead > 0 {
        SectorPart(buf[..], offset, totalToRead);
        first := buf[offset..offset + totalToRead];
        CopyBytes(out, at, buf, offset, totalToRead);
      }
      assert out[..] == Overwrite(before, at, first);
      pos := pos + totalToRead;
      res := 0;
      part := first;
      if overflow {
        ghost var rest;
        res, rest := Read(out, at + totalToRead, total - totalToRead);
        DeliveredAppend(old(pos), first, rest);
        OverwriteTwice(before, at, first, rest);
        part := first + rest;
      }
    }

    /** Reading `a` bytes and then `b` bytes has the effect of reading `a + b` bytes. */
    method ReadTwice(out: array<Byte>, at: nat, a: nat, b: nat) returns (ghost part: seq<Byte>)
      requires pos >= 0 && pos + a + b < 0x8000_0000 && at + a + b <= out.Length
      modifies this, out
      ensures pos == old(pos) + a + b
      ensures |part| == a + b && Delivered(disk, old(pos), part)
      ensures out[..] == Overwrite(old(out[..]), at, part)
    {
      ghost var before, start := out[..], pos;
      var res;
      ghost var first, second;
      res, first := Read(out, at, a);
      res, second := Read(out, at + a, b);
      part := first + second;
      DeliveredAppend(start, first, second);
      OverwriteTwice(before, at, first, second);
    }
  }
}
