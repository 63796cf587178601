/** The parts of the rewrite engine that the JPEG and PNG handlers share: the slot a
    scan yields, the packet a write frames, the capacity a growing write reserves, and
    the in-place overwrite of a byte range of the open file. */
module Rewrite {
  import opened Bytes
  import opened Errors
  import opened Packet

  /** What a scan of the file leaves in `xmp_seg_pos`, `xmp_seg_size` and `xmp_packet`:
      where a record holding the packet starts (or where a new one goes), how many
      bytes the grow path skips there, and the embedded packet (empty when none). */
  datatype Slot = Slot(offset: nat, size: nat, packet: seq<byte>)

  /** The file after `_process`, and the `xmp_packet` it ends with. */
  datatype Written = Written(file: seq<byte>, packet: seq<byte>)

  /** The packet a write embeds: the caller's bytes if they are already framed, else
      those bytes wrapped with a fresh guid. */
  function Framed(newXmp: seq<byte>, guid: seq<byte>): (x: seq<byte>)
    ensures newXmp != [] ==> x != []
    ensures IsWrapped(newXmp) ==> x == newXmp
    ensures !IsWrapped(newXmp) ==> x == Wrap(newXmp, guid)
  {
    if IsWrapped(newXmp) then newXmp else Wrap(newXmp, guid)
  }

  /** The capacity the grow path reserves: the next multiple of 4000 strictly above `n`. */
  function GrowCapacity(n: nat): (c: nat)
    ensures c % 4000 == 0 && n < c <= n + 4000
  {
    (n / 4000 + 1) * 4000
  }

  /** The file after writing `data` at offset `pos`: bytes past the old end extend it. */
  function WriteAt(f: seq<byte>, pos: nat, data: seq<byte>): (r: seq<byte>)
    requires pos <= |f|
    ensures |r| == if pos + |data| <= |f| then |f| else pos + |data|
    ensures r[..pos] == f[..pos] && r[pos..pos + |data|] == data
    ensures pos + |data| <= |f| ==> r[pos + |data|..] == f[pos + |data|..]
  {
    f[..pos] + data + (if pos + |data| <= |f| then f[pos + |data|..] else [])
  }

  /** `f.seek(pos)` then `f.write(data)` on a file opened for update, within its length. */
  method Overwrite(file: array<byte>, pos: nat, data: seq<byte>)
    requires pos + |data| <= file.Length
    modifies file
    ensures file[..] == WriteAt(old(file[..]), pos, data)
  {
    for i := 0 to |data|
      invariant file[..] == old(file[..pos]) + data[..i] + old(file[pos + i..])
    {
      file[pos + i] := data[i];
    }
  }

  /** A fresh array holding `s`: the temporary file that replaces the original. */
  method NewFile(s: seq<byte>) returns (a: array<byte>)
    ensures fresh(a) && a[..] == s
  {
    a := new byte[|s|](i requires 0 <= i < |s| => s[i]);
  }
}
