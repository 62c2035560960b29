/** The database file, seen as the sequence of its bytes. The positional reads
    and writes of `FileExt` (`read_exact_at`, `read_at`, `write_at`,
    `write_all_at`) become functions on that sequence: a read past end-of-file
    yields zeros, and a non-empty write past end-of-file extends the file, the
    gap reading as zeros. */
module DiskFile {
  import opened Bytes

  function Max(a: nat, b: nat): nat
  {
    if a < b then b else a
  }

  /** `len` bytes of `file` starting at `off`, zero-padded where the file ends. */
  function ReadAt(file: seq<byte>, off: nat, len: nat): (r: seq<byte>)
    ensures |r| == len
    ensures forall i :: 0 <= i < len ==> r[i] == (if off + i < |file| then file[off + i] else 0)
  {
    if |file| <= off then Zeros(len)
    else if off + len <= |file| then file[off..off + len]
    else file[off..] + Zeros(off + len - |file|)
  }

  /** `file` after writing all of `data` at offset `off`. An empty write does
      nothing, even past end-of-file: `write_all_at` with an empty buffer issues
      no write at all. */
  function WriteAt(file: seq<byte>, off: nat, data: seq<byte>): (r: seq<byte>)
    ensures |r| == if |data| == 0 then |file| else Max(|file|, off + |data|)
    ensures forall j :: 0 <= j < |data| ==> r[off + j] == data[j]
    ensures forall i :: 0 <= i < |r| && !(off <= i < off + |data|) ==>
              r[i] == (if i < |file| then file[i] else 0)
  {
    if |data| == 0 then file
    else if |file| < off then file + Zeros(off - |file|) + data
    else if off + |data| < |file| then file[..off] + data + file[off + |data|..]
    else file[..off] + data
  }

  /** Reading back what was just written returns it. */
  lemma ReadOwnWrite(file: seq<byte>, off: nat, data: seq<byte>)
    ensures ReadAt(WriteAt(file, off, data), off, |data|) == data
  {
  }

  /** A write leaves every read of a range disjoint from it unchanged. */
  lemma ReadDisjointWrite(file: seq<byte>, off: nat, data: seq<byte>, roff: nat, len: nat)
    requires roff + len <= off || off + |data| <= roff
    ensures ReadAt(WriteAt(file, off, data), roff, len) == ReadAt(file, roff, len)
  {
    var w := WriteAt(file, off, data);
    forall i | 0 <= i < len
      ensures ReadAt(w, roff, len)[i] == ReadAt(file, roff, len)[i]
    {
    }
  }
}
