/**
 * Copying into a fixed-size byte array, as `<[u8]>::copy_from_slice` does for
 * the reads of src/read_line.rs and the cursor writes of src/main.rs.
 */
module Buffer {
  import opened Utf8

  /** `buf[at..at + |src|].copy_from_slice(src)`: the bytes before `at` stay, `src` follows them, and the bytes after it stay. */
  method CopyInto(buf: array<Byte>, at: nat, src: seq<Byte>)
    requires at + |src| <= buf.Length
    modifies buf
    ensures buf[..at + |src|] == old(buf[..at]) + src
    ensures buf[at + |src|..] == old(buf[at + |src|..])
  {
    for j := 0 to |src|
      invariant buf[..at] == old(buf[..at])
      invariant buf[at + |src|..] == old(buf[at + |src|..])
      invariant forall k :: 0 <= k < j ==> buf[at + k] == src[k]
    {
      buf[at + j] := src[j];
    }
  }
}
