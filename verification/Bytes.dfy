/** Byte strings and the buffers they are written to. */
module Bytes {
  import opened Fips180

  predicate Ascii(s: seq<byte>) {
    forall i | 0 <= i < |s| :: s[i] < 0x80
  }

  // The character with this code.
  function CharOf(c: byte): char {
    c as int as char
  }

  // Bytes stored one after the other.
  method Put(buffer: array<byte>, at: nat, bytes: seq<byte>)
    requires at + |bytes| <= buffer.Length
    modifies buffer
    ensures buffer[..at + |bytes|] == old(buffer[..at]) + bytes
    ensures forall i | at + |bytes| <= i < buffer.Length :: buffer[i] == old(buffer[i])
  {
    forall i | 0 <= i < |bytes| {
      buffer[at + i] := bytes[i];
    }
  }
}
