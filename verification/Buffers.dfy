/**
  The two C operations that the growing read loops share.
 */
module Buffers {

  method Realloc(buf: array<char>, length: nat) returns (r: array<char>)
    requires buf.Length <= length
    ensures fresh(r) && r.Length == length && r[..buf.Length] == buf[..]
    ensures forall n :: 0 <= n <= buf.Length ==> r[..n] == buf[..n]
  {
    var kept := buf[..];
    r := new char[length](i => if 0 <= i < |kept| then kept[i] else '\0');
    assert r[..buf.Length] == buf[..];
  }

  /** One read: the kernel may fill up to `limit` bytes at offset n, so that much room must be there. */
  method ReadInto(buf: array<char>, n: nat, limit: nat, data: seq<char>)
    requires n + limit <= buf.Length && |data| <= limit
    modifies buf
    ensures buf[..n + |data|] == old(buf[..n]) + data
    ensures buf[n + |data|..] == old(buf[n + |data|..])
  {
    forall i | 0 <= i < |data| {
      buf[n + i] := data[i];
    }
    assert buf[..n] == old(buf[..n]) && buf[n..n + |data|] == data;
    assert buf[..n + |data|] == buf[..n] + buf[n..n + |data|];
  }
}
