/** The file behind File_io: a byte string whose writes may come up short and whose truncations may fail. */
module FileIo {
  import opened Bytes

  /** data with w laid over it from at on. */
  function Overwritten(data: seq<byte>, at: nat, w: seq<byte>): seq<byte>
    requires at <= |data|
  {
    data[..at] + w + (if at + |w| < |data| then data[at + |w|..] else [])
  }

  class File {
    var data: seq<byte>
    /** While this holds, reads and fstat succeed; otherwise any of them may fail. */
    var healthy: bool
    /** How many truncations the file system has refused so far. */
    var refused: nat
    /** How many writes came up short or failed, and how many syncs failed. */
    var faults: nat

    /** pread: the bytes that are there, up to n, or -1; the rest of the buffer keeps its contents. */
    method Pread(buf: array<byte>, n: nat, at: nat) returns (r: int)
      requires n <= buf.Length
      modifies buf
      ensures r == -1 || r == (if at < |data| then Min(n, |data| - at) else 0)
      ensures healthy ==> r != -1
      ensures r > 0 ==> buf[..r] == data[at..at + r]
      ensures r <= 0 ==> buf[..] == old(buf[..])
      ensures r > 0 ==> buf[r..] == old(buf[r..])
    {
      if !healthy {
        var failed: bool := *;
        if failed {
          return -1;
        }
      }
      if at >= |data| {
        return 0;
      }
      r := Min(n, |data| - at);
      var i := 0;
      while i < r
        invariant 0 <= i <= r
        invariant buf[..i] == data[at..at + i]
        invariant buf[i..] == old(buf[i..])
      {
        buf[i] := data[at + i];
        i := i + 1;
      }
    }

    /** fstat: the length, or -1. */
    method Fstat() returns (r: int)
      ensures healthy ==> r == |data|
      ensures r == -1 || r == |data|
    {
      r := |data|;
      if !healthy {
        var failed: bool := *;
        if failed {
          r := -1;
        }
      }
    }

    /** pwrite: all of w, a part of it, or -1 and nothing. */
    method Pwrite(w: seq<byte>, at: nat) returns (n: int)
      requires at <= |data|
      modifies this`data, this`faults
      ensures -1 <= n <= |w|
      ensures faults == if n == |w| then old(faults) else old(faults) + 1
      ensures n == -1 ==> data == old(data)
      ensures n >= 0 ==> data == Overwritten(old(data), at, w[..n])
    {
      n :| -1 <= n <= |w|;
      if n < |w| {
        faults := faults + 1;
      }
      if n >= 0 {
        data := Overwritten(data, at, w[..n]);
      }
    }

    /** ftruncate: cuts the file, or refuses. */
    method Ftruncate(len: nat) returns (r: int)
      requires len <= |data|
      modifies this`data, this`refused
      ensures r == 0 ==> data == old(data)[..len] && refused == old(refused)
      ensures r == -1 ==> data == old(data) && refused == old(refused) + 1
      ensures r == 0 || r == -1
    {
      var accepted: bool := *;
      if accepted {
        data := data[..len];
        r := 0;
      } else {
        refused := refused + 1;
        r := -1;
      }
    }

    /** fdatasync or fsync_dir: it may fail, and it changes no byte. */
    method Sync() returns (r: int)
      modifies this`faults
      ensures r == 0 || r == -1
      ensures faults == if r == 0 then old(faults) else old(faults) + 1
    {
      r :| r == 0 || r == -1;
      if r == -1 {
        faults := faults + 1;
      }
    }
  }
}
