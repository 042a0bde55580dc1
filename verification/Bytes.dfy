// Little-endian integers and byte sums, as Python's struct and sum() read and write them.
module Bytes {
  type Byte = x: int | 0 <= x < 256

  function Sum(s: seq<Byte>): (n: nat)
    ensures n <= 255 * |s|
  {
    if s == [] then 0 else s[0] + Sum(s[1..])
  }

  function Le16(n: nat): (b: seq<Byte>)
    requires n < 0x1_0000
    ensures |b| == 2
  {
    [n % 256, n / 256]
  }

  function Le32(n: nat): (b: seq<Byte>)
    requires n < 0x1_0000_0000
    ensures |b| == 4
  {
    Le16(n % 0x1_0000) + Le16(n / 0x1_0000)
  }

  function ReadLe16(s: seq<Byte>, at: nat): (n: nat)
    requires at + 2 <= |s|
    ensures n < 0x1_0000
  {
    var lo: int, hi: int := s[at], s[at + 1];
    lo + 256 * hi
  }

  function ReadLe32(s: seq<Byte>, at: nat): (n: nat)
    requires at + 4 <= |s|
    ensures n < 0x1_0000_0000
  {
    ReadLe16(s, at) + 0x1_0000 * ReadLe16(s, at + 2)
  }

  lemma ReadWrite16(s: seq<Byte>, at: nat, n: nat)
    requires n < 0x1_0000 && at + 2 <= |s| && s[at..at + 2] == Le16(n)
    ensures ReadLe16(s, at) == n
  {
    assert s[at] == s[at..at + 2][0] && s[at + 1] == s[at..at + 2][1];
  }

  lemma ReadWrite32(s: seq<Byte>, at: nat, n: nat)
    requires n < 0x1_0000_0000 && at + 4 <= |s| && s[at..at + 4] == Le32(n)
    ensures ReadLe32(s, at) == n
  {
    var b := s[at..at + 4];
    assert s[at..at + 2] == b[..2] == Le16(n % 0x1_0000);
    assert s[at + 2..at + 4] == b[2..] == Le16(n / 0x1_0000);
    ReadWrite16(s, at, n % 0x1_0000);
    ReadWrite16(s, at + 2, n / 0x1_0000);
  }

  lemma WriteRead16(s: seq<Byte>, at: nat)
    requires at + 2 <= |s|
    ensures Le16(ReadLe16(s, at)) == s[at..at + 2]
  {
  }

  lemma WriteRead32(s: seq<Byte>, at: nat)
    requires at + 4 <= |s|
    ensures Le32(ReadLe32(s, at)) == s[at..at + 4]
  {
    WriteRead16(s, at);
    WriteRead16(s, at + 2);
    var n := ReadLe32(s, at);
    assert n % 0x1_0000 == ReadLe16(s, at) && n / 0x1_0000 == ReadLe16(s, at + 2);
    hide Le16, ReadLe16, ReadLe32;
    assert s[at..at + 4] == s[at..at + 2] + s[at + 2..at + 4];
  }
}
