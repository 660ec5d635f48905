/** Bytes, and little-endian integers as the game's packets carry them. */
module Bytes {

  type Byte = b: nat | b < 0x100

  /** A 32-bit unsigned integer. */
  type Word = w: nat | w < 0x1_0000_0000

  /** The two low bytes of n, as uint16(n) keeps them. */
  function Put16(n: nat): seq<Byte> {
    [n % 0x100, n / 0x100 % 0x100]
  }

  function Get16(s: seq<Byte>): nat
    requires |s| == 2
  {
    var low: nat, high: nat := s[0], s[1];
    low + 0x100 * high
  }

  /** The four low bytes of n, as uint32(n) keeps them. */
  function Put32(n: nat): seq<Byte> {
    Put16(n) + Put16(n / 0x1_0000)
  }

  function Get32(s: seq<Byte>): Word
    requires |s| == 4
  {
    Get16(s[..2]) + 0x1_0000 * Get16(s[2..])
  }

  lemma GetPut16(n: nat)
    ensures Get16(Put16(n)) == n % 0x1_0000
  {
    var q := n / 0x100;
    var r := q / 0x100;
    assert n == 0x1_0000 * r + (0x100 * (q % 0x100) + n % 0x100);
    assert n / 0x1_0000 == r;
  }

  lemma Halves(n: nat)
    ensures n % 0x1_0000_0000 == n % 0x1_0000 + 0x1_0000 * (n / 0x1_0000 % 0x1_0000)
  {
    var q := n / 0x1_0000;
    var r := q / 0x1_0000;
    assert n == 0x1_0000_0000 * r + (0x1_0000 * (q % 0x1_0000) + n % 0x1_0000);
    assert n / 0x1_0000_0000 == r;
  }

  lemma GetPut32(n: nat)
    ensures Get32(Put32(n)) == n % 0x1_0000_0000
  {
    GetPut16(n);
    GetPut16(n / 0x1_0000);
    Halves(n);
    assert Put32(n)[..2] == Put16(n) && Put32(n)[2..] == Put16(n / 0x1_0000);
  }

  /** The low bytes come back whatever is above them. */
  lemma PutGet16(s: seq<Byte>, high: nat)
    requires |s| == 2
    ensures Put16(Get16(s) + 0x1_0000 * high) == s
  {
    var s0: nat, s1: nat := s[0], s[1];
    var n := Get16(s) + 0x1_0000 * high;
    assert n == s0 + 0x100 * (s1 + 0x100 * high);
    assert n / 0x100 == s1 + 0x100 * high;
  }

  lemma PutGet32(s: seq<Byte>)
    requires |s| == 4
    ensures Put32(Get32(s)) == s
  {
    PutGet16(s[..2], Get16(s[2..]));
    PutGet16(s[2..], 0);
    assert s == s[..2] + s[2..];
  }

  /** Write s into a buffer, from position k on. */
  method CopyInto(buf: array<Byte>, k: nat, s: seq<Byte>)
    requires k + |s| <= buf.Length
    modifies buf
    ensures forall i | 0 <= i < buf.Length :: buf[i] == if k <= i < k + |s| then s[i - k] else old(buf[i])
  {
    for i := 0 to |s|
      invariant forall j | 0 <= j < buf.Length :: buf[j] == if k <= j < k + i then s[j - k] else old(buf[j])
    {
      buf[k + i] := s[i];
    }
  }
}
