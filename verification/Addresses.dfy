/** Loopback addresses as the strings the manager keys its maps by: 127.0.x.i, and
    the 253 of them it hands out. */
module Addresses {

  type Octet = n: nat | n < 256

  const FIRST := 2
  const LIMIT := 255

  function Digit(n: nat): char
    requires n < 10
  {
    "0123456789"[n]
  }

  /** n in decimal. */
  function Decimal(n: nat): string {
    if n < 10 then [Digit(n)] else Decimal(n / 10) + [Digit(n % 10)]
  }

  /** A user's peer id: the user id in decimal. */
  function PeerName(u: int): string {
    if u < 0 then "-" + Decimal(-u) else Decimal(u)
  }

  /** The text of 127.0.x.i. */
  function Address(x: Octet, i: nat): string {
    "127.0." + Decimal(x) + "." + Decimal(i)
  }

  lemma KnownAddresses()
    ensures Address(0, 2) == "127.0.0.2" && Address(1, 254) == "127.0.1.254"
  {
    assert Decimal(254) == Decimal(25) + [Digit(4)] && Decimal(25) == Decimal(2) + [Digit(5)];
  }

  lemma DigitInjective(m: nat, n: nat)
    requires m < 10 && n < 10 && Digit(m) == Digit(n)
    ensures m == n
  {
  }

  lemma {:induction false} DecimalInjective(m: nat, n: nat)
    requires Decimal(m) == Decimal(n)
    ensures m == n
  {
    DecimalNonEmpty(m / 10);
    DecimalNonEmpty(n / 10);
    var s, t := Decimal(m), Decimal(n);
    assert s[|s| - 1] == Digit(m % 10) && t[|t| - 1] == Digit(n % 10);
    DigitInjective(m % 10, n % 10);
    if m >= 10 && n >= 10 {
      assert s[..|s| - 1] == Decimal(m / 10) && t[..|t| - 1] == Decimal(n / 10);
      DecimalInjective(m / 10, n / 10);
    }
  }

  lemma DecimalNonEmpty(n: nat)
    ensures Decimal(n) != []
  {
  }

  lemma AddressInjective(x: Octet, i: nat, j: nat)
    requires Address(x, i) == Address(x, j)
    ensures i == j
  {
    var head := "127.0." + Decimal(x) + ".";
    assert Address(x, i)[|head|..] == Decimal(i) && Address(x, j)[|head|..] == Decimal(j);
    DecimalInjective(i, j);
  }

  /** The addresses with a last octet from 2 up to n, exclusive. */
  function PoolBelow(x: Octet, n: nat): set<string> {
    set i | FIRST <= i < n :: Address(x, i)
  }

  /** Every address the allocator may hand out. */
  function Pool(x: Octet): set<string> {
    PoolBelow(x, LIMIT)
  }

  lemma PoolEmpty(x: Octet)
    ensures PoolBelow(x, FIRST) == {}
  {
  }

  lemma PoolOneMore(x: Octet, n: nat)
    requires FIRST <= n
    ensures Address(x, n) !in PoolBelow(x, n)
    ensures PoolBelow(x, n + 1) == PoolBelow(x, n) + {Address(x, n)}
  {
    forall i | FIRST <= i < n ensures Address(x, i) != Address(x, n) {
      if Address(x, i) == Address(x, n) { AddressInjective(x, i, n); }
    }
  }

  lemma {:induction false} PoolBelowSize(x: Octet, n: nat)
    requires FIRST <= n
    ensures |PoolBelow(x, n)| == n - FIRST
  {
    if n == FIRST {
      PoolEmpty(x);
    } else {
      PoolBelowSize(x, n - 1);
      PoolOneMore(x, n - 1);
    }
  }

  lemma PoolSize(x: Octet)
    ensures |Pool(x)| == 253
  {
    PoolBelowSize(x, LIMIT);
  }

  /** A set of addresses within the pool has 253 members only if it is the pool. */
  lemma PoolExhausted(x: Octet, used: set<string>)
    requires used <= Pool(x)
    ensures |used| <= 253
    ensures |used| == 253 <==> used == Pool(x)
  {
    PoolSize(x);
    SubsetSize(used, Pool(x));
  }

  lemma SubsetSize(a: set<string>, b: set<string>)
    requires a <= b
    ensures |a| <= |b|
    ensures |a| == |b| ==> a == b
  {
    assert b == a + (b - a);
    assert |b| == |a| + |b - a|;
  }
}
