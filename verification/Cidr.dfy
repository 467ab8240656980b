/** client/discover.go: incIP, streamCIDR and expandCIDR. */
module Cidr {
  import opened Bytes

  /** The number an address's bytes spell, most significant first. */
  function ValueOf(ip: seq<byte>): nat {
    if ip == [] then 0 else ValueOf(ip[..|ip| - 1]) * 0x100 + ip[|ip| - 1]
  }

  function Pow256(n: nat): (p: nat)
    ensures p > 0
  {
    if n == 0 then 1 else 0x100 * Pow256(n - 1)
  }

  /** The bytes after one increment: a trailing 255 turns to 0 and carries on to the left. */
  function Inc(ip: seq<byte>): (r: seq<byte>)
    ensures |r| == |ip|
  {
    if ip == [] then []
    else
      var last := ip[|ip| - 1];
      if last == 0xFF then Inc(ip[..|ip| - 1]) + [0] else ip[..|ip| - 1] + [last + 1]
  }

  lemma {:induction false} ValueBound(ip: seq<byte>)
    ensures ValueOf(ip) < Pow256(|ip|)
    decreases |ip|
  {
    if ip != [] {
      ValueBound(ip[..|ip| - 1]);
    }
  }

  lemma LastByte(front: seq<byte>, last: byte)
    ensures ValueOf(front + [last]) == ValueOf(front) * 0x100 + last
  {
    assert (front + [last])[..|front|] == front;
  }

  lemma Multiple(d: int, k: int)
    requires d > 0
    ensures k >= 1 ==> d * k >= d
    ensures k <= -1 ==> d * k <= -d
  {
  }

  /** Quotient and remainder are determined by n == d * q + r with 0 <= r < d. */
  lemma Divides(n: int, d: int, q: int, r: int)
    requires d > 0 && 0 <= r < d && n == d * q + r
    ensures n / d == q && n % d == r
  {
    var k := n / d - q;
    assert n == d * (n / d) + n % d;
    assert d * k == r - n % d by {
      assert d * k == d * (n / d) - d * q;
    }
    Multiple(d, k);
  }

  lemma Successor(x: nat, m: nat)
    requires x < m
    ensures (x + 1) % m == if x + 1 == m then 0 else x + 1
  {
    if x + 1 == m {
      Divides(x + 1, m, 1, 0);
    } else {
      Divides(x + 1, m, 0, x + 1);
    }
  }

  /** One more, or all the way round to zero. */
  lemma {:induction false} IncCounts(ip: seq<byte>)
    ensures ValueOf(Inc(ip)) == if ValueOf(ip) + 1 == Pow256(|ip|) then 0 else ValueOf(ip) + 1
    decreases |ip|
  {
    if ip != [] {
      var front, last := ip[..|ip| - 1], ip[|ip| - 1];
      ValueBound(front);
      if last == 0xFF {
        IncCounts(front);
        LastByte(Inc(front), 0);
      } else {
        LastByte(front, last + 1);
      }
    }
  }

  /** The byte-carry increment adds one modulo 256 to the number of bytes; for IPv4, modulo 2^32. */
  lemma IncIsPlusOne(ip: seq<byte>)
    ensures ValueOf(Inc(ip)) == (ValueOf(ip) + 1) % Pow256(|ip|)
  {
    ValueBound(ip);
    IncCounts(ip);
    hide ValueOf, Inc, Pow256;
    Successor(ValueOf(ip), Pow256(|ip|));
  }

  lemma {:induction false} ValueIsInjective(a: seq<byte>, b: seq<byte>)
    requires |a| == |b| && ValueOf(a) == ValueOf(b)
    ensures a == b
    decreases |a|
  {
    if a != [] {
      ValueIsInjective(a[..|a| - 1], b[..|b| - 1]);
      assert a == a[..|a| - 1] + [a[|a| - 1]] && b == b[..|b| - 1] + [b[|b| - 1]];
    }
  }

  lemma {:induction false} CarryPrefix(ip: seq<byte>, j: nat)
    requires j <= |ip| && forall k :: j <= k < |ip| ==> ip[k] == 0xFF
    ensures Inc(ip) == Inc(ip[..j]) + seq(|ip| - j, _ => 0)
    decreases |ip|
  {
    if j < |ip| {
      var front := ip[..|ip| - 1];
      CarryPrefix(front, j);
      assert front[..j] == ip[..j];
    } else {
      assert ip[..j] == ip;
    }
  }

  /** In place, as the source does it. */
  method IncIP(ip: array<byte>)
    modifies ip
    ensures ip[..] == Inc(old(ip[..]))
  {
    ghost var was := ip[..];
    var j := ip.Length - 1;
    while j >= 0
      invariant -1 <= j < ip.Length
      invariant forall k :: 0 <= k <= j ==> ip[k] == was[k]
      invariant forall k :: j < k < ip.Length ==> was[k] == 0xFF && ip[k] == 0
    {
      ip[j] := (ip[j] as int + 1) % 0x100;
      if ip[j] > 0 {
        CarryPrefix(was, j + 1);
        assert was[..j + 1][..j] == was[..j];
        assert ip[..] == Inc(was);
        return;
      }
      j := j - 1;
    }
    CarryPrefix(was, 0);
    assert was[..0] == [];
    assert ip[..] == Inc(was);
  }

  // ---------------------------------------------------------------- prefixes

  /** What net.ParseCIDR makes of the text: nothing, an IPv6 prefix (possibly of mapped IPv4 addresses), or an IPv4 prefix. */
  datatype Parsed = Malformed | V6 | MappedV4 | V4(address: nat, ones: nat) {
    predicate Valid() {
      V4? ==> address < 0x1_0000_0000 && ones <= 32
    }
  }

  datatype CidrError = ParseFailed | IPv4Only | NotIPv4Mask | TooLarge

  const MAX_DISCOVERY_HOST_BITS := 20

  function Pow2(n: nat): (p: nat)
    ensures p > 0
  {
    if n == 0 then 1 else 2 * Pow2(n - 1)
  }

  /** The number of addresses of a prefix, and the first of them. */
  function Size(p: Parsed): nat
    requires p.V4? && p.Valid()
  {
    Pow2(32 - p.ones)
  }

  function Network(p: Parsed): nat
    requires p.V4? && p.Valid()
  {
    RoundDown(p.address, Size(p))
  }

  function RoundDown(n: nat, m: nat): nat
    requires m > 0
  {
    n - n % m
  }

  /** IPNet.Contains: the address agrees with the network under the mask. */
  predicate Contains(p: Parsed, ip: seq<byte>)
    requires p.V4? && p.Valid()
  {
    ValueOf(ip) / Size(p) == Network(p) / Size(p)
  }

  function BytesOf(n: nat): (b: seq<byte>)
    requires n < 0x1_0000_0000
    ensures |b| == 4
  {
    [n / 0x100_0000, (n / 0x1_0000) % 0x100, (n / 0x100) % 0x100, n % 0x100]
  }

  lemma BytesSpell(n: nat)
    requires n < 0x1_0000_0000
    ensures ValueOf(BytesOf(n)) == n
  {
    var b := BytesOf(n);
    LastByte([], b[0]);
    LastByte([b[0]], b[1]);
    LastByte([b[0], b[1]], b[2]);
    LastByte([b[0], b[1], b[2]], b[3]);
    assert [] + [b[0]] == [b[0]] && [b[0]] + [b[1]] == [b[0], b[1]];
    assert [b[0], b[1]] + [b[2]] == [b[0], b[1], b[2]] && [b[0], b[1], b[2]] + [b[3]] == b;
    var q1 := n / 0x100;
    var q2 := q1 / 0x100;
    assert n / 0x1_0000 == q2;
    assert n / 0x100_0000 == q2 / 0x100;
  }

  /** The addresses from one number up to another, as four-byte strings. */
  function Range(lo: nat, hi: nat): (r: seq<seq<byte>>)
    requires hi <= 0x1_0000_0000
    ensures |r| == if lo <= hi then hi - lo else 0
    decreases hi - lo
  {
    if lo >= hi then [] else Range(lo, hi - 1) + [BytesOf(hi - 1)]
  }

  /** The hosts of a prefix: every address, without the first and last when there are more than two. */
  function Hosts(p: Parsed): seq<seq<byte>>
    requires p.V4? && p.Valid() && Network(p) + Size(p) <= 0x1_0000_0000
  {
    if Size(p) > 2 then Range(Network(p) + 1, Network(p) + Size(p) - 1) else Range(Network(p), Network(p) + Size(p))
  }

  lemma {:induction false} Pow2Splits(a: nat, b: nat)
    ensures Pow2(a + b) == Pow2(a) * Pow2(b)
    decreases a
  {
    if a > 0 {
      Pow2Splits(a - 1, b);
    }
  }

  lemma Pow2Of32()
    ensures Pow2(20) == 0x10_0000 && Pow2(32) == 0x1_0000_0000
  {
    assert Pow2(4) == 16;
    Pow2Splits(4, 4);
    Pow2Splits(8, 8);
    Pow2Splits(16, 16);
    Pow2Splits(16, 4);
  }

  lemma Distribute(d: int, a: int, b: int)
    ensures d * (a - b) == d * a - d * b
  {
  }

  lemma BlockFits(size: nat, count: nat, total: nat, a: nat)
    requires size > 0 && size * count == total && a < total
    ensures a - a % size == size * (a / size) && (a - a % size) / size == a / size
    ensures a - a % size + size <= total
  {
    var q := a / size;
    assert a == size * q + a % size;
    Divides(a - a % size, size, q, 0);
    Distribute(size, q, count);
    Multiple(size, q - count);
    Distribute(size, count, q + 1);
    Distribute(size, q + 1, q);
    if count - (q + 1) >= 1 {
      Multiple(size, count - (q + 1));
    }
  }

  lemma AlignedBlock(p: Parsed)
    requires p.V4? && p.Valid()
    ensures Network(p) == Size(p) * (p.address / Size(p)) && Network(p) / Size(p) == p.address / Size(p)
    ensures Network(p) + Size(p) <= 0x1_0000_0000
  {
    hide Pow2;
    Pow2Splits(p.ones, 32 - p.ones);
    Pow2Of32();
    var size, count := Pow2(32 - p.ones), Pow2(p.ones);
    assert size * count == count * size;
    BlockFits(size, count, 0x1_0000_0000, p.address);
  }

  lemma BlockOf(size: nat, q: nat, v: nat)
    requires size > 0
    ensures v / size == q <==> size * q <= v < size * q + size
  {
    assert v == size * (v / size) + v % size;
    if size * q <= v < size * q + size {
      Divides(v, size, q, v - size * q);
    }
  }

  /** An address belongs to the prefix exactly when its number lies in the aligned block. */
  lemma ContainsIsBlock(p: Parsed, ip: seq<byte>)
    requires p.V4? && p.Valid()
    ensures Contains(p, ip) <==> Network(p) <= ValueOf(ip) < Network(p) + Size(p)
  {
    hide Pow2, ValueOf;
    AlignedBlock(p);
    BlockOf(Size(p), p.address / Size(p), ValueOf(ip));
  }

  // ---------------------------------------------------------------- the two enumerations

  lemma {:induction false} RangeAt(lo: nat, hi: nat, i: nat)
    requires hi <= 0x1_0000_0000 && lo + i < hi
    ensures Range(lo, hi)[i] == BytesOf(lo + i)
    decreases hi
  {
    if lo + i < hi - 1 {
      RangeAt(lo, hi - 1, i);
    }
  }

  lemma RangePrefix(lo: nat, mid: nat, hi: nat)
    requires lo <= mid <= hi <= 0x1_0000_0000
    ensures Range(lo, mid) <= Range(lo, hi)
  {
    forall i | 0 <= i < mid - lo ensures Range(lo, mid)[i] == Range(lo, hi)[i] {
      RangeAt(lo, mid, i);
      RangeAt(lo, hi, i);
    }
  }

  lemma PrefixFits(p: Parsed)
    requires p.V4? && p.Valid()
    ensures Network(p) + Size(p) <= 0x1_0000_0000
  {
    AlignedBlock(p);
  }

  lemma RangeMore(lo: nat, at: nat)
    requires lo <= at < 0x1_0000_0000
    ensures Range(lo, at + 1) == Range(lo, at) + [BytesOf(at)]
  {
  }

  lemma RangeInside(lo: nat, hi: nat)
    requires lo + 2 <= hi <= 0x1_0000_0000
    ensures Range(lo, hi)[1..hi - lo - 1] == Range(lo + 1, hi - 1)
  {
    var middle := Range(lo, hi)[1..hi - lo - 1];
    forall i | 0 <= i < hi - lo - 2 ensures middle[i] == Range(lo + 1, hi - 1)[i] {
      RangeAt(lo, hi, i + 1);
      RangeAt(lo + 1, hi - 1, i);
    }
  }

  lemma NextAddress(n: nat)
    requires n < 0x1_0000_0000
    ensures Inc(BytesOf(n)) == BytesOf((n + 1) % 0x1_0000_0000)
  {
    hide ValueOf, Inc;
    var b := BytesOf(n);
    IncIsPlusOne(b);
    BytesSpell(n);
    BytesSpell((n + 1) % 0x1_0000_0000);
    assert Pow256(4) == 0x1_0000_0000;
    ValueIsInjective(Inc(b), BytesOf((n + 1) % 0x1_0000_0000));
  }

  /** The guard of expandCIDR's loop can fail at all exactly when the prefix is not /0: for /0 the loop never ends. */
  lemma ExpandStopsExactly(p: Parsed)
    requires p.V4? && p.Valid()
    ensures p.ones == 0 <==> forall ip: seq<byte> :: |ip| == 4 ==> Contains(p, ip)
  {
    AlignedBlock(p);
    Pow2Of32();
    if p.ones == 0 {
      forall ip: seq<byte> | |ip| == 4 ensures Contains(p, ip) {
        ContainsIsBlock(p, ip);
        ValueBound(ip);
        assert Pow256(4) == 0x1_0000_0000;
      }
    } else {
      SizeIsHalfAtMost(p);
      var other := if Network(p) == 0 then 0xFFFF_FFFF else 0;
      BytesSpell(other);
      ContainsIsBlock(p, BytesOf(other));
    }
  }

  lemma SizeIsHalfAtMost(p: Parsed)
    requires p.V4? && p.Valid() && p.ones >= 1
    ensures Size(p) <= 0x8000_0000
  {
    hide Pow2;
    Pow2Of32();
    Pow2Splits(p.ones - 1, 32 - p.ones);
    Pow2Splits(1, 31);
    OneDoubling();
    Multiple(Pow2(32 - p.ones), Pow2(p.ones - 1));
    assert Pow2(p.ones - 1) * Pow2(32 - p.ones) == Pow2(32 - p.ones) * Pow2(p.ones - 1);
  }

  lemma OneDoubling()
    ensures Pow2(1) == 2
  {
  }

  function StreamError(p: Parsed): Option<CidrError>
    requires p.Valid()
  {
    if p.Malformed? then Some(ParseFailed)
    else if p.V6? then Some(IPv4Only)
    else if p.MappedV4? then Some(NotIPv4Mask)
    else if 32 - p.ones > MAX_DISCOVERY_HOST_BITS then Some(TooLarge)
    else None
  }

  lemma {:induction false} Pow2Grows(a: nat, b: nat)
    requires a < b
    ensures Pow2(a) < Pow2(b)
    decreases b
  {
    if a < b - 1 {
      Pow2Grows(a, b - 1);
    }
  }

  /** An IPv4 prefix is refused exactly if it has more than 2^20 addresses; nothing else that parses as one is. */
  lemma StreamRefusesExactly(p: Parsed)
    requires p.V4? && p.Valid()
    ensures StreamError(p) == if Size(p) > 0x10_0000 then Some(TooLarge) else None
    ensures StreamError(p) == Some(TooLarge) <==> p.ones < 12
  {
    hide Pow2;
    Pow2Of32();
    if 32 - p.ones > 20 {
      Pow2Grows(20, 32 - p.ones);
    } else if 32 - p.ones < 20 {
      Pow2Grows(32 - p.ones, 20);
    }
  }

  /**
   Hands the hosts over one at a time; accepts(k) is what `send` answers to the k-th of them.
   The address counter may run past 255.255.255.255 after the last host.
   */
  method StreamCIDR(p: Parsed, accepts: nat -> bool) returns (sent: seq<seq<byte>>, stopped: bool, failed: Option<CidrError>)
    requires p.Valid()
    ensures failed == StreamError(p)
    ensures failed.Some? ==> sent == [] && !stopped
    ensures failed.None? ==>
              && Network(p) + Size(p) <= 0x1_0000_0000 && sent <= Hosts(p)
              && (!stopped ==> sent == Hosts(p) && forall k :: 0 <= k < |sent| ==> accepts(k))
              && (stopped ==> |sent| > 0 && !accepts(|sent| - 1) && forall k :: 0 <= k < |sent| - 1 ==> accepts(k))
  {
    hide Pow2, Network, Range, BytesOf;
    sent, stopped, failed := [], false, StreamError(p);
    if failed.Some? {
      return;
    }
    PrefixFits(p);
    var total := Size(p);
    var ip := new byte[4](i requires 0 <= i < 4 => BytesOf(Network(p))[i]);
    assert ip[..] == BytesOf(Network(p));
    sent, stopped := StreamBlock(ip, Network(p), total, accepts);
  }

  /** Which numbers of a block of addresses are handed over: all, without the first and last when there are more than two. */
  function FirstSent(net: nat, total: nat): nat {
    if total > 2 then net + 1 else net
  }

  function EndSent(net: nat, total: nat): nat {
    if total > 2 then net + total - 1 else net + total
  }

  /** The loop of streamCIDR, on the address bytes it counts up in place. */
  method StreamBlock(ip: array<byte>, ghost net: nat, total: nat, accepts: nat -> bool) returns (sent: seq<seq<byte>>, stopped: bool)
    requires net + total <= 0x1_0000_0000 && total > 0 && ip[..] == BytesOf(net)
    modifies ip
    ensures sent <= Range(FirstSent(net, total), EndSent(net, total))
    ensures !stopped ==> sent == Range(FirstSent(net, total), EndSent(net, total)) && forall k :: 0 <= k < |sent| ==> accepts(k)
    ensures stopped ==> |sent| > 0 && !accepts(|sent| - 1) && forall k :: 0 <= k < |sent| - 1 ==> accepts(k)
  {
    hide BytesOf, Range;
    sent, stopped := [], false;
    var skipEnds := total > 2;
    ghost var at := net;
    var idx := 0;
    while idx < total
      invariant 0 <= idx <= total
      invariant at == if skipEnds && idx == total then net + total - 1 else net + idx
      invariant at < 0x1_0000_0000 || idx == total
      invariant ip[..] == BytesOf(at % 0x1_0000_0000)
      invariant sent == Range(FirstSent(net, total), at)
      invariant forall k :: 0 <= k < |sent| ==> accepts(k)
      decreases total - idx
    {
      if skipEnds && (idx == 0 || idx == total - 1) {
        if idx == 0 {
          Advance(ip, at);
          at := at + 1;
        }
        idx := idx + 1;
        continue;
      }
      sent := sent + [ip[..]];
      RangeMore(FirstSent(net, total), at);
      RangePrefix(FirstSent(net, total), at + 1, EndSent(net, total));
      if !accepts(|sent| - 1) {
        stopped := true;
        return;
      }
      Advance(ip, at);
      at := at + 1;
      idx := idx + 1;
    }
  }

  method Advance(ip: array<byte>, ghost n: nat)
    requires n < 0x1_0000_0000 && ip[..] == BytesOf(n)
    modifies ip
    ensures ip[..] == BytesOf((n + 1) % 0x1_0000_0000)
  {
    hide BytesOf, Inc;
    NextAddress(n);
    IncIP(ip);
  }

  /** k steps from the network's own address: inside the prefix exactly when k is below its size, wrapped or not. */
  lemma StillInside(p: Parsed, k: nat)
    requires p.V4? && p.Valid() && p.ones >= 1 && k <= Size(p)
    ensures Contains(p, BytesOf((Network(p) + k) % 0x1_0000_0000)) <==> k < Size(p)
  {
    hide Pow2, ValueOf, BytesOf, Network, Contains;
    AlignedBlock(p);
    SizeIsHalfAtMost(p);
    var n := (Network(p) + k) % 0x1_0000_0000;
    BytesSpell(n);
    ContainsIsBlock(p, BytesOf(n));
  }

  /** The materialising form; for /0 its loop would not end (ExpandStopsExactly). */
  method ExpandCIDR(p: Parsed) returns (ips: seq<seq<byte>>, failed: Option<CidrError>)
    requires p.Valid() && !p.MappedV4? && (p.V4? ==> p.ones >= 1)
    ensures failed == if p.Malformed? then Some(ParseFailed) else if p.V6? then Some(IPv4Only) else None
    ensures failed.None? ==> Network(p) + Size(p) <= 0x1_0000_0000 && ips == Hosts(p)
  {
    hide Pow2, Inc, ValueOf, BytesOf, Network, Contains;
    ips, failed := [], None;
    if p.Malformed? {
      return [], Some(ParseFailed);
    }
    if p.V6? {
      return [], Some(IPv4Only);
    }
    PrefixFits(p);
    hide Size, Range;
    ghost var net, k := Network(p), 0;
    var ip := new byte[4](i requires 0 <= i < 4 => BytesOf(Network(p))[i]);
    assert ip[..] == BytesOf(net);
    StillInside(p, 0);
    while Contains(p, ip[..])
      invariant 0 <= k <= Size(p)
      invariant ip[..] == BytesOf((net + k) % 0x1_0000_0000)
      invariant Contains(p, ip[..]) <==> k < Size(p)
      invariant ips == Range(net, net + k)
      decreases Size(p) - k
    {
      ips := ips + [ip[..]];
      StillInside(p, k);
      RangeMore(net, net + k);
      Advance(ip, net + k);
      k := k + 1;
      StillInside(p, k);
    }
    if |ips| > 2 {
      RangeInside(net, net + k);
      ips := ips[1..|ips| - 1];
    }
  }

  /** Which addresses those are: the i-th host is the network's number plus i, or plus i + 1 where the ends are skipped. */
  lemma HostsAreConsecutive(p: Parsed, i: nat)
    requires p.V4? && p.Valid() && Network(p) + Size(p) <= 0x1_0000_0000 && i < |Hosts(p)|
    ensures |Hosts(p)| == if Size(p) > 2 then Size(p) - 2 else Size(p)
    ensures ValueOf(Hosts(p)[i]) == Network(p) + i + (if Size(p) > 2 then 1 else 0) && Contains(p, Hosts(p)[i])
  {
    hide Pow2;
    var skip := if Size(p) > 2 then 1 else 0;
    RangeAt(Network(p) + skip, Network(p) + Size(p) - skip, i);
    BytesSpell(Network(p) + skip + i);
    ContainsIsBlock(p, Hosts(p)[i]);
  }
}
