/** The Internet checksum as the kernel computes it, over little-endian 16-bit words in 32-bit
    arithmetic, and where it is put and checked (src/kernel/net.c). */
module Checksums {
  import opened Common

  const WORD32: nat := 0x1_0000_0000
  const BASE: nat := 65535

  predicate Bytes(d: seq<int>) {
    forall k {:trigger d[k]} :: 0 <= k < |d| ==> 0 <= d[k] < 256
  }

  /** The sum of the words of a buffer, low byte first; a last odd byte counts as a low byte. */
  function WordSum(d: seq<int>): (s: nat)
    requires Bytes(d)
    ensures d == [] ==> s == 0
  {
    if |d| == 0 then 0 else if |d| == 1 then d[0] else d[0] + 256 * d[1] + WordSum(d[2..])
  }

  /** The same in network order, high byte first. */
  function NetSum(d: seq<int>): nat
    requires Bytes(d)
  {
    if |d| == 0 then 0 else if |d| == 1 then 256 * d[0] else 256 * d[0] + d[1] + NetSum(d[2..])
  }

  /** The one's-complement value of a sum: its residue modulo 65535, where only an empty sum is 0. */
  function OnesSum(s: nat): (r: nat)
    ensures r <= BASE && r % BASE == s % BASE && (r == 0 <==> s == 0)
  {
    if s == 0 then 0 else (s - 1) % BASE + 1
  }

  lemma OnesSumUnique(s: nat, r: nat)
    requires r <= BASE && r % BASE == s % BASE && (r == 0 <==> s == 0)
    ensures r == OnesSum(s)
  {
  }

  /** The checksum of a buffer: the complement of its one's-complement sum. */
  function Checksum(d: seq<int>): (c: nat)
    requires Bytes(d)
    ensures c <= BASE
  {
    BASE - OnesSum(WordSum(d))
  }

  // ---------------------------------------------------------------- the 32-bit bound

  lemma {:induction false} SumBound(d: seq<int>)
    requires Bytes(d)
    ensures WordSum(d) <= (|d| / 2) * BASE + (|d| % 2) * 255
    ensures 2 * WordSum(d) <= (|d| + 1) * BASE
  {
    if |d| > 1 {
      SumBound(d[2..]);
      assert |d[2..]| / 2 == |d| / 2 - 1;
    }
  }

  function AllOnes(n: nat): seq<int> {
    seq(n, _ => 255)
  }

  lemma {:induction false} AllOnesSum(n: nat)
    ensures Bytes(AllOnes(n)) && WordSum(AllOnes(n)) == (n / 2) * BASE + (n % 2) * 255
  {
    if n > 1 {
      AllOnesSum(n - 2);
      assert AllOnes(n)[2..] == AllOnes(n - 2);
    }
  }

  ghost predicate NeverOverflows(n: nat) {
    forall d :: |d| == n && Bytes(d) ==> WordSum(d) < WORD32
  }

  /** The 32-bit sum of every buffer of a length stays exact up to 131074 bytes, and no further. */
  lemma ThirtyTwoBitsSuffice(n: nat)
    ensures NeverOverflows(n) <==> n <= 131074
  {
    if n <= 131074 {
      forall d | |d| == n && Bytes(d) ensures WordSum(d) < WORD32 { SumBound(d); }
    } else {
      AllOnesSum(n);
    }
  }

  lemma ShiftBase(a: int, q: int)
    ensures (a + q * BASE) % BASE == a % BASE
  {
  }

  /** The folding loop: add the carries back in until none is left. */
  method Fold(total: nat) returns (r: nat)
    requires total < WORD32
    ensures r == OnesSum(total)
  {
    var sum: nat := total;
    while sum / 65536 != 0
      invariant 0 <= sum < WORD32 && OnesSum(sum) == OnesSum(total)
      decreases sum
    {
      var next := sum % 65536 + sum / 65536;
      assert sum == next + (sum / 65536) * BASE;
      ShiftBase(next, sum / 65536);
      OnesSumUnique(sum, OnesSum(next));
      sum := next;
    }
    if sum != 0 { OnesSumUnique(total, sum); }
    r := sum;
  }

  lemma WordStep(sum: nat, data: seq<int>, pos: nat)
    requires Bytes(data) && pos + 1 < |data|
    ensures ((sum + data[pos] + 256 * data[pos + 1]) % WORD32 + WordSum(data[pos + 2..])) % WORD32
         == (sum + WordSum(data[pos..])) % WORD32
  {
    assert data[pos..][2..] == data[pos + 2..];
  }

  /** The summing loop of net_checksum, in 32-bit arithmetic. */
  method AddWords(start: nat, data: seq<int>) returns (sum: nat)
    requires Bytes(data) && start < WORD32
    ensures sum == (start + WordSum(data)) % WORD32
  {
    sum := start;
    var pos, len := 0, |data|;
    while len > 1
      invariant pos <= |data| && len == |data| - pos && sum < WORD32
      invariant (sum + WordSum(data[pos..])) % WORD32 == (start + WordSum(data)) % WORD32
      decreases len
    {
      var word := data[pos] + 256 * data[pos + 1];
      WordStep(sum, data, pos);
      sum := (sum + word) % WORD32;
      pos := pos + 2;
      len := len - 2;
    }
    if len > 0 {
      assert data[pos..] == [data[pos]];
      sum := (sum + data[pos]) % WORD32;
    }
  }

  /** net_checksum. */
  method NetChecksum(data: seq<int>) returns (c: nat)
    requires Bytes(data)
    ensures c == BASE - OnesSum(WordSum(data) % WORD32)
    ensures |data| <= 131074 ==> c == Checksum(data)
  {
    var sum := AddWords(0, data);
    if |data| <= 131074 { SumBound(data); }
    var folded := Fold(sum);
    c := BASE - folded;
  }

  // ---------------------------------------------------------------- filling in and checking

  /** A 16-bit field stored low byte first. */
  function SetWord(d: seq<int>, f: nat, v: nat): (r: seq<int>)
    requires f + 1 < |d| && v < 65536 && Bytes(d)
    ensures |r| == |d| && Bytes(r)
  {
    d[f := v % 256][f + 1 := v / 256]
  }

  lemma {:induction false} SetWordSum(d: seq<int>, f: nat, v: nat)
    requires Bytes(d) && f + 1 < |d| && f % 2 == 0 && d[f] == 0 && d[f + 1] == 0 && v < 65536
    ensures WordSum(SetWord(d, f, v)) == WordSum(d) + v
    decreases |d|
  {
    var r := SetWord(d, f, v);
    if f == 0 {
      assert r[2..] == d[2..];
    } else {
      assert r[2..] == SetWord(d[2..], f - 2, v);
      SetWordSum(d[2..], f - 2, v);
    }
  }

  /** A buffer whose checksum field was zero passes the check, with the value v stored, exactly
      when v is its checksum, or all ones where the checksum is zero (the two zeros of one's
      complement). So the filled-in header always checks, and any other value never does. */
  lemma ChecksExactly(d: seq<int>, f: nat, v: nat)
    requires Bytes(d) && f + 1 < |d| && f % 2 == 0 && d[f] == 0 && d[f + 1] == 0 && v < 65536
    ensures Checksum(SetWord(d, f, v)) == 0 <==> v == Checksum(d) || (Checksum(d) == 0 && v == BASE)
  {
    SetWordSum(d, f, v);
    ComplementCancels(WordSum(d), v);
  }

  lemma ComplementCancels(s: nat, v: nat)
    requires v < 65536
    ensures OnesSum(s + v) == BASE <==> v == BASE - OnesSum(s) || (OnesSum(s) == BASE && v == BASE)
  {
    var r := OnesSum(s);
    var k := (s - r) / BASE;
    assert s == r + k * BASE;
    ShiftBase(r + v, k);
    if s > 0 { OnesSumUnique(s + v, OnesSum(r + v)); }
  }

  // ---------------------------------------------------------------- byte order

  function Swap(x: nat): nat
    requires x < 65536
  {
    (x % 256) * 256 + x / 256
  }

  /** The carries by which the two orders differ: the sum of the high bytes. */
  function HighBytes(d: seq<int>): nat
    requires Bytes(d)
  {
    if |d| <= 1 then 0 else d[1] + HighBytes(d[2..])
  }

  lemma {:induction false} OrdersDiffer(d: seq<int>)
    requires Bytes(d)
    ensures 256 * WordSum(d) == NetSum(d) + BASE * HighBytes(d)
    ensures WordSum(d) == 0 <==> NetSum(d) == 0
  {
    if |d| > 1 { OrdersDiffer(d[2..]); }
  }

  lemma SwappedResidue(s: nat, net: nat, high: nat, r: nat)
    requires 256 * s == net + BASE * high && r == OnesSum(s)
    ensures Swap(r) % BASE == net % BASE
  {
    var k := (s - r) / BASE;
    assert s == r + k * BASE;
    var hi, lo := r / 256, r % 256;
    assert r == 256 * hi + lo;
    assert 256 * r == Swap(r) + hi * BASE;
    assert Swap(r) == net + (high - 256 * k - hi) * BASE;
    ShiftBase(net, high - 256 * k - hi);
  }

  /** Section 2(B) of RFC 1071: summing in the machine's byte order and swapping the result gives
      the network-order sum, so the checksum stored low byte first lies on the wire high byte
      first. */
  lemma {:induction false} ByteOrderIndependent(d: seq<int>)
    requires Bytes(d)
    ensures Swap(OnesSum(WordSum(d))) == OnesSum(NetSum(d))
    ensures Swap(Checksum(d)) == BASE - OnesSum(NetSum(d))
  {
    var r := OnesSum(WordSum(d));
    OrdersDiffer(d);
    SwappedResidue(WordSum(d), NetSum(d), HighBytes(d), r);
    OnesSumUnique(NetSum(d), Swap(r));
    SwapComplement(r);
  }

  lemma SwapComplement(r: nat)
    requires r <= BASE
    ensures Swap(BASE - r) == BASE - Swap(r)
  {
    var hi, lo := r / 256, r % 256;
    assert BASE - r == (255 - hi) * 256 + (255 - lo);
    assert (BASE - r) / 256 == 255 - hi && (BASE - r) % 256 == 255 - lo;
  }

  // ---------------------------------------------------------------- joining buffers

  lemma {:induction false} SumOfJoin(a: seq<int>, b: seq<int>)
    requires Bytes(a) && Bytes(b) && |a| % 2 == 0
    ensures Bytes(a + b) && WordSum(a + b) == WordSum(a) + WordSum(b)
    decreases |a|
  {
    if a == [] {
      assert a + b == b;
    } else {
      assert (a + b)[2..] == a[2..] + b;
      SumOfJoin(a[2..], b);
    }
  }

  // ---------------------------------------------------------------- building packets

  const IPV4_HEADER: nat := 20
  const IPV4_CHECKSUM: nat := 10
  const ICMP_HEADER: nat := 8
  const ICMP_CHECKSUM: nat := 2
  const TCP_HEADER: nat := 20
  const TCP_CHECKSUM: nat := 16
  const PROTO_TCP: nat := 6

  /** htons followed by a store: high byte first. */
  function NetWord(x: nat): (b: seq<int>)
    requires x < 65536
    ensures |b| == 2 && Bytes(b) && b[0] * 256 + b[1] == x
  {
    [x / 256, x % 256]
  }

  lemma SliceOfJoin(a: seq<int>, b: seq<int>, i: nat, j: nat)
    requires i <= j <= |a|
    ensures (a + b)[i..j] == a[i..j]
  {
  }

  /** A zeroed checksum field filled in is what ChecksExactly asks of it. */
  lemma FilledInChecks(d: seq<int>, f: nat)
    requires Bytes(d) && f + 1 < |d| && f % 2 == 0 && d[f] == 0 && d[f + 1] == 0
    ensures Checksum(SetWord(d, f, Checksum(d))) == 0
  {
    ChecksExactly(d, f, Checksum(d));
  }

  /** net_send_ipv4, up to handing the packet to Ethernet. The caller keeps header and data
      within the 16-bit length. */
  method BuildIpv4(myIp: seq<int>, destIp: seq<int>, proto: int, data: seq<int>) returns (packet: seq<int>)
    requires |myIp| == 4 && |destIp| == 4 && Bytes(myIp) && Bytes(destIp) && 0 <= proto < 256
    requires Bytes(data) && IPV4_HEADER + |data| < 65536
    ensures |packet| == IPV4_HEADER + |data| && Bytes(packet) && packet[IPV4_HEADER..] == data
    ensures var blank := BlankHeader(myIp, destIp, proto, |packet|);
      packet[..IPV4_HEADER] == SetWord(blank, IPV4_CHECKSUM, Checksum(blank))
    ensures Checksum(packet[..IPV4_HEADER]) == 0
    ensures packet[0] == 0x45 && packet[1] == 0 && packet[2] == |packet| / 256 && packet[3] == |packet| % 256
    ensures packet[4..8] == [0, 0, 0, 0] && packet[8] == 64 && packet[9] == proto
    ensures packet[12..16] == myIp && packet[16..20] == destIp
  {
    var header := BlankHeader(myIp, destIp, proto, IPV4_HEADER + |data|);
    var c := NetChecksum(header);
    FilledInChecks(header, IPV4_CHECKSUM);
    header := SetWord(header, IPV4_CHECKSUM, c);
    packet := header + data;
    HeaderFields(myIp, destIp, proto, IPV4_HEADER + |data|, c, data);
  }

  /** The header before its checksum is known. */
  function BlankHeader(myIp: seq<int>, destIp: seq<int>, proto: int, len: nat): (h: seq<int>)
    requires |myIp| == 4 && |destIp| == 4 && Bytes(myIp) && Bytes(destIp) && 0 <= proto < 256 && len < 65536
    ensures |h| == IPV4_HEADER && Bytes(h) && h[IPV4_CHECKSUM] == 0 && h[IPV4_CHECKSUM + 1] == 0
  {
    [0x45, 0] + NetWord(len) + NetWord(0) + NetWord(0) + [64, proto, 0, 0] + myIp + destIp
  }

  lemma HeaderFields(myIp: seq<int>, destIp: seq<int>, proto: int, len: nat, c: nat, data: seq<int>)
    requires |myIp| == 4 && |destIp| == 4 && Bytes(myIp) && Bytes(destIp) && 0 <= proto < 256 && len < 65536
    requires c < 65536 && Bytes(data)
    ensures var header := SetWord(BlankHeader(myIp, destIp, proto, len), IPV4_CHECKSUM, c);
      var packet := header + data;
      && packet[..IPV4_HEADER] == header && packet[IPV4_HEADER..] == data && Bytes(packet)
      && packet[0] == 0x45 && packet[1] == 0 && packet[2] == len / 256 && packet[3] == len % 256
      && packet[4..8] == [0, 0, 0, 0] && packet[8] == 64 && packet[9] == proto
      && packet[12..16] == myIp && packet[16..20] == destIp
  {
    var blank := BlankHeader(myIp, destIp, proto, len);
    var header := SetWord(blank, IPV4_CHECKSUM, c);
    assert blank[12..16] == myIp && blank[16..20] == destIp && blank[4..8] == [0, 0, 0, 0];
    assert header[4..8] == blank[4..8];
    SliceOfJoin(header, data, 4, 8);
    assert header[12..16] == blank[12..16] && header[16..20] == blank[16..20];
    SliceOfJoin(header, data, 12, 16);
    SliceOfJoin(header, data, 16, 20);
  }

  /** The echo half of net_handle_icmp: the reply is the request with its type answered and its
      checksum made good; anything shorter or of another type gets none. */
  method EchoReply(request: seq<int>) returns (reply: Option<seq<int>>)
    requires Bytes(request) && |request| < 65536
    ensures reply.Some? <==> |request| >= ICMP_HEADER && request[0] == 8
    ensures reply.Some? ==>
      && |reply.value| == |request| && Bytes(reply.value) && Checksum(reply.value) == 0
      && reply.value[0] == 0 && reply.value[1] == request[1] && reply.value[4..] == request[4..]
  {
    if |request| < ICMP_HEADER || request[0] != 8 { return None; }
    var r := request[0 := 0][ICMP_CHECKSUM := 0][ICMP_CHECKSUM + 1 := 0];
    var c := NetChecksum(r);
    FilledInChecks(r, ICMP_CHECKSUM);
    reply := Some(SetWord(r, ICMP_CHECKSUM, c));
  }

  /** The pseudo-header of section 3.1 of RFC 9293. */
  function PseudoHeader(myIp: seq<int>, targetIp: seq<int>, len: nat): (p: seq<int>)
    requires |myIp| == 4 && |targetIp| == 4 && Bytes(myIp) && Bytes(targetIp) && len < 65536
    ensures |p| == 12 && Bytes(p)
  {
    myIp + targetIp + [0, PROTO_TCP] + NetWord(len)
  }

  /** Its twelve bytes, and what they add to a sum of words. */
  lemma PseudoHeaderLayout(myIp: seq<int>, targetIp: seq<int>, len: nat)
    requires |myIp| == 4 && |targetIp| == 4 && Bytes(myIp) && Bytes(targetIp) && len < 65536
    ensures var p := PseudoHeader(myIp, targetIp, len);
      && p[0..4] == myIp && p[4..8] == targetIp
      && p[8] == 0 && p[9] == 6 && p[10] == len / 256 && p[11] == len % 256
      && WordSum(p) == PseudoSum(myIp, targetIp, len)
  {
    var tail := [0, PROTO_TCP] + NetWord(len);
    assert tail == [0, PROTO_TCP, len / 256, len % 256];
    SumOfJoin(myIp + targetIp, tail);
    SumOfJoin(myIp, targetIp);
    assert myIp + targetIp + tail == PseudoHeader(myIp, targetIp, len);
    assert tail[2..] == [len / 256, len % 256] && tail[2..][2..] == [];
    assert WordSum(tail[2..]) == Swap(len);
  }

  /** What the two addresses, the protocol number and the length add to a TCP checksum, as the
      little-endian words they are stored as. */
  function PseudoSum(source: seq<int>, target: seq<int>, len: nat): nat
    requires Bytes(source) && Bytes(target) && len < 65536
  {
    WordSum(source) + WordSum(target) + 256 * 6 + Swap(len)
  }

  /** The checksum steps of net_send_tcp on a segment whose checksum field is still zero: the
      pseudo-header and the segment summed one after the other, folded, stored. A receiver that
      sums pseudo-header and segment together finds zero. */
  method FillTcpChecksum(myIp: seq<int>, targetIp: seq<int>, tcp: seq<int>) returns (segment: seq<int>)
    requires |myIp| == 4 && |targetIp| == 4 && Bytes(myIp) && Bytes(targetIp)
    requires Bytes(tcp) && TCP_HEADER <= |tcp| < 65536 && tcp[TCP_CHECKSUM] == 0 && tcp[TCP_CHECKSUM + 1] == 0
    ensures var pseudo := PseudoHeader(myIp, targetIp, |tcp|);
      && Bytes(pseudo + tcp)
      && segment == SetWord(tcp, TCP_CHECKSUM, Checksum(pseudo + tcp))
      && Bytes(pseudo + segment) && Checksum(pseudo + segment) == 0
    ensures |segment| == |tcp| && Bytes(segment)
    ensures segment[TCP_CHECKSUM] + 256 * segment[TCP_CHECKSUM + 1] ==
      BASE - OnesSum(PseudoSum(myIp, targetIp, |tcp|) + WordSum(tcp))
    ensures forall k :: 0 <= k < |tcp| && k != TCP_CHECKSUM && k != TCP_CHECKSUM + 1 ==> segment[k] == tcp[k]
    ensures OnesSum(PseudoSum(myIp, targetIp, |tcp|) + WordSum(segment)) == BASE
  {
    var pseudo := PseudoHeader(myIp, targetIp, |tcp|);
    var sum := AddIndexed(0, pseudo);
    sum := AddIndexed(sum, tcp);
    JoinedSum(pseudo, tcp, sum);
    var folded := Fold(sum);
    segment := SetWord(tcp, TCP_CHECKSUM, BASE - folded);
    FilledInSecond(pseudo, tcp, TCP_CHECKSUM);
    PseudoHeaderLayout(myIp, targetIp, |tcp|);
    SumOfJoin(pseudo, tcp);
    SumOfJoin(pseudo, segment);
  }

  /** The summing loops written out in net_send_tcp: whole words by index, then an odd byte. */
  method AddIndexed(start: nat, data: seq<int>) returns (sum: nat)
    requires Bytes(data) && start < WORD32
    ensures sum == (start + WordSum(data)) % WORD32
  {
    sum := start;
    var i := 0;
    while i < |data| / 2
      invariant i <= |data| / 2 && sum < WORD32
      invariant (sum + WordSum(data[2 * i..])) % WORD32 == (start + WordSum(data)) % WORD32
    {
      WordStep(sum, data, 2 * i);
      sum := (sum + data[2 * i] + 256 * data[2 * i + 1]) % WORD32;
      i := i + 1;
    }
    if |data| % 2 != 0 {
      assert data[2 * i..] == [data[|data| - 1]];
      sum := (sum + data[|data| - 1]) % WORD32;
    }
  }

  lemma {:induction false} JoinedSum(a: seq<int>, b: seq<int>, sum: nat)
    requires Bytes(a) && Bytes(b) && |a| % 2 == 0 && |a| + |b| <= 70000
    requires sum == ((0 + WordSum(a)) % WORD32 + WordSum(b)) % WORD32
    ensures Bytes(a + b) && sum == WordSum(a + b)
  {
    hide WordSum;
    SumOfJoin(a, b);
    SumBound(a + b);
    JoinBound(|a| + |b|, WordSum(a + b));
    NoWrap(WordSum(a), WordSum(b));
  }

  lemma JoinBound(n: nat, s: nat)
    requires n <= 70000 && 2 * s <= (n + 1) * BASE
    ensures 2 * s <= 70001 * BASE
  {
  }

  lemma NoWrap(x: nat, y: nat)
    requires 2 * (x + y) <= 70001 * BASE
    ensures ((0 + x) % WORD32 + y) % WORD32 == x + y
  {
  }

  /** The checksum of two joined buffers, filled in inside the second. */
  lemma FilledInSecond(a: seq<int>, b: seq<int>, f: nat)
    requires Bytes(a) && Bytes(b) && |a| % 2 == 0 && f % 2 == 0 && f + 1 < |b| && b[f] == 0 && b[f + 1] == 0
    ensures Bytes(a + b)
    ensures Bytes(a + SetWord(b, f, Checksum(a + b))) && Checksum(a + SetWord(b, f, Checksum(a + b))) == 0
  {
    SetInSecond(a, b, f, Checksum(a + b));
    FilledInChecks(a + b, |a| + f);
  }

  lemma SetInSecond(a: seq<int>, b: seq<int>, f: nat, v: nat)
    requires Bytes(a) && Bytes(b) && f + 1 < |b| && v < 65536
    ensures Bytes(a + b) && SetWord(a + b, |a| + f, v) == a + SetWord(b, f, v)
  {
  }
}
