/** `bench/carrier.py`: the Internet checksum (RFC 1071) and the frame headers it goes into (section 3.1
    of RFC 791). */
module Checksum {
  import opened Options
  import opened Bytes

  const ONES := 0xFFFF

  // ---------------------------------------------------------------- the checksum

  /** The sum of the 16-bit big-endian words, a last odd byte counting as a word with a zero after it. */
  function WordSum(data: bytes): nat {
    if data == [] then 0
    else if |data| == 1 then Word(data[0], 0)
    else Word(data[0], data[1]) + WordSum(data[2..])
  }

  function Word(high: byte, low: byte): nat {
    256 * (high as int) + low as int
  }

  /** The carries above 16 bits added back in until none is left. */
  function Folded(total: nat): nat {
    if total < CAPACITY16 then total else Folded(total % CAPACITY16 + total / CAPACITY16)
  }

  function Checksum16(data: bytes): int {
    ONES - Folded(WordSum(data))
  }

  method ComputeChecksum(data: bytes) returns (sum: int)
    ensures sum == Checksum16(data)
  {
    hide WordSum;
    var total: nat := AddWords(data);
    while total >= CAPACITY16
      invariant Folded(total) == Folded(WordSum(data))
    {
      total := total % CAPACITY16 + total / CAPACITY16;
    }
    sum := ONES - total;
  }

  method AddWords(data: bytes) returns (total: nat)
    ensures total == WordSum(data)
  {
    hide WordSum, Word;
    var padded := data;
    if |data| % 2 == 1 {
      PaddingAddsNothing(data);
      padded := data + [0];
    }
    total := 0;
    var i := 0;
    assert padded[0..] == padded;
    while i < |padded|
      invariant 0 <= i <= |padded| && (|padded| - i) % 2 == 0
      invariant total + WordSum(padded[i..]) == WordSum(data)
    {
      WordStep(padded, i);
      total := total + Word(padded[i], padded[i + 1]);
      i := i + 2;
    }
    NoWords(padded[i..]);
  }

  lemma NoWords(data: bytes)
    requires data == []
    ensures WordSum(data) == 0
  {
  }

  lemma WordStep(data: bytes, i: nat)
    requires i + 1 < |data|
    ensures WordSum(data[i..]) == Word(data[i], data[i + 1]) + WordSum(data[i + 2..])
  {
    assert data[i..][2..] == data[i + 2..];
  }

  lemma {:induction false} PaddingAddsNothing(data: bytes)
    requires |data| % 2 == 1
    ensures WordSum(data + [0]) == WordSum(data)
  {
    if |data| > 1 {
      assert (data + [0])[2..] == data[2..] + [0];
      PaddingAddsNothing(data[2..]);
    }
  }

  /** Folding ends below 16 bits, changes nothing modulo 65535, and gives zero only for zero. */
  lemma {:induction false} FoldedMeans(total: nat)
    ensures 0 <= Folded(total) <= ONES
    ensures Folded(total) % ONES == total % ONES
    ensures Folded(total) == 0 <==> total == 0
  {
    if total >= CAPACITY16 {
      var low, high := total % CAPACITY16, total / CAPACITY16;
      FoldedMeans(low + high);
      assert total == (low + high) + ONES * high;
      AddMultiple(low + high, high);
    }
  }

  lemma AddMultiple(a: nat, k: nat)
    ensures (a + ONES * k) % ONES == a % ONES
  {
  }

  lemma {:induction false} SumOfParts(a: bytes, b: bytes)
    requires |a| % 2 == 0
    ensures WordSum(a + b) == WordSum(a) + WordSum(b)
  {
    if a == [] {
      assert a + b == b;
    } else {
      assert (a + b)[2..] == a[2..] + b;
      SumOfParts(a[2..], b);
    }
  }

  /** The buffer with the 16-bit field at offset `p` set. */
  function WithField(data: bytes, p: nat, v: nat): bytes
    requires p + 2 <= |data|
  {
    data[..p] + Put(Big, 2, v) + data[p + 2..]
  }

  lemma SumOfField(v: nat)
    requires v <= ONES
    ensures WordSum(Put(Big, 2, v)) == v
  {
    hide Put;
    PutTwo(v);
    var bs := Put(Big, 2, v);
    assert bs[2..] == [];
    assert (v / 256) % 256 == v / 256;
  }

  lemma PutTwo(v: nat)
    ensures Put(Big, 2, v) == [(v / 256) % 256, v % 256]
  {
    assert Put(Big, 1, v / 256) == Put(Big, 0, v / 256 / 256) + [(v / 256) % 256];
  }

  lemma SumWithField(data: bytes, p: nat, v: nat)
    requires p % 2 == 0 && p + 2 <= |data| && data[p] == 0 && data[p + 1] == 0 && v <= ONES
    ensures WordSum(WithField(data, p, v)) == WordSum(data) + v
  {
    hide WordSum, Put;
    SumOfField(v);
    SumOfField(0);
    var a, z, b := data[..p], data[p..p + 2], data[p + 2..];
    ZeroField(z);
    assert data == a + (z + b);
    SumOfParts(a, z + b);
    SumOfParts(z, b);
    assert WithField(data, p, v) == a + (Put(Big, 2, v) + b);
    SumOfParts(a, Put(Big, 2, v) + b);
    SumOfParts(Put(Big, 2, v), b);
  }

  lemma ZeroField(z: bytes)
    requires |z| == 2 && z[0] == 0 && z[1] == 0
    ensures WordSum(z) == 0
  {
    assert z[2..] == [];
  }

  /** Folding gives all ones exactly for the multiples of 65535 above zero. */
  lemma AllOnesIff(total: nat)
    ensures Folded(total) == ONES <==> total > 0 && total % ONES == 0
  {
    hide Folded;
    FoldedMeans(total);
    var f := Folded(total);
    assert f % ONES == 0 <==> f == 0 || f == ONES;
  }

  /** For any buffer whose field is zero, a value in the field makes the whole sum up to zero exactly
      when it is the checksum; where the checksum is zero, its one's-complement twin does too. */
  lemma FieldVerifiesIff(data: bytes, p: nat, v: nat)
    requires p % 2 == 0 && p + 2 <= |data| && data[p] == 0 && data[p + 1] == 0 && v <= ONES
    ensures Checksum16(WithField(data, p, v)) == 0 <==>
            v == Checksum16(data) || (Checksum16(data) == 0 && v == ONES)
  {
    hide WordSum, Folded, WithField;
    var sum := WordSum(data);
    SumWithField(data, p, v);
    AllOnesIff(sum + v);
    FoldedMeans(sum);
    Complement(sum, Folded(sum), v);
  }

  lemma Complement(sum: nat, f: nat, v: nat)
    requires 0 <= f <= ONES && f % ONES == sum % ONES && (f == 0 <==> sum == 0) && v <= ONES
    ensures (sum + v > 0 && (sum + v) % ONES == 0) <==> v == ONES - f || (f == ONES && v == ONES)
  {
    var k := sum / ONES;
    var r := sum % ONES;
    assert sum == r + ONES * k;
    AddMultiple(r + v, k);
    assert (sum + v) % ONES == (r + v) % ONES;
    assert f == r || (f == ONES && r == 0);
    assert (r + v) % ONES == 0 <==> r + v == 0 || r + v == ONES || r + v == 2 * ONES;
  }

  /** Writing the checksum into the zero field makes the checksum of the whole zero. */
  lemma ChecksumVerifies(data: bytes, p: nat)
    requires p % 2 == 0 && p + 2 <= |data| && data[p] == 0 && data[p + 1] == 0
    ensures 0 <= Checksum16(data) <= ONES && Checksum16(WithField(data, p, Checksum16(data))) == 0
  {
    hide WordSum, Folded, WithField;
    FoldedMeans(WordSum(data));
    FieldVerifiesIff(data, p, Checksum16(data));
  }

  // ---------------------------------------------------------------- frame headers

  const ETH_P_IP := 0x0800
  const IPPROTO_UDP: byte := 17

  /** `struct.pack` of a `4s`: cut or filled with zeros to four bytes. */
  function Four(address: bytes): (r: bytes)
    ensures |r| == 4
  {
    (address + [0, 0, 0, 0])[..4]
  }

  function Short(n: int): (bs: bytes)
    requires 0 <= n <= ONES
    ensures |bs| == 2
  {
    Put(Big, 2, n)
  }

  /** An IPv4 header without options, for UDP, its checksum still zero. */
  function BareIp(total: nat, src: bytes, dst: bytes): (ip: bytes)
    requires total <= ONES
    ensures |ip| == 20 && ip[10] == 0 && ip[11] == 0
  {
    [0x45, 0] + Short(total) + [0, 0, 0x40, 0, 64, IPPROTO_UDP, 0, 0] + Four(src) + Four(dst)
  }

  function UdpHeader(sport: nat, dport: nat, length: nat): (udp: bytes)
    requires sport <= ONES && dport <= ONES && length <= ONES
    ensures |udp| == 8
  {
    Short(sport) + Short(dport) + Short(length) + Short(0)
  }

  /** `build_frame_header`; a length or port that does not fit its field is an error. */
  function FrameHeader(
    srcMac: bytes, dstMac: bytes, srcIp: bytes, dstIp: bytes, sport: nat, dport: nat, payload: nat): Option<bytes>
  {
    if 28 + payload > ONES || sport > ONES || dport > ONES then None
    else
      var bare := BareIp(28 + payload, srcIp, dstIp);
      ChecksumVerifies(bare, 10);
      Some(dstMac + srcMac + Short(ETH_P_IP) + WithField(bare, 10, Checksum16(bare)) +
        UdpHeader(sport, dport, 8 + payload))
  }

  /** In every header built the IPv4 part verifies, both length fields count what follows, and nothing
      is lost of the ports and addresses. */
  lemma FrameHeaderVerifies(
    srcMac: bytes, dstMac: bytes, srcIp: bytes, dstIp: bytes, sport: nat, dport: nat, payload: nat)
    requires |srcMac| == 6 && |dstMac| == 6 && |srcIp| == 4 && |dstIp| == 4
    requires 28 + payload <= ONES && sport <= ONES && dport <= ONES
    ensures var frame := FrameHeader(srcMac, dstMac, srcIp, dstIp, sport, dport, payload);
            && frame.Some? && |frame.value| == 42
            && var f := frame.value;
               && Checksum16(f[14..34]) == 0
               && f[..6] == dstMac && f[6..12] == srcMac && Field(Big, f, 12, 2) == ETH_P_IP
               && f[26..30] == srcIp && f[30..34] == dstIp && f[23] == IPPROTO_UDP
               && Field(Big, f, 16, 2) == 20 + 8 + payload
               && Field(Big, f, 34, 2) == sport && Field(Big, f, 36, 2) == dport && Field(Big, f, 38, 2) == 8 + payload
               && f[14] == 0x45 && f[15] == 0 && f[18..24] == [0, 0, 0x40, 0, 64, 17] && f[40..42] == [0, 0]
  {
    hide Checksum16, WithField, BareIp, UdpHeader, Value;
    var bare := BareIp(28 + payload, srcIp, dstIp);
    ChecksumVerifies(bare, 10);
    var ip, udp := WithField(bare, 10, Checksum16(bare)), UdpHeader(sport, dport, 8 + payload);
    IpFields(28 + payload, srcIp, dstIp, Checksum16(bare));
    UdpFields(sport, dport, 8 + payload);
    FieldOf(ETH_P_IP);
    var f := dstMac + srcMac + Short(ETH_P_IP) + ip + udp;
    assert f[14..34] == ip && f[..6] == dstMac && f[6..12] == srcMac;
    assert f[12..14] == Short(ETH_P_IP) && f[34..42] == udp;
    assert f[26..30] == ip[12..16] && f[30..34] == ip[16..20] && f[23] == ip[9] && f[16..18] == ip[2..4];
    assert f[14] == ip[0] && f[15] == ip[1] && f[18..24] == ip[4..10] && f[40..42] == udp[6..8];
    assert f[34..36] == udp[..2] && f[36..38] == udp[2..4] && f[38..40] == udp[4..6];
  }

  lemma FieldOf(n: nat)
    requires n <= ONES
    ensures Value(Big, Short(n)) == n
  {
    Capacities();
    ValueOfPut(Big, 2, n);
  }

  lemma IpFields(total: nat, src: bytes, dst: bytes, sum: int)
    requires total <= ONES && |src| == 4 && |dst| == 4 && 0 <= sum <= ONES
    ensures var ip := WithField(BareIp(total, src, dst), 10, sum);
            && |ip| == 20 && Value(Big, ip[2..4]) == total
            && ip[0] == 0x45 && ip[1] == 0 && ip[4..10] == [0, 0, 0x40, 0, 64, 17]
            && ip[9] == IPPROTO_UDP && ip[12..16] == src && ip[16..20] == dst
  {
    hide Value, Put;
    var bare := BareIp(total, src, dst);
    var ip := WithField(bare, 10, sum);
    FieldOf(total);
    assert Four(src) == src && Four(dst) == dst;
    assert bare[4..10] == [0, 0, 0x40, 0, 64, IPPROTO_UDP] && ip[4..10] == bare[4..10];
    assert bare[2..4] == Short(total) && bare[12..16] == Four(src) && bare[16..20] == Four(dst);
    assert ip[2..4] == bare[2..4] && ip[12..16] == bare[12..16] && ip[16..20] == bare[16..20];
  }

  lemma UdpFields(sport: nat, dport: nat, length: nat)
    requires sport <= ONES && dport <= ONES && length <= ONES
    ensures var udp := UdpHeader(sport, dport, length);
            && Value(Big, udp[..2]) == sport && Value(Big, udp[2..4]) == dport && Value(Big, udp[4..6]) == length
            && udp[6..8] == [0, 0]
  {
    hide Value, Put;
    FieldOf(sport);
    FieldOf(dport);
    FieldOf(length);
    var udp := UdpHeader(sport, dport, length);
    ShortZero();
    assert udp[6..8] == Short(0);
    assert udp[..2] == Short(sport) && udp[2..4] == Short(dport) && udp[4..6] == Short(length);
  }

  lemma ShortZero()
    ensures Short(0) == [0, 0]
  {
  }
}
