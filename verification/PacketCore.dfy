/**
The packet core: the Internet checksum (RFC 1071), the inspection of Ethernet frames that carry IPv4
UDP or TCP, and the bounded packet queues.
*/
module PacketCore {
  import opened Common
  import opened Rings

  // ------------------------------------------------------------------------- checksum

  function Word(b: seq<Byte>, at: nat): nat
    requires at + 2 <= |b|
  {
    256 * (b[at] as nat) + (b[at + 1] as nat)
  }

  /** The sum of the first `k` words. */
  function PairSum(b: seq<Byte>, k: nat): (sum: nat)
    requires 2 * k <= |b|
    ensures sum <= 65535 * k
    decreases k, |b|
  {
    if k == 0 then 0 else PairSum(b, k - 1) + Word(b, 2 * k - 2)
  }

  /** The last byte of an odd number of bytes is the high byte of a word. */
  function Rest(b: seq<Byte>): nat {
    if |b| % 2 == 1 then 256 * (b[|b| - 1] as nat) else 0
  }

  /** The sum of the 16-bit words. */
  function WordSum(b: seq<Byte>): nat {
    PairSum(b, |b| / 2) + Rest(b)
  }

  /** The representative of a sum in ones' complement: zero only for zero, else from 1 to 65535. */
  function Folded(sum: nat): (r: nat)
    ensures r < 65536
  {
    if sum == 0 then 0 else (sum - 1) % 65535 + 1
  }

  lemma FoldStep(sum: nat)
    requires sum >= 65536
    ensures Folded(sum % 65536 + sum / 65536) == Folded(sum) && 0 < sum % 65536 + sum / 65536 < sum
  {}

  /** A folded sum is 0xFFFF exactly for the positive multiples of 65535. */
  lemma FoldedOnes(sum: nat)
    ensures Folded(sum) == 65535 <==> sum > 0 && sum % 65535 == 0
  {}

  lemma {:induction false} PairSumGrows(b: seq<Byte>, j: nat, k: nat)
    requires j <= k && 2 * k <= |b|
    ensures PairSum(b, j) <= PairSum(b, k)
  {
    if j < k { PairSumGrows(b, j, k - 1); }
  }

  /** The 32-bit sum; it does not wrap around for anything a frame can hold. */
  method ChecksumAdd(start: nat, b: seq<Byte>) returns (sum: nat)
    requires start < 0x1_0000_0000
    ensures sum < 0x1_0000_0000 && (start + WordSum(b) < 0x1_0000_0000 ==> sum == start + WordSum(b))
  {
    sum := start;
    for k := 0 to |b| / 2
      invariant sum < 0x1_0000_0000 && (start + WordSum(b) < 0x1_0000_0000 ==> sum == start + PairSum(b, k))
    {
      PairSumGrows(b, k + 1, |b| / 2);
      sum := Wrap(sum + Word(b, 2 * k));
    }
    if |b| % 2 == 1 { sum := Wrap(sum + 256 * (b[|b| - 1] as nat)); }
  }

  function Wrap(x: nat): nat
    requires x < 0x2_0000_0000
  {
    if x < 0x1_0000_0000 then x else x - 0x1_0000_0000
  }

  method ChecksumFold(start: nat) returns (r: nat)
    ensures r == Folded(start)
  {
    r := start;
    while r >= 65536
      invariant Folded(r) == Folded(start)
    {
      FoldStep(r);
      r := r % 65536 + r / 65536;
    }
  }

  /** The change of the sum when byte `i` changes by `d`. */
  function Weight(i: nat, d: int): int { if i % 2 == 0 then 256 * d else d }

  lemma {:induction false} PairChange(b: seq<Byte>, i: nat, y: Byte, k: nat)
    requires i < |b| && 2 * k <= |b|
    ensures PairSum(b[i := y], k) == PairSum(b, k) + if i < 2 * k then Weight(i, (y as int) - (b[i] as int)) else 0
  {
    if k > 0 { PairChange(b, i, y, k - 1); }
  }

  /** What changing one byte does to the sum. */
  lemma ByteChange(b: seq<Byte>, i: nat, y: Byte)
    requires i < |b|
    ensures WordSum(b[i := y]) == WordSum(b) + Weight(i, (y as int) - (b[i] as int))
  {
    PairChange(b, i, y, |b| / 2);
  }

  // --------------------------------------------------------------------------- the checks

  predicate ChecksumValid(b: seq<Byte>) { Folded(WordSum(b)) == 65535 }

  function ChecksumValue(b: seq<Byte>): (v: nat)
    ensures v < 65536
  {
    65535 - Folded(WordSum(b))
  }

  /** The pseudo header, then the segment. */
  function TransportSum(source: seq<Byte>, destination: seq<Byte>, protocol: nat, segment: seq<Byte>): nat {
    WordSum(source) + WordSum(destination) + protocol + |segment| + WordSum(segment)
  }

  predicate TransportValid(source: seq<Byte>, destination: seq<Byte>, protocol: nat, segment: seq<Byte>) {
    && |source| == 4 && |destination| == 4 && |segment| <= 65535
    && Folded(TransportSum(source, destination, protocol, segment)) == 65535
  }

  function TransportValue(source: seq<Byte>, destination: seq<Byte>, protocol: nat, segment: seq<Byte>): (v: nat)
    ensures v < 65536
  {
    var value := 65535 - Folded(TransportSum(source, destination, protocol, segment));
    if value == 0 then 0xFFFF else value
  }

  method IsChecksumValid(b: seq<Byte>) returns (r: bool)
    ensures |b| <= 65535 ==> r == ChecksumValid(b)
  {
    var sum := ChecksumAdd(0, b);
    var folded := ChecksumFold(sum);
    return folded == 65535;
  }

  method SumTransport(source: seq<Byte>, destination: seq<Byte>, protocol: Byte, segment: seq<Byte>) returns (sum: nat)
    requires |source| == 4 && |destination| == 4 && |segment| <= 65535
    ensures sum == TransportSum(source, destination, protocol, segment)
  {
    sum := ChecksumAdd(0, source);
    sum := ChecksumAdd(sum, destination);
    sum := Wrap(sum + protocol);
    sum := Wrap(sum + |segment|);
    sum := ChecksumAdd(sum, segment);
  }

  method IsTransportValid(source: seq<Byte>, destination: seq<Byte>, protocol: Byte, segment: seq<Byte>)
    returns (r: bool)
    ensures r == TransportValid(source, destination, protocol, segment)
  {
    if |source| != 4 || |destination| != 4 || |segment| > 65535 { return false; }
    var sum := SumTransport(source, destination, protocol, segment);
    var folded := ChecksumFold(sum);
    return folded == 65535;
  }

  method ComputeTransportValue(source: seq<Byte>, destination: seq<Byte>, protocol: Byte, segment: seq<Byte>)
    returns (v: nat)
    requires |source| == 4 && |destination| == 4 && |segment| <= 65535
    ensures v == TransportValue(source, destination, protocol, segment)
  {
    var sum := SumTransport(source, destination, protocol, segment);
    var folded := ChecksumFold(sum);
    v := 65535 - folded;
    if v == 0 { v := 0xFFFF; }
  }

  /** A 16-bit value stored big-endian. */
  function Stored(b: seq<Byte>, at: nat, v: nat): (r: seq<Byte>)
    requires at + 2 <= |b| && v < 65536
    ensures |r| == |b|
  {
    Replaced(b, at, v / 256, v % 256)
  }

  function Replaced(b: seq<Byte>, at: nat, high: Byte, low: Byte): (r: seq<Byte>)
    requires at + 2 <= |b|
    ensures |r| == |b|
  {
    b[at := high][at + 1 := low]
  }

  lemma ReplacedSum(b: seq<Byte>, at: nat, high: Byte, low: Byte)
    requires at % 2 == 0 && at + 2 <= |b|
    ensures WordSum(Replaced(b, at, high, low)) == WordSum(b) - Word(b, at) + 256 * (high as nat) + (low as nat)
  {
    ByteChange(b, at, high);
    ByteChange(b[at := high], at + 1, low);
  }

  lemma StoredSum(b: seq<Byte>, at: nat, v: nat)
    requires at % 2 == 0 && at + 2 <= |b| && v < 65536
    ensures WordSum(Stored(b, at, v)) == WordSum(b) - Word(b, at) + v
  {
    ReplacedSum(b, at, v / 256, v % 256);
  }

  /** Adding its complement to a sum gives a positive multiple of 65535. */
  lemma Complement(sum: nat, v: nat)
    requires v == 65535 - Folded(sum) || (Folded(sum) == 65535 && v == 65535)
    ensures Folded(sum + v) == 65535
  {}

  /** Storing the checksum in a zeroed field at an even offset makes the bytes verify. */
  lemma ChecksumRoundTrip(b: seq<Byte>, at: nat)
    requires at % 2 == 0 && at + 2 <= |b| && Word(b, at) == 0
    ensures ChecksumValid(Stored(b, at, ChecksumValue(b)))
  {
    StoredSum(b, at, ChecksumValue(b));
    Complement(WordSum(b), ChecksumValue(b));
  }

  /** The same for a transport checksum, whose zero is sent as 0xFFFF. */
  lemma TransportRoundTrip(source: seq<Byte>, destination: seq<Byte>, protocol: Byte, segment: seq<Byte>, at: nat)
    requires |source| == 4 && |destination| == 4 && |segment| <= 65535
    requires at % 2 == 0 && at + 2 <= |segment| && Word(segment, at) == 0
    ensures var v := TransportValue(source, destination, protocol, segment);
      v != 0 && TransportValid(source, destination, protocol, Stored(segment, at, v))
  {
    var v := TransportValue(source, destination, protocol, segment);
    StoredSum(segment, at, v);
    Complement(TransportSum(source, destination, protocol, segment), v);
    assert TransportSum(source, destination, protocol, Stored(segment, at, v)) ==
           TransportSum(source, destination, protocol, segment) + v;
  }

  /** Two different sums less than 65535 apart do not both verify. */
  lemma SumDetected(s: nat, t: nat)
    requires Folded(s) == 65535 && s != t && -65535 < t - s < 65535
    ensures Folded(t) != 65535
  {}

  /** Changing one byte of valid bytes is noticed. */
  lemma ByteDetected(b: seq<Byte>, i: nat, y: Byte)
    requires ChecksumValid(b) && i < |b| && y != b[i]
    ensures !ChecksumValid(b[i := y])
  {
    ByteChange(b, i, y);
    SumDetected(WordSum(b), WordSum(b[i := y]));
  }

  /** Exactly which changes of one aligned word go unnoticed: a word of zeros for a word of ones, or back. */
  lemma WordDetected(b: seq<Byte>, at: nat, v: nat)
    requires ChecksumValid(b) && at % 2 == 0 && at + 2 <= |b| && v < 65536 && v != Word(b, at)
    ensures ChecksumValid(Stored(b, at, v)) <==>
      (Word(b, at) == 0 && v == 65535) || (Word(b, at) == 65535 && v == 0 && WordSum(b) > 65535)
  {
    StoredSum(b, at, v);
    var s, t := WordSum(b), WordSum(Stored(b, at, v));
    if -65535 < t - s < 65535 { SumDetected(s, t); } else { Multiples(s, t); }
  }

  /** Four valid bytes whose first word changes from zeros to ones without notice. */
  lemma ZerosForOnes()
    ensures ChecksumValid([0, 0, 255, 255]) && Stored([0, 0, 255, 255], 0, 65535) == [255, 255, 255, 255]
    ensures ChecksumValid([255, 255, 255, 255])
  {
    var b: seq<Byte> := [0, 0, 255, 255];
    assert Word(b, 0) == 0 && Word(b, 2) == 65535;
    assert PairSum(b, 1) == 0 && PairSum(b, 2) == 65535;
    WordDetected(b, 0, 65535);
  }

  lemma Multiples(s: nat, t: nat)
    requires Folded(s) == 65535 && (t == s + 65535 || t == s - 65535)
    ensures Folded(t) == 65535 <==> t > 0
  {}

  // ------------------------------------------------------------------------ inspection

  const MAX_FRAME: nat := 1514

  datatype Error = Invalid | Unsupported | Checksum | Fragment | QueueFull | BufferTooSmall | QueueEmpty | StateError

  datatype Summary = Summary(
    etherType: nat, totalLength: nat, protocol: nat, source: nat, destination: nat, headerLength: nat,
    sourcePort: nat, destinationPort: nat, payloadLength: nat, tcpFlags: nat)

  datatype Inspection = Accepted(summary: Summary) | Rejected(error: Error)

  function Be32(b: seq<Byte>, at: nat): nat
    requires at + 4 <= |b|
  {
    0x1_0000 * Word(b, at) + Word(b, at + 2)
  }

  predicate FlagsOk(flags: nat) {
    var fin, syn, rst := flags % 2 == 1, flags / 2 % 2 == 1, flags / 4 % 2 == 1;
    flags != 0 && !(syn && (rst || fin)) && !(rst && fin)
  }

  /** Ports are checked last, for both protocols. */
  function WithPorts(s: Summary): Inspection {
    if s.sourcePort == 0 || s.destinationPort == 0 then Rejected(Invalid) else Accepted(s)
  }

  function InspectUdp(base: Summary, source: seq<Byte>, destination: seq<Byte>, transport: seq<Byte>): Inspection {
    if |transport| < 8 || Word(transport, 4) != |transport| then Rejected(Invalid)
    else if Word(transport, 6) == 0 || !TransportValid(source, destination, 17, transport) then Rejected(Checksum)
    else WithPorts(base.(headerLength := 8, sourcePort := Word(transport, 0), destinationPort := Word(transport, 2),
                         payloadLength := |transport| - 8))
  }

  function InspectTcp(base: Summary, source: seq<Byte>, destination: seq<Byte>, transport: seq<Byte>): Inspection {
    if |transport| < 20 then Rejected(Invalid)
    else
      var offset, flags := transport[12] as nat, transport[13] as nat;
      var header := offset / 16 * 4;
      if header < 20 || header > 60 || header > |transport| || offset / 2 % 8 != 0 || !FlagsOk(flags)
      then Rejected(Invalid)
      else if Word(transport, 16) == 0 || !TransportValid(source, destination, 6, transport) then Rejected(Checksum)
      else WithPorts(base.(headerLength := header,
                           sourcePort := Word(transport, 0), destinationPort := Word(transport, 2),
                           payloadLength := |transport| - header, tcpFlags := flags))
  }

  function InspectIp(ip: seq<Byte>): Inspection
    requires |ip| >= 20
  {
    var total := Word(ip, 2);
    if ip[0] != 0x45 then Rejected(Unsupported)
    else if total < 20 || total > |ip| then Rejected(Invalid)
    else if !ChecksumValid(ip[..20]) then Rejected(Checksum)
    else if Word(ip, 6) % 0x4000 != 0 || Word(ip, 6) / 0x8000 != 0 then Rejected(Fragment)
    else if ip[8] == 0 then Rejected(Invalid)
    else
      var base := Summary(0x0800, total, ip[9], Be32(ip, 12), Be32(ip, 16), 0, 0, 0, 0, 0);
      if ip[9] == 17 then InspectUdp(base, ip[12..16], ip[16..20], ip[20..total])
      else if ip[9] == 6 then InspectTcp(base, ip[12..16], ip[16..20], ip[20..total])
      else Rejected(Unsupported)
  }

  function Inspect(frame: seq<Byte>): Inspection {
    if |frame| < 34 || |frame| > MAX_FRAME then Rejected(Invalid)
    else if Word(frame, 12) != 0x0800 then Rejected(Unsupported)
    else InspectIp(frame[14..])
  }

  /** What an accepted frame is, field by field: offsets count from the start of the frame. */
  lemma AcceptedFrame(frame: seq<Byte>)
    requires Inspect(frame).Accepted?
    ensures 42 <= |frame| <= MAX_FRAME && Word(frame, 12) == 0x0800 && frame[14] == 0x45 && frame[22] != 0
    ensures var s := Inspect(frame).summary;
      && s.totalLength == Word(frame, 16) && s.totalLength + 14 <= |frame| && s.protocol == frame[23]
      && s.protocol in {6, 17}
      && s.source == Be32(frame, 26) && s.destination == Be32(frame, 30)
      && s.sourcePort == Word(frame, 34) != 0 && s.destinationPort == Word(frame, 36) != 0
      && 20 + s.headerLength + s.payloadLength == s.totalLength
      && (s.protocol == 17 ==> s.headerLength == 8 && s.totalLength == 20 + Word(frame, 38) && s.tcpFlags == 0)
      && (s.protocol == 6 ==>
            && |frame| >= 54 && s.headerLength == (frame[46] as nat) / 16 * 4
            && s.tcpFlags == frame[47] && FlagsOk(s.tcpFlags))
  {
    var ip := frame[14..];
    var transport := ip[20..Word(ip, 2)];
    assert forall k :: 0 <= k < |transport| ==> transport[k] == frame[34 + k];
    assert forall k :: 0 <= k < |ip| ==> ip[k] == frame[14 + k];
  }

  /** The two checksums of an accepted datagram. */
  lemma AcceptedChecks(ip: seq<Byte>)
    requires |ip| >= 20 && InspectIp(ip).Accepted?
    ensures 20 <= Word(ip, 2) <= |ip| && ChecksumValid(ip[..20])
    ensures TransportValid(ip[12..16], ip[16..20], ip[9], ip[20..Word(ip, 2)])
  {}

  lemma HeaderDetected(ip: seq<Byte>, i: nat, y: Byte)
    requires |ip| >= 20 && InspectIp(ip).Accepted? && i < 20 && y != ip[i]
    ensures InspectIp(ip[i := y]).Rejected?
  {
    AcceptedChecks(ip);
    ByteDetected(ip[..20], i, y);
    assert ip[i := y][..20] == ip[..20][i := y];
  }

  lemma SegmentDetected(ip: seq<Byte>, i: nat, y: Byte)
    requires |ip| >= 20 && InspectIp(ip).Accepted? && 20 <= i < Word(ip, 2) && y != ip[i]
    ensures InspectIp(ip[i := y]).Rejected?
  {
    AcceptedChecks(ip);
    var ip', segment := ip[i := y], ip[20..Word(ip, 2)];
    assert Word(ip', 2) == Word(ip, 2) && ip'[12..16] == ip[12..16] && ip'[16..20] == ip[16..20] && ip'[9] == ip[9];
    assert ip'[20..Word(ip, 2)] == segment[i - 20 := y];
    ByteChange(segment, i - 20, y);
    SumDetected(TransportSum(ip[12..16], ip[16..20], ip[9], segment),
      TransportSum(ip[12..16], ip[16..20], ip[9], segment[i - 20 := y]));
    if InspectIp(ip').Accepted? { AcceptedChecks(ip'); }
  }

  /** Changing any one byte of an accepted frame from the EtherType to the end of the datagram makes it rejected. */
  lemma FrameDetected(frame: seq<Byte>, i: nat, y: Byte)
    requires Inspect(frame).Accepted?
    requires 12 <= i < 14 + Inspect(frame).summary.totalLength && i < |frame| && y != frame[i]
    ensures Inspect(frame[i := y]).Rejected?
  {
    if i >= 14 {
      var ip := frame[14..];
      assert frame[i := y][14..] == ip[i - 14 := y];
      AcceptedLength(ip);
      if i < 34 { HeaderDetected(ip, i - 14, y); } else { SegmentDetected(ip, i - 14, y); }
    }
  }

  lemma AcceptedLength(ip: seq<Byte>)
    requires |ip| >= 20 && InspectIp(ip).Accepted?
    ensures InspectIp(ip).summary.totalLength == Word(ip, 2)
  {}

  // ------------------------------------------------------------- acceptance by frame offset

  /** The UDP header: its length covers the rest of the datagram. */
  predicate UdpShaped(frame: seq<Byte>)
    requires |frame| >= 34
  {
    var rest := Word(frame, 16) - 20;
    8 <= rest <= |frame| - 34 && Word(frame, 38) == rest
  }

  /** The TCP header: 20 bytes or more inside the datagram, no reserved bit, and at most one of FIN, SYN and RST. */
  predicate TcpShaped(frame: seq<Byte>)
    requires |frame| >= 34
  {
    var rest := Word(frame, 16) - 20;
    && 20 <= rest <= |frame| - 34 && 5 <= (frame[46] as nat) / 16 && (frame[46] as nat) / 16 * 4 <= rest
    && (frame[46] as nat) % 16 in {0, 1} && frame[47] != 0 && (frame[47] as nat) % 8 in {0, 1, 2, 4}
  }

  /** The fixed fields: EtherType, version, lengths, no fragment, time to live. Offsets count from the frame. */
  predicate Framed(frame: seq<Byte>) {
    && 34 <= |frame| <= 1514 && frame[12] == 0x08 && frame[13] == 0 && frame[14] == 0x45
    && 20 <= Word(frame, 16) <= |frame| - 14 && Word(frame, 20) in {0, 0x4000} && frame[22] != 0
  }

  /** Everything that makes a frame acceptable but its two checksums. */
  predicate Shaped(frame: seq<Byte>) {
    && Framed(frame) && (if frame[23] == 17 then UdpShaped(frame) else frame[23] == 6 && TcpShaped(frame))
    && Word(frame, 34) != 0 && Word(frame, 36) != 0
  }

  /** Where the transport checksum stands. */
  function CheckAt(frame: seq<Byte>): nat
    requires |frame| >= 34
  {
    if frame[23] == 17 then 40 else 50
  }

  /** The transport segment of a shaped frame. */
  function Segment(frame: seq<Byte>): (r: seq<Byte>)
    requires Shaped(frame)
    ensures |r| == Word(frame, 16) - 20 && CheckAt(frame) + 2 <= 34 + |r|
  {
    frame[34..14 + Word(frame, 16)]
  }

  /** The ten words of the IPv4 header. */
  function HeaderSum(frame: seq<Byte>): nat
    requires |frame| >= 34
  {
    Word(frame, 14) + Word(frame, 16) + Word(frame, 18) + Word(frame, 20) + Word(frame, 22) + Word(frame, 24) +
    Word(frame, 26) + Word(frame, 28) + Word(frame, 30) + Word(frame, 32)
  }

  /** Zero in ones' complement, and not for want of any bit. */
  predicate Ones(sum: nat) { sum > 0 && sum % 65535 == 0 }

  /** The pseudo header of the transport checksum, and the segment. */
  function PseudoSum(frame: seq<Byte>): nat
    requires Framed(frame)
  {
    var segment := frame[34..14 + Word(frame, 16)];
    Word(frame, 26) + Word(frame, 28) + Word(frame, 30) + Word(frame, 32) + frame[23] + |segment| + WordSum(segment)
  }

  /** Both checksums verify, and the transport checksum is there. */
  predicate Sealed(frame: seq<Byte>)
    requires Shaped(frame)
  {
    Ones(HeaderSum(frame)) && Word(frame, CheckAt(frame)) != 0 && Ones(PseudoSum(frame))
  }

  lemma FourSum(b: seq<Byte>)
    requires |b| == 4
    ensures WordSum(b) == Word(b, 0) + Word(b, 2)
  {
    assert PairSum(b, 1) == PairSum(b, 0) + Word(b, 0) && PairSum(b, 2) == PairSum(b, 1) + Word(b, 2);
  }

  lemma TwentySum(b: seq<Byte>)
    requires |b| == 20
    ensures WordSum(b) == Word(b, 0) + Word(b, 2) + Word(b, 4) + Word(b, 6) + Word(b, 8) + Word(b, 10) + Word(b, 12) +
      Word(b, 14) + Word(b, 16) + Word(b, 18)
  {
    assert PairSum(b, 1) == PairSum(b, 0) + Word(b, 0) && PairSum(b, 2) == PairSum(b, 1) + Word(b, 2);
    assert PairSum(b, 3) == PairSum(b, 2) + Word(b, 4) && PairSum(b, 4) == PairSum(b, 3) + Word(b, 6);
    assert PairSum(b, 5) == PairSum(b, 4) + Word(b, 8) && PairSum(b, 6) == PairSum(b, 5) + Word(b, 10);
    assert PairSum(b, 7) == PairSum(b, 6) + Word(b, 12) && PairSum(b, 8) == PairSum(b, 7) + Word(b, 14);
    assert PairSum(b, 9) == PairSum(b, 8) + Word(b, 16) && PairSum(b, 10) == PairSum(b, 9) + Word(b, 18);
  }

  lemma HeaderSumIs(frame: seq<Byte>)
    requires |frame| >= 34
    ensures WordSum(frame[14..][..20]) == HeaderSum(frame) && frame[14..][..20] == frame[14..34]
    ensures ChecksumValid(frame[14..][..20]) <==> Ones(HeaderSum(frame))
  {
    TwentySum(frame[14..][..20]);
    FoldedOnes(HeaderSum(frame));
  }

  lemma PseudoSumIs(frame: seq<Byte>)
    requires Framed(frame)
    ensures
      var segment := frame[34..14 + Word(frame, 16)];
      && TransportSum(frame[26..30], frame[30..34], frame[23], segment) == PseudoSum(frame)
      && (TransportValid(frame[26..30], frame[30..34], frame[23], segment) <==> Ones(PseudoSum(frame)))
  {
    FourSum(frame[26..30]);
    FourSum(frame[30..34]);
    FoldedOnes(PseudoSum(frame));
  }

  lemma FlagsExactly(flags: Byte)
    ensures FlagsOk(flags) <==> flags != 0 && (flags as nat) % 8 in {0, 1, 2, 4}
  {}

  lemma OffsetExactly(offset: Byte, n: nat)
    ensures
      var header := (offset as nat) / 16 * 4;
      !(header < 20 || header > 60 || header > n || (offset as nat) / 2 % 8 != 0) <==>
      5 <= (offset as nat) / 16 && header <= n && (offset as nat) % 16 in {0, 1}
  {}

  /** What the inspection sees of the frame. */
  lemma Windows(frame: seq<Byte>)
    requires |frame| >= 34
    ensures
      var ip := frame[14..];
      && ip[0] == frame[14] && Word(ip, 2) == Word(frame, 16) && Word(ip, 6) == Word(frame, 20) && ip[8] == frame[22]
      && ip[9] == frame[23] && ip[12..16] == frame[26..30] && ip[16..20] == frame[30..34]
      && (20 <= Word(frame, 16) <= |ip| ==> ip[20..Word(frame, 16)] == frame[34..14 + Word(frame, 16)])
  {}

  lemma UdpExactly(frame: seq<Byte>, base: Summary)
    requires Framed(frame) && frame[23] == 17
    ensures InspectUdp(base, frame[26..30], frame[30..34], frame[34..14 + Word(frame, 16)]).Accepted? <==>
      Shaped(frame) && Word(frame, 40) != 0 && Ones(PseudoSum(frame))
  {
    var transport := frame[34..14 + Word(frame, 16)];
    assert forall k :: 0 <= k < |transport| ==> transport[k] == frame[34 + k];
    PseudoSumIs(frame);
  }

  lemma TcpExactly(frame: seq<Byte>, base: Summary)
    requires Framed(frame) && frame[23] == 6
    ensures InspectTcp(base, frame[26..30], frame[30..34], frame[34..14 + Word(frame, 16)]).Accepted? <==>
      Shaped(frame) && Word(frame, 50) != 0 && Ones(PseudoSum(frame))
  {
    var transport := frame[34..14 + Word(frame, 16)];
    PseudoSumIs(frame);
    if |transport| >= 20 {
      assert transport[12] == frame[46] && transport[13] == frame[47];
      assert Word(transport, 0) == Word(frame, 34) && Word(transport, 2) == Word(frame, 36);
      assert Word(transport, 16) == Word(frame, 50);
      FlagsExactly(frame[47]);
      OffsetExactly(frame[46], |transport|);
    }
  }

  /** The summary before the transport header is read. */
  function Base(frame: seq<Byte>): Summary
    requires |frame| >= 34
  {
    var ip := frame[14..];
    Summary(0x0800, Word(frame, 16), frame[23], Be32(ip, 12), Be32(ip, 16), 0, 0, 0, 0, 0)
  }

  /** The transport inspection that a framed datagram with a good header gets. */
  ghost predicate Carried(frame: seq<Byte>)
    requires Framed(frame)
  {
    var base := Base(frame);
    var transport := frame[34..14 + Word(frame, 16)];
    || (frame[23] == 17 && InspectUdp(base, frame[26..30], frame[30..34], transport).Accepted?)
    || (frame[23] == 6 && InspectTcp(base, frame[26..30], frame[30..34], transport).Accepted?)
  }

  lemma CarriedExactly(frame: seq<Byte>)
    requires Framed(frame) && Ones(HeaderSum(frame))
    ensures Carried(frame) <==> Shaped(frame) && Sealed(frame)
  {
    var base := Base(frame);
    if frame[23] == 17 { UdpExactly(frame, base); }
    if frame[23] == 6 { TcpExactly(frame, base); }
  }

  lemma FramedExactly(frame: seq<Byte>)
    ensures Inspect(frame).Accepted? <==> Framed(frame) && Ones(HeaderSum(frame)) && Carried(frame)
  {
    if 34 <= |frame| <= 1514 {
      Windows(frame);
      HeaderSumIs(frame);
      WordParts(Word(frame, 20));
    }
  }

  lemma WordParts(word: nat)
    requires word < 0x1_0000
    ensures word % 0x4000 != 0 || word / 0x8000 != 0 <==> word !in {0, 0x4000}
  {}

  /** Exactly which frames are accepted. */
  lemma AcceptedExactly(frame: seq<Byte>)
    ensures Inspect(frame).Accepted? <==> Shaped(frame) && Sealed(frame)
  {
    FramedExactly(frame);
    if Framed(frame) && Ones(HeaderSum(frame)) { CarriedExactly(frame); }
  }

  /** A frame with both checksums filled in. */
  function Filled(frame: seq<Byte>): (r: seq<Byte>)
    requires Shaped(frame)
    ensures |r| == |frame|
  {
    var header := ChecksumValue(frame[14..34]);
    var transport := TransportValue(frame[26..30], frame[30..34], frame[23], Segment(frame));
    Stored(Stored(frame, 24, header), CheckAt(frame), transport)
  }

  /** Two stored words touch no other byte. */
  lemma TwiceStored(b: seq<Byte>, at: nat, v: nat, at': nat, v': nat)
    requires at + 2 <= at' && at' + 2 <= |b| && v < 65536 && v' < 65536
    ensures
      var r := Stored(Stored(b, at, v), at', v');
      && |r| == |b| && Word(r, at) == v && Word(r, at') == v'
      && forall i :: 0 <= i < |b| && i !in {at, at + 1, at', at' + 1} ==> r[i] == b[i]
  {}

  lemma StaysShaped(frame: seq<Byte>, sealed: seq<Byte>)
    requires Shaped(frame) && |sealed| == |frame|
    requires forall i :: 0 <= i < |frame| && i !in {24, 25, CheckAt(frame), CheckAt(frame) + 1} ==>
      sealed[i] == frame[i]
    ensures Shaped(sealed) && CheckAt(sealed) == CheckAt(frame) && Word(sealed, 16) == Word(frame, 16)
    ensures sealed[26..30] == frame[26..30] && sealed[30..34] == frame[30..34] && sealed[23] == frame[23]
  {
    assert Framed(sealed) && (frame[23] == 6 ==> sealed[46] == frame[46] && sealed[47] == frame[47]);
  }

  lemma HeaderFilled(frame: seq<Byte>, sealed: seq<Byte>)
    requires Shaped(frame) && |sealed| == |frame| && Word(frame, 24) == 0
    requires Word(sealed, 24) == ChecksumValue(frame[14..34])
    requires forall i :: 14 <= i < 34 && i !in {24, 25} ==> sealed[i] == frame[i]
    ensures Ones(HeaderSum(sealed))
  {
    var header := ChecksumValue(frame[14..34]);
    ChecksumRoundTrip(frame[14..34], 10);
    assert sealed[14..34] == Stored(frame[14..34], 10, header);
    HeaderSumIs(sealed);
  }

  lemma SegmentFilled(frame: seq<Byte>, sealed: seq<Byte>, at: nat)
    requires Shaped(frame) && Shaped(sealed) && |sealed| == |frame| && at == CheckAt(frame) == CheckAt(sealed)
    requires Word(frame, at) == 0 && Word(sealed, 16) == Word(frame, 16) && sealed[23] == frame[23]
    requires sealed[26..30] == frame[26..30] && sealed[30..34] == frame[30..34]
    requires Word(sealed, at) == TransportValue(frame[26..30], frame[30..34], frame[23], Segment(frame))
    requires forall i :: 34 <= i < |frame| && i !in {at, at + 1} ==> sealed[i] == frame[i]
    ensures Word(sealed, at) != 0 && Ones(PseudoSum(sealed))
  {
    var v := TransportValue(frame[26..30], frame[30..34], frame[23], Segment(frame));
    TransportRoundTrip(frame[26..30], frame[30..34], frame[23], Segment(frame), at - 34);
    assert Segment(sealed) == Stored(Segment(frame), at - 34, v);
    PseudoSumIs(sealed);
  }

  /** A frame built with the kernel's own checksums in two zeroed fields is accepted. */
  lemma BuiltAccepted(frame: seq<Byte>)
    requires Shaped(frame) && Word(frame, 24) == 0 && Word(frame, CheckAt(frame)) == 0
    ensures Inspect(Filled(frame)).Accepted?
  {
    var at, sealed := CheckAt(frame), Filled(frame);
    TwiceStored(frame, 24, ChecksumValue(frame[14..34]), at,
                TransportValue(frame[26..30], frame[30..34], frame[23], Segment(frame)));
    StaysShaped(frame, sealed);
    HeaderFilled(frame, sealed);
    SegmentFilled(frame, sealed, at);
    AcceptedExactly(sealed);
  }

  /** An IPv4 datagram without options, all of it in the frame. */
  predicate Datagram(frame: seq<Byte>) {
    && 34 <= |frame| <= 1514 && frame[12] == 0x08 && frame[13] == 0 && frame[14] == 0x45
    && 20 <= Word(frame, 16) <= |frame| - 14
  }

  /** The transport header has the right form, and its checksum is absent or wrong. */
  predicate Unsealed(frame: seq<Byte>)
    requires Framed(frame)
  {
    && (if frame[23] == 17 then UdpShaped(frame) else frame[23] == 6 && TcpShaped(frame))
    && (Word(frame, CheckAt(frame)) == 0 || !Ones(PseudoSum(frame)))
  }

  /** What a refused frame is refused for. */
  lemma RefusedExactly(frame: seq<Byte>)
    ensures Inspect(frame) == Rejected(Fragment) <==>
      Datagram(frame) && Ones(HeaderSum(frame)) && Word(frame, 20) !in {0, 0x4000}
    ensures Inspect(frame) == Rejected(Checksum) <==>
      Datagram(frame) && (!Ones(HeaderSum(frame)) || (Framed(frame) && Unsealed(frame)))
    ensures Inspect(frame) == Rejected(Unsupported) <==>
      && 34 <= |frame| <= 1514
      && (|| frame[12] != 0x08 || frame[13] != 0 || frame[14] != 0x45
          || (Framed(frame) && Ones(HeaderSum(frame)) && frame[23] !in {6, 17}))
    ensures Inspect(frame).Rejected? ==> Inspect(frame).error in {Invalid, Fragment, Checksum, Unsupported}
  {
    if 34 <= |frame| <= 1514 {
      Windows(frame);
      HeaderSumIs(frame);
      WordParts(Word(frame, 20));
      if Framed(frame) && Ones(HeaderSum(frame)) { CarriedWrong(frame); }
    }
  }

  lemma CarriedWrong(frame: seq<Byte>)
    requires Framed(frame) && Ones(HeaderSum(frame))
    ensures
      var base := Base(frame);
      var transport := frame[34..14 + Word(frame, 16)];
      var u := InspectUdp(base, frame[26..30], frame[30..34], transport);
      var t := InspectTcp(base, frame[26..30], frame[30..34], transport);
      && (frame[23] == 17 ==> (u == Rejected(Checksum) <==> Unsealed(frame)))
      && (frame[23] == 6 ==> (t == Rejected(Checksum) <==> Unsealed(frame)))
      && (u.Rejected? ==> u.error in {Invalid, Checksum}) && (t.Rejected? ==> t.error in {Invalid, Checksum})
  {
    var transport := frame[34..14 + Word(frame, 16)];
    PseudoSumIs(frame);
    if frame[23] == 6 && |transport| >= 20 {
      assert transport[12] == frame[46] && transport[13] == frame[47] && Word(transport, 16) == Word(frame, 50);
      FlagsExactly(frame[47]);
      OffsetExactly(frame[46], |transport|);
    }
    if frame[23] == 17 && |transport| >= 8 {
      assert Word(transport, 4) == Word(frame, 38) && Word(transport, 6) == Word(frame, 40);
    }
  }

  // ---------------------------------------------------------------------------- queues

  predicate Allowed(frame: seq<Byte>) { Inspect(frame).Accepted? }

  datatype Status = Done | Failed(error: Error)

  class PacketQueue {
    var packets: seq<seq<Byte>>
    var head: nat
    var tail: nat
    var count: nat

    ghost predicate Valid()
      reads this
    {
      && |packets| == 8 && tail < 8 && count <= 8 && head == Along(tail, count, 8)
      && forall p :: p in Entries(packets, tail, count) ==> Allowed(p)
    }

    ghost function Contents(): seq<seq<Byte>>
      reads this
      requires Valid()
    {
      Entries(packets, tail, count)
    }

    constructor ()
      ensures Valid() && Contents() == []
    {
      packets, head, tail, count := [[], [], [], [], [], [], [], []], 0, 0, 0;
    }

    /** Only accepted frames enter, behind the others; a failed call changes nothing. */
    method Enqueue(frame: seq<Byte>) returns (status: Status)
      requires Valid()
      modifies this
      ensures Valid() && (status.Done? <==> Shaped(frame) && Sealed(frame) && old(count) < 8)
      ensures Contents() == old(Contents()) + if status.Done? then [frame] else []
      ensures Inspect(frame).Rejected? ==> status == Failed(Inspect(frame).error)
    {
      AcceptedExactly(frame);
      var inspection := Inspect(frame);
      if inspection.Rejected? { return Failed(inspection.error); }
      if count >= 8 { return Failed(QueueFull); }
      Append(frame);
      return Done;
    }

    method Append(frame: seq<Byte>)
      requires Valid() && count < 8 && Allowed(frame)
      modifies this
      ensures Valid() && Contents() == old(Contents()) + [frame]
    {
      Push(packets, tail, count, frame);
      packets := packets[head := frame];
      head := After(head, 8);
      count := count + 1;
    }

    /** The oldest frame leaves if it fits; a failed call changes nothing. */
    method Dequeue(capacity: nat) returns (status: Status, frame: seq<Byte>)
      requires Valid()
      modifies this
      ensures Valid() && (status.Done? <==> old(count) > 0 && |old(Contents())[0]| <= capacity)
      ensures if status.Done? then old(Contents()) == [frame] + Contents() else Contents() == old(Contents())
      ensures status.Failed? ==> status.error == if old(count) == 0 then QueueEmpty else BufferTooSmall
    {
      frame := [];
      if count == 0 { return Failed(QueueEmpty), frame; }
      Pop(packets, tail, count);
      Cleared(packets, tail, count - 1, []);
      var packet := packets[tail];
      assert packet in Entries(packets, tail, count);
      if |packet| == 0 || |packet| > MAX_FRAME { return Failed(StateError), frame; }
      if capacity < |packet| { return Failed(BufferTooSmall), frame; }
      packets := packets[tail := []];
      tail := After(tail, 8);
      count := count - 1;
      return Done, packet;
    }
  }
}
