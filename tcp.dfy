/**
 * The raw TCP segment builder of 3.Simple_TCP/main.go: the 20-byte header of
 * section 3.1 of RFC 793 written big-endian into a byte buffer, the payload
 * appended, and the checksum over the pseudo-header and the segment (the
 * one's-complement sum of section 1 of RFC 1071) written into bytes 16-17.
 *
 * The sockets are not modelled: the `send*` operations return the packet
 * they would hand to `Sendto`.  `net.ParseIP(ip).To4()` is a 4-byte input,
 * and a Go string payload is its bytes.
 */
module SimpleTcp {
  type byte = x: int | 0 <= x < 0x100
  type u16 = x: int | 0 <= x < 0x1_0000
  type u32 = x: int | 0 <= x < 0x1_0000_0000

  const HeaderLength: int := 20
  const SourcePort: u16 := 12345
  /** `5 << 4`: a data offset of five 32-bit words, in the high nibble. */
  const DataOffset: byte := 0x50
  const FinFlag: byte := 0x01
  const SynFlag: byte := 0x02
  const AckFlag: byte := 0x10
  /** The window `buildTCPFrame` advertises. */
  const FullWindow: u16 := 0xFFFF
  /** The window `buildTCPFrameWithBuffer` advertises. */
  const BufferWindow: u16 := 8192
  const ProtocolTcp: byte := 6
  /** The source addresses of the two pseudo-headers: 127.0.0.1 and 0.0.0.0. */
  const Loopback: seq<byte> := [127, 0, 0, 1]
  const AnyAddress: seq<byte> := [0, 0, 0, 0]

  /** Go's `uint16(x)` and `uint32(x)`: the low 16 or 32 bits. */
  function U16(x: int): (r: u16)
    ensures 0 <= x < 0x1_0000 ==> r == x
  {
    x % 0x1_0000
  }

  function U32(x: int): (r: u32)
    ensures 0 <= x < 0x1_0000_0000 ==> r == x
  {
    x % 0x1_0000_0000
  }

  /** `binary.BigEndian.Uint16(b[k:])`. */
  function Word(b: seq<byte>, k: int): u16
    requires 0 <= k && k + 2 <= |b|
  {
    (b[k] as int) * 0x100 + b[k + 1]
  }

  /** `binary.BigEndian.Uint32(b[k:])`. */
  function Word32(b: seq<byte>, k: int): u32
    requires 0 <= k && k + 4 <= |b|
  {
    Word(b, k) * 0x1_0000 + Word(b, k + 2)
  }

  /** The bytes `binary.BigEndian.PutUint16` writes. */
  function BE16(x: u16): (r: seq<byte>)
    ensures |r| == 2 && Word(r, 0) == x
  {
    [x / 0x100, x % 0x100]
  }

  /** The bytes `binary.BigEndian.PutUint32` writes. */
  function BE32(x: u32): (r: seq<byte>)
    ensures |r| == 4 && Word32(r, 0) == x
  {
    BE16(x / 0x1_0000) + BE16(x % 0x1_0000)
  }

  /** `binary.BigEndian.PutUint16(b[k:], x)` on the buffer's value: the word
    * at `k` becomes `x` and every other byte stays. */
  function PutU16(b: seq<byte>, k: int, x: u16): (r: seq<byte>)
    requires 0 <= k && k + 2 <= |b|
    ensures |r| == |b| && Word(r, k) == x
    ensures forall i :: 0 <= i < |b| && i != k && i != k + 1 ==> r[i] == b[i]
  {
    b[..k] + BE16(x) + b[k + 2..]
  }

  /** `binary.BigEndian.PutUint32(b[k:], x)` on the buffer's value. */
  function PutU32(b: seq<byte>, k: int, x: u32): (r: seq<byte>)
    requires 0 <= k && k + 4 <= |b|
    ensures |r| == |b| && Word32(r, k) == x
    ensures forall i :: 0 <= i < |b| && !(k <= i < k + 4) ==> r[i] == b[i]
  {
    PutU16(PutU16(b, k, x / 0x1_0000), k + 2, x % 0x1_0000)
  }

  /** The `TCPHeader` struct. */
  datatype TcpHeader = TcpHeader(sourcePort: u16, destinationPort: u16, seqNum: u32, ackNum: u32,
                                 offset: byte, flags: byte, window: u16, checksum: u16, urgent: u16)

  /** The header's 20 bytes in the layout of section 3.1 of RFC 793. */
  function Encode(h: TcpHeader): (r: seq<byte>)
    ensures |r| == HeaderLength
  {
    BE16(h.sourcePort) + BE16(h.destinationPort) + BE32(h.seqNum) + BE32(h.ackNum)
      + [h.offset, h.flags] + BE16(h.window) + BE16(h.checksum) + BE16(h.urgent)
  }

  /** The fields read back from the first 20 bytes of a segment, as `main`
    * and the handshake read sequence and acknowledgment numbers. */
  function Decode(b: seq<byte>): TcpHeader
    requires HeaderLength <= |b|
  {
    TcpHeader(Word(b, 0), Word(b, 2), Word32(b, 4), Word32(b, 8),
              b[12], b[13], Word(b, 14), Word(b, 16), Word(b, 18))
  }

  /** Reading a written header gives the header back. */
  lemma {:induction false} DecodeEncode(h: TcpHeader)
    ensures Decode(Encode(h)) == h
  {
    var r := Encode(h);
    assert r[0..2] == BE16(h.sourcePort) && r[2..4] == BE16(h.destinationPort);
    assert r[4..8] == BE32(h.seqNum) && r[8..12] == BE32(h.ackNum);
    assert r[14..16] == BE16(h.window) && r[16..18] == BE16(h.checksum) && r[18..20] == BE16(h.urgent);
  }

  /** Equal words have equal bytes. */
  lemma {:induction false} WordBytes(a: seq<byte>, b: seq<byte>, k: int)
    requires 0 <= k && k + 2 <= |a| && k + 2 <= |b|
    requires Word(a, k) == Word(b, k)
    ensures a[k] == b[k] && a[k + 1] == b[k + 1]
  {
  }

  /** Writing the fields read from 20 bytes gives the bytes back. */
  lemma {:induction false} EncodeDecode(b: seq<byte>)
    requires |b| == HeaderLength
    ensures Encode(Decode(b)) == b
  {
    var r := Encode(Decode(b));
    DecodeEncode(Decode(b));
    WordBytes(r, b, 0); WordBytes(r, b, 2); WordBytes(r, b, 14); WordBytes(r, b, 16); WordBytes(r, b, 18);
    WordBytes(r, b, 4); WordBytes(r, b, 6); WordBytes(r, b, 8); WordBytes(r, b, 10);
    assert forall i | 0 <= i < HeaderLength :: r[i] == b[i];
  }

  /** The header both builders lay out: source port 12345, the destination
    * port's low 16 bits, zero sequence and acknowledgment numbers, a data
    * offset of five words, SYN, the given window, and zero checksum and
    * urgent pointer. */
  function SynHeader(destPort: int, window: u16): TcpHeader
  {
    TcpHeader(SourcePort, U16(destPort), 0, 0, DataOffset, SynFlag, window, 0, 0)
  }

  // ---------------------------------------------------------------------
  // The checksum
  // ---------------------------------------------------------------------

  /** The 12-byte pseudo-header: source, destination, a zero byte, the
    * protocol number and the segment length's low 16 bits. */
  function PseudoHeader(src: seq<byte>, dst: seq<byte>, length: int): (r: seq<byte>)
    requires |src| == 4 && |dst| == 4
    ensures |r| == 12
  {
    src + dst + [0, ProtocolTcp] + BE16(U16(length))
  }

  /** The sum of the big-endian 16-bit words of `b`, in unbounded integers;
    * an odd trailing byte is not part of any word. */
  function WordSum(b: seq<byte>): (s: nat)
    ensures s <= 0xFFFF * (|b| / 2)
    decreases |b|
  {
    if |b| < 2 then 0 else Word(b, 0) + WordSum(b[2..])
  }

  /** The bytes with a zero byte appended when their number is odd, as
    * section 1 of RFC 1071 pads them: the odd byte counts as a high byte. */
  function Padded(b: seq<byte>): (r: seq<byte>)
    ensures |r| % 2 == 0
    ensures WordSum(r) == WordSum(b) + (if |b| % 2 == 1 then (b[|b| - 1] as int) * 0x100 else 0)
  {
    if |b| % 2 == 0 then b
    else
      WordSumConcat(b[..|b| - 1], [b[|b| - 1], 0]);
      WordSumConcat(b[..|b| - 1], [b[|b| - 1]]);
      assert b[..|b| - 1] + [b[|b| - 1]] == b;
      assert b + [0] == b[..|b| - 1] + [b[|b| - 1], 0];
      b + [0]
  }

  /** The end-around-carry fold: while the sum has bits above the low 16,
    * add them back into the low 16.  The result fits 16 bits, is congruent
    * to the sum modulo 0xFFFF, and is zero only for a zero sum. */
  function Fold(s: nat): (r: nat)
    ensures r <= 0xFFFF
    ensures r % 0xFFFF == s % 0xFFFF
    ensures r == 0 <==> s == 0
    decreases s
  {
    if s / 0x1_0000 == 0 then s
    else
      FoldStep(s);
      Fold(s % 0x1_0000 + s / 0x1_0000)
  }

  /** One fold step makes the sum smaller, keeps it non-zero and keeps it
    * modulo 0xFFFF, because 0x1_0000 is 1 modulo 0xFFFF. */
  lemma {:induction false} FoldStep(s: nat)
    requires s / 0x1_0000 != 0
    ensures 0 < s % 0x1_0000 + s / 0x1_0000 < s
    ensures (s % 0x1_0000 + s / 0x1_0000) % 0xFFFF == s % 0xFFFF
  {
    var q := s / 0x1_0000;
    var m := s % 0x1_0000;
    assert s == 0xFFFF * q + (m + q);
  }

  /** The one's-complement checksum the code computes over `b`: the
    * complement of the folded sum of its words, the sum kept in a `uint32`
    * that wraps around. */
  function OnesComplement(b: seq<byte>): u16
  {
    0xFFFF - Fold(WordSum(b) % 0x1_0000_0000)
  }

  /** `computeChecksum`'s result: the pseudo-header from 127.0.0.1 and the
    * segment; an odd trailing byte of the segment is ignored. */
  function Checksum(dst: seq<byte>, segment: seq<byte>): u16
    requires |dst| == 4
  {
    OnesComplement(PseudoHeader(Loopback, dst, |segment|) + segment)
  }

  /** The checksum of section 1 of RFC 1071 from source `src`: the
    * pseudo-header and the segment padded to whole words. */
  function PaddedChecksum(src: seq<byte>, dst: seq<byte>, segment: seq<byte>): u16
    requires |src| == 4 && |dst| == 4
  {
    OnesComplement(Padded(PseudoHeader(src, dst, |segment|) + segment))
  }

  /** `computeChecksum2`'s result: the padded checksum from 0.0.0.0 (an odd
    * trailing byte counts as a high byte), as two big-endian bytes. */
  function Checksum2(dst: seq<byte>, header: seq<byte>): (r: seq<byte>)
    requires |dst| == 4
    ensures |r| == 2 && Word(r, 0) == PaddedChecksum(AnyAddress, dst, header)
  {
    BE16(PaddedChecksum(AnyAddress, dst, header))
  }

  /** What a receiver checks: the folded sum of the padded pseudo-header and
    * segment, in unbounded integers, is all ones. */
  ghost predicate Verifies(src: seq<byte>, dst: seq<byte>, segment: seq<byte>)
    requires |src| == 4 && |dst| == 4
  {
    Fold(WordSum(Padded(PseudoHeader(src, dst, |segment|) + segment))) == 0xFFFF
  }

  /** A folded sum is all ones exactly when the sum is a non-zero multiple of
    * 0xFFFF. */
  lemma {:induction false} FoldAllOnes(s: nat)
    ensures Fold(s) == 0xFFFF <==> s != 0 && s % 0xFFFF == 0
  {
  }

  /** Word sums add up over an even-length prefix. */
  lemma {:induction false} WordSumConcat(a: seq<byte>, b: seq<byte>)
    requires |a| % 2 == 0
    ensures WordSum(a + b) == WordSum(a) + WordSum(b)
    decreases |a|
  {
    if a == [] {
      assert a + b == b;
    } else {
      assert (a + b)[2..] == a[2..] + b;
      assert Word(a + b, 0) == Word(a, 0);
      WordSumConcat(a[2..], b);
    }
  }

  /** Writing a word at an even offset changes the word sum by the new word
    * minus the old. */
  lemma {:induction false} WordSumPut(b: seq<byte>, k: int, x: u16)
    requires 0 <= k && k % 2 == 0 && k + 2 <= |b|
    ensures WordSum(PutU16(b, k, x)) == WordSum(b) - Word(b, k) + x
    decreases k
  {
    var r := PutU16(b, k, x);
    if k == 0 {
      assert r[2..] == b[2..];
    } else {
      assert r[2..] == PutU16(b[2..], k - 2, x);
      assert Word(r, 0) == Word(b, 0);
      WordSumPut(b[2..], k - 2, x);
    }
  }

  /** The sum is at least any one of its words. */
  lemma {:induction false} WordSumAtLeast(b: seq<byte>, k: int)
    requires 0 <= k && k % 2 == 0 && k + 2 <= |b|
    ensures WordSum(b) >= Word(b, k)
    decreases k
  {
    if k > 0 {
      assert Word(b[2..], k - 2) == Word(b, k);
      WordSumAtLeast(b[2..], k - 2);
    }
  }

  /** The pseudo-header's protocol word makes every sum over it positive. */
  lemma {:induction false} PseudoSumPositive(src: seq<byte>, dst: seq<byte>, segment: seq<byte>)
    requires |src| == 4 && |dst| == 4
    ensures WordSum(PseudoHeader(src, dst, |segment|) + segment) >= ProtocolTcp
  {
    var p := PseudoHeader(src, dst, |segment|);
    assert Word(p + segment, 8) == Word(p, 8) == ProtocolTcp;
    WordSumAtLeast(p + segment, 8);
  }

  /** Sums modulo 2^32 can be reduced at every step, as a `uint32` does. */
  lemma {:induction false} ModAdd(a: int, b: int)
    ensures (a % 0x1_0000_0000 + b) % 0x1_0000_0000 == (a + b) % 0x1_0000_0000
  {
    var m := 0x1_0000_0000;
    assert a == m * (a / m) + a % m;
    assert (a + b) == m * (a / m) + (a % m + b);
  }

  /** A sum plus the complement of its fold is a multiple of 0xFFFF. */
  lemma {:induction false} ComplementCongruent(s: nat)
    requires s < 0x1_0000_0000
    ensures (s + (0xFFFF - Fold(s % 0x1_0000_0000))) % 0xFFFF == 0
  {
    var folded := Fold(s);
    assert s % 0x1_0000_0000 == s;
    assert s - folded == 0xFFFF * (s / 0xFFFF - folded / 0xFFFF);
  }

  /** Adding the complement of a folded sum to the sum gives a sum that
    * folds to all ones. */
  lemma {:induction false} ComplementSum(s: nat)
    requires 0 < s < 0x1_0000_0000
    ensures Fold(s + (0xFFFF - Fold(s % 0x1_0000_0000))) == 0xFFFF
  {
    ComplementCongruent(s);
    FoldAllOnes(s + (0xFFFF - Fold(s % 0x1_0000_0000)));
  }

  /** The receiver's sum: the pseudo-header's words, the segment's words,
    * and an odd last byte as a high byte. */
  lemma {:induction false} ReceiverSum(src: seq<byte>, dst: seq<byte>, segment: seq<byte>)
    requires |src| == 4 && |dst| == 4 && segment != []
    ensures WordSum(Padded(PseudoHeader(src, dst, |segment|) + segment)) ==
      WordSum(PseudoHeader(src, dst, |segment|)) + WordSum(segment) +
      (if |segment| % 2 == 1 then (segment[|segment| - 1] as int) * 0x100 else 0)
  {
    PaddedSumConcat(PseudoHeader(src, dst, |segment|), segment);
  }

  lemma {:induction false} PaddedSumConcat(p: seq<byte>, segment: seq<byte>)
    requires |p| % 2 == 0 && segment != []
    ensures WordSum(Padded(p + segment)) == WordSum(p) + WordSum(segment) +
      (if |segment| % 2 == 1 then (segment[|segment| - 1] as int) * 0x100 else 0)
  {
    var b := p + segment;
    WordSumConcat(p, segment);
    EvenShiftParity(|p|, |segment|);
    assert b[|b| - 1] == segment[|segment| - 1];
  }

  lemma EvenShiftParity(m: nat, n: nat)
    requires m % 2 == 0
    ensures (m + n) % 2 == n % 2
  {
    assert m == 2 * (m / 2);
  }

  /** The padded checksum written over a zero checksum field makes a segment
    * of any length verify, as long as its length fits the pseudo-header's
    * 16-bit length field (so the 32-bit sum cannot wrap). */
  lemma {:induction false} PaddedChecksumVerifies(src: seq<byte>, dst: seq<byte>, seg: seq<byte>)
    requires |src| == 4 && |dst| == 4 && HeaderLength <= |seg| < 0x1_0000
    requires Word(seg, 16) == 0
    ensures Verifies(src, dst, PutU16(seg, 16, PaddedChecksum(src, dst, seg)))
  {
    var p := PseudoHeader(src, dst, |seg|);
    var c := PaddedChecksum(src, dst, seg);
    var f := PutU16(seg, 16, c);
    ReceiverSum(src, dst, seg);
    WordSumConcat(p, seg);
    PseudoSumPositive(src, dst, seg);
    var s := WordSum(Padded(p + seg));
    assert s <= 0xFFFF * 6 + 0xFFFF * (|seg| / 2) + 0xFF * 0x100;
    ComplementSum(s);
    WordSumPut(seg, 16, c);
    ReceiverSum(src, dst, f);
    assert f[|f| - 1] == seg[|seg| - 1];
  }

  /** On an even-length segment `computeChecksum` is the padded checksum. */
  lemma {:induction false} EvenChecksum(dst: seq<byte>, seg: seq<byte>)
    requires |dst| == 4 && |seg| % 2 == 0
    ensures Checksum(dst, seg) == PaddedChecksum(Loopback, dst, seg)
  {
    assert Padded(PseudoHeader(Loopback, dst, |seg|) + seg) == PseudoHeader(Loopback, dst, |seg|) + seg;
  }

  /** The checksum the sender writes over a zero checksum field makes an
    * even-length segment verify, as long as its length fits the
    * pseudo-header's 16-bit length field. */
  lemma {:induction false} ChecksumVerifies(dst: seq<byte>, seg: seq<byte>)
    requires |dst| == 4 && |seg| % 2 == 0 && HeaderLength <= |seg| < 0x1_0000
    requires Word(seg, 16) == 0
    ensures Verifies(Loopback, dst, PutU16(seg, 16, Checksum(dst, seg)))
  {
    EvenChecksum(dst, seg);
    PaddedChecksumVerifies(Loopback, dst, seg);
  }

  /** `computeChecksum` ignores the last byte of an odd-length segment:
    * changing it leaves the checksum as it is. */
  lemma {:induction false} OddByteIgnored(dst: seq<byte>, seg: seq<byte>, x: byte)
    requires |dst| == 4 && |seg| % 2 == 1
    ensures Checksum(dst, seg[|seg| - 1 := x]) == Checksum(dst, seg)
  {
    var p := PseudoHeader(Loopback, dst, |seg|);
    var init := seg[..|seg| - 1];
    assert seg == init + [seg[|seg| - 1]];
    assert seg[|seg| - 1 := x] == init + [x];
    WordSumConcat(init, [seg[|seg| - 1]]);
    WordSumConcat(init, [x]);
    WordSumConcat(p, seg);
    WordSumConcat(p, seg[|seg| - 1 := x]);
  }

  /** An odd-length segment whose last byte is not zero fails the receiver's
    * check once `computeChecksum` is written into it: the receiver counts
    * the byte the sender left out. */
  lemma {:induction false} OddSegmentFails(dst: seq<byte>, seg: seq<byte>)
    requires |dst| == 4 && |seg| % 2 == 1 && HeaderLength <= |seg| < 0x1_0000
    requires Word(seg, 16) == 0 && seg[|seg| - 1] != 0
    ensures !Verifies(Loopback, dst, PutU16(seg, 16, Checksum(dst, seg)))
  {
    var p := PseudoHeader(Loopback, dst, |seg|);
    var c := Checksum(dst, seg);
    var f := PutU16(seg, 16, c);
    WordSumConcat(p, seg);
    var s := WordSum(p + seg);
    assert s <= 0xFFFF * ((12 + |seg|) / 2);
    ComplementCongruent(s);
    assert c == 0xFFFF - Fold(s % 0x1_0000_0000);
    WordSumPut(seg, 16, c);
    ReceiverSum(Loopback, dst, f);
    var extra := (seg[|seg| - 1] as int) * 0x100;
    assert f[|f| - 1] == seg[|seg| - 1];
    assert WordSum(Padded(p + f)) == s + c + extra;
    NotAllOnes(s + c, extra);
  }

  /** A multiple of 0xFFFF plus a number strictly between 0 and 0xFFFF does
    * not fold to all ones. */
  lemma {:induction false} NotAllOnes(base: nat, extra: int)
    requires base % 0xFFFF == 0 && 0 < extra < 0xFFFF
    ensures Fold(base + extra) != 0xFFFF
  {
    ModShift(base + extra, base / 0xFFFF);
    FoldAllOnes(base + extra);
  }

  /** The payload `main` sends: "Hello, World!". */
  const HelloWorld: seq<byte> := [72, 101, 108, 108, 111, 44, 32, 87, 111, 114, 108, 100, 33]

  /** The data frame `main` sends is 33 bytes long and ends in '!', so it
    * fails the receiver's check. */
  lemma {:induction false} MainFrameFails(dst: seq<byte>, destPort: int)
    requires |dst| == 4
    ensures !Verifies(Loopback, dst, SynFrame(dst, destPort, HelloWorld, BufferWindow))
  {
    var seg := Encode(SynHeader(destPort, BufferWindow)) + HelloWorld;
    assert Word(seg, 16) == 0 && seg[|seg| - 1] == 33;
    OddSegmentFails(dst, seg);
  }

  /** Two sums, the first folding to all ones: the second folds to all ones
    * exactly when they differ by a multiple of 0xFFFF. */
  lemma {:induction false} AllOnesShift(a: nat, b: nat)
    requires Fold(a) == 0xFFFF && 0 < b
    ensures Fold(b) == 0xFFFF <==> (b - a) % 0xFFFF == 0
  {
    FoldAllOnes(a);
    FoldAllOnes(b);
    ModShift(b, a / 0xFFFF);
    assert a == 0xFFFF * (a / 0xFFFF);
  }

  /** Subtracting a multiple of 0xFFFF keeps the remainder. */
  lemma {:induction false} ModShift(x: int, k: int)
    ensures (x - 0xFFFF * k) % 0xFFFF == x % 0xFFFF
  {
    assert x - 0xFFFF * k == 0xFFFF * (x / 0xFFFF - k) + x % 0xFFFF;
  }

  /** A segment that verified, changed in place without a new checksum,
    * still verifies exactly when the change moved its word sum by a
    * multiple of 0xFFFF. */
  lemma {:induction false} StaleChecksum(dst: seq<byte>, f: seq<byte>, q: seq<byte>)
    requires |dst| == 4 && |f| == |q| && |f| % 2 == 0 && f != []
    requires Verifies(Loopback, dst, f)
    ensures Verifies(Loopback, dst, q) <==> (WordSum(q) - WordSum(f)) % 0xFFFF == 0
  {
    var p := PseudoHeader(Loopback, dst, |f|);
    ReceiverSum(Loopback, dst, f);
    ReceiverSum(Loopback, dst, q);
    PseudoSumPositive(Loopback, dst, q);
    WordSumConcat(p, q);
    AllOnesShift(WordSum(p) + WordSum(f), WordSum(p) + WordSum(q));
  }


  /** The 16-bit halves of a 32-bit number added, as they enter a word sum. */
  function Halves(x: u32): (r: int)
    ensures 0 <= r <= 2 * 0xFFFF
    ensures r % 0xFFFF == x % 0xFFFF
  {
    FoldStepHalves(x);
    x / 0x1_0000 + x % 0x1_0000
  }

  lemma {:induction false} FoldStepHalves(x: u32)
    ensures (x / 0x1_0000 + x % 0x1_0000) % 0xFFFF == x % 0xFFFF
  {
    var q := x / 0x1_0000;
    var m := x % 0x1_0000;
    assert x == 0xFFFF * q + (m + q);
  }

  /** How overwriting the flags byte changes the word sum. */
  lemma {:induction false} FlagsSum(b: seq<byte>, flags: byte)
    requires HeaderLength <= |b|
    ensures WordSum(b[13 := flags]) == WordSum(b) - b[13] + flags
  {
    var w := (b[12] as int) * 0x100 + flags;
    assert b[13 := flags] == PutU16(b, 12, w);
    WordSumPut(b, 12, w);
  }

  /** How writing a 32-bit number at an even offset changes the word sum. */
  lemma {:induction false} PutU32Sum(b: seq<byte>, k: int, x: u32)
    requires 0 <= k && k % 2 == 0 && k + 4 <= |b|
    ensures WordSum(PutU32(b, k, x)) == WordSum(b) - Halves(Word32(b, k)) + Halves(x)
  {
    var hi := x / 0x1_0000;
    var lo := x % 0x1_0000;
    var b1 := PutU16(b, k, hi);
    WordSumPut(b, k, hi);
    WordSumPut(b1, k + 2, lo);
    assert Word(b1, k + 2) == Word(b, k + 2);
    assert WordSum(PutU32(b, k, x)) == WordSum(b) - Word(b, k) - Word(b, k + 2) + hi + lo;
    HalvesOf(Word(b, k), Word(b, k + 2));
    assert Halves(x) == hi + lo;
  }

  /** The halves of a number built from two words are the two words. */
  lemma {:induction false} HalvesOf(hi: u16, lo: u16)
    ensures Halves(hi * 0x1_0000 + lo) == hi + lo
  {
    var x := hi * 0x1_0000 + lo;
    assert x / 0x1_0000 == hi && x % 0x1_0000 == lo;
  }

  // ---------------------------------------------------------------------
  // The frames
  // ---------------------------------------------------------------------

  /** What both builders return: the SYN header with the given window, the
    * payload after it, and bytes 16-17 holding `computeChecksum` of the two
    * as they were with a zero checksum field. */
  function SynFrame(dst: seq<byte>, destPort: int, data: seq<byte>, window: u16): seq<byte>
    requires |dst| == 4
  {
    var seg := Encode(SynHeader(destPort, window)) + data;
    PutU16(seg, 16, Checksum(dst, seg))
  }

  /** The frame holds 20 + len(data) bytes, the payload from byte 20 on, and
    * a header that reads back as the SYN header with the checksum of the
    * unpatched frame. */
  lemma {:induction false} FrameLayout(dst: seq<byte>, destPort: int, data: seq<byte>, window: u16)
    requires |dst| == 4
    ensures var f := SynFrame(dst, destPort, data, window);
      var h := SynHeader(destPort, window);
      |f| == HeaderLength + |data| && f[HeaderLength..] == data &&
      Decode(f) == h.(checksum := Checksum(dst, Encode(h) + data))
  {
    var h := SynHeader(destPort, window);
    var seg := Encode(h) + data;
    var f := SynFrame(dst, destPort, data, window);
    DecodeEncode(h);
    assert Decode(seg) == Decode(Encode(h));
    assert f[HeaderLength..] == seg[HeaderLength..] == data;
  }

  /** Both builders' frames verify when the payload has an even number of
    * bytes and the frame fits the 16-bit length field. */
  lemma {:induction false} FrameVerifies(dst: seq<byte>, destPort: int, data: seq<byte>, window: u16)
    requires |dst| == 4 && |data| % 2 == 0 && HeaderLength + |data| < 0x1_0000
    ensures Verifies(Loopback, dst, SynFrame(dst, destPort, data, window))
  {
    var seg := Encode(SynHeader(destPort, window)) + data;
    assert Word(seg, 16) == 0;
    ChecksumVerifies(dst, seg);
  }

  /** The two builders agree on every byte except the window and the
    * checksum (bytes 14-17). */
  lemma {:induction false} BuildersAgree(dst: seq<byte>, destPort: int, data: seq<byte>)
    requires |dst| == 4
    ensures var a := SynFrame(dst, destPort, data, FullWindow);
      var b := SynFrame(dst, destPort, data, BufferWindow);
      |a| == |b| && Word(a, 14) == FullWindow && Word(b, 14) == BufferWindow &&
      forall i :: 0 <= i < |a| && !(14 <= i < 18) ==> a[i] == b[i]
  {
    var ea := Encode(SynHeader(destPort, FullWindow)) + data;
    var eb := Encode(SynHeader(destPort, BufferWindow)) + data;
    forall i | 0 <= i < |ea| && !(14 <= i < 18)
      ensures ea[i] == eb[i]
    {
    }
  }

  // ---------------------------------------------------------------------
  // The handshake and closing packets
  // ---------------------------------------------------------------------

  /** `sendSYN`'s packet: the empty frame with byte 13 set to SYN again. */
  function SynPacket(dst: seq<byte>, destPort: int): seq<byte>
    requires |dst| == 4
  {
    SynFrame(dst, destPort, [], FullWindow)[13 := SynFlag]
  }

  /** `sendACK`'s packet: ACK in byte 13 and `seqNumber + 1`, `ackNumber + 1` (wrapping
    * in 32 bits) in bytes 4-11, the checksum left as it was. */
  function AckPacket(dst: seq<byte>, destPort: int, seqNumber: u32, ackNumber: u32): seq<byte>
    requires |dst| == 4
  {
    PutU32(PutU32(SynFrame(dst, destPort, [], FullWindow)[13 := AckFlag], 4, U32(seqNumber + 1)), 8, U32(ackNumber + 1))
  }

  /** `sendFIN`'s packet: FIN in byte 13 and `seq` in bytes 4-7. */
  function FinPacket(dst: seq<byte>, destPort: int, seqNumber: u32): seq<byte>
    requires |dst| == 4
  {
    PutU32(SynFrame(dst, destPort, [], FullWindow)[13 := FinFlag], 4, seqNumber)
  }

  /** `sendACKForFIN`'s packet: ACK in byte 13, `seq` in bytes 4-7 and
    * `ackNumber + 1` in bytes 8-11. */
  function AckForFinPacket(dst: seq<byte>, destPort: int, seqNumber: u32, ackNumber: u32): seq<byte>
    requires |dst| == 4
  {
    PutU32(PutU32(SynFrame(dst, destPort, [], FullWindow)[13 := AckFlag], 4, seqNumber), 8, U32(ackNumber + 1))
  }

  /** The empty SYN frame: SYN in byte 13, zero numbers, and a checksum that
    * verifies. */
  lemma {:induction false} EmptyFrame(dst: seq<byte>, destPort: int)
    requires |dst| == 4
    ensures var f := SynFrame(dst, destPort, [], FullWindow);
      |f| == HeaderLength && f[13] == SynFlag && Word32(f, 4) == 0 && Word32(f, 8) == 0 &&
      Verifies(Loopback, dst, f)
  {
    FrameLayout(dst, destPort, [], FullWindow);
    FrameVerifies(dst, destPort, [], FullWindow);
  }

  /** `sendSYN` writes the flag the frame already has, so its packet is the
    * frame and verifies. */
  lemma {:induction false} SynPacketVerifies(dst: seq<byte>, destPort: int)
    requires |dst| == 4
    ensures SynPacket(dst, destPort) == SynFrame(dst, destPort, [], FullWindow)
    ensures Verifies(Loopback, dst, SynPacket(dst, destPort))
  {
    EmptyFrame(dst, destPort);
  }

  /** How the flag and the two numbers written into a frame with zero
    * numbers change its word sum. */
  lemma {:induction false} PatchSum(f: seq<byte>, flags: byte, x: u32, y: u32)
    requires HeaderLength <= |f| && Word32(f, 4) == 0 && Word32(f, 8) == 0
    ensures WordSum(PutU32(f[13 := flags], 4, x)) == WordSum(f) - f[13] + flags + Halves(x)
    ensures WordSum(PutU32(PutU32(f[13 := flags], 4, x), 8, y)) == WordSum(f) - f[13] + flags + Halves(x) + Halves(y)
  {
    var g := f[13 := flags];
    FlagsSum(f, flags);
    assert Word32(g, 4) == 0 && Word32(g, 8) == 0;
    assert Halves(0) == 0;
    PutU32Sum(g, 4, x);
    var h := PutU32(g, 4, x);
    assert Word32(h, 8) == 0;
    PutU32Sum(h, 8, y);
  }

  /** A verifying frame with zero numbers, given a new flag and both numbers
    * without a new checksum, verifies exactly when the patch moves its word
    * sum by a multiple of 0xFFFF. */
  lemma PatchedVerifies(dst: seq<byte>, f: seq<byte>, flags: byte, x: u32, y: u32)
    requires |dst| == 4 && |f| == HeaderLength && Word32(f, 4) == 0 && Word32(f, 8) == 0
    requires Verifies(Loopback, dst, f)
    ensures Verifies(Loopback, dst, PutU32(PutU32(f[13 := flags], 4, x), 8, y)) <==>
      (flags as int - f[13] as int + Halves(x) + Halves(y)) % 0xFFFF == 0
  {
    PatchSum(f, flags, x, y);
    StaleChecksum(dst, f, PutU32(PutU32(f[13 := flags], 4, x), 8, y));
  }

  /** `sendACK`'s packet still verifies exactly when the change of flag
    * plus the halves of the two numbers it writes add up to a multiple of
    * 0xFFFF. */
  lemma {:induction false} AckPacketVerifies(dst: seq<byte>, destPort: int, seqNumber: u32, ackNumber: u32)
    requires |dst| == 4
    ensures Verifies(Loopback, dst, AckPacket(dst, destPort, seqNumber, ackNumber)) <==>
      (AckFlag - SynFlag + Halves(U32(seqNumber + 1)) + Halves(U32(ackNumber + 1))) % 0xFFFF == 0
  {
    assert AckPacket(dst, destPort, seqNumber, ackNumber) == AckForFinPacket(dst, destPort, U32(seqNumber + 1), ackNumber);
    AckForFinPacketVerifies(dst, destPort, U32(seqNumber + 1), ackNumber);
  }

  /** `sendFIN`'s packet still verifies exactly when the change of flag plus
    * the halves of the sequence number add up to a multiple of 0xFFFF. */
  lemma {:induction false} FinPacketVerifies(dst: seq<byte>, destPort: int, seqNumber: u32)
    requires |dst| == 4
    ensures Verifies(Loopback, dst, FinPacket(dst, destPort, seqNumber)) <==>
      (FinFlag - SynFlag + Halves(seqNumber)) % 0xFFFF == 0
  {
    EmptyFrame(dst, destPort);
    var f := SynFrame(dst, destPort, [], FullWindow);
    var q := FinPacket(dst, destPort, seqNumber);
    PatchSum(f, FinFlag, seqNumber, 0);
    assert WordSum(q) - WordSum(f) == FinFlag - SynFlag + Halves(seqNumber);
    StaleChecksum(dst, f, q);
  }

  /** `sendACKForFIN`'s packet still verifies exactly when the change of
    * flag plus the halves of the two numbers add up to a multiple of
    * 0xFFFF. */
  lemma {:induction false} AckForFinPacketVerifies(dst: seq<byte>, destPort: int, seqNumber: u32, ackNumber: u32)
    requires |dst| == 4
    ensures Verifies(Loopback, dst, AckForFinPacket(dst, destPort, seqNumber, ackNumber)) <==>
      (AckFlag - SynFlag + Halves(seqNumber) + Halves(U32(ackNumber + 1))) % 0xFFFF == 0
  {
    EmptyFrame(dst, destPort);
    var f := SynFrame(dst, destPort, [], FullWindow);
    var q := AckForFinPacket(dst, destPort, seqNumber, ackNumber);
    PatchedVerifies(dst, f, AckFlag, seqNumber, U32(ackNumber + 1));
  }

  /** The packets of a run from the initial sequence number fail the
    * receiver's check: the ACK answering a SYN-ACK with sequence and
    * acknowledgment numbers 0, and the FIN sent with the frame's sequence
    * number 0, as `main` sends it. */
  lemma {:induction false} StalePacketsFail(dst: seq<byte>, destPort: int)
    requires |dst| == 4
    ensures !Verifies(Loopback, dst, AckPacket(dst, destPort, 0, 0))
    ensures !Verifies(Loopback, dst, FinPacket(dst, destPort, 0))
  {
    AckPacketVerifies(dst, destPort, 0, 0);
    FinPacketVerifies(dst, destPort, 0);
    assert Halves(1) == 1 && Halves(0) == 0;
  }

  // ---------------------------------------------------------------------
  // The code, writing into buffers in place
  // ---------------------------------------------------------------------

  /** `binary.BigEndian.PutUint16(buf[k:], x)`. */
  method PutUint16(buf: array<byte>, k: int, x: u16)
    requires 0 <= k && k + 2 <= buf.Length
    modifies buf
    ensures buf[..] == PutU16(old(buf[..]), k, x)
  {
    buf[k] := x / 0x100;
    buf[k + 1] := x % 0x100;
    assert buf[..] == old(buf[..])[..k] + BE16(x) + old(buf[..])[k + 2..];
  }

  /** `binary.BigEndian.PutUint32(buf[k:], x)`. */
  method PutUint32(buf: array<byte>, k: int, x: u32)
    requires 0 <= k && k + 4 <= buf.Length
    modifies buf
    ensures buf[..] == PutU32(old(buf[..]), k, x)
  {
    PutUint16(buf, k, x / 0x1_0000);
    PutUint16(buf, k + 2, x % 0x1_0000);
  }

  /** Adds the big-endian words of `b` into a wrapping 32-bit sum, with
    * `for i := 0; i < len(b)-1; i += 2`. */
  method AddWords(sum0: u32, b: seq<byte>) returns (sum: u32)
    ensures sum == (sum0 + WordSum(b)) % 0x1_0000_0000
  {
    sum := sum0;
    var i := 0;
    while i < |b| - 1
      invariant 0 <= i <= |b| && i % 2 == 0
      invariant (sum + WordSum(b[i..])) % 0x1_0000_0000 == (sum0 + WordSum(b)) % 0x1_0000_0000
    {
      assert b[i..][2..] == b[i + 2..];
      ModAdd(sum + Word(b, i), WordSum(b[i + 2..]));
      sum := U32(sum + Word(b, i));
      i := i + 2;
    }
  }

  /** The carry loop and the complement: `^uint16(sum)` of the folded sum. */
  method FoldComplement(sum0: u32) returns (c: u16)
    ensures c == 0xFFFF - Fold(sum0)
  {
    var sum := sum0;
    while sum / 0x1_0000 != 0
      invariant Fold(sum) == Fold(sum0)
      decreases sum
    {
      FoldStep(sum);
      sum := sum % 0x1_0000 + sum / 0x1_0000;
    }
    c := 0xFFFF - sum;
  }

  /** `computeChecksum`: the words of the pseudo-header from 127.0.0.1, then
    * those of the segment, then the fold and the complement. */
  method ComputeChecksum(tcpHeader: seq<byte>, dst: seq<byte>) returns (c: u16)
    requires |dst| == 4
    ensures c == Checksum(dst, tcpHeader)
  {
    var pseudoHeader := PseudoHeader(Loopback, dst, |tcpHeader|);
    var sum := AddWords(0, pseudoHeader);
    sum := AddWords(sum, tcpHeader);
    WordSumConcat(pseudoHeader, tcpHeader);
    ModAdd(WordSum(pseudoHeader), WordSum(tcpHeader));
    c := FoldComplement(sum);
  }

  /** The padded checksum, as `computeChecksum2` computes it: the words of
    * the pseudo-header and the segment together, an odd last byte added as
    * a high byte, then the fold and the complement. */
  method ComputePaddedChecksum(segment: seq<byte>, src: seq<byte>, dst: seq<byte>) returns (c: u16)
    requires |src| == 4 && |dst| == 4
    ensures c == PaddedChecksum(src, dst, segment)
  {
    var data := PseudoHeader(src, dst, |segment|) + segment;
    var sum := AddWords(0, data);
    if |data| % 2 == 1 {
      ModAdd(WordSum(data), (data[|data| - 1] as int) * 0x100);
      sum := U32(sum + (data[|data| - 1] as int) * 0x100);
    }
    assert sum == WordSum(Padded(data)) % 0x1_0000_0000;
    c := FoldComplement(sum);
  }

  /** `computeChecksum2`: the padded checksum from 0.0.0.0, split into its
    * high and low byte. */
  method ComputeChecksum2(header: seq<byte>, dst: seq<byte>) returns (r: seq<byte>)
    requires |dst| == 4
    ensures r == Checksum2(dst, header)
  {
    var checksum := ComputePaddedChecksum(header, AnyAddress, dst);
    r := [checksum / 0x100, checksum % 0x100];
  }

  /** A new buffer holding `b`, as `append` copies a full slice. */
  method NewBuffer(b: seq<byte>) returns (buf: array<byte>)
    ensures fresh(buf) && buf[..] == b
  {
    buf := new byte[|b|](i requires 0 <= i < |b| => b[i]);
  }

  /** `buildTCPFrame`: the `TCPHeader` fields written into a zeroed 20-byte
    * buffer, the payload appended, and the checksum written at 16. */
  method BuildTCPFrame(dst: seq<byte>, destPort: int, data: seq<byte>) returns (frame: array<byte>)
    requires |dst| == 4
    ensures fresh(frame) && frame[..] == SynFrame(dst, destPort, data, FullWindow)
  {
    var tcpHeader := SynHeader(destPort, FullWindow);
    var headerBytes := new byte[HeaderLength](_ => 0);
    PutUint16(headerBytes, 0, tcpHeader.sourcePort);
    PutUint16(headerBytes, 2, tcpHeader.destinationPort);
    PutUint32(headerBytes, 4, tcpHeader.seqNum);
    PutUint32(headerBytes, 8, tcpHeader.ackNum);
    ghost var numbers := headerBytes[..];
    headerBytes[12] := tcpHeader.offset;
    headerBytes[13] := tcpHeader.flags;
    PutUint16(headerBytes, 14, tcpHeader.window);
    PutUint16(headerBytes, 16, tcpHeader.checksum);
    PutUint16(headerBytes, 18, tcpHeader.urgent);
    assert headerBytes[..12] == numbers[..12];
    HeaderWritten(headerBytes[..], tcpHeader);
    frame := NewBuffer(headerBytes[..] + data);
    var checkSum := ComputeChecksum(frame[..], dst);
    PutUint16(frame, 16, checkSum);
  }

  /** Bytes whose fields read back as `h` are `h`'s encoding. */
  lemma {:induction false} HeaderWritten(b: seq<byte>, h: TcpHeader)
    requires |b| == HeaderLength
    requires Word(b, 0) == h.sourcePort && Word(b, 2) == h.destinationPort
    requires Word32(b[..12], 4) == h.seqNum && Word32(b[..12], 8) == h.ackNum
    requires b[12] == h.offset && b[13] == h.flags
    requires Word(b, 14) == h.window && Word(b, 16) == h.checksum && Word(b, 18) == h.urgent
    ensures b == Encode(h)
  {
    assert Word32(b, 4) == Word32(b[..12], 4) && Word32(b, 8) == Word32(b[..12], 8);
    assert Decode(b) == h;
    EncodeDecode(b);
  }

  /** `buildTCPFrameWithBuffer`: the same fields appended to a growing
    * buffer, flags and data offset as the one word `(5<<12)|flags`, window
    * 8192; then the payload and the checksum at 16. */
  method BuildTCPFrameWithBuffer(dst: seq<byte>, destPort: int, data: seq<byte>) returns (frame: array<byte>)
    requires |dst| == 4
    ensures fresh(frame) && frame[..] == SynFrame(dst, destPort, data, BufferWindow)
  {
    var buffer: seq<byte> := [];
    buffer := buffer + BE16(SourcePort);
    buffer := buffer + BE16(U16(destPort));
    buffer := buffer + BE32(0);
    buffer := buffer + BE32(0);
    buffer := buffer + BE16(0x5000 + SynFlag);
    buffer := buffer + BE16(BufferWindow);
    buffer := buffer + BE16(0);
    buffer := buffer + BE16(0);
    assert BE16(0x5000 + SynFlag) == [DataOffset, SynFlag];
    assert buffer == Encode(SynHeader(destPort, BufferWindow));
    frame := NewBuffer(buffer + data);
    var checkSum := ComputeChecksum(frame[..], dst);
    PutUint16(frame, 16, checkSum);
  }

  /** `sendSYN` without the socket: the packet it sends. */
  method SendSYN(dst: seq<byte>, destPort: int) returns (synPacket: array<byte>)
    requires |dst| == 4
    ensures fresh(synPacket) && synPacket[..] == SynPacket(dst, destPort)
  {
    synPacket := BuildTCPFrame(dst, destPort, []);
    synPacket[13] := SynFlag;
  }

  /** `sendACK` without the socket. */
  method SendACK(dst: seq<byte>, destPort: int, seqNumber: u32, ackNumber: u32) returns (ackPacket: array<byte>)
    requires |dst| == 4
    ensures fresh(ackPacket) && ackPacket[..] == AckPacket(dst, destPort, seqNumber, ackNumber)
  {
    ackPacket := BuildTCPFrame(dst, destPort, []);
    ackPacket[13] := AckFlag;
    PutUint32(ackPacket, 4, U32(seqNumber + 1));
    PutUint32(ackPacket, 8, U32(ackNumber + 1));
  }

  /** `sendFIN` without the socket. */
  method SendFIN(dst: seq<byte>, destPort: int, seqNumber: u32) returns (finPacket: array<byte>)
    requires |dst| == 4
    ensures fresh(finPacket) && finPacket[..] == FinPacket(dst, destPort, seqNumber)
  {
    finPacket := BuildTCPFrame(dst, destPort, []);
    finPacket[13] := FinFlag;
    PutUint32(finPacket, 4, seqNumber);
  }

  /** `sendACKForFIN` without the socket. */
  method SendACKForFIN(dst: seq<byte>, destPort: int, seqNumber: u32, ackNumber: u32) returns (ackPacket: array<byte>)
    requires |dst| == 4
    ensures fresh(ackPacket) && ackPacket[..] == AckForFinPacket(dst, destPort, seqNumber, ackNumber)
  {
    ackPacket := BuildTCPFrame(dst, destPort, []);
    ackPacket[13] := AckFlag;
    PutUint32(ackPacket, 4, seqNumber);
    PutUint32(ackPacket, 8, U32(ackNumber + 1));
  }

  /** The checksum recomputed after a patch: the field cleared, the padded
    * checksum of the packet computed and written back.  Every other byte
    * stays, and the packet verifies whatever its length. */
  method Reseal(packet: array<byte>, dst: seq<byte>)
    requires |dst| == 4 && HeaderLength <= packet.Length < 0x1_0000
    modifies packet
    ensures forall i :: 0 <= i < packet.Length && i != 16 && i != 17 ==> packet[i] == old(packet[i])
    ensures Verifies(Loopback, dst, packet[..])
  {
    PutUint16(packet, 16, 0);
    ghost var cleared := packet[..];
    var checkSum := ComputePaddedChecksum(packet[..], Loopback, dst);
    PutUint16(packet, 16, checkSum);
    PaddedChecksumVerifies(Loopback, dst, cleared);
  }

  /** `sendACK` with the checksum recomputed after the patch. */
  method SendACKResealed(dst: seq<byte>, destPort: int, seqNumber: u32, ackNumber: u32) returns (ackPacket: array<byte>)
    requires |dst| == 4
    ensures fresh(ackPacket) && Verifies(Loopback, dst, ackPacket[..])
    ensures var sent := AckPacket(dst, destPort, seqNumber, ackNumber);
      |ackPacket[..]| == |sent| && forall i :: 0 <= i < |sent| && i != 16 && i != 17 ==> ackPacket[i] == sent[i]
  {
    ackPacket := SendACK(dst, destPort, seqNumber, ackNumber);
    Reseal(ackPacket, dst);
  }
}
