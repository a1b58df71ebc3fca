/** Byte-level pieces of the ADuC70xx serial download protocol (Analog
    Devices application note AN-724) as `AducConnection` in aduc_upload.py
    builds them: the checksum, the flash-mirror address remap, the packet
    layout, and the bit rotation applied to data before a verify command.
    A device-side decoder of packets is given as the partner of the encoder. */
module AducFrame {
  import opened Wrappers

  /** One element of a Python `bytes` value. */
  type byte = b: int | 0 <= b < 256

  /** The two start bytes that open every packet. */
  const Start0: byte := 0x07
  const Start1: byte := 0x0E

  /** The device's single-byte replies. */
  const Ack: byte := 0x06
  const Nak: byte := 0x07

  /** Addresses at or above this are mapped down by it (the code's constant
      0x0080000, that is 0x0008_0000). */
  const FlashMirror := 0x80000

  /** Exclusive bound of an unsigned 32-bit address. */
  const Word := 0x1_0000_0000

  /** Largest payload one packet can carry: the length byte counts the
      command byte, the four address bytes and the data, and must fit a byte. */
  const MaxPayload := 250

  /** The packet commands the uploader sends; each travels as its ASCII letter. */
  datatype Command = Erase | Write | Verify | Run {
    function Code(): byte {
      match this
      case Erase => 0x45   // 'E'
      case Write => 0x57   // 'W'
      case Verify => 0x56  // 'V'
      case Run => 0x52     // 'R'
    }
  }

  function CommandOf(code: byte): (c: Option<Command>)
    ensures c.Some? ==> c.value.Code() == code
    ensures forall cmd: Command :: cmd.Code() == code ==> c == Some(cmd)
  {
    if code == 0x45 then Some(Erase)
    else if code == 0x57 then Some(Write)
    else if code == 0x56 then Some(Verify)
    else if code == 0x52 then Some(Run)
    else None
  }

  /** Python's `sum` over a byte sequence. */
  function Sum(s: seq<byte>): nat
  {
    if s == [] then 0 else s[0] + Sum(s[1..])
  }

  lemma {:induction false} SumAppend(a: seq<byte>, b: seq<byte>)
    ensures Sum(a + b) == Sum(a) + Sum(b)
  {
    if a == [] {
      assert a + b == b;
    } else {
      assert (a + b)[1..] == a[1..] + b;
      SumAppend(a[1..], b);
    }
  }

  /** `_checksum`: `0xFF & (0 - sum(data))`.  Python's `&` on a negative
      integer acts on its two's-complement form, which is the remainder
      modulo 256 that Dafny's `%` gives. */
  function Checksum(data: seq<byte>): (c: byte)
    ensures (Sum(data) + c) % 256 == 0
  {
    (0 - Sum(data)) % 256
  }

  /** The checksum is the only byte that brings the sum to a multiple of 256. */
  lemma ChecksumUnique(data: seq<byte>, c: byte)
    requires (Sum(data) + c) % 256 == 0
    ensures c == Checksum(data)
  {
    ByteCompletesOnce(Sum(data), c, Checksum(data));
  }

  /** At most one byte brings a sum to a multiple of 256. */
  lemma ByteCompletesOnce(s: int, a: int, b: int)
    requires 0 <= a < 256 && 0 <= b < 256
    requires (s + a) % 256 == 0 && (s + b) % 256 == 0
    ensures a == b
  {
    var p, q := (s + a) / 256, (s + b) / 256;
    assert s + a == 256 * p && s + b == 256 * q;
    assert a - b == 256 * (p - q);
  }

  /** `_remapAddress`: flash is mirrored down by FlashMirror; lower addresses
      pass unchanged. */
  function RemapAddress(address: int): (r: int)
    ensures address >= FlashMirror ==> r + FlashMirror == address && r >= 0
    ensures address < FlashMirror ==> r == address
  {
    if address >= FlashMirror then address - FlashMirror else address
  }

  /** The flash window [FlashMirror, 2 * FlashMirror) maps one to one onto
      its mirror [0, FlashMirror). */
  lemma RemapFlashWindow(a: int, b: int)
    requires FlashMirror <= a < 2 * FlashMirror && FlashMirror <= b < 2 * FlashMirror
    ensures 0 <= RemapAddress(a) < FlashMirror
    ensures RemapAddress(a) == RemapAddress(b) <==> a == b
  {
  }

  /** `address.to_bytes(length=4, byteorder="big", signed=False)`. */
  function BigEndian32(a: int): (r: seq<byte>)
    requires 0 <= a < Word
    ensures |r| == 4
  {
    [a / 0x100_0000, (a / 0x1_0000) % 0x100, (a / 0x100) % 0x100, a % 0x100]
  }

  /** The value of a big-endian byte sequence. */
  function FromBigEndian(s: seq<byte>): nat
  {
    if s == [] then 0 else FromBigEndian(s[..|s| - 1]) * 256 + s[|s| - 1]
  }

  /** A four-byte sequence's value, unfolded. */
  lemma FromBigEndian4(s: seq<byte>)
    requires |s| == 4
    ensures FromBigEndian(s) == ((s[0] as int * 256 + s[1]) * 256 + s[2]) * 256 + s[3]
  {
    assert s[..3][..2][..1][..0] == [];
    assert s[..3][..2][..1] == [s[0]];
    assert FromBigEndian(s[..1]) == s[0];
    assert FromBigEndian(s[..2]) == s[0] as int * 256 + s[1];
    assert FromBigEndian(s[..3]) == (s[0] as int * 256 + s[1]) * 256 + s[2];
  }

  lemma BigEndian32RoundTrip(a: int)
    requires 0 <= a < Word
    ensures FromBigEndian(BigEndian32(a)) == a
  {
    FromBigEndian4(BigEndian32(a));
    DigitsRecombine(a);
  }

  lemma DigitsRecombine(a: int)
    requires 0 <= a < Word
    ensures ((a / 0x100_0000 * 256 + (a / 0x1_0000) % 0x100) * 256 + (a / 0x100) % 0x100) * 256 + a % 0x100 == a
  {
    var q1 := a / 0x100;
    var q2 := q1 / 0x100;
    var q3 := q2 / 0x100;
    assert a == q1 * 256 + a % 0x100;
    assert q1 == q2 * 256 + q1 % 0x100;
    assert q2 == q3 * 256 + q2 % 0x100;
    assert q2 == a / 0x1_0000;
    assert q3 == a / 0x100_0000;
  }

  lemma BigEndian32OfValue(s: seq<byte>)
    requires |s| == 4
    ensures FromBigEndian(s) < Word && BigEndian32(FromBigEndian(s)) == s
  {
    FromBigEndian4(s);
    var v := FromBigEndian(s);
    var b0, b1, b2, b3: int := s[0], s[1], s[2], s[3];
    assert v == b0 * 0x100_0000 + b1 * 0x1_0000 + b2 * 0x100 + b3;
    DivExact(v, 0x100, b0 * 0x1_0000 + b1 * 0x100 + b2, b3);
    DivExact(v, 0x1_0000, b0 * 0x100 + b1, b2 * 0x100 + b3);
    DivExact(v, 0x100_0000, b0, b1 * 0x1_0000 + b2 * 0x100 + b3);
    DivExact(v / 0x1_0000, 0x100, b0, b1);
    DivExact(v / 0x100, 0x100, b0 * 0x100 + b1, b2);
  }

  /** Division with a known quotient and remainder. */
  lemma DivExact(v: int, d: int, q: int, r: int)
    requires d > 0 && 0 <= r < d && v == q * d + r
    ensures v / d == q && v % d == r
  {
    var k := v / d - q;
    assert k * d == r - v % d;
    if k >= 1 {
      MulAtLeast(k, d);
    } else if k <= -1 {
      MulAtLeast(-k, d);
    }
  }

  lemma MulAtLeast(k: int, d: int)
    requires k >= 1 && d > 0
    ensures k * d >= d && (-k) * d <= -d
  {
    assert k * d == (k - 1) * d + d;
  }

  /** Adding a nonzero amount smaller than 256 to a multiple of 256 leaves a
      nonzero remainder. */
  lemma OffMultiple(total: int, delta: int)
    requires total % 256 == 0 && -256 < delta < 256 && delta != 0
    ensures (total + delta) % 256 != 0
  {
    var q := total / 256;
    DivExact(total, 256, q, 0);
    if delta > 0 {
      DivExact(total + delta, 256, q, delta);
    } else {
      DivExact(total + delta, 256, q - 1, 256 + delta);
    }
  }

  /** What `_sendPacket` feeds to `_checksum`: the length byte, the command's
      ASCII byte, the address in big-endian order and the data. */
  function Body(cmd: Command, address: int, data: seq<byte>): seq<byte>
    requires |data| <= MaxPayload && 0 <= address < Word
  {
    [|data| + 5, cmd.Code()] + BigEndian32(address) + data
  }

  /** The bytes `_sendPacket` writes for an (already remapped) address. */
  function Frame(cmd: Command, address: int, data: seq<byte>): seq<byte>
    requires |data| <= MaxPayload && 0 <= address < Word
  {
    var body := Body(cmd, address, data);
    [Start0, Start1] + body + [Checksum(body)]
  }

  /** The packet layout: start bytes, length byte, command, four address
      bytes, the data, and a checksum that balances everything after the
      start bytes. */
  lemma FrameLayout(cmd: Command, address: int, data: seq<byte>)
    requires |data| <= MaxPayload && 0 <= address < Word
    ensures var f := Frame(cmd, address, data);
      |f| == |data| + 9 && f[0] == Start0 && f[1] == Start1
      && f[2] == |data| + 5 && f[3] == cmd.Code()
      && FromBigEndian(f[4..8]) == address && f[8..|f| - 1] == data
      && Sum(f[2..]) % 256 == 0
  {
    var body := Body(cmd, address, data);
    var f := Frame(cmd, address, data);
    assert f[2..] == body + [Checksum(body)];
    assert f[4..8] == BigEndian32(address);
    BigEndian32RoundTrip(address);
    SumAppend(body, [Checksum(body)]);
    assert Sum([Checksum(body)]) == Checksum(body);
  }

  /** A packet as the device sees it. */
  datatype Packet = Packet(cmd: Command, address: int, data: seq<byte>)

  /** The device side of the codec: accepts a packet only if it opens with
      the start bytes, its length byte matches, the checksum balances and the
      command is known. */
  function ParseFrame(f: seq<byte>): (p: Option<Packet>)
  {
    if |f| < 9 || f[0] != Start0 || f[1] != Start1 || f[2] != |f| - 4 || Sum(f[2..]) % 256 != 0 then None
    else match CommandOf(f[3])
      case None => None
      case Some(cmd) => Some(Packet(cmd, FromBigEndian(f[4..8]), f[8..|f| - 1]))
  }

  /** Every packet the uploader builds is accepted by the device as the
      command, address and data it was built from. */
  lemma ParseFrameOfFrame(cmd: Command, address: int, data: seq<byte>)
    requires |data| <= MaxPayload && 0 <= address < Word
    ensures ParseFrame(Frame(cmd, address, data)) == Some(Packet(cmd, address, data))
  {
    FrameLayout(cmd, address, data);
    var f := Frame(cmd, address, data);
    assert CommandOf(f[3]) == Some(cmd);
  }

  /** Conversely, every packet the device accepts is exactly the frame the
      uploader would build for it, so the codec is a bijection. */
  lemma FrameOfParseFrame(f: seq<byte>)
    requires ParseFrame(f).Some?
    ensures var p := ParseFrame(f).value;
      |p.data| <= MaxPayload && 0 <= p.address < Word && Frame(p.cmd, p.address, p.data) == f
  {
    var p := ParseFrame(f).value;
    BigEndian32OfValue(f[4..8]);
    var body := Body(p.cmd, p.address, p.data);
    assert f[2..|f| - 1] == body;
    assert f[2..] == body + [f[|f| - 1]];
    SumAppend(body, [f[|f| - 1]]);
    assert Sum([f[|f| - 1]]) == f[|f| - 1];
    ChecksumUnique(body, f[|f| - 1]);
    assert f == [Start0, Start1] + body + [Checksum(body)];
  }

  lemma {:induction false} SumUpdate(s: seq<byte>, k: nat, x: byte)
    requires k < |s|
    ensures Sum(s[k := x]) == Sum(s) - s[k] + x
  {
    if k > 0 {
      assert s[k := x][1..] == s[1..][k - 1 := x];
      SumUpdate(s[1..], k - 1, x);
    }
  }

  /** Changing any one byte after the start bytes of a packet makes the
      device reject it: the checksum catches every single-byte corruption. */
  lemma SingleByteCorruptionDetected(cmd: Command, address: int, data: seq<byte>, i: nat, x: byte)
    requires |data| <= MaxPayload && 0 <= address < Word
    requires 2 <= i < |data| + 9 && x != Frame(cmd, address, data)[i]
    ensures ParseFrame(Frame(cmd, address, data)[i := x]) == None
  {
    FrameLayout(cmd, address, data);
    var f := Frame(cmd, address, data);
    var g := f[i := x];
    assert g[2..] == f[2..][i - 2 := x];
    SumUpdate(f[2..], i - 2, x);
    var total := Sum(f[2..]);
    assert total % 256 == 0;
    assert Sum(g[2..]) == total + (x - f[i]);
    OffMultiple(total, x - f[i]);
  }

  /** One element of `_verifyShift`: `0xFF & (b << 3 | b >> 5)`.  The two
      shifted parts occupy disjoint bits, so the `|` is an addition. */
  function RotateLeft3(b: byte): byte
  {
    (b as int * 8 + b as int / 32) % 256
  }

  /** The inverse rotation, by which the device recovers the data. */
  function RotateRight3(b: byte): byte
  {
    b as int / 8 + (b as int % 8) * 32
  }

  /** In terms of the top three bits h and the low five bits l of b, the left
      rotation gives 8 * l + h. */
  lemma RotateLeft3Digits(b: byte)
    ensures RotateLeft3(b) == 8 * (b % 32) + b / 32
  {
    var h, l := b / 32, b % 32;
    DivExact(b, 32, h, l);
    assert b as int * 8 + h == h * 256 + (8 * l + h);
    DivExact(b as int * 8 + h, 256, h, 8 * l + h);
  }

  lemma RotateRight3Digits(b: byte)
    ensures RotateRight3(b) == 32 * (b % 8) + b / 8
  {
  }

  lemma RotateRoundTrip(b: byte)
    ensures RotateRight3(RotateLeft3(b)) == b
    ensures RotateLeft3(RotateRight3(b)) == b
  {
    var h, l := b / 32, b % 32;
    DivExact(b, 32, h, l);
    RotateLeft3Digits(b);
    RotateRight3Digits(RotateLeft3(b));
    DivExact(8 * l + h, 8, l, h);
    var lo, hi := b % 8, b / 8;
    DivExact(b, 8, hi, lo);
    RotateRight3Digits(b);
    RotateLeft3Digits(RotateRight3(b));
    DivExact(32 * lo + hi, 32, lo, hi);
  }

  /** `_verifyShift`: the bytes a verify command carries. */
  function VerifyShift(data: seq<byte>): (r: seq<byte>)
    ensures |r| == |data|
  {
    seq(|data|, i requires 0 <= i < |data| => RotateLeft3(data[i]))
  }

  function VerifyUnshift(data: seq<byte>): (r: seq<byte>)
    ensures |r| == |data|
  {
    seq(|data|, i requires 0 <= i < |data| => RotateRight3(data[i]))
  }

  /** The rotation loses nothing: the device can undo it byte for byte. */
  lemma VerifyShiftRoundTrip(data: seq<byte>)
    ensures VerifyUnshift(VerifyShift(data)) == data
    ensures VerifyShift(VerifyUnshift(data)) == data
  {
    forall i | 0 <= i < |data|
      ensures VerifyUnshift(VerifyShift(data))[i] == data[i]
      ensures VerifyShift(VerifyUnshift(data))[i] == data[i]
    {
      RotateRoundTrip(data[i]);
    }
  }
}
