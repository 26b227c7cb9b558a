/** Field decoding of the FLV test parser: big-endian integers
    (reverse_bytes and the hand-written UI24 sums), and the bit fields of
    the first data byte of audio and video tags together with the names
    the parser prints for them (Adobe Flash Video File Format
    Specification 10.1, sections E.2, E.4.1, E.4.2.1 and E.4.3.1). */
module Flv {

  /** An unsigned char of the file. */
  type byte = b: int | 0 <= b < 256

  const IntMax := 0x7FFF_FFFF

  function Pow2(k: nat): (r: nat)
    ensures r > 0
  {
    if k == 0 then 1 else 2 * Pow2(k - 1)
  }

  lemma {:induction false} Pow2Add(a: nat, b: nat)
    ensures Pow2(a + b) == Pow2(a) * Pow2(b)
  {
    if a > 0 {
      Pow2Add(a - 1, b);
      assert Pow2(a + b) == 2 * Pow2(a - 1 + b);
    }
  }

  /** One more byte is a factor of 256. */
  lemma Pow2Byte(k: nat)
    ensures Pow2(k + 8) == 256 * Pow2(k)
  {
    Pow2Add(8, k);
    assert Pow2(8) == 256;
  }

  /** The widths of the length fields. */
  lemma Pow2Facts()
    ensures Pow2(8) == 0x100 && Pow2(16) == 0x1_0000 && Pow2(32) == 0x1_0000_0000
  {
    assert Pow2(8) == 0x100;
    Pow2Add(8, 8);
    Pow2Add(16, 16);
  }

  lemma {:induction false} Pow2Monotone(a: nat, b: nat)
    requires a <= b
    ensures Pow2(a) <= Pow2(b)
  {
    if a < b {
      Pow2Monotone(a, b - 1);
    }
  }

  /** `x << s` on values that do not overflow. */
  function Shl(x: nat, s: nat): nat
  {
    x * Pow2(s)
  }

  /** Bitwise OR of two naturals, bit by bit from the least significant. */
  function BitOr(a: nat, b: nat): (r: nat)
    decreases a + b
  {
    if a == 0 then b
    else if b == 0 then a
    else 2 * BitOr(a / 2, b / 2) + (if a % 2 == 1 || b % 2 == 1 then 1 else 0)
  }

  /** OR of a value whose low `k` bits are clear with a value below 2^k
      is their sum. */
  lemma {:induction false} OrDisjoint(m: nat, b: nat, k: nat)
    requires b < Pow2(k)
    ensures BitOr(m * Pow2(k), b) == m * Pow2(k) + b
  {
    var a := m * Pow2(k);
    if a == 0 || b == 0 {
    } else {
      assert k > 0;
      var h := m * Pow2(k - 1);
      assert a == 2 * h;
      assert a / 2 == h && a % 2 == 0;
      OrDisjoint(m, b / 2, k - 1);
      assert BitOr(a, b) == 2 * BitOr(h, b / 2) + b % 2;
    }
  }

  /** OR of two values shifted alike, the low `k` bits of the second
      passing through. */
  lemma {:induction false} OrShifted(x: nat, y: nat, b: nat, k: nat)
    requires b < Pow2(k)
    ensures BitOr(x * Pow2(k), y * Pow2(k) + b) == BitOr(x, y) * Pow2(k) + b
    decreases k, 1
  {
    if k > 0 {
      var p := Pow2(k - 1);
      assert Pow2(k) == 2 * p;
      MulDouble(x, p);
      MulDouble(y, p);
      if x == 0 {
        assert BitOr(0, y) == y;
      } else if y == 0 && b == 0 {
        assert BitOr(x, 0) == x;
      } else {
        OrShiftedHalves(x, y, b, k);
      }
    }
  }

  /** The inductive step of OrShifted: both operands are non-zero, so one
      low bit is split off. */
  lemma {:induction false} OrShiftedHalves(x: nat, y: nat, b: nat, k: nat)
    requires 0 < k && b < Pow2(k) && x > 0 && (y > 0 || b > 0)
    ensures BitOr(x * Pow2(k), y * Pow2(k) + b) == BitOr(x, y) * Pow2(k) + b
    decreases k, 0
  {
    var p := Pow2(k - 1);
    var xp, yp := x * p, y * p;
    assert Pow2(k) == 2 * p;
    var a, c := 2 * xp, 2 * yp + b;
    MulDouble(x, p);
    MulDouble(y, p);
    MulPositive(x, p);
    if y > 0 {
      MulPositive(y, p);
    }
    assert a > 0 && c > 0;
    assert a / 2 == xp && a % 2 == 0;
    assert c / 2 == yp + b / 2 && c % 2 == b % 2;
    OrShifted(x, y, b / 2, k - 1);
    var o := BitOr(x, y);
    assert BitOr(a, c) == 2 * (o * p + b / 2) + b % 2;
    MulDouble(o, p);
  }

  lemma MulPositive(m: nat, p: nat)
    requires m > 0 && p > 0
    ensures m * p > 0
  {
  }

  lemma MulDouble(m: nat, p: nat)
    ensures m * (2 * p) == 2 * (m * p)
  {
  }

  /** OR with `k` one bits absorbs any value below 2^k. */
  lemma {:induction false} OrOnes(x: nat, k: nat)
    requires x < Pow2(k)
    ensures BitOr(x, Pow2(k) - 1) == Pow2(k) - 1
  {
    if k > 0 && x > 0 {
      var y := Pow2(k) - 1;
      assert y / 2 == Pow2(k - 1) - 1 && y % 2 == 1;
      OrOnes(x / 2, k - 1);
    }
  }

  /** The value of a big-endian byte string. */
  function BigEndian(s: seq<byte>): nat
  {
    if s == [] then 0 else BigEndian(s[..|s| - 1]) * 256 + s[|s| - 1]
  }

  /** `n` bytes hold a value below 2^(8n). */
  lemma {:induction false} BigEndianBound(s: seq<byte>)
    ensures BigEndian(s) < Pow2(8 * |s|)
  {
    if s != [] {
      var init := s[..|s| - 1];
      BigEndianBound(init);
      Pow2Byte(8 * |init|);
    }
  }

  /** The `width` big-endian bytes of `v`. */
  function ToBigEndian(v: nat, width: nat): (s: seq<byte>)
    ensures |s| == width
  {
    if width == 0 then [] else ToBigEndian(v / 256, width - 1) + [v % 256]
  }

  /** Encoding a value that fits and decoding it again gives the value. */
  lemma {:induction false} BigEndianRoundTrip(v: nat, width: nat)
    requires v < Pow2(8 * width)
    ensures BigEndian(ToBigEndian(v, width)) == v
  {
    if width > 0 {
      Pow2Byte(8 * (width - 1));
      BigEndianRoundTrip(v / 256, width - 1);
      var s := ToBigEndian(v, width);
      assert s[..|s| - 1] == ToBigEndian(v / 256, width - 1);
    }
  }

  /** Decoding a byte string and encoding it again gives the string. */
  lemma {:induction false} ToBigEndianRoundTrip(s: seq<byte>)
    ensures ToBigEndian(BigEndian(s), |s|) == s
  {
    if s != [] {
      var init := s[..|s| - 1];
      ToBigEndianRoundTrip(init);
      assert s == init + [s[|s| - 1]];
    }
  }

  /** reverse_bytes: OR together the first `c` bytes, each shifted to its
      big-endian place.  `c` is a `sizeof` of 3 or 4. */
  method ReverseBytes(p: seq<byte>, c: nat) returns (r: nat)
    requires c <= |p| && c <= 4
    ensures r == BigEndian(p[..c])
    ensures r < Pow2(8 * c)
  {
    r := 0;
    for i := 0 to c
      invariant r == BigEndian(p[..i]) * Pow2(8 * (c - i))
    {
      var shift: nat := (c - 1) * 8 - 8 * i;
      ReverseStep(p, c, i, r);
      r := BitOr(r, Shl(p[i], shift));
    }
    assert p[..c] == p[..c][..c];
    BigEndianBound(p[..c]);
  }

  /** One iteration of reverse_bytes: the next byte lands just below the
      bytes already placed. */
  lemma ReverseStep(p: seq<byte>, c: nat, i: nat, r: nat)
    requires i < c <= |p|
    requires r == BigEndian(p[..i]) * Pow2(8 * (c - i))
    ensures BitOr(r, Shl(p[i], (c - 1) * 8 - 8 * i)) == BigEndian(p[..i + 1]) * Pow2(8 * (c - (i + 1)))
  {
    var shift := (c - 1) * 8 - 8 * i;
    var high := BigEndian(p[..i]);
    var unit := Pow2(shift);
    assert 8 * (c - i) == shift + 8 && 8 * (c - (i + 1)) == shift;
    Pow2Byte(shift);
    assert r == high * Pow2(shift + 8);
    PlaceByte(high, p[i], unit);
    OrDisjoint(high, p[i] * unit, shift + 8);
    assert p[..i + 1][..i] == p[..i];
    assert BigEndian(p[..i + 1]) == high * 256 + p[i];
  }

  /** Arithmetic of placing byte `x` below `high` at weight `unit`. */
  lemma PlaceByte(high: nat, x: byte, unit: nat)
    requires unit > 0
    ensures x * unit < 256 * unit
    ensures high * (256 * unit) + x * unit == (high * 256 + x) * unit
  {
  }

  /** The shifted byte of reverse_bytes is computed in a signed `int`: it
      leaves the range of `int` exactly for the top byte of a 4-byte value
      with its high bit set. */
  lemma ShiftOverflow(p: seq<byte>, c: nat, i: nat)
    requires c <= |p| && c <= 4 && i < c
    ensures Shl(p[i], (c - 1) * 8 - 8 * i) > IntMax <==> c == 4 && i == 0 && p[0] >= 0x80
  {
    var shift := (c - 1) * 8 - 8 * i;
    Pow2Facts();
    if shift == 24 {
      Pow2Byte(16);
      assert Shl(p[i], shift) == p[i] as int * 0x100_0000;
    } else if shift == 16 {
      assert Shl(p[i], shift) == p[i] as int * 0x1_0000;
    } else if shift == 8 {
      assert Shl(p[i], shift) == p[i] as int * 0x100;
    } else {
      assert shift == 0 && Shl(p[i], shift) == p[i];
    }
  }

  /** The DataSize and Timestamp fields as the parser sums them. */
  function UI24(b: seq<byte>): (v: nat)
    requires |b| == 3
    ensures v == BigEndian(b) && v < 0x100_0000
  {
    assert b[..2][..1] == b[..1] && b[..3][..2] == b[..2] && b[..3] == b;
    assert BigEndian(b[..1]) == b[0];
    assert BigEndian(b[..2]) == b[0] as int * 256 + b[1];
    b[0] as int * 65536 + b[1] as int * 256 + b[2] as int
  }

  /** The label printed for a tag type. */
  function TagTypeName(t: byte): (name: string)
    ensures name == "UNKNOWN" <==> t !in {8, 9, 18}
  {
    match t
    case 8 => "AUDIO"
    case 9 => "VIDEO"
    case 18 => "SCRIPT"
    case _ => "UNKNOWN"
  }

  /** Bits 7-4 of a tag's first data byte, as the parser masks and
      shifts them for both audio and video tags. */
  function HighNibble(b: bv8): (x: bv8)
    ensures x < 16
  {
    (b & 0xF0) >> 4
  }

  // First byte of an audio tag: SoundFormat (4 bits), SoundRate (2),
  // SoundSize (1), SoundType (1).

  function SoundFormat(b: bv8): bv8
  {
    HighNibble(b)
  }

  function SoundRate(b: bv8): (x: bv8)
    ensures x < 4
  {
    (b & 0x0C) >> 2
  }

  function SoundSize(b: bv8): (x: bv8)
    ensures x < 2
  {
    (b & 0x02) >> 1
  }

  function SoundType(b: bv8): (x: bv8)
    ensures x < 2
  {
    b & 0x01
  }

  /** The audio first byte with the given fields. */
  function AudioByte(format: bv8, rate: bv8, size: bv8, stereo: bv8): bv8
  {
    (format << 4) | (rate << 2) | (size << 1) | stereo
  }

  /** The four audio fields determine the byte, and every choice of
      fields in range is read back unchanged. */
  lemma AudioRoundTrip(b: bv8, format: bv8, rate: bv8, size: bv8, stereo: bv8)
    ensures AudioByte(SoundFormat(b), SoundRate(b), SoundSize(b), SoundType(b)) == b
    ensures format < 16 && rate < 4 && size < 2 && stereo < 2 ==>
      var a := AudioByte(format, rate, size, stereo);
      SoundFormat(a) == format && SoundRate(a) == rate && SoundSize(a) == size && SoundType(a) == stereo
  {
  }

  function SoundFormatName(x: int): string
  {
    match x
    case 0 => "Linear PCM, platform endian"
    case 1 => "ADPCM"
    case 2 => "MP3"
    case 3 => "Linear PCM, little endian"
    case 4 => "Nellymoser 16-kHz mono"
    case 5 => "Nellymoser 8-kHz mono"
    case 6 => "Nellymoser"
    case 7 => "G.711 A-law logarithmic PCM"
    case 8 => "G.711 mu-law logarithmic PCM"
    case 9 => "reserved"
    case 10 => "AAC"
    case 11 => "Speex"
    case 14 => "MP3 8-Khz"
    case 15 => "Device-specific sound"
    case _ => "UNKNOWN"
  }

  /** The sound-rate labels as the program prints them.  The FLV format
      defines rate 1 as 11 kHz; the program's label "1-kHz" is kept as
      written, since the labels are its output. */
  function SoundRateName(x: int): string
  {
    match x
    case 0 => "5.5-kHz"
    case 1 => "1-kHz"
    case 2 => "22-kHz"
    case 3 => "44-kHz"
    case _ => "UNKNOWN"
  }

  function SoundSizeName(x: int): string
  {
    match x
    case 0 => "8Bit"
    case 1 => "16Bit"
    case _ => "UNKNOWN"
  }

  function SoundTypeName(x: int): string
  {
    match x
    case 0 => "Mono"
    case 1 => "Stereo"
    case _ => "UNKNOWN"
  }

  /** Of the sixteen sound formats only 12 and 13 have no name, and the
      rate, size and type of every audio byte have one: the parser's
      UNKNOWN arms for them cannot be reached. */
  lemma AudioNames(b: bv8)
    ensures SoundFormatName(SoundFormat(b) as int) == "UNKNOWN" <==> SoundFormat(b) in {12, 13}
    ensures SoundRateName(SoundRate(b) as int) != "UNKNOWN"
    ensures SoundSizeName(SoundSize(b) as int) != "UNKNOWN"
    ensures SoundTypeName(SoundType(b) as int) != "UNKNOWN"
  {
    var f := SoundFormat(b) as int;
    assert 0 <= f < 16;
  }

  // First byte of a video tag: FrameType (4 bits), CodecID (4 bits).

  function FrameType(b: bv8): bv8
  {
    HighNibble(b)
  }

  function CodecId(b: bv8): (x: bv8)
    ensures x < 16
  {
    b & 0x0F
  }

  /** The video first byte with the given fields. */
  function VideoByte(frame: bv8, codec: bv8): bv8
  {
    (frame << 4) | codec
  }

  lemma VideoRoundTrip(b: bv8, frame: bv8, codec: bv8)
    ensures VideoByte(FrameType(b), CodecId(b)) == b
    ensures frame < 16 && codec < 16 ==>
      FrameType(VideoByte(frame, codec)) == frame && CodecId(VideoByte(frame, codec)) == codec
  {
  }

  function FrameTypeName(x: int): (name: string)
    ensures name == "UNKNOWN" <==> !(1 <= x <= 5)
  {
    match x
    case 1 => "key frame  "
    case 2 => "inter frame"
    case 3 => "disposable inter frame"
    case 4 => "generated keyframe"
    case 5 => "video info/command frame"
    case _ => "UNKNOWN"
  }

  function CodecName(x: int): (name: string)
    ensures name == "UNKNOWN" <==> !(1 <= x <= 7)
  {
    match x
    case 1 => "JPEG (currently unused)"
    case 2 => "Sorenson H.263"
    case 3 => "Screen video"
    case 4 => "On2 VP6"
    case 5 => "On2 VP6 with alpha channel"
    case 6 => "Screen video version 2"
    case 7 => "AVC"
    case _ => "UNKNOWN"
  }
}
