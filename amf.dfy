/** The walk of the FLV test parser over the onMetaData script tag: an AMF0
    ECMA array (AMF0 specification, sections 2.10 and 2.2-2.4) whose
    entries are a big-endian 16-bit name length, the name, a one-byte type
    marker and a value.  The walk only advances an offset through the
    buffer; numbers are kept as their eight raw bytes and strings are
    skipped by their length.

    Two readings of the same walk are modelled: `AsWritten`, the parser as
    it stands, and `Corrected`, the one the AMF0 format calls for (the
    Boolean byte is read, the Long String marker is 0x0C and length bytes
    are unsigned). */
module Amf {
  import Flv

  type byte = Flv.byte

  const U32: nat := 0x1_0000_0000

  /** Script data bodies are at most a UI24 DataSize long. */
  const MaxMeta: nat := 0x100_0000

  /** Offset of the value-type marker after the "onMetaData" string. */
  const ArrayMarkerAt: nat := 13
  const EcmaArrayMarker: byte := 0x08
  const FirstEntryAt: nat := 18

  const NumberMarker: byte := 0x00
  const BooleanMarker: byte := 0x01
  const StringMarker: byte := 0x02
  const LongStringMarker: byte := 0x0C

  datatype Option<T> = None | Some(value: T)

  datatype Reading = AsWritten | Corrected

  datatype Value =
    | Number(raw: seq<byte>)
    | Boolean(flag: bool)
    | Str(length: nat)
    | LongStr(length: nat)
    | Other(marker: byte)

  datatype Entry = Entry(name: seq<byte>, value: Value)

  /** Outcome of the walk: the array marker is missing, a read falls past
      the end of the buffer, or every entry was walked and the offset
      stopped at `end`. */
  datatype Meta = NotEcmaArray | Truncated | Parsed(entries: seq<Entry>, end: nat)

  /** The Long String marker each reading tests for. */
  function LongMarker(reading: Reading): byte
  {
    if reading == AsWritten then 0x12 else LongStringMarker
  }

  // Length fields.  The buffer is a `char *`, so as written each byte is
  // sign-extended before it is OR-ed into the unsigned accumulator.

  /** A `char` widened to `unsigned int`. */
  function SignExtend(b: byte): (w: nat)
    ensures w < U32
  {
    if b < 0x80 then b else U32 - 0x100 + b
  }

  /** `n |= m_meta[offset++]` with `n <<= 8` between the bytes, on a 32-bit
      unsigned `n`, over the `width` bytes at `at`.  The result stays a
      32-bit value, and a last byte at or above 0x80 sets every bit above
      its own. */
  function OrShiftLength(meta: seq<byte>, at: nat, width: nat): (n: nat)
    requires at + width <= |meta|
    ensures n < U32
    ensures width > 0 && meta[at + width - 1] >= 0x80 ==> n >= U32 - 0x100
  {
    if width == 0 then 0
    else
      var high := OrShiftLength(meta, at, width - 1);
      ShiftedByte(high);
      LengthStep(high, meta[at + width - 1]);
      Flv.BitOr((high * 256) % U32, SignExtend(meta[at + width - 1]))
  }

  /** The same accumulation byte by byte: a byte below 0x80 is appended to
      the shifted value, and a byte at or above 0x80 sets every bit above
      its own. */
  function LengthAsWritten(meta: seq<byte>, at: nat, width: nat): (n: nat)
    requires at + width <= |meta|
    ensures n < U32
  {
    if width == 0 then 0
    else
      var b := meta[at + width - 1];
      if b < 0x80 then (LengthAsWritten(meta, at, width - 1) * 256) % U32 + b
      else U32 - 0x100 + b
  }

  lemma {:induction false} LengthIsOrShift(meta: seq<byte>, at: nat, width: nat)
    requires at + width <= |meta|
    ensures OrShiftLength(meta, at, width) == LengthAsWritten(meta, at, width)
  {
    if width > 0 {
      LengthIsOrShift(meta, at, width - 1);
      LengthStep(LengthAsWritten(meta, at, width - 1), meta[at + width - 1]);
    }
  }

  /** `n <<= 8` on a 32-bit `n` keeps its low three bytes, moved up one
      byte, and leaves the low byte clear. */
  lemma ShiftedByte(high: nat)
    ensures (high * 256) % U32 == (high % 0x100_0000) * 256
    ensures (high * 256) % U32 <= U32 - 0x100
  {
  }

  /** One byte of the as-written accumulation: a byte below 0x80 is
      appended to the shifted value, and a byte at or above 0x80 sets every
      bit above its own. */
  lemma LengthStep(high: nat, b: byte)
    requires high < U32
    ensures Flv.BitOr((high * 256) % U32, SignExtend(b)) ==
      if b < 0x80 then (high * 256) % U32 + b else U32 - 0x100 + b
  {
    var m := high % 0x100_0000;
    ShiftedByte(high);
    Flv.Pow2Facts();
    assert Flv.Pow2(24) == 0x100_0000 by { Flv.Pow2Byte(16); }
    if b < 0x80 {
      Flv.OrDisjoint(m, b, 8);
    } else {
      assert SignExtend(b) == 0xFF_FFFF * Flv.Pow2(8) + b;
      Flv.OrShifted(m, 0xFF_FFFF, b, 8);
      Flv.OrOnes(m, 24);
      assert Flv.BitOr(m, 0xFF_FFFF) == 0xFF_FFFF;
    }
  }

  /** An offset advanced past the end of the 32-bit range wraps around;
      the sums the walk forms are below 2^33. */
  function Wrap32(x: nat): (w: nat)
    requires x < 2 * U32
    ensures w < U32
  {
    if x < U32 then x else x - U32
  }

  /** A length field of `width` bytes at `at`. */
  function ReadLength(meta: seq<byte>, at: nat, width: nat, reading: Reading): (n: nat)
    requires at + width <= |meta| && width <= 4
    ensures n < U32
  {
    if reading == AsWritten then LengthAsWritten(meta, at, width)
    else
      BigEndianAtBound(meta, at, width);
      Flv.Pow2Facts();
      Flv.Pow2Monotone(8 * width, 32);
      BigEndianAt(meta, at, width)
  }

  /** The unsigned big-endian number in the `width` bytes at `at`. */
  function BigEndianAt(meta: seq<byte>, at: nat, width: nat): nat
    requires at + width <= |meta|
  {
    if width == 0 then 0 else BigEndianAt(meta, at, width - 1) * 256 + meta[at + width - 1]
  }

  lemma {:induction false} BigEndianAtIs(meta: seq<byte>, at: nat, width: nat)
    requires at + width <= |meta|
    ensures BigEndianAt(meta, at, width) == Flv.BigEndian(meta[at..at + width])
  {
    if width > 0 {
      BigEndianAtIs(meta, at, width - 1);
      assert meta[at..at + width][..width - 1] == meta[at..at + width - 1];
    }
  }

  lemma BigEndianAtBound(meta: seq<byte>, at: nat, width: nat)
    requires at + width <= |meta|
    ensures BigEndianAt(meta, at, width) < Flv.Pow2(8 * width)
  {
    BigEndianAtIs(meta, at, width);
    Flv.BigEndianBound(meta[at..at + width]);
  }

  /** One entry read at offset `at`: the entry and the offset after it, or
      None when a byte the parser reads lies past the end of the buffer. */
  function EntryAt(meta: seq<byte>, at: nat, reading: Reading): (r: Option<(Entry, nat)>)
    requires |meta| < MaxMeta
    ensures at + 2 > |meta| ==> r.None?
    ensures r.Some? ==>
      var nameLen := ReadLength(meta, at, 2, reading);
      at + 2 + nameLen < |meta| && r.value.0.name == meta[at + 2..at + 2 + nameLen]
  {
    if at + 2 > |meta| then None
    else
      var nameAt := at + 2;
      var nameLen := ReadLength(meta, at, 2, reading);
      if nameAt + nameLen >= |meta| then None
      else
        var markerAt := nameAt + nameLen;
        match ValueAt(meta, markerAt + 1, meta[markerAt], reading)
        case None => None
        case Some((v, next)) => Some((Entry(meta[nameAt..markerAt], v), next))
  }

  /** The value after type marker `marker`, read from offset `valueAt`, and
      the offset after it.  Lengths that are only skipped are added to the
      32-bit offset. */
  function ValueAt(meta: seq<byte>, valueAt: nat, marker: byte, reading: Reading): (r: Option<(Value, nat)>)
    requires valueAt <= |meta| < MaxMeta
    ensures r.None? ==> valueAt + 8 > |meta|
    ensures r.Some? ==> r.value.1 < U32
    ensures r.Some? ==> (r.value.0.Other? <==> marker !in {NumberMarker, BooleanMarker, StringMarker, LongMarker(reading)})
    ensures r.Some? && r.value.0.Other? ==> r.value.0 == Other(marker) && r.value.1 == valueAt
  {
    if marker == NumberMarker then
      if valueAt + 8 > |meta| then None
      else Some((Number(meta[valueAt..valueAt + 8]), valueAt + 8))
    else if marker == BooleanMarker then
      if reading == AsWritten then Some((Boolean(valueAt != 0), valueAt + 1))
      else if valueAt == |meta| then None
      else Some((Boolean(meta[valueAt] != 0), valueAt + 1))
    else if marker == StringMarker then
      if valueAt + 2 > |meta| then None
      else Some((Str(ReadLength(meta, valueAt, 2, reading)), Wrap32(valueAt + 2 + ReadLength(meta, valueAt, 2, reading))))
    else if marker == LongMarker(reading) then
      if valueAt + 4 > |meta| then None
      else Some((LongStr(ReadLength(meta, valueAt, 4, reading)), Wrap32(valueAt + 4 + ReadLength(meta, valueAt, 4, reading))))
    else Some((Other(marker), valueAt))
  }

  /** `entries` walked before the outcome `m` of the rest. */
  function Prepend(entries: seq<Entry>, m: Meta): Meta
  {
    if m.Parsed? then Parsed(entries + m.entries, m.end) else m
  }

  /** `count` entries from offset `at`. */
  function EntriesFrom(meta: seq<byte>, at: nat, count: nat, reading: Reading): (r: Meta)
    requires |meta| < MaxMeta
    ensures r != NotEcmaArray
    ensures r.Parsed? ==> |r.entries| == count
    decreases count
  {
    if count == 0 then Parsed([], at)
    else
      match EntryAt(meta, at, reading)
      case None => Truncated
      case Some((e, next)) => Prepend([e], EntriesFrom(meta, next, count - 1, reading))
  }

  /** The whole walk: the ECMA array marker at offset 13, the 32-bit entry
      count after it, then the entries. */
  function MetaOf(meta: seq<byte>, reading: Reading): (r: Meta)
    requires |meta| < MaxMeta
    ensures r == NotEcmaArray <==> ArrayMarkerAt < |meta| && meta[ArrayMarkerAt] != EcmaArrayMarker
    ensures r.Parsed? ==> FirstEntryAt <= |meta| && |r.entries| == ReadLength(meta, ArrayMarkerAt + 1, 4, reading)
  {
    if |meta| <= ArrayMarkerAt then Truncated
    else if meta[ArrayMarkerAt] != EcmaArrayMarker then NotEcmaArray
    else if |meta| < FirstEntryAt then Truncated
    else EntriesFrom(meta, FirstEntryAt, ReadLength(meta, ArrayMarkerAt + 1, 4, reading), reading)
  }

  lemma PrependSnoc(entries: seq<Entry>, e: Entry, m: Meta)
    ensures Prepend(entries, Prepend([e], m)) == Prepend(entries + [e], m)
  {
    if m.Parsed? {
      assert entries + ([e] + m.entries) == (entries + [e]) + m.entries;
    }
  }

  lemma PrependNothing(m: Meta)
    ensures Prepend([], m) == m
  {
    if m.Parsed? {
      assert [] + m.entries == m.entries;
    }
  }

  /** One step of the walk. */
  lemma EntriesFromStep(meta: seq<byte>, at: nat, count: nat, reading: Reading)
    requires |meta| < MaxMeta && count > 0
    ensures EntryAt(meta, at, reading).None? ==> EntriesFrom(meta, at, count, reading) == Truncated
    ensures EntryAt(meta, at, reading).Some? ==>
      var (e, next) := EntryAt(meta, at, reading).value;
      EntriesFrom(meta, at, count, reading) == Prepend([e], EntriesFrom(meta, next, count - 1, reading))
  {
  }

  lemma EntriesCons(meta: seq<byte>, at: nat, count: nat, e: Entry, next: nat, es: seq<Entry>, all: seq<Entry>, end: nat, reading: Reading)
    requires |meta| < MaxMeta && all == [e] + es
    requires EntryAt(meta, at, reading) == Some((e, next))
    requires EntriesFrom(meta, next, count, reading) == Parsed(es, end)
    ensures EntriesFrom(meta, at, count + 1, reading) == Parsed(all, end)
  {
  }

  /** parseMeta: check the array marker, read the entry count, then walk
      the entries one by one, advancing the offset. */
  method ParseMeta(meta: seq<byte>, reading: Reading) returns (r: Meta)
    requires |meta| < MaxMeta
    ensures r == MetaOf(meta, reading)
  {
    if |meta| <= ArrayMarkerAt {
      return Truncated;
    }
    if meta[ArrayMarkerAt] != EcmaArrayMarker {
      return NotEcmaArray;
    }
    if |meta| < FirstEntryAt {
      return Truncated;
    }
    var arrayLen := ReadLength(meta, ArrayMarkerAt + 1, 4, reading);
    r := WalkEntries(meta, FirstEntryAt, arrayLen, reading);
  }

  /** The entry loop of parseMeta. */
  method WalkEntries(meta: seq<byte>, at: nat, count: nat, reading: Reading) returns (r: Meta)
    requires |meta| < MaxMeta
    ensures r == EntriesFrom(meta, at, count, reading)
  {
    var offset := at;
    var entries: seq<Entry> := [];
    PrependNothing(EntriesFrom(meta, at, count, reading));
    for i := 0 to count
      invariant EntriesFrom(meta, at, count, reading) == Prepend(entries, EntriesFrom(meta, offset, count - i, reading))
    {
      var step := EntryAt(meta, offset, reading);
      EntriesFromStep(meta, offset, count - i, reading);
      if step.None? {
        return Truncated;
      }
      var e, next := step.value.0, step.value.1;
      PrependSnoc(entries, e, EntriesFrom(meta, next, count - i - 1, reading));
      entries := entries + [e];
      offset := next;
    }
    assert entries + [] == entries;
    return Parsed(entries, offset);
  }

  // An encoder for well-formed arrays, the partner of the walk.

  /** `n` zero bytes: the contents of a string of length `n`. */
  function Zeros(n: nat): seq<byte>
  {
    seq(n, _ => 0)
  }

  /** Values the corrected walk reads back: numbers of eight bytes, string
      lengths that fit their length fields, and markers of no other arm. */
  predicate WellFormedValue(v: Value)
  {
    match v
    case Number(raw) => |raw| == 8
    case Boolean(_) => true
    case Str(len) => len < 0x1_0000
    case LongStr(len) => len < U32
    case Other(m) => m !in {NumberMarker, BooleanMarker, StringMarker, LongStringMarker}
  }

  predicate WellFormed(e: Entry)
  {
    |e.name| < 0x1_0000 && WellFormedValue(e.value)
  }

  function EncodeValue(v: Value): (s: seq<byte>)
    requires WellFormedValue(v)
    ensures |s| > 0
  {
    match v
    case Number(raw) => [NumberMarker] + raw
    case Boolean(flag) => [BooleanMarker, if flag then 1 else 0]
    case Str(len) => [StringMarker] + Flv.ToBigEndian(len, 2) + Zeros(len)
    case LongStr(len) => [LongStringMarker] + Flv.ToBigEndian(len, 4) + Zeros(len)
    case Other(m) => [m]
  }

  function EncodeEntry(e: Entry): (s: seq<byte>)
    requires WellFormed(e)
  {
    Flv.ToBigEndian(|e.name|, 2) + e.name + EncodeValue(e.value)
  }

  function EncodeEntries(es: seq<Entry>): seq<byte>
    requires forall i :: 0 <= i < |es| ==> WellFormed(es[i])
  {
    if es == [] then [] else EncodeEntry(es[0]) + EncodeEntries(es[1..])
  }

  /** A script body: 13 header bytes, the array marker, the count, the
      entries. */
  function EncodeMeta(header: seq<byte>, es: seq<Entry>): (s: seq<byte>)
    requires |header| == ArrayMarkerAt && |es| < U32
    requires forall i :: 0 <= i < |es| ==> WellFormed(es[i])
  {
    header + [EcmaArrayMarker] + Flv.ToBigEndian(|es|, 4) + EncodeEntries(es)
  }

  /** A piece of a piece of the buffer. */
  lemma SliceOf(meta: seq<byte>, at: nat, enc: seq<byte>, i: nat, j: nat)
    requires at + |enc| <= |meta| && meta[at..at + |enc|] == enc
    requires i <= j <= |enc|
    ensures meta[at + i..at + j] == enc[i..j]
  {
    forall k | 0 <= k < j - i
      ensures meta[at + i..at + j][k] == enc[i..j][k]
    {
      assert meta[at..at + |enc|][i + k] == enc[i + k];
    }
  }

  /** A length field written big-endian reads back. */
  lemma LengthFieldAt(meta: seq<byte>, at: nat, n: nat, width: nat)
    requires (width == 2 && n < 0x1_0000) || (width == 4 && n < U32)
    requires at + width <= |meta|
    requires meta[at..at + width] == Flv.ToBigEndian(n, width)
    ensures ReadLength(meta, at, width, Corrected) == n
  {
    Flv.Pow2Facts();
    Flv.BigEndianRoundTrip(n, width);
    BigEndianAtIs(meta, at, width);
  }

  // The corrected walk reads back each kind of encoded value, its type
  // marker at `markerAt`.

  lemma NumberAt(meta: seq<byte>, markerAt: nat, raw: seq<byte>, next: nat)
    requires |raw| == 8 && next == markerAt + 9 && next <= |meta| < MaxMeta
    requires meta[markerAt..next] == EncodeValue(Number(raw))
    ensures ValueAt(meta, markerAt + 1, meta[markerAt], Corrected) == Some((Number(raw), next))
  {
    var enc := EncodeValue(Number(raw));
    assert meta[markerAt] == enc[0];
    SliceOf(meta, markerAt, enc, 1, 9);
    assert enc[1..9] == raw;
  }

  lemma BooleanAt(meta: seq<byte>, markerAt: nat, flag: bool, next: nat)
    requires next == markerAt + 2 && next <= |meta| < MaxMeta
    requires meta[markerAt..next] == EncodeValue(Boolean(flag))
    ensures ValueAt(meta, markerAt + 1, meta[markerAt], Corrected) == Some((Boolean(flag), next))
  {
    var enc := EncodeValue(Boolean(flag));
    assert meta[markerAt] == enc[0] && meta[markerAt + 1] == enc[1];
  }

  lemma StrAt(meta: seq<byte>, markerAt: nat, len: nat, next: nat)
    requires len < 0x1_0000 && next == markerAt + 3 + len && next <= |meta| < MaxMeta
    requires meta[markerAt..next] == EncodeValue(Str(len))
    ensures ValueAt(meta, markerAt + 1, meta[markerAt], Corrected) == Some((Str(len), next))
  {
    var enc := EncodeValue(Str(len));
    assert meta[markerAt] == enc[0];
    SliceOf(meta, markerAt, enc, 1, 3);
    assert enc[1..3] == Flv.ToBigEndian(len, 2);
    LengthFieldAt(meta, markerAt + 1, len, 2);
  }

  lemma LongStrAt(meta: seq<byte>, markerAt: nat, len: nat, next: nat)
    requires len < U32 && next == markerAt + 5 + len && next <= |meta| < MaxMeta
    requires meta[markerAt..next] == EncodeValue(LongStr(len))
    ensures ValueAt(meta, markerAt + 1, meta[markerAt], Corrected) == Some((LongStr(len), next))
  {
    var enc := EncodeValue(LongStr(len));
    assert meta[markerAt] == enc[0];
    SliceOf(meta, markerAt, enc, 1, 5);
    assert enc[1..5] == Flv.ToBigEndian(len, 4);
    LengthFieldAt(meta, markerAt + 1, len, 4);
  }

  lemma OtherAt(meta: seq<byte>, markerAt: nat, m: byte, next: nat)
    requires m !in {NumberMarker, BooleanMarker, StringMarker, LongStringMarker}
    requires next == markerAt + 1 && next <= |meta| < MaxMeta && meta[markerAt] == m
    ensures ValueAt(meta, markerAt + 1, meta[markerAt], Corrected) == Some((Other(m), next))
  {
  }

  /** The corrected walk reads an encoded value back. */
  lemma ValueAtEncoded(meta: seq<byte>, markerAt: nat, v: Value, next: nat)
    requires WellFormedValue(v) && next == markerAt + |EncodeValue(v)|
    requires next <= |meta| < MaxMeta
    requires meta[markerAt..next] == EncodeValue(v)
    ensures ValueAt(meta, markerAt + 1, meta[markerAt], Corrected) == Some((v, next))
  {
    match v
    case Number(raw) => NumberAt(meta, markerAt, raw, next);
    case Boolean(flag) => BooleanAt(meta, markerAt, flag, next);
    case Str(len) => StrAt(meta, markerAt, len, next);
    case LongStr(len) => LongStrAt(meta, markerAt, len, next);
    case Other(m) =>
      assert meta[markerAt] == meta[markerAt..next][0];
      OtherAt(meta, markerAt, m, next);
  }

  lemma EntryAtParts(meta: seq<byte>, at: nat, e: Entry, next: nat, reading: Reading)
    requires at + 2 + |e.name| < |meta| < MaxMeta
    requires ReadLength(meta, at, 2, reading) == |e.name|
    requires meta[at + 2..at + 2 + |e.name|] == e.name
    requires ValueAt(meta, at + 2 + |e.name| + 1, meta[at + 2 + |e.name|], reading) == Some((e.value, next))
    ensures EntryAt(meta, at, reading) == Some((e, next))
  {
  }

  /** The pieces of an encoded entry in the buffer: its name length, its
      name and its value. */
  lemma EntryPieces(meta: seq<byte>, at: nat, e: Entry, next: nat)
    requires WellFormed(e) && next == at + |EncodeEntry(e)|
    requires next <= |meta| < MaxMeta
    requires meta[at..next] == EncodeEntry(e)
    ensures next == at + 2 + |e.name| + |EncodeValue(e.value)|
    ensures ReadLength(meta, at, 2, Corrected) == |e.name|
    ensures meta[at + 2..at + 2 + |e.name|] == e.name
    ensures meta[at + 2 + |e.name|..next] == EncodeValue(e.value)
  {
    var enc := EncodeEntry(e);
    var nameLen := |e.name|;
    var prefix := Flv.ToBigEndian(nameLen, 2);
    assert enc == prefix + e.name + EncodeValue(e.value);
    SliceOf(meta, at, enc, 0, 2);
    assert enc[0..2] == prefix;
    LengthFieldAt(meta, at, nameLen, 2);
    SliceOf(meta, at, enc, 2, 2 + nameLen);
    assert enc[2..2 + nameLen] == e.name;
    SliceOf(meta, at, enc, 2 + nameLen, |enc|);
    assert enc[2 + nameLen..] == EncodeValue(e.value);
  }

  /** Entry `e` is encoded in the buffer from offset `at` to offset `next`. */
  predicate EntryPlaced(meta: seq<byte>, at: nat, e: Entry, next: nat)
  {
    && WellFormed(e) && next == at + |EncodeEntry(e)|
    && next <= |meta| < MaxMeta && meta[at..next] == EncodeEntry(e)
  }

  /** The buffer holds `bytes` from offset `at` on. */
  predicate BytesAt(meta: seq<byte>, at: nat, bytes: seq<byte>)
  {
    at + |bytes| <= |meta| < MaxMeta && meta[at..at + |bytes|] == bytes
  }

  /** The entries `es` are encoded in the buffer from offset `at` on. */
  predicate EntriesPlaced(meta: seq<byte>, at: nat, es: seq<Entry>)
  {
    && (forall i :: 0 <= i < |es| ==> WellFormed(es[i]))
    && BytesAt(meta, at, EncodeEntries(es))
  }

  /** The corrected walk reads an encoded entry back, wherever it sits in
      the buffer. */
  lemma EntryAtEncoded(meta: seq<byte>, at: nat, e: Entry, next: nat)
    requires EntryPlaced(meta, at, e, next)
    ensures EntryAt(meta, at, Corrected) == Some((e, next))
  {
    EntryPieces(meta, at, e, next);
    ValueAtEncoded(meta, at + 2 + |e.name|, e.value, next);
    EntryAtParts(meta, at, e, next, Corrected);
  }

  /** A buffer holding `a + b` at `at` holds `a` there and `b` right after. */
  lemma SplitPlaced(meta: seq<byte>, at: nat, a: seq<byte>, b: seq<byte>)
    requires BytesAt(meta, at, a + b)
    ensures BytesAt(meta, at, a)
    ensures BytesAt(meta, at + |a|, b)
  {
    SliceOf(meta, at, a + b, 0, |a|);
    assert (a + b)[0..|a|] == a;
    SliceOf(meta, at, a + b, |a|, |a + b|);
    assert (a + b)[|a|..|a + b|] == b;
  }

  /** The encoding of a non-empty array starts with that of its first entry. */
  lemma EncodeEntriesCons(es: seq<Entry>)
    requires es != [] && forall i :: 0 <= i < |es| ==> WellFormed(es[i])
    ensures EncodeEntries(es) == EncodeEntry(es[0]) + EncodeEntries(es[1..])
  {
  }

  /** A non-empty sequence is its first element followed by the rest. */
  lemma ConsSplit<T>(s: seq<T>)
    requires s != []
    ensures s == [s[0]] + s[1..]
  {
  }

  /** A non-empty array placed in the buffer has its first entry placed at
      the same offset ... */
  lemma HeadPlaced(meta: seq<byte>, at: nat, es: seq<Entry>, next: nat)
    requires es != [] && EntriesPlaced(meta, at, es) && next == at + |EncodeEntry(es[0])|
    ensures EntryPlaced(meta, at, es[0], next)
  {
    var head, tail := EncodeEntry(es[0]), EncodeEntries(es[1..]);
    EncodeEntriesCons(es);
    assert BytesAt(meta, at, head + tail);
    SplitPlaced(meta, at, head, tail);
  }

  /** ... and the rest of the array placed right after that entry, ending
      where the whole array ends. */
  lemma TailPlaced(meta: seq<byte>, at: nat, es: seq<Entry>, next: nat, end: nat)
    requires es != [] && EntriesPlaced(meta, at, es) && next == at + |EncodeEntry(es[0])|
    requires end == at + |EncodeEntries(es)|
    ensures EntriesPlaced(meta, next, es[1..])
    ensures end == next + |EncodeEntries(es[1..])|
  {
    TailWellFormed(es);
    var head, tail := EncodeEntry(es[0]), EncodeEntries(es[1..]);
    EncodeEntriesCons(es);
    assert BytesAt(meta, at, head + tail);
    SplitPlaced(meta, at, head, tail);
  }

  lemma TailWellFormed(es: seq<Entry>)
    requires es != [] && forall i :: 0 <= i < |es| ==> WellFormed(es[i])
    ensures forall i :: 0 <= i < |es[1..]| ==> WellFormed(es[1..][i])
  {
    forall i | 0 <= i < |es[1..]|
      ensures WellFormed(es[1..][i])
    {
      assert es[1..][i] == es[i + 1];
    }
  }

  /** The corrected walk reads back every entry of an encoded array. */
  lemma {:induction false} EntriesEncoded(meta: seq<byte>, at: nat, es: seq<Entry>, end: nat)
    decreases |es|
    requires EntriesPlaced(meta, at, es) && end == at + |EncodeEntries(es)|
    ensures EntriesFrom(meta, at, |es|, Corrected) == Parsed(es, end)
  {
    if es == [] {
      assert EncodeEntries(es) == [];
    } else {
      var rest, next := es[1..], at + |EncodeEntry(es[0])|;
      HeadPlaced(meta, at, es, next);
      TailPlaced(meta, at, es, next, end);
      ConsSplit(es);
      EntriesEncoded(meta, next, rest, end);
      EncodedStep(meta, at, es[0], next, rest, es, end);
    }
  }

  /** The inductive step of EntriesEncoded: an encoded entry in front of
      entries the walk reads back is read back with them. */
  lemma EncodedStep(meta: seq<byte>, at: nat, e: Entry, next: nat, rest: seq<Entry>, all: seq<Entry>, end: nat)
    requires EntryPlaced(meta, at, e, next) && all == [e] + rest
    requires EntriesFrom(meta, next, |rest|, Corrected) == Parsed(rest, end)
    ensures EntriesFrom(meta, at, |all|, Corrected) == Parsed(all, end)
  {
    EntryAtEncoded(meta, at, e, next);
    var n := |rest|;
    assert n + 1 == |all|;
    EntriesCons(meta, at, n, e, next, rest, all, end, Corrected);
  }

  /** Round trip: the corrected walk of an encoded script body, followed by
      any bytes at all, yields exactly the encoded entries and stops at the
      end of the encoding. */
  lemma ParseEncoded(header: seq<byte>, es: seq<Entry>, rest: seq<byte>)
    requires |header| == ArrayMarkerAt && |es| < U32
    requires forall i :: 0 <= i < |es| ==> WellFormed(es[i])
    requires |EncodeMeta(header, es)| + |rest| < MaxMeta
    ensures MetaOf(EncodeMeta(header, es) + rest, Corrected) == Parsed(es, |EncodeMeta(header, es)|)
  {
    var meta := EncodeMeta(header, es) + rest;
    MetaPieces(header, es, rest);
    EntriesEncoded(meta, FirstEntryAt, es, |EncodeMeta(header, es)|);
  }

  /** The pieces of an encoded script body in the buffer: the array marker,
      the entry count and the entries. */
  lemma MetaPieces(header: seq<byte>, es: seq<Entry>, rest: seq<byte>)
    requires |header| == ArrayMarkerAt && |es| < U32
    requires forall i :: 0 <= i < |es| ==> WellFormed(es[i])
    requires |EncodeMeta(header, es)| + |rest| < MaxMeta
    ensures |EncodeMeta(header, es)| == FirstEntryAt + |EncodeEntries(es)|
    ensures (EncodeMeta(header, es) + rest)[ArrayMarkerAt] == EcmaArrayMarker
    ensures ReadLength(EncodeMeta(header, es) + rest, ArrayMarkerAt + 1, 4, Corrected) == |es|
    ensures EntriesPlaced(EncodeMeta(header, es) + rest, FirstEntryAt, es)
  {
    var meta := EncodeMeta(header, es) + rest;
    var body := EncodeEntries(es);
    var count := Flv.ToBigEndian(|es|, 4);
    assert meta == header + [EcmaArrayMarker] + count + body + rest;
    assert meta[ArrayMarkerAt] == EcmaArrayMarker;
    assert meta[ArrayMarkerAt + 1..FirstEntryAt] == count;
    LengthFieldAt(meta, ArrayMarkerAt + 1, |es|, 4);
    assert meta[FirstEntryAt..FirstEntryAt + |body|] == body;
    assert BytesAt(meta, FirstEntryAt, body);
  }

  // Where the parser as written and the AMF0 format part ways.

  /** As written, the Boolean arm tests the offset instead of the byte at
      it, so a false flag reads as true. */
  lemma BooleanAsWritten(meta: seq<byte>, valueAt: nat)
    requires 0 < valueAt < |meta| < MaxMeta && meta[valueAt] == 0
    ensures ValueAt(meta, valueAt, BooleanMarker, AsWritten) == Some((Boolean(true), valueAt + 1))
    ensures ValueAt(meta, valueAt, BooleanMarker, Corrected) == Some((Boolean(false), valueAt + 1))
  {
  }

  /** As written, the Long String arm waits for marker 0x12, so a Long
      String (0x0C) is not skipped: its length bytes are walked as the next
      entry. */
  lemma LongStringAsWritten(meta: seq<byte>, valueAt: nat)
    requires valueAt + 4 <= |meta| < MaxMeta
    ensures ValueAt(meta, valueAt, LongStringMarker, AsWritten) == Some((Other(LongStringMarker), valueAt))
    ensures ValueAt(meta, valueAt, LongStringMarker, Corrected).value.0 == LongStr(ReadLength(meta, valueAt, 4, Corrected))
  {
  }

  /** As written, a length byte at or above 0x80 is sign-extended: a
      two-byte name length of 0x0080 reads as 0xFFFFFF80. */
  lemma LengthSignExtends()
    ensures ReadLength([0x00, 0x80], 0, 2, AsWritten) == 0xFFFF_FF80
    ensures ReadLength([0x00, 0x80], 0, 2, Corrected) == 0x80
  {
    var bs: seq<byte> := [0x00, 0x80];
    assert LengthAsWritten(bs, 0, 1) == 0;
    assert BigEndianAt(bs, 0, 1) == 0;
  }

  /** While every length byte is below 0x80, the two readings agree. */
  lemma {:induction false} LengthsAgree(meta: seq<byte>, at: nat, width: nat)
    requires at + width <= |meta| && width <= 4
    requires forall j :: at <= j < at + width ==> meta[j] < 0x80
    ensures ReadLength(meta, at, width, AsWritten) == ReadLength(meta, at, width, Corrected)
  {
    if width > 0 {
      LengthsAgree(meta, at, width - 1);
      BigEndianAtBound(meta, at, width - 1);
      Flv.Pow2Facts();
      Flv.Pow2Monotone(8 * (width - 1), 24);
      assert Flv.Pow2(24) == 0x100_0000 by {
        Flv.Pow2Byte(16);
      }
    }
  }

  // While no length byte reaches 0x80, the walk as written reads an
  // encoding of numbers and strings back as well.

  /** An entry the walk as written reads back: a number, or a string
      shorter than 0x80 bytes, under a name shorter than 0x80 bytes. */
  predicate Plain(e: Entry)
  {
    && |e.name| < 0x80
    && (e.value.Number? || (e.value.Str? && e.value.length < 0x80))
  }

  /** A length field that reads below 0x80 has every byte below 0x80. */
  lemma {:induction false} SmallLengthBytes(meta: seq<byte>, at: nat, width: nat)
    requires at + width <= |meta| && BigEndianAt(meta, at, width) < 0x80
    ensures forall j :: at <= j < at + width ==> meta[j] < 0x80
  {
    if width > 0 {
      SmallLengthBytes(meta, at, width - 1);
    }
  }

  /** Both readings agree on a length field that reads below 0x80. */
  lemma SmallLengthAgrees(meta: seq<byte>, at: nat, width: nat)
    requires at + width <= |meta| && width <= 4
    requires ReadLength(meta, at, width, Corrected) < 0x80
    ensures ReadLength(meta, at, width, AsWritten) == ReadLength(meta, at, width, Corrected)
  {
    SmallLengthBytes(meta, at, width);
    LengthsAgree(meta, at, width);
  }

  /** The walk as written reads back an encoded number, or an encoded
      string shorter than 0x80 bytes. */
  lemma PlainValueAt(meta: seq<byte>, markerAt: nat, v: Value, next: nat)
    requires v.Number? || (v.Str? && v.length < 0x80)
    requires WellFormedValue(v) && next == markerAt + |EncodeValue(v)|
    requires next <= |meta| < MaxMeta
    requires meta[markerAt..next] == EncodeValue(v)
    ensures ValueAt(meta, markerAt + 1, meta[markerAt], AsWritten) == Some((v, next))
  {
    ValueAtEncoded(meta, markerAt, v, next);
    assert meta[markerAt] == EncodeValue(v)[0];
    if v.Str? {
      SmallLengthAgrees(meta, markerAt + 1, 2);
    }
  }

  /** The walk as written reads a plain encoded entry back. */
  lemma PlainEntryAt(meta: seq<byte>, at: nat, e: Entry, next: nat)
    requires EntryPlaced(meta, at, e, next) && Plain(e)
    ensures EntryAt(meta, at, AsWritten) == Some((e, next))
  {
    EntryPieces(meta, at, e, next);
    SmallLengthAgrees(meta, at, 2);
    PlainValueAt(meta, at + 2 + |e.name|, e.value, next);
    EntryAtParts(meta, at, e, next, AsWritten);
  }

  /** The walk as written reads back every entry of an encoded array of
      plain entries. */
  lemma {:induction false} PlainEntriesEncoded(meta: seq<byte>, at: nat, es: seq<Entry>, end: nat)
    decreases |es|
    requires EntriesPlaced(meta, at, es) && end == at + |EncodeEntries(es)|
    requires forall i :: 0 <= i < |es| ==> Plain(es[i])
    ensures EntriesFrom(meta, at, |es|, AsWritten) == Parsed(es, end)
  {
    if es == [] {
      assert EncodeEntries(es) == [];
    } else {
      var rest, next := es[1..], at + |EncodeEntry(es[0])|;
      HeadPlaced(meta, at, es, next);
      TailPlaced(meta, at, es, next, end);
      forall i | 0 <= i < |rest|
        ensures Plain(rest[i])
      {
        assert rest[i] == es[i + 1];
      }
      ConsSplit(es);
      PlainEntriesEncoded(meta, next, rest, end);
      PlainEntryAt(meta, at, es[0], next);
      EntriesCons(meta, at, |rest|, es[0], next, rest, es, end, AsWritten);
    }
  }

  /** Round trip as written: the parser as written reads back an encoded
      script body of fewer than 0x80 plain entries, followed by any bytes
      at all, and stops at the end of the encoding. */
  lemma ParseEncodedAsWritten(header: seq<byte>, es: seq<Entry>, rest: seq<byte>)
    requires |header| == ArrayMarkerAt && |es| < 0x80
    requires forall i :: 0 <= i < |es| ==> WellFormed(es[i]) && Plain(es[i])
    requires |EncodeMeta(header, es)| + |rest| < MaxMeta
    ensures MetaOf(EncodeMeta(header, es) + rest, AsWritten) == Parsed(es, |EncodeMeta(header, es)|)
  {
    var meta := EncodeMeta(header, es) + rest;
    MetaPieces(header, es, rest);
    SmallLengthAgrees(meta, ArrayMarkerAt + 1, 4);
    PlainEntriesEncoded(meta, FirstEntryAt, es, |EncodeMeta(header, es)|);
  }
}
