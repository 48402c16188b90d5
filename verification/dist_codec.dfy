/** The later revision of the codec, as built into dist/index.js: a
    version-01 header that carries a CRC-32 of the payload, an offset search
    driven by a byte histogram, a decoder that verifies the checksum and
    reads `\uXXXX` sequences, and a fix-up for a body that would end in a
    backslash. It shares the override table and the byte, hex and unshift
    helpers of Common with the first revision, and nothing else. */
module DistCodec {
  import opened Common
  import HtmlOverrides
  import Crc32

  /** The default yEnc offset, used when no header names one. */
  const DefaultOffset: Byte := 42

  /** The escape marker `=`. */
  const Marker: Unit := 61

  /** The backslash, `\`. */
  const Backslash: Unit := 92

  /** The magic tag, `"dynEncode"`. */
  const Magic: seq<Unit> := [100, 121, 110, 69, 110, 99, 111, 100, 101]

  /** The version field this revision writes, `"01"`. */
  const Version1: seq<Unit> := [48, 49]

  /** Tag, version, offset and eight checksum digits. */
  const HeaderLength := 21

  /* ---------------------------------------------------------------------
     Little-endian int32 and hex packing
     --------------------------------------------------------------------- */

  /** ECMAScript's ToInt32: the value modulo 2^32, read as two's complement. */
  function ToInt32(x: int): (r: int)
    ensures -0x8000_0000 <= r < 0x8000_0000
    ensures (r - x) % 0x1_0000_0000 == 0
  {
    var u := x % 0x1_0000_0000;
    if u < 0x8000_0000 then u else u - 0x1_0000_0000
  }

  /** `setInt32(0, x, true)` on a four-byte buffer: the bytes of ToInt32(x),
      least significant first. */
  function Int32Bytes(x: int): (r: seq<Byte>)
    ensures |r| == 4
  {
    var u := x % 0x1_0000_0000;
    [u % 0x100, u / 0x100 % 0x100, u / 0x1_0000 % 0x100, u / 0x100_0000]
  }

  /** `getInt32(0, true)`: four bytes, least significant first, as a signed
      32-bit integer. */
  function ReadInt32(b: seq<Byte>): (r: int)
    requires |b| == 4
    ensures -0x8000_0000 <= r < 0x8000_0000
  {
    var u := b[0] as int + 0x100 * (b[1] as int) + 0x1_0000 * (b[2] as int) + 0x100_0000 * (b[3] as int);
    if u < 0x8000_0000 then u else u - 0x1_0000_0000
  }

  /** Peeling the low byte off a number. */
  lemma LowByte(v: nat)
    ensures v == v % 0x100 + 0x100 * (v / 0x100)
    ensures v / 0x100 / 0x100 == v / 0x1_0000
    ensures v / 0x1_0000 / 0x100 == v / 0x100_0000
  {
  }

  /** Reading back the stored bytes yields ToInt32 of the stored number. */
  lemma Int32RoundTrip(x: int)
    ensures ReadInt32(Int32Bytes(x)) == ToInt32(x)
  {
    var u := x % 0x1_0000_0000;
    LowByte(u);
    LowByte(u / 0x100);
    LowByte(u / 0x1_0000);
  }

  /** A number already in the int32 range survives the store unchanged. */
  lemma Int32Exact(x: int)
    requires -0x8000_0000 <= x < 0x8000_0000
    ensures ReadInt32(Int32Bytes(x)) == x
  {
    Int32RoundTrip(x);
  }

  /** Each byte as two lower-case hex digits, in order. */
  function HexBytes(b: seq<Byte>): (r: seq<Unit>)
    ensures |r| == 2 * |b| && IsHex(r)
  {
    if |b| == 0 then []
    else
      var head := Hex2(b[0]);
      var tail := HexBytes(b[1..]);
      assert forall i :: |head| <= i < |head + tail| ==> (head + tail)[i] == tail[i - |head|];
      head + tail
  }

  /** The source's byte reader: `parseInt` on each pair of digits, stored
      in a `Uint8Array`. */
  function UnhexBytes(s: seq<Unit>): (r: seq<Byte>)
    requires IsHex(s) && |s| % 2 == 0
    ensures |r| == |s| / 2
  {
    if |s| == 0 then []
    else [ParseHex(s[..2])] + UnhexBytes(s[2..])
  }

  /** The byte reader inverts the hex writer. */
  lemma {:induction false} UnhexHexBytes(b: seq<Byte>)
    ensures UnhexBytes(HexBytes(b)) == b
  {
    if |b| > 0 {
      var s := HexBytes(b);
      assert s[..2] == Hex2(b[0]) && s[2..] == HexBytes(b[1..]);
      UnhexHexBytes(b[1..]);
    }
  }

  /* ---------------------------------------------------------------------
     dynamicEncode: escaping
     --------------------------------------------------------------------- */

  /** The `stringWrapper` argument: the quote the output will sit inside. */
  datatype Quote = DoubleQuote | SingleQuote | Backtick

  /** The `i(t, e)` predicate of each quote on shifted values; `next` is
      `None` after the last byte, where the source compares `NaN`. In a
      template literal a backslash is escaped only before `U` or `u`. */
  predicate ShouldEscape(w: Quote, b1: int, next: Option<int>) {
    match w
    case DoubleQuote => b1 in {0, 8, 9, 10, 11, 12, 13, 34, 92, 61}
    case SingleQuote => b1 in {0, 8, 9, 10, 11, 12, 13, 39, 92, 61}
    case Backtick =>
      || b1 == 13
      || (b1 == 36 && next == Some(123))
      || b1 == 61
      || (b1 == 92 && (next == Some(85) || next == Some(117)))
      || b1 == 96
  }

  /** A byte moved by the offset, as stored in a code unit. */
  function Shift(b: Byte, o: Byte): Byte {
    (b + o) % 256
  }

  /** Whether the byte at i is written as a pair under offset o. */
  predicate EscapeAt(bytes: seq<Byte>, o: Byte, w: Quote, i: nat)
    requires i < |bytes|
  {
    ShouldEscape(w, Shift(bytes[i], o), if i + 1 < |bytes| then Some(Shift(bytes[i + 1], o)) else None)
  }

  /** The number of positions from i on that are written as a pair. */
  function Escapes(bytes: seq<Byte>, o: Byte, w: Quote, i: nat): nat
    requires i <= |bytes|
    decreases |bytes| - i
  {
    if i == |bytes| then 0
    else (if EscapeAt(bytes, o, w, i) then 1 else 0) + Escapes(bytes, o, w, i + 1)
  }

  /* ---------------------------------------------------------------------
     dynamicEncode: the histogram search
     --------------------------------------------------------------------- */

  /** The array `a`: the shifted values whose count the search minimises. */
  function Hazards(w: Quote): (r: seq<int>)
    ensures forall k :: 0 <= k < |r| ==> 0 <= r[k] < 256
    ensures forall j, k :: 0 <= j < k < |r| ==> r[j] != r[k]
  {
    match w
    case DoubleQuote => [0, 8, 9, 10, 11, 12, 13, 34, 92, 61]
    case SingleQuote => [0, 8, 9, 10, 11, 12, 13, 39, 92, 61]
    case Backtick => [13, 61, 96]
  }

  /** The cost list `a` against the predicate `i`: every value of `a` is
      escaped, and the only escapes `a` leaves out are the template's `$`
      and backslash, which depend on the next byte. */
  lemma HazardsEscaped(w: Quote, b1: int, next: Option<int>)
    ensures b1 in Hazards(w) ==> ShouldEscape(w, b1, next)
    ensures ShouldEscape(w, b1, next) && b1 !in Hazards(w) ==> w == Backtick && (b1 == 36 || b1 == 92)
  {
  }

  /** The array `l`: differences to the next byte that count a byte twice. */
  function Residues(w: Quote): seq<int> {
    if w == Backtick then [7, 205, 231] else []
  }

  /** What the byte at i adds to its histogram bucket: one, plus one if its
      difference to the next byte, modulo 256, is a residue. After the last
      byte the source computes `NaN | 0`, which is 0 and is no residue. */
  function Weight(bytes: seq<Byte>, w: Quote, i: nat): (r: nat)
    requires i < |bytes|
    ensures w != Backtick ==> r == 1
  {
    var d := if i + 1 < |bytes| then (bytes[i] as int - bytes[i + 1]) % 256 else 0;
    1 + (if d in Residues(w) then 1 else 0)
  }

  /** Bucket b of the histogram `g`, over positions i onwards. */
  function Hist(bytes: seq<Byte>, w: Quote, b: int, i: nat): nat
    requires i <= |bytes|
    decreases |bytes| - i
  {
    if i == |bytes| then 0
    else (if bytes[i] == b then Weight(bytes, w, i) else 0) + Hist(bytes, w, b, i + 1)
  }

  /** The sum over hz of the buckets that offset t moves onto them. */
  function CostOver(bytes: seq<Byte>, w: Quote, t: Byte, hz: seq<int>, i: nat): nat
    requires i <= |bytes|
  {
    if |hz| == 0 then 0
    else Hist(bytes, w, (hz[0] - t) % 256, i) + CostOver(bytes, w, t, hz[1..], i)
  }

  /** The cost the search assigns to offset t. */
  function Cost(bytes: seq<Byte>, w: Quote, t: Byte): nat {
    CostOver(bytes, w, t, Hazards(w), 0)
  }

  /** The search loop from offset t on, with `best` the offset kept so far:
      an offset replaces it only when strictly cheaper, so the lowest of the
      cheapest offsets wins. */
  function SearchFrom(bytes: seq<Byte>, w: Quote, t: nat, best: Byte): (r: Byte)
    requires 0 < t <= 256 && best < t
    requires forall p :: 0 <= p < t ==> Cost(bytes, w, best) <= Cost(bytes, w, p)
    requires forall p :: 0 <= p < best ==> Cost(bytes, w, best) < Cost(bytes, w, p)
    ensures forall p :: 0 <= p < 256 ==> Cost(bytes, w, r) <= Cost(bytes, w, p)
    ensures forall p :: 0 <= p < r ==> Cost(bytes, w, r) < Cost(bytes, w, p)
    decreases 256 - t
  {
    if t == 256 then best
    else if Cost(bytes, w, t) < Cost(bytes, w, best) then SearchFrom(bytes, w, t + 1, t)
    else SearchFrom(bytes, w, t + 1, best)
  }

  /** The offset `dynamicEncode` picks: the lowest one of least cost. (The
      source starts from an infinite best cost, so offset 0 is always taken
      first.) */
  function BestOffset(bytes: seq<Byte>, w: Quote): (r: Byte)
    ensures forall p :: 0 <= p < 256 ==> Cost(bytes, w, r) <= Cost(bytes, w, p)
    ensures forall p :: 0 <= p < r ==> Cost(bytes, w, r) < Cost(bytes, w, p)
  {
    SearchFrom(bytes, w, 1, 0)
  }

  /** How many entries of hz offset t moves byte x onto. */
  function Matches(hz: seq<int>, x: Byte, t: Byte): nat {
    if |hz| == 0 then 0
    else (if x == (hz[0] - t) % 256 then 1 else 0) + Matches(hz[1..], x, t)
  }

  /** Over distinct values, byte x is counted once exactly when its
      shifted value is one of them. */
  lemma {:induction false} MatchesOnce(hz: seq<int>, x: Byte, t: Byte)
    requires forall k :: 0 <= k < |hz| ==> 0 <= hz[k] < 256
    requires forall j, k :: 0 <= j < k < |hz| ==> hz[j] != hz[k]
    ensures Matches(hz, x, t) == if Shift(x, t) in hz then 1 else 0
  {
    if |hz| > 0 {
      MatchesOnce(hz[1..], x, t);
      assert (x == (hz[0] - t) % 256) == (Shift(x, t) == hz[0]);
      assert Shift(x, t) in hz <==> Shift(x, t) == hz[0] || Shift(x, t) in hz[1..] by {
        assert hz == [hz[0]] + hz[1..];
      }
      if Shift(x, t) == hz[0] {
        assert hz[0] !in hz[1..];
      }
    }
  }

  /** Taking the byte at i out of every bucket the cost reads. */
  lemma {:induction false} CostOverStep(bytes: seq<Byte>, w: Quote, t: Byte, hz: seq<int>, i: nat)
    requires i < |bytes|
    ensures CostOver(bytes, w, t, hz, i) == Matches(hz, bytes[i], t) * Weight(bytes, w, i) + CostOver(bytes, w, t, hz, i + 1)
  {
    if |hz| > 0 {
      CostOverStep(bytes, w, t, hz[1..], i);
    }
  }

  /** Past the last byte every bucket is empty. */
  lemma {:induction false} CostOverEmpty(bytes: seq<Byte>, w: Quote, t: Byte, hz: seq<int>)
    ensures CostOver(bytes, w, t, hz, |bytes|) == 0
  {
    if |hz| > 0 {
      CostOverEmpty(bytes, w, t, hz[1..]);
    }
  }

  /** In a quoted string every byte weighs one, so the cost of offset t
      from position i is the number of bytes written as pairs from there. */
  lemma {:induction false} CostCountsEscapes(bytes: seq<Byte>, w: Quote, t: Byte, i: nat)
    requires w != Backtick && i <= |bytes|
    ensures CostOver(bytes, w, t, Hazards(w), i) == Escapes(bytes, t, w, i)
    decreases |bytes| - i
  {
    if i < |bytes| {
      CostOverStep(bytes, w, t, Hazards(w), i);
      MatchesOnce(Hazards(w), bytes[i], t);
      CostCountsEscapes(bytes, w, t, i + 1);
      assert EscapeAt(bytes, t, w, i) <==> Shift(bytes[i], t) in Hazards(w);
    } else {
      CostOverEmpty(bytes, w, t, Hazards(w));
    }
  }

  /** For `"` and `'` the histogram cost of an offset is exactly the number
      of escapes the body will hold, so the search finds the shortest
      body. */
  lemma CostIsEscapes(bytes: seq<Byte>, w: Quote, t: Byte)
    requires w != Backtick
    ensures Cost(bytes, w, t) == Escapes(bytes, t, w, 0)
  {
    CostCountsEscapes(bytes, w, t, 0);
  }

  /** For `"` and `'` the chosen offset gives the shortest output: no
      offset writes fewer pairs. */
  lemma QuotedShortest(bytes: seq<Byte>, w: Quote, fix: Unit, p: Byte)
    requires w != Backtick
    ensures |EncodeWith(bytes, w, fix)| <= HeaderLength + |bytes| + Escapes(bytes, p, w, 0)
  {
    var o := BestOffset(bytes, w);
    CostIsEscapes(bytes, w, o);
    CostIsEscapes(bytes, w, p);
    QuotedNeverTrailing(bytes, o, w);
  }

  /** In a template literal the cost does not count the `${` the body
      escapes: for the bytes of `${` offset 0 costs nothing, yet writes a
      pair. */
  lemma BacktickCostMissesTemplate(bytes: seq<Byte>)
    requires bytes == [36, 123]
    ensures Cost(bytes, Backtick, 0) == 0
    ensures Escapes(bytes, 0, Backtick, 0) == 1
  {
    var hz := Hazards(Backtick);
    CostOverStep(bytes, Backtick, 0, hz, 0);
    CostOverStep(bytes, Backtick, 0, hz, 1);
    CostOverEmpty(bytes, Backtick, 0, hz);
    MatchesOnce(hz, 36, 0);
    MatchesOnce(hz, 123, 0);
    assert EscapeAt(bytes, 0, Backtick, 0) && !EscapeAt(bytes, 0, Backtick, 1);
    assert Escapes(bytes, 0, Backtick, 2) == 0;
    assert Escapes(bytes, 0, Backtick, 1) == 0;
  }

  /* ---------------------------------------------------------------------
     dynamicEncode: header and body
     --------------------------------------------------------------------- */

  /** What the body loop pushes for the byte at i: the shifted value, or
      `=` and the shifted value plus 64. */
  function Token(bytes: seq<Byte>, o: Byte, w: Quote, i: nat): (r: seq<Unit>)
    requires i < |bytes|
  {
    var b1 := Shift(bytes[i], o);
    if EscapeAt(bytes, o, w, i) then [Marker, (b1 + 64) % 256] else [b1]
  }

  /** The body loop from position i on. */
  function EmitFrom(bytes: seq<Byte>, o: Byte, w: Quote, i: nat): (r: seq<Unit>)
    requires i <= |bytes|
    ensures |r| == |bytes| - i + Escapes(bytes, o, w, i)
    decreases |bytes| - i
  {
    if i == |bytes| then [] else Token(bytes, o, w, i) + EmitFrom(bytes, o, w, i + 1)
  }

  /** The fix-up's test: the last element pushed is the single unit `\`. */
  predicate Trailing(bytes: seq<Byte>, o: Byte, w: Quote) {
    |bytes| > 0 && Token(bytes, o, w, |bytes| - 1) == [Backslash]
  }

  /** The second unit of the pair the fix-up writes, as the source computes
      it: the helper receives the string `"\"`, so `t + 64` concatenates,
      `% 256` of that string is `NaN`, and `fromCharCode(NaN)` is unit 0. */
  const WrittenFix: Unit := 0

  /** The second unit the helper writes for the value 92, `(92 + 64) % 256`. */
  const IntendedFix: Unit := 156

  /** The body: the pushed tokens, with a final lone `\` popped and
      replaced by `=` and `fix`. */
  function Body(bytes: seq<Byte>, o: Byte, w: Quote, fix: Unit): (r: seq<Unit>)
    ensures |r| == |bytes| + Escapes(bytes, o, w, 0) + (if Trailing(bytes, o, w) then 1 else 0)
  {
    var e := EmitFrom(bytes, o, w, 0);
    if Trailing(bytes, o, w) then e[..|e| - 1] + [Marker, fix] else e
  }

  /** Hex digits joined stay hex digits. */
  lemma HexJoin(a: seq<Unit>, b: seq<Unit>)
    requires IsHex(a) && IsHex(b)
    ensures IsHex(a + b)
  {
    assert forall k :: 0 <= k < |a + b| ==> (a + b)[k] == if k < |a| then a[k] else b[k - |a|];
  }

  /** `"dynEncode"`, `"01"`, the offset as two hex digits, and the bytes of
      the checksum, least significant first, as two hex digits each. */
  function HeaderUnits(o: Byte, crc: int): (r: seq<Unit>)
    ensures |r| == HeaderLength && IsHex(r[9..])
  {
    var tail := Version1 + Hex2(o) + HexBytes(Int32Bytes(crc));
    HexJoin(Version1, Hex2(o));
    HexJoin(Version1 + Hex2(o), HexBytes(Int32Bytes(crc)));
    var r := Magic + tail;
    assert r[9..] == tail;
    r
  }

  /** `dynamicEncode` with the given fix-up unit. */
  function EncodeWith(bytes: seq<Byte>, w: Quote, fix: Unit): (r: seq<Unit>)
    ensures |r| >= HeaderLength
    ensures r[..HeaderLength] == HeaderUnits(BestOffset(bytes, w), Crc32.Checksum(bytes))
    ensures r[HeaderLength..] == Body(bytes, BestOffset(bytes, w), w, fix)
    ensures var o := BestOffset(bytes, w);
      |r| == HeaderLength + |bytes| + Escapes(bytes, o, w, 0) + (if Trailing(bytes, o, w) then 1 else 0)
    ensures Tagged(r) && HeaderReadable(r)
    ensures ReadHeader(r) == Ok(Header(BestOffset(bytes, w), HeaderLength, Some(ToInt32(Crc32.Checksum(bytes)))))
  {
    var o := BestOffset(bytes, w);
    HeaderRead(o, Crc32.Checksum(bytes), Body(bytes, o, w, fix));
    HeaderUnits(o, Crc32.Checksum(bytes)) + Body(bytes, o, w, fix)
  }

  /** `dynamicEncode` as written. */
  function DynamicEncode(bytes: seq<Byte>, w: Quote): (r: seq<Unit>)
    ensures |r| >= HeaderLength && r[..HeaderLength] == HeaderUnits(BestOffset(bytes, w), Crc32.Checksum(bytes))
  {
    EncodeWith(bytes, w, WrittenFix)
  }

  /** `dynamicEncode` with the fix-up writing the pair for 92. */
  function DynamicEncodeFixed(bytes: seq<Byte>, w: Quote): (r: seq<Unit>)
    ensures |r| >= HeaderLength && r[..HeaderLength] == HeaderUnits(BestOffset(bytes, w), Crc32.Checksum(bytes))
  {
    EncodeWith(bytes, w, IntendedFix)
  }

  /* ---------------------------------------------------------------------
     decode
     --------------------------------------------------------------------- */

  /** The header test: more than 13 units beginning with the magic tag. */
  predicate Tagged(s: seq<Unit>) {
    |s| > 13 && s[..9] == Magic
  }

  /** The header fields the decoder reads are hex digits. */
  predicate HeaderReadable(s: seq<Unit>) {
    Tagged(s) ==>
      && IsHex(s[9..11])
      && (ParseHex(s[9..11]) <= 1 ==> IsHex(s[11..13]))
      && (ParseHex(s[9..11]) == 1 && |s| >= HeaderLength ==> IsHex(s[13..21]))
  }

  /** Where decoding starts, which offset it removes, and the checksum a
      version-1 header stores. */
  datatype Header = Header(offset: Byte, start: nat, stored: Option<int>)

  /** What makes `decode` throw. */
  datatype Error =
    | HeaderTooShort
    | CrcMismatch(stored: int, computed: int)

  datatype Result<T> = Ok(value: T) | Fail(error: Error)

  /** The header parse: untagged strings decode from unit 0 with offset 42;
      version 0 names the offset and starts at 13; version 1 also stores a
      checksum and starts at 21 (a string too short to hold it makes
      `getInt32` throw); a later version keeps offset 42 and starts at 11. */
  function ReadHeader(s: seq<Unit>): (r: Result<Header>)
    requires HeaderReadable(s)
    ensures r.Ok? ==> r.value.start <= |s|
    ensures r.Ok? && r.value.stored.Some? ==> r.value.start == HeaderLength
    ensures r.Fail? <==> Tagged(s) && ParseHex(s[9..11]) == 1 && |s| < HeaderLength
    ensures r.Ok? ==> (r.value.start == 0 <==> !Tagged(s))
    ensures r.Ok? && Tagged(s) && ParseHex(s[9..11]) == 0 ==> r.value.start == 13
    ensures r.Ok? && Tagged(s) && ParseHex(s[9..11]) > 1 ==> r.value.start == 11
    ensures r.Ok? && (!Tagged(s) || ParseHex(s[9..11]) > 1) ==> r.value.offset == 42
    ensures r.Ok? && Tagged(s) && ParseHex(s[9..11]) <= 1 ==> r.value.offset == ParseHex(s[11..13])
    ensures r.Ok? && r.value.stored.Some? <==> Tagged(s) && ParseHex(s[9..11]) == 1 && |s| >= HeaderLength
    ensures r.Ok? && r.value.stored.Some? ==> r.value.stored.value == ReadInt32(UnhexBytes(s[13..21]))
  {
    if !Tagged(s) then Ok(Header(DefaultOffset, 0, None))
    else
      var version := ParseHex(s[9..11]);
      if version > 1 then Ok(Header(DefaultOffset, 11, None))
      else
        var offset := ParseHex(s[11..13]);
        if version == 0 then Ok(Header(offset, 13, None))
        else if |s| < HeaderLength then Fail(HeaderTooShort)
        else Ok(Header(offset, HeaderLength, Some(ReadInt32(UnhexBytes(s[13..21])))))
  }

  /** A `\uXXXX` or `\UXXXX` sequence starts here: only in a headered
      string, and only with more than five units left. */
  predicate UnicodeAt(t: seq<Unit>, wide: bool) {
    wide && |t| > 5 && t[0] == Backslash && (t[1] == 117 || t[1] == 85)
  }

  /** Every sequence the decoder will read has four hex digits. */
  predicate UnicodeReadable(t: seq<Unit>, wide: bool)
    decreases |t|
  {
    if |t| == 0 then true
    else if UnicodeAt(t, wide) then IsHex(t[2..6]) && UnicodeReadable(t[6..], wide)
    else UnicodeReadable(t[1..], wide)
  }

  /** Every field the decoder parses is made of hex digits. */
  predicate Readable(s: seq<Unit>) {
    && HeaderReadable(s)
    && (ReadHeader(s).Ok? ==> UnicodeReadable(s[ReadHeader(s).value.start..], Tagged(s)))
  }

  /** The byte a unit decodes to: remapped through the override table,
      lowered by 64 if escaped, and unshifted. */
  function ByteOf(u: int, escaped: bool, offset: Byte): Byte {
    var v := HtmlOverrides.Remap(u);
    Unshift(if escaped then v - 64 else v, offset)
  }

  /** The decoding loop from a given state: an `=` seen while not escaped
      only sets the flag; otherwise a `\u` sequence is read as its value,
      the unit is remapped through the override table, lowered by 64 if the
      flag is set, and unshifted. */
  function DecodeFrom(t: seq<Unit>, offset: Byte, escaped: bool, wide: bool): (r: seq<Byte>)
    requires UnicodeReadable(t, wide)
    ensures |r| <= |t|
    decreases |t|
  {
    if |t| == 0 then []
    else if t[0] == Marker && !escaped then DecodeFrom(t[1..], offset, true, wide)
    else
      var long := UnicodeAt(t, wide);
      var u := if long then ParseHex(t[2..6]) else t[0];
      [ByteOf(u, escaped, offset)] + DecodeFrom(t[if long then 6 else 1..], offset, false, wide)
  }

  /** `decode`: the bytes of the body, or the error the source throws. */
  function Decode(s: seq<Unit>): (r: Result<seq<Byte>>)
    requires Readable(s)
    ensures r.Ok? ==> |r.value| <= |s|
  {
    match ReadHeader(s)
    case Fail(e) => Fail(e)
    case Ok(h) =>
      var m := DecodeFrom(s[h.start..], h.offset, false, Tagged(s));
      if h.stored.Some? && Crc32.Checksum(m) != h.stored.value then
        Fail(CrcMismatch(h.stored.value, Crc32.Checksum(m)))
      else Ok(m)
  }

  /** A `\u` sequence is read as the code point its four digits name,
      which is then remapped, lowered if escaped, and unshifted like any
      other unit; the six units it spans yield one byte. */
  lemma UnicodeDecode(t: seq<Unit>, offset: Byte, escaped: bool)
    requires UnicodeReadable(t, true) && UnicodeAt(t, true)
    ensures IsHex(t[2..6]) && UnicodeReadable(t[6..], true)
    ensures var v := HtmlOverrides.Remap(ParseHex(t[2..6]));
      DecodeFrom(t, offset, escaped, true)
        == [Unshift(if escaped then v - 64 else v, offset)] + DecodeFrom(t[6..], offset, false, true)
  {
  }

  /** Without a header the decoder never reads `\u` sequences: a
      backslash is a unit like any other. */
  lemma UnicodeNeedsHeader(t: seq<Unit>)
    ensures !UnicodeAt(t, false) && UnicodeReadable(t, false)
    decreases |t|
  {
    if |t| > 0 {
      UnicodeNeedsHeader(t[1..]);
    }
  }

  /** `decode` throws the checksum error exactly for a version-1 header,
      long enough to hold its checksum, whose stored int32 differs from the
      checksum of the decoded body. */
  lemma DecodeFailsExactly(s: seq<Unit>)
    requires Readable(s)
    ensures Decode(s).Fail? && Decode(s).error.CrcMismatch? <==>
      && Tagged(s) && ParseHex(s[9..11]) == 1 && |s| >= HeaderLength
      && Crc32.Checksum(DecodeFrom(s[HeaderLength..], ParseHex(s[11..13]), false, true))
         != ReadInt32(UnhexBytes(s[13..21]))
    ensures Decode(s).Ok? ==>
      Decode(s).value == DecodeFrom(s[ReadHeader(s).value.start..], ReadHeader(s).value.offset, false, Tagged(s))
  {
  }

  /** The source's test for a `\u` sequence at unit i. */
  lemma UnicodeAtIndex(s: seq<Unit>, i: nat, wide: bool, t: seq<Unit>)
    requires i < |s| && t == s[i..]
    ensures UnicodeAt(t, wide) <==> UnicodeTest(s, i, wide)
    ensures UnicodeAt(t, wide) ==> t[2..6] == s[i + 2..i + 6] && t[6..] == s[i + 6..]
  {
    assert t[0] == s[i];
    if |t| > 5 {
      assert t[1] == s[i + 1];
    }
  }

  /** The decoding of a suffix, one unit at a time. */
  lemma UnfoldDecode(t: seq<Unit>, offset: Byte, escaped: bool, wide: bool, long: bool)
    requires |t| > 0 && UnicodeReadable(t, wide) && long == UnicodeAt(t, wide)
    ensures t[0] == Marker && !escaped ==>
      UnicodeReadable(t[1..], wide) && DecodeFrom(t, offset, escaped, wide) == DecodeFrom(t[1..], offset, true, wide)
    ensures !(t[0] == Marker && !escaped) ==>
      && (long ==> IsHex(t[2..6]))
      && UnicodeReadable(t[if long then 6 else 1..], wide)
      && DecodeFrom(t, offset, escaped, wide)
         == [ByteOf(if long then ParseHex(t[2..6]) else t[0], escaped, offset)] + DecodeFrom(t[if long then 6 else 1..], offset, false, wide)
  {
  }

  /** The source's test for a `\u` sequence at unit i. */
  predicate UnicodeTest(s: seq<Unit>, i: nat, wide: bool) {
    wide && i + 5 < |s| && s[i] == Backslash && (s[i + 1] == 117 || s[i + 1] == 85)
  }

  /** The unit the loop reads at i: the value of a `\u` sequence, or the
      unit itself. */
  function UnitValue(s: seq<Unit>, i: nat, wide: bool): int
    requires i < |s| && (UnicodeTest(s, i, wide) ==> IsHex(s[i + 2..i + 6]))
  {
    if UnicodeTest(s, i, wide) then ParseHex(s[i + 2..i + 6]) else s[i]
  }

  /** A marker seen while not escaped only sets the flag. */
  lemma MarkerStep(s: seq<Unit>, i: nat, offset: Byte, wide: bool, output: seq<Byte>, target: seq<Byte>)
    requires i < |s| && s[i] == Marker && UnicodeReadable(s[i..], wide)
    requires output + DecodeFrom(s[i..], offset, false, wide) == target
    ensures UnicodeReadable(s[i + 1..], wide)
    ensures output + DecodeFrom(s[i + 1..], offset, true, wide) == target
  {
    var t := s[i..];
    UnicodeAtIndex(s, i, wide, t);
    assert t[1..] == s[i + 1..];
    UnfoldDecode(t, offset, false, wide, UnicodeAt(t, wide));
  }

  /** Any other unit, or a `\u` sequence, writes one byte. */
  lemma UnitStep(s: seq<Unit>, i: nat, offset: Byte, escaped: bool, wide: bool, output: seq<Byte>, target: seq<Byte>, long: bool, j: nat)
    requires i < |s| && !(s[i] == Marker && !escaped) && UnicodeReadable(s[i..], wide)
    requires output + DecodeFrom(s[i..], offset, escaped, wide) == target
    requires long == UnicodeTest(s, i, wide) && j == if long then i + 6 else i + 1
    ensures j <= |s| && (long ==> IsHex(s[i + 2..i + 6]))
    ensures UnicodeReadable(s[j..], wide)
    ensures (output + [ByteOf(UnitValue(s, i, wide), escaped, offset)]) + DecodeFrom(s[j..], offset, false, wide) == target
  {
    var t := s[i..];
    UnicodeAtIndex(s, i, wide, t);
    assert t[0] == s[i] && t[1..] == s[i + 1..];
    UnfoldDecode(t, offset, escaped, wide, long);
    var u := if long then ParseHex(t[2..6]) else t[0];
    assert u == UnitValue(s, i, wide);
    var x := ByteOf(u, escaped, offset);
    var rest := DecodeFrom(t[if long then 6 else 1..], offset, false, wide);
    assert output + ([x] + rest) == (output + [x]) + rest;
  }

  /** The loop body for a unit other than an unescaped `=`: a `\u`
      sequence is read in place, the unit is remapped through the override
      table, lowered by 64 if escaped, and unshifted; `last` is the index of
      the last unit consumed. */
  method ReadUnit(s: seq<Unit>, i: nat, offset: Byte, escaped: bool, wide: bool) returns (x: Byte, last: nat)
    requires i < |s|
    requires UnicodeTest(s, i, wide) ==> IsHex(s[i + 2..i + 6])
    ensures last == if UnicodeTest(s, i, wide) then i + 5 else i
    ensures x == ByteOf(UnitValue(s, i, wide), escaped, offset)
  {
    var u: int := s[i];
    last := i;
    if u == Backslash && i < |s| - 5 && wide {
      var next := s[i + 1];
      if next == 117 || next == 85 {
        u := ParseHex(s[i + 2..i + 6]);
        last := i + 5;
      }
    }
    if u > 255 {
      var k := HtmlOverrides.Lookup(u);
      if k.Some? {
        u := k.value + 127;
      }
    }
    if escaped {
      u := u - 64;
    }
    x := Unshift(u, offset);
  }

  /** One iteration of the decoding loop, ending at the index after the
      last unit it consumed: what has been written, followed by the decoding
      of the rest, stays the same. */
  method DecodeUnit(s: seq<Unit>, i: nat, offset: Byte, escaped: bool, wide: bool, output: seq<Byte>, ghost target: seq<Byte>)
    returns (output': seq<Byte>, escaped': bool, next: nat)
    requires i < |s| && UnicodeReadable(s[i..], wide)
    requires output + DecodeFrom(s[i..], offset, escaped, wide) == target
    ensures i < next <= |s| && UnicodeReadable(s[next..], wide)
    ensures output' + DecodeFrom(s[next..], offset, escaped', wide) == target
  {
    if s[i] != Marker || escaped {
      ghost var long := UnicodeTest(s, i, wide);
      UnitStep(s, i, offset, escaped, wide, output, target, long, if long then i + 6 else i + 1);
      var x, last := ReadUnit(s, i, offset, escaped, wide);
      output', escaped', next := output + [x], false, last + 1;
    } else {
      MarkerStep(s, i, offset, wide, output, target);
      output', escaped', next := output, true, i + 1;
    }
  }

  /** `decode` as the source writes it: one pass over the units after the
      header with an escape flag, a `\u` sequence read in place and skipped,
      then the checksum test of a version-1 header. */
  method DecodeLoop(s: seq<Unit>) returns (r: Result<seq<Byte>>)
    requires Readable(s)
    ensures r == Decode(s)
  {
    var header := ReadHeader(s);
    if header.Fail? {
      return Fail(header.error);
    }
    var h := header.value;
    var wide := Tagged(s);
    var output: seq<Byte> := [];
    var escaped := false;
    var i := h.start;
    assert UnicodeReadable(s[i..], wide);
    ghost var target := DecodeFrom(s[i..], h.offset, false, wide);
    while i < |s|
      invariant h.start <= i <= |s|
      invariant UnicodeReadable(s[i..], wide)
      invariant output + DecodeFrom(s[i..], h.offset, escaped, wide) == target
      decreases |s| - i
    {
      output, escaped, i := DecodeUnit(s, i, h.offset, escaped, wide, output, target);
    }
    assert s[i..] == [] && output == target;
    assert ReadHeader(s) == Ok(h);
    if h.stored.Some? {
      var computed := Crc32.Checksum(output);
      if computed != h.stored.value {
        return Fail(CrcMismatch(h.stored.value, computed));
      }
    }
    return Ok(output);
  }

  /* ---------------------------------------------------------------------
     Reading back what dynamicEncode writes
     --------------------------------------------------------------------- */

  /** The header `dynamicEncode` writes is tagged, readable, version 1, and
      gives back the offset and ToInt32 of the checksum. */
  lemma HeaderRead(o: Byte, crc: int, body: seq<Unit>)
    ensures var s := HeaderUnits(o, crc) + body;
      Tagged(s) && HeaderReadable(s) && ReadHeader(s) == Ok(Header(o, HeaderLength, Some(ToInt32(crc))))
  {
    var h := HeaderUnits(o, crc);
    var s := h + body;
    var field := HexBytes(Int32Bytes(crc));
    assert h == Magic + Version1 + Hex2(o) + field;
    assert s[..9] == Magic;
    assert s[9..11] == Version1 && s[11..13] == Hex2(o) && s[13..21] == field;
    assert Version1[..1] == [48];
    assert ParseHex(Version1) == 1;
    UnhexHexBytes(Int32Bytes(crc));
    Int32RoundTrip(crc);
  }

  /** The token at i with the fix-up applied: a final lone `\` becomes
      `=` and `fix`. */
  function FixedToken(bytes: seq<Byte>, o: Byte, w: Quote, i: nat, fix: Unit): (r: seq<Unit>)
    requires i < |bytes|
  {
    if i + 1 == |bytes| && Token(bytes, o, w, i) == [Backslash] then [Marker, fix] else Token(bytes, o, w, i)
  }

  /** The body from position i, token by token, with the fix-up applied. */
  function EmitFixed(bytes: seq<Byte>, o: Byte, w: Quote, i: nat, fix: Unit): (r: seq<Unit>)
    requires i <= |bytes|
    decreases |bytes| - i
  {
    if i == |bytes| then [] else FixedToken(bytes, o, w, i, fix) + EmitFixed(bytes, o, w, i + 1, fix)
  }

  /** The last token alone, with and without the fix-up. */
  lemma EmitFixedLast(bytes: seq<Byte>, o: Byte, w: Quote, i: nat, fix: Unit)
    requires i + 1 == |bytes|
    ensures var e := EmitFrom(bytes, o, w, i);
      EmitFixed(bytes, o, w, i, fix) == if Trailing(bytes, o, w) then e[..|e| - 1] + [Marker, fix] else e
  {
    var tok := Token(bytes, o, w, i);
    assert EmitFrom(bytes, o, w, i) == tok + [] == tok;
    assert EmitFixed(bytes, o, w, i, fix) == FixedToken(bytes, o, w, i, fix) + [];
  }

  /** Replacing the last unit of a non-empty tail commutes with putting a
      token in front. */
  lemma PopPushFront(tok: seq<Unit>, e1: seq<Unit>, f1: seq<Unit>, tr: bool, fix: Unit)
    requires tr ==> |e1| > 0
    requires f1 == if tr then e1[..|e1| - 1] + [Marker, fix] else e1
    ensures tok + f1 == if tr then (tok + e1)[..|tok + e1| - 1] + [Marker, fix] else tok + e1
  {
    if tr {
      assert (tok + e1)[..|tok + e1| - 1] == tok + e1[..|e1| - 1];
    }
  }

  /** The body from i is the token at i followed by the body from i + 1. */
  lemma UnfoldEmit(bytes: seq<Byte>, o: Byte, w: Quote, i: nat)
    requires i < |bytes|
    ensures EmitFrom(bytes, o, w, i) == Token(bytes, o, w, i) + EmitFrom(bytes, o, w, i + 1)
  {
  }

  /** Before the last token the fix-up leaves the token alone. */
  lemma UnfoldEmitFixed(bytes: seq<Byte>, o: Byte, w: Quote, i: nat, fix: Unit)
    requires i + 1 < |bytes|
    ensures EmitFixed(bytes, o, w, i, fix) == Token(bytes, o, w, i) + EmitFixed(bytes, o, w, i + 1, fix)
  {
  }

  /** Popping the last element and pushing the pair is the same as writing
      the pair in place of the last token; `tr` is the fix-up's test. */
  lemma {:induction false} EmitFixedFrom(bytes: seq<Byte>, o: Byte, w: Quote, i: nat, fix: Unit, tr: bool)
    requires i < |bytes| && tr == Trailing(bytes, o, w)
    ensures var e := EmitFrom(bytes, o, w, i);
      EmitFixed(bytes, o, w, i, fix) == if tr then e[..|e| - 1] + [Marker, fix] else e
    decreases |bytes| - i
  {
    if i + 1 == |bytes| {
      EmitFixedLast(bytes, o, w, i, fix);
    } else {
      EmitFixedFrom(bytes, o, w, i + 1, fix, tr);
      UnfoldEmit(bytes, o, w, i);
      UnfoldEmitFixed(bytes, o, w, i, fix);
      PopPushFront(Token(bytes, o, w, i), EmitFrom(bytes, o, w, i + 1), EmitFixed(bytes, o, w, i + 1, fix), tr, fix);
    }
  }

  /** The fix-up rewrites only the last token. */
  lemma BodyTokens(bytes: seq<Byte>, o: Byte, w: Quote, fix: Unit)
    ensures Body(bytes, o, w, fix) == EmitFixed(bytes, o, w, 0, fix)
  {
    if |bytes| > 0 {
      EmitFixedFrom(bytes, o, w, 0, fix, Trailing(bytes, o, w));
    }
  }

  /** The bytes the body decodes to: the input, except that a fixed-up
      final backslash comes back as whatever `=` and `fix` decode to. */
  function Restored(bytes: seq<Byte>, o: Byte, w: Quote, fix: Unit): (r: seq<Byte>)
    ensures |r| == |bytes|
  {
    if Trailing(bytes, o, w) then bytes[..|bytes| - 1] + [Unshift(fix - 64, o)] else bytes
  }

  /** A pair `=`, x decodes to x lowered by 64 and unshifted. */
  lemma DecodePair(x: Unit, rest: seq<Unit>, o: Byte, wide: bool)
    requires x < 256 && x != Backslash && UnicodeReadable(rest, wide)
    ensures UnicodeReadable([Marker, x] + rest, wide)
    ensures DecodeFrom([Marker, x] + rest, o, false, wide) == [Unshift(x - 64, o)] + DecodeFrom(rest, o, false, wide)
  {
    var t := [Marker, x] + rest;
    assert t[1..] == [x] + rest && t[1..][1..] == rest;
  }

  /** A single unit other than `=` decodes to itself unshifted, unless it
      opens a `\u` sequence. */
  lemma DecodeSingle(x: Unit, rest: seq<Unit>, o: Byte, wide: bool)
    requires x < 256 && x != Marker && UnicodeReadable(rest, wide)
    requires !UnicodeAt([x] + rest, wide)
    ensures UnicodeReadable([x] + rest, wide)
    ensures DecodeFrom([x] + rest, o, false, wide) == [Unshift(x, o)] + DecodeFrom(rest, o, false, wide)
  {
    var t := [x] + rest;
    assert t[1..] == rest;
  }

  /** The second unit of a pair is never a backslash. */
  lemma PairSecond(bytes: seq<Byte>, o: Byte, w: Quote, i: nat)
    requires i < |bytes| && EscapeAt(bytes, o, w, i)
    ensures (Shift(bytes[i], o) + 64) % 256 != Backslash
  {
  }

  /** The first unit of the fixed-up body from i. */
  lemma EmitFixedFirst(bytes: seq<Byte>, o: Byte, w: Quote, i: nat, fix: Unit)
    requires i < |bytes|
    ensures |EmitFixed(bytes, o, w, i, fix)| > 0
    ensures EmitFixed(bytes, o, w, i, fix)[0] ==
      if EscapeAt(bytes, o, w, i) || (i + 1 == |bytes| && Shift(bytes[i], o) == Backslash) then Marker
      else Shift(bytes[i], o)
  {
  }

  /** The restored byte at i. */
  lemma RestoredAt(bytes: seq<Byte>, o: Byte, w: Quote, fix: Unit, i: nat)
    requires i < |bytes|
    ensures Restored(bytes, o, w, fix)[i] ==
      if i + 1 == |bytes| && Trailing(bytes, o, w) then Unshift(fix - 64, o) else bytes[i]
  {
  }

  /** Shifting by the offset and unshifting gives the byte back. */
  lemma ShiftUnshift(b: Byte, o: Byte)
    ensures Unshift(Shift(b, o), o) == b
  {
  }

  /** The second unit of a pair, lowered by 64 and unshifted, gives the
      byte back. */
  lemma PairUnshift(b: Byte, o: Byte, x: int)
    requires x == (Shift(b, o) + 64) % 256
    ensures Unshift(x - 64, o) == b
  {
  }

  /** A pair the body loop wrote decodes to its byte. */
  lemma EscapedDecode(bytes: seq<Byte>, o: Byte, w: Quote, i: nat, rest: seq<Unit>)
    requires i < |bytes| && EscapeAt(bytes, o, w, i) && UnicodeReadable(rest, true)
    ensures UnicodeReadable(Token(bytes, o, w, i) + rest, true)
    ensures DecodeFrom(Token(bytes, o, w, i) + rest, o, false, true) == [bytes[i]] + DecodeFrom(rest, o, false, true)
  {
    var x := (Shift(bytes[i], o) + 64) % 256;
    assert Token(bytes, o, w, i) == [Marker, x];
    PairSecond(bytes, o, w, i);
    PairUnshift(bytes[i], o, x);
    DecodePair(x, rest, o, true);
  }

  /** A single unit the body loop wrote decodes to its byte, provided what
      follows does not turn it into a `\u` sequence. */
  lemma PlainDecode(bytes: seq<Byte>, o: Byte, w: Quote, i: nat, rest: seq<Unit>)
    requires i < |bytes| && !EscapeAt(bytes, o, w, i) && UnicodeReadable(rest, true)
    requires Shift(bytes[i], o) == Backslash && |rest| > 0 ==> rest[0] != 117 && rest[0] != 85
    ensures UnicodeReadable(Token(bytes, o, w, i) + rest, true)
    ensures DecodeFrom(Token(bytes, o, w, i) + rest, o, false, true) == [bytes[i]] + DecodeFrom(rest, o, false, true)
  {
    var b1 := Shift(bytes[i], o);
    assert Token(bytes, o, w, i) == [b1];
    assert b1 != Marker;
    assert |rest| > 0 ==> ([b1] + rest)[1] == rest[0];
    ShiftUnshift(bytes[i], o);
    DecodeSingle(b1, rest, o, true);
  }

  /** The byte at i restored from its token. */
  lemma TokenDecode(bytes: seq<Byte>, o: Byte, w: Quote, i: nat, fix: Unit)
    requires i < |bytes| && fix < 256 && fix != Backslash
    requires UnicodeReadable(EmitFixed(bytes, o, w, i + 1, fix), true)
    ensures var rest := EmitFixed(bytes, o, w, i + 1, fix);
      && UnicodeReadable(FixedToken(bytes, o, w, i, fix) + rest, true)
      && DecodeFrom(FixedToken(bytes, o, w, i, fix) + rest, o, false, true)
         == [Restored(bytes, o, w, fix)[i]] + DecodeFrom(rest, o, false, true)
  {
    var rest := EmitFixed(bytes, o, w, i + 1, fix);
    RestoredAt(bytes, o, w, fix, i);
    if i + 1 == |bytes| && Token(bytes, o, w, i) == [Backslash] {
      DecodePair(fix, rest, o, true);
    } else if EscapeAt(bytes, o, w, i) {
      EscapedDecode(bytes, o, w, i, rest);
    } else {
      if i + 1 < |bytes| {
        EmitFixedFirst(bytes, o, w, i + 1, fix);
      }
      PlainDecode(bytes, o, w, i, rest);
    }
  }

  /** A suffix is its first element followed by the next suffix. */
  lemma HeadTail<T>(r: seq<T>, i: nat)
    requires i < |r|
    ensures r[i..] == [r[i]] + r[i + 1..]
  {
  }

  /** The fixed-up body from i decodes to the restored bytes from i. */
  lemma {:induction false} EmitFixedDecode(bytes: seq<Byte>, o: Byte, w: Quote, i: nat, fix: Unit)
    requires i <= |bytes| && fix < 256 && fix != Backslash
    ensures UnicodeReadable(EmitFixed(bytes, o, w, i, fix), true)
    ensures DecodeFrom(EmitFixed(bytes, o, w, i, fix), o, false, true) == Restored(bytes, o, w, fix)[i..]
    decreases |bytes| - i
  {
    if i < |bytes| {
      EmitFixedDecode(bytes, o, w, i + 1, fix);
      TokenDecode(bytes, o, w, i, fix);
      assert EmitFixed(bytes, o, w, i, fix) == FixedToken(bytes, o, w, i, fix) + EmitFixed(bytes, o, w, i + 1, fix);
      HeadTail(Restored(bytes, o, w, fix), i);
    }
  }

  /** What a body with any fix-up unit other than `\` decodes to. */
  lemma BodyDecode(bytes: seq<Byte>, o: Byte, w: Quote, fix: Unit)
    requires fix < 256 && fix != Backslash
    ensures UnicodeReadable(Body(bytes, o, w, fix), true)
    ensures DecodeFrom(Body(bytes, o, w, fix), o, false, true) == Restored(bytes, o, w, fix)
  {
    BodyTokens(bytes, o, w, fix);
    EmitFixedDecode(bytes, o, w, 0, fix);
  }

  /** The intended pair `=`, 156 restores the backslash. */
  lemma IntendedFixRestores(bytes: seq<Byte>, o: Byte, w: Quote)
    ensures Restored(bytes, o, w, IntendedFix) == bytes
  {
    if Trailing(bytes, o, w) {
      var n := |bytes|;
      assert bytes == bytes[..n - 1] + [bytes[n - 1]];
    }
  }

  /** The pair `=`, 0 the source writes does not. */
  lemma WrittenFixCorrupts(bytes: seq<Byte>, o: Byte, w: Quote)
    requires Trailing(bytes, o, w)
    ensures var n := |bytes|;
      Restored(bytes, o, w, WrittenFix) == bytes[..n - 1] + [Unshift(-64, o)]
      && Unshift(-64, o) != bytes[n - 1]
  {
  }

  /** Decoding a header for offset o and checksum c followed by a body:
      the restored bytes, checked against ToInt32 of c. */
  lemma EncodedDecode(bytes: seq<Byte>, w: Quote, fix: Unit, o: Byte, c: int)
    requires fix < 256 && fix != Backslash
    ensures Readable(HeaderUnits(o, c) + Body(bytes, o, w, fix))
    ensures var m := Restored(bytes, o, w, fix);
      Decode(HeaderUnits(o, c) + Body(bytes, o, w, fix)) ==
        if Crc32.Checksum(m) != ToInt32(c) then Fail(CrcMismatch(ToInt32(c), Crc32.Checksum(m))) else Ok(m)
  {
    var body := Body(bytes, o, w, fix);
    var s := HeaderUnits(o, c) + body;
    HeaderRead(o, c, body);
    assert s[HeaderLength..] == body;
    BodyDecode(bytes, o, w, fix);
  }

  /** A number in the int32 range is its own ToInt32. */
  lemma ToInt32Exact(x: int)
    requires -0x8000_0000 <= x < 0x8000_0000
    ensures ToInt32(x) == x
  {
  }

  /** The encoder's output is its header and body. */
  lemma EncodeWithParts(bytes: seq<Byte>, w: Quote, fix: Unit, o: Byte, c: int)
    requires o == BestOffset(bytes, w) && c == Crc32.Checksum(bytes)
    ensures EncodeWith(bytes, w, fix) == HeaderUnits(o, c) + Body(bytes, o, w, fix)
  {
  }

  /** Decoding what `dynamicEncode` writes, as written or corrected. */
  lemma EncodeWithDecode(bytes: seq<Byte>, w: Quote, fix: Unit, o: Byte, c: int)
    requires fix < 256 && fix != Backslash
    requires o == BestOffset(bytes, w) && c == Crc32.Checksum(bytes)
    ensures Readable(EncodeWith(bytes, w, fix))
    ensures var m := Restored(bytes, o, w, fix);
      Decode(EncodeWith(bytes, w, fix)) ==
        if Crc32.Checksum(m) != ToInt32(c) then Fail(CrcMismatch(ToInt32(c), Crc32.Checksum(m))) else Ok(m)
  {
    EncodeWithParts(bytes, w, fix, o, c);
    EncodedDecode(bytes, w, fix, o, c);
  }

  /** With the fix-up corrected, `decode(dynamicEncode(B, w)) == B` for
      every non-empty B and every quote. */
  lemma FixedRoundTrip(bytes: seq<Byte>, w: Quote)
    requires |bytes| > 0
    ensures Readable(DynamicEncodeFixed(bytes, w))
    ensures Decode(DynamicEncodeFixed(bytes, w)) == Ok(bytes)
  {
    var o, c := BestOffset(bytes, w), Crc32.Checksum(bytes);
    EncodeWithDecode(bytes, w, IntendedFix, o, c);
    IntendedFixRestores(bytes, o, w);
    ToInt32Exact(c);
  }

  /** As written, the round trip holds for non-empty B whenever the body
      does not end in a lone backslash, in particular for `"` and `'`. */
  lemma DynamicRoundTrip(bytes: seq<Byte>, w: Quote)
    requires |bytes| > 0 && !Trailing(bytes, BestOffset(bytes, w), w)
    ensures Readable(DynamicEncode(bytes, w))
    ensures Decode(DynamicEncode(bytes, w)) == Ok(bytes)
  {
    var o, c := BestOffset(bytes, w), Crc32.Checksum(bytes);
    EncodeWithDecode(bytes, w, WrittenFix, o, c);
    ToInt32Exact(c);
  }

  /** In a quoted string a backslash is always escaped, so the fix-up never
      fires. */
  lemma QuotedNeverTrailing(bytes: seq<Byte>, o: Byte, w: Quote)
    requires w != Backtick
    ensures !Trailing(bytes, o, w)
  {
  }

  /** As written, a template-literal body that would end in a lone
      backslash decodes to a different last byte, which the checksum
      rejects. */
  lemma TrailingBackslashRejected(bytes: seq<Byte>)
    requires Trailing(bytes, BestOffset(bytes, Backtick), Backtick)
    ensures Readable(DynamicEncode(bytes, Backtick))
    ensures Decode(DynamicEncode(bytes, Backtick)).Fail?
    ensures Decode(DynamicEncode(bytes, Backtick)).error.CrcMismatch?
  {
    var o, c := BestOffset(bytes, Backtick), Crc32.Checksum(bytes);
    EncodeWithDecode(bytes, Backtick, WrittenFix, o, c);
    WrittenFixChecksum(bytes, o);
    ToInt32Exact(c);
  }

  /** The byte the written pair restores changes the checksum. */
  lemma WrittenFixChecksum(bytes: seq<Byte>, o: Byte)
    requires Trailing(bytes, o, Backtick)
    ensures Crc32.Checksum(Restored(bytes, o, Backtick, WrittenFix)) != Crc32.Checksum(bytes)
  {
    var n := |bytes|;
    WrittenFixCorrupts(bytes, o, Backtick);
    var p := bytes[..n - 1];
    var y := Unshift(-64, o);
    assert bytes == p + [bytes[n - 1]] + [];
    assert Restored(bytes, o, Backtick, WrittenFix) == p + [y] + [];
    Crc32.ChecksumDetectsByteChange(p, bytes[n - 1], y, []);
  }

  /** An offset of zero cost is the one chosen when it is offset 0. */
  lemma FreeOffsetZero(bytes: seq<Byte>, w: Quote)
    requires Cost(bytes, w, 0) == 0
    ensures BestOffset(bytes, w) == 0
  {
  }

  /** No hazard bucket holds the byte 92 at offset 0. */
  lemma BackslashCostsNothing()
    ensures Cost([92], Backtick, 0) == 0
  {
    assert Hist([92], Backtick, 13, 0) == 0;
    assert Hist([92], Backtick, 61, 0) == 0;
    assert Hist([92], Backtick, 96, 0) == 0;
  }

  /** The one-byte input 92 in a template literal meets the condition:
      offset 0 costs nothing, so it is chosen, and the body would be the
      lone backslash. */
  lemma TrailingBackslashExample(bytes: seq<Byte>)
    requires bytes == [92]
    ensures BestOffset(bytes, Backtick) == 0
    ensures Trailing(bytes, BestOffset(bytes, Backtick), Backtick)
  {
    BackslashCostsNothing();
    FreeOffsetZero(bytes, Backtick);
    assert Token(bytes, 0, Backtick, 0) == [Backslash];
  }

  /** The checksum of no bytes, and the int32 the header stores for it. */
  lemma EmptyChecksum(bytes: seq<Byte>)
    requires bytes == []
    ensures Crc32.Checksum(bytes) == 0xFFFF_FFFF
    ensures ToInt32(Crc32.Checksum(bytes)) == -1
  {
  }

  /** Empty input: the checksum of no bytes is the unconverted seed
      4294967295, the header stores its int32 form -1, and `decode` throws. */
  lemma EmptyRejected(bytes: seq<Byte>, w: Quote)
    requires bytes == []
    ensures Readable(DynamicEncode(bytes, w))
    ensures Decode(DynamicEncode(bytes, w)) == Fail(CrcMismatch(-1, 0xFFFF_FFFF))
  {
    var o, c := BestOffset(bytes, w), Crc32.Checksum(bytes);
    EncodeWithDecode(bytes, w, WrittenFix, o, c);
    assert !Trailing(bytes, o, w);
    EmptyChecksum(bytes);
  }

  /* ---------------------------------------------------------------------
     What a body keeps out of its quote
     --------------------------------------------------------------------- */

  /** A body whose every `=` is followed by a unit other than `=`. */
  predicate PairsClosed(r: seq<Unit>) {
    forall k :: 0 <= k < |r| && r[k] == Marker ==> k + 1 < |r| && r[k + 1] != Marker
  }

  /** What each context keeps out of a body: in a quoted string no unit
      but `=` is one the quote escapes; in a template literal no unit is CR
      or a backtick, no `$` is followed by `{`, and no `\` by `U` or `u`. */
  predicate SafeFor(w: Quote, r: seq<Unit>) {
    if w == Backtick then
      && (forall k :: 0 <= k < |r| ==> r[k] != 13 && r[k] != 96)
      && (forall k :: 0 <= k < |r| - 1 ==> !(r[k] == 36 && r[k + 1] == 123))
      && (forall k :: 0 <= k < |r| - 1 ==> !(r[k] == Backslash && (r[k + 1] == 85 || r[k + 1] == 117)))
    else
      forall k :: 0 <= k < |r| && r[k] != Marker ==> !ShouldEscape(w, r[k], None)
  }

  /** Whether the unit pair a, b may meet at a join. */
  predicate JoinSafe(w: Quote, a: Unit, b: Unit) {
    w == Backtick ==> !(a == 36 && b == 123) && !(a == Backslash && (b == 85 || b == 117))
  }

  /** The second unit of the pair the fix-up writes, as written or as
      intended. */
  predicate FixUnit(fix: Unit) {
    fix == WrittenFix || fix == IntendedFix
  }

  /** A single token, fixed up or not, holds nothing its context forbids. */
  lemma FixedTokenSafe(bytes: seq<Byte>, o: Byte, w: Quote, i: nat, fix: Unit)
    requires i < |bytes| && FixUnit(fix)
    ensures SafeFor(w, FixedToken(bytes, o, w, i, fix))
    ensures PairsClosed(FixedToken(bytes, o, w, i, fix))
  {
    var tok := FixedToken(bytes, o, w, i, fix);
    var b1 := Shift(bytes[i], o);
    if i + 1 == |bytes| && Token(bytes, o, w, i) == [Backslash] {
      assert tok == [Marker, fix];
    } else if EscapeAt(bytes, o, w, i) {
      assert tok == [Marker, (b1 + 64) % 256];
    } else {
      assert tok == [b1];
    }
  }

  /** Two safe pieces join safely when their meeting units may meet. */
  lemma SafeConcat(w: Quote, a: seq<Unit>, b: seq<Unit>)
    requires SafeFor(w, a) && SafeFor(w, b)
    requires |a| > 0 && |b| > 0 ==> JoinSafe(w, a[|a| - 1], b[0])
    ensures SafeFor(w, a + b)
  {
    var r := a + b;
    forall k | |a| <= k < |r| ensures r[k] == b[k - |a|] { }
    if w == Backtick {
      forall k | 0 <= k < |r| - 1
        ensures !(r[k] == 36 && r[k + 1] == 123) && !(r[k] == Backslash && (r[k + 1] == 85 || r[k + 1] == 117))
      {
        if k >= |a| {
          assert r[k] == b[k - |a|] && r[k + 1] == b[k + 1 - |a|];
        } else if k + 1 < |a| {
          assert r[k] == a[k] && r[k + 1] == a[k + 1];
        } else {
          assert r[k] == a[|a| - 1] && r[k + 1] == b[0];
        }
      }
    }
  }

  /** Two pieces with closed pairs join into one with closed pairs. */
  lemma PairsConcat(a: seq<Unit>, b: seq<Unit>)
    requires PairsClosed(a) && PairsClosed(b)
    ensures PairsClosed(a + b)
  {
    var r := a + b;
    forall k | 0 <= k < |r| && r[k] == Marker ensures k + 1 < |r| && r[k + 1] != Marker {
      if k >= |a| {
        assert r[k] == b[k - |a|] && r[k + 1] == b[k + 1 - |a|];
      } else {
        assert r[k] == a[k] && r[k + 1] == a[k + 1];
      }
    }
  }

  /** A token before the last one meets the first unit after it safely:
      the source escapes `$` before `{` and `\` before `U` or `u`. */
  lemma TokenJoin(bytes: seq<Byte>, o: Byte, w: Quote, i: nat, fix: Unit, tok: seq<Unit>, rest: seq<Unit>)
    requires i + 1 < |bytes| && tok == Token(bytes, o, w, i) && rest == EmitFixed(bytes, o, w, i + 1, fix)
    ensures |tok| > 0 && |rest| > 0 && JoinSafe(w, tok[|tok| - 1], rest[0])
  {
    var b1 := Shift(bytes[i], o);
    var b2 := Shift(bytes[i + 1], o);
    EmitFixedFirst(bytes, o, w, i + 1, fix);
    assert rest[0] == Marker || rest[0] == b2;
    if w == Backtick {
      if EscapeAt(bytes, o, w, i) {
        assert tok == [Marker, (b1 + 64) % 256];
        assert b1 == 61 || b1 == 13 || b1 == 96 || b1 == 36 || b1 == Backslash;
      } else {
        assert tok == [b1];
        assert !(b1 == 36 && b2 == 123) && !(b1 == Backslash && (b2 == 85 || b2 == 117));
      }
    }
  }

  /** The fixed-up body from i holds nothing its context forbids, and
      every `=` in it opens a pair. */
  lemma {:induction false} EmitFixedSafe(bytes: seq<Byte>, o: Byte, w: Quote, i: nat, fix: Unit)
    requires i <= |bytes| && FixUnit(fix)
    ensures SafeFor(w, EmitFixed(bytes, o, w, i, fix))
    ensures PairsClosed(EmitFixed(bytes, o, w, i, fix))
    decreases |bytes| - i
  {
    if i < |bytes| {
      var tok := FixedToken(bytes, o, w, i, fix);
      var rest := EmitFixed(bytes, o, w, i + 1, fix);
      EmitFixedSafe(bytes, o, w, i + 1, fix);
      FixedTokenSafe(bytes, o, w, i, fix);
      if i + 1 < |bytes| {
        TokenJoin(bytes, o, w, i, fix, Token(bytes, o, w, i), rest);
      }
      SafeConcat(w, tok, rest);
      PairsConcat(tok, rest);
    }
  }

  /** The last unit of a non-empty body is that of its last token. */
  lemma {:induction false} EmitLast(bytes: seq<Byte>, o: Byte, w: Quote, i: nat)
    requires i < |bytes|
    ensures var e := EmitFrom(bytes, o, w, i); var tok := Token(bytes, o, w, |bytes| - 1);
      |e| > 0 && e[|e| - 1] == tok[|tok| - 1]
    decreases |bytes| - i
  {
    UnfoldEmit(bytes, o, w, i);
    if i + 1 < |bytes| {
      EmitLast(bytes, o, w, i + 1);
    }
  }

  /** A template-literal body never ends in a backslash, which would
      escape the closing backtick. */
  lemma BodyEndsClean(bytes: seq<Byte>, o: Byte, w: Quote, fix: Unit)
    requires FixUnit(fix)
    ensures var r := Body(bytes, o, w, fix); |r| > 0 ==> r[|r| - 1] != Backslash
  {
    if |bytes| > 0 && !Trailing(bytes, o, w) {
      EmitLast(bytes, o, w, 0);
    }
  }

  /** What `dynamicEncode` writes after its header, as written and with
      the fix-up corrected, is safe for its quote: every `=` opens a pair,
      nothing the quote forbids appears, and nothing ends in a backslash. */
  lemma DynamicEncodeSafe(bytes: seq<Byte>, w: Quote, fix: Unit)
    requires FixUnit(fix)
    ensures var r := EncodeWith(bytes, w, fix)[HeaderLength..];
      && PairsClosed(r) && SafeFor(w, r)
      && (|r| > 0 ==> r[|r| - 1] != Backslash)
  {
    var o := BestOffset(bytes, w);
    BodyTokens(bytes, o, w, fix);
    EmitFixedSafe(bytes, o, w, 0, fix);
    BodyEndsClean(bytes, o, w, fix);
  }

  /* ---------------------------------------------------------------------
     The HTML parser's substitutions
     --------------------------------------------------------------------- */

  /** ASCII is left alone, and only ASCII becomes ASCII. */
  lemma AsciiKept(u: Unit)
    ensures u < 128 ==> HtmlOverrides.Substitute(u) == u
    ensures HtmlOverrides.Substitute(u) < 128 ==> HtmlOverrides.Substitute(u) == u
  {
  }

  /** Substituting commutes with slicing. */
  lemma SubstituteSlice(s: seq<Unit>, a: nat, b: nat)
    requires a <= b <= |s|
    ensures HtmlOverrides.SubstituteAll(s)[a..b] == HtmlOverrides.SubstituteAll(s[a..b])
  {
  }

  /** A field that is ASCII on either side of the substitution is the same
      on both sides. */
  lemma AsciiField(s: seq<Unit>, a: nat, b: nat)
    requires a <= b <= |s|
    requires var t := HtmlOverrides.SubstituteAll(s);
      (forall k :: a <= k < b ==> s[k] < 128) || (forall k :: a <= k < b ==> t[k] < 128)
    ensures HtmlOverrides.SubstituteAll(s)[a..b] == s[a..b]
  {
    var t := HtmlOverrides.SubstituteAll(s);
    forall k | a <= k < b ensures t[k] == s[k] {
      AsciiKept(s[k]);
    }
  }

  /** Hex digits are ASCII. */
  lemma HexAscii(s: seq<Unit>, a: nat, b: nat)
    requires a <= b <= |s| && IsHex(s[a..b])
    ensures forall k :: a <= k < b ==> s[k] < 128
  {
    forall k | a <= k < b ensures s[k] < 128 {
      assert s[k] == s[a..b][k - a];
    }
  }

  /** The tag is ASCII. */
  lemma TagAscii(s: seq<Unit>)
    requires |s| >= 9 && s[..9] == Magic
    ensures forall k :: 0 <= k < 9 ==> s[k] < 128
  {
    forall k | 0 <= k < 9 ensures s[k] < 128 {
      assert s[k] == Magic[k];
    }
  }

  /** A substitution neither creates nor destroys a tag, and leaves every
      header field the decoder reads as it was. */
  lemma ReadHeaderSubstituted(s: seq<Unit>)
    requires HeaderReadable(s)
    ensures var t := HtmlOverrides.SubstituteAll(s);
      Tagged(t) == Tagged(s) && HeaderReadable(t) && ReadHeader(t) == ReadHeader(s)
  {
    var t := HtmlOverrides.SubstituteAll(s);
    if |s| > 13 {
      if s[..9] == Magic {
        TagAscii(s);
      } else if t[..9] == Magic {
        TagAscii(t);
      }
      if s[..9] == Magic || t[..9] == Magic {
        AsciiField(s, 0, 9);
        HexAscii(s, 9, 11);
        AsciiField(s, 9, 11);
        if ParseHex(s[9..11]) <= 1 {
          HexAscii(s, 11, 13);
          AsciiField(s, 11, 13);
          if ParseHex(s[9..11]) == 1 && |s| >= HeaderLength {
            HexAscii(s, 13, 21);
            AsciiField(s, 13, 21);
          }
        }
      }
    }
  }

  /** What the decoder looks at in the first units is unchanged by the
      substitution, and the rest after them is the substituted rest. */
  lemma SubstitutedHead(t0: seq<Unit>, wide: bool, n: nat)
    requires 0 < n <= |t0| && UnicodeReadable(t0, wide)
    ensures var t := HtmlOverrides.SubstituteAll(t0);
      && (t[0] == Marker <==> t0[0] == Marker)
      && UnicodeAt(t, wide) == UnicodeAt(t0, wide)
      && (UnicodeAt(t0, wide) ==> IsHex(t0[2..6]) && t[2..6] == t0[2..6])
      && HtmlOverrides.Remap(t[0]) == HtmlOverrides.Remap(t0[0])
      && t[n..] == HtmlOverrides.SubstituteAll(t0[n..])
  {
    var t := HtmlOverrides.SubstituteAll(t0);
    AsciiKept(t0[0]);
    if |t0| > 1 {
      AsciiKept(t0[1]);
    }
    if UnicodeAt(t0, wide) {
      HexAscii(t0, 2, 6);
      AsciiField(t0, 2, 6);
    }
    SubstituteSlice(t0, n, |t0|);
    assert t0[n..] == t0[n..|t0|] && t[n..] == t[n..|t|];
  }

  /** One step of the decoding loop on both sides of the substitution,
      given that the rest decodes the same. */
  lemma SubstitutedStep(t0: seq<Unit>, offset: Byte, escaped: bool, wide: bool, n: nat, next: bool)
    requires |t0| > 0 && UnicodeReadable(t0, wide)
    requires next == (t0[0] == Marker && !escaped)
    requires n == if !next && UnicodeAt(t0, wide) then 6 else 1
    requires n <= |t0| && UnicodeReadable(t0[n..], wide)
    requires UnicodeReadable(HtmlOverrides.SubstituteAll(t0[n..]), wide)
    requires DecodeFrom(HtmlOverrides.SubstituteAll(t0[n..]), offset, next, wide) == DecodeFrom(t0[n..], offset, next, wide)
    ensures UnicodeReadable(HtmlOverrides.SubstituteAll(t0), wide)
    ensures DecodeFrom(HtmlOverrides.SubstituteAll(t0), offset, escaped, wide) == DecodeFrom(t0, offset, escaped, wide)
  {
    var t := HtmlOverrides.SubstituteAll(t0);
    SubstitutedHead(t0, wide, n);
    var long := UnicodeAt(t0, wide);
    assert UnicodeReadable(t, wide);
    UnfoldDecode(t0, offset, escaped, wide, long);
    UnfoldDecode(t, offset, escaped, wide, long);
  }

  /** The decoding loop is blind to the substitution, from any state; the
      `\`, `u`, `U` and hex digits of a `\u` sequence are ASCII and stay. */
  lemma {:induction false} DecodeFromSubstituted(t0: seq<Unit>, offset: Byte, escaped: bool, wide: bool)
    requires UnicodeReadable(t0, wide)
    ensures UnicodeReadable(HtmlOverrides.SubstituteAll(t0), wide)
    ensures DecodeFrom(HtmlOverrides.SubstituteAll(t0), offset, escaped, wide) == DecodeFrom(t0, offset, escaped, wide)
    decreases |t0|
  {
    if |t0| > 0 {
      var next := t0[0] == Marker && !escaped;
      var n := if !next && UnicodeAt(t0, wide) then 6 else 1;
      UnfoldDecode(t0, offset, escaped, wide, UnicodeAt(t0, wide));
      DecodeFromSubstituted(t0[n..], offset, next, wide);
      SubstitutedStep(t0, offset, escaped, wide, n, next);
    }
  }

  /** `decode` gives the same result, bytes or error, after an HTML parser
      has replaced bytes 0x80-0x9F by their Windows-1252 characters. */
  lemma DecodeSubstituted(s: seq<Unit>)
    requires Readable(s)
    ensures Readable(HtmlOverrides.SubstituteAll(s))
    ensures Decode(HtmlOverrides.SubstituteAll(s)) == Decode(s)
  {
    var t := HtmlOverrides.SubstituteAll(s);
    ReadHeaderSubstituted(s);
    if ReadHeader(s).Ok? {
      var h := ReadHeader(s).value;
      SubstituteSlice(s, h.start, |s|);
      assert s[h.start..] == s[h.start..|s|] && t[h.start..] == t[h.start..|t|];
      DecodeFromSubstituted(s[h.start..], h.offset, false, Tagged(s));
    }
  }
}
