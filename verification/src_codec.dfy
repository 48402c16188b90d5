/** The first revision of the codec (src/simple-yenc.js): the fixed-offset
    yEnc `encode`, the header-aware `decode`, and `dynamicEncode`, which
    searches every offset for the shortest body under one of three quoting
    contexts and tags its output with a `DynEncode` version-0 header.
    Strings are sequences of UTF-16 code units; byte arrays are sequences of
    `Byte`. */
module SrcCodec {
  import opened Common
  import HtmlOverrides

  /** The yEnc offset of `encode` and of header-less input. */
  const DefaultOffset: Byte := 42

  /** `=`, the first unit of every escape pair. */
  const Marker: Unit := 61

  /** `"DynEncode"`, the magic tag of this revision's header. */
  const Magic: seq<Unit> := [68, 121, 110, 69, 110, 99, 111, 100, 101]

  /** Units 0-12 of a header: the tag, version `00` and the offset in hex. */
  const HeaderLength := 13

  /* ---------------------------------------------------------------------
     encode
     --------------------------------------------------------------------- */

  /** NUL, LF, CR and `=`: the shifted values `encode` writes as a pair. */
  predicate IsCritical(e: int) {
    e == 0 || e == 10 || e == 13 || e == 61
  }

  /** The number of bytes whose shifted value is critical. */
  function CriticalCount(bytes: seq<Byte>): nat {
    if |bytes| == 0 then 0
    else (if IsCritical((bytes[0] as int + 42) % 256) then 1 else 0) + CriticalCount(bytes[1..])
  }

  /** What `encode` writes for one byte: `e = (b + 42) % 256`, or the pair
      `=`, `(e + 64) % 256` when `e` is critical. */
  function EncodeByte(b: Byte): (r: seq<Unit>)
    ensures var e := (b + 42) % 256;
      if IsCritical(e) then r == [Marker, (e + 64) % 256] && r[1] in {64, 74, 77, 125}
      else r == [e] && e != Marker
  {
    var e := (b + 42) % 256;
    if IsCritical(e) then [Marker, (e + 64) % 256] else [e]
  }

  /** `encode`: one unit per byte plus one marker per critical byte; the
      output never holds NUL, LF or CR, and every `=` is followed by the
      escaped form of NUL, LF, CR or `=`. */
  function Encode(bytes: seq<Byte>): (r: seq<Unit>)
    ensures |r| == |bytes| + CriticalCount(bytes)
    ensures forall i :: 0 <= i < |r| ==> r[i] != 0 && r[i] != 10 && r[i] != 13
    ensures forall i :: 0 <= i < |r| && r[i] == Marker ==> i + 1 < |r| && r[i + 1] in {64, 74, 77, 125}
  {
    if |bytes| == 0 then []
    else
      var head := EncodeByte(bytes[0]);
      var tail := Encode(bytes[1..]);
      assert forall i :: |head| <= i < |head + tail| ==> (head + tail)[i] == tail[i - |head|];
      head + tail
  }

  /* ---------------------------------------------------------------------
     decode
     --------------------------------------------------------------------- */

  /** Where decoding starts and which offset it removes. */
  datatype Header = Header(offset: Byte, start: nat)

  /** Whether the string carries a version-0 header with a readable offset. */
  predicate HasHeader(s: seq<Unit>) {
    && |s| > 13
    && s[..9] == Magic
    && IsHex(s[9..11]) && ParseHex(s[9..11]) == 0
    && IsHex(s[11..13])
  }

  /** Lines 62-74: the header, when present, gives the offset in units 11-12
      and the body starts at unit 13; otherwise the offset is 42 from unit 0. */
  function ReadHeader(s: seq<Unit>): (h: Header)
    ensures h.start <= |s|
    ensures h.start == 0 || h.start == HeaderLength
    ensures h.start == 0 ==> h.offset == 42
    ensures h.start == HeaderLength ==>
      && |s| > HeaderLength && s[..9] == Magic
      && IsHex(s[9..11]) && ParseHex(s[9..11]) == 0
      && IsHex(s[11..13]) && h.offset == ParseHex(s[11..13])
    ensures HasHeader(s) ==> h.start == HeaderLength
  {
    if HasHeader(s) then Header(ParseHex(s[11..13]), HeaderLength)
    else Header(DefaultOffset, 0)
  }

  /** The loop of lines 78-98 from a given state: an `=` seen while not
      escaped only sets the flag; any other unit is remapped through the
      override table, lowered by 64 if the flag is set, and unshifted. */
  function DecodeFrom(s: seq<Unit>, offset: Byte, escaped: bool): (r: seq<Byte>)
    ensures |r| <= |s|
    ensures |s| <= 2 * |r| + (if escaped then 0 else 1)
  {
    if |s| == 0 then []
    else if s[0] == Marker && !escaped then DecodeFrom(s[1..], offset, true)
    else
      var v := HtmlOverrides.Remap(s[0]);
      [Unshift(if escaped then v - 64 else v, offset)] + DecodeFrom(s[1..], offset, false)
  }

  /** `decode`: never longer than its input; a body that ends in a lone `=`
      loses it. */
  function Decode(s: seq<Unit>): (r: seq<Byte>)
    ensures |r| <= |s|
  {
    var h := ReadHeader(s);
    DecodeFrom(s[h.start..], h.offset, false)
  }

  /** One unit of the decoding loop: what has been written, followed by
      the decoding of the rest, stays the same. */
  lemma DecodeStep(s: seq<Unit>, i: nat, offset: Byte, escaped: bool, output: seq<Byte>, target: seq<Byte>)
    requires i < |s| && output + DecodeFrom(s[i..], offset, escaped) == target
    ensures s[i] == Marker && !escaped ==> output + DecodeFrom(s[i + 1..], offset, true) == target
    ensures !(s[i] == Marker && !escaped) ==>
      var v := HtmlOverrides.Remap(s[i]);
      (output + [Unshift(if escaped then v - 64 else v, offset)]) + DecodeFrom(s[i + 1..], offset, false) == target
  {
    assert s[i..][0] == s[i] && s[i..][1..] == s[i + 1..];
    if !(s[i] == Marker && !escaped) {
      var v := HtmlOverrides.Remap(s[i]);
      var x := Unshift(if escaped then v - 64 else v, offset);
      var rest := DecodeFrom(s[i + 1..], offset, false);
      assert output + ([x] + rest) == (output + [x]) + rest;
    }
  }

  /** The number of units of s that only set the escape flag, starting from
      state escaped. */
  function Consumed(s: seq<Unit>, escaped: bool): nat {
    if |s| == 0 then 0
    else if s[0] == Marker && !escaped then 1 + Consumed(s[1..], true)
    else Consumed(s[1..], false)
  }

  /** Every unit yields one byte except the `=` units that set the flag. */
  lemma {:induction false} DecodeLength(s: seq<Unit>, offset: Byte, escaped: bool)
    ensures |DecodeFrom(s, offset, escaped)| == |s| - Consumed(s, escaped)
  {
    if |s| > 0 {
      DecodeLength(s[1..], offset, s[0] == Marker && !escaped);
    }
  }

  /** The escape flag after the loop has consumed s from state escaped. */
  function FlagAfter(s: seq<Unit>, escaped: bool): bool {
    if |s| == 0 then escaped
    else FlagAfter(s[1..], s[0] == Marker && !escaped)
  }

  /** An `=` appended to a string is data when the flag is set after it
      (`=` then 61 - 64), and otherwise only sets the flag: a lone `=` at the
      end of a body yields no byte. */
  lemma {:induction false} AppendMarker(s: seq<Unit>, offset: Byte, escaped: bool)
    ensures DecodeFrom(s + [Marker], offset, escaped)
      == DecodeFrom(s, offset, escaped) + (if FlagAfter(s, escaped) then [Unshift(Marker - 64, offset)] else [])
  {
    if |s| == 0 {
      assert s + [Marker] == [Marker];
    } else {
      var t := s + [Marker];
      assert t[0] == s[0] && t[1..] == s[1..] + [Marker];
      AppendMarker(s[1..], offset, s[0] == Marker && !escaped);
    }
  }

  /** One iteration of the decoding loop at unit i: an `=` while not
      escaped sets the flag, any other unit is remapped, lowered by 64 if
      escaped, unshifted and written. */
  method DecodeUnit(s: seq<Unit>, i: nat, offset: Byte, escaped: bool, output: seq<Byte>, ghost target: seq<Byte>)
    returns (output': seq<Byte>, escaped': bool)
    requires i < |s| && output + DecodeFrom(s[i..], offset, escaped) == target
    ensures output' + DecodeFrom(s[i + 1..], offset, escaped') == target
  {
    var u := s[i];
    DecodeStep(s, i, offset, escaped, output, target);
    if u == Marker && !escaped {
      return output, true;
    }
    var v := HtmlOverrides.Remap(u);
    if escaped {
      v := v - 64;
    }
    return output + [Unshift(v, offset)], false;
  }

  /** `decode` as the source writes it: one pass with an escape flag,
      appending each decoded byte to the output. */
  method DecodeLoop(s: seq<Unit>) returns (output: seq<Byte>)
    ensures output == Decode(s)
  {
    var h := ReadHeader(s);
    var offset := h.offset;
    ghost var target := Decode(s);
    var escaped := false;
    output := [];
    var i := h.start;
    while i < |s|
      invariant h.start <= i <= |s|
      invariant output + DecodeFrom(s[i..], offset, escaped) == target
    {
      output, escaped := DecodeUnit(s, i, offset, escaped, output, target);
      i := i + 1;
    }
  }

  /* ---------------------------------------------------------------------
     dynamicEncode
     --------------------------------------------------------------------- */

  /** The `stringWrapper` argument: the quote the output will sit inside. */
  datatype Quote = DoubleQuote | SingleQuote | Backtick

  /** Lines 108-139, `shouldEscape(byte1, byte2)` on shifted values; `next`
      is `None` after the last byte, where the source compares `NaN`. */
  predicate ShouldEscape(w: Quote, b1: int, next: Option<int>) {
    match w
    case DoubleQuote => b1 in {0, 8, 9, 10, 11, 12, 13, 34, 92, 61}
    case SingleQuote => b1 in {0, 8, 9, 10, 11, 12, 13, 39, 92, 61}
    case Backtick => b1 == 61 || b1 == 13 || b1 == 96 || (b1 == 36 && next == Some(123))
  }

  /** `=` is escaped under every quote, so a decoder can read it as the
      pair opener; only the template literal looks at the next byte. */
  lemma EscapeShape(w: Quote, b1: int, next: Option<int>)
    ensures b1 == Marker ==> ShouldEscape(w, b1, next)
    ensures w != Backtick ==> (ShouldEscape(w, b1, next) <==> ShouldEscape(w, b1, None))
  {
  }

  /** A byte moved by the offset, as stored in a code unit. */
  function Shift(b: Byte, o: Byte): Byte {
    (b + o) % 256
  }

  /** Whether the byte at i is written as a pair under offset o. */
  predicate EscapeAt(bytes: seq<Byte>, o: Byte, w: Quote, i: nat)
    requires i < |bytes|
  {
    ShouldEscape(w, Shift(bytes[i], o), if i + 1 < |bytes| then Some(Shift(bytes[i + 1], o)) else None)
  }

  /** The number of positions from i on that are written as a pair. */
  function Escapes(bytes: seq<Byte>, o: Byte, w: Quote, i: nat): nat
    requires i <= |bytes|
    decreases |bytes| - i
  {
    if i == |bytes| then 0
    else (if EscapeAt(bytes, o, w, i) then 1 else 0) + Escapes(bytes, o, w, i + 1)
  }

  /** The `length` lines 143-151 compute for offset o. */
  function BodyLength(bytes: seq<Byte>, o: Byte, w: Quote): nat {
    |bytes| + Escapes(bytes, o, w, 0)
  }

  /** Lines 142-157 from offset o on, with `best` the offset kept so far:
      an offset replaces it only when strictly shorter, so the lowest of the
      shortest offsets wins. */
  function SearchFrom(bytes: seq<Byte>, w: Quote, o: nat, best: Byte): (r: Byte)
    requires 0 < o <= 256 && best < o
    requires forall p :: 0 <= p < o ==> BodyLength(bytes, best, w) <= BodyLength(bytes, p, w)
    requires forall p :: 0 <= p < best ==> BodyLength(bytes, best, w) < BodyLength(bytes, p, w)
    ensures forall p :: 0 <= p < 256 ==> BodyLength(bytes, r, w) <= BodyLength(bytes, p, w)
    ensures forall p :: 0 <= p < r ==> BodyLength(bytes, r, w) < BodyLength(bytes, p, w)
    decreases 256 - o
  {
    if o == 256 then best
    else if BodyLength(bytes, o, w) < BodyLength(bytes, best, w) then SearchFrom(bytes, w, o + 1, o)
    else SearchFrom(bytes, w, o + 1, best)
  }

  /** The offset `dynamicEncode` picks: the lowest one whose body is
      shortest. (The source starts from an infinite best length, so offset 0
      is always taken first.) */
  function BestOffset(bytes: seq<Byte>, w: Quote): (r: Byte)
    ensures forall p :: 0 <= p < 256 ==> BodyLength(bytes, r, w) <= BodyLength(bytes, p, w)
    ensures forall p :: 0 <= p < r ==> BodyLength(bytes, r, w) < BodyLength(bytes, p, w)
  {
    SearchFrom(bytes, w, 1, 0)
  }

  /** What lines 166-173 write for the byte at i: the shifted value, or `=`
      and the shifted value plus 64. */
  function Token(bytes: seq<Byte>, o: Byte, w: Quote, i: nat): (r: seq<Unit>)
    requires i < |bytes|
  {
    var b1 := Shift(bytes[i], o);
    if EscapeAt(bytes, o, w, i) then [Marker, (b1 + 64) % 256] else [b1]
  }

  /** Lines 165-174 from position i on. */
  function EmitFrom(bytes: seq<Byte>, o: Byte, w: Quote, i: nat): (r: seq<Unit>)
    requires i <= |bytes|
    ensures |r| == |bytes| - i + Escapes(bytes, o, w, i)
    decreases |bytes| - i
  {
    if i == |bytes| then [] else Token(bytes, o, w, i) + EmitFrom(bytes, o, w, i + 1)
  }

  /** Lines 159-163: `"DynEncode"`, version `"00"`, the offset as two
      lower-case hex digits. */
  function HeaderUnits(o: Byte): (r: seq<Unit>)
    ensures |r| == HeaderLength
  {
    Magic + [48, 48] + Hex2(o)
  }

  /** `dynamicEncode`: a header naming the chosen offset, then a body no
      longer than the body any other offset would give. */
  function DynamicEncode(bytes: seq<Byte>, w: Quote): (r: seq<Unit>)
    ensures |r| >= HeaderLength
    ensures r[..HeaderLength] == HeaderUnits(BestOffset(bytes, w))
    ensures forall p :: 0 <= p < 256 ==> |r| <= HeaderLength + BodyLength(bytes, p, w)
  {
    var o := BestOffset(bytes, w);
    HeaderUnits(o) + EmitFrom(bytes, o, w, 0)
  }

  /* ---------------------------------------------------------------------
     Properties of encode and decode
     --------------------------------------------------------------------- */

  /** A pair `=`, x decodes to x lowered by 64 and unshifted. */
  lemma DecodePair(x: Unit, rest: seq<Unit>, o: Byte)
    requires x < 256
    ensures DecodeFrom([Marker, x] + rest, o, false) == [Unshift(x - 64, o)] + DecodeFrom(rest, o, false)
  {
    var t := [Marker, x] + rest;
    assert t[1..] == [x] + rest && t[1..][1..] == rest;
  }

  /** A single unit other than `=` decodes to itself unshifted. */
  lemma DecodeSingle(x: Unit, rest: seq<Unit>, o: Byte)
    requires x < 256 && x != Marker
    ensures DecodeFrom([x] + rest, o, false) == [Unshift(x, o)] + DecodeFrom(rest, o, false)
  {
    var t := [x] + rest;
    assert t[1..] == rest;
  }

  /** What `encode` writes for one byte decodes, with offset 42, to it. */
  lemma EncodeByteDecode(b: Byte, rest: seq<Unit>)
    ensures DecodeFrom(EncodeByte(b) + rest, DefaultOffset, false) == [b] + DecodeFrom(rest, DefaultOffset, false)
  {
    var e := (b + 42) % 256;
    ShiftUnshift(b, DefaultOffset);
    assert Shift(b, DefaultOffset) == e;
    if IsCritical(e) {
      DecodePair((e + 64) % 256, rest, DefaultOffset);
    } else {
      DecodeSingle(e, rest, DefaultOffset);
    }
  }

  /** The body `encode` writes decodes, with offset 42, to the input. */
  lemma {:induction false} EncodeDecodeBody(bytes: seq<Byte>)
    ensures DecodeFrom(Encode(bytes), DefaultOffset, false) == bytes
  {
    if |bytes| > 0 {
      EncodeDecodeBody(bytes[1..]);
      EncodeByteDecode(bytes[0], Encode(bytes[1..]));
      assert Encode(bytes) == EncodeByte(bytes[0]) + Encode(bytes[1..]);
      assert bytes == [bytes[0]] + bytes[1..];
    }
  }

  /** Fixed-offset round trip: `decode(encode(B)) == B` unless the encoded
      string happens to begin with the magic tag and is long enough to be
      taken for a header. */
  lemma FixedRoundTrip(bytes: seq<Byte>)
    requires !(|Encode(bytes)| > 13 && Encode(bytes)[..9] == Magic)
    ensures Decode(Encode(bytes)) == bytes
  {
    EncodeDecodeBody(bytes);
  }

  /** When no byte is critical, `encode` is the plain shift by 42. */
  lemma {:induction false} EncodePlain(bytes: seq<Byte>)
    requires forall i :: 0 <= i < |bytes| ==> !IsCritical((bytes[i] as int + 42) % 256)
    ensures |Encode(bytes)| == |bytes|
    ensures forall i :: 0 <= i < |bytes| ==> Encode(bytes)[i] == (bytes[i] as int + 42) % 256
  {
    if |bytes| > 0 {
      EncodePlain(bytes[1..]);
      assert !IsCritical((bytes[0] as int + 42) % 256);
    }
  }

  /** The magic tag is not reserved: these 14 bytes encode to
      `DynEncode002a*`, which `decode` reads as a header with offset 42 and a
      one-unit body, so the round trip returns one byte instead of 14. */
  lemma LegacyTagCollision()
    ensures var bytes := [26, 79, 68, 27, 68, 57, 69, 58, 59, 6, 6, 8, 55, 0];
      Decode(Encode(bytes)) == [0] && Decode(Encode(bytes)) != bytes
  {
    var bytes: seq<Byte> := [26, 79, 68, 27, 68, 57, 69, 58, 59, 6, 6, 8, 55, 0];
    var s: seq<Unit> := [68, 121, 110, 69, 110, 99, 111, 100, 101, 48, 48, 50, 97, 42];
    CollisionEncode(bytes, s);
    CollisionDecode(s);
  }

  lemma CollisionEncode(bytes: seq<Byte>, s: seq<Unit>)
    requires bytes == [26, 79, 68, 27, 68, 57, 69, 58, 59, 6, 6, 8, 55, 0]
    requires s == [68, 121, 110, 69, 110, 99, 111, 100, 101, 48, 48, 50, 97, 42]
    ensures Encode(bytes) == s
  {
    assert forall i :: 0 <= i < |bytes| ==> (bytes[i] as int + 42) % 256 == s[i];
    assert forall i :: 0 <= i < |s| ==> !IsCritical(s[i]);
    EncodePlain(bytes);
  }

  lemma CollisionDecode(s: seq<Unit>)
    requires s == [68, 121, 110, 69, 110, 99, 111, 100, 101, 48, 48, 50, 97, 42]
    ensures Decode(s) == [0]
  {
    assert s[..9] == Magic && s[9..11] == [48, 48] && s[11..13] == [50, 97];
    assert [48, 48][..1] == [48] && [50, 97][..1] == [50];
    assert ParseHex([48, 48]) == 0 && ParseHex([50, 97]) == 42;
    assert HasHeader(s);
    assert s[13..] == [42];
    assert DecodeFrom([42], 42, false) == [Unshift(42, 42)] + DecodeFrom([], 42, false);
  }

  /** Decoding is blind to the HTML parser's substitutions of bytes
      0x80-0x9F, from any escape state. */
  lemma {:induction false} DecodeFromSubstituted(s: seq<Unit>, offset: Byte, escaped: bool)
    ensures DecodeFrom(HtmlOverrides.SubstituteAll(s), offset, escaped) == DecodeFrom(s, offset, escaped)
  {
    if |s| > 0 {
      var t := HtmlOverrides.SubstituteAll(s);
      assert t[1..] == HtmlOverrides.SubstituteAll(s[1..]);
      DecodeFromSubstituted(s[1..], offset, true);
      DecodeFromSubstituted(s[1..], offset, false);
    }
  }

  /** The 13 header units are all ASCII. */
  lemma HeaderAscii(a: seq<Unit>)
    requires HasHeader(a)
    ensures forall i :: 0 <= i < 13 ==> a[i] < 128
  {
    forall i | 0 <= i < 13 ensures a[i] < 128 {
      if i < 9 { assert a[i] == a[..9][i]; }
      else if i < 11 { assert a[i] == a[9..11][i - 9]; }
      else { assert a[i] == a[11..13][i - 11]; }
    }
  }

  /** Whether a string has a header, and what it says, depends only on
      its length and first 13 units. */
  lemma HeaderPrefix(s: seq<Unit>, t: seq<Unit>)
    requires |s| == |t| && |s| >= 13 && s[..13] == t[..13]
    ensures ReadHeader(s) == ReadHeader(t)
  {
    assert s[..9] == s[..13][..9] && t[..9] == t[..13][..9];
    assert s[9..11] == s[..13][9..11] && t[9..11] == t[..13][9..11];
    assert s[11..13] == s[..13][11..13] && t[11..13] == t[..13][11..13];
  }

  /** A substitution never creates or destroys a header. */
  lemma ReadHeaderSubstituted(s: seq<Unit>)
    ensures ReadHeader(HtmlOverrides.SubstituteAll(s)) == ReadHeader(s)
  {
    var t := HtmlOverrides.SubstituteAll(s);
    if HasHeader(s) || HasHeader(t) {
      if HasHeader(s) {
        HeaderAscii(s);
      } else {
        HeaderAscii(t);
      }
      assert forall i :: 0 <= i < 13 ==> t[i] == s[i];
      assert t[..13] == s[..13];
      HeaderPrefix(s, t);
    }
  }

  /** `decode` returns the same bytes after an HTML parser has replaced
      bytes 0x80-0x9F by their Windows-1252 characters. */
  lemma DecodeSubstituted(s: seq<Unit>)
    ensures Decode(HtmlOverrides.SubstituteAll(s)) == Decode(s)
  {
    var t := HtmlOverrides.SubstituteAll(s);
    ReadHeaderSubstituted(s);
    var h := ReadHeader(s);
    assert t[h.start..] == HtmlOverrides.SubstituteAll(s[h.start..]);
    DecodeFromSubstituted(s[h.start..], h.offset, false);
  }

  /** Each of the 27 table entries decodes, escaped or not, to the byte of
      unit 127 + k. */
  lemma OverrideUnit(k: int, offset: Byte, escaped: bool)
    requires HtmlOverrides.IsEntry(k)
    ensures DecodeFrom([HtmlOverrides.Slot(k)], offset, escaped) == DecodeFrom([k + 127], offset, escaped)
  {
    HtmlOverrides.RemapEntry(k);
  }

  /** A unit above 255 that no slot holds falls through the lookup and is
      unshifted as it stands, so the store keeps it modulo 256. */
  lemma ForeignUnit(u: Unit, offset: Byte, escaped: bool)
    requires u > 255 && forall k :: HtmlOverrides.IsEntry(k) ==> HtmlOverrides.Slot(k) != u
    ensures DecodeFrom([u], offset, escaped) == [Unshift(u - (if escaped then 64 else 0), offset)]
    ensures DecodeFrom([u], offset, escaped) == [(u - (if escaped then 64 else 0) - offset) % 256]
  {
    HtmlOverrides.RemapKeys(u);
  }

  /* ---------------------------------------------------------------------
     Properties of dynamicEncode
     --------------------------------------------------------------------- */

  /** Removing the offset undoes adding it. */
  lemma ShiftUnshift(b: Byte, o: Byte)
    ensures Unshift(Shift(b, o), o) == b
    ensures Unshift((Shift(b, o) + 64) % 256 - 64, o) == b
  {
    var x: int := Shift(b, o);
    if b + o < 256 { assert x == b + o; } else { assert x == b + o - 256; }
    if x + 64 < 256 { assert (x + 64) % 256 - 64 == x; } else { assert (x + 64) % 256 - 64 == x - 256; }
  }

  /** One token followed by more units decodes to its byte, then the rest. */
  lemma TokenDecode(bytes: seq<Byte>, o: Byte, w: Quote, i: nat, rest: seq<Unit>)
    requires i < |bytes|
    ensures DecodeFrom(Token(bytes, o, w, i) + rest, o, false) == [bytes[i]] + DecodeFrom(rest, o, false)
  {
    var b1 := Shift(bytes[i], o);
    ShiftUnshift(bytes[i], o);
    if EscapeAt(bytes, o, w, i) {
      assert Token(bytes, o, w, i) == [Marker, (b1 + 64) % 256];
      DecodePair((b1 + 64) % 256, rest, o);
    } else {
      assert Token(bytes, o, w, i) == [b1] && b1 != Marker;
      DecodeSingle(b1, rest, o);
    }
  }

  /** The body written from position i decodes to the bytes from i on. */
  lemma {:induction false} EmitDecode(bytes: seq<Byte>, o: Byte, w: Quote, i: nat)
    requires i <= |bytes|
    ensures DecodeFrom(EmitFrom(bytes, o, w, i), o, false) == bytes[i..]
    decreases |bytes| - i
  {
    if i < |bytes| {
      EmitDecode(bytes, o, w, i + 1);
      TokenDecode(bytes, o, w, i, EmitFrom(bytes, o, w, i + 1));
      assert EmitFrom(bytes, o, w, i) == Token(bytes, o, w, i) + EmitFrom(bytes, o, w, i + 1);
      assert bytes[i..] == [bytes[i]] + bytes[i + 1..];
    }
  }

  /** The header `dynamicEncode` writes is recognised once a body follows. */
  lemma HeaderRead(o: Byte, body: seq<Unit>)
    requires |body| > 0
    ensures ReadHeader(HeaderUnits(o) + body) == Header(o, HeaderLength)
  {
    var s := HeaderUnits(o) + body;
    assert s[..9] == Magic && s[9..11] == [48, 48] && s[11..13] == Hex2(o);
    assert [48, 48][..1] == [48];
    assert ParseHex([48, 48]) == 0;
  }

  /** Dynamic round trip: `decode(dynamicEncode(B, w)) == B` for every
      non-empty B and every quote. */
  lemma DynamicRoundTrip(bytes: seq<Byte>, w: Quote)
    requires |bytes| > 0
    ensures Decode(DynamicEncode(bytes, w)) == bytes
  {
    var o := BestOffset(bytes, w);
    var body := EmitFrom(bytes, o, w, 0);
    HeaderRead(o, body);
    assert (HeaderUnits(o) + body)[HeaderLength..] == body;
    EmitDecode(bytes, o, w, 0);
  }

  /** Empty input: `dynamicEncode` writes the 13-unit header alone, which
      the `> 13` length test does not accept, so `decode` reads the header as
      a header-less body and returns bytes where none were encoded. */
  lemma EmptyDynamicEncode(w: Quote)
    ensures |DynamicEncode([], w)| == HeaderLength
    ensures !HasHeader(DynamicEncode([], w))
    ensures Decode(DynamicEncode([], w)) != []
  {
  }

  /** A body whose every `=` is followed by a unit other than `=`. */
  predicate PairsClosed(r: seq<Unit>) {
    forall k :: 0 <= k < |r| && r[k] == Marker ==> k + 1 < |r| && r[k + 1] != Marker
  }

  /** What each context keeps out of a body: in a quoted string no unit
      but `=` is one the quote escapes; in a template literal no unit is CR
      or a backtick and no `$` is followed by `{`. */
  predicate SafeFor(w: Quote, r: seq<Unit>) {
    if w == Backtick then
      && (forall k :: 0 <= k < |r| ==> r[k] != 13 && r[k] != 96)
      && (forall k :: 0 <= k < |r| - 1 ==> !(r[k] == 36 && r[k + 1] == 123))
    else
      forall k :: 0 <= k < |r| && r[k] != Marker ==> !ShouldEscape(w, r[k], None)
  }

  /** The first unit of the body from i: `=` or the unescaped shifted byte. */
  lemma EmitFirst(bytes: seq<Byte>, o: Byte, w: Quote, i: nat)
    requires i < |bytes|
    ensures EmitFrom(bytes, o, w, i)[0] == (if EscapeAt(bytes, o, w, i) then Marker else Shift(bytes[i], o))
  {
  }

  /** Every `=` of a body opens a pair whose second unit is not `=`. */
  lemma {:induction false} EmitPairsClosed(bytes: seq<Byte>, o: Byte, w: Quote, i: nat)
    requires i <= |bytes|
    ensures PairsClosed(EmitFrom(bytes, o, w, i))
    decreases |bytes| - i
  {
    if i < |bytes| {
      EmitPairsClosed(bytes, o, w, i + 1);
      var tok := Token(bytes, o, w, i);
      var rest := EmitFrom(bytes, o, w, i + 1);
      var r := tok + rest;
      forall k | 0 <= k < |r| && r[k] == Marker ensures k + 1 < |r| && r[k + 1] != Marker {
        if k >= |tok| {
          assert r[k] == rest[k - |tok|] && r[k + 1] == rest[k + 1 - |tok|];
        }
      }
    }
  }

  /** A single token holds nothing its context forbids. */
  lemma TokenSafe(bytes: seq<Byte>, o: Byte, w: Quote, i: nat)
    requires i < |bytes|
    ensures SafeFor(w, Token(bytes, o, w, i))
  {
  }

  /** Two safe pieces join safely when no `$` ends the first while a `{`
      starts the second. */
  lemma SafeConcat(w: Quote, a: seq<Unit>, b: seq<Unit>)
    requires SafeFor(w, a) && SafeFor(w, b)
    requires w == Backtick && |a| > 0 && |b| > 0 ==> !(a[|a| - 1] == 36 && b[0] == 123)
    ensures SafeFor(w, a + b)
  {
    var r := a + b;
    forall k | |a| <= k < |r| ensures r[k] == b[k - |a|] { }
    if w == Backtick {
      forall k | 0 <= k < |r| - 1 ensures !(r[k] == 36 && r[k + 1] == 123) {
        if k >= |a| {
          assert r[k + 1] == b[k + 1 - |a|];
        } else if k + 1 < |a| {
          assert r[k + 1] == a[k + 1];
        }
      }
    }
  }

  /** A body holds nothing its context forbids. */
  lemma {:induction false} EmitSafe(bytes: seq<Byte>, o: Byte, w: Quote, i: nat)
    requires i <= |bytes|
    ensures SafeFor(w, EmitFrom(bytes, o, w, i))
    decreases |bytes| - i
  {
    if i < |bytes| {
      EmitSafe(bytes, o, w, i + 1);
      TokenSafe(bytes, o, w, i);
      if i + 1 < |bytes| {
        EmitFirst(bytes, o, w, i + 1);
      }
      SafeConcat(w, Token(bytes, o, w, i), EmitFrom(bytes, o, w, i + 1));
    }
  }

  /** The whole of a `dynamicEncode` body is safe for its quote. */
  lemma DynamicEncodeSafe(bytes: seq<Byte>, w: Quote)
    ensures PairsClosed(DynamicEncode(bytes, w)[HeaderLength..])
    ensures SafeFor(w, DynamicEncode(bytes, w)[HeaderLength..])
  {
    var o := BestOffset(bytes, w);
    assert DynamicEncode(bytes, w)[HeaderLength..] == EmitFrom(bytes, o, w, 0);
    EmitPairsClosed(bytes, o, w, 0);
    EmitSafe(bytes, o, w, 0);
  }
}
