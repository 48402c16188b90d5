/** The character-reference override table both decoders consult. An HTML
    parser that meets the numeric reference for a byte 0x80-0x9F replaces it
    by the Windows-1252 character of that byte; slot k of the table holds the
    code point that stands for byte 127 + k. Slot 0 and the unassigned
    Windows-1252 positions are holes in the source's array literal; they are
    written 0 here and are never keys of the lookup. */
module HtmlOverrides {
  import opened Common

  /** The code point in slot k, 0 for a hole. */
  function Slot(k: int): (cp: int)
    ensures cp == 0 || 255 < cp < 0x1_0000
  {
    match k
    case 1 => 8364
    case 3 => 8218
    case 4 => 402
    case 5 => 8222
    case 6 => 8230
    case 7 => 8224
    case 8 => 8225
    case 9 => 710
    case 10 => 8240
    case 11 => 352
    case 12 => 8249
    case 13 => 338
    case 15 => 381
    case 18 => 8216
    case 19 => 8217
    case 20 => 8220
    case 21 => 8221
    case 22 => 8226
    case 23 => 8211
    case 24 => 8212
    case 25 => 732
    case 26 => 8482
    case 27 => 353
    case 28 => 8250
    case 29 => 339
    case 31 => 382
    case 32 => 376
    case _ => 0
  }

  /** Number of slots in the source's array literal. */
  const Slots := 33

  /** A slot that holds a code point (not a hole). */
  predicate IsEntry(k: int) {
    0 < k < Slots && Slot(k) != 0
  }

  /** `htmlCodeOverrides.get(cp)`: the Map the source fills from the
      array, code point to slot, written out as the inverse table. */
  function Lookup(cp: int): (r: Option<nat>)
    ensures r.Some? ==> 0 < r.value < Slots && Slot(r.value) == cp
  {
    match cp
    case 8364 => Some(1)
    case 8218 => Some(3)
    case 402 => Some(4)
    case 8222 => Some(5)
    case 8230 => Some(6)
    case 8224 => Some(7)
    case 8225 => Some(8)
    case 710 => Some(9)
    case 8240 => Some(10)
    case 352 => Some(11)
    case 8249 => Some(12)
    case 338 => Some(13)
    case 381 => Some(15)
    case 8216 => Some(18)
    case 8217 => Some(19)
    case 8220 => Some(20)
    case 8221 => Some(21)
    case 8226 => Some(22)
    case 8211 => Some(23)
    case 8212 => Some(24)
    case 732 => Some(25)
    case 8482 => Some(26)
    case 353 => Some(27)
    case 8250 => Some(28)
    case 339 => Some(29)
    case 382 => Some(31)
    case 376 => Some(32)
    case _ => None
  }

  /** Lookup finds the slot holding cp exactly when there is one. */
  lemma LookupSpec(cp: int)
    ensures Lookup(cp).Some? ==> IsEntry(Lookup(cp).value) && Slot(Lookup(cp).value) == cp
    ensures Lookup(cp).None? ==> forall j :: IsEntry(j) ==> Slot(j) != cp
  {
  }

  /** No two slots hold the same key. */
  lemma EntriesDistinct()
    ensures forall i, j :: IsEntry(i) && IsEntry(j) && Slot(i) == Slot(j) ==> i == j
  {
  }

  /** Each of the 27 table entries is found at its own slot. */
  lemma LookupEntry(k: int)
    requires IsEntry(k)
    ensures Lookup(Slot(k)) == Some(k)
  {
    LookupSpec(Slot(k));
    EntriesDistinct();
  }

  /** Lines 86-89 of either decoder: a unit above 255 that is a key of the
      table becomes 127 plus its slot; every other unit is left alone
      (the lemma RemapKeys). */
  function Remap(u: int): (r: int)
    ensures u <= 255 ==> r == u
  {
    if u > 255 then
      match Lookup(u)
      case Some(k) => k + 127
      case None => u
    else u
  }

  /** Remap changes only keys of the table, each to the byte 0x80-0x9F of
      its slot, and leaves every other unit alone. */
  lemma RemapKeys(u: int)
    ensures Remap(u) != u ==> u > 255 && 128 <= Remap(u) < 160 && IsEntry(Remap(u) - 127) && Slot(Remap(u) - 127) == u
    ensures (forall k :: IsEntry(k) ==> Slot(k) != u) ==> Remap(u) == u
  {
    LookupSpec(u);
  }

  /** Decoding the substituted code point of slot k sees byte 127 + k. */
  lemma RemapEntry(k: int)
    requires IsEntry(k)
    ensures Remap(Slot(k)) == k + 127
  {
    LookupEntry(k);
    EntriesDistinct();
  }

  /** What an HTML parser does to one unit: a byte 0x80-0x9F that has a
      Windows-1252 character becomes that character's code point. */
  function Substitute(u: Unit): (r: Unit)
    ensures r == u || (128 <= u < 160 && r > 255)
    ensures Remap(r) == Remap(u)
  {
    if 128 <= u < 160 && Slot(u - 127) != 0 then
      RemapEntry(u - 127);
      Slot(u - 127)
    else u
  }

  /** An HTML parser's substitution applied to a whole string. */
  function SubstituteAll(s: seq<Unit>): (r: seq<Unit>)
    ensures |r| == |s|
    ensures forall i :: 0 <= i < |s| ==> r[i] == Substitute(s[i])
  {
    seq(|s|, i requires 0 <= i < |s| => Substitute(s[i]))
  }
}
