/**
 * The font file as a whole: the 4-byte signature that says what kind of file
 * it is, a single font (TrueType or CFF outlines), or a TrueType collection
 * whose header lists the offsets of its fonts.
 */
module Parse {
  import opened Bytes
  import opened Stream
  import opened Directory
  import opened Font

  /** The kinds of file a signature can name. */
  datatype Signature = TrueType | CFF | Woff | TrueTypeCollection

  const One: seq<byte> := [0x00, 0x01, 0x00, 0x00]
  const Otto: seq<byte> := [0x4F, 0x54, 0x54, 0x4F]   // "OTTO"
  const True: seq<byte> := [0x74, 0x72, 0x75, 0x65]   // "true"
  const Typ1: seq<byte> := [0x74, 0x79, 0x70, 0x31]   // "typ1"
  const WOFF: seq<byte> := [0x77, 0x4F, 0x46, 0x46]   // "wOFF"
  const Ttcf: seq<byte> := [0x74, 0x74, 0x63, 0x66]   // "ttcf"

  /**
   * Classifies a signature: three tags mean TrueType outlines, `OTTO` CFF
   * outlines, `wOFF` a WOFF file, `ttcf` a collection; any other value is
   * refused.
   */
  function ParseTag(tag: seq<byte>): (r: Result<Signature>)
    ensures r == Ok(TrueType) <==> tag == One || tag == True || tag == Typ1
    ensures r == Ok(CFF) <==> tag == Otto
    ensures r == Ok(Woff) <==> tag == WOFF
    ensures r == Ok(TrueTypeCollection) <==> tag == Ttcf
    ensures r.Err? <==> tag !in {One, True, Typ1, Otto, WOFF, Ttcf}
    ensures r.Err? ==> r.error == UnsupportedSignature(tag)
  {
    if tag == One || tag == True || tag == Typ1 then Ok(TrueType)
    else if tag == Otto then Ok(CFF)
    else if tag == WOFF then Ok(Woff)
    else if tag == Ttcf then Ok(TrueTypeCollection)
    else Err(UnsupportedSignature(tag))
  }

  /** The signature a writer puts at the start of a file of kind `s`. */
  function SignatureTag(s: Signature): (tag: seq<byte>)
    ensures |tag| == 4
  {
    match s
    case TrueType => One
    case CFF => Otto
    case Woff => WOFF
    case TrueTypeCollection => Ttcf
  }

  lemma SignatureRoundTrip(s: Signature)
    ensures ParseTag(SignatureTag(s)) == Ok(s)
  {
  }

  /** What a font file yields: the metadata of one font, or of each font of a collection. */
  datatype Parsed = Single(font: FontData) | Collection(fonts: seq<FontData>)

  // ---------------------------------------------------------------------------
  // The collection header: the `ttcf` tag, a 4-byte version, the font count
  // and one 4-byte offset per font. Each font's offset table starts at its
  // offset; its parse begins 4 bytes later, past the font's own signature.
  // ---------------------------------------------------------------------------

  /** The `n` big-endian 32-bit offsets stored from `pos` on. */
  function Offsets(data: seq<byte>, pos: nat, n: nat): (offsets: seq<nat>)
    requires pos + 4 * n <= |data|
    ensures |offsets| == n
    ensures forall i | 0 <= i < n :: offsets[i] == U32At(data, pos + 4 * i)
  {
    seq(n, i requires 0 <= i < n => U32At(data, pos + 4 * i))
  }

  /** The header fields that store `offsets`, each as four big-endian bytes. */
  function EncodeOffsets(offsets: seq<nat>): (b: seq<byte>)
    requires forall i | 0 <= i < |offsets| :: offsets[i] < Two32
    ensures |b| == 4 * |offsets|
    decreases |offsets|
  {
    if offsets == [] then [] else EncodeU32(offsets[0]) + EncodeOffsets(offsets[1..])
  }

  /** Field `i` of the encoding is the encoding of offset `i`. */
  lemma {:induction false} EncodeOffsetsAt(offsets: seq<nat>, i: nat)
    requires forall j | 0 <= j < |offsets| :: offsets[j] < Two32
    requires i < |offsets|
    ensures EncodeOffsets(offsets)[4 * i..4 * i + 4] == EncodeU32(offsets[i])
    decreases i
  {
    var b := EncodeOffsets(offsets);
    var head, tail := EncodeU32(offsets[0]), EncodeOffsets(offsets[1..]);
    assert b == head + tail;
    if i > 0 {
      EncodeOffsetsAt(offsets[1..], i - 1);
      assert b[4 * i..4 * i + 4] == tail[4 * (i - 1)..4 * (i - 1) + 4];
    } else {
      assert b[0..4] == head;
    }
  }

  /** Reading back the fields that store a list of offsets yields that list. */
  lemma OffsetsRoundTrip(offsets: seq<nat>)
    requires forall i | 0 <= i < |offsets| :: offsets[i] < Two32
    ensures Offsets(EncodeOffsets(offsets), 0, |offsets|) == offsets
  {
    var b := EncodeOffsets(offsets);
    forall i | 0 <= i < |offsets|
      ensures U32At(b, 4 * i) == offsets[i]
    {
      EncodeOffsetsAt(offsets, i);
      U32RoundTrip(offsets[i]);
      U32AtField(b, 4 * i, EncodeU32(offsets[i]));
    }
  }

  /** The offsets read from a header are what the header's fields store. */
  lemma {:induction false} OffsetsFields(data: seq<byte>, pos: nat, n: nat)
    requires pos + 4 * n <= |data|
    ensures EncodeOffsets(Offsets(data, pos, n)) == data[pos..pos + 4 * n]
    decreases n
  {
    if n > 0 {
      var offsets := Offsets(data, pos, n);
      assert offsets[1..] == Offsets(data, pos + 4, n - 1);
      OffsetsFields(data, pos + 4, n - 1);
      U32Fields(data, pos);
      assert data[pos..pos + 4 * n] == data[pos..pos + 4] + data[pos + 4..pos + 4 + 4 * (n - 1)];
    }
  }

  /** The font of a collection whose offset table starts at `offset`. */
  ghost function CollectionEntry(data: seq<byte>, offset: nat, dec: Decoders): Result<FontData> {
    if offset + 4 > |data| then Err(EndOfStream) else TrueTypeFont(data, offset + 4, dec)
  }

  /** The fonts at `offsets`, in order; the first font that fails fails them all. */
  ghost function Fonts(data: seq<byte>, offsets: seq<nat>, dec: Decoders): Result<seq<FontData>>
    decreases |offsets|
  {
    if offsets == [] then Ok([])
    else
      var font :- CollectionEntry(data, offsets[0], dec);
      var rest :- Fonts(data, offsets[1..], dec);
      Ok([font] + rest)
  }

  /** The collection whose `ttcf` tag was read from the first 4 bytes. */
  ghost function CollectionFile(data: seq<byte>, dec: Decoders): Result<Parsed> {
    if 8 > |data| then Err(EndOfStream)
    else if 12 > |data| then Err(EndOfStream)
    else
      var numFonts := U32At(data, 8);
      if 12 + 4 * numFonts > |data| then Err(EndOfStream)
      else
        var fonts :- Fonts(data, Offsets(data, 12, numFonts), dec);
        Ok(Collection(fonts))
  }

  /** A single font: its offset table continues after the signature. */
  ghost function SingleFile(data: seq<byte>, dec: Decoders): Result<Parsed> {
    var font :- TrueTypeFont(data, 4, dec);
    Ok(Single(font))
  }

  /** What the parse of the font file `data` yields. */
  ghost function FontFile(data: seq<byte>, dec: Decoders): Result<Parsed> {
    if |data| < 4 then Err(EndOfStream)
    else
      var signature :- ParseTag(data[..4]);
      match signature
      case TrueType => SingleFile(data, dec)
      case CFF => SingleFile(data, dec)
      case Woff => Err(UnsupportedFontType)
      case TrueTypeCollection => CollectionFile(data, dec)
  }

  // ---------------------------------------------------------------------------
  // Properties of the whole parse.
  // ---------------------------------------------------------------------------

  /** WOFF files and unknown signatures are refused, so a parse that succeeds read a supported signature. */
  lemma Rejection(data: seq<byte>, dec: Decoders)
    ensures |data| >= 4 && data[..4] == WOFF ==> FontFile(data, dec) == Err(UnsupportedFontType)
    ensures |data| >= 4 && ParseTag(data[..4]).Err? ==> FontFile(data, dec) == Err(UnsupportedSignature(data[..4]))
    ensures FontFile(data, dec).Ok? ==> |data| >= 4 && data[..4] in {One, True, Typ1, Otto, Ttcf}
  {
  }

  /** A TrueType or CFF file is one font whose offset table continues at byte 4. */
  lemma SingleFont(data: seq<byte>, dec: Decoders)
    requires |data| >= 4 && data[..4] in {One, True, Typ1, Otto}
    ensures FontFile(data, dec).Ok? <==> TrueTypeFont(data, 4, dec).Ok?
    ensures FontFile(data, dec).Ok? ==> FontFile(data, dec).value == Single(TrueTypeFont(data, 4, dec).value)
    ensures FontFile(data, dec).Err? ==> FontFile(data, dec).error == TrueTypeFont(data, 4, dec).error
  {
  }

  /** The fonts at `offsets` succeed exactly when each entry does, and then are those entries in order. */
  lemma {:induction false} FontsInOrder(data: seq<byte>, offsets: seq<nat>, dec: Decoders)
    ensures Fonts(data, offsets, dec).Ok? <==>
      forall i | 0 <= i < |offsets| :: CollectionEntry(data, offsets[i], dec).Ok?
    ensures Fonts(data, offsets, dec).Ok? ==>
      && |Fonts(data, offsets, dec).value| == |offsets|
      && forall i | 0 <= i < |offsets| ::
           Fonts(data, offsets, dec).value[i] == CollectionEntry(data, offsets[i], dec).value
    decreases |offsets|
  {
    if offsets != [] {
      var rest := offsets[1..];
      FontsInOrder(data, rest, dec);
      assert forall i | 0 < i < |offsets| :: offsets[i] == rest[i - 1];
    }
  }

  /** A failing collection reports the error of its first failing entry. */
  lemma {:induction false} FontsFail(data: seq<byte>, offsets: seq<nat>, dec: Decoders) returns (i: nat)
    requires Fonts(data, offsets, dec).Err?
    ensures i < |offsets| && CollectionEntry(data, offsets[i], dec).Err?
    ensures forall j | 0 <= j < i :: CollectionEntry(data, offsets[j], dec).Ok?
    ensures Fonts(data, offsets, dec).error == CollectionEntry(data, offsets[i], dec).error
    decreases |offsets|
  {
    if CollectionEntry(data, offsets[0], dec).Err? {
      i := 0;
    } else {
      var rest := offsets[1..];
      var i' := FontsFail(data, rest, dec);
      i := i' + 1;
      assert forall j | 0 < j < |offsets| :: offsets[j] == rest[j - 1];
    }
  }

  /** The `i`-th font of a collection, at the `i`-th offset stored from byte 12 on. */
  ghost function FontAt(data: seq<byte>, i: nat, dec: Decoders): Result<FontData>
    requires 12 + 4 * i + 4 <= |data|
  {
    CollectionEntry(data, U32At(data, 12 + 4 * i), dec)
  }

  /** A file that starts with `ttcf` is parsed as a collection. */
  lemma CollectionIsFile(data: seq<byte>, dec: Decoders)
    requires |data| >= 4 && data[..4] == Ttcf
    ensures FontFile(data, dec) == CollectionFile(data, dec)
  {
    assert ParseTag(data[..4]) == Ok(TrueTypeCollection);
  }

  /**
   * With a complete header, a collection parses exactly when each of its
   * fonts does, and its fonts are then those fonts in the order of their
   * offsets; otherwise it reports the error of the first font that fails.
   */
  lemma CollectionOutcome(data: seq<byte>, dec: Decoders) returns (failing: nat)
    requires 12 <= |data| && 12 + 4 * U32At(data, 8) <= |data|
    ensures var r := CollectionFile(data, dec);
      && (r.Ok? <==> forall i | 0 <= i < U32At(data, 8) :: FontAt(data, i, dec).Ok?)
      && (r.Ok? ==>
            && r.value.Collection? && |r.value.fonts| == U32At(data, 8)
            && forall i | 0 <= i < U32At(data, 8) :: FontAt(data, i, dec) == Ok(r.value.fonts[i]))
      && (r.Err? ==>
            && failing < U32At(data, 8) && FontAt(data, failing, dec).Err?
            && r.error == FontAt(data, failing, dec).error
            && forall j | 0 <= j < failing :: FontAt(data, j, dec).Ok?)
  {
    var n := U32At(data, 8);
    var offsets := Offsets(data, 12, n);
    FontsInOrder(data, offsets, dec);
    forall i | 0 <= i < n
      ensures FontAt(data, i, dec) == CollectionEntry(data, offsets[i], dec)
    {
    }
    failing := 0;
    if Fonts(data, offsets, dec).Err? {
      failing := FontsFail(data, offsets, dec);
      assert FontAt(data, failing, dec) == CollectionEntry(data, offsets[failing], dec);
    }
  }

  /**
   * A collection that parses had a complete header, and yields exactly
   * `numFonts` fonts, the font count stored at byte 8; font `i` is the
   * single-font parse starting 4 bytes after the `i`-th stored offset.
   */
  lemma CollectionLayout(data: seq<byte>, dec: Decoders)
    requires |data| >= 4 && data[..4] == Ttcf
    requires FontFile(data, dec).Ok?
    ensures 12 <= |data| && 12 + 4 * U32At(data, 8) <= |data|
    ensures FontFile(data, dec).value.Collection?
    ensures var fonts := FontFile(data, dec).value.fonts;
      && |fonts| == U32At(data, 8)
      && forall i | 0 <= i < |fonts| ::
           && U32At(data, 12 + 4 * i) + 4 <= |data|
           && TrueTypeFont(data, U32At(data, 12 + 4 * i) + 4, dec) == Ok(fonts[i])
  {
    CollectionIsFile(data, dec);
    var _ := CollectionOutcome(data, dec);
    var fonts := FontFile(data, dec).value.fonts;
    forall i | 0 <= i < |fonts|
      ensures U32At(data, 12 + 4 * i) + 4 <= |data|
      ensures TrueTypeFont(data, U32At(data, 12 + 4 * i) + 4, dec) == Ok(fonts[i])
    {
      assert FontAt(data, i, dec) == Ok(fonts[i]);
    }
  }

  // ---------------------------------------------------------------------------
  // The parser.
  // ---------------------------------------------------------------------------

  /** The fonts of a collection, each parsed by a fresh cursor that skips to 4 bytes past its offset. */
  method ParseFonts(data: seq<byte>, offsets: seq<nat>, dec: Decoders) returns (r: Result<seq<FontData>>)
    ensures r == Fonts(data, offsets, dec)
  {
    var fonts: seq<FontData> := [];
    var k := 0;
    PrefixedEmpty(Fonts(data, offsets, dec));
    while k < |offsets|
      invariant k <= |offsets|
      invariant Fonts(data, offsets, dec) == Prefixed(fonts, Fonts(data, offsets[k..], dec))
    {
      assert offsets[k..][0] == offsets[k] && offsets[k..][1..] == offsets[k + 1..];
      var c := new Cursor(data);
      :- c.Skip(offsets[k] + 4);
      var font :- ParseTrueTypeFont(c, dec);
      assert fonts + [font] + [] == fonts + [font];
      PrefixedTwice(fonts, font, Fonts(data, offsets[k + 1..], dec));
      fonts := fonts + [font];
      k := k + 1;
    }
    assert offsets[k..] == [];
    assert fonts + [] == fonts;
    r := Ok(fonts);
  }

  /** `r` with `fonts` in front of its fonts. */
  ghost function Prefixed(fonts: seq<FontData>, r: Result<seq<FontData>>): Result<seq<FontData>> {
    match r
    case Ok(rest) => Ok(fonts + rest)
    case Err(e) => Err(e)
  }

  lemma PrefixedEmpty(r: Result<seq<FontData>>)
    ensures Prefixed([], r) == r
  {
    if r.Ok? {
      assert [] + r.value == r.value;
    }
  }

  lemma PrefixedTwice(fonts: seq<FontData>, font: FontData, r: Result<seq<FontData>>)
    ensures Prefixed(fonts, Prefixed([font], r)) == Prefixed(fonts + [font], r)
  {
    if r.Ok? {
      assert fonts + ([font] + r.value) == fonts + [font] + r.value;
    }
  }

  /**
   * Parses a collection whose `ttcf` tag the cursor has just read: skips the
   * version, reads the font count and the offsets, then the fonts.
   */
  method ParseCollection(c: Cursor, dec: Decoders) returns (r: Result<Parsed>)
    requires c.pos == 4
    modifies c
    ensures r == CollectionFile(c.data, dec)
  {
    var offsets: seq<nat> := [];
    :- c.Skip(4);
    var count :- c.Read(4);
    var numFonts := U32At(count, 0);
    assert numFonts == U32At(c.data, 8);
    var i := 0;
    while i < numFonts
      invariant i <= numFonts && c.pos == 12 + 4 * i <= |c.data|
      invariant |offsets| == i
      invariant forall j | 0 <= j < i :: offsets[j] == U32At(c.data, 12 + 4 * j)
    {
      var field := c.Read(4);
      if field.Err? {
        return Err(field.error);
      }
      offsets := offsets + [U32At(field.value, 0)];
      i := i + 1;
    }
    assert offsets == Offsets(c.data, 12, numFonts);
    var fonts :- ParseFonts(c.data, offsets, dec);
    r := Ok(Collection(fonts));
  }

  /** Parses the font file `data`. */
  method ParseFont(data: seq<byte>, dec: Decoders) returns (r: Result<Parsed>)
    ensures r == FontFile(data, dec)
  {
    var c := new Cursor(data);
    var tag :- c.Read(4);
    var signature :- ParseTag(tag);
    match signature
    case TrueType =>
      var font :- ParseTrueTypeFont(c, dec);
      r := Ok(Single(font));
    case CFF =>
      var font :- ParseTrueTypeFont(c, dec);
      r := Ok(Single(font));
    case Woff =>
      r := Err(UnsupportedFontType);
    case TrueTypeCollection =>
      r := ParseCollection(c, dec);
  }
}
