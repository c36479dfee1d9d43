/**
 The fields of a PNG file as sections 5.2, 11.2.2 and 11.3 of the W3C PNG Specification, Second
 Edition, print them, and the facts and the rewrite that follow from them.
 */
module PngFields {
  import opened Wrappers
  import opened Bytes
  import opened Layout
  import opened Selection
  import opened PngChunks
  import opened PngSniffer
  import PngInject
  import opened MetadataPolicies

  // ---------- spellings ----------

  lemma KindsSpelled(kind: Tag)
    ensures kind == IHDR <==> kind.Name() == "IHDR"
    ensures kind == PLTE <==> kind.Name() == "PLTE"
    ensures kind == IDAT <==> kind.Name() == "IDAT"
    ensures kind == IEND <==> kind.Name() == "IEND"
    ensures kind == TRNS <==> kind.Name() == "tRNS"
    ensures kind == ACTL <==> kind.Name() == "acTL"
    ensures kind == ICCP <==> kind.Name() == "iCCP"
    ensures kind == EXIF <==> kind.Name() == "eXIf"
    ensures kind == TEXT <==> kind.Name() == "tEXt"
    ensures kind == ZTXT <==> kind.Name() == "zTXt"
    ensures kind == ITXT <==> kind.Name() == "iTXt"
  {
  }

  // ---------- the rewrite ----------

  predicate IsText(c: Chunk) {
    c.kind.Name() == "tEXt" || c.kind.Name() == "zTXt" || c.kind.Name() == "iTXt"
  }

  predicate IsProfile(c: Chunk) {
    c.kind.Name() == "iCCP"
  }

  predicate IsExif(c: Chunk) {
    c.kind.Name() == "eXIf"
  }

  predicate Stays(c: Chunk, policy: MetadataPolicy) {
    match policy
    case KeepAll => true
    case StripAll => !IsText(c) && !IsProfile(c) && !IsExif(c)
    case PreserveIcc => !IsText(c) && !IsExif(c)
    case PreserveExif => !IsText(c) && !IsProfile(c)
  }

  lemma StaysIffKept(c: Chunk, policy: MetadataPolicy)
    requires policy != KeepAll
    ensures Stays(c, policy) <==> Keeps(policy, c.kind)
  {
    KindsSpelled(c.kind);
  }

  lemma {:induction false} SelectIsKept(cs: seq<Chunk>, policy: MetadataPolicy)
    requires policy != KeepAll
    ensures Kept(cs, policy) == Select(cs, c => Stays(c, policy))
  {
    if cs != [] {
      StaysIffKept(cs[0], policy);
      SelectIsKept(cs[1..], policy);
    }
  }

  /**
   The rewritten file holds the input's chunks up to `IEND`, in order, less the text chunks, and
   less the profile or the EXIF chunk unless that is what the policy preserves. A policy that
   keeps everything returns the file as it is, whatever it holds.
   */
  lemma RewrittenChunks(b: seq<byte>, policy: MetadataPolicy)
    requires Strip(b, policy).Some?
    ensures policy == KeepAll ==> Strip(b, policy).value == b
    ensures policy != KeepAll ==>
              var out := Strip(b, policy).value;
              && Walkable(b, 8) && Walkable(out, 8) && out[..8] == b[..8]
              && ChunksFrom(out, 8) == Select(ChunksFrom(b, 8), c => Stays(c, policy))
  {
    if policy != KeepAll {
      StripRemovesExactly(b, policy);
      SelectIsKept(ChunksFrom(b, 8), policy);
    }
  }

  // ---------- transparency and frames ----------

  predicate IsData(c: Chunk) {
    c.kind.Name() == "IDAT" || c.kind.Name() == "IEND"
  }

  predicate IsTransparency(c: Chunk) {
    c.kind.Name() == "tRNS"
  }

  /** An `acTL` chunk with room for the number of frames. */
  predicate IsCount(c: Chunk) {
    c.kind.Name() == "acTL" && |c.data| >= 4
  }

  /** The image data starts at `n`, or the list ends there. */
  predicate DataAt(cs: seq<Chunk>, n: nat) {
    n <= |cs| && (n < |cs| ==> IsData(cs[n])) && forall i | 0 <= i < n :: !IsData(cs[i])
  }

  /** What the chunks before the image data say, read from the last frame count among them. */
  ghost predicate Says(cs: seq<Chunk>, n: nat, facts: Ancillary)
    requires n <= |cs|
  {
    && (facts.hasTrns <==> exists i | 0 <= i < n :: IsTransparency(cs[i]))
    && ((forall i | 0 <= i < n :: !IsCount(cs[i])) ==> facts.frames == 1)
    && (forall k | 0 <= k < n :: IsCount(cs[k]) && (forall i | k < i < n :: !IsCount(cs[i])) ==>
          facts.frames == if BeValue(cs[k].data[..4]) > 1 then BeValue(cs[k].data[..4]) else 1)
  }

  lemma NotedSpelled(facts: Ancillary, c: Chunk)
    ensures var noted := NotedFrom(facts, c);
            && (noted.hasTrns <==> facts.hasTrns || IsTransparency(c))
            && (!IsCount(c) ==> noted.frames == facts.frames)
            && (IsCount(c) ==>
                  noted.frames == if BeValue(c.data[..4]) > 1 then BeValue(c.data[..4]) else 1)
  {
    KindsSpelled(c.kind);
    if |c.data| >= 4 {
      assert c.data[0..4] == c.data[..4];
    }
  }

  lemma DataPrefix(cs: seq<Chunk>, n: nat)
    requires DataAt(cs, n) && n > 0
    ensures !IsData(cs[0]) && DataAt(cs[1..], n - 1)
  {
  }

  lemma {:induction false} TransparencySaid(cs: seq<Chunk>, n: nat, facts: Ancillary)
    requires DataAt(cs, n)
    ensures FactsOf(cs, facts).hasTrns <==> facts.hasTrns || exists i | 0 <= i < n :: IsTransparency(cs[i])
    decreases |cs|
  {
    hide IsTransparency, NotedFrom;
    if cs != [] {
      FactsStep(cs, facts);
      if n > 0 {
        DataPrefix(cs, n);
        NotedSpelled(facts, cs[0]);
        TransparencySaid(cs[1..], n - 1, NotedFrom(facts, cs[0]));
        assert forall i | 0 < i < n :: cs[i] == cs[1..][i - 1];
        assert forall i | 0 <= i < n - 1 :: cs[1..][i] == cs[i + 1];
      }
    }
  }

  lemma FactsStep(cs: seq<Chunk>, facts: Ancillary)
    requires cs != []
    ensures FactsOf(cs, facts) == if IsData(cs[0]) then facts else FactsOf(cs[1..], NotedFrom(facts, cs[0]))
  {
    KindsSpelled(cs[0].kind);
  }

  lemma {:induction false} FramesSaid(cs: seq<Chunk>, n: nat, facts: Ancillary)
    requires DataAt(cs, n)
    ensures (forall i | 0 <= i < n :: !IsCount(cs[i])) ==> FactsOf(cs, facts).frames == facts.frames
    ensures forall k | 0 <= k < n :: IsCount(cs[k]) && (forall i | k < i < n :: !IsCount(cs[i])) ==>
              FactsOf(cs, facts).frames == if BeValue(cs[k].data[..4]) > 1 then BeValue(cs[k].data[..4]) else 1
    decreases |cs|
  {
    hide NotedFrom, BeValue;
    if cs != [] {
      FactsStep(cs, facts);
      if n > 0 {
        DataPrefix(cs, n);
        NotedSpelled(facts, cs[0]);
        FramesSaid(cs[1..], n - 1, NotedFrom(facts, cs[0]));
        assert forall i | 0 < i < n :: cs[i] == cs[1..][i - 1];
        assert forall i | 0 <= i < n - 1 :: cs[1..][i] == cs[i + 1];
      }
    }
  }

  /** Transparency and the frame count are what the chunks before the image data say. */
  lemma FactsAreSaid(cs: seq<Chunk>, n: nat)
    requires DataAt(cs, n)
    ensures Says(cs, n, FactsOf(cs, Ancillary(false, 1)))
  {
    TransparencySaid(cs, n, Ancillary(false, 1));
    FramesSaid(cs, n, Ancillary(false, 1));
  }

  // ---------- the header ----------

  /** Width, height, bit depth, colour type, and the compression, filter and interlace methods. */
  function Header(width: nat, height: nat, depth: byte, colour: byte, methods: seq<byte>): seq<byte> {
    Be32(width) + (Be32(height) + ([depth, colour] + methods))
  }

  /** The file starts with a header chunk that prints these fields. */
  ghost predicate PrintsHeader(b: seq<byte>, width: nat, height: nat, depth: byte, colour: byte, methods: seq<byte>) {
    && Walkable(b, 8) && width <= 0xFFFF_FFFF && height <= 0xFFFF_FFFF && |methods| == 3
    && var first := ChunksFrom(b, 8)[0];
    && first.kind.Name() == "IHDR" && first.data == Header(width, height, depth, colour, methods)
  }

  lemma HeaderFields(b: seq<byte>, width: nat, height: nat, depth: byte, colour: byte, methods: seq<byte>)
    requires PrintsHeader(b, width, height, depth, colour, methods)
    ensures StartsWithHeader(b) && TagAt(b, 12) == IHDR && |b| >= 33
    ensures Be32At(b, 16) == width && Be32At(b, 20) == height && b[25] == colour
  {
    var data := Header(width, height, depth, colour, methods);
    FirstRead(b);
    KindsSpelled(KindAt(b, 8));
    assert Be32At(b, 8) == 13;
    assert Holds(b, 16, data);
    HoldsBoth(b, 16, Be32(width), Be32(height) + ([depth, colour] + methods));
    HoldsBoth(b, 20, Be32(height), [depth, colour] + methods);
    HoldsBoth(b, 24, [depth, colour], methods);
    HoldsAt(b, 24, [depth, colour], 1);
    assert Limit(4) == 0x1_0000_0000;
    ReadAfterWrite(width, 4);
    ReadAfterWrite(height, 4);
  }

  lemma AlphaSpelled(colour: byte, ancillary: Ancillary)
    ensures Alpha(colour, ancillary)
            == if colour in {4, 6} then Some(true) else if colour in {0, 2, 3} then Some(ancillary.hasTrns) else None
  {
  }

  /**
   Of a file whose header prints these fields the sniffer reports the width, the height and what
   the chunks before the image data say; alpha is there for the two colour types that have it,
   for the other three it is whether there is a `tRNS` chunk, and any other type says nothing.
   */
  lemma HeaderIsSniffed(b: seq<byte>, width: nat, height: nat, depth: byte, colour: byte, methods: seq<byte>, n: nat)
    requires PrintsHeader(b, width, height, depth, colour, methods) && DataAt(ChunksFrom(b, 8), n)
    ensures exists said ::
              && Says(ChunksFrom(b, 8), n, said)
              && Sniff(b) == Returned(Ok(Facts(
                   width, height, said.frames,
                   if colour in {4, 6} then Some(true)
                   else if colour in {0, 2, 3} then Some(said.hasTrns)
                   else None)))
  {
    hide FactsFrom, FactsOf, Says, Be32At, Walkable, PrintsHeader, Alpha;
    HeaderFields(b, width, height, depth, colour, methods);
    FactsAfterHeader(b);
    var said := FactsOf(ChunksFrom(b, 8), Ancillary(false, 1));
    FactsAreSaid(ChunksFrom(b, 8), n);
    AlphaSpelled(colour, said);
  }

  lemma FactsAfterHeader(b: seq<byte>)
    requires StartsWithHeader(b)
    ensures FactsFrom(b, AFTER_IHDR, Ancillary(false, 1))
            == Returned(FactsOf(ChunksFrom(b, 8), Ancillary(false, 1)))
  {
    hide FactsFrom, ChunksFrom;
    AfterHeader(b);
    FactsMatch(b, AFTER_IHDR, Ancillary(false, 1));
    FactsOfPrepend(ChunkAt(b, 8), ChunksFrom(b, AFTER_IHDR), Ancillary(false, 1));
  }

  /** A file is refused exactly when it is too short for a header or does not name one. */
  lemma RefusedIffHeaderless(b: seq<byte>)
    ensures Sniff(b) == Returned(Err(DecodeFailed)) <==> |b| < 29 || TagAt(b, 12).Name() != "IHDR"
  {
    if |b| >= 29 {
      KindsSpelled(TagAt(b, 12));
    }
  }

  // ---------- the palette ----------

  /** A walkable file is accepted if and only if each palette has 1 to 256 entries of three bytes. */
  lemma PaletteIffTriples(b: seq<byte>)
    requires Walkable(b, 8)
    ensures PaletteValid(b, 8)
            <==> forall c | c in ChunksFrom(b, 8) && c.kind.Name() == "PLTE" ::
                   exists n | 1 <= n <= 256 :: |c.data| == 3 * n
  {
    hide PaletteValid, ChunksFrom;
    PaletteCheckIsExact(b, 8);
    var cs := ChunksFrom(b, 8);
    forall i | 0 <= i < |cs|
      ensures PaletteFits(cs[i].kind, |cs[i].data|)
              <==> (cs[i].kind.Name() == "PLTE" ==> exists n | 1 <= n <= 256 :: |cs[i].data| == 3 * n)
    {
      KindsSpelled(cs[i].kind);
      Triples(|cs[i].data|);
    }
  }

  lemma Triples(length: nat)
    ensures 0 < length <= 768 && length % 3 == 0 <==> exists n | 1 <= n <= 256 :: length == 3 * n
  {
    if 0 < length <= 768 && length % 3 == 0 {
      assert length == 3 * (length / 3);
    }
  }

  // ---------- the inserted packet ----------

  /** The eight bytes of section 5.2. */
  function Signature(): seq<byte> {
    [137] + Ascii("PNG") + [13, 10, 26, 10]
  }

  lemma SignatureSpelled()
    ensures PngInject.SIGNATURE == Signature() && |Signature()| == 8
  {
  }

  /**
   The keyword and its terminator, two zero bytes for text that is not compressed, an empty
   language tag and an empty translated keyword with their terminators, and the packet.
   */
  function PacketText(xmp: seq<byte>): seq<byte> {
    Ascii("XML:com.adobe.xmp") + [0] + [0, 0] + [0] + [0] + xmp
  }

  lemma PacketSpelled(xmp: seq<byte>)
    ensures PacketText(xmp) == PngInject.XMP_KEYWORD + [0, 0, 0, 0, 0] + xmp
  {
    var keyword := Ascii("XML:com.adobe.xmp");
    assert keyword == PngInject.XMP_KEYWORD;
    assert keyword + [0] + [0, 0] + [0] + [0] == keyword + [0, 0, 0, 0, 0];
  }

  /** An injection succeeds exactly on the signature with a first chunk that fits the file. */
  lemma InjectedIff(b: seq<byte>, xmp: seq<byte>)
    ensures PngInject.Inject(b, xmp).Ok?
            <==> 16 <= |b| && b[..8] == Signature() && 8 + 4 + 4 + Be32At(b, 8) + 4 <= |b|
    ensures PngInject.Inject(b, xmp).Err? ==> PngInject.Inject(b, xmp) == Err(EncodeFailed)
  {
    SignatureSpelled();
  }

  /** The chunk that stands after the first one in the new file is an `iTXt` chunk with the packet. */
  lemma InjectedText(b: seq<byte>, xmp: seq<byte>)
    requires PngInject.Inject(b, xmp).Ok? && PngInject.Fits(xmp)
    ensures var split, out := Next(b, SIGNATURE_LENGTH), PngInject.Inject(b, xmp).value;
            && split + 8 <= |out| && Next(out, split) <= |out|
            && ChunkAt(out, split).kind.Name() == "iTXt" && ChunkAt(out, split).data == PacketText(xmp)
  {
    hide PngInject.Inject, ChunkAt, PacketText;
    PngInject.InjectedChunk(b, xmp);
    PacketSpelled(xmp);
    KindsSpelled(ITXT);
  }
}
