/**
 Reading a PNG file's facts by walking its chunk headers again.
 */
module PngSniffer {
  import opened Wrappers
  import opened Bytes
  import opened Layout
  import opened PngChunks
  import opened MetadataPolicies

  /** Where the chunks after a 13-byte `IHDR` start. */
  const AFTER_IHDR := 33

  datatype Ancillary = Ancillary(hasTrns: bool, frames: nat)

  // ---------- transparency and animation ----------

  function Noted(facts: Ancillary, kind: Tag, length: nat, frames: nat): Ancillary {
    if kind == TRNS then facts.(hasTrns := true)
    else if kind == ACTL && length >= 4 then facts.(frames := if frames > 1 then frames else 1)
    else facts
  }

  /** The bytes of the frame count that the walk reads at an `acTL` are missing. */
  predicate CountCutOff(b: seq<byte>, offset: nat)
    requires offset + 8 <= |b|
  {
    KindAt(b, offset) == ACTL && Be32At(b, offset) >= 4 && offset + 12 > |b|
  }

  function FactsFrom(b: seq<byte>, offset: nat, facts: Ancillary): Outcome<Ancillary>
    decreases |b| - offset
  {
    if offset + 8 > |b| || KindAt(b, offset) == IDAT || KindAt(b, offset) == IEND then Returned(facts)
    else if CountCutOff(b, offset) then IndexPanic
    else
      var frames := if KindAt(b, offset) == ACTL && Be32At(b, offset) >= 4 then Be32At(b, offset + 8) else 0;
      FactsFrom(b, Next(b, offset), Noted(facts, KindAt(b, offset), Be32At(b, offset), frames))
  }

  /** The walk reads the frame count of every `acTL` it passes: all of them are there. */
  predicate FrameCountsPresent(b: seq<byte>, offset: nat)
    decreases |b| - offset
  {
    offset + 8 <= |b| && KindAt(b, offset) != IDAT && KindAt(b, offset) != IEND ==>
      !CountCutOff(b, offset) && FrameCountsPresent(b, Next(b, offset))
  }

  /** The walk returns exactly when no frame count it reads is cut off. */
  lemma {:induction false} ReturnsIffCountsPresent(b: seq<byte>, offset: nat, facts: Ancillary)
    ensures FactsFrom(b, offset, facts).Returned? <==> FrameCountsPresent(b, offset)
    decreases |b| - offset
  {
    if offset + 8 <= |b| && KindAt(b, offset) != IDAT && KindAt(b, offset) != IEND && !CountCutOff(b, offset) {
      var frames := if KindAt(b, offset) == ACTL && Be32At(b, offset) >= 4 then Be32At(b, offset + 8) else 0;
      ReturnsIffCountsPresent(b, Next(b, offset), Noted(facts, KindAt(b, offset), Be32At(b, offset), frames));
    }
  }

  method PngAncillaryFacts(bytes: seq<byte>) returns (r: Outcome<Ancillary>)
    ensures r == FactsFrom(bytes, AFTER_IHDR, Ancillary(false, 1))
  {
    var facts := Ancillary(false, 1);
    var offset := AFTER_IHDR;
    while offset + 8 <= |bytes|
      invariant FactsFrom(bytes, offset, facts) == FactsFrom(bytes, AFTER_IHDR, Ancillary(false, 1))
      decreases |bytes| - offset
    {
      var length := Be32At(bytes, offset);
      var kind := TagAt(bytes, offset + 4);
      if kind == IDAT || kind == IEND {
        break;
      }
      if kind == TRNS {
        facts := facts.(hasTrns := true);
      } else if kind == ACTL && length >= 4 {
        if offset + 12 > |bytes| {
          return IndexPanic;
        }
        var frames := Be32At(bytes, offset + 8);
        facts := facts.(frames := if frames > 1 then frames else 1);
      }
      offset := offset + 12 + length;
    }
    return Returned(facts);
  }

  /** The same facts on the chunk list, up to the image data. */
  function FactsOf(cs: seq<Chunk>, facts: Ancillary): Ancillary
    decreases |cs|
  {
    if cs == [] || cs[0].kind == IDAT || cs[0].kind == IEND then facts
    else
      var frames := if |cs[0].data| >= 4 then Be32At(cs[0].data, 0) else 0;
      FactsOf(cs[1..], Noted(facts, cs[0].kind, |cs[0].data|, frames))
  }

  /** What one chunk adds, read from the chunk. */
  function NotedFrom(facts: Ancillary, c: Chunk): Ancillary {
    Noted(facts, c.kind, |c.data|, if |c.data| >= 4 then Be32At(c.data, 0) else 0)
  }

  lemma NotedAt(b: seq<byte>, offset: nat, facts: Ancillary)
    requires Walkable(b, offset) && KindAt(b, offset) != IDAT && KindAt(b, offset) != IEND
    ensures FactsFrom(b, offset, facts) == FactsFrom(b, Next(b, offset), NotedFrom(facts, ChunkAt(b, offset)))
  {
    if Be32At(b, offset) >= 4 {
      SubSlice(b, offset + 8, DataEnd(b, offset), 0, 4);
    }
  }

  lemma FactsOfPrepend(c: Chunk, rest: seq<Chunk>, facts: Ancillary)
    ensures FactsOf([c] + rest, facts)
            == if c.kind == IDAT || c.kind == IEND then facts else FactsOf(rest, NotedFrom(facts, c))
  {
    assert ([c] + rest)[1..] == rest && ([c] + rest)[0] == c;
  }

  /** On a walkable file the walk returns, with what the chunk list says. */
  lemma {:induction false} FactsMatch(b: seq<byte>, offset: nat, facts: Ancillary)
    requires Walkable(b, offset)
    ensures FactsFrom(b, offset, facts) == Returned(FactsOf(ChunksFrom(b, offset), facts))
    decreases |b| - offset
  {
    var c := ChunkAt(b, offset);
    if c.kind == IDAT || c.kind == IEND {
      assert ChunksFrom(b, offset)[0] == c;
    } else {
      var next, noted := Next(b, offset), NotedFrom(facts, c);
      assert FactsFrom(b, offset, facts) == FactsFrom(b, next, noted) by {
        NotedAt(b, offset, facts);
      }
      assert FactsOf(ChunksFrom(b, offset), facts) == FactsOf(ChunksFrom(b, next), noted) by {
        FactsOfPrepend(c, ChunksFrom(b, next), facts);
      }
      FactsMatch(b, next, noted);
    }
  }

  lemma {:induction false} KeptFacts(cs: seq<Chunk>, policy: MetadataPolicy, facts: Ancillary)
    ensures FactsOf(Kept(cs, policy), facts) == FactsOf(cs, facts)
    decreases |cs|
  {
    if cs != [] {
      var rest := Kept(cs[1..], policy);
      var frames := if |cs[0].data| >= 4 then Be32At(cs[0].data, 0) else 0;
      KeptFacts(cs[1..], policy, Noted(facts, cs[0].kind, |cs[0].data|, frames));
      assert ([cs[0]] + rest)[1..] == rest && ([cs[0]] + rest)[0] == cs[0];
    }
  }

  // ---------- the header ----------

  datatype Facts = Facts(width: nat, height: nat, frames: nat, alpha: Option<bool>)

  function Alpha(colorType: byte, ancillary: Ancillary): Option<bool> {
    if colorType == 4 || colorType == 6 then Some(true)
    else if colorType == 0 || colorType == 2 || colorType == 3 then Some(ancillary.hasTrns)
    else None
  }

  function Sniff(b: seq<byte>): Outcome<Result<Facts>> {
    if |b| < 29 || TagAt(b, 12) != IHDR then Returned(Err(DecodeFailed))
    else
      var walked := FactsFrom(b, AFTER_IHDR, Ancillary(false, 1));
      if walked.IndexPanic? then IndexPanic
      else
        var ancillary := walked.value;
        Returned(Ok(Facts(Be32At(b, 16), Be32At(b, 20), ancillary.frames, Alpha(b[25], ancillary))))
  }

  /** A signature and an `IHDR` chunk, and the head of an `acTL` chunk without its data. */
  function CutAfterActl(head: seq<byte>): seq<byte> {
    head + (Be32(4) + ACTL.Bytes())
  }

  /** 41 bytes that do not return: the frame count of the last eight is indexed but not there. */
  lemma CutFilePanics(head: seq<byte>)
    requires |head| == AFTER_IHDR && TagAt(head, 12) == IHDR
    ensures |CutAfterActl(head)| == 41 && Sniff(CutAfterActl(head)) == IndexPanic
  {
    var b := CutAfterActl(head);
    assert b[33..37] == Be32(4) && TagAt(b, 37) == ACTL && TagAt(b, 12) == IHDR;
    assert Limit(4) == U32_LIMIT;
    ReadAfterWrite(4, 4);
    assert CountCutOff(b, AFTER_IHDR);
  }

  /** The first chunk takes 13 bytes and no policy removes it: what every PNG starts with. */
  predicate StartsWithHeader(b: seq<byte>) {
    Walkable(b, SIGNATURE_LENGTH) && KindAt(b, SIGNATURE_LENGTH) == IHDR && Be32At(b, SIGNATURE_LENGTH) == 13
  }

  /** The same first chunk is the same bytes up to where the ancillary walk starts. */
  lemma SameHeader(b: seq<byte>, c: seq<byte>)
    requires StartsWithHeader(b) && Walkable(c, SIGNATURE_LENGTH)
    requires b[..8] == c[..8] && ChunkAt(b, SIGNATURE_LENGTH) == ChunkAt(c, SIGNATURE_LENGTH)
    ensures StartsWithHeader(c) && b[..AFTER_IHDR] == c[..AFTER_IHDR]
  {
    assert Be32At(c, 8) == |ChunkAt(c, 8).data| == |ChunkAt(b, 8).data| == 13;
    RawChunk(b, SIGNATURE_LENGTH);
    RawChunk(c, SIGNATURE_LENGTH);
    assert b[..8] + b[8..33] == b[..33] && c[..8] + c[8..33] == c[..33];
  }

  lemma SamePrefixSniffs(b: seq<byte>, c: seq<byte>)
    requires Walkable(b, AFTER_IHDR) && Walkable(c, AFTER_IHDR)
    requires b[..AFTER_IHDR] == c[..AFTER_IHDR]
    requires FactsFrom(b, AFTER_IHDR, Ancillary(false, 1)) == FactsFrom(c, AFTER_IHDR, Ancillary(false, 1))
    ensures Sniff(b) == Sniff(c)
  {
    assert forall i | 0 <= i < 33 :: b[i] == b[..33][i] && c[i] == c[..33][i];
    assert b[16..20] == c[16..20] && b[20..24] == c[20..24];
  }

  lemma AfterHeader(b: seq<byte>)
    requires StartsWithHeader(b)
    ensures Walkable(b, AFTER_IHDR) && ChunksFrom(b, SIGNATURE_LENGTH)[1..] == ChunksFrom(b, AFTER_IHDR)
    ensures ChunksFrom(b, SIGNATURE_LENGTH) == [ChunkAt(b, SIGNATURE_LENGTH)] + ChunksFrom(b, AFTER_IHDR)
    ensures ChunkAt(b, SIGNATURE_LENGTH).kind == IHDR
  {
    var first, rest := ChunkAt(b, SIGNATURE_LENGTH), ChunksFrom(b, AFTER_IHDR);
    assert ([first] + rest)[1..] == rest;
  }

  lemma FirstRead(b: seq<byte>)
    requires Walkable(b, SIGNATURE_LENGTH)
    ensures ChunksFrom(b, SIGNATURE_LENGTH) != [] && ChunkAt(b, SIGNATURE_LENGTH) == ChunksFrom(b, SIGNATURE_LENGTH)[0]
  {
  }

  lemma KeptHeader(first: Chunk, rest: seq<Chunk>, policy: MetadataPolicy)
    requires first.kind == IHDR
    ensures Kept([first] + rest, policy) == [first] + Kept(rest, policy)
    ensures Kept([first] + rest, policy)[1..] == Kept(rest, policy)
  {
    assert ([first] + rest)[1..] == rest;
    assert ([first] + Kept(rest, policy))[1..] == Kept(rest, policy);
  }

  /** Stripping keeps the header in place and strips what follows it. */
  lemma StrippedRest(b: seq<byte>, policy: MetadataPolicy)
    requires policy != KeepAll && StartsWithHeader(b)
    ensures Strip(b, policy).Some?
    ensures var out := Strip(b, policy).value;
            && Walkable(b, AFTER_IHDR) && Walkable(out, AFTER_IHDR) && b[..AFTER_IHDR] == out[..AFTER_IHDR]
            && ChunksFrom(out, AFTER_IHDR) == Kept(ChunksFrom(b, AFTER_IHDR), policy)
  {
    hide Strip, Kept, ChunksFrom, ChunkAt;
    StripRemovesExactly(b, policy);
    var out := Strip(b, policy).value;
    AfterHeader(b);
    KeptHeader(ChunkAt(b, SIGNATURE_LENGTH), ChunksFrom(b, AFTER_IHDR), policy);
    FirstRead(out);
    hide Walkable;
    SameHeader(b, out);
    AfterHeader(out);
  }

  /**
   Stripping leaves everything the sniffer reports as it was: size, colour type, transparency
   and frame count.
   */
  lemma StripKeepsFacts(b: seq<byte>, policy: MetadataPolicy)
    requires policy != KeepAll && StartsWithHeader(b)
    ensures Strip(b, policy).Some?
    ensures Sniff(b).Returned? && Sniff(Strip(b, policy).value) == Sniff(b)
  {
    hide FactsFrom, FactsOf, Kept, Strip, Walkable, ChunksFrom, StartsWithHeader;
    StrippedRest(b, policy);
    var out, rest := Strip(b, policy).value, ChunksFrom(b, AFTER_IHDR);
    FactsMatch(b, AFTER_IHDR, Ancillary(false, 1));
    FactsMatch(out, AFTER_IHDR, Ancillary(false, 1));
    KeptFacts(rest, policy, Ancillary(false, 1));
    SamePrefixSniffs(b, out);
  }

  // ---------- EXIF ----------

  function ExifFrom(b: seq<byte>, offset: nat): Option<seq<byte>>
    decreases |b| - offset
  {
    if offset + 8 > |b| || DataEnd(b, offset) > |b| then None
    else if KindAt(b, offset) == EXIF then Some(StripExifPrefix(b[offset + 8..DataEnd(b, offset)]))
    else if KindAt(b, offset) == IEND then None
    else ExifFrom(b, Next(b, offset))
  }

  method PngExifPayload(bytes: seq<byte>) returns (r: Option<seq<byte>>)
    ensures r == ExifFrom(bytes, SIGNATURE_LENGTH)
  {
    var offset := 8;
    while offset + 8 <= |bytes|
      invariant ExifFrom(bytes, offset) == ExifFrom(bytes, 8)
      decreases |bytes| - offset
    {
      var length := Be32At(bytes, offset);
      var kind := TagAt(bytes, offset + 4);
      var start := offset + 8;
      var end := start + length;
      if end > |bytes| {
        return None;
      }
      if kind == EXIF {
        return Some(StripExifPrefix(bytes[start..end]));
      }
      if kind == IEND {
        return None;
      }
      offset := end + 4;
    }
    return None;
  }

  /** The first EXIF block of the list, without the prefix some writers carry over. */
  function ExifOf(cs: seq<Chunk>): Option<seq<byte>> {
    if cs == [] then None
    else if cs[0].kind == EXIF then Some(StripExifPrefix(cs[0].data))
    else ExifOf(cs[1..])
  }

  lemma {:induction false} ExifMatches(b: seq<byte>, offset: nat)
    requires Walkable(b, offset)
    ensures ExifFrom(b, offset) == ExifOf(ChunksFrom(b, offset))
    decreases |b| - offset
  {
    var c := ChunkAt(b, offset);
    if KindAt(b, offset) == IEND {
      assert [c][1..] == [];
    } else {
      ExifMatches(b, Next(b, offset));
      var rest := ChunksFrom(b, Next(b, offset));
      assert ([c] + rest)[1..] == rest && ([c] + rest)[0] == c;
    }
  }

  lemma {:induction false} KeptExif(cs: seq<Chunk>, policy: MetadataPolicy)
    ensures ExifOf(Kept(cs, policy)) == if Keeps(policy, EXIF) then ExifOf(cs) else None
  {
    if cs != [] {
      KeptExif(cs[1..], policy);
      var rest := Kept(cs[1..], policy);
      assert ([cs[0]] + rest)[1..] == rest && ([cs[0]] + rest)[0] == cs[0];
    }
  }

  /** The EXIF block survives unchanged when the policy is to preserve it, and is gone otherwise. */
  lemma StripKeepsExifIff(b: seq<byte>, policy: MetadataPolicy)
    requires Walkable(b, SIGNATURE_LENGTH)
    ensures Strip(b, policy).Some?
    ensures ExifFrom(Strip(b, policy).value, SIGNATURE_LENGTH)
            == if policy == KeepAll || policy == PreserveExif then ExifFrom(b, SIGNATURE_LENGTH) else None
  {
    if policy != KeepAll {
      StripRemovesExactly(b, policy);
      ExifMatches(b, SIGNATURE_LENGTH);
      ExifMatches(Strip(b, policy).value, SIGNATURE_LENGTH);
      KeptExif(ChunksFrom(b, SIGNATURE_LENGTH), policy);
    }
  }
}
