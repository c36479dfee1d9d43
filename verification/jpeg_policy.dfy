/**
 The table of a JPEG metadata policy: which segments the rewritten file holds, by their codes
 and the text their payloads start with.
 */
module JpegPolicies {
  import opened Wrappers
  import opened Bytes
  import opened JpegSegments
  import opened MetadataPolicies
  import opened Selection

  /** A comment, or an application segment other than APP0 and APP14. */
  predicate IsMetadata(item: Item) {
    item.code == 0xFE || (0xE1 <= item.code <= 0xEF && item.code != 0xEE)
  }

  /** An APP2 segment whose payload, after the length field, starts with the profile's name. */
  predicate IsIcc(item: Item) {
    item.code == 0xE2 && |item.tail| >= 14 && item.tail[2..14] == Ascii("ICC_PROFILE") + [0]
  }

  /** An APP1 segment whose payload starts with the Exif name. */
  predicate IsExif(item: Item) {
    item.code == 0xE1 && |item.tail| >= 8 && item.tail[2..8] == Ascii("Exif") + [0, 0]
  }

  predicate Stays(item: Item, policy: MetadataPolicy) {
    match policy
    case KeepAll => true
    case StripAll => !IsMetadata(item)
    case PreserveIcc => !IsMetadata(item) || IsIcc(item)
    case PreserveExif => !IsMetadata(item) || IsExif(item)
  }

  lemma PrefixOfPayload(tail: seq<byte>, prefix: seq<byte>)
    requires |tail| >= 2
    ensures StartsWith(tail[2..], prefix) <==> |tail| >= 2 + |prefix| && tail[2..2 + |prefix|] == prefix
  {
    if |tail| >= 2 + |prefix| {
      assert tail[2..][..|prefix|] == tail[2..2 + |prefix|];
    }
  }

  lemma NamesSpelled()
    ensures ICC_PREFIX == Ascii("ICC_PROFILE") + [0] && EXIF_PREFIX == Ascii("Exif") + [0, 0]
  {
  }

  lemma StaysIffKept(item: Item, policy: MetadataPolicy)
    requires ValidItem(item)
    ensures Stays(item, policy) <==> Keeps(item, policy)
  {
    NamesSpelled();
    if !Standalone(item.code) {
      PrefixOfPayload(item.tail, ICC_PREFIX);
      PrefixOfPayload(item.tail, EXIF_PREFIX);
    }
  }

  lemma {:induction false} SelectIsKept(items: seq<Item>, policy: MetadataPolicy)
    requires ValidItems(items)
    ensures Kept(items, policy) == Select(items, item => Stays(item, policy))
  {
    if items != [] {
      StaysIffKept(items[0], policy);
      SelectIsKept(items[1..], policy);
    }
  }

  /**
   The rewritten file holds the input's items in order, less those the policy takes out: nothing
   under KeepAll; under StripAll every comment and every application segment but APP0 and APP14;
   under PreserveIcc and PreserveExif the same but for the profile's, or the Exif, segments.
   */
  lemma RewrittenItems(b: seq<byte>, policy: MetadataPolicy)
    requires Optimized(b, policy).Ok?
    ensures var out := Optimized(b, policy).value;
            && IsJpeg(b) && IsJpeg(out)
            && ItemsFrom(out, 2) == Select(ItemsFrom(b, 2), item => Stays(item, policy))
            && EndingFrom(out, 2) == EndingFrom(b, 2)
  {
    OptimizedReads(b, policy);
    ReadIsValid(b, 2);
    SelectIsKept(ItemsFrom(b, 2), policy);
  }

  /**
   Under every policy the items that are not metadata are the input's; the metadata items are
   all of the input's, none, exactly its profile segments, or exactly its Exif segments.
   */
  lemma MetadataAndRest(b: seq<byte>, policy: MetadataPolicy)
    requires Optimized(b, policy).Ok?
    ensures IsJpeg(b) && IsJpeg(Optimized(b, policy).value)
    ensures var items, before := ItemsFrom(Optimized(b, policy).value, 2), ItemsFrom(b, 2);
            && Select(items, item => !IsMetadata(item)) == Select(before, item => !IsMetadata(item))
            && Select(items, IsMetadata) == match policy {
                 case KeepAll => Select(before, IsMetadata)
                 case StripAll => []
                 case PreserveIcc => Select(before, IsIcc)
                 case PreserveExif => Select(before, IsExif)
               }
  {
    RewrittenItems(b, policy);
    var before, stays := ItemsFrom(b, 2), (item: Item) => Stays(item, policy);
    SelectTwice(before, stays, item => !IsMetadata(item), item => !IsMetadata(item));
    match policy {
      case KeepAll => SelectTwice(before, stays, IsMetadata, IsMetadata);
      case StripAll =>
        SelectTwice(before, stays, IsMetadata, item => false);
        SelectNone(before, item => false);
      case PreserveIcc => SelectTwice(before, stays, IsMetadata, IsIcc);
      case PreserveExif => SelectTwice(before, stays, IsMetadata, IsExif);
    }
  }
}
