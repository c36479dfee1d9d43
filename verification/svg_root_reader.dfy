/** The loops that read the root start tag, proved to compute what `SvgRootTag` explains. */
module SvgRootReader {
  import opened Wrappers
  import opened SvgText
  import opened SvgRootTag

  /** What is left of the scan at `index`, inside a literal or outside. */
  ghost function Remaining(root: string, index: nat, quote: Option<char>): Option<nat> {
    if quote.None? then ScanParts(root, index, ">")
    else
      var close := Find(root, index, [quote.value]);
      if close.None? then None else ScanParts(root, close.value + 1, ">")
  }

  lemma RemainingStep(root: string, index: nat, quote: Option<char>)
    requires index < |root| && (quote.Some? ==> IsQuote(quote.value))
    ensures Remaining(root, index, quote) ==
            if quote.Some? then Remaining(root, index + 1, if root[index] == quote.value then None else quote)
            else if IsQuote(root[index]) then Remaining(root, index + 1, Some(root[index]))
            else if root[index] == '>' then Some(index)
            else Remaining(root, index + 1, None)
  {
    if quote.Some? {
      assert root[index..index + 1] == [root[index]];
    }
  }

  method ReadRootTag(root: string) returns (r: Option<string>)
    requires root != "" && root[0] == '<'
    ensures r == RootTag(root)
  {
    hide Remaining, Find;
    var quote: Option<char> := None;
    assert Remaining(root, 0, None) == ScanParts(root, 0, ">") by {
      RemainingOutside(root, 0);
    }
    for index := 0 to |root|
      invariant quote.Some? ==> IsQuote(quote.value)
      invariant Remaining(root, index, quote) == ScanParts(root, 0, ">")
    {
      RemainingStep(root, index, quote);
      if quote.Some? {
        if root[index] == quote.value {
          quote := None;
        }
      } else if IsQuote(root[index]) {
        quote := Some(root[index]);
      } else if root[index] == '>' {
        return Some(root[1..index]);
      }
    }
    NothingRemains(root, quote);
    return None;
  }

  lemma RemainingOutside(root: string, index: nat)
    ensures Remaining(root, index, None) == ScanParts(root, index, ">")
  {
  }

  lemma NothingRemains(root: string, quote: Option<char>)
    ensures Remaining(root, |root|, quote) == None
  {
  }

  method SkipBlanks(tag: string, start: nat) returns (index: nat)
    ensures index == SkipBlank(tag, start)
  {
    index := start;
    while index < |tag| && IsBlank(tag[index])
      invariant SkipBlank(tag, index) == SkipBlank(tag, start)
    {
      index := index + 1;
    }
  }

  method SkipName(tag: string, start: nat) returns (index: nat)
    ensures index == NameEnd(tag, start)
  {
    index := start;
    while index < |tag| && !EndsName(tag[index])
      invariant NameEnd(tag, index) == NameEnd(tag, start)
    {
      index := index + 1;
    }
  }

  /** One pass of the loop: the entry that starts at `start`, its name and where it ends. */
  method ReadEntry(tag: string, start: nat) returns (entry: Entry, name: string, next: nat)
    requires start < |tag|
    ensures entry == EntryAt(tag, start) && name == tag[start..NameEnd(tag, start)]
    ensures !entry.Broken? ==> next == EntryEnd(tag, start)
  {
    hide Find, SkipBlank, NameEnd;
    var end := SkipName(tag, start);
    name := tag[start..end];
    if end == start {
      return Skipped, name, start + 1;
    }
    var equals := SkipBlanks(tag, end);
    if equals >= |tag| || tag[equals] != '=' {
      return Bare, name, equals;
    }
    var open := SkipBlanks(tag, equals + 1);
    if open >= |tag| || !IsQuote(tag[open]) {
      return Broken, name, open;
    }
    var close := Find(tag, open + 1, [tag[open]]);
    if close.None? {
      return Broken, name, open;
    }
    return Given(tag[open + 1..close.value]), name, close.value + 1;
  }

  /** The value of one attribute of a start tag, by exact name. */
  method ReadRootAttribute(tag: string, name: string) returns (r: Option<string>)
    ensures r == RootAttribute(tag, name)
  {
    hide SkipBlank, NameEnd, EntryAt, EntryEnd;
    var index := 0;
    while index < |tag| && !IsBlank(tag[index])
      invariant index <= |tag| && ElementEnd(tag, index) == ElementEnd(tag, 0)
    {
      index := index + 1;
    }
    assert index == ElementEnd(tag, 0);
    while true
      invariant index <= |tag| && Lookup(tag, index, name) == RootAttribute(tag, name)
      decreases |tag| - index
    {
      var start := SkipBlanks(tag, index);
      if start >= |tag| {
        return None;
      }
      var entry, attribute, next := ReadEntry(tag, start);
      if entry.Broken? {
        return None;
      }
      if entry.Given? && attribute == name {
        return Some(entry.value);
      }
      index := next;
    }
  }
}
