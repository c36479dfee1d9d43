/** The scanner's loops, proved to compute the positions that `SvgProlog` explains. */
module SvgScanner {
  import opened Wrappers
  import opened Layout
  import opened SvgText
  import opened SvgProlog

  function SkipSpace(text: string, i: nat): (k: nat)
    ensures i <= k && (i <= |text| ==> k <= |text|) && (k < |text| ==> !IsSpace(text[k]))
    decreases |text| - i
  {
    if i < |text| && IsSpace(text[i]) then SkipSpace(text, i + 1) else i
  }

  lemma {:induction false} TrimKeepsRoot(text: string, i: nat, seen: bool)
    ensures RootFrom(text, i, seen) == RootFrom(text, SkipSpace(text, i), seen)
    decreases |text| - i
  {
    hide DoctypeEnd, Find, IsRoot;
    if i < |text| && IsSpace(text[i]) {
      ItemOpenersDiffer(text, i);
      TrimKeepsRoot(text, i + 1, seen);
    }
  }

  /** The first of the stop characters outside quoted literals. */
  method ScanTo(text: string, start: nat, stops: string) returns (r: Option<nat>)
    requires forall c | c in stops :: !IsQuote(c)
    ensures r == ScanParts(text, start, stops)
  {
    hide Find;
    var index := start;
    while index < |text|
      invariant start <= index && ScanParts(text, index, stops) == ScanParts(text, start, stops)
      decreases |text| - index
    {
      if IsQuote(text[index]) {
        var close := Find(text, index + 1, [text[index]]);
        if close.None? {
          return None;
        }
        index := close.value + 1;
      } else if text[index] in stops {
        return Some(index);
      } else {
        index := index + 1;
      }
    }
    return None;
  }

  /** Up to the `]` that closes the internal subset. */
  method SkipSubset(text: string, start: nat) returns (r: Option<nat>)
    ensures r == SubsetEnd(text, start)
  {
    hide Find, ScanParts;
    var index := start;
    while index < |text|
      invariant start <= index && SubsetEnd(text, index) == SubsetEnd(text, start)
      decreases |text| - index
    {
      var next := Some(index + 1);
      if text[index] == ']' {
        return Some(index);
      } else if Holds(text, index, "<?") {
        next := After(Find(text, index + 2, "?>"), 2);
      } else if Holds(text, index, "<!--") {
        next := After(Find(text, index + 4, "-->"), 3);
      } else if HasLiterals(text, index) {
        var close := ScanTo(text, index + 2, ">");
        next := After(close, 1);
      } else if text[index] == '<' {
        next := After(Find(text, index, ">"), 1);
      }
      assert next == SubsetTokenEnd(text, index) by {
        OpenersDiffer(text, index);
      }
      if next.None? {
        return None;
      }
      index := next.value;
    }
    return None;
  }

  /** The position after the doctype whose keyword ends at `start`. */
  method SkipDoctype(text: string, start: nat) returns (r: Option<nat>)
    ensures r == DoctypeEnd(text, start)
  {
    hide Find, ScanParts, SubsetEnd;
    var stop := ScanTo(text, start, "[>");
    if stop.None? {
      return None;
    }
    if text[stop.value] == '>' {
      return Some(stop.value + 1);
    }
    var close := SkipSubset(text, stop.value + 1);
    if close.None? {
      return None;
    }
    var end := Find(text, close.value + 1, ">");
    return After(end, 1);
  }

  /** The document from its root element onwards, when that root is `<svg`. */
  method SvgRootElement(text: string) returns (r: Option<string>)
    ensures r == if SvgRoot(text).Some? then Some(text[SvgRoot(text).value..]) else None
  {
    hide SubsetEnd, DoctypeEnd, Find;
    var index := Start(text);
    var seen := false;
    while true
      invariant index <= |text| && RootFrom(text, index, seen) == SvgRoot(text)
      decreases |text| - index
    {
      TrimKeepsRoot(text, index, seen);
      index := SkipSpace(text, index);
      ItemOpenersDiffer(text, index);
      var next := None;
      if Holds(text, index, "<!--") {
        next := After(Find(text, index + 4, "-->"), 3);
      } else if Holds(text, index, "<?") {
        next := After(Find(text, index + 2, "?>"), 2);
      } else if !seen && Holds(text, index, DOCTYPE) {
        next := SkipDoctype(text, index + |DOCTYPE|);
        seen := true;
      } else {
        break;
      }
      if next.None? {
        return None;
      }
      index := next.value;
    }
    if IsRoot(text, index) {
      return Some(text[index..]);
    }
    return None;
  }
}
