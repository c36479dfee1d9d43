/**
 Finding the root element of an SVG document: the prolog scanner and the XML 1.0 grammar it
 inverts (section 2.8: a declaration, comments, processing instructions, at most one doctype).
 */
module SvgProlog {
  import opened Wrappers
  import opened Layout
  import opened SvgText

  const BOM := "\U{FEFF}"
  const DOCTYPE := "<!DOCTYPE"
  const ROOT := "<svg"

  /** The keywords whose declarations hold quoted literals. */
  predicate HasLiterals(text: string, i: nat) {
    Holds(text, i, "<!ENTITY") || Holds(text, i, "<!ATTLIST") || Holds(text, i, "<!NOTATION")
  }

  // ---------- the grammar ----------

  predicate IsComment(t: string) {
    |t| >= 7 && Delimited(t, "<!--", "-->")
  }

  predicate IsInstruction(t: string) {
    |t| >= 4 && Delimited(t, "<?", "?>")
  }

  predicate OpensDeclaration(t: string) {
    "<!ENTITY" <= t || "<!ATTLIST" <= t || "<!NOTATION" <= t
  }

  /** An entity, attribute-list or notation declaration: its literals may hold `>`. */
  ghost predicate IsDeclaration(t: string) {
    OpensDeclaration(t) && exists parts :: IsParts(parts, ">") && t == "<!" + (Flatten(parts) + ">")
  }

  /** Any other markup of the internal subset, which ends at its first `>`. */
  predicate IsOtherMarkup(t: string) {
    && |t| >= 1 && t[0] == '<' && Delimited(t, "", ">")
    && !("<?" <= t) && !("<!--" <= t) && !OpensDeclaration(t)
  }

  ghost predicate IsSubsetToken(t: string) {
    || (|t| == 1 && t[0] != '<' && t[0] != ']')
    || IsInstruction(t) || IsComment(t) || IsDeclaration(t) || IsOtherMarkup(t)
  }

  ghost predicate IsSubset(ts: seq<string>) {
    ts == [] || (IsSubsetToken(ts[0]) && IsSubset(ts[1..]))
  }

  /** The rest of a doctype from the `]` of its internal subset: text up to the next `>`. */
  predicate IsDoctypeTail(t: string) {
    |t| >= 2 && Delimited(t, "]", ">")
  }

  ghost predicate IsPlainDoctype(t: string, parts: seq<string>) {
    IsParts(parts, "[>") && t == "<!DOCTYPE" + (Flatten(parts) + ">")
  }

  ghost predicate IsSubsetDoctype(t: string, parts: seq<string>, subset: seq<string>, tail: string) {
    && IsParts(parts, "[>") && IsSubset(subset) && IsDoctypeTail(tail)
    && t == "<!DOCTYPE" + (Flatten(parts) + ("[" + (Flatten(subset) + tail)))
  }

  ghost predicate IsDoctype(t: string) {
    || (exists parts :: IsPlainDoctype(t, parts))
    || (exists parts, subset, tail :: IsSubsetDoctype(t, parts, subset, tail))
  }

  /** The characters with the Unicode property White_Space, by their code points. */
  predicate IsWhiteSpace(c: char) {
    var n := c as int;
    9 <= n <= 13 || 8192 <= n <= 8202 || n in {32, 133, 160, 5760, 8232, 8233, 8239, 8287, 12288}
  }

  predicate IsMisc(t: string) {
    (|t| == 1 && IsWhiteSpace(t[0])) || IsComment(t) || IsInstruction(t)
  }

  /** A prolog, with at most one doctype, and none once `seen`. */
  ghost predicate IsProlog(ts: seq<string>, seen: bool) {
    || ts == []
    || (IsMisc(ts[0]) && IsProlog(ts[1..], seen))
    || (!seen && IsDoctype(ts[0]) && IsProlog(ts[1..], true))
  }

  /** The tag name is over: whitespace, the `>` of the tag, or the `/>` of an empty element. */
  predicate OpensSvg(t: string) {
    || "<svg " <= t || "<svg\t" <= t || "<svg\n" <= t || "<svg\r" <= t
    || "<svg>" <= t || "<svg/>" <= t
  }

  // ---------- the scanner ----------

  /** `<svg`, ended by whitespace, by its `>` or by the `/>` of an empty element. */
  predicate IsRoot(text: string, i: nat) {
    && Holds(text, i, ROOT)
    && ((i + 4 < |text| && text[i + 4] in " \t\n\r>") || Holds(text, i + 4, "/>"))
  }

  /** Where the token of the internal subset that starts at `i` ends. */
  function SubsetTokenEnd(text: string, i: nat): (r: Option<nat>)
    requires i < |text|
    ensures r.Some? ==> i < r.value <= |text|
  {
    if text[i] != '<' then Some(i + 1)
    else if Holds(text, i, "<?") then After(Find(text, i + 2, "?>"), 2)
    else if Holds(text, i, "<!--") then After(Find(text, i + 4, "-->"), 3)
    else if HasLiterals(text, i) then After(ScanParts(text, i + 2, ">"), 1)
    else After(Find(text, i, ">"), 1)
  }

  /** The `]` that closes the internal subset. */
  function SubsetEnd(text: string, i: nat): (r: Option<nat>)
    ensures r.Some? ==> i <= r.value < |text| && text[r.value] == ']'
    decreases |text| - i
  {
    if i >= |text| then None
    else if text[i] == ']' then Some(i)
    else if SubsetTokenEnd(text, i).None? then None
    else SubsetEnd(text, SubsetTokenEnd(text, i).value)
  }

  /** The position after the doctype whose keyword ends at `i`. */
  function DoctypeEnd(text: string, i: nat): (r: Option<nat>)
    ensures r.Some? ==> i < r.value <= |text|
  {
    var k := ScanParts(text, i, "[>");
    if k.None? then None
    else if text[k.value] == '>' then Some(k.value + 1)
    else
      var close := SubsetEnd(text, k.value + 1);
      if close.None? then None else After(Find(text, close.value + 1, ">"), 1)
  }

  /** Where the prolog item that starts at `i` ends; none when there is no item. */
  function ItemEnd(text: string, i: nat, seen: bool): (r: Option<nat>)
    ensures r.Some? ==> i < r.value <= |text|
  {
    if i < |text| && IsSpace(text[i]) then Some(i + 1)
    else if Holds(text, i, "<!--") then After(Find(text, i + 4, "-->"), 3)
    else if Holds(text, i, "<?") then After(Find(text, i + 2, "?>"), 2)
    else if !seen && Holds(text, i, DOCTYPE) then DoctypeEnd(text, i + |DOCTYPE|)
    else None
  }

  /** Where the root element starts. */
  function RootFrom(text: string, i: nat, seen: bool): (r: Option<nat>)
    ensures r.Some? ==> i <= r.value < |text|
    decreases |text| - i
  {
    var next := ItemEnd(text, i, seen);
    if next.Some? then RootFrom(text, next.value, seen || Holds(text, i, DOCTYPE))
    else if IsRoot(text, i) then Some(i)
    else None
  }

  function Start(text: string): nat {
    if Holds(text, 0, BOM) then 1 else 0
  }

  function SvgRoot(text: string): Option<nat> {
    RootFrom(text, Start(text), false)
  }

  // ---------- tokens of the internal subset ----------

  lemma CharOfKeyword(text: string, i: nat, keyword: string, k: nat)
    requires k < |keyword| && i + k < |text|
    ensures Holds(text, i, keyword) ==> text[i + k] == keyword[k]
  {
    if Holds(text, i, keyword) {
      HoldsAt(text, i, keyword, k);
    }
  }

  /** Whether markup starts with a keyword shows in the markup itself. */
  lemma OpenerInside(text: string, i: nat, t: string, keyword: string)
    requires Holds(text, i, t) && t != "" && t[|t| - 1] == '>' && '>' !in keyword
    ensures Holds(text, i, keyword) <==> Holds(t, 0, keyword)
  {
    if |keyword| <= |t| {
      HoldsStart(text, i, t, keyword);
    } else {
      HoldsAt(text, i, t, |t| - 1);
      CharOfKeyword(text, i, keyword, |t| - 1);
      assert keyword[|t| - 1] in keyword;
    }
  }

  lemma LiteralsInside(text: string, i: nat, t: string)
    requires Holds(text, i, t) && t != "" && t[|t| - 1] == '>'
    ensures HasLiterals(text, i) <==> HasLiterals(t, 0)
  {
    OpenerInside(text, i, t, "<!ENTITY");
    OpenerInside(text, i, t, "<!ATTLIST");
    OpenerInside(text, i, t, "<!NOTATION");
  }

  /** The second and third characters tell the openers apart. */
  lemma OpenersDiffer(text: string, i: nat)
    ensures Holds(text, i, "<?") ==> text[i] == '<' && !Holds(text, i, "<!--") && !HasLiterals(text, i)
    ensures Holds(text, i, "<!--") ==> text[i] == '<' && !HasLiterals(text, i)
    ensures HasLiterals(text, i) ==> text[i] == '<' && text[i + 1] == '!'
  {
    if Holds(text, i, "<?") {
      HoldsAt(text, i, "<?", 0);
      HoldsAt(text, i, "<?", 1);
    }
    if Holds(text, i, "<!--") {
      HoldsAt(text, i, "<!--", 0);
      HoldsAt(text, i, "<!--", 1);
      HoldsAt(text, i, "<!--", 2);
    }
    LiteralOpeners(text, i);
  }

  lemma LiteralOpeners(text: string, i: nat)
    ensures HasLiterals(text, i) ==> i + 2 < |text| && text[i] == '<' && text[i + 1] == '!' && text[i + 2] != '-'
  {
    if Holds(text, i, "<!ENTITY") {
      KeywordStart(text, i, "<!ENTITY");
    } else if Holds(text, i, "<!ATTLIST") {
      KeywordStart(text, i, "<!ATTLIST");
    } else if Holds(text, i, "<!NOTATION") {
      KeywordStart(text, i, "<!NOTATION");
    }
  }

  lemma KeywordStart(text: string, i: nat, keyword: string)
    requires Holds(text, i, keyword) && |keyword| >= 3
    ensures i + 2 < |text| && text[i] == keyword[0] && text[i + 1] == keyword[1] && text[i + 2] == keyword[2]
  {
    HoldsAt(text, i, keyword, 0);
    HoldsAt(text, i, keyword, 1);
    HoldsAt(text, i, keyword, 2);
  }

  lemma DelimitedLast(t: string, open: string, close: string)
    requires |open| + |close| <= |t| && Delimited(t, open, close) && close != ""
    ensures t[|t| - 1] == close[|close| - 1]
  {
    HoldsAt(t, |t| - |close|, close, |close| - 1);
  }

  lemma DeclarationPrinted(text: string, i: nat, t: string, parts: seq<string>)
    requires Holds(text, i, t) && t == "<!" + (Flatten(parts) + ">") && IsParts(parts, ">")
    ensures After(ScanParts(text, i + 2, ">"), 1) == Some(i + |t|)
  {
    hide IsParts, Flatten, ScanParts;
    var body := Flatten(parts);
    HoldsBoth(text, i, "<!", body + ">");
    HoldsBoth(text, i + 2, body, ">");
    HoldsAt(text, i + 2 + |body|, ">", 0);
    ScanPrinted(text, i + 2, parts, ">");
  }

  lemma Enclosed(text: string, i: nat, j: nat, k: nat, end: nat, open: string, body: string, close: string)
    requires i <= j <= k <= end <= |text|
    requires text[i..j] == open && text[j..k] == body && text[k..end] == close
    ensures text[i..end] == open + (body + close)
  {
    assert text[j..k] + text[k..end] == text[j..end];
    assert text[i..j] + text[j..end] == text[i..end];
  }

  lemma DeclarationExplained(text: string, i: nat, end: nat)
    requires HasLiterals(text, i) && After(ScanParts(text, i + 2, ">"), 1) == Some(end)
    ensures IsDeclaration(text[i..end])
  {
    var parts := ScanExplained(text, i + 2, ">");
    assert text[i..end] == "<!" + (Flatten(parts) + ">") by {
      LiteralOpeners(text, i);
      assert text[i..i + 2] == "<!";
      assert text[end - 1] in ">";
      assert text[end - 1..end] == ">";
      Enclosed(text, i, i + 2, end - 1, end, "<!", Flatten(parts), ">");
    }
    assert OpensDeclaration(text[i..end]) by {
      LiteralsInside(text, i, text[i..end]);
    }
  }

  lemma CommentExact(text: string, i: nat, t: string)
    requires Holds(text, i, t) && |t| >= 7
    ensures IsComment(t) <==> Holds(text, i, "<!--") && After(Find(text, i + 4, "-->"), 3) == Some(i + |t|)
  {
    DelimitedEnd(text, i, t, "<!--", "-->");
  }

  lemma InstructionExact(text: string, i: nat, t: string)
    requires Holds(text, i, t) && |t| >= 4
    ensures IsInstruction(t) <==> Holds(text, i, "<?") && After(Find(text, i + 2, "?>"), 2) == Some(i + |t|)
  {
    DelimitedEnd(text, i, t, "<?", "?>");
  }

  lemma OtherMarkupExact(text: string, i: nat, t: string)
    requires Holds(text, i, t) && t != "" && text[i] == '<'
    ensures IsOtherMarkup(t) <==>
            && !Holds(text, i, "<?") && !Holds(text, i, "<!--") && !HasLiterals(text, i)
            && After(Find(text, i, ">"), 1) == Some(i + |t|)
  {
    HoldsAt(text, i, t, 0);
    assert Delimited(t, "", ">") <==> After(Find(text, i, ">"), 1) == Some(i + |t|) by {
      assert text[i..i] == "";
      DelimitedEnd(text, i, t, "", ">");
    }
    if Delimited(t, "", ">") {
      DelimitedLast(t, "", ">");
      OpenerInside(text, i, t, "<?");
      OpenerInside(text, i, t, "<!--");
      LiteralsInside(text, i, t);
    }
  }

  /** A printed token of the internal subset is stepped over exactly. */
  lemma SubsetTokenPrinted(text: string, i: nat, t: string)
    requires Holds(text, i, t) && IsSubsetToken(t)
    ensures i < |text| && text[i] != ']' && SubsetTokenEnd(text, i) == Some(i + |t|)
  {
    HoldsAt(text, i, t, 0);
    OpenersDiffer(text, i);
    if |t| == 1 && t[0] != '<' && t[0] != ']' {
    } else if IsInstruction(t) {
      InstructionExact(text, i, t);
    } else if IsComment(t) {
      CommentExact(text, i, t);
    } else if IsDeclaration(t) {
      var parts :| IsParts(parts, ">") && t == "<!" + (Flatten(parts) + ">");
      DeclarationPrinted(text, i, t, parts);
      HoldsAt(t, 2 + |Flatten(parts)|, ">", 0);
      LiteralsInside(text, i, t);
    } else {
      OtherMarkupExact(text, i, t);
    }
  }

  /** Whatever one step over the internal subset takes is a token. */
  lemma SubsetTokenExplained(text: string, i: nat, end: nat)
    requires i < |text| && text[i] != ']' && SubsetTokenEnd(text, i) == Some(end)
    ensures IsSubsetToken(text[i..end])
  {
    var t := text[i..end];
    if text[i] == '<' {
      if Holds(text, i, "<?") {
        InstructionExact(text, i, t);
      } else if Holds(text, i, "<!--") {
        CommentExact(text, i, t);
      } else if HasLiterals(text, i) {
        DeclarationExplained(text, i, end);
      } else {
        OtherMarkupExact(text, i, t);
      }
    }
  }

  // ---------- the internal subset ----------

  lemma SubsetStep(text: string, i: nat, ts: seq<string>)
    requires ts != [] && IsSubset(ts) && Holds(text, i, Flatten(ts))
    ensures Holds(text, i + |ts[0]|, Flatten(ts[1..]))
    ensures SubsetEnd(text, i) == SubsetEnd(text, i + |ts[0]|)
  {
    hide IsSubsetToken, SubsetTokenEnd;
    assert Holds(text, i, ts[0]) && Holds(text, i + |ts[0]|, Flatten(ts[1..])) by {
      HoldsBoth(text, i, ts[0], Flatten(ts[1..]));
    }
    SubsetTokenPrinted(text, i, ts[0]);
  }

  lemma {:induction false} SubsetPrinted(text: string, i: nat, ts: seq<string>)
    requires IsSubset(ts) && Holds(text, i, Flatten(ts))
    requires i + |Flatten(ts)| < |text| && text[i + |Flatten(ts)|] == ']'
    ensures SubsetEnd(text, i) == Some(i + |Flatten(ts)|)
    decreases |ts|
  {
    hide IsSubsetToken, SubsetTokenEnd;
    if ts != [] {
      SubsetStep(text, i, ts);
      SubsetPrinted(text, i + |ts[0]|, ts[1..]);
    }
  }

  lemma {:induction false} SubsetExplained(text: string, i: nat) returns (ts: seq<string>)
    requires SubsetEnd(text, i).Some?
    ensures IsSubset(ts) && text[i..SubsetEnd(text, i).value] == Flatten(ts)
    decreases |text| - i
  {
    hide IsSubsetToken, SubsetTokenEnd;
    var k := SubsetEnd(text, i).value;
    if text[i] == ']' {
      ts := [];
    } else {
      var next := SubsetTokenEnd(text, i).value;
      SubsetTokenExplained(text, i, next);
      var rest := SubsetExplained(text, next);
      ts := [text[i..next]] + rest;
      FlattenCons(text[i..next], rest);
      assert text[i..next] + text[next..k] == text[i..k];
    }
  }

  // ---------- the doctype ----------

  lemma TailExact(text: string, i: nat, t: string)
    requires Holds(text, i, t) && |t| >= 2
    ensures IsDoctypeTail(t) <==> Holds(text, i, "]") && After(Find(text, i + 1, ">"), 1) == Some(i + |t|)
  {
    DelimitedEnd(text, i, t, "]", ">");
  }

  lemma ScanPrintedTo(text: string, i: nat, parts: seq<string>, stop: string, rest: string, stops: string)
    requires IsParts(parts, stops) && Holds(text, i, Flatten(parts) + (stop + rest))
    requires |stop| == 1 && stop[0] in stops && !IsQuote(stop[0])
    ensures var k := i + |Flatten(parts)|;
            ScanParts(text, i, stops) == Some(k) && text[k] == stop[0] && Holds(text, k + 1, rest)
  {
    var k := i + |Flatten(parts)|;
    HoldsBoth(text, i, Flatten(parts), stop + rest);
    HoldsBoth(text, k, stop, rest);
    HoldsAt(text, k, stop, 0);
    ScanPrinted(text, i, parts, stops);
  }

  lemma PlainDoctypePrinted(text: string, i: nat, t: string, parts: seq<string>)
    requires Holds(text, i, t) && IsPlainDoctype(t, parts)
    ensures Holds(text, i, DOCTYPE) && DoctypeEnd(text, i + |DOCTYPE|) == Some(i + |t|)
  {
    HoldsBoth(text, i, DOCTYPE, Flatten(parts) + ">");
    assert ">" + "" == ">";
    ScanPrintedTo(text, i + |DOCTYPE|, parts, ">", "", "[>");
  }

  lemma SubsetTailPrinted(text: string, i: nat, subset: seq<string>, tail: string)
    requires IsSubset(subset) && IsDoctypeTail(tail) && Holds(text, i, Flatten(subset) + tail)
    ensures SubsetEnd(text, i) == Some(i + |Flatten(subset)|)
    ensures After(Find(text, i + |Flatten(subset)| + 1, ">"), 1) == Some(i + |Flatten(subset)| + |tail|)
  {
    hide IsSubset, Find, Flatten, SubsetEnd;
    var k := i + |Flatten(subset)|;
    assert Holds(text, i, Flatten(subset)) && Holds(text, k, tail) by {
      HoldsBoth(text, i, Flatten(subset), tail);
    }
    assert Holds(text, k, "]") && After(Find(text, k + 1, ">"), 1) == Some(k + |tail|) by {
      TailExact(text, k, tail);
    }
    assert SubsetEnd(text, i) == Some(k) by {
      HoldsAt(text, k, "]", 0);
      SubsetPrinted(text, i, subset);
    }
  }

  lemma SubsetDoctypePrinted(text: string, i: nat, t: string, parts: seq<string>, subset: seq<string>, tail: string)
    requires Holds(text, i, t) && IsSubsetDoctype(t, parts, subset, tail)
    ensures Holds(text, i, DOCTYPE) && DoctypeEnd(text, i + |DOCTYPE|) == Some(i + |t|)
  {
    hide IsParts, IsSubset, IsDoctypeTail, Flatten, ScanParts, SubsetEnd, Find, Holds;
    var rest := Flatten(subset) + tail;
    var k := i + |DOCTYPE| + |Flatten(parts)|;
    var close := k + 1 + |Flatten(subset)|;
    assert Holds(text, i, DOCTYPE) && Holds(text, i + |DOCTYPE|, Flatten(parts) + ("[" + rest)) by {
      HoldsBoth(text, i, DOCTYPE, Flatten(parts) + ("[" + rest));
    }
    assert ScanParts(text, i + |DOCTYPE|, "[>") == Some(k) && text[k] == '[' && Holds(text, k + 1, rest) by {
      ScanPrintedTo(text, i + |DOCTYPE|, parts, "[", rest, "[>");
    }
    assert SubsetEnd(text, k + 1) == Some(close) && After(Find(text, close + 1, ">"), 1) == Some(close + |tail|) by {
      SubsetTailPrinted(text, k + 1, subset, tail);
    }
    assert i + |t| == close + |tail|;
  }

  /** A printed doctype is stepped over exactly, whatever its literals and its subset hold. */
  lemma DoctypePrinted(text: string, i: nat, t: string)
    requires Holds(text, i, t) && IsDoctype(t)
    ensures Holds(text, i, DOCTYPE) && DoctypeEnd(text, i + |DOCTYPE|) == Some(i + |t|)
  {
    if parts :| IsPlainDoctype(t, parts) {
      PlainDoctypePrinted(text, i, t, parts);
    } else {
      var parts, subset, tail :| IsSubsetDoctype(t, parts, subset, tail);
      SubsetDoctypePrinted(text, i, t, parts, subset, tail);
    }
  }

  lemma PlainDoctypeExplained(text: string, i: nat, end: nat)
    requires Holds(text, i, DOCTYPE) && ScanParts(text, i + |DOCTYPE|, "[>") == Some(end - 1) && text[end - 1] == '>'
    ensures IsDoctype(text[i..end])
  {
    var k := i + |DOCTYPE|;
    var parts := ScanExplained(text, k, "[>");
    assert text[end - 1..end] == ">";
    Enclosed(text, i, k, end - 1, end, DOCTYPE, Flatten(parts), ">");
    assert IsPlainDoctype(text[i..end], parts);
  }

  lemma SubsetDoctypeExplained(text: string, i: nat, open: nat, close: nat, end: nat)
    requires Holds(text, i, DOCTYPE) && ScanParts(text, i + |DOCTYPE|, "[>") == Some(open) && text[open] == '['
    requires SubsetEnd(text, open + 1) == Some(close) && After(Find(text, close + 1, ">"), 1) == Some(end)
    ensures IsDoctype(text[i..end])
  {
    hide IsParts, IsSubset, IsDoctypeTail, Flatten, ScanParts, SubsetEnd, Find;
    var k := i + |DOCTYPE|;
    var parts := ScanExplained(text, k, "[>");
    var subset := SubsetExplained(text, open + 1);
    var tail := text[close..end];
    assert IsDoctypeTail(tail) by {
      HoldsElement(text, close);
      TailExact(text, close, tail);
    }
    assert text[open..end] == "[" + (Flatten(subset) + tail) by {
      assert text[open..open + 1] == "[";
      Enclosed(text, open, open + 1, close, end, "[", Flatten(subset), tail);
    }
    assert text[i..end] == DOCTYPE + (Flatten(parts) + text[open..end]) by {
      Enclosed(text, i, k, open, end, DOCTYPE, Flatten(parts), text[open..end]);
    }
    assert IsSubsetDoctype(text[i..end], parts, subset, tail);
  }

  /** Whatever the scanner takes for a doctype is one. */
  lemma DoctypeExplained(text: string, i: nat, end: nat)
    requires Holds(text, i, DOCTYPE) && DoctypeEnd(text, i + |DOCTYPE|) == Some(end)
    ensures IsDoctype(text[i..end])
  {
    hide IsDoctype, ScanParts, SubsetEnd, Find;
    var k := ScanParts(text, i + |DOCTYPE|, "[>").value;
    if text[k] == '>' {
      PlainDoctypeExplained(text, i, end);
    } else {
      SubsetDoctypeExplained(text, i, k, SubsetEnd(text, k + 1).value, end);
    }
  }

  // ---------- the prolog ----------

  lemma ItemOpenersDiffer(text: string, i: nat)
    ensures i < |text| && IsSpace(text[i]) ==> !Holds(text, i, DOCTYPE) && !IsRoot(text, i)
    ensures Holds(text, i, "<!--") ==> !IsSpace(text[i]) && !Holds(text, i, "<?") && !Holds(text, i, DOCTYPE)
    ensures Holds(text, i, "<?") ==> !IsSpace(text[i]) && !Holds(text, i, "<!--") && !Holds(text, i, DOCTYPE)
    ensures Holds(text, i, DOCTYPE) ==> !IsSpace(text[i]) && !Holds(text, i, "<!--") && !Holds(text, i, "<?")
    ensures IsRoot(text, i) ==> !Holds(text, i, "<!--") && !Holds(text, i, "<?") && !Holds(text, i, DOCTYPE)
    ensures IsRoot(text, i) ==> !IsSpace(text[i]) && ItemEnd(text, i, false) == None && ItemEnd(text, i, true) == None
  {
    if Holds(text, i, "<?") {
      HoldsAt(text, i, "<?", 0);
      HoldsAt(text, i, "<?", 1);
    }
    if Holds(text, i, "<!--") {
      KeywordStart(text, i, "<!--");
    }
    if Holds(text, i, DOCTYPE) {
      KeywordStart(text, i, DOCTYPE);
    }
    if Holds(text, i, ROOT) {
      KeywordStart(text, i, ROOT);
    }
  }

  lemma MiscPrinted(text: string, i: nat, t: string, seen: bool)
    requires Holds(text, i, t) && IsMisc(t)
    ensures ItemEnd(text, i, seen) == Some(i + |t|) && !Holds(text, i, DOCTYPE)
  {
    ItemOpenersDiffer(text, i);
    if |t| == 1 && IsSpace(t[0]) {
      HoldsAt(text, i, t, 0);
    } else if IsComment(t) {
      CommentExact(text, i, t);
    } else {
      InstructionExact(text, i, t);
    }
  }

  lemma ItemExplained(text: string, i: nat, seen: bool, end: nat)
    requires ItemEnd(text, i, seen) == Some(end)
    ensures if Holds(text, i, DOCTYPE) then !seen && IsDoctype(text[i..end]) else IsMisc(text[i..end])
  {
    ItemOpenersDiffer(text, i);
    if Holds(text, i, "<!--") {
      CommentExact(text, i, text[i..end]);
    } else if Holds(text, i, "<?") {
      InstructionExact(text, i, text[i..end]);
    } else if Holds(text, i, DOCTYPE) {
      DoctypeExplained(text, i, end);
    }
  }

  lemma MiscStep(text: string, i: nat, t: string, rest: string, seen: bool)
    requires Holds(text, i, t + rest) && IsMisc(t)
    ensures Holds(text, i + |t|, rest) && RootFrom(text, i, seen) == RootFrom(text, i + |t|, seen)
  {
    hide IsMisc, DoctypeEnd, IsRoot, Find, Holds;
    assert Holds(text, i, t) && Holds(text, i + |t|, rest) by {
      HoldsBoth(text, i, t, rest);
    }
    MiscPrinted(text, i, t, seen);
  }

  lemma DoctypeStep(text: string, i: nat, t: string, rest: string)
    requires Holds(text, i, t + rest) && IsDoctype(t)
    ensures Holds(text, i + |t|, rest) && RootFrom(text, i, false) == RootFrom(text, i + |t|, true)
  {
    hide IsDoctype, DoctypeEnd, IsRoot, IsSpace, Find, Holds;
    assert Holds(text, i, t) && Holds(text, i + |t|, rest) by {
      HoldsBoth(text, i, t, rest);
    }
    assert Holds(text, i, DOCTYPE) && ItemEnd(text, i, false) == Some(i + |t|) by {
      DoctypePrinted(text, i, t);
      ItemOpenersDiffer(text, i);
    }
  }

  lemma {:induction false} PrologPrinted(text: string, i: nat, ts: seq<string>, seen: bool)
    requires IsProlog(ts, seen) && Holds(text, i, Flatten(ts)) && IsRoot(text, i + |Flatten(ts)|)
    ensures RootFrom(text, i, seen) == Some(i + |Flatten(ts)|)
    decreases |ts|
  {
    hide IsDoctype, IsMisc, ItemEnd, Holds;
    if ts == [] {
      ItemOpenersDiffer(text, i);
    } else if IsMisc(ts[0]) && IsProlog(ts[1..], seen) {
      MiscStep(text, i, ts[0], Flatten(ts[1..]), seen);
      PrologPrinted(text, i + |ts[0]|, ts[1..], seen);
    } else {
      DoctypeStep(text, i, ts[0], Flatten(ts[1..]));
      PrologPrinted(text, i + |ts[0]|, ts[1..], true);
    }
  }

  lemma {:induction false} PrologExplained(text: string, i: nat, seen: bool) returns (ts: seq<string>)
    requires RootFrom(text, i, seen).Some?
    ensures var k := RootFrom(text, i, seen).value;
            i <= k && IsRoot(text, k) && IsProlog(ts, seen) && text[i..k] == Flatten(ts)
    decreases |text| - i
  {
    hide IsDoctype, IsMisc, ItemEnd;
    var next := ItemEnd(text, i, seen);
    if next.None? {
      ts := [];
    } else {
      var k := RootFrom(text, i, seen).value;
      var t := text[i..next.value];
      ItemExplained(text, i, seen, next.value);
      var rest := PrologExplained(text, next.value, seen || Holds(text, i, DOCTYPE));
      ts := [t] + rest;
      FlattenCons(t, rest);
      assert t + text[next.value..k] == text[i..k];
    }
  }

  lemma PrefixStands(text: string, k: nat, prefix: string)
    requires k <= |text|
    ensures prefix <= text[k..] <==> Holds(text, k, prefix)
  {
    if k + |prefix| <= |text| {
      assert text[k..][..|prefix|] == text[k..k + |prefix|];
    }
  }

  lemma NameThenStop(text: string, k: nat, stop: char)
    requires k <= |text|
    ensures "<svg" + [stop] <= text[k..] <==> Holds(text, k, "<svg") && k + 4 < |text| && text[k + 4] == stop
  {
    hide Holds;
    PrefixStands(text, k, "<svg" + [stop]);
    if Holds(text, k, "<svg" + [stop]) {
      HoldsBoth(text, k, "<svg", [stop]);
      HoldsAt(text, k + 4, [stop], 0);
    }
    if Holds(text, k, "<svg") && k + 4 < |text| && text[k + 4] == stop {
      HoldsElement(text, k + 4);
      HoldsJoined(text, k, "<svg", [stop]);
    }
  }

  lemma RootSpelled(text: string, k: nat)
    requires k <= |text|
    ensures IsRoot(text, k) <==> OpensSvg(text[k..])
  {
    hide Holds;
    NameThenStop(text, k, ' ');
    NameThenStop(text, k, '\t');
    NameThenStop(text, k, '\n');
    NameThenStop(text, k, '\r');
    NameThenStop(text, k, '>');
    EmptyElement(text, k);
    assert "<svg" + " " == "<svg " && "<svg" + "\t" == "<svg\t" && "<svg" + "\n" == "<svg\n";
    assert "<svg" + "\r" == "<svg\r" && "<svg" + ">" == "<svg>";
  }

  lemma EmptyElement(text: string, k: nat)
    requires k <= |text|
    ensures "<svg/>" <= text[k..] <==> Holds(text, k, "<svg") && Holds(text, k + 4, "/>")
  {
    hide Holds;
    assert "<svg" + "/>" == "<svg/>";
    PrefixStands(text, k, "<svg/>");
    if Holds(text, k, "<svg/>") {
      HoldsBoth(text, k, "<svg", "/>");
    }
    if Holds(text, k, "<svg") && Holds(text, k + 4, "/>") {
      HoldsJoined(text, k, "<svg", "/>");
    }
  }

  /** A byte-order mark, where there is one, is not part of the prolog. */
  lemma StartSpelled(text: string)
    ensures Start(text) == if text != "" && text[0] as int == 0xFEFF then 1 else 0
  {
    if text != "" {
      assert text[0..1] == [text[0]];
    }
  }

  /**
   The scanner inverts the printer and finds nothing else: `k` is the root's position exactly
   when a delimited `<svg` stands there and the text before it is an optional byte-order mark
   and a valid prolog.
   */
  lemma RootIffProlog(text: string, k: nat)
    ensures SvgRoot(text) == Some(k) <==>
            var start := if text != "" && text[0] as int == 0xFEFF then 1 else 0;
            && start <= k <= |text| && OpensSvg(text[k..])
            && exists ts :: IsProlog(ts, false) && text[start..k] == Flatten(ts)
  {
    hide IsProlog, Flatten, RootFrom, IsRoot, OpensSvg;
    var i := Start(text);
    StartSpelled(text);
    if SvgRoot(text) == Some(k) {
      var ts := PrologExplained(text, i, false);
      RootSpelled(text, k);
    }
    if i <= k <= |text| && OpensSvg(text[k..]) && exists ts :: IsProlog(ts, false) && text[i..k] == Flatten(ts) {
      var ts :| IsProlog(ts, false) && text[i..k] == Flatten(ts);
      RootSpelled(text, k);
      PrologPrinted(text, i, ts, false);
    }
  }
}
