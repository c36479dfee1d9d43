/** The root start tag: where it ends, and which value an attribute name has. */
module SvgRootTag {
  import opened Wrappers
  import opened Layout
  import opened SvgText

  /** ASCII whitespace, as `is_ascii_whitespace` reads it. */
  predicate IsBlank(c: char) {
    c == ' ' || c == '\t' || c == '\n' || c == '\U{000C}' || c == '\r'
  }

  /** Spaces, tabs, line feeds, form feeds and carriage returns. */
  predicate AllBlank(s: string) {
    forall c | c in s :: c in " \t\n\U{000C}\r"
  }

  predicate EndsName(c: char) {
    c == '=' || c == '/' || IsBlank(c)
  }

  predicate IsName(s: string) {
    s != "" && forall c | c in s :: c !in "=/ \t\n\U{000C}\r"
  }

  function SkipBlank(tag: string, i: nat): (k: nat)
    ensures i <= k && (i <= |tag| ==> k <= |tag|)
    decreases |tag| - i
  {
    if i < |tag| && IsBlank(tag[i]) then SkipBlank(tag, i + 1) else i
  }

  function NameEnd(tag: string, i: nat): (k: nat)
    ensures i <= k && (i <= |tag| ==> k <= |tag|)
    decreases |tag| - i
  {
    if i < |tag| && !EndsName(tag[i]) then NameEnd(tag, i + 1) else i
  }

  function ElementEnd(tag: string, i: nat): (k: nat)
    ensures i <= k && (i <= |tag| ==> k <= |tag|)
    decreases |tag| - i
  {
    if i < |tag| && !IsBlank(tag[i]) then ElementEnd(tag, i + 1) else i
  }

  /** What stands where a name starts: its name, and the quoted value it is given, if any. */
  datatype Entry = Skipped | Bare | Broken | Given(value: string)

  function EntryAt(tag: string, start: nat): Entry
    requires start < |tag|
  {
    var end := NameEnd(tag, start);
    var equals := SkipBlank(tag, end);
    var open := SkipBlank(tag, equals + 1);
    if end == start then Skipped
    else if equals >= |tag| || tag[equals] != '=' then Bare
    else if open >= |tag| || !IsQuote(tag[open]) then Broken
    else
      var close := Find(tag, open + 1, [tag[open]]);
      if close.None? then Broken else Given(tag[open + 1..close.value])
  }

  /** Where the entry that starts at `start` ends, unless it breaks the scan off. */
  function EntryEnd(tag: string, start: nat): (k: nat)
    requires start < |tag|
    ensures start < k <= |tag|
  {
    var end := NameEnd(tag, start);
    var equals := SkipBlank(tag, end);
    match EntryAt(tag, start)
    case Skipped => start + 1
    case Bare => equals
    case Broken => |tag|
    case Given(value) => SkipBlank(tag, equals + 1) + |value| + 2
  }

  /** The value of the first attribute with exactly this name, from `i` on. */
  function Lookup(tag: string, i: nat, name: string): Option<string>
    decreases |tag| - i
  {
    var start := SkipBlank(tag, i);
    if start >= |tag| then None
    else
      var entry := EntryAt(tag, start);
      if entry.Broken? then None
      else if entry.Given? && tag[start..NameEnd(tag, start)] == name then Some(entry.value)
      else Lookup(tag, EntryEnd(tag, start), name)
  }

  function RootAttribute(tag: string, name: string): Option<string> {
    Lookup(tag, ElementEnd(tag, 0), name)
  }

  /** The text between `<` and the `>` that closes the start tag. */
  function RootTag(root: string): Option<string>
    requires root != "" && root[0] == '<'
  {
    var end := ScanParts(root, 0, ">");
    if end.None? then None else Some(root[1..end.value])
  }

  // ---------- the printed tag ----------

  /** An attribute with the blanks around its parts and the quote it is written with. */
  datatype Attr = Attr(before: string, name: string, gap: string, lead: string, quote: char, value: string)

  function PrintQuoted(quote: char, value: string): string {
    [quote] + (value + [quote])
  }

  function PrintAttr(a: Attr): string {
    a.before + (a.name + (a.gap + ("=" + (a.lead + PrintQuoted(a.quote, a.value)))))
  }

  /** A name that is not broken up and holds nothing the tag scan stops at. */
  predicate ValidAttr(a: Attr) {
    && AllBlank(a.before) && IsName(a.name) && AllBlank(a.gap) && AllBlank(a.lead)
    && a.quote in "\"'" && a.quote !in a.value && Plain(a.name)
  }

  predicate Plain(s: string) {
    forall c | c in s :: c !in "\"'>"
  }

  predicate ValidAttrs(attrs: seq<Attr>) {
    attrs == [] || (ValidAttr(attrs[0]) && ValidAttrs(attrs[1..]))
  }

  function PrintAttrs(attrs: seq<Attr>): string {
    if attrs == [] then "" else PrintAttr(attrs[0]) + PrintAttrs(attrs[1..])
  }

  function FirstNamed(attrs: seq<Attr>, name: string): Option<string> {
    if attrs == [] then None
    else if attrs[0].name == name then Some(attrs[0].value)
    else FirstNamed(attrs[1..], name)
  }

  // ---------- runs ----------

  lemma {:induction false} BlankRun(tag: string, i: nat, k: nat)
    requires i <= k <= |tag| && forall m | i <= m < k :: IsBlank(tag[m])
    requires k < |tag| ==> !IsBlank(tag[k])
    ensures SkipBlank(tag, i) == k
    decreases k - i
  {
    if i < k {
      BlankRun(tag, i + 1, k);
    }
  }

  lemma {:induction false} NameRun(tag: string, i: nat, k: nat)
    requires i <= k <= |tag| && forall m | i <= m < k :: !EndsName(tag[m])
    requires k < |tag| ==> EndsName(tag[k])
    ensures NameEnd(tag, i) == k
    decreases k - i
  {
    if i < k {
      NameRun(tag, i + 1, k);
    }
  }

  lemma {:induction false} ElementRun(tag: string, i: nat, k: nat)
    requires i <= k <= |tag| && forall m | i <= m < k :: !IsBlank(tag[m])
    requires k < |tag| ==> IsBlank(tag[k])
    ensures ElementEnd(tag, i) == k
    decreases k - i
  {
    if i < k {
      ElementRun(tag, i + 1, k);
    }
  }

  lemma {:induction false} CharRun(text: string, i: nat, k: nat, c: char)
    requires i <= k < |text| && text[k] == c && forall m | i <= m < k :: text[m] != c
    ensures Find(text, i, [c]) == Some(k)
    decreases k - i
  {
    assert text[i..i + 1] == [text[i]];
    if i < k {
      CharRun(text, i + 1, k, c);
    }
  }

  /** The characters of a part are those of the text it stands in. */
  lemma PartChars(text: string, i: nat, part: string)
    requires Holds(text, i, part)
    ensures forall m | i <= m < i + |part| :: text[m] == part[m - i] && text[m] in part
  {
    forall m | i <= m < i + |part|
      ensures text[m] == part[m - i] && text[m] in part
    {
      assert text[i..i + |part|][m - i] == text[m];
    }
  }

  lemma PartSlice(text: string, i: nat, part: string)
    requires Holds(text, i, part)
    ensures i + |part| <= |text| && text[i..i + |part|] == part
  {
  }

  lemma SkipsBlank(tag: string, i: nat, blank: string)
    requires Holds(tag, i, blank) && AllBlank(blank)
    requires i + |blank| < |tag| ==> !IsBlank(tag[i + |blank|])
    ensures SkipBlank(tag, i) == i + |blank|
  {
    PartChars(tag, i, blank);
    BlankRun(tag, i, i + |blank|);
  }

  lemma ReadsName(tag: string, i: nat, name: string)
    requires Holds(tag, i, name) && IsName(name)
    requires i + |name| < |tag| ==> EndsName(tag[i + |name|])
    ensures NameEnd(tag, i) == i + |name|
  {
    PartChars(tag, i, name);
    NameRun(tag, i, i + |name|);
  }

  lemma ReadsQuoted(text: string, i: nat, quote: char, value: string)
    requires Holds(text, i, PrintQuoted(quote, value)) && quote !in value
    ensures i + 1 + |value| < |text| && text[i] == quote && Find(text, i + 1, [quote]) == Some(i + 1 + |value|)
    ensures text[i + 1..i + 1 + |value|] == value
  {
    hide Find, Holds;
    var close := i + 1 + |value|;
    HoldsBoth(text, i, [quote], value + [quote]);
    HoldsBoth(text, i + 1, value, [quote]);
    assert text[i] == quote by {
      PartChars(text, i, [quote]);
    }
    assert close < |text| && text[close] == quote by {
      PartChars(text, close, [quote]);
    }
    PartSlice(text, i + 1, value);
    PartChars(text, i + 1, value);
    CharRun(text, i + 1, close, quote);
  }

  // ---------- one attribute ----------

  lemma AttrLayout(tag: string, i: nat, a: Attr)
    requires Holds(tag, i, PrintAttr(a))
    ensures var start := i + |a.before|;
            var end := start + |a.name|;
            var equals := end + |a.gap|;
            && Holds(tag, i, a.before) && Holds(tag, start, a.name) && Holds(tag, end, a.gap) && Holds(tag, equals, "=")
            && Holds(tag, equals + 1, a.lead)
            && Holds(tag, equals + 1 + |a.lead|, PrintQuoted(a.quote, a.value))
  {
    hide PrintQuoted, Holds;
    var quoted := PrintQuoted(a.quote, a.value);
    HoldsBoth(tag, i, a.before, a.name + (a.gap + ("=" + (a.lead + quoted))));
    HoldsBoth(tag, i + |a.before|, a.name, a.gap + ("=" + (a.lead + quoted)));
    HoldsBoth(tag, i + |a.before| + |a.name|, a.gap, "=" + (a.lead + quoted));
    HoldsBoth(tag, i + |a.before| + |a.name| + |a.gap|, "=", a.lead + quoted);
    HoldsBoth(tag, i + |a.before| + |a.name| + |a.gap| + 1, a.lead, quoted);
  }

  lemma AttrStart(tag: string, i: nat, a: Attr)
    requires Holds(tag, i, PrintAttr(a)) && ValidAttr(a)
    ensures var start := i + |a.before|;
            && SkipBlank(tag, i) == start && start < |tag| && NameEnd(tag, start) == start + |a.name|
            && tag[start..start + |a.name|] == a.name
  {
    hide SkipBlank, NameEnd, PrintAttr, PrintQuoted;
    var start := i + |a.before|;
    var end := start + |a.name|;
    AttrLayout(tag, i, a);
    PartChars(tag, start, a.name);
    PartChars(tag, end, a.gap);
    PartChars(tag, end + |a.gap|, "=");
    SkipsBlank(tag, i, a.before);
    ReadsName(tag, start, a.name);
  }

  lemma AttrEquals(tag: string, i: nat, a: Attr)
    requires Holds(tag, i, PrintAttr(a)) && ValidAttr(a)
    ensures var end := i + |a.before| + |a.name|;
            var equals := end + |a.gap|;
            SkipBlank(tag, end) == equals && equals < |tag| && tag[equals] == '='
  {
    hide SkipBlank, NameEnd, PrintAttr, PrintQuoted, AllBlank, IsName, Plain, Holds;
    var end := i + |a.before| + |a.name|;
    AttrLayout(tag, i, a);
    PartSlice(tag, end + |a.gap|, "=");
    PartChars(tag, end + |a.gap|, "=");
    SkipsBlank(tag, end, a.gap);
  }

  lemma AttrQuoted(tag: string, i: nat, a: Attr)
    requires Holds(tag, i, PrintAttr(a)) && ValidAttr(a)
    ensures var equals := i + |a.before| + |a.name| + |a.gap|;
            var open := equals + 1 + |a.lead|;
            && SkipBlank(tag, equals + 1) == open && open < |tag| && tag[open] == a.quote
            && Find(tag, open + 1, [a.quote]) == Some(open + 1 + |a.value|)
            && tag[open + 1..open + 1 + |a.value|] == a.value
  {
    hide SkipBlank, NameEnd, PrintAttr, PrintQuoted, Find, AllBlank, IsName, Plain, Holds;
    var equals := i + |a.before| + |a.name| + |a.gap|;
    AttrLayout(tag, i, a);
    ReadsQuoted(tag, equals + 1 + |a.lead|, a.quote, a.value);
    SkipsBlank(tag, equals + 1, a.lead);
  }

  lemma AttrValue(tag: string, i: nat, a: Attr)
    requires Holds(tag, i, PrintAttr(a)) && ValidAttr(a)
    ensures var start := i + |a.before|;
            && start < |tag| && EntryAt(tag, start) == Given(a.value) && EntryEnd(tag, start) == i + |PrintAttr(a)|
  {
    hide SkipBlank, NameEnd, Find, AllBlank, Holds;
    AttrStart(tag, i, a);
    AttrEquals(tag, i, a);
    AttrQuoted(tag, i, a);
  }

  /** Looking a name up in a printed attribute answers or moves on to the next one. */
  lemma AttrStep(tag: string, i: nat, a: Attr, name: string)
    requires Holds(tag, i, PrintAttr(a)) && ValidAttr(a)
    ensures Lookup(tag, i, name) == if a.name == name then Some(a.value) else Lookup(tag, i + |PrintAttr(a)|, name)
  {
    hide SkipBlank, NameEnd, EntryAt, EntryEnd, ValidAttr, PrintAttr, Holds;
    AttrStart(tag, i, a);
    AttrValue(tag, i, a);
  }

  // ---------- the whole tag ----------

  /** What closes the tag: blanks, and the `/` of an empty element. */
  predicate IsTail(s: string) {
    forall c | c in s :: IsBlank(c) || c == '/'
  }

  lemma {:induction false} TailStep(tag: string, i: nat, name: string)
    requires i <= |tag| && forall m | i <= m < |tag| :: IsBlank(tag[m]) || tag[m] == '/'
    ensures Lookup(tag, i, name) == None
    decreases |tag| - i
  {
    hide Find;
    var start := SkipBlank(tag, i);
    if start < |tag| {
      BlanksSkipped(tag, i);
      TailStep(tag, start + 1, name);
    }
  }

  lemma {:induction false} BlanksSkipped(tag: string, i: nat)
    ensures var k := SkipBlank(tag, i); k < |tag| ==> !IsBlank(tag[k])
    decreases |tag| - i
  {
    if i < |tag| && IsBlank(tag[i]) {
      BlanksSkipped(tag, i + 1);
    }
  }

  lemma {:induction false} AttrsPrinted(tag: string, i: nat, attrs: seq<Attr>, tail: string, name: string)
    requires ValidAttrs(attrs) && IsTail(tail)
    requires Holds(tag, i, PrintAttrs(attrs) + tail) && i + |PrintAttrs(attrs) + tail| == |tag|
    ensures Lookup(tag, i, name) == FirstNamed(attrs, name)
    decreases |attrs|
  {
    hide PrintAttr, Lookup, ValidAttr;
    if attrs == [] {
      assert "" + tail == tail;
      PartChars(tag, i, tail);
      TailStep(tag, i, name);
    } else {
      var rest := PrintAttrs(attrs[1..]) + tail;
      assert PrintAttrs(attrs) + tail == PrintAttr(attrs[0]) + rest;
      HoldsBoth(tag, i, PrintAttr(attrs[0]), rest);
      AttrStep(tag, i, attrs[0], name);
      AttrsPrinted(tag, i + |PrintAttr(attrs[0])|, attrs[1..], tail, name);
    }
  }

  predicate IsElement(s: string) {
    Plain(s) && forall c | c in s :: !IsBlank(c)
  }

  predicate ValidTag(element: string, attrs: seq<Attr>, tail: string) {
    && IsElement(element) && ValidAttrs(attrs) && IsTail(tail)
    && (attrs != [] ==> attrs[0].before != "")
  }

  function PrintTag(element: string, attrs: seq<Attr>, tail: string): string {
    element + (PrintAttrs(attrs) + tail)
  }

  /** Attributes are looked up from the first blank after the element name. */
  lemma ElementSkipped(element: string, attrs: seq<Attr>, tail: string)
    requires ValidTag(element, attrs, tail) && attrs != []
    ensures ElementEnd(PrintTag(element, attrs, tail), 0) == |element|
  {
    hide ValidAttrs, IsTail, Plain;
    var tag := PrintTag(element, attrs, tail);
    var first := attrs[0].before;
    assert Holds(tag, 0, element);
    PartChars(tag, 0, element);
    assert tag[|element|] == first[0] && IsBlank(first[0]) by {
      FirstIsBlank(attrs);
      assert tag[|element|] == PrintAttrs(attrs)[0];
    }
    ElementRun(tag, 0, |element|);
  }

  lemma FirstIsBlank(attrs: seq<Attr>)
    requires ValidAttrs(attrs) && attrs != [] && attrs[0].before != ""
    ensures PrintAttrs(attrs) != "" && PrintAttrs(attrs)[0] == attrs[0].before[0] && IsBlank(attrs[0].before[0])
  {
    assert ValidAttr(attrs[0]);
    assert attrs[0].before[0] in attrs[0].before;
  }

  /** In the printed tag a name has the value of the first attribute with exactly that name. */
  lemma LookupPrinted(element: string, attrs: seq<Attr>, tail: string, name: string)
    requires ValidTag(element, attrs, tail)
    ensures RootAttribute(PrintTag(element, attrs, tail), name) == FirstNamed(attrs, name)
  {
    hide Lookup, ElementEnd, ValidAttrs;
    var tag := PrintTag(element, attrs, tail);
    if attrs == [] {
      assert PrintAttrs(attrs) + tail == tail;
      EmptyLookup(element, tail, name);
    } else {
      ElementSkipped(element, attrs, tail);
      assert Holds(tag, |element|, PrintAttrs(attrs) + tail);
      AttrsPrinted(tag, |element|, attrs, tail, name);
    }
  }

  lemma EmptyLookup(element: string, tail: string, name: string)
    requires IsElement(element) && IsTail(tail)
    ensures RootAttribute(element + tail, name) == None
  {
    hide Lookup;
    var tag := element + tail;
    var k := ElementEnd(tag, 0);
    assert k >= |element| by {
      ElementPassed(tag, 0, |element|);
    }
    forall m | k <= m < |tag|
      ensures IsBlank(tag[m]) || tag[m] == '/'
    {
      assert tag[m] == tail[m - |element|];
    }
    TailStep(tag, k, name);
  }

  lemma {:induction false} ElementPassed(tag: string, i: nat, k: nat)
    requires i <= k <= |tag| && forall m | i <= m < k :: !IsBlank(tag[m])
    ensures k <= ElementEnd(tag, i)
    decreases k - i
  {
    if i < k {
      ElementPassed(tag, i + 1, k);
    }
  }

  // ---------- where the tag ends ----------

  lemma {:induction false} PlainRun(text: string, i: nat, k: nat)
    requires i <= k <= |text| && forall m | i <= m < k :: !IsQuote(text[m]) && text[m] != '>'
    ensures ScanParts(text, i, ">") == ScanParts(text, k, ">")
    decreases k - i
  {
    if i < k {
      PlainRun(text, i + 1, k);
    }
  }

  lemma PlainStep(text: string, i: nat, s: string)
    requires Holds(text, i, s) && Plain(s)
    ensures ScanParts(text, i, ">") == ScanParts(text, i + |s|, ">")
  {
    hide ScanParts;
    PartChars(text, i, s);
    PlainRun(text, i, i + |s|);
  }

  lemma BlankStep(text: string, i: nat, s: string)
    requires Holds(text, i, s) && AllBlank(s)
    ensures ScanParts(text, i, ">") == ScanParts(text, i + |s|, ">")
  {
    hide ScanParts;
    assert Plain(s);
    PlainStep(text, i, s);
  }

  lemma QuotedStep(text: string, i: nat, quote: char, value: string)
    requires Holds(text, i, PrintQuoted(quote, value)) && IsQuote(quote) && quote !in value
    ensures ScanParts(text, i, ">") == ScanParts(text, i + |PrintQuoted(quote, value)|, ">")
  {
    hide Find;
    ReadsQuoted(text, i, quote, value);
  }

  lemma AttrScanned(text: string, i: nat, a: Attr)
    requires Holds(text, i, PrintAttr(a)) && ValidAttr(a)
    ensures ScanParts(text, i, ">") == ScanParts(text, i + |PrintAttr(a)|, ">")
  {
    hide ScanParts, Holds, AllBlank, IsName, Plain;
    var start := i + |a.before|;
    var end := start + |a.name|;
    var equals := end + |a.gap|;
    AttrLayout(text, i, a);
    BlankStep(text, i, a.before);
    PlainStep(text, start, a.name);
    BlankStep(text, end, a.gap);
    assert Plain("=") by {
      PlainEquals();
    }
    PlainStep(text, equals, "=");
    BlankStep(text, equals + 1, a.lead);
    QuotedStep(text, equals + 1 + |a.lead|, a.quote, a.value);
  }

  lemma PlainEquals()
    ensures Plain("=")
  {
  }

  lemma {:induction false} AttrsScanned(text: string, i: nat, attrs: seq<Attr>)
    requires Holds(text, i, PrintAttrs(attrs)) && ValidAttrs(attrs)
    ensures ScanParts(text, i, ">") == ScanParts(text, i + |PrintAttrs(attrs)|, ">")
    decreases |attrs|
  {
    hide ScanParts, ValidAttr, PrintAttr;
    if attrs != [] {
      HoldsBoth(text, i, PrintAttr(attrs[0]), PrintAttrs(attrs[1..]));
      AttrScanned(text, i, attrs[0]);
      AttrsScanned(text, i + |PrintAttr(attrs[0])|, attrs[1..]);
    }
  }

  lemma TagScanned(text: string, i: nat, element: string, attrs: seq<Attr>, tail: string)
    requires ValidTag(element, attrs, tail) && Holds(text, i, PrintTag(element, attrs, tail))
    ensures ScanParts(text, i, ">") == ScanParts(text, i + |PrintTag(element, attrs, tail)|, ">")
  {
    hide ScanParts, ValidAttrs, PrintAttrs, IsBlank, Holds;
    var k := i + |element|;
    HoldsBoth(text, i, element, PrintAttrs(attrs) + tail);
    HoldsBoth(text, k, PrintAttrs(attrs), tail);
    PlainStep(text, i, element);
    AttrsScanned(text, k, attrs);
    TailPlain(tail);
    PlainStep(text, k + |PrintAttrs(attrs)|, tail);
  }

  lemma TailPlain(tail: string)
    requires IsTail(tail)
    ensures Plain(tail)
  {
  }

  /**
   Reading inverts printing: whatever the values hold besides their own quote, the tag ends at
   its own `>`, and in it a name has the value of the first attribute with exactly that name.
   */
  lemma TagRoundTrip(element: string, attrs: seq<Attr>, tail: string, rest: string, name: string)
    requires ValidTag(element, attrs, tail)
    ensures var tag := PrintTag(element, attrs, tail);
            RootTag("<" + (tag + (">" + rest))) == Some(tag) && RootAttribute(tag, name) == FirstNamed(attrs, name)
  {
    hide ValidTag, PrintTag, RootAttribute, Find;
    var tag := PrintTag(element, attrs, tail);
    var root := "<" + (tag + (">" + rest));
    assert Holds(root, 0, "<") && Holds(root, 1, tag) && root[1 + |tag|] == '>';
    assert ScanParts(root, 0, ">") == ScanParts(root, 1, ">");
    TagScanned(root, 1, element, attrs, tail);
    assert StopsAt(root, 1 + |tag|, ">");
    assert ScanParts(root, 1 + |tag|, ">") == Some(1 + |tag|);
    LookupPrinted(element, attrs, tail, name);
  }

  // ---------- every answer is a real attribute ----------

  predicate Boundary(c: char) {
    IsBlank(c) || c == '/' || c == '=' || IsQuote(c)
  }

  predicate AtBoundary(tag: string, i: nat) {
    i >= |tag| || EndsName(tag[i]) || (i > 0 && Boundary(tag[i - 1]))
  }

  /** At `p` a whole name stands, and it is given the quoted value. */
  ghost predicate Declares(tag: string, p: nat, name: string, value: string) {
    && 0 < p <= |tag| && Boundary(tag[p - 1]) && IsName(name)
    && exists gap, lead, quote ::
         && AllBlank(gap) && AllBlank(lead) && quote in "\"'" && quote !in value
         && Holds(tag, p, PrintAttr(Attr("", name, gap, lead, quote, value)))
  }

  lemma {:induction false} BlankExplained(tag: string, i: nat, m: nat)
    requires i <= m < SkipBlank(tag, i) <= |tag|
    ensures IsBlank(tag[m])
    decreases m - i
  {
    if i < m {
      BlankExplained(tag, i + 1, m);
    }
  }

  lemma {:induction false} NameExplained(tag: string, i: nat, m: nat)
    requires i <= m < NameEnd(tag, i) <= |tag|
    ensures !EndsName(tag[m])
    decreases m - i
  {
    if i < m {
      NameExplained(tag, i + 1, m);
    }
  }

  lemma BlankSlice(tag: string, i: nat)
    requires i <= |tag|
    ensures AllBlank(tag[i..SkipBlank(tag, i)])
  {
    var k := SkipBlank(tag, i);
    forall c | c in tag[i..k]
      ensures IsBlank(c)
    {
      var x :| 0 <= x < k - i && tag[i..k][x] == c;
      BlankExplained(tag, i, i + x);
    }
  }

  lemma NameSlice(tag: string, i: nat)
    requires i < NameEnd(tag, i) <= |tag|
    ensures IsName(tag[i..NameEnd(tag, i)])
  {
    var k := NameEnd(tag, i);
    forall c | c in tag[i..k]
      ensures !EndsName(c)
    {
      var x :| 0 <= x < k - i && tag[i..k][x] == c;
      NameExplained(tag, i, i + x);
    }
  }

  lemma {:induction false} NoneBefore(text: string, i: nat, close: nat, c: char, m: nat)
    requires Find(text, i, [c]) == Some(close) && i <= m < close < |text|
    ensures text[m] != c
  {
    if text[m] == c {
      assert text[m..m + 1] == [c];
      FindFirst(text, i, [c], m);
    }
  }

  lemma ValueFree(tag: string, i: nat, close: nat, quote: char)
    requires Find(tag, i, [quote]) == Some(close)
    ensures close < |tag| && tag[close] == quote && quote !in tag[i..close]
  {
    hide Find;
    assert tag[close..close + 1][0] == tag[close];
    forall x | 0 <= x < close - i
      ensures tag[i..close][x] != quote
    {
      NoneBefore(tag, i, close, quote, i + x);
    }
  }

  lemma ValueSlice(tag: string, open: nat, close: nat)
    requires open < |tag| && Find(tag, open + 1, [tag[open]]) == Some(close)
    ensures close < |tag| && tag[open] !in tag[open + 1..close]
    ensures Holds(tag, open, PrintQuoted(tag[open], tag[open + 1..close]))
  {
    hide Find;
    var quote := tag[open];
    var value := tag[open + 1..close];
    ValueFree(tag, open + 1, close, quote);
    HoldsElement(tag, open);
    HoldsSlice(tag, open + 1, close);
    HoldsElement(tag, close);
    hide Holds;
    HoldsJoined(tag, open + 1, value, [quote]);
    HoldsJoined(tag, open, [quote], value + [quote]);
  }

  lemma EntryExplained(tag: string, start: nat, value: string)
    requires start < |tag| && start > 0 && Boundary(tag[start - 1]) && EntryAt(tag, start) == Given(value)
    ensures Declares(tag, start, tag[start..NameEnd(tag, start)], value)
  {
    hide Find, Holds, AllBlank, IsName, SkipBlank, NameEnd, PrintQuoted;
    var end := NameEnd(tag, start);
    var equals := SkipBlank(tag, end);
    var open := SkipBlank(tag, equals + 1);
    var name, gap, lead := tag[start..end], tag[end..equals], tag[equals + 1..open];
    var quote := tag[open];
    var close := Find(tag, open + 1, [quote]).value;
    NameSlice(tag, start);
    BlankSlice(tag, end);
    BlankSlice(tag, equals + 1);
    ValueSlice(tag, open, close);
    var a := Attr("", name, gap, lead, quote, value);
    AttrJoined(tag, start, a, end, equals, open);
  }

  lemma AttrJoined(tag: string, start: nat, a: Attr, end: nat, equals: nat, open: nat)
    requires start <= end <= equals < open <= |tag| && tag[equals] == '='
    requires a.before == "" && a.name == tag[start..end] && a.gap == tag[end..equals] && a.lead == tag[equals + 1..open]
    requires Holds(tag, open, PrintQuoted(a.quote, a.value))
    ensures Holds(tag, start, PrintAttr(a))
  {
    hide Holds, PrintQuoted;
    var quoted := PrintQuoted(a.quote, a.value);
    HoldsSlice(tag, equals + 1, open);
    HoldsJoined(tag, equals + 1, a.lead, quoted);
    HoldsSlice(tag, equals, equals + 1);
    assert tag[equals..equals + 1] == "=";
    HoldsJoined(tag, equals, "=", a.lead + quoted);
    HoldsSlice(tag, end, equals);
    HoldsJoined(tag, end, a.gap, "=" + (a.lead + quoted));
    HoldsSlice(tag, start, end);
    HoldsJoined(tag, start, a.name, a.gap + ("=" + (a.lead + quoted)));
    assert "" + (a.name + (a.gap + ("=" + (a.lead + quoted)))) == a.name + (a.gap + ("=" + (a.lead + quoted)));
  }

  lemma {:induction false} NameStops(tag: string, i: nat)
    ensures var k := NameEnd(tag, i); k < |tag| ==> EndsName(tag[k])
    decreases |tag| - i
  {
    if i < |tag| && !EndsName(tag[i]) {
      NameStops(tag, i + 1);
    }
  }

  /** After blanks the scan stands right after one, or where it stood before. */
  lemma SkippedBoundary(tag: string, i: nat)
    requires i <= |tag| && AtBoundary(tag, i)
    ensures var k := SkipBlank(tag, i);
            k < |tag| ==> !IsBlank(tag[k]) && ((k > 0 && Boundary(tag[k - 1])) || tag[k] == '/' || tag[k] == '=')
  {
    var k := SkipBlank(tag, i);
    BlanksSkipped(tag, i);
    if i < k {
      BlankExplained(tag, i, k - 1);
    }
  }

  lemma EntryBoundary(tag: string, start: nat)
    requires start < |tag| && !IsBlank(tag[start]) && !EntryAt(tag, start).Broken?
    ensures AtBoundary(tag, EntryEnd(tag, start))
  {
    hide Find;
    var end := NameEnd(tag, start);
    var equals := SkipBlank(tag, end);
    NameStops(tag, start);
    if EntryAt(tag, start).Bare? && end < equals {
      BlankExplained(tag, end, equals - 1);
    }
    if EntryAt(tag, start).Given? {
      var open := SkipBlank(tag, equals + 1);
      ClosedByQuote(tag, open);
    }
  }

  lemma ClosedByQuote(tag: string, open: nat)
    requires open < |tag| && IsQuote(tag[open])
    ensures var close := Find(tag, open + 1, [tag[open]]); close.Some? ==> IsQuote(tag[close.value])
  {
    var close := Find(tag, open + 1, [tag[open]]);
    if close.Some? {
      assert tag[close.value..close.value + 1][0] == tag[close.value];
    }
  }

  /**
   Every answer is an attribute of the tag with exactly that name: the text has the whole name,
   its `=` and the quoted value, and no longer name ends in it.
   */
  lemma {:induction false} LookupExplained(tag: string, i: nat, name: string)
    requires i <= |tag| && AtBoundary(tag, i)
    ensures var r := Lookup(tag, i, name); r.Some? ==> exists p :: i <= p && Declares(tag, p, name, r.value)
    decreases |tag| - i
  {
    hide Declares, EntryEnd, AtBoundary, NameEnd, SkipBlank;
    var start := SkipBlank(tag, i);
    SkippedBoundary(tag, i);
    if start < |tag| && !EntryAt(tag, start).Broken? {
      if EntryAt(tag, start).Given? && tag[start..NameEnd(tag, start)] == name {
        NotEmpty(tag, start);
        EntryExplained(tag, start, EntryAt(tag, start).value);
      } else {
        EntryBoundary(tag, start);
        LookupExplained(tag, EntryEnd(tag, start), name);
      }
    }
  }

  lemma NotEmpty(tag: string, start: nat)
    requires start < |tag| && EntryAt(tag, start).Given?
    ensures tag[start] != '/' && tag[start] != '='
  {
  }

  lemma {:induction false} ElementStops(tag: string, i: nat)
    ensures var k := ElementEnd(tag, i); k < |tag| ==> IsBlank(tag[k])
    decreases |tag| - i
  {
    if i < |tag| && !IsBlank(tag[i]) {
      ElementStops(tag, i + 1);
    }
  }

  /** For every tag: an answer is the value the tag gives to exactly that name. */
  lemma RootAttributeExplained(tag: string, name: string)
    ensures var r := RootAttribute(tag, name); r.Some? ==> exists p :: Declares(tag, p, name, r.value)
  {
    hide Declares, Lookup;
    ElementStops(tag, 0);
    LookupExplained(tag, ElementEnd(tag, 0), name);
  }
}
