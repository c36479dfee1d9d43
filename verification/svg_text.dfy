/**
 Searching decoded text. truss's byte loops look for ASCII only, so positions in the
 UTF-8 bytes and positions in the characters tell the same story.
 */
module SvgText {
  import opened Wrappers
  import opened Layout

  /** Unicode White_Space, which `trim_start` removes. */
  predicate IsSpace(c: char) {
    || '\U{0009}' <= c <= '\U{000D}' || c == '\U{0020}' || c == '\U{0085}' || c == '\U{00A0}' || c == '\U{1680}'
    || '\U{2000}' <= c <= '\U{200A}' || c == '\U{2028}' || c == '\U{2029}' || c == '\U{202F}' || c == '\U{205F}'
    || c == '\U{3000}'
  }

  predicate IsQuote(c: char) {
    c == '"' || c == '\''
  }

  /** The first position from `i` on at which `needle` stands. */
  function Find(text: string, i: nat, needle: string): (r: Option<nat>)
    ensures r.Some? ==> i <= r.value && Holds(text, r.value, needle)
    decreases |text| - i
  {
    if i + |needle| > |text| then None
    else if Holds(text, i, needle) then Some(i)
    else Find(text, i + 1, needle)
  }

  lemma {:induction false} FindFirst(text: string, i: nat, needle: string, m: nat)
    requires i <= m && Holds(text, m, needle)
    ensures Find(text, i, needle).Some? && Find(text, i, needle).value <= m
    decreases |text| - i
  {
    if i < m && !Holds(text, i, needle) {
      FindFirst(text, i + 1, needle, m);
    }
  }

  function After(found: Option<nat>, n: nat): Option<nat> {
    if found.None? then None else Some(found.value + n)
  }

  /** `open`, then text up to the first `close` after it, then that `close`. */
  predicate Delimited(t: string, open: string, close: string) {
    |open| + |close| <= |t| && Holds(t, 0, open) && Find(t, |open|, close) == Some(|t| - |close|)
  }

  lemma HoldsInside(text: string, i: nat, t: string, k: nat, part: string)
    requires Holds(text, i, t) && k + |part| <= |t|
    ensures Holds(text, i + k, part) <==> Holds(t, k, part)
  {
    SubSlice(text, i, i + |t|, k, k + |part|);
  }

  /** A search whose answer lies inside a part of the text is a search of that part. */
  lemma {:induction false} FindInside(text: string, i: nat, t: string, k: nat, m: nat, needle: string)
    requires Holds(text, i, t) && m + |needle| <= |t|
    ensures Find(text, i + k, needle) == Some(i + m) <==> Find(t, k, needle) == Some(m)
    decreases |t| - k
  {
    if k <= m {
      HoldsInside(text, i, t, k, needle);
      FindInside(text, i, t, k + 1, m, needle);
    }
  }

  lemma HoldsStart(text: string, i: nat, t: string, open: string)
    requires Holds(text, i, t) && |open| <= |t|
    ensures Holds(text, i, open) <==> Holds(t, 0, open)
  {
    HoldsInside(text, i, t, 0, open);
  }

  lemma CloseInside(text: string, i: nat, t: string, k: nat, close: string)
    requires Holds(text, i, t) && k + |close| <= |t|
    ensures After(Find(text, i + k, close), |close|) == Some(i + |t|) <==> Find(t, k, close) == Some(|t| - |close|)
  {
    FindInside(text, i, t, k, |t| - |close|, close);
  }

  /** Scanning for the terminator recognises exactly the delimited strings. */
  lemma DelimitedEnd(text: string, i: nat, t: string, open: string, close: string)
    requires Holds(text, i, t) && |open| + |close| <= |t|
    ensures Delimited(t, open, close) <==>
            Holds(text, i, open) && After(Find(text, i + |open|, close), |close|) == Some(i + |t|)
  {
    HoldsStart(text, i, t, open);
    CloseInside(text, i, t, |open|, close);
  }

  // ---------- text with quoted literals ----------

  /** One character, or one quoted literal, whose body may hold anything but its quote. */
  predicate IsPart(t: string, stops: string) {
    t != "" && if t[0] in "\"'" then |t| >= 2 && Delimited(t, [t[0]], [t[0]]) else |t| == 1 && t[0] !in stops
  }

  predicate IsParts(ts: seq<string>, stops: string) {
    ts == [] || (IsPart(ts[0], stops) && IsParts(ts[1..], stops))
  }

  function Flatten(ts: seq<string>): string {
    if ts == [] then "" else ts[0] + Flatten(ts[1..])
  }

  /** Where the part that starts at `i` ends. */
  function PartEnd(text: string, i: nat): (r: Option<nat>)
    requires i < |text|
    ensures r.Some? ==> i < r.value <= |text|
  {
    if IsQuote(text[i]) then After(Find(text, i + 1, [text[i]]), 1) else Some(i + 1)
  }

  predicate StopsAt(text: string, k: nat, stops: string) {
    k < |text| && text[k] in stops && !IsQuote(text[k])
  }

  /** The first stop character outside quoted literals. */
  function ScanParts(text: string, i: nat, stops: string): (r: Option<nat>)
    ensures r.Some? ==> i <= r.value && StopsAt(text, r.value, stops)
    decreases |text| - i
  {
    if i >= |text| then None
    else if StopsAt(text, i, stops) then Some(i)
    else if PartEnd(text, i).None? then None
    else ScanParts(text, PartEnd(text, i).value, stops)
  }

  lemma PartEndExact(text: string, i: nat, t: string, stops: string)
    requires Holds(text, i, t) && t != ""
    ensures IsPart(t, stops) <==> !StopsAt(text, i, stops) && PartEnd(text, i) == Some(i + |t|)
  {
    assert text[i] == t[0] by {
      assert text[i..i + |t|][0] == text[i];
    }
    if IsQuote(t[0]) && |t| >= 2 {
      HoldsInside(text, i, t, 0, [t[0]]);
      assert Holds(t, 0, [t[0]]);
      DelimitedEnd(text, i, t, [t[0]], [t[0]]);
    }
  }

  /** Printed parts are stepped over, up to the stop character after them. */
  lemma {:induction false} ScanPrinted(text: string, i: nat, ts: seq<string>, stops: string)
    requires IsParts(ts, stops) && Holds(text, i, Flatten(ts)) && StopsAt(text, i + |Flatten(ts)|, stops)
    ensures ScanParts(text, i, stops) == Some(i + |Flatten(ts)|)
    decreases |ts|
  {
    if ts != [] {
      HoldsBoth(text, i, ts[0], Flatten(ts[1..]));
      PartEndExact(text, i, ts[0], stops);
      ScanPrinted(text, i + |ts[0]|, ts[1..], stops);
    }
  }

  lemma FlattenCons(t: string, ts: seq<string>)
    ensures ([t] + ts)[1..] == ts && Flatten([t] + ts) == t + Flatten(ts)
  {
    assert ([t] + ts)[1..] == ts;
  }

  /** Whatever a scan steps over is made of parts. */
  lemma {:induction false} ScanExplained(text: string, i: nat, stops: string) returns (ts: seq<string>)
    requires ScanParts(text, i, stops).Some?
    ensures IsParts(ts, stops) && text[i..ScanParts(text, i, stops).value] == Flatten(ts)
    decreases |text| - i
  {
    if StopsAt(text, i, stops) {
      ts := [];
    } else {
      var next := PartEnd(text, i).value;
      var t := text[i..next];
      PartEndExact(text, i, t, stops);
      var rest := ScanExplained(text, next, stops);
      ts := [t] + rest;
      FlattenCons(t, rest);
      assert text[i..next] + text[next..ScanParts(text, i, stops).value] == text[i..ScanParts(text, i, stops).value];
    }
  }
}
