/** The crop region's text form. */
module CropRegions {
  import opened Bytes
  import opened Wrappers
  import opened WideIntegers

  datatype CropRegion = CropRegion(x: nat, y: nat, width: nat, height: nat)

  datatype CropError = WrongFieldCount | NotDigits | FieldTooLarge | ZeroSide

  datatype CropResult = Parsed(crop: CropRegion) | Refused(error: CropError)

  datatype FieldResult = Read(value: nat) | Unread(error: CropError)

  // ---------- splitting ----------

  /** The pieces between separators; always at least one. */
  function Split(s: string, separator: char): (r: seq<string>)
    ensures r != []
  {
    if s == "" then [""]
    else
      var rest := Split(s[1..], separator);
      if s[0] == separator then [""] + rest else [[s[0]] + rest[0]] + rest[1..]
  }

  function Join(fields: seq<string>, separator: char): string
    requires fields != []
  {
    if |fields| == 1 then fields[0] else fields[0] + [separator] + Join(fields[1..], separator)
  }

  predicate Free(fields: seq<string>, separator: char) {
    forall k | 0 <= k < |fields| :: separator !in fields[k]
  }

  lemma {:induction false} JoinAfterSplit(s: string, separator: char)
    ensures Join(Split(s, separator), separator) == s && Free(Split(s, separator), separator)
  {
    if s != "" {
      JoinAfterSplit(s[1..], separator);
      var rest := Split(s[1..], separator);
      if s[0] == separator {
        assert ([""] + rest)[1..] == rest;
      } else {
        assert ([[s[0]] + rest[0]] + rest[1..])[1..] == rest[1..];
      }
    }
  }

  lemma {:induction false} SplitFree(s: string, separator: char)
    requires separator !in s
    ensures Split(s, separator) == [s]
  {
    if s != "" {
      SplitFree(s[1..], separator);
      assert [s[0]] + s[1..] == s;
    }
  }

  lemma {:induction false} SplitAfter(s: string, rest: string, separator: char)
    requires separator !in s
    ensures Split(s + [separator] + rest, separator) == [s] + Split(rest, separator)
  {
    var all := s + [separator] + rest;
    if s == "" {
      assert all[1..] == rest;
    } else {
      assert all[1..] == s[1..] + [separator] + rest;
      SplitAfter(s[1..], rest, separator);
      assert [s[0]] + s[1..] == s;
      assert ([s[1..]] + Split(rest, separator))[1..] == Split(rest, separator);
    }
  }

  lemma {:induction false} SplitAfterJoin(fields: seq<string>, separator: char)
    requires fields != [] && Free(fields, separator)
    ensures Split(Join(fields, separator), separator) == fields
  {
    if |fields| == 1 {
      SplitFree(fields[0], separator);
    } else {
      SplitAfterJoin(fields[1..], separator);
      SplitAfter(fields[0], Join(fields[1..], separator), separator);
    }
  }

  // ---------- parsing and printing ----------

  function CropField(text: string): FieldResult {
    if !AllDigits(text) then Unread(NotDigits)
    else
      match Reading(text)
      case Some(Fits(value)) =>
        if value < 0 then Unread(NotDigits) else if value <= U32_MAX then Read(value) else Unread(FieldTooLarge)
      case Some(Above) => Unread(FieldTooLarge)
      case _ => Unread(NotDigits)
  }

  function ParseCrop(s: string): CropResult {
    var parts := Split(s, ',');
    if |parts| != 4 then Refused(WrongFieldCount)
    else
      var x, y, width, height := CropField(parts[0]), CropField(parts[1]), CropField(parts[2]), CropField(parts[3]);
      if x.Unread? then Refused(x.error)
      else if y.Unread? then Refused(y.error)
      else if width.Unread? then Refused(width.error)
      else if height.Unread? then Refused(height.error)
      else if width.value == 0 || height.value == 0 then Refused(ZeroSide)
      else Parsed(CropRegion(x.value, y.value, width.value, height.value))
  }

  function PrintFields(crop: CropRegion): seq<string> {
    [Decimal(crop.x), Decimal(crop.y), Decimal(crop.width), Decimal(crop.height)]
  }

  function PrintCrop(crop: CropRegion): string {
    Decimal(crop.x) + "," + Decimal(crop.y) + "," + Decimal(crop.width) + "," + Decimal(crop.height)
  }

  predicate InRange(crop: CropRegion) {
    crop.x <= U32_MAX && crop.y <= U32_MAX && 0 < crop.width <= U32_MAX && 0 < crop.height <= U32_MAX
  }

  // ---------- what is accepted ----------

  /** Digits and nothing else, at least one, that spell this number. */
  predicate Spells(text: string, n: nat) {
    text != "" && AllDigits(text) && Value(text) == n
  }

  /** A field is read exactly when it spells a number that fits 32 bits, whatever its length. */
  lemma FieldDecides(text: string, n: nat)
    ensures CropField(text) == Read(n) <==> Spells(text, n) && n <= U32_MAX
    ensures CropField(text) == Unread(FieldTooLarge) <==> text != "" && AllDigits(text) && Value(text) > U32_MAX
  {
    if text != "" && AllDigits(text) {
      assert IsDigit(text[0]);
      IntegersAreClassified(text);
    }
  }

  ghost predicate FourFields(s: string, fields: seq<string>, crop: CropRegion) {
    && |fields| == 4 && s == fields[0] + "," + fields[1] + "," + fields[2] + "," + fields[3]
    && Spells(fields[0], crop.x) && Spells(fields[1], crop.y)
    && Spells(fields[2], crop.width) && Spells(fields[3], crop.height)
  }

  lemma JoinFour(fields: seq<string>)
    requires |fields| == 4
    ensures Join(fields, ',') == fields[0] + "," + fields[1] + "," + fields[2] + "," + fields[3]
  {
    var f0, f1, f2, f3 := fields[0], fields[1], fields[2], fields[3];
    assert fields[1..][1..] == fields[2..] && fields[2..][1..] == fields[3..];
    assert Join(fields[3..], ',') == f3;
    assert Join(fields[2..], ',') == f2 + "," + f3;
    assert Join(fields[1..], ',') == f1 + "," + (f2 + "," + f3);
    assert f0 + "," + (f1 + "," + (f2 + "," + f3)) == f0 + "," + f1 + "," + f2 + "," + f3;
  }

  lemma DigitsHaveNoComma(text: string)
    requires AllDigits(text)
    ensures ',' !in text
  {
  }

  lemma FourFieldsSplit(s: string, fields: seq<string>, crop: CropRegion)
    requires FourFields(s, fields, crop)
    ensures Split(s, ',') == fields
  {
    JoinFour(fields);
    DigitsHaveNoComma(fields[0]);
    DigitsHaveNoComma(fields[1]);
    DigitsHaveNoComma(fields[2]);
    DigitsHaveNoComma(fields[3]);
    SplitAfterJoin(fields, ',');
  }

  /**
   A crop is accepted if and only if its text is four comma-separated fields of digits that spell
   its sides and offsets, all within 32 bits, the sides not zero.
   */
  lemma AcceptedIffFourFields(s: string, crop: CropRegion)
    ensures ParseCrop(s) == Parsed(crop) <==> InRange(crop) && exists fields :: FourFields(s, fields, crop)
  {
    hide CropField, Split, Spells;
    var parts := Split(s, ',');
    if |parts| == 4 {
      FieldDecides(parts[0], crop.x);
      FieldDecides(parts[1], crop.y);
      FieldDecides(parts[2], crop.width);
      FieldDecides(parts[3], crop.height);
      JoinFour(parts);
      JoinAfterSplit(s, ',');
    }
    forall fields | FourFields(s, fields, crop)
      ensures parts == fields
    {
      FourFieldsSplit(s, fields, crop);
    }
    if ParseCrop(s) == Parsed(crop) {
      assert FourFields(s, parts, crop);
    }
  }

  /** A field's own complaint: something that is no digit, or nothing at all, comes before the size. */
  predicate Complains(text: string, error: CropError) {
    if text == "" || !AllDigits(text) then error == NotDigits else Value(text) > U32_MAX && error == FieldTooLarge
  }

  lemma FieldComplains(text: string, error: CropError)
    ensures CropField(text) == Unread(error) <==> Complains(text, error)
  {
    if text != "" && AllDigits(text) {
      FieldDecides(text, Value(text));
    }
  }

  /** A refusal names the number of fields, or the first field that cannot be read, or a side of zero. */
  lemma RefusalNamesFirst(s: string, error: CropError)
    ensures ParseCrop(s) == Refused(error) <==>
            var fields := Split(s, ',');
            if |fields| != 4 then error == WrongFieldCount
            else
              || (exists k | 0 <= k < 4 ::
                    Complains(fields[k], error) && forall m | 0 <= m < k :: CropField(fields[m]).Read?)
              || (error == ZeroSide && (forall k | 0 <= k < 4 :: CropField(fields[k]).Read?)
                  && (CropField(fields[2]) == Read(0) || CropField(fields[3]) == Read(0)))
  {
    hide CropField, Split, Complains;
    var fields := Split(s, ',');
    if |fields| == 4 {
      FieldComplains(fields[0], error);
      FieldComplains(fields[1], error);
      FieldComplains(fields[2], error);
      FieldComplains(fields[3], error);
    }
  }

  /** Parsing the printed form of a crop gives that crop back. */
  lemma CropRoundTrip(crop: CropRegion)
    requires InRange(crop)
    ensures ParseCrop(PrintCrop(crop)) == Parsed(crop)
  {
    var s, fields := PrintCrop(crop), PrintFields(crop);
    ValueOfDecimal(crop.x);
    ValueOfDecimal(crop.y);
    ValueOfDecimal(crop.width);
    ValueOfDecimal(crop.height);
    hide Value, Decimal;
    assert FourFields(s, fields, crop);
    AcceptedIffFourFields(s, crop);
  }
}
