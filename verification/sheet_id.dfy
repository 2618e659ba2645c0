/** The sheet identifier: a calendar date written `ddMMyy` (day, month and
    the last two digits of the year, each zero-padded to two digits). It is
    both the route segment and the key of the remote spreadsheet tab. */
module SheetId {
  import opened Optional
  import opened Decimal
  import Config

  datatype Date = Date(day: nat, month: nat, year: nat)

  /** What the identifier can carry: day, month and the year modulo 100. */
  datatype ShortDate = ShortDate(day: nat, month: nat, yy: nat)

  /** Day and month in range; whether the day exists in that month is the
      date library's concern and is not modelled. */
  predicate ValidDate(d: Date) {
    1 <= d.day <= 31 && 1 <= d.month <= 12
  }

  predicate ValidShort(d: ShortDate) {
    1 <= d.day <= 31 && 1 <= d.month <= 12 && d.yy < 100
  }

  /** The part of a date the two-digit year keeps. */
  function Shorten(d: Date): (s: ShortDate)
    requires ValidDate(d)
    ensures ValidShort(s)
  {
    ShortDate(d.day, d.month, d.year % 100)
  }

  /** The six-character identifier of a short date. */
  function EncodeShort(d: ShortDate): (id: string)
    requires ValidShort(d)
    ensures |id| == 6 && AllDigits(id)
  {
    Pad2(d.day) + Pad2(d.month) + Pad2(d.yy)
  }

  /** `format(date, "ddMMyy")`. */
  function Encode(d: Date): (id: string)
    requires ValidDate(d)
    ensures |id| == 6 && AllDigits(id)
  {
    EncodeShort(Shorten(d))
  }

  /** `parse(id, "ddMMyy", …)` up to the century: `None` when the string is
      not six digits or the day or month is out of range. */
  function Decode(id: string): (r: Option<ShortDate>)
    ensures r.Some? ==> ValidShort(r.value)
    ensures r.Some? ==> |id| == 6 && AllDigits(id)
  {
    if |id| == 6 && AllDigits(id) then
      var day := Value(id[..2]);
      var month := Value(id[2..4]);
      var yy := Value(id[4..]);
      Pad2OfValue(id[4..]);
      if 1 <= day <= 31 && 1 <= month <= 12 then Some(ShortDate(day, month, yy)) else None
    else None
  }

  /** Decoding an encoded date gives back its day, its month and its year
      modulo 100. */
  lemma DecodeEncode(d: Date)
    requires ValidDate(d)
    ensures Decode(Encode(d)) == Some(ShortDate(d.day, d.month, d.year % 100))
  {
    var id := Encode(d);
    assert id[..2] == Pad2(d.day);
    assert id[2..4] == Pad2(d.month);
    assert id[4..] == Pad2(d.year % 100);
    ValueOfPad2(d.day);
    ValueOfPad2(d.month);
    ValueOfPad2(d.year % 100);
  }

  /** Every identifier that decodes is the encoding of what it decodes to:
      the identifier format has one spelling per short date. */
  lemma EncodeDecode(id: string)
    requires Decode(id).Some?
    ensures EncodeShort(Decode(id).value) == id
  {
    Pad2OfValue(id[..2]);
    Pad2OfValue(id[2..4]);
    Pad2OfValue(id[4..]);
    assert id == id[..2] + id[2..4] + id[4..];
  }

  /** The literal fallback sheet is the identifier of 5 October (20)25. */
  lemma FallbackIsSheetId()
    ensures Decode(Config.FallbackSheet) == Some(ShortDate(5, 10, 25))
  {
    DecodeEncode(Date(5, 10, 2025));
    assert Encode(Date(5, 10, 2025)) == Config.FallbackSheet;
  }

  /** The entry grid's sheet: with no route parameter, today's; with one, the
      date it parses to formatted again. `None` stands for a parameter that
      does not parse, where formatting the invalid date throws. */
  function SelectedSheet(param: Option<string>, today: Date): (r: Option<string>)
    requires ValidDate(today)
    ensures param.None? || param.value == "" ==> r == Some(Encode(today))
    ensures param.Some? && param.value != "" && Decode(param.value).Some? ==> r == Some(param.value)
    ensures param.Some? && param.value != "" && Decode(param.value).None? ==> r.None?
  {
    if param.None? || param.value == "" then Some(Encode(today))
    else match Decode(param.value)
      case None => None
      case Some(d) => EncodeDecode(param.value); Some(EncodeShort(d))
  }
}
