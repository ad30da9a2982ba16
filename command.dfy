/** The message grammar of the bot: two exact keywords for the monthly
    totals, and an expense entry of four fields separated by an ASCII comma
    or, when the text has no ASCII comma, by the ideographic comma `、`.
    The text is the message already lower-cased (see module Bot). */
module Command {

  import opened Text
  import opened Calendar
  import opened Wrappers

  const TotalKeyword: string := "合計"
  const CigaretteTotalKeyword: string := "タバコ合計"
  /** A date field equal to this word stands for the current date. */
  const TodayWord: string := "今日"
  const Comma: char := ','
  const IdeographicComma: char := '、'

  /** The four fields of an entry, as text: date, location, purpose, amount. */
  datatype Fields = Fields(date: string, location: string, purpose: string, amount: string)

  datatype Command =
    | TotalQuery
    | CigaretteTotalQuery
    | Entry(fields: Fields)
    /** A separator was found but the text did not split into four fields. */
    | MissingFields
    /** Neither keyword and no separator. */
    | Unrecognized

  /** The date field after the `今日` substitution, with `now` the current
      date in Japan Standard Time: `今日` becomes a text the database reads
      back as `now` (for the four-digit years a clock gives), and every
      other date text is kept as it is. */
  function ResolveDate(field: string, now: Date): (r: string)
    ensures field != TodayWord ==> r == field
    ensures field == TodayWord && ValidDate(now) && now.year >= 1000 ==> DateOf(r) == Some(now)
  {
    if field != TodayWord then field
    else
      FormatDateRoundTrip(now);
      FormatDate(now)
  }

  /** Splitting on `sep`, and unpacking into exactly four fields: an entry
      exactly when `sep` occurs three times, with no field holding `sep`,
      and the missing-fields error otherwise. */
  function SplitEntry(text: string, sep: char, now: Date): (r: Command)
    ensures r.Entry? || r == MissingFields
    ensures r.Entry? <==> Count(text, sep) == 3
    ensures r.Entry? ==> sep !in r.fields.location && sep !in r.fields.purpose && sep !in r.fields.amount
  {
    var p := Split(text, sep);
    if |p| == 4 then Entry(Fields(ResolveDate(p[0], now), p[1], p[2], p[3]))
    else MissingFields
  }

  /** Classification of a lower-cased message; first match wins. An entry
      or a missing-fields error comes exactly from a text holding a
      separator, and an entry has exactly three of the chosen one. */
  function Parse(text: string, now: Date): (r: Command)
    ensures r.Entry? || r == MissingFields <==> Comma in text || IdeographicComma in text
    ensures r.Entry? ==> Count(text, Separator(text)) == 3
  {
    assert Comma !in TotalKeyword && IdeographicComma !in TotalKeyword;
    assert Comma !in CigaretteTotalKeyword && IdeographicComma !in CigaretteTotalKeyword;
    if text == TotalKeyword then TotalQuery
    else if text == CigaretteTotalKeyword then CigaretteTotalQuery
    else if Comma in text then SplitEntry(text, Comma, now)
    else if IdeographicComma in text then SplitEntry(text, IdeographicComma, now)
    else Unrecognized
  }

  /** The separator an entry is split on: the ASCII comma when present. */
  function Separator(text: string): char
  {
    if Comma in text then Comma else IdeographicComma
  }

  /** Each outcome of the classification, stated as a condition on the text
      alone: the keywords only when matched exactly, an entry exactly when
      the chosen separator occurs three times, the missing-fields error
      exactly when it occurs some other non-zero number of times, and the
      unrecognised reply exactly when neither separator occurs. */
  lemma Classification(text: string, now: Date)
    ensures Parse(text, now) == TotalQuery <==> text == TotalKeyword
    ensures Parse(text, now) == CigaretteTotalQuery <==> text == CigaretteTotalKeyword
    ensures Parse(text, now).Entry? <==>
      (Comma in text && Count(text, Comma) == 3)
      || (Comma !in text && Count(text, IdeographicComma) == 3)
    ensures Parse(text, now) == MissingFields <==>
      (Comma in text && Count(text, Comma) != 3)
      || (Comma !in text && IdeographicComma in text && Count(text, IdeographicComma) != 3)
    ensures Parse(text, now) == Unrecognized <==>
      text != TotalKeyword && text != CigaretteTotalKeyword
      && Comma !in text && IdeographicComma !in text
  {
    CountZero(text, Comma);
    CountZero(text, IdeographicComma);
    assert Comma !in TotalKeyword && IdeographicComma !in TotalKeyword;
    assert Comma !in CigaretteTotalKeyword && IdeographicComma !in CigaretteTotalKeyword;
  }

  /** Four pieces without an ASCII comma, joined by ASCII commas, make an
      entry holding those pieces in order, with only the date substituted,
      whatever white space or ideographic commas the pieces hold. */
  lemma CommaEntry(d: string, l: string, p: string, a: string, now: Date)
    requires Comma !in d && Comma !in l && Comma !in p && Comma !in a
    ensures Parse(d + [Comma] + l + [Comma] + p + [Comma] + a, now)
         == Entry(Fields(ResolveDate(d, now), l, p, a))
  {
    var text := d + [Comma] + l + [Comma] + p + [Comma] + a;
    Join4(d, l, p, a, Comma);
    SplitJoin([d, l, p, a], Comma);
    assert text[|d|] == Comma;
    assert Comma !in TotalKeyword && Comma !in CigaretteTotalKeyword;
  }

  /** The same for the ideographic comma, which applies when the text has
      no ASCII comma at all. */
  lemma IdeographicEntry(d: string, l: string, p: string, a: string, now: Date)
    requires Comma !in d && Comma !in l && Comma !in p && Comma !in a
    requires IdeographicComma !in d && IdeographicComma !in l
    requires IdeographicComma !in p && IdeographicComma !in a
    ensures Parse(d + [IdeographicComma] + l + [IdeographicComma] + p + [IdeographicComma] + a, now)
         == Entry(Fields(ResolveDate(d, now), l, p, a))
  {
    var sep := IdeographicComma;
    var text := d + [sep] + l + [sep] + p + [sep] + a;
    Join4(d, l, p, a, sep);
    SplitJoin([d, l, p, a], sep);
    assert text[|d|] == sep;
    assert Comma !in text by {
      assert Comma !in d + [sep];
      assert Comma !in d + [sep] + l;
      assert Comma !in d + [sep] + l + [sep];
      assert Comma !in d + [sep] + l + [sep] + p;
      assert Comma !in d + [sep] + l + [sep] + p + [sep];
    }
    assert IdeographicComma !in TotalKeyword && IdeographicComma !in CigaretteTotalKeyword;
  }

  /** An entry is exactly the text: re-joining its fields with the chosen
      separator, the date field before substitution, gives the message back,
      and no field holds that separator. */
  lemma EntryFields(text: string, now: Date, f: Fields)
    requires Parse(text, now) == Entry(f)
    ensures var sep := Separator(text);
      sep !in f.location && sep !in f.purpose && sep !in f.amount
      && exists raw :: sep !in raw && f.date == ResolveDate(raw, now)
           && text == raw + [sep] + f.location + [sep] + f.purpose + [sep] + f.amount
  {
    var sep := Separator(text);
    var p := Split(text, sep);
    assert |p| == 4;
    JoinSplit(text, sep);
    Join4(p[0], p[1], p[2], p[3], sep);
    assert [p[0], p[1], p[2], p[3]] == p;
    assert sep !in p[0] && f.date == ResolveDate(p[0], now);
  }

  /** Neither keyword holds an ASCII letter. */
  lemma KeywordsHaveNoLetters()
    ensures forall i :: 0 <= i < |TotalKeyword| ==> !('A' <= TotalKeyword[i] <= 'Z') && !('a' <= TotalKeyword[i] <= 'z')
    ensures forall i :: 0 <= i < |CigaretteTotalKeyword| ==>
      !('A' <= CigaretteTotalKeyword[i] <= 'Z') && !('a' <= CigaretteTotalKeyword[i] <= 'z')
  {
  }
}
