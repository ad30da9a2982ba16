/** The handler of a text message: lower-case the text, classify it, run
    the query or the entry against the sender's backend, and answer with
    exactly one reply, unless a backend call raises, in which case the
    handler stops without replying. The sender's id, the current date in
    Japan Standard Time and the date captured when the process started are
    inputs: the entry uses the current date for `今日`, while the monthly
    totals use the startup date. So are the texts of the two spreadsheet
    cells the designated user's totals are read from. */
module Bot {

  import opened Wrappers
  import opened Numbers
  import opened Text
  import opened Calendar
  import opened Command
  import opened Ledger

  /** The one user whose entries and totals go to the spreadsheet. */
  const PrivilegedUser: string := "Ub204e3d30a9ada4c261667699436afb6"

  const AddedReply: string := "家計簿に情報を追加しました。"
  /** The start shared by both error replies. */
  const ErrorPrefix: string := "入力エラー:"
  const MissingFieldsReply: string :=
    ErrorPrefix + "入力が足りません。入力は「日付, 場所, 用途, 金額」のすべてを含んでください。"
  const UnrecognizedReply: string :=
    ErrorPrefix + "入力は「日付, 場所, 用途, 金額」か「合計」、もしくは「タバコ合計」を入力してください"

  function TotalReply(amount: string): string
  {
    "今月の合計金額は" + amount + "円です。"
  }

  function CigaretteTotalReply(amount: string): string
  {
    "今月のタバコの合計金額は" + amount + "円です。"
  }

  /** Python's f-string rendering of a sum, `None` when absent: reading it
      back as an integer literal gives the sum, and nothing for `None`. */
  function ShowTotal(v: Option<int>): (r: string)
    ensures ParseInt(r) == v
    ensures r == "None" <==> v.None?
    ensures v.Some? ==> r == ShowInt(v.value)
  {
    match v
    case None => "None"
    case Some(n) => ParseShowInt(n); ShowInt(n)
  }

  /** Rendering of a spreadsheet cell's value, `None` when empty: the
      cell's text itself, so an empty cell and one holding the text `None`
      give the same reply. */
  function ShowCell(v: Option<string>): (r: string)
    ensures v.Some? ==> r == v.value
    ensures r == "None" <==> v.None? || v == Some("None")
  {
    match v
    case None => "None"
    case Some(s) => s
  }

  /** The texts of the cells G3 (this month's total) and J3 (this month's
      cigarette total) at the moment a query reads them, `None` when empty.
      Spreadsheet formulas outside the bot fill them. */
  datatype Cells = Cells(total: Option<string>, cigarette: Option<string>)

  /** What a message event ends with: one reply, or an exception from a
      backend call and no reply. */
  datatype Outcome = Replied(message: string) | Crashed(failure: Failure)

  datatype Step = Step(store: Store, outcome: Outcome)

  /** A total query: the store never changes, and only a non-designated
      user's database query can fail. The designated user is answered with
      the cell's text, any other user with the rendered database total. */
  function QueryStep(st: Store, user: string, bootDay: Date, cells: Cells, cigOnly: bool): (r: Step)
    ensures r.store == st
    ensures r.outcome.Crashed? <==> user != PrivilegedUser && MonthlyTotal(st, user, bootDay, cigOnly).Err?
    ensures user == PrivilegedUser ==> r.outcome == Replied(
      if cigOnly then CigaretteTotalReply(ShowCell(cells.cigarette)) else TotalReply(ShowCell(cells.total)))
    ensures user != PrivilegedUser && MonthlyTotal(st, user, bootDay, cigOnly).Ok? ==>
      var v := ShowTotal(MonthlyTotal(st, user, bootDay, cigOnly).value);
      r.outcome == Replied(if cigOnly then CigaretteTotalReply(v) else TotalReply(v))
  {
    if user == PrivilegedUser then
      var cell := if cigOnly then cells.cigarette else cells.total;
      Step(st, Replied(if cigOnly then CigaretteTotalReply(ShowCell(cell)) else TotalReply(ShowCell(cell))))
    else
      match MonthlyTotal(st, user, bootDay, cigOnly)
      case Err(e) => Step(st, Crashed(e))
      case Ok(v) => Step(st, Replied(if cigOnly then CigaretteTotalReply(ShowTotal(v)) else TotalReply(ShowTotal(v))))
  }

  /** An entry: the designated user's goes to the sheet, any other user's
      to that user's table. The `ValueError` the driver raises for a U+0000
      falls into the same `except ValueError` as a wrong field count and
      gets the missing-fields reply; any other failure ends the handler
      without a reply. Nothing changes unless the added reply is sent. */
  function EntryStep(st: Store, user: string, f: Fields): (r: Step)
    ensures r.outcome.Crashed? ==> user != PrivilegedUser
    ensures user != PrivilegedUser && HasNul(f) ==> r == Step(st, Replied(MissingFieldsReply))
    ensures r.outcome != Replied(AddedReply) ==> r.store == st
    ensures r.outcome.Replied? ==> r.outcome.message == AddedReply || r.outcome.message == MissingFieldsReply
  {
    if user == PrivilegedUser then Step(AppendSpec(st, f), Replied(AddedReply))
    else
      match InsertSpec(st, user, f)
      case Err(NulInText) => Step(st, Replied(MissingFieldsReply))
      case Err(e) => Step(st, Crashed(e))
      case Ok(st') => Step(st', Replied(AddedReply))
  }

  /** `handle_message` as a state transition: only an entry changes the
      store, and a failing backend call leaves it as it was. */
  function Handle(st: Store, text: string, user: string, now: Date, bootDay: Date, cells: Cells): (r: Step)
    ensures r.store != st ==> Parse(Lower(text), now).Entry? && r.outcome == Replied(AddedReply)
    ensures r.outcome.Crashed? ==> r.store == st && user != PrivilegedUser
  {
    match Parse(Lower(text), now)
    case TotalQuery => QueryStep(st, user, bootDay, cells, false)
    case CigaretteTotalQuery => QueryStep(st, user, bootDay, cells, true)
    case Entry(f) => EntryStep(st, user, f)
    case MissingFields => Step(st, Replied(MissingFieldsReply))
    case Unrecognized => Step(st, Replied(UnrecognizedReply))
  }

  /** `handle_message` on the backends, returning what is sent to the
      event's reply token. */
  method HandleMessage(b: Backend, text: string, user: string, now: Date, bootDay: Date, cells: Cells)
    returns (outcome: Outcome)
    requires b.Valid()
    modifies b
    ensures b.Valid()
    ensures b.Snapshot() == Handle(old(b.Snapshot()), text, user, now, bootDay, cells).store
    ensures outcome == Handle(old(b.Snapshot()), text, user, now, bootDay, cells).outcome
  {
    var cmd := Parse(Lower(text), now);
    match cmd
    case TotalQuery =>
      outcome := QueryStep(b.Snapshot(), user, bootDay, cells, false).outcome;
    case CigaretteTotalQuery =>
      outcome := QueryStep(b.Snapshot(), user, bootDay, cells, true).outcome;
    case Entry(f) =>
      if user == PrivilegedUser {
        b.AppendToSheet(f);
        outcome := Replied(AddedReply);
      } else {
        var failure := b.Insert(user, f);
        outcome := match failure
          case None => Replied(AddedReply)
          case Some(NulInText) => Replied(MissingFieldsReply)
          case Some(e) => Crashed(e);
      }
    case MissingFields =>
      outcome := Replied(MissingFieldsReply);
    case Unrecognized =>
      outcome := Replied(UnrecognizedReply);
  }

  /** The keywords are recognised in any letter case of the message only
      when it is exactly the keyword: they contain no letters that
      lower-casing could change. */
  lemma KeywordsExact(text: string, now: Date)
    ensures Parse(Lower(text), now) == TotalQuery <==> text == TotalKeyword
    ensures Parse(Lower(text), now) == CigaretteTotalQuery <==> text == CigaretteTotalKeyword
  {
    Classification(Lower(text), now);
    KeywordsHaveNoLetters();
    LowerMatches(text, TotalKeyword);
    LowerMatches(text, CigaretteTotalKeyword);
  }

  /** The missing-fields and the unrecognised replies leave every table,
      and the sheet as they were. */
  lemma ParseErrorsChangeNothing(st: Store, text: string, user: string, now: Date, bootDay: Date, cells: Cells)
    ensures Parse(Lower(text), now) == MissingFields ==>
      Handle(st, text, user, now, bootDay, cells) == Step(st, Replied(MissingFieldsReply))
    ensures Parse(Lower(text), now) == Unrecognized ==>
      Handle(st, text, user, now, bootDay, cells) == Step(st, Replied(UnrecognizedReply))
  {
  }

  /** The unrecognised reply differs from every other reply. */
  lemma UnrecognizedReplyDistinct(s: string)
    ensures AddedReply != UnrecognizedReply && MissingFieldsReply != UnrecognizedReply
    ensures TotalReply(s) != UnrecognizedReply && CigaretteTotalReply(s) != UnrecognizedReply
  {
    assert AddedReply[0] == '家' && UnrecognizedReply[0] == '入';
    assert TotalReply(s)[0] == '今' && CigaretteTotalReply(s)[0] == '今';
    assert MissingFieldsReply[|ErrorPrefix| + 2] == 'が' && UnrecognizedReply[|ErrorPrefix| + 2] == 'は' by {
      assert MissingFieldsReply[|ErrorPrefix| + 2] == "入力が足りません。"[2];
      assert UnrecognizedReply[|ErrorPrefix| + 2] == "入力は「日付"[2];
    }
  }

  /** The classification is unrecognised exactly for a message that is
      neither keyword and holds neither separator, in any letter case. */
  lemma UnrecognizedCondition(text: string, now: Date)
    ensures Parse(Lower(text), now) == Unrecognized <==>
      text != TotalKeyword && text != CigaretteTotalKeyword
      && Comma !in text && IdeographicComma !in text
  {
    Classification(Lower(text), now);
    KeywordsExact(text, now);
    LowerKeepsSeparator(text, Comma);
    LowerKeepsSeparator(text, IdeographicComma);
  }

  /** Any other classification is answered with some other reply, or not
      at all. */
  lemma OtherwiseNotUnrecognized(st: Store, text: string, user: string, now: Date, bootDay: Date, cells: Cells)
    requires Parse(Lower(text), now) != Unrecognized
    ensures Handle(st, text, user, now, bootDay, cells).outcome != Replied(UnrecognizedReply)
  {
    var cig := Parse(Lower(text), now) == CigaretteTotalQuery;
    var cell := if cig then cells.cigarette else cells.total;
    UnrecognizedReplyDistinct(ShowCell(cell));
    var v := MonthlyTotal(st, user, bootDay, cig);
    if v.Ok? {
      UnrecognizedReplyDistinct(ShowTotal(v.value));
    }
  }

  /** The unrecognised reply is sent exactly for a message that is neither
      keyword and holds neither separator, in any letter case. */
  lemma UnrecognizedExactly(st: Store, text: string, user: string, now: Date, bootDay: Date, cells: Cells)
    ensures Handle(st, text, user, now, bootDay, cells).outcome == Replied(UnrecognizedReply) <==>
      text != TotalKeyword && text != CigaretteTotalKeyword
      && Comma !in text && IdeographicComma !in text
  {
    UnrecognizedCondition(text, now);
    if Parse(Lower(text), now) != Unrecognized {
      OtherwiseNotUnrecognized(st, text, user, now, bootDay, cells);
    }
  }

  /** Queries never change state; the designated user is answered from the
      spreadsheet's cells and never fails; any other user is answered from
      the table, or the call fails in December or without a table. */
  lemma QueriesChangeNothing(st: Store, text: string, user: string, now: Date, bootDay: Date, cells: Cells)
    requires ValidDate(bootDay)
    requires text == TotalKeyword || text == CigaretteTotalKeyword
    ensures Handle(st, text, user, now, bootDay, cells).store == st
    ensures var cig := text == CigaretteTotalKeyword;
      user == PrivilegedUser ==>
        Handle(st, text, user, now, bootDay, cells).outcome == Replied(
          if cig then CigaretteTotalReply(ShowCell(cells.cigarette)) else TotalReply(ShowCell(cells.total)))
    ensures user != PrivilegedUser ==>
      (Handle(st, text, user, now, bootDay, cells).outcome.Crashed? <==>
         bootDay.month == 12 || user !in st.tables)
  {
    KeywordsExact(text, now);
    MonthRangeBounds(bootDay);
  }

  /** The total query of a user with a table, outside December, is
      answered with the month's SQL sum of that user's records (only those
      with purpose `タバコ` for the cigarette total), `None` when no
      record is of that month. */
  lemma OtherUserTotalReply(st: Store, text: string, user: string, now: Date, bootDay: Date, cells: Cells)
    requires ValidStore(st) && user != PrivilegedUser && user in st.tables
    requires ValidDate(bootDay) && bootDay.month != 12
    requires text == TotalKeyword || text == CigaretteTotalKeyword
    ensures var cig := text == CigaretteTotalKeyword;
      var v := ShowTotal(SqlSum(AmountsIn(st.tables[user], bootDay.year, bootDay.month, cig)));
      Handle(st, text, user, now, bootDay, cells) == Step(st, Replied(if cig then CigaretteTotalReply(v) else TotalReply(v)))
  {
    KeywordsExact(text, now);
    TotalIsMonthSum(st, user, bootDay, text == CigaretteTotalKeyword);
  }

  /** An entry from the designated user appends its four fields, in order,
      as one row of the spreadsheet and changes no table. */
  lemma PrivilegedEntry(st: Store, text: string, now: Date, bootDay: Date, cells: Cells, f: Fields)
    requires Parse(Lower(text), now) == Entry(f)
    ensures Handle(st, text, PrivilegedUser, now, bootDay, cells)
         == Step(st.(sheet := st.sheet + [f]), Replied(AddedReply))
    ensures Handle(st, text, PrivilegedUser, now, bootDay, cells).store.tables == st.tables
  {
  }

  /** An entry from any other user with a U+0000 in a field gets the
      missing-fields reply and changes nothing. Otherwise it appends exactly
      one record, typed from its fields, to that user's own table and
      nowhere else; when the table is missing or a field is not a literal
      of its type, nothing changes and no reply is sent. */
  lemma OtherUserEntry(st: Store, text: string, user: string, now: Date, bootDay: Date, cells: Cells, f: Fields)
    requires user != PrivilegedUser
    requires Parse(Lower(text), now) == Entry(f)
    ensures HasNul(f) ==> Handle(st, text, user, now, bootDay, cells) == Step(st, Replied(MissingFieldsReply))
    ensures var s := Handle(st, text, user, now, bootDay, cells);
      s.outcome.Crashed? <==> !HasNul(f) && (user !in st.tables || ToRecord(f).None?)
    ensures var s := Handle(st, text, user, now, bootDay, cells);
      s.outcome.Crashed? ==> s.store == st
    ensures var s := Handle(st, text, user, now, bootDay, cells);
      !HasNul(f) && s.outcome.Replied? ==>
        s.outcome.message == AddedReply
        && s.store.sheet == st.sheet
        && s.store.tables.Keys == st.tables.Keys
        && s.store.tables[user] == st.tables[user] + [ToRecord(f).value]
        && forall v :: v in st.tables && v != user ==> s.store.tables[v] == st.tables[v]
  {
    InsertProperties(st, user, f);
  }

  /** Every message is answered with exactly one reply except when a
      backend call of another user raises an error the handler does not
      catch: for a query in December or without a table, for an entry free
      of U+0000 without a table or with a field the database refuses. */
  lemma RepliedUnlessBackendFails(st: Store, text: string, user: string, now: Date, bootDay: Date, cells: Cells)
    requires ValidDate(bootDay)
    ensures var cmd := Parse(Lower(text), now);
      Handle(st, text, user, now, bootDay, cells).outcome.Crashed? <==>
        user != PrivilegedUser
        && (((cmd.TotalQuery? || cmd.CigaretteTotalQuery?) && (bootDay.month == 12 || user !in st.tables))
            || (cmd.Entry? && !HasNul(cmd.fields) && (user !in st.tables || ToRecord(cmd.fields).None?)))
  {
    MonthRangeBounds(bootDay);
    var cmd := Parse(Lower(text), now);
    if cmd.Entry? && user != PrivilegedUser {
      InsertProperties(st, user, cmd.fields);
    }
  }

  /** Handling a message keeps every stored record typed. */
  lemma HandlePreservesValid(st: Store, text: string, user: string, now: Date, bootDay: Date, cells: Cells)
    requires ValidStore(st)
    ensures ValidStore(Handle(st, text, user, now, bootDay, cells).store)
  {
    var cmd := Parse(Lower(text), now);
    if cmd.Entry? {
      AppendKeepsValid(st, cmd.fields);
      InsertKeepsValid(st, user, cmd.fields);
    }
  }

  /** The text of an entry dated `今日` with a rendered amount parses,
      after lower-casing, to that entry with the current date, the location
      and the purpose lower-cased and the amount as written. */
  lemma TodayEntryParses(l: string, p: string, amount: int, now: Date)
    requires Comma !in l && Comma !in p
    ensures var text := TodayWord + [Comma] + l + [Comma] + p + [Comma] + ShowInt(amount);
      Parse(Lower(text), now) == Entry(Fields(FormatDate(now), Lower(l), Lower(p), ShowInt(amount)))
  {
    var a := ShowInt(amount);
    var c := [Comma];
    assert Comma !in a by {
      forall i | 0 <= i < |a| ensures a[i] != Comma {
        assert IsDigit(a[i]) || a[i] == '-';
      }
    }
    assert Lower(a) == a by {
      forall i | 0 <= i < |a| ensures !('A' <= a[i] <= 'Z') {
        assert IsDigit(a[i]) || a[i] == '-';
      }
      LowerNoUpper(a);
    }
    LowerNoUpper(TodayWord);
    LowerNoUpper(c);
    LowerAppend(TodayWord, c);
    LowerAppend(TodayWord + c, l);
    LowerAppend(TodayWord + c + l, c);
    LowerAppend(TodayWord + c + l + c, p);
    LowerAppend(TodayWord + c + l + c + p, c);
    LowerAppend(TodayWord + c + l + c + p + c, a);
    LowerKeepsSeparator(l, Comma);
    LowerKeepsSeparator(p, Comma);
    assert Comma !in TodayWord;
    CommaEntry(TodayWord, Lower(l), Lower(p), a, now);
  }

  /** A user's entry dated `今日`, with an amount the database accepts and
      no U+0000 in the location or the purpose, stores exactly the record
      of that date, the lower-cased location and purpose, and the amount. */
  lemma TodayEntryStored(st: Store, user: string, l: string, p: string, amount: int,
                         now: Date, bootDay: Date, cells: Cells)
    requires user != PrivilegedUser && user in st.tables
    requires ValidDate(now) && now.year >= 1000
    requires IntMin <= amount <= IntMax
    requires Comma !in l && Comma !in p
    requires Nul !in l && Nul !in p
    ensures var text := TodayWord + [Comma] + l + [Comma] + p + [Comma] + ShowInt(amount);
      var r := Record(now, Lower(l), Lower(p), amount);
      Handle(st, text, user, now, bootDay, cells)
        == Step(st.(tables := st.tables[user := st.tables[user] + [r]]), Replied(AddedReply))
  {
    var text := TodayWord + [Comma] + l + [Comma] + p + [Comma] + ShowInt(amount);
    var f := Fields(FormatDate(now), Lower(l), Lower(p), ShowInt(amount));
    var r := Record(now, Lower(l), Lower(p), amount);
    TodayEntryParses(l, p, amount, now);
    HandleEntry(st, text, user, now, bootDay, cells, f);
    TodayFieldsNulFree(l, p, amount, now);
    FormatDateRoundTrip(now);
    AmountRoundTrip(amount);
    assert ToRecord(f) == Some(r);
    EntryStored(st, user, f, r);
  }

  /** A non-designated user's entry free of U+0000, whose fields the
      columns accept as `r`, appends `r` to the user's table and is
      answered with the added reply. */
  lemma EntryStored(st: Store, user: string, f: Fields, r: Record)
    requires user != PrivilegedUser && user in st.tables
    requires !HasNul(f) && ToRecord(f) == Some(r)
    ensures EntryStep(st, user, f)
         == Step(st.(tables := st.tables[user := st.tables[user] + [r]]), Replied(AddedReply))
  {
  }

  /** A message that parses to an entry is handled by the entry step. */
  lemma HandleEntry(st: Store, text: string, user: string, now: Date, bootDay: Date, cells: Cells, f: Fields)
    requires Parse(Lower(text), now) == Entry(f)
    ensures Handle(st, text, user, now, bootDay, cells) == EntryStep(st, user, f)
  {
  }

  /** The fields of such an entry hold no U+0000. */
  lemma TodayFieldsNulFree(l: string, p: string, amount: int, now: Date)
    requires Nul !in l && Nul !in p
    ensures !HasNul(Fields(FormatDate(now), Lower(l), Lower(p), ShowInt(amount)))
  {
    var d, a := FormatDate(now), ShowInt(amount);
    forall i | 0 <= i < |d| ensures d[i] != Nul {
      assert IsDigit(d[i]) || d[i] == '/';
    }
    forall i | 0 <= i < |a| ensures a[i] != Nul {
      assert IsDigit(a[i]) || a[i] == '-';
    }
    LowerKeepsSeparator(l, Nul);
    LowerKeepsSeparator(p, Nul);
  }

  /** Such an entry, made in the month the process started (outside
      December), raises that user's monthly total by the amount. */
  lemma TodayEntryCounted(st: Store, user: string, l: string, p: string, amount: int,
                          now: Date, bootDay: Date, cells: Cells)
    requires user != PrivilegedUser && user in st.tables
    requires ValidDate(now) && now.year >= 1000
    requires ValidDate(bootDay) && bootDay.month != 12
    requires now.year == bootDay.year && now.month == bootDay.month
    requires IntMin <= amount <= IntMax
    requires Comma !in l && Comma !in p
    requires Nul !in l && Nul !in p
    ensures var text := TodayWord + [Comma] + l + [Comma] + p + [Comma] + ShowInt(amount);
      var s := Handle(st, text, user, now, bootDay, cells);
      s.outcome == Replied(AddedReply)
      && MonthlyTotal(s.store, user, bootDay, false)
         == Ok(AddTo(MonthlyTotal(st, user, bootDay, false).value, amount))
  {
    var r := Record(now, Lower(l), Lower(p), amount);
    var rs := st.tables[user];
    TodayEntryStored(st, user, l, p, amount, now, bootDay, cells);
    var st' := st.(tables := st.tables[user := rs + [r]]);
    var b := MonthRange(bootDay).value;
    InMonthRange(bootDay, now);
    assert Matches(r, b, false);
    SelectedAppend(rs, r, b, false);
    SqlSumAppend(Selected(rs, b, false), amount);
    assert st'.tables[user] == rs + [r];
  }

  /** A user who has just followed has an empty table: the total query is
      answered with the absent sum, rendered `None`, outside December. */
  lemma NewUserTotalIsNone(st: Store, user: string, now: Date, bootDay: Date, cells: Cells)
    requires user != PrivilegedUser && user !in st.tables
    requires ValidDate(bootDay) && bootDay.month != 12
    ensures Handle(FollowSpec(st, user), TotalKeyword, user, now, bootDay, cells)
         == Step(FollowSpec(st, user), Replied(TotalReply("None")))
  {
    KeywordsExact(TotalKeyword, now);
    MonthRangeBounds(bootDay);
  }
}
