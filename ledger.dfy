/** The two backends behind the bot: one database table of expense records
    per user, created when the user follows the bot, and one shared
    spreadsheet of rows used for a single designated user. The database
    reads the four text fields of an entry into typed columns (date DATE,
    location and purpose VARCHAR, amount INT) and answers the monthly
    totals with `SUM(amount) ... WHERE date BETWEEN first AND last`. */
module Ledger {

  import opened Wrappers
  import opened Numbers
  import opened Text
  import opened Calendar
  import opened Command

  /** The purpose whose expenses make up the cigarette total. */
  const CigarettePurpose: string := "タバコ"

  /** Range of the INT column type. */
  const IntMin: int := -0x8000_0000
  const IntMax: int := 0x7fff_ffff

  /** One row of a user's table, after the database has typed the fields. */
  datatype Record = Record(date: Date, location: string, purpose: string, amount: int)

  /** The character a database string literal cannot hold. */
  const Nul: char := '\0'

  /** What makes a backend call raise: a field holds U+0000, which the
      database driver refuses with a `ValueError` while it builds the
      statement, before anything is sent; the user's table does not exist;
      a field is not a literal of its column's type; or `replace` was given
      month 13. */
  datatype Failure = NulInText | MissingTable | BadValue | MonthOverflow

  /** All state the bot changes: the users' tables and the spreadsheet's
      rows. */
  datatype Store = Store(tables: map<string, seq<Record>>, sheet: seq<Fields>)

  /** Every stored record went through the database's typing. */
  ghost predicate ValidStore(st: Store)
  {
    forall u, i :: u in st.tables && 0 <= i < |st.tables[u]| ==>
      ValidDate(st.tables[u][i].date) && IntMin <= st.tables[u][i].amount <= IntMax
  }

  /** How the database reads text into an INT: white space around it is
      skipped, an optional sign, decimal digits, and a value in range. */
  function AmountOf(s: string): (r: Option<int>)
    ensures r.Some? ==> IntMin <= r.value <= IntMax
  {
    var v := ParseInt(Trim(s));
    if v.Some? && IntMin <= v.value <= IntMax then v else None
  }

  /** An amount written by Python's `str` is read back as that amount. */
  lemma AmountRoundTrip(n: int)
    requires IntMin <= n <= IntMax
    ensures AmountOf(ShowInt(n)) == Some(n)
  {
    var s := ShowInt(n);
    assert !IsSpace(s[0]) by {
      if n >= 0 { assert IsDigit(s[0]); }
    }
    TrimUnspaced(s);
    ParseShowInt(n);
  }

  /** The record the database stores for the four fields, or nothing when
      the date or the amount is not a literal of its column's type. The
      location and the purpose are stored as they are. */
  function ToRecord(f: Fields): (r: Option<Record>)
    ensures r.Some? <==> DateOf(f.date).Some? && AmountOf(f.amount).Some?
    ensures r.Some? ==> r.value.location == f.location && r.value.purpose == f.purpose
    ensures r.Some? ==> Some(r.value.date) == DateOf(f.date) && Some(r.value.amount) == AmountOf(f.amount)
  {
    match (DateOf(f.date), AmountOf(f.amount))
    case (Some(d), Some(a)) => Some(Record(d, f.location, f.purpose, a))
    case _ => None
  }

  /** `CREATE TABLE IF NOT EXISTS`: afterwards the user has a table, no
      other table appears and the sheet is untouched. */
  function FollowSpec(st: Store, user: string): (r: Store)
    ensures r.tables.Keys == st.tables.Keys + {user}
    ensures r.sheet == st.sheet
  {
    if user in st.tables then st else st.(tables := st.tables[user := []])
  }

  /** Some field of the entry holds U+0000. */
  predicate HasNul(f: Fields)
  {
    Nul in f.date || Nul in f.location || Nul in f.purpose || Nul in f.amount
  }

  /** `INSERT INTO user ... VALUES (...)`: the driver quotes the four texts
      before sending the statement, then the database resolves the
      relation, then it types the values. A success adds to the sender's
      table only. */
  function InsertSpec(st: Store, user: string, f: Fields): (r: Result<Store, Failure>)
    ensures r.Ok? ==> user in st.tables && r.value.tables.Keys == st.tables.Keys
    ensures r.Ok? ==> r.value.sheet == st.sheet
    ensures r.Ok? ==> forall v :: v in st.tables && v != user ==> r.value.tables[v] == st.tables[v]
  {
    if HasNul(f) then Err(NulInText)
    else if user !in st.tables then Err(MissingTable)
    else match ToRecord(f)
      case None => Err(BadValue)
      case Some(r) => Ok(st.(tables := st.tables[user := st.tables[user] + [r]]))
  }

  /** A row appended below the last row of the worksheet: the old rows are
      kept in place, the new one holds the four fields, and no table
      changes. */
  function AppendSpec(st: Store, f: Fields): (r: Store)
    ensures r.tables == st.tables
    ensures |r.sheet| == |st.sheet| + 1 && r.sheet[..|st.sheet|] == st.sheet && r.sheet[|st.sheet|] == f
  {
    st.(sheet := st.sheet + [f])
  }

  predicate Matches(r: Record, b: Bounds, cigOnly: bool)
  {
    LessEq(b.first, r.date) && LessEq(r.date, b.last)
    && (cigOnly ==> r.purpose == CigarettePurpose)
  }

  /** The amounts the query selects, in table order. */
  function Selected(rs: seq<Record>, b: Bounds, cigOnly: bool): seq<int>
  {
    if |rs| == 0 then []
    else (if Matches(rs[0], b, cigOnly) then [rs[0].amount] else []) + Selected(rs[1..], b, cigOnly)
  }

  function Sum(xs: seq<int>): int
  {
    if |xs| == 0 then 0 else xs[0] + Sum(xs[1..])
  }

  /** SQL `SUM`: NULL over no rows. */
  function SqlSum(xs: seq<int>): (r: Option<int>)
    ensures r.None? <==> xs == []
  {
    if |xs| == 0 then None else Some(Sum(xs))
  }

  /** `get_monthly_total` (`cigOnly` false) and `get_monthly_cigarette_total`
      (`cigOnly` true) on the date `today`: the range is computed before the
      table is touched. */
  function MonthlyTotal(st: Store, user: string, today: Date, cigOnly: bool): (r: Result<Option<int>, Failure>)
    ensures r == Err(MonthOverflow) <==> MonthRange(today).None?
    ensures r == Err(MissingTable) <==> MonthRange(today).Some? && user !in st.tables
    ensures r.Err? ==> r.error == MonthOverflow || r.error == MissingTable
  {
    match MonthRange(today)
    case None => Err(MonthOverflow)
    case Some(b) =>
      if user !in st.tables then Err(MissingTable)
      else Ok(SqlSum(Selected(st.tables[user], b, cigOnly)))
  }

  /** Reference definition of the monthly totals without date ranges: the
      amounts of the records dated in month `m` of year `y`. */
  predicate InMonth(r: Record, y: nat, m: nat, cigOnly: bool)
  {
    r.date.year == y && r.date.month == m && (cigOnly ==> r.purpose == CigarettePurpose)
  }

  function AmountsIn(rs: seq<Record>, y: nat, m: nat, cigOnly: bool): seq<int>
  {
    if |rs| == 0 then []
    else (if InMonth(rs[0], y, m, cigOnly) then [rs[0].amount] else []) + AmountsIn(rs[1..], y, m, cigOnly)
  }

  /** For valid dates, the range query selects exactly the records of the
      calendar month of `today`. */
  lemma {:induction false} SelectedIsCalendarMonth(rs: seq<Record>, today: Date, cigOnly: bool)
    requires ValidDate(today) && today.month != 12
    requires forall i :: 0 <= i < |rs| ==> ValidDate(rs[i].date)
    ensures MonthRange(today).Some?
    ensures Selected(rs, MonthRange(today).value, cigOnly) == AmountsIn(rs, today.year, today.month, cigOnly)
  {
    MonthRangeBounds(today);
    if |rs| > 0 {
      InMonthRange(today, rs[0].date);
      SelectedIsCalendarMonth(rs[1..], today, cigOnly);
    }
  }

  /** No amount is selected exactly when no record is of that month. */
  lemma {:induction false} AmountsInEmpty(rs: seq<Record>, y: nat, m: nat, cigOnly: bool)
    ensures AmountsIn(rs, y, m, cigOnly) == [] <==> forall i :: 0 <= i < |rs| ==> !InMonth(rs[i], y, m, cigOnly)
  {
    if |rs| > 0 {
      AmountsInEmpty(rs[1..], y, m, cigOnly);
      assert forall i :: 1 <= i < |rs| ==> rs[i] == rs[1..][i - 1];
    }
  }

  /** A record appended to the table adds its amount to the selection when
      it matches, and changes nothing otherwise. */
  lemma {:induction false} SelectedAppend(rs: seq<Record>, r: Record, b: Bounds, cigOnly: bool)
    ensures Selected(rs + [r], b, cigOnly)
         == Selected(rs, b, cigOnly) + (if Matches(r, b, cigOnly) then [r.amount] else [])
  {
    if |rs| == 0 {
      assert rs + [r] == [r];
      assert [r][1..] == [];
    } else {
      assert (rs + [r])[1..] == rs[1..] + [r];
      SelectedAppend(rs[1..], r, b, cigOnly);
    }
  }

  lemma {:induction false} SumAppend(xs: seq<int>, x: int)
    ensures Sum(xs + [x]) == Sum(xs) + x
  {
    if |xs| == 0 {
      assert xs + [x] == [x];
    } else {
      assert (xs + [x])[1..] == xs[1..] + [x];
      SumAppend(xs[1..], x);
    }
  }

  /** Adding an amount to a SQL sum: NULL plus `x` is `x`. */
  function AddTo(total: Option<int>, x: int): Option<int>
  {
    match total
    case None => Some(x)
    case Some(t) => Some(t + x)
  }

  lemma SqlSumAppend(xs: seq<int>, x: int)
    ensures SqlSum(xs + [x]) == AddTo(SqlSum(xs), x)
  {
    SumAppend(xs, x);
    if |xs| == 0 {
      assert xs + [x] == [x];
    }
  }

  /** For a user with a table, outside December: the total is absent
      exactly when no record of the user is of the month of `today`
      (with purpose `タバコ` for the cigarette total), and otherwise it is
      the sum of exactly those records' amounts. */
  lemma TotalIsMonthSum(st: Store, user: string, today: Date, cigOnly: bool)
    requires ValidStore(st) && user in st.tables
    requires ValidDate(today) && today.month != 12
    ensures var rs := st.tables[user];
      MonthlyTotal(st, user, today, cigOnly) == Ok(SqlSum(AmountsIn(rs, today.year, today.month, cigOnly)))
      && (MonthlyTotal(st, user, today, cigOnly) == Ok(None) <==>
          forall i :: 0 <= i < |rs| ==> !InMonth(rs[i], today.year, today.month, cigOnly))
  {
    var rs := st.tables[user];
    SelectedIsCalendarMonth(rs, today, cigOnly);
    AmountsInEmpty(rs, today.year, today.month, cigOnly);
  }

  /** In December the range cannot be computed and both totals fail, for
      every user. */
  lemma DecemberFails(st: Store, user: string, today: Date, cigOnly: bool)
    requires ValidDate(today) && today.month == 12
    ensures MonthlyTotal(st, user, today, cigOnly) == Err(MonthOverflow)
  {
    MonthRangeBounds(today);
  }

  /** The totals of a user without a table fail (outside December). */
  lemma NoTableFails(st: Store, user: string, today: Date, cigOnly: bool)
    requires user !in st.tables && ValidDate(today) && today.month != 12
    ensures MonthlyTotal(st, user, today, cigOnly) == Err(MissingTable)
  {
    MonthRangeBounds(today);
  }

  /** Following is idempotent, keeps an existing table with its records,
      gives a new user an empty table, and touches nothing else. */
  lemma FollowProperties(st: Store, user: string)
    ensures FollowSpec(FollowSpec(st, user), user) == FollowSpec(st, user)
    ensures var st' := FollowSpec(st, user);
      st'.tables.Keys == st.tables.Keys + {user}
      && st'.tables[user] == (if user in st.tables then st.tables[user] else [])
      && (forall v :: v in st.tables ==> st'.tables[v] == st.tables[v])
      && st'.sheet == st.sheet
  {
  }

  /** An insertion fails, in this order, on a U+0000 in any field, on a
      missing table, or on a field its column refuses; otherwise it
      appends exactly the typed record to the sender's table and to no
      other table. */
  lemma InsertProperties(st: Store, user: string, f: Fields)
    ensures InsertSpec(st, user, f) == Err(NulInText) <==> HasNul(f)
    ensures InsertSpec(st, user, f) == Err(MissingTable) <==> !HasNul(f) && user !in st.tables
    ensures InsertSpec(st, user, f) == Err(BadValue) <==>
      !HasNul(f) && user in st.tables && ToRecord(f).None?
    ensures InsertSpec(st, user, f).Ok? <==> !HasNul(f) && user in st.tables && ToRecord(f).Some?
    ensures InsertSpec(st, user, f).Ok? ==>
      var st' := InsertSpec(st, user, f).value;
      st'.tables.Keys == st.tables.Keys
      && st'.tables[user] == st.tables[user] + [ToRecord(f).value]
      && (forall v :: v in st.tables && v != user ==> st'.tables[v] == st.tables[v])
      && st'.sheet == st.sheet
  {
  }

  /** Following keeps every stored record typed. */
  lemma FollowKeepsValid(st: Store, user: string)
    requires ValidStore(st)
    ensures ValidStore(FollowSpec(st, user))
  {
  }

  /** Appending to the sheet keeps every stored record typed. */
  lemma AppendKeepsValid(st: Store, f: Fields)
    requires ValidStore(st)
    ensures ValidStore(AppendSpec(st, f))
  {
  }

  /** A successful insertion stores only a record the columns typed. */
  lemma InsertKeepsValid(st: Store, user: string, f: Fields)
    requires ValidStore(st)
    ensures InsertSpec(st, user, f).Ok? ==> ValidStore(InsertSpec(st, user, f).value)
  {
    if InsertSpec(st, user, f).Ok? {
      var st' := InsertSpec(st, user, f).value;
      var r := ToRecord(f).value;
      forall u, i | u in st'.tables && 0 <= i < |st'.tables[u]|
        ensures ValidDate(st'.tables[u][i].date) && IntMin <= st'.tables[u][i].amount <= IntMax
      {
        if u == user && i == |st.tables[user]| {
          assert st'.tables[u][i] == r;
        } else {
          assert st'.tables[u][i] == st.tables[u][i];
        }
      }
    }
  }

  /** After a successful insertion, every monthly total of the sender whose
      month contains the new record grows by its amount (an absent total
      becomes that amount); the others are unchanged. */
  lemma TotalAfterInsert(st: Store, user: string, f: Fields, today: Date, cigOnly: bool)
    requires InsertSpec(st, user, f).Ok?
    requires MonthRange(today).Some?
    ensures var r := ToRecord(f).value;
      var st' := InsertSpec(st, user, f).value;
      MonthlyTotal(st, user, today, cigOnly).Ok?
      && MonthlyTotal(st', user, today, cigOnly) == Ok(
           if Matches(r, MonthRange(today).value, cigOnly)
           then AddTo(MonthlyTotal(st, user, today, cigOnly).value, r.amount)
           else MonthlyTotal(st, user, today, cigOnly).value)
  {
    var r := ToRecord(f).value;
    var b := MonthRange(today).value;
    var rs := st.tables[user];
    SelectedAppend(rs, r, b, cigOnly);
    if Matches(r, b, cigOnly) {
      SqlSumAppend(Selected(rs, b, cigOnly), r.amount);
    } else {
      assert Selected(rs, b, cigOnly) + [] == Selected(rs, b, cigOnly);
    }
  }

  /** The database side of the bot: the users' tables and the spreadsheet,
      updated in place by follow events and entries. */
  class Backend {
    var tables: map<string, seq<Record>>
    var sheet: seq<Fields>

    function Snapshot(): Store
      reads this
    {
      Store(tables, sheet)
    }

    /** Every record in the tables went through the column typing. */
    ghost predicate Valid()
      reads this
    {
      ValidStore(Snapshot())
    }

    /** Handles on a database and a worksheet that already hold what
        earlier runs of the bot stored, all of it typed by the columns. */
    constructor (st: Store)
      requires ValidStore(st)
      ensures Snapshot() == st && Valid()
    {
      tables := st.tables;
      sheet := st.sheet;
    }

    /** `handle_follow`: create the user's table if it does not exist. */
    method Follow(user: string)
      requires Valid()
      modifies this
      ensures Snapshot() == FollowSpec(old(Snapshot()), user) && Valid()
    {
      FollowKeepsValid(Snapshot(), user);
      if user !in tables {
        tables := tables[user := []];
      }
    }

    /** `insert_data`: append one typed record to the user's table, or
        report why the driver or the database refused it and change
        nothing. */
    method Insert(user: string, f: Fields) returns (failure: Option<Failure>)
      requires Valid()
      modifies this
      ensures match InsertSpec(old(Snapshot()), user, f)
        case Ok(st) => failure == None && Snapshot() == st
        case Err(e) => failure == Some(e) && Snapshot() == old(Snapshot())
      ensures Valid()
    {
      InsertKeepsValid(Snapshot(), user, f);
      if HasNul(f) {
        return Some(NulInText);
      }
      if user !in tables {
        return Some(MissingTable);
      }
      var r := ToRecord(f);
      if r.None? {
        return Some(BadValue);
      }
      tables := tables[user := tables[user] + [r.value]];
      failure := None;
    }

    /** `append_data_to_spreadsheet`: one row below the last one. */
    method AppendToSheet(f: Fields)
      requires Valid()
      modifies this
      ensures Snapshot() == AppendSpec(old(Snapshot()), f) && Valid()
    {
      AppendKeepsValid(Snapshot(), f);
      sheet := sheet + [f];
    }
  }
}
