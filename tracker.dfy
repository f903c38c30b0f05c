/** The application of expense_tracker.py without its widgets: the table,
    the rows shown in the on-screen table and the total shown under it, and
    the button handlers that change them. */
module Tracker {
  import opened Wrappers
  import opened Ledger
  import Report
  import Amounts

  /** Why an add is refused: a required entry is empty, or the amount is
      not a number. */
  datatype AddError = MissingField | NotNumeric

  /** The checks `add_expense` makes before it touches the table, in their
      order. `parse` is the conversion of the amount text to a number
      (Python's `float`). The description may be empty. */
  function Validate(date: string, category: string, amount: string, parse: string -> Option<real>)
    : (r: Result<real, AddError>)
    ensures r == Failure(MissingField) <==> date == "" || category == "" || amount == ""
    ensures r == Failure(NotNumeric) <==> date != "" && category != "" && amount != "" && parse(amount).None?
    ensures r.Success? ==> parse(amount) == Some(r.value)
  {
    if date == "" || category == "" || amount == "" then Failure(MissingField)
    else match parse(amount)
      case None => Failure(NotNumeric)
      case Some(v) => Success(v)
  }

  /** The visible tuples of the on-screen rows at the positions in
      `selection`, in selection order. */
  function Picked(shown: seq<DisplayRow>, selection: seq<nat>): seq<Fields>
    requires forall i :: 0 <= i < |selection| ==> selection[i] < |shown|
  {
    seq(|selection|, i requires 0 <= i < |selection| => shown[selection[i]].fields)
  }

  /** Deleting a selection of the on-screen table, measured on the stored
      rows: a stored row survives exactly when its visible tuple differs from
      that of every selected row, so each selected row goes, and with it
      every row that looks the same. */
  lemma SelectionDeleted(rs: seq<Record>, selection: seq<nat>, r: Record)
    requires forall i :: 0 <= i < |selection| ==> selection[i] < |rs|
    ensures r in RemoveMatching(rs, Picked(Renumber(rs, 1), selection))
        <==> r in rs && forall k :: 0 <= k < |selection| ==> r.fields != rs[selection[k]].fields
  {
    var fs := Picked(Renumber(rs, 1), selection);
    assert forall k :: 0 <= k < |selection| ==> fs[k] == rs[selection[k]].fields;
    if r.fields in fs {
      var k :| 0 <= k < |fs| && fs[k] == r.fields;
      assert r.fields == rs[selection[k]].fields;
    }
  }

  lemma PrefixStep<T>(s: seq<T>, i: nat)
    requires i < |s|
    ensures s[..i + 1] == s[..i] + [s[i]]
  {
  }

  class Tracker {
    /** The `expenses` table. */
    const db: Store
    /** The rows of the on-screen table, in order. */
    var shown: seq<DisplayRow>
    /** The amount in the total label. */
    var totalShown: real

    /** The table as add and delete leave it: every row has a date and a
        category. */
    ghost predicate Stored()
      reads this, db
    {
      db.Valid() &&
      forall r :: r in db.records ==> r.fields.date != "" && r.fields.category != ""
    }

    /** Between handlers the screen shows the table, renumbered from 1, and
        its total. */
    ghost predicate Valid()
      reads this, db
    {
      Stored() && shown == Renumber(db.records, 1) && totalShown == Sum(db.records)
    }

    /** Start-up: open the table kept from an earlier session and load it. */
    constructor (saved: seq<Record>, lastId: nat)
      requires IdsIncreasing(saved)
      requires forall r :: r in saved ==> 0 < r.id <= lastId
      requires forall r :: r in saved ==> r.fields.date != "" && r.fields.category != ""
      ensures Valid() && fresh(db)
      ensures db.records == saved && db.nextId == lastId + 1
    {
      db := new Store(saved, lastId);
      shown := [];
      totalShown := 0.0;
      new;
      LoadExpenses();
    }

    /** The table's sum query with SQL NULL read as 0.0: the sum of the
        amounts in the table, 0.0 when it is empty. */
    method QueryTotal() returns (total: real)
      ensures total == Sum(db.records)
    {
      var s := db.SelectSum();
      total := if s.Some? && s.value != 0.0 then s.value else 0.0;
    }

    /** `update_total`: refresh the total label. */
    method UpdateTotal()
      modifies this`totalShown
      ensures totalShown == Sum(db.records)
    {
      totalShown := QueryTotal();
    }

    /** `show_total_message`: the total the message box reports. */
    method ShowTotalMessage() returns (total: real)
      ensures total == Sum(db.records)
    {
      total := QueryTotal();
    }

    /** `load_expenses`: refill the on-screen table from the stored rows,
        numbering them 1..N in stored order, and refresh the total. */
    method LoadExpenses()
      requires Stored()
      modifies this
      ensures Valid()
    {
      shown := [];
      var rows := db.SelectAll();
      var i := 0;
      while i < |rows|
        invariant 0 <= i <= |rows|
        invariant |shown| == i
        invariant forall k :: 0 <= k < i ==> shown[k] == DisplayRow(k + 1, rows[k].fields)
      {
        shown := shown + [DisplayRow(i + 1, rows[i].fields)];
        i := i + 1;
      }
      UpdateTotal();
    }

    /** `add_expense`: refuse a missing entry, then an amount that is not a
        number, leaving everything as it was; otherwise append one row with
        a key above every key ever used, and show the new table and total. */
    method AddExpense(date: string, category: string, amount: string, description: string,
                      parse: string -> Option<real>)
      returns (r: Result<nat, AddError>)
      requires Valid()
      modifies this, db
      ensures Valid()
      ensures r.Failure? <==> Validate(date, category, amount, parse).Failure?
      ensures r.Failure? ==> r.error == Validate(date, category, amount, parse).error
      ensures r.Failure? ==> unchanged(this) && unchanged(db)
      ensures r.Success? ==>
        var value := Validate(date, category, amount, parse).value;
        r.value == old(db.nextId) &&
        (forall used :: used in old(db.issued) ==> used < r.value) &&
        db.records == old(db.records) + [Record(r.value, Fields(date, category, value, description))] &&
        totalShown == old(totalShown) + value
    {
      var checked := Validate(date, category, amount, parse);
      if checked.Failure? {
        return Failure(checked.error);
      }
      var f := Fields(date, category, checked.value, description);
      SumAppend(db.records, Record(db.nextId, f));
      var id := db.Insert(f);
      LoadExpenses();
      UpdateTotal();
      r := Success(id);
    }

    /** `delete_selected`: with nothing selected, report it and change
        nothing; otherwise delete, one statement per selected row, every row
        whose visible tuple equals that row's, and reload. `selection` holds
        positions in the on-screen table. */
    method DeleteSelected(selection: seq<nat>) returns (deleted: bool)
      requires Valid()
      requires forall i :: 0 <= i < |selection| ==> selection[i] < |shown|
      modifies this, db
      ensures Valid()
      ensures deleted == (selection != [])
      ensures db.records == RemoveMatching(old(db.records), Picked(old(shown), selection))
      ensures db.nextId == old(db.nextId) && db.issued == old(db.issued)
      ensures !deleted ==> unchanged(this) && unchanged(db)
    {
      if selection == [] {
        RemoveNothing(db.records);
        return false;
      }
      ghost var before := db.records;
      ghost var fs := Picked(shown, selection);
      RemoveNothing(before);
      var i := 0;
      while i < |selection|
        invariant 0 <= i <= |selection|
        invariant unchanged(this)
        invariant db.Valid()
        invariant db.records == RemoveMatching(before, fs[..i])
        invariant forall r :: r in db.records ==> r in before
        invariant db.nextId == old(db.nextId) && db.issued == old(db.issued)
      {
        var f := shown[selection[i]].fields;
        assert fs[i] == f;
        PrefixStep(fs, i);
        RemoveInSteps(before, fs[..i], [f]);
        db.DeleteWhere(f);
        i := i + 1;
      }
      assert fs[..i] == fs;
      LoadExpenses();
      deleted := true;
    }

    /** `download_pdf`: no document when the on-screen table is empty,
        otherwise the report of its rows with the table's total. */
    method DownloadPdf() returns (r: Result<Report.Document, Report.ExportError>)
      requires Valid()
      ensures db.records == [] ==> r == Failure(Report.NoData)
      ensures db.records != [] ==> r.Success? && Report.IsReport(r.value, shown, Sum(db.records))
    {
      var total := QueryTotal();
      r := Report.Export(shown, total);
    }
  }

  /** A session on a fresh database: three adds and the total they
      give, derived from the contracts above. */
  method SessionTotal() {
    var parse := Amounts.ParseDecimal;
    Amounts.ReadsTenFifty();
    Amounts.ReadsTwentyTwentyFive();
    Amounts.ReadsFive();
    var app := new Tracker([], 0);
    var a := app.AddExpense("01-01-2025", "Food", "10.50", "", parse);
    var b := app.AddExpense("02-01-2025", "Travel", "20.25", "bus", parse);
    var c := app.AddExpense("03-01-2025", "Food", "5.00", "tea", parse);
    assert a.Success? && b.Success? && c.Success?;
    assert app.totalShown == 35.75;
  }

  /** Refused adds leave the table as it was. */
  method SessionRefused() {
    var parse := Amounts.ParseDecimal;
    Amounts.LettersAreNotAmounts("abc", 0);
    var app := new Tracker([], 0);
    var e := app.AddExpense("04-01-2025", "Food", "abc", "", parse);
    assert e == Failure(NotNumeric);
    e := app.AddExpense("", "Food", "abc", "", parse);
    assert e == Failure(MissingField);
    assert app.db.records == [] && app.totalShown == 0.0;
  }
}
