/** The `expenses` table of expense_tracker.py: its rows, what the SQL
    statements the program issues do to them, and the table as an object. */
module Ledger {
  import opened Wrappers

  /** The four visible columns of a row: date, category, amount, description. */
  datatype Fields = Fields(date: string, category: string, amount: real, description: string)

  /** A stored row: the auto-assigned primary key and the visible columns. */
  datatype Record = Record(id: nat, fields: Fields)

  /** A row of the on-screen table: a 1-based serial number instead of the key. */
  datatype DisplayRow = DisplayRow(serial: nat, fields: Fields)

  /** Rows are kept in key order, and keys are distinct. */
  ghost predicate IdsIncreasing(rs: seq<Record>) {
    forall i, j :: 0 <= i < j < |rs| ==> rs[i].id < rs[j].id
  }

  /** `SUM(amount)` over a non-empty table. */
  function Sum(rs: seq<Record>): real {
    if rs == [] then 0.0 else rs[0].fields.amount + Sum(rs[1..])
  }

  /** The rows left by a run of delete statements, each matching all four
      visible columns against one tuple of `fs`:
      a row survives exactly when its visible tuple is none of them. */
  function RemoveMatching(rs: seq<Record>, fs: seq<Fields>): (kept: seq<Record>)
    ensures forall r :: r in kept <==> r in rs && r.fields !in fs
    ensures |kept| <= |rs|
  {
    if rs == [] then []
    else
      assert rs == [rs[0]] + rs[1..];
      if rs[0].fields in fs then RemoveMatching(rs[1..], fs)
      else [rs[0]] + RemoveMatching(rs[1..], fs)
  }

  /** The rows those statements delete: those whose visible tuple is one
      of `fs`, in stored order. */
  function Matching(rs: seq<Record>, fs: seq<Fields>): (gone: seq<Record>)
    ensures forall r :: r in gone <==> r in rs && r.fields in fs
  {
    if rs == [] then []
    else
      assert rs == [rs[0]] + rs[1..];
      if rs[0].fields in fs then [rs[0]] + Matching(rs[1..], fs)
      else Matching(rs[1..], fs)
  }

  /** `enumerate(rows, start=first)` with the key replaced by the counter. */
  function Renumber(rs: seq<Record>, first: nat): (shown: seq<DisplayRow>)
    ensures |shown| == |rs|
    ensures forall i :: 0 <= i < |rs| ==> shown[i] == DisplayRow(first + i, rs[i].fields)
  {
    if rs == [] then [] else [DisplayRow(first, rs[0].fields)] + Renumber(rs[1..], first + 1)
  }

  /** Appending a row adds its amount to the sum. */
  lemma {:induction false} SumAppend(rs: seq<Record>, r: Record)
    ensures Sum(rs + [r]) == Sum(rs) + r.fields.amount
  {
    if rs == [] {
      assert rs + [r] == [r];
      assert [r][1..] == [];
    } else {
      assert (rs + [r])[1..] == rs[1..] + [r];
      SumAppend(rs[1..], r);
    }
  }

  /** Deleting lowers the sum by the amounts of the deleted rows,
      duplicates included. */
  lemma {:induction false} SumSplitsOnDelete(rs: seq<Record>, fs: seq<Fields>)
    ensures Sum(rs) == Sum(RemoveMatching(rs, fs)) + Sum(Matching(rs, fs))
  {
    if rs != [] {
      SumSplitsOnDelete(rs[1..], fs);
      var kept, gone := RemoveMatching(rs[1..], fs), Matching(rs[1..], fs);
      if rs[0].fields in fs {
        assert ([rs[0]] + gone)[1..] == gone;
      } else {
        assert ([rs[0]] + kept)[1..] == kept;
      }
    }
  }

  /** An empty selection deletes nothing. */
  lemma {:induction false} RemoveNothing(rs: seq<Record>)
    ensures RemoveMatching(rs, []) == rs
  {
    if rs != [] {
      RemoveNothing(rs[1..]);
      assert rs == [rs[0]] + rs[1..];
    }
  }

  /** Deleting `fs` and then `gs` is deleting `fs + gs`: the statements of a
      selection may be issued one at a time. */
  lemma {:induction false} RemoveInSteps(rs: seq<Record>, fs: seq<Fields>, gs: seq<Fields>)
    ensures RemoveMatching(RemoveMatching(rs, fs), gs) == RemoveMatching(rs, fs + gs)
  {
    if rs != [] {
      RemoveInSteps(rs[1..], fs, gs);
      if rs[0].fields !in fs {
        var tail := RemoveMatching(rs[1..], fs);
        assert ([rs[0]] + tail)[1..] == tail;
      }
    }
  }

  /** Deletion keeps the surviving rows in their relative order: it acts on
      each part of the table separately. */
  lemma {:induction false} RemoveSplits(a: seq<Record>, b: seq<Record>, fs: seq<Fields>)
    ensures RemoveMatching(a + b, fs) == RemoveMatching(a, fs) + RemoveMatching(b, fs)
  {
    if a == [] {
      assert a + b == b;
    } else {
      assert (a + b)[1..] == a[1..] + b;
      RemoveSplits(a[1..], b, fs);
    }
  }

  /** Deletion keeps the rows in key order. */
  lemma {:induction false} RemoveKeepsOrder(rs: seq<Record>, fs: seq<Fields>)
    requires IdsIncreasing(rs)
    ensures IdsIncreasing(RemoveMatching(rs, fs))
  {
    if rs != [] {
      assert IdsIncreasing(rs[1..]);
      RemoveKeepsOrder(rs[1..], fs);
      var tail := RemoveMatching(rs[1..], fs);
      if rs[0].fields !in fs {
        forall j | 0 < j < |[rs[0]] + tail|
          ensures rs[0].id < ([rs[0]] + tail)[j].id
        {
          assert ([rs[0]] + tail)[j] == tail[j - 1];
          assert tail[j - 1] in rs[1..];
        }
      }
    }
  }

  /** Listing right after an insert shows the inserted values in the last row,
      numbered one past the rows before it. */
  lemma InsertThenList(rs: seq<Record>, r: Record)
    ensures Renumber(rs + [r], 1) == Renumber(rs, 1) + [DisplayRow(|rs| + 1, r.fields)]
  {
    var longer, shorter := Renumber(rs + [r], 1), Renumber(rs, 1) + [DisplayRow(|rs| + 1, r.fields)];
    forall i | 0 <= i < |rs| + 1
      ensures longer[i] == shorter[i]
    {
      if i < |rs| {
        assert (rs + [r])[i] == rs[i];
      }
    }
  }

  /** The table. Rows are only appended, with a key one past the largest key
      ever handed out (`INTEGER PRIMARY KEY AUTOINCREMENT`), so keys are never
      reused, even after deletes. */
  class Store {
    var records: seq<Record>
    /** The next key; one past the largest key ever used. */
    var nextId: nat
    /** Every key known to have been handed out, including those of rows
        deleted since; every one lies below `nextId`. */
    ghost var issued: set<nat>

    ghost predicate Valid()
      reads this
    {
      0 < nextId &&
      (forall id :: id in issued ==> 0 < id < nextId) &&
      (forall r :: r in records ==> r.id in issued) &&
      IdsIncreasing(records)
    }

    /** Opening the database: `CREATE TABLE IF NOT EXISTS` keeps the rows of
        an earlier session, whose largest key ever used was `lastId`. */
    constructor (saved: seq<Record>, lastId: nat)
      requires IdsIncreasing(saved)
      requires forall r :: r in saved ==> 0 < r.id <= lastId
      ensures Valid()
      ensures records == saved && nextId == lastId + 1
    {
      records := saved;
      nextId := lastId + 1;
      issued := set r | r in saved :: r.id;
    }

    /** Insert one row under the next key. */
    method Insert(f: Fields) returns (id: nat)
      requires Valid()
      modifies this
      ensures Valid()
      ensures id == old(nextId) && nextId == id + 1
      ensures forall used :: used in old(issued) ==> used < id
      ensures records == old(records) + [Record(id, f)]
      ensures issued == old(issued) + {id}
    {
      id := nextId;
      records := records + [Record(id, f)];
      nextId := nextId + 1;
      issued := issued + {id};
    }

    /** Read every row, key included, in stored order. */
    method SelectAll() returns (rows: seq<Record>)
      ensures rows == records
    {
      rows := records;
    }

    /** Delete every row whose four visible columns equal `f`. */
    method DeleteWhere(f: Fields)
      requires Valid()
      modifies this
      ensures Valid()
      ensures records == RemoveMatching(old(records), [f])
      ensures nextId == old(nextId) && issued == old(issued)
    {
      RemoveKeepsOrder(records, [f]);
      records := RemoveMatching(records, [f]);
    }

    /** Sum the amount column; SQL NULL on an empty table. */
    method SelectSum() returns (s: Option<real>)
      ensures s.None? <==> records == []
      ensures s.Some? ==> s.value == Sum(records)
    {
      s := if records == [] then None else Some(Sum(records));
    }
  }
}
