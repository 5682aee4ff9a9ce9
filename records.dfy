/**
 * The monthly-record table and the save of a month's figures: every row
 * with the same year-month key is removed and one new row is appended, with
 * the open-day count computed from the closure rules.
 */
module Records {
  import opened Dates
  import opened Seqs
  import opened Utilization
  import opened Closure

  function KeyIsNot(key: YearMonth): MonthlyRecord -> bool {
    (r: MonthlyRecord) => r.key != key
  }

  /** Number of rows keyed `key`. */
  function KeyCount(rs: seq<MonthlyRecord>, key: YearMonth): nat {
    if |rs| == 0 then 0
    else KeyCount(rs[..|rs| - 1], key) + (if rs[|rs| - 1].key == key then 1 else 0)
  }

  /** No year-month appears on two rows. */
  ghost predicate UniqueKeys(rs: seq<MonthlyRecord>) {
    forall key :: KeyCount(rs, key) <= 1
  }

  /** The table after saving `rec`: the rows with other keys, in order, then `rec`. */
  function Upserted(rs: seq<MonthlyRecord>, rec: MonthlyRecord): seq<MonthlyRecord> {
    Filter(rs, KeyIsNot(rec.key)) + [rec]
  }

  lemma KeyCountAppend(rs: seq<MonthlyRecord>, rec: MonthlyRecord, key: YearMonth)
    ensures KeyCount(rs + [rec], key) == KeyCount(rs, key) + (if rec.key == key then 1 else 0)
  {
    assert (rs + [rec])[..|rs|] == rs;
  }

  /** Dropping the rows keyed `dropped` leaves none of them and every other key's count intact. */
  lemma {:induction false} KeyCountWithout(rs: seq<MonthlyRecord>, dropped: YearMonth, key: YearMonth)
    ensures KeyCount(Filter(rs, KeyIsNot(dropped)), key) == if key == dropped then 0 else KeyCount(rs, key)
  {
    if |rs| > 0 {
      var init, last := rs[..|rs| - 1], rs[|rs| - 1];
      assert rs == init + [last];
      KeyCountWithout(init, dropped, key);
      FilterSnoc(init, last, KeyIsNot(dropped));
      KeyCountAppend(init, last, key);
      if last.key != dropped {
        KeyCountAppend(Filter(init, KeyIsNot(dropped)), last, key);
      } else {
        assert Filter(rs, KeyIsNot(dropped)) == Filter(init, KeyIsNot(dropped));
      }
    }
  }

  /** After a save the saved key occurs exactly once and every other key as often as before. */
  lemma UpsertKeyCount(rs: seq<MonthlyRecord>, rec: MonthlyRecord, key: YearMonth)
    ensures KeyCount(Upserted(rs, rec), key) == if key == rec.key then 1 else KeyCount(rs, key)
  {
    KeyCountWithout(rs, rec.key, key);
    KeyCountAppend(Filter(rs, KeyIsNot(rec.key)), rec, key);
  }

  /** Saving keeps the table free of duplicate keys. */
  lemma UpsertKeepsKeysUnique(rs: seq<MonthlyRecord>, rec: MonthlyRecord)
    requires UniqueKeys(rs)
    ensures UniqueKeys(Upserted(rs, rec))
  {
    forall key ensures KeyCount(Upserted(rs, rec), key) <= 1 {
      UpsertKeyCount(rs, rec, key);
    }
  }

  /**
   * After a save the new row is the only one with its key and sits last,
   * and the rows with other keys are exactly the old ones with other keys.
   */
  lemma UpsertContents(rs: seq<MonthlyRecord>, rec: MonthlyRecord)
    ensures var t := Upserted(rs, rec);
      && t[|t| - 1] == rec
      && (forall x :: x in t && x.key == rec.key ==> x == rec)
      && (forall x: MonthlyRecord :: x.key != rec.key ==> (x in t <==> x in rs))
      && IsSubsequence(t[..|t| - 1], rs)
  {
    var f := Filter(rs, KeyIsNot(rec.key));
    var t := f + [rec];
    assert t[..|t| - 1] == f;
    FilterIsSubsequence(rs, KeyIsNot(rec.key));
    forall x | x in t && x.key == rec.key
      ensures x == rec
    {
      assert !KeyIsNot(rec.key)(x);
      assert x !in f;
    }
    forall x: MonthlyRecord | x.key != rec.key
      ensures x in t <==> x in rs
    {
      assert KeyIsNot(rec.key)(x);
      assert x in t <==> x in f;
    }
  }

  /** The monthly-record table held by the session. */
  class MonthlyRecordTable {
    var rows: seq<MonthlyRecord>

    constructor (initial: seq<MonthlyRecord>)
      ensures rows == initial
    {
      rows := initial;
    }

    /** Remove every row keyed `key`, then append the new row. */
    method Save(key: YearMonth, users: int, openDays: int)
      modifies this
      ensures rows == Upserted(old(rows), MonthlyRecord(key, users, openDays))
    {
      var kept := Filter(rows, KeyIsNot(key));
      rows := kept + [MonthlyRecord(key, users, openDays)];
    }

    /**
     * Monthly data entry: count the open days of the month from the closure
     * rules and save the month's row with that count.
     */
    method EnterMonth(year: int, month: int, users: int, rules: ClosureRules, isNationalHoliday: Date -> bool)
      modifies this
      ensures rows == Upserted(old(rows), MonthlyRecord(YearMonth(year, month), users,
                                                      |OpenDays(year, month, rules, isNationalHoliday)|))
      ensures 0 <= rows[|rows| - 1].openDays <= DaysInMonth(year, month)
    {
      var openDays := CountOpenDays(year, month, rules, isNationalHoliday);
      Save(YearMonth(year, month), users, openDays);
    }
  }
}
