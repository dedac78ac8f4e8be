/** The aggregation behind `getCompletedMonthlyTasksStats`
    (src/tasks/tasks.service.ts): `$match` the caller's completed tasks completed
    since a date, `$group` them by the UTC (year, month) of `completedAt` with a
    count, and `$project` each group to `{year, month, count}`. */
module MonthlyStats {
  import opened Outcomes
  import ObjectIds
  import opened TaskSchema
  import opened CivilTime

  datatype MonthCount = MonthCount(year: int, month: int, count: nat)

  function KeyOf(row: MonthCount): YearMonth {
    YearMonth(row.year, row.month)
  }

  /** The `$match` stage. A task without `completedAt` does not match. */
  predicate Counted(t: Task, user: ObjectIds.Id, since: int) {
    && t.assignedTo == Some(user)
    && t.status == Completed
    && t.completedAt.Some? && t.completedAt.value >= since
  }

  /** The documents that pass `$match`, in store order. */
  function Matching(docs: seq<Doc>, user: ObjectIds.Id, since: int): (r: seq<Doc>)
    ensures forall d :: d in r <==> d in docs && Counted(d.task, user, since)
    ensures forall d :: multiset(r)[d] == if Counted(d.task, user, since) then multiset(docs)[d] else 0
    ensures forall i :: 0 <= i < |r| ==> Counted(r[i].task, user, since)
    ensures |r| <= |docs|
  {
    if docs == [] then []
    else
      assert docs == [docs[0]] + docs[1..];
      (if Counted(docs[0].task, user, since) then [docs[0]] else []) + Matching(docs[1..], user, since)
  }

  /** The `$group` key of each matching document. */
  function MonthsOf(docs: seq<Doc>): (r: seq<YearMonth>)
    requires forall i :: 0 <= i < |docs| ==> docs[i].task.completedAt.Some?
    ensures |r| == |docs|
    ensures forall i :: 0 <= i < |docs| ==> r[i] == YearMonthOf(docs[i].task.completedAt.value)
  {
    seq(|docs|, i requires 0 <= i < |docs| => YearMonthOf(docs[i].task.completedAt.value))
  }

  predicate HasKey(rows: seq<MonthCount>, ym: YearMonth) {
    rows != [] && (KeyOf(rows[0]) == ym || HasKey(rows[1..], ym))
  }

  /** No key appears in two rows. */
  predicate DistinctKeys(rows: seq<MonthCount>) {
    rows == [] || (!HasKey(rows[1..], KeyOf(rows[0])) && DistinctKeys(rows[1..]))
  }

  predicate NoEmptyBucket(rows: seq<MonthCount>) {
    forall i :: 0 <= i < |rows| ==> rows[i].count >= 1
  }

  /** The total count of the rows with key `ym`. */
  function CountOf(rows: seq<MonthCount>, ym: YearMonth): nat {
    if rows == [] then 0
    else (if KeyOf(rows[0]) == ym then rows[0].count else 0) + CountOf(rows[1..], ym)
  }

  function Total(rows: seq<MonthCount>): nat {
    if rows == [] then 0 else rows[0].count + Total(rows[1..])
  }

  /** One document entering `$group`: its bucket's count goes up by one, or a new
      bucket with count one is opened at the end. */
  function Tally(rows: seq<MonthCount>, ym: YearMonth): seq<MonthCount> {
    if rows == [] then [MonthCount(ym.year, ym.month, 1)]
    else if KeyOf(rows[0]) == ym then [rows[0].(count := rows[0].count + 1)] + rows[1..]
    else [rows[0]] + Tally(rows[1..], ym)
  }

  /** `$group` over the keys in arrival order. */
  function Group(keys: seq<YearMonth>): seq<MonthCount> {
    if keys == [] then []
    else Tally(Group(keys[..|keys| - 1]), keys[|keys| - 1])
  }

  /** The pipeline's output rows. */
  function Stats(docs: seq<Doc>, user: ObjectIds.Id, since: int): seq<MonthCount> {
    Group(MonthsOf(Matching(docs, user, since)))
  }

  lemma {:induction false} TallyKeys(rows: seq<MonthCount>, ym: YearMonth, k: YearMonth)
    ensures HasKey(Tally(rows, ym), k) <==> HasKey(rows, k) || k == ym
  {
    if rows != [] && KeyOf(rows[0]) != ym {
      TallyKeys(rows[1..], ym, k);
      assert Tally(rows, ym)[1..] == Tally(rows[1..], ym);
    } else if rows != [] {
      assert Tally(rows, ym)[1..] == rows[1..];
    } else {
      assert Tally(rows, ym)[1..] == [];
    }
  }

  lemma {:induction false} TallyDistinct(rows: seq<MonthCount>, ym: YearMonth)
    requires DistinctKeys(rows)
    ensures DistinctKeys(Tally(rows, ym))
  {
    if rows != [] && KeyOf(rows[0]) != ym {
      TallyDistinct(rows[1..], ym);
      TallyKeys(rows[1..], ym, KeyOf(rows[0]));
      assert Tally(rows, ym)[1..] == Tally(rows[1..], ym);
    } else if rows != [] {
      assert Tally(rows, ym)[1..] == rows[1..];
    } else {
      assert Tally(rows, ym)[1..] == [];
    }
  }

  lemma {:induction false} TallyCounts(rows: seq<MonthCount>, ym: YearMonth, k: YearMonth)
    ensures CountOf(Tally(rows, ym), k) == CountOf(rows, k) + (if k == ym then 1 else 0)
    ensures Total(Tally(rows, ym)) == Total(rows) + 1
    ensures NoEmptyBucket(rows) ==> NoEmptyBucket(Tally(rows, ym))
  {
    if rows != [] && KeyOf(rows[0]) != ym {
      TallyCounts(rows[1..], ym, k);
      assert Tally(rows, ym)[1..] == Tally(rows[1..], ym);
    } else if rows != [] {
      assert Tally(rows, ym)[1..] == rows[1..];
    } else {
      assert Tally(rows, ym)[1..] == [];
    }
  }

  lemma {:induction false} GroupFacts(keys: seq<YearMonth>)
    ensures forall k :: HasKey(Group(keys), k) <==> k in keys
    ensures DistinctKeys(Group(keys))
    ensures NoEmptyBucket(Group(keys))
    ensures forall k :: CountOf(Group(keys), k) == multiset(keys)[k]
    ensures Total(Group(keys)) == |keys|
  {
    if keys != [] {
      var init, last := keys[..|keys| - 1], keys[|keys| - 1];
      var rows := Group(init);
      assert Group(keys) == Tally(rows, last);
      GroupFacts(init);
      TallyDistinct(rows, last);
      TallyCounts(rows, last, last);
      assert keys == init + [last];
      forall k ensures HasKey(Tally(rows, last), k) <==> k in keys {
        TallyKeys(rows, last, k);
      }
      forall k ensures CountOf(Tally(rows, last), k) == multiset(keys)[k] {
        TallyCounts(rows, last, k);
        assert multiset(keys) == multiset(init) + multiset{last};
      }
    }
  }

  /** With distinct keys, the row of a key carries that key's whole count. */
  lemma {:induction false} RowCarriesCount(rows: seq<MonthCount>, i: int)
    requires DistinctKeys(rows) && 0 <= i < |rows|
    ensures rows[i].count == CountOf(rows, KeyOf(rows[i]))
  {
    if i == 0 {
      NoRowNoCount(rows[1..], KeyOf(rows[0]));
    } else {
      assert rows[1..][i - 1] == rows[i];
      RowCarriesCount(rows[1..], i - 1);
      if KeyOf(rows[0]) == KeyOf(rows[i]) {
        KeyAt(rows[1..], i - 1);
      }
    }
  }

  lemma {:induction false} KeyAt(rows: seq<MonthCount>, i: int)
    requires 0 <= i < |rows|
    ensures HasKey(rows, KeyOf(rows[i]))
  {
    if i > 0 {
      assert rows[1..][i - 1] == rows[i];
      KeyAt(rows[1..], i - 1);
    }
  }

  lemma {:induction false} NoRowNoCount(rows: seq<MonthCount>, ym: YearMonth)
    requires !HasKey(rows, ym)
    ensures CountOf(rows, ym) == 0
  {
    if rows != [] {
      NoRowNoCount(rows[1..], ym);
    }
  }

  /** Distinct keys in the pairwise sense: no two rows share a (year, month). */
  lemma {:induction false} DistinctKeysPairwise(rows: seq<MonthCount>)
    requires DistinctKeys(rows)
    ensures forall i, j :: 0 <= i < j < |rows| ==> KeyOf(rows[i]) != KeyOf(rows[j])
  {
    if rows != [] {
      DistinctKeysPairwise(rows[1..]);
      forall i, j | 0 <= i < j < |rows| ensures KeyOf(rows[i]) != KeyOf(rows[j]) {
        assert rows[j] == rows[1..][j - 1];
        if i == 0 {
          KeyAt(rows[1..], j - 1);
        } else {
          assert rows[i] == rows[1..][i - 1];
        }
      }
    }
  }

  /** The aggregate's contract: one row per (year, month) bucket that holds at least
      one matching task, keys distinct, no empty bucket, each count the number of
      matching tasks completed in that month, and the counts summing to the number
      of matching tasks. Months without completions get no row. */
  lemma StatsCorrect(docs: seq<Doc>, user: ObjectIds.Id, since: int)
    ensures var rows := Stats(docs, user, since);
      var months := MonthsOf(Matching(docs, user, since));
      && (forall i, j :: 0 <= i < j < |rows| ==> KeyOf(rows[i]) != KeyOf(rows[j]))
      && NoEmptyBucket(rows)
      && (forall i :: 0 <= i < |rows| ==> rows[i].count == multiset(months)[KeyOf(rows[i])])
      && (forall ym :: HasKey(rows, ym) <==> ym in months)
      && Total(rows) == |Matching(docs, user, since)|
  {
    var months := MonthsOf(Matching(docs, user, since));
    GroupFacts(months);
    DistinctKeysPairwise(Group(months));
    forall i | 0 <= i < |Group(months)|
      ensures Group(months)[i].count == multiset(months)[KeyOf(Group(months)[i])]
    {
      RowCarriesCount(Group(months), i);
    }
  }

  /** The month of the `i`-th document, when it matches, is among the matched months;
      and each matched month is that of some matching document. */
  lemma MatchedMonthsAreMonthsOfDocs(docs: seq<Doc>, user: ObjectIds.Id, since: int, ym: YearMonth)
    ensures ym in MonthsOf(Matching(docs, user, since)) <==>
      exists i :: 0 <= i < |docs| && Counted(docs[i].task, user, since) &&
        YearMonthOf(docs[i].task.completedAt.value) == ym
  {
    if ym in MonthsOf(Matching(docs, user, since)) {
      MatchedMonthHasDoc(docs, user, since, ym);
    }
    if exists i :: 0 <= i < |docs| && Counted(docs[i].task, user, since) &&
        YearMonthOf(docs[i].task.completedAt.value) == ym {
      var i :| 0 <= i < |docs| && Counted(docs[i].task, user, since) &&
        YearMonthOf(docs[i].task.completedAt.value) == ym;
      MatchedDocHasMonth(docs, user, since, docs[i]);
    }
  }

  lemma MatchedMonthHasDoc(docs: seq<Doc>, user: ObjectIds.Id, since: int, ym: YearMonth)
    requires ym in MonthsOf(Matching(docs, user, since))
    ensures
      exists i :: 0 <= i < |docs| && Counted(docs[i].task, user, since) &&
        YearMonthOf(docs[i].task.completedAt.value) == ym
  {
    var m := Matching(docs, user, since);
    var months := MonthsOf(m);
    var j :| 0 <= j < |months| && months[j] == ym;
    var d := m[j];
    assert d in m;
    var i :| 0 <= i < |docs| && docs[i] == d;
    assert Counted(docs[i].task, user, since);
  }

  lemma MatchedDocHasMonth(docs: seq<Doc>, user: ObjectIds.Id, since: int, d: Doc)
    requires d in docs && Counted(d.task, user, since)
    ensures YearMonthOf(d.task.completedAt.value) in MonthsOf(Matching(docs, user, since))
  {
    var m := Matching(docs, user, since);
    assert d in m;
    var j :| 0 <= j < |m| && m[j] == d;
    assert MonthsOf(m)[j] == YearMonthOf(d.task.completedAt.value);
  }

  /** A bucket's key is the month of a matching task, and each matching task's
      month has a bucket. */
  lemma BucketsAreMonthsOfMatchingTasks(docs: seq<Doc>, user: ObjectIds.Id, since: int, ym: YearMonth)
    ensures HasKey(Stats(docs, user, since), ym) <==>
      exists i :: 0 <= i < |docs| && Counted(docs[i].task, user, since) &&
        YearMonthOf(docs[i].task.completedAt.value) == ym
  {
    GroupFacts(MonthsOf(Matching(docs, user, since)));
    MatchedMonthsAreMonthsOfDocs(docs, user, since, ym);
  }
}
