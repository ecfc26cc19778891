/** The current completion streak (CalculateStreak in GoalService.cs). */
module Streak {
  import opened Seqs
  import opened Entities

  /** Later day first. */
  function NewestFirst(a: DailyActivity, b: DailyActivity): bool
  {
    a.date >= b.date
  }

  lemma NewestFirstIsPreorder()
    ensures TotalPreorder(NewestFirst)
  {
  }

  /** What the loop adds to the streak from `rows` on, with the cursor at
      `cursor`: a row on the cursor day or the day before counts and moves the
      cursor to it, a row older than that ends the walk, and a row newer than
      the cursor is passed over. */
  function StreakFrom(rows: seq<DailyActivity>, cursor: Day): nat
  {
    if |rows| == 0 then 0
    else if rows[0].date == cursor || rows[0].date == cursor - 1 then 1 + StreakFrom(rows[1..], rows[0].date)
    else if rows[0].date < cursor - 1 then 0
    else StreakFrom(rows[1..], cursor)
  }

  lemma {:induction false} StreakBounded(rows: seq<DailyActivity>, cursor: Day)
    ensures StreakFrom(rows, cursor) <= |rows|
  {
    if |rows| > 0 {
      StreakBounded(rows[1..], rows[0].date);
      StreakBounded(rows[1..], cursor);
    }
  }

  /** Walks the rows newest first from today, stopping at the first gap. */
  method CalculateStreak(activity: seq<DailyActivity>, today: Day) returns (streak: nat)
    ensures streak == StreakFrom(SortBy(activity, NewestFirst), today)
    ensures streak <= |activity|
    ensures |activity| == 0 ==> streak == 0
  {
    if |activity| == 0 {
      return 0;
    }
    streak := 0;
    var currentDate := today;
    var sorted := SortBy(activity, NewestFirst);
    var i := 0;
    while i < |sorted|
      invariant 0 <= i <= |sorted|
      invariant streak + StreakFrom(sorted[i..], currentDate) == StreakFrom(sorted, today)
    {
      var day := sorted[i];
      assert sorted[i..][1..] == sorted[i + 1..];
      if day.date == currentDate || day.date == currentDate - 1 {
        streak := streak + 1;
        currentDate := day.date;
      } else if day.date < currentDate - 1 {
        break;
      }
      i := i + 1;
    }
    StreakBounded(sorted, today);
  }

  /** The rows left once the newest rows dated after `today` are passed over. */
  function PastRows(rows: seq<DailyActivity>, today: Day): (r: seq<DailyActivity>)
    ensures |r| <= |rows| && r == rows[|rows| - |r|..]
    ensures forall i :: 0 <= i < |rows| - |r| ==> rows[i].date > today
    ensures |r| > 0 ==> r[0].date <= today
  {
    if |rows| > 0 && rows[0].date > today then PastRows(rows[1..], today) else rows
  }

  /** Rows dated after today do not break the walk. */
  lemma {:induction false} FutureRowsSkipped(rows: seq<DailyActivity>, today: Day)
    ensures StreakFrom(rows, today) == StreakFrom(PastRows(rows, today), today)
  {
    if |rows| > 0 && rows[0].date > today {
      FutureRowsSkipped(rows[1..], today);
    }
  }

  /** Dates strictly decrease: newest first with one row per day. */
  ghost predicate StrictlyNewestFirst(rows: seq<DailyActivity>)
  {
    forall i, j :: 0 <= i < j < |rows| ==> rows[i].date > rows[j].date
  }

  /** Below a cursor, the walk counts exactly the rows on the days just before it. */
  lemma {:induction false} RunBelow(rows: seq<DailyActivity>, cursor: Day)
    requires StrictlyNewestFirst(rows)
    requires forall i :: 0 <= i < |rows| ==> rows[i].date < cursor
    ensures StreakFrom(rows, cursor) <= |rows|
    ensures forall i :: 0 <= i < StreakFrom(rows, cursor) ==> rows[i].date == cursor - 1 - i
    ensures StreakFrom(rows, cursor) < |rows| ==> rows[StreakFrom(rows, cursor)].date < cursor - 1 - StreakFrom(rows, cursor)
  {
    if |rows| > 0 && rows[0].date == cursor - 1 {
      var rest := rows[1..];
      SuffixStrictlyNewestFirst(rows, 1);
      forall i | 0 <= i < |rest| ensures rest[i].date < rows[0].date {
        assert rest[i] == rows[i + 1];
      }
      RunBelow(rest, rows[0].date);
      var s := StreakFrom(rest, rows[0].date);
      assert StreakFrom(rows, cursor) == 1 + s;
      forall i | 0 <= i < 1 + s ensures rows[i].date == cursor - 1 - i {
        if i > 0 {
          assert rows[i] == rest[i - 1];
        }
      }
      if 1 + s < |rows| {
        assert rows[1 + s] == rest[s];
      }
    }
  }

  lemma {:induction false} SuffixStrictlyNewestFirst(rows: seq<DailyActivity>, k: nat)
    requires StrictlyNewestFirst(rows) && k <= |rows|
    ensures StrictlyNewestFirst(rows[k..])
  {
    var rest := rows[k..];
    forall i, j | 0 <= i < j < |rest| ensures rest[i].date > rest[j].date {
      assert rest[i] == rows[k + i] && rest[j] == rows[k + j];
    }
  }

  /** The walk from today over rows none of which is after today. */
  lemma {:induction false} RunFromToday(past: seq<DailyActivity>, today: Day)
    requires StrictlyNewestFirst(past)
    requires |past| > 0 ==> past[0].date <= today
    ensures
      var s := StreakFrom(past, today);
      && s <= |past|
      && (s == 0 <==> |past| == 0 || past[0].date < today - 1)
      && (forall i :: 0 <= i < s ==> past[i].date == past[0].date - i)
      && (0 < s < |past| ==> past[s].date < past[0].date - s)
  {
    StreakBounded(past, today);
    if |past| > 0 && past[0].date >= today - 1 {
      var rest := past[1..];
      SuffixStrictlyNewestFirst(past, 1);
      forall i | 0 <= i < |rest| ensures rest[i].date < past[0].date {
        assert rest[i] == past[i + 1];
      }
      RunBelow(rest, past[0].date);
      var s := StreakFrom(rest, past[0].date);
      assert StreakFrom(past, today) == 1 + s;
      forall i | 0 <= i < 1 + s ensures past[i].date == past[0].date - i {
        if i > 0 {
          assert past[i] == rest[i - 1];
        }
      }
      if 1 + s < |past| {
        assert past[1 + s] == rest[s];
      }
    }
  }

  /** With one row per day, the streak is the length of the run of
      consecutive days that starts at the newest row not after today,
      provided that row is today's or yesterday's; otherwise it is 0. */
  lemma StreakIsCurrentRun(rows: seq<DailyActivity>, today: Day)
    requires StrictlyNewestFirst(rows)
    ensures
      var past := PastRows(rows, today);
      var s := StreakFrom(rows, today);
      && s <= |past|
      && (s == 0 <==> |past| == 0 || past[0].date < today - 1)
      && (forall i :: 0 <= i < s ==> past[i].date == past[0].date - i)
      && (0 < s < |past| ==> past[s].date < past[0].date - s)
  {
    FutureRowsSkipped(rows, today);
    var past := PastRows(rows, today);
    SuffixStrictlyNewestFirst(rows, |rows| - |past|);
    RunFromToday(past, today);
  }
}
