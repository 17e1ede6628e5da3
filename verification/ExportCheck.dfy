/** The row-limit check made when an export is submitted: one verdict, reached by counting, by a
    capped fetch when counting fails, or by a capped fetch on engines that cannot count. */
module ExportCheck {
  import opened Wrappers

  const SQL_COUNT_ENGINES :=
    ["mysql", "mssql", "pgsql", "oracle", "phoenix", "odps", "clickhouse", "cassandra", "doris"]

  /** What the engine answers to one query: an exception, or a result set. */
  datatype Fetch = Raises | Fetched(error: bool, affectedRows: int, rows: seq<seq<int>>)

  /** What the engine says about the statement before it is run. */
  datatype QueryCheck = CheckRaises | CheckInfo(badQuery: bool)

  /** One submission: the statements it holds, none after an exception; the engine's opinion; its
      answers to the counting query and to a fetch with a given row limit. */
  datatype Submission = Submission(
    dbType: string, statements: Option<seq<string>>, check: QueryCheck, count: Fetch, fetch: int -> Fetch)

  datatype Review = Review(errLevel: int, affectedRows: int)

  // ---- the verdict -----------------------------------------------------------------------

  function RowsFetched(f: Fetch): int
    requires f.Fetched?
  {
    if f.affectedRows != 0 then f.affectedRows else |f.rows|
  }

  /** The number found and whether its result set carries an error; none after an exception. */
  function Found(s: Submission, maxRows: int): Option<(int, bool)> {
    if s.dbType in SQL_COUNT_ENGINES then
      if s.count.Raises? then None
      else if s.count.error then FoundByFetch(s.fetch(maxRows + 1))
      else if s.count.rows == [] || s.count.rows[0] == [] then None
      else Some((s.count.rows[0][0], false))
    else FoundByFetch(s.fetch(maxRows + 1))
  }

  function FoundByFetch(f: Fetch): Option<(int, bool)> {
    if f.Raises? then None else Some((RowsFetched(f), f.error))
  }

  function Verdict(s: Submission, maxRows: int): Review {
    if s.statements.None? || |s.statements.value| != 1 then Review(2, 0)
    else if s.check.CheckRaises? || s.check.badQuery then Review(2, 0)
    else match Found(s, maxRows)
      case None => Review(2, 0)
      case Some((n, error)) => Review(if error || n > maxRows then 2 else 0, n)
  }

  // ---- the check -------------------------------------------------------------------------

  class ReviewSet {
    var rows: seq<Review>
    var warningCount: int
    var errorCount: int

    constructor ()
      ensures rows == [] && warningCount == 0 && errorCount == 0
    {
      rows, warningCount, errorCount := [], 0, 0;
    }

    method Fail(review: Review)
      modifies this
      ensures rows == [review] && errorCount == 1 && warningCount == old(warningCount)
    {
      rows := [review];
      errorCount := 1;
    }

    /** `pre_count_check` on a new result. */
    method PreCountCheck(s: Submission, maxRows: int)
      requires rows == [] && warningCount == 0 && errorCount == 0
      modifies this
      ensures rows == [Verdict(s, maxRows)]
      ensures errorCount == (if rows[0].errLevel == 2 then 1 else 0) && warningCount == 0
    {
      if s.statements.None? || s.statements.value == [] {
        Fail(Review(2, 0));
        return;
      } else if |s.statements.value| > 1 {
        Fail(Review(2, 0));
        return;
      }
      if s.check.CheckRaises? || s.check.badQuery {
        Fail(Review(2, 0));
        return;
      }
      var limitNum := maxRows + 1;
      var resultSet := s.count;
      var actual := 0;
      if s.dbType in SQL_COUNT_ENGINES {
        if resultSet.Raises? {
          Fail(Review(2, 0));
          return;
        }
        if resultSet.error {
          resultSet := s.fetch(limitNum);
          if resultSet.Raises? {
            Fail(Review(2, 0));
            return;
          }
          actual := if resultSet.affectedRows != 0 then resultSet.affectedRows else |resultSet.rows|;
        } else if resultSet.rows == [] || resultSet.rows[0] == [] {
          Fail(Review(2, 0));
          return;
        } else {
          actual := resultSet.rows[0][0];
        }
      } else {
        resultSet := s.fetch(limitNum);
        if resultSet.Raises? {
          Fail(Review(2, 0));
          return;
        }
        actual := if resultSet.affectedRows != 0 then resultSet.affectedRows else |resultSet.rows|;
      }
      var review := Review(0, actual);
      if resultSet.error {
        review := Review(2, actual);
      } else if actual > maxRows {
        review := Review(2, actual);
      }
      rows := [review];
      for i := 0 to |rows|
        invariant rows == [review] && warningCount == 0
        invariant errorCount == if i == 1 && review.errLevel == 2 then 1 else 0
      {
        if rows[i].errLevel == 1 {
          warningCount := warningCount + 1;
        }
        if rows[i].errLevel == 2 {
          errorCount := errorCount + 1;
        }
      }
    }
  }

  // ---- the three paths agree -------------------------------------------------------------

  /** The counting query answers with the number of rows. */
  predicate CountsRows(f: Fetch, n: nat) {
    f.Fetched? && !f.error && f.rows == [[n]]
  }

  /** A fetch answers with the rows there are, up to its limit, and reports their number or 0. */
  ghost predicate FetchesRows(fetch: int -> Fetch, n: nat) {
    forall limit :: IsCappedAnswer(fetch(limit), n, limit)
  }

  predicate IsCappedAnswer(f: Fetch, n: nat, limit: int) {
    f.Fetched? && !f.error
    && |f.rows| == (if limit < 0 then 0 else if n < limit then n else limit)
    && (f.affectedRows == 0 || f.affectedRows == |f.rows|)
  }

  /** The path by which a submission is judged answers truly about `n` rows. */
  ghost predicate IsJudgedOn(s: Submission, n: nat) {
    && s.statements.Some? && |s.statements.value| == 1 && s.check == CheckInfo(false)
    && if s.dbType in SQL_COUNT_ENGINES then
         CountsRows(s.count, n) || (s.count.Fetched? && s.count.error && FetchesRows(s.fetch, n))
       else FetchesRows(s.fetch, n)
  }

  /** On all three paths, for every limit, the verdict accepts exactly the results that do not
      exceed it, reports their true number when it does, and otherwise is an error. */
  lemma VerdictExactly(s: Submission, n: nat, maxRows: int)
    requires IsJudgedOn(s, n)
    ensures Verdict(s, maxRows) == Review(0, n) <==> n <= maxRows
    ensures Verdict(s, maxRows).errLevel == 2 <==> n > maxRows
  {
    if !(s.dbType in SQL_COUNT_ENGINES && CountsRows(s.count, n)) {
      var f := s.fetch(maxRows + 1);
      assert IsCappedAnswer(f, n, maxRows + 1);
      assert RowsFetched(f) == |f.rows|;
    }
  }

  /** So any two submissions with the same number of rows are accepted alike. */
  lemma PathsAgree(a: Submission, b: Submission, n: nat, maxRows: int)
    requires IsJudgedOn(a, n) && IsJudgedOn(b, n)
    ensures Verdict(a, maxRows).errLevel == Verdict(b, maxRows).errLevel
    ensures n <= maxRows ==> Verdict(a, maxRows) == Verdict(b, maxRows)
  {
    VerdictExactly(a, n, maxRows);
    VerdictExactly(b, n, maxRows);
  }

  // ---- every submission ------------------------------------------------------------------

  /** The engines whose results are counted by the database. */
  predicate IsCounted(dbType: string) {
    dbType in {"mysql", "mssql", "pgsql", "oracle", "phoenix", "odps", "clickhouse", "cassandra", "doris"}
  }

  /** The answer a submission is judged by: that to the counting query, or, when the engine does not
      count or the count comes back with an error, that to a fetch of one row more than allowed. */
  function Judged(s: Submission, maxRows: int): Fetch {
    if IsCounted(s.dbType) && (s.count.Raises? || !s.count.error) then s.count else s.fetch(maxRows + 1)
  }

  /** The count is the first cell of the first row of the counting query. */
  predicate HasCount(f: Fetch) {
    f.Fetched? && |f.rows| > 0 && |f.rows[0]| > 0
  }

  /** The error cases, all of them: a submission is accepted exactly when it is one statement that
      the engine does not object to and whose count, or number of rows fetched, is found without
      error and within the limit; that number is what the review reports. */
  lemma AcceptedExactly(s: Submission, maxRows: int)
    ensures
      var f := Judged(s, maxRows);
      var counted := IsCounted(s.dbType) && f == s.count && !(s.count.Fetched? && s.count.error);
      var isFound := if counted then HasCount(f) else f.Fetched?;
      var isAsked := s.statements.Some? && |s.statements.value| == 1 && s.check.CheckInfo? && !s.check.badQuery;
      var v := Verdict(s, maxRows);
      && (!(isAsked && isFound) ==> v == Review(2, 0))
      && (isAsked && isFound ==>
            var n := if counted then f.rows[0][0] else if f.affectedRows != 0 then f.affectedRows else |f.rows|;
            v == Review(if f.error || n > maxRows then 2 else 0, n))
  {
    assert s.dbType in SQL_COUNT_ENGINES <==> IsCounted(s.dbType);
  }
}
