/** Ranking jobs against a resume and deciding which of them to show.
    Similarity scores come from a sentence encoder and cosine similarity,
    both outside the model; they enter as integers, the match percentage in
    hundredths of a percent (so 35.0 % is 3500). */
module Ranking {
  import opened TextOps
  import opened Skills

  /** The columns of a job row the matcher reads. */
  datatype Job = Job(title: string, description: string)

  /** A row of the scored table: the row label (its position in the job
      file, which the sort keeps), the job, and its match percentage. */
  datatype Row = Row(index: nat, job: Job, matchPercentage: int)

  /** 35.0 %, the least match percentage a shown job may have. */
  const MinThreshold: int := 3500

  /** How many of the best-ranked jobs are looked at. */
  const TopN: nat := 5

  /** Scores never increase along `rows`. */
  predicate SortedByScore(rows: seq<Row>) {
    forall i, j | 0 <= i < j < |rows| :: rows[i].matchPercentage >= rows[j].matchPercentage
  }

  /** Puts `r` into a sorted sequence before the first row it beats or ties. */
  function Insert(r: Row, rows: seq<Row>): (out: seq<Row>)
    requires SortedByScore(rows)
    ensures SortedByScore(out)
    ensures multiset(out) == multiset(rows) + multiset{r}
    ensures out[0] == r || (rows != [] && out[0] == rows[0])
  {
    if rows == [] || r.matchPercentage >= rows[0].matchPercentage then
      [r] + rows
    else
      SortedTail(rows);
      var tail := Insert(r, rows[1..]);
      assert rows == [rows[0]] + rows[1..];
      SortedCons(rows[0], tail);
      [rows[0]] + tail
  }

  /** Dropping the head of a sorted sequence keeps it sorted. */
  lemma SortedTail(rows: seq<Row>)
    requires SortedByScore(rows) && rows != []
    ensures SortedByScore(rows[1..])
  {
    forall i, j | 0 <= i < j < |rows| - 1 ensures rows[1..][i].matchPercentage >= rows[1..][j].matchPercentage {
      assert rows[1..][i] == rows[i + 1] && rows[1..][j] == rows[j + 1];
    }
  }

  /** A row no lower than the head of a sorted sequence can go in front. */
  lemma SortedCons(x: Row, rows: seq<Row>)
    requires SortedByScore(rows)
    requires rows == [] || x.matchPercentage >= rows[0].matchPercentage
    ensures SortedByScore([x] + rows)
  {
    var out := [x] + rows;
    forall i, j | 0 <= i < j < |out| ensures out[i].matchPercentage >= out[j].matchPercentage {
      if i == 0 {
        assert out[j] == rows[j - 1];
      } else {
        assert out[i] == rows[i - 1] && out[j] == rows[j - 1];
      }
    }
  }

  /** The table sorted by match percentage, highest first. */
  function SortByScore(rows: seq<Row>): (sorted: seq<Row>)
    ensures SortedByScore(sorted)
    ensures multiset(sorted) == multiset(rows)
  {
    if rows == [] then
      []
    else
      assert rows == [rows[0]] + rows[1..];
      Insert(rows[0], SortByScore(rows[1..]))
  }

  /** The first `TopN` rows, or all of them when there are fewer. */
  function Top(rows: seq<Row>): (top: seq<Row>)
    ensures top <= rows
    ensures |top| == if |rows| < TopN then |rows| else TopN
  {
    if |rows| <= TopN then rows else rows[..TopN]
  }

  /** One job as shown: its row, the skills the resume shares with it and
      the ones it lacks. */
  datatype Match = Match(row: Row, matched: set<string>, missing: set<string>)

  /** The vocabulary terms the job's description mentions. */
  function JobSkills(vocabulary: seq<string>, row: Row): (skills: set<string>)
    ensures forall t :: t in skills <==> t in vocabulary && IsSubstring(t, Lower(row.job.description))
  {
    ExtractSkills(vocabulary, row.job.description)
  }

  /** The display gate: a good enough score and at least one shared skill,
      that is, a non-empty list of matched skills. */
  predicate Passes(vocabulary: seq<string>, userSkills: set<string>, row: Row)
    ensures Passes(vocabulary, userSkills, row) <==>
      row.matchPercentage >= MinThreshold && SkillGap(JobSkills(vocabulary, row), userSkills).matched != {}
  {
    row.matchPercentage >= MinThreshold && |JobSkills(vocabulary, row) * userSkills| > 0
  }

  /** A row passes exactly when it scores at least 35 % and some skill of
      the resume is a vocabulary term its description mentions. */
  lemma PassesSharedSkill(vocabulary: seq<string>, userSkills: set<string>, row: Row)
    ensures Passes(vocabulary, userSkills, row) <==>
      && row.matchPercentage >= MinThreshold
      && exists t :: t in userSkills && t in vocabulary && IsSubstring(t, Lower(row.job.description))
  {
    var shared := JobSkills(vocabulary, row) * userSkills;
    if |shared| > 0 {
      var t :| t in shared;
    }
    if exists t :: t in userSkills && t in vocabulary && IsSubstring(t, Lower(row.job.description)) {
      var t :| t in userSkills && t in vocabulary && IsSubstring(t, Lower(row.job.description));
      assert t in shared;
    }
  }

  function Shown(vocabulary: seq<string>, userSkills: set<string>, row: Row): Match {
    var gap := SkillGap(JobSkills(vocabulary, row), userSkills);
    Match(row, gap.matched, gap.missing)
  }

  /** The rows that pass the gate, in their order, each with its skill gap. */
  function Gate(vocabulary: seq<string>, userSkills: set<string>, rows: seq<Row>): (shown: seq<Match>)
    ensures |shown| <= |rows|
  {
    if rows == [] then
      []
    else
      (if Passes(vocabulary, userSkills, rows[0]) then [Shown(vocabulary, userSkills, rows[0])] else [])
        + Gate(vocabulary, userSkills, rows[1..])
  }

  lemma {:induction false} GateAppend(vocabulary: seq<string>, userSkills: set<string>, a: seq<Row>, b: seq<Row>)
    ensures Gate(vocabulary, userSkills, a + b) == Gate(vocabulary, userSkills, a) + Gate(vocabulary, userSkills, b)
  {
    if a == [] {
      assert a + b == b;
    } else {
      var head := if Passes(vocabulary, userSkills, a[0]) then [Shown(vocabulary, userSkills, a[0])] else [];
      assert (a + b)[0] == a[0] && (a + b)[1..] == a[1..] + b;
      assert Gate(vocabulary, userSkills, a) == head + Gate(vocabulary, userSkills, a[1..]);
      assert Gate(vocabulary, userSkills, a + b) == head + Gate(vocabulary, userSkills, a[1..] + b);
      GateAppend(vocabulary, userSkills, a[1..], b);
    }
  }

  /** `m` is a legitimate entry of the page for `rows`: its row is one of
      them and passes the gate, and `matched` and `missing` are that job's
      skill gap, so `matched` is non-empty and held by the resume while
      `missing` is not. */
  ghost predicate ShownFrom(vocabulary: seq<string>, userSkills: set<string>, rows: seq<Row>, m: Match) {
    && m.row in rows
    && Passes(vocabulary, userSkills, m.row)
    && Gap(m.matched, m.missing) == SkillGap(JobSkills(vocabulary, m.row), userSkills)
    && m.row.matchPercentage >= MinThreshold
    && m.matched != {}
    && m.matched <= userSkills
    && m.missing !! userSkills
    && m.matched !! m.missing
    && m.matched + m.missing == JobSkills(vocabulary, m.row)
  }

  /** What the gate lets through: at most one entry per row, each a row
      that passes, with `matched` non-empty and the job's skills split
      into `matched` and `missing`. */
  lemma {:induction false} GateSound(vocabulary: seq<string>, userSkills: set<string>, rows: seq<Row>)
    ensures var shown := Gate(vocabulary, userSkills, rows);
      && |shown| <= |rows|
      && forall m | m in shown ::
        ShownFrom(vocabulary, userSkills, rows, m)
  {
    if rows != [] {
      GateSound(vocabulary, userSkills, rows[1..]);
      var rest := Gate(vocabulary, userSkills, rows[1..]);
      forall m | m in Gate(vocabulary, userSkills, rows) ensures ShownFrom(vocabulary, userSkills, rows, m) {
        if m in rest {
          assert ShownFrom(vocabulary, userSkills, rows[1..], m);
        } else {
          assert m == Shown(vocabulary, userSkills, rows[0]);
          var gap := SkillGap(JobSkills(vocabulary, m.row), userSkills);
          assert m.matched == gap.matched && m.missing == gap.missing;
        }
      }
    }
  }

  /** The gate lets something through exactly when some row passes. */
  lemma {:induction false} GateEmpty(vocabulary: seq<string>, userSkills: set<string>, rows: seq<Row>)
    ensures Gate(vocabulary, userSkills, rows) == [] <==>
      forall k | 0 <= k < |rows| :: !Passes(vocabulary, userSkills, rows[k])
  {
    if rows != [] {
      GateEmpty(vocabulary, userSkills, rows[1..]);
      assert forall k | 1 <= k < |rows| :: rows[k] == rows[1..][k - 1];
    }
  }

  /** Scores never increase down the page. */
  predicate ShownByScore(shown: seq<Match>) {
    forall i, j | 0 <= i < j < |shown| :: shown[i].row.matchPercentage >= shown[j].row.matchPercentage
  }

  /** Shown jobs keep the order of the ranking: best score first. */
  lemma {:induction false} GateKeepsOrder(vocabulary: seq<string>, userSkills: set<string>, rows: seq<Row>)
    requires SortedByScore(rows)
    ensures ShownByScore(Gate(vocabulary, userSkills, rows))
  {
    if rows != [] {
      var rest := Gate(vocabulary, userSkills, rows[1..]);
      GateKeepsOrder(vocabulary, userSkills, rows[1..]);
      GateRows(vocabulary, userSkills, rows[1..]);
      if Passes(vocabulary, userSkills, rows[0]) {
        forall k | 0 <= k < |rest| ensures rest[k].row.matchPercentage <= rows[0].matchPercentage {
          var i :| 0 <= i < |rows| - 1 && rows[1..][i] == rest[k].row;
          assert rows[i + 1] == rest[k].row;
        }
        ShownByScoreCons(Shown(vocabulary, userSkills, rows[0]), rest);
      }
    }
  }

  /** An entry scoring no less than every entry of an ordered page can go
      on top of it. */
  lemma ShownByScoreCons(m: Match, rest: seq<Match>)
    requires ShownByScore(rest)
    requires forall k | 0 <= k < |rest| :: rest[k].row.matchPercentage <= m.row.matchPercentage
    ensures ShownByScore([m] + rest)
  {
    var shown := [m] + rest;
    forall i, j | 0 <= i < j < |shown|
      ensures shown[i].row.matchPercentage >= shown[j].row.matchPercentage
    {
      assert shown[j] == rest[j - 1];
      if i > 0 {
        assert shown[i] == rest[i - 1];
      }
    }
  }

  /** Every entry of the gate's output is for one of its input rows. */
  lemma {:induction false} GateRows(vocabulary: seq<string>, userSkills: set<string>, rows: seq<Row>)
    ensures forall k | 0 <= k < |Gate(vocabulary, userSkills, rows)| ::
      Gate(vocabulary, userSkills, rows)[k].row in rows
  {
    if rows != [] {
      var rest := Gate(vocabulary, userSkills, rows[1..]);
      GateRows(vocabulary, userSkills, rows[1..]);
      assert forall k | 0 <= k < |rest| :: rest[k].row in rows;
    }
  }

  /** The loop over the five best-ranked rows: every row that passes the
      gate is shown, and `resultsFound` records whether any did. */
  method ShowMatches(sorted: seq<Row>, vocabulary: seq<string>, userSkills: set<string>)
    returns (shown: seq<Match>, resultsFound: bool)
    ensures shown == Gate(vocabulary, userSkills, Top(sorted))
    ensures resultsFound <==>
      exists k | 0 <= k < |sorted| && k < TopN :: Passes(vocabulary, userSkills, sorted[k])
    ensures resultsFound <==> shown != []
  {
    var top := Top(sorted);
    shown := [];
    resultsFound := false;
    for i := 0 to |top|
      invariant shown == Gate(vocabulary, userSkills, top[..i])
      invariant resultsFound <==> shown != []
    {
      var row := top[i];
      var jobSkills := ExtractSkills(vocabulary, row.job.description);
      var matched := jobSkills * userSkills;
      GateAppend(vocabulary, userSkills, top[..i], [row]);
      assert top[..i + 1] == top[..i] + [row];
      assert Gate(vocabulary, userSkills, [row]) ==
        if Passes(vocabulary, userSkills, row) then [Shown(vocabulary, userSkills, row)] else [];
      if row.matchPercentage >= MinThreshold && |matched| > 0 {
        resultsFound := true;
        var missing := jobSkills - userSkills;
        shown := shown + [Match(row, matched, missing)];
      }
    }
    assert top[..|top|] == top;
    GateEmpty(vocabulary, userSkills, top);
    assert forall k | 0 <= k < |top| :: top[k] == sorted[k];
  }

  /** What the resume page ends with. */
  datatype Outcome =
    | EmptyResume             // "Please enter text to analyze."
    | EmptyJobTable           // cosine similarity against no job embeddings raises
    | ScoreCountMismatch      // the column assignment raises: a non-empty table needs one score per job
    | NoMatches               // "No matching local jobs found ..."
    | Matches(shown: seq<Match>)

  /** The page after the loop: the warning when nothing was shown. */
  function Verdict(shown: seq<Match>): (outcome: Outcome)
    ensures outcome.NoMatches? || outcome.Matches?
    ensures outcome.NoMatches? <==> shown == []
    ensures outcome.Matches? ==> outcome.shown == shown
  {
    if shown == [] then NoMatches else Matches(shown)
  }

  /** The outcome for a non-blank resume with skills `userSkills`, given
      the scored table. */
  function Analysis(rows: seq<Row>, vocabulary: seq<string>, userSkills: set<string>): (outcome: Outcome)
    ensures outcome.NoMatches? || outcome.Matches?
    ensures outcome.Matches? ==> 0 < |outcome.shown| <= TopN
  {
    Verdict(Gate(vocabulary, userSkills, Top(SortByScore(rows))))
  }

  /** The display policy: at most five jobs, every one among the five
      best-ranked, scoring at least 35 % and sharing a skill with the
      resume; the warning comes exactly when none of the five qualifies. */
  lemma AnalysisGate(rows: seq<Row>, vocabulary: seq<string>, userSkills: set<string>)
    ensures var outcome := Analysis(rows, vocabulary, userSkills);
      var top := Top(SortByScore(rows));
      && (outcome.NoMatches? || outcome.Matches?)
      && (outcome.NoMatches? <==> forall k | 0 <= k < |top| :: !Passes(vocabulary, userSkills, top[k]))
      && (outcome.Matches? ==>
            && 0 < |outcome.shown| <= TopN
            && forall m | m in outcome.shown :: ShownFrom(vocabulary, userSkills, top, m))
  {
    var top := Top(SortByScore(rows));
    VerdictOfGate(vocabulary, userSkills, top);
    assert Analysis(rows, vocabulary, userSkills) == Verdict(Gate(vocabulary, userSkills, top));
  }

  lemma VerdictOfGate(vocabulary: seq<string>, userSkills: set<string>, top: seq<Row>)
    requires |top| <= TopN
    ensures var outcome := Verdict(Gate(vocabulary, userSkills, top));
      && (outcome.NoMatches? || outcome.Matches?)
      && (outcome.NoMatches? <==> forall k | 0 <= k < |top| :: !Passes(vocabulary, userSkills, top[k]))
      && (outcome.Matches? ==>
            && 0 < |outcome.shown| <= TopN
            && forall m | m in outcome.shown :: ShownFrom(vocabulary, userSkills, top, m))
  {
    GateSound(vocabulary, userSkills, top);
    GateEmpty(vocabulary, userSkills, top);
  }

  /** Example: a single "Data Analyst" job asking for SQL and
      Excel, scored at least 35 % against a resume that mentions only SQL,
      is shown with "sql" matched and "excel" missing. */
  lemma DataAnalystExample(score: int)
    requires score >= MinThreshold
    ensures var row := Row(0, Job("Data Analyst", "Requires SQL and Excel"), score);
      var vocabulary := ["sql", "excel"];
      Analysis([row], vocabulary, ExtractSkills(vocabulary, "I have 3 years of SQL experience"))
        == Matches([Match(row, {"sql"}, {"excel"})])
  {
    var row := Row(0, Job("Data Analyst", "Requires SQL and Excel"), score);
    var vocabulary := ["sql", "excel"];
    DataAnalystJobSkills(vocabulary, row.job.description);
    DataAnalystResumeSkills(vocabulary, "I have 3 years of SQL experience");
    var userSkills := ExtractSkills(vocabulary, "I have 3 years of SQL experience");
    SqlAndExcelGap(JobSkills(vocabulary, row), userSkills);
    OneRowAnalysis(vocabulary, userSkills, row);
  }

  lemma SqlAndExcelGap(jobSkills: set<string>, userSkills: set<string>)
    requires jobSkills == {"sql", "excel"} && userSkills == {"sql"}
    ensures SkillGap(jobSkills, userSkills) == Gap({"sql"}, {"excel"})
    ensures |jobSkills * userSkills| == 1
  {
    assert "sql" != "excel";
    assert jobSkills * userSkills == {"sql"};
  }

  /** A table of one row that passes the gate shows that row. */
  lemma OneRowAnalysis(vocabulary: seq<string>, userSkills: set<string>, row: Row)
    requires Passes(vocabulary, userSkills, row)
    ensures Analysis([row], vocabulary, userSkills) == Matches([Shown(vocabulary, userSkills, row)])
  {
    assert SortByScore([row]) == [row];
    assert Gate(vocabulary, userSkills, [row]) == [Shown(vocabulary, userSkills, row)];
  }

  lemma DataAnalystJobSkills(vocabulary: seq<string>, description: string)
    requires vocabulary == ["sql", "excel"] && description == "Requires SQL and Excel"
    ensures ExtractSkills(vocabulary, description) == {"sql", "excel"}
  {
    var job := Lower(description);
    LowerDescription(description);
    assert OccursAt("sql", job, 9) && OccursAt("excel", job, 17);
    var found := ExtractSkills(vocabulary, description);
    assert "sql" in found && "excel" in found;
    assert forall t | t in found :: t in vocabulary;
  }

  lemma LowerDescription(description: string)
    requires description == "Requires SQL and Excel"
    ensures Lower(description) == "requires sql and excel"
  {
  }

  lemma DataAnalystResumeSkills(vocabulary: seq<string>, text: string)
    requires vocabulary == ["sql", "excel"] && text == "I have 3 years of SQL experience"
    ensures ExtractSkills(vocabulary, text) == {"sql"}
  {
    var resume := Lower(text);
    LowerResume(text);
    assert OccursAt("sql", resume, 18);
    NoExcelInResume(resume);
    var found := ExtractSkills(vocabulary, text);
    assert "sql" in found && "excel" !in found;
    assert forall t | t in found :: t in vocabulary;
  }

  lemma LowerResume(text: string)
    requires text == "I have 3 years of SQL experience"
    ensures Lower(text) == "i have 3 years of sql experience"
  {
  }

  lemma NoExcelInResume(resume: string)
    requires resume == "i have 3 years of sql experience"
    ensures !IsSubstring("excel", resume)
  {
    forall i | 0 <= i && i + 5 <= |resume| ensures !OccursAt("excel", resume, i) {
      assert resume[i + 1] != 'x' || resume[i + 2] != 'c' by {
        assert forall k | 0 <= k < |resume| && k != 23 :: resume[k] != 'x';
        assert resume[24] == 'p';
      }
      assert resume[i..i + 5][1] == resume[i + 1] && resume[i..i + 5][2] == resume[i + 2];
    }
  }

  /** Each job with its score and its position. */
  function Label(jobs: seq<Job>, scores: seq<int>): (rows: seq<Row>)
    requires |scores| == |jobs|
    ensures |rows| == |jobs|
    ensures forall i | 0 <= i < |rows| :: rows[i] == Row(i, jobs[i], scores[i])
  {
    seq(|jobs|, i requires 0 <= i < |jobs| => Row(i, jobs[i], scores[i]))
  }

  /** The ranking holds every job of the table exactly once, with its own
      score. */
  lemma RankingHoldsEveryJobOnce(jobs: seq<Job>, scores: seq<int>)
    requires |scores| == |jobs|
    ensures var sorted := SortByScore(Label(jobs, scores));
      && |sorted| == |jobs|
      && (forall i | 0 <= i < |jobs| :: Row(i, jobs[i], scores[i]) in sorted)
      && (forall k | 0 <= k < |sorted| ::
            sorted[k].index < |jobs| && sorted[k] == Row(sorted[k].index, jobs[sorted[k].index], scores[sorted[k].index]))
      && (forall k, l | 0 <= k < l < |sorted| :: sorted[k].index != sorted[l].index)
  {
    var rows := Label(jobs, scores);
    var sorted := SortByScore(rows);
    assert |sorted| == |multiset(sorted)| == |multiset(rows)| == |rows|;
    EveryRowRanked(rows, sorted);
    OnlyRowsRanked(rows, sorted);
    RankedOnce(rows, sorted);
  }

  /** Every row of the table is in a permutation of it. */
  lemma EveryRowRanked(rows: seq<Row>, sorted: seq<Row>)
    requires multiset(sorted) == multiset(rows)
    ensures forall i | 0 <= i < |rows| :: rows[i] in sorted
  {
    forall i | 0 <= i < |rows| ensures rows[i] in sorted {
      assert rows[i] in multiset(rows);
    }
  }

  /** Every row of a permutation of a labelled table is the table's row at
      its own index. */
  lemma OnlyRowsRanked(rows: seq<Row>, sorted: seq<Row>)
    requires forall k | 0 <= k < |rows| :: rows[k].index == k
    requires multiset(sorted) == multiset(rows)
    ensures forall k | 0 <= k < |sorted| :: sorted[k].index < |rows| && sorted[k] == rows[sorted[k].index]
  {
    forall k | 0 <= k < |sorted| ensures sorted[k].index < |rows| && sorted[k] == rows[sorted[k].index] {
      assert sorted[k] in multiset(rows);
    }
  }

  /** No index appears twice in a permutation of a labelled table. */
  lemma RankedOnce(rows: seq<Row>, sorted: seq<Row>)
    requires forall k | 0 <= k < |rows| :: rows[k].index == k
    requires multiset(sorted) == multiset(rows)
    ensures forall k, l | 0 <= k < l < |sorted| :: sorted[k].index != sorted[l].index
  {
    OnlyRowsRanked(rows, sorted);
    forall k, l | 0 <= k < l < |sorted| ensures sorted[k].index != sorted[l].index {
      if sorted[k].index == sorted[l].index {
        TwiceCounted(sorted, k, l);
        OnceCounted(rows, sorted[k].index);
      }
    }
  }

  /** An element found at two positions is counted at least twice. */
  lemma TwiceCounted(s: seq<Row>, k: nat, l: nat)
    requires k < l < |s| && s[k] == s[l]
    ensures multiset(s)[s[k]] >= 2
  {
    assert s == s[..k] + [s[k]] + s[k + 1..l] + [s[l]] + s[l + 1..];
  }

  /** Each labelled row occurs once in the table. */
  lemma {:induction false} OnceCounted(rows: seq<Row>, i: nat)
    requires forall k | 0 <= k < |rows| :: rows[k].index == k
    requires i < |rows|
    ensures multiset(rows)[rows[i]] == 1
  {
    var last := |rows| - 1;
    var init := rows[..last];
    assert rows == init + [rows[last]];
    if i < last {
      OnceCounted(init, i);
      assert rows[last] != rows[i];
    } else {
      assert rows[i] !in init by {
        forall k | 0 <= k < |init| ensures init[k] != rows[i] {
          assert init[k].index == k;
        }
      }
    }
  }

  /** The rows pandas adds when a column is assigned to a table with no
      rows: every other column is missing (NaN), which `str()` and the
      page show as "nan". */
  function MissingJobs(n: nat): (jobs: seq<Job>)
    ensures |jobs| == n
    ensures forall i | 0 <= i < n :: jobs[i] == Job("nan", "nan")
  {
    seq(n, i => Job("nan", "nan"))
  }

  /** A table that grew from no rows shows no job, as long as no
      vocabulary term occurs in "nan": every job's skills are empty. */
  lemma GrownTableShowsNothing(scores: seq<int>, vocabulary: seq<string>, userSkills: set<string>)
    requires forall t | t in vocabulary :: !IsSubstring(t, "nan")
    ensures Analysis(Label(MissingJobs(|scores|), scores), vocabulary, userSkills) == NoMatches
  {
    var rows := Label(MissingJobs(|scores|), scores);
    var top := Top(SortByScore(rows));
    NanIsLowerCase();
    forall k | 0 <= k < |top| ensures !Passes(vocabulary, userSkills, top[k]) {
      assert top[k] in multiset(rows);
      assert JobSkills(vocabulary, top[k]) == {};
    }
    AnalysisGate(rows, vocabulary, userSkills);
  }

  lemma NanIsLowerCase()
    ensures Lower("nan") == "nan"
  {
  }

  /** The job table as loaded, with the `match_percentage` column that
      every analysis overwrites in place. */
  class JobTable {
    var jobs: seq<Job>
    var matchPercentage: seq<int>

    constructor (jobs: seq<Job>)
      ensures this.jobs == jobs && matchPercentage == []
    {
      this.jobs := jobs;
      matchPercentage := [];
    }

    predicate Scored()
      reads this
    {
      |matchPercentage| == |jobs|
    }

    /** The rows of the scored table, labelled by their position. */
    function Rows(): (rows: seq<Row>)
      reads this
      requires Scored()
      ensures |rows| == |jobs|
      ensures forall i | 0 <= i < |rows| :: rows[i] == Row(i, jobs[i], matchPercentage[i])
    {
      Label(jobs, matchPercentage)
    }

    /** `df["match_percentage"] = scores`. A table with no rows grows to
        one row per score, every other column missing; otherwise pandas
        refuses (raises) a column whose length differs from the table's,
        and then nothing changes. */
    method SetMatchPercentage(scores: seq<int>) returns (ok: bool)
      modifies this
      ensures ok <==> |scores| == |old(jobs)| || old(jobs) == []
      ensures ok ==> jobs == (if old(jobs) == [] then MissingJobs(|scores|) else old(jobs))
      ensures ok ==> matchPercentage == scores && Scored()
      ensures !ok ==> unchanged(this)
    {
      if jobs == [] {
        jobs := MissingJobs(|scores|);
      } else if |scores| != |jobs| {
        return false;
      }
      matchPercentage := scores;
      ok := true;
    }
  }

  /** The "Analyze" button: a blank resume only warns; otherwise the
      scores are written into the table, the table is ranked and the five
      best rows go through the gate. `scores` are the resume's match
      percentages against the job embeddings, in table order; there may
      be none (an empty embedding file), or not one per job. */
  method AnalyzeResume(table: JobTable, vocabulary: seq<string>, resumeText: string, scores: seq<int>)
    returns (outcome: Outcome)
    modifies table
    ensures outcome == EmptyResume <==> AllSpace(resumeText)
    ensures outcome == EmptyJobTable <==> !AllSpace(resumeText) && scores == []
    ensures outcome == ScoreCountMismatch <==>
      !AllSpace(resumeText) && scores != [] && old(table.jobs) != [] && |scores| != |old(table.jobs)|
    ensures outcome.EmptyResume? || outcome.EmptyJobTable? || outcome.ScoreCountMismatch? ==> unchanged(table)
    ensures outcome.NoMatches? || outcome.Matches? ==>
      && table.jobs == (if old(table.jobs) == [] then MissingJobs(|scores|) else old(table.jobs))
      && table.matchPercentage == scores
      && table.Scored()
      && outcome == Analysis(table.Rows(), vocabulary, ExtractSkills(vocabulary, resumeText))
  {
    if Strip(resumeText) == [] {
      return EmptyResume;
    }
    if scores == [] {
      return EmptyJobTable;
    }
    var ok := table.SetMatchPercentage(scores);
    if !ok {
      return ScoreCountMismatch;
    }
    var userSkills := ExtractSkills(vocabulary, resumeText);
    var sorted := SortByScore(table.Rows());
    var shown, resultsFound := ShowMatches(sorted, vocabulary, userSkills);
    if !resultsFound {
      outcome := NoMatches;
    } else {
      outcome := Matches(shown);
    }
  }
}
