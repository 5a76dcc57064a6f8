/** Keyword skill extraction and the skill gap between a job and a resume.
    A skill is found by plain substring search in the lower-cased text, with
    no regard for word boundaries. */
module Skills {
  import opened TextOps

  /** The vocabulary terms that occur in the lower-cased text. */
  function ExtractSkills(vocabulary: seq<string>, text: string): (found: set<string>)
    ensures forall t :: t in found <==> t in vocabulary && IsSubstring(t, Lower(text))
  {
    var lowered := Lower(text);
    set t | t in vocabulary && Contains(lowered, t)
  }

  /** Nothing outside the vocabulary is ever reported. */
  lemma ExtractedFromVocabulary(vocabulary: seq<string>, text: string)
    ensures ExtractSkills(vocabulary, text) <= set t | t in vocabulary
  {
  }

  /** Empty text holds no skill, as long as no vocabulary term is empty
      (the empty string occurs in every text). */
  lemma ExtractFromEmptyText(vocabulary: seq<string>)
    requires forall k | 0 <= k < |vocabulary| :: vocabulary[k] != []
    ensures ExtractSkills(vocabulary, []) == {}
  {
    forall t | t in vocabulary ensures !IsSubstring(t, Lower([])) {
      assert t != [];
    }
  }

  /** Matching ignores the case of the text. */
  lemma ExtractIgnoresCase(vocabulary: seq<string>, text: string)
    ensures ExtractSkills(vocabulary, Lower(text)) == ExtractSkills(vocabulary, text)
  {
    LowerOfLowerCase(Lower(text));
  }

  /** Matching is by substring, not by word: "java" is found in
      "JavaScript". */
  lemma JavaFoundInJavaScript()
    ensures "java" in ExtractSkills(["java"], "JavaScript")
  {
    assert Lower("JavaScript")[0..4] == "java";
    assert OccursAt("java", Lower("JavaScript"), 0);
  }

  /** The skills a job asks for, split by whether the resume shows them. */
  datatype Gap = Gap(matched: set<string>, missing: set<string>)

  /** `matched = job_skills & user_skills`, `missing = job_skills - user_skills`. */
  function SkillGap(jobSkills: set<string>, userSkills: set<string>): (gap: Gap)
    ensures gap.matched !! gap.missing
    ensures gap.matched + gap.missing == jobSkills
    ensures gap.matched <= userSkills && gap.missing !! userSkills
  {
    Gap(jobSkills * userSkills, jobSkills - userSkills)
  }

  /** The four facts `SkillGap` promises leave no choice: any split of the
      job's skills that satisfies them is `SkillGap`'s. */
  lemma SkillGapUnique(jobSkills: set<string>, userSkills: set<string>, gap: Gap)
    requires gap.matched !! gap.missing
    requires gap.matched + gap.missing == jobSkills
    requires gap.matched <= userSkills && gap.missing !! userSkills
    ensures gap == SkillGap(jobSkills, userSkills)
  {
    assert gap.matched == jobSkills * userSkills;
    assert gap.missing == jobSkills - userSkills;
  }

  /** Example: "I know Python and SQL" shows "python" and "sql"
      but not "java". */
  lemma KnowPythonAndSql()
    ensures ExtractSkills(["python", "sql", "java"], "I know Python and SQL") == {"python", "sql"}
  {
    PythonAndSqlFound(["python", "sql", "java"], "I know Python and SQL");
  }

  lemma PythonAndSqlFound(vocabulary: seq<string>, text: string)
    requires vocabulary == ["python", "sql", "java"] && text == "I know Python and SQL"
    ensures ExtractSkills(vocabulary, text) == {"python", "sql"}
  {
    var lowered := Lower(text);
    LowerPythonAndSql(text);
    assert OccursAt("python", lowered, 7);
    assert OccursAt("sql", lowered, 18);
    NoJava(lowered);
    var found := ExtractSkills(vocabulary, text);
    assert "python" in found && "sql" in found && "java" !in found;
    assert forall t | t in found :: t in vocabulary;
  }

  lemma NoJava(lowered: string)
    requires lowered == "i know python and sql"
    ensures !IsSubstring("java", lowered)
  {
    assert forall i | 0 <= i < |lowered| :: lowered[i] != 'j';
    assert forall i :: OccursAt("java", lowered, i) ==> lowered[i..i + 4][0] == 'j';
  }

  lemma LowerPythonAndSql(text: string)
    requires text == "I know Python and SQL"
    ensures Lower(text) == "i know python and sql"
  {
  }
}
