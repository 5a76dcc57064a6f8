# Resume matcher and project assistant — a Dafny model

This project models the decision logic of a single-page resume matcher, `app.py`.

**Start-up.** The application loads two text resources:
- a skill vocabulary, with one term per line;
- a knowledge base, with paragraphs separated by a blank line.

**Resume analysis.** The user pastes a resume and the matcher does the following:
1. It scores every job in a table by semantic similarity and writes the scores into the table's `match_percentage` column.
2. It finds the vocabulary skills the resume mentions.
3. It sorts the jobs by score and keeps the top five.
4. It shows only the jobs that meet a 35 % threshold and share at least one skill with the resume.
5. For each job shown, it lists the matched skills and the missing skills.

**Project assistant.** The user asks a question and gets back the knowledge-base paragraph most similar to it.

The model is split into five modules:

- `TextOps` (`text_ops.dfy`) covers the Python string operations the application relies on:
  - `str.strip` with Python's whitespace set;
  - lower-casing;
  - the substring test `in`, under which the empty string occurs in every string;
  - `str.split` with a separator, which splits at the leftmost occurrence first;
  - iterating over a text file line by line, where each line keeps its `'\n'`.
- `Resources` (`resources.dfy`) parses the two text resources.
- `Skills` (`skills.dfy`) covers skill extraction by substring search and the matched/missing split.
- `Ranking` (`ranking.dfy`) covers the analysis of a resume:
  - the job table is a class whose score column is overwritten in place;
  - the ranking and top-five cut;
  - the skill gate;
  - the loop that decides between showing matches and warning that there are none;
  - the whole "Analyze" handler, `AnalyzeResume`.
- `Assistant` (`assistant.dfy`) covers the answer to a question: the first paragraph with the highest similarity.

## How the model represents things

**Similarity scores.** The sentence encoder and cosine similarity are outside the model. Their results enter as integer scores, in table order.
- Job scores: `(sims * 100).round(2)` at app.py:131 is a percentage with two decimals, so the model takes it as an integer number of hundredths of a percent. The 35.0 % threshold is `MinThreshold == 3500`.
- Paragraph scores: the assistant uses the raw cosine similarities at app.py:183, neither scaled nor rounded. The model takes any integers with the same order, since only their maximum matters.

**Sort order.** The ranking uses a stable descending sort. Jobs with equal scores keep their table order. pandas' default sort does not promise any order among equal scores; see "Left out".

**Error paths of the resume analysis.** The model turns each exception the handler can raise into an outcome:
- `EmptyJobTable`: the job embeddings have no rows, and `cosine_similarity` raises (app.py:130).
- `ScoreCountMismatch`: the table has rows, the embeddings do not give one score per row, and the column assignment at app.py:131 raises. `JobTable.SetMatchPercentage` reports that refusal and leaves the table unchanged.
- No error when the table has no rows: if `jobs_processed.csv` holds only its header, the assignment at app.py:131 does not raise. pandas grows the table to one row per score and leaves every other column missing (NaN), which `str()` at app.py:140 and the title at app.py:146 read as "nan". `SetMatchPercentage` does the same, and the grown rows stay in the shared table for later analyses.
- `EmptyKnowledgeBase` is the assistant's counterpart: app.py:33-34 accept an empty knowledge base at start-up, and app.py:183 then raises when a non-blank question is asked.

**The shared table.** app.py:131 overwrites the cached table's `match_percentage` column on every analysis. The model keeps that as a method that updates a `JobTable` object in place.

## Model

| member | source | states |
|---|---|---|
| TextOps.Strip | app.py:29 | the result has no Python whitespace at either end; it is empty exactly when the input is all whitespace |
| TextOps.StripCuts | app.py:29 | stripping removes only a whitespace prefix and a whitespace suffix; what is left is a contiguous slice of the input |
| TextOps.StripOfUnique | app.py:33 | only one result fits that description, so any function with it is `strip` |
| TextOps.Lower | app.py:132 | the result has the input's length and contains no upper-case letter |
| TextOps.LowerKeepsStripped | app.py:29 | lower-casing a stripped line leaves it stripped |
| TextOps.LowerOfLowerCase | app.py:140 | lower-casing is idempotent on text without capitals |
| TextOps.Contains | app.py:132 | the `in` test is true exactly when the term occurs at some position of the text |
| TextOps.Split | app.py:33 | the pieces joined with the separator give back the text; each piece except the last ends at the first separator after its start; the last piece holds no separator |
| TextOps.Lines | app.py:28-29 | a file yields no lines exactly when it is empty |
| TextOps.LinesCut | app.py:29 | the lines concatenate to the content; none is empty; each one except the last ends in a newline, and no line holds a newline anywhere else |
| TextOps.LinesAppend | app.py:28-29 | the lines of two blocks of whole lines are the lines of the first block followed by the lines of the second |
| Resources.StripNonBlank | app.py:33 | the pieces kept are no more than the input pieces; each is non-empty and stripped |
| Resources.StripNonBlankAppend | app.py:33 | pieces are kept in input order: keeping the pieces of a concatenation is keeping those of each part, one after the other |
| Resources.StripNonBlankMembers | app.py:33 | a string is kept exactly when it is the non-empty stripped form of some piece |
| Resources.ParseSkills | app.py:29 | every vocabulary term is non-empty, stripped and lower-case |
| Resources.ParseSkillsMembers | app.py:29 | a term is in the vocabulary exactly when some non-blank line of the file, stripped and lower-cased, reads that term |
| Resources.ParseSkillsInFileOrder | app.py:28-29 | the vocabulary keeps file order: the terms of two blocks of whole lines are those of the first block, then those of the second |
| Resources.ParseParagraphs | app.py:32-33 | every paragraph is non-empty, stripped and holds no blank line `"\n\n"` |
| Resources.ParseParagraphsMembers | app.py:33 | the paragraphs are exactly the non-blank pieces between blank lines, stripped |
| Skills.ExtractSkills | app.py:132 | a term is found exactly when it is in the vocabulary and occurs in the lower-cased text |
| Skills.ExtractedFromVocabulary | app.py:140 | the found skills are a subset of the vocabulary |
| Skills.ExtractFromEmptyText | app.py:132 | empty text yields no skill when no vocabulary term is empty |
| Skills.ExtractIgnoresCase | app.py:132 | the text's letter case does not change the skills found |
| Skills.JavaFoundInJavaScript | app.py:140 | matching is by substring: "java" is found in "JavaScript" |
| Skills.KnowPythonAndSql | app.py:132 | "I know Python and SQL" shows "python" and "sql" but not "java" |
| Skills.SkillGap | app.py:141-147 | matched and missing are disjoint; together they are the job's skills; matched lies within the user's skills and missing lies outside them |
| Skills.SkillGapUnique | app.py:147 | those four facts determine the split |
| Ranking.Insert | app.py:138 | inserting into a list sorted by score keeps it sorted and adds exactly that row |
| Ranking.SortByScore | app.py:138 | the result is in non-increasing score order and is a permutation of the rows |
| Ranking.Top | app.py:139 | `head(5)`: the first five rows of the ranking, or all of them when there are fewer than five |
| Ranking.JobSkills | app.py:140 | a term is one of the job's skills exactly when it is in the vocabulary and occurs in the lower-cased job description |
| Ranking.Passes | app.py:144 | a row passes the gate exactly when it scores at least 35 % and its list of matched skills would not be empty |
| Ranking.PassesSharedSkill | app.py:132-144 | a row passes exactly when it scores at least 35 % and some skill of the resume is a vocabulary term the job description mentions |
| Ranking.Gate | app.py:139-147 | the page has no more entries than there are rows; `GateSound`, `GateEmpty`, `GateKeepsOrder` and `GateAppend` state which entries |
| Ranking.GateAppend | app.py:139-145 | the rows shown from a concatenation are those shown from each part, in order |
| Ranking.GateSound | app.py:139-147 | every entry shown is for one of the rows, which passes the gate, and its matched and missing sets are exactly that job's skill gap (`SkillGap`): matched non-empty and held by the resume, missing not held by it, together the job's skills |
| Ranking.GateEmpty | app.py:144-145 | nothing is shown exactly when no row meets both the threshold and the shared-skill condition |
| Ranking.GateKeepsOrder | app.py:138-146 | on a ranking sorted by score, the scores shown never increase down the page (`GateAppend` fixes the exact order, row by row) |
| Ranking.ShowMatches | app.py:135-145 | the loop shows the top-five rows that pass the gate; `results_found` is set exactly when one of the first five rows passes, which is exactly when something is shown |
| Ranking.Verdict | app.py:156-157 | the page is never an error; it is the no-match warning exactly when nothing is shown, and otherwise shows exactly the entries the gate produced |
| Ranking.Analysis | app.py:135-157 | the analysis of a scored table is never an error, and when it shows jobs it shows between one and five of them |
| Ranking.VerdictOfGate | app.py:156-157 | after the gate, the warning is given exactly when no row of the top five passes; otherwise every entry shown is a passing top-five row with its exact skill gap |
| Ranking.AnalysisGate | app.py:135-157 | the analysis warns "no matching jobs" exactly when no top-five row passes the gate; otherwise it shows between one and five entries, each for a top-five row that passes the gate, with that job's exact skill gap |
| Ranking.RankingHoldsEveryJobOnce | app.py:131-138 | the ranked table has one row per job, with the job's own score and index, and no index twice |
| Ranking.DataAnalystExample | app.py:140-147 | for the single job "Data Analyst" scoring at least 35 %, "I have 3 years of SQL experience" matches "sql" and misses "excel" |
| Ranking.OneRowAnalysis | app.py:139-146 | a one-job table that passes the gate is shown with its skill gap |
| Ranking.JobTable.constructor | app.py:24 | a freshly loaded table has the given jobs and no scores yet |
| Ranking.JobTable.SetMatchPercentage | app.py:131 | with one score per row, the score column is replaced and the jobs stay; a table with no rows grows to one "nan" job per score; any other count is refused and nothing changes |
| Ranking.AnalyzeResume | app.py:126-159 | a blank resume only warns; no job embeddings, or a score count that differs from the number of rows of a non-empty table, are error outcomes; each of these leaves the table unchanged; otherwise the table holds the new scores (grown by "nan" jobs if it had no rows) and the outcome is the gated top-five analysis of the resume's skills |
| Ranking.GrownTableShowsNothing | app.py:131-157 | a table grown from no rows shows the no-match warning whenever no vocabulary term occurs in "nan" |
| Assistant.ArgMax | app.py:184 | the result is a position of the largest score and is strictly above every earlier score, so it is the first maximum |
| Assistant.ArgMaxUnique | app.py:184 | those properties determine the position |
| Assistant.Ask | app.py:179-186 | a blank question only warns; an empty knowledge base fails; otherwise the answer is the paragraph at the first position of highest similarity |
| Assistant.FirstParagraphWins | app.py:182-184 | of two paragraphs, the more similar first one is the answer |

## Left out

- The Streamlit interface is not modelled: the page layout, themes, navigation, the session state and the HTML of the skill chips.
- The sentence encoder and cosine similarity are not modelled. Their results enter the model as integer scores.
- Floating-point similarity values are not modelled. A job score rounded to two decimals is taken as an exact integer number of hundredths of a percent, and ties and the threshold are compared on those integers. The assistant's unrounded cosine values are taken as integers in the same order.
- Reading `jobs_processed.csv`, `job_embeddings.npy`, `skills.txt` and `knowledge_base.txt` is not modelled, and neither is the start-up cache. The model starts from the files' contents.
- Python's universal-newline translation on reading is not modelled. The contents are taken after `"\r\n"` and `"\r"` have become `"\n"`.
- TextOps.Lower: lower-cases ASCII letters only. Python's `str.lower` also maps non-ASCII capitals, so the model finds fewer skills in text whose skills are spelled with non-ASCII capitals.
- `str()` of a missing description in a loaded row is not modelled: the model takes every loaded description as a string. Only the rows pandas adds to an empty table are given the description "nan".
- Ranking.SortByScore: fixes the order of equal scores to table order. pandas' default sort promises no order among ties, so the model is one admissible behaviour of the source.
- The exceptions are not modelled as exceptions: `cosine_similarity` on no job embeddings, the column assignment with the wrong number of scores, and `cosine_similarity` on an empty knowledge base become the outcomes `EmptyJobTable`, `ScoreCountMismatch` and `EmptyKnowledgeBase`. Where the source would stop with a traceback, the model returns one of these.
- Ranking.Gate: its own contract only bounds the number of entries. Which entries it shows, in what order, is stated by `GateSound`, `GateEmpty`, `GateKeepsOrder` and `GateAppend`, so that unfolding the gate stays cheap for the verifier.
- The expander title at app.py:146 (job title and match percentage) and the order of the skill chips within a set are not modelled. Sets are unordered in the model.
- Ranking.AnalyzeResume: covers one analysis running alone. The table is cached and shared by every Streamlit session, and each session's script runs in its own thread, so another session can overwrite `match_percentage` between app.py:131 and app.py:138. The model does not capture that interleaving.
