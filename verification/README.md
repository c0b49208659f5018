# Resume analyzer: a Dafny model of its matching core

The analyzer reads a resume and builds a summary: the candidate's name, their
contact strings, and the lines under the Education, Skills and Experience
headings. It then scores the summary's skills against a list of required
skills, as the percentage of distinct required skills present with case
ignored. It also lists the required skills the candidate lacks and names the
best-fitting job profile of a fixed catalog. A recruiter can also enter a
comma-separated job description and get all uploaded resumes ranked by score.

This project models that logic in Dafny and proves what it guarantees.

- `text.dfy` (`Text`): the Python string operations the code relies on.
  - `lower`, `capitalize` and `strip`.
  - Substring search (`in`).
  - `split` on one character and `splitlines`.
- `sections.dfy` (`Sections`): `extract_info_with_ner`.
  - The name is the first person entity.
  - The contact strings.
  - The line loop that sorts lines into sections. It is modelled branch by
    branch and proved equal to a loop-free reference definition.
- `matcher.dfy` (`Matcher`): the three matching functions and the job-profile
  catalog.
- `recruiter.dfy` (`Recruiter`): the recruiter workflow.
  - Parsing the job description.
  - Scoring every resume.
  - The stable sort by descending score.
- `selfcheck.dfy` (`SelfCheck`): the candidate workflow. It looks up the
  chosen profile, scores and lists missing skills, and names the best profile.
- `scenarios.dfy` (`Scenarios`): a few concrete inputs worked out in the model.
- `wrappers.dfy` (`Wrappers`): the `Option` type.

Scores are exact reals: `overlap / |required| * 100`.

Case mapping, whitespace and line boundaries are those of ASCII.
- Whitespace is space, 9-13 and 28-31.
- Line boundaries are 10-13 and 28-30, with "\r\n" read as one boundary.

The branch at app.py:54-55 looks meant to close the open section when a
keyword line is seen. The three branches before it (app.py:48-53) already
catch every line that mentions a keyword, so it never fires, and once a
section is open it stays open. The model keeps the branch as written in
`Sections.Step` and proves it dead (`Sections.StepNeverCloses`).

## Model

| member | source | states |
|---|---|---|
| Text.Lower | app.py:87-88 | `lower` maps each ASCII upper-case letter to its lower-case letter and keeps every other character; `Text.LowerIdempotent` and `Text.LowerAppend` state its laws |
| Text.LowerIdempotent | app.py:87-88 | lower-casing twice is lower-casing once |
| Text.LowerAppend | app.py:87-88 | lower-casing works character by character, so it distributes over concatenation |
| Text.Capitalize | app.py:95 | `capitalize` keeps the length, leaves no lower-case letter in front, leaves the rest lower-cased, and agrees with the input once lower-cased; together these fix the result |
| Text.CapitalizeInjective | app.py:95 | distinct lower-case skills stay distinct once capitalised |
| Text.Strip | app.py:46 | `strip` as leading then trailing whitespace removal; `Text.StripSpec` states what it returns |
| Text.StripSpec | app.py:46 | `strip` removes whitespace, and only whitespace, from the two ends, and leaves no whitespace end |
| Text.StripTrimmed | app.py:46 | a string without whitespace ends is left unchanged by `strip` |
| Text.StripIdempotent | app.py:46 | stripping twice is stripping once |
| Text.StripKeepsOut | app.py:139 | `strip` introduces no character, so a stripped comma-free piece stays comma-free |
| Text.Contains | app.py:48-54 | `sub in s` holds exactly when some window of `s` equals `sub` |
| Text.Split | app.py:139 | `split(',')` gives at least one piece, no piece holds a comma, and joining the pieces with commas gives the text back |
| Text.SplitJoin | app.py:139 | splitting the comma-join of comma-free pieces gives those pieces back |
| Text.SplitLines | app.py:43 | `splitlines` yields lines that hold no line boundary |
| Text.SplitLinesLast | app.py:43 | a last line with no boundary after it is still a line |
| Text.SplitLinesAt | app.py:43 | every ASCII boundary character ends a line, except a carriage return directly followed by a line feed |
| Text.SplitLinesCrLf | app.py:43 | "\r\n" ends a line as one boundary, not two |
| Text.SplitLinesTerminated | app.py:43 | `splitlines` recovers the lines of a text written one line after another |
| Sections.FirstPerson | app.py:30-34 | the name is the word of the first person entity, or empty when there is none |
| Sections.HeaderOf | app.py:48-53 | the section a stripped line opens, tested on its lower-cased form in the order Education, Skills, Experience; `Sections.HeaderPriority` states its meaning |
| Sections.Step | app.py:46-57 | one iteration of the loop over lines, branch for branch, the dead close-section branch included; `Sections.StepMatchesReference` and `Sections.StepNeverCloses` state its effect |
| Sections.HeaderPriority | app.py:48-53 | a line opens a section exactly when it mentions a keyword, with Education before Skills before Experience |
| Sections.StepOnHeader | app.py:48-53 | a keyword line moves the cursor to its section and is not kept |
| Sections.StepNeverCloses | app.py:54-55 | the close-section branch never fires: an open section stays open on any line |
| Sections.StepMatchesReference | app.py:45-57 | one loop iteration extends the loop-free reference by that line |
| Sections.ExtractInfo | app.py:26-58 | the summary holds the first person's name, the e-mails then the phones, and per section exactly the stripped non-blank non-keyword lines whose nearest preceding keyword line names that section, in input order |
| Sections.ExpectedLinesClean | app.py:45-57 | every kept line is stripped, non-blank, and mentions no keyword |
| Sections.LastHeaderSticky | app.py:48-55 | after a keyword line, some section stays open whatever follows |
| Sections.PreambleDropped | app.py:44-57 | lines before the first keyword line are dropped and change nothing else |
| Matcher.LowerSet | app.py:87-88 | `set(s.lower() for s in skills)`; `Matcher.ScoreCaseInsensitive` states what it forgets |
| Matcher.Overlap | app.py:89 | the number of shared distinct skills never exceeds the number of distinct required skills |
| Matcher.MatchingScore | app.py:86-89 | the score lies in [0, 100], is 0 when nothing is required, and otherwise is 100 times the overlap over the distinct required count |
| Matcher.ScoreFullIff | app.py:86-89 | the score is 100 exactly when something is required and every required skill is present, case ignored |
| Matcher.ScoreCaseInsensitive | app.py:87-88 | lists naming the same skills, ignoring case, order and repetition, give the same score and the same missing skills |
| Matcher.ScoreMonotone | app.py:87-89 | extra resume skills never lower the score |
| Matcher.ScoreIgnoresIrrelevant | app.py:87-89 | extra resume skills outside the required ones leave the score unchanged |
| Matcher.MissingSkills | app.py:92-95 | the missing list has no duplicates, its lower-cased set is the required set minus the resume set, and each entry is capitalised |
| Matcher.OverlapPlusMissing | app.py:89 | overlap plus the number of missing skills is the number of distinct required skills |
| Matcher.FullScoreIffNothingMissing | app.py:89 | the score is 100 exactly when something is required and nothing is missing |
| Matcher.Percent | app.py:89 | `o / n * 100` lies in [0, 100] and is `o` out of `n` as a percentage |
| Matcher.Scan | app.py:99-103 | the profile loop: a profile replaces the best so far only with a strictly higher score; `Matcher.ScanMax` and `Matcher.ScanFirst` state what it returns |
| Matcher.BestMatchingProfile | app.py:98-103 | the loop started from no title and score 0 over the catalog's profiles and scores; `Matcher.BestMatchingProfileSpec` states what it returns |
| Matcher.ScanMax | app.py:100-102 | the profile loop ends with a score at least the starting one and every profile's score, and keeps the start when none beats it |
| Matcher.ScanFirst | app.py:100-102 | the profile loop only takes a strictly higher score, so a new best carries the title of the first profile reaching it |
| Matcher.BestMatchingProfileSpec | app.py:98-103 | the best match has the top score, no title exactly when every score is 0, and otherwise the earliest profile with the top score |
| Recruiter.StripAll | app.py:139 | every piece is stripped, order and count kept |
| Recruiter.ParseJobDescription | app.py:139 | the comma pieces of the description, each stripped; `Recruiter.ParseJobDescriptionSpec` states what it returns |
| Recruiter.ParseJobDescriptionSpec | app.py:139 | the skills are the comma pieces of the description, in order, each stripped, none holding a comma |
| Recruiter.WithScoreAppend | app.py:147 | the results with one score, taken from a concatenation, are those of each part, in order |
| Recruiter.Insert | app.py:147 | inserting into a sorted ranking keeps it sorted, adds exactly that result, and keeps equal scores in arrival order |
| Recruiter.RankByScore | app.py:147 | the ranking is a permutation of the results, sorted by non-increasing score, with equal scores kept in input order |
| Recruiter.SortedFront | app.py:147 | a result scoring at least the head of a sorted ranking may go in front of it |
| Recruiter.PermutationInRange | app.py:147 | reordering the rows keeps every score in [0, 100] |
| Recruiter.Evaluate | app.py:144-146 | one ranking row: the summary's name, its unstripped skills scored against the parsed skills, and the skills it lacks |
| Recruiter.EvaluateAll | app.py:141-146 | the rows of all resumes, in upload order; `Recruiter.RankCandidates` states what the ranking holds |
| Recruiter.RankCandidates | app.py:134-147 | no ranking without a resume and a non-empty description; otherwise a stable descending permutation of the rows, each score in [0, 100] |
| SelfCheck.RequiredFor | app.py:121 | the skills of the first profile titled `job`, or none when no profile has that title |
| SelfCheck.Assess | app.py:118-131 | the shown score lies in [0, 100], and an unknown title gives score 0 with nothing missing |
| SelfCheck.AssessSeesSkillLines | app.py:118 | the second strip of the summary's skill lines changes nothing, so the assessment uses exactly those lines |
| Scenarios.CaseExample | app.py:86-95 | "Python" fully meets "python": score 100, nothing missing |
| Scenarios.MissingExample | app.py:86-95 | "Java" against "sql": score 0, missing "Sql" |
| Scenarios.JobDescriptionExample | app.py:139 | "Python, SQL" parses to "Python" and "SQL" |

The catalog `Matcher.Catalog` holds the four profiles of app.py:77-83, in
declaration order and with the same titles and skills.

## Left out

- The Streamlit interface (app.py:60-74, 105-151): widgets, markdown output and the select boxes. The chosen job title and the upload list are parameters.
- Text extraction from PDF and DOCX (app.py:14-20): foreign libraries. The resume text is a parameter.
- The tokenizer download (app.py:8-12): I/O only.
- The named-entity model (app.py:23, 27): a neural network. Its output list of entities is a parameter of `Sections.ExtractInfo`.
- The e-mail and phone regular expressions (app.py:37-40): their match lists are parameters. The model only states that the e-mails come before the phones.
- Floating point and the `:.2f` formatting (app.py:126, 131, 150): scores are exact reals, so rounding is not modelled.
- Non-ASCII case mapping, whitespace and line boundaries: treated as ordinary characters.
- Matcher.MissingSkills: the program lists missing skills in Python's set-iteration order, which is unspecified. The model lists them in order of first mention in the required list, and its contract states only what holds for any order.
- Per-document error handling and the user-facing messages: not part of the logic.
- A fully worked three-section resume example: its proof is too costly as a concrete instance. `Sections.ExtractInfo` states the general case.
