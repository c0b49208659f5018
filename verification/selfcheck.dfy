/** The candidate's own workflow: the summarised resume is scored against a
    profile picked from the catalog, the lacking skills are listed, and the best
    fitting profile of the catalog is named. */
module SelfCheck {
  import opened Text
  import opened Matcher
  import opened Sections
  import opened Recruiter

  /** `skills_for_job_profiles.get(job, [])`: the skills of the profile titled
      `job`, or none when no profile has that title. */
  function RequiredFor(catalog: seq<JobProfile>, job: string): (required: seq<string>)
    ensures (forall k :: 0 <= k < |catalog| ==> catalog[k].title != job) ==> required == []
    ensures (exists k :: 0 <= k < |catalog| && catalog[k].title == job) ==>
              exists k :: FirstTitled(catalog, job, k) && required == catalog[k].skills
  {
    if catalog == [] then []
    else if catalog[0].title == job then catalog[0].skills
    else
      RequiredForTail(catalog, job);
      RequiredFor(catalog[1..], job)
  }

  /** Profile `k` is the first one titled `job`. */
  ghost predicate FirstTitled(catalog: seq<JobProfile>, job: string, k: int) {
    0 <= k < |catalog| && catalog[k].title == job && forall j :: 0 <= j < k ==> catalog[j].title != job
  }

  /** Past a head with another title, the first profile titled `job` is one
      further than in the tail. */
  lemma RequiredForTail(catalog: seq<JobProfile>, job: string)
    requires catalog != [] && catalog[0].title != job
    ensures (forall k :: 0 <= k < |catalog| ==> catalog[k].title != job) <==>
            (forall k :: 0 <= k < |catalog[1..]| ==> catalog[1..][k].title != job)
    ensures forall k :: FirstTitled(catalog[1..], job, k) ==> FirstTitled(catalog, job, k + 1)
  {
    forall k | 1 <= k < |catalog| ensures catalog[k] == catalog[1..][k - 1] { }
  }

  /** What the candidate is shown for a chosen profile. */
  datatype Assessment = Assessment(score: real, missing: seq<string>, best: Match)

  /** The summary's skill lines, stripped again, scored against the chosen
      profile's skills, the lacking ones, and the best profile overall. A
      title outside the catalog requires nothing: score 0 and nothing
      missing. */
  function Assess(info: ResumeInfo, job: string): (a: Assessment)
    ensures 0.0 <= a.score <= 100.0
    ensures (forall k :: 0 <= k < |Catalog| ==> Catalog[k].title != job) ==> a.score == 0.0 && a.missing == []
  {
    var skills := StripAll(info.skills);
    var required := RequiredFor(Catalog, job);
    assert required == [] ==> LowerSet(required) == {};
    Assessment(MatchingScore(skills, required), MissingSkills(skills, required), BestMatchingProfile(skills, Catalog))
  }

  /** The second strip is a no-op: the skill lines of a summary built from any
      text are already stripped, so the assessment sees exactly those lines. */
  lemma AssessSeesSkillLines(text: string, info: ResumeInfo, job: string)
    requires info.skills == Expected(SplitLines(text), Skills)
    ensures StripAll(info.skills) == info.skills
    ensures Assess(info, job).score == MatchingScore(info.skills, RequiredFor(Catalog, job))
    ensures Assess(info, job).missing == MissingSkills(info.skills, RequiredFor(Catalog, job))
    ensures Assess(info, job).best == BestMatchingProfile(info.skills, Catalog)
  {
    ExpectedLinesClean(SplitLines(text), Skills);
    var stripped := StripAll(info.skills);
    forall k | 0 <= k < |info.skills| ensures stripped[k] == info.skills[k] {
      assert info.skills[k] in Expected(SplitLines(text), Skills);
    }
  }
}
