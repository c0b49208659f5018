/** Scoring a candidate's skills against a list of required skills, listing the
    required skills the candidate lacks, and picking the job profile of the
    fixed catalog that the candidate fits best. All comparisons are made on
    lower-cased skills taken as sets. */
module Matcher {
  import opened Wrappers
  import opened Text

  // ---------------------------------------------------------------------------
  // Lower-cased skill sets
  // ---------------------------------------------------------------------------

  /** `set(s.lower() for s in skills)`. */
  function LowerSet(skills: seq<string>): set<string> {
    set s | s in skills :: Lower(s)
  }

  /** Every skill of `skills` is, case ignored, also a skill of `other`. */
  predicate Covers(other: seq<string>, skills: seq<string>) {
    forall i :: 0 <= i < |skills| ==> Lower(skills[i]) in LowerSet(other)
  }

  /** `skills` and `other` name the same skills once case, order and
      repetition are ignored. */
  predicate SameSkills(skills: seq<string>, other: seq<string>) {
    Covers(other, skills) && Covers(skills, other)
  }

  lemma CoversLowerSet(other: seq<string>, skills: seq<string>)
    requires Covers(other, skills)
    ensures LowerSet(skills) <= LowerSet(other)
  {
    forall x | x in LowerSet(skills) ensures x in LowerSet(other) {
      var s :| s in skills && Lower(s) == x;
      var i :| 0 <= i < |skills| && skills[i] == s;
    }
  }

  lemma SameSkillsLowerSet(skills: seq<string>, other: seq<string>)
    requires SameSkills(skills, other)
    ensures LowerSet(skills) == LowerSet(other)
  {
    CoversLowerSet(other, skills);
    CoversLowerSet(skills, other);
  }

  lemma SubsetCard<T>(a: set<T>, b: set<T>)
    requires a <= b
    ensures |a| <= |b|
  {
    assert b == a + (b - a);
  }

  /** The number of required skills the candidate has: `len(rs & rq)`. */
  function Overlap(resume: seq<string>, required: seq<string>): (n: nat)
    ensures n <= |LowerSet(required)|
  {
    SubsetCard(LowerSet(resume) * LowerSet(required), LowerSet(required));
    |LowerSet(resume) * LowerSet(required)|
  }

  // ---------------------------------------------------------------------------
  // calculate_matching_score
  // ---------------------------------------------------------------------------

  /** The percentage of the distinct required skills found among the resume's
      skills, case ignored; 0 when nothing is required. Exact arithmetic stands
      in for the program's floating point. */
  function MatchingScore(resume: seq<string>, required: seq<string>): (score: real)
    ensures 0.0 <= score <= 100.0
    ensures LowerSet(required) == {} ==> score == 0.0
    ensures LowerSet(required) != {} ==> IsPercentage(score, Overlap(resume, required), |LowerSet(required)|)
  {
    var n := |LowerSet(required)|;
    if n == 0 then 0.0 else Percent(Overlap(resume, required), n)
  }

  /** `p` is `o` out of `n` as a percentage. */
  predicate IsPercentage(p: real, o: nat, n: nat) {
    p * n as real == 100.0 * o as real
  }

  /** `o / n * 100`, the share of `o` in `n` as a percentage. */
  function Percent(o: nat, n: nat): (p: real)
    requires 0 < n && o <= n
    ensures 0.0 <= p <= 100.0
    ensures IsPercentage(p, o, n)
  {
    var q := o as real / n as real;
    assert q * n as real == o as real;
    assert (1.0 - q) * n as real == (n - o) as real;
    q * 100.0
  }

  /** The score is full exactly when every distinct required skill is present. */
  lemma ScoreFullIff(resume: seq<string>, required: seq<string>)
    ensures MatchingScore(resume, required) == 100.0
        <==> (LowerSet(required) != {} && LowerSet(required) <= LowerSet(resume))
  {
    var rs, rq := LowerSet(resume), LowerSet(required);
    if rq != {} {
      var n := |rq| as real;
      var s := MatchingScore(resume, required);
      if s == 100.0 {
        assert Overlap(resume, required) as real == n;
        if x :| x in rq && x !in rs {
          SubsetCard(rs * rq, rq - {x});
          assert false;
        }
      }
      if rq <= rs {
        assert rs * rq == rq;
      }
    }
  }

  /** The score and the missing skills only depend on the skills taken without
      case, order or repetition: lists naming the same skills score alike and
      lack the same skills. */
  lemma ScoreCaseInsensitive(resume: seq<string>, resume': seq<string>, required: seq<string>, required': seq<string>)
    requires SameSkills(resume, resume') && SameSkills(required, required')
    ensures MatchingScore(resume, required) == MatchingScore(resume', required')
    ensures LowerSet(MissingSkills(resume, required)) == LowerSet(MissingSkills(resume', required'))
  {
    SameSkillsLowerSet(resume, resume');
    SameSkillsLowerSet(required, required');
  }

  /** Extra resume skills never lower the score. */
  lemma ScoreMonotone(resume: seq<string>, extra: seq<string>, required: seq<string>)
    ensures MatchingScore(resume, required) <= MatchingScore(resume + extra, required)
  {
    var rq := LowerSet(required);
    LowerSetGrows(resume, extra);
    SubsetCard(LowerSet(resume) * rq, LowerSet(resume + extra) * rq);
    if rq != {} {
      PercentageMonotone(Overlap(resume, required), Overlap(resume + extra, required), |rq|);
    }
  }

  lemma LowerSetGrows(resume: seq<string>, extra: seq<string>)
    ensures LowerSet(resume) <= LowerSet(resume + extra)
  {
    forall x | x in LowerSet(resume) ensures x in LowerSet(resume + extra) {
      var s :| s in resume && Lower(s) == x;
      assert s in resume + extra;
    }
  }

  lemma PercentageMonotone(o1: nat, o2: nat, n: nat)
    requires 0 < n && o1 <= o2
    ensures (o1 as real / n as real) * 100.0 <= (o2 as real / n as real) * 100.0
  {
    assert o1 as real / n as real <= o2 as real / n as real;
  }

  /** Extra resume skills outside the required set leave the score as it was. */
  lemma ScoreIgnoresIrrelevant(resume: seq<string>, extra: seq<string>, required: seq<string>)
    requires forall k :: 0 <= k < |extra| ==> Lower(extra[k]) !in LowerSet(required)
    ensures MatchingScore(resume + extra, required) == MatchingScore(resume, required)
  {
    var rq := LowerSet(required);
    assert LowerSet(resume + extra) * rq == LowerSet(resume) * rq by {
      forall x | x in LowerSet(resume + extra) * rq ensures x in LowerSet(resume) {
        var s :| s in resume + extra && Lower(s) == x;
      }
    }
  }

  // ---------------------------------------------------------------------------
  // find_missing_skills
  // ---------------------------------------------------------------------------

  /** No element occurs twice. */
  predicate Distinct<T(==)>(xs: seq<T>) {
    forall i, j :: 0 <= i < j < |xs| ==> xs[i] != xs[j]
  }

  lemma DistinctCard<T>(xs: seq<T>)
    requires Distinct(xs)
    ensures |set x | x in xs| == |xs|
  {
    if xs != [] {
      var t := xs[1..];
      DistinctCard(t);
      assert (set x | x in xs) == {xs[0]} + (set x | x in t);
      assert xs[0] !in t;
    }
  }

  /** Each element lower-cased, order kept. */
  function LowerAll(xs: seq<string>): (r: seq<string>)
    ensures |r| == |xs|
    ensures forall k :: 0 <= k < |r| ==> r[k] == Lower(xs[k])
  {
    if xs == [] then [] else [Lower(xs[0])] + LowerAll(xs[1..])
  }

  /** The elements of `xs` outside `drop`, order kept. */
  function Without(xs: seq<string>, drop: set<string>): (r: seq<string>)
    ensures forall x :: x in r <==> x in xs && x !in drop
  {
    if xs == [] then []
    else if xs[0] in drop then Without(xs[1..], drop)
    else [xs[0]] + Without(xs[1..], drop)
  }

  /** The first occurrence of each element, order kept. */
  function Dedup(xs: seq<string>): (r: seq<string>)
    ensures Distinct(r)
    ensures forall x :: x in r <==> x in xs
  {
    if xs == [] then []
    else
      var d := Dedup(xs[..|xs| - 1]);
      var last := xs[|xs| - 1];
      assert xs == xs[..|xs| - 1] + [last];
      if last in d then d else d + [last]
  }

  /** Each element capitalised, order kept. */
  function CapitalizeAll(xs: seq<string>): seq<string> {
    seq(|xs|, k requires 0 <= k < |xs| => Capitalize(xs[k]))
  }

  /** `[s.capitalize() for s in rq - rs]`: the distinct required skills the
      resume lacks, case ignored, each capitalised. The program lists them in
      set-iteration order; here they come in the order of their first mention
      in `required`. */
  function MissingSkills(resume: seq<string>, required: seq<string>): (missing: seq<string>)
    ensures Distinct(missing)
    ensures LowerSet(missing) == LowerSet(required) - LowerSet(resume)
    ensures |missing| == |LowerSet(required) - LowerSet(resume)|
    ensures forall k :: 0 <= k < |missing| ==>
              missing[k] == Capitalize(Lower(missing[k])) && (missing[k] != [] ==> !IsLowerLetter(missing[k][0]))
  {
    var d := Dedup(Without(LowerAll(required), LowerSet(resume)));
    MissingParts(resume, required);
    CapitalizedParts(d);
    CapitalizeAll(d)
  }

  /** Capitalising distinct lower-case strings gives distinct capitalised
      strings with the same lower-cased set. */
  lemma CapitalizedParts(d: seq<string>)
    requires Distinct(d) && forall x :: x in d ==> IsLowered(x)
    ensures var r := CapitalizeAll(d);
      && Distinct(r)
      && LowerSet(r) == (set x | x in d)
      && forall k :: 0 <= k < |r| ==>
           r[k] == Capitalize(Lower(r[k])) && (r[k] != [] ==> !IsLowerLetter(r[k][0]))
  {
    CapitalizeAllDistinct(d);
    CapitalizeAllLowerSet(d);
  }

  lemma MissingParts(resume: seq<string>, required: seq<string>)
    ensures var d := Dedup(Without(LowerAll(required), LowerSet(resume)));
      && Distinct(d)
      && (forall x :: x in d ==> IsLowered(x))
      && (set x | x in d) == LowerSet(required) - LowerSet(resume)
      && |d| == |LowerSet(required) - LowerSet(resume)|
  {
    var d := Dedup(Without(LowerAll(required), LowerSet(resume)));
    LowerAllSpec(required);
    DistinctCard(d);
  }

  lemma LowerAllSpec(xs: seq<string>)
    ensures forall k :: 0 <= k < |xs| ==> IsLowered(LowerAll(xs)[k])
    ensures (set x | x in LowerAll(xs)) == LowerSet(xs)
  {
    var l := LowerAll(xs);
    forall k | 0 <= k < |xs| ensures IsLowered(l[k]) {
      LowerIdempotent(xs[k]);
    }
    forall x | x in LowerSet(xs) ensures x in l {
      var s :| s in xs && Lower(s) == x;
      var k :| 0 <= k < |xs| && xs[k] == s;
      assert l[k] == x;
    }
  }

  /** Capitalising distinct lower-case strings keeps them distinct. */
  lemma CapitalizeAllDistinct(d: seq<string>)
    requires Distinct(d) && forall x :: x in d ==> IsLowered(x)
    ensures Distinct(CapitalizeAll(d))
  {
    var r := CapitalizeAll(d);
    forall i, j | 0 <= i < j < |r| ensures r[i] != r[j] {
      assert d[i] in d && d[j] in d;
      if r[i] == r[j] {
        CapitalizeInjective(d[i], d[j]);
      }
    }
  }

  /** Lower-casing capitalised lower-case strings gives back the same set. */
  lemma CapitalizeAllLowerSet(d: seq<string>)
    requires forall x :: x in d ==> IsLowered(x)
    ensures forall k :: 0 <= k < |d| ==> Lower(CapitalizeAll(d)[k]) == d[k]
    ensures LowerSet(CapitalizeAll(d)) == set x | x in d
  {
    var r := CapitalizeAll(d);
    forall k | 0 <= k < |d| ensures Lower(r[k]) == d[k] {
      assert d[k] in d;
    }
    forall x | x in LowerSet(r) ensures x in d {
      var k :| 0 <= k < |r| && Lower(r[k]) == x;
      assert d[k] in d;
    }
    forall x | x in d ensures x in LowerSet(r) {
      var k :| 0 <= k < |d| && d[k] == x;
      assert r[k] in r;
    }
  }

  /** Every distinct required skill is either matched or missing, never both:
      the overlap and the missing list together account for all of them. */
  lemma OverlapPlusMissing(resume: seq<string>, required: seq<string>)
    ensures Overlap(resume, required) + |MissingSkills(resume, required)| == |LowerSet(required)|
  {
    var rs, rq := LowerSet(resume), LowerSet(required);
    assert rq == (rs * rq) + (rq - rs);
    assert (rs * rq) !! (rq - rs);
  }

  /** The score is full exactly when something is required and nothing is
      missing. */
  lemma FullScoreIffNothingMissing(resume: seq<string>, required: seq<string>)
    ensures MatchingScore(resume, required) == 100.0
        <==> (LowerSet(required) != {} && MissingSkills(resume, required) == [])
  {
    ScoreFullIff(resume, required);
    var m := MissingSkills(resume, required);
    if m == [] {
      assert LowerSet(required) - LowerSet(resume) == {};
    }
    if LowerSet(required) <= LowerSet(resume) {
      assert |m| == 0;
    }
  }

  // ---------------------------------------------------------------------------
  // The job-profile catalog and find_best_matching_profile
  // ---------------------------------------------------------------------------

  datatype JobProfile = JobProfile(title: string, skills: seq<string>)

  /** `skills_for_job_profiles`, in declaration order. */
  const Catalog: seq<JobProfile> := [
    JobProfile("Frontend Developer", ["HTML", "CSS", "JavaScript", "React", "Angular", "Vue.js"]),
    JobProfile("Data Scientist", ["Python", "R", "Pandas", "NumPy", "Machine Learning", "SQL"]),
    JobProfile("Software Engineer", ["C++", "Java", "Python", "Data Structures", "Algorithms"]),
    JobProfile("Business Analyst", ["Business Analysis", "SQL", "JIRA", "Market Research"])
  ]

  /** The best profile so far: no title and score 0 before any profile beat 0. */
  datatype Match = Match(title: Option<string>, score: real)

  function ScoreAt(resume: seq<string>, catalog: seq<JobProfile>, k: int): real
    requires 0 <= k < |catalog|
  {
    MatchingScore(resume, catalog[k].skills)
  }

  /** Profile `k` reaches `score` and every profile before it scores less. */
  ghost predicate FirstReaching(resume: seq<string>, catalog: seq<JobProfile>, k: int, score: real) {
    && 0 <= k < |catalog|
    && ScoreAt(resume, catalog, k) == score
    && forall j :: 0 <= j < k ==> ScoreAt(resume, catalog, j) < score
  }

  /** A profile title with the candidate's score for it. */
  datatype Scored = Scored(title: string, score: real)

  /** Each profile's title and score, in catalog order. */
  function ScoreProfiles(resume: seq<string>, catalog: seq<JobProfile>): (r: seq<Scored>)
    ensures |r| == |catalog|
    ensures forall k :: 0 <= k < |r| ==> r[k] == Scored(catalog[k].title, ScoreAt(resume, catalog, k))
  {
    if catalog == [] then []
    else
      var t := ScoreProfiles(resume, catalog[1..]);
      assert forall k :: 1 <= k < |catalog| ==> catalog[k] == catalog[1..][k - 1];
      [Scored(catalog[0].title, MatchingScore(resume, catalog[0].skills))] + t
  }

  /** The loop of `find_best_matching_profile` over the profiles still to see:
      a profile replaces the best so far only with a strictly higher score. */
  function Scan(scored: seq<Scored>, best: Match): Match {
    if scored == [] then best
    else
      var best' := if scored[0].score > best.score then Match(Some(scored[0].title), scored[0].score) else best;
      Scan(scored[1..], best')
  }

  /** `find_best_matching_profile`, starting from `(None, 0)`. */
  function BestMatchingProfile(resume: seq<string>, catalog: seq<JobProfile>): Match {
    Scan(ScoreProfiles(resume, catalog), Match(None, 0.0))
  }

  /** Entry `k` is the first to reach `score`. */
  ghost predicate FirstAt(scored: seq<Scored>, k: int, score: real) {
    0 <= k < |scored| && scored[k].score == score && forall j :: 0 <= j < k ==> scored[j].score < score
  }

  /** The loop ends with a score at least the starting one and every entry's
      score, and keeps the starting match when no entry beats it. */
  lemma {:induction false} ScanMax(scored: seq<Scored>, best: Match)
    ensures var m := Scan(scored, best);
      && best.score <= m.score
      && (forall k :: 0 <= k < |scored| ==> scored[k].score <= m.score)
      && ((forall k :: 0 <= k < |scored| ==> scored[k].score <= best.score) ==> m == best)
  {
    if scored != [] {
      var rest := scored[1..];
      var best' := if scored[0].score > best.score then Match(Some(scored[0].title), scored[0].score) else best;
      ScanMax(rest, best');
      assert forall k :: 1 <= k < |scored| ==> scored[k] == rest[k - 1];
    }
  }

  /** A match the loop ends with, other than the starting one, has a higher
      score and the title of the first entry reaching that score. */
  lemma {:induction false} ScanFirst(scored: seq<Scored>, best: Match)
    ensures var m := Scan(scored, best);
      m == best || (m.title.Some? && best.score < m.score &&
                    exists k :: FirstAt(scored, k, m.score) && scored[k].title == m.title.value)
  {
    if scored != [] {
      var rest := scored[1..];
      var best' := if scored[0].score > best.score then Match(Some(scored[0].title), scored[0].score) else best;
      ScanFirst(rest, best');
      ScanMax(rest, best');
      var m := Scan(rest, best');
      if m != best {
        if m == best' {
          assert FirstAt(scored, 0, m.score);
        } else {
          var k :| FirstAt(rest, k, m.score) && rest[k].title == m.title.value;
          assert forall j :: 1 <= j < |scored| ==> scored[j] == rest[j - 1];
          assert FirstAt(scored, k + 1, m.score);
        }
      }
    }
  }

  /** What `find_best_matching_profile` returns: the highest score over the
      catalog; no title exactly when every profile scores 0; otherwise the
      title of the earliest profile reaching the highest score. */
  lemma BestMatchingProfileSpec(resume: seq<string>, catalog: seq<JobProfile>)
    ensures var m := BestMatchingProfile(resume, catalog);
      && (forall k :: 0 <= k < |catalog| ==> ScoreAt(resume, catalog, k) <= m.score)
      && (m.title.None? <==> forall k :: 0 <= k < |catalog| ==> ScoreAt(resume, catalog, k) == 0.0)
      && (m.title.None? ==> m.score == 0.0)
      && (m.title.Some? ==> exists k :: FirstReaching(resume, catalog, k, m.score) && catalog[k].title == m.title.value)
  {
    var scored := ScoreProfiles(resume, catalog);
    ScanMax(scored, Match(None, 0.0));
    ScanFirst(scored, Match(None, 0.0));
    var m := BestMatchingProfile(resume, catalog);
    if m.title.Some? {
      var k :| FirstAt(scored, k, m.score) && scored[k].title == m.title.value;
      assert FirstReaching(resume, catalog, k, m.score);
    }
  }
}
