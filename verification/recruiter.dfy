/** The recruiter workflow: the job description is read as comma-separated
    skills, every uploaded resume is scored against them, and the candidates
    are ranked by descending score, ties kept in upload order. */
module Recruiter {
  import opened Wrappers
  import opened Text
  import opened Matcher
  import opened Sections

  // ---------------------------------------------------------------------------
  // Job description
  // ---------------------------------------------------------------------------

  function StripAll(pieces: seq<string>): (r: seq<string>)
    ensures |r| == |pieces|
    ensures forall k :: 0 <= k < |r| ==> r[k] == Strip(pieces[k])
  {
    if pieces == [] then [] else [Strip(pieces[0])] + StripAll(pieces[1..])
  }

  /** `[s.strip() for s in job_desc.split(',')]`. */
  function ParseJobDescription(jobDesc: string): seq<string> {
    StripAll(Split(jobDesc, ','))
  }

  /** The parsed skills are the comma-separated pieces of the job description,
      one per piece and in order, each with whitespace removed from both ends
      and nowhere else; no skill holds a comma. */
  lemma ParseJobDescriptionSpec(jobDesc: string)
    ensures Join(Split(jobDesc, ','), ',') == jobDesc
    ensures |ParseJobDescription(jobDesc)| == |Split(jobDesc, ',')| >= 1
    ensures forall k :: 0 <= k < |ParseJobDescription(jobDesc)| ==>
              && StripsTo(Split(jobDesc, ',')[k], ParseJobDescription(jobDesc)[k])
              && ',' !in ParseJobDescription(jobDesc)[k]
  {
    var pieces := Split(jobDesc, ',');
    var skills := ParseJobDescription(jobDesc);
    forall k | 0 <= k < |skills|
      ensures StripsTo(pieces[k], skills[k]) && ',' !in skills[k]
    {
      StripSpec(pieces[k]);
      StripKeepsOut(pieces[k], ',');
    }
  }

  // ---------------------------------------------------------------------------
  // Ranking
  // ---------------------------------------------------------------------------

  /** One row of the ranking. */
  datatype CandidateResult = CandidateResult(name: string, score: real, missing: seq<string>)

  predicate SortedByScore(rs: seq<CandidateResult>) {
    forall i, j :: 0 <= i < j < |rs| ==> rs[i].score >= rs[j].score
  }

  /** The results with score `v`, in their order in `rs`. */
  function WithScore(rs: seq<CandidateResult>, v: real): (r: seq<CandidateResult>)
    ensures |r| <= |rs|
  {
    if rs == [] then []
    else (if rs[0].score == v then [rs[0]] else []) + WithScore(rs[1..], v)
  }

  lemma {:induction false} WithScoreAppend(a: seq<CandidateResult>, b: seq<CandidateResult>, v: real)
    ensures WithScore(a + b, v) == WithScore(a, v) + WithScore(b, v)
  {
    if a == [] {
      assert a + b == b;
    } else {
      var ab := a + b;
      assert ab[0] == a[0];
      assert ab[1..] == a[1..] + b;
      WithScoreAppend(a[1..], b, v);
      assert WithScore(ab, v) == (if a[0].score == v then [a[0]] else []) + WithScore(a[1..] + b, v);
    }
  }

  /** Put `c` in front of the first result that does not score more than it. */
  function Insert(c: CandidateResult, rs: seq<CandidateResult>): (r: seq<CandidateResult>)
    requires SortedByScore(rs)
    ensures SortedByScore(r)
    ensures multiset(r) == multiset(rs) + multiset{c}
    ensures forall v :: WithScore(r, v) == WithScore([c] + rs, v)
    decreases |rs|, 1
  {
    if rs == [] || rs[0].score <= c.score then
      SortedFront(c, rs);
      [c] + rs
    else
      InsertBehind(c, rs);
      [rs[0]] + Insert(c, rs[1..])
  }

  /** A result scoring at least the head of a sorted ranking can go in front. */
  lemma SortedFront(c: CandidateResult, rs: seq<CandidateResult>)
    requires SortedByScore(rs) && (rs == [] || rs[0].score <= c.score)
    ensures SortedByScore([c] + rs)
  {
    var r := [c] + rs;
    forall i, j | 0 <= i < j < |r| ensures r[i].score >= r[j].score {
      assert r[j] == rs[j - 1];
      if i > 0 {
        assert r[i] == rs[i - 1];
      } else if j > 1 {
        assert rs[0].score >= rs[j - 1].score;
      }
    }
  }

  /** The recursive case of `Insert`: `c` goes behind a head that outscores
      it. */
  lemma InsertBehind(c: CandidateResult, rs: seq<CandidateResult>)
    requires SortedByScore(rs) && rs != [] && rs[0].score > c.score
    ensures var r := [rs[0]] + Insert(c, rs[1..]);
      && SortedByScore(r)
      && multiset(r) == multiset(rs) + multiset{c}
      && forall v :: WithScore(r, v) == WithScore([c] + rs, v)
    decreases |rs|, 0
  {
    var tail := rs[1..];
    var t := Insert(c, tail);
    assert rs == [rs[0]] + tail;
    assert multiset(rs) == multiset{rs[0]} + multiset(tail);
    assert multiset([rs[0]] + t) == multiset{rs[0]} + multiset(t);
    SortedBehind(rs[0], t, c, tail);
    forall v ensures WithScore([rs[0]] + t, v) == WithScore([c] + rs, v) {
      StableBehind(rs[0], t, c, tail, v);
    }
  }

  /** A head scoring at least every element of `tail` and more than `c` stays
      in front of `c` inserted into `tail`. */
  lemma SortedBehind(head: CandidateResult, t: seq<CandidateResult>, c: CandidateResult, tail: seq<CandidateResult>)
    requires SortedByScore([head] + tail) && head.score > c.score
    requires SortedByScore(t) && multiset(t) == multiset(tail) + multiset{c}
    ensures SortedByScore([head] + t)
  {
    var r := [head] + t;
    forall j | 0 <= j < |t| ensures t[j].score <= head.score {
      assert t[j] in multiset(t);
      if t[j] != c {
        assert t[j] in multiset(tail);
        var m :| 0 <= m < |tail| && tail[m] == t[j];
        assert ([head] + tail)[m + 1] == t[j];
        assert ([head] + tail)[0] == head;
      }
    }
    forall i, j | 0 <= i < j < |r| ensures r[i].score >= r[j].score {
      assert r[j] == t[j - 1];
      if i > 0 {
        assert r[i] == t[i - 1];
      }
    }
  }

  /** Moving `c` behind a head with a different score keeps, for every score,
      the order of the results with that score. */
  lemma StableBehind(head: CandidateResult, t: seq<CandidateResult>, c: CandidateResult, tail: seq<CandidateResult>, v: real)
    requires head.score > c.score
    requires WithScore(t, v) == WithScore([c] + tail, v)
    ensures WithScore([head] + t, v) == WithScore([c] + ([head] + tail), v)
  {
    WithScoreAppend([head], t, v);
    WithScoreAppend([c], tail, v);
    WithScoreAppend([head], tail, v);
    WithScoreAppend([c], [head] + tail, v);
  }

  /** `results.sort(key=score, reverse=True)`: a stable sort by descending
      score. The result is a permutation of the input, sorted by non-increasing
      score, and the results sharing a score keep their input order. */
  function RankByScore(rs: seq<CandidateResult>): (r: seq<CandidateResult>)
    ensures multiset(r) == multiset(rs)
    ensures SortedByScore(r)
    ensures forall v :: WithScore(r, v) == WithScore(rs, v)
  {
    if rs == [] then []
    else
      var t := RankByScore(rs[1..]);
      assert rs == [rs[0]] + rs[1..];
      assert forall v :: WithScore([rs[0]] + t, v) == WithScore(rs, v) by {
        forall v ensures WithScore([rs[0]] + t, v) == WithScore(rs, v) {
          WithScoreAppend([rs[0]], t, v);
          WithScoreAppend([rs[0]], rs[1..], v);
        }
      }
      Insert(rs[0], t)
  }

  // ---------------------------------------------------------------------------
  // The workflow
  // ---------------------------------------------------------------------------

  /** The ranking row of one resume against the job-description skills. */
  function Evaluate(info: ResumeInfo, required: seq<string>): CandidateResult {
    CandidateResult(info.name, MatchingScore(info.skills, required), MissingSkills(info.skills, required))
  }

  /** The ranking rows of the resumes, in upload order. */
  function EvaluateAll(infos: seq<ResumeInfo>, required: seq<string>): seq<CandidateResult> {
    seq(|infos|, k requires 0 <= k < |infos| => Evaluate(infos[k], required))
  }

  /** The candidate ranking for the uploaded resumes (already summarised, in
      upload order) and the job description. No ranking is made before both a
      resume and a non-empty job description are given. Otherwise there is one
      row per resume, scored against the parsed job description, rows ordered by
      non-increasing score, equal scores in upload order. */
  function RankCandidates(infos: seq<ResumeInfo>, jobDesc: string): (ranking: Option<seq<CandidateResult>>)
    ensures ranking.None? <==> (infos == [] || jobDesc == [])
    ensures ranking.Some? ==>
      var rows := EvaluateAll(infos, ParseJobDescription(jobDesc));
      && multiset(ranking.value) == multiset(rows)
      && SortedByScore(ranking.value)
      && (forall v :: WithScore(ranking.value, v) == WithScore(rows, v))
      && (forall k :: 0 <= k < |ranking.value| ==> 0.0 <= ranking.value[k].score <= 100.0)
  {
    if infos == [] || jobDesc == [] then None
    else
      var rows := EvaluateAll(infos, ParseJobDescription(jobDesc));
      var ranked := RankByScore(rows);
      RowsInRange(infos, ParseJobDescription(jobDesc));
      PermutationInRange(ranked, rows);
      Some(ranked)
  }

  predicate ScoresInRange(rs: seq<CandidateResult>) {
    forall k :: 0 <= k < |rs| ==> 0.0 <= rs[k].score <= 100.0
  }

  lemma RowsInRange(infos: seq<ResumeInfo>, required: seq<string>)
    ensures ScoresInRange(EvaluateAll(infos, required))
  {
    var rows := EvaluateAll(infos, required);
    forall k | 0 <= k < |rows| ensures 0.0 <= rows[k].score <= 100.0 {
      assert rows[k].score == MatchingScore(infos[k].skills, required);
    }
  }

  /** Reordering the rows keeps every score in range. */
  lemma PermutationInRange(r: seq<CandidateResult>, rs: seq<CandidateResult>)
    requires multiset(r) == multiset(rs) && ScoresInRange(rs)
    ensures ScoresInRange(r)
  {
    forall k | 0 <= k < |r| ensures 0.0 <= r[k].score <= 100.0 {
      assert r[k] in multiset(rs);
      var m :| 0 <= m < |rs| && rs[m] == r[k];
    }
  }
}
