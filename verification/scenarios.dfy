/** Concrete instances of the matching workflow, worked out in the model. */
module Scenarios {
  import opened Text
  import opened Matcher
  import opened Recruiter

  /** Skills match regardless of case: a resume listing "Python" fully meets a
      requirement of "python". */
  lemma CaseExample()
    ensures MatchingScore(["Python"], ["python"]) == 100.0
    ensures MissingSkills(["Python"], ["python"]) == []
  {
    assert Lower("Python") == "python";
    assert Lower("python") == "python";
    assert LowerSet(["Python"]) == {"python"};
    assert LowerSet(["python"]) == {"python"};
  }

  /** A skill the resume lacks is reported capitalized, and the score is 0. */
  lemma MissingExample()
    ensures MatchingScore(["Java"], ["sql"]) == 0.0
    ensures MissingSkills(["Java"], ["sql"]) == ["Sql"]
  {
    JavaSqlSets();
    CapitalizeSql();
    var missing := MissingSkills(["Java"], ["sql"]);
    assert LowerSet(missing) == {"sql"};
    assert Lower(missing[0]) in LowerSet(missing);
    assert missing == [missing[0]];
  }

  lemma JavaSqlSets()
    ensures LowerSet(["Java"]) == {"java"} && LowerSet(["sql"]) == {"sql"}
    ensures LowerSet(["sql"]) - LowerSet(["Java"]) == {"sql"}
    ensures LowerSet(["Java"]) * LowerSet(["sql"]) == {}
  {
    assert Lower("Java") == "java";
    assert Lower("sql") == "sql";
  }

  lemma CapitalizeSql()
    ensures Capitalize("sql") == "Sql"
  {
    assert "sql"[1..] == "ql";
    assert Lower("ql") == "ql";
    assert UpperChar('s') == 'S';
  }

  /** The job description "Python, SQL" yields the two skills without the
      space after the comma. */
  lemma JobDescriptionExample()
    ensures ParseJobDescription("Python, SQL") == ["Python", "SQL"]
  {
    SplitExample();
    StripExample();
    assert Strip("Python") == "Python";
  }

  lemma SplitExample()
    ensures Split("Python, SQL", ',') == ["Python", " SQL"]
  {
    var pieces := ["Python", " SQL"];
    assert Join(pieces, ',') == "Python, SQL";
    SplitJoin(pieces, ',');
  }

  lemma StripExample()
    ensures Strip(" SQL") == "SQL"
  {
    assert " SQL"[1..] == "SQL";
    assert TrimStart(" SQL") == TrimStart("SQL") == "SQL";
  }
}
