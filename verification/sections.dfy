/** Building the resume summary (`extract_info_with_ner`): the candidate's name
    from the entity recogniser's output, the contact strings, and the
    line-by-line bucketing of the text into the Education, Skills and
    Experience sections. The entity recogniser and the two contact regular
    expressions are outside the model: their results arrive as parameters. */
module Sections {
  import opened Wrappers
  import opened Text

  // ---------------------------------------------------------------------------
  // Data model
  // ---------------------------------------------------------------------------

  datatype Section = Education | Skills | Experience

  /** The section lines are currently appended to, if any. */
  datatype Cursor = NoSection | In(section: Section)

  /** One entity of the recogniser's output: the words, the entity group
      (`"PER"` for a person) and the confidence. */
  datatype Entity = Entity(word: string, group: string, confidence: real)

  datatype ResumeInfo = ResumeInfo(
    name: string,
    contact: seq<string>,
    education: seq<string>,
    skills: seq<string>,
    experience: seq<string>)
  {
    function Get(s: Section): seq<string> {
      match s
      case Education => education
      case Skills => skills
      case Experience => experience
    }

    /** `info[section].append(line)`. */
    function Append(s: Section, line: string): (r: ResumeInfo)
      ensures r.Get(s) == Get(s) + [line]
      ensures forall t :: t != s ==> r.Get(t) == Get(t)
      ensures r.name == name && r.contact == contact
    {
      match s
      case Education => this.(education := education + [line])
      case Skills => this.(skills := skills + [line])
      case Experience => this.(experience := experience + [line])
    }
  }

  // ---------------------------------------------------------------------------
  // Name
  // ---------------------------------------------------------------------------

  predicate IsPerson(e: Entity) { e.group == "PER" }

  /** Entity `k` is the first one tagged as a person. */
  ghost predicate FirstPersonAt(entities: seq<Entity>, k: int) {
    0 <= k < |entities| && IsPerson(entities[k]) &&
    forall j :: 0 <= j < k ==> !IsPerson(entities[j])
  }

  function PersonIndex(entities: seq<Entity>, from: nat): (k: nat)
    requires from <= |entities|
    ensures from <= k <= |entities|
    ensures k < |entities| ==> IsPerson(entities[k])
    ensures forall j :: from <= j < k ==> !IsPerson(entities[j])
    decreases |entities| - from
  {
    if from == |entities| || IsPerson(entities[from]) then from
    else PersonIndex(entities, from + 1)
  }

  /** The words of the first person entity; the empty string when there is
      none. */
  function FirstPerson(entities: seq<Entity>): (name: string)
    ensures (forall k :: 0 <= k < |entities| ==> !IsPerson(entities[k])) ==> name == ""
    ensures (exists k :: 0 <= k < |entities| && IsPerson(entities[k])) ==>
              exists k :: FirstPersonAt(entities, k) && name == entities[k].word
  {
    var k := PersonIndex(entities, 0);
    if k < |entities| then
      assert FirstPersonAt(entities, k);
      entities[k].word
    else ""
  }

  // ---------------------------------------------------------------------------
  // Section keywords
  // ---------------------------------------------------------------------------

  /** The word whose presence in a lower-cased line names section `s`. */
  function Keyword(s: Section): string {
    match s
    case Education => "education"
    case Skills => "skills"
    case Experience => "experience"
  }

  /** The keyword list the close-section branch searches, in priority order. */
  /** The keyword list the close-section branch searches (app.py:54), spelled
      as there; `Sections.HeaderPriority` relates it to `Keyword`. */
  const Keywords: seq<string> := ["education", "skills", "experience"]

  /** `any(k in lowered for k in keywords)`. */
  predicate MentionsAny(lowered: string, keywords: seq<string>) {
    |keywords| > 0 && (Contains(lowered, keywords[0]) || MentionsAny(lowered, keywords[1..]))
  }

  /** The section a stripped line opens, if it mentions a keyword: Education
      before Skills before Experience. */
  function HeaderOf(line: string): Option<Section> {
    var low := Lower(line);
    if Contains(low, Keyword(Education)) then Some(Education)
    else if Contains(low, Keyword(Skills)) then Some(Skills)
    else if Contains(low, Keyword(Experience)) then Some(Experience)
    else None
  }

  /** A line mentioning a keyword opens the section of the first keyword in
      priority order; Education wins over Skills and Experience, Skills over
      Experience; a line opens a section exactly when it mentions a keyword. */
  lemma HeaderPriority(line: string)
    ensures Contains(Lower(line), "education") ==> HeaderOf(line) == Some(Education)
    ensures Contains(Lower(line), "skills") ==> HeaderOf(line) in {Some(Education), Some(Skills)}
    ensures HeaderOf(line).Some? ==> Contains(Lower(line), Keyword(HeaderOf(line).value))
    ensures HeaderOf(line).Some? <==> MentionsAny(Lower(line), Keywords)
  {
    var low := Lower(line);
    assert Keywords[1..] == ["skills", "experience"];
    assert Keywords[1..][1..] == ["experience"];
    assert Keywords[1..][1..][1..] == [];
    assert MentionsAny(low, Keywords[1..][1..][1..]) == false;
    assert MentionsAny(low, Keywords[1..][1..]) == Contains(low, "experience");
    assert MentionsAny(low, Keywords[1..]) == (Contains(low, "skills") || Contains(low, "experience"));
  }

  // ---------------------------------------------------------------------------
  // The bucketing loop as written
  // ---------------------------------------------------------------------------

  datatype Parser = Parser(cursor: Cursor, info: ResumeInfo)

  /** One iteration of the loop over lines, branch for branch: blank lines are
      skipped, a keyword line moves the cursor, a keyword line seen while a
      section is open closes it (a branch the earlier conditions leave no input
      for), and any other line goes to the open section. */
  function Step(p: Parser, raw: string): Parser {
    var line := Strip(raw);
    if line == [] then p
    else if Contains(Lower(line), "education") then Parser(In(Education), p.info)
    else if Contains(Lower(line), "skills") then Parser(In(Skills), p.info)
    else if Contains(Lower(line), "experience") then Parser(In(Experience), p.info)
    else if p.cursor.In? && MentionsAny(Lower(line), Keywords) then Parser(NoSection, p.info)
    else if p.cursor.In? then Parser(p.cursor, p.info.Append(p.cursor.section, line))
    else p
  }

  /** A keyword line moves the cursor to the section it names and is itself
      dropped. */
  lemma StepOnHeader(p: Parser, raw: string, s: Section)
    requires HeaderOf(Strip(raw)) == Some(s)
    ensures Step(p, raw) == Parser(In(s), p.info)
  {
  }

  /** The close-section branch never fires: once a section is open, no line
      brings the cursor back to no section. */
  lemma StepNeverCloses(p: Parser, raw: string)
    requires p.cursor.In?
    ensures Step(p, raw).cursor.In?
  {
    HeaderPriority(Strip(raw));
  }

  // ---------------------------------------------------------------------------
  // What the loop computes, stated without the loop
  // ---------------------------------------------------------------------------

  /** A line that is appended when a section is open: not blank and naming no
      section. */
  predicate IsBody(raw: string) {
    Strip(raw) != [] && HeaderOf(Strip(raw)).None?
  }

  /** The section named by the last keyword line among `lines`. */
  function LastHeader(lines: seq<string>): Cursor {
    if lines == [] then NoSection
    else
      match HeaderOf(Strip(lines[|lines| - 1]))
      case Some(s) => In(s)
      case None => LastHeader(lines[..|lines| - 1])
  }

  /** The stripped body lines of `lines` whose last preceding keyword line
      names `s`, in input order. */
  function Expected(lines: seq<string>, s: Section): seq<string> {
    if lines == [] then []
    else
      var init := lines[..|lines| - 1];
      var last := lines[|lines| - 1];
      Expected(init, s) + (if IsBody(last) && LastHeader(init) == In(s) then [Strip(last)] else [])
  }

  lemma StepMatchesReference(p: Parser, seen: seq<string>, raw: string)
    requires p.cursor == LastHeader(seen)
    requires forall s :: p.info.Get(s) == Expected(seen, s)
    ensures Step(p, raw).cursor == LastHeader(seen + [raw])
    ensures forall s :: Step(p, raw).info.Get(s) == Expected(seen + [raw], s)
    ensures Step(p, raw).info.name == p.info.name
    ensures Step(p, raw).info.contact == p.info.contact
  {
    var all := seen + [raw];
    assert all[..|all| - 1] == seen;
    HeaderPriority(Strip(raw));
    match HeaderOf(Strip(raw))
    case Some(s) => StepOnHeader(p, raw, s);
    case None =>
  }

  /** `extract_info_with_ner` on a text whose recogniser entities, e-mail
      matches and phone matches are given: the name is the first person
      entity, the contacts are the e-mails then the phones, and each section
      holds exactly the stripped body lines that follow a keyword line naming
      it, up to the next keyword line, in input order. */
  method ExtractInfo(text: string, entities: seq<Entity>, emails: seq<string>, phones: seq<string>)
    returns (info: ResumeInfo)
    ensures info.name == FirstPerson(entities)
    ensures info.contact == emails + phones
    ensures forall s :: info.Get(s) == Expected(SplitLines(text), s)
  {
    var lines := SplitLines(text);
    var p := Parser(NoSection, ResumeInfo(FirstPerson(entities), emails + phones, [], [], []));
    for i := 0 to |lines|
      invariant p.cursor == LastHeader(lines[..i])
      invariant forall s :: p.info.Get(s) == Expected(lines[..i], s)
      invariant p.info.name == FirstPerson(entities)
      invariant p.info.contact == emails + phones
    {
      assert lines[..i + 1] == lines[..i] + [lines[i]];
      StepMatchesReference(p, lines[..i], lines[i]);
      p := Step(p, lines[i]);
    }
    assert lines[..|lines|] == lines;
    info := p.info;
  }

  // ---------------------------------------------------------------------------
  // Properties of the section contents
  // ---------------------------------------------------------------------------

  /** Every line kept in a section is stripped, not blank, and mentions none
      of the three keywords. */
  lemma {:induction false} ExpectedLinesClean(lines: seq<string>, s: Section)
    ensures forall x :: x in Expected(lines, s) ==>
              x != [] && Strip(x) == x && !MentionsAny(Lower(x), Keywords)
  {
    if lines != [] {
      var init := lines[..|lines| - 1];
      var last := lines[|lines| - 1];
      ExpectedLinesClean(init, s);
      StripIdempotent(last);
      HeaderPriority(Strip(last));
    }
  }

  /** Once a keyword line has been seen the cursor stays on some section for
      good, whatever lines follow. */
  lemma {:induction false} LastHeaderSticky(lines: seq<string>, more: seq<string>)
    requires LastHeader(lines).In?
    ensures LastHeader(lines + more).In?
    decreases |more|
  {
    if more == [] {
      assert lines + more == lines;
    } else {
      var all := lines + more;
      assert all[..|all| - 1] == lines + more[..|more| - 1];
      LastHeaderSticky(lines, more[..|more| - 1]);
    }
  }

  /** Lines before the first keyword line belong to no section: a preamble
      without keyword lines leaves every section as if it were absent. */
  lemma {:induction false} PreambleDropped(preamble: seq<string>, rest: seq<string>, s: Section)
    requires forall k :: 0 <= k < |preamble| ==> HeaderOf(Strip(preamble[k])).None?
    ensures LastHeader(preamble + rest) == LastHeader(rest)
    ensures Expected(preamble + rest, s) == Expected(rest, s)
    decreases |rest|
  {
    if rest == [] {
      assert preamble + rest == preamble;
      PreambleIgnored(preamble, s);
    } else {
      var all := preamble + rest;
      var init := rest[..|rest| - 1];
      assert all[..|all| - 1] == preamble + init;
      assert all[|all| - 1] == rest[|rest| - 1];
      PreambleDropped(preamble, init, s);
    }
  }

  lemma {:induction false} PreambleIgnored(preamble: seq<string>, s: Section)
    requires forall k :: 0 <= k < |preamble| ==> HeaderOf(Strip(preamble[k])).None?
    ensures LastHeader(preamble) == NoSection
    ensures Expected(preamble, s) == []
  {
    if preamble != [] {
      PreambleIgnored(preamble[..|preamble| - 1], s);
    }
  }
}
