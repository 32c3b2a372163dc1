/** The ranking endpoint of app.py (rank_resumes): resolve and extract the uploads, score every
    extracted resume by embedding similarity to the job circular blended 0.8/0.2 with the skill
    bonus, sort by final score and keep the first top_k. The embedding model and its cosine
    similarity are an injected function; files are resolved and read as in Ingest. */
module RankApp {
  import opened Outcomes
  import opened OrderedDict
  import opened Seqs
  import opened Text
  import opened Ingest
  import opened Scoring
  import opened Ranking

  /** The cosine similarity of the embeddings of the job circular and of a resume text. */
  type Similarity = (string, string) -> real

  /** One entry of ranked_resumes; the three scores are rounded to four places. */
  datatype RankedResume = RankedResume(filename: string, similarityScore: real, bonusScore: real, finalScore: real)

  /** The sort key. */
  function FinalScore(r: RankedResume): real {
    r.finalScore
  }

  /** The form fields; a field the client leaves out is None. */
  datatype RankRequest = RankRequest(
    jobCircular: string,
    uploads: seq<Upload>,
    topK: Option<int>,
    skills: Option<string>,
    minExperience: Option<int>)

  /** top_k, 5 by default. */
  function TopKOf(req: RankRequest): int {
    if req.topK.Some? then req.topK.value else 5
  }

  /** min_experience, 0 by default. */
  function MinExperienceOf(req: RankRequest): int {
    if req.minExperience.Some? then req.minExperience.value else 0
  }

  /** skills_list: the parsed skills when the field is given and non-empty, else none. */
  function AppSkills(req: RankRequest): seq<string> {
    if req.skills.Some? && req.skills.value != "" then ParseSkills(req.skills.value) else []
  }

  /** The emptiness test in front of the parse changes nothing: an absent or empty field parses
      to no skills, and any other field to what the parse gives. */
  lemma AppSkillsIsParse(req: RankRequest)
    ensures AppSkills(req) == ParseSkills(if req.skills.Some? then req.skills.value else "")
  {
    BlankSkillsField("");
  }

  /** How the loop scores one resume given its filename and text. */
  type Scorer = (string, string) -> RankedResume

  /** The entry for one resume: rounded similarity, rounded bonus, and the rounded blend of the
      unrounded two. */
  function ScoreResume(similarity: Similarity, jobCircular: string, skills: seq<string>, minExperience: int,
                       filename: string, resumeText: string): RankedResume
  {
    var sim := similarity(jobCircular, resumeText);
    var bonus := GatedBonus(resumeText, skills, minExperience);
    RankedResume(filename, Round4(sim), Round4(bonus), Round4(EmbeddingScore(sim, bonus)))
  }

  /** Embedding blend: for a similarity in [-1, 1] the bonus is in [0, 0.8] and the final score in
      [-1, 1], within rounding of similarity * 0.8 + skill bonus * 0.2. */
  lemma ScoreResumeBounds(similarity: Similarity, jobCircular: string, skills: seq<string>, minExperience: int,
                          filename: string, resumeText: string)
    requires -1.0 <= similarity(jobCircular, resumeText) <= 1.0
    ensures var r := ScoreResume(similarity, jobCircular, skills, minExperience, filename, resumeText);
            var blend := EmbeddingScore(similarity(jobCircular, resumeText), SkillBonus(resumeText, skills, minExperience));
            && r.filename == filename
            && 0.0 <= r.bonusScore <= 0.8
            && -1.0 <= r.similarityScore <= 1.0
            && -1.0 <= r.finalScore <= 1.0
            && blend - 0.00005 <= r.finalScore <= blend + 0.00005
  {
    var sim := similarity(jobCircular, resumeText);
    var bonus := SkillBonus(resumeText, skills, minExperience);
    GatingIsRedundant(resumeText, skills, minExperience);
    SkillBonusBounds(resumeText, skills, minExperience);
    RoundBetween(bonus, 0.0, 0.8, 0, 8000);
    RoundBetween(sim, -1.0, 1.0, -10000, 10000);
    RoundBetween(EmbeddingScore(sim, bonus), -1.0, 1.0, -10000, 10000);
  }

  /** Rounding to four places keeps a value between two bounds that are multiples of 0.0001. */
  lemma RoundBetween(x: real, lo: real, hi: real, loN: int, hiN: int)
    requires lo == loN as real / 10000.0 && hi == hiN as real / 10000.0
    requires lo <= x <= hi
    ensures lo <= Round4(x) <= hi
  {
    RoundHalfEvenMonotone(lo * 10000.0, x * 10000.0);
    RoundHalfEvenMonotone(x * 10000.0, hi * 10000.0);
    assert lo * 10000.0 == loN as real;
    assert hi * 10000.0 == hiN as real;
    RoundHalfEvenInt(loN);
    RoundHalfEvenInt(hiN);
  }

  /** The scorer of a request. */
  function RequestScorer(similarity: Similarity, req: RankRequest): Scorer {
    (filename: string, resumeText: string) =>
      ScoreResume(similarity, req.jobCircular, AppSkills(req), MinExperienceOf(req), filename, resumeText)
  }

  /** The loop over resume_texts.items(): one entry per key, in key order. */
  function ScoreAll(keys: seq<string>, texts: map<string, string>, score: Scorer): seq<RankedResume>
    requires forall i :: 0 <= i < |keys| ==> keys[i] in texts
  {
    if keys == [] then []
    else ScoreAll(keys[..|keys| - 1], texts, score) + [score(keys[|keys| - 1], texts[keys[|keys| - 1]])]
  }

  lemma ScoreAllSnoc(keys: seq<string>, k: string, texts: map<string, string>, score: Scorer)
    requires forall i :: 0 <= i < |keys| ==> keys[i] in texts
    requires k in texts
    ensures ScoreAll(keys + [k], texts, score) == ScoreAll(keys, texts, score) + [score(k, texts[k])]
  {
    InitOfSnoc(keys, k);
  }

  /** The results are the scored resumes, one per key and in key order. */
  lemma {:induction false} ScoreAllMeaning(keys: seq<string>, texts: map<string, string>, score: Scorer)
    requires forall i :: 0 <= i < |keys| ==> keys[i] in texts
    ensures |ScoreAll(keys, texts, score)| == |keys|
    ensures forall i :: 0 <= i < |keys| ==> ScoreAll(keys, texts, score)[i] == score(keys[i], texts[keys[i]])
  {
    if keys != [] {
      var init := keys[..|keys| - 1];
      ScoreAllMeaning(init, texts, score);
      assert forall i :: 0 <= i < |init| ==> init[i] == keys[i];
    }
  }

  datatype RankResponse = RankResponse(
    totalResumes: nat,
    topK: int,
    jobCircularPreview: string,
    skillsSearched: Option<seq<string>>,
    minExperienceSearched: Option<int>,
    rankedResumes: seq<RankedResume>)

  /** The response for the scored results of a request. */
  function Respond(req: RankRequest, totalResumes: nat, results: seq<RankedResume>): RankResponse {
    var skillsList := AppSkills(req);
    var minExperience := MinExperienceOf(req);
    RankResponse(
      totalResumes,
      TopKOf(req),
      Preview(req.jobCircular),
      if skillsList == [] then None else Some(skillsList),
      if minExperience > 0 then Some(minExperience) else None,
      Ranked(results, FinalScore, TopKOf(req)))
  }

  /** What the endpoint answers once the files are resolved and read (or have failed to be). */
  function Answer(similarity: Similarity, req: RankRequest, resolved: Result<(Dict<string, string>, Dict<string, string>)>): Result<RankResponse>
    requires resolved.Ok? ==> resolved.value.1.Valid()
  {
    match resolved
    case Err(e) => Err(e)
    case Ok((_, texts)) =>
      if texts.Len() == 0 then Err(NoExtractableText)
      else Ok(Respond(req, texts.Len(), ScoreAll(texts.keys, texts.m, RequestScorer(similarity, req))))
  }

  /** What the endpoint answers. */
  function RankOutcome(extract: Extractor, similarity: Similarity, req: RankRequest, tempDir: string): Result<RankResponse> {
    ResolveTextsCounts(extract, req.uploads, tempDir);
    Answer(similarity, req, ResolveTexts(extract, req.uploads, tempDir))
  }

  /** The entry of one resume, as the loop body computes it. */
  method ScoreOne(similarity: Similarity, jobCircular: string, skillsList: seq<string>, minExperience: int,
                  filename: string, resumeText: string) returns (r: RankedResume)
    ensures r == ScoreResume(similarity, jobCircular, skillsList, minExperience, filename, resumeText)
  {
    var similarityScore := similarity(jobCircular, resumeText);
    var bonusScore := 0.0;
    if skillsList != [] || minExperience > 0 {
      bonusScore := CalculateSkillBonus(resumeText, skillsList, minExperience);
    }
    GatingIsRedundant(resumeText, skillsList, minExperience);
    var finalScore := similarityScore * 0.8 + bonusScore * 0.2;
    r := RankedResume(filename, Round4(similarityScore), Round4(bonusScore), Round4(finalScore));
  }

  /** The loop over the extracted texts. */
  method ScoreTexts(similarity: Similarity, resumeTexts: Dict<string, string>, req: RankRequest) returns (results: seq<RankedResume>)
    requires resumeTexts.Valid()
    ensures results == ScoreAll(resumeTexts.keys, resumeTexts.m, RequestScorer(similarity, req))
  {
    var jobCircular := req.jobCircular;
    var skillsList := AppSkills(req);
    var minExperience := MinExperienceOf(req);
    ghost var score := RequestScorer(similarity, req);
    var keys := resumeTexts.keys;
    results := [];
    var i := 0;
    while i < |keys|
      invariant 0 <= i <= |keys|
      invariant results == ScoreAll(keys[..i], resumeTexts.m, score)
    {
      var filename := keys[i];
      TakeSnoc(keys, i);
      ScoreAllSnoc(keys[..i], filename, resumeTexts.m, score);
      var entry := ScoreOne(similarity, jobCircular, skillsList, minExperience, filename, resumeTexts.m[filename]);
      results := results + [entry];
      i := i + 1;
    }
    TakeAll(keys);
  }

  /** rank_resumes */
  method RankResumes(extract: Extractor, similarity: Similarity, req: RankRequest, tempDir: string) returns (r: Result<RankResponse>)
    ensures r == RankOutcome(extract, similarity, req, tempDir)
  {
    var topK := TopKOf(req);
    var skillsList := AppSkills(req);
    var minExperience := MinExperienceOf(req);

    var resumes := ProcessResumeFiles(req.uploads, tempDir);
    if resumes.Err? {
      return Err(resumes.error);
    }
    var resumeTexts := ExtractAllResumeTexts(extract, resumes.value);
    ResolveTextsCounts(extract, req.uploads, tempDir);
    if resumeTexts.Len() == 0 {
      return Err(NoExtractableText);
    }

    var results := ScoreTexts(similarity, resumeTexts, req);
    results := StableSortDesc(results, FinalScore);
    var topResults := Prefix(results, topK);

    return Ok(RankResponse(
      resumeTexts.Len(),
      topK,
      Preview(req.jobCircular),
      if skillsList == [] then None else Some(skillsList),
      if minExperience > 0 then Some(minExperience) else None,
      topResults));
  }

  // ---------------------------------------------------------------------------
  // what a response promises

  /** Ranking: the response for n scored results is non-increasing in final score and has
      min(top_k, n) entries (with Python's slice for a negative top_k), every one of them when
      top_k is at least n, keeping result order among equal final scores. */
  lemma RespondRanking(req: RankRequest, totalResumes: nat, results: seq<RankedResume>, v: real)
    ensures var ranked := Respond(req, totalResumes, results).rankedResumes;
            var k := TopKOf(req);
            && ranked == Ranked(results, FinalScore, k)
            && SortedDesc(ranked, FinalScore)
            && (k >= 0 ==> |ranked| == Min(k, |results|))
            && (k < 0 ==> |ranked| == Max(|results| + k, 0))
            && (k >= |results| ==> multiset(ranked) == multiset(results))
            && WithKey(ranked, FinalScore, v) <= WithKey(results, FinalScore, v)
  {
    var k := TopKOf(req);
    RankedFacts(results, FinalScore, k, v);
    if k >= |results| {
      RankedAll(results, FinalScore, k);
    }
  }

  /** Counts: total_resumes is the number of extracted texts, at least one, and every extracted
      text is scored once, in dict order; the ranked entries are those of Respond. */
  lemma AnswerFacts(similarity: Similarity, req: RankRequest, resumes: Dict<string, string>, texts: Dict<string, string>)
    requires texts.Valid()
    requires Answer(similarity, req, Ok((resumes, texts))).Ok?
    ensures var resp := Answer(similarity, req, Ok((resumes, texts))).value;
            var scored := ScoreAll(texts.keys, texts.m, RequestScorer(similarity, req));
            && resp == Respond(req, texts.Len(), scored)
            && resp.totalResumes == texts.Len() >= 1
            && |scored| == texts.Len()
            && (forall i :: 0 <= i < |scored| ==> scored[i].filename == texts.keys[i])
  {
    ScoreAllMeaning(texts.keys, texts.m, RequestScorer(similarity, req));
  }

  /** A successful response is the ranked answer for the extracted texts. */
  lemma ResponseFacts(extract: Extractor, similarity: Similarity, req: RankRequest, tempDir: string, v: real)
    requires RankOutcome(extract, similarity, req, tempDir).Ok?
    ensures ResolveTexts(extract, req.uploads, tempDir).Ok?
    ensures ResolveTexts(extract, req.uploads, tempDir).value.1.Valid()
    ensures var resp := RankOutcome(extract, similarity, req, tempDir).value;
            var (resumes, texts) := ResolveTexts(extract, req.uploads, tempDir).value;
            var scored := ScoreAll(texts.keys, texts.m, RequestScorer(similarity, req));
            && 1 <= resp.totalResumes == texts.Len() <= resumes.Len()
            && SortedDesc(resp.rankedResumes, FinalScore)
            && (TopKOf(req) >= 0 ==> |resp.rankedResumes| == Min(TopKOf(req), texts.Len()))
            && WithKey(resp.rankedResumes, FinalScore, v) <= WithKey(scored, FinalScore, v)
  {
    ResolveTextsCounts(extract, req.uploads, tempDir);
    var (resumes, texts) := ResolveTexts(extract, req.uploads, tempDir).value;
    AnswerFacts(similarity, req, resumes, texts);
    RespondRanking(req, texts.Len(), ScoreAll(texts.keys, texts.m, RequestScorer(similarity, req)), v);
  }

  /** Errors: a rejected upload fails the request with its rejection, and a batch with no
      extractable text fails with NoExtractableText; nothing else fails. */
  lemma RankFailures(extract: Extractor, similarity: Similarity, req: RankRequest, tempDir: string)
    ensures var r := RankOutcome(extract, similarity, req, tempDir);
            var resolved := ResolveTexts(extract, req.uploads, tempDir);
            && (resolved.Err? ==> r == Err(resolved.error))
            && (resolved.Ok? ==> (r.Err? <==> resolved.value.1.Len() == 0))
            && (r.Err? && resolved.Ok? ==> r.error == NoExtractableText)
  {
    ResolveTextsCounts(extract, req.uploads, tempDir);
  }

  /** What a successful response echoes of its request: skills_searched is None exactly when
      the skills field is absent or holds nothing but whitespace and commas, and otherwise lists
      the clean skills parsed from it; min_experience_searched is None exactly when the minimum
      is at most 0 and otherwise that minimum; the preview has at most 203 characters. */
  lemma ResponseEchoesRequest(extract: Extractor, similarity: Similarity, req: RankRequest, tempDir: string)
    requires RankOutcome(extract, similarity, req, tempDir).Ok?
    ensures var resp := RankOutcome(extract, similarity, req, tempDir).value;
            var field := if req.skills.Some? then req.skills.value else "";
            && (resp.skillsSearched.None? <==> AllSpaceOr(field, ','))
            && (resp.skillsSearched.Some? ==>
                  && resp.skillsSearched.value == ParseSkills(field)
                  && forall i :: 0 <= i < |resp.skillsSearched.value| ==> CleanSkill(resp.skillsSearched.value[i]))
            && (resp.minExperienceSearched.None? <==> MinExperienceOf(req) <= 0)
            && (resp.minExperienceSearched.Some? ==> resp.minExperienceSearched.value == MinExperienceOf(req) >= 1)
            && resp.topK == TopKOf(req)
            && |resp.jobCircularPreview| <= PreviewLength + 3
  {
    ResolveTextsCounts(extract, req.uploads, tempDir);
    var (resumes, texts) := ResolveTexts(extract, req.uploads, tempDir).value;
    var scored := ScoreAll(texts.keys, texts.m, RequestScorer(similarity, req));
    assert RankOutcome(extract, similarity, req, tempDir).value == Respond(req, texts.Len(), scored);
    var field := if req.skills.Some? then req.skills.value else "";
    AppSkillsIsParse(req);
    ParseSkillsEmptyIff(field);
    ParseSkillsClean(field);
    PreviewShape(req.jobCircular);
  }
}
