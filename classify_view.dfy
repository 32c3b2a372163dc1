/** The classification endpoint of views.py (ResumeClassifyAPIView.post): validate the request,
    resolve and extract the uploads, score every prediction of the classifier with the
    0.5/0.3/0.2 blend, sort by final score and keep the first top_k. The classifier is an
    injected function; files are resolved and read as in Ingest. */
module ClassifyView {
  import opened Outcomes
  import opened OrderedDict
  import opened Seqs
  import opened Text
  import opened Ingest
  import opened Scoring
  import opened Ranking

  /** What the classifier reports for one resume: its category, its confidence and the items of
      its category-to-probability mapping, in the classifier's order. */
  datatype Prediction = Prediction(predictedCategory: string, confidence: real, allPredictions: seq<(string, real)>)

  /** predict_batch over the filename-to-text dict, as the items of the dict it returns. */
  type Classifier = Dict<string, string> -> seq<(string, Prediction)>

  /** One entry of ranked_resumes; the four scores are rounded to four places. */
  datatype ClassifiedResume = ClassifiedResume(
    filename: string,
    predictedCategory: string,
    confidence: real,
    jobRelevance: real,
    skillBonus: real,
    finalScore: real,
    topCategories: Dict<string, real>)

  /** The sort key. */
  function FinalScore(r: ClassifiedResume): real {
    r.finalScore
  }

  const MaxTopCategories := 5

  /** dict(list(all_predictions.items())[:5]) */
  function TopCategories(allPredictions: seq<(string, real)>): (d: Dict<string, real>)
    ensures d.Valid() && d.Len() <= MaxTopCategories
  {
    var first := allPredictions[..Min(MaxTopCategories, |allPredictions|)];
    FromPairsValid(first);
    FromPairsLen(first);
    FromPairs(first)
  }

  /** Top categories: for the items of a dict (distinct names), the reported categories are the
      first five items, in order, with their probabilities. */
  lemma TopCategoriesFirstFive(allPredictions: seq<(string, real)>)
    requires forall i, j :: 0 <= i < j < |allPredictions| ==> allPredictions[i].0 != allPredictions[j].0
    ensures var d := TopCategories(allPredictions);
            && d.Len() == Min(MaxTopCategories, |allPredictions|)
            && forall i :: 0 <= i < d.Len() ==>
                 d.keys[i] == allPredictions[i].0 && d.m[d.keys[i]] == allPredictions[i].1
  {
    var first := allPredictions[..Min(MaxTopCategories, |allPredictions|)];
    assert forall i :: 0 <= i < |first| ==> first[i] == allPredictions[i];
    FromPairsDistinct(first);
  }

  /** The entry the loop appends for one prediction of a resume with the given text. */
  function ScoreResume(filename: string, prediction: Prediction, resumeText: string, jobCircular: string,
                       skills: seq<string>, minExperience: int): ClassifiedResume
  {
    var relevance := JobRelevance(resumeText, jobCircular);
    var bonus := GatedBonus(resumeText, skills, minExperience);
    var confidence := prediction.confidence;
    ClassifiedResume(filename, prediction.predictedCategory, Round4(confidence), Round4(relevance), Round4(bonus),
                     Round4(ClassifierScore(confidence, relevance, bonus)), TopCategories(prediction.allPredictions))
  }

  /** Classifier blend: with a confidence in [0, 1], every reported score is in [0, 1], and the
      final score is the rounded blend of the (rounded-before) sub-scores' exact values. */
  lemma ScoreResumeBounds(filename: string, prediction: Prediction, resumeText: string, jobCircular: string,
                          skills: seq<string>, minExperience: int)
    requires 0.0 <= prediction.confidence <= 1.0
    ensures var r := ScoreResume(filename, prediction, resumeText, jobCircular, skills, minExperience);
            && 0.0 <= r.confidence <= 1.0 && 0.0 <= r.jobRelevance <= 1.0
            && 0.0 <= r.skillBonus <= 1.0 && 0.0 <= r.finalScore <= 1.0
            && r.finalScore == Round4(ClassifierScore(prediction.confidence, JobRelevance(resumeText, jobCircular),
                                                      SkillBonus(resumeText, skills, minExperience)))
  {
    var relevance := JobRelevance(resumeText, jobCircular);
    var bonus := GatedBonus(resumeText, skills, minExperience);
    GatingIsRedundant(resumeText, skills, minExperience);
    SkillBonusBounds(resumeText, skills, minExperience);
    Round4Properties(prediction.confidence, 0.0);
    Round4Properties(relevance, 0.0);
    Round4Properties(bonus, 0.0);
    Round4Properties(ClassifierScore(prediction.confidence, relevance, bonus), 0.0);
  }

  /** How the loop scores one prediction given the resume's text. */
  type Scorer = (string, Prediction, string) -> ClassifiedResume

  /** The scorer of a request: its job circular, parsed skills and minimum experience. */
  function ScorerFor(jobCircular: string, skills: seq<string>, minExperience: int): Scorer {
    (filename: string, prediction: Prediction, resumeText: string) =>
      ScoreResume(filename, prediction, resumeText, jobCircular, skills, minExperience)
  }

  /** The scoring loop over the predictions: every predicted filename is looked up among the
      texts, and a name without a text raises (a KeyError, reported as an internal error). */
  function ScoreAll(predictions: seq<(string, Prediction)>, texts: Dict<string, string>, score: Scorer): Result<seq<ClassifiedResume>> {
    if predictions == [] then Ok([])
    else
      match ScoreAll(predictions[..|predictions| - 1], texts, score)
      case Err(e) => Err(e)
      case Ok(results) =>
        var (filename, prediction) := predictions[|predictions| - 1];
        if filename in texts.m then Ok(results + [score(filename, prediction, texts.m[filename])])
        else Err(InternalError)
  }

  lemma ScoreAllSnoc(predictions: seq<(string, Prediction)>, p: (string, Prediction), texts: Dict<string, string>, score: Scorer)
    ensures var r := ScoreAll(predictions, texts, score);
            ScoreAll(predictions + [p], texts, score) ==
              if r.Err? then r
              else if p.0 in texts.m then Ok(r.value + [score(p.0, p.1, texts.m[p.0])])
              else Err(InternalError)
  {
    InitOfSnoc(predictions, p);
  }

  lemma {:induction false} ScoreAllErrorSticks(predictions: seq<(string, Prediction)>, texts: Dict<string, string>, score: Scorer, n: nat)
    requires n <= |predictions| && ScoreAll(predictions[..n], texts, score).Err?
    ensures ScoreAll(predictions, texts, score) == Err(InternalError)
    decreases |predictions| - n
  {
    if n < |predictions| {
      TakeSnoc(predictions, n);
      ScoreAllSnoc(predictions[..n], predictions[n], texts, score);
      ScoreAllErrorSticks(predictions, texts, score, n + 1);
    } else {
      TakeAll(predictions);
      ScoreAllFailsInternally(predictions, texts, score);
    }
  }

  /** The only way the loop fails is a predicted filename without a text. */
  lemma {:induction false} ScoreAllFailsInternally(predictions: seq<(string, Prediction)>, texts: Dict<string, string>, score: Scorer)
    ensures ScoreAll(predictions, texts, score).Err? ==> ScoreAll(predictions, texts, score) == Err(InternalError)
  {
    if predictions != [] {
      ScoreAllFailsInternally(predictions[..|predictions| - 1], texts, score);
    }
  }

  /** The loop succeeds exactly when every predicted filename has a text, and then it yields one
      entry per prediction, in prediction order. */
  lemma {:induction false} ScoreAllMeaning(predictions: seq<(string, Prediction)>, texts: Dict<string, string>, score: Scorer)
    ensures ScoreAll(predictions, texts, score).Ok? <==> forall i :: 0 <= i < |predictions| ==> predictions[i].0 in texts.m
    ensures ScoreAll(predictions, texts, score).Ok? ==>
              var results := ScoreAll(predictions, texts, score).value;
              && |results| == |predictions|
              && forall i :: 0 <= i < |predictions| ==>
                   results[i] == score(predictions[i].0, predictions[i].1, texts.m[predictions[i].0])
  {
    if predictions != [] {
      var init := predictions[..|predictions| - 1];
      var p := predictions[|predictions| - 1];
      InitLast(predictions);
      ScoreAllSnoc(init, p, texts, score);
      ScoreAllMeaning(init, texts, score);
      assert forall i :: 0 <= i < |init| ==> init[i] == predictions[i];
    }
  }

  // ---------------------------------------------------------------------------
  // the request

  /** The form fields; a field the client leaves out is None. */
  datatype ClassifyRequest = ClassifyRequest(
    jobCircular: string,
    uploads: seq<Upload>,
    topK: Option<int>,
    skills: Option<string>,
    minExperience: Option<int>)

  /** top_k, 5 by default. */
  function TopKOf(req: ClassifyRequest): int {
    if req.topK.Some? then req.topK.value else 5
  }

  /** min_experience, 0 by default. */
  function MinExperienceOf(req: ClassifyRequest): int {
    if req.minExperience.Some? then req.minExperience.value else 0
  }

  /** skills, empty by default. */
  function SkillsFieldOf(req: ClassifyRequest): string {
    if req.skills.Some? then req.skills.value else ""
  }

  /** Request bounds the upload serializer enforces: at least one file, top_k at least 1 and
      min_experience at least 0. */
  predicate ValidRequest(req: ClassifyRequest) {
    req.uploads != [] && TopKOf(req) >= 1 && MinExperienceOf(req) >= 0
  }

  /** The parsed skills of a request. */
  function RequestSkills(req: ClassifyRequest): seq<string> {
    ParseSkills(SkillsFieldOf(req))
  }

  /** The scorer of a request. */
  function RequestScorer(req: ClassifyRequest): Scorer {
    ScorerFor(req.jobCircular, RequestSkills(req), MinExperienceOf(req))
  }

  datatype ClassifyResponse = ClassifyResponse(
    jobCircularPreview: string,
    skillsSearched: Option<seq<string>>,
    minExperience: Option<int>,
    totalResumes: nat,
    processedResumes: nat,
    topK: int,
    rankedResumes: seq<ClassifiedResume>)

  /** The response for the scored results of a request with the given file counts. */
  function Respond(req: ClassifyRequest, totalResumes: nat, processedResumes: nat, results: seq<ClassifiedResume>): ClassifyResponse {
    var skillsList := RequestSkills(req);
    var minExperience := MinExperienceOf(req);
    ClassifyResponse(
      Preview(req.jobCircular),
      if skillsList == [] then None else Some(skillsList),
      if minExperience > 0 then Some(minExperience) else None,
      totalResumes,
      processedResumes,
      TopKOf(req),
      Ranked(results, FinalScore, TopKOf(req)))
  }

  /** What the endpoint answers once the files are resolved and read (or have failed to be). */
  function Answer(req: ClassifyRequest, resolved: Result<(Dict<string, string>, Dict<string, string>)>, classifier: Classifier): Result<ClassifyResponse> {
    match resolved
    case Err(e) => Err(e)
    case Ok((resumes, texts)) =>
      if texts.Len() == 0 then Err(NoExtractableText)
      else
        match ScoreAll(classifier(texts), texts, RequestScorer(req))
        case Err(e) => Err(e)
        case Ok(results) => Ok(Respond(req, resumes.Len(), texts.Len(), results))
  }

  /** What the endpoint answers. */
  function ClassifyOutcome(extract: Extractor, classifier: Classifier, req: ClassifyRequest, tempDir: string): Result<ClassifyResponse> {
    if !ValidRequest(req) then Err(ValidationError)
    else Answer(req, ResolveTexts(extract, req.uploads, tempDir), classifier)
  }

  /** The entry of one prediction, as the loop body computes it. */
  method ScoreOne(filename: string, prediction: Prediction, resumeText: string, jobCircular: string,
                  skillsList: seq<string>, minExperience: int) returns (c: ClassifiedResume)
    ensures c == ScoreResume(filename, prediction, resumeText, jobCircular, skillsList, minExperience)
  {
    var relevance := JobRelevance(resumeText, jobCircular);
    var bonus := 0.0;
    if skillsList != [] || minExperience > 0 {
      bonus := CalculateSkillBonus(resumeText, skillsList, minExperience);
    }
    GatingIsRedundant(resumeText, skillsList, minExperience);
    var confidence := prediction.confidence;
    var finalScore := ClassifierScore(confidence, relevance, bonus);
    var topPredictions := TopCategories(prediction.allPredictions);
    c := ClassifiedResume(filename, prediction.predictedCategory, Round4(confidence),
                          Round4(relevance), Round4(bonus), Round4(finalScore), topPredictions);
  }

  /** The loop over the predictions. */
  method ScorePredictions(predictions: seq<(string, Prediction)>, resumeTexts: Dict<string, string>,
                          jobCircular: string, skillsList: seq<string>, minExperience: int)
    returns (r: Result<seq<ClassifiedResume>>)
    ensures r == ScoreAll(predictions, resumeTexts, ScorerFor(jobCircular, skillsList, minExperience))
  {
    ghost var score := ScorerFor(jobCircular, skillsList, minExperience);
    var results: seq<ClassifiedResume> := [];
    var i := 0;
    while i < |predictions|
      invariant 0 <= i <= |predictions|
      invariant ScoreAll(predictions[..i], resumeTexts, score) == Ok(results)
    {
      var (filename, prediction) := predictions[i];
      TakeSnoc(predictions, i);
      ScoreAllSnoc(predictions[..i], predictions[i], resumeTexts, score);
      if filename !in resumeTexts.m {
        ScoreAllErrorSticks(predictions, resumeTexts, score, i + 1);
        return Err(InternalError);
      }
      var entry := ScoreOne(filename, prediction, resumeTexts.m[filename], jobCircular, skillsList, minExperience);
      results := results + [entry];
      i := i + 1;
    }
    TakeAll(predictions);
    return Ok(results);
  }

  /** ResumeClassifyAPIView.post */
  method Classify(extract: Extractor, classifier: Classifier, req: ClassifyRequest, tempDir: string) returns (r: Result<ClassifyResponse>)
    ensures r == ClassifyOutcome(extract, classifier, req, tempDir)
  {
    if !ValidRequest(req) {
      return Err(ValidationError);
    }
    var jobCircular := req.jobCircular;
    var topK := TopKOf(req);
    var skillsList := ParseSkills(SkillsFieldOf(req));
    var minExperience := MinExperienceOf(req);

    var resumes := ProcessResumeFiles(req.uploads, tempDir);
    if resumes.Err? {
      return Err(resumes.error);
    }
    var resumeTexts := ExtractAllResumeTexts(extract, resumes.value);
    if resumeTexts.Len() == 0 {
      return Err(NoExtractableText);
    }

    var scored := ScorePredictions(classifier(resumeTexts), resumeTexts, jobCircular, skillsList, minExperience);
    if scored.Err? {
      return Err(scored.error);
    }
    var results := StableSortDesc(scored.value, FinalScore);
    results := Prefix(results, topK);

    return Ok(ClassifyResponse(
      Preview(jobCircular),
      if skillsList == [] then None else Some(skillsList),
      if minExperience > 0 then Some(minExperience) else None,
      resumes.value.Len(),
      resumeTexts.Len(),
      topK,
      results));
  }

  // ---------------------------------------------------------------------------
  // what a response promises

  /** Request bounds: an invalid request is refused before any file is looked at, and a valid
      one is never refused as invalid. */
  lemma RejectsInvalid(extract: Extractor, classifier: Classifier, req: ClassifyRequest, tempDir: string)
    ensures !ValidRequest(req) <==> ClassifyOutcome(extract, classifier, req, tempDir) == Err(ValidationError)
  {
    if ValidRequest(req) {
      var resolved := ResolveTexts(extract, req.uploads, tempDir);
      if resolved.Err? {
        ProcessFirstRejection(req.uploads, tempDir);
      } else {
        var (resumes, texts) := resolved.value;
        ScoreAllFailsInternally(classifier(texts), texts, RequestScorer(req));
      }
    }
  }

  /** Ranking and counts: a response ranks the scored predictions (one entry per prediction)
      with Ranked, so it is non-increasing in final score, has min(top_k, n) entries for n
      predictions, and keeps prediction order among equal scores; processed_resumes is at least
      1 and at most total_resumes. */
  lemma AnswerFacts(req: ClassifyRequest, resumes: Dict<string, string>, texts: Dict<string, string>,
                    classifier: Classifier, v: real)
    requires texts.Len() <= resumes.Len()
    requires Answer(req, Ok((resumes, texts)), classifier).Ok?
    ensures var resp := Answer(req, Ok((resumes, texts)), classifier).value;
            var predictions := classifier(texts);
            var scored := ScoreAll(predictions, texts, RequestScorer(req));
            && scored.Ok?
            && |scored.value| == |predictions|
            && resp.rankedResumes == Ranked(scored.value, FinalScore, TopKOf(req))
            && SortedDesc(resp.rankedResumes, FinalScore)
            && (TopKOf(req) >= 0 ==> |resp.rankedResumes| == Min(TopKOf(req), |predictions|))
            && WithKey(resp.rankedResumes, FinalScore, v) <= WithKey(scored.value, FinalScore, v)
            && 1 <= resp.processedResumes <= resp.totalResumes
  {
    var scored := ScoreAll(classifier(texts), texts, RequestScorer(req));
    ScoreAllMeaning(classifier(texts), texts, RequestScorer(req));
    RankedFacts(scored.value, FinalScore, TopKOf(req), v);
  }

  /** A successful response is the ranked answer for the resolved files, with at most as many
      processed as total resumes. */
  lemma ResponseFacts(extract: Extractor, classifier: Classifier, req: ClassifyRequest, tempDir: string, v: real)
    requires ClassifyOutcome(extract, classifier, req, tempDir).Ok?
    ensures ValidRequest(req)
    ensures ResolveTexts(extract, req.uploads, tempDir).Ok?
    ensures var resp := ClassifyOutcome(extract, classifier, req, tempDir).value;
            var (resumes, texts) := ResolveTexts(extract, req.uploads, tempDir).value;
            var scored := ScoreAll(classifier(texts), texts, RequestScorer(req));
            && scored.Ok?
            && SortedDesc(resp.rankedResumes, FinalScore)
            && |resp.rankedResumes| == Min(TopKOf(req), |classifier(texts)|)
            && WithKey(resp.rankedResumes, FinalScore, v) <= WithKey(scored.value, FinalScore, v)
            && 1 <= resp.processedResumes <= resp.totalResumes
  {
    ResolveTextsCounts(extract, req.uploads, tempDir);
    var (resumes, texts) := ResolveTexts(extract, req.uploads, tempDir).value;
    AnswerFacts(req, resumes, texts, classifier, v);
  }

  /** What a successful response echoes of its request: skills_searched is None exactly when
      the skills field holds nothing but whitespace and commas, and otherwise lists the clean
      skills parsed from it; min_experience is None exactly when the minimum is 0 and otherwise
      that positive minimum; top_k is at least 1; the preview has at most 203 characters. */
  lemma ResponseEchoesRequest(extract: Extractor, classifier: Classifier, req: ClassifyRequest, tempDir: string)
    requires ClassifyOutcome(extract, classifier, req, tempDir).Ok?
    ensures var resp := ClassifyOutcome(extract, classifier, req, tempDir).value;
            && (resp.skillsSearched.None? <==> AllSpaceOr(SkillsFieldOf(req), ','))
            && (resp.skillsSearched.Some? ==>
                  && resp.skillsSearched.value == ParseSkills(SkillsFieldOf(req))
                  && forall i :: 0 <= i < |resp.skillsSearched.value| ==> CleanSkill(resp.skillsSearched.value[i]))
            && (resp.minExperience.None? <==> MinExperienceOf(req) == 0)
            && (resp.minExperience.Some? ==> resp.minExperience.value == MinExperienceOf(req) >= 1)
            && resp.topK == TopKOf(req) >= 1
            && |resp.jobCircularPreview| <= PreviewLength + 3
  {
    var resolved := ResolveTexts(extract, req.uploads, tempDir);
    assert ValidRequest(req);
    var (resumes, texts) := resolved.value;
    var scored := ScoreAll(classifier(texts), texts, RequestScorer(req));
    assert ClassifyOutcome(extract, classifier, req, tempDir).value == Respond(req, resumes.Len(), texts.Len(), scored.value);
    ParseSkillsEmptyIff(SkillsFieldOf(req));
    ParseSkillsClean(SkillsFieldOf(req));
    PreviewShape(req.jobCircular);
  }
}
