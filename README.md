# Resume ranker: scoring and ranking core

This project models the deterministic core of a resume-ranking service in Dafny and proves
properties of it. The service has two HTTP front-ends:

- a classifier endpoint (`ResumeClassifyAPIView.post` in views.py);
- an embedding-similarity endpoint (`rank_resumes` in app.py).

Both share the helpers in utils.py. Each front-end:

1. resolves the uploaded files (plain documents and ZIP archives) into one filename-to-path dict;
2. extracts the text of every resolved file, silently skipping failures;
3. scores every text;
4. sorts the scores in descending order of final score and keeps the first `top_k`.

The modules follow the program:

- `Text` covers the Python string operations the code relies on: `isspace`, ASCII `lower`, `strip`, `split(',')`, `split()`, `in` and `f"{n}"`.
- `OrderedDict` models a Python `dict` as an insertion-ordered key list plus a map. Keyed assignment keeps an existing key's position, and `update` appends only new keys.
- `Seqs` holds generic prefix facts used by the loops.
- `Outcomes` holds `Option`, `Result` and the error kinds the pipeline raises.
- `Ingest` models the utils.py file handling:
  - the extension rules;
  - `extract_text_from_file`;
  - `extract_resumes_from_zip`;
  - `process_resume_files`;
  - `extract_all_resume_texts`.
- `Scoring` models `calculate_skill_bonus`, `calculate_job_relevance`, `round(x, 4)`, the two score blends and the skill-list parse.
- `Ranking` models the stable `sort(key=..., reverse=True)`, the `[:top_k]` slice and the 200-character preview.
- `ClassifyView` models the views.py endpoint and the request bounds of serializers.py.
- `RankApp` models the app.py endpoint.

The code's loops become `method`s with loop invariants, each proved equal to a specification
function: the upload loop, the ZIP walk, the text loop, the year probe with its `break`, and
the two scoring loops. The properties are proved about those functions.

Outside code is injected as function parameters:

- the PDF/DOCX/TXT readers, as an `Extractor` from the format and path to an optional text;
- the ZIP unpack-and-walk, as the optional listing of (name, path) pairs it yields for each upload;
- the classifier's `predict_batch`, as a function from the text dict to its (filename, prediction) items;
- the embedding cosine similarity, as a function from the job circular and a resume text to a real.

## Model

| member | source | states |
|---|---|---|
| Text.Strip | views.py:63 | str.strip() returns a contiguous piece of its input |
| Text.StripPadded | views.py:63 | what strip() removes is whitespace only: the result sits in its input between a whitespace-only head and a whitespace-only tail |
| Text.StripEnds | views.py:63 | a stripped string is empty or starts and ends with a non-whitespace character |
| Text.StripIdempotent | views.py:63 | stripping an already stripped string changes nothing |
| Text.StripEmptyIff | views.py:63 | strip() gives "" exactly when every character is whitespace (the `if s.strip()` filter) |
| Text.JoinSplitOn | views.py:63 | joining the pieces of split(',') with ',' gives the string back |
| Text.SplitOnJoin | views.py:63 | splitting a ','-join of comma-free pieces gives the pieces back |
| Text.JoinBlankIff | views.py:62-63 | comma-free pieces are all whitespace exactly when their ','-join holds only whitespace and commas |
| Text.WordsEmptyIff | utils.py:152-155 | str.split() finds no word exactly when the text is all whitespace |
| Text.WordsAreSubstrings | utils.py:152-153 | every word split() returns occurs in the text |
| Text.IsSubstringIff | utils.py:135 | the `in` test holds exactly when the pattern occurs at some index |
| Text.Decimal | utils.py:140 | f"{yrs}" is a non-empty string of decimal digits with no leading zero unless it is "0" |
| Text.DecimalRoundTrip | utils.py:140 | the digits f"{yrs}" writes read back as yrs |
| Text.LowerIdempotent | utils.py:132 | lower-casing twice is lower-casing once |
| OrderedDict.Dict.Put | utils.py:74 | keyed assignment sets the value and keeps an existing key's position, or appends a new key |
| OrderedDict.Dict.Update | utils.py:101 | dict.update takes every value of the argument and appends only the keys that are new |
| OrderedDict.PutValid | utils.py:103 | keyed assignment keeps the keys distinct and in step with the map |
| OrderedDict.UpdateValid | utils.py:101 | update keeps the keys distinct and in step with the map |
| OrderedDict.FromPairsAppend | utils.py:99-101 | assigning one list of pairs and then another equals updating with the second dict |
| OrderedDict.FromPairsHasKey | utils.py:74 | after assigning a list of pairs, a key is present exactly when some pair has it |
| OrderedDict.FromPairsLastWins | utils.py:74 | the value of a key is that of its last pair in the list |
| OrderedDict.FromPairsDistinct | views.py:96-98 | pairs with distinct keys give a dict with exactly those keys and values, in order |
| Ingest.LastIndexOfIsLast | utils.py:91 | rfind returns an occurrence, and no occurrence follows it |
| Ingest.BaseName | utils.py:91 | a basename has no '/' |
| Ingest.JoinPath | utils.py:92 | a path joined from a directory and a bare name has that name as its basename |
| Ingest.FormatIgnoresCase | utils.py:46 | the upper- or lower-case spelling of an extension selects the same reader |
| Ingest.ExtractText | utils.py:44-55 | extraction fails only for an unsupported format or a failing reader, with the matching error |
| Ingest.ExtractTextDispatch | utils.py:44-55 | an unsupported suffix fails without calling a reader; otherwise the result is the one reader the lower-cased suffix selects |
| Ingest.ExtractTextUsesOneReader | utils.py:46-53 | two extractors that agree on the selected reader give the same result |
| Ingest.ZipDictSnoc | utils.py:70-74 | each walked file with a supported name is assigned under its bare name; other files change nothing |
| Ingest.ExtractResumesFromZip | utils.py:58-78 | an archive that cannot be opened fails; otherwise the result is the filtered walk |
| Ingest.ZipDictHasKey | utils.py:69-74 | a name is in the ZIP dict exactly when it is supported and some walked file has it |
| Ingest.ZipDictLastWins | utils.py:69-74 | a duplicate bare name maps to the path of the last file walked |
| Ingest.AddUploadOutcome | utils.py:96-105 | one upload is added exactly when it is an openable ZIP or a .pdf/.docx/.txt document, and fails otherwise |
| Ingest.AddUploadStep | utils.py:96-105 | the loop body merges a ZIP with update, records a document under its basename, and fails otherwise |
| Ingest.ProcessResumeFiles | utils.py:81-107 | the upload loop computes the fold of the uploads, and its result is a valid dict |
| Ingest.ProcessValid | utils.py:86-107 | a successful batch yields a dict with distinct keys in step with its map |
| Ingest.ProcessErrorSticks | utils.py:90-105 | a failure part-way through is the failure of the whole batch |
| Ingest.ProcessOkIff | utils.py:90-107 | the batch succeeds exactly when every upload is accepted |
| Ingest.ProcessFirstRejection | utils.py:90-105 | a failing batch fails with the rejection of its first upload that is not accepted |
| Ingest.ProcessIsAssignmentInOrder | utils.py:90-107 | the batch's dict is the keyed assignment of every upload's contributions, in upload order |
| Ingest.ProcessLookup | utils.py:99-103 | a name maps to the path of its last contribution |
| Ingest.DirectUploadRecorded | utils.py:102-103 | a directly uploaded document is recorded under its basename at its scratch path |
| Ingest.CollectTextsSound | utils.py:115-123 | every collected name is a resolved name, with the text its path extracts to |
| Ingest.CollectTextsComplete | utils.py:115-123 | every resolved name whose extraction succeeds is collected |
| Ingest.CollectTextsValid | utils.py:115-123 | the collected texts form a valid dict with no more entries than files read |
| Ingest.CollectEach | utils.py:115-123 | the text loop computes the text collection of all resolved files, for any reader |
| Ingest.ExtractAllResumeTexts | utils.py:110-123 | extract_all_resume_texts never fails and returns the text collection |
| Ingest.AllTextsMeaning | utils.py:115-123 | a key has a text exactly when it is resolved and its path extracts, with that text; there are never more texts than files |
| Ingest.ResolveTextsCounts | views.py:118-119 | resolution succeeds exactly when every upload is accepted; the text keys are then resolved keys, and there are no more texts than resolved files |
| Scoring.CountFound | utils.py:135 | the number of skills found is at most the number of skills |
| Scoring.CountFoundAll | utils.py:135 | the count equals the number of skills exactly when every lower-cased skill occurs in the text |
| Scoring.CountFoundNone | utils.py:135 | the count is zero exactly when no lower-cased skill occurs |
| Scoring.Ratio | utils.py:136 | a part over its whole lies in [0, 1], is 1 exactly for the whole and 0 exactly for nothing |
| Scoring.CalculateSkillBonus | utils.py:126-144 | the accumulate, probe, `break` and clamp loop computes the skill share plus 0.3 on a year-phrase hit, capped at 1.0 |
| Scoring.SkillPartRange | utils.py:134-136 | the skill part is found/len(skills) * 0.5 within [0, 0.5]; it is 0.5 exactly when every skill is found and 0 exactly when none is |
| Scoring.SkillBonusBounds | utils.py:131-144 | the bonus is the sum of the skill and experience parts and lies in [0, 0.8] |
| Scoring.ExperiencePartIff | utils.py:138-142 | the experience part is exactly 0.3 when some yrs in [min, min+19] is mentioned as "yrs years" or "yrs+ years", and 0 otherwise |
| Scoring.NoCriteriaNoBonus | utils.py:131-144 | with no skills and no positive minimum the bonus is 0 |
| Scoring.GatingIsRedundant | views.py:88-90 | the gate `skills_list or min_experience > 0` gives the same bonus as always calling calculate_skill_bonus |
| Scoring.SubsetCard | utils.py:156-157 | a subset is no larger than its superset, and equally large only when equal |
| Scoring.JobRelevance | utils.py:147-157 | relevance lies in [0, 1] and is 0.0 for a job circular without words |
| Scoring.BlankJobIrrelevant | utils.py:154-155 | an all-whitespace job circular has relevance 0 |
| Scoring.RelevanceOneIff | utils.py:152-157 | relevance is 1 exactly when every job word occurs in the resume |
| Scoring.RelevanceZeroIff | utils.py:152-157 | relevance is 0 exactly when the resume shares no job word |
| Scoring.RelevanceIgnoresCase | utils.py:152-153 | relevance does not depend on letter case |
| Scoring.RoundHalfEven | views.py:103-106 | the rounded integer is within 0.5 of the value |
| Scoring.RoundHalfEvenMonotone | views.py:103-106 | rounding to an integer keeps order |
| Scoring.RoundHalfEvenInt | views.py:103-106 | an integer rounds to itself |
| Scoring.Round4 | views.py:103-106 | round(x, 4) is within 0.00005 of x |
| Scoring.Round4Properties | views.py:103-106 | round(x, 4) keeps order and [0, 1], and rounding twice is rounding once |
| Scoring.ClassifierScore | views.py:93-94 | confidence * 0.5 + relevance * 0.3 + bonus * 0.2 lies in [0, 1] for inputs in [0, 1] |
| Scoring.EmbeddingScore | app.py:96 | similarity * 0.8 + bonus * 0.2 lies between the smaller and the larger input |
| Scoring.ScoresMonotone | views.py:94 | each blend grows with each input |
| Scoring.StripKeepsAbsent | views.py:63 | stripping never introduces a character, so pieces of split(',') stay comma-free |
| Scoring.KeepStrippedClean | views.py:63 | every kept piece is non-empty, stripped and comma-free |
| Scoring.ParseSkillsClean | views.py:62-63 | every parsed skill is non-empty, stripped and comma-free |
| Scoring.KeepStrippedOfClean | views.py:63 | strip-and-drop-empties leaves a list of clean skills as it is |
| Scoring.ParseJoinedSkills | views.py:62-63 | parsing the comma-join of clean skills gives them back, in order, the empty list included |
| Scoring.KeepStrippedEmptyIff | views.py:63 | the comprehension keeps no piece exactly when every piece strips to "" |
| Scoring.ParseSkillsEmptyIff | views.py:62-63 | a skills field gives no skills exactly when it holds nothing but whitespace and commas |
| Scoring.BlankSkillsField | views.py:62-63 | an empty or blank skills field gives no skills |
| Ranking.InsertPermutes | views.py:111 | inserting adds exactly one element |
| Ranking.InsertSorted | views.py:111 | inserting into a descending list keeps it descending |
| Ranking.SortDescPermutes | views.py:111 | the sort is descending by key and a permutation of its input |
| Ranking.InsertWithKey | views.py:111 | the inserted element goes ahead of every element with the same key |
| Ranking.SortDescStable | views.py:111 | the sort keeps the input order of the elements of each key |
| Ranking.Prefix | views.py:112 | s[:k] is a prefix with min(k, n) elements, or max(n + k, 0) for a negative k |
| Ranking.PrefixOfSorted | views.py:111-112 | a prefix of a descending list is descending, and nothing left out outscores what is kept |
| Ranking.WithKeyTake | views.py:112 | the elements of one key in a prefix are a prefix of those in the list |
| Ranking.RankedFacts | views.py:111-112 | sort then slice: descending, min(top_k, n) entries, drawn from the input, the best kept, and equal scores in input order |
| Ranking.RankedAll | app.py:106-107 | a top_k of at least n keeps every result |
| Ranking.Preview | views.py:115 | the job circular itself up to 200 characters, else its first 200 characters followed by "..." |
| Ranking.PreviewShape | app.py:112 | the preview has at most 203 characters and starts like the job circular |
| Ranking.PreviewIdempotent | views.py:115 | previewing a preview changes nothing |
| ClassifyView.TopCategories | views.py:96-98 | the reported categories form a valid dict of at most 5 entries |
| ClassifyView.TopCategoriesFirstFive | views.py:96-98 | they are the first min(5, n) items of the classifier's mapping, in order, with their probabilities |
| ClassifyView.ScoreResumeBounds | views.py:84-106 | with a confidence in [0, 1] every reported score is in [0, 1], and the final score is the rounded blend of the unrounded sub-scores |
| ClassifyView.ScoreAllFailsInternally | views.py:81-82 | the scoring loop fails only on a predicted filename without a text (KeyError) |
| ClassifyView.ScoreAllErrorSticks | views.py:81-82 | a failure part-way through the loop is the failure of the request |
| ClassifyView.ScoreAllMeaning | views.py:80-108 | the loop succeeds exactly when every predicted name has a text, and then yields one entry per prediction, in order |
| ClassifyView.ScoreOne | views.py:82-108 | the loop body, with its gated bonus, computes the scored entry |
| ClassifyView.ScorePredictions | views.py:80-108 | the loop computes the scoring of all predictions |
| ClassifyView.Classify | views.py:47-124 | the endpoint computes the specified outcome |
| ClassifyView.RejectsInvalid | views.py:47-52 | a request is refused as invalid exactly when it breaks the serializer's bounds (a file, top_k >= 1, min_experience >= 0) |
| ClassifyView.AnswerFacts | views.py:110-122 | the response ranks one entry per prediction: descending, min(top_k, n) long, equal scores in prediction order; 1 <= processed_resumes <= total_resumes |
| ClassifyView.ResponseFacts | views.py:110-122 | every successful response is valid and resolved, with the ranking and count facts |
| ClassifyView.ResponseEchoesRequest | views.py:62-122 | in a successful response skills_searched is None exactly when the skills field holds only whitespace and commas, else its clean parsed skills; min_experience is None exactly when the minimum is 0, else that positive minimum; top_k >= 1; the preview has at most 203 characters |
| RankApp.AppSkillsIsParse | app.py:57-59 | an absent or empty skills field gives no skills; otherwise the result is the parsed list |
| RankApp.ScoreResumeBounds | app.py:88-103 | for a similarity in [-1, 1], the bonus is in [0, 0.8] and the final score in [-1, 1], within rounding of the unrounded blend |
| RankApp.RoundBetween | app.py:100-102 | round(x, 4) stays between bounds that are multiples of 0.0001 |
| RankApp.ScoreAllMeaning | app.py:84-103 | the loop yields one entry per text, in dict order |
| RankApp.ScoreOne | app.py:85-103 | the loop body, with its gated bonus, computes the scored entry |
| RankApp.ScoreTexts | app.py:82-103 | the loop computes the scoring of all texts |
| RankApp.RankResumes | app.py:51-116 | the endpoint computes the specified outcome |
| RankApp.RespondRanking | app.py:106-107 | the ranking is descending, min(top_k, n) long (the Python slice for a negative top_k), keeps all n when top_k >= n, and keeps equal scores in dict order |
| RankApp.AnswerFacts | app.py:84-110 | total_resumes is the number of extracted texts; each text yields one entry under its filename, in dict order |
| RankApp.ResponseFacts | app.py:63-116 | a successful response has 1 <= total_resumes = texts <= resolved files, with the ranking facts |
| RankApp.RankFailures | app.py:63-75 | a rejected upload fails with its rejection, and no extracted text fails with NoExtractableText; nothing else fails |
| RankApp.ResponseEchoesRequest | app.py:56-116 | in a successful response skills_searched is None exactly when the skills field is absent or holds only whitespace and commas, else its clean parsed skills; min_experience_searched is None exactly when the minimum is at most 0, else that minimum; the preview has at most 203 characters |

## Left out

- PDF, DOCX and UTF-8 file reading are foreign library calls (utils.py:11-41). They are one injected `Extractor`; its text is taken as already stripped, and a raised exception is `None`.
- `zipfile.extractall`, `os.walk`, writing uploads to disk, `tempfile.mkdtemp` and `shutil.rmtree` are file-system I/O. Each upload carries the (name, path) listing its walk produces, or `None` for an archive that cannot be opened.
- The ZIP walk's listing order and the walk's scan of the whole scratch directory (which also holds earlier uploads) are given by that listing, not derived.
- The sentence-transformer embedding and cosine similarity (app.py:79-88) and the classifier are black boxes passed in as functions. model.py's `create_classifier`, imported at views.py:16, is not part of this model.
- Ordering of equal scores among themselves is modelled by a stable insertion sort's result. Python's Timsort and its in-place update of `results` are not modelled; the list is a value.
- Scoring.Round4: Python floats are modelled as exact reals, so `round(x, 4)` rounds the exact decimal value half to even. Python rounds the nearest binary double, which can differ at ties.
- Text.Lower: lower-cases ASCII letters only; Python's full Unicode case mapping is not modelled.
- Ingest.BaseName: POSIX `os.path.basename` only; Windows separators are not modelled.
- The HTTP status codes, the response dicts' exact field layout, error messages, logging and prints are plumbing. Errors are kinds in `Outcomes.Error`; the `ValueError` versus other-exception split that picks 400 or 500 is not modelled.
- The classifier endpoint's `int()` parsing of the form fields and DRF's CharField blank/trim checks on `job_circular` and `skills` are not modelled. `ValidRequest` states only the numeric bounds and the non-empty file list.
- RankApp models the endpoint as intended, with every upload readable by name and content. app.py:63 hands FastAPI `UploadFile` objects to `process_resume_files`, which reads `file.name` and calls `file.read()` synchronously (utils.py:91,94). Starlette's `UploadFile` is understood to offer `.filename` and an asynchronous `read`; if so, the endpoint as written fails before any scoring. That library behaviour is not part of this model.
- In app.py, an explicitly empty `min_experience` (None) would raise at `min_experience > 0`. The model's minimum is always an integer, 0 by default.
- The module-level `temp_dirs` list (app.py:25) and the health, info and categories views have no role in ranking.
