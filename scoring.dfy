/** The scoring arithmetic of utils.py: the skill and experience bonus, the keyword-overlap
    relevance of a resume to a job circular, round(x, 4), and the comma-separated skill
    list both front-ends parse. Scores are exact reals. */
module Scoring {
  import opened Text

  // ---------------------------------------------------------------------------
  // calculate_skill_bonus

  /** How many of the skills occur, lower-cased, in the (already lower-cased) text. */
  function CountFound(skills: seq<string>, textLower: string): (n: nat)
    ensures n <= |skills|
  {
    if skills == [] then 0
    else CountFound(skills[..|skills| - 1], textLower) +
         (if IsSubstring(Lower(skills[|skills| - 1]), textLower) then 1 else 0)
  }

  /** All skills are found exactly when the count is the number of skills. */
  lemma {:induction false} CountFoundAll(skills: seq<string>, textLower: string)
    ensures CountFound(skills, textLower) == |skills| <==>
              forall i :: 0 <= i < |skills| ==> IsSubstring(Lower(skills[i]), textLower)
  {
    if skills != [] {
      var init := skills[..|skills| - 1];
      CountFoundAll(init, textLower);
      assert forall i :: 0 <= i < |init| ==> init[i] == skills[i];
    }
  }

  /** No skill is found exactly when the count is zero. */
  lemma {:induction false} CountFoundNone(skills: seq<string>, textLower: string)
    ensures CountFound(skills, textLower) == 0 <==>
              forall i :: 0 <= i < |skills| ==> !IsSubstring(Lower(skills[i]), textLower)
  {
    if skills != [] {
      var init := skills[..|skills| - 1];
      CountFoundNone(init, textLower);
      assert forall i :: 0 <= i < |init| ==> init[i] == skills[i];
    }
  }

  /** f"{yrs} years" */
  function YearsPhrase(yrs: nat): string {
    Decimal(yrs) + " years"
  }

  /** f"{yrs}+ years" */
  function YearsPlusPhrase(yrs: nat): string {
    Decimal(yrs) + "+ years"
  }

  /** The text mentions yrs years, with or without a plus sign. */
  predicate HasYearPhrase(textLower: string, yrs: nat) {
    IsSubstring(YearsPhrase(yrs), textLower) || IsSubstring(YearsPlusPhrase(yrs), textLower)
  }

  /** A positive minimum is asked for and the text mentions some year count from the minimum
      to 19 above it. */
  predicate ExperienceMatched(textLower: string, minExperience: int) {
    minExperience > 0 &&
    exists yrs: nat :: minExperience <= yrs < minExperience + 20 && HasYearPhrase(textLower, yrs)
  }

  /** part / whole as a real, in [0, 1] for a part of the whole. */
  function Ratio(part: nat, whole: nat): (r: real)
    requires part <= whole
    ensures 0.0 <= r <= 1.0
    ensures whole > 0 ==> (r == 1.0 <==> part == whole)
    ensures r == 0.0 <==> part == 0 || whole == 0
  {
    if whole == 0 then 0.0
    else
      var q := part as real / whole as real;
      assert q * whole as real == part as real;
      q
  }

  /** found / len(skills) * 0.5, and nothing for an empty skill list. */
  function SkillPart(skills: seq<string>, textLower: string): real {
    if skills == [] then 0.0 else Ratio(CountFound(skills, textLower), |skills|) * 0.5
  }

  /** 0.3 when the experience is matched, else nothing. */
  function ExperiencePart(textLower: string, minExperience: int): real {
    if ExperienceMatched(textLower, minExperience) then 0.3 else 0.0
  }

  function MinReal(a: real, b: real): real {
    if a <= b then a else b
  }

  /** What calculate_skill_bonus returns. */
  function SkillBonus(resumeText: string, skills: seq<string>, minExperience: int): real {
    var textLower := Lower(resumeText);
    MinReal(SkillPart(skills, textLower) + ExperiencePart(textLower, minExperience), 1.0)
  }

  /** calculate_skill_bonus: the skill share of 0.5, then a probe of the twenty year counts
      from the minimum up that adds 0.3 on the first hit and stops, then the clamp at 1.0. */
  method CalculateSkillBonus(resumeText: string, skills: seq<string>, minExperience: int) returns (bonus: real)
    ensures bonus == SkillBonus(resumeText, skills, minExperience)
  {
    bonus := 0.0;
    var resumeLower := Lower(resumeText);
    if |skills| > 0 {
      var found := CountFound(skills, resumeLower);
      bonus := bonus + (found as real / |skills| as real) * 0.5;
    }
    if minExperience > 0 {
      var yrs := minExperience;
      while yrs < minExperience + 20
        invariant minExperience <= yrs <= minExperience + 20
        invariant bonus == SkillPart(skills, resumeLower)
        invariant forall y: nat :: minExperience <= y < yrs ==> !HasYearPhrase(resumeLower, y)
      {
        if IsSubstring(YearsPhrase(yrs), resumeLower) || IsSubstring(YearsPlusPhrase(yrs), resumeLower) {
          assert HasYearPhrase(resumeLower, yrs);
          bonus := bonus + 0.3;
          break;
        }
        yrs := yrs + 1;
      }
    }
    if bonus > 1.0 {
      bonus := 1.0;
    }
  }

  /** Skill bonus components: the skill part is found/len(skills) * 0.5 with found at most
      len(skills), so it lies in [0, 0.5]; it is 0.5 exactly when every skill is found and 0
      exactly when none is (or there are none). */
  lemma SkillPartRange(skills: seq<string>, textLower: string)
    ensures 0.0 <= SkillPart(skills, textLower) <= 0.5
    ensures skills != [] ==>
              (SkillPart(skills, textLower) == 0.5 <==>
                 forall i :: 0 <= i < |skills| ==> IsSubstring(Lower(skills[i]), textLower))
    ensures SkillPart(skills, textLower) == 0.0 <==>
              forall i :: 0 <= i < |skills| ==> !IsSubstring(Lower(skills[i]), textLower)
  {
    CountFoundAll(skills, textLower);
    CountFoundNone(skills, textLower);
  }

  /** Skill bonus bounds: the bonus lies in [0, 0.8], so the clamp at 1.0 never changes it, and
      it is the sum of the two parts. */
  lemma SkillBonusBounds(resumeText: string, skills: seq<string>, minExperience: int)
    ensures var textLower := Lower(resumeText);
            && SkillBonus(resumeText, skills, minExperience) == SkillPart(skills, textLower) + ExperiencePart(textLower, minExperience)
            && 0.0 <= SkillBonus(resumeText, skills, minExperience) <= 0.8
  {
    SkillPartRange(skills, Lower(resumeText));
  }

  /** The experience part adds exactly 0.3 when some year count in the window is mentioned and
      a positive minimum is asked for, and nothing otherwise. */
  lemma ExperiencePartIff(resumeText: string, skills: seq<string>, minExperience: int)
    ensures var textLower := Lower(resumeText);
            SkillBonus(resumeText, skills, minExperience) - SkillPart(skills, textLower) ==
              if minExperience > 0 && exists yrs: nat :: minExperience <= yrs < minExperience + 20 && HasYearPhrase(textLower, yrs)
              then 0.3 else 0.0
  {
    SkillBonusBounds(resumeText, skills, minExperience);
  }

  /** With no skills and no positive minimum the bonus is 0. */
  lemma NoCriteriaNoBonus(resumeText: string, minExperience: int)
    requires minExperience <= 0
    ensures SkillBonus(resumeText, [], minExperience) == 0.0
  {
  }

  /** Bonus gating: the front-ends call calculate_skill_bonus only when skills are given or the
      minimum is positive, and use 0.0 otherwise. */
  function GatedBonus(resumeText: string, skills: seq<string>, minExperience: int): real {
    if skills != [] || minExperience > 0 then SkillBonus(resumeText, skills, minExperience) else 0.0
  }

  /** The gate changes nothing: without criteria the bonus is 0.0 anyway. */
  lemma GatingIsRedundant(resumeText: string, skills: seq<string>, minExperience: int)
    ensures GatedBonus(resumeText, skills, minExperience) == SkillBonus(resumeText, skills, minExperience)
  {
    if skills == [] && minExperience <= 0 {
      NoCriteriaNoBonus(resumeText, minExperience);
    }
  }

  // ---------------------------------------------------------------------------
  // calculate_job_relevance

  /** set(s.lower().split()) */
  function WordSet(s: string): set<string> {
    set w | w in Words(Lower(s))
  }

  lemma {:induction false} SubsetCard<T>(a: set<T>, b: set<T>)
    requires a <= b
    ensures |a| <= |b|
    ensures |a| == |b| ==> a == b
    decreases |b|
  {
    if b != {} {
      var x :| x in b;
      if x in a {
        SubsetCard(a - {x}, b - {x});
        assert a == (a - {x}) + {x} && b == (b - {x}) + {x};
      } else {
        SubsetCard(a, b - {x});
      }
    }
  }

  /** len(J & R) / len(J) for the word sets of the job circular and the resume, and 0.0 when
      the job circular has no words. */
  function JobRelevance(resumeText: string, jobCircular: string): (r: real)
    ensures 0.0 <= r <= 1.0
    ensures WordSet(jobCircular) == {} ==> r == 0.0
  {
    var jobWords := WordSet(jobCircular);
    var resumeWords := WordSet(resumeText);
    if |jobWords| == 0 then 0.0
    else
      SubsetCard(jobWords * resumeWords, jobWords);
      Ratio(|jobWords * resumeWords|, |jobWords|)
  }

  /** A job circular of whitespace only has no words, so its relevance is 0.0. */
  lemma BlankJobIrrelevant(resumeText: string, jobCircular: string)
    requires forall i :: 0 <= i < |jobCircular| ==> IsSpace(jobCircular[i])
    ensures JobRelevance(resumeText, jobCircular) == 0.0
  {
    var l := Lower(jobCircular);
    assert forall i :: 0 <= i < |l| ==> IsSpace(l[i]) by {
      forall i | 0 <= i < |l| ensures IsSpace(l[i]) {
        assert l[i] == LowerChar(jobCircular[i]);
      }
    }
    WordsEmptyIff(l);
  }

  /** Job relevance 1.0: exactly when every word of the job circular occurs in the resume. */
  lemma RelevanceOneIff(resumeText: string, jobCircular: string)
    requires WordSet(jobCircular) != {}
    ensures JobRelevance(resumeText, jobCircular) == 1.0 <==> WordSet(jobCircular) <= WordSet(resumeText)
  {
    var j := WordSet(jobCircular);
    var o := j * WordSet(resumeText);
    SubsetCard(o, j);
    if j <= WordSet(resumeText) {
      assert o == j;
    }
  }

  /** Job relevance 0.0: exactly when the two texts share no word. */
  lemma RelevanceZeroIff(resumeText: string, jobCircular: string)
    requires WordSet(jobCircular) != {}
    ensures JobRelevance(resumeText, jobCircular) == 0.0 <==> WordSet(jobCircular) * WordSet(resumeText) == {}
  {
    var j := WordSet(jobCircular);
    var o := j * WordSet(resumeText);
    SubsetCard(o, j);
  }

  /** Both texts are lower-cased first, so the case of either does not matter. */
  lemma RelevanceIgnoresCase(resumeText: string, jobCircular: string)
    ensures JobRelevance(Lower(resumeText), Lower(jobCircular)) == JobRelevance(resumeText, jobCircular)
  {
    LowerIdempotent(resumeText);
    LowerIdempotent(jobCircular);
  }

  // ---------------------------------------------------------------------------
  // round(x, 4)

  /** The integer nearest to y, ties to the even one, as Python's round does. */
  function RoundHalfEven(y: real): (n: int)
    ensures y - 0.5 <= n as real <= y + 0.5
  {
    var f := y.Floor;
    var d := y - f as real;
    if d < 0.5 then f
    else if d > 0.5 then f + 1
    else if f % 2 == 0 then f else f + 1
  }

  lemma RoundHalfEvenMonotone(x: real, y: real)
    requires x <= y
    ensures RoundHalfEven(x) <= RoundHalfEven(y)
  {
    var fx, fy := x.Floor, y.Floor;
    if fx == fy {
      assert x - fx as real <= y - fy as real;
    } else {
      assert fx < fy;
      if fy == fx + 1 {
        assert RoundHalfEven(x) <= fx + 1 && RoundHalfEven(y) >= fy;
      }
    }
  }

  lemma RoundHalfEvenInt(n: int)
    ensures RoundHalfEven(n as real) == n
  {
    assert (n as real).Floor == n;
  }

  /** round(x, 4): x to the nearest multiple of 0.0001, ties to even. */
  function Round4(x: real): (r: real)
    ensures x - 0.00005 <= r <= x + 0.00005
  {
    RoundHalfEven(x * 10000.0) as real / 10000.0
  }

  /** Rounding keeps order (a larger score never rounds below a smaller one), keeps [0, 1],
      and rounding a rounded value changes nothing. */
  lemma Round4Properties(x: real, y: real)
    ensures x <= y ==> Round4(x) <= Round4(y)
    ensures 0.0 <= x <= 1.0 ==> 0.0 <= Round4(x) <= 1.0
    ensures Round4(Round4(x)) == Round4(x)
  {
    if x <= y {
      RoundHalfEvenMonotone(x * 10000.0, y * 10000.0);
    }
    if 0.0 <= x <= 1.0 {
      RoundHalfEvenMonotone(0.0, x * 10000.0);
      RoundHalfEvenMonotone(x * 10000.0, 10000.0);
      RoundHalfEvenInt(0);
      RoundHalfEvenInt(10000);
    }
    var n := RoundHalfEven(x * 10000.0);
    assert Round4(x) * 10000.0 == n as real;
    RoundHalfEvenInt(n);
  }

  // ---------------------------------------------------------------------------
  // the weighted blends

  /** The classifier view's final score: confidence * 0.5 + relevance * 0.3 + bonus * 0.2. */
  function ClassifierScore(confidence: real, relevance: real, bonus: real): (r: real)
    ensures 0.0 <= confidence <= 1.0 && 0.0 <= relevance <= 1.0 && 0.0 <= bonus <= 1.0 ==> 0.0 <= r <= 1.0
  {
    confidence * 0.5 + relevance * 0.3 + bonus * 0.2
  }

  /** The embedding app's final score: similarity * 0.8 + bonus * 0.2. */
  function EmbeddingScore(similarity: real, bonus: real): (r: real)
    ensures MinReal(similarity, bonus) <= r
    ensures r <= similarity || r <= bonus
  {
    similarity * 0.8 + bonus * 0.2
  }

  /** Each blend grows with each of its inputs. */
  lemma ScoresMonotone(c: real, c': real, rel: real, rel': real, b: real, b': real)
    requires c <= c' && rel <= rel' && b <= b'
    ensures ClassifierScore(c, rel, b) <= ClassifierScore(c', rel', b')
    ensures EmbeddingScore(c, b) <= EmbeddingScore(c', b')
  {
  }

  // ---------------------------------------------------------------------------
  // [s.strip() for s in raw.split(',') if s.strip()]

  /** Each piece stripped, and the pieces that strip to nothing dropped. */
  function KeepStripped(parts: seq<string>): seq<string> {
    if parts == [] then []
    else
      var s := Strip(parts[0]);
      (if s == [] then [] else [s]) + KeepStripped(parts[1..])
  }

  /** The skill list of a comma-separated field. */
  function ParseSkills(raw: string): seq<string> {
    KeepStripped(SplitOn(raw, ','))
  }

  /** A skill as the parser produces it: non-empty, stripped, without a comma. */
  predicate CleanSkill(s: string) {
    s != [] && Strip(s) == s && ',' !in s
  }

  lemma StripKeepsAbsent(s: string, c: char)
    requires c !in s
    ensures c !in Strip(s)
  {
    var i: nat :| OccursAt(Strip(s), s, i);
    forall k | 0 <= k < |Strip(s)| ensures Strip(s)[k] != c {
      assert Strip(s)[k] == s[i + k];
    }
  }

  lemma StrippedPieceClean(p: string)
    requires ',' !in p
    ensures Strip(p) != [] ==> CleanSkill(Strip(p))
  {
    StripIdempotent(p);
    StripKeepsAbsent(p, ',');
  }

  lemma {:induction false} KeepStrippedClean(parts: seq<string>)
    requires forall i :: 0 <= i < |parts| ==> ',' !in parts[i]
    ensures forall i :: 0 <= i < |KeepStripped(parts)| ==> CleanSkill(KeepStripped(parts)[i])
  {
    if parts != [] {
      var rest := parts[1..];
      assert forall i :: 0 <= i < |rest| ==> rest[i] == parts[i + 1];
      KeepStrippedClean(rest);
      var s := Strip(parts[0]);
      StrippedPieceClean(parts[0]);
      var head := if s == [] then [] else [s];
      var tail := KeepStripped(rest);
      assert KeepStripped(parts) == head + tail;
      forall i | 0 <= i < |head + tail| ensures CleanSkill((head + tail)[i]) {
        if i >= |head| {
          assert (head + tail)[i] == tail[i - |head|];
        }
      }
    }
  }

  /** Skill parsing: every parsed skill is non-empty, stripped and comma-free. */
  lemma ParseSkillsClean(raw: string)
    ensures forall i :: 0 <= i < |ParseSkills(raw)| ==> CleanSkill(ParseSkills(raw)[i])
  {
    var parts := SplitOn(raw, ',');
    assert forall i :: 0 <= i < |parts| ==> parts[i] in parts;
    KeepStrippedClean(parts);
  }

  lemma {:induction false} KeepStrippedOfClean(items: seq<string>)
    requires forall i :: 0 <= i < |items| ==> CleanSkill(items[i])
    ensures KeepStripped(items) == items
  {
    if items != [] {
      KeepStrippedOfClean(items[1..]);
      assert items == [items[0]] + items[1..];
    }
  }

  /** Skill parsing keeps comma order: joining clean skills with commas and parsing the result
      gives them back. */
  lemma ParseJoinedSkills(items: seq<string>)
    requires forall i :: 0 <= i < |items| ==> CleanSkill(items[i])
    ensures ParseSkills(Join(items, ',')) == items
  {
    if items == [] {
      BlankSkillsField(Join(items, ','));
    } else {
      SplitOnJoin(items, ',');
      KeepStrippedOfClean(items);
    }
  }

  /** Every piece is dropped exactly when every piece strips to nothing. */
  lemma {:induction false} KeepStrippedEmptyIff(parts: seq<string>)
    ensures KeepStripped(parts) == [] <==> forall i :: 0 <= i < |parts| ==> Strip(parts[i]) == []
  {
    if parts != [] {
      var rest := parts[1..];
      KeepStrippedEmptyIff(rest);
      var s := Strip(parts[0]);
      assert KeepStripped(parts) == (if s == [] then [] else [s]) + KeepStripped(rest);
      assert forall i :: 1 <= i < |parts| ==> parts[i] == rest[i - 1];
    }
  }

  /** A skills field gives no skills exactly when it holds nothing but whitespace and commas. */
  lemma ParseSkillsEmptyIff(raw: string)
    ensures ParseSkills(raw) == [] <==> AllSpaceOr(raw, ',')
  {
    var parts := SplitOn(raw, ',');
    KeepStrippedEmptyIff(parts);
    forall i | 0 <= i < |parts| ensures Strip(parts[i]) == [] <==> AllSpace(parts[i]) {
      StripEmptyIff(parts[i]);
    }
    assert forall i :: 0 <= i < |parts| ==> parts[i] in parts;
    JoinBlankIff(parts, ',');
    JoinSplitOn(raw, ',');
  }

  /** An empty or blank field gives no skills. */
  lemma BlankSkillsField(raw: string)
    requires forall i :: 0 <= i < |raw| ==> IsSpace(raw[i])
    ensures ParseSkills(raw) == []
  {
    assert ',' !in raw by {
      forall i | 0 <= i < |raw| ensures raw[i] != ',' {
        assert IsSpace(raw[i]);
      }
    }
    SplitOnNoSep(raw, ',');
    StripEmptyIff(raw);
    assert KeepStripped([raw]) == [] + KeepStripped([]);
  }
}
