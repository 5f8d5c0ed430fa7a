/** The Amazon provider's normalisation pipeline: the decoded search results
    are run through the filter chain (recency, then suitability) and every
    surviving record becomes a `Job`. Fetching the search page and decoding
    its JSON are not part of this module; the decoded records are its input. */
module Amazon {
  import opened Results
  import opened Strings
  import opened Strconv
  import opened Patterns
  import FilterChain

  /** Where the provider searches and the base its relative links hang off. */
  datatype AmazonSearch = AmazonSearch(searchURL: string, baseURL: string)

  /** One decoded search result (`amazonJob`). */
  datatype AmazonJob = AmazonJob(
    title: string,
    description: string,
    qualifications: string,
    preferredQualifications: string,
    datePosted: string,
    category: string,
    jobPath: string,
    updatedTime: string)

  /** The provider-independent posting every provider emits. */
  datatype Job = Job(
    company: string,
    title: string,
    qualifications: seq<string>,
    preferredQualifications: seq<string>,
    description: string,
    url: string)

  const Company := "Amazon"

  /** The title holds one of the words that mark a position as too senior. */
  ghost predicate HasSeniorityMarker(title: string)
  {
    Occurs("Manager", title) || Occurs("Senior", title) || Occurs("Sr", title) || Occurs("II", title)
  }

  /** `isSuitable`: a title with a seniority marker is rejected whatever the
      qualifications say; any other title is rejected exactly when the
      qualifications ask for three to nine years. */
  function IsSuitable(j: AmazonJob): (r: bool)
    ensures HasSeniorityMarker(j.title) ==> !r
    ensures !HasSeniorityMarker(j.title) ==> (r <==> !MentionsYears(j.qualifications))
  {
    if Contains(j.title, "Manager") || Contains(j.title, "Senior")
      || Contains(j.title, "Sr") || Contains(j.title, "II") then
      false
    else if MatchYears(j.qualifications) then
      false
    else
      true
  }

  /** A rejected posting stays rejected when its title or its qualifications
      gain text at either end: both tests look for substrings. */
  lemma RejectionSurvivesMoreText(j: AmazonJob, t1: string, t2: string, q1: string, q2: string)
    requires !IsSuitable(j)
    ensures !IsSuitable(j.(title := t1 + j.title + t2, qualifications := q1 + j.qualifications + q2))
  {
    var title := t1 + j.title + t2;
    var quals := q1 + j.qualifications + q2;
    if HasSeniorityMarker(j.title) {
      if Occurs("Manager", j.title) { OccursExtend("Manager", j.title, t1, t2); }
      if Occurs("Senior", j.title) { OccursExtend("Senior", j.title, t1, t2); }
      if Occurs("Sr", j.title) { OccursExtend("Sr", j.title, t1, t2); }
      if Occurs("II", j.title) { OccursExtend("II", j.title, t1, t2); }
      assert HasSeniorityMarker(title);
    } else {
      var i :| YearsPatternAt(j.qualifications, i);
      YearsPatternExtend(j.qualifications, i, q1, q2);
    }
  }

  /** `isRecent` on the "updated" text `u`. When `u` mentions "month", the
      leftmost run of digits decides: at most 1 is recent; no digits, or a
      number too large for `int`, ends the process (an error here). Only
      otherwise does a mention of "year" reject, and anything else (days,
      hours) is recent. */
  function IsRecent(u: string): (r: Result<bool, NumError>)
    ensures Occurs("month", u) && FirstDigitRun(u) == [] ==> r == Err(ErrSyntax)
    ensures forall i, j :: Occurs("month", u) && LeftmostDigitRun(u, i, j) ==>
              && (r.Ok? <==> DecimalValue(u[i..j]) <= MaxInt64)
              && (r.Ok? ==> (r.value <==> DecimalValue(u[i..j]) <= 1))
    ensures !Occurs("month", u) ==> r == Ok(!Occurs("year", u))
  {
    if Contains(u, "month") then
      FirstDigitRunIsLeftmost(u);
      match Atoi(FirstDigitRun(u))
      case Err(e) => Err(e)
      case Ok(n) => Ok(n <= 1)
    else if Contains(u, "year") then
      Ok(false)
    else
      Ok(true)
  }

  /** Characters deleted from qualification text before it is split. */
  const Bullets: set<char> := {'\U{B7}', '*', '\U{2022}'}

  /** The markup that separates qualification lines. */
  const LineBreak := "<br/>"

  /** The opening of the equal-opportunity disclaimer. */
  const Disclaimer := "Amazon is an"

  /** A trimmed piece is kept unless it is empty, a hashtag or the disclaimer. */
  predicate KeepLine(q: string)
  {
    !(|q| == 0 || HasPrefix(q, "#") || HasPrefix(q, Disclaimer))
  }

  /** No bullet character and no line break markup. */
  ghost predicate Clean(q: string)
  {
    (forall i :: 0 <= i < |q| ==> q[i] !in Bullets) && !Occurs(LineBreak, q)
  }

  /** What every qualification line produced satisfies. */
  ghost predicate QualificationLine(q: string)
  {
    && |q| > 0
    && IsTrimmed(q)
    && !HasPrefix(q, "#")
    && !HasPrefix(q, Disclaimer)
    && Clean(q)
  }

  /** Trimming a clean piece leaves it clean. */
  lemma TrimKeepsClean(q: string)
    ensures Clean(q) ==> Clean(TrimSpace(q))
  {
    if !Clean(q) {
      return;
    }
    var t := TrimSpace(q);
    var a, b :| 0 <= a <= b <= |q| && t == q[a..b] && AllSpace(q[..a]) && AllSpace(q[b..]);
    if Occurs(LineBreak, t) {
      OccursInSlice(LineBreak, q, a, b);
    }
    forall i | 0 <= i < |t| ensures t[i] !in Bullets {
      assert t[i] == q[a + i];
    }
  }

  /** Every piece trimmed, in order. */
  function TrimAll(parts: seq<string>): (r: seq<string>)
    ensures |r| == |parts|
    ensures forall k :: 0 <= k < |r| ==> r[k] == TrimSpace(parts[k])
  {
    seq(|parts|, k requires 0 <= k < |parts| => TrimSpace(parts[k]))
  }

  /** The loop of `processQualifications`: trim each piece and keep the ones
      `KeepLine` accepts. */
  function KeepTrimmed(parts: seq<string>): (r: seq<string>)
    ensures |r| <= |parts|
    ensures forall k :: 0 <= k < |r| ==> KeepLine(r[k]) && IsTrimmed(r[k])
    decreases |parts|
  {
    if |parts| == 0 then []
    else
      var q := TrimSpace(parts[0]);
      var rest := KeepTrimmed(parts[1..]);
      if KeepLine(q) then [q] + rest else rest
  }

  /** Trimming and dropping lines introduces no bullet and no line break. */
  lemma {:induction false} KeepTrimmedClean(parts: seq<string>)
    requires forall m :: 0 <= m < |parts| ==> Clean(parts[m])
    ensures forall k :: 0 <= k < |KeepTrimmed(parts)| ==> Clean(KeepTrimmed(parts)[k])
    decreases |parts|
  {
    if |parts| > 0 {
      KeepTrimmedClean(parts[1..]);
      TrimKeepsClean(parts[0]);
    }
  }

  /** The loop keeps exactly what the one-predicate filter chain keeps of the
      trimmed pieces. */
  lemma {:induction false} KeepTrimmedIsFilter(parts: seq<string>)
    ensures KeepTrimmed(parts) == FilterChain.Filter(TrimAll(parts), [KeepLine])
    decreases |parts|
  {
    if |parts| > 0 {
      KeepTrimmedIsFilter(parts[1..]);
      var ts := TrimAll(parts);
      assert ts[1..] == TrimAll(parts[1..]);
      assert FilterChain.Accepts([KeepLine], ts[0]) == KeepLine(ts[0]);
    }
  }

  /** The pieces of `raw` between line breaks, bullets deleted. */
  function Pieces(raw: string): seq<string>
  {
    Split(DeleteChars(raw, Bullets), LineBreak)
  }

  /** Every piece is free of bullets and of line-break markup. */
  lemma PiecesClean(raw: string)
    ensures forall m :: 0 <= m < |Pieces(raw)| ==> Clean(Pieces(raw)[m])
  {
    var s := DeleteChars(raw, Bullets);
    SplitAvoids(s, LineBreak, Bullets);
  }

  /** No proper suffix of `<br/>` is also a prefix of it, so its
      occurrences never overlap. */
  lemma LineBreakUnbordered()
    ensures Unbordered(LineBreak)
  {
    forall d | 0 < d < |LineBreak|
      ensures LineBreak[d..] != LineBreak[..|LineBreak| - d]
    {
      assert LineBreak[..|LineBreak| - d][0] == '<';
      assert LineBreak[d..][0] != '<';
    }
  }

  /** `processQualifications`: every line is non-empty, trimmed, neither a
      hashtag nor the disclaimer, and free of bullets and line-break markup;
      there is at most one line more than there are line breaks once the
      bullets are deleted. */
  function ProcessQualifications(raw: string): (r: seq<string>)
    ensures forall k :: 0 <= k < |r| ==> QualificationLine(r[k])
    ensures |r| <= Occurrences(DeleteChars(raw, Bullets), LineBreak) + 1
  {
    var parts := Pieces(raw);
    LineBreakUnbordered();
    SplitCount(DeleteChars(raw, Bullets), LineBreak);
    PiecesClean(raw);
    KeepTrimmedClean(parts);
    KeepTrimmed(parts)
  }

  /** The lines are the trimmed pieces that the one-predicate chain
      `[KeepLine]` lets through. */
  lemma ProcessQualificationsIsFilter(raw: string)
    ensures ProcessQualifications(raw) == FilterChain.Filter(TrimAll(Pieces(raw)), [KeepLine])
  {
    KeepTrimmedIsFilter(Pieces(raw));
  }

  /** The qualification lines keep the order of the pieces they come from,
      and every piece that trims to a keepable line is among them. */
  lemma QualificationsInSourceOrder(raw: string)
    ensures FilterChain.IsSubsequence(ProcessQualifications(raw), TrimAll(Pieces(raw)))
    ensures forall q :: KeepLine(q) ==>
              multiset(ProcessQualifications(raw))[q] == multiset(TrimAll(Pieces(raw)))[q]
  {
    ProcessQualificationsIsFilter(raw);
    FilterChain.FilterSelects(TrimAll(Pieces(raw)), [KeepLine]);
  }

  /** The recency check as a chain predicate. A record whose check ends the
      process never reaches the chain: `Jobs` fails before. */
  predicate Recent(j: AmazonJob)
  {
    IsRecent(j.updatedTime) == Ok(true)
  }

  /** The chain `Jobs` runs, in the source's order. */
  const Chain: seq<AmazonJob -> bool> := [Recent, IsSuitable]

  /** `job` is the normalised form of the record `v`. */
  ghost predicate NormalisedFrom(a: AmazonSearch, v: AmazonJob, job: Job)
  {
    && job.company == Company
    && job.title == v.title
    && job.description == v.description
    && job.url == a.baseURL + v.jobPath
    && job.qualifications == ProcessQualifications(v.qualifications)
    && job.preferredQualifications == ProcessQualifications(v.preferredQualifications)
  }

  /** The body of the loop in `Jobs`. */
  function ToJob(a: AmazonSearch, v: AmazonJob): (job: Job)
    ensures NormalisedFrom(a, v, job)
  {
    Job(Company, v.title, ProcessQualifications(v.qualifications),
        ProcessQualifications(v.preferredQualifications), v.description, a.baseURL + v.jobPath)
  }

  /** The index of the first record whose recency check ends the process, or
      the number of records when none does. */
  function FirstAbort(raws: seq<AmazonJob>): (i: nat)
    ensures i <= |raws|
    ensures forall h :: 0 <= h < i ==> IsRecent(raws[h].updatedTime).Ok?
    ensures i < |raws| ==> IsRecent(raws[i].updatedTime).Err?
    decreases |raws|
  {
    if |raws| == 0 || IsRecent(raws[0].updatedTime).Err? then 0
    else
      var i := FirstAbort(raws[1..]);
      assert forall h :: 1 <= h <= i ==> raws[h] == raws[1..][h - 1];
      1 + i
  }

  /** `Jobs` after decoding: the recency check runs first on every record, so
      the call fails exactly when some record's check fails, with the error of
      the first such record. Otherwise there is one `Job` per record that is
      recent and suitable, in input order, each normalised from its record. */
  function Jobs(a: AmazonSearch, raws: seq<AmazonJob>): (r: Result<seq<Job>, NumError>)
    ensures r.Err? <==> exists i :: 0 <= i < |raws| && IsRecent(raws[i].updatedTime).Err?
    ensures r.Err? ==> exists i :: (0 <= i < |raws| && IsRecent(raws[i].updatedTime) == Err(r.error)
              && forall h :: 0 <= h < i ==> IsRecent(raws[h].updatedTime).Ok?)
    ensures r.Ok? ==> var kept := FilterChain.Filter(raws, Chain);
              && |r.value| == |kept|
              && forall k :: 0 <= k < |kept| ==> NormalisedFrom(a, kept[k], r.value[k])
  {
    var i := FirstAbort(raws);
    if i < |raws| then
      Err(IsRecent(raws[i].updatedTime).error)
    else
      var kept := FilterChain.Filter(raws, Chain);
      Ok(seq(|kept|, k requires 0 <= k < |kept| => ToJob(a, kept[k])))
  }

  /** Every line of a qualification list is a clean qualification line. */
  ghost predicate AllQualificationLines(qs: seq<string>)
  {
    forall k :: 0 <= k < |qs| ==> QualificationLine(qs[k])
  }

  /** What holds of every job the provider emits. */
  ghost predicate WellFormedJob(a: AmazonSearch, job: Job)
  {
    && job.company == Company
    && HasPrefix(job.url, a.baseURL)
    && !HasSeniorityMarker(job.title)
    && AllQualificationLines(job.qualifications)
    && AllQualificationLines(job.preferredQualifications)
  }

  /** A job normalised from a recent, suitable record is well formed. */
  lemma NormalisedJobWellFormed(a: AmazonSearch, v: AmazonJob, job: Job)
    requires IsSuitable(v)
    requires NormalisedFrom(a, v, job)
    ensures WellFormedJob(a, job)
  {
    assert (a.baseURL + v.jobPath)[..|a.baseURL|] == a.baseURL;
  }

  /** A record the chain lets through is recent and suitable. */
  lemma ChainAccepts(v: AmazonJob)
    requires FilterChain.AllAccept(Chain, v)
    ensures Recent(v) && IsSuitable(v)
  {
    assert Chain[0] == Recent && Chain[1] == IsSuitable;
    assert Chain[0](v) && Chain[1](v);
  }

  /** The `k`-th job is normalised from the `k`-th record the chain keeps. */
  lemma JobAt(a: AmazonSearch, raws: seq<AmazonJob>, k: int)
    requires Jobs(a, raws).Ok? && 0 <= k < |Jobs(a, raws).value|
    ensures WellFormedJob(a, Jobs(a, raws).value[k])
    ensures exists v :: v in raws && Recent(v) && IsSuitable(v) && NormalisedFrom(a, v, Jobs(a, raws).value[k])
  {
    var job := Jobs(a, raws).value[k];
    var v := FilterChain.Filter(raws, Chain)[k];
    assert v in raws && FilterChain.AllAccept(Chain, v);
    ChainAccepts(v);
    assert NormalisedFrom(a, v, job);
    NormalisedJobWellFormed(a, v, job);
  }

  /** Every job `Jobs` emits names Amazon, links under the base URL, has a
      title without a seniority marker and lists only clean qualification
      lines. */
  lemma JobsInvariant(a: AmazonSearch, raws: seq<AmazonJob>)
    requires Jobs(a, raws).Ok?
    ensures forall job :: job in Jobs(a, raws).value ==> WellFormedJob(a, job)
  {
    forall job | job in Jobs(a, raws).value
      ensures WellFormedJob(a, job)
    {
      var k :| 0 <= k < |Jobs(a, raws).value| && Jobs(a, raws).value[k] == job;
      JobAt(a, raws, k);
    }
  }
}
