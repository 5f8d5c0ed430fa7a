# Amazon job-search provider: normalisation pipeline in Dafny

This project models the pure core of the Amazon provider in the job-search
aggregator, `jobservice/amazon.go`. The provider fetches Amazon's search page
and decodes its JSON into `amazonJob` records. It runs each record through a
filter chain: `isRecent` first, then `isSuitable`. Each record that survives
becomes a provider-independent `Job`. The model starts from the decoded
records, so the HTTP fetch and the JSON decoding are not in it.

Modules, one per concern:

- `Results` (results.dfy): `Result`. An `Err` stands for the point where the
  Go code calls `log.Fatal` and the process ends.
- `Strings` (strings.dfy): the operations of Go's `strings` package that the
  provider uses, over `seq<char>`. They are `Index`, `Contains`, `HasPrefix`,
  `TrimSpace`, `Split` with its inverse `Join`, and the single-character
  deleting `Replacer`. Each comes with the lemmas that pin down what it means.
- `Strconv` (strconv.dfy): `strconv.Atoi` for a 64-bit `int`, with `Itoa` as
  its inverse.
- `Patterns` (patterns.dfy): the two regular expressions written out as
  predicates. The first is `[0-9]+`, used through `FindString`, which gives the
  leftmost maximal run of digits. The second is `[3-9]\+? [Yy]ear`, used
  through `MatchString`, which is an unanchored search.
- `FilterChain` (filter.dfy): the generic `filter` over a sequence of
  predicates `T -> bool`. It has a functional definition, a loop version that
  mirrors the source, and lemmas that characterise the result.
- `Amazon` (amazon.dfy): the records, `isSuitable`, `isRecent`,
  `processQualifications` and the filter-then-map body of `Jobs`.
- `AmazonExamples` (examples.dfy): concrete inputs and their proved outcomes.

Behaviour worth knowing, all proved:

- `isRecent` checks "month" first and only then "year". So "1 year, 2 months
  ago" counts as recent, because its first number is 1 (`MonthRuleWins`).
- The years regex looks only at the digit just before the space or the `+`.
  "13 years" is rejected, but "10+ years" and "1+ years" pass
  (`TenPlusYearsAccepted`).
- Bullets are deleted before the text is split. A bullet inside the markup,
  as in `<b*r/>`, therefore becomes a line break (`BulletInsideLineBreak`).
- Lines that mention years are not dropped from the qualifications:
  `3+ years<br/>#hashtag<br/>Amazon is an equal opportunity employer<br/>Bachelor's degree`
  gives `["3+ years", "Bachelor's degree"]` (`YearsLineKept`).
- `isRecent` runs first in the chain, so it sees every record. `Jobs`
  therefore fails exactly when some record's "updated" text mentions "month"
  and either has no digit or has a first run of digits whose value does not
  fit an `int`; digits later in the text play no part. The failure carries
  the error of the first such record.

## Model

| member | source | states |
|---|---|---|
| Strings.IndexFrom | jobservice/amazon.go:112-115 | the first position at or after `k` where the pattern occurs, with no occurrence in between; -1 exactly when there is none from `k` on |
| Strings.Index | jobservice/amazon.go:129 | the leftmost occurrence of the pattern, or -1 when it does not occur at all |
| Strings.Contains | jobservice/amazon.go:112-115 | true exactly when the pattern is a substring of the text |
| Strings.HasPrefix | jobservice/amazon.go:158 | `strings.HasPrefix`: the text is at least as long as the prefix and starts with it |
| Strings.OccursInSlice | jobservice/amazon.go:155 | an occurrence inside a slice is an occurrence in the whole string |
| Strings.OccursExtend | jobservice/amazon.go:112-115 | adding text on either side keeps every substring |
| Strings.MissingChar | jobservice/amazon.go:129 | a text that lacks some character of the pattern does not contain the pattern |
| Strings.MissingPair | jobservice/amazon.go:112-115 | a text in which two neighbouring characters of the pattern never appear side by side does not contain the pattern |
| Strings.LeadingSpaces | jobservice/amazon.go:155 | the length of the white-space prefix: all of it is space and the next character is not |
| Strings.TrailingSpaces | jobservice/amazon.go:155 | the length of the white-space suffix: all of it is space and the character before it is not |
| Strings.TrimSpace | jobservice/amazon.go:155 | the result neither starts nor ends with white space, and is the input with a white-space prefix and a white-space suffix removed |
| Strings.TrimSpaceOfTrimmed | jobservice/amazon.go:155 | a string that is already trimmed comes back unchanged |
| Strings.TrimSpaceIdempotent | jobservice/amazon.go:155 | trimming twice gives the same result as trimming once |
| Strings.Split | jobservice/amazon.go:152 | there is at least one piece, no piece contains the separator, and joining the pieces with the separator gives back the input |
| Strings.SplitAvoids | jobservice/amazon.go:152 | a character absent from the input is absent from every piece |
| Strings.SplitCons | jobservice/amazon.go:152 | for an unbordered separator and a separator-free head, splitting `head + sep + rest` yields `head` followed by the pieces of `rest` |
| Strings.SplitNone | jobservice/amazon.go:152 | a text without the separator splits into itself alone |
| Strings.SplitJoin | jobservice/amazon.go:152 | when the separator is unbordered and no piece contains it, splitting undoes joining |
| Strings.CountSkip | jobservice/amazon.go:152 | positions where the pattern does not occur add nothing to the occurrence count |
| Strings.CountShift | jobservice/amazon.go:152 | counting occurrences from `m + k` in a string equals counting from `k` in its suffix starting at `m` |
| Strings.NoOverlap | jobservice/amazon.go:152 | two occurrences of an unbordered pattern never overlap |
| Strings.SplitCount | jobservice/amazon.go:152 | with an unbordered separator there is exactly one more piece than there are occurrences of the separator |
| Strings.DeleteChars | jobservice/amazon.go:149-150 | none of the deleted characters remains, and the result is no longer than the input |
| Strings.DeleteCharsKeepsOthers | jobservice/amazon.go:149-150 | every other character survives as many times as it occurs in the input |
| Strings.DeleteCharsAppend | jobservice/amazon.go:149-150 | deleting from a concatenation is the same as deleting from each part |
| Strings.DeleteAbsentChars | jobservice/amazon.go:149-150 | text without any of the deleted characters is left unchanged |
| Strconv.Digits | jobservice/amazon.go:132 | the decimal digits of a natural number, with no leading zero except for 0 itself |
| Strconv.Atoi | jobservice/amazon.go:132-135 | empty text is a syntax error; a string of digits parses exactly when its value fits a 64-bit int, and then to that value; every accepted result lies in the int64 range |
| Strconv.DigitsRoundTrip | jobservice/amazon.go:132 | reading back the digits of `n` gives `n` |
| Strconv.AtoiItoa | jobservice/amazon.go:132 | `Atoi` inverts `Itoa` on every 64-bit value |
| Patterns.NonDigitPrefix | jobservice/amazon.go:130-131 | the position of the first digit, or the length of the text when there is no digit |
| Patterns.DigitPrefix | jobservice/amazon.go:130-131 | the length of the maximal run of digits at the start of the text |
| Patterns.FirstDigitRun | jobservice/amazon.go:130-131 | the leftmost maximal run of digits; it is empty exactly when the text has no digit |
| Patterns.FirstDigitRunIsLeftmost | jobservice/amazon.go:130-131 | the leftmost maximal digit run is unique, and it is the run that is returned |
| Patterns.NoHighDigit | jobservice/amazon.go:119-121 | a text without any of the digits 3 to 9 never matches the years pattern |
| Patterns.YearsPatternAt | jobservice/amazon.go:120-121 | `[3-9]\+? [Yy]ear` matches the text starting at position `i`: a digit from 3 to 9, an optional `+`, one space, `Y` or `y`, then `ear` |
| Patterns.YearsPatternExtend | jobservice/amazon.go:120-121 | a match of the years pattern survives, shifted, when text is added around it |
| Patterns.MatchYearsFrom | jobservice/amazon.go:120-121 | true exactly when `[3-9]\+? [Yy]ear` matches at some position at or after `k` |
| Patterns.MatchYears | jobservice/amazon.go:120-121 | true exactly when the unanchored pattern matches somewhere in the text |
| FilterChain.FirstRejecting | jobservice/amazon.go:100-104 | the index of the first predicate that rejects the record: every earlier predicate accepts it, and later ones are never consulted |
| FilterChain.Accepts | jobservice/amazon.go:100-104 | the chain lets a record through exactly when every predicate accepts it |
| FilterChain.Filter | jobservice/amazon.go:95-108 | the result is no longer than the input, and every element comes from the input and is accepted by every predicate |
| FilterChain.FilterSelects | jobservice/amazon.go:95-108 | the result is an order-preserving subsequence of the input; it holds every accepted value exactly as often as the input does, and no rejected value |
| FilterChain.SubsequenceMultiset | jobservice/amazon.go:95-108 | a subsequence never holds a value more often than the sequence it comes from |
| FilterChain.FilterUnique | jobservice/amazon.go:95-108 | any subsequence of the input holding exactly the accepted values, with the input's multiplicities, is the filter's result |
| FilterChain.FilterNoPredicates | jobservice/amazon.go:95-108 | with zero predicates the input comes back unchanged |
| FilterChain.FilterPredicateOrder | jobservice/amazon.go:93-106 | two chains holding the same predicates, in any order, give the same result |
| FilterChain.FilterAppend | jobservice/amazon.go:98-106 | filtering a concatenation gives the concatenation of the filtered parts |
| FilterChain.FilterSplitChain | jobservice/amazon.go:99-106 | a chain `fs + gs` gives the same result as filtering by `fs` and then by `gs` |
| FilterChain.FilterLoop | jobservice/amazon.go:95-108 | the nested loop, which stops at the first rejecting predicate, computes `Filter` |
| Amazon.IsSuitable | jobservice/amazon.go:110-125 | a title containing Manager, Senior, Sr or II is rejected whatever the qualifications say; any other title is rejected exactly when the qualifications match `[3-9]\+? [Yy]ear` |
| Amazon.RejectionSurvivesMoreText | jobservice/amazon.go:110-125 | a rejected posting stays rejected when its title or qualifications gain text at either end |
| Amazon.IsRecent | jobservice/amazon.go:127-143 | when the text mentions "month": no digit is a fatal error, and otherwise the leftmost digit run decides: it must fit an int (else fatal) and be at most 1 to count as recent. When the text does not mention "month", it is recent exactly when it does not mention "year" |
| Amazon.TrimKeepsClean | jobservice/amazon.go:155 | trimming a piece that has no bullet and no line break keeps it that way |
| Amazon.KeepLine | jobservice/amazon.go:156-160 | the keep condition: a trimmed line is kept unless it is empty, starts with `#` or starts with `Amazon is an` |
| Amazon.TrimAll | jobservice/amazon.go:154-155 | one trimmed string per piece, in the same order |
| Amazon.KeepTrimmed | jobservice/amazon.go:154-161 | every kept line is trimmed, non-empty, not a hashtag and not the disclaimer, and there are no more lines than pieces |
| Amazon.KeepTrimmedClean | jobservice/amazon.go:154-161 | when no piece has a bullet or a `<br/>`, no kept line has one either |
| Amazon.KeepTrimmedIsFilter | jobservice/amazon.go:154-161 | the loop keeps exactly what a one-predicate filter chain keeps of the trimmed pieces |
| Amazon.PiecesClean | jobservice/amazon.go:148-152 | every piece after bullet deletion and splitting has no bullet and no `<br/>` |
| Amazon.Pieces | jobservice/amazon.go:148-152 | the raw text with the three bullet characters deleted, cut at every `<br/>` |
| Amazon.LineBreakUnbordered | jobservice/amazon.go:152 | no proper suffix of `<br/>` is also a prefix of it |
| Amazon.ProcessQualifications | jobservice/amazon.go:145-163 | every line is non-empty, trimmed, neither a hashtag nor the disclaimer, and free of bullets and `<br/>`; there are at most as many lines as line breaks after bullet deletion, plus one |
| Amazon.ProcessQualificationsIsFilter | jobservice/amazon.go:145-163 | the lines are exactly what the one-predicate filter chain keeps of the trimmed pieces |
| Amazon.QualificationsInSourceOrder | jobservice/amazon.go:145-163 | the lines form a subsequence of the trimmed pieces, and every piece that trims to a keepable line is among them |
| Amazon.Recent | jobservice/amazon.go:50 | `isRecent` as a chain predicate: the recency check succeeds and answers true |
| Amazon.Chain | jobservice/amazon.go:50 | the predicates `Jobs` hands to `filter`, recency first and suitability second |
| Amazon.ToJob | jobservice/amazon.go:56-63 | the job names Amazon, copies title and description, builds the URL as base URL + job path, and processes both qualification texts |
| Amazon.FirstAbort | jobservice/amazon.go:99-102 | the index of the first record whose recency check is fatal: every record before it passes the check without error |
| Amazon.Jobs | jobservice/amazon.go:50-64 | fails exactly when some record's recency check is fatal, with the first such error; otherwise there is one job per record that is recent and suitable, in input order, each normalised from its record |
| Amazon.NormalisedJobWellFormed | jobservice/amazon.go:56-63 | a job normalised from a suitable record names Amazon, links under the base URL, has a title without a seniority marker, and lists only clean lines |
| Amazon.ChainAccepts | jobservice/amazon.go:50 | a record the chain lets through is recent and suitable |
| Amazon.JobAt | jobservice/amazon.go:50-64 | the k-th job is well formed and normalised from an input record that is recent and suitable |
| Amazon.JobsInvariant | jobservice/amazon.go:50-64 | every emitted job names Amazon, links under the base URL, has a title without a seniority marker, and lists only clean qualification lines |
| AmazonExamples.TwoMonthsIsStale | jobservice/amazon.go:129-136 | "2 months ago" is not recent |
| AmazonExamples.OneMonthIsRecent | jobservice/amazon.go:129-136 | "1 month ago" is recent |
| AmazonExamples.DaysAreRecent | jobservice/amazon.go:138-142 | "5 days ago" is recent |
| AmazonExamples.YearIsStale | jobservice/amazon.go:138-141 | "1 year ago" is not recent |
| AmazonExamples.MonthRuleWins | jobservice/amazon.go:129-141 | "1 year, 2 months ago" is recent, because the month rule comes first |
| AmazonExamples.MonthWithoutNumberAborts | jobservice/amazon.go:129-135 | "a month ago" is a fatal syntax error |
| AmazonExamples.SeniorTitleRejected | jobservice/amazon.go:112-117 | a "Senior" title is rejected whatever the qualifications say |
| AmazonExamples.SdeIsJunior | jobservice/amazon.go:112-115 | "Software Development Engineer" contains no seniority marker |
| AmazonExamples.ThreePlusYearsRejected | jobservice/amazon.go:119-123 | "3+ years of experience" is rejected |
| AmazonExamples.ThirteenYearsRejected | jobservice/amazon.go:119-123 | "13 years" is rejected, matched at its last digit |
| AmazonExamples.OnePlusYearsAccepted | jobservice/amazon.go:119-124 | "1+ years" is accepted |
| AmazonExamples.TenPlusYearsAccepted | jobservice/amazon.go:119-124 | "10+ years" is accepted |
| AmazonExamples.FourLinesHaveNoBullets | jobservice/amazon.go:148-150 | four bullet-free lines joined by `<br/>` are left unchanged by the bullet deletion |
| AmazonExamples.FourLinesPieces | jobservice/amazon.go:148-152 | four clean lines joined by `<br/>` split back into those four lines |
| AmazonExamples.HashtagAndDisclaimerDropped | jobservice/amazon.go:145-163 | of four clean lines, a hashtag line and a disclaimer line in the middle are dropped, and the first and last lines are kept |
| AmazonExamples.YearsLineKept | jobservice/amazon.go:145-163 | a line asking for years is kept while a hashtag and the disclaimer are dropped: the four-line text gives `["3+ years", "Bachelor's degree"]` |
| AmazonExamples.BulletDeleted | jobservice/amazon.go:148-150 | deleting the `*` from `a<b*r/>b` leaves `a<br/>b` |
| AmazonExamples.TwoLines | jobservice/amazon.go:145-163 | text whose bullet deletion leaves one line break between two clean lines gives exactly those two lines |
| AmazonExamples.BulletInsideLineBreak | jobservice/amazon.go:145-163 | `a<b*r/>b` gives `["a", "b"]` |

## Left out

- `callAPI` (jobservice/amazon.go:68-79): an HTTP GET and a body read. This is network I/O that calls `log.Fatal` on failure.
- `convertToJSONList` (jobservice/amazon.go:81-91): JSON validation and decoding through `encoding/json`. The decoded records are the model's input instead.
- `main.go` as a whole: the environment configuration, the HTTP and Lambda entrypoints, the timing and logging, the goroutine and channel fan-in of `getJobs`, and the JSON encoding of the result. These are transport, concurrency and serialisation, not the provider's logic.
- The League and Shopify providers: their sources are not part of this model.
- The `Job` type is declared in a file that is not part of this model. Its fields are taken from how `Jobs` builds it (jobservice/amazon.go:56-63).
- Empty Go slices: `processQualifications` and `Jobs` return a nil slice when nothing is kept, and that encodes to JSON `null`, not `[]`. The model has only the empty sequence.
- Encoding: strings are sequences of Unicode code points. Go works on UTF-8 bytes, so invalid UTF-8 is not modelled. Go's `Replacer` is modelled as deleting the three characters, which is the same thing on valid UTF-8.
- Strings.IsSpace: lists the characters for which Go's `unicode.IsSpace` is true, written out by hand.
- Strconv.Atoi: assumes a 64-bit `int`. Whether a text parses, and its value, are exact. The error kind is simplified: malformed input is always `ErrSyntax`, though Go's slow path can report `ErrRange` first for long inputs. The core only ever passes an empty string or a run of digits, and any error ends the process either way.
- Amazon.Jobs: the `log.Fatal` inside `isRecent` becomes an `Err` result, and the rest of the process is not modelled. The way the failure is stated depends on `isRecent` being first in the chain. If the predicates were swapped, an unsuitable record would never reach the fatal check.
- FilterChain.Filter: predicates are pure total functions. Short-circuiting therefore changes no result, and `FirstRejecting` states which predicates are consulted.
