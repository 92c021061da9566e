# ICLR 2024 review scraper, modelled in Dafny

`iclr-2024-reviews/scrape.py` has two steps. `download_conference_reviews`
walks the submissions of an OpenReview venue. For each submission it keeps
the replies whose invitations contain the venue's review invitation, and
turns every kept reply into one flat record. `read_reviews_to_json` renders
each record with a fixed text template, cuts the rendered reviews into
batches of `reviews_per_doc`, and makes each batch one `{"content": ...}`
document, the batch joined with newlines.

The model has four modules.

- `Results` (`results.dfy`): a `Result` datatype. An exception that the
  script catches and turns into `return None` becomes a `Failure`.
- `PyBuiltins` (`pybuiltins.dfy`): the Python built-ins the script relies
  on, with Python's semantics. These are `str` of a non-negative int, floor
  division `//` (which differs from Dafny's `/` for a negative divisor),
  slicing with negative and out-of-range bounds, and `str.join`.
- `Fetcher` (`fetcher.dfy`): the filter and the record extraction. The pure
  parts are functions: `ReviewInvitation`, `ReviewsOf` (the list
  comprehension), `Lookup` (`content.get(key, {}).get('value', 'N/A')`),
  `ToReview` (the dict of one record), `RecordsOf`, `SubmissionRecords`,
  `Extend` (one turn of the outer loop) and `Download` (the whole run). The
  two nested loops are the method `DownloadConferenceReviews`, proved equal
  to `Download`.
- `Batcher` (`batcher.dfy`): the template and the batching. The template is
  data: a header, ten labelled fields (`Fields`) and a closing rule. The
  loop that renders the rows is the method `FormatReviews`, and the loop
  that builds the documents is `BatchDocuments`. Both are proved against
  the functions `Render`, `Batches` and `Documents`. `ReadReviewsToJson`
  composes them and is proved equal to `ReviewsJson`. The source's index
  arithmetic (`num_docs`, `start_idx`, `end_idx`, slicing) is proved to
  compute a simple reference partition, `Chunks`. The counting, coverage
  and size properties are proved about `Chunks`.

A missing `title` key on a submission raises `KeyError` at line 49. The handler at
lines 88-90 catches it, so the whole download yields nothing. The model
returns `Failure(MissingTitle(n))` for the first such submission `n`. A
`reviews_per_doc` of zero raises `ZeroDivisionError` in the ceiling
division. The handler at lines 146-148 catches it, and the model returns
`Failure(ZeroDivision)`. A negative `reviews_per_doc` is not rejected by
the source. The model follows Python's floor division and slice clamping
for it.

A reply that stores an empty `value` for a tracked field is recorded with
the empty string, not the `"N/A"` sentinel: an absent field and a field
present but empty stay apart (`ToReviewFields`).

The docstring of `read_reviews_to_json` (lines 100-101) says it returns the
batched reviews. The code returns nothing on success. The model returns the
documents it would write to `reviews.json`.

## Model

| member | source | states |
|---|---|---|
| Fetcher.DownloadConferenceReviews | iclr-2024-reviews/scrape.py:48-75 | The nested loops produce exactly `Download`: the records of every submission in order, or the error of the first submission with no `title` key |
| Fetcher.ReviewInvitation | iclr-2024-reviews/scrape.py:54 | The f-string `{venue_id}/{submission_name}{number}/-/{review_name}`; its contract is stated by `ReviewInvitationDistinct` and `ReviewsOfMembers` |
| Fetcher.Lookup | iclr-2024-reviews/scrape.py:60-72 | `content.get(key, {}).get('value', 'N/A')`; see `ToReviewFields` and `SubmissionRecordsTitle` |
| Fetcher.ToReview | iclr-2024-reviews/scrape.py:58-74 | The dict of one review; see `ToReviewFields`, `EthicsFlagKey` and `ToReviewIgnoresUntracked` |
| Fetcher.Extend | iclr-2024-reviews/scrape.py:48-75 | One turn of the outer loop: a missing title aborts, otherwise the submission's records are appended; see `DownloadAppend` and `DownloadKeepsFirstError` |
| Fetcher.Download | iclr-2024-reviews/scrape.py:48-75 | The whole run; see `DownloadSucceeds`, `DownloadFirstError`, `DownloadCount`, `DownloadSound` and `DownloadComplete` |
| Fetcher.ReviewsOf | iclr-2024-reviews/scrape.py:53-54 | The filter never keeps more replies than it is given |
| Fetcher.ReviewsOfMembers | iclr-2024-reviews/scrape.py:53-54 | A reply is kept if and only if it is one of the replies and its invitations contain `{venue_id}/{submission_name}{number}/-/{review_name}` |
| Fetcher.ReviewsOfAppend | iclr-2024-reviews/scrape.py:53-54 | The filter distributes over concatenation, so kept replies keep their relative order |
| Fetcher.ReviewsOfExtremes | iclr-2024-reviews/scrape.py:53-54 | If every reply carries the invitation, all are kept unchanged; if none does, none is kept |
| Fetcher.ReviewInvitationDistinct | iclr-2024-reviews/scrape.py:54 | Different submission numbers give different review invitations, even when one number's digits are a prefix of the other's |
| Fetcher.ReplyBelongsToOneSubmission | iclr-2024-reviews/scrape.py:53-54 | A reply whose only review invitation is submission `m`'s (other, non-review tags allowed) is kept for `m` and for no other submission |
| Fetcher.ToReviewFields | iclr-2024-reviews/scrape.py:58-74 | A record carries the submission number, the given title, the reply id and `tcdate`; each of the eleven tracked fields is the content's nested `value` when both keys exist and `"N/A"` otherwise; a field is empty only when the reply stored an empty value |
| Fetcher.EthicsFlagKey | iclr-2024-reviews/scrape.py:71 | The `ethics_flag` field is read from the content key `flag_for_ethics_review` |
| Fetcher.ToReviewIgnoresUntracked | iclr-2024-reviews/scrape.py:62-72 | Changing a content key outside the eleven tracked keys leaves the record unchanged |
| Fetcher.LookupsIgnore | iclr-2024-reviews/scrape.py:62-72 | Updating a key that is not among the looked-up keys changes none of the lookups |
| Fetcher.RecordsOfMembership | iclr-2024-reviews/scrape.py:56-74 | A record is among a submission's records if and only if it is built from one of its kept replies |
| Fetcher.SubmissionRecordsMembers | iclr-2024-reviews/scrape.py:53-74 | A submission's records are exactly the records of its kept replies |
| Fetcher.SubmissionRecordsTitle | iclr-2024-reviews/scrape.py:49-60 | Every record of a submission carries its number, and the title's `value` or `"N/A"` when the title has no `value` |
| Fetcher.DownloadKeepsFirstError | iclr-2024-reviews/scrape.py:49 | When every submission before the `k`-th has a title and the `k`-th has none, the run fails naming the `k`-th, whatever follows |
| Fetcher.DownloadSucceeds | iclr-2024-reviews/scrape.py:49 | The download succeeds if and only if every submission has a `title` key |
| Fetcher.DownloadFirstError | iclr-2024-reviews/scrape.py:88-90 | A failed download names a submission without a title, and every submission before it has one |
| Fetcher.DownloadOne | iclr-2024-reviews/scrape.py:48-75 | One submission yields its kept replies' records, or its missing-title error |
| Fetcher.DownloadAppend | iclr-2024-reviews/scrape.py:48-75 | Downloading `a + b`: an error in `a` wins, then an error in `b`; otherwise the records of `a` come before those of `b` |
| Fetcher.DownloadCount | iclr-2024-reviews/scrape.py:56-74 | A successful download has exactly as many records as there are kept replies over all submissions |
| Fetcher.DownloadSound | iclr-2024-reviews/scrape.py:48-75 | Every record comes from a kept reply of some submission |
| Fetcher.DownloadComplete | iclr-2024-reviews/scrape.py:48-75 | Every kept reply of every submission gives a record in a successful download |
| PyBuiltins.Str | iclr-2024-reviews/scrape.py:54 | `str(n)` is a non-empty run of digits with a leading zero only for 0 |
| PyBuiltins.StrRoundTrip | iclr-2024-reviews/scrape.py:54 | Reading the digits of `str(n)` gives back `n` |
| PyBuiltins.StrInjective | iclr-2024-reviews/scrape.py:54 | Different numbers have different decimal forms |
| PyBuiltins.FloorDiv | iclr-2024-reviews/scrape.py:129 | Python's `//`; see `FloorDivBounds` |
| PyBuiltins.FloorDivBounds | iclr-2024-reviews/scrape.py:129 | `//` rounds toward negative infinity for either sign of the divisor |
| PyBuiltins.Min | iclr-2024-reviews/scrape.py:133 | `min` is at most both arguments and equal to one of them |
| PyBuiltins.SliceBound | iclr-2024-reviews/scrape.py:135 | A slice bound counts from the end when negative and is clamped to the list |
| PyBuiltins.Slice | iclr-2024-reviews/scrape.py:135 | An in-range slice is the Dafny subsequence; a slice whose end is at or before its start is empty; no slice is longer than the list |
| PyBuiltins.Join | iclr-2024-reviews/scrape.py:137 | Joining no parts gives the empty string, and joining one part gives that part with no separator |
| PyBuiltins.JoinLength | iclr-2024-reviews/scrape.py:137 | The joined text holds every part and exactly one separator per gap |
| PyBuiltins.JoinAppend | iclr-2024-reviews/scrape.py:137 | Joining `a + b` is joining `a`, one separator, and joining `b` |
| PyBuiltins.JoinBounds | iclr-2024-reviews/scrape.py:137 | The joined text starts with the first part and ends with the last |
| Batcher.Header | iclr-2024-reviews/scrape.py:111 | The first template line and its blank line; see `RenderBounds` |
| Batcher.FieldsText | iclr-2024-reviews/scrape.py:112-121 | The labelled fields, each label followed by its cell, in order; see `FieldOrder` and `FieldsTextDependsOnColumns` |
| Batcher.Render | iclr-2024-reviews/scrape.py:110-123 | `review_str` for one row: header, the labelled fields of `Fields`, then the rule line; see `RenderBounds` and `RenderIgnoresUnlisted` |
| Batcher.DocCount | iclr-2024-reviews/scrape.py:129-131 | `num_docs` as the number of iterations of `range(num_docs)`; see `DocumentCount` and `NegativeBatchSize` |
| Batcher.BatchAt | iclr-2024-reviews/scrape.py:132-135 | `formatted_reviews[start_idx:end_idx]` for document `k`; see `BatchAtInRange` and `BatchesAreChunks` |
| Batcher.Batches | iclr-2024-reviews/scrape.py:128-135 | One batch per iteration of `range(num_docs)`; see `BatchesAreChunks` and `DocumentsPartition` |
| Batcher.Documents | iclr-2024-reviews/scrape.py:136-138 | One document per batch, its newline join; see `DocumentAt` and `DocumentEdges` |
| Batcher.ReviewsJson | iclr-2024-reviews/scrape.py:103-148 | The documents of the rendered rows, or the division-by-zero failure for a batch size of 0; see `ReadReviewsToJson` and `NegativeBatchSize` |
| Batcher.FieldOrder | iclr-2024-reviews/scrape.py:112-121 | The labelled fields are Rating, Confidence, Summary, Soundness, Presentation, Contribution, Strengths, Weaknesses, Questions, Ethics Flag, in that order, and none is the paper, the review id, the code of conduct or the timestamp |
| Batcher.FieldsTextDependsOnColumns | iclr-2024-reviews/scrape.py:112-121 | Two rows that agree on the template's columns render the labelled fields identically |
| Batcher.RenderIgnoresUnlisted | iclr-2024-reviews/scrape.py:110-123 | The review id, the code of conduct and the timestamp do not affect the rendered text |
| Batcher.RenderBounds | iclr-2024-reviews/scrape.py:110-123 | A rendered review starts with `Paper <id>: <title>` and a blank line, and ends with the 43-dash rule and a newline |
| Batcher.FormatReviews | iclr-2024-reviews/scrape.py:108-124 | The rendering loop gives one rendered text per row, the `i`-th from the `i`-th row |
| Batcher.BatchDocuments | iclr-2024-reviews/scrape.py:127-138 | The batching loop produces exactly the newline joins of the batches, in order |
| Batcher.ReadReviewsToJson | iclr-2024-reviews/scrape.py:103-148 | The whole conversion gives the documents of the rendered rows, or the division-by-zero failure for a batch size of 0 |
| Batcher.BatchesAreChunks | iclr-2024-reviews/scrape.py:128-135 | For a positive batch size, the index arithmetic and slicing compute the reference partition into consecutive chunks |
| Batcher.ChunksCount | iclr-2024-reviews/scrape.py:129 | The partition has `(total + n - 1) // n` chunks |
| Batcher.ChunkAt | iclr-2024-reviews/scrape.py:131-135 | Chunk `k` starts inside the list and is the slice from `k * n` to `min(k * n + n, total)` |
| Batcher.ChunkSizes | iclr-2024-reviews/scrape.py:131-135 | Every chunk is non-empty and holds at most `n` items, and all but the last hold exactly `n` |
| Batcher.FlattenChunks | iclr-2024-reviews/scrape.py:131-135 | The chunks put back together in order are the input, so every rendered review lands in exactly one chunk |
| Batcher.DocumentCount | iclr-2024-reviews/scrape.py:128-131 | The number of documents is the ceiling of `total / n`: none for no reviews, and exactly `total / n` for a multiple of `n`, so there is no empty trailing document |
| Batcher.DocumentsPartition | iclr-2024-reviews/scrape.py:131-138 | The batches put back together are the rendered reviews in order, every batch holds between 1 and `n` reviews, all but the last exactly `n`, and each document is its batch joined with newlines |
| Batcher.DocumentAt | iclr-2024-reviews/scrape.py:131-138 | Document `k` is the newline join of the reviews from `k * n` to `min(k * n + n, total)` |
| Batcher.DocumentEdges | iclr-2024-reviews/scrape.py:136-138 | Document `k` begins with its first review and ends with its last, so the join adds no separator before or after them |
| Batcher.TwoHundredFiftyInHundreds | iclr-2024-reviews/scrape.py:128-135 | 250 reviews in batches of 100 give three batches, of 100, 100 and 50 reviews |
| Batcher.NegativeBatchSize | iclr-2024-reviews/scrape.py:128-138 | A batch size of -1 is not rejected: no rows give two empty documents |

## Left out

- The OpenReview client is not modelled (lines 24-39: login, `get_group`, `get_all_notes`, `Note.from_json`). The venue id, the submission and review names, and the submissions with their replies are inputs.
- The submission and review names come from `venue_group.content[...]['value']` (lines 33 and 45). A missing key there raises before any submission is read. That failure belongs to the client lookups and is not modelled.
- pandas is not modelled: building the `DataFrame`, `to_csv` with its escape character, and `read_csv`. The batcher takes the rows already parsed, with every cell as text. When pandas reads the file back it turns `N/A` and empty cells into `NaN`, which the template prints as `nan`. The model renders the cell text as stored.
- Field values are modelled as strings. The source stores whatever the API returns, and its f-strings call `str` on it, so numbers and lists are printed in their Python form.
- Writing `reviews.json` (lines 141-142) is not modelled. `ReadReviewsToJson` returns the documents instead.
- A failure to open or read the CSV file, and a malformed file, are not modelled.
- The `print` calls, the `tqdm` progress bar, `dotenv`, `os.getenv` and the `__main__` block are not modelled. The text of the messages printed by the exception handlers is not modelled either: only which error ends the run.
- Splitting the batched text back into records by a separator is not modelled. Each rendered review contains newlines itself, so the newline separator does not find the record boundaries. `DocumentsPartition` states the recoverable fact instead: the batches, put back together, are the rendered reviews in order.
- Batcher.DocumentCount, Batcher.DocumentsPartition: stated for a positive batch size only. A negative size is modelled by `ReviewsJson` and shown by `NegativeBatchSize`, but no general lemma covers it.
