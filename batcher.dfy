/** The rendering and batching of `read_reviews_to_json`
    (iclr-2024-reviews/scrape.py, lines 108-138). Reading the CSV file and
    writing `reviews.json` are not modelled: the rows come in already
    parsed, and the documents are returned. */
module Batcher {
  import opened Results
  import opened PyBuiltins

  /** One CSV row as the template sees it: every cell as text. */
  datatype Row = Row(
    paperId: string, paperTitle: string, reviewId: string,
    rating: string, confidence: string, summary: string,
    soundness: string, presentation: string, contribution: string,
    strengths: string, weaknesses: string, questions: string,
    ethicsFlag: string, codeOfConduct: string, timestamp: string)

  /** The CSV columns. */
  datatype Column =
    | PaperId | PaperTitle | ReviewId
    | Rating | Confidence | Summary
    | Soundness | Presentation | Contribution
    | Strengths | Weaknesses | Questions
    | EthicsFlag | CodeOfConduct | Timestamp

  function Cell(r: Row, c: Column): string {
    match c
    case PaperId => r.paperId
    case PaperTitle => r.paperTitle
    case ReviewId => r.reviewId
    case Rating => r.rating
    case Confidence => r.confidence
    case Summary => r.summary
    case Soundness => r.soundness
    case Presentation => r.presentation
    case Contribution => r.contribution
    case Strengths => r.strengths
    case Weaknesses => r.weaknesses
    case Questions => r.questions
    case EthicsFlag => r.ethicsFlag
    case CodeOfConduct => r.codeOfConduct
    case Timestamp => r.timestamp
  }

  /** The line that closes every rendered review. */
  const Rule := "-------------------------------------------"

  /** A labelled field of the template: the literal text that comes before
      the cell, and the cell's column. */
  datatype Labelled = Labelled(before: string, column: Column)

  /** The labelled fields of the template of lines 112-121, in order. */
  const Fields: seq<Labelled> := [
    Labelled("Rating: ", Rating),
    Labelled("\nConfidence: ", Confidence),
    Labelled("\n\nSummary:\n", Summary),
    Labelled("\n\nSoundness: ", Soundness),
    Labelled("\nPresentation: ", Presentation),
    Labelled("\nContribution: ", Contribution),
    Labelled("\n\nStrengths:\n", Strengths),
    Labelled("\n\nWeaknesses:\n", Weaknesses),
    Labelled("\n\nQuestions:\n", Questions),
    Labelled("\n\nEthics Flag: ", EthicsFlag)]

  /** Each labelled field's text followed by the row's cell, in order. */
  function FieldsText(fs: seq<Labelled>, r: Row): string {
    if fs == [] then "" else fs[0].before + Cell(r, fs[0].column) + FieldsText(fs[1..], r)
  }

  /** What a rendered review starts with (line 111). */
  function Header(r: Row): string {
    "Paper " + r.paperId + ": " + r.paperTitle + "\n\n"
  }

  /** `review_str` for one row (lines 110-123). */
  function Render(r: Row): string {
    Header(r) + FieldsText(Fields, r) + "\n" + Rule + "\n"
  }

  /** One element of the output JSON array. */
  datatype Document = Document(content: string)

  /** `reviews_per_doc` of zero raises at the ceiling division; the caller's
      handler swallows it and nothing is written. */
  datatype BatchError = ZeroDivision

  // ---------------------------------------------------------------------
  // Rendering

  /** The labelled fields are, in order, Rating, Confidence, Summary,
      Soundness, Presentation, Contribution, Strengths, Weaknesses,
      Questions and Ethics Flag; the review id, the code-of-conduct answer
      and the timestamp are not among them. */
  lemma FieldOrder()
    ensures seq(|Fields|, i requires 0 <= i < |Fields| => Fields[i].column) ==
      [Rating, Confidence, Summary, Soundness, Presentation,
       Contribution, Strengths, Weaknesses, Questions, EthicsFlag]
    ensures forall i :: 0 <= i < |Fields| ==>
      Fields[i].column !in {PaperId, PaperTitle, ReviewId, CodeOfConduct, Timestamp}
  {
  }

  /** Two rows that agree on the columns of the labelled fields render those
      fields identically. */
  lemma {:induction false} FieldsTextDependsOnColumns(fs: seq<Labelled>, r: Row, r': Row)
    requires forall i :: 0 <= i < |fs| ==> Cell(r, fs[i].column) == Cell(r', fs[i].column)
    ensures FieldsText(fs, r) == FieldsText(fs, r')
    decreases |fs|
  {
    if fs != [] {
      assert forall i :: 0 <= i < |fs| - 1 ==> fs[1..][i] == fs[i + 1];
      FieldsTextDependsOnColumns(fs[1..], r, r');
    }
  }

  /** The review id, the code-of-conduct answer and the timestamp do not
      appear: changing them leaves the rendering unchanged. */
  lemma RenderIgnoresUnlisted(r: Row, reviewId: string, codeOfConduct: string, timestamp: string)
    ensures Render(r.(reviewId := reviewId, codeOfConduct := codeOfConduct, timestamp := timestamp)) == Render(r)
  {
    var r' := r.(reviewId := reviewId, codeOfConduct := codeOfConduct, timestamp := timestamp);
    FieldOrder();
    FieldsTextDependsOnColumns(Fields, r, r');
  }

  /** A rendered review starts with `Paper <id>: <title>` and a blank line,
      and ends with the rule line and its newline. */
  lemma RenderBounds(r: Row)
    ensures |Header(r)| + |Rule| + 1 <= |Render(r)|
    ensures Render(r)[..|Header(r)|] == Header(r)
    ensures Render(r)[|Render(r)| - |Rule| - 1..] == Rule + "\n"
  {
    var body := FieldsText(Fields, r) + "\n";
    assert Render(r) == Header(r) + (body + Rule + "\n");
    assert Render(r) == (Header(r) + body) + (Rule + "\n");
  }

  /** The loop of lines 108-124. */
  method FormatReviews(rows: seq<Row>) returns (formatted: seq<string>)
    ensures |formatted| == |rows|
    ensures forall i :: 0 <= i < |rows| ==> formatted[i] == Render(rows[i])
  {
    formatted := [];
    var i := 0;
    while i < |rows|
      invariant 0 <= i <= |rows|
      invariant |formatted| == i
      invariant forall k :: 0 <= k < i ==> formatted[k] == Render(rows[k])
    {
      formatted := formatted + [Render(rows[i])];
      i := i + 1;
    }
  }

  // ---------------------------------------------------------------------
  // Batching

  /** `num_docs`, as the length of `range(num_docs)`: a negative count runs
      no iteration. */
  function DocCount(total: nat, perDoc: int): nat
    requires perDoc != 0
  {
    var q := FloorDiv(total + perDoc - 1, perDoc);
    if q < 0 then 0 else q
  }

  /** `formatted_reviews[start_idx:end_idx]` for document `k`. */
  function BatchAt(formatted: seq<string>, perDoc: int, k: nat): seq<string>
    requires perDoc != 0
  {
    var start := k * perDoc;
    Slice(formatted, start, Min(start + perDoc, |formatted|))
  }

  /** The batches of lines 128-135, by index arithmetic and slicing. */
  function Batches(formatted: seq<string>, perDoc: int): (bs: seq<seq<string>>)
    requires perDoc != 0
    ensures |bs| == DocCount(|formatted|, perDoc)
  {
    seq(DocCount(|formatted|, perDoc), k requires 0 <= k => BatchAt(formatted, perDoc, k))
  }

  /** A reference partition: the first `n` items, then the rest partitioned. */
  function Chunks(s: seq<string>, n: nat): seq<seq<string>>
    requires n > 0
    decreases |s|
  {
    if s == [] then []
    else if |s| <= n then [s]
    else [s[..n]] + Chunks(s[n..], n)
  }

  function Flatten(ss: seq<seq<string>>): seq<string> {
    if ss == [] then [] else ss[0] + Flatten(ss[1..])
  }

  /** One document per batch, the batch joined with newlines. */
  function Documents(batches: seq<seq<string>>): (docs: seq<Document>)
    ensures |docs| == |batches|
  {
    seq(|batches|, k requires 0 <= k < |batches| => Document(Join("\n", batches[k])))
  }

  /** `formatted_reviews`: each row rendered, in row order. */
  function Formatted(rows: seq<Row>): (f: seq<string>)
    ensures |f| == |rows|
  {
    seq(|rows|, i requires 0 <= i < |rows| => Render(rows[i]))
  }

  /** What `read_reviews_to_json` would write, or the error that stops it. */
  function ReviewsJson(rows: seq<Row>, perDoc: int): Result<seq<Document>, BatchError> {
    if perDoc == 0 then Failure(ZeroDivision)
    else Success(Documents(Batches(Formatted(rows), perDoc)))
  }

  /** The loop of lines 131-138. */
  method BatchDocuments(formatted: seq<string>, perDoc: int) returns (docs: seq<Document>)
    requires perDoc != 0
    ensures docs == Documents(Batches(formatted, perDoc))
  {
    docs := [];
    var total := |formatted|;
    var numDocs := FloorDiv(total + perDoc - 1, perDoc);
    var docIdx := 0;
    while docIdx < numDocs
      invariant 0 <= docIdx
      invariant numDocs >= 0 ==> docIdx <= numDocs
      invariant numDocs < 0 ==> docIdx == 0
      invariant |docs| == docIdx
      invariant forall k :: 0 <= k < docIdx ==> docs[k] == Document(Join("\n", BatchAt(formatted, perDoc, k)))
    {
      var startIdx := docIdx * perDoc;
      var endIdx := Min(startIdx + perDoc, total);
      var batch := Slice(formatted, startIdx, endIdx);
      assert batch == BatchAt(formatted, perDoc, docIdx);
      docs := docs + [Document(Join("\n", batch))];
      docIdx := docIdx + 1;
    }
    assert docIdx == DocCount(total, perDoc);
    var bs := Batches(formatted, perDoc);
    assert forall k :: 0 <= k < |bs| ==> bs[k] == BatchAt(formatted, perDoc, k);
  }

  /** `read_reviews_to_json` without its file I/O. */
  method ReadReviewsToJson(rows: seq<Row>, perDoc: int) returns (r: Result<seq<Document>, BatchError>)
    ensures r == ReviewsJson(rows, perDoc)
  {
    var formatted := FormatReviews(rows);
    assert formatted == Formatted(rows);
    if perDoc == 0 {
      return Failure(ZeroDivision);
    }
    var docs := BatchDocuments(formatted, perDoc);
    r := Success(docs);
  }

  // ---------------------------------------------------------------------
  // The partition into documents

  /** Euclidean division is determined by a quotient and an in-range remainder. */
  lemma DivUnique(a: int, n: nat, q: int, r: int)
    requires n > 0 && a == n * q + r && 0 <= r < n
    ensures a / n == q
  {
    var e, r' := a / n, a % n;
    assert n * (e - q) == r - r';
    var x := e - q;
    if x >= 1 {
      MulAtLeast(n, x);
    } else if x <= -1 {
      MulAtLeast(n, -x);
    }
  }

  lemma DivStep(a: nat, n: nat)
    requires n > 0
    ensures (a + n) / n == a / n + 1
  {
    var q, r := a / n, a % n;
    assert a + n == n * (q + 1) + r;
    DivUnique(a + n, n, q + 1, r);
  }

  lemma MulAtLeast(n: nat, x: int)
    requires x >= 1
    ensures n * x >= n
  {
  }

  /** `(total + n - 1) // n` chunks: ceiling division. */
  lemma {:induction false} ChunksCount(s: seq<string>, n: nat)
    requires n > 0
    ensures |Chunks(s, n)| == (|s| + n - 1) / n
    decreases |s|
  {
    if s == [] {
    } else if |s| <= n {
      assert n <= |s| + n - 1 < 2 * n;
    } else {
      ChunksCount(s[n..], n);
      DivStep(|s| - 1, n);
    }
  }

  /** Chunk `k` is the slice from `k * n` to `min(k * n + n, total)`. */
  lemma {:induction false} ChunkAt(s: seq<string>, n: nat, k: nat)
    requires n > 0 && k < |Chunks(s, n)|
    ensures k * n < |s|
    ensures Chunks(s, n)[k] == s[k * n..Min(k * n + n, |s|)]
    decreases |s|
  {
    if |s| > n && k > 0 {
      ChunkAt(s[n..], n, k - 1);
      assert (k - 1) * n + n == k * n;
      assert s[n..][(k - 1) * n..Min((k - 1) * n + n, |s| - n)] == s[k * n..Min(k * n + n, |s|)];
    }
  }

  /** Every chunk is non-empty and holds `n` items, except that the last may
      hold fewer. */
  lemma {:induction false} ChunkSizes(s: seq<string>, n: nat)
    requires n > 0
    ensures forall k :: 0 <= k < |Chunks(s, n)| ==> 0 < |Chunks(s, n)[k]| <= n
    ensures forall k :: 0 <= k < |Chunks(s, n)| - 1 ==> |Chunks(s, n)[k]| == n
    decreases |s|
  {
    if |s| > n {
      ChunkSizes(s[n..], n);
    }
  }

  /** The chunks, put back together in order, are the input: every item
      lands in exactly one chunk. */
  lemma {:induction false} FlattenChunks(s: seq<string>, n: nat)
    requires n > 0
    ensures Flatten(Chunks(s, n)) == s
    decreases |s|
  {
    if s == [] {
    } else if |s| <= n {
      assert Chunks(s, n)[1..] == [];
      assert s + [] == s;
    } else {
      var c := Chunks(s, n);
      assert c[0] == s[..n];
      assert c[1..] == Chunks(s[n..], n);
      FlattenChunks(s[n..], n);
      assert s[..n] + s[n..] == s;
    }
  }

  /** For a positive batch size the source's index arithmetic and slicing
      compute the reference partition. */
  lemma BatchesAreChunks(s: seq<string>, n: nat)
    requires n > 0
    ensures Batches(s, n) == Chunks(s, n)
  {
    ChunksCount(s, n);
    DocCountPositive(|s|, n);
    var bs, cs := Batches(s, n), Chunks(s, n);
    forall k | 0 <= k < |cs|
      ensures bs[k] == cs[k]
    {
      ChunkAt(s, n, k);
      BatchAtInRange(s, n, k);
    }
  }

  /** For a positive batch size `num_docs` is the ceiling division itself. */
  lemma DocCountPositive(total: nat, n: nat)
    requires n > 0
    ensures DocCount(total, n) == (total + n - 1) / n
  {
  }

  /** A batch that starts inside the list is a plain slice. */
  lemma BatchAtInRange(s: seq<string>, n: nat, k: nat)
    requires n > 0 && k * n < |s|
    ensures BatchAt(s, n, k) == s[k * n..Min(k * n + n, |s|)]
  {
  }

  /** For a multiple of `n`, rounding up divides exactly. */
  lemma CeilExact(a: nat, n: nat)
    requires n > 0 && a % n == 0
    ensures (a + n - 1) / n == a / n
  {
    var q := a / n;
    assert a == n * q;
    assert a + n - 1 == n * q + (n - 1);
    DivUnique(a + n - 1, n, q, n - 1);
  }

  /** The number of documents of a positive batch size is the ceiling of
      `total / n`: none for no reviews, exactly `total / n` for a multiple
      of `n`, so no empty trailing document. */
  lemma DocumentCount(formatted: seq<string>, n: nat)
    requires n > 0
    ensures var docs := Documents(Batches(formatted, n));
      |docs| == (|formatted| + n - 1) / n &&
      (|formatted| == 0 ==> docs == []) &&
      (|formatted| % n == 0 ==> |docs| == |formatted| / n)
  {
    BatchesAreChunks(formatted, n);
    ChunksCount(formatted, n);
    if |formatted| % n == 0 {
      CeilExact(|formatted|, n);
    }
  }

  /** The batches put back together are the rendered reviews in order;
      every batch is non-empty, all but the last hold `n`; and each
      document is its batch joined with newlines. */
  lemma DocumentsPartition(formatted: seq<string>, n: nat)
    requires n > 0
    ensures var bs := Batches(formatted, n);
      var docs := Documents(bs);
      Flatten(bs) == formatted &&
      (forall k :: 0 <= k < |bs| ==> 0 < |bs[k]| <= n) &&
      (forall k :: 0 <= k < |bs| - 1 ==> |bs[k]| == n) &&
      (forall k :: 0 <= k < |docs| ==> docs[k].content == Join("\n", bs[k]))
  {
    BatchesAreChunks(formatted, n);
    ChunkSizes(formatted, n);
    FlattenChunks(formatted, n);
  }

  /** Document `k` is the newline join of reviews `k * n` up to `k * n + n`
      (or the end). */
  lemma DocumentAt(formatted: seq<string>, n: nat, k: nat)
    requires n > 0 && k < |Documents(Batches(formatted, n))|
    ensures k * n < |formatted|
    ensures Documents(Batches(formatted, n))[k].content == Join("\n", formatted[k * n..Min(k * n + n, |formatted|)])
  {
    BatchesAreChunks(formatted, n);
    ChunkAt(formatted, n, k);
  }

  /** A newline join starts with whatever its first text starts with. */
  lemma JoinStartsWith(batch: seq<string>, prefix: string)
    requires |batch| > 0 && |prefix| <= |batch[0]| && batch[0][..|prefix|] == prefix
    ensures |prefix| <= |Join("\n", batch)| && Join("\n", batch)[..|prefix|] == prefix
  {
    var c := Join("\n", batch);
    JoinBounds("\n", batch);
    assert c[..|prefix|] == c[..|batch[0]|][..|prefix|];
  }

  /** A newline join ends with whatever its last text ends with. */
  lemma JoinEndsWith(batch: seq<string>, suffix: string)
    requires |batch| > 0
    requires var last := batch[|batch| - 1]; |suffix| <= |last| && last[|last| - |suffix|..] == suffix
    ensures var c := Join("\n", batch); |suffix| <= |c| && c[|c| - |suffix|..] == suffix
  {
    var c := Join("\n", batch);
    var last := batch[|batch| - 1];
    JoinBounds("\n", batch);
    assert c[|c| - |suffix|..] == c[|c| - |last|..][|last| - |suffix|..];
  }

  /** Document `k` begins with its first review and ends with its last:
      the newline join adds nothing before the first or after the last. */
  lemma DocumentEdges(formatted: seq<string>, n: nat, k: nat)
    requires n > 0 && k < |Documents(Batches(formatted, n))|
    ensures k * n < |formatted|
    ensures var c, first, last :=
        Documents(Batches(formatted, n))[k].content,
        formatted[k * n], formatted[Min(k * n + n, |formatted|) - 1];
      |first| <= |c| && c[..|first|] == first &&
      |last| <= |c| && c[|c| - |last|..] == last
  {
    DocumentAt(formatted, n, k);
    var hi := Min(k * n + n, |formatted|);
    var batch := formatted[k * n..hi];
    assert batch[0] == formatted[k * n];
    assert batch[|batch| - 1] == formatted[hi - 1];
    JoinStartsWith(batch, batch[0]);
    JoinEndsWith(batch, batch[|batch| - 1]);
  }

  /** 250 rendered reviews in batches of 100: three documents of 100, 100
      and 50 reviews. */
  lemma TwoHundredFiftyInHundreds(s: seq<string>)
    requires |s| == 250
    ensures |Batches(s, 100)| == 3
    ensures |Batches(s, 100)[0]| == 100 && |Batches(s, 100)[1]| == 100 && |Batches(s, 100)[2]| == 50
  {
  }

  /** A negative batch size is not rejected: with Python's floor division
      and slice clamping, no rows and a size of -1 give two empty documents. */
  lemma NegativeBatchSize()
    ensures Batches([], -1) == [[], []]
    ensures ReviewsJson([], -1) == Success([Document(""), Document("")])
  {
    assert DocCount(0, -1) == 2;
    assert Formatted([]) == [];
    assert Documents([[], []]) == [Document(""), Document("")];
  }
}

