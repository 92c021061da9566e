/** The reply filter and record extraction of `download_conference_reviews`
    (iclr-2024-reviews/scrape.py, lines 48-75). The OpenReview client is
    not modelled: the venue's names and the submissions with their replies
    are inputs, as the client would have returned them. */
module Fetcher {
  import opened Results
  import opened PyBuiltins

  /** A note's `content`: field name to a nested mapping with a `value` key. */
  type Content = map<string, map<string, string>>

  /** What an absent field is recorded as. */
  const Sentinel := "N/A"

  /** The venue id and the two names read from the venue group. */
  datatype Venue = Venue(id: string, submissionName: string, reviewName: string)

  /** One entry of a submission's `details['replies']`. */
  datatype Reply = Reply(id: string, invitations: seq<string>, content: Content, tcdate: int)

  datatype Submission = Submission(number: nat, content: Content, replies: seq<Reply>)

  /** One flat review record, one field per CSV column, in column order. */
  datatype Review = Review(
    paperId: nat, paperTitle: string, reviewId: string,
    rating: string, confidence: string, summary: string,
    soundness: string, presentation: string, contribution: string,
    strengths: string, weaknesses: string, questions: string,
    ethicsFlag: string, codeOfConduct: string, timestamp: int)

  /** The only way the extraction itself fails: `submission.content['title']`
      raises, and the whole download is abandoned. */
  datatype FetchError = MissingTitle(paperId: nat)

  /** The invitation that marks a reply as a review of submission `number`. */
  function ReviewInvitation(v: Venue, number: nat): string {
    v.id + "/" + v.submissionName + Str(number) + "/-/" + v.reviewName
  }

  /** The list comprehension that keeps a submission's reviews. */
  function ReviewsOf(v: Venue, number: nat, replies: seq<Reply>): (kept: seq<Reply>)
    ensures |kept| <= |replies|
  {
    if replies == [] then []
    else
      var rest := ReviewsOf(v, number, replies[1..]);
      if ReviewInvitation(v, number) in replies[0].invitations then [replies[0]] + rest else rest
  }

  /** `content.get(key, {}).get('value', 'N/A')`. */
  function Lookup(content: Content, key: string): string {
    if key in content && "value" in content[key] then content[key]["value"] else Sentinel
  }

  /** The content keys read for the string fields of a record, in column order. */
  const TrackedKeys: seq<string> := [
    "rating", "confidence", "summary", "soundness", "presentation", "contribution",
    "strengths", "weaknesses", "questions", "flag_for_ethics_review", "code_of_conduct"]

  /** The lookups of `keys` in `content`, in order. */
  function Lookups(content: Content, keys: seq<string>): (vals: seq<string>)
    ensures |vals| == |keys|
  {
    if keys == [] then [] else [Lookup(content, keys[0])] + Lookups(content, keys[1..])
  }

  /** The dict built for one review: the submission's number and title, the
      reply's id and creation time, and the tracked keys' lookups. */
  function ToReview(s: Submission, title: string, r: Reply): Review {
    var vals := Lookups(r.content, TrackedKeys);
    Review(
      s.number, title, r.id,
      vals[0], vals[1], vals[2], vals[3], vals[4], vals[5],
      vals[6], vals[7], vals[8], vals[9], vals[10],
      r.tcdate)
  }

  /** The string fields of a record filled from the reply's content, in column order. */
  function TrackedValues(rec: Review): seq<string> {
    [rec.rating, rec.confidence, rec.summary, rec.soundness, rec.presentation, rec.contribution,
     rec.strengths, rec.weaknesses, rec.questions, rec.ethicsFlag, rec.codeOfConduct]
  }

  /** Records for a submission's kept replies, in reply order. */
  function RecordsOf(s: Submission, title: string, kept: seq<Reply>): (recs: seq<Review>)
    ensures |recs| == |kept|
  {
    seq(|kept|, i requires 0 <= i < |kept| => ToReview(s, title, kept[i]))
  }

  /** The records one submission contributes, given its title is present:
      one per kept reply, all with the title's `value` or the sentinel. */
  function SubmissionRecords(v: Venue, s: Submission): seq<Review>
    requires "title" in s.content
  {
    RecordsOf(s, Lookup(s.content, "title"), ReviewsOf(v, s.number, s.replies))
  }

  /** One turn of the outer loop: `submission.content['title']` raises when
      the key is missing, which abandons the run; otherwise the submission's
      records are appended. */
  function Extend(acc: Result<seq<Review>, FetchError>, v: Venue, s: Submission): Result<seq<Review>, FetchError> {
    if acc.Failure? then acc
    else if "title" !in s.content then Failure(MissingTitle(s.number))
    else Success(acc.value + SubmissionRecords(v, s))
  }

  /** What `download_conference_reviews` collects in `reviews_data`, or the
      error that aborts it. */
  function Download(v: Venue, subs: seq<Submission>): Result<seq<Review>, FetchError>
    decreases |subs|
  {
    if subs == [] then Success([]) else Extend(Download(v, subs[..|subs| - 1]), v, subs[|subs| - 1])
  }

  /** The nested loops of lines 48-75: an outer loop over submissions that
      reads each title, and an inner loop that appends one record per kept
      reply. */
  method DownloadConferenceReviews(v: Venue, submissions: seq<Submission>)
    returns (r: Result<seq<Review>, FetchError>)
    ensures r == Download(v, submissions)
  {
    var reviewsData: seq<Review> := [];
    var i := 0;
    while i < |submissions|
      invariant 0 <= i <= |submissions|
      invariant Download(v, submissions[..i]) == Success(reviewsData)
    {
      var submission := submissions[i];
      if "title" !in submission.content {
        DownloadKeepsFirstError(v, submissions, i + 1);
        return Failure(MissingTitle(submission.number));
      }
      var title := Lookup(submission.content, "title");
      var kept := ReviewsOf(v, submission.number, submission.replies);
      ghost var before := reviewsData;
      var j := 0;
      while j < |kept|
        invariant 0 <= j <= |kept|
        invariant reviewsData == before + RecordsOf(submission, title, kept[..j])
      {
        RecordsOfStep(submission, title, kept, j);
        reviewsData := reviewsData + [ToReview(submission, title, kept[j])];
        j := j + 1;
      }
      assert kept[..j] == kept;
      DownloadStep(v, submissions, i);
      i := i + 1;
    }
    assert submissions[..i] == submissions;
    r := Success(reviewsData);
  }

  /** One more kept reply appends its record. */
  lemma RecordsOfStep(s: Submission, title: string, kept: seq<Reply>, j: nat)
    requires j < |kept|
    ensures RecordsOf(s, title, kept[..j + 1]) == RecordsOf(s, title, kept[..j]) + [ToReview(s, title, kept[j])]
  {
  }

  /** One more submission with a title appends its records. */
  lemma DownloadStep(v: Venue, subs: seq<Submission>, i: nat)
    requires i < |subs| && Download(v, subs[..i]).Success?
    requires "title" in subs[i].content
    ensures Download(v, subs[..i + 1]) == Success(Download(v, subs[..i]).value + SubmissionRecords(v, subs[i]))
  {
    var p := subs[..i + 1];
    assert p[..|p| - 1] == subs[..i];
    assert Download(v, p) == Extend(Download(v, subs[..i]), v, subs[i]);
  }

  // ---------------------------------------------------------------------
  // The reply filter

  /** A reply is kept exactly when the submission's review invitation is
      one of its invitations. */
  lemma {:induction false} ReviewsOfMembers(v: Venue, number: nat, replies: seq<Reply>)
    ensures forall r :: r in ReviewsOf(v, number, replies) <==>
      r in replies && ReviewInvitation(v, number) in r.invitations
    decreases |replies|
  {
    if replies != [] {
      ReviewsOfMembers(v, number, replies[1..]);
      assert forall r :: r in replies <==> r == replies[0] || r in replies[1..];
    }
  }

  /** The filter distributes over concatenation, so kept replies keep their
      relative order. */
  lemma {:induction false} ReviewsOfAppend(v: Venue, number: nat, a: seq<Reply>, b: seq<Reply>)
    ensures ReviewsOf(v, number, a + b) == ReviewsOf(v, number, a) + ReviewsOf(v, number, b)
    decreases |a|
  {
    if a == [] {
      assert a + b == b;
    } else {
      assert (a + b)[0] == a[0];
      assert (a + b)[1..] == a[1..] + b;
      ReviewsOfAppend(v, number, a[1..], b);
    }
  }

  /** A reply tagged for every reply of the list is kept, and the list is
      unchanged; a list with no tagged reply is emptied. */
  lemma {:induction false} ReviewsOfExtremes(v: Venue, number: nat, replies: seq<Reply>)
    ensures (forall r :: r in replies ==> ReviewInvitation(v, number) in r.invitations) ==>
              ReviewsOf(v, number, replies) == replies
    ensures (forall r :: r in replies ==> ReviewInvitation(v, number) !in r.invitations) ==>
              ReviewsOf(v, number, replies) == []
    decreases |replies|
  {
    if replies != [] {
      ReviewsOfExtremes(v, number, replies[1..]);
      assert forall r :: r in replies[1..] ==> r in replies;
    }
  }

  /** The review invitation is specific to its submission: two different
      submission numbers never share one, so a reply is a review of at
      most the submission it was posted under, even when one number's
      digits are a prefix of another's. */
  lemma ReviewInvitationDistinct(v: Venue, n: nat, m: nat)
    requires n != m
    ensures ReviewInvitation(v, n) != ReviewInvitation(v, m)
  {
    var head := v.id + "/" + v.submissionName;
    var tail := "/-/" + v.reviewName;
    assert ReviewInvitation(v, n) == head + (Str(n) + tail);
    assert ReviewInvitation(v, m) == head + (Str(m) + tail);
    if ReviewInvitation(v, n) == ReviewInvitation(v, m) {
      assert Str(n) == (head + (Str(n) + tail))[|head|..|head| + |Str(n)|];
      assert Str(m) == (head + (Str(m) + tail))[|head|..|head| + |Str(m)|];
      StrInjective(n, m);
    }
  }

  /** A reply whose only review invitation is that of submission `m` (it
      may carry other, non-review tags) is kept for `m` and for no other
      submission. */
  lemma ReplyBelongsToOneSubmission(v: Venue, r: Reply, n: nat, m: nat)
    requires ReviewInvitation(v, m) in r.invitations
    requires forall x :: x in r.invitations ==>
      x == ReviewInvitation(v, m) || forall k: nat :: x != ReviewInvitation(v, k)
    ensures ReviewsOf(v, n, [r]) == (if n == m then [r] else [])
  {
    if n != m {
      ReviewInvitationDistinct(v, n, m);
    }
    assert [r][1..] == [];
  }

  // ---------------------------------------------------------------------
  // The record of one review

  lemma {:induction false} LookupsAt(content: Content, keys: seq<string>, k: nat)
    requires k < |keys|
    ensures Lookups(content, keys)[k] == Lookup(content, keys[k])
    decreases |keys|
  {
    if k > 0 {
      LookupsAt(content, keys[1..], k - 1);
    }
  }

  /** Changing a key that is not looked up changes no lookup. */
  lemma {:induction false} LookupsIgnore(content: Content, keys: seq<string>, key: string, x: map<string, string>)
    requires key !in keys
    ensures Lookups(content[key := x], keys) == Lookups(content, keys)
    decreases |keys|
  {
    if keys != [] {
      LookupsIgnore(content, keys[1..], key, x);
    }
  }

  /** The string fields of a record are the tracked keys' lookups. */
  lemma TrackedValuesOf(s: Submission, title: string, r: Reply)
    ensures TrackedValues(ToReview(s, title, r)) == Lookups(r.content, TrackedKeys)
  {
  }

  /** Every tracked field is the content's nested `value` when both lookups
      succeed and the sentinel otherwise; the ethics flag is read from
      `flag_for_ethics_review`. A field is empty only when the reply gave
      an empty value. */
  lemma ToReviewFields(s: Submission, title: string, r: Reply)
    ensures var rec := ToReview(s, title, r);
      rec.paperId == s.number && rec.paperTitle == title && rec.reviewId == r.id && rec.timestamp == r.tcdate &&
      |TrackedValues(rec)| == |TrackedKeys| &&
      forall k :: 0 <= k < |TrackedKeys| ==>
        var key := TrackedKeys[k];
        (key in r.content && "value" in r.content[key] ==> TrackedValues(rec)[k] == r.content[key]["value"]) &&
        (!(key in r.content && "value" in r.content[key]) ==> TrackedValues(rec)[k] == Sentinel) &&
        (TrackedValues(rec)[k] == "" ==> key in r.content && "value" in r.content[key])
  {
    TrackedValuesOf(s, title, r);
    forall k | 0 <= k < |TrackedKeys|
      ensures TrackedValues(ToReview(s, title, r))[k] == Lookup(r.content, TrackedKeys[k])
    {
      LookupsAt(r.content, TrackedKeys, k);
    }
  }

  /** The ethics flag is the lookup of `flag_for_ethics_review`. */
  lemma EthicsFlagKey(s: Submission, title: string, r: Reply)
    ensures ToReview(s, title, r).ethicsFlag == Lookup(r.content, "flag_for_ethics_review")
  {
    LookupsAt(r.content, TrackedKeys, 9);
  }

  /** The record depends on the reply's content only through the tracked
      keys: a key named `ethics_flag` in the content is ignored. */
  lemma ToReviewIgnoresUntracked(s: Submission, title: string, r: Reply, key: string, x: map<string, string>)
    requires key !in TrackedKeys
    ensures ToReview(s, title, r.(content := r.content[key := x])) == ToReview(s, title, r)
  {
    LookupsIgnore(r.content, TrackedKeys, key, x);
  }

  // ---------------------------------------------------------------------
  // The whole download

  /** Once a prefix of the submissions fails, every longer prefix fails with
      the same error: the first missing title aborts the run. */
  lemma {:induction false} DownloadKeepsFirstError(v: Venue, subs: seq<Submission>, k: nat)
    requires 0 < k <= |subs|
    requires Download(v, subs[..k - 1]).Success?
    requires "title" !in subs[k - 1].content
    ensures Download(v, subs) == Failure(MissingTitle(subs[k - 1].number))
    decreases |subs|
  {
    if |subs| == k {
      assert subs[..k] == subs;
      assert subs[..|subs| - 1] == subs[..k - 1];
    } else {
      var init := subs[..|subs| - 1];
      assert init[..k - 1] == subs[..k - 1];
      DownloadKeepsFirstError(v, init, k);
    }
  }

  lemma DownloadUnfold(v: Venue, subs: seq<Submission>)
    requires subs != []
    ensures Download(v, subs) == Extend(Download(v, subs[..|subs| - 1]), v, subs[|subs| - 1])
  {
  }

  /** Downloading a concatenation of submission lists: the first error wins,
      otherwise the records of the first list come before those of the second. */
  lemma {:induction false} DownloadAppend(v: Venue, a: seq<Submission>, b: seq<Submission>)
    ensures Download(v, a).Failure? ==> Download(v, a + b) == Download(v, a)
    ensures Download(v, a).Success? && Download(v, b).Failure? ==> Download(v, a + b) == Download(v, b)
    ensures Download(v, a).Success? && Download(v, b).Success? ==>
              Download(v, a + b) == Success(Download(v, a).value + Download(v, b).value)
    decreases |b|
  {
    if b == [] {
      assert a + b == a;
      if Download(v, a).Success? {
        assert Download(v, a).value + [] == Download(v, a).value;
      }
    } else {
      var b', last := b[..|b| - 1], b[|b| - 1];
      DownloadAppend(v, a, b');
      DownloadUnfold(v, a + b);
      assert (a + b)[..|a + b| - 1] == a + b';
      assert (a + b)[|a + b| - 1] == last;
      ExtendAppend(Download(v, a), Download(v, b'), Download(v, a + b'), v, last);
    }
  }

  /** The step of `DownloadAppend`: one more submission at the end keeps the
      relation between the download of a prefix, of a suffix and of both. */
  lemma ExtendAppend(da: Result<seq<Review>, FetchError>, db: Result<seq<Review>, FetchError>,
                     dab: Result<seq<Review>, FetchError>, v: Venue, s: Submission)
    requires da.Failure? ==> dab == da
    requires da.Success? && db.Failure? ==> dab == db
    requires da.Success? && db.Success? ==> dab == Success(da.value + db.value)
    ensures da.Failure? ==> Extend(dab, v, s) == da
    ensures da.Success? && Extend(db, v, s).Failure? ==> Extend(dab, v, s) == Extend(db, v, s)
    ensures da.Success? && Extend(db, v, s).Success? ==>
              Extend(dab, v, s) == Success(da.value + Extend(db, v, s).value)
  {
    if da.Success? && db.Success? && "title" in s.content {
      var recs := SubmissionRecords(v, s);
      assert dab.value + recs == da.value + (db.value + recs);
    }
  }

  /** A single submission yields its kept replies' records, or its error. */
  lemma DownloadOne(v: Venue, s: Submission)
    ensures "title" !in s.content ==> Download(v, [s]) == Failure(MissingTitle(s.number))
    ensures "title" in s.content ==> Download(v, [s]) == Success(SubmissionRecords(v, s))
  {
    assert [s][..|[s]| - 1] == [];
    assert Download(v, [s]) == Extend(Success([]), v, s);
    if "title" in s.content {
      assert [] + SubmissionRecords(v, s) == SubmissionRecords(v, s);
    }
  }

  /** The download succeeds exactly when every submission has a `title` key. */
  lemma {:induction false} DownloadSucceeds(v: Venue, subs: seq<Submission>)
    ensures Download(v, subs).Success? <==> forall i :: 0 <= i < |subs| ==> "title" in subs[i].content
    decreases |subs|
  {
    if subs != [] {
      var init := subs[..|subs| - 1];
      DownloadSucceeds(v, init);
      DownloadUnfold(v, subs);
      assert forall i :: 0 <= i < |init| ==> init[i] == subs[i];
    }
  }

  /** A failed download reports the first submission without a `title` key. */
  lemma {:induction false} DownloadFirstError(v: Venue, subs: seq<Submission>)
    requires Download(v, subs).Failure?
    ensures exists i ::
              0 <= i < |subs| && "title" !in subs[i].content &&
              (forall j :: 0 <= j < i ==> "title" in subs[j].content) &&
              Download(v, subs).error == MissingTitle(subs[i].number)
    decreases |subs|
  {
    var init := subs[..|subs| - 1];
    DownloadUnfold(v, subs);
    if Download(v, init).Failure? {
      DownloadFirstError(v, init);
      var i :| 0 <= i < |init| && "title" !in init[i].content &&
        (forall j :: 0 <= j < i ==> "title" in init[j].content) &&
        Download(v, init).error == MissingTitle(init[i].number);
      assert init[i] == subs[i];
      assert forall j :: 0 <= j < i ==> init[j] == subs[j];
    } else {
      DownloadSucceeds(v, init);
      assert forall j :: 0 <= j < |init| ==> init[j] == subs[j];
      assert "title" !in subs[|init|].content;
    }
  }

  /** Number of replies kept over all submissions. */
  function KeptCount(v: Venue, subs: seq<Submission>): nat {
    if subs == [] then 0
    else KeptCount(v, subs[..|subs| - 1]) + |ReviewsOf(v, subs[|subs| - 1].number, subs[|subs| - 1].replies)|
  }

  /** One record per kept reply: no duplicates, no omissions. */
  lemma {:induction false} DownloadCount(v: Venue, subs: seq<Submission>)
    requires Download(v, subs).Success?
    ensures |Download(v, subs).value| == KeptCount(v, subs)
    decreases |subs|
  {
    if subs != [] {
      DownloadCount(v, subs[..|subs| - 1]);
    }
  }

  /** `rec` is the record of one of the kept replies of submission `s`. */
  ghost predicate RecordOf(v: Venue, s: Submission, rec: Review) {
    exists r :: r in ReviewsOf(v, s.number, s.replies) && rec == ToReview(s, Lookup(s.content, "title"), r)
  }

  lemma SubmissionRecordsMembers(v: Venue, s: Submission)
    requires "title" in s.content
    ensures forall rec :: rec in SubmissionRecords(v, s) <==> RecordOf(v, s, rec)
  {
    RecordsOfMembership(s, Lookup(s.content, "title"), ReviewsOf(v, s.number, s.replies));
  }

  /** Every record of a submission carries the submission's number, and the
      title's `value`, or the sentinel when the title has none. */
  lemma SubmissionRecordsTitle(v: Venue, s: Submission)
    requires "title" in s.content
    ensures forall rec :: rec in SubmissionRecords(v, s) ==>
      rec.paperId == s.number &&
      rec.paperTitle == (if "value" in s.content["title"] then s.content["title"]["value"] else Sentinel)
  {
    var recs := SubmissionRecords(v, s);
    forall rec | rec in recs
      ensures rec.paperId == s.number
      ensures rec.paperTitle == (if "value" in s.content["title"] then s.content["title"]["value"] else Sentinel)
    {
      var k :| 0 <= k < |recs| && recs[k] == rec;
    }
  }

  /** Every record comes from a kept reply of some submission, with that
      submission's number and that reply's id. */
  lemma {:induction false} DownloadSound(v: Venue, subs: seq<Submission>, rec: Review)
    requires Download(v, subs).Success? && rec in Download(v, subs).value
    ensures exists i :: 0 <= i < |subs| && RecordOf(v, subs[i], rec)
    decreases |subs|
  {
    var init, s := subs[..|subs| - 1], subs[|subs| - 1];
    DownloadUnfold(v, subs);
    var prefix := Download(v, init).value;
    assert Download(v, subs).value == prefix + SubmissionRecords(v, s);
    if rec in prefix {
      DownloadSound(v, init, rec);
      var i :| 0 <= i < |init| && RecordOf(v, init[i], rec);
      assert init[i] == subs[i];
    } else {
      SubmissionRecordsMembers(v, s);
      assert RecordOf(v, subs[|subs| - 1], rec);
    }
  }

  /** Every kept reply of every submission gives a record. */
  lemma {:induction false} DownloadComplete(v: Venue, subs: seq<Submission>, i: nat, rec: Review)
    requires Download(v, subs).Success? && i < |subs| && RecordOf(v, subs[i], rec)
    ensures rec in Download(v, subs).value
    decreases |subs|
  {
    var init, s := subs[..|subs| - 1], subs[|subs| - 1];
    DownloadUnfold(v, subs);
    var prefix := Download(v, init).value;
    assert Download(v, subs).value == prefix + SubmissionRecords(v, s);
    if i < |init| {
      assert init[i] == subs[i];
      DownloadComplete(v, init, i, rec);
    } else {
      SubmissionRecordsMembers(v, s);
    }
  }

  lemma RecordsOfMembership(s: Submission, title: string, kept: seq<Reply>)
    ensures forall rec :: rec in RecordsOf(s, title, kept) <==> exists r :: r in kept && rec == ToReview(s, title, r)
  {
    var recs := RecordsOf(s, title, kept);
    forall rec | rec in recs
      ensures exists r :: r in kept && rec == ToReview(s, title, r)
    {
      var i :| 0 <= i < |recs| && recs[i] == rec;
      assert kept[i] in kept;
    }
    forall r | r in kept
      ensures ToReview(s, title, r) in recs
    {
      var i :| 0 <= i < |kept| && kept[i] == r;
      assert recs[i] == ToReview(s, title, r);
    }
  }
}
