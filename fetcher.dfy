/** The part of `get_leetcode_submissions` that turns the reply of the GraphQL
    endpoint into a statistics record (app.py, lines 33-48). The POST itself
    (line 31) is outside the model: the reply arrives as a `Response` value. */
module Fetcher {
  import opened Wrappers

  /** Accepted-submission counts by difficulty; `Total` is the `All` bucket. */
  datatype Stats = Stats(total: nat, easy: nat, medium: nat, hard: nat)

  /** The record returned on every failure. */
  const Zero: Stats := Stats(0, 0, 0, 0)

  /** One `{difficulty, count}` element of a submission list. */
  datatype Entry = Entry(difficulty: string, count: nat)

  /** `matchedUser.submitStats`: accepted and total submission lists. */
  datatype SubmitStats = SubmitStats(acSubmissionNum: seq<Entry>, totalSubmissionNum: seq<Entry>)

  /** The decoded JSON body. `hasErrors` says whether the top level has an
      `errors` key; a reply with that key gives zeros whatever else it holds.
      `matchedUser` is `None` when `data` is missing or an empty object, or
      `matchedUser` is missing, null or an empty object, which the source
      treats alike. */
  datatype Payload = Payload(hasErrors: bool, matchedUser: Option<SubmitStats>)

  /** An HTTP reply: its status code and its decoded body. */
  datatype Response = Response(statusCode: int, body: Payload)

  /** The reply carries usable user data (the negation of the two guards). */
  predicate Succeeded(resp: Response)
  {
    resp.statusCode == 200 && !resp.body.hasErrors && resp.body.matchedUser.Some?
  }

  /** The dict comprehension `{entry['difficulty']: entry['count'] for entry in ...}`:
      entries are inserted in order, so a later entry replaces an earlier one
      with the same difficulty. */
  function ByDifficulty(entries: seq<Entry>): (d: map<string, nat>)
    ensures forall bucket :: bucket in d <==> HasBucket(entries, bucket)
    decreases |entries|
  {
    if entries == [] then map[]
    else
      var e := entries[|entries| - 1];
      HasBucketLast(entries);
      ByDifficulty(entries[..|entries| - 1])[e.difficulty := e.count]
  }

  /** A bucket occurs in a non-empty list exactly when it occurs before the
      last entry or is the last entry's. */
  lemma HasBucketLast(entries: seq<Entry>)
    requires entries != []
    ensures forall bucket :: HasBucket(entries, bucket) <==>
      (HasBucket(entries[..|entries| - 1], bucket) || entries[|entries| - 1].difficulty == bucket)
  {
    var init := entries[..|entries| - 1];
    forall bucket | HasBucket(entries, bucket) && entries[|entries| - 1].difficulty != bucket
      ensures HasBucket(init, bucket)
    {
      var i :| 0 <= i < |entries| && entries[i].difficulty == bucket;
      assert init[i] == entries[i];
    }
    forall bucket | HasBucket(init, bucket) ensures HasBucket(entries, bucket) {
      var i :| 0 <= i < |init| && init[i].difficulty == bucket;
      assert entries[i] == init[i];
    }
  }

  /** `d.get(key, 0)`. */
  function GetOrZero(d: map<string, nat>, key: string): nat
  {
    if key in d then d[key] else 0
  }

  /** The statistics the tracker records for one reply. */
  function StatsOf(resp: Response): (s: Stats)
    ensures !Succeeded(resp) ==> s == Zero
    ensures Succeeded(resp) ==>
      var entries := resp.body.matchedUser.value.acSubmissionNum;
      s == Stats(LastCount(entries, "All"), LastCount(entries, "Easy"),
                 LastCount(entries, "Medium"), LastCount(entries, "Hard"))
  {
    if resp.statusCode != 200 then Zero
    else if resp.body.hasErrors || resp.body.matchedUser.None? then Zero
    else
      var entries := resp.body.matchedUser.value.acSubmissionNum;
      LookupIsLastCount(entries, "All");
      LookupIsLastCount(entries, "Easy");
      LookupIsLastCount(entries, "Medium");
      LookupIsLastCount(entries, "Hard");
      var ac := ByDifficulty(entries);
      Stats(GetOrZero(ac, "All"), GetOrZero(ac, "Easy"), GetOrZero(ac, "Medium"), GetOrZero(ac, "Hard"))
  }

  /** Entry `i` is the last one in `entries` whose difficulty is `bucket`. */
  predicate IsLastWith(entries: seq<Entry>, bucket: string, i: int)
  {
    && 0 <= i < |entries|
    && entries[i].difficulty == bucket
    && forall j :: i < j < |entries| ==> entries[j].difficulty != bucket
  }

  /** Some entry of `entries` has difficulty `bucket`. */
  predicate HasBucket(entries: seq<Entry>, bucket: string)
  {
    exists i :: 0 <= i < |entries| && entries[i].difficulty == bucket
  }

  /** Reference definition of the lookup, without a dictionary: the count of
      the last entry labelled `bucket`, or 0 if there is none. */
  function LastCount(entries: seq<Entry>, bucket: string): nat
    decreases |entries|
  {
    if entries == [] then 0
    else if entries[|entries| - 1].difficulty == bucket then entries[|entries| - 1].count
    else LastCount(entries[..|entries| - 1], bucket)
  }

  /** `LastCount` picks the count of the last matching entry, and is 0 when
      no entry matches. */
  lemma {:induction false} LastCountSpec(entries: seq<Entry>, bucket: string)
    ensures forall i :: IsLastWith(entries, bucket, i) ==> LastCount(entries, bucket) == entries[i].count
    ensures !HasBucket(entries, bucket) ==> LastCount(entries, bucket) == 0
    decreases |entries|
  {
    if entries != [] {
      var init := entries[..|entries| - 1];
      LastCountSpec(init, bucket);
      forall i | IsLastWith(entries, bucket, i) && i < |init|
        ensures IsLastWith(init, bucket, i)
      {
      }
      if !HasBucket(entries, bucket) {
        assert !HasBucket(init, bucket) by {
          forall i | 0 <= i < |init| ensures init[i].difficulty != bucket {
            assert init[i] == entries[i];
          }
        }
      }
    }
  }

  /** Looking a bucket up in the comprehension's dict, defaulting to 0, is the
      reference `LastCount`: later duplicates win, absence reads as 0. */
  lemma {:induction false} LookupIsLastCount(entries: seq<Entry>, bucket: string)
    ensures GetOrZero(ByDifficulty(entries), bucket) == LastCount(entries, bucket)
    decreases |entries|
  {
    if entries != [] {
      LookupIsLastCount(entries[..|entries| - 1], bucket);
    }
  }

  /** The four labels the tracker reads. */
  predicate IsTrackedBucket(bucket: string)
  {
    bucket == "All" || bucket == "Easy" || bucket == "Medium" || bucket == "Hard"
  }

  /** The entries with a tracked bucket, in their original order. */
  function Tracked(entries: seq<Entry>): (r: seq<Entry>)
    ensures forall k :: 0 <= k < |r| ==> IsTrackedBucket(r[k].difficulty)
    decreases |entries|
  {
    if entries == [] then []
    else
      var e := entries[|entries| - 1];
      Tracked(entries[..|entries| - 1]) + (if IsTrackedBucket(e.difficulty) then [e] else [])
  }

  /** Dropping entries with other labels does not change a tracked lookup. */
  lemma {:induction false} LastCountTracked(entries: seq<Entry>, bucket: string)
    requires IsTrackedBucket(bucket)
    ensures LastCount(Tracked(entries), bucket) == LastCount(entries, bucket)
    decreases |entries|
  {
    if entries != [] {
      var init := entries[..|entries| - 1];
      var e := entries[|entries| - 1];
      LastCountTracked(init, bucket);
      var t := Tracked(init);
      if IsTrackedBucket(e.difficulty) {
        assert Tracked(entries) == t + [e];
        assert (t + [e])[..|t + [e]| - 1] == t;
      } else {
        assert Tracked(entries) == t;
      }
    }
  }

  /** The result depends on the reply only through the guards and the
      tracked accepted entries: entries with other labels, and the whole
      `totalSubmissionNum` list, have no influence. */
  lemma OnlyTrackedEntriesMatter(r1: Response, r2: Response)
    requires Succeeded(r1) && Succeeded(r2)
    requires Tracked(r1.body.matchedUser.value.acSubmissionNum)
          == Tracked(r2.body.matchedUser.value.acSubmissionNum)
    ensures StatsOf(r1) == StatsOf(r2)
  {
    var a1 := r1.body.matchedUser.value.acSubmissionNum;
    var a2 := r2.body.matchedUser.value.acSubmissionNum;
    LastCountTracked(a1, "All");
    LastCountTracked(a2, "All");
    LastCountTracked(a1, "Easy");
    LastCountTracked(a2, "Easy");
    LastCountTracked(a1, "Medium");
    LastCountTracked(a2, "Medium");
    LastCountTracked(a1, "Hard");
    LastCountTracked(a2, "Hard");
  }

  /** A successful reply listing `All 10, Easy 5, Medium 3, Hard 2` gives
      `Stats(10, 5, 3, 2)`. */
  lemma FourBucketExample(resp: Response)
    requires Succeeded(resp)
    requires resp.body.matchedUser.value.acSubmissionNum
          == [Entry("All", 10), Entry("Easy", 5), Entry("Medium", 3), Entry("Hard", 2)]
    ensures StatsOf(resp) == Stats(10, 5, 3, 2)
  {
    var ac := resp.body.matchedUser.value.acSubmissionNum;
    LastCountSpec(ac, "All");
    LastCountSpec(ac, "Easy");
    LastCountSpec(ac, "Medium");
    LastCountSpec(ac, "Hard");
    assert IsLastWith(ac, "All", 0);
    assert IsLastWith(ac, "Easy", 1);
    assert IsLastWith(ac, "Medium", 2);
    assert IsLastWith(ac, "Hard", 3);
  }
}
