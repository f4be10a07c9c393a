/** `get_all_sessions`' result: one summary per record, sorted by
    `created_at`, newest first. */
module Listing {
  import opened TextOrder
  import opened Timestamps
  import opened Sessions

  /** `{id, title, created_at, message_count}`. */
  datatype Summary = Summary(id: string, title: string, createdAt: string, messageCount: nat)

  function Summarize(id: string, s: Session): Summary {
    Summary(id, s.title, s.createdAt, |s.messages|)
  }

  /** Every entry is the summary of the record stored under its id. */
  predicate SummariesOf(xs: seq<Summary>, table: map<string, Session>) {
    forall i :: 0 <= i < |xs| ==> xs[i].id in table && xs[i] == Summarize(xs[i].id, table[xs[i].id])
  }

  /** Sorted by `created_at` in non-increasing string order. */
  predicate NewestFirst(xs: seq<Summary>) {
    forall i, j :: 0 <= i < j < |xs| ==> StrLe(xs[j].createdAt, xs[i].createdAt)
  }

  function Ids(xs: seq<Summary>): (ids: seq<string>)
    ensures |ids| == |xs|
  {
    if xs == [] then [] else [xs[0].id] + Ids(xs[1..])
  }

  lemma {:induction false} IdsAppend(xs: seq<Summary>, x: Summary)
    ensures Ids(xs + [x]) == Ids(xs) + [x.id]
  {
    if xs != [] {
      assert (xs + [x])[1..] == xs[1..] + [x];
      IdsAppend(xs[1..], x);
    }
  }

  lemma PrependNewest(x: Summary, xs: seq<Summary>)
    requires NewestFirst(xs)
    requires xs != [] ==> StrLe(xs[0].createdAt, x.createdAt)
    ensures NewestFirst([x] + xs)
  {
    forall j | 0 < j < |xs| + 1
      ensures StrLe(([x] + xs)[j].createdAt, x.createdAt)
    {
      if j > 1 {
        StrLeTransitive(xs[j - 1].createdAt, xs[0].createdAt, x.createdAt);
      }
    }
  }

  /** Insert one summary into a newest-first list, before every entry that is not newer. */
  function InsertNewestFirst(x: Summary, xs: seq<Summary>): (r: seq<Summary>)
    requires NewestFirst(xs)
    ensures NewestFirst(r)
    ensures multiset(r) == multiset(xs) + multiset{x}
    ensures multiset(Ids(r)) == multiset(Ids(xs)) + multiset{x.id}
  {
    if xs == [] then [x]
    else if StrLe(xs[0].createdAt, x.createdAt) then
      PrependNewest(x, xs);
      [x] + xs
    else
      StrLeTotal(xs[0].createdAt, x.createdAt);
      var rest := InsertNewestFirst(x, xs[1..]);
      KeepHead(x, xs, rest);
      ConsCounts(x, xs, rest);
      ConsIdCounts(x, xs, rest);
      [xs[0]] + rest
  }

  /** The head of a newest-first list stays first when a summary that is not
      newer is inserted into its tail. */
  lemma KeepHead(x: Summary, xs: seq<Summary>, rest: seq<Summary>)
    requires NewestFirst(xs) && xs != [] && StrLe(x.createdAt, xs[0].createdAt)
    requires NewestFirst(rest) && multiset(rest) == multiset(xs[1..]) + multiset{x}
    ensures NewestFirst([xs[0]] + rest)
  {
    forall k | 0 <= k < |rest|
      ensures StrLe(rest[k].createdAt, xs[0].createdAt)
    {
      TailNotNewer(x, xs, rest, k);
    }
    PrependNewest(xs[0], rest);
  }

  lemma ConsCounts(x: Summary, xs: seq<Summary>, rest: seq<Summary>)
    requires xs != []
    requires multiset(rest) == multiset(xs[1..]) + multiset{x}
    ensures multiset([xs[0]] + rest) == multiset(xs) + multiset{x}
  {
    calc {
      multiset([xs[0]] + rest);
      multiset{xs[0]} + multiset(rest);
      multiset{xs[0]} + multiset(xs[1..]) + multiset{x};
      { assert xs == [xs[0]] + xs[1..]; }
      multiset(xs) + multiset{x};
    }
  }

  lemma ConsIdCounts(x: Summary, xs: seq<Summary>, rest: seq<Summary>)
    requires xs != []
    requires multiset(Ids(rest)) == multiset(Ids(xs[1..])) + multiset{x.id}
    ensures multiset(Ids([xs[0]] + rest)) == multiset(Ids(xs)) + multiset{x.id}
  {
    assert ([xs[0]] + rest)[1..] == rest;
    assert Ids([xs[0]] + rest) == [xs[0].id] + Ids(rest);
    assert Ids(xs) == [xs[0].id] + Ids(xs[1..]);
  }

  lemma TailNotNewer(x: Summary, xs: seq<Summary>, rest: seq<Summary>, k: int)
    requires NewestFirst(xs) && xs != [] && StrLe(x.createdAt, xs[0].createdAt)
    requires multiset(rest) == multiset(xs[1..]) + multiset{x}
    requires 0 <= k < |rest|
    ensures StrLe(rest[k].createdAt, xs[0].createdAt)
  {
    var y := rest[k];
    assert y in multiset(rest);
    if y != x {
      assert y in multiset(xs[1..]);
      var i :| 0 <= i < |xs[1..]| && xs[1..][i] == y;
      assert xs[i + 1] == y;
    }
  }

  /** `sorted(xs, key=lambda x: x["created_at"], reverse=True)`: the same
      summaries, newest first. */
  function SortNewestFirst(xs: seq<Summary>): (r: seq<Summary>)
    ensures NewestFirst(r)
    ensures multiset(r) == multiset(xs)
    ensures multiset(Ids(r)) == multiset(Ids(xs))
  {
    if xs == [] then []
    else
      assert xs == [xs[0]] + xs[1..];
      InsertNewestFirst(xs[0], SortNewestFirst(xs[1..]))
  }

  /** With well-formed `created_at` values, newest first by string is newest
      first in time. */
  lemma NewestFirstIsChronological(xs: seq<Summary>, i: int, j: int)
    requires NewestFirst(xs) && 0 <= i < j < |xs|
    requires ParseTimestamp(xs[i].createdAt).Some? && ParseTimestamp(xs[j].createdAt).Some?
    ensures MinuteOf(ParseTimestamp(xs[j].createdAt).value) <= MinuteOf(ParseTimestamp(xs[i].createdAt).value)
  {
    RenderParseRoundTrip(xs[i].createdAt);
    RenderParseRoundTrip(xs[j].createdAt);
    RenderOrderIsChronological(ParseTimestamp(xs[j].createdAt).value, ParseTimestamp(xs[i].createdAt).value);
  }
}
