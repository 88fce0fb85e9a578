/** Repository selection: the listing is filtered to public non-fork
    repositories, ranked by stars and then by last update, and cut to the
    requested size (lib/github.js `fetchRepositories`). */
module Repositories {
  import opened Js
  import opened Http

  /** One entry of the upstream repository listing, with the fields the
      pipeline reads. Timestamps are instants, written as integers. */
  datatype Repo = Repo(
    id: int,
    name: string,
    isFork: bool,
    isPrivate: bool,
    stars: nat,
    description: Option<string>,
    htmlUrl: string,
    homepage: Option<string>,
    language: Option<string>,
    topics: Option<seq<string>>,
    createdAt: int,
    updatedAt: int)

  /** A repository the selection keeps: neither a fork nor private. */
  predicate Listed(r: Repo)
  {
    !r.isFork && !r.isPrivate
  }

  /** The `filter` step: the listed repositories, in listing order. */
  function Eligible(repos: seq<Repo>): (r: seq<Repo>)
    ensures forall i :: 0 <= i < |r| ==> Listed(r[i])
    ensures forall x :: multiset(r)[x] == if Listed(x) then multiset(repos)[x] else 0
    ensures |r| <= |repos|
  {
    if repos == [] then []
    else
      assert repos == [repos[0]] + repos[1..];
      (if Listed(repos[0]) then [repos[0]] else []) + Eligible(repos[1..])
  }

  /** `a` is placed strictly before `b` by the comparator: more stars, or as
      many stars and a later update. */
  predicate Outranks(a: Repo, b: Repo)
  {
    a.stars > b.stars || (a.stars == b.stars && a.updatedAt > b.updatedAt)
  }

  /** `a` may stand before `b` in a ranked listing. */
  predicate InOrder(a: Repo, b: Repo)
  {
    a.stars > b.stars || (a.stars == b.stars && a.updatedAt >= b.updatedAt)
  }

  /** Every two neighbours are in order. */
  predicate Ranked(s: seq<Repo>)
  {
    forall i :: 0 < i < |s| ==> InOrder(s[i - 1], s[i])
  }

  /** Inserts `x` into a ranked sequence after every element that outranks
      it and before the rest. */
  function Insert(x: Repo, s: seq<Repo>): (r: seq<Repo>)
    ensures Ranked(s) ==> Ranked(r)
    ensures multiset(r) == multiset(s) + multiset{x}
    ensures |r| == |s| + 1
    ensures r[0] == x || (s != [] && r[0] == s[0])
  {
    if s == [] || !Outranks(s[0], x) then [x] + s
    else
      assert s == [s[0]] + s[1..];
      [s[0]] + Insert(x, s[1..])
  }

  /** The `sort` step. The comparator of the source returns 0 for equal
      star counts and equal update instants, and the sort of JavaScript is
      stable, so such repositories keep their listing order. */
  function Sort(s: seq<Repo>): (r: seq<Repo>)
    ensures Ranked(r)
    ensures multiset(r) == multiset(s)
    ensures |r| == |s|
  {
    if s == [] then []
    else
      assert s == [s[0]] + s[1..];
      Insert(s[0], Sort(s[1..]))
  }

  /** Filter, sort, slice. */
  function Select(repos: seq<Repo>, maxRepos: int): (r: seq<Repo>)
    ensures forall i :: 0 <= i < |r| ==> Listed(r[i])
    ensures forall x :: multiset(r)[x] <= if Listed(x) then multiset(repos)[x] else 0
    ensures Ranked(r)
    ensures 0 <= maxRepos ==> |r| == Min(maxRepos, |Eligible(repos)|)
    ensures maxRepos < 0 ==> |r| == Max(|Eligible(repos)| + maxRepos, 0)
    ensures |Eligible(repos)| <= maxRepos ==> multiset(r) == multiset(Eligible(repos))
  {
    var e := Eligible(repos);
    var r := Slice(Sort(e), maxRepos);
    SliceOfSorted(e, maxRepos);
    r
  }

  lemma PrefixIsSubMultiset(s: seq<Repo>, n: nat)
    requires n <= |s|
    ensures multiset(s[..n]) <= multiset(s)
    ensures Ranked(s) ==> Ranked(s[..n])
  {
    assert s == s[..n] + s[n..];
  }

  lemma SliceOfSorted(e: seq<Repo>, n: int)
    ensures Ranked(Slice(Sort(e), n))
    ensures multiset(Slice(Sort(e), n)) <= multiset(e)
    ensures |e| <= n ==> Slice(Sort(e), n) == Sort(e)
    ensures |Slice(Sort(e), n)| == SliceEnd(|e|, n)
  {
    var sorted := Sort(e);
    PrefixIsSubMultiset(sorted, |Slice(sorted, n)|);
  }

  /** `fetchRepositories`: the selection of a successful listing; every
      failure (status outside 2xx, unreadable body, network error) yields
      the empty sequence. */
  function FetchRepositories(reply: Reply<seq<Repo>>, maxRepos: int): (r: seq<Repo>)
    ensures Payload(reply).None? ==> r == []
    ensures forall i :: 0 <= i < |r| ==> Listed(r[i])
    ensures Ranked(r)
    ensures 0 <= maxRepos ==> |r| <= maxRepos
    ensures Payload(reply).Some? ==>
              (forall x :: multiset(r)[x] <= if Listed(x) then multiset(Payload(reply).value)[x] else 0)
    ensures Payload(reply).Some? && 0 <= maxRepos ==>
              |r| == Min(maxRepos, |Eligible(Payload(reply).value)|)
  {
    match Payload(reply)
    case Some(repos) => Select(repos, maxRepos)
    case None => []
  }

  // ---------------------------------------------------------------------
  // Properties of the ranking

  lemma InOrderTransitive(a: Repo, b: Repo, c: Repo)
    requires InOrder(a, b) && InOrder(b, c)
    ensures InOrder(a, c)
  {
  }

  /** Ranking of neighbours extends to every pair. */
  lemma {:induction false} RankedPairwise(s: seq<Repo>, i: int, j: int)
    requires Ranked(s)
    requires 0 <= i < j < |s|
    ensures InOrder(s[i], s[j])
    decreases j - i
  {
    if i + 1 < j {
      RankedPairwise(s, i + 1, j);
      InOrderTransitive(s[i], s[i + 1], s[j]);
    }
  }

  lemma RankedAllPairs(s: seq<Repo>)
    requires Ranked(s)
    ensures forall i, j :: 0 <= i < j < |s| ==> InOrder(s[i], s[j])
  {
    forall i, j | 0 <= i < j < |s|
      ensures InOrder(s[i], s[j])
    {
      RankedPairwise(s, i, j);
    }
  }

  /** The repositories of `s` whose star count and update instant are `k`,
      in order. */
  function WithKey(s: seq<Repo>, k: (nat, int)): seq<Repo>
  {
    if s == [] then []
    else (if (s[0].stars, s[0].updatedAt) == k then [s[0]] else []) + WithKey(s[1..], k)
  }

  /** The filter keeps listing order: filtering a concatenation filters
      each part and concatenates the results. */
  lemma {:induction false} EligibleAppend(a: seq<Repo>, b: seq<Repo>)
    ensures Eligible(a + b) == Eligible(a) + Eligible(b)
  {
    if a == [] {
      assert a + b == b;
    } else {
      var head := if Listed(a[0]) then [a[0]] else [];
      assert (a + b)[0] == a[0];
      assert (a + b)[1..] == a[1..] + b;
      assert Eligible(a + b) == head + Eligible(a[1..] + b);
      assert Eligible(a) == head + Eligible(a[1..]);
      EligibleAppend(a[1..], b);
      ConcatAssociative(head, Eligible(a[1..]), Eligible(b));
    }
  }

  lemma ConcatAssociative(a: seq<Repo>, b: seq<Repo>, c: seq<Repo>)
    ensures a + (b + c) == (a + b) + c
  {
  }

  /** Picking the repositories of one key commutes with the filter, so the
      tied repositories that the filter keeps appear in listing order. */
  lemma {:induction false} WithKeyOfEligible(s: seq<Repo>, k: (nat, int))
    ensures WithKey(Eligible(s), k) == Eligible(WithKey(s, k))
  {
    if s != [] {
      var head := if Listed(s[0]) then [s[0]] else [];
      var tied := if (s[0].stars, s[0].updatedAt) == k then [s[0]] else [];
      calc {
        WithKey(Eligible(s), k);
        { assert Eligible(s) == head + Eligible(s[1..]); }
        WithKey(head + Eligible(s[1..]), k);
        { WithKeyAppend(head, Eligible(s[1..]), k); }
        WithKey(head, k) + WithKey(Eligible(s[1..]), k);
        { WithKeyOfEligible(s[1..], k); SingleRepoCommutes(s[0], k); }
        Eligible(tied) + Eligible(WithKey(s[1..], k));
        { EligibleAppend(tied, WithKey(s[1..], k)); }
        Eligible(tied + WithKey(s[1..], k));
        { assert WithKey(s, k) == tied + WithKey(s[1..], k); }
        Eligible(WithKey(s, k));
      }
    }
  }

  lemma SingleRepoCommutes(x: Repo, k: (nat, int))
    ensures WithKey(if Listed(x) then [x] else [], k) ==
            Eligible(if (x.stars, x.updatedAt) == k then [x] else [])
  {
    assert [x][1..] == [];
  }

  lemma {:induction false} WithKeyAppend(a: seq<Repo>, b: seq<Repo>, k: (nat, int))
    ensures WithKey(a + b, k) == WithKey(a, k) + WithKey(b, k)
  {
    if a == [] {
      assert a + b == b;
    } else {
      assert (a + b)[1..] == a[1..] + b;
      WithKeyAppend(a[1..], b, k);
    }
  }

  lemma {:induction false} InsertWithKey(x: Repo, s: seq<Repo>, k: (nat, int))
    ensures WithKey(Insert(x, s), k) ==
            if (x.stars, x.updatedAt) == k then [x] + WithKey(s, k) else WithKey(s, k)
  {
    if s == [] || !Outranks(s[0], x) {
      assert ([x] + s)[1..] == s;
    } else {
      InsertWithKey(x, s[1..], k);
      assert ([s[0]] + Insert(x, s[1..]))[1..] == Insert(x, s[1..]);
    }
  }

  /** The sort is stable: repositories with the same star count and update
      instant appear in the order of its input. */
  lemma {:induction false} SortIsStable(s: seq<Repo>, k: (nat, int))
    ensures WithKey(Sort(s), k) == WithKey(s, k)
  {
    if s != [] {
      SortIsStable(s[1..], k);
      InsertWithKey(s[0], Sort(s[1..]), k);
    }
  }

  /** Among repositories that tie on stars and update instant, the selection
      keeps a prefix of their listing order: no later one is kept in place of
      an earlier one. */
  lemma SelectKeepsTiesInListingOrder(repos: seq<Repo>, maxRepos: int, k: (nat, int))
    ensures WithKey(Select(repos, maxRepos), k) <= WithKey(Eligible(repos), k)
    ensures WithKey(Select(repos, maxRepos), k) <= Eligible(WithKey(repos, k))
  {
    var e := Eligible(repos);
    var sorted := Sort(e);
    var r := Select(repos, maxRepos);
    var rest := sorted[|r|..];
    assert r == sorted[..|r|];
    assert sorted == r + rest;
    WithKeyAppend(r, rest, k);
    SortIsStable(e, k);
    WithKeyOfEligible(repos, k);
  }

  /** When the listing fits in `maxRepos`, no eligible repository is lost. */
  lemma SelectKeepsAllThatFit(repos: seq<Repo>, maxRepos: int, x: Repo)
    requires |repos| <= maxRepos
    requires x in repos && Listed(x)
    ensures x in Select(repos, maxRepos)
  {
    var e := Eligible(repos);
    assert multiset(repos)[x] > 0;
    assert multiset(e)[x] > 0;
    assert multiset(Select(repos, maxRepos)) == multiset(e);
    assert x in multiset(Select(repos, maxRepos));
  }

  /** The selection is the top of the eligible repositories: every eligible
      repository left out (a copy of it is missing from the result) is ranked
      at or below every repository kept. */
  lemma SelectKeepsTheBest(repos: seq<Repo>, maxRepos: int)
    ensures forall kept, dropped ::
              kept in Select(repos, maxRepos) &&
              multiset(Select(repos, maxRepos))[dropped] < multiset(Eligible(repos))[dropped] ==>
              InOrder(kept, dropped)
  {
    var sorted := Sort(Eligible(repos));
    var r := Select(repos, maxRepos);
    assert r == sorted[..|r|];
    forall kept, dropped | kept in r && multiset(r)[dropped] < multiset(Eligible(repos))[dropped]
      ensures InOrder(kept, dropped)
    {
      RankedPrefixIsBest(sorted, |r|, kept, dropped);
    }
  }

  lemma RankedPrefixIsBest(sorted: seq<Repo>, n: nat, kept: Repo, dropped: Repo)
    requires Ranked(sorted) && n <= |sorted|
    requires kept in sorted[..n]
    requires multiset(sorted[..n])[dropped] < multiset(sorted)[dropped]
    ensures InOrder(kept, dropped)
  {
    var r := sorted[..n];
    var rest := sorted[n..];
    assert sorted == r + rest;
    assert multiset(sorted) == multiset(r) + multiset(rest);
    assert multiset(rest)[dropped] > 0;
    var i :| 0 <= i < n && r[i] == kept;
    var j :| 0 <= j < |rest| && rest[j] == dropped;
    assert sorted[i] == kept;
    assert sorted[n + j] == dropped;
    RankedPairwise(sorted, i, n + j);
  }
}
