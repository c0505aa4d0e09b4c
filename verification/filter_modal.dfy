/** The user filter of the tweet feed: grouping the tweets by author, the
    search over the authors, and the selection handlers of the filter dialog. */
module FilterModal {
  import opened Text
  import StringOrder

  datatype Tweet = Tweet(id: string, name: string, username: string)

  /** One author in the list: display name, handle and number of tweets. */
  datatype UserSummary = UserSummary(name: string, username: string, tweetCount: nat)

  // ---------------------------------------------------------------------
  // Sequences as lists of distinct items

  predicate Distinct<T(==,!new)>(xs: seq<T>) {
    forall i, j :: 0 <= i < j < |xs| ==> xs[i] != xs[j]
  }

  /** `a` can be obtained from `b` by deleting elements: same order. */
  predicate IsSubsequence<T(==,!new)>(a: seq<T>, b: seq<T>)
    decreases |b|
  {
    a == [] || (b != [] && ((a[0] == b[0] && IsSubsequence(a[1..], b[1..])) || IsSubsequence(a, b[1..])))
  }

  lemma {:induction false} IsSubsequenceRefl<T(!new)>(a: seq<T>)
    ensures IsSubsequence(a, a)
    decreases |a|
  {
    if a != [] {
      IsSubsequenceRefl(a[1..]);
    }
  }

  /** `s.filter(keep)` */
  function Filter<T(==,!new)>(s: seq<T>, keep: T -> bool): (r: seq<T>)
    ensures forall x :: x in r <==> x in s && keep(x)
    ensures forall x {:trigger multiset(r)[x]} :: multiset(r)[x] == if keep(x) then multiset(s)[x] else 0
    ensures IsSubsequence(r, s)
    ensures Distinct(s) ==> Distinct(r)
    decreases |s|
  {
    if s == [] then []
    else
      var rest := Filter(s[1..], keep);
      assert s == [s[0]] + s[1..];
      assert multiset(s) == multiset{s[0]} + multiset(s[1..]);
      if keep(s[0]) then
        assert ([s[0]] + rest)[1..] == rest;
        assert Distinct(s) ==> s[0] !in s[1..];
        [s[0]] + rest
      else rest
  }

  lemma {:induction false} FilterAppend<T(!new)>(s: seq<T>, x: T, keep: T -> bool)
    ensures Filter(s + [x], keep) == Filter(s, keep) + (if keep(x) then [x] else [])
    decreases |s|
  {
    if s == [] {
      assert s + [x] == [x];
    } else {
      var t := s + [x];
      assert t[0] == s[0] && t[1..] == s[1..] + [x];
      FilterAppend(s[1..], x, keep);
      var rest := Filter(s[1..], keep);
      var tail := if keep(x) then [x] else [];
      if keep(s[0]) {
        calc == {
          Filter(t, keep);
          [s[0]] + Filter(t[1..], keep);
          [s[0]] + (rest + tail);
          ([s[0]] + rest) + tail;
        }
      }
    }
  }

  lemma {:induction false} FilterKeepsAll<T(!new)>(s: seq<T>, keep: T -> bool)
    requires forall x :: x in s ==> keep(x)
    ensures Filter(s, keep) == s
    decreases |s|
  {
    if s != [] {
      FilterKeepsAll(s[1..], keep);
      assert s == [s[0]] + s[1..];
    }
  }

  /** The position of the first occurrence of `x` in `xs`. */
  function FirstIndex(xs: seq<string>, x: string): (k: nat)
    requires x in xs
    ensures k < |xs| && xs[k] == x && x !in xs[..k]
    decreases |xs|
  {
    if xs[0] == x then 0
    else
      var k := FirstIndex(xs[1..], x);
      assert xs[..k + 1] == [xs[0]] + xs[1..][..k];
      k + 1
  }

  /** Every element of `r` occurs in `xs`, and they come in the order of their
      first occurrences there. */
  predicate InFirstOccurrenceOrder(r: seq<string>, xs: seq<string>) {
    (forall x :: x in r ==> x in xs) &&
    forall i, j :: 0 <= i < j < |r| ==> FirstIndex(xs, r[i]) < FirstIndex(xs, r[j])
  }

  /** Appending to a list does not move the first occurrences already in it. */
  lemma FirstIndexSnoc(xs: seq<string>, x: string, y: string)
    requires y in xs
    ensures FirstIndex(xs + [x], y) == FirstIndex(xs, y)
  {
    var k := FirstIndex(xs, y);
    var k' := FirstIndex(xs + [x], y);
    assert (xs + [x])[..k] == xs[..k];
    NotBefore(xs, y, k, k');
    NotBefore(xs + [x], y, k', k);
  }

  /** Nothing before a position that `y` does not occur before is `y`. */
  lemma NotBefore(xs: seq<string>, y: string, k: int, j: int)
    ensures 0 <= j < k <= |xs| && y !in xs[..k] ==> xs[j] != y
  {
    if 0 <= j < k <= |xs| {
      assert xs[..k][j] == xs[j];
    }
  }

  /** A new last element occurs first at the end. */
  lemma FirstIndexNew(xs: seq<string>, x: string)
    requires x !in xs
    ensures FirstIndex(xs + [x], x) == |xs|
  {
  }

  /** The order of first occurrences survives appending an element. */
  lemma FirstOccurrenceSnoc(d: seq<string>, init: seq<string>, last: string)
    requires InFirstOccurrenceOrder(d, init)
    ensures InFirstOccurrenceOrder(d, init + [last])
    ensures last !in init ==> InFirstOccurrenceOrder(d + [last], init + [last])
  {
    forall y | y in init {
      FirstIndexSnoc(init, last, y);
    }
    if last !in init {
      FirstIndexNew(init, last);
      var r := d + [last];
      forall i, j | 0 <= i < j < |r|
        ensures FirstIndex(init + [last], r[i]) < FirstIndex(init + [last], r[j])
      {
        assert r[i] == d[i];
        if j == |d| {
          assert r[j] == last;
        } else {
          assert r[j] == d[j];
        }
      }
    }
  }

  /** The distinct elements of `xs` in order of first occurrence:
      `Array.from(new Set(xs))`. */
  function Dedup(xs: seq<string>): (r: seq<string>)
    ensures Distinct(r)
    ensures forall x :: x in r <==> x in xs
    ensures InFirstOccurrenceOrder(r, xs)
    decreases |xs|
  {
    if xs == [] then []
    else
      var init := xs[..|xs| - 1];
      var last := xs[|xs| - 1];
      var d := Dedup(init);
      assert xs == init + [last];
      FirstOccurrenceSnoc(d, init, last);
      if last in d then d else d + [last]
  }

  lemma DedupSnoc(xs: seq<string>, x: string)
    ensures Dedup(xs + [x]) == if x in xs then Dedup(xs) else Dedup(xs) + [x]
  {
    assert (xs + [x])[..|xs|] == xs;
  }

  /** A list without duplicates is its own deduplication. */
  lemma {:induction false} DedupOfDistinct(xs: seq<string>)
    requires Distinct(xs)
    ensures Dedup(xs) == xs
    decreases |xs|
  {
    if xs != [] {
      var init := xs[..|xs| - 1];
      DedupOfDistinct(init);
      assert xs == init + [xs[|xs| - 1]];
      DedupSnoc(init, xs[|xs| - 1]);
    }
  }

  /** Deduplicating `a + b` keeps a duplicate-free `a` in front, unchanged. */
  lemma {:induction false} DedupKeepsPrefix(a: seq<string>, b: seq<string>)
    ensures Distinct(a) ==> |a| <= |Dedup(a + b)| && Dedup(a + b)[..|a|] == a
    decreases |b|
  {
    if !Distinct(a) {
    } else if b == [] {
      assert a + b == a;
      DedupOfDistinct(a);
    } else {
      var b' := b[..|b| - 1];
      DedupKeepsPrefix(a, b');
      assert a + b == (a + b') + [b[|b| - 1]];
      DedupSnoc(a + b', b[|b| - 1]);
    }
  }

  // ---------------------------------------------------------------------
  // Grouping the tweets by author

  function Usernames(ts: seq<Tweet>): (r: seq<string>) {
    seq(|ts|, i requires 0 <= i < |ts| => ts[i].username)
  }

  function Names(users: seq<UserSummary>): (r: seq<string>) {
    seq(|users|, k requires 0 <= k < |users| => users[k].username)
  }

  lemma DistinctCons<T(!new)>(a: T, b: seq<T>)
    ensures Distinct([a] + b) <==> a !in b && Distinct(b)
  {
    var c := [a] + b;
    assert forall k :: 0 <= k < |b| ==> c[k + 1] == b[k];
    if a !in b && Distinct(b) {
      forall i, j | 0 <= i < j < |c| ensures c[i] != c[j] {
        assert c[j] == b[j - 1];
        if i > 0 {
          assert c[i] == b[i - 1];
        }
      }
    }
    if Distinct(c) {
      forall i, j | 0 <= i < j < |b| ensures b[i] != b[j] {
        assert b[i] == c[i + 1] && b[j] == c[j + 1];
      }
      forall k | 0 <= k < |b| ensures b[k] != a {
        assert c[k + 1] == b[k] && c[0] == a;
      }
    }
  }

  /** The number of tweets by `u`. */
  function Count(ts: seq<Tweet>, u: string): nat
    decreases |ts|
  {
    if ts == [] then 0 else (if ts[0].username == u then 1 else 0) + Count(ts[1..], u)
  }

  /** The display name on the first tweet by `u`. */
  function FirstName(ts: seq<Tweet>, u: string): string
    requires u in Usernames(ts)
    decreases |ts|
  {
    assert Usernames(ts) == [ts[0].username] + Usernames(ts[1..]);
    if ts[0].username == u then ts[0].name else FirstName(ts[1..], u)
  }

  /** The entry the list should hold for the author `u`. */
  function Expected(ts: seq<Tweet>, u: string): UserSummary
    requires u in Usernames(ts)
  {
    UserSummary(FirstName(ts, u), u, Count(ts, u))
  }

  lemma {:induction false} CountSnoc(ts: seq<Tweet>, t: Tweet, u: string)
    ensures Count(ts + [t], u) == Count(ts, u) + (if t.username == u then 1 else 0)
    decreases |ts|
  {
    if ts != [] {
      assert (ts + [t])[1..] == ts[1..] + [t];
      CountSnoc(ts[1..], t, u);
    }
  }

  lemma {:induction false} CountAbsent(ts: seq<Tweet>, u: string)
    requires u !in Usernames(ts)
    ensures Count(ts, u) == 0
    decreases |ts|
  {
    if ts != [] {
      assert Usernames(ts) == [ts[0].username] + Usernames(ts[1..]);
      CountAbsent(ts[1..], u);
    }
  }

  lemma {:induction false} FirstNameSnoc(ts: seq<Tweet>, t: Tweet, u: string)
    requires u in Usernames(ts + [t])
    ensures u in Usernames(ts) ==> FirstName(ts + [t], u) == FirstName(ts, u)
    ensures u !in Usernames(ts) ==> FirstName(ts + [t], u) == t.name
    decreases |ts|
  {
    assert Usernames(ts + [t]) == Usernames(ts) + [t.username];
    if ts != [] {
      assert (ts + [t])[1..] == ts[1..] + [t];
      assert Usernames(ts) == [ts[0].username] + Usernames(ts[1..]);
      assert Usernames(ts[1..] + [t]) == Usernames(ts[1..]) + [t.username];
      if ts[0].username != u {
        FirstNameSnoc(ts[1..], t, u);
      }
    }
  }

  /** One more tweet adds one to its author's entry, or creates the entry with
      the tweet's name and a count of one. */
  lemma ExpectedSnoc(ts: seq<Tweet>, t: Tweet, u: string)
    requires u in Usernames(ts + [t])
    ensures u in Usernames(ts) && u != t.username ==> Expected(ts + [t], u) == Expected(ts, u)
    ensures u in Usernames(ts) && u == t.username ==>
      Expected(ts + [t], u) == Expected(ts, u).(tweetCount := Expected(ts, u).tweetCount + 1)
    ensures u !in Usernames(ts) ==> Expected(ts + [t], u) == UserSummary(t.name, t.username, 1)
  {
    assert Usernames(ts + [t]) == Usernames(ts) + [t.username];
    CountSnoc(ts, t, u);
    FirstNameSnoc(ts, t, u);
    if u !in Usernames(ts) {
      CountAbsent(ts, u);
    }
  }

  /** Every entry of `users` is the expected entry of its author. */
  predicate Summarises(users: seq<UserSummary>, ts: seq<Tweet>) {
    forall k :: 0 <= k < |users| ==>
      users[k].username in Usernames(ts) && users[k] == Expected(ts, users[k].username)
  }

  /** The sum of the tweet counts of the handles `us`. */
  function SumCounts(ts: seq<Tweet>, us: seq<string>): nat
    decreases |us|
  {
    if us == [] then 0 else Count(ts, us[0]) + SumCounts(ts, us[1..])
  }

  lemma {:induction false} SumCountsSnocTweet(ts: seq<Tweet>, t: Tweet, us: seq<string>)
    requires Distinct(us)
    ensures SumCounts(ts + [t], us) == SumCounts(ts, us) + (if t.username in us then 1 else 0)
    decreases |us|
  {
    if us != [] {
      CountSnoc(ts, t, us[0]);
      DistinctCons(us[0], us[1..]);
      assert us == [us[0]] + us[1..];
      SumCountsSnocTweet(ts, t, us[1..]);
    }
  }

  lemma {:induction false} SumCountsSnocName(ts: seq<Tweet>, us: seq<string>, x: string)
    ensures SumCounts(ts, us + [x]) == SumCounts(ts, us) + Count(ts, x)
    decreases |us|
  {
    if us != [] {
      assert (us + [x])[1..] == us[1..] + [x];
      SumCountsSnocName(ts, us[1..], x);
    }
  }

  /** Every tweet is counted once, under its author. */
  lemma {:induction false} CountsCoverTweets(ts: seq<Tweet>)
    ensures SumCounts(ts, Dedup(Usernames(ts))) == |ts|
    decreases |ts|
  {
    if ts != [] {
      var p := ts[..|ts| - 1];
      var t := ts[|ts| - 1];
      assert ts == p + [t];
      assert Usernames(ts) == Usernames(p) + [t.username];
      CountsCoverTweets(p);
      var d := Dedup(Usernames(p));
      DedupSnoc(Usernames(p), t.username);
      SumCountsSnocTweet(p, t, d);
      if t.username !in Usernames(p) {
        SumCountsSnocName(ts, d, t.username);
        CountSnoc(p, t, t.username);
        CountAbsent(p, t.username);
      }
    }
  }

  /** The sum of the tweet counts of a list of authors. */
  function Total(users: seq<UserSummary>): nat
    decreases |users|
  {
    if users == [] then 0 else users[0].tweetCount + Total(users[1..])
  }

  lemma {:induction false} TotalIsSumCounts(users: seq<UserSummary>, ts: seq<Tweet>, us: seq<string>)
    requires |users| == |us|
    requires forall k :: 0 <= k < |us| ==> users[k].tweetCount == Count(ts, us[k])
    ensures Total(users) == SumCounts(ts, us)
    decreases |us|
  {
    if us != [] {
      TotalIsSumCounts(users[1..], ts, us[1..]);
    }
  }

  /** `a` may come before `b` in the list. */
  predicate AtLeast(a: UserSummary, b: UserSummary) {
    a.tweetCount >= b.tweetCount
  }

  predicate SortedByCount(users: seq<UserSummary>) {
    forall i, j :: 0 <= i < j < |users| ==> AtLeast(users[i], users[j])
  }

  /** Insert `x` before the first author with a count not above its own. */
  function InsertByCount(x: UserSummary, s: seq<UserSummary>): (r: seq<UserSummary>)
    ensures multiset(r) == multiset(s) + multiset{x}
    ensures SortedByCount(s) ==> SortedByCount(r)
    decreases |s|
  {
    if s == [] || x.tweetCount >= s[0].tweetCount then
      PrependByCount(x, s);
      [x] + s
    else
      var rest := InsertByCount(x, s[1..]);
      assert s == [s[0]] + s[1..];
      ConsByCount(x, s, rest);
      [s[0]] + rest
  }

  lemma PrependByCount(x: UserSummary, s: seq<UserSummary>)
    requires s == [] || x.tweetCount >= s[0].tweetCount
    ensures SortedByCount(s) ==> SortedByCount([x] + s)
  {
    if s != [] && SortedByCount(s) {
      var t := [x] + s;
      forall i, j | 0 <= i < j < |t| ensures AtLeast(t[i], t[j]) {
        assert t[j] == s[j - 1];
        if i > 0 {
          assert t[i] == s[i - 1];
        } else if j > 1 {
          assert AtLeast(s[0], s[j - 1]);
        }
      }
    }
  }

  lemma ConsByCount(x: UserSummary, s: seq<UserSummary>, rest: seq<UserSummary>)
    requires s != [] && x.tweetCount < s[0].tweetCount
    requires multiset(rest) == multiset(s[1..]) + multiset{x}
    requires SortedByCount(s[1..]) ==> SortedByCount(rest)
    ensures SortedByCount(s) ==> SortedByCount([s[0]] + rest)
  {
    if !SortedByCount(s) {
      return;
    }
    assert SortedByCount(s[1..]) by {
      forall i, j | 0 <= i < j < |s| - 1 ensures AtLeast(s[1..][i], s[1..][j]) {
        assert s[1..][i] == s[i + 1] && s[1..][j] == s[j + 1];
      }
    }
    forall j | 0 <= j < |rest| ensures AtLeast(s[0], rest[j]) {
      assert rest[j] in multiset(rest);
      if rest[j] != x {
        assert rest[j] in multiset(s[1..]);
        var k :| 0 <= k < |s[1..]| && s[1..][k] == rest[j];
        assert s[k + 1] == rest[j];
      }
    }
    var t := [s[0]] + rest;
    forall i, j | 0 <= i < j < |t| ensures AtLeast(t[i], t[j]) {
      assert t[j] == rest[j - 1];
      if i > 0 {
        assert t[i] == rest[i - 1];
      }
    }
  }

  lemma {:induction false} InsertByCountTotal(x: UserSummary, s: seq<UserSummary>)
    ensures Total(InsertByCount(x, s)) == Total(s) + x.tweetCount
    decreases |s|
  {
    var r := InsertByCount(x, s);
    if s == [] || x.tweetCount >= s[0].tweetCount {
      assert r[1..] == s;
    } else {
      InsertByCountTotal(x, s[1..]);
      assert r[1..] == InsertByCount(x, s[1..]);
    }
  }

  lemma {:induction false} InsertByCountNames(x: UserSummary, s: seq<UserSummary>)
    ensures forall u :: u in Names(InsertByCount(x, s)) <==> u == x.username || u in Names(s)
    ensures Distinct(Names(s)) && x.username !in Names(s) ==> Distinct(Names(InsertByCount(x, s)))
    decreases |s|
  {
    var r := InsertByCount(x, s);
    if s == [] || x.tweetCount >= s[0].tweetCount {
      assert Names(r) == [x.username] + Names(s);
      DistinctCons(x.username, Names(s));
    } else {
      var rest := InsertByCount(x, s[1..]);
      InsertByCountNames(x, s[1..]);
      assert Names(s) == [s[0].username] + Names(s[1..]);
      assert Names(r) == [s[0].username] + Names(rest);
      DistinctCons(s[0].username, Names(s[1..]));
      DistinctCons(s[0].username, Names(rest));
    }
  }

  /** `Array.prototype.sort` with the comparator `b.tweetCount - a.tweetCount`:
      a stable sort by descending count (insertion sort). */
  function SortByCount(s: seq<UserSummary>): (r: seq<UserSummary>)
    ensures multiset(r) == multiset(s)
    ensures SortedByCount(r)
    decreases |s|
  {
    if s == [] then []
    else
      assert s == [s[0]] + s[1..];
      InsertByCount(s[0], SortByCount(s[1..]))
  }

  lemma {:induction false} SortByCountTotal(s: seq<UserSummary>)
    ensures Total(SortByCount(s)) == Total(s)
    decreases |s|
  {
    if s != [] {
      SortByCountTotal(s[1..]);
      InsertByCountTotal(s[0], SortByCount(s[1..]));
    }
  }

  /** Lists holding the same entries hold the same handles. */
  lemma NamesOfPermutation(a: seq<UserSummary>, b: seq<UserSummary>)
    requires multiset(a) == multiset(b)
    ensures forall u :: u in Names(a) <==> u in Names(b)
  {
    forall u | u in Names(a) ensures u in Names(b) {
      var k :| 0 <= k < |a| && Names(a)[k] == u;
      assert a[k] in multiset(b);
      var j :| 0 <= j < |b| && b[j] == a[k];
      assert Names(b)[j] == u;
    }
    forall u | u in Names(b) ensures u in Names(a) {
      var k :| 0 <= k < |b| && Names(b)[k] == u;
      assert b[k] in multiset(a);
      var j :| 0 <= j < |a| && a[j] == b[k];
      assert Names(a)[j] == u;
    }
  }

  lemma {:induction false} SortByCountDistinct(s: seq<UserSummary>)
    ensures Distinct(Names(s)) ==> Distinct(Names(SortByCount(s)))
    decreases |s|
  {
    if s != [] {
      var tail := SortByCount(s[1..]);
      SortByCountDistinct(s[1..]);
      NamesOfPermutation(s[1..], tail);
      InsertByCountNames(s[0], tail);
      assert Names(s) == [s[0].username] + Names(s[1..]);
      DistinctCons(s[0].username, Names(s[1..]));
    }
  }

  /** A permutation of a list of expected entries is one too. */
  lemma SummarisesPermutation(a: seq<UserSummary>, b: seq<UserSummary>, ts: seq<Tweet>)
    requires Summarises(a, ts) && multiset(a) == multiset(b)
    ensures Summarises(b, ts)
  {
    forall k | 0 <= k < |b|
      ensures b[k].username in Usernames(ts) && b[k] == Expected(ts, b[k].username)
    {
      assert b[k] in multiset(a);
    }
  }

  /** The map from handle to entry is right for the tweets seen so far. */
  ghost predicate EntriesFor(entries: map<string, UserSummary>, ts: seq<Tweet>) {
    && (forall u :: u in entries <==> u in Usernames(ts))
    && (forall u :: u in entries ==> entries[u] == Expected(ts, u))
  }

  /** Counting one more tweet by a known author adds one to that author's
      entry and leaves the order of first occurrence as it is. */
  lemma CountAgain(ts: seq<Tweet>, t: Tweet, order: seq<string>, entries: map<string, UserSummary>)
    requires order == Dedup(Usernames(ts)) && EntriesFor(entries, ts)
    requires t.username in entries
    ensures order == Dedup(Usernames(ts + [t]))
    ensures EntriesFor(entries[t.username := entries[t.username].(tweetCount := entries[t.username].tweetCount + 1)], ts + [t])
  {
    DedupUsernamesSnoc(ts, t);
    CountAgainEntries(ts, t, entries);
  }

  lemma CountAgainEntries(ts: seq<Tweet>, t: Tweet, entries: map<string, UserSummary>)
    requires EntriesFor(entries, ts) && t.username in entries
    ensures EntriesFor(entries[t.username := entries[t.username].(tweetCount := entries[t.username].tweetCount + 1)], ts + [t])
  {
    var u0 := t.username;
    var e := entries[u0];
    var next := entries[u0 := e.(tweetCount := e.tweetCount + 1)];
    assert Usernames(ts + [t]) == Usernames(ts) + [u0];
    assert e == Expected(ts, u0);
    ExpectedSnoc(ts, t, u0);
    forall u | u in next ensures next[u] == Expected(ts + [t], u) {
      if u != u0 {
        ExpectedSnoc(ts, t, u);
      }
    }
  }

  /** The first tweet by an author creates an entry with a count of one and
      puts the author last in the order of first occurrence. */
  lemma CountFirst(ts: seq<Tweet>, t: Tweet, order: seq<string>, entries: map<string, UserSummary>)
    requires order == Dedup(Usernames(ts)) && EntriesFor(entries, ts)
    requires t.username !in entries
    ensures order + [t.username] == Dedup(Usernames(ts + [t]))
    ensures EntriesFor(entries[t.username := UserSummary(t.name, t.username, 1)], ts + [t])
  {
    DedupUsernamesSnoc(ts, t);
    CountFirstEntries(ts, t, entries);
  }

  /** One more tweet adds its author at the end of the order of first
      occurrence, unless the author is already in it. */
  lemma DedupUsernamesSnoc(ts: seq<Tweet>, t: Tweet)
    ensures Dedup(Usernames(ts + [t])) ==
      if t.username in Usernames(ts) then Dedup(Usernames(ts)) else Dedup(Usernames(ts)) + [t.username]
  {
    assert Usernames(ts + [t]) == Usernames(ts) + [t.username];
    DedupSnoc(Usernames(ts), t.username);
  }

  lemma CountFirstEntries(ts: seq<Tweet>, t: Tweet, entries: map<string, UserSummary>)
    requires EntriesFor(entries, ts) && t.username !in entries
    ensures EntriesFor(entries[t.username := UserSummary(t.name, t.username, 1)], ts + [t])
  {
    var u0 := t.username;
    var next := entries[u0 := UserSummary(t.name, u0, 1)];
    assert Usernames(ts + [t]) == Usernames(ts) + [u0];
    ExpectedSnoc(ts, t, u0);
    forall u | u in next ensures next[u] == Expected(ts + [t], u) {
      if u != u0 {
        ExpectedSnoc(ts, t, u);
      }
    }
  }

  /** The entries listed in order of first occurrence sum up to every tweet. */
  lemma GroupedFacts(ts: seq<Tweet>, entries: map<string, UserSummary>, grouped: seq<UserSummary>)
    requires EntriesFor(entries, ts)
    requires |grouped| == |Dedup(Usernames(ts))|
    requires forall k :: 0 <= k < |grouped| ==> grouped[k] == entries[Dedup(Usernames(ts))[k]]
    ensures Names(grouped) == Dedup(Usernames(ts))
    ensures Summarises(grouped, ts)
    ensures Total(grouped) == |ts|
  {
    var order := Dedup(Usernames(ts));
    assert Names(grouped) == order by {
      assert forall k :: 0 <= k < |grouped| ==> grouped[k].username == order[k];
    }
    TotalIsSumCounts(grouped, ts, order);
    CountsCoverTweets(ts);
  }

  /** Sorting by count keeps what the grouped list says about the tweets. */
  lemma SortedGroupFacts(ts: seq<Tweet>, grouped: seq<UserSummary>)
    requires Summarises(grouped, ts) && Distinct(Names(grouped))
    ensures Summarises(SortByCount(grouped), ts)
    ensures forall u :: u in Names(SortByCount(grouped)) <==> u in Names(grouped)
    ensures Distinct(Names(SortByCount(grouped)))
    ensures Total(SortByCount(grouped)) == Total(grouped)
  {
    var users := SortByCount(grouped);
    SortByCountTotal(grouped);
    NamesOfPermutation(grouped, users);
    SortByCountDistinct(grouped);
    SummarisesPermutation(grouped, users, ts);
  }

  /** `uniqueUsers`: one entry per author, with the number of their tweets and
      the name on their first tweet, most prolific first. */
  method UniqueUsers(tweets: seq<Tweet>) returns (users: seq<UserSummary>)
    ensures Summarises(users, tweets)
    ensures forall u :: u in Names(users) <==> u in Usernames(tweets)
    ensures Distinct(Names(users))
    ensures SortedByCount(users)
    ensures Total(users) == |tweets|
  {
    var order: seq<string> := [];
    var entries: map<string, UserSummary> := map[];
    for i := 0 to |tweets|
      invariant order == Dedup(Usernames(tweets[..i]))
      invariant EntriesFor(entries, tweets[..i])
    {
      var t := tweets[i];
      assert tweets[..i + 1] == tweets[..i] + [t];
      if t.username in entries {
        CountAgain(tweets[..i], t, order, entries);
        var existing := entries[t.username];
        entries := entries[t.username := existing.(tweetCount := existing.tweetCount + 1)];
      } else {
        CountFirst(tweets[..i], t, order, entries);
        entries := entries[t.username := UserSummary(t.name, t.username, 1)];
        order := order + [t.username];
      }
    }
    assert tweets[..|tweets|] == tweets;
    var grouped := seq(|order|, k requires 0 <= k < |order| => entries[order[k]]);
    GroupedFacts(tweets, entries, grouped);
    users := SortByCount(grouped);
    SortedGroupFacts(tweets, grouped);
  }

  // ---------------------------------------------------------------------
  // Searching

  /** The lower-cased name or handle contains the (lower-cased) query. */
  predicate MatchesQuery(user: UserSummary, query: string)
    ensures query == [] ==> MatchesQuery(user, query)
    ensures MatchesQuery(user, query) ==> |query| <= |user.name| || |query| <= |user.username|
  {
    assert OccursAt(Lower(user.name), [], 0);
    Contains(Lower(user.name), query) || Contains(Lower(user.username), query)
  }

  /** The search ignores case: a query that occurs verbatim in the name or the
      handle matches once both are lower-cased. */
  lemma ExactOccurrenceMatches(user: UserSummary, q: string, i: int)
    requires OccursAt(user.name, q, i) || OccursAt(user.username, q, i)
    ensures MatchesQuery(user, Lower(q))
  {
    if OccursAt(user.name, q, i) {
      LowerOccurs(user.name, q, i);
    } else {
      LowerOccurs(user.username, q, i);
    }
  }

  /** `filteredUsers`: every author for a blank query; otherwise those whose
      name or handle contains the query, ignoring ASCII case, in list order.
      The query is not trimmed once it is known not to be blank. */
  function FilteredUsers(users: seq<UserSummary>, searchQuery: string): (r: seq<UserSummary>)
    ensures IsBlank(searchQuery) ==> r == users
    ensures !IsBlank(searchQuery) ==>
      forall e :: e in r <==> e in users && MatchesQuery(e, Lower(searchQuery))
    ensures IsSubsequence(r, users)
  {
    IsSubsequenceRefl(users);
    if IsBlank(searchQuery) then users
    else
      var query := Lower(searchQuery);
      Filter(users, (user: UserSummary) => MatchesQuery(user, query))
  }

  // ---------------------------------------------------------------------
  // The selection handlers

  /** `handleUserToggle`: drop every occurrence of a selected handle, or
      append an unselected one. */
  function ToggleUser(selection: seq<string>, username: string): (r: seq<string>)
    ensures username in r <==> username !in selection
    ensures forall x :: x != username ==> (x in r <==> x in selection)
    ensures Distinct(selection) ==> Distinct(r)
    ensures username !in selection ==> r == selection + [username]
    ensures username in selection ==>
      multiset(r) == multiset(selection)[username := 0] && IsSubsequence(r, selection)
  {
    if username in selection then
      var r := Filter(selection, (x: string) => x != username);
      assert forall x :: multiset(r)[x] == multiset(selection)[username := 0][x];
      r
    else selection + [username]
  }

  /** Toggling a handle twice gives back the same set of handles, and the very
      same list when the handle was not selected. */
  lemma ToggleTwice(selection: seq<string>, username: string)
    ensures forall x :: x in ToggleUser(ToggleUser(selection, username), username) <==> x in selection
    ensures username !in selection ==> ToggleUser(ToggleUser(selection, username), username) == selection
  {
    if username !in selection {
      var keep := (x: string) => x != username;
      FilterAppend(selection, username, keep);
      FilterKeepsAll(selection, keep);
    }
  }

  /** `handleSelectAll`: the selection followed by the filtered handles, without
      duplicates, in order of first occurrence. */
  function SelectAll(selection: seq<string>, filtered: seq<UserSummary>): (r: seq<string>)
    ensures Distinct(r)
    ensures forall x :: x in r <==> x in selection || x in Names(filtered)
    ensures InFirstOccurrenceOrder(r, selection + Names(filtered))
    ensures Distinct(selection) ==> |selection| <= |r| && r[..|selection|] == selection
  {
    DedupKeepsPrefix(selection, Names(filtered));
    Dedup(selection + Names(filtered))
  }

  /** `handleDeselectAll`: the selection without the filtered handles, order kept. */
  function DeselectAll(selection: seq<string>, filtered: seq<UserSummary>): (r: seq<string>)
    ensures forall x :: x in r <==> x in selection && x !in Names(filtered)
    ensures forall x :: multiset(r)[x] == if x in Names(filtered) then 0 else multiset(selection)[x]
    ensures IsSubsequence(r, selection)
  {
    var names := Names(filtered);
    Filter(selection, (x: string) => x !in names)
  }

  /** `users.every(user => selection.includes(user.username))` */
  predicate Every(users: seq<UserSummary>, selection: seq<string>)
    ensures Every(users, selection) <==> forall k :: 0 <= k < |users| ==> users[k].username in selection
    decreases |users|
  {
    assert forall k :: 1 <= k < |users| ==> users[k] == users[1..][k - 1];
    users == [] || (users[0].username in selection && Every(users[1..], selection))
  }

  /** `isAllFilteredSelected`: false for an empty list, otherwise whether every
      listed handle is selected. */
  function IsAllFilteredSelected(filtered: seq<UserSummary>, selection: seq<string>): (r: bool)
    ensures r <==> |filtered| > 0 && forall k :: 0 <= k < |filtered| ==> filtered[k].username in selection
  {
    |filtered| > 0 && Every(filtered, selection)
  }

  /** After "select all" every listed author is selected; after "deselect all"
      none is. */
  lemma SelectAllThenAllSelected(selection: seq<string>, filtered: seq<UserSummary>)
    ensures |filtered| > 0 ==> IsAllFilteredSelected(filtered, SelectAll(selection, filtered))
    ensures forall k :: 0 <= k < |filtered| ==> filtered[k].username !in DeselectAll(selection, filtered)
    ensures !IsAllFilteredSelected(filtered, DeselectAll(selection, filtered))
  {
    assert forall k :: 0 <= k < |filtered| ==> filtered[k].username == Names(filtered)[k];
  }

  /** Write a sorted copy back into the array: `a.sort()` in place. */
  method SortInPlace(a: array<string>)
    modifies a
    ensures a[..] == StringOrder.Sort(old(a[..]))
  {
    var sorted := StringOrder.Sort(a[..]);
    assert |sorted| == a.Length by {
      assert |multiset(sorted)| == |multiset(a[..])|;
    }
    forall i | 0 <= i < a.Length {
      a[i] := sorted[i];
    }
    assert a[..] == sorted;
  }

  /** The dialog's selection state: `saved` is the `selectedUsers` array the
      page passed in, `local` the array held as local state. Both start as the
      same array. */
  class Selection {
    var saved: array<string>
    var local: array<string>

    constructor (selectedUsers: array<string>)
      ensures saved == selectedUsers && local == selectedUsers
    {
      saved := selectedUsers;
      local := selectedUsers;
    }

    /** The effect that adopts a new `selectedUsers` array from the page. */
    method SyncFromProps(selectedUsers: array<string>)
      modifies this
      ensures saved == selectedUsers && local == selectedUsers
    {
      saved := selectedUsers;
      local := selectedUsers;
    }

    method HandleUserToggle(username: string)
      modifies this`local
      ensures fresh(local) && local[..] == ToggleUser(old(local[..]), username)
      ensures saved == old(saved)
    {
      var next := ToggleUser(local[..], username);
      local := new string[|next|](i requires 0 <= i < |next| => next[i]);
    }

    method HandleSelectAll(filtered: seq<UserSummary>)
      modifies this`local
      ensures fresh(local) && local[..] == SelectAll(old(local[..]), filtered)
      ensures saved == old(saved)
    {
      var next := SelectAll(local[..], filtered);
      local := new string[|next|](i requires 0 <= i < |next| => next[i]);
    }

    method HandleDeselectAll(filtered: seq<UserSummary>)
      modifies this`local
      ensures fresh(local) && local[..] == DeselectAll(old(local[..]), filtered)
      ensures saved == old(saved)
    {
      var next := DeselectAll(local[..], filtered);
      local := new string[|next|](i requires 0 <= i < |next| => next[i]);
    }

    /** `handleCancel`: the local selection becomes the page's array itself. */
    method HandleCancel()
      modifies this`local
      ensures local == saved && saved == old(saved)
    {
      local := saved;
    }

    /** `hasChanges`: sorts both arrays in place (the same array when they
        alias) and compares them, so it reports whether the two selections
        differ as multisets of handles. */
    method HasChanges() returns (changed: bool)
      modifies local, saved
      ensures changed <==> multiset(old(local[..])) != multiset(old(saved[..]))
      ensures local[..] == StringOrder.Sort(old(local[..]))
      ensures saved[..] == StringOrder.Sort(old(saved[..]))
    {
      ghost var before := local[..];
      SortInPlace(local);
      SortInPlace(saved);
      if local == saved {
        StringOrder.SortSorted(StringOrder.Sort(before));
      }
      changed := local[..] != saved[..];
      StringOrder.SameSortIffSameElements(old(local[..]), old(saved[..]));
    }
  }
}
