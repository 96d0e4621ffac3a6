/**
 * The read handlers of the tweets router: the feed (`GET /`), the hashtag index
 * (`GET /hashtags`) and the tweets of one hashtag (`GET /hashtags/:tag`).
 * The store is the sequence of stored tweets in the order the database returns them.
 */
module Routes {
  import opened Seqs
  import opened StableSort
  import opened Tweets
  import opened Extraction
  import opened Aggregation

  /** The sort key of `(a, b) => b.date - a.date`: a tweet's date in milliseconds. */
  function DateKey(t: Tweet): int {
    t.date
  }

  /** `p` occurs in `s` starting at position `i`. */
  predicate OccursAt(s: string, p: string, i: int) {
    0 <= i <= |s| - |p| && s[i..i + |p|] == p
  }

  /** `p` occurs in `s` as a contiguous piece. */
  predicate ContainsText(s: string, p: string) {
    exists i | 0 <= i <= |s| - |p| :: OccursAt(s, p, i)
  }

  /** No regular-expression metacharacter: as a `$regex`, `p` matches exactly where it occurs literally. */
  predicate IsLiteralPattern(p: string) {
    forall k :: 0 <= k < |p| ==> p[k] !in "\\^$.|?*+()[]{}"
  }

  /** `Tweet.find({ content: { $regex: pattern } })` for a literal pattern: the matching tweets in store order. */
  function FindContaining(store: seq<Tweet>, pattern: string): seq<Tweet> {
    if store == [] then []
    else
      var init, last := store[..|store| - 1], store[|store| - 1];
      FindContaining(init, pattern) + (if ContainsText(last.content, pattern) then [last] else [])
  }

  /** `tweets.map((e) => e.content)`. */
  function Contents(tweets: seq<Tweet>): (cs: seq<string>)
    ensures |cs| == |tweets| && forall i :: 0 <= i < |cs| ==> cs[i] == tweets[i].content
  {
    seq(|tweets|, i requires 0 <= i < |tweets| => tweets[i].content)
  }

  /** The query keeps exactly the tweets whose content contains the pattern, in store order. */
  lemma {:induction false} FindContainingFilters(store: seq<Tweet>, pattern: string)
    ensures forall t :: t in FindContaining(store, pattern) <==> t in store && ContainsText(t.content, pattern)
    decreases |store|
  {
    if store != [] {
      var init, last := store[..|store| - 1], store[|store| - 1];
      assert store == init + [last];
      FindContainingFilters(init, pattern);
    }
  }

  /** The query keeps store order: the answer for `a + b` is the answer for `a`, then that for `b`. */
  lemma {:induction false} FindContainingAppend(a: seq<Tweet>, b: seq<Tweet>, pattern: string)
    ensures FindContaining(a + b, pattern) == FindContaining(a, pattern) + FindContaining(b, pattern)
    decreases |b|
  {
    if b == [] {
      assert a + b == a;
    } else {
      var init, last := b[..|b| - 1], b[|b| - 1];
      InitOfAppend(a, b);
      FindContainingAppend(a, init, pattern);
      var tail := if ContainsText(last.content, pattern) then [last] else [];
      AppendAssociative(FindContaining(a, pattern), FindContaining(init, pattern), tail);
    }
  }

  /** `GET /`: every stored tweet, latest first. */
  method Feed(store: seq<Tweet>) returns (tweets: seq<Tweet>)
    ensures tweets == SortDesc(store, DateKey)
  {
    tweets := SortedCopy(store, DateKey);
  }

  /**
   * The feed holds every stored tweet once per storing, latest first; tweets with the same
   * date keep the order in which the store returned them.
   */
  lemma FeedOrder(store: seq<Tweet>)
    ensures multiset(SortDesc(store, DateKey)) == multiset(store)
    ensures forall i, j :: 0 <= i < j < |SortDesc(store, DateKey)| ==>
      SortDesc(store, DateKey)[i].date >= SortDesc(store, DateKey)[j].date
    ensures forall i, j :: 0 <= i < j < |SortDesc(store, DateKey)| && SortDesc(store, DateKey)[i].date == SortDesc(store, DateKey)[j].date ==>
      Before(store, SortDesc(store, DateKey)[i], SortDesc(store, DateKey)[j])
  {
    SortDescPermutes(store, DateKey);
    SortDescSorted(store, DateKey);
    SortDescKeepsTies(store, DateKey);
  }

  /** The tweets `GET /hashtags/:tag` answers: those containing `#` and the tag, latest first. */
  function Tagged(store: seq<Tweet>, tag: string): seq<Tweet> {
    SortDesc(FindContaining(store, "#" + tag), DateKey)
  }

  /** `GET /hashtags/:tag` for a tag given without its `#`. */
  method TweetsWithTag(store: seq<Tweet>, tag: string) returns (tweets: seq<Tweet>)
    requires IsLiteralPattern(tag)
    ensures tweets == Tagged(store, tag)
  {
    var pattern := "#" + tag;
    var found := FindContaining(store, pattern);
    tweets := SortedCopy(found, DateKey);
  }

  /**
   * The answer is a rearrangement of the query's tweets, which are exactly the stored tweets
   * containing `#tag`; it is latest first.
   */
  lemma TaggedContents(store: seq<Tweet>, tag: string)
    ensures multiset(Tagged(store, tag)) == multiset(FindContaining(store, "#" + tag))
    ensures forall t :: t in Tagged(store, tag) <==> t in store && ContainsText(t.content, "#" + tag)
    ensures forall i, j :: 0 <= i < j < |Tagged(store, tag)| ==> Tagged(store, tag)[i].date >= Tagged(store, tag)[j].date
  {
    var found := FindContaining(store, "#" + tag);
    FindContainingFilters(store, "#" + tag);
    SortDescPermutes(found, DateKey);
    SortDescSorted(found, DateKey);
    forall t ensures t in Tagged(store, tag) <==> t in found {
      assert t in multiset(Tagged(store, tag)) <==> t in multiset(found);
    }
  }

  /** A piece of a piece of `s` is a piece of `s`. */
  lemma ContainsTextWithin(s: string, i: nat, j: nat, p: string)
    requires i <= j <= |s|
    requires ContainsText(s[i..j], p)
    ensures ContainsText(s, p)
  {
    var k :| 0 <= k <= |s[i..j]| - |p| && OccursAt(s[i..j], p, k);
    assert k + |p| <= j - i;
    forall m | 0 <= m < |p| ensures s[i + k..i + k + |p|][m] == p[m] {
      assert s[i..j][k..k + |p|][m] == p[m];
    }
    assert OccursAt(s, p, i + k);
  }

  /**
   * The tag is matched as written, not as a whole hashtag: every tweet holding a hashtag
   * token that starts with `#tag` is answered, so `cat` also finds `#category`.
   */
  lemma TaggedIncludesLongerTags(store: seq<Tweet>, tag: string, t: Tweet, token: string)
    requires t in store
    requires Match(t.content).Some? && token in Match(t.content).value
    requires |"#" + tag| <= |token| && token[..|"#" + tag|] == "#" + tag
    ensures t in Tagged(store, tag)
  {
    var s := t.content;
    var spans := Scan(s, 0);
    var ts := Match(s).value;
    var i :| 0 <= i < |ts| && ts[i] == token;
    var sp := spans[i];
    assert token == s[sp.start..sp.end];
    assert token[0..|"#" + tag|] == "#" + tag;
    assert OccursAt(token, "#" + tag, 0);
    ContainsTextWithin(s, sp.start, sp.end, "#" + tag);
    TaggedContents(store, tag);
  }

  /** The aggregated array of `GET /hashtags`: the matches of the tweets that contain `#`. */
  function Aggregated(store: seq<Tweet>): seq<Hashtag> {
    Concatenated(Matches(Contents(FindContaining(store, "#"))))
  }

  /** The entries of the counts of `hashtags`, sorted by `(a, b) => b.count - a.count`. */
  function Rank(hashtags: seq<Hashtag>): seq<HashtagCount> {
    SortDesc(Entries(TableOf(hashtags)), CountKey)
  }

  /** What `GET /hashtags` answers: every distinct tag with its count, most frequent first. */
  function Ranking(store: seq<Tweet>): seq<HashtagCount> {
    Rank(Aggregated(store))
  }

  /** `GET /hashtags`: filters, extracts, concatenates, counts, lists and sorts. */
  method HashtagIndex(store: seq<Tweet>) returns (ranking: seq<HashtagCount>)
    ensures ranking == Ranking(store)
  {
    var tweets := FindContaining(store, "#");
    var contents := Contents(tweets);
    var hashtags := CollectHashtags(contents);
    var counts := CountHashtags(hashtags);
    var hashtagsArray := Entries(counts);
    ranking := SortedCopy(hashtagsArray, CountKey);
  }

  /** The filter on `#` loses no hashtag: a tweet it drops has no match at all. */
  lemma FilterKeepsTaggedTweets(store: seq<Tweet>, t: Tweet)
    requires t in store && Match(t.content).Some?
    ensures t in FindContaining(store, "#")
  {
    var s := t.content;
    var spans := Scan(s, 0);
    var p := spans[0].start;
    ScanMaximal(s, 0);
    assert MatchesAt(s, p);
    assert OccursAt(s, "#", p);
    FindContainingFilters(store, "#");
  }

  lemma SumCountsAppend(es: seq<HashtagCount>, e: HashtagCount)
    ensures SumCounts(es + [e]) == SumCounts(es) + e.count
  {
    assert (es + [e])[..|es|] == es;
  }

  /** Inserting an entry adds its count to the sum. */
  lemma {:induction false} InsertSum(r: seq<HashtagCount>, e: HashtagCount)
    ensures SumCounts(Insert(r, e, CountKey)) == SumCounts(r) + e.count
    decreases |r|
  {
    if r == [] || CountKey(r[|r| - 1]) >= CountKey(e) {
      SumCountsAppend(r, e);
    } else {
      var init, last := r[..|r| - 1], r[|r| - 1];
      InsertSum(init, e);
      SumCountsAppend(Insert(init, e, CountKey), last);
      assert r == init + [last];
      SumCountsAppend(init, last);
    }
  }

  /** Sorting keeps the sum of the counts. */
  lemma {:induction false} SortSum(es: seq<HashtagCount>)
    ensures SumCounts(SortDesc(es, CountKey)) == SumCounts(es)
    decreases |es|
  {
    if es != [] {
      var init, last := es[..|es| - 1], es[|es| - 1];
      SortSum(init);
      InsertSum(SortDesc(init, CountKey), last);
      assert es == init + [last];
      SumCountsAppend(init, last);
    }
  }

  /** The ranking holds the entries of `Object.entries`, rearranged. */
  lemma RankMembers(hashtags: seq<Hashtag>)
    ensures forall e :: e in Rank(hashtags) <==> e in Entries(TableOf(hashtags))
    ensures |Rank(hashtags)| == |Entries(TableOf(hashtags))|
  {
    var es := Entries(TableOf(hashtags));
    SortDescPermutes(es, CountKey);
    forall e ensures e in Rank(hashtags) <==> e in es {
      assert e in multiset(Rank(hashtags)) <==> e in multiset(es);
    }
  }

  /** The ranking lists no tag twice. */
  lemma RankOncePerTag(hashtags: seq<Hashtag>)
    ensures var r := Rank(hashtags);
      forall i, j :: 0 <= i < j < |r| ==> r[i].hashtag != r[j].hashtag
  {
    var es := Entries(TableOf(hashtags));
    var r := Rank(hashtags);
    TallyOnePerTag(hashtags);
    RankMembers(hashtags);
    SortDescPermutes(es, CountKey);
    assert NoDuplicates(es);
    NoDuplicatesPermutation(es, r);
    forall i, j | 0 <= i < j < |r| ensures r[i].hashtag != r[j].hashtag {
      DistinctTagsAt(es, r, i, j);
    }
  }

  /** Two distinct entries drawn from entries with pairwise distinct tags have distinct tags. */
  lemma DistinctTagsAt(es: seq<HashtagCount>, r: seq<HashtagCount>, i: nat, j: nat)
    requires forall a, b :: 0 <= a < b < |es| ==> es[a].hashtag != es[b].hashtag
    requires i < j < |r| && r[i] != r[j] && r[i] in es && r[j] in es
    ensures r[i].hashtag != r[j].hashtag
  {
    var a :| 0 <= a < |es| && es[a] == r[i];
    var b :| 0 <= b < |es| && es[b] == r[j];
    assert a != b;
  }

  /**
   * The ranking lists exactly the tags that occur in the aggregated array, each with its
   * number of occurrences, so at least one.
   */
  lemma RankCounts(hashtags: seq<Hashtag>)
    ensures var r, ks := Rank(hashtags), Keys(hashtags);
      && (forall k :: k in ks <==> exists i :: 0 <= i < |r| && r[i].hashtag == k)
      && (forall i :: 0 <= i < |r| ==> r[i].count == Occurrences(ks, r[i].hashtag) >= 1)
  {
    var es := Entries(TableOf(hashtags));
    var r := Rank(hashtags);
    TallyOnePerTag(hashtags);
    TallyCounts(hashtags);
    RankMembers(hashtags);
    forall k | k in Keys(hashtags) ensures exists i :: 0 <= i < |r| && r[i].hashtag == k {
      var a :| 0 <= a < |es| && es[a].hashtag == k;
      assert es[a] in r;
    }
    forall i | 0 <= i < |r| ensures r[i].hashtag in Keys(hashtags) && r[i].count == Occurrences(Keys(hashtags), r[i].hashtag) {
      assert r[i] in es;
    }
  }

  /** The ranking is sorted by decreasing count, and the counts add up to the aggregated array's length. */
  lemma RankSortedSum(hashtags: seq<Hashtag>)
    ensures forall i, j :: 0 <= i < j < |Rank(hashtags)| ==> Rank(hashtags)[i].count >= Rank(hashtags)[j].count
    ensures SumCounts(Rank(hashtags)) == |hashtags|
  {
    var es := Entries(TableOf(hashtags));
    SortDescSorted(es, CountKey);
    SortSum(es);
    TallySum(hashtags);
  }

  /** Ties keep their order: the entries of one count are those of `Object.entries`, in that order. */
  lemma RankStable(hashtags: seq<Hashtag>, c: int)
    ensures WithKey(Rank(hashtags), CountKey, c) == WithKey(Entries(TableOf(hashtags)), CountKey, c)
  {
    SortDescStable(Entries(TableOf(hashtags)), CountKey, c);
  }

  /**
   * Equal counts keep first-appearance order: of two entries with the same count, the one
   * whose tag occurs first in the aggregated array is listed first.
   */
  lemma RankTiesInFirstAppearanceOrder(hashtags: seq<Hashtag>)
    ensures var r, ks := Rank(hashtags), Keys(hashtags);
      forall i, j :: 0 <= i < j < |r| && r[i].count == r[j].count ==>
        r[i].hashtag in ks && r[j].hashtag in ks && FirstIndex(ks, r[i].hashtag) < FirstIndex(ks, r[j].hashtag)
  {
    var es := Entries(TableOf(hashtags));
    var r := Rank(hashtags);
    var ks := Keys(hashtags);
    SortDescKeepsTies(es, CountKey);
    TallyFirstAppearance(hashtags);
    forall i, j | 0 <= i < j < |r| && r[i].count == r[j].count
      ensures r[i].hashtag in ks && r[j].hashtag in ks && FirstIndex(ks, r[i].hashtag) < FirstIndex(ks, r[j].hashtag)
    {
      assert CountKey(r[i]) == CountKey(r[j]);
      var a, b :| 0 <= a < b < |es| && es[a] == r[i] && es[b] == r[j];
    }
  }
}
