/**
 * The aggregation of `GET /tweets/hashtags`: all posts' matches concatenated into one array,
 * a count per distinct tag collected in a plain object, and that object's entries as
 * `{ hashtag, count }` records.
 */
module Aggregation {
  import opened Wrappers
  import opened Seqs
  import opened Extraction

  /** An element of the aggregated array: a token, or the `null` that `concat` appends when `match` found nothing. */
  datatype Hashtag = Null | Tag(text: string)

  /** `{ hashtag, count }`, one record of the answer. */
  datatype HashtagCount = HashtagCount(hashtag: string, count: int)

  /** What `hashtags.concat(m)` appends: the array's elements, or the `null` itself. */
  function Contribution(m: Option<seq<string>>): seq<Hashtag> {
    match m
    case None => [Null]
    case Some(ts) => seq(|ts|, i requires 0 <= i < |ts| => Tag(ts[i]))
  }

  /** `item.match(pattern)` for every post content, in post order. */
  function Matches(contents: seq<string>): (ms: seq<Option<seq<string>>>)
    ensures |ms| == |contents| && forall i :: 0 <= i < |ms| ==> ms[i] == Match(contents[i])
  {
    seq(|contents|, i requires 0 <= i < |contents| => Match(contents[i]))
  }

  /** The aggregated array after concatenating the match results `ms` one by one. */
  function Concatenated(ms: seq<Option<seq<string>>>): seq<Hashtag> {
    if ms == [] then [] else Concatenated(ms[..|ms| - 1]) + Contribution(ms[|ms| - 1])
  }

  /** Extracts every post's hashtags and concatenates them in post order. */
  method CollectHashtags(contents: seq<string>) returns (hashtags: seq<Hashtag>)
    ensures hashtags == Concatenated(Matches(contents))
  {
    ghost var ms := Matches(contents);
    hashtags := [];
    for i := 0 to |contents|
      invariant hashtags == Concatenated(ms[..i])
    {
      var hashtag := Match(contents[i]);
      hashtags := hashtags + Contribution(hashtag);
      assert ms[..i + 1][..i] == ms[..i];
    }
    assert ms[..|contents|] == ms;
  }

  /** The property name `counts[tag]` uses: `null` is converted to the string "null". */
  function Key(h: Hashtag): string {
    match h
    case Null => "null"
    case Tag(t) => t
  }

  /** The property names of `hashtags`, element by element. */
  function Keys(hashtags: seq<Hashtag>): seq<string> {
    seq(|hashtags|, i requires 0 <= i < |hashtags| => Key(hashtags[i]))
  }

  /**
   * The `counts` object: its own property names in insertion order and their values.
   * None of the names is an array index (each starts with '#' or is "null"), so
   * `Object.entries` lists them in insertion order.
   */
  datatype Counts = Counts(names: seq<string>, count: map<string, int>) {
    /** Every property name occurs once and has a value. */
    predicate Valid() {
      NoDuplicates(names) && count.Keys == set k | k in names
    }
  }

  /** The object the counting loop builds from `hashtags`. */
  function TableOf(hashtags: seq<Hashtag>): (counts: Counts)
    ensures counts.Valid()
  {
    var ks := Keys(hashtags);
    DistinctMembers(ks);
    Counts(Distinct(ks), map k | k in ks :: Occurrences(ks, k))
  }

  /** What one more name does to the distinct names. */
  lemma DistinctStep(ks: seq<string>, x: string)
    ensures Distinct(ks + [x]) == if x in ks then Distinct(ks) else Distinct(ks) + [x]
  {
    assert (ks + [x])[..|ks|] == ks;
    DistinctMembers(ks);
  }

  /** `count` holds, for each name of `ks`, its number of occurrences, and nothing else. */
  ghost predicate Tallied(ks: seq<string>, count: map<string, int>) {
    && (forall k :: k in count <==> k in ks)
    && (forall k :: k in count ==> count[k] == Occurrences(ks, k))
  }

  /** One increment `counts[x] = (counts[x] || 0) + 1` keeps the tally up to date. */
  lemma TalliedStep(ks: seq<string>, x: string, count: map<string, int>)
    requires Tallied(ks, count)
    ensures Tallied(ks + [x], count[x := (if x in count then count[x] else 0) + 1])
  {
    assert (ks + [x])[..|ks|] == ks;
  }

  /** Counts the occurrences of each tag, as `counts[tag] = (counts[tag] || 0) + 1` does. */
  method CountHashtags(hashtags: seq<Hashtag>) returns (counts: Counts)
    ensures counts == TableOf(hashtags)
  {
    ghost var ks := Keys(hashtags);
    ghost var seen: seq<string> := [];
    var names: seq<string> := [];
    var count: map<string, int> := map[];
    for i := 0 to |hashtags|
      invariant seen == ks[..i]
      invariant names == Distinct(seen)
      invariant Tallied(seen, count)
    {
      var tag := Key(hashtags[i]);
      DistinctStep(seen, tag);
      TalliedStep(seen, tag, count);
      assert ks[..i + 1] == seen + [tag];
      seen := seen + [tag];
      var previous := if tag in count then count[tag] else 0;
      if tag !in count {
        names := names + [tag];
      }
      count := count[tag := previous + 1];
    }
    assert ks[..|hashtags|] == ks;
    counts := Counts(names, count);
    TableOfCharacterized(hashtags, counts);
  }

  /** A table that lists the distinct names and counts each name's occurrences is `TableOf`. */
  lemma TableOfCharacterized(hashtags: seq<Hashtag>, counts: Counts)
    requires counts.names == Distinct(Keys(hashtags))
    requires Tallied(Keys(hashtags), counts.count)
    ensures counts == TableOf(hashtags)
  {
    var t := TableOf(hashtags);
    assert counts.count.Keys == t.count.Keys;
    assert counts.count == t.count;
  }

  /** `Object.entries(counts).map(([hashtag, count]) => ({ hashtag, count }))`. */
  function Entries(counts: Counts): (es: seq<HashtagCount>)
    requires counts.Valid()
    ensures |es| == |counts.names|
    ensures forall i :: 0 <= i < |es| ==> es[i] == HashtagCount(counts.names[i], counts.count[counts.names[i]])
  {
    seq(|counts.names|, i requires 0 <= i < |counts.names| => HashtagCount(counts.names[i], counts.count[counts.names[i]]))
  }

  /** The sort key of `(a, b) => b.count - a.count`. */
  function CountKey(e: HashtagCount): int {
    e.count
  }

  /** The sum of all counts. */
  function SumCounts(es: seq<HashtagCount>): int {
    if es == [] then 0 else SumCounts(es[..|es| - 1]) + es[|es| - 1].count
  }

  /** Concatenating post by post: the array for `a + b` is the array for `a` followed by that for `b`. */
  lemma {:induction false} ConcatenatedAppend(a: seq<Option<seq<string>>>, b: seq<Option<seq<string>>>)
    ensures Concatenated(a + b) == Concatenated(a) + Concatenated(b)
    decreases |b|
  {
    if b == [] {
      assert a + b == a;
    } else {
      var init, last := b[..|b| - 1], b[|b| - 1];
      InitOfAppend(a, b);
      ConcatenatedAppend(a, init);
      calc {
        Concatenated(a + b);
        Concatenated(a + init) + Contribution(last);
        (Concatenated(a) + Concatenated(init)) + Contribution(last);
        { AppendAssociative(Concatenated(a), Concatenated(init), Contribution(last)); }
        Concatenated(a) + (Concatenated(init) + Contribution(last));
        Concatenated(a) + Concatenated(b);
      }
    }
  }

  /** All matched texts of `ms` are well-formed tokens. */
  ghost predicate TokensOnly(ms: seq<Option<seq<string>>>) {
    forall i, j :: 0 <= i < |ms| && ms[i].Some? && 0 <= j < |ms[i].value| ==> IsHashtagToken(ms[i].value[j])
  }

  /** Every element is a well-formed token or the `null` of a post without a match. */
  lemma {:induction false} ConcatenatedWellFormed(ms: seq<Option<seq<string>>>)
    requires TokensOnly(ms)
    ensures forall i :: 0 <= i < |Concatenated(ms)| ==>
      Concatenated(ms)[i].Null? || IsHashtagToken(Concatenated(ms)[i].text)
    decreases |ms|
  {
    if ms != [] {
      var init, last := ms[..|ms| - 1], ms[|ms| - 1];
      assert TokensOnly(init) by {
        forall i, j | 0 <= i < |init| && init[i].Some? && 0 <= j < |init[i].value| ensures IsHashtagToken(init[i].value[j]) {
          assert init[i] == ms[i];
        }
      }
      ConcatenatedWellFormed(init);
      var a: seq<Hashtag>, c: seq<Hashtag> := Concatenated(init), Contribution(last);
      forall i | 0 <= i < |a + c| ensures (a + c)[i].Null? || IsHashtagToken((a + c)[i].text) {
        if i >= |a| {
          assert (a + c)[i] == c[i - |a|];
        }
      }
    }
  }

  /** The posts' matches are well-formed tokens, so the aggregated array holds tokens and `null`s only. */
  lemma HashtagsWellFormed(contents: seq<string>)
    ensures forall i :: 0 <= i < |Concatenated(Matches(contents))| ==>
      Concatenated(Matches(contents))[i].Null? || IsHashtagToken(Concatenated(Matches(contents))[i].text)
  {
    var ms := Matches(contents);
    forall i | 0 <= i < |ms| {
      MatchTokens(contents[i]);
    }
    ConcatenatedWellFormed(ms);
  }

  /** A `null` is in the array exactly when one of the match results is `null`. */
  lemma {:induction false} ConcatenatedNull(ms: seq<Option<seq<string>>>)
    ensures Null in Concatenated(ms) <==> None in ms
    decreases |ms|
  {
    if ms != [] {
      var init := ms[..|ms| - 1];
      ConcatenatedNull(init);
      assert ms == init + [ms[|ms| - 1]];
    }
  }

  /** Which posts' match results are `null`. */
  lemma MatchesNone(contents: seq<string>)
    ensures forall i :: 0 <= i < |contents| ==> (Matches(contents)[i].None? <==> NoHashtag(contents[i]))
  {
    forall i | 0 <= i < |contents| ensures Matches(contents)[i].None? <==> NoHashtag(contents[i]) {
      MatchNoneIff(contents[i]);
    }
  }

  /** A `null` is counted exactly when some post that reached the loop has no hashtag token at all. */
  lemma NullMarksPostWithoutMatch(contents: seq<string>)
    ensures Null in Concatenated(Matches(contents)) <==> exists i :: 0 <= i < |contents| && NoHashtag(contents[i])
  {
    var ms := Matches(contents);
    ConcatenatedNull(ms);
    MatchesNone(contents);
    if None in ms {
      var i :| 0 <= i < |ms| && ms[i] == None;
      assert NoHashtag(contents[i]);
    }
  }

  /** The name "null" cannot clash with a real tag, so counting by name counts each element kind apart. */
  lemma KeyInjective(g: Hashtag, h: Hashtag)
    requires g.Null? || IsHashtagToken(g.text)
    requires h.Null? || IsHashtagToken(h.text)
    ensures Key(g) == Key(h) <==> g == h
  {
    assert "null"[0] == 'n';
  }

  /** One entry per distinct tag: no tag is listed twice, and exactly the tags that occur are listed. */
  lemma TallyOnePerTag(hashtags: seq<Hashtag>)
    ensures var es := Entries(TableOf(hashtags));
      && (forall i, j :: 0 <= i < j < |es| ==> es[i].hashtag != es[j].hashtag)
      && (forall k :: k in Keys(hashtags) <==> exists i :: 0 <= i < |es| && es[i].hashtag == k)
  {
    var ks := Keys(hashtags);
    var t := TableOf(hashtags);
    var es := Entries(t);
    DistinctMembers(ks);
    forall k | k in ks ensures exists i :: 0 <= i < |es| && es[i].hashtag == k {
      assert k in t.names;
      var i :| 0 <= i < |t.names| && t.names[i] == k;
      assert es[i].hashtag == k;
    }
    forall i | 0 <= i < |es| ensures es[i].hashtag in ks {
      assert es[i].hashtag == t.names[i] && t.names[i] in t.names;
    }
  }

  /** Each entry's count is the number of times its tag occurs, so at least one. */
  lemma TallyCounts(hashtags: seq<Hashtag>)
    ensures var es := Entries(TableOf(hashtags));
      forall i :: 0 <= i < |es| ==> es[i].count == Occurrences(Keys(hashtags), es[i].hashtag) >= 1
  {
    var ks := Keys(hashtags);
    var t := TableOf(hashtags);
    DistinctMembers(ks);
    forall i | 0 <= i < |t.names| ensures t.names[i] in ks {
      assert t.names[i] in t.names;
    }
  }

  /** The entries come in the order in which their tags first occur. */
  lemma TallyFirstAppearance(hashtags: seq<Hashtag>)
    ensures var es, ks := Entries(TableOf(hashtags)), Keys(hashtags);
      forall i, j :: 0 <= i < j < |es| ==>
        es[i].hashtag in ks && es[j].hashtag in ks && FirstIndex(ks, es[i].hashtag) < FirstIndex(ks, es[j].hashtag)
  {
    DistinctFirstAppearance(Keys(hashtags));
  }

  /** The counts of `es` summed: each entry counts the occurrences of its tag in `ks`. */
  function SumOccurrences(names: seq<string>, ks: seq<string>): nat {
    if names == [] then 0 else SumOccurrences(names[..|names| - 1], ks) + Occurrences(ks, names[|names| - 1])
  }

  lemma {:induction false} SumOccurrencesAppend(names: seq<string>, ks: seq<string>, x: string)
    ensures SumOccurrences(names, ks + [x]) == SumOccurrences(names, ks) + Occurrences(names, x)
    decreases |names|
  {
    if names != [] {
      SumOccurrencesAppend(names[..|names| - 1], ks, x);
      assert (ks + [x])[..|ks|] == ks;
    }
  }

  /** Summing every distinct name's occurrences in `ks` gives the length of `ks`. */
  lemma {:induction false} SumOccurrencesDistinct(ks: seq<string>)
    ensures SumOccurrences(Distinct(ks), ks) == |ks|
    decreases |ks|
  {
    if ks != [] {
      var init, x := ks[..|ks| - 1], ks[|ks| - 1];
      assert ks == init + [x];
      SumOccurrencesDistinct(init);
      var d := Distinct(init);
      DistinctMembers(init);
      SumOccurrencesAppend(d, init, x);
      OccurrencesNoDuplicates(d, x);
      if x !in d {
        var d' := d + [x];
        assert d'[..|d'| - 1] == d;
        SumOccurrencesAppend(d, init, x);
        assert Occurrences(ks, x) == Occurrences(init, x) + 1;
        assert Occurrences(init, x) == 0;
      }
    }
  }

  lemma {:induction false} SumEntries(es: seq<HashtagCount>, names: seq<string>, ks: seq<string>)
    requires |es| == |names|
    requires forall i :: 0 <= i < |es| ==> es[i] == HashtagCount(names[i], Occurrences(ks, names[i]))
    ensures SumCounts(es) == SumOccurrences(names, ks)
    decreases |es|
  {
    if es != [] {
      SumEntries(es[..|es| - 1], names[..|names| - 1], ks);
    }
  }

  /** The counts add up to the number of elements of the aggregated array. */
  lemma TallySum(hashtags: seq<Hashtag>)
    ensures SumCounts(Entries(TableOf(hashtags))) == |hashtags|
  {
    var ks := Keys(hashtags);
    var t := TableOf(hashtags);
    DistinctMembers(ks);
    SumEntries(Entries(t), t.names, ks);
    SumOccurrencesDistinct(ks);
  }
}
