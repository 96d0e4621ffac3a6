/** Worked instances of the handlers' behaviour on small inputs. */
module Examples {
  import opened Wrappers
  import opened Seqs
  import opened StableSort
  import opened Tweets
  import opened Extraction
  import opened Aggregation
  import opened Routes

  const Post := "hello #World and #world2"

  lemma PostFirstChars()
    ensures forall p :: 0 <= p < 6 ==> Post[p] != '#'
    ensures Post[6] == '#' && !IsWordChar(Post[12])
    ensures forall k :: 7 <= k < 12 ==> IsWordChar(Post[k])
  {
  }

  lemma PostSecondChars()
    ensures forall p :: 12 <= p < 17 ==> Post[p] != '#'
    ensures Post[17] == '#' && |Post| == 24
    ensures forall k :: 18 <= k < 24 ==> IsWordChar(Post[k])
  {
  }

  lemma PostSecondToken()
    ensures Scan(Post, 12) == [Span(17, 24)]
  {
    PostSecondChars();
    ScanSkips(Post, 12, 17);
    WordRunEndIs(Post, 18, 24);
  }

  lemma PostFirstToken()
    ensures Scan(Post, 0) == [Span(6, 12)] + Scan(Post, 12)
  {
    PostFirstChars();
    ScanSkips(Post, 0, 6);
    WordRunEndIs(Post, 7, 12);
  }

  /** Two tokens, each the longest run of word characters after its `#`. */
  lemma ExtractTwoTags()
    ensures Match(Post) == Some(["#World", "#world2"])
  {
    PostFirstToken();
    PostSecondToken();
    PostTexts();
    var spans := Scan(Post, 0);
    assert spans == [Span(6, 12), Span(17, 24)];
    var ts := Texts(Post, spans);
    assert ts[0] == Post[6..12] && ts[1] == Post[17..24];
    assert ts == ["#World", "#world2"];
    assert Match(Post) == Some(ts);
  }

  lemma PostTexts()
    ensures Post[6..12] == "#World" && Post[17..24] == "#world2"
  {
  }

  /** The only `#` of "a # b" is not followed by a word character. */
  lemma LoneHashNoMatch()
    ensures Match("a # b") == None
  {
    var s := "a # b";
    assert forall p :: 0 <= p < |s| && p != 2 ==> s[p] != '#';
    assert !IsWordChar(s[3]);
    MatchNoneIff(s);
  }

  lemma SortDescSnoc<T>(s: seq<T>, x: T, key: T -> int)
    ensures SortDesc(s + [x], key) == Insert(SortDesc(s, key), x, key)
  {
    assert (s + [x])[..|s|] == s;
  }

  lemma InsertSnoc<T>(r: seq<T>, y: T, x: T, key: T -> int)
    ensures Insert(r + [y], x, key) == if key(y) >= key(x) then r + [y] + [x] else Insert(r, x, key) + [y]
  {
    assert (r + [y])[..|r|] == r;
  }

  lemma SortDescSingle<T>(x: T, key: T -> int)
    ensures SortDesc([x], key) == [x]
  {
    SortDescSnoc([], x, key);
    assert [] + [x] == [x];
  }

  lemma LoneHashAggregated(t: Tweet)
    requires t.content == "a # b"
    ensures Aggregated([t]) == [Null]
  {
    assert OccursAt(t.content, "#", 2);
    assert [t][..0] == [];
    assert FindContaining([t], "#") == [t];
    assert Contents([t]) == ["a # b"];
    LoneHashNoMatch();
    var ms := Matches(["a # b"]);
    assert ms == [None];
    ConcatenatedAppend([], [None]);
    assert [] + [None] == ms;
  }

  lemma NullKeys()
    ensures Keys([Null]) == ["null"]
    ensures Distinct(["null"]) == ["null"] && Occurrences(["null"], "null") == 1
  {
    var ks: seq<string> := ["null"];
    assert [] + ks == ks;
    DistinctStep([], "null");
    OccurrencesSingleton("null", "null");
    OccurrencesAppend([], ["null"], "null");
  }

  lemma NullTable()
    ensures TableOf([Null]).names == ["null"] && TableOf([Null]).count["null"] == 1
  {
    NullKeys();
    var ks := Keys([Null]);
    var t := TableOf([Null]);
    assert t.names == Distinct(ks);
    assert "null" in ks;
    assert t.count["null"] == Occurrences(ks, "null");
  }

  lemma NullEntries()
    ensures Entries(TableOf([Null])) == [HashtagCount("null", 1)]
  {
    NullTable();
  }

  /** A post whose `#` starts no token passes the `#` filter and is counted once under "null". */
  lemma NullCountedForLoneHash(t: Tweet)
    requires t.content == "a # b"
    ensures Ranking([t]) == [HashtagCount("null", 1)]
  {
    LoneHashAggregated(t);
    NullEntries();
    SortDescSingle(HashtagCount("null", 1), CountKey);
  }

  lemma SingleTokenMatch(s: string)
    requires |s| == 2 && s[0] == '#' && IsWordChar(s[1])
    ensures Match(s) == Some([s])
  {
    WordRunEndIs(s, 1, 2);
    assert MatchesAt(s, 0) && Scan(s, 2) == [];
    var spans := Scan(s, 0);
    assert spans == [Span(0, 2)];
    var ts := Texts(s, spans);
    assert ts[0] == s[0..2] == s;
    assert ts == [s];
  }

  lemma TwoTokenMatch(s: string)
    requires |s| == 5 && s[0] == '#' && IsWordChar(s[1]) && s[2] == ' ' && s[3] == '#' && IsWordChar(s[4])
    ensures Match(s) == Some([s[0..2], s[3..5]])
  {
    WordRunEndIs(s, 1, 2);
    WordRunEndIs(s, 4, 5);
    assert MatchesAt(s, 3) && Scan(s, 5) == [];
    assert Scan(s, 3) == [Span(3, 5)];
    assert !MatchesAt(s, 2) && Scan(s, 2) == Scan(s, 3);
    assert MatchesAt(s, 0);
    var spans := Scan(s, 0);
    assert spans == [Span(0, 2), Span(3, 5)];
    var ts := Texts(s, spans);
    assert ts == [s[0..2], s[3..5]];
  }

  lemma SampleMatches()
    ensures Matches(["#c", "#a #b", "#b"]) == [Some(["#c"]), Some(["#a", "#b"]), Some(["#b"])]
  {
    SingleTokenMatch("#c");
    SingleTokenMatch("#b");
    TwoTokenMatch("#a #b");
    assert "#a #b"[0..2] == "#a" && "#a #b"[3..5] == "#b";
  }

  lemma SampleContributions()
    ensures Contribution(Some(["#c"])) == [Tag("#c")]
    ensures Contribution(Some(["#a", "#b"])) == [Tag("#a"), Tag("#b")]
    ensures Contribution(Some(["#b"])) == [Tag("#b")]
  {
  }

  lemma SampleConcatenatedPrefix()
    ensures Concatenated([Some(["#c"]), Some(["#a", "#b"])]) == [Tag("#c"), Tag("#a"), Tag("#b")]
  {
    var m0, m1 := Some(["#c"]), Some(["#a", "#b"]);
    SampleContributions();
    assert [] + [m0] == [m0] && [m0] + [m1] == [m0, m1];
    ConcatenatedAppend([], [m0]);
    ConcatenatedAppend([m0], [m1]);
  }

  /** The posts "#c", "#a #b" and "#b" aggregate to four elements. */
  lemma SampleAggregated()
    ensures Keys(Concatenated(Matches(["#c", "#a #b", "#b"]))) == ["#c", "#a", "#b", "#b"]
  {
    var ms := Matches(["#c", "#a #b", "#b"]);
    var m0, m1, m2 := Some(["#c"]), Some(["#a", "#b"]), Some(["#b"]);
    SampleMatches();
    SampleContributions();
    assert [] + [m0] == [m0] && [m0] + [m1] == [m0, m1] && [m0, m1] + [m2] == ms;
    SampleConcatenatedPrefix();
    ConcatenatedAppend([m0, m1], [m2]);
    var hs := Concatenated(ms);
    assert hs == [Tag("#c"), Tag("#a"), Tag("#b"), Tag("#b")];
  }

  lemma SampleDistinct(ks: seq<string>)
    requires ks == ["#c", "#a", "#b", "#b"]
    ensures Distinct(ks) == ["#c", "#a", "#b"]
  {
    var k1, k2, k3 := ["#c"], ["#c", "#a"], ["#c", "#a", "#b"];
    assert [] + ["#c"] == k1 && k1 + ["#a"] == k2 && k2 + ["#b"] == k3 && k3 + ["#b"] == ks;
    DistinctStep([], "#c");
    DistinctStep(k1, "#a");
    DistinctStep(k2, "#b");
    DistinctStep(k3, "#b");
  }

  lemma SampleOccurrences(ks: seq<string>, x: string)
    requires ks == ["#c", "#a", "#b", "#b"]
    requires x in ["#c", "#a", "#b"]
    ensures Occurrences(ks, x) == if x == "#b" then 2 else 1
  {
    var k1, k2, k3 := ["#c"], ["#c", "#a"], ["#c", "#a", "#b"];
    assert [] + ["#c"] == k1 && k1 + ["#a"] == k2 && k2 + ["#b"] == k3 && k3 + ["#b"] == ks;
    OccurrencesSingleton("#c", x);
    OccurrencesAppend([], ["#c"], x);
    OccurrencesSingleton("#a", x);
    OccurrencesAppend(k1, ["#a"], x);
    OccurrencesSingleton("#b", x);
    OccurrencesAppend(k2, ["#b"], x);
    OccurrencesSingleton("#b", x);
    OccurrencesAppend(k3, ["#b"], x);
  }

  /** Counting "#c", "#a", "#b", "#b": one entry per tag, in first-appearance order. */
  lemma SampleEntries(hs: seq<Hashtag>)
    requires Keys(hs) == ["#c", "#a", "#b", "#b"]
    ensures Entries(TableOf(hs)) == [HashtagCount("#c", 1), HashtagCount("#a", 1), HashtagCount("#b", 2)]
  {
    var ks := Keys(hs);
    SampleDistinct(ks);
    SampleOccurrences(ks, "#c");
    SampleOccurrences(ks, "#a");
    SampleOccurrences(ks, "#b");
    var t := TableOf(hs);
    assert t.names == ["#c", "#a", "#b"];
    assert t.count["#c"] == 1 && t.count["#a"] == 1 && t.count["#b"] == 2;
  }

  lemma SampleSortPrefix(c: HashtagCount, a: HashtagCount)
    requires c.count == 1 && a.count == 1
    ensures SortDesc([c, a], CountKey) == [c, a]
  {
    SortDescSingle(c, CountKey);
    SortDescSnoc([c], a, CountKey);
    InsertSnoc([], c, a, CountKey);
    assert [] + [c] == [c] && [c] + [a] == [c, a];
  }

  lemma SampleSort(c: HashtagCount, a: HashtagCount, b: HashtagCount)
    requires c.count == 1 && a.count == 1 && b.count == 2
    ensures SortDesc([c, a, b], CountKey) == [b, c, a]
  {
    SampleSortPrefix(c, a);
    SortDescSnoc([c, a], b, CountKey);
    InsertSnoc([c], a, b, CountKey);
    InsertSnoc([], c, b, CountKey);
    assert [] + [c] == [c] && [c] + [a] == [c, a] && [c, a] + [b] == [c, a, b];
  }

  /** The most frequent tag comes first; the two tags seen once keep their order. */
  lemma SampleRanking()
    ensures Rank(Concatenated(Matches(["#c", "#a #b", "#b"]))) ==
      [HashtagCount("#b", 2), HashtagCount("#c", 1), HashtagCount("#a", 1)]
  {
    var hs := Concatenated(Matches(["#c", "#a #b", "#b"]));
    SampleAggregated();
    SampleEntries(hs);
    SampleSort(HashtagCount("#c", 1), HashtagCount("#a", 1), HashtagCount("#b", 2));
  }

  /** The feed puts the latest tweet first and keeps two tweets of the same date in store order. */
  lemma FeedSample(t1: Tweet, t2: Tweet, t3: Tweet)
    requires t1.date == 1 && t2.date == 3 && t3.date == 1
    ensures SortDesc([t1, t2, t3], DateKey) == [t2, t1, t3]
  {
    FeedSamplePrefix(t1, t2);
    SortDescSnoc([t1, t2], t3, DateKey);
    InsertSnoc([t2], t1, t3, DateKey);
    assert [t2] + [t1] == [t2, t1] && [t1, t2] + [t3] == [t1, t2, t3];
  }

  /** `cat` finds a tweet about `#category` and not one about `#dog`. */
  lemma TagIsMatchedAsPrefix(t: Tweet, u: Tweet)
    requires t.content == "I love #category" && u.content == "#dog"
    ensures Tagged([t, u], "cat") == [t]
  {
    var p := "#" + "cat";
    assert p == "#cat";
    assert OccursAt(t.content, p, 7);
    forall i | 0 <= i <= |u.content| - |p| ensures !OccursAt(u.content, p, i) {
      assert u.content[i..i + |p|][1] == 'd';
    }
    assert !ContainsText(u.content, p);
    var s := [t, u];
    assert s[..1] == [t] && s[..1][..0] == [];
    assert FindContaining([t], p) == [t];
    assert FindContaining(s, p) == [t];
    SortDescSingle(t, DateKey);
  }

  /** A like is appended; an unlike removes every occurrence of the user. */
  lemma ToggleSamples()
    ensures Toggled(["ana", "bob"], "cy") == ["ana", "bob", "cy"]
    ensures Toggled(["ana", "bob", "ana"], "ana") == ["bob"]
  {
    var l := ["ana", "bob", "ana"];
    assert l[..2] == ["ana", "bob"] && l[..2][..1] == ["ana"] && l[..2][..1][..0] == [];
    assert "bob" != "ana";
  }

  /** A post without any `#` has no match: `match` answers `null`. */
  lemma NoTagsHere()
    ensures Match("no tags here") == None
  {
    var s := "no tags here";
    assert forall p :: 0 <= p < |s| ==> s[p] != '#';
    MatchNoneIff(s);
  }

  lemma RepeatedTagMatches()
    ensures Matches(["#a #a", "#b", "#a"]) == [Some(["#a", "#a"]), Some(["#b"]), Some(["#a"])]
  {
    SingleTokenMatch("#a");
    SingleTokenMatch("#b");
    TwoTokenMatch("#a #a");
    assert "#a #a"[0..2] == "#a" && "#a #a"[3..5] == "#a";
  }

  lemma RepeatedTagConcatenatedPrefix()
    ensures Concatenated([Some(["#a", "#a"]), Some(["#b"])]) == [Tag("#a"), Tag("#a"), Tag("#b")]
  {
    var m0, m1 := Some(["#a", "#a"]), Some(["#b"]);
    assert Contribution(m0) == [Tag("#a"), Tag("#a")] && Contribution(m1) == [Tag("#b")];
    assert [] + [m0] == [m0] && [m0] + [m1] == [m0, m1];
    ConcatenatedAppend([], [m0]);
    ConcatenatedAppend([m0], [m1]);
  }

  /** The posts "#a #a", "#b" and "#a" aggregate to four elements. */
  lemma RepeatedTagAggregated()
    ensures Keys(Concatenated(Matches(["#a #a", "#b", "#a"]))) == ["#a", "#a", "#b", "#a"]
  {
    var ms := Matches(["#a #a", "#b", "#a"]);
    var m0, m1, m2 := Some(["#a", "#a"]), Some(["#b"]), Some(["#a"]);
    RepeatedTagMatches();
    assert Contribution(m2) == [Tag("#a")];
    assert [m0, m1] + [m2] == ms;
    RepeatedTagConcatenatedPrefix();
    ConcatenatedAppend([m0, m1], [m2]);
  }

  lemma RepeatedTagDistinct(ks: seq<string>)
    requires ks == ["#a", "#a", "#b", "#a"]
    ensures Distinct(ks) == ["#a", "#b"]
  {
    var k1, k2, k3 := ["#a"], ["#a", "#a"], ["#a", "#a", "#b"];
    assert [] + ["#a"] == k1 && k1 + ["#a"] == k2 && k2 + ["#b"] == k3 && k3 + ["#a"] == ks;
    DistinctStep([], "#a");
    DistinctStep(k1, "#a");
    DistinctStep(k2, "#b");
    DistinctStep(k3, "#a");
  }

  lemma RepeatedTagOccurrences(ks: seq<string>, x: string)
    requires ks == ["#a", "#a", "#b", "#a"]
    requires x in ["#a", "#b"]
    ensures Occurrences(ks, x) == if x == "#a" then 3 else 1
  {
    var k1, k2, k3 := ["#a"], ["#a", "#a"], ["#a", "#a", "#b"];
    assert [] + ["#a"] == k1 && k1 + ["#a"] == k2 && k2 + ["#b"] == k3 && k3 + ["#a"] == ks;
    OccurrencesSingleton("#a", x);
    OccurrencesAppend([], ["#a"], x);
    OccurrencesSingleton("#a", x);
    OccurrencesAppend(k1, ["#a"], x);
    OccurrencesSingleton("#b", x);
    OccurrencesAppend(k2, ["#b"], x);
    OccurrencesSingleton("#a", x);
    OccurrencesAppend(k3, ["#a"], x);
  }

  lemma RepeatedTagEntries(hs: seq<Hashtag>)
    requires Keys(hs) == ["#a", "#a", "#b", "#a"]
    ensures Entries(TableOf(hs)) == [HashtagCount("#a", 3), HashtagCount("#b", 1)]
  {
    var ks := Keys(hs);
    RepeatedTagDistinct(ks);
    RepeatedTagOccurrences(ks, "#a");
    RepeatedTagOccurrences(ks, "#b");
    var t := TableOf(hs);
    assert t.names == ["#a", "#b"];
    assert t.count["#a"] == 3 && t.count["#b"] == 1;
  }

  /** "#a" three times and "#b" once, most frequent first. */
  lemma RepeatedTagRanking()
    ensures Rank(Concatenated(Matches(["#a #a", "#b", "#a"]))) == [HashtagCount("#a", 3), HashtagCount("#b", 1)]
  {
    var hs := Concatenated(Matches(["#a #a", "#b", "#a"]));
    RepeatedTagAggregated();
    RepeatedTagEntries(hs);
    var a, b := HashtagCount("#a", 3), HashtagCount("#b", 1);
    SortDescSingle(a, CountKey);
    SortDescSnoc([a], b, CountKey);
    InsertSnoc([], a, b, CountKey);
    assert [] + [a] == [a] && [a] + [b] == [a, b];
  }

  /** Tweets dated 1, 2 and 3 come out latest first. */
  lemma FeedLatestFirst(t1: Tweet, t2: Tweet, t3: Tweet)
    requires t1.date == 1 && t2.date == 2 && t3.date == 3
    ensures SortDesc([t1, t2, t3], DateKey) == [t3, t2, t1]
  {
    FeedSamplePrefix(t1, t2);
    SortDescSnoc([t1, t2], t3, DateKey);
    InsertSnoc([t2], t1, t3, DateKey);
    InsertSnoc([], t2, t3, DateKey);
    assert [] + [t2] == [t2] && [t2] + [t1] == [t2, t1] && [t1, t2] + [t3] == [t1, t2, t3];
  }

  lemma FeedSamplePrefix(t1: Tweet, t2: Tweet)
    requires t1.date < t2.date
    ensures SortDesc([t1, t2], DateKey) == [t2, t1]
  {
    SortDescSingle(t1, DateKey);
    SortDescSnoc([t1], t2, DateKey);
    InsertSnoc([], t1, t2, DateKey);
    assert [] + [t1] == [t1] && [t1] + [t2] == [t1, t2];
  }

  /** From nobody, "u1" likes the tweet; a second toggle takes the like back. */
  lemma ToggleU1Twice()
    ensures Toggled([], "u1") == ["u1"]
    ensures Toggled(Toggled([], "u1"), "u1") == []
  {
    assert [] + ["u1"] == ["u1"];
    assert ["u1"][..0] == [];
  }
}
