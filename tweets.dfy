/**
 * Tweet records and the like toggle of `POST /tweets/like`.
 * A stored tweet is an object whose `likers` list is the only thing the core changes.
 */
module Tweets {
  import opened Wrappers
  import opened Seqs

  /** A stored tweet. Only `likers` is ever updated; the other fields are fixed at creation. */
  class Tweet {
    const id: string
    const user: string
    const date: int
    const content: string
    var likers: seq<string>

    /** A new tweet starts with nobody liking it. */
    constructor (id: string, user: string, date: int, content: string)
      ensures this.id == id && this.user == user && this.date == date && this.content == content
      ensures likers == []
    {
      this.id := id;
      this.user := user;
      this.date := date;
      this.content := content;
      likers := [];
    }

    /**
     * Likes the tweet for `userId` if they have not liked it yet, otherwise takes back every
     * like of theirs; answers the new list of likers.
     */
    method ToggleLike(userId: string) returns (newLikers: seq<string>)
      modifies this
      ensures likers == Toggled(old(likers), userId)
      ensures newLikers == likers
    {
      if userId !in likers {
        likers := likers + [userId];
      } else {
        likers := Without(likers, userId);
      }
      newLikers := likers;
    }
  }

  /** `likers.filter((e) => e !== userId)`. */
  function Without(likers: seq<string>, userId: string): (r: seq<string>)
    ensures forall v :: v in r <==> v in likers && v != userId
    ensures |r| == |likers| - Occurrences(likers, userId)
  {
    if likers == [] then []
    else
      var init, last := likers[..|likers| - 1], likers[|likers| - 1];
      assert likers == init + [last];
      Without(init, userId) + (if last == userId then [] else [last])
  }

  /** The likers list after one toggle by `userId`. */
  function Toggled(likers: seq<string>, userId: string): seq<string> {
    if userId !in likers then likers + [userId] else Without(likers, userId)
  }

  /** The tweet of the store with id `tweetId`, as `Tweet.findById` finds it. */
  function FindById(store: seq<Tweet>, tweetId: string): (r: Option<Tweet>)
    ensures r.Some? ==> r.value in store && r.value.id == tweetId
    ensures r.Some? ==>
      exists i :: 0 <= i < |store| && store[i] == r.value && forall j :: 0 <= j < i ==> store[j].id != tweetId
    ensures r.None? <==> forall i :: 0 <= i < |store| ==> store[i].id != tweetId
  {
    if store == [] then None
    else if store[0].id == tweetId then Some(store[0])
    else FindById(store[1..], tweetId)
  }

  /**
   * `POST /tweets/like` once its body has been validated: toggles `userId` on the tweet
   * `tweetId` and answers the new likers, or "Tweet not found" when the id does not resolve.
   */
  method Like(store: seq<Tweet>, tweetId: string, userId: string) returns (r: Result<seq<string>, string>)
    modifies store
    ensures FindById(store, tweetId).None? ==> r == Failure("Tweet not found")
    ensures FindById(store, tweetId).Some? ==>
      var t := FindById(store, tweetId).value;
      t.likers == Toggled(old(t.likers), userId) && r == Success(t.likers)
    ensures forall t :: t in store && Some(t) != FindById(store, tweetId) ==> t.likers == old(t.likers)
  {
    var found := FindById(store, tweetId);
    if found.None? {
      return Failure("Tweet not found");
    }
    var likers := found.value.ToggleLike(userId);
    r := Success(likers);
  }

  lemma {:induction false} WithoutAbsent(likers: seq<string>, userId: string)
    requires userId !in likers
    ensures Without(likers, userId) == likers
    decreases |likers|
  {
    if likers != [] {
      var init := likers[..|likers| - 1];
      assert likers == init + [likers[|likers| - 1]];
      WithoutAbsent(init, userId);
    }
  }

  /** The filter keeps the remaining entries in their original order. */
  lemma {:induction false} WithoutIsSubsequence(likers: seq<string>, userId: string)
    ensures IsSubsequence(Without(likers, userId), likers)
    decreases |likers|
  {
    if likers != [] {
      var init, last := likers[..|likers| - 1], likers[|likers| - 1];
      WithoutIsSubsequence(init, userId);
      var w := Without(init, userId);
      if last != userId {
        assert (w + [last])[..|w|] == w;
      } else {
        assert Without(likers, userId) == w + [] == w;
        assert w != [] ==> w[|w| - 1] in w && w[|w| - 1] != last;
      }
    }
  }

  /** The filter drops exactly the occurrences of `userId`. */
  lemma {:induction false} WithoutMultiset(likers: seq<string>, userId: string)
    ensures multiset(Without(likers, userId)) == multiset(likers)[userId := 0]
    decreases |likers|
  {
    if likers != [] {
      var init, last := likers[..|likers| - 1], likers[|likers| - 1];
      assert likers == init + [last];
      WithoutMultiset(init, userId);
    }
  }

  /** After a toggle, `userId` likes the tweet exactly when they did not before. */
  lemma ToggleFlipsMembership(likers: seq<string>, userId: string)
    ensures userId in Toggled(likers, userId) <==> userId !in likers
    ensures forall v :: v != userId ==> (v in Toggled(likers, userId) <==> v in likers)
  {
  }

  /**
   * A like is appended at the end; an unlike drops every occurrence of `userId` and keeps the
   * other entries, in their original order.
   */
  lemma ToggleContents(likers: seq<string>, userId: string)
    ensures userId !in likers ==> Toggled(likers, userId) == likers + [userId]
    ensures userId in likers ==>
      && IsSubsequence(Toggled(likers, userId), likers)
      && multiset(Toggled(likers, userId)) == multiset(likers)[userId := 0]
  {
    if userId in likers {
      WithoutIsSubsequence(likers, userId);
      WithoutMultiset(likers, userId);
    }
  }

  /** Liking and then unliking restores the list exactly; any two toggles restore who likes the tweet. */
  lemma ToggleTwiceRestores(likers: seq<string>, userId: string)
    ensures userId !in likers ==> Toggled(Toggled(likers, userId), userId) == likers
    ensures forall v :: v in Toggled(Toggled(likers, userId), userId) <==> v in likers
  {
    if userId !in likers {
      var liked := likers + [userId];
      assert liked[..|liked| - 1] == likers;
      WithoutAbsent(likers, userId);
    }
  }

  /** A duplicate-free likers list stays duplicate-free, and each toggle changes its length by one. */
  lemma ToggleKeepsNoDuplicates(likers: seq<string>, userId: string)
    requires NoDuplicates(likers)
    ensures NoDuplicates(Toggled(likers, userId))
    ensures |Toggled(likers, userId)| == if userId in likers then |likers| - 1 else |likers| + 1
  {
    if userId in likers {
      OccurrencesNoDuplicates(likers, userId);
      var r := Without(likers, userId);
      WithoutMultiset(likers, userId);
      forall i, j | 0 <= i < j < |r| ensures r[i] != r[j] {
        if r[i] == r[j] {
          TwiceInMultiset(r, i, j);
          MultisetNoDuplicates(likers, r[i]);
          assert false;
        }
      }
    }
  }
}
