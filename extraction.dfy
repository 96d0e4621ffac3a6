/**
 * `content.match(/#\w+/g)`: the hashtag tokens of a post. A token is `#` followed by the
 * longest run of word characters; matching resumes where the previous token ended.
 */
module Extraction {
  import opened Wrappers

  /** `\w` without the `u` flag: an ASCII letter, digit or underscore. */
  predicate IsWordChar(c: char) {
    ('A' <= c <= 'Z') || ('a' <= c <= 'z') || ('0' <= c <= '9') || c == '_'
  }

  /** The pattern `#\w+` can start matching at position `p` of `s`. */
  predicate MatchesAt(s: string, p: int) {
    0 <= p && p + 1 < |s| && s[p] == '#' && IsWordChar(s[p + 1])
  }

  /** A token as the pattern produces it: `#`, then one or more word characters. */
  predicate IsHashtagToken(t: string) {
    |t| >= 2 && t[0] == '#' && forall k :: 1 <= k < |t| ==> IsWordChar(t[k])
  }

  /** Where the greedy `\w+` that starts at `i` stops. */
  function WordRunEnd(s: string, i: nat): (e: nat)
    requires i <= |s|
    ensures i <= e <= |s|
    ensures forall k :: i <= k < e ==> IsWordChar(s[k])
    ensures e == |s| || !IsWordChar(s[e])
    decreases |s| - i
  {
    if i < |s| && IsWordChar(s[i]) then WordRunEnd(s, i + 1) else i
  }

  /** The positions `s[start..end]` of one match. */
  datatype Span = Span(start: nat, end: nat)

  /** The matches of the global pattern in `s`, searching from position `from` on. */
  function Scan(s: string, from: nat): (r: seq<Span>)
    requires from <= |s|
    ensures forall i :: 0 <= i < |r| ==> from <= r[i].start && r[i].start + 2 <= r[i].end <= |s|
    ensures forall i :: 0 <= i < |r| ==> MatchesAt(s, r[i].start)
    decreases |s| - from
  {
    if from == |s| then []
    else if MatchesAt(s, from) then
      var e := WordRunEnd(s, from + 1);
      [Span(from, e)] + Scan(s, e)
    else Scan(s, from + 1)
  }

  /** The matched texts of `spans`. */
  function Texts(s: string, spans: seq<Span>): (ts: seq<string>)
    requires forall i :: 0 <= i < |spans| ==> spans[i].start <= spans[i].end <= |s|
    ensures |ts| == |spans|
  {
    seq(|spans|, i requires 0 <= i < |spans| => s[spans[i].start..spans[i].end])
  }

  /** `s.match(/#\w+/g)`: `null` (`None`) when nothing matches, otherwise every match in order. */
  function Match(s: string): Option<seq<string>> {
    var spans := Scan(s, 0);
    if spans == [] then None else Some(Texts(s, spans))
  }

  /** The span `i` of `[first] + rest`. */
  lemma ConsIndex(first: Span, rest: seq<Span>, i: nat)
    requires 0 < i <= |rest|
    ensures ([first] + rest)[i] == rest[i - 1]
  {
  }

  /** `sp` is a match of `#\w+` in `s` whose run of word characters cannot be extended. */
  predicate IsMaximalMatch(s: string, sp: Span) {
    && sp.end <= |s|
    && MatchesAt(s, sp.start)
    && (forall k :: sp.start < k < sp.end ==> IsWordChar(s[k]))
    && (sp.end == |s| || !IsWordChar(s[sp.end]))
  }

  /** Each match is `#` followed by a run of word characters that cannot be extended. */
  lemma {:induction false} ScanMaximal(s: string, from: nat)
    requires from <= |s|
    ensures forall i :: 0 <= i < |Scan(s, from)| ==> IsMaximalMatch(s, Scan(s, from)[i])
    decreases |s| - from
  {
    if from < |s| {
      if MatchesAt(s, from) {
        var e := WordRunEnd(s, from + 1);
        var rest := Scan(s, e);
        ScanMaximal(s, e);
        var r := Scan(s, from);
        assert r == [Span(from, e)] + rest;
        forall i | 0 < i < |r| ensures r[i] == rest[i - 1] {
          ConsIndex(Span(from, e), rest, i);
        }
        assert r[0] == Span(from, e);
      } else {
        ScanMaximal(s, from + 1);
      }
    }
  }

  /** Each of `spans` ends before the next one starts. */
  predicate InOrder(spans: seq<Span>) {
    forall i :: 0 < i < |spans| ==> spans[i - 1].end <= spans[i].start
  }

  /** Matches come left to right and do not overlap. */
  lemma {:induction false} ScanOrdered(s: string, from: nat)
    requires from <= |s|
    ensures InOrder(Scan(s, from))
    decreases |s| - from
  {
    if from < |s| {
      if MatchesAt(s, from) {
        var e := WordRunEnd(s, from + 1);
        var rest := Scan(s, e);
        ScanOrdered(s, e);
        var r := Scan(s, from);
        assert r == [Span(from, e)] + rest;
        forall i | 0 < i < |r| ensures r[i - 1].end <= r[i].start {
          ConsIndex(Span(from, e), rest, i);
          if i > 1 {
            ConsIndex(Span(from, e), rest, i - 1);
          }
        }
      } else {
        ScanOrdered(s, from + 1);
      }
    }
  }

  /** `p` is where one of `spans` starts. */
  predicate StartsOne(spans: seq<Span>, p: int) {
    exists i :: 0 <= i < |spans| && spans[i].start == p
  }

  /** No match is missed: the matches start exactly at the positions where the pattern matches. */
  lemma {:induction false} ScanComplete(s: string, from: nat, p: int)
    requires from <= |s|
    ensures StartsOne(Scan(s, from), p) <==> from <= p && MatchesAt(s, p)
    decreases |s| - from
  {
    var r := Scan(s, from);
    if from == |s| {
    } else if MatchesAt(s, from) {
      var e := WordRunEnd(s, from + 1);
      var rest := Scan(s, e);
      ScanComplete(s, e, p);
      assert r == [Span(from, e)] + rest;
      if p == from {
        assert r[0].start == p;
      } else if p < from {
        assert !StartsOne(r, p);
      } else if p < e {
        assert IsWordChar(s[p]) && !MatchesAt(s, p);
        forall i | 0 <= i < |r| ensures r[i].start != p {
          if i > 0 {
            ConsIndex(Span(from, e), rest, i);
          }
        }
      } else {
        if StartsOne(rest, p) {
          var i :| 0 <= i < |rest| && rest[i].start == p;
          ConsIndex(Span(from, e), rest, i + 1);
          assert StartsOne(r, p);
        }
        if StartsOne(r, p) {
          var i :| 0 <= i < |r| && r[i].start == p;
          ConsIndex(Span(from, e), rest, i);
          assert StartsOne(rest, p);
        }
      }
    } else {
      ScanComplete(s, from + 1, p);
    }
  }

  /** The pattern matches nowhere in `s`. */
  predicate NoHashtag(s: string) {
    forall p :: 0 <= p < |s| ==> !MatchesAt(s, p)
  }

  /** `match` answers `null` exactly when the pattern matches nowhere in `s`. */
  lemma MatchNoneIff(s: string)
    ensures Match(s).None? <==> NoHashtag(s)
  {
    if Match(s).Some? {
      var p := Scan(s, 0)[0].start;
      ScanComplete(s, 0, p);
    } else {
      forall p ensures !MatchesAt(s, p) {
        ScanComplete(s, 0, p);
      }
    }
  }

  /** Every token of a successful match is `#` with one or more word characters after it. */
  lemma MatchTokens(s: string)
    ensures Match(s).Some? ==> Match(s).value != [] && forall i :: 0 <= i < |Match(s).value| ==> IsHashtagToken(Match(s).value[i])
  {
    ScanMaximal(s, 0);
    var spans := Scan(s, 0);
    if spans != [] {
      var ts := Texts(s, spans);
      forall i | 0 <= i < |ts| ensures IsHashtagToken(ts[i]) {
        var sp := spans[i];
        assert IsMaximalMatch(s, sp);
        var t := ts[i];
        assert t == s[sp.start..sp.end];
        assert t[0] == '#';
        forall k | 1 <= k < |t| ensures IsWordChar(t[k]) {
          assert t[k] == s[sp.start + k];
        }
      }
    }
  }

  /** The search moves over positions where the pattern does not match. */
  lemma {:induction false} ScanSkips(s: string, from: nat, to: nat)
    requires from <= to <= |s|
    requires forall p :: from <= p < to ==> !MatchesAt(s, p)
    ensures Scan(s, from) == Scan(s, to)
    decreases (to as int) - (from as int)
  {
    if from < to {
      ScanSkips(s, from + 1, to);
    }
  }

  /** The run of word characters from `i` ends at `e` when `e` is the first non-word position from `i` on. */
  lemma {:induction false} WordRunEndIs(s: string, i: nat, e: nat)
    requires i <= e <= |s|
    requires forall k :: i <= k < e ==> IsWordChar(s[k])
    requires e == |s| || !IsWordChar(s[e])
    ensures WordRunEnd(s, i) == e
    decreases (e as int) - (i as int)
  {
    if i < e {
      WordRunEndIs(s, i + 1, e);
    }
  }
}
