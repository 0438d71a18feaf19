/**
 * The regular-expression scraping of arXiv Atom responses shared by api/server.js and
 * api/index.js: `/<tag>([^<]+)<\/tag>/` matched once (leftmost match, first group) or with
 * the `g` flag (every match, left to right, each search resuming after the previous match),
 * and the `/<\/?name>/g` clean-up of author matches.
 *
 * Since `[^<]+` cannot cross a `<` and the closing tag starts with one, a match starting at
 * a given index has exactly one possible group: the whole run of non-`<` characters after
 * the opening tag. `MatchAt` computes it; `IsMatch` says what a match is.
 */
module AtomScrape {
  import opened Wrappers
  import opened Text

  const NameTag: string := "name"

  function OpenTag(tag: string): string {
    "<" + tag + ">"
  }

  function CloseTag(tag: string): string {
    "</" + tag + ">"
  }

  /** No character of `g` is `<`: what `[^<]+` accepts, apart from length. */
  predicate NoAngle(g: string) {
    forall k :: 0 <= k < |g| ==> g[k] != '<'
  }

  /** `/<tag>([^<]+)<\/tag>/` matches `s` at index `i` with group `g`. */
  predicate IsMatch(s: string, tag: string, i: int, g: string) {
    |g| >= 1 && NoAngle(g) && OccursAt(s, OpenTag(tag) + g + CloseTag(tag), i)
  }

  /** The number of consecutive characters other than `<` from index `i`. */
  function RunLength(s: string, i: nat): (n: nat)
    requires i <= |s|
    ensures i + n <= |s|
    ensures forall k :: i <= k < i + n ==> s[k] != '<'
    ensures i + n == |s| || s[i + n] == '<'
    decreases |s| - i
  {
    if i == |s| || s[i] == '<' then 0 else 1 + RunLength(s, i + 1)
  }

  /** The group of the match at index `i`, if the pattern matches there. */
  function MatchAt(s: string, tag: string, i: nat): (g: Option<string>)
    ensures g.Some? ==> IsMatch(s, tag, i, g.value)
  {
    var open := OpenTag(tag);
    var close := CloseTag(tag);
    if !OccursAt(s, open, i) then None
    else
      var start := i + |open|;
      var n := RunLength(s, start);
      var group := s[start..start + n];
      if n >= 1 && OccursAt(s, close, start + n) then
        SplitOccurrence(s, i, open, group, close);
        assert NoAngle(group) by {
          forall k | 0 <= k < |group|
            ensures group[k] != '<'
          {
            assert group[k] == s[start + k];
          }
        }
        Some(group)
      else None
  }

  /** `a + b + c` occurs at `i` exactly when `a`, `b` and `c` occur there one after another. */
  lemma SplitOccurrence(s: string, i: nat, a: string, b: string, c: string)
    requires i + |a| + |b| + |c| <= |s|
    ensures s[i..i + |a| + |b| + |c|] == a + b + c <==>
      && s[i..i + |a|] == a
      && s[i + |a|..i + |a| + |b|] == b
      && s[i + |a| + |b|..i + |a| + |b| + |c|] == c
  {
    var x, y, z := s[i..i + |a|], s[i + |a|..i + |a| + |b|], s[i + |a| + |b|..i + |a| + |b| + |c|];
    var w := s[i..i + |a| + |b| + |c|];
    assert w == x + y + z;
    if w == a + b + c {
      assert x == w[..|a|] == (a + b + c)[..|a|] == a;
      assert y == w[|a|..|a| + |b|] == (a + b + c)[|a|..|a| + |b|] == b;
      assert z == w[|a| + |b|..] == (a + b + c)[|a| + |b|..] == c;
    }
  }

  /** `MatchAt` misses no match: whenever the pattern matches at `i`, it finds that group. */
  lemma MatchAtComplete(s: string, tag: string, i: nat, g: string)
    requires IsMatch(s, tag, i, g)
    ensures MatchAt(s, tag, i) == Some(g)
  {
    var open := OpenTag(tag);
    var close := CloseTag(tag);
    assert OccursAt(s, open + g + close, i);
    SplitOccurrence(s, i, open, g, close);
    var start := i + |open|;
    assert s[start..start + |g|] == g;
    assert s[start + |g|..start + |g| + |close|] == close;
    forall k | start <= k < start + |g|
      ensures s[k] != '<'
    {
      assert s[k] == g[k - start];
    }
    assert s[start + |g|] == close[0] == '<';
    RunLengthStopsAt(s, start, |g|);
  }

  /** A run of m characters other than `<` followed by a `<` has length exactly m. */
  lemma {:induction false} RunLengthStopsAt(s: string, i: nat, m: nat)
    requires i + m < |s| && s[i + m] == '<'
    requires forall k :: i <= k < i + m ==> s[k] != '<'
    ensures RunLength(s, i) == m
    decreases m
  {
    if m > 0 {
      RunLengthStopsAt(s, i + 1, m - 1);
    }
  }

  /** A match: where it starts and its group. */
  datatype Match = Match(start: nat, group: string)

  /** The text a match covers, which is what a `g`-flag match returns. */
  function MatchText(tag: string, m: Match): string {
    OpenTag(tag) + m.group + CloseTag(tag)
  }

  function MatchEnd(tag: string, m: Match): nat {
    m.start + |MatchText(tag, m)|
  }

  /** `s.match(/<tag>([^<]+)<\/tag>/)` searched from `from`: the leftmost match. */
  function FirstMatch(s: string, tag: string, from: nat): (r: Option<Match>)
    ensures r.Some? ==> from <= r.value.start && MatchAt(s, tag, r.value.start) == Some(r.value.group)
    ensures r.Some? ==> forall j :: from <= j < r.value.start ==> MatchAt(s, tag, j).None?
    ensures r.None? ==> forall j :: from <= j ==> MatchAt(s, tag, j).None?
    decreases |s| - from
  {
    if from > |s| then None
    else
      match MatchAt(s, tag, from)
      case Some(g) => Some(Match(from, g))
      case None => FirstMatch(s, tag, from + 1)
  }

  /** `s.match(/<tag>([^<]+)<\/tag>/g)` from `from`: each search resumes where the last match ended. */
  function AllMatches(s: string, tag: string, from: nat): (ms: seq<Match>)
    ensures ms == [] <==> FirstMatch(s, tag, from).None?
    ensures ms != [] ==> ms[0] == FirstMatch(s, tag, from).value
    ensures forall k :: 0 <= k < |ms| ==> from <= ms[k].start && MatchAt(s, tag, ms[k].start) == Some(ms[k].group)
    decreases |s| - from
  {
    match FirstMatch(s, tag, from)
    case None => []
    case Some(m) =>
      assert IsMatch(s, tag, m.start, m.group);
      [m] + AllMatches(s, tag, MatchEnd(tag, m))
  }

  /** One step of a `g`-flag search: after the first match, the search resumes at its end. */
  lemma AllMatchesStep(s: string, tag: string, from: nat)
    requires AllMatches(s, tag, from) != []
    ensures var ms := AllMatches(s, tag, from);
      && from < MatchEnd(tag, ms[0])
      && ms[1..] == AllMatches(s, tag, MatchEnd(tag, ms[0]))
  {
    var ms := AllMatches(s, tag, from);
    assert IsMatch(s, tag, ms[0].start, ms[0].group);
  }

  /** The matches of a `g`-flag search come in document order and do not overlap. */
  lemma {:induction false} AllMatchesOrdered(s: string, tag: string, from: nat)
    ensures var ms := AllMatches(s, tag, from);
      forall k :: 0 <= k < |ms| - 1 ==> MatchEnd(tag, ms[k]) <= ms[k + 1].start
    decreases |s| - from
  {
    var ms := AllMatches(s, tag, from);
    if ms != [] {
      AllMatchesStep(s, tag, from);
      var rest := ms[1..];
      AllMatchesOrdered(s, tag, MatchEnd(tag, ms[0]));
      forall k | 0 <= k < |ms| - 1
        ensures MatchEnd(tag, ms[k]) <= ms[k + 1].start
      {
        if k > 0 {
          assert ms[k] == rest[k - 1] && ms[k + 1] == rest[k];
        } else {
          assert ms[1] == rest[0];
        }
      }
    }
  }

  /** No match starts between two consecutive matches of a `g`-flag search, or after the last one. */
  lemma {:induction false} AllMatchesSkipNothing(s: string, tag: string, from: nat)
    ensures var ms := AllMatches(s, tag, from);
      && (forall k, j :: 0 <= k < |ms| - 1 && MatchEnd(tag, ms[k]) <= j < ms[k + 1].start ==> MatchAt(s, tag, j).None?)
      && (ms != [] ==> forall j :: MatchEnd(tag, ms[|ms| - 1]) <= j ==> MatchAt(s, tag, j).None?)
    decreases |s| - from
  {
    var ms := AllMatches(s, tag, from);
    if ms != [] {
      AllMatchesStep(s, tag, from);
      var next := MatchEnd(tag, ms[0]);
      var rest := ms[1..];
      AllMatchesSkipNothing(s, tag, next);
      forall k, j | 0 <= k < |ms| - 1 && MatchEnd(tag, ms[k]) <= j < ms[k + 1].start
        ensures MatchAt(s, tag, j).None?
      {
        if k > 0 {
          assert ms[k] == rest[k - 1] && ms[k + 1] == rest[k];
        } else {
          assert ms[1] == rest[0] == FirstMatch(s, tag, next).value;
        }
      }
      AllMatchesNoneAfterLast(s, tag, from);
    }
  }

  /** After the last match of a `g`-flag search no match starts. */
  lemma {:induction false} AllMatchesNoneAfterLast(s: string, tag: string, from: nat)
    requires AllMatches(s, tag, from) != []
    ensures var ms := AllMatches(s, tag, from);
      forall j :: MatchEnd(tag, ms[|ms| - 1]) <= j ==> MatchAt(s, tag, j).None?
    decreases |s| - from
  {
    var ms := AllMatches(s, tag, from);
    AllMatchesStep(s, tag, from);
    var next := MatchEnd(tag, ms[0]);
    var rest := ms[1..];
    if rest == [] {
      assert FirstMatch(s, tag, next).None?;
    } else {
      AllMatchesNoneAfterLast(s, tag, next);
      assert ms[|ms| - 1] == rest[|rest| - 1];
    }
  }

  /** `t.replace(/<\/?name>/g, '')`: every `<name>` and `</name>`, scanned left to right, goes. */
  function StripNameTags(t: string): (r: string)
    ensures |r| <= |t|
    decreases |t|
  {
    if HasPrefix(t, OpenTag(NameTag)) then StripNameTags(t[|OpenTag(NameTag)|..])
    else if HasPrefix(t, CloseTag(NameTag)) then StripNameTags(t[|CloseTag(NameTag)|..])
    else if t == [] then []
    else [t[0]] + StripNameTags(t[1..])
  }

  lemma {:induction false} StripBeforeCloseTag(g: string)
    requires NoAngle(g)
    ensures StripNameTags(g + CloseTag(NameTag)) == g
    decreases |g|
  {
    var t := g + CloseTag(NameTag);
    if g == [] {
      assert t == CloseTag(NameTag);
      assert t[1] != OpenTag(NameTag)[1];
      assert t[|CloseTag(NameTag)|..] == [];
    } else {
      assert t[0] == g[0] != '<' == OpenTag(NameTag)[0] == CloseTag(NameTag)[0];
      assert t[1..] == g[1..] + CloseTag(NameTag);
      StripBeforeCloseTag(g[1..]);
    }
  }

  /** Stripping the tags from a whole `<name>` match leaves exactly its group. */
  lemma StripNameMatch(g: string)
    requires NoAngle(g)
    ensures StripNameTags(MatchText(NameTag, Match(0, g))) == g
  {
    var t := MatchText(NameTag, Match(0, g));
    assert HasPrefix(t, OpenTag(NameTag));
    assert t[|OpenTag(NameTag)|..] == g + CloseTag(NameTag);
    StripBeforeCloseTag(g);
  }

  /** The author list of both getArxivInfo functions: every `<name>` match, tags stripped. */
  function AuthorNames(s: string): (authors: seq<string>)
    ensures |authors| == |AllMatches(s, NameTag, 0)|
    ensures forall k :: 0 <= k < |authors| ==> authors[k] == AllMatches(s, NameTag, 0)[k].group
  {
    var ms := AllMatches(s, NameTag, 0);
    assert forall k :: 0 <= k < |ms| ==> StripNameTags(MatchText(NameTag, ms[k])) == ms[k].group by {
      forall k | 0 <= k < |ms| {
        StripNameMatch(ms[k].group);
      }
    }
    seq(|ms|, k requires 0 <= k < |ms| => StripNameTags(MatchText(NameTag, ms[k])))
  }

  /** `g` is the group of the leftmost match of the pattern in `s`. */
  predicate IsFirstGroup(s: string, tag: string, g: string) {
    exists i :: 0 <= i <= |s| && MatchAt(s, tag, i) == Some(g) && forall j :: 0 <= j < i ==> MatchAt(s, tag, j).None?
  }

  /** `s.match(/<tag>([^<]+)<\/tag>/)[1]`, or `None` where the match is `null`. */
  function FirstGroup(s: string, tag: string): (g: Option<string>)
    ensures g.Some? ==> IsFirstGroup(s, tag, g.value) && |g.value| >= 1 && NoAngle(g.value)
    ensures g.None? ==> forall i :: 0 <= i ==> MatchAt(s, tag, i).None?
  {
    match FirstMatch(s, tag, 0)
    case None => None
    case Some(m) =>
      assert m.start <= |s| by {
        assert IsMatch(s, tag, m.start, m.group);
      }
      Some(m.group)
  }
}
