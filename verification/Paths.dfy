/** Route paths as the adapters see them: strings cut at slashes. */
module Paths {

  type Segment = string

  function Min(a: nat, b: nat): nat {
    if a < b then a else b
  }

  function TrimLeft(s: string): string {
    if s != "" && s[0] == '/' then TrimLeft(s[1..]) else s
  }

  function TrimRight(s: string): string {
    if s != "" && s[|s| - 1] == '/' then TrimRight(s[..|s| - 1]) else s
  }

  /** strings.Trim(s, "/") */
  function Trim(s: string): string {
    TrimRight(TrimLeft(s))
  }

  lemma {:induction false} TrimLeftEnds(s: string)
    ensures TrimLeft(s) == "" || TrimLeft(s)[0] != '/'
  {
    if s != "" && s[0] == '/' {
      TrimLeftEnds(s[1..]);
    }
  }

  lemma {:induction false} TrimRightEnds(s: string)
    ensures TrimRight(s) <= s && (TrimRight(s) == "" || TrimRight(s)[|TrimRight(s)| - 1] != '/')
  {
    if s != "" && s[|s| - 1] == '/' {
      TrimRightEnds(s[..|s| - 1]);
    }
  }

  predicate SlashFree(parts: seq<Segment>) {
    forall k :: 0 <= k < |parts| ==> '/' !in parts[k]
  }

  /** strings.Split(s, "/"), which yields one empty part for the empty string. */
  function Split(s: string): (parts: seq<Segment>)
    ensures |parts| >= 1
  {
    if s == "" then [""]
    else
      var rest := Split(s[1..]);
      if s[0] == '/' then [""] + rest else [[s[0]] + rest[0]] + rest[1..]
  }

  /** strings.Join(parts, "/") */
  function Join(parts: seq<Segment>): string
    requires |parts| >= 1
  {
    if |parts| == 1 then parts[0] else parts[0] + "/" + Join(parts[1..])
  }

  lemma {:induction false} PartsOfSplit(s: string)
    ensures SlashFree(Split(s))
    ensures s != "" && s[0] != '/' ==> Split(s)[0] != ""
  {
    if s != "" {
      PartsOfSplit(s[1..]);
    }
  }

  lemma {:induction false} SplitOfPrefix(p: Segment, s: string)
    requires '/' !in p
    ensures Split(p + "/" + s) == [p] + Split(s)
  {
    var whole := p + "/" + s;
    if p == "" {
      assert whole[1..] == s;
    } else {
      assert whole[1..] == p[1..] + "/" + s;
      SplitOfPrefix(p[1..], s);
      assert [p[0]] + p[1..] == p;
    }
  }

  lemma {:induction false} SplitOfOnePart(p: Segment)
    requires '/' !in p
    ensures Split(p) == [p]
  {
    if p != "" {
      SplitOfOnePart(p[1..]);
      assert [p[0]] + p[1..] == p;
    }
  }

  /** Cutting a joined list of slash-free parts gives the parts back. */
  lemma {:induction false} SplitJoin(parts: seq<Segment>)
    requires |parts| >= 1 && SlashFree(parts)
    ensures Split(Join(parts)) == parts
  {
    if |parts| == 1 {
      SplitOfOnePart(parts[0]);
    } else {
      SplitOfPrefix(parts[0], Join(parts[1..]));
      SplitJoin(parts[1..]);
    }
  }

  /** Joining what was cut gives the string back. */
  lemma {:induction false} JoinSplit(s: string)
    ensures Join(Split(s)) == s
  {
    if s != "" {
      var rest := Split(s[1..]);
      JoinSplit(s[1..]);
      if s[0] == '/' {
        assert ([""] + rest)[1..] == rest;
      } else if |rest| > 1 {
        assert ([[s[0]] + rest[0]] + rest[1..])[1..] == rest[1..];
      }
    }
  }

  lemma {:induction false} LastPartOfSplit(s: string)
    requires s != "" && s[|s| - 1] != '/'
    ensures var parts := Split(s); parts[|parts| - 1] != ""
  {
    if |s| > 1 {
      LastPartOfSplit(s[1..]);
    }
  }

  lemma {:induction false} EndsOfJoin(parts: seq<Segment>)
    requires |parts| >= 1 && SlashFree(parts)
    requires parts[0] != "" && parts[|parts| - 1] != ""
    ensures var s := Join(parts); s != "" && s[0] == parts[0][0] && s[|s| - 1] != '/'
  {
    if |parts| > 1 {
      JoinEndsWithLast(parts[1..]);
    }
  }

  lemma {:induction false} JoinEndsWithLast(parts: seq<Segment>)
    requires |parts| >= 1 && SlashFree(parts) && parts[|parts| - 1] != ""
    ensures var s := Join(parts); s != "" && s[|s| - 1] != '/'
  {
    if |parts| > 1 {
      JoinEndsWithLast(parts[1..]);
    }
  }

  /** The segments a request or pattern must have: none, or a list with non-empty ends. */
  predicate Trimmed(parts: seq<Segment>) {
    SlashFree(parts) && (parts == [] || (parts[0] != "" && parts[|parts| - 1] != ""))
  }

  /** splitPathSegments: the root path has no segments at all. */
  function SplitPathSegments(path: string): seq<Segment> {
    if Trim(path) == "" then [] else Split(Trim(path))
  }

  lemma SegmentsAreTrimmed(path: string)
    ensures Trimmed(SplitPathSegments(path))
  {
    var trimmed := Trim(path);
    TrimLeftEnds(path);
    TrimRightEnds(TrimLeft(path));
    if trimmed != "" {
      PartsOfSplit(trimmed);
      LastPartOfSplit(trimmed);
    }
  }

  lemma {:induction false} TrimLeftBeforeSlash(s: string)
    requires s != "" && s[|s| - 1] != '/'
    ensures TrimLeft(s) != "" && TrimLeft(s)[|TrimLeft(s)| - 1] != '/'
    ensures TrimLeft(s + "/") == TrimLeft(s) + "/"
  {
    if s[0] == '/' {
      TrimLeftBeforeSlash(s[1..]);
      assert (s + "/")[1..] == s[1..] + "/";
    }
  }

  /** A slash at the end adds no segment. */
  lemma TrailingSlashAddsNothing(s: string)
    requires s != "" && s[|s| - 1] != '/'
    ensures SplitPathSegments(s + "/") == SplitPathSegments(s)
  {
    TrimLeftBeforeSlash(s);
    var trimmed := TrimLeft(s);
    assert (trimmed + "/")[..|trimmed|] == trimmed;
    assert TrimRight(trimmed) == trimmed == TrimRight(trimmed + "/");
  }

  /** The parts pathMatchesPattern works on: the root path has one empty part. */
  function RequestParts(path: string): (parts: seq<Segment>)
    ensures parts == if SplitPathSegments(path) == [] then [""] else SplitPathSegments(path)
  {
    Split(Trim(path))
  }

  /** Every trimmed list of segments is the segment list of some path. */
  lemma PathOfSegments(parts: seq<Segment>)
    requires Trimmed(parts) && parts != []
    ensures SplitPathSegments(Join(parts)) == parts
  {
    var s := Join(parts);
    EndsOfJoin(parts);
    assert TrimLeft(s) == s;
    assert TrimRight(s) == s;
    SplitJoin(parts);
  }

  lemma RootedPathOfOne(s: Segment, path: string)
    requires '/' !in s && s != "" && path == "/" + s
    ensures SplitPathSegments(path) == [s]
  {
    assert path[1..] == s;
    assert TrimLeft(path) == s && TrimRight(s) == s;
    SplitOfOnePart(s);
  }

  lemma RootedPathOfTwo(s: Segment, t: Segment, path: string)
    requires '/' !in s && s != "" && '/' !in t && t != "" && path == "/" + s + "/" + t
    ensures SplitPathSegments(path) == [s, t]
  {
    var trimmed := s + "/" + t;
    assert path[1..] == trimmed;
    assert TrimLeft(path) == trimmed && TrimRight(trimmed) == trimmed;
    SplitOfPrefix(s, t);
    SplitOfOnePart(t);
  }
}
