/** The lint that flags a bare :id parameter beside a static sibling. */
module RouteLints {
  import opened Paths
  import opened Patterns
  import opened Wrappers
  import opened QueryEscaping

  /** A parameter segment taken apart: its name and the constraint in angle brackets. */
  datatype Parameter = Parameter(name: string, constraint: string)

  /** parseParamSegment */
  function ParseParamSegment(segment: Segment): Option<Parameter> {
    if segment == "" || segment[0] != ':' || |segment| == 1 then None
    else
      var raw := segment[1..];
      var open := FirstIndex(raw, '<');
      if open < |raw| && raw[|raw| - 1] == '>' then Some(Parameter(raw[..open], raw[open + 1..|raw| - 1]))
      else Some(Parameter(raw, ""))
  }

  predicate IsBareId(segment: Segment) {
    ParseParamSegment(segment) == Some(Parameter("id", ""))
  }

  /** Only two spellings are bare ids: without a constraint, and with an empty one. */
  lemma BareIdSpellings(segment: Segment, plain: Segment, empty: Segment)
    requires plain == ":id" && empty == ":id<>"
    ensures IsBareId(segment) <==> segment == plain || segment == empty
  {
    assert plain[1..] == "id" && empty[1..] == "id<>";
    assert FirstIndex("id<>", '<') == 2 by {
      FirstIndexIsPrefix("id", ">", '<');
      assert "id" + ['<'] + ">" == "id<>";
    }
    assert "id<>"[..2] == "id" && "id<>"[3..3] == "";
    if IsBareId(segment) {
      var raw := segment[1..];
      var open := FirstIndex(raw, '<');
      assert segment == [':'] + raw;
      if open < |raw| && raw[|raw| - 1] == '>' {
        assert raw == raw[..open] + [raw[open]] + raw[open + 1..|raw| - 1] + [raw[|raw| - 1]];
        assert raw == "id" + ['<'] + "" + ['>'];
      }
    }
  }

  predicate FlagsAt(parameter: seq<Segment>, sibling: seq<Segment>, i: nat)
    requires i < |parameter| && i < |sibling|
  {
    IsBareId(parameter[i]) && ClassifySegment(sibling[i]) == Static
  }

  predicate EqualElsewhere(p: seq<Segment>, s: seq<Segment>, i: nat)
    requires |p| == |s|
  {
    forall k :: 0 <= k < |p| && k != i ==> p[k] == s[k]
  }

  /** Two paths of one length that differ in one segment only, a bare id on the one side and
      a static segment on the other. */
  predicate IsLinted(parameter: string, sibling: string) {
    var p, s := SplitPathSegments(parameter), SplitPathSegments(sibling);
    && |p| == |s|
    && exists i :: 0 <= i < |p| && FlagsAt(p, s, i) && EqualElsewhere(p, s, i)
  }

  /** detectBareIDParamLint, for two routes of one method: the first flagged segment decides. */
  method DetectBareIdLint(parameter: string, sibling: string) returns (linted: bool)
    ensures linted == IsLinted(parameter, sibling)
  {
    var p, s := SplitPathSegments(parameter), SplitPathSegments(sibling);
    if |p| != |s| {
      return false;
    }
    hide IsBareId, SplitPathSegments;
    for i := 0 to |p|
      invariant forall k :: 0 <= k < i ==> !FlagsAt(p, s, k)
    {
      if IsBareId(p[i]) && ClassifySegment(s[i]) == Static {
        linted := AgreeElsewhere(p, s, i);
        FlaggedDiffers(p, s, i);
        assert forall m: nat :: m < |p| && EqualElsewhere(p, s, m) ==> m == i;
        return;
      }
    }
    linted := false;
  }

  /** What is linted, by the characters of the segments. */
  lemma LintedExactly(parameter: string, sibling: string, plain: Segment, empty: Segment)
    requires plain == ":id" && empty == ":id<>"
    ensures var p, s := SplitPathSegments(parameter), SplitPathSegments(sibling);
      IsLinted(parameter, sibling) <==>
        && |p| == |s|
        && exists i :: 0 <= i < |p| && (p[i] == plain || p[i] == empty) && (s[i] == "" || s[i][0] !in ":*")
             && forall k :: 0 <= k < |p| && k != i ==> p[k] == s[k]
  {
    var p, s := SplitPathSegments(parameter), SplitPathSegments(sibling);
    forall i | 0 <= i < |p| && |p| == |s|
      ensures FlagsAt(p, s, i) <==> (p[i] == plain || p[i] == empty) && (s[i] == "" || s[i][0] !in ":*")
    {
      BareIdSpellings(p[i], plain, empty);
    }
    hide SplitPathSegments, FlagsAt;
    if i :| 0 <= i < |p| && |p| == |s| && FlagsAt(p, s, i) && EqualElsewhere(p, s, i) {
      assert p[i] == plain || p[i] == empty;
    }
    if i :| 0 <= i < |p| && |p| == |s| && (p[i] == plain || p[i] == empty) && (s[i] == "" || s[i][0] !in ":*")
            && forall k :: 0 <= k < |p| && k != i ==> p[k] == s[k]
    {
      assert FlagsAt(p, s, i) && EqualElsewhere(p, s, i);
    }
  }

  method AgreeElsewhere(p: seq<Segment>, s: seq<Segment>, i: nat) returns (agree: bool)
    requires |p| == |s| && i < |p|
    ensures agree == EqualElsewhere(p, s, i)
  {
    for k := 0 to |p|
      invariant forall m :: 0 <= m < k && m != i ==> p[m] == s[m]
    {
      if k != i && p[k] != s[k] {
        return false;
      }
    }
    agree := true;
  }

  /** A flagged segment differs from its sibling, so no other one can be the only difference. */
  lemma FlaggedDiffers(p: seq<Segment>, s: seq<Segment>, i: nat)
    requires i < |p| && i < |s| && FlagsAt(p, s, i)
    ensures p[i] != s[i] && ClassifySegment(p[i]) == Param
  {
  }

  /** A linted pair is a route that contains its static sibling. */
  lemma LintedContains(parameter: string, sibling: string)
    requires IsLinted(parameter, sibling)
    ensures Contains(parameter, sibling)
  {
    ContainsMeaning(parameter, sibling);
    var p, s := SplitPathSegments(parameter), SplitPathSegments(sibling);
    hide SplitPathSegments, IsBareId;
    var i :| 0 <= i < |p| && FlagsAt(p, s, i) && EqualElsewhere(p, s, i);
    FlaggedDiffers(p, s, i);
  }
}
