/** Tokenized type text, with the spaces around punctuation dropped. */
module TypeText {
  import opened Text

  /** Punctuation that spaces do not survive next to: `<>,&()[]:;`. */
  predicate Tight(c: char) {
    c in {'<', '>', ',', '&', '(', ')', '[', ']', ':', ';'}
  }

  lemma TightIs(c: char)
    ensures Tight(c) <==> c in "<>,&()[]:;"
  {
  }

  /** The first character of `s` that is not a space is tight. */
  predicate StartsTight(s: string) {
    s != [] && if s[0] == ' ' then StartsTight(s[1..]) else Tight(s[0])
  }

  /** The last character of `s` that is not a space is tight; `before` stands in when all are. */
  predicate EndsTight(s: string, before: bool) {
    if s == [] then before
    else if s[|s| - 1] == ' ' then EndsTight(s[..|s| - 1], before)
    else Tight(s[|s| - 1])
  }

  /** `s` without the spaces whose nearest character to either side is tight; `before` says whether
      the nearest one to the left of `s` is. */
  function Tightened(s: string, before: bool): string {
    if s == [] then []
    else if s[0] != ' ' then [s[0]] + Tightened(s[1..], Tight(s[0]))
    else if before || StartsTight(s[1..]) then Tightened(s[1..], before)
    else [' '] + Tightened(s[1..], before)
  }

  function Normalized(raw: string): string {
    Tightened(raw, false)
  }

  predicate LastIsTight(out: string) {
    out != [] && Tight(out[|out| - 1])
  }

  method NormalizeType(raw: string) returns (out: string)
    ensures out == Normalized(raw)
  {
    out := [];
    ghost var before := false;
    assert raw[0..] == raw;
    for index := 0 to |raw|
      invariant before == LastIsTight(out)
      invariant Normalized(raw) == out + Tightened(raw[index..], before)
    {
      var c := raw[index];
      ghost var rest := raw[index + 1..];
      assert raw[index..][1..] == rest;
      if c == ' ' {
        var previousTight := LastIsTight(out);
        var nextTight := NextIsTight(raw, index + 1);
        if previousTight || nextTight {
          continue;
        }
      }
      before := if c == ' ' then before else Tight(c);
      Reassociate(out, [c], Tightened(rest, before));
      out := out + [c];
    }
  }

  /** Look ahead to the first character that is not a space. */
  method NextIsTight(raw: string, start: nat) returns (tight: bool)
    requires start <= |raw|
    ensures tight == StartsTight(raw[start..])
  {
    var i := start;
    while i < |raw| && raw[i] == ' '
      invariant start <= i <= |raw|
      invariant StartsTight(raw[start..]) == StartsTight(raw[i..])
    {
      assert raw[i..][1..] == raw[i + 1..];
      i := i + 1;
    }
    return i < |raw| && Tight(raw[i]);
  }

  // ---------- Only spaces go ----------

  function WithoutSpaces(s: string): string {
    if s == [] then [] else if s[0] == ' ' then WithoutSpaces(s[1..]) else [s[0]] + WithoutSpaces(s[1..])
  }

  lemma {:induction false} OnlySpacesGo(s: string, before: bool)
    ensures WithoutSpaces(Tightened(s, before)) == WithoutSpaces(s)
  {
    if s != [] {
      if s[0] != ' ' {
        OnlySpacesGo(s[1..], Tight(s[0]));
      } else {
        OnlySpacesGo(s[1..], before);
      }
    }
  }

  // ---------- What normalizing identifies ----------

  /** `b` is `a` with one space put in next to punctuation. */
  ghost predicate AddsSpaceAt(a: string, b: string, i: int) {
    && 0 <= i <= |a|
    && b == a[..i] + [' '] + a[i..]
    && (EndsTight(a[..i], false) || StartsTight(a[i..]))
  }

  /** The two texts differ by one space next to punctuation. */
  ghost predicate Adjacent(a: string, b: string) {
    exists i :: AddsSpaceAt(a, b, i) || AddsSpaceAt(b, a, i)
  }

  /** A way from one text to the other by such spaces, put in or taken out. */
  ghost predicate IsWay(way: seq<string>, a: string, b: string) {
    && way != [] && way[0] == a && way[|way| - 1] == b
    && forall i :: 0 <= i < |way| - 1 ==> Adjacent(way[i], way[i + 1])
  }

  /** The texts differ only in spaces next to punctuation. */
  ghost predicate DifferInTightSpaces(a: string, b: string) {
    exists way :: IsWay(way, a, b)
  }

  lemma {:induction false} SpaceInsideIsSkipped(u: string, v: string)
    ensures StartsTight(u + [' '] + v) == StartsTight(u + v)
  {
    var longer := u + [' '] + v;
    if u == [] {
      assert longer[1..] == v && u + v == v;
    } else if u[0] == ' ' {
      SpaceInsideIsSkipped(u[1..], v);
      assert longer[1..] == u[1..] + [' '] + v && (u + v)[1..] == u[1..] + v;
    }
  }

  /** The nearest character to the left, with the first one split off. */
  lemma {:induction false} EndsTightCons(c: char, u: string, before: bool)
    ensures EndsTight([c] + u, before) == EndsTight(u, if c == ' ' then before else Tight(c))
  {
    var s := [c] + u;
    if u == [] {
      assert s[..0] == [];
    } else {
      assert s[|s| - 1] == u[|u| - 1] && s[..|s| - 1] == [c] + u[..|u| - 1];
      EndsTightCons(c, u[..|u| - 1], before);
    }
  }

  /** A space next to punctuation makes no difference. */
  lemma {:induction false} TightSpaceIsDropped(u: string, v: string, before: bool)
    requires EndsTight(u, before) || StartsTight(v)
    ensures Tightened(u + [' '] + v, before) == Tightened(u + v, before)
  {
    var longer, shorter := u + [' '] + v, u + v;
    if u == [] {
      assert longer[1..] == v && shorter == v;
    } else {
      var c, rest := u[0], u[1..];
      assert u == [c] + rest;
      EndsTightCons(c, rest, before);
      assert longer[0] == c && longer[1..] == rest + [' '] + v;
      assert shorter[0] == c && shorter[1..] == rest + v;
      SpaceInsideIsSkipped(rest, v);
      TightSpaceIsDropped(rest, v, if c == ' ' then before else Tight(c));
    }
  }

  lemma AddedSpaceNormalizesAlike(a: string, b: string, i: int)
    requires AddsSpaceAt(a, b, i)
    ensures Normalized(a) == Normalized(b)
  {
    TightSpaceIsDropped(a[..i], a[i..], false);
    assert a[..i] + a[i..] == a;
  }

  lemma AdjacentNormalizeAlike(a: string, b: string)
    requires Adjacent(a, b)
    ensures Normalized(a) == Normalized(b)
  {
    hide AddsSpaceAt, Normalized;
    var i :| AddsSpaceAt(a, b, i) || AddsSpaceAt(b, a, i);
    if AddsSpaceAt(a, b, i) {
      AddedSpaceNormalizesAlike(a, b, i);
    } else {
      AddedSpaceNormalizesAlike(b, a, i);
    }
  }

  lemma {:induction false} WayNormalizesAlike(way: seq<string>, a: string, b: string)
    requires IsWay(way, a, b)
    ensures Normalized(a) == Normalized(b)
    decreases |way|
  {
    if |way| > 1 {
      assert Adjacent(way[0], way[0 + 1]);
      AdjacentNormalizeAlike(way[0], way[1]);
      var rest := way[1..];
      forall i | 0 <= i < |rest| - 1
        ensures Adjacent(rest[i], rest[i + 1])
      {
        assert Adjacent(way[i + 1], way[i + 1 + 1]);
      }
      WayNormalizesAlike(rest, way[1], b);
    }
  }

  /** Text that normalizing changes has a space it drops. */
  lemma {:induction false} DroppedSpaceExists(s: string, before: bool) returns (i: nat)
    requires Tightened(s, before) != s
    ensures i < |s| && s[i] == ' '
    ensures EndsTight(s[..i], before) || StartsTight(s[i + 1..])
  {
    assert s == [s[0]] + s[1..];
    if s[0] == ' ' && (before || StartsTight(s[1..])) {
      i := 0;
    } else {
      var inner := if s[0] == ' ' then before else Tight(s[0]);
      var j := DroppedSpaceExists(s[1..], inner);
      i := j + 1;
      assert s[..i] == [s[0]] + s[1..][..j] && s[i + 1..] == s[1..][j + 1..];
      EndsTightCons(s[0], s[1..][..j], before);
    }
  }

  /** Every text leads to its normal form. */
  lemma {:induction false} LeadsToNormalForm(s: string) returns (way: seq<string>)
    ensures IsWay(way, s, Normalized(s))
    decreases |s|
  {
    if Normalized(s) == s {
      way := [s];
    } else {
      var i := DroppedSpaceExists(s, false);
      var t := s[..i] + s[i + 1..];
      assert t[..i] == s[..i] && t[i..] == s[i + 1..];
      assert s == t[..i] + [' '] + t[i..];
      assert AddsSpaceAt(t, s, i);
      assert Adjacent(s, t);
      AdjacentNormalizeAlike(s, t);
      var rest := LeadsToNormalForm(t);
      way := [s] + rest;
      forall k | 0 <= k < |way| - 1
        ensures Adjacent(way[k], way[k + 1])
      {
        if k > 0 {
          assert Adjacent(rest[k - 1], rest[k - 1 + 1]);
        }
      }
    }
  }

  lemma {:induction false} AdjacentIsSymmetric(a: string, b: string)
    ensures Adjacent(a, b) ==> Adjacent(b, a)
  {
    if i :| AddsSpaceAt(a, b, i) || AddsSpaceAt(b, a, i) {
      assert AddsSpaceAt(b, a, i) || AddsSpaceAt(a, b, i);
    }
  }

  /** Two ways that end together make one way. */
  lemma MeetingWaysJoin(p: seq<string>, a: string, q: seq<string>, b: string, meet: string) returns (way: seq<string>)
    requires IsWay(p, a, meet) && IsWay(q, b, meet)
    ensures IsWay(way, a, b)
  {
    var back := seq(|q|, i requires 0 <= i < |q| => q[|q| - 1 - i]);
    way := p + back[1..];
    assert way[|p| - 1] == meet == back[0];
    assert forall k :: 0 <= k < |back| ==> way[|p| - 1 + k] == back[k];
    forall k | 0 <= k < |way| - 1
      ensures Adjacent(way[k], way[k + 1])
    {
      if k < |p| - 1 {
        assert Adjacent(p[k], p[k + 1]);
      } else {
        var j := k - (|p| - 1);
        assert way[k] == back[j] && way[k + 1] == back[j + 1];
        var m := |q| - 2 - j;
        assert Adjacent(q[m], q[m + 1]);
        AdjacentIsSymmetric(q[m], q[m + 1]);
      }
    }
  }

  /** Two texts normalize alike exactly when they differ only in spaces next to punctuation. */
  lemma NormalFormDecides(a: string, b: string)
    ensures Normalized(a) == Normalized(b) <==> DifferInTightSpaces(a, b)
  {
    if Normalized(a) == Normalized(b) {
      var p := LeadsToNormalForm(a);
      var q := LeadsToNormalForm(b);
      var way := MeetingWaysJoin(p, a, q, b, Normalized(a));
    }
    if way :| IsWay(way, a, b) {
      WayNormalizesAlike(way, a, b);
    }
  }

  /** Normalizing a second time changes nothing. */
  lemma NormalizedIsFixed(s: string)
    ensures Normalized(Normalized(s)) == Normalized(s)
  {
    var way := LeadsToNormalForm(s);
    WayNormalizesAlike(way, s, Normalized(s));
  }
}
