/** Splitting text at a delimiter byte, and joining it back. */
module Delimited {
  import opened Text

  /** `str::split`: always at least one part. */
  function Split(s: Bytes, sep: byte): (parts: seq<Bytes>)
    ensures parts != []
  {
    if s == [] then [[]]
    else
      var rest := Split(s[1..], sep);
      if s[0] == sep then [[]] + rest else [[s[0]] + rest[0]] + rest[1..]
  }

  /** `[_]::join`. */
  function Joined(parts: seq<Bytes>, sep: byte): Bytes {
    if parts == [] then []
    else if |parts| == 1 then parts[0]
    else parts[0] + [sep] + Joined(parts[1..], sep)
  }

  /** `str::split_once`: cut at the first delimiter. */
  function SplitOnce(s: Bytes, sep: byte): Option<(Bytes, Bytes)> {
    if s == [] then None
    else if s[0] == sep then Some(([], s[1..]))
    else
      match SplitOnce(s[1..], sep)
      case Some((before, after)) => Some(([s[0]] + before, after))
      case None => None
  }

  lemma {:induction false} SplitOnceAtFirst(a: Bytes, b: Bytes, sep: byte)
    requires Free(a, sep)
    ensures SplitOnce(a + [sep] + b, sep) == Some((a, b))
  {
    var s := a + [sep] + b;
    if a == [] {
      assert s[1..] == b;
    } else {
      SplitOnceAtFirst(a[1..], b, sep);
      assert s[1..] == a[1..] + [sep] + b;
      assert a == [a[0]] + a[1..];
    }
  }

  /** Two texts with the same delimiter-free head and tail are cut in the same place. */
  lemma CutUnique(a: Bytes, b: Bytes, c: Bytes, d: Bytes, sep: byte)
    requires Free(a, sep) && Free(c, sep)
    requires a + [sep] + b == c + [sep] + d
    ensures a == c && b == d
  {
    SplitOnceAtFirst(a, b, sep);
    SplitOnceAtFirst(c, d, sep);
  }

  lemma {:induction false} SplitAtFirst(a: Bytes, rest: Bytes, sep: byte)
    requires Free(a, sep)
    ensures Split(a + [sep] + rest, sep) == [a] + Split(rest, sep)
  {
    var s := a + [sep] + rest;
    if a == [] {
      assert s[1..] == rest;
    } else {
      SplitAtFirst(a[1..], rest, sep);
      assert s[1..] == a[1..] + [sep] + rest;
      assert a == [a[0]] + a[1..];
    }
  }

  lemma {:induction false} SplitOfFree(s: Bytes, sep: byte)
    requires Free(s, sep)
    ensures Split(s, sep) == [s]
  {
    if s != [] {
      SplitOfFree(s[1..], sep);
      assert s == [s[0]] + s[1..];
    }
  }

  /** Splitting undoes joining when no part holds the delimiter. */
  lemma {:induction false} SplitJoined(parts: seq<Bytes>, sep: byte)
    requires parts != [] && forall i :: 0 <= i < |parts| ==> Free(parts[i], sep)
    ensures Split(Joined(parts, sep), sep) == parts
  {
    if |parts| == 1 {
      SplitOfFree(parts[0], sep);
    } else {
      SplitJoined(parts[1..], sep);
      SplitAtFirst(parts[0], Joined(parts[1..], sep), sep);
      assert parts == [parts[0]] + parts[1..];
    }
  }

  /** Joining undoes splitting, and no part holds the delimiter. */
  lemma {:induction false} JoinedSplit(s: Bytes, sep: byte)
    ensures Joined(Split(s, sep), sep) == s
    ensures forall i :: 0 <= i < |Split(s, sep)| ==> Free(Split(s, sep)[i], sep)
    ensures |Split(s, sep)| == 1 <==> Free(s, sep)
  {
    if s != [] {
      var c, rest := s[0], Split(s[1..], sep);
      JoinedSplit(s[1..], sep);
      assert s == [c] + s[1..];
      if c == sep {
        assert ([[]] + rest)[1..] == rest;
      } else {
        var grown := [[c] + rest[0]] + rest[1..];
        assert grown[1..] == rest[1..];
        if |rest| > 1 {
          Reassociate([c], rest[0], [sep] + Joined(rest[1..], sep));
          Reassociate(rest[0], [sep], Joined(rest[1..], sep));
          Reassociate([c] + rest[0], [sep], Joined(rest[1..], sep));
        }
      }
    }
  }
}
