/** How a cache repository turns a context and a user key into one stored key. */
module CacheKeys {
  import opened Text
  import opened Ordering
  import opened Delimited
  import opened Percent

  /** The entries of a context map, in whatever order the map yields them: two of them are the same
      map when they have the same entries. */
  type Context = seq<Pair>

  /** What a map of text to text yields. */
  ghost predicate IsMap(context: Context) {
    DistinctNames(context) && IsText(context)
  }

  datatype Repository = Repository(prefix: Bytes, context: Option<Bytes>)

  function EncodedValues(context: Context): (pairs: seq<Pair>)
    ensures |pairs| == |context|
  {
    if context == [] then [] else [(context[0].0, Encoded(context[0].1))] + EncodedValues(context[1..])
  }

  function Part(p: Pair): Bytes {
    p.0 + ([EQUALS] + p.1)
  }

  function Parts(pairs: seq<Pair>): (parts: seq<Bytes>)
    ensures |parts| == |pairs|
    ensures forall i :: 0 <= i < |pairs| ==> parts[i] == Part(pairs[i])
  {
    if pairs == [] then [] else [Part(pairs[0])] + Parts(pairs[1..])
  }

  /** The segment of one context: values encoded, pairs sorted, `key=value` joined by `&`. */
  function Segment(context: Context): Bytes {
    Joined(Parts(Sorted(PairLe, EncodedValues(context))), AMPERSAND)
  }

  function WithContext(r: Repository, context: Context): Repository {
    var segment := Segment(context);
    match r.context
    case Some(base) => r.(context := Some(if base != [] then base + ([COLON] + segment) else segment))
    case None => r.(context := Some(segment))
  }

  /** The stored key. */
  function StoredKey(r: Repository, key: Bytes): Bytes {
    match r.context
    case Some(context) => r.prefix + (context + ([COLON] + key))
    case None => r.prefix + key
  }

  /** A repository with contexts applied one after another. */
  function Scoped(prefix: Bytes, contexts: seq<Context>): Repository {
    if contexts == [] then Repository(prefix, None)
    else WithContext(Scoped(prefix, contexts[..|contexts| - 1]), contexts[|contexts| - 1])
  }

  // ---------- Encoding the values ----------

  lemma CountCons(first: Pair, rest: seq<Pair>, p: Pair)
    ensures multiset([first] + rest)[p] == multiset(rest)[p] + if first == p then 1 else 0
  {
  }

  lemma {:induction false} EncodedValuesCount(context: Context, p: Pair)
    ensures multiset(EncodedValues(context))[(p.0, Encoded(p.1))] == multiset(context)[p]
  {
    if context != [] {
      hide Encoded;
      var head, q := (context[0].0, Encoded(context[0].1)), (p.0, Encoded(p.1));
      assert context == [context[0]] + context[1..];
      assert EncodedValues(context) == [head] + EncodedValues(context[1..]);
      hide EncodedValues;
      EncodedValuesCount(context[1..], p);
      if head == q {
        EncodedInjective(context[0].1, p.1);
      }
      assert head == q <==> context[0] == p;
      CountCons(context[0], context[1..], p);
      CountCons(head, EncodedValues(context[1..]), q);
    }
  }

  lemma {:induction false} EncodedValuesForm(context: Context)
    ensures forall i :: 0 <= i < |context| ==>
      EncodedValues(context)[i] == (context[i].0, Encoded(context[i].1))
  {
    if context != [] {
      EncodedValuesForm(context[1..]);
    }
  }

  /** Encoding the values loses nothing of the map. */
  lemma {:induction false} EncodedValuesDetermine(a: Context, b: Context)
    requires multiset(EncodedValues(a)) == multiset(EncodedValues(b))
    ensures multiset(a) == multiset(b)
  {
    forall p
      ensures multiset(a)[p] == multiset(b)[p]
    {
      EncodedValuesCount(a, p);
      EncodedValuesCount(b, p);
    }
  }

  lemma EncodedValuesSame(a: Context, b: Context)
    requires multiset(a) == multiset(b)
    ensures multiset(EncodedValues(a)) == multiset(EncodedValues(b))
  {
    forall q
      ensures multiset(EncodedValues(a))[q] == multiset(EncodedValues(b))[q]
    {
      if q in EncodedValues(a) {
        CountsAgreeAt(a, b, q);
      } else if q in EncodedValues(b) {
        CountsAgreeAt(b, a, q);
      }
    }
  }

  lemma CountsAgreeAt(a: Context, b: Context, q: Pair)
    requires multiset(a) == multiset(b) && q in EncodedValues(a)
    ensures multiset(EncodedValues(a))[q] == multiset(EncodedValues(b))[q]
  {
    EncodedValuesForm(a);
    var i :| 0 <= i < |a| && EncodedValues(a)[i] == q;
    EncodedValuesCount(a, a[i]);
    EncodedValuesCount(b, a[i]);
  }

  lemma SortedLength(pairs: seq<Pair>)
    ensures |Sorted(PairLe, pairs)| == |pairs|
  {
    PairIsTotalOrder();
    SortedIsSorted(PairLe, pairs);
    assert |multiset(Sorted(PairLe, pairs))| == |Sorted(PairLe, pairs)| && |multiset(pairs)| == |pairs|;
  }

  // ---------- Reading a segment back ----------

  predicate LexLess(a: Bytes, b: Bytes) {
    LexLe(a, b) && a != b
  }

  lemma LessThenLe(a: Bytes, b: Bytes, c: Bytes)
    requires (LexLess(a, b) && LexLe(b, c)) || (LexLe(a, b) && LexLess(b, c))
    ensures LexLess(a, c)
  {
    LexIsTotalOrder();
  }

  lemma NotLessIsLe(a: Bytes, b: Bytes)
    requires !LexLess(a, b)
    ensures LexLe(b, a)
  {
    LexIsTotalOrder();
  }

  lemma {:induction false} PrefixIsLe(a: Bytes, b: Bytes)
    requires a <= b
    ensures LexLe(a, b)
  {
    if a != [] {
      PrefixIsLe(a[1..], b[1..]);
    }
  }

  /** The text is what some value is encoded as. */
  predicate ReadsBack(e: Bytes) {
    match Decoded(e)
    case Ok(value) => Encoded(value) == e
    case Err(_) => false
  }

  lemma ReadsBackFree(e: Bytes)
    requires ReadsBack(e)
    ensures Free(e, AMPERSAND) && Free(e, EQUALS) && Free(e, COLON)
  {
    EncodedAlphabet(Decoded(e).value);
  }

  /** Read as two entries, the key would be cut here: a name, `=`, an encoded value, `&`, and another
      name that sorts after the first. */
  predicate CutsAt(key: Bytes, i: int, j: int) {
    && 0 <= i < j < |key| && key[i] == EQUALS && key[j] == AMPERSAND
    && ReadsBack(key[i + 1..j]) && LexLess(key[..i], key[j + 1..])
  }

  predicate Ambiguous(key: Bytes) {
    exists i, j :: 0 <= i < |key| && 0 <= j < |key| && CutsAt(key, i, j)
  }

  lemma AmbiguousBy(key: Bytes, name: Bytes, value: Bytes, rest: Bytes)
    requires key == Part((name, value)) + ([AMPERSAND] + rest) && ReadsBack(value) && LexLess(name, rest)
    ensures Ambiguous(key)
  {
    hide ReadsBack, LexLess;
    var i, j := |name|, |name| + 1 + |value|;
    assert key[..i] == name && key[i] == EQUALS && key[i + 1..j] == value && key[j] == AMPERSAND && key[j + 1..] == rest;
    assert CutsAt(key, i, j);
  }

  /** Pairs as a sorted map has them: names ascend strictly, values are encoded. */
  ghost predicate Arranged(ps: seq<Pair>) {
    && (forall i, j :: 0 <= i < j < |ps| ==> LexLess(ps[i].0, ps[j].0))
    && (forall i :: 0 <= i < |ps| ==> ReadsBack(ps[i].1))
  }

  lemma ArrangedTail(ps: seq<Pair>)
    requires Arranged(ps) && ps != []
    ensures Arranged(ps[1..])
    ensures |ps| > 1 ==> LexLess(ps[0].0, ps[1].0)
  {
  }

  lemma ArrangedCons(p: Pair, ps: seq<Pair>)
    requires Arranged(ps) && ReadsBack(p.1) && (ps != [] ==> LexLess(p.0, ps[0].0))
    ensures Arranged([p] + ps)
  {
    hide LexLess, ReadsBack;
    var all := [p] + ps;
    forall i, j | 0 <= i < j < |all|
      ensures LexLess(all[i].0, all[j].0)
    {
      if i == 0 && j > 1 {
        assert LexLess(ps[0].0, ps[j - 1].0);
        LessLess(p.0, ps[0].0, ps[j - 1].0);
      }
    }
  }

  lemma LessLess(a: Bytes, b: Bytes, c: Bytes)
    requires LexLess(a, b) && LexLess(b, c)
    ensures LexLess(a, c)
  {
    LessThenLe(a, b, c);
  }

  function Spelling(ps: seq<Pair>): Bytes {
    Joined(Parts(ps), AMPERSAND)
  }

  lemma SpellingOfHead(ps: seq<Pair>)
    requires ps != []
    ensures Spelling(ps) == if |ps| == 1 then Part(ps[0]) else Part(ps[0]) + ([AMPERSAND] + Spelling(ps[1..]))
  {
    hide Part;
    assert Parts(ps)[1..] == Parts(ps[1..]);
    if |ps| > 1 {
      Reassociate(Part(ps[0]), [AMPERSAND], Spelling(ps[1..]));
    }
  }

  /** Of two lists that spell the same text, one first entry reaches further: its name goes on past
      the other's first entry, and what is left of it stands before the rest. */
  lemma LongerHead(ps: seq<Pair>, qs: seq<Pair>) returns (left: Bytes)
    requires ps != [] && qs != [] && Spelling(ps) == Spelling(qs)
    requires Free(qs[0].1, AMPERSAND) && |Part(ps[0])| < |Part(qs[0])|
    ensures |ps| > 1 && qs[0].0 == Part(ps[0]) + ([AMPERSAND] + left)
    ensures Spelling(ps[1..]) == Spelling([(left, qs[0].1)] + qs[1..])
  {
    hide Joined, Parts, Part;
    SpellingOfHead(ps);
    SpellingOfHead(qs);
    var p, q := Part(ps[0]), qs[0];
    var n := |p|;
    assert |ps| > 1;
    var rest := Spelling(ps[1..]);
    assert Spelling(ps) == p + ([AMPERSAND] + rest);
    var tail := if |qs| == 1 then [] else [AMPERSAND] + Spelling(qs[1..]);
    PartIs(q);
    assert Spelling(qs) == (q.0 + ([EQUALS] + q.1)) + tail;
    left := Beyond(p, rest, q, tail);
    var cut := [(left, q.1)] + qs[1..];
    SpellingOfHead(cut);
    PartIs(cut[0]);
    assert cut[1..] == qs[1..];
  }

  lemma PartIs(p: Pair)
    ensures Part(p) == p.0 + ([EQUALS] + p.1)
  {
  }

  /** A delimiter that the value is free of stands in the name, or is the `=` after it. */
  lemma InName(p: Pair, b: byte, i: nat)
    requires Free(p.1, b) && i < |p.0 + ([EQUALS] + p.1)| && (p.0 + ([EQUALS] + p.1))[i] == b
    ensures i < |p.0| || (i == |p.0| && b == EQUALS)
  {
    assert (p.0 + ([EQUALS] + p.1))[|p.0| + 1..] == p.1;
  }

  lemma Beyond(p: Bytes, rest: Bytes, q: Pair, tail: Bytes) returns (left: Bytes)
    requires p + ([AMPERSAND] + rest) == (q.0 + ([EQUALS] + q.1)) + tail
    requires Free(q.1, AMPERSAND) && |p| < |q.0 + ([EQUALS] + q.1)|
    ensures q.0 == p + ([AMPERSAND] + left)
    ensures rest == (left + ([EQUALS] + q.1)) + tail
  {
    var n, part := |p|, q.0 + ([EQUALS] + q.1);
    var text := part + tail;
    assert text[n] == (p + ([AMPERSAND] + rest))[n] == AMPERSAND;
    assert part[n] == AMPERSAND;
    InName(q, AMPERSAND, n);
    left := q.0[n + 1..];
    assert q.0[..n] == text[..n] == p;
    assert q.0[n] == text[n];
    assert q.0 == p + ([AMPERSAND] + left);
    assert rest == text[n + 1..];
  }

  lemma SameHead(ps: seq<Pair>, qs: seq<Pair>)
    requires ps != [] && qs != [] && Spelling(ps) == Spelling(qs) && |Part(ps[0])| == |Part(qs[0])|
    requires Free(ps[0].1, EQUALS) && Free(qs[0].1, EQUALS)
    ensures ps[0] == qs[0] && (|ps| == 1 <==> |qs| == 1)
    ensures |ps| > 1 ==> Spelling(ps[1..]) == Spelling(qs[1..])
  {
    hide Joined, Parts, Part;
    SpellingOfHead(ps);
    SpellingOfHead(qs);
    var n := |Part(ps[0])|;
    assert Spelling(ps)[..n] == Part(ps[0]) && Spelling(qs)[..n] == Part(qs[0]);
    PartInjective(ps[0], qs[0]);
    if |ps| > 1 {
      assert Spelling(ps)[n + 1..] == Spelling(ps[1..]);
      assert |qs| > 1;
      assert Spelling(qs)[n + 1..] == Spelling(qs[1..]);
    }
  }

  /** A value holds no `=`, so the last one ends the name. */
  lemma {:induction false} PartInjective(p: Pair, q: Pair)
    requires Free(p.1, EQUALS) && Free(q.1, EQUALS) && Part(p) == Part(q)
    ensures p == q
  {
    assert Part(p)[|q.0|] == EQUALS && Part(q)[|p.0|] == EQUALS;
    InName(p, EQUALS, |q.0|);
    InName(q, EQUALS, |p.0|);
    assert Part(p)[..|p.0|] == p.0 && Part(q)[..|q.0|] == q.0;
    assert Part(p)[|p.0| + 1..] == p.1 && Part(q)[|q.0| + 1..] == q.1;
  }

  ghost predicate Unambiguous(ps: seq<Pair>) {
    forall i :: 0 <= i < |ps| ==> !Ambiguous(ps[i].0)
  }

  lemma CutSortsBefore(name: Bytes, value: Bytes, left: Bytes, key: Bytes)
    requires key == Part((name, value)) + ([AMPERSAND] + left) && ReadsBack(value) && !Ambiguous(key)
    ensures LexLe(left, name) && LexLe(name, key)
  {
    if LexLess(name, left) {
      AmbiguousBy(key, name, value, left);
    }
    NotLessIsLe(name, left);
    PrefixIsLe(name, key);
  }

  /** Once two lists are cut at different places they never meet again: the name left over from the
      longer entry sorts before every name still to come, and only another cut could use it up. */
  lemma {:induction false} NeverMeet(ps: seq<Pair>, qs: seq<Pair>)
    requires Arranged(ps) && Arranged(qs) && ps != [] && qs != [] && Spelling(ps) == Spelling(qs)
    requires Unambiguous(ps) && Unambiguous(qs[1..]) && LexLess(qs[0].0, ps[0].0)
    ensures false
    decreases |ps| + |qs|
  {
    hide LexLess, Spelling, Ambiguous, ReadsBack;
    ReadsBackFree(ps[0].1);
    ReadsBackFree(qs[0].1);
    ArrangedTail(ps);
    ArrangedTail(qs);
    NotLessThanItself(qs[0].0);
    if |Part(ps[0])| < |Part(qs[0])| {
      var left := LongerHead(ps, qs);
      PrefixIsLe(ps[0].0, qs[0].0);
      LessThenLe(qs[0].0, ps[0].0, qs[0].0);
    } else if |Part(ps[0])| == |Part(qs[0])| {
      SameHead(ps, qs);
    } else {
      var left := LongerHead(qs, ps);
      CutSortsBefore(qs[0].0, qs[0].1, left, ps[0].0);
      var rest := [(left, ps[0].1)] + ps[1..];
      LessThenLe(left, qs[0].0, qs[1].0);
      LessThenLe(left, qs[0].0, ps[0].0);
      if |ps| > 1 {
        LessLess(left, ps[0].0, ps[1].0);
      }
      ArrangedCons((left, ps[0].1), ps[1..]);
      assert rest[1..] == ps[1..];
      NeverMeet(qs[1..], rest);
    }
  }

  lemma NotLessThanItself(a: Bytes)
    ensures !LexLess(a, a)
  {
  }

  /** One text is spelled by one list of pairs only. */
  lemma {:induction false} SpellingDetermines(ps: seq<Pair>, qs: seq<Pair>)
    requires Arranged(ps) && Arranged(qs) && ps != [] && qs != []
    requires Unambiguous(ps) && Unambiguous(qs) && Spelling(ps) == Spelling(qs)
    ensures ps == qs
  {
    hide LexLess, Spelling, Ambiguous, ReadsBack;
    ReadsBackFree(ps[0].1);
    ReadsBackFree(qs[0].1);
    ArrangedTail(ps);
    ArrangedTail(qs);
    if |Part(ps[0])| < |Part(qs[0])| {
      DifferentHeads(ps, qs);
    } else if |Part(qs[0])| < |Part(ps[0])| {
      DifferentHeads(qs, ps);
    } else {
      SameHead(ps, qs);
      if |ps| > 1 {
        SpellingDetermines(ps[1..], qs[1..]);
      }
      assert ps == [ps[0]] + ps[1..] && qs == [qs[0]] + qs[1..];
    }
  }

  lemma DifferentHeads(ps: seq<Pair>, qs: seq<Pair>)
    requires Arranged(ps) && Arranged(qs) && ps != [] && qs != [] && Spelling(ps) == Spelling(qs)
    requires Unambiguous(ps) && Unambiguous(qs) && |Part(ps[0])| < |Part(qs[0])|
    ensures false
  {
    hide LexLess, Spelling, Ambiguous, ReadsBack, Part;
    ReadsBackFree(qs[0].1);
    ArrangedTail(ps);
    ArrangedTail(qs);
    var left := LongerHead(ps, qs);
    CutSortsBefore(ps[0].0, ps[0].1, left, qs[0].0);
    LessThenLe(left, ps[0].0, ps[1].0);
    if |qs| > 1 {
      LessThenLe(ps[0].0, qs[0].0, qs[1].0);
      LessThenLe(left, ps[0].0, qs[1].0);
    }
    ArrangedCons((left, qs[0].1), qs[1..]);
    var rest := [(left, qs[0].1)] + qs[1..];
    assert rest[1..] == qs[1..];
    NeverMeet(ps[1..], rest);
  }

  /** An entry that is spelled by several has an ambiguous key. */
  lemma LoneEntrySplits(ps: seq<Pair>, entry: Pair)
    requires Arranged(ps) && |ps| > 1 && ReadsBack(entry.1) && Spelling(ps) == Part(entry)
    ensures Ambiguous(entry.0)
  {
    hide LexLess, Spelling, Ambiguous, ReadsBack, Part;
    var one := [entry];
    SpellingOfHead(ps);
    SpellingOfHead(one);
    ReadsBackFree(entry.1);
    ArrangedTail(ps);
    var left := LongerHead(ps, one);
    var rest, other := ps[1..], [(left, entry.1)];
    assert other + one[1..] == other;
    SpellingOfHead(rest);
    SpellingOfHead(other);
    ReadsBackFree(rest[0].1);
    if |rest| > 1 {
      var _ := LongerHead(rest, other);
      PartIs(rest[0]);
    } else {
      SameHead(rest, other);
    }
    PrefixIsLe(rest[0].0, left);
    LessThenLe(ps[0].0, rest[0].0, left);
    AmbiguousBy(entry.0, ps[0].0, ps[0].1, left);
  }

  // ---------- One segment ----------

  function Pairs(context: Context): seq<Pair> {
    Sorted(PairLe, EncodedValues(context))
  }

  lemma SegmentSpells(context: Context)
    ensures Segment(context) == Spelling(Pairs(context)) && |Pairs(context)| == |context|
    ensures multiset(Pairs(context)) == multiset(EncodedValues(context))
    ensures Segment(context) == [] <==> context == []
  {
    PairIsTotalOrder();
    SortedIsSorted(PairLe, EncodedValues(context));
    SortedLength(EncodedValues(context));
    if context != [] {
      SpellingOfHead(Pairs(context));
    }
  }

  /** An encoded pair comes from an entry of the map. */
  lemma PairIsEntry(context: Context, i: nat) returns (j: nat)
    requires i < |Pairs(context)|
    ensures j < |context| && Pairs(context)[i] == (context[j].0, Encoded(context[j].1))
  {
    hide PairLe, Sorted, Encoded;
    SegmentSpells(context);
    EncodedValuesForm(context);
    assert Pairs(context)[i] in multiset(EncodedValues(context));
    j :| 0 <= j < |context| && EncodedValues(context)[j] == Pairs(context)[i];
  }

  lemma MapIsArranged(context: Context)
    requires IsMap(context)
    ensures Arranged(Pairs(context))
  {
    hide PairLe, Sorted, Encoded, EncodedValues, LexLe;
    var encoded, sorted := EncodedValues(context), Pairs(context);
    SegmentSpells(context);
    EncodedValuesForm(context);
    assert DistinctNames(encoded);
    PermutationKeepsDistinct(encoded, sorted);
    PairIsTotalOrder();
    SortedIsSorted(PairLe, encoded);
    forall i, j | 0 <= i < j < |sorted|
      ensures LexLess(sorted[i].0, sorted[j].0)
    {
      NamesDecide(sorted[i], sorted[j]);
    }
    forall i | 0 <= i < |sorted|
      ensures ReadsBack(sorted[i].1)
    {
      var j := PairIsEntry(context, i);
      DecodeEncoded(context[j].1);
    }
  }

  lemma NamesDecide(p: Pair, q: Pair)
    requires PairLe(p, q) && p.0 != q.0
    ensures LexLess(p.0, q.0)
  {
  }

  ghost predicate UnambiguousKeys(context: Context) {
    forall i :: 0 <= i < |context| ==> !Ambiguous(context[i].0)
  }

  lemma KeysStayUnambiguous(context: Context)
    requires UnambiguousKeys(context)
    ensures Unambiguous(Pairs(context))
  {
    hide Ambiguous, Encoded;
    forall i | 0 <= i < |Pairs(context)|
      ensures !Ambiguous(Pairs(context)[i].0)
    {
      var j := PairIsEntry(context, i);
    }
  }

  lemma SameMapSameSegment(a: Context, b: Context)
    requires multiset(a) == multiset(b)
    ensures Segment(a) == Segment(b)
  {
    PairIsTotalOrder();
    EncodedValuesSame(a, b);
    SortForgetsOrder(PairLe, EncodedValues(a), EncodedValues(b));
  }

  /** While no key is ambiguous, the segment says exactly which map it was made from, and nothing of
      its iteration order. */
  lemma {:induction false} SegmentDetermines(a: Context, b: Context)
    requires IsMap(a) && IsMap(b) && UnambiguousKeys(a) && UnambiguousKeys(b)
    ensures Segment(a) == Segment(b) <==> multiset(a) == multiset(b)
  {
    hide Segment, Pairs, Spelling, IsMap, UnambiguousKeys, Arranged, Unambiguous, EncodedValues;
    if multiset(a) == multiset(b) {
      SameMapSameSegment(a, b);
    }
    SegmentSpells(a);
    SegmentSpells(b);
    if Segment(a) == Segment(b) && a != [] {
      MapIsArranged(a);
      MapIsArranged(b);
      KeysStayUnambiguous(a);
      KeysStayUnambiguous(b);
      SpellingDetermines(Pairs(a), Pairs(b));
      EncodedValuesDetermine(a, b);
    }
  }

  /** The segment of `a` is also that of a different map. */
  ghost predicate Collides(a: Context, b: Context) {
    IsMap(b) && Segment(b) == Segment(a) && multiset(b) != multiset(a)
  }

  lemma SegmentOfOne(p: Pair)
    ensures Pairs([p]) == [(p.0, Encoded(p.1))] && Segment([p]) == Part((p.0, Encoded(p.1)))
  {
    var context: Context, q := [p], (p.0, Encoded(p.1));
    assert context[1..] == [] && EncodedValues(context) == [q];
    assert Sorted(PairLe, [q]) == [q];
    SegmentSpells(context);
    SpellingOfHead([q]);
  }

  lemma InOrder(x: Pair, y: Pair)
    requires LexLess(x.0, y.0)
    ensures Sorted(PairLe, [x, y]) == [x, y]
  {
    hide LexLe;
    assert PairLe(x, y);
    assert [x, y][1..] == [y] && [y][1..] == [];
    assert Sorted(PairLe, [y]) == [y];
  }

  lemma SegmentOfTwo(p: Pair, q: Pair)
    requires LexLess(p.0, q.0)
    ensures Segment([p, q]) == Part((p.0, Encoded(p.1))) + ([AMPERSAND] + Part((q.0, Encoded(q.1))))
  {
    hide LexLe, Part, Encoded;
    var context: Context, x, y := [p, q], (p.0, Encoded(p.1)), (q.0, Encoded(q.1));
    var rest, encoded := context[1..], [x, y];
    assert rest == [q] && rest[1..] == [] && EncodedValues(rest) == [y];
    assert EncodedValues(context) == encoded && encoded[1..] == [y];
    InOrder(x, y);
    SegmentSpells(context);
    SpellingOfHead(encoded);
    SpellingOfHead([y]);
  }

  /** A key cut at a `=` and a later delimiter, and the pieces at its ends are text. */
  lemma CutApart(key: Bytes, i: int, j: int, b: byte)
    requires 0 <= i < j < |key| && key[i] == EQUALS && key[j] == b && b < 0x80 && Utf8(key)
    ensures key == Part((key[..i], key[i + 1..j])) + ([b] + key[j + 1..])
    ensures Utf8(key[..i]) && Utf8(key[j + 1..])
  {
    hide Utf8, Part;
    var first, middle, rest := key[..i], key[i + 1..j], key[j + 1..];
    CutAt(key, i);
    CutAt(key[i + 1..], j - i - 1);
    assert key[i + 1..][..j - i - 1] == middle && key[i + 1..][j - i..] == rest;
    PartIs((first, middle));
    Reassociate(first, [EQUALS], middle + [b] + rest);
    Reassociate(middle, [b], rest);
    Reassociate(first, [EQUALS] + middle, [b] + rest);
    Reassociate([EQUALS], middle, [b] + rest);
    Utf8Cut(first, EQUALS, key[i + 1..]);
    Utf8Cut(middle, b, rest);
  }

  lemma CutAt(s: Bytes, i: nat)
    requires i < |s|
    ensures s == s[..i] + [s[i]] + s[i + 1..]
  {
  }

  /** What reads back, reads back as text. */
  lemma ReadBackIsText(e: Bytes)
    requires ReadsBack(e)
    ensures Decoded(e).Ok? && Utf8(Decoded(e).value) && Encoded(Decoded(e).value) == e
  {
  }

  lemma PartIsCut(key: Bytes, first: Pair, rest: Bytes, value: Bytes)
    requires key == Part(first) + ([AMPERSAND] + rest)
    ensures Part((key, value)) == Part(first) + ([AMPERSAND] + Part((rest, value)))
  {
    hide Part;
    PartIs((key, value));
    PartIs((rest, value));
    Reassociate(Part(first), [AMPERSAND] + rest, [EQUALS] + value);
    Reassociate([AMPERSAND], rest, [EQUALS] + value);
  }

  /** What a cut key can be read as. */
  function CutInTwo(key: Bytes, i: int, j: int, value: Bytes): Context
    requires CutsAt(key, i, j)
  {
    [(key[..i], Decoded(key[i + 1..j]).value), (key[j + 1..], value)]
  }

  /** An ambiguous key reads as two entries. */
  lemma AmbiguousKeyCollides(key: Bytes, value: Bytes, i: int, j: int)
    requires Utf8(key) && Utf8(value) && CutsAt(key, i, j)
    ensures Collides([(key, value)], CutInTwo(key, i, j, value))
  {
    hide Encoded, LexLe, Utf8, Segment, Part, Decoded;
    var first, rest := (key[..i], key[i + 1..j]), key[j + 1..];
    var one: Context, two: Context := [(key, value)], CutInTwo(key, i, j, value);
    CutApart(key, i, j, AMPERSAND);
    ReadBackIsText(first.1);
    SegmentOfOne((key, value));
    SegmentOfTwo(two[0], two[1]);
    PartIsCut(key, first, rest, Encoded(value));
    assert |multiset(one)| == 1 && |multiset(two)| == 2;
  }

  lemma CollisionIsAmbiguous(key: Bytes, value: Bytes, b: Context)
    requires Utf8(value) && Collides([(key, value)], b)
    ensures Ambiguous(key)
  {
    hide Encoded, Decoded, LexLe, Ambiguous, Segment, Pairs, Spelling, EncodedValues, Arranged;
    var one: Context, entry := [(key, value)], (key, Encoded(value));
    SegmentOfOne((key, value));
    SegmentSpells(b);
    SegmentSpells(one);
    MapIsArranged(b);
    DecodeEncoded(value);
    if |b| == 1 {
      ReadsBackFree(entry.1);
      assert ReadsBack(Pairs(b)[0].1) by { ArrangedReadsBack(Pairs(b)); }
      ReadsBackFree(Pairs(b)[0].1);
      SpellingOfHead(Pairs(b));
      PartInjective(Pairs(b)[0], entry);
      assert Pairs(b) == [Pairs(b)[0]];
      EncodedValuesDetermine(b, one);
    } else {
      LoneEntrySplits(Pairs(b), entry);
    }
  }

  lemma ArrangedReadsBack(ps: seq<Pair>)
    requires Arranged(ps)
    ensures forall i :: 0 <= i < |ps| ==> ReadsBack(ps[i].1)
  {
  }

  /** A key on its own, under whatever value, shares its segment with some other map exactly when it
      is ambiguous. */
  lemma KeyCollidesIff(key: Bytes, value: Bytes)
    requires Utf8(key) && Utf8(value)
    ensures (exists b :: Collides([(key, value)], b)) <==> Ambiguous(key)
  {
    if Ambiguous(key) {
      var i, j :| 0 <= i < |key| && 0 <= j < |key| && CutsAt(key, i, j);
      AmbiguousKeyCollides(key, value, i, j);
    }
    if b :| Collides([(key, value)], b) {
      CollisionIsAmbiguous(key, value, b);
    }
  }

  /** The shortest case: `a=&b` alone, and `a` with `b`. */
  lemma ShortestCollision()
    ensures Collides([([97, EQUALS, AMPERSAND, 98], [])], [([97], []), ([98], [])])
  {
    var key: Bytes := [97, EQUALS, AMPERSAND, 98];
    assert key[..1] == [97] && key[2..2] == [] && key[3..] == [98];
    assert Decoded([]) == Ok([]);
    assert CutsAt(key, 1, 2);
    AsciiIsUtf8(key);
    AmbiguousKeyCollides(key, [], 1, 2);
  }

  ghost predicate KeysAmong(context: Context, allowed: iset<Bytes>) {
    forall i :: 0 <= i < |context| ==> context[i].0 in allowed
  }

  /** A rule for keys that admits the two names a key can be cut into, when it admits the key. */
  ghost predicate AdmitsCuts(allowed: iset<Bytes>) {
    forall key, i, j :: key in allowed && CutsAt(key, i, j) ==> key[..i] in allowed && key[j + 1..] in allowed
  }

  ghost predicate TellsApart(allowed: iset<Bytes>) {
    forall a, b :: IsMap(a) && IsMap(b) && KeysAmong(a, allowed) && KeysAmong(b, allowed) ==> !Collides(a, b)
  }

  /** Under such a rule, all maps are told apart by their segments exactly when the rule admits no
      ambiguous key. */
  lemma {:induction false} TellsApartIff(allowed: iset<Bytes>)
    requires AdmitsCuts(allowed) && forall key :: key in allowed ==> Utf8(key)
    ensures TellsApart(allowed) <==> forall key :: key in allowed ==> !Ambiguous(key)
  {
    hide IsMap, Ambiguous, Collides;
    if forall key :: key in allowed ==> !Ambiguous(key) {
      forall a, b | IsMap(a) && IsMap(b) && KeysAmong(a, allowed) && KeysAmong(b, allowed)
        ensures !Collides(a, b)
      {
        NoCollision(a, b);
      }
    } else {
      var key :| key in allowed && Ambiguous(key);
      AdmittedCollides(allowed, key);
    }
  }

  lemma NoCollision(a: Context, b: Context)
    requires IsMap(a) && IsMap(b) && UnambiguousKeys(a) && UnambiguousKeys(b)
    ensures !Collides(a, b)
  {
    SegmentDetermines(a, b);
  }

  lemma AdmittedCollides(allowed: iset<Bytes>, key: Bytes)
    requires AdmitsCuts(allowed) && key in allowed && Utf8(key) && Ambiguous(key)
    ensures !TellsApart(allowed)
  {
    hide Segment, LexLess;
    var i, j :| 0 <= i < |key| && 0 <= j < |key| && CutsAt(key, i, j);
    AmbiguousKeyCollides(key, [], i, j);
    var one: Context := [(key, [])];
    var two: Context := CutInTwo(key, i, j, []);
    assert IsMap(one) && KeysAmong(one, allowed);
    assert IsMap(two) && KeysAmong(two, allowed);
    assert Collides(one, two);
  }

  // ---------- Nested contexts ----------

  /** The contexts that leave a trace: an empty one is swallowed by the next. */
  function Stripped(contexts: seq<Context>): (stripped: seq<Context>)
    ensures stripped == [] <==> contexts == []
  {
    if |contexts| > 1 && contexts[0] == [] then Stripped(contexts[1..]) else contexts
  }

  /** The segments, each with a colon after it, and then the user key. */
  function Spelled(contexts: seq<Context>, key: Bytes): Bytes {
    if contexts == [] then key else Segment(contexts[0]) + ([COLON] + Spelled(contexts[1..], key))
  }

  lemma {:induction false} SpelledSnoc(contexts: seq<Context>, c: Context, key: Bytes)
    ensures Spelled(contexts + [c], key) == Spelled(contexts, Segment(c) + ([COLON] + key))
  {
    if contexts == [] {
      assert ([] + [c])[1..] == [];
    } else {
      assert (contexts + [c])[1..] == contexts[1..] + [c];
      SpelledSnoc(contexts[1..], c, key);
    }
  }

  lemma {:induction false} StrippedSnoc(contexts: seq<Context>, c: Context)
    requires contexts != []
    ensures Stripped(contexts + [c]) == if Stripped(contexts) == [[]] then [c] else Stripped(contexts) + [c]
  {
    var more := contexts + [c];
    if contexts[0] == [] {
      assert more[1..] == contexts[1..] + [c];
      if |contexts| > 1 {
        StrippedSnoc(contexts[1..], c);
      } else {
        assert contexts == [[]] && more[1..] == [c];
      }
    }
  }

  lemma ScopedSnoc(prefix: Bytes, contexts: seq<Context>, c: Context)
    ensures Scoped(prefix, contexts + [c]) == WithContext(Scoped(prefix, contexts), c)
  {
    assert (contexts + [c])[..|contexts|] == contexts;
  }

  lemma {:induction false} ScopedSpells(prefix: Bytes, contexts: seq<Context>, key: Bytes)
    requires contexts != []
    ensures var r := Scoped(prefix, contexts);
      && r.prefix == prefix && r.context.Some?
      && (r.context.value == [] <==> Stripped(contexts) == [[]])
      && r.context.value + ([COLON] + key) == Spelled(Stripped(contexts), key)
    decreases |contexts|
  {
    hide Segment, Spelled, Stripped, Scoped;
    var front, c := contexts[..|contexts| - 1], contexts[|contexts| - 1];
    assert contexts == front + [c];
    ScopedSnoc(prefix, front, c);
    SegmentSpells(c);
    SpelledOne(c, key);
    if front == [] {
      assert contexts == [c] && Scoped(prefix, front) == Repository(prefix, None) && Stripped([c]) == [c] by {
        NothingScoped(prefix, c);
      }
    } else {
      StrippedSnoc(front, c);
      ScopedSpells(prefix, front, Segment(c) + ([COLON] + key));
      if Stripped(front) != [[]] {
        ColonsRight(Scoped(prefix, front).context.value, Segment(c), key);
        SpelledSnoc(Stripped(front), c, key);
        assert |Stripped(front) + [c]| > 1;
      }
    }
  }

  lemma SpelledOne(c: Context, key: Bytes)
    ensures Spelled([c], key) == Segment(c) + ([COLON] + key)
  {
    assert [c][1..] == [];
  }

  lemma NothingScoped(prefix: Bytes, c: Context)
    ensures Scoped(prefix, []) == Repository(prefix, None) && Stripped([c]) == [c]
  {
  }

  lemma ColonsRight(x: Bytes, s: Bytes, k: Bytes)
    ensures (x + ([COLON] + s)) + ([COLON] + k) == x + ([COLON] + (s + ([COLON] + k)))
  {
    Reassociate(x, [COLON] + s, [COLON] + k);
    Reassociate([COLON], s, [COLON] + k);
  }

  /** The stored key is the prefix, the segments of the contexts that leave a trace, and the user key. */
  lemma StoredKeySpells(prefix: Bytes, contexts: seq<Context>, key: Bytes)
    ensures StoredKey(Scoped(prefix, contexts), key) == prefix + Spelled(Stripped(contexts), key)
  {
    if contexts != [] {
      ScopedSpells(prefix, contexts, key);
    }
  }

  /** Read up to its `j`-th byte, a colon, the key would be an entry of its own. */
  predicate ScopeCutAt(key: Bytes, i: int, j: int) {
    0 <= i < j < |key| && key[i] == EQUALS && key[j] == COLON && ReadsBack(key[i + 1..j])
  }

  /** The key can be taken for a context that ends at one of its colons: an empty one, or an entry. */
  predicate CutsScope(key: Bytes) {
    (key != [] && key[0] == COLON) || exists i, j :: 0 <= i < |key| && 0 <= j < |key| && ScopeCutAt(key, i, j)
  }

  /** Maps whose segments can be told apart, and told from what follows them. */
  ghost predicate Scopable(context: Context) {
    IsMap(context) && UnambiguousKeys(context) && forall i :: 0 <= i < |context| ==> !CutsScope(context[i].0)
  }

  ghost predicate AllScopable(contexts: seq<Context>) {
    forall i :: 0 <= i < |contexts| ==> Scopable(contexts[i])
  }

  ghost predicate EndsAt(pre: Bytes, b: byte) {
    pre == [] || pre[|pre| - 1] == b
  }

  /** A colon inside a spelling stands in a name. */
  lemma {:induction false} ColonInName(ps: seq<Pair>, x: Bytes, rest: Bytes) returns (m: nat, pre: Bytes, y: Bytes, z: Bytes)
    requires forall i :: 0 <= i < |ps| ==> ReadsBack(ps[i].1)
    requires ps != [] && Spelling(ps) == x + ([COLON] + rest)
    ensures m < |ps| && ps[m].0 == y + ([COLON] + z)
    ensures x == pre + y && EndsAt(pre, AMPERSAND)
  {
    hide Spelling, ReadsBack;
    SpellingOfHead(ps);
    ReadsBackFree(ps[0].1);
    var part, text := Part(ps[0]), Spelling(ps);
    assert text[|x|] == COLON && text[..|x|] == x;
    if |x| < |part| {
      assert part[|x|] == text[|x|];
      InName(ps[0], COLON, |x|);
      m, pre, y, z := 0, [], x, ps[0].0[|x| + 1..];
      assert ps[0].0[..|x|] == part[..|x|] == text[..|x|];
    } else {
      assert |ps| > 1 && text[|part|] == AMPERSAND;
      var x' := x[|part| + 1..];
      var more := Spelling(ps[1..]);
      assert text[|part| + 1..] == more;
      assert text[|part| + 1..] == x' + ([COLON] + rest);
      var n, p, y', z' := ColonInName(ps[1..], x', rest);
      m, pre, y, z := n + 1, x[..|part| + 1] + p, y', z';
      assert x[|part|] == text[|part|];
      assert x == x[..|part| + 1] + x';
    }
  }

  lemma {:induction false} SpellingEnds(ps: seq<Pair>) returns (pre: Bytes)
    requires ps != []
    ensures Spelling(ps) == pre + ([EQUALS] + ps[|ps| - 1].1)
  {
    hide Spelling;
    SpellingOfHead(ps);
    PartIs(ps[0]);
    if |ps| == 1 {
      pre := ps[0].0;
    } else {
      var p := SpellingEnds(ps[1..]);
      pre := Part(ps[0]) + ([AMPERSAND] + p);
      Reassociate(Part(ps[0]), [AMPERSAND] + p, [EQUALS] + ps[|ps| - 1].1);
      Reassociate([AMPERSAND], p, [EQUALS] + ps[|ps| - 1].1);
    }
  }

  /** Where one text ends in a name and another in a value, the name ends in that value. */
  lemma NameEndsInValue(pre: Bytes, y: Bytes, front: Bytes, e: Bytes) returns (n: Bytes)
    requires pre + y == front + ([EQUALS] + e) && EndsAt(pre, AMPERSAND) && Free(e, AMPERSAND)
    ensures y == n + ([EQUALS] + e)
  {
    var text := front + ([EQUALS] + e);
    assert text[|front|..] == [EQUALS] + e;
    if pre != [] {
      assert text[|pre| - 1] == AMPERSAND;
      InName((front, e), AMPERSAND, |pre| - 1);
    }
    n := front[|pre|..];
    assert y == text[|pre|..];
  }

  /** A segment that ends at a colon of another one has cut a key there. */
  lemma ShorterSegmentCuts(a: Context, s: Bytes, b: Context, t: Bytes) returns (j: nat)
    requires IsMap(a) && IsMap(b) && |Segment(a)| < |Segment(b)|
    requires Segment(a) + ([COLON] + s) == Segment(b) + ([COLON] + t)
    ensures j < |b| && CutsScope(b[j].0)
  {
    hide Segment, Spelling, ReadsBack, Pairs, IsMap;
    SegmentSpells(a);
    SegmentSpells(b);
    MapIsArranged(a);
    MapIsArranged(b);
    var x, whole := Segment(a), Segment(b);
    var text := whole + ([COLON] + t);
    assert text[|x|] == COLON && text[..|x|] == x && text[..|whole|] == whole;
    assert whole == x + ([COLON] + whole[|x| + 1..]);
    var m, pre, y, z := ColonInName(Pairs(b), x, whole[|x| + 1..]);
    j := PairIsEntry(b, m);
    var key := y + ([COLON] + z);
    assert b[j].0 == key;
    if a == [] {
      assert y == [];
    } else {
      var last := Pairs(a)[|a| - 1];
      var front := SpellingEnds(Pairs(a));
      ReadsBackFree(last.1);
      var n := NameEndsInValue(pre, y, front, last.1);
      assert key[|n|] == EQUALS && key[|n| + 1..|y|] == last.1 && key[|y|] == COLON;
      assert ScopeCutAt(key, |n|, |y|);
    }
  }

  /** A segment is told from what follows it. */
  lemma HeadsMeetIff(a: Context, s: Bytes, b: Context, t: Bytes)
    requires Scopable(a) && Scopable(b)
    ensures Segment(a) + ([COLON] + s) == Segment(b) + ([COLON] + t) <==> multiset(a) == multiset(b) && s == t
  {
    hide Segment, IsMap, UnambiguousKeys, CutsScope;
    SegmentDetermines(a, b);
    var text, text' := Segment(a) + ([COLON] + s), Segment(b) + ([COLON] + t);
    if text == text' {
      if |Segment(a)| < |Segment(b)| {
        var j := ShorterSegmentCuts(a, s, b, t);
        assert false;
      } else if |Segment(b)| < |Segment(a)| {
        var j := ShorterSegmentCuts(b, t, a, s);
        assert false;
      }
      assert text[..|Segment(a)|] == Segment(a) && text'[..|Segment(b)|] == Segment(b);
      assert text[|Segment(a)| + 1..] == s && text'[|Segment(b)| + 1..] == t;
    }
  }

  ghost predicate SameContexts(a: seq<Context>, b: seq<Context>) {
    |a| == |b| && forall i :: 0 <= i < |a| ==> multiset(a[i]) == multiset(b[i])
  }

  /** One nesting begins the other, and the user key under it spells what the other goes on with. */
  ghost predicate Extends(a: seq<Context>, k: Bytes, b: seq<Context>, l: Bytes) {
    |a| <= |b| && SameContexts(a, b[..|a|]) && k == Spelled(b[|a|..], l)
  }

  lemma {:induction false} SpelledMeetIff(a: seq<Context>, k: Bytes, b: seq<Context>, l: Bytes)
    requires AllScopable(a) && AllScopable(b)
    ensures Spelled(a, k) == Spelled(b, l) <==> Extends(a, k, b, l) || Extends(b, l, a, k)
    decreases |a|
  {
    hide Segment, Scopable;
    if a == [] {
      assert b[0..] == b && SameContexts([], b[..0]);
      assert b == [] ==> a[0..] == a && a[..0] == b;
    } else if b == [] {
      assert a[0..] == a && SameContexts([], a[..0]);
    } else {
      var s, t := Spelled(a[1..], k), Spelled(b[1..], l);
      assert Scopable(a[0]) && Scopable(b[0]);
      HeadsMeetIff(a[0], s, b[0], t);
      SpelledMeetIff(a[1..], k, b[1..], l);
      ExtendsCons(a, k, b, l);
      ExtendsCons(b, l, a, k);
    }
  }

  lemma ExtendsCons(a: seq<Context>, k: Bytes, b: seq<Context>, l: Bytes)
    requires a != [] && b != []
    ensures Extends(a, k, b, l) <==> multiset(a[0]) == multiset(b[0]) && Extends(a[1..], k, b[1..], l)
  {
    if |a| <= |b| {
      assert b[1..][|a| - 1..] == b[|a|..];
      assert b[1..][..|a| - 1] == b[..|a|][1..];
      var front := b[..|a|];
      assert forall i :: 0 < i < |a| ==> a[i] == a[1..][i - 1] && front[i] == front[1..][i - 1];
      if SameContexts(a[1..], front[1..]) && multiset(a[0]) == multiset(b[0]) {
        forall i | 0 <= i < |a|
          ensures multiset(a[i]) == multiset(front[i])
        {
          if i > 0 {
            assert multiset(a[1..][i - 1]) == multiset(front[1..][i - 1]);
          }
        }
      }
      if SameContexts(a, front) {
        forall i | 0 <= i < |a| - 1
          ensures multiset(a[1..][i]) == multiset(front[1..][i])
        {
          assert multiset(a[i + 1]) == multiset(front[i + 1]);
        }
      }
    }
  }

  /** Two nestings of any depth, none included, meet in one stored key exactly when, of the contexts
      that leave a trace, one's begin the other's and its user key spells the rest. */
  lemma {:induction false} StoredKeysMeetIff(prefix: Bytes, a: seq<Context>, k: Bytes, b: seq<Context>, l: Bytes)
    requires AllScopable(a) && AllScopable(b)
    ensures StoredKey(Scoped(prefix, a), k) == StoredKey(Scoped(prefix, b), l)
       <==> Extends(Stripped(a), k, Stripped(b), l) || Extends(Stripped(b), l, Stripped(a), k)
  {
    hide Spelled, Extends, StoredKey, Scoped;
    StoredKeySpells(prefix, a, k);
    StoredKeySpells(prefix, b, l);
    var s, t := Spelled(Stripped(a), k), Spelled(Stripped(b), l);
    assert (prefix + s)[|prefix|..] == s && (prefix + t)[|prefix|..] == t;
    StrippedScopable(a);
    StrippedScopable(b);
    SpelledMeetIff(Stripped(a), k, Stripped(b), l);
  }

  lemma {:induction false} StrippedScopable(contexts: seq<Context>)
    requires AllScopable(contexts)
    ensures AllScopable(Stripped(contexts))
  {
    hide Scopable;
    if |contexts| > 1 && contexts[0] == [] {
      StrippedScopable(contexts[1..]);
    }
  }

  /** Where equally many contexts leave a trace, the stored key determines each of them and the user
      key, and nothing else goes into it. */
  lemma {:induction false} StoredKeyDetermines(prefix: Bytes, a: seq<Context>, k: Bytes, b: seq<Context>, l: Bytes)
    requires AllScopable(a) && AllScopable(b) && |Stripped(a)| == |Stripped(b)|
    ensures StoredKey(Scoped(prefix, a), k) == StoredKey(Scoped(prefix, b), l)
       <==> SameContexts(Stripped(a), Stripped(b)) && k == l
  {
    hide StoredKey, Scoped;
    StoredKeysMeetIff(prefix, a, k, b, l);
    var x, y := Stripped(a), Stripped(b);
    assert x[..|y|] == x && x[|y|..] == [] && y[..|x|] == y && y[|x|..] == [];
  }

  /** Some user keys make the two nestings meet in one stored key. */
  ghost predicate CanMeet(prefix: Bytes, a: seq<Context>, b: seq<Context>) {
    exists k, l :: StoredKey(Scoped(prefix, a), k) == StoredKey(Scoped(prefix, b), l)
  }

  /** Two nestings can meet exactly when, of the contexts that leave a trace, one's begin the other's.
      So two nestings of one depth that differ meet exactly when empty contexts at the bottom of
      one are swallowed and what is left of it begins the other. */
  lemma {:induction false} CanMeetIff(prefix: Bytes, a: seq<Context>, b: seq<Context>)
    requires AllScopable(a) && AllScopable(b)
    ensures var x, y := Stripped(a), Stripped(b);
      && (CanMeet(prefix, a, b) <==> if |x| <= |y| then SameContexts(x, y[..|x|]) else SameContexts(y, x[..|y|]))
  {
    hide StoredKey, Scoped;
    var x, y := Stripped(a), Stripped(b);
    if k, l :| StoredKey(Scoped(prefix, a), k) == StoredKey(Scoped(prefix, b), l) {
      StoredKeysMeetIff(prefix, a, k, b, l);
      if |x| == |y| {
        assert x[..|y|] == x && y[..|x|] == y;
      }
    }
    if |x| <= |y| && SameContexts(x, y[..|x|]) {
      StoredKeysMeetIff(prefix, a, Spelled(y[|x|..], []), b, []);
    }
    if |x| > |y| && SameContexts(y, x[..|y|]) {
      StoredKeysMeetIff(prefix, a, [], b, Spelled(x[|y|..], []));
    }
  }

  /** The shortest case: an empty context below `a` meets `a` below `b`. */
  lemma {:induction false} EmptyBaseCollides(prefix: Bytes, a: Context, b: Context, k: Bytes)
    requires a != []
    ensures StoredKey(Scoped(prefix, [[], a]), Segment(b) + ([COLON] + k)) == StoredKey(Scoped(prefix, [a, b]), k)
  {
    hide Segment, StoredKey, Scoped;
    var swallowed, nested := [[], a], [a, b];
    assert swallowed[1..] == [a] && nested[1..] == [b];
    StoredKeySpells(prefix, swallowed, Segment(b) + ([COLON] + k));
    StoredKeySpells(prefix, nested, k);
    SpelledOne(a, Segment(b) + ([COLON] + k));
    SpelledOne(b, k);
  }

  /** A user key without a colon, in no context, never meets a key in a context, whatever the maps. */
  lemma UnscopedNeverMeets(prefix: Bytes, u: Bytes, contexts: seq<Context>, k: Bytes)
    requires Free(u, COLON) && contexts != []
    ensures StoredKey(Scoped(prefix, []), u) != StoredKey(Scoped(prefix, contexts), k)
  {
    StoredKeySpells(prefix, contexts, k);
    var first, s := Segment(Stripped(contexts)[0]), Spelled(Stripped(contexts), k);
    assert (prefix + u)[|prefix|..] == u && (prefix + s)[|prefix|..] == s;
    assert s[|first|] == COLON;
  }

  // ---------- Rules for keys ----------

  ghost predicate AdmitsScopeCuts(allowed: iset<Bytes>) {
    forall key, i, j :: key in allowed && ScopeCutAt(key, i, j) ==> key[..i] in allowed
  }

  ghost predicate NestsAmong(contexts: seq<Context>, allowed: iset<Bytes>) {
    forall i :: 0 <= i < |contexts| ==> IsMap(contexts[i]) && KeysAmong(contexts[i], allowed)
  }

  /** Where `n` contexts leave a trace in each, two keys meet only when the maps and the user key are
      the same. */
  ghost predicate ScopesApart(prefix: Bytes, allowed: iset<Bytes>, n: nat) {
    forall a, k, b, l ::
      NestsAmong(a, allowed) && NestsAmong(b, allowed) && |Stripped(a)| == n && |Stripped(b)| == n
      && StoredKey(Scoped(prefix, a), k) == StoredKey(Scoped(prefix, b), l)
      ==> SameContexts(Stripped(a), Stripped(b)) && k == l
  }

  /** A key in one context, without the prefix. */
  function Under(c: Context, key: Bytes): Bytes {
    Segment(c) + ([COLON] + key)
  }

  /** What a scope-cutting key is read as: a context, or an empty one, and the start of a user key. */
  function ScopeCut(key: Bytes, i: int, j: int): Context
    requires ScopeCutAt(key, i, j)
  {
    [(key[..i], Decoded(key[i + 1..j]).value)]
  }

  function ReadOn(key: Bytes, j: int): Bytes
    requires 0 <= j < |key|
  {
    key[j + 1..] + [EQUALS, COLON]
  }

  lemma UnderAlone(key: Bytes)
    ensures Under([(key, [])], []) == key + [EQUALS, COLON]
  {
    hide Segment;
    SegmentOfOne((key, []));
    assert Part((key, Encoded([]))) + ([COLON] + []) == key + [EQUALS, COLON];
  }

  lemma ScopeCutMeets(key: Bytes, i: int, j: int)
    requires Utf8(key) && ScopeCutAt(key, i, j)
    ensures IsMap(ScopeCut(key, i, j)) && Under(ScopeCut(key, i, j), ReadOn(key, j)) == Under([(key, [])], [])
  {
    hide Segment, Encoded, Utf8, Decoded, Part;
    CutApart(key, i, j, COLON);
    ReadBackIsText(key[i + 1..j]);
    SegmentOfOne(ScopeCut(key, i, j)[0]);
    UnderAlone(key);
    var part, rest, tail := Part((key[..i], key[i + 1..j])), key[j + 1..], [EQUALS, COLON];
    Reassociate(part, [COLON] + rest, tail);
    Reassociate([COLON], rest, tail);
  }

  lemma EmptyScopeMeets(key: Bytes)
    requires key != [] && key[0] == COLON
    ensures Under([], ReadOn(key, 0)) == Under([(key, [])], [])
  {
    hide Segment;
    SegmentSpells([]);
    UnderAlone(key);
    assert [] + ([COLON] + ReadOn(key, 0)) == key + [EQUALS, COLON];
  }

  /** A bad key, alone in a context, is read as another context, or with another user key. */
  lemma BadKeyMeets(allowed: iset<Bytes>, key: Bytes) returns (c: Context, k: Bytes)
    requires AdmitsCuts(allowed) && AdmitsScopeCuts(allowed)
    requires key in allowed && Utf8(key) && (Ambiguous(key) || CutsScope(key))
    ensures IsMap(c) && KeysAmong(c, allowed) && Under(c, k) == Under([(key, [])], [])
    ensures multiset(c) != multiset([(key, [])]) || k != []
  {
    hide Segment, LexLess, ReadsBack, Under;
    if Ambiguous(key) {
      var i, j :| 0 <= i < |key| && 0 <= j < |key| && CutsAt(key, i, j);
      c, k := CutInTwo(key, i, j, []), [];
      AmbiguousKeyCollides(key, [], i, j);
      SameSegmentSameScope(c, [(key, [])]);
    } else if key[0] == COLON {
      c, k := [], ReadOn(key, 0);
      EmptyScopeMeets(key);
    } else {
      var i, j :| 0 <= i < |key| && 0 <= j < |key| && ScopeCutAt(key, i, j);
      c, k := ScopeCut(key, i, j), ReadOn(key, j);
      ScopeCutMeets(key, i, j);
    }
  }

  lemma SameSegmentSameScope(a: Context, b: Context)
    requires Segment(a) == Segment(b)
    ensures Under(a, []) == Under(b, [])
  {
  }

  /** A context below others, none of them empty. */
  function Nested(outer: Context, n: nat, c: Context): seq<Context>
    requires n > 0
  {
    seq(n - 1, _ => outer) + [c]
  }

  lemma NestedSpells(prefix: Bytes, outer: Context, n: nat, c: Context, key: Bytes)
    requires n > 0 && outer != []
    ensures Stripped(Nested(outer, n, c)) == Nested(outer, n, c)
    ensures StoredKey(Scoped(prefix, Nested(outer, n, c)), key) == prefix + Spelled(seq(n - 1, _ => outer), Under(c, key))
  {
    hide StoredKey, Scoped, Spelled, Segment;
    StoredKeySpells(prefix, Nested(outer, n, c), key);
    SpelledSnoc(seq(n - 1, _ => outer), c, key);
  }

  lemma BadKeyMeetsNested(prefix: Bytes, allowed: iset<Bytes>, key: Bytes, n: nat)
    requires AdmitsCuts(allowed) && AdmitsScopeCuts(allowed) && n > 0
    requires key in allowed && Utf8(key) && (Ambiguous(key) || CutsScope(key))
    ensures !ScopesApart(prefix, allowed, n)
  {
    hide StoredKey, Scoped, Stripped, Under, Spelled, AdmitsCuts, AdmitsScopeCuts, Ambiguous, CutsScope;
    var one: Context := [(key, [])];
    var c, k := BadKeyMeets(allowed, key);
    var a, b := Nested(one, n, c), Nested(one, n, one);
    NestedSpells(prefix, one, n, c, k);
    NestedSpells(prefix, one, n, one, []);
    assert IsMap(one) && KeysAmong(one, allowed);
    assert a[n - 1] == c && b[n - 1] == one;
    NotApart(prefix, allowed, a, k, b, []);
  }

  lemma NotApart(prefix: Bytes, allowed: iset<Bytes>, a: seq<Context>, k: Bytes, b: seq<Context>, l: Bytes)
    requires NestsAmong(a, allowed) && NestsAmong(b, allowed) && |Stripped(a)| == |Stripped(b)|
    requires StoredKey(Scoped(prefix, a), k) == StoredKey(Scoped(prefix, b), l)
    requires !SameContexts(Stripped(a), Stripped(b)) || k != l
    ensures !ScopesApart(prefix, allowed, |Stripped(a)|)
  {
    hide StoredKey, Scoped, Stripped;
  }

  /** Under a rule for keys that admits the names a key can be cut into, and at any depth: scoped keys
      never meet exactly when the rule admits no ambiguous key and none that can be taken to end a
      context. */
  lemma {:induction false} ScopesApartIff(prefix: Bytes, allowed: iset<Bytes>, n: nat)
    requires AdmitsCuts(allowed) && AdmitsScopeCuts(allowed) && (forall key :: key in allowed ==> Utf8(key)) && n > 0
    ensures ScopesApart(prefix, allowed, n) <==> forall key :: key in allowed ==> !Ambiguous(key) && !CutsScope(key)
  {
    hide IsMap, Ambiguous, CutsScope, StoredKey, Scoped, Stripped, AdmitsCuts, AdmitsScopeCuts;
    if key :| key in allowed && (Ambiguous(key) || CutsScope(key)) {
      BadKeyMeetsNested(prefix, allowed, key, n);
    } else {
      forall a, k, b, l |
        NestsAmong(a, allowed) && NestsAmong(b, allowed) && |Stripped(a)| == n && |Stripped(b)| == n
        && StoredKey(Scoped(prefix, a), k) == StoredKey(Scoped(prefix, b), l)
        ensures SameContexts(Stripped(a), Stripped(b)) && k == l
      {
        assert AllScopable(a) && AllScopable(b);
        StoredKeyDetermines(prefix, a, k, b, l);
      }
    }
  }

  /** A plain rule: a key does not begin with a colon, and no `&` and no colon follows a `=` in it. */
  predicate IsPlain(key: Bytes) {
    && (key != [] ==> key[0] != COLON)
    && forall i, j :: 0 <= i < j < |key| && key[i] == EQUALS ==> key[j] != AMPERSAND && key[j] != COLON
  }

  ghost const PLAIN: iset<Bytes> := iset key | Utf8(key) && IsPlain(key)

  /** Plain keys never meet, at any depth. */
  lemma PlainKeysApart(prefix: Bytes, n: nat)
    requires n > 0
    ensures ScopesApart(prefix, PLAIN, n)
  {
    hide ScopesApart, Utf8, ReadsBack, LexLess;
    ScopesApartIff(prefix, PLAIN, n);
  }
}
