/** BM25 ranking of tools against a query, over the reals. */
module ToolRank {
  import opened Text
  import opened Ordering

  type Token = string

  /** The Unicode facts tokenizing rests on. */
  datatype Alphabet = Alphabet(isAlphanumeric: char -> bool, lowered: string -> string)

  /** The maximal runs of alphanumeric characters, lowered. `run` is the one being read. */
  function TokensFrom(a: Alphabet, text: string, run: string): seq<Token>
    decreases |text|
  {
    var finished := if run == [] then [] else [a.lowered(run)];
    if text == [] then finished
    else if a.isAlphanumeric(text[0]) then TokensFrom(a, text[1..], run + [text[0]])
    else finished + TokensFrom(a, text[1..], [])
  }

  function Tokenized(a: Alphabet, text: string): seq<Token> {
    TokensFrom(a, text, [])
  }

  /** Text on the two sides of a separator is tokenized apart. */
  lemma {:induction false} TokensSplit(a: Alphabet, left: string, sep: char, right: string, run: string)
    requires !a.isAlphanumeric(sep)
    ensures TokensFrom(a, left + [sep] + right, run) == TokensFrom(a, left, run) + Tokenized(a, right)
    decreases |left|
  {
    var text := left + [sep] + right;
    if left == [] {
      assert text[0] == sep && text[1..] == right;
    } else {
      var c, rest := left[0], left[1..];
      assert text[0] == c && text[1..] == rest + [sep] + right;
      TokensSplit(a, rest, sep, right, if a.isAlphanumeric(c) then run + [c] else []);
      if !a.isAlphanumeric(c) {
        Reassociate(if run == [] then [] else [a.lowered(run)], TokensFrom(a, rest, []), Tokenized(a, right));
      }
    }
  }

  datatype Tool = Tool(name: string, description: string)

  /** The tokens a tool is scored by: its name and description, as one text. */
  function ToolTokens(a: Alphabet, tool: Tool): seq<Token> {
    Tokenized(a, tool.name + [' '] + tool.description)
  }

  /** A space between them keeps name and description apart: their tokens never run together. */
  lemma NameAndDescription(a: Alphabet, tool: Tool)
    requires !a.isAlphanumeric(' ')
    ensures ToolTokens(a, tool) == Tokenized(a, tool.name) + Tokenized(a, tool.description)
  {
    TokensSplit(a, tool.name, ' ', tool.description, []);
  }

  /** Drop every token that was seen before it. */
  function Dedup(tokens: seq<Token>): seq<Token> {
    if tokens == [] then []
    else
      var front, last := tokens[..|tokens| - 1], tokens[|tokens| - 1];
      if last in front then Dedup(front) else Dedup(front) + [last]
  }

  method DedupInPlace(tokens: seq<Token>) returns (kept: seq<Token>)
    ensures kept == Dedup(tokens)
  {
    kept := [];
    var seen: set<Token> := {};
    for i := 0 to |tokens|
      invariant kept == Dedup(tokens[..i])
      invariant forall t :: t in seen <==> t in tokens[..i]
    {
      assert tokens[..i + 1][..i] == tokens[..i];
      if tokens[i] !in seen {
        seen := seen + {tokens[i]};
        kept := kept + [tokens[i]];
      }
    }
    assert tokens[..|tokens|] == tokens;
  }

  lemma {:induction false} DedupIsSet(tokens: seq<Token>)
    ensures Distinct(Dedup(tokens))
    ensures forall t :: t in Dedup(tokens) <==> t in tokens
  {
    if tokens != [] {
      var front := tokens[..|tokens| - 1];
      DedupIsSet(front);
      assert tokens == front + [tokens[|tokens| - 1]];
    }
  }

  /** What is kept are the first occurrences, in their order. */
  ghost predicate AreFirsts(tokens: seq<Token>, kept: seq<Token>, places: seq<nat>) {
    && |places| == |kept|
    && (forall i, j :: 0 <= i < j < |places| ==> places[i] < places[j])
    && (forall k :: 0 <= k < |places| ==> places[k] < |tokens| && tokens[places[k]] == kept[k] && kept[k] !in tokens[..places[k]])
    && (forall p :: 0 <= p < |tokens| && tokens[p] !in tokens[..p] ==> p in places)
  }

  lemma {:induction false} DedupKeepsFirsts(tokens: seq<Token>) returns (places: seq<nat>)
    ensures AreFirsts(tokens, Dedup(tokens), places)
  {
    if tokens == [] {
      places := [];
    } else {
      hide AreFirsts;
      var front, last := tokens[..|tokens| - 1], tokens[|tokens| - 1];
      var before := DedupKeepsFirsts(front);
      assert tokens == front + [last];
      if last in front {
        OldToken(front, last, Dedup(front), before);
        places := before;
      } else {
        NewToken(front, last, Dedup(front), before);
        places := before + [|front|];
      }
    }
  }

  lemma PrefixOfPrefix(tokens: seq<Token>, last: Token)
    ensures forall p :: 0 <= p <= |tokens| ==> (tokens + [last])[..p] == tokens[..p]
  {
  }

  lemma OldToken(tokens: seq<Token>, last: Token, kept: seq<Token>, places: seq<nat>)
    requires AreFirsts(tokens, kept, places) && last in tokens
    ensures AreFirsts(tokens + [last], kept, places)
  {
    var more := tokens + [last];
    PrefixOfPrefix(tokens, last);
    assert more[..|tokens|] == tokens;
    forall p | 0 <= p < |more| && more[p] !in more[..p] ensures p in places {
      assert p < |tokens|;
      assert tokens[p] !in tokens[..p];
    }
  }

  lemma NewToken(tokens: seq<Token>, last: Token, kept: seq<Token>, places: seq<nat>)
    requires AreFirsts(tokens, kept, places) && last !in tokens
    ensures AreFirsts(tokens + [last], kept + [last], places + [|tokens|])
  {
    var more, all, wider := tokens + [last], kept + [last], places + [|tokens|];
    PrefixOfPrefix(tokens, last);
    assert more[..|tokens|] == tokens;
    forall k | 0 <= k < |wider|
      ensures wider[k] < |more| && more[wider[k]] == all[k] && all[k] !in more[..wider[k]]
    {
      if k < |places| {
        assert wider[k] == places[k] && all[k] == kept[k];
      }
    }
    forall p | 0 <= p < |more| && more[p] !in more[..p] ensures p in wider {
      if p < |tokens| {
        assert tokens[p] !in tokens[..p];
        assert p in places;
      } else {
        assert wider[|places|] == p;
      }
    }
  }

  // ---------- Scores ----------

  const K1: real := 1.2
  const B: real := 0.75

  function Occurrences(tokens: seq<Token>, term: Token): (n: nat)
    ensures n > 0 <==> term in tokens
  {
    if tokens == [] then 0 else Occurrences(tokens[1..], term) + if tokens[0] == term then 1 else 0
  }

  type Corpus = seq<seq<Token>>

  function TotalLength(corpus: Corpus): nat {
    if corpus == [] then 0 else |corpus[0]| + TotalLength(corpus[1..])
  }

  function AverageLength(corpus: Corpus): (avg: real)
    ensures avg >= 0.0
  {
    if corpus == [] then 0.0 else TotalLength(corpus) as real / |corpus| as real
  }

  function DocumentFrequency(corpus: Corpus, term: Token): (n: nat)
    ensures n <= |corpus|
  {
    if corpus == [] then 0 else DocumentFrequency(corpus[1..], term) + if term in corpus[0] then 1 else 0
  }

  function Rarity(corpus: Corpus, term: Token): (r: real)
    ensures r > 1.0
  {
    var documents, frequency := |corpus| as real, DocumentFrequency(corpus, term) as real;
    QuotientPositive(documents - frequency + 0.5, frequency + 0.5);
    1.0 + (documents - frequency + 0.5) / (frequency + 0.5)
  }

  /** What one query term adds to one document's score. */
  function TermScore(ln: real -> real, corpus: Corpus, tokens: seq<Token>, term: Token): real {
    var frequency := Occurrences(tokens, term) as real;
    if frequency == 0.0 then 0.0
    else
      var average := AverageLength(corpus);
      var norm := if average == 0.0 then 0.0 else |tokens| as real / average;
      var denominator := Denominator(frequency, norm);
      ln(Rarity(corpus, term)) * (frequency * (K1 + 1.0)) / denominator
  }

  function Denominator(frequency: real, norm: real): (d: real)
    requires frequency > 0.0 && norm >= 0.0
    ensures d > 0.0
  {
    frequency + K1 * (1.0 - B + B * norm)
  }

  function ScoreOver(ln: real -> real, corpus: Corpus, tokens: seq<Token>, terms: seq<Token>): real {
    if terms == [] then 0.0
    else ScoreOver(ln, corpus, tokens, terms[..|terms| - 1]) + TermScore(ln, corpus, tokens, terms[|terms| - 1])
  }

  /** The score of document `i` against the tokens of a query. */
  function ScoreOf(ln: real -> real, corpus: Corpus, query: seq<Token>, i: nat): real
    requires i < |corpus|
  {
    ScoreOver(ln, corpus, corpus[i], Dedup(query))
  }

  function CorpusOf(a: Alphabet, tools: seq<Tool>): (corpus: Corpus)
    ensures |corpus| == |tools|
    ensures forall i :: 0 <= i < |tools| ==> corpus[i] == ToolTokens(a, tools[i])
  {
    if tools == [] then [] else [ToolTokens(a, tools[0])] + CorpusOf(a, tools[1..])
  }

  /** One score a tool, in their order. */
  method Score(ln: real -> real, a: Alphabet, query: string, tools: seq<Tool>) returns (scores: seq<real>)
    ensures |scores| == |tools|
    ensures forall i :: 0 <= i < |tools| ==> scores[i] == ScoreOf(ln, CorpusOf(a, tools), Tokenized(a, query), i)
  {
    hide TermScore, Dedup, Tokenized, CorpusOf;
    var terms := DedupInPlace(Tokenized(a, query));
    scores := seq(|tools|, _ => 0.0);
    if terms == [] || tools == [] {
      return;
    }
    var corpus := CorpusOf(a, tools);
    for t := 0 to |terms|
      invariant |scores| == |corpus|
      invariant forall i :: 0 <= i < |corpus| ==> scores[i] == ScoreOver(ln, corpus, corpus[i], terms[..t])
    {
      assert terms[..t + 1][..t] == terms[..t];
      ghost var before := scores;
      for i := 0 to |corpus|
        invariant |scores| == |corpus|
        invariant forall k :: 0 <= k < i ==> scores[k] == ScoreOver(ln, corpus, corpus[k], terms[..t + 1])
        invariant forall k :: i <= k < |corpus| ==> scores[k] == before[k]
      {
        scores := scores[i := scores[i] + TermScore(ln, corpus, corpus[i], terms[t])];
      }
    }
    assert terms[..|terms|] == terms;
  }

  /** All that is asked of the logarithm. */
  ghost predicate PositiveAboveOne(ln: real -> real) {
    forall x :: x > 1.0 ==> ln(x) > 0.0
  }

  lemma TermScoreSign(ln: real -> real, corpus: Corpus, tokens: seq<Token>, term: Token)
    requires PositiveAboveOne(ln)
    ensures TermScore(ln, corpus, tokens, term) >= 0.0
    ensures TermScore(ln, corpus, tokens, term) > 0.0 <==> term in tokens
  {
    if term in tokens {
      var frequency := Occurrences(tokens, term) as real;
      var average := AverageLength(corpus);
      var norm := if average == 0.0 then 0.0 else |tokens| as real / average;
      var idf, weight := ln(Rarity(corpus, term)), frequency * (K1 + 1.0);
      ProductPositive(idf, weight);
      QuotientPositive(idf * weight, Denominator(frequency, norm));
    }
  }

  lemma ProductPositive(x: real, y: real)
    requires x > 0.0 && y > 0.0
    ensures x * y > 0.0
  {
  }

  lemma QuotientPositive(x: real, y: real)
    requires x > 0.0 && y > 0.0
    ensures x / y > 0.0
  {
  }

  lemma {:induction false} ScoreOverSign(ln: real -> real, corpus: Corpus, tokens: seq<Token>, terms: seq<Token>)
    requires PositiveAboveOne(ln)
    ensures ScoreOver(ln, corpus, tokens, terms) >= 0.0
    ensures ScoreOver(ln, corpus, tokens, terms) > 0.0 <==> exists t :: t in terms && t in tokens
  {
    if terms != [] {
      var front, last := terms[..|terms| - 1], terms[|terms| - 1];
      ScoreOverSign(ln, corpus, tokens, front);
      TermScoreSign(ln, corpus, tokens, last);
      assert terms == front + [last];
    }
  }

  /** A document scores above zero exactly when it shares a token with the query. */
  lemma PositiveIffShared(ln: real -> real, corpus: Corpus, query: seq<Token>, i: nat)
    requires PositiveAboveOne(ln) && i < |corpus|
    ensures ScoreOf(ln, corpus, query, i) > 0.0 <==> exists t :: t in query && t in corpus[i]
    ensures ScoreOf(ln, corpus, query, i) >= 0.0
  {
    ScoreOverSign(ln, corpus, corpus[i], Dedup(query));
    DedupIsSet(query);
  }

  lemma {:induction false} ScoreOverRemove(ln: real -> real, corpus: Corpus, tokens: seq<Token>, terms: seq<Token>, k: nat)
    requires k < |terms|
    ensures ScoreOver(ln, corpus, tokens, terms)
         == ScoreOver(ln, corpus, tokens, terms[..k] + terms[k + 1..]) + TermScore(ln, corpus, tokens, terms[k])
  {
    var n := |terms| - 1;
    var without := terms[..k] + terms[k + 1..];
    if k == n {
      assert without == terms[..n];
    } else {
      ScoreOverRemove(ln, corpus, tokens, terms[..n], k);
      assert without[..|without| - 1] == terms[..n][..k] + terms[..n][k + 1..];
      assert without[|without| - 1] == terms[n];
    }
  }

  lemma {:induction false} ScoreOverOfSet(ln: real -> real, corpus: Corpus, tokens: seq<Token>, a: seq<Token>, b: seq<Token>)
    requires Distinct(a) && Distinct(b) && forall t :: t in a <==> t in b
    ensures ScoreOver(ln, corpus, tokens, a) == ScoreOver(ln, corpus, tokens, b)
    decreases |a|
  {
    if a == [] {
      assert forall i :: 0 <= i < |b| ==> b[i] in b;
    } else {
      var n := |a| - 1;
      assert a[n] in b;
      var k :| 0 <= k < |b| && b[k] == a[n];
      var front, without := a[..n], b[..k] + b[k + 1..];
      ScoreOverRemove(ln, corpus, tokens, b, k);
      RemovedIsSame(a, b, k);
      ScoreOverOfSet(ln, corpus, tokens, front, without);
    }
  }

  lemma RemovedIsSame(a: seq<Token>, b: seq<Token>, k: nat)
    requires Distinct(a) && Distinct(b) && a != [] && k < |b| && b[k] == a[|a| - 1]
    requires forall t :: t in a <==> t in b
    ensures var without := b[..k] + b[k + 1..];
      Distinct(without) && forall t :: t in a[..|a| - 1] <==> t in without
  {
    var n, without := |a| - 1, b[..k] + b[k + 1..];
    assert b == b[..k] + [b[k]] + b[k + 1..];
    assert a == a[..n] + [a[n]];
    assert forall i :: 0 <= i < |without| ==> without[i] == if i < k then b[i] else b[i + 1];
    forall t
      ensures t in a[..n] <==> t in without
    {
      if t == a[n] {
        assert t !in a[..n] && t !in without;
      } else {
        assert t in a[..n] <==> t in a;
        assert t in without <==> t in b;
      }
    }
  }

  /** Only which tokens the query has matters: repeating or reordering them changes no score. */
  lemma ScoreIsOfTokenSet(ln: real -> real, corpus: Corpus, query: seq<Token>, query': seq<Token>, i: nat)
    requires i < |corpus| && forall t :: t in query <==> t in query'
    ensures ScoreOf(ln, corpus, query, i) == ScoreOf(ln, corpus, query', i)
  {
    DedupIsSet(query);
    DedupIsSet(query');
    ScoreOverOfSet(ln, corpus, corpus[i], Dedup(query), Dedup(query'));
  }

  // ---------- What the counts and scores are ----------

  /** The positions a term occurs at, and the documents it occurs in. */
  ghost function PositionsOf(tokens: seq<Token>, term: Token): set<nat> {
    set i: nat | i < |tokens| && tokens[i] == term
  }

  ghost function DocumentsWith(corpus: Corpus, term: Token): set<nat> {
    set i: nat | i < |corpus| && term in corpus[i]
  }

  lemma {:induction false} OccurrencesAre(tokens: seq<Token>, term: Token)
    ensures Occurrences(tokens, term) == |PositionsOf(tokens, term)|
  {
    if tokens == [] {
      assert PositionsOf(tokens, term) == {};
    } else {
      OccurrencesAre(tokens[1..], term);
      PositionsCons(tokens, term);
      hide PositionsOf;
      CountOneMore(PositionsOf(tokens[1..], term), tokens[0] == term);
    }
  }

  lemma PositionsCons(tokens: seq<Token>, term: Token)
    requires tokens != []
    ensures PositionsOf(tokens, term) == OneMore(PositionsOf(tokens[1..], term), tokens[0] == term)
  {
    forall i: nat ensures i in PositionsOf(tokens, term) <==> i in OneMore(PositionsOf(tokens[1..], term), tokens[0] == term) {
      InOneMore(PositionsOf(tokens[1..], term), tokens[0] == term, i);
    }
  }

  lemma {:induction false} FrequencyIs(corpus: Corpus, term: Token)
    ensures DocumentFrequency(corpus, term) == |DocumentsWith(corpus, term)|
  {
    if corpus == [] {
      assert DocumentsWith(corpus, term) == {};
    } else {
      FrequencyIs(corpus[1..], term);
      DocumentsCons(corpus, term);
      hide DocumentsWith;
      CountOneMore(DocumentsWith(corpus[1..], term), term in corpus[0]);
    }
  }

  lemma DocumentsCons(corpus: Corpus, term: Token)
    requires corpus != []
    ensures DocumentsWith(corpus, term) == OneMore(DocumentsWith(corpus[1..], term), term in corpus[0])
  {
    forall i: nat ensures i in DocumentsWith(corpus, term) <==> i in OneMore(DocumentsWith(corpus[1..], term), term in corpus[0]) {
      InOneMore(DocumentsWith(corpus[1..], term), term in corpus[0], i);
    }
  }

  /** Positions in a list, seen from a list that is one longer at the front. */
  function OneMore(s: set<nat>, first: bool): set<nat> {
    Shifted(s) + if first then {0} else {}
  }

  lemma InOneMore(s: set<nat>, first: bool, i: nat)
    ensures i in OneMore(s, first) <==> if i == 0 then first else i - 1 in s
  {
    if i > 0 && i - 1 in s {
      assert i in Shifted(s);
    }
  }

  lemma CountOneMore(s: set<nat>, first: bool)
    ensures |OneMore(s, first)| == |s| + if first then 1 else 0
  {
    CountShifted(s);
    assert 0 !in Shifted(s);
  }

  function Shifted(s: set<nat>): set<nat> {
    set i | i in s :: i + 1
  }

  lemma {:induction false} CountShifted(s: set<nat>)
    ensures |Shifted(s)| == |s|
  {
    if s == {} {
      assert Shifted(s) == {};
    } else {
      var x :| x in s;
      CountShifted(s - {x});
      ShiftOne(s - {x}, x);
      assert s == (s - {x}) + {x};
    }
  }

  lemma ShiftOne(s: set<nat>, x: nat)
    ensures Shifted(s + {x}) == Shifted(s) + {x + 1}
    ensures x !in s ==> x + 1 !in Shifted(s)
  {
    forall i: nat ensures i in Shifted(s + {x}) <==> i in Shifted(s) + {x + 1} {
      if i > 0 {
        assert i - 1 in s + {x} <==> i in Shifted(s + {x});
        assert i - 1 in s <==> i in Shifted(s);
      }
    }
  }

  /** Lengths add up over the documents, and the average is the total over their number. */
  lemma {:induction false} TotalLengthAdds(a: Corpus, b: Corpus)
    ensures TotalLength(a + b) == TotalLength(a) + TotalLength(b)
  {
    if a == [] {
      assert a + b == b;
    } else {
      assert (a + b)[1..] == a[1..] + b;
      TotalLengthAdds(a[1..], b);
    }
  }

  lemma AverageIs(corpus: Corpus, document: seq<Token>)
    ensures TotalLength([]) == 0 && TotalLength([document]) == |document|
    ensures corpus != [] ==> AverageLength(corpus) * |corpus| as real == TotalLength(corpus) as real
  {
    hide TotalLength;
    if corpus != [] {
      QuotientTimes(TotalLength(corpus) as real, |corpus| as real);
    }
    OneLength(document);
  }

  lemma OneLength(document: seq<Token>)
    ensures TotalLength([]) == 0 && TotalLength([document]) == |document|
  {
    assert [document][1..] == [];
  }

  lemma QuotientTimes(x: real, y: real)
    requires y > 0.0
    ensures x / y * y == x
  {
  }

  lemma {:induction false} NotEmptyOnAverage(corpus: Corpus, i: nat)
    requires i < |corpus| && corpus[i] != []
    ensures TotalLength(corpus) > 0 && AverageLength(corpus) > 0.0
  {
    if i > 0 {
      NotEmptyOnAverage(corpus[1..], i - 1);
    }
    QuotientPositive(TotalLength(corpus) as real, |corpus| as real);
  }

  /** The weight of a term that occurs `f` times in a document of `length` tokens, in a corpus of `all`
      documents of average length `average`, `with` of which hold the term: Okapi BM25 with the
      parameters 1.2 and 0.75. */
  function Bm25(ln: real -> real, all: real, having: real, f: real, length: real, average: real): real
    requires having >= 0.0 && f > 0.0 && length >= 0.0 && average > 0.0
  {
    DampingPositive(length, average);
    ln(1.0 + (all - having + 0.5) / (having + 0.5)) * (f * 2.2) / (f + Damping(length, average))
  }

  function Damping(length: real, average: real): real
    requires average > 0.0
  {
    1.2 * (0.25 + 0.75 * (length / average))
  }

  lemma DampingPositive(length: real, average: real)
    requires length >= 0.0 && average > 0.0
    ensures Damping(length, average) > 0.0
  {
    if length > 0.0 {
      QuotientPositive(length, average);
    }
  }

  /** What a term adds to a document that holds it is that weight. */
  lemma TermScoreIs(ln: real -> real, corpus: Corpus, i: nat, term: Token)
    requires i < |corpus| && term in corpus[i]
    ensures AverageLength(corpus) > 0.0 && |PositionsOf(corpus[i], term)| > 0
    ensures TermScore(ln, corpus, corpus[i], term) ==
      Bm25(ln, |corpus| as real, |DocumentsWith(corpus, term)| as real,
           |PositionsOf(corpus[i], term)| as real, |corpus[i]| as real, AverageLength(corpus))
  {
    NotEmptyOnAverage(corpus, i);
    OccurrencesAre(corpus[i], term);
    FrequencyIs(corpus, term);
    DampingPositive(|corpus[i]| as real, AverageLength(corpus));
  }

  ghost predicate StrictlyIncreasing(ln: real -> real) {
    forall x, y :: 0.0 < x < y ==> ln(x) < ln(y)
  }

  lemma TimesLess(x: real, y: real, z: real)
    requires x < y && z > 0.0
    ensures x * z < y * z
  {
    ProductPositive(y - x, z);
  }

  lemma QuotientLess(x: real, y: real, z: real)
    requires x < y && z > 0.0
    ensures x / z < y / z
  {
    QuotientPositive(y - x, z);
    assert y / z - x / z == (y - x) / z;
  }

  lemma LessOfMore(x: real, y: real, z: real)
    requires x > 0.0 && 0.0 < y < z
    ensures x / z < x / y
  {
    ProductPositive(y, z);
    TimesLess(y, z, x);
    QuotientLess(x * y, x * z, y * z);
    CancelRight(x, y, z);
    CancelRight(x, z, y);
  }

  lemma CancelRight(x: real, y: real, z: real)
    requires y > 0.0 && z > 0.0
    ensures y * z > 0.0 && (x * y) / (y * z) == x / z
  {
    ProductPositive(y, z);
    var q := x / z;
    assert q * z == x;
    assert q * (y * z) == (q * z) * y == x * y;
  }

  /** Of two terms that occur equally often in documents of equal length, the one in fewer documents of
      the corpus adds more. */
  lemma RarerAddsMore(ln: real -> real, all: real, rare: real, common: real, f: real, length: real, average: real)
    requires StrictlyIncreasing(ln)
    requires 0.0 <= rare < common <= all && f > 0.0 && length >= 0.0 && average > 0.0
    ensures Bm25(ln, all, common, f, length, average) < Bm25(ln, all, rare, f, length, average)
  {
    DampingPositive(length, average);
    var x, y := (all - common + 0.5) / (common + 0.5), (all - rare + 0.5) / (rare + 0.5);
    QuotientPositive(all - common + 0.5, common + 0.5);
    LessOfMore(all - common + 0.5, rare + 0.5, common + 0.5);
    QuotientLess(all - common + 0.5, all - rare + 0.5, rare + 0.5);
    var low, high, weight := ln(1.0 + x), ln(1.0 + y), f * 2.2;
    assert low < high;
    TimesLess(low, high, weight);
    QuotientLess(low * weight, high * weight, f + Damping(length, average));
  }

  /** A further occurrence adds more. */
  lemma OftenerAddsMore(ln: real -> real, all: real, having: real, f: real, g: real, length: real, average: real)
    requires PositiveAboveOne(ln)
    requires 0.0 <= having <= all && 0.0 < f < g && length >= 0.0 && average > 0.0
    ensures Bm25(ln, all, having, f, length, average) < Bm25(ln, all, having, g, length, average)
  {
    DampingPositive(length, average);
    QuotientPositive(all - having + 0.5, having + 0.5);
    var idf, d := ln(1.0 + (all - having + 0.5) / (having + 0.5)), Damping(length, average);
    Saturates(idf, f, g, d);
  }

  /** `a * f / (f + d)` grows with `f`: it is `a - a * d / (f + d)`. */
  lemma Saturates(a: real, f: real, g: real, d: real)
    requires a > 0.0 && 0.0 < f < g && d > 0.0
    ensures a * (f * 2.2) / (f + d) < a * (g * 2.2) / (g + d)
  {
    var k := 2.2 * a;
    ProductPositive(k, d);
    LessOfMore(k * d, f + d, g + d);
    Complement(k, f, d);
    Complement(k, g, d);
    assert a * (f * 2.2) == k * f && a * (g * 2.2) == k * g;
  }

  lemma Complement(k: real, f: real, d: real)
    requires f > 0.0 && d > 0.0
    ensures k * f / (f + d) == k - k * d / (f + d)
  {
    var sum := f + d;
    assert k * f == k * sum - k * d;
    assert (k * sum - k * d) / sum == k * sum / sum - k * d / sum;
    assert k * sum / sum == k;
  }

  /** In a longer document the same term adds less. */
  lemma LongerAddsLess(ln: real -> real, all: real, having: real, f: real, short: real, long: real, average: real)
    requires PositiveAboveOne(ln)
    requires 0.0 <= having <= all && f > 0.0 && 0.0 <= short < long && average > 0.0
    ensures Bm25(ln, all, having, f, long, average) < Bm25(ln, all, having, f, short, average)
  {
    DampingPositive(short, average);
    DampingPositive(long, average);
    QuotientPositive(all - having + 0.5, having + 0.5);
    QuotientLess(short, long, average);
    var idf := ln(1.0 + (all - having + 0.5) / (having + 0.5));
    ProductPositive(idf, f * 2.2);
    LessOfMore(idf * (f * 2.2), f + Damping(short, average), f + Damping(long, average));
  }

  /** So in one corpus, for two terms as frequent in equally long documents. */
  lemma RarerTermScoresMore(ln: real -> real, corpus: Corpus, i: nat, s: Token, j: nat, t: Token)
    requires StrictlyIncreasing(ln)
    requires i < |corpus| && s in corpus[i] && j < |corpus| && t in corpus[j] && |corpus[i]| == |corpus[j]|
    requires |PositionsOf(corpus[i], s)| == |PositionsOf(corpus[j], t)|
    requires |DocumentsWith(corpus, s)| < |DocumentsWith(corpus, t)|
    ensures TermScore(ln, corpus, corpus[j], t) < TermScore(ln, corpus, corpus[i], s)
  {
    hide TermScore, Bm25, AverageLength;
    TermScoreIs(ln, corpus, i, s);
    TermScoreIs(ln, corpus, j, t);
    FrequencyIs(corpus, t);
    RarerAddsMore(ln, |corpus| as real, |DocumentsWith(corpus, s)| as real, |DocumentsWith(corpus, t)| as real,
      |PositionsOf(corpus[i], s)| as real, |corpus[i]| as real, AverageLength(corpus));
  }

  /** A score is the sum of the weights of the distinct query terms the document holds. */
  lemma ScoreIsSum(ln: real -> real, corpus: Corpus, query: seq<Token>, i: nat)
    requires i < |corpus|
    ensures ScoreOf(ln, corpus, query, i) == ScoreOver(ln, corpus, corpus[i], Dedup(query))
    ensures Distinct(Dedup(query)) && forall t :: t in Dedup(query) <==> t in query
    ensures forall t :: t !in corpus[i] ==> TermScore(ln, corpus, corpus[i], t) == 0.0
  {
    DedupIsSet(query);
  }

  /** Nothing gives no tokens, and a word that is all letters and digits gives itself, lowered; with
      `TokensSplit` this says what any text gives. */
  lemma WordIsToken(a: Alphabet, word: string)
    requires forall i :: 0 <= i < |word| ==> a.isAlphanumeric(word[i])
    ensures Tokenized(a, word) == if word == [] then [] else [a.lowered(word)]
  {
    WordGrows(a, word, []);
    assert [] + word == word;
  }

  lemma {:induction false} WordGrows(a: Alphabet, word: string, run: string)
    requires forall i :: 0 <= i < |word| ==> a.isAlphanumeric(word[i])
    ensures TokensFrom(a, word, run) == if run + word == [] then [] else [a.lowered(run + word)]
    decreases |word|
  {
    if word == [] {
      assert run + word == run;
    } else {
      WordGrows(a, word[1..], run + [word[0]]);
      assert run + [word[0]] + word[1..] == run + word;
    }
  }

  // ---------- Ranking ----------

  // ---------- Ranking ----------

  /** A document by its position and score. */
  type Match = (nat, real)

  /** The comparison the sort is given: higher scores first, ties left to the sort. */
  predicate NotBelow(x: Match, y: Match) {
    x.1 >= y.1
  }

  /** Higher scores first, earlier documents first on ties. */
  predicate Precedes(x: Match, y: Match) {
    x.1 > y.1 || (x.1 == y.1 && (x.0 < y.0 || x == y))
  }

  /** The documents with a positive score, among the first `n`. */
  function Hits(scores: seq<real>, n: nat): seq<Match>
    requires n <= |scores|
  {
    if n == 0 then [] else Hits(scores, n - 1) + if scores[n - 1] > 0.0 then [(n - 1, scores[n - 1])] else []
  }

  lemma {:induction false} HitsAre(scores: seq<real>, n: nat)
    requires n <= |scores|
    ensures forall m: Match :: m in Hits(scores, n) <==> m.0 < n && m.1 == scores[m.0] && m.1 > 0.0
    ensures forall i, j :: 0 <= i < j < |Hits(scores, n)| ==> Hits(scores, n)[i].0 < Hits(scores, n)[j].0
  {
    if n > 0 {
      HitsAre(scores, n - 1);
    }
  }

  lemma PrecedesIsTotalOrder()
    ensures TotalOrder(Precedes)
  {
  }

  lemma {:induction false} InsertIsStable(x: Match, s: seq<Match>)
    requires forall y :: y in s ==> x.0 < y.0
    ensures Insert(NotBelow, x, s) == Insert(Precedes, x, s)
  {
    if s != [] {
      assert s[0] in s;
      InsertIsStable(x, s[1..]);
    }
  }

  /** Sorting by score alone leaves ties in document order. */
  lemma {:induction false} SortIsStable(s: seq<Match>)
    requires forall i, j :: 0 <= i < j < |s| ==> s[i].0 < s[j].0
    ensures Sorted(NotBelow, s) == Sorted(Precedes, s)
  {
    if s != [] {
      SortIsStable(s[1..]);
      PrecedesIsTotalOrder();
      SortedIsSorted(Precedes, s[1..]);
      forall y | y in Sorted(Precedes, s[1..])
        ensures s[0].0 < y.0
      {
        assert y in multiset(Sorted(Precedes, s[1..]));
        assert y in multiset(s[1..]);
      }
      InsertIsStable(s[0], Sorted(Precedes, s[1..]));
    }
  }

  /** What ranking returns: exactly the documents that share a token with the query, by descending
      score, and in document order where scores tie. */
  ghost predicate IsRanking(ln: real -> real, corpus: Corpus, query: seq<Token>, ranking: seq<Match>) {
    && (forall m: Match :: m in ranking <==>
          m.0 < |corpus| && m.1 == ScoreOf(ln, corpus, query, m.0) && exists t :: t in query && t in corpus[m.0])
    && (forall i, j :: 0 <= i < j < |ranking| ==>
          ranking[i].1 > ranking[j].1 || (ranking[i].1 == ranking[j].1 && ranking[i].0 < ranking[j].0))
  }

  /** The name of a tool, with its score. */
  datatype ToolMatch = ToolMatch(name: string, score: real)

  function Named(tools: seq<Tool>, ranking: seq<Match>): (matches: seq<ToolMatch>)
    requires forall m: Match :: m in ranking ==> m.0 < |tools|
    ensures |matches| == |ranking|
    ensures forall i :: 0 <= i < |ranking| ==> matches[i] == ToolMatch(tools[ranking[i].0].name, ranking[i].1)
  {
    seq(|ranking|, i requires 0 <= i < |ranking| => ToolMatch(tools[ranking[i].0].name, ranking[i].1))
  }

  ghost predicate SharesToken(a: Alphabet, query: string, text: string) {
    exists t :: t in Tokenized(a, query) && t in Tokenized(a, text)
  }

  /** What ranking tools returns: exactly those whose name or description shares a token with the
      query, by descending score, and in the order given where scores tie. */
  ghost predicate IsToolRanking(ln: real -> real, a: Alphabet, query: string, tools: seq<Tool>, ranking: seq<Match>) {
    && (forall m: Match :: m in ranking <==>
          && m.0 < |tools| && m.1 == ScoreOf(ln, CorpusOf(a, tools), Tokenized(a, query), m.0)
          && (SharesToken(a, query, tools[m.0].name) || SharesToken(a, query, tools[m.0].description)))
    && (forall i, j :: 0 <= i < j < |ranking| ==>
          ranking[i].1 > ranking[j].1 || (ranking[i].1 == ranking[j].1 && ranking[i].0 < ranking[j].0))
  }

  lemma ToolShares(a: Alphabet, query: string, tool: Tool)
    requires !a.isAlphanumeric(' ')
    ensures (exists t :: t in Tokenized(a, query) && t in ToolTokens(a, tool))
       <==> SharesToken(a, query, tool.name) || SharesToken(a, query, tool.description)
  {
    hide Tokenized, ToolTokens;
    NameAndDescription(a, tool);
    forall t
      ensures t in ToolTokens(a, tool) <==> t in Tokenized(a, tool.name) || t in Tokenized(a, tool.description)
    {
    }
  }

  lemma RanksTools(ln: real -> real, a: Alphabet, query: string, tools: seq<Tool>, ranking: seq<Match>)
    requires !a.isAlphanumeric(' ')
    ensures IsRanking(ln, CorpusOf(a, tools), Tokenized(a, query), ranking) <==> IsToolRanking(ln, a, query, tools, ranking)
  {
    hide ScoreOf, Tokenized, ToolTokens, SharesToken;
    forall i | 0 <= i < |tools|
      ensures (exists t :: t in Tokenized(a, query) && t in CorpusOf(a, tools)[i])
         <==> SharesToken(a, query, tools[i].name) || SharesToken(a, query, tools[i].description)
    {
      ToolShares(a, query, tools[i]);
    }
  }

  class ToolSearch {
    var query: Option<string>
    var candidates: seq<Tool>

    constructor ()
      ensures query == None && candidates == []
    {
      query, candidates := None, [];
    }

    method WithQuery(query: string)
      modifies this`query
      ensures this.query == Some(query)
    {
      this.query := Some(query);
    }

    method WithCandidates(candidates: seq<Tool>)
      modifies this`candidates
      ensures this.candidates == candidates
    {
      this.candidates := candidates;
    }

    /** Rank tools against the query; without one, nothing matches. */
    method Rank(ln: real -> real, a: Alphabet, tools: seq<Tool>) returns (matches: seq<ToolMatch>, ghost ranking: seq<Match>)
      requires PositiveAboveOne(ln) && !a.isAlphanumeric(' ')
      ensures query == None ==> matches == []
      ensures query.Some? ==> IsToolRanking(ln, a, query.value, tools, ranking) && |matches| == |ranking|
      ensures query.Some? ==> forall i :: 0 <= i < |ranking| ==>
        ranking[i].0 < |tools| && matches[i].name == tools[ranking[i].0].name && matches[i].score == ranking[i].1
    {
      hide IsToolRanking, ScoreOf, Tokenized, CorpusOf, Sorted;
      if query == None {
        return [], [];
      }
      var corpus := CorpusOf(a, tools);
      var scores := Score(ln, a, query.value, tools);
      var scored: seq<Match> := [];
      for i := 0 to |tools|
        invariant scored == Hits(scores, i)
      {
        if scores[i] > 0.0 {
          scored := scored + [(i, scores[i])];
        }
      }
      var sorted := Sorted(NotBelow, scored);
      ranking := sorted;
      RankingOfHits(ln, corpus, Tokenized(a, query.value), scores);
      RanksTools(ln, a, query.value, tools, ranking);
      RankingInRange(ln, corpus, Tokenized(a, query.value), ranking);
      matches := Named(tools, sorted);
    }

    method SearchCandidates(ln: real -> real, a: Alphabet) returns (matches: seq<ToolMatch>, ghost ranking: seq<Match>)
      requires PositiveAboveOne(ln) && !a.isAlphanumeric(' ')
      ensures query == None ==> matches == []
      ensures query.Some? ==> IsToolRanking(ln, a, query.value, candidates, ranking) && |matches| == |ranking|
      ensures query.Some? ==> forall i :: 0 <= i < |ranking| ==>
        ranking[i].0 < |candidates| && matches[i].name == candidates[ranking[i].0].name && matches[i].score == ranking[i].1
    {
      matches, ranking := Rank(ln, a, candidates);
    }
  }

  lemma RankingInRange(ln: real -> real, corpus: Corpus, query: seq<Token>, ranking: seq<Match>)
    requires IsRanking(ln, corpus, query, ranking)
    ensures forall m: Match :: m in ranking ==> m.0 < |corpus|
  {
  }

  lemma {:induction false} RankingOfHits(ln: real -> real, corpus: Corpus, query: seq<Token>, scores: seq<real>)
    requires PositiveAboveOne(ln) && |scores| == |corpus|
    requires forall i :: 0 <= i < |corpus| ==> scores[i] == ScoreOf(ln, corpus, query, i)
    ensures IsRanking(ln, corpus, query, Sorted(NotBelow, Hits(scores, |corpus|)))
  {
    hide Hits, NotBelow, Precedes, ScoreOf, Sorted;
    var hits := Hits(scores, |corpus|);
    HitsAre(scores, |corpus|);
    SortOfHits(hits);
    forall m: Match
      ensures m in hits <==>
        m.0 < |corpus| && m.1 == ScoreOf(ln, corpus, query, m.0) && exists t :: t in query && t in corpus[m.0]
    {
      if m.0 < |corpus| {
        PositiveIffShared(ln, corpus, query, m.0);
      }
    }
  }

  /** Sorting the hits keeps them all, in their one order. */
  lemma SortOfHits(hits: seq<Match>)
    requires forall i, j :: 0 <= i < j < |hits| ==> hits[i].0 < hits[j].0
    ensures var ranking := Sorted(NotBelow, hits);
      && (forall m: Match :: m in ranking <==> m in hits)
      && (forall i, j :: 0 <= i < j < |ranking| ==>
            ranking[i].1 > ranking[j].1 || (ranking[i].1 == ranking[j].1 && ranking[i].0 < ranking[j].0))
  {
    hide NotBelow, Precedes, Sorted;
    var ranking := Sorted(NotBelow, hits);
    SortIsStable(hits);
    PrecedesIsTotalOrder();
    SortedIsSorted(Precedes, hits);
    forall m: Match
      ensures m in ranking <==> m in hits
    {
      assert m in ranking <==> m in multiset(ranking);
      assert m in hits <==> m in multiset(hits);
    }
    forall i, j | 0 <= i < j < |ranking|
      ensures ranking[i].1 > ranking[j].1 || (ranking[i].1 == ranking[j].1 && ranking[i].0 < ranking[j].0)
    {
      NoRepeats(hits, ranking, i, j);
      PrecedesStrictly(ranking[i], ranking[j]);
    }
  }

  lemma PrecedesStrictly(x: Match, y: Match)
    requires Precedes(x, y) && x != y
    ensures x.1 > y.1 || (x.1 == y.1 && x.0 < y.0)
  {
  }

  lemma NoRepeats(hits: seq<Match>, ranking: seq<Match>, i: nat, j: nat)
    requires Distinct(hits)
    requires multiset(hits) == multiset(ranking) && i < j < |ranking|
    ensures ranking[i] != ranking[j]
  {
    if ranking[i] == ranking[j] {
      RepeatCountsTwice(ranking, i, j);
      DistinctCountsOnce(hits, ranking[i]);
    }
  }

  /** There is only one ranking: the order of the answer is never up to the sort. */
  lemma RankingIsUnique(ln: real -> real, corpus: Corpus, query: seq<Token>, a: seq<Match>, b: seq<Match>)
    requires IsRanking(ln, corpus, query, a) && IsRanking(ln, corpus, query, b)
    ensures a == b
  {
    PrecedesIsTotalOrder();
    forall m: Match
      ensures multiset(a)[m] == multiset(b)[m]
    {
      DistinctCountsOnce(a, m);
      DistinctCountsOnce(b, m);
    }
    SortedUnique(Precedes, a, b);
  }

  lemma ToolRankingIsUnique(ln: real -> real, a: Alphabet, query: string, tools: seq<Tool>, x: seq<Match>, y: seq<Match>)
    requires !a.isAlphanumeric(' ')
    requires IsToolRanking(ln, a, query, tools, x) && IsToolRanking(ln, a, query, tools, y)
    ensures x == y
  {
    hide IsToolRanking, IsRanking;
    RanksTools(ln, a, query, tools, x);
    RanksTools(ln, a, query, tools, y);
    RankingIsUnique(ln, CorpusOf(a, tools), Tokenized(a, query), x, y);
  }
}
