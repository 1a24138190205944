/** The lexical retriever of `WebsiteChatbot.retrieve`: the score of a chunk
    for a question, the positively scored chunks as `(score, chunk)` pairs,
    their order under `list.sort(reverse=True)`, the best five and the context
    string they form. */
module Ranking {
  import opened Text

  /** Bonus when the whole lower-cased question occurs in the chunk. */
  const QuestionBonus: nat := 10
  /** Bonus for each question word, longer than MinWordLength, found in the chunk. */
  const WordBonus: nat := 2
  const MinWordLength: nat := 3
  /** At most this many chunks form the context. */
  const TopK: nat := 5
  const ContextSeparator: string := "\n\n"

  /** The Python tuple `(score, chunk)`. */
  datatype ScoredChunk = ScoredChunk(score: nat, chunk: string)

  /** One question word that earns the word bonus against `text`. */
  predicate WordHits(word: string, text: string)
  {
    |word| > MinWordLength && IsSubstring(word, text)
  }

  /** How many positions of `words` hold a word that earns the bonus;
      a word repeated in the question counts once per position. */
  function MatchCount(words: seq<string>, text: string): (n: nat)
    ensures n <= |words|
    decreases |words|
  {
    if words == [] then 0
    else
      MatchCount(words[..|words| - 1], text)
      + (if WordHits(words[|words| - 1], text) then 1 else 0)
  }

  /** The score of `chunk` for `question`. */
  function Score(question: string, chunk: string): nat
  {
    var q := Lower(question);
    var c := Lower(chunk);
    (if IsSubstring(q, c) then QuestionBonus else 0) + WordBonus * MatchCount(Words(q), c)
  }

  lemma {:induction false} MatchCountPositive(words: seq<string>, text: string)
    ensures MatchCount(words, text) > 0 <==> exists i :: 0 <= i < |words| && WordHits(words[i], text)
    decreases |words|
  {
    if words != [] {
      var last := |words| - 1;
      var init := words[..last];
      MatchCountPositive(init, text);
      if WordHits(words[last], text) {
        assert 0 <= last < |words| && WordHits(words[last], text);
      } else if MatchCount(init, text) > 0 {
        var i :| 0 <= i < |init| && WordHits(init[i], text);
        assert words[i] == init[i];
      } else {
        forall i | 0 <= i < |words| ensures !WordHits(words[i], text) {
          if i < last {
            assert init[i] == words[i];
          }
        }
      }
    }
  }

  /** A chunk scores positively exactly when the whole question occurs in it
      or one of the question's words longer than three characters does. */
  lemma ScorePositive(question: string, chunk: string)
    ensures Score(question, chunk) > 0 <==>
            IsSubstring(Lower(question), Lower(chunk))
            || exists i :: 0 <= i < |Words(Lower(question))| && WordHits(Words(Lower(question))[i], Lower(chunk))
  {
    var q := Lower(question);
    var c := Lower(chunk);
    MatchCountPositive(Words(q), c);
    assert Score(question, chunk) == (if IsSubstring(q, c) then QuestionBonus else 0) + WordBonus * MatchCount(Words(q), c);
  }

  /** The score does not depend on letter case. */
  lemma ScoreIgnoresCase(question: string, chunk: string)
    ensures Score(question, chunk) == Score(Lower(question), Lower(chunk))
  {
    LowerIdempotent(question);
    LowerIdempotent(chunk);
  }

  /** The `scored` list: the positively scored chunks with their scores,
      in corpus order. */
  function Scored(chunks: seq<string>, question: string): seq<ScoredChunk>
    decreases |chunks|
  {
    if chunks == [] then []
    else
      var last := chunks[|chunks| - 1];
      var s := Score(question, last);
      Scored(chunks[..|chunks| - 1], question) + (if s > 0 then [ScoredChunk(s, last)] else [])
  }

  /** A pair is in `scored` exactly when its chunk is in the corpus, its score
      is that chunk's score, and the score is positive. */
  lemma {:induction false} ScoredMembers(chunks: seq<string>, question: string, x: ScoredChunk)
    ensures x in Scored(chunks, question) <==>
            x.chunk in chunks && x.score == Score(question, x.chunk) && x.score > 0
    decreases |chunks|
  {
    if chunks != [] {
      var init := chunks[..|chunks| - 1];
      ScoredMembers(init, question, x);
      assert chunks == init + [chunks[|chunks| - 1]];
    }
  }

  /** Python's `a < b` on strings: lexicographic by code point, a proper
      prefix first. */
  predicate StrLess(a: string, b: string)
    decreases |a|
  {
    b != [] && (a == [] || a[0] < b[0] || (a[0] == b[0] && StrLess(a[1..], b[1..])))
  }

  lemma {:induction false} StrLessIrreflexive(a: string)
    ensures !StrLess(a, a)
    decreases |a|
  {
    if a != [] {
      StrLessIrreflexive(a[1..]);
    }
  }

  lemma {:induction false} StrLessTransitive(a: string, b: string, c: string)
    requires StrLess(a, b) && StrLess(b, c)
    ensures StrLess(a, c)
    decreases |a|
  {
    if a != [] && a[0] == b[0] && b[0] == c[0] {
      StrLessTransitive(a[1..], b[1..], c[1..]);
    }
  }

  lemma {:induction false} StrLessTotal(a: string, b: string)
    ensures a == b || StrLess(a, b) || StrLess(b, a)
    decreases |a|
  {
    if a != [] && b != [] && a[0] == b[0] {
      StrLessTotal(a[1..], b[1..]);
      if a[1..] == b[1..] {
        assert a == [a[0]] + a[1..] && b == [b[0]] + b[1..];
      }
    }
  }

  lemma {:induction false} StrLessAsymmetric(a: string, b: string)
    requires StrLess(a, b)
    ensures !StrLess(b, a)
  {
    if StrLess(b, a) {
      StrLessTransitive(a, b, a);
      StrLessIrreflexive(a);
    }
  }

  /** `x >= y` on Python tuples `(score, chunk)`. */
  predicate AtLeast(x: ScoredChunk, y: ScoredChunk)
  {
    x.score > y.score || (x.score == y.score && !StrLess(x.chunk, y.chunk))
  }

  /** `AtLeast` is a total order. */
  lemma AtLeastReflexive(x: ScoredChunk)
    ensures AtLeast(x, x)
  {
    StrLessIrreflexive(x.chunk);
  }

  lemma AtLeastTotal(x: ScoredChunk, y: ScoredChunk)
    ensures AtLeast(x, y) || AtLeast(y, x)
  {
    if x.score == y.score && StrLess(x.chunk, y.chunk) {
      StrLessAsymmetric(x.chunk, y.chunk);
    }
  }

  lemma AtLeastAntisymmetric(x: ScoredChunk, y: ScoredChunk)
    requires AtLeast(x, y) && AtLeast(y, x)
    ensures x == y
  {
    StrLessTotal(x.chunk, y.chunk);
  }

  lemma AtLeastTransitive(x: ScoredChunk, y: ScoredChunk, z: ScoredChunk)
    requires AtLeast(x, y) && AtLeast(y, z)
    ensures AtLeast(x, z)
  {
    if x.score == y.score == z.score && StrLess(x.chunk, z.chunk) {
      StrLessTotal(y.chunk, z.chunk);
      if y.chunk != z.chunk {
        StrLessTransitive(x.chunk, z.chunk, y.chunk);
      }
    }
  }

  /** Non-increasing order: the order `list.sort(reverse=True)` leaves. */
  predicate SortedDesc(s: seq<ScoredChunk>)
  {
    forall i, j :: 0 <= i < j < |s| ==> AtLeast(s[i], s[j])
  }

  function Insert(x: ScoredChunk, s: seq<ScoredChunk>): (r: seq<ScoredChunk>)
    ensures multiset(r) == multiset(s) + multiset{x}
    decreases |s|
  {
    if s == [] then [x]
    else if AtLeast(x, s[0]) then [x] + s
    else
      assert s == [s[0]] + s[1..];
      [s[0]] + Insert(x, s[1..])
  }

  /** A head at least every element of a sorted tail keeps it sorted. */
  lemma ConsSorted(h: ScoredChunk, t: seq<ScoredChunk>)
    requires SortedDesc(t)
    requires forall y :: y in multiset(t) ==> AtLeast(h, y)
    ensures SortedDesc([h] + t)
  {
    var r := [h] + t;
    forall i, j | 0 <= i < j < |r| ensures AtLeast(r[i], r[j]) {
      assert r[j] == t[j - 1] && t[j - 1] in multiset(t);
      if i > 0 {
        assert r[i] == t[i - 1];
      }
    }
  }

  /** Every element of a sorted list is at most its head. */
  lemma HeadBounds(s: seq<ScoredChunk>)
    requires SortedDesc(s) && s != []
    ensures forall y :: y in multiset(s) ==> AtLeast(s[0], y)
  {
    forall y | y in multiset(s) ensures AtLeast(s[0], y) {
      HeadIsGreatest(s, y);
    }
  }

  lemma {:induction false} InsertSorted(x: ScoredChunk, s: seq<ScoredChunk>)
    requires SortedDesc(s)
    ensures SortedDesc(Insert(x, s))
    decreases |s|
  {
    if s != [] {
      HeadBounds(s);
      if AtLeast(x, s[0]) {
        forall y | y in multiset(s) ensures AtLeast(x, y) {
          AtLeastTransitive(x, s[0], y);
        }
        ConsSorted(x, s);
      } else {
        AtLeastTotal(x, s[0]);
        SortedTail(s);
        InsertSorted(x, s[1..]);
        var t := Insert(x, s[1..]);
        assert s == [s[0]] + s[1..];
        forall y | y in multiset(t) ensures AtLeast(s[0], y) {
          assert y == x || y in multiset(s);
        }
        ConsSorted(s[0], t);
      }
    }
  }

  lemma SortStep(s: seq<ScoredChunk>, t: seq<ScoredChunk>)
    requires s != [] && SortedDesc(t) && multiset(t) == multiset(s[1..])
    ensures SortedDesc(Insert(s[0], t))
    ensures multiset(Insert(s[0], t)) == multiset(s)
  {
    InsertSorted(s[0], t);
    assert s == [s[0]] + s[1..];
  }

  /** A reference sort for `list.sort(reverse=True)` (insertion sort): the
      result is in non-increasing order and is a permutation of the input. */
  function SortDesc(s: seq<ScoredChunk>): (r: seq<ScoredChunk>)
    ensures SortedDesc(r)
    ensures multiset(r) == multiset(s)
    decreases |s|
  {
    if s == [] then []
    else
      var t := SortDesc(s[1..]);
      SortStep(s, t);
      Insert(s[0], t)
  }

  lemma SortedTail(s: seq<ScoredChunk>)
    requires SortedDesc(s) && s != []
    ensures SortedDesc(s[1..])
  {
    forall i, j | 0 <= i < j < |s| - 1 ensures AtLeast(s[1..][i], s[1..][j]) {
      assert s[1..][i] == s[i + 1] && s[1..][j] == s[j + 1];
    }
  }

  /** The head of a sorted list is at least every element. */
  lemma HeadIsGreatest(s: seq<ScoredChunk>, x: ScoredChunk)
    requires SortedDesc(s) && x in multiset(s)
    ensures AtLeast(s[0], x)
  {
    var j :| 0 <= j < |s| && s[j] == x;
    if j == 0 {
      AtLeastReflexive(x);
    }
  }

  /** Under a total order there is only one sorted permutation, so SortDesc
      is what any correct sort, Python's included, produces. */
  lemma {:induction false} SortedUnique(a: seq<ScoredChunk>, b: seq<ScoredChunk>)
    requires SortedDesc(a) && SortedDesc(b)
    requires multiset(a) == multiset(b)
    ensures a == b
    decreases |a|
  {
    if a == [] {
      assert |multiset(b)| == 0;
    } else {
      assert b != [] by {
        assert |multiset(b)| == |a| > 0;
      }
      FirstsAgree(a, b);
      var rest := multiset(a) - multiset{a[0]};
      assert multiset(a[1..]) == rest by {
        assert a == [a[0]] + a[1..];
      }
      assert multiset(b[1..]) == rest by {
        assert b == [b[0]] + b[1..];
      }
      SortedTail(a);
      SortedTail(b);
      SortedUnique(a[1..], b[1..]);
      assert a == [a[0]] + a[1..] && b == [b[0]] + b[1..];
    }
  }

  /** Two sorted lists with the same elements start with the same element. */
  lemma FirstsAgree(a: seq<ScoredChunk>, b: seq<ScoredChunk>)
    requires SortedDesc(a) && SortedDesc(b) && a != [] && b != []
    requires multiset(a) == multiset(b)
    ensures a[0] == b[0]
  {
    assert a[0] in multiset(a) && b[0] in multiset(b);
    HeadIsGreatest(a, b[0]);
    HeadIsGreatest(b, a[0]);
    AtLeastAntisymmetric(a[0], b[0]);
  }

  /** `best = scored[:5]` after the sort. */
  function Best(chunks: seq<string>, question: string): seq<ScoredChunk>
  {
    var sorted := SortDesc(Scored(chunks, question));
    sorted[..Min(TopK, |sorted|)]
  }

  function Texts(best: seq<ScoredChunk>): (texts: seq<string>)
    ensures |texts| == |best|
    ensures forall i :: 0 <= i < |best| ==> texts[i] == best[i].chunk
  {
    seq(|best|, i requires 0 <= i < |best| => best[i].chunk)
  }

  /** The context string `retrieve` returns. */
  function Retrieved(chunks: seq<string>, question: string): string
  {
    Join(Texts(Best(chunks, question)), ContextSeparator)
  }

  /** `min(5, len(scored))` pairs are chosen, so never more than five. */
  lemma BestLength(chunks: seq<string>, question: string)
    ensures |Best(chunks, question)| == Min(TopK, |Scored(chunks, question)|)
    ensures |Best(chunks, question)| <= TopK
  {
    var scored := Scored(chunks, question);
    var sorted := SortDesc(scored);
    assert |multiset(sorted)| == |multiset(scored)|;
  }

  /** Every chosen pair is a chunk of the corpus with its own, positive,
      score, and the choice is in non-increasing tuple order: by score, and
      equal scores by chunk text, descending. */
  lemma BestMembers(chunks: seq<string>, question: string)
    ensures forall x :: x in Best(chunks, question) ==>
              x.score > 0 && x.chunk in chunks && x.score == Score(question, x.chunk)
    ensures SortedDesc(Best(chunks, question))
    ensures forall i, j :: 0 <= i < j < |Best(chunks, question)| ==>
              Best(chunks, question)[i].score >= Best(chunks, question)[j].score
  {
    var scored := Scored(chunks, question);
    var sorted := SortDesc(scored);
    var best := Best(chunks, question);
    forall x | x in best
      ensures x.score > 0 && x.chunk in chunks && x.score == Score(question, x.chunk)
    {
      assert x in multiset(scored);
      ScoredMembers(chunks, question, x);
    }
  }

  /** The sorted list is the choice followed by the pairs cut off. */
  lemma BestSplit(chunks: seq<string>, question: string)
    ensures var sorted := SortDesc(Scored(chunks, question));
            var best := Best(chunks, question);
            sorted == best + sorted[|best|..]
            && multiset(Scored(chunks, question)) == multiset(best) + multiset(sorted[|best|..])
  {
    var sorted := SortDesc(Scored(chunks, question));
    var best := Best(chunks, question);
    assert sorted == best + sorted[|best|..];
  }

  /** No pair is chosen more often than it occurs in `scored`, so a chunk
      twice in the corpus is not chosen twice unless it scored twice. */
  lemma BestWithinScored(chunks: seq<string>, question: string)
    ensures multiset(Best(chunks, question)) <= multiset(Scored(chunks, question))
  {
    BestSplit(chunks, question);
  }

  /** A pair chosen fewer times than it occurs in `scored` (a copy left out)
      means five were chosen, all at least that pair in tuple order: by score
      and, within a score, by chunk text. */
  lemma BestExcluded(chunks: seq<string>, question: string, x: ScoredChunk)
    requires multiset(Best(chunks, question))[x] < multiset(Scored(chunks, question))[x]
    ensures |Best(chunks, question)| == TopK
    ensures AtLeast(Best(chunks, question)[TopK - 1], x)
  {
    var sorted := SortDesc(Scored(chunks, question));
    var n := Min(TopK, |sorted|);
    assert Best(chunks, question) == sorted[..n];
    PrefixExcluded(sorted, n, x);
  }

  /** In a sorted list, a pair occurring more often than in a prefix lies
      beyond that prefix, and the prefix's last pair is at least it. */
  lemma PrefixExcluded(sorted: seq<ScoredChunk>, m: nat, x: ScoredChunk)
    requires SortedDesc(sorted) && m <= |sorted|
    requires multiset(sorted[..m])[x] < multiset(sorted)[x]
    ensures m < |sorted|
    ensures m > 0 ==> AtLeast(sorted[m - 1], x)
  {
    var cut := sorted[m..];
    assert multiset(cut)[x] > 0 by {
      assert sorted == sorted[..m] + cut;
    }
    var k :| 0 <= k < |cut| && cut[k] == x;
    assert sorted[m + k] == x;
  }

  /** A positively scored chunk left out of the choice scores no more than
      the lowest chosen one, and the choice is then full. */
  lemma BestExcludedChunk(chunks: seq<string>, question: string, c: string)
    requires c in chunks && Score(question, c) > 0
    requires ScoredChunk(Score(question, c), c) !in Best(chunks, question)
    ensures |Best(chunks, question)| == TopK
    ensures Score(question, c) <= Best(chunks, question)[TopK - 1].score
  {
    var x := ScoredChunk(Score(question, c), c);
    ScoredMembers(chunks, question, x);
    BestExcluded(chunks, question, x);
  }

  /** When every chunk is non-empty, the context is empty exactly when no
      chunk scores positively. */
  lemma RetrievedEmpty(chunks: seq<string>, question: string)
    requires forall c :: c in chunks ==> c != []
    ensures Retrieved(chunks, question) == [] <==> forall c :: c in chunks ==> Score(question, c) == 0
  {
    var best := Best(chunks, question);
    var scored := Scored(chunks, question);
    BestLength(chunks, question);
    BestMembers(chunks, question);
    JoinEmpty(Texts(best), ContextSeparator);
    if |best| > 0 {
      assert best[0] in best;
    }
    if exists c :: c in chunks && Score(question, c) > 0 {
      var c :| c in chunks && Score(question, c) > 0;
      ScoredMembers(chunks, question, ScoredChunk(Score(question, c), c));
    }
    if |scored| > 0 {
      assert scored[0] in scored;
      ScoredMembers(chunks, question, scored[0]);
    }
  }

  /** In a corpus of two chunks where only the first scores, the first is
      ranked and returned alone as the context, the second left out. */
  lemma OnlyScoringChunk(question: string, first: string, second: string)
    requires Score(question, first) > 0 && Score(question, second) == 0
    ensures Best([first, second], question) == [ScoredChunk(Score(question, first), first)]
    ensures Retrieved([first, second], question) == first
  {
    var chunks := [first, second];
    var x := ScoredChunk(Score(question, first), first);
    assert chunks[..1] == [first] && [first][..0] == [];
    assert Scored([first], question) == [x];
    assert Scored(chunks, question) == [x];
    assert SortDesc([x]) == [x];
  }
}
