/** `WebsiteScraper`: the text cleanup that follows HTML parsing in
    `scrape_page`, the candidate URLs of `scrape_website` and the collection of
    the pages that came back. Fetching and parsing are an oracle `fetch`: the
    visible text of the page at a URL, or None when the request fails, times
    out, answers with a status other than 200 or raises. */
module Scraper {
  import opened Text

  datatype Option<T> = None | Some(value: T)

  /** Lines of at most this many characters (after stripping) are dropped. */
  const MinLineLength: nat := 25
  /** A page's text is cut to this many characters. */
  const MaxPageChars: nat := 15000
  const Scheme: string := "https://"
  /** The paths tried under the base URL, in request order. */
  const Paths: seq<string> := ["", "/about", "/services", "/products", "/contact"]

  /** One line of the list comprehension of `scrape_page`: the stripped
      line, kept when it is longer than 25 characters. */
  function KeepLine(line: string): seq<string>
  {
    var l := Strip(line);
    if |l| > MinLineLength then [l] else []
  }

  /** The list comprehension of `scrape_page`, line by line in order. */
  function KeptLines(lines: seq<string>): seq<string>
    decreases |lines|
  {
    if lines == [] then [] else KeepLine(lines[0]) + KeptLines(lines[1..])
  }

  /** Every line, stripped, in order. */
  function StrippedLines(lines: seq<string>): (r: seq<string>)
    ensures |r| == |lines|
    decreases |lines|
  {
    if lines == [] then [] else [Strip(lines[0])] + StrippedLines(lines[1..])
  }

  /** A line is kept exactly when it is the stripped form, longer than 25
      characters, of some input line. */
  lemma {:induction false} KeptLinesMembers(lines: seq<string>, l: string)
    ensures l in KeptLines(lines) <==> |l| > MinLineLength && l in StrippedLines(lines)
    decreases |lines|
  {
    if lines != [] {
      var tail := lines[1..];
      KeptLinesMembers(tail, l);
      KeepLineMembers(lines[0], l);
      assert KeptLines(lines) == KeepLine(lines[0]) + KeptLines(tail);
    }
  }

  lemma KeepLineMembers(line: string, l: string)
    ensures l in KeepLine(line) <==> |l| > MinLineLength && l == Strip(line)
  {
  }

  /** The order of lines is kept: the filter works line by line. */
  lemma {:induction false} KeptLinesAppend(a: seq<string>, b: seq<string>)
    ensures KeptLines(a + b) == KeptLines(a) + KeptLines(b)
    decreases |a|
  {
    if a != [] {
      assert (a + b)[0] == a[0];
      assert (a + b)[1..] == a[1..] + b;
      KeptLinesAppend(a[1..], b);
    } else {
      assert a + b == b;
    }
  }

  /** A kept line is non-empty, already stripped, and contains no newline
      when the input lines contain none. */
  lemma {:induction false} KeptLinesClean(lines: seq<string>)
    requires forall line :: line in lines ==> '\n' !in line
    ensures forall l :: l in KeptLines(lines) ==> l != [] && '\n' !in l && Strip(l) == l
    decreases |lines|
  {
    if lines != [] {
      var head := KeepLine(lines[0]);
      var tail := lines[1..];
      assert lines[0] in lines;
      forall line | line in tail ensures '\n' !in line {
        assert line in lines;
      }
      KeptLinesClean(tail);
      KeepLineClean(lines[0]);
      assert KeptLines(lines) == head + KeptLines(tail);
    }
  }

  lemma KeepLineClean(line: string)
    requires '\n' !in line
    ensures forall l :: l in KeepLine(line) ==> l != [] && '\n' !in l && Strip(l) == l
  {
    var l := Strip(line);
    StripNoNewline(line);
    StripIdempotent(line);
    assert KeepLine(line) == if |l| > MinLineLength then [l] else [];
  }

  lemma StripNoNewline(line: string)
    requires '\n' !in line
    ensures '\n' !in Strip(line)
  {
    var t := TrimStart(line);
    assert '\n' !in t by {
      forall k | 0 <= k < |t| ensures t[k] != '\n' {
        assert t[k] == line[|line| - |t| + k];
      }
    }
    var s := TrimEnd(t);
    forall k | 0 <= k < |s| ensures s[k] != '\n' {
      assert s[k] == t[k];
    }
  }

  /** The kept lines joined by newlines, before the cut. */
  function KeptText(text: string): string
  {
    Join(KeptLines(SplitOn(text, '\n')), "\n")
  }

  /** The text `scrape_page` returns for a page whose visible text is `text`:
      at most 15000 characters, a prefix of the kept lines joined by newlines,
      and all of it when it fits. */
  function CleanText(text: string): (content: string)
    ensures |content| <= MaxPageChars
    ensures |content| == Min(|KeptText(text)|, MaxPageChars)
    ensures content <= KeptText(text)
    ensures |KeptText(text)| <= MaxPageChars ==> content == KeptText(text)
  {
    var full := KeptText(text);
    full[..Min(|full|, MaxPageChars)]
  }

  /** Before the cut, the cleanup loses no kept line: splitting the joined
      text on newlines gives back exactly the kept lines. */
  lemma CleanTextLinesRecoverable(text: string)
    requires KeptLines(SplitOn(text, '\n')) != []
    ensures SplitOn(KeptText(text), '\n') == KeptLines(SplitOn(text, '\n'))
  {
    var lines := SplitOn(text, '\n');
    SplitOnPiecesFree(text, '\n');
    KeptLinesClean(lines);
    SplitOnJoin(KeptLines(lines), '\n');
  }

  /** The cleaned text is empty exactly when no line is long enough. */
  lemma CleanTextEmpty(text: string)
    ensures CleanText(text) == [] <==> KeptLines(SplitOn(text, '\n')) == []
  {
    var lines := SplitOn(text, '\n');
    var kept := KeptLines(lines);
    SplitOnPiecesFree(text, '\n');
    KeptLinesClean(lines);
    JoinEmpty(kept, "\n");
    if kept != [] {
      assert kept[0] in kept;
    }
  }

  /** The base URL after `scrape_website`'s normalisation: prefixed with
      `https://` unless it already starts with "http". */
  function NormalizeBase(base: string): (b: string)
    ensures StartsWith(b, "http")
    ensures |b| >= |base| && b[|b| - |base|..] == base
    ensures b == base <==> StartsWith(base, "http")
    ensures !StartsWith(base, "http") ==> b == Scheme + base
  {
    if StartsWith(base, "http") then base else Scheme + base
  }

  lemma NormalizeBaseIdempotent(base: string)
    ensures NormalizeBase(NormalizeBase(base)) == NormalizeBase(base)
  {
  }

  /** The five candidate URLs: the normalised base followed by each path. */
  function CandidateUrls(base: string): (urls: seq<string>)
    ensures |urls| == |Paths|
    ensures forall i :: 0 <= i < |Paths| ==> urls[i] == NormalizeBase(base) + Paths[i]
    ensures forall i :: 0 <= i < |Paths| ==> StartsWith(urls[i], "http")
  {
    var b := NormalizeBase(base);
    assert b + "" == b;
    [b, b + "/about", b + "/services", b + "/products", b + "/contact"]
  }

  /** `scrape_page(url)`, given what fetching and parsing yield. */
  function ScrapePage(url: string, fetch: string -> Option<string>): Option<string>
  {
    match fetch(url)
    case None => None
    case Some(text) => Some(CleanText(text))
  }

  /** A result that passes `if result:`: present and not the empty string. */
  predicate IsTruthy(r: Option<string>)
  {
    r.Some? && r.value != []
  }

  /** A fetched page contributes exactly when it responded and has some line
      longer than 25 characters. */
  lemma ScrapePageTruthy(url: string, fetch: string -> Option<string>)
    ensures IsTruthy(ScrapePage(url, fetch)) <==>
            fetch(url).Some? && KeptLines(SplitOn(fetch(url).value, '\n')) != []
  {
    if fetch(url).Some? {
      CleanTextEmpty(fetch(url).value);
    }
  }

  /** The truthy results, in the order given. */
  function Truthy(results: seq<Option<string>>): (pages: seq<string>)
    decreases |results|
  {
    if results == [] then []
    else
      var last := results[|results| - 1];
      Truthy(results[..|results| - 1]) + (if IsTruthy(last) then [last.value] else [])
  }

  lemma TruthySnoc(results: seq<Option<string>>, r: Option<string>)
    ensures Truthy(results + [r]) == Truthy(results) + (if IsTruthy(r) then [r.value] else [])
  {
    assert (results + [r])[..|results|] == results;
  }

  /** Each page occurs in the collection as often as it occurs, non-empty,
      among the results; None and "" are dropped. */
  lemma {:induction false} TruthyCounts(results: seq<Option<string>>, p: string)
    ensures multiset(Truthy(results))[p] == if p == [] then 0 else multiset(results)[Some(p)]
    decreases |results|
  {
    if results != [] {
      var init := results[..|results| - 1];
      var last := results[|results| - 1];
      TruthyCounts(init, p);
      var added := if IsTruthy(last) then [last.value] else [];
      var hit := IsTruthy(last) && last.value == p;
      assert Truthy(results) == Truthy(init) + added;
      assert multiset(Truthy(results))[p] == multiset(Truthy(init))[p] + (if hit then 1 else 0) by {
        assert multiset(Truthy(results)) == multiset(Truthy(init)) + multiset(added);
      }
      assert multiset(results)[Some(p)] == multiset(init)[Some(p)] + (if last == Some(p) then 1 else 0) by {
        assert results == init + [last];
        assert multiset(results) == multiset(init) + multiset{last};
      }
      assert p != [] ==> (hit <==> last == Some(p));
    }
  }

  /** No collected page is empty. */
  lemma CollectPagesNonEmpty(base: string, fetch: string -> Option<string>, order: seq<nat>)
    requires IsPermutation(order, |Paths|)
    ensures forall p :: p in CollectPages(base, fetch, order) ==> p != []
  {
    TruthyCounts(Reorder(ScrapeAll(CandidateUrls(base), fetch), order), []);
  }

  lemma TruthyPermutation(a: seq<Option<string>>, b: seq<Option<string>>)
    requires multiset(a) == multiset(b)
    ensures multiset(Truthy(a)) == multiset(Truthy(b))
  {
    forall p ensures multiset(Truthy(a))[p] == multiset(Truthy(b))[p] {
      TruthyCounts(a, p);
      TruthyCounts(b, p);
    }
  }

  function Range(n: nat): (r: seq<nat>)
    ensures |r| == n && forall i :: 0 <= i < n ==> r[i] == i
  {
    seq(n, i requires 0 <= i < n => i)
  }

  /** `order` lists 0 .. n-1, each once: the order in which `as_completed`
      hands back the n submitted futures. */
  predicate IsPermutation(order: seq<nat>, n: nat)
  {
    multiset(order) == multiset(Range(n))
  }

  predicate Indices(order: seq<nat>, n: nat)
  {
    forall k :: 0 <= k < |order| ==> order[k] < n
  }

  lemma PermutationIndices(order: seq<nat>, n: nat)
    requires IsPermutation(order, n)
    ensures Indices(order, n) && |order| == n
  {
    forall k | 0 <= k < |order| ensures order[k] < n {
      assert order[k] in multiset(order);
      assert order[k] in Range(n);
    }
    assert |multiset(order)| == |multiset(Range(n))|;
  }

  /** `s` visited in the given order of indices; an index past the end
      visits nothing (a permutation order has none). */
  function Reorder<T>(s: seq<T>, order: seq<nat>): (r: seq<T>)
    ensures |r| <= |order|
    decreases |order|
  {
    if order == [] then []
    else Visit(s, order[0]) + Reorder(s, order[1..])
  }

  /** The value at index `i`, if there is one. */
  function Visit<T>(s: seq<T>, i: nat): (r: seq<T>)
    ensures |r| <= 1
  {
    if i < |s| then [s[i]] else []
  }

  /** With every index in range, each index visits one value. */
  lemma {:induction false} ReorderLength<T>(s: seq<T>, order: seq<nat>)
    requires Indices(order, |s|)
    ensures |Reorder(s, order)| == |order|
    decreases |order|
  {
    if order != [] {
      TailIndices(order, |s|);
      ReorderLength(s, order[1..]);
    }
  }

  /** The k-th visited value is the one at the k-th index of `order`. */
  lemma {:induction false} ReorderAt<T>(s: seq<T>, order: seq<nat>, k: nat)
    requires Indices(order, |s|) && k < |order|
    ensures k < |Reorder(s, order)| && Reorder(s, order)[k] == s[order[k]]
    decreases k
  {
    ReorderLength(s, order);
    TailIndices(order, |s|);
    if k > 0 {
      assert order[1..][k - 1] == order[k];
      ReorderAt(s, order[1..], k - 1);
    }
  }

  lemma {:induction false} ReorderAppend<T>(s: seq<T>, a: seq<nat>, b: seq<nat>)
    ensures Reorder(s, a + b) == Reorder(s, a) + Reorder(s, b)
    decreases |a|
  {
    if a == [] {
      assert a + b == b;
    } else {
      assert (a + b)[0] == a[0] && (a + b)[1..] == a[1..] + b;
      ReorderAppend(s, a[1..], b);
    }
  }

  /** Visiting one more index of `order` appends its value. */
  lemma ReorderSnoc<T>(s: seq<T>, order: seq<nat>, k: nat)
    requires k < |order| && order[k] < |s|
    ensures Reorder(s, order[..k + 1]) == Reorder(s, order[..k]) + [s[order[k]]]
  {
    var single: seq<nat> := [order[k]];
    var before := order[..k];
    assert order[..k + 1] == before + single;
    assert Reorder(s, before + single) == Reorder(s, before) + [s[order[k]]] by {
      ReorderAppend(s, before, single);
      assert single[1..] == [];
    }
  }

  /** `s` without its element at position `j`. */
  function Remove(s: seq<nat>, j: nat): (r: seq<nat>)
    requires j < |s|
    ensures |r| == |s| - 1
    ensures multiset(r) == multiset(s) - multiset{s[j]}
  {
    assert s == s[..j] + [s[j]] + s[j + 1..];
    s[..j] + s[j + 1..]
  }

  lemma TailIndices(order: seq<nat>, n: nat)
    requires Indices(order, n) && order != []
    ensures Indices(order[1..], n)
  {
    forall k | 0 <= k < |order| - 1 ensures order[1..][k] < n {
      assert order[1..][k] == order[k + 1];
    }
  }

  /** What position j of `order` visits can be taken out first. */
  lemma ReorderSplit<T>(s: seq<T>, order: seq<nat>, j: nat)
    requires j < |order|
    ensures multiset(Reorder(s, order)) == multiset(Visit(s, order[j])) + multiset(Reorder(s, Remove(order, j)))
  {
    var before := order[..j];
    var after := order[j + 1..];
    var single: seq<nat> := [order[j]];
    var a := Reorder(s, before);
    var b := Reorder(s, after);
    var v := Visit(s, order[j]);
    assert Reorder(s, before + single) == a + v by {
      ReorderAppend(s, before, single);
      assert single[1..] == [];
    }
    assert Reorder(s, order) == a + v + b by {
      ReorderAppend(s, before + single, after);
      assert order == before + single + after;
    }
    assert Reorder(s, Remove(order, j)) == a + b by {
      ReorderAppend(s, before, after);
    }
  }

  /** Index lists with the same elements visit the same values, each as
      often. */
  lemma {:induction false} ReorderSameIndices<T>(s: seq<T>, o1: seq<nat>, o2: seq<nat>)
    requires multiset(o1) == multiset(o2)
    ensures multiset(Reorder(s, o1)) == multiset(Reorder(s, o2))
    decreases |o1|
  {
    if o1 == [] {
      assert |multiset(o2)| == 0;
      assert o2 == [];
    } else {
      var i := o1[0];
      assert i in multiset(o1);
      var j :| 0 <= j < |o2| && o2[j] == i;
      var tail := o1[1..];
      assert o1 == [i] + tail;
      assert multiset(tail) == multiset(o1) - multiset{i};
      ReorderSplit(s, o2, j);
      ReorderSameIndices(s, tail, Remove(o2, j));
    }
  }

  /** Visiting a sequence in any permutation order keeps its multiset. */
  lemma ReorderPermutation<T>(s: seq<T>, order: seq<nat>)
    requires IsPermutation(order, |s|)
    ensures multiset(Reorder(s, order)) == multiset(s)
  {
    var id := Range(|s|);
    ReorderSameIndices(s, order, id);
    ReorderLength(s, id);
    forall k | 0 <= k < |s| ensures Reorder(s, id)[k] == s[k] {
      ReorderAt(s, id, k);
    }
    assert Reorder(s, id) == s;
  }

  /** The result of each candidate's `scrape_page`, in request order. */
  function ScrapeAll(urls: seq<string>, fetch: string -> Option<string>): (results: seq<Option<string>>)
    ensures |results| == |urls|
    ensures forall i :: 0 <= i < |urls| ==> results[i] == ScrapePage(urls[i], fetch)
  {
    seq(|urls|, i requires 0 <= i < |urls| => ScrapePage(urls[i], fetch))
  }

  /** The pages `scrape_website` returns when the futures complete in `order`. */
  function CollectPages(base: string, fetch: string -> Option<string>, order: seq<nat>): seq<string>
    requires IsPermutation(order, |Paths|)
  {
    Truthy(Reorder(ScrapeAll(CandidateUrls(base), fetch), order))
  }

  /** Whatever the completion order, the same pages are collected, each as
      often as a candidate URL yielded it. */
  lemma CollectPagesAnyOrder(base: string, fetch: string -> Option<string>, order: seq<nat>)
    requires IsPermutation(order, |Paths|)
    ensures multiset(CollectPages(base, fetch, order)) == multiset(Truthy(ScrapeAll(CandidateUrls(base), fetch)))
    ensures |CollectPages(base, fetch, order)| == |Truthy(ScrapeAll(CandidateUrls(base), fetch))|
  {
    var results := ScrapeAll(CandidateUrls(base), fetch);
    ReorderPermutation(results, order);
    TruthyPermutation(Reorder(results, order), results);
    assert |multiset(CollectPages(base, fetch, order))| == |multiset(Truthy(results))|;
  }

  /** When only the base page and `/contact` answer with usable text, exactly
      two pages are collected, in whichever order the fetches complete. */
  lemma TwoOfFiveRespond(base: string, fetch: string -> Option<string>, order: seq<nat>)
    requires IsPermutation(order, |Paths|)
    requires IsTruthy(ScrapePage(CandidateUrls(base)[0], fetch))
    requires IsTruthy(ScrapePage(CandidateUrls(base)[4], fetch))
    requires forall i :: 1 <= i <= 3 ==> fetch(CandidateUrls(base)[i]).None?
    ensures |CollectPages(base, fetch, order)| == 2
  {
    var rs := ScrapeAll(CandidateUrls(base), fetch);
    CollectPagesAnyOrder(base, fetch, order);
    TruthyTwoOfFive(rs);
  }

  lemma TruthyTwoOfFive(rs: seq<Option<string>>)
    requires |rs| == 5 && IsTruthy(rs[0]) && IsTruthy(rs[4])
    requires rs[1].None? && rs[2].None? && rs[3].None?
    ensures |Truthy(rs)| == 2
  {
    assert |Truthy(rs[..1])| == 1 by {
      TruthySnoc(rs[..0], rs[0]);
      assert rs[..0] + [rs[0]] == rs[..1];
    }
    forall k | 1 <= k <= 3 ensures |Truthy(rs[..k + 1])| == |Truthy(rs[..k])| {
      TruthySnoc(rs[..k], rs[k]);
      assert rs[..k] + [rs[k]] == rs[..k + 1];
    }
    assert |Truthy(rs[..2])| == 1 && |Truthy(rs[..3])| == 1 && |Truthy(rs[..4])| == 1;
    TruthySnoc(rs[..4], rs[4]);
    assert rs[..4] + [rs[4]] == rs;
  }

  /** `scrape_website(base_url)`: the five candidates are submitted, then the
      truthy results are appended as the futures complete, in `order`. */
  method ScrapeWebsite(baseUrl: string, fetch: string -> Option<string>, order: seq<nat>)
    returns (pages: seq<string>)
    requires IsPermutation(order, |Paths|)
    ensures pages == CollectPages(baseUrl, fetch, order)
  {
    var base := baseUrl;
    if !StartsWith(base, "http") {
      base := Scheme + base;
    }
    assert base == NormalizeBase(baseUrl);
    var urls := [base, base + "/about", base + "/services", base + "/products", base + "/contact"];
    assert urls == CandidateUrls(baseUrl);
    var results := ScrapeAll(urls, fetch);
    PermutationIndices(order, |Paths|);
    pages := CollectCompleted(results, order);
  }

  /** The `for f in as_completed(futures)` loop: each result, taken in
      completion order, is appended when it is truthy. */
  method CollectCompleted(results: seq<Option<string>>, order: seq<nat>) returns (pages: seq<string>)
    requires Indices(order, |results|)
    ensures pages == Truthy(Reorder(results, order))
  {
    pages := [];
    var k := 0;
    while k < |order|
      invariant 0 <= k <= |order|
      invariant pages == Truthy(Reorder(results, order[..k]))
    {
      var result := results[order[k]];
      ReorderSnoc(results, order, k);
      TruthySnoc(Reorder(results, order[..k]), result);
      if result.Some? && result.value != [] {
        pages := pages + [result.value];
      }
      k := k + 1;
    }
    assert order[..k] == order;
  }
}
