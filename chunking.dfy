/** The retrieval corpus of `WebsiteChatbot.create_chunks`: each page's text
    cut into consecutive, non-overlapping windows of at most 600 characters,
    pages in order. */
module Chunking {
  import opened Text

  const ChunkSize: nat := 600

  /** The windows of one page: `[page[i:i+600] for i in range(0, len(page), 600)]`. */
  function PageChunks(page: string): seq<string>
    decreases |page|
  {
    if page == [] then []
    else
      var n := Min(ChunkSize, |page|);
      [page[..n]] + PageChunks(page[n..])
  }

  /** The windows of all pages, page after page. */
  function Chunks(pages: seq<string>): seq<string>
    decreases |pages|
  {
    if pages == [] then [] else PageChunks(pages[0]) + Chunks(pages[1..])
  }

  /** Concatenation of a sequence of strings. */
  function Concat(parts: seq<string>): string
    decreases |parts|
  {
    if parts == [] then [] else parts[0] + Concat(parts[1..])
  }

  /** Chunking a page loses nothing and duplicates nothing: the windows, put
      back together in order, are the page. */
  lemma {:induction false} PageChunksLossless(page: string)
    ensures Concat(PageChunks(page)) == page
    decreases |page|
  {
    if page != [] {
      var n := Min(ChunkSize, |page|);
      PageChunksLossless(page[n..]);
      assert page == page[..n] + page[n..];
    }
  }

  /** Every window holds between 1 and 600 characters. */
  lemma {:induction false} PageChunksBounded(page: string)
    ensures forall c :: c in PageChunks(page) ==> 1 <= |c| <= ChunkSize
    decreases |page|
  {
    if page != [] {
      var n := Min(ChunkSize, |page|);
      PageChunksBounded(page[n..]);
    }
  }

  /** A page of n characters gives ceil(n / 600) windows. */
  lemma {:induction false} PageChunksCount(page: string)
    ensures |PageChunks(page)| == (|page| + ChunkSize - 1) / ChunkSize
    decreases |page|
  {
    if page != [] {
      var n := Min(ChunkSize, |page|);
      PageChunksCount(page[n..]);
      if |page| > ChunkSize {
        assert (|page| + ChunkSize - 1) / ChunkSize == 1 + (|page| - ChunkSize + ChunkSize - 1) / ChunkSize;
      }
    }
  }

  /** Every window but the last of a page is full. */
  lemma {:induction false} PageChunksFull(page: string)
    ensures forall i :: 0 <= i < |PageChunks(page)| - 1 ==> |PageChunks(page)[i]| == ChunkSize
    decreases |page|
  {
    if page != [] {
      var n := Min(ChunkSize, |page|);
      PageChunksFull(page[n..]);
      var cs := PageChunks(page);
      forall i | 0 <= i < |cs| - 1 ensures |cs[i]| == ChunkSize {
        if i > 0 {
          assert cs[i] == PageChunks(page[n..])[i - 1];
        } else {
          assert cs == [page[..n]] + PageChunks(page[n..]);
          assert |PageChunks(page[n..])| >= 1;
          assert page[n..] != [];
        }
      }
    }
  }

  /** The corpus of a concatenation of page lists is the concatenation of
      their corpora. */
  lemma {:induction false} ChunksAppend(a: seq<string>, b: seq<string>)
    ensures Chunks(a + b) == Chunks(a) + Chunks(b)
    decreases |a|
  {
    if a != [] {
      assert (a + b)[1..] == a[1..] + b;
      ChunksAppend(a[1..], b);
    } else {
      assert a + b == b;
    }
  }

  /** The windows of a page from offset `i` on: the one at `i`, then those
      from the next offset. */
  lemma PageChunksFrom(page: string, i: nat)
    requires i < |page|
    ensures PageChunks(page[i..]) ==
              [page[i..i + Min(ChunkSize, |page| - i)]] + PageChunks(page[Min(i + ChunkSize, |page|)..])
  {
    var n := Min(ChunkSize, |page| - i);
    assert page[i..][..n] == page[i..i + n] && page[i..][n..] == page[i + n..];
  }

  /** The corpus of one more page. */
  lemma ChunksSnoc(pages: seq<string>, p: nat)
    requires p < |pages|
    ensures Chunks(pages[..p + 1]) == Chunks(pages[..p]) + PageChunks(pages[p])
  {
    var page := pages[p];
    assert [page][1..] == pages[..0];
    assert Chunks([page]) == PageChunks(page);
    ChunksAppend(pages[..p], [page]);
    assert pages[..p + 1] == pages[..p] + [page];
  }

  /** Page order is kept: the windows of page k come after those of every
      earlier page and before those of every later one. */
  lemma {:induction false} PageOrder(pages: seq<string>, k: nat)
    requires k < |pages|
    ensures Chunks(pages) == Chunks(pages[..k]) + PageChunks(pages[k]) + Chunks(pages[k + 1..])
  {
    var rest := pages[k..];
    assert pages == pages[..k] + rest;
    ChunksAppend(pages[..k], rest);
    assert rest[0] == pages[k] && rest[1..] == pages[k + 1..];
    assert Chunks(rest) == PageChunks(pages[k]) + Chunks(pages[k + 1..]);
  }

  /** No window is empty or longer than 600 characters, and every window lies
      inside a single page. */
  lemma {:induction false} ChunksWithinPages(pages: seq<string>)
    ensures forall c :: c in Chunks(pages) ==> 1 <= |c| <= ChunkSize
    ensures forall c :: c in Chunks(pages) ==> exists p :: p in pages && c in PageChunks(p)
    decreases |pages|
  {
    if pages != [] {
      PageChunksBounded(pages[0]);
      ChunksWithinPages(pages[1..]);
      forall c | c in Chunks(pages) ensures exists p :: p in pages && c in PageChunks(p) {
        if c in PageChunks(pages[0]) {
          assert pages[0] in pages;
        } else {
          assert c in Chunks(pages[1..]);
          var p :| p in pages[1..] && c in PageChunks(p);
          assert p in pages;
        }
      }
    }
  }

  /** The corpus restores the page texts, page by page. */
  lemma {:induction false} ChunksLossless(pages: seq<string>)
    ensures Concat(Chunks(pages)) == Concat(pages)
    decreases |pages|
  {
    if pages != [] {
      ChunksLossless(pages[1..]);
      PageChunksLossless(pages[0]);
      ConcatAppend(PageChunks(pages[0]), Chunks(pages[1..]));
    }
  }

  lemma {:induction false} ConcatAppend(a: seq<string>, b: seq<string>)
    ensures Concat(a + b) == Concat(a) + Concat(b)
    decreases |a|
  {
    if a != [] {
      assert (a + b)[1..] == a[1..] + b;
      ConcatAppend(a[1..], b);
    } else {
      assert a + b == b;
    }
  }
}
