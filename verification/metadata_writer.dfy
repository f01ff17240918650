/** Encoding a round of metadata writes (disk_cache/metadata.rs): dirty pages, last chunk first. */
module MetadataWriter {
  import opened Layout
  import opened Metadata
  import opened CrashModel

  function NumberOf(at: PageAt): nat {
    at.chunk * PAGES_PER_CHUNK + at.page
  }

  /** Pages that are not marked contribute no writes. */
  lemma {:induction false} SkipUnmarked(chain: Chain, marked: set<PageAt>, n: nat, m: nat)
    requires FullSized(chain) && n <= m
    requires forall k :: n <= k < m ==> PageNumbered(k) !in marked
    ensures WritesBelow(chain, marked, m) == WritesBelow(chain, marked, n)
    decreases m
  {
    if n < m {
      SkipUnmarked(chain, marked, n, m - 1);
    }
  }

  /** Writes below a page do not depend on marks at or above it. */
  lemma {:induction false} MarksAbove(chain: Chain, a: set<PageAt>, b: set<PageAt>, n: nat)
    requires FullSized(chain)
    requires forall k :: 0 <= k < n ==> (PageNumbered(k) in a <==> PageNumbered(k) in b)
    ensures WritesBelow(chain, a, n) == WritesBelow(chain, b, n)
  {
    if n > 0 {
      MarksAbove(chain, a, b, n - 1);
    }
  }

  lemma NumberedInverse(at: PageAt)
    requires at.page < PAGES_PER_CHUNK
    ensures PageNumbered(NumberOf(at)) == at
  {
  }

  lemma NumberOfNumbered(k: nat)
    ensures NumberOf(PageNumbered(k)) == k
  {
  }

  /** Taking the last marked page takes the first of the remaining writes. */
  lemma TakeLast(chain: Chain, marked: set<PageAt>, last: PageAt, n: nat)
    requires FullSized(chain) && DirtyInRange(chain, marked) && n == |chain| * PAGES_PER_CHUNK
    requires last in marked && forall at :: at in marked ==> NumberOf(at) <= NumberOf(last)
    ensures WritesBelow(chain, marked, n) == WriteFor(chain, last) + WritesBelow(chain, marked - {last}, n)
  {
    var k := NumberOf(last);
    NumberedInverse(last);
    forall j | k + 1 <= j < n ensures PageNumbered(j) !in marked {
      NumberOfNumbered(j);
    }
    SkipUnmarked(chain, marked, k + 1, n);
    forall j | k <= j < n ensures PageNumbered(j) !in marked - {last} {
      NumberOfNumbered(j);
    }
    SkipUnmarked(chain, marked - {last}, k, n);
    forall j | 0 <= j < k ensures PageNumbered(j) in marked <==> PageNumbered(j) in marked - {last} {
      NumberOfNumbered(j);
    }
    MarksAbove(chain, marked, marked - {last}, k);
  }

  /** The last page of a nonempty ordered set. */
  method LastPage(pages: set<PageAt>) returns (last: PageAt)
    requires pages != {}
    ensures last in pages && forall at :: at in pages ==> NumberOf(at) <= NumberOf(last)
  {
    last :| last in pages;
    var left := pages - {last};
    while left != {}
      invariant last in pages && left <= pages
      invariant forall at :: at in pages && at !in left ==> NumberOf(at) <= NumberOf(last)
      decreases left
    {
      var at :| at in left;
      left := left - {at};
      if NumberOf(last) < NumberOf(at) { last := at; }
    }
  }

  /** Adds the link pages of all uninitialized chunks, unless nothing is dirty. */
  method MarkUninitialized(chain: Chain, dirty: set<PageAt>) returns (marked: set<PageAt>)
    ensures marked == Marked(chain, dirty)
  {
    marked := dirty;
    if marked != {} {
      for i := 0 to |chain|
        invariant marked == dirty + set k | 0 <= k < i && chain[k].needsFullWrite :: PageAt(k, ENTRY_PAGES_PER_CHUNK)
      {
        if chain[i].needsFullWrite {
          marked := marked + {PageAt(i, ENTRY_PAGES_PER_CHUNK)};
        }
      }
    }
  }

  lemma Associate(a: seq<MetaWrite>, b: seq<MetaWrite>, c: seq<MetaWrite>)
    ensures (a + b) + c == a + (b + c)
  {
  }

  /** Takes the dirty pages and encodes their writes, uninitialized chunks included, last page first. */
  method TakeWrites(metadata: MetadataChunks) returns (writes: seq<MetaWrite>)
    requires metadata.Valid()
    modifies metadata`dirtyPages
    ensures metadata.Valid() && metadata.dirtyPages == {}
    ensures writes == RoundWrites(metadata.chunks, old(metadata.dirtyPages))
  {
    var chain := metadata.chunks;
    var marked := MarkUninitialized(chain, metadata.dirtyPages);
    metadata.dirtyPages := {};
    writes := [];
    ghost var all, n := marked, |chain| * PAGES_PER_CHUNK;
    while marked != {}
      invariant DirtyInRange(chain, marked)
      invariant WritesBelow(chain, all, n) == writes + WritesBelow(chain, marked, n)
      decreases marked
      modifies {}
    {
      var last := LastPage(marked);
      TakeLast(chain, marked, last, n);
      Associate(writes, WriteFor(chain, last), WritesBelow(chain, marked - {last}, n));
      writes := writes + WriteFor(chain, last);
      marked := marked - {last};
    }
    MarksAbove(chain, {}, {}, n);
    SkipUnmarked(chain, {}, 0, n);
  }
}
