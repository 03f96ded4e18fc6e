/** The cache of compiled blocks, by physical address (src/cpu/jit/code_cache.cpp, src/cpu/jit/jit.cpp:140-162). */
module CodeCache {
  import opened Common

  datatype Block = Block(fn: nat, paddr: nat, numInsts: nat)

  // ---- What the cache means: a finite map from addresses to blocks ----------------------------------

  type Blocks = map<nat, Block>

  predicate Overlapped(p: nat, paddr: nat, length: nat) {
    length > 0 && paddr / PAGE <= p / PAGE <= LastByte(paddr, length) / PAGE
  }

  predicate OnPage(a: nat, page: nat) { a / PAGE == page }

  /** An address is overlapped when some byte of the range lies on its page. */
  lemma OverlappedIsAByte(p: nat, paddr: nat, length: nat)
    requires paddr < SPACE
    ensures Overlapped(p, paddr, length) <==>
      exists a :: paddr <= a < paddr + length && a < SPACE && OnPage(a, p / PAGE)
  {
    if length > 0 { ByteOfPage(p / PAGE, paddr, LastByte(paddr, length)); }
  }

  lemma ByteOfPage(page: nat, from: nat, to: nat)
    requires from <= to
    ensures from / PAGE <= page <= to / PAGE <==> exists a :: from <= a <= to && OnPage(a, page)
  {
    if from / PAGE <= page <= to / PAGE {
      assert OnPage(if page == from / PAGE then from else page * PAGE, page);
    }
    forall a | from <= a <= to && OnPage(a, page) ensures from / PAGE <= page <= to / PAGE {
      DivOrder(from, a, PAGE);
      DivOrder(a, to, PAGE);
    }
  }

  function Removed(m: Blocks, paddr: nat, length: nat): Blocks {
    map p | p in m && !Overlapped(p, paddr, length) :: m[p]
  }

  ghost predicate HasCode(m: Blocks, page: nat) { exists p :: p in m && p / PAGE == page }

  /** Whether Dynarec::invalidate_range rejects a range without looking further: a short one when its first page
      has no code, a long one when none of its pages has. */
  ghost predicate Rejected(m: Blocks, paddr: nat, length: nat) {
    if length <= 8 then !HasCode(m, paddr / PAGE)
    else forall page :: paddr / PAGE <= page <= LastByte(paddr, length) / PAGE ==> !HasCode(m, page)
  }

  ghost function DynarecRemoved(m: Blocks, paddr: nat, length: nat): Blocks {
    if Rejected(m, paddr, length) then m else Removed(m, paddr, length)
  }

  /** The reject loses a block exactly when a short store crosses into a page with code from a page without. */
  lemma CheapRejectExact(m: Blocks, paddr: nat, length: nat)
    requires paddr < SPACE
    ensures DynarecRemoved(m, paddr, length) == Removed(m, paddr, length) <==>
      !(0 < length <= 8 && LastByte(paddr, length) / PAGE > paddr / PAGE
        && !HasCode(m, paddr / PAGE) && HasCode(m, paddr / PAGE + 1))
  {
    if Rejected(m, paddr, length) {
      if length > 8 || length == 0 {
        NothingRemoved(m, paddr, length);
      } else if LastByte(paddr, length) / PAGE > paddr / PAGE {
        assert LastByte(paddr, length) / PAGE == paddr / PAGE + 1;
        if HasCode(m, paddr / PAGE + 1) {
          var p :| p in m && p / PAGE == paddr / PAGE + 1;
          assert Overlapped(p, paddr, length);
          assert p !in Removed(m, paddr, length);
        } else {
          NothingRemoved(m, paddr, length);
        }
      } else {
        NothingRemoved(m, paddr, length);
      }
    }
  }

  lemma NothingRemoved(m: Blocks, paddr: nat, length: nat)
    requires length > 0 ==> forall page :: paddr / PAGE <= page <= LastByte(paddr, length) / PAGE ==> !HasCode(m, page)
    ensures Removed(m, paddr, length) == m
  {
    forall p | p in m ensures !Overlapped(p, paddr, length) {
      assert HasCode(m, p / PAGE);
    }
  }

  /** In particular it loses nothing when the store lies in one page. */
  lemma OnePageLosesNothing(m: Blocks, paddr: nat, length: nat)
    requires paddr < SPACE && paddr % PAGE + length <= PAGE
    ensures DynarecRemoved(m, paddr, length) == Removed(m, paddr, length)
  {
    CheapRejectExact(m, paddr, length);
  }

  // ---- Pages of pointers ----------------------------------------------------------------------------

  /** Entries are positions in the block list: the source's pointers, which would dangle if the list were
      shorter. */
  datatype Page = Page(entries: seq<Option<nat>>, hasCode: bool)

  type Pages = map<nat, Page>

  function Blank(): (p: Page)
    ensures |p.entries| == WORDS && !p.hasCode && forall w :: 0 <= w < WORDS ==> p.entries[w].None?
  {
    Page(seq(WORDS, _ => None), false)
  }

  ghost predicate PageValid(blocks: seq<Block>, i: nat, page: Page) {
    && |page.entries| == WORDS
    && (forall w :: 0 <= w < WORDS && page.entries[w].Some? ==>
          page.entries[w].value < |blocks| && blocks[page.entries[w].value].paddr == i * PAGE + 4 * w)
    && (page.hasCode <==> exists w :: 0 <= w < WORDS && page.entries[w].Some?)
  }

  function Word(p: nat): nat { p % PAGE / 4 }

  predicate Holds(pages: Pages, blocks: seq<Block>, p: nat) {
    && p % 4 == 0 && p / PAGE in pages && Word(p) < |pages[p / PAGE].entries|
    && pages[p / PAGE].entries[Word(p)].Some? && pages[p / PAGE].entries[Word(p)].value < |blocks|
  }

  function BlockAt(pages: Pages, blocks: seq<Block>, p: nat): Block
    requires Holds(pages, blocks, p)
  {
    blocks[pages[p / PAGE].entries[Word(p)].value]
  }

  ghost predicate Represents(pages: Pages, blocks: seq<Block>, m: Blocks) {
    && (forall i :: i in pages ==> PageValid(blocks, i, pages[i]))
    && (forall p :: p in m <==> Holds(pages, blocks, p))
    && (forall p :: p in m ==> m[p] == BlockAt(pages, blocks, p))
  }

  /** The hint is a block the cache still holds. */
  ghost predicate HintValid(pages: Pages, blocks: seq<Block>, hint: Option<nat>) {
    hint.Some? ==>
      && hint.value < |blocks| && Holds(pages, blocks, blocks[hint.value].paddr)
      && pages[blocks[hint.value].paddr / PAGE].entries[Word(blocks[hint.value].paddr)] == hint
  }

  lemma SplitAddress(p: nat)
    requires p % 4 == 0
    ensures Word(p) < WORDS && p == p / PAGE * PAGE + 4 * Word(p)
  {
    var w := p / 4;
    Euclid(p, PAGE, w / WORDS, 4 * (w % WORDS));
    Euclid(4 * (w % WORDS), 4, w % WORDS, 0);
  }

  lemma JoinAddress(i: nat, w: nat)
    requires w < WORDS
    ensures var p := i * PAGE + 4 * w; p % 4 == 0 && p / PAGE == i && Word(p) == w
  {
    var p := i * PAGE + 4 * w;
    Euclid(p, PAGE, i, 4 * w);
    Euclid(4 * w, 4, w, 0);
    Euclid(p, 4, 0x400 * i + w, 0);
  }

  lemma MoreBlocks(blocks: seq<Block>, b: Block, i: nat, page: Page)
    requires PageValid(blocks, i, page)
    ensures PageValid(blocks + [b], i, page)
  {}

  lemma EntrySet(blocks: seq<Block>, b: Block, i: nat, w: nat, page: Page)
    requires PageValid(blocks, i, page) && w < WORDS && b.paddr == i * PAGE + 4 * w
    ensures PageValid(blocks + [b], i, Page(page.entries[w := Some(|blocks|)], true))
  {
    assert page.entries[w := Some(|blocks|)][w].Some?;
  }

  lemma InsertRepresents(pages: Pages, blocks: seq<Block>, m: Blocks, b: Block)
    requires Represents(pages, blocks, m) && b.paddr % 4 == 0
    ensures var i := b.paddr / PAGE;
      var page := if i in pages then pages[i] else Blank();
      && |page.entries| == WORDS && Word(b.paddr) < WORDS
      && var pages' := pages[i := Page(page.entries[Word(b.paddr) := Some(|blocks|)], true)];
         Represents(pages', blocks + [b], m[b.paddr := b]) && HintValid(pages', blocks + [b], Some(|blocks|))
  {
    var i, w := b.paddr / PAGE, Word(b.paddr);
    SplitAddress(b.paddr);
    var page := if i in pages then pages[i] else Blank();
    assert PageValid(blocks, i, page);
    var pages' := pages[i := Page(page.entries[w := Some(|blocks|)], true)];
    forall k | k in pages' ensures PageValid(blocks + [b], k, pages'[k]) {
      if k == i { EntrySet(blocks, b, i, w, page); } else { MoreBlocks(blocks, b, k, pages[k]); }
    }
    hide PageValid, Word;
    forall p ensures p in m[b.paddr := b] <==> Holds(pages', blocks + [b], p)
             ensures p in m[b.paddr := b] ==> m[b.paddr := b][p] == BlockAt(pages', blocks + [b], p)
    {
      InsertAt(pages, blocks, m, b, page, p);
    }
    assert b.paddr in m[b.paddr := b];
  }

  lemma InsertAt(pages: Pages, blocks: seq<Block>, m: Blocks, b: Block, page: Page, p: nat)
    requires Represents(pages, blocks, m) && b.paddr % 4 == 0
    requires page == (if b.paddr / PAGE in pages then pages[b.paddr / PAGE] else Blank())
    requires |page.entries| == WORDS && Word(b.paddr) < WORDS
    ensures var pages' := pages[b.paddr / PAGE := Page(page.entries[Word(b.paddr) := Some(|blocks|)], true)];
      var m' := m[b.paddr := b];
      (p in m' <==> Holds(pages', blocks + [b], p)) && (p in m' ==> m'[p] == BlockAt(pages', blocks + [b], p))
  {
    assert p in m <==> Holds(pages, blocks, p);
    if p / PAGE in pages { assert PageValid(blocks, p / PAGE, pages[p / PAGE]); }
    if p % 4 == 0 {
      SplitAddress(p);
      SplitAddress(b.paddr);
    }
    hide Word;
  }

  function Emptied(pages: Pages, i: nat): Pages { if i in pages then pages[i := Blank()] else pages }

  function WithoutPage(m: Blocks, i: nat): Blocks { map p | p in m && p / PAGE != i :: m[p] }

  lemma EmptyRepresents(pages: Pages, blocks: seq<Block>, m: Blocks, i: nat)
    requires Represents(pages, blocks, m)
    ensures Represents(Emptied(pages, i), blocks, WithoutPage(m, i))
  {
    assert PageValid(blocks, i, Blank());
    hide PageValid, Word;
  }

  lemma CodeOnPage(pages: Pages, blocks: seq<Block>, m: Blocks, i: nat)
    requires Represents(pages, blocks, m)
    ensures HasCode(m, i) <==> i in pages && pages[i].hasCode
  {
    if i in pages {
      assert PageValid(blocks, i, pages[i]);
      if pages[i].hasCode {
        var w :| 0 <= w < WORDS && pages[i].entries[w].Some?;
        JoinAddress(i, w);
        assert Holds(pages, blocks, i * PAGE + 4 * w);
      }
    }
  }

  lemma NoCodeNothingLost(m: Blocks, i: nat)
    requires !HasCode(m, i)
    ensures WithoutPage(m, i) == m
  {}

  // ---- The cache object -----------------------------------------------------------------------------

  datatype Slab = Slab(bytes: nat, used: nat)

  const MAX_BLOCKS: nat := 8192
  const SLAB_SIZE: nat := 0x20_0000
  const MAX_SLAB_BYTES: nat := 0x200_0000

  function Align16(n: nat): nat { (n + 15) / 16 * 16 }

  class CodeCache {
    var pages: Pages
    var blocks: seq<Block>
    var lastHit: Option<nat>
    var slabs: seq<Slab>
    var slabBytes: nat
    const hostPage: nat
    ghost var contents: Blocks

    ghost predicate Valid()
      reads this
    {
      Represents(pages, blocks, contents) && HintValid(pages, blocks, lastHit) && hostPage > 0
      && forall k :: 0 <= k < |slabs| ==> slabs[k].used <= slabs[k].bytes
    }

    constructor (hostPage: nat)
      requires hostPage > 0
      ensures Valid() && contents == map[]
    {
      pages, blocks, lastHit := map[], [], None;
      slabs, slabBytes := [], 0;
      this.hostPage := hostPage;
      contents := map[];
    }

    method Clear()
      requires hostPage > 0
      modifies this
      ensures Valid() && contents == map[] && slabs == [] && slabBytes == 0
    {
      lastHit, pages, blocks, slabs, slabBytes := None, map[], [], [], 0;
      contents := map[];
    }

    method Lookup(paddr: nat) returns (r: Option<Block>)
      requires Valid() && paddr % 4 == 0
      modifies this`lastHit
      ensures Valid() && r == if paddr in contents then Some(contents[paddr]) else None
    {
      if lastHit.Some? && blocks[lastHit.value].paddr == paddr { return Some(blocks[lastHit.value]); }
      var i := paddr / PAGE;
      if i !in pages { return None; }
      assert PageValid(blocks, i, pages[i]);
      SplitAddress(paddr);
      hide Word;
      var e := pages[i].entries[Word(paddr)];
      if e.None? { return None; }
      assert Holds(pages, blocks, paddr);
      lastHit := e;
      r := Some(blocks[e.value]);
    }

    method PageHasCode(paddr: nat) returns (b: bool)
      requires Valid()
      ensures b == HasCode(contents, paddr / PAGE)
    {
      CodeOnPage(pages, blocks, contents, paddr / PAGE);
      b := paddr / PAGE in pages && pages[paddr / PAGE].hasCode;
    }

    method Insert(paddr: nat, fn: nat, numInsts: nat)
      requires Valid() && paddr % 4 == 0
      modifies this`pages, this`blocks, this`lastHit, this`contents
      ensures Valid() && contents == old(contents)[paddr := Block(fn, paddr, numInsts)]
    {
      hide Represents, HintValid, Word;
      var i, block := paddr / PAGE, Block(fn, paddr, numInsts);
      InsertRepresents(pages, blocks, contents, block);
      var page := if i in pages then pages[i] else Blank();
      pages := pages[i := Page(page.entries[Word(paddr) := Some(|blocks|)], true)];
      lastHit := Some(|blocks|);
      blocks := blocks + [block];
      contents := contents[paddr := block];
    }

    method InvalidatePage(paddr: nat)
      requires Valid()
      modifies this`pages, this`lastHit, this`contents
      ensures Valid() && contents == WithoutPage(old(contents), paddr / PAGE)
    {
      hide Represents;
      var i := paddr / PAGE;
      CodeOnPage(pages, blocks, contents, i);
      if i !in pages || !pages[i].hasCode {
        NoCodeNothingLost(contents, i);
        return;
      }
      EmptyRepresents(pages, blocks, contents, i);
      lastHit := None;
      pages := pages[i := Blank()];
      contents := WithoutPage(contents, i);
    }

    method InvalidateRange(paddr: nat, length: nat)
      requires Valid() && paddr < SPACE
      modifies this`pages, this`lastHit, this`contents
      ensures Valid() && contents == Removed(old(contents), paddr, length)
    {
      hide Represents, HintValid, WithoutPage, Without, Removed;
      RemovedByPages(contents, paddr, length);
      if length == 0 { return; }
      var p, end := paddr / PAGE * PAGE, LastByte(paddr, length);
      while p <= end
        invariant Valid() && p % PAGE == 0 && paddr / PAGE <= p / PAGE <= end / PAGE + 1
        invariant contents == Without(old(contents), paddr / PAGE, p / PAGE)
        decreases end + PAGE - p
      {
        InvalidatePage(p);
        WithoutOneMore(old(contents), paddr / PAGE, p / PAGE);
        p := p + PAGE;
      }
      assert p / PAGE == end / PAGE + 1;
    }

    method AnyCode(paddr: nat, length: nat) returns (any: bool)
      requires Valid() && paddr < SPACE && length > 0
      ensures any <==> exists page :: paddr / PAGE <= page <= LastByte(paddr, length) / PAGE && HasCode(contents, page)
    {
      hide Represents, HintValid, HasCode;
      var p, end := paddr / PAGE * PAGE, LastByte(paddr, length);
      while p <= end
        invariant p % PAGE == 0 && paddr / PAGE <= p / PAGE <= end / PAGE + 1
        invariant forall page :: paddr / PAGE <= page < p / PAGE ==> !HasCode(contents, page)
        decreases end + PAGE - p
      {
        var b := PageHasCode(p);
        if b { return true; }
        p := p + PAGE;
      }
      any := false;
    }

    /** Dynarec::invalidate_range. */
    method DynarecInvalidateRange(paddr: nat, length: nat)
      requires Valid() && paddr < SPACE
      modifies this`pages, this`lastHit, this`contents
      ensures Valid() && contents == DynarecRemoved(old(contents), paddr, length)
    {
      hide Represents, HintValid, HasCode, Removed;
      var any;
      if length <= 8 { any := PageHasCode(paddr); } else { any := AnyCode(paddr, length); }
      if any { InvalidateRange(paddr, length); }
    }

    predicate Full()
      reads this
    {
      |blocks| > MAX_BLOCKS || slabBytes > MAX_SLAB_BYTES
    }

    method MaybeFlush()
      requires Valid()
      modifies this
      ensures Valid() && contents == (if old(Full()) then map[] else old(contents))
      ensures slabs == (if old(Full()) then [] else old(slabs))
    {
      if Full() { Clear(); }
    }

    /** Bytes for new code: a new slab's first, or those behind everything handed out in the last slab. */
    method AllocExec(size: nat) returns (slab: nat, offset: nat)
      requires Valid()
      modifies this
      ensures Valid() && contents == (if old(Full()) then map[] else old(contents))
      ensures slab + 1 == |slabs| && offset + size <= slabs[slab].used
      ensures var was := if old(Full()) then [] else old(slabs);
        slab <= |was| && offset >= (if slab < |was| then was[slab].used else 0) && slabs[..slab] == was[..slab]
    {
      hide Represents, HintValid;
      MaybeFlush();
      var n := Align16(size);
      if slabs != [] {
        var cur := slabs[|slabs| - 1];
        var start := Align16(cur.used);
        if start + n <= cur.bytes {
          slabs := slabs[|slabs| - 1 := cur.(used := start + n)];
          return |slabs| - 1, start;
        }
      }
      var total := if n + 16 > SLAB_SIZE then (n + 16 + hostPage - 1) / hostPage * hostPage else SLAB_SIZE;
      Rounded(n + 16, hostPage);
      slabs := slabs + [Slab(total, n)];
      slabBytes := slabBytes + total;
      return |slabs| - 1, 0;
    }

    /** Gives back the tail of the last allocation, never a byte of the code emitted into it. */
    method ShrinkLastAlloc(reserved: nat, used: nat)
      requires Valid() && used <= reserved
      modifies this`slabs
      ensures Valid() && |slabs| == old(|slabs|)
      ensures slabs != [] && old(slabs)[|slabs| - 1].used >= reserved ==>
        old(slabs)[|slabs| - 1].used - reserved + used <= slabs[|slabs| - 1].used <= old(slabs)[|slabs| - 1].used
      ensures slabs != [] ==> slabs[..|slabs| - 1] == old(slabs)[..|slabs| - 1]
    {
      if slabs == [] { return; }
      var cur := slabs[|slabs| - 1];
      if cur.used < reserved || Align16(used) > reserved { return; }
      slabs := slabs[|slabs| - 1 := cur.(used := cur.used - reserved + Align16(used))];
    }
  }

  function Without(m: Blocks, from: nat, to: nat): Blocks { map p | p in m && !(from <= p / PAGE < to) :: m[p] }

  lemma WithoutOneMore(m: Blocks, from: nat, page: nat)
    requires from <= page
    ensures WithoutPage(Without(m, from, page), page) == Without(m, from, page + 1)
  {}

  /** A range is invalidated page by page. */
  lemma RemovedByPages(m: Blocks, paddr: nat, length: nat)
    ensures Without(m, paddr / PAGE, paddr / PAGE) == m
    ensures Removed(m, paddr, length) == if length == 0 then m else Without(m, paddr / PAGE, LastByte(paddr, length) / PAGE + 1)
  {}

  lemma Rounded(n: nat, page: nat)
    requires page > 0
    ensures (n + page - 1) / page * page >= n
  {}
}
