/** Sparse memory in pages of 4096 bytes, allocated on first write, and the flat byte
    map it stands for. */
module PagedMemory {
  import opened Words

  const PAGE: int := 0x1000
  const PAGES: int := 0x10_0000_0000_0000

  type PageNumber = p: int | 0 <= p < PAGES
  type Pages = map<PageNumber, seq<u8>>

  function PageOf(a: u64): PageNumber {
    a / PAGE
  }

  predicate Wellformed(pages: Pages) {
    forall p <- pages :: |pages[p]| == PAGE
  }

  /** The byte at an address; pages that were never written read as 0xCC. */
  function ByteAt(pages: Pages, a: u64): u8
    requires Wellformed(pages)
  {
    if PageOf(a) in pages then pages[PageOf(a)][a % PAGE] else 0xCC
  }

  function View(pages: Pages, addr: u64, n: nat): (s: seq<u8>)
    requires Wellformed(pages)
    ensures |s| == n
  {
    seq(n, i requires 0 <= i < n => ByteAt(pages, At(addr, i)))
  }

  /** Some byte of the range lies in page `p`. */
  predicate Touches(addr: u64, n: nat, p: PageNumber) {
    exists i :: 0 <= i < n && PageOf(At(addr, i)) == p
  }

  /** The byte at `a` after writing `s` at `addr`: the written byte, else the old byte
      of an existing page, else zero in a page the write touches and the filler in one
      it does not. */
  function Overwritten(pages: Pages, addr: u64, s: seq<u8>, a: u64): u8
    requires Wellformed(pages)
  {
    if Distance(addr, a) < |s| then s[Distance(addr, a)]
    else if PageOf(a) in pages then ByteAt(pages, a)
    else if Touches(addr, |s|, PageOf(a)) then 0
    else 0xCC
  }

  /** `now` is `before` with `s` written at `addr`. */
  ghost predicate Written(before: Pages, now: Pages, addr: u64, s: seq<u8>) {
    && Wellformed(before) && Wellformed(now)
    && (forall p: PageNumber :: p in now <==> p in before || Touches(addr, |s|, p))
    && (forall a: u64 :: ByteAt(now, a) == Overwritten(before, addr, s, a))
  }

  // ------------------------------------------------------------ addresses

  /** Within a page addresses do not wrap. */
  lemma InPage(addr: u64, i: nat, k: nat)
    requires At(addr, i) % PAGE + k < PAGE
    ensures At(addr, i + k) == At(addr, i) + k
    ensures PageOf(At(addr, i + k)) == PageOf(At(addr, i)) && At(addr, i + k) % PAGE == At(addr, i) % PAGE + k
  {
    var a := At(addr, i);
    assert a + k == PAGE * (a / PAGE) + (a % PAGE + k);
    ModUnique(a + k, PAGE, a / PAGE, a % PAGE + k);
    assert a + k < W64;
    ModSum(addr + i, k, W64);
  }

  /** A chunk that stays in a page, by distance and by offset in the page. */
  lemma InChunk(addr: u64, i: nat, c: nat, a: u64)
    requires i + c <= W64 && At(addr, i) % PAGE + c <= PAGE
    ensures i <= Distance(addr, a) < i + c
            <==> PageOf(a) == PageOf(At(addr, i)) && At(addr, i) % PAGE <= a % PAGE < At(addr, i) % PAGE + c
    ensures i <= Distance(addr, a) < i + c ==> a % PAGE - At(addr, i) % PAGE == Distance(addr, a) - i
  {
    var b := At(addr, i);
    DistanceBack(addr, a);
    if i <= Distance(addr, a) < i + c {
      InPage(addr, i, Distance(addr, a) - i);
    }
    if PageOf(a) == PageOf(b) && b % PAGE <= a % PAGE < b % PAGE + c {
      InPage(addr, i, a % PAGE - b % PAGE);
      assert a == At(addr, i + (a % PAGE - b % PAGE));
      DistanceOf(addr, i + (a % PAGE - b % PAGE));
    }
  }

  lemma TouchesMore(addr: u64, i: nat, c: nat, p: PageNumber)
    requires c > 0 && At(addr, i) % PAGE + c <= PAGE
    ensures Touches(addr, i + c, p) <==> Touches(addr, i, p) || p == PageOf(At(addr, i))
  {
    if Touches(addr, i + c, p) && !Touches(addr, i, p) {
      var j :| 0 <= j < i + c && PageOf(At(addr, j)) == p;
      InPage(addr, i, j - i);
    }
    if Touches(addr, i, p) {
      var j :| 0 <= j < i && PageOf(At(addr, j)) == p;
      assert j < i + c;
    }
    if p == PageOf(At(addr, i)) {
      assert i < i + c;
    }
  }

  // ------------------------------------------------------------ one chunk

  /** The page at `p`, allocated and cleared if it is new. */
  function PageAt(pages: Pages, p: PageNumber): (s: seq<u8>)
    requires Wellformed(pages)
    ensures |s| == PAGE
  {
    if p in pages then pages[p] else seq(PAGE, i => 0)
  }

  function PutChunk(pages: Pages, p: PageNumber, off: nat, bytes: seq<u8>): (r: Pages)
    requires Wellformed(pages) && off + |bytes| <= PAGE
    ensures Wellformed(r)
  {
    var old_ := PageAt(pages, p);
    pages[p := old_[..off] + bytes + old_[off + |bytes|..]]
  }

  lemma Untouched(addr: u64, i: nat, a: u64)
    requires !Touches(addr, i, PageOf(a))
    ensures Distance(addr, a) >= i
  {
    DistanceBack(addr, a);
  }

  lemma ChunkByte(before: Pages, pages: Pages, addr: u64, s: seq<u8>, i: nat, c: nat, a: u64)
    requires i <= |s| && Written(before, pages, addr, s[..i]) && 0 < c && i + c <= |s| < W64
             && At(addr, i) % PAGE + c <= PAGE
    ensures ByteAt(PutChunk(pages, PageOf(At(addr, i)), At(addr, i) % PAGE, s[i..i + c]), a)
            == Overwritten(before, addr, s[..i + c], a)
  {
    hide Distance, PageOf, At, Touches;
    var p, off, d := PageOf(At(addr, i)), At(addr, i) % PAGE, Distance(addr, a);
    var now := PutChunk(pages, p, off, s[i..i + c]);
    InChunk(addr, i, c, a);
    TouchesMore(addr, i, c, PageOf(a));
    assert ByteAt(pages, a) == Overwritten(before, addr, s[..i], a);
    if i <= d < i + c {
      assert ByteAt(now, a) == s[i..i + c][a % PAGE - off];
    } else if PageOf(a) == p && p !in pages {
      Untouched(addr, i, a);
      assert ByteAt(now, a) == 0;
    } else {
      assert ByteAt(now, a) == ByteAt(pages, a);
      if d < i {
        assert s[..i][d] == s[..i + c][d];
      }
    }
  }

  /** Writing the next chunk. */
  lemma ChunkWritten(before: Pages, pages: Pages, addr: u64, s: seq<u8>, i: nat, c: nat)
    requires i <= |s| && Written(before, pages, addr, s[..i]) && 0 < c && i + c <= |s| < W64
             && At(addr, i) % PAGE + c <= PAGE
    ensures Written(before, PutChunk(pages, PageOf(At(addr, i)), At(addr, i) % PAGE, s[i..i + c]), addr, s[..i + c])
  {
    hide ByteAt, Overwritten, Touches, At, PageOf;
    var now := PutChunk(pages, PageOf(At(addr, i)), At(addr, i) % PAGE, s[i..i + c]);
    forall a: u64
      ensures ByteAt(now, a) == Overwritten(before, addr, s[..i + c], a)
    {
      ChunkByte(before, pages, addr, s, i, c, a);
    }
    forall p: PageNumber
      ensures p in now <==> p in before || Touches(addr, i + c, p)
    {
      TouchesMore(addr, i, c, p);
    }
  }

  lemma NothingWritten(pages: Pages, addr: u64, s: seq<u8>)
    requires Wellformed(pages)
    ensures Written(pages, pages, addr, s[..0])
  {
  }

  lemma ViewStep(pages: Pages, addr: u64, i: nat, c: nat)
    requires Wellformed(pages) && At(addr, i) % PAGE + c <= PAGE
    ensures var p, off := PageOf(At(addr, i)), At(addr, i) % PAGE;
            View(pages, addr, i + c)
              == View(pages, addr, i) + (if p in pages then pages[p][off..off + c] else seq(c, k => 0xCC))
  {
    hide At, PageOf;
    var p, off, more := PageOf(At(addr, i)), At(addr, i) % PAGE, View(pages, addr, i + c);
    var chunk := if p in pages then pages[p][off..off + c] else seq(c, k => 0xCC);
    forall j | 0 <= j < i + c
      ensures more[j] == (View(pages, addr, i) + chunk)[j]
    {
      if j >= i {
        InPage(addr, i, j - i);
        assert more[j] == ByteAt(pages, At(addr, j));
      }
    }
  }

  // ------------------------------------------------------------ what it means

  /** The first byte written to a fresh memory: its page of 4096 bytes is zero otherwise, and
      everything else still reads as 0xCC. */
  lemma FirstWrite(now: Pages, a: u64, x: u8, b: u64)
    requires Written(map[], now, a, [x])
    ensures View(now, b, 1) == [if b == a then x else if b / 0x1000 == a / 0x1000 then 0 else 0xCC]
  {
    assert At(a, 0) == a && At(b, 0) == b;
    assert Touches(a, 1, PageOf(b)) <==> PageOf(a) == PageOf(b);
  }

  /** What was written is read back, also across a page boundary and around the end of
      the address space. */
  lemma WriteThenRead(before: Pages, now: Pages, addr: u64, s: seq<u8>)
    requires Written(before, now, addr, s) && |s| <= W64
    ensures View(now, addr, |s|) == s
  {
    forall i | 0 <= i < |s|
      ensures View(now, addr, |s|)[i] == s[i]
    {
      DistanceOf(addr, i);
      assert ByteAt(now, At(addr, i)) == Overwritten(before, addr, s, At(addr, i));
    }
  }

  /** A read that shares no byte with a write, and no page that the write allocates,
      is not affected. */
  lemma WriteElsewhere(before: Pages, now: Pages, addr: u64, s: seq<u8>, b: u64, n: nat)
    requires Written(before, now, addr, s)
    requires forall i :: 0 <= i < n ==> Distance(addr, At(b, i)) >= |s|
    requires forall i :: 0 <= i < n ==> PageOf(At(b, i)) in before || !Touches(addr, |s|, PageOf(At(b, i)))
    ensures View(now, b, n) == View(before, b, n)
  {
    forall i | 0 <= i < n
      ensures View(now, b, n)[i] == View(before, b, n)[i]
    {
      assert ByteAt(now, At(b, i)) == Overwritten(before, addr, s, At(b, i));
    }
  }

  /** The last of two writes wins, byte by byte; elsewhere the first one shows. */
  lemma TwoWrites(p0: Pages, p1: Pages, p2: Pages, addr: u64, s1: seq<u8>, b: u64, s2: seq<u8>, a: u64)
    requires Written(p0, p1, addr, s1) && Written(p1, p2, b, s2)
    requires Distance(b, a) < |s2| || Distance(addr, a) < |s1|
    ensures ByteAt(p2, a) == if Distance(b, a) < |s2| then s2[Distance(b, a)] else s1[Distance(addr, a)]
  {
    assert ByteAt(p2, a) == Overwritten(p1, b, s2, a);
    assert ByteAt(p1, a) == Overwritten(p0, addr, s1, a);
    if Distance(b, a) >= |s2| {
      DistanceBack(addr, a);
      assert Touches(addr, |s1|, PageOf(a));
    }
  }

  // ------------------------------------------------------------ committed ranges

  predicate Committed(pages: Pages, addr: u64, n: nat) {
    forall p: PageNumber :: PageOf(addr) <= p <= PageOf((addr + n - 1) % W64) ==> p in pages
  }

  /** Every byte of the range is in an existing page. */
  predicate AllBacked(pages: Pages, addr: u64, n: nat) {
    forall i :: 0 <= i < n ==> PageOf(At(addr, i)) in pages
  }

  /** Ranges for which the answer is right whatever was written: not empty and not
      around the end of the address space, or empty at the start of a page. */
  predicate PlainRange(addr: u64, n: nat) {
    (n > 0 && addr + n <= W64) || (n == 0 && addr > 0 && addr % PAGE == 0)
  }

  /** Every page from the first to the last has an address of the range in it. */
  lemma PageInRange(addr: u64, n: nat, p: PageNumber) returns (i: nat)
    requires n > 0 && addr + n <= W64 && PageOf(addr) <= p <= PageOf((addr + n - 1) % W64)
    ensures i < n && PageOf(At(addr, i)) == p
  {
    var a: u64 := if p == PageOf(addr) then addr else p * PAGE;
    assert PageOf(a) == p;
    i := a - addr;
    assert At(addr, i) == a;
  }

  lemma CommittedIfPlain(pages: Pages, addr: u64, n: nat)
    requires PlainRange(addr, n)
    ensures Committed(pages, addr, n) <==> AllBacked(pages, addr, n)
  {
    if n > 0 {
      if AllBacked(pages, addr, n) {
        forall p: PageNumber | PageOf(addr) <= p <= PageOf((addr + n - 1) % W64)
          ensures p in pages
        {
          var i := PageInRange(addr, n, p);
        }
      }
      forall i | 0 <= i < n
        ensures PageOf(addr) <= PageOf(At(addr, i)) <= PageOf((addr + n - 1) % W64)
      {
        assert At(addr, i) == addr + i;
      }
    }
  }

  /** A memory with one cleared page. */
  function OnePage(p: PageNumber): (pages: Pages)
    ensures Wellformed(pages) && pages.Keys == {p}
  {
    map[p := seq(PAGE, i => 0)]
  }

  /** Memory contents that show a wrong answer: none at all, or the first page alone. */
  lemma CommittedWrong(addr: u64, n: nat) returns (pages: Pages)
    requires n < W64 && !PlainRange(addr, n)
    ensures Wellformed(pages) && Committed(pages, addr, n) != AllBacked(pages, addr, n)
  {
    pages := map[];
    var first := PageOf(addr);
    if n == 0 {
      assert first in pages || !Committed(pages, addr, n);
    } else if PageOf((addr + n - 1) % W64) < first {
      assert PageOf(At(addr, 0)) == first;
    } else {
      pages := OnePage(first);
      var i := if first < PAGES - 1 then (first + 1) * PAGE - addr else W64 - addr;
      assert 0 <= i < n;
      assert PageOf(At(addr, i)) != first;
    }
  }

  /** The answer is right for every memory exactly for the plain ranges. */
  lemma CommittedIff(addr: u64, n: nat)
    requires n < W64
    ensures (forall pages: Pages | Wellformed(pages) :: Committed(pages, addr, n) <==> AllBacked(pages, addr, n))
            <==> PlainRange(addr, n)
  {
    if PlainRange(addr, n) {
      forall pages: Pages | Wellformed(pages)
        ensures Committed(pages, addr, n) <==> AllBacked(pages, addr, n)
      {
        CommittedIfPlain(pages, addr, n);
      }
    } else {
      var pages := CommittedWrong(addr, n);
    }
  }

  /** On a range that goes around the end of the address space the answer depends on the
      pages of its two ends only: it is yes, whatever was written, if the last one is
      below the first, and otherwise whether that one page exists. */
  lemma CommittedAround(pages: Pages, addr: u64, n: nat)
    requires 0 < n < W64 && addr + n > W64
    ensures Committed(pages, addr, n)
            <==> PageOf((addr + n - 1) % W64) < PageOf(addr) || PageOf(addr) in pages
  {
    var first, last := PageOf(addr), PageOf((addr + n - 1) % W64);
    assert last <= first;
    if Committed(pages, addr, n) && last >= first {
      assert first in pages;
    }
  }

  // ------------------------------------------------------------ the memory

  class DemandPagedMemory {
    var pages: Pages

    ghost predicate Valid()
      reads this
    {
      Wellformed(pages)
    }

    constructor ()
      ensures Valid() && pages == map[]
    {
      pages := map[];
    }

    method Clear()
      modifies this
      ensures Valid() && pages == map[]
    {
      pages := map[];
    }

    /** Copies `s` to `addr`, page by page. */
    method Write(addr: u64, s: seq<u8>)
      requires Valid() && |s| < W64
      modifies this
      ensures Valid() && Written(old(pages), pages, addr, s)
    {
      hide Written, Wellformed, Touches;
      NothingWritten(pages, addr, s);
      var i := 0;
      while i < |s|
        invariant i <= |s| && Valid() && Written(old(pages), pages, addr, s[..i])
      {
        var pgn, off := PageOf((addr + i) % W64), (addr + i) % W64 % PAGE;
        var chunk := PAGE - off;
        if chunk > |s| - i { chunk := |s| - i; }
        ChunkWritten(old(pages), pages, addr, s, i, chunk);
        pages := PutChunk(pages, pgn, off, s[i..i + chunk]);
        i := i + chunk;
      }
      assert s[..i] == s;
    }

    /** The `n` bytes from `addr` on. */
    method Read(addr: u64, n: nat) returns (d: seq<u8>)
      requires Valid() && n < W64
      ensures d == View(pages, addr, n)
    {
      hide View;
      d := [];
      var i := 0;
      while i < n
        invariant i <= n && d == View(pages, addr, i)
      {
        var pgn, off := PageOf((addr + i) % W64), (addr + i) % W64 % PAGE;
        var chunk := PAGE - off;
        if chunk > n - i { chunk := n - i; }
        ViewStep(pages, addr, i, chunk);
        d := d + (if pgn in pages then pages[pgn][off..off + chunk] else seq(chunk, k => 0xCC));
        i := i + chunk;
      }
    }

    /** The accessors of 1, 2, 4 and 8 bytes. */
    method WriteUnsigned(addr: u64, v: nat, n: nat)
      requires Valid() && n in {1, 2, 4, 8} && v < Pow256(n)
      modifies this
      ensures Valid() && Written(old(pages), pages, addr, Le(v, n))
      ensures FromLe(View(pages, addr, n)) == v
    {
      Write(addr, Le(v, n));
      WriteThenRead(old(pages), pages, addr, Le(v, n));
      FromLeOfLe(v, n);
      ModUnique(v, Pow256(n), 0, v);
    }

    method ReadUnsigned(addr: u64, n: nat) returns (v: nat)
      requires Valid() && n in {1, 2, 4, 8}
      ensures v == FromLe(View(pages, addr, n))
    {
      var s := Read(addr, n);
      v := FromLe(s);
    }

    /** Whether every page from the first to the last one of the range exists. */
    method IsCommitted(addr: u64, n: nat) returns (r: bool)
      requires n < W64
      ensures r == Committed(pages, addr, n)
    {
      var first, last := PageOf(addr), PageOf((addr + n - 1) % W64);
      var p: nat := first;
      while p <= last
        invariant first <= p && forall q :: first <= q < p && q <= last ==> q in pages
        decreases last + 1 - p
      {
        if p !in pages { return false; }
        p := p + 1;
      }
      r := true;
    }
  }
}
