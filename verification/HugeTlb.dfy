/**
 The huge-page allocator of `devicemodel/core/hugetlb.c`: guest memory is split over two page
 sizes, page gaps are closed against the kernel's pools, and each region is mapped with
 page-by-page fallback from the larger to the smaller size.

 The kernel is a pair of page pools.  Raising or lowering `nr_hugepages` moves the pool by
 some amount of the kernel's choosing; a mapping succeeds exactly when enough pages are free.
 */
module HugePages {
  import opened GuestLayout

  const LV1 := 0
  const LV2 := 1
  const ENOMEM := 12

  /** The sizes in `struct hugetlb_info`; its `pages_delta` is kept beside them. */
  datatype Info = Info(pgSize: nat, lowmem: nat, biosmem: nat, highmem: nat)

  datatype Pool = Pool(nr: nat, free: nat)

  datatype Region = Low | High | Bios

  /** One mmap: `len` bytes of the level's file from `file` on, at guest offset `off`. */
  datatype Piece = Piece(level: nat, file: nat, off: nat, len: nat)

  function Get(i: Info, r: Region): nat {
    match r case Low => i.lowmem case High => i.highmem case Bios => i.biosmem
  }

  function With(i: Info, r: Region, len: nat): Info {
    match r case Low => i.(lowmem := len) case High => i.(highmem := len) case Bios => i.(biosmem := len)
  }

  /** Where the region starts in the level's file: regions are mapped low, high, bios. */
  function Skip(i: Info, r: Region): nat {
    match r case Low => 0 case High => i.lowmem case Bios => i.lowmem + i.highmem
  }

  /** Region `r` with `len` bytes left at the larger level and the rest handed down. */
  function Moved(priv: seq<Info>, r: Region, len: nat): seq<Info>
    requires |priv| == 2 && len <= Get(priv[1], r)
  {
    [With(priv[0], r, Get(priv[0], r) + Get(priv[1], r) - len), With(priv[1], r, len)]
  }

  /** Bytes of region `r` over both levels. */
  function Size(priv: seq<Info>, r: Region): nat
    requires |priv| == 2
  {
    Get(priv[0], r) + Get(priv[1], r)
  }

  function Total(i: Info): nat {
    i.lowmem + i.biosmem + i.highmem
  }

  predicate Aligned(i: Info) {
    i.pgSize > 0 && i.lowmem % i.pgSize == 0 && i.biosmem % i.pgSize == 0 && i.highmem % i.pgSize == 0
  }

  /** Page sizes are powers of two, so masking off the low bits is subtracting the remainder. */
  function AlignDown(x: nat, a: nat): nat
    requires a > 0
  {
    x - x % a
  }

  function AlignUp(x: nat, a: nat): nat
    requires a > 0
  {
    AlignDown(x + a - 1, a)
  }

  function Min(a: nat, b: nat): nat {
    if a < b then a else b
  }

  function Pos(a: int): nat {
    if a > 0 then a else 0
  }

  /** Pages of level `l` the guest needs. */
  function Need(i: Info): nat
    requires i.pgSize > 0
  {
    Total(i) / i.pgSize
  }

  /** The mappings of region `r` at guest offset `off`: large pages first, then small ones. */
  function RegionPieces(priv: seq<Info>, r: Region, off: nat): seq<Piece>
    requires |priv| == 2
  {
    (if Get(priv[1], r) > 0 then [Piece(1, Skip(priv[1], r), off, Get(priv[1], r))] else [])
    + (if Get(priv[0], r) > 0 then [Piece(0, Skip(priv[0], r), off + Get(priv[1], r), Get(priv[0], r))] else [])
  }

  function Drop(priv: seq<Info>, r: Region): seq<Info>
    requires |priv| == 2
  {
    [With(priv[0], r, 0), With(priv[1], r, 0)]
  }

  /** Both levels have a page size, the larger a multiple of the smaller, and sizes to match. */
  predicate Layout(priv: seq<Info>) {
    |priv| == 2 && Aligned(priv[0]) && Aligned(priv[1]) && priv[1].pgSize % priv[0].pgSize == 0
  }

  /** Enough free pages for `priv`, counting the large pages that must fall back. */
  predicate Enough(priv: seq<Info>, f0: nat, f1: nat)
    requires Layout(priv)
  {
    f0 >= Need(priv[0]) + (priv[1].pgSize / priv[0].pgSize) * Pos(Need(priv[1]) - f1)
  }

  // ---- page arithmetic ----

  lemma MulDiv(a: nat, p: nat)
    requires p > 0
    ensures (a * p) / p == a && (a * p) % p == 0
  {
    var x := a * p;
    var q, r := x / p, x % p;
    assert x == q * p + r && 0 <= r < p;
    assert (a - q) * p == r;
    MulSign(a - q, p);
  }

  lemma MulSign(k: int, p: nat)
    requires p > 0
    ensures k >= 1 ==> k * p >= p
    ensures k <= -1 ==> k * p + p <= 0
    ensures k == 0 ==> k * p == 0
  {
  }

  lemma Pages(x: nat, p: nat)
    requires p > 0 && x % p == 0
    ensures x == (x / p) * p
  {
  }

  lemma PagesAdd(x: nat, y: nat, p: nat)
    requires p > 0 && x % p == 0 && y % p == 0
    ensures (x + y) % p == 0 && (x + y) / p == x / p + y / p
  {
    Pages(x, p);
    Pages(y, p);
    var k := x / p + y / p;
    assert x + y == k * p;
    MulDiv(k, p);
  }

  lemma PagesSub(x: nat, y: nat, p: nat)
    requires p > 0 && x % p == 0 && y % p == 0 && y <= x
    ensures (x - y) % p == 0 && (x - y) / p == x / p - y / p
  {
    Pages(x, p);
    Pages(y, p);
    var k := x / p - y / p;
    assert x - y == k * p;
    assert k >= 0;
    MulDiv(k, p);
  }

  lemma OnePageLess(x: nat, p: nat)
    requires p > 0 && x > 0 && x % p == 0
    ensures x >= p && (x - p) % p == 0 && (x - p) / p == x / p - 1
  {
    Pages(x, p);
    MulSign(x / p, p);
    PagesSub(x, p, p);
  }

  /** Handing `d` large pages down makes `d * ratio` small ones. */
  lemma HandDown(x: nat, p: nat, q: nat)
    requires p > 0 && q > 0 && q % p == 0 && x % q == 0
    ensures x % p == 0 && x / p == (q / p) * (x / q)
  {
    Pages(x, q);
    Pages(q, p);
    var k := (q / p) * (x / q);
    assert x == (x / q) * ((q / p) * p) == k * p;
    MulDiv(k, p);
  }

  lemma CoverArith(f0: nat, f1: nat, a0: nat, b0: nat, a1: nat, b1: nat, ratio: nat)
    requires f0 >= a0 + b0 + ratio * Pos(a1 + b1 - f1)
    ensures var k := Min(a1, f1);
      && f0 >= a0 + ratio * (a1 - k)
      && f0 - (a0 + ratio * (a1 - k)) >= b0 + ratio * Pos(b1 - (f1 - k))
  {
  }

  lemma NeedSplit(i: Info, r: Region)
    requires Aligned(i)
    ensures Aligned(With(i, r, 0)) && Need(i) == Get(i, r) / i.pgSize + Need(With(i, r, 0))
  {
    var p := i.pgSize;
    assert 0 % p == 0;
    PagesAdd(i.lowmem, i.biosmem, p);
    PagesAdd(i.lowmem, i.highmem, p);
    PagesAdd(i.biosmem, i.highmem, p);
    match r
    case Low => PagesAdd(i.lowmem, i.biosmem + i.highmem, p);
    case High => PagesAdd(i.highmem, i.lowmem + i.biosmem, p);
    case Bios => PagesAdd(i.biosmem, i.lowmem + i.highmem, p);
  }

  predicate SameRegion(x: seq<Info>, y: seq<Info>, r: Region) {
    |x| == 2 && |y| == 2 && forall l :: 0 <= l < 2 ==> x[l].pgSize == y[l].pgSize && Get(x[l], r) == Get(y[l], r)
  }

  lemma MovedLayout(x: seq<Info>, y: seq<Info>, r: Region, len: nat)
    requires SameRegion(x, y, r) && Layout(x) && Layout(y) && len <= Get(x[1], r) && Layout(Moved(x, r, len))
    ensures Layout(Moved(y, r, len))
  {
  }

  /** What a region's mappings are does not change when later regions are mapped. */
  lemma MovedAll(x: seq<Info>, a: nat, b: nat, c: nat)
    requires |x| == 2 && a <= Get(x[1], Low) && b <= Get(x[1], High) && c <= Get(x[1], Bios)
    ensures var y := Moved(x, Low, a); var z := Moved(y, High, b); var w := Moved(z, Bios, c);
      && RegionPieces(w, Low, 0) == RegionPieces(y, Low, 0)
      && RegionPieces(w, High, HIGHMEM_BASE) == RegionPieces(z, High, HIGHMEM_BASE)
      && w[0].pgSize == x[0].pgSize && w[1].pgSize == x[1].pgSize
      && (forall r :: Size(w, r) == Size(x, r) && Get(w[1], r) <= Get(x[1], r))
      && (a == Get(x[1], Low) && b == Get(x[1], High) && c == Get(x[1], Bios) ==> w == x)
  {
  }

  /** Mapping region `r` greedily leaves enough for the regions after it. */
  lemma StillEnough(priv: seq<Info>, r: Region, f0: nat, f1: nat, len: nat)
    requires Layout(priv) && Enough(priv, f0, f1)
    requires len <= Get(priv[1], r) && len % priv[1].pgSize == 0
    requires len / priv[1].pgSize == Min(Get(priv[1], r) / priv[1].pgSize, f1)
    ensures var w := Moved(priv, r, len); var n0 := Get(w[0], r) / priv[0].pgSize; var n1 := len / priv[1].pgSize;
      && Layout(w) && Layout(Drop(priv, r)) && f0 >= n0 && f1 >= n1 && Enough(Drop(priv, r), f0 - n0, f1 - n1)
  {
    var p, q := priv[0].pgSize, priv[1].pgSize;
    var a0, a1 := Get(priv[0], r) / p, Get(priv[1], r) / q;
    NeedSplit(priv[0], r);
    NeedSplit(priv[1], r);
    PagesSub(Get(priv[1], r), len, q);
    HandDown(Get(priv[1], r) - len, p, q);
    PagesAdd(Get(priv[0], r), Get(priv[1], r) - len, p);
    CoverArith(f0, f1, a0, Need(With(priv[0], r, 0)), a1, Need(With(priv[1], r, 0)), q / p);
  }

  /** With large pages for all that is left to map, a region falls back for none. */
  lemma StillAmple(priv: seq<Info>, r: Region, f1: nat, len: nat)
    requires Layout(priv) && Need(priv[1]) <= f1 && len <= Get(priv[1], r) && len % priv[1].pgSize == 0
    requires len / priv[1].pgSize == Min(Get(priv[1], r) / priv[1].pgSize, f1)
    ensures len == Get(priv[1], r) && Need(Drop(priv, r)[1]) <= f1 - len / priv[1].pgSize
  {
    NeedSplit(priv[1], r);
    Pages(len, priv[1].pgSize);
    Pages(Get(priv[1], r), priv[1].pgSize);
  }

  /** The regions split over two levels: whole large pages, and the rest in small ones. */
  function Split(p: nat, q: nat, low: nat, bios: nat, high: nat): seq<Info>
    requires q > 0
  {
    [Info(p, low - AlignDown(low, q), bios - AlignDown(bios, q), high - AlignDown(high, q)),
     Info(q, AlignDown(low, q), AlignDown(bios, q), AlignDown(high, q))]
  }

  // ---- what the mappings amount to ----

  /** The pieces lie end to end and fill [start, end) exactly. */
  predicate Tiles(s: seq<Piece>, start: nat, end: nat) {
    if s == [] then start == end else s[0].off == start && s[0].len > 0 && Tiles(s[1..], start + s[0].len, end)
  }

  predicate Apart(a: Piece, b: Piece) {
    && (a.off + a.len <= b.off || b.off + b.len <= a.off)
    && (a.level == b.level ==> a.file + a.len <= b.file || b.file + b.len <= a.file)
  }

  predicate AllApart(s: seq<Piece>) {
    forall i, j :: 0 <= i < j < |s| ==> Apart(s[i], s[j])
  }

  predicate Cross(s: seq<Piece>, t: seq<Piece>) {
    forall a, b :: a in s && b in t ==> Apart(a, b)
  }

  predicate OnPage(a: Piece, p: nat)
    requires p > 0
  {
    a.off % p == 0 && a.file % p == 0 && a.len % p == 0
  }

  predicate OnPages(priv: seq<Info>, s: seq<Piece>)
    requires Layout(priv)
  {
    forall i :: 0 <= i < |s| ==> s[i].level < 2 && OnPage(s[i], priv[s[i].level].pgSize)
  }

  lemma RegionTiles(w: seq<Info>, r: Region, off: nat)
    requires |w| == 2
    ensures Tiles(RegionPieces(w, r, off), off, off + Size(w, r))
  {
  }

  lemma RegionApart(w: seq<Info>, r: Region, off: nat)
    requires |w| == 2
    ensures AllApart(RegionPieces(w, r, off))
  {
  }

  /** Pieces of different regions share neither guest memory nor file pages. */
  lemma CrossApart(w: seq<Info>, q: Region, x: nat, r: Region, y: nat)
    requires |w| == 2 && q != r && (x + Size(w, q) <= y || y + Size(w, r) <= x)
    ensures Cross(RegionPieces(w, q, x), RegionPieces(w, r, y))
  {
  }

  lemma ThreeApart(s: seq<Piece>, t: seq<Piece>, u: seq<Piece>)
    requires AllApart(s) && AllApart(t) && AllApart(u) && Cross(s, t) && Cross(s, u) && Cross(t, u)
    ensures AllApart(s + t + u)
  {
  }

  /** A region is laid out on page boundaries exactly when it starts on one, or has no large page
      and starts on a small one. */
  lemma RegionOnPages(w: seq<Info>, r: Region, off: nat)
    requires Layout(w) && off % w[0].pgSize == 0
    ensures OnPages(w, RegionPieces(w, r, off)) <==> Get(w[1], r) == 0 || off % w[1].pgSize == 0
  {
    var p, q := w[0].pgSize, w[1].pgSize;
    assert 0 % p == 0 && 0 % q == 0;
    PagesAdd(w[0].lowmem, w[0].highmem, p);
    PagesAdd(w[1].lowmem, w[1].highmem, q);
    HandDown(Get(w[1], r), p, q);
    PagesAdd(off, Get(w[1], r), p);
    var s := RegionPieces(w, r, off);
    if Get(w[1], r) > 0 {
      assert s[0].level == 1 && s[0].off == off;
    }
  }

  /** The mappings of the whole guest, in the order they are made. */
  function GuestPieces(w: seq<Info>): seq<Piece>
    requires |w| == 2 && Size(w, Bios) <= 4 * GB
  {
    RegionPieces(w, Low, 0) + RegionPieces(w, High, HIGHMEM_BASE) + RegionPieces(w, Bios, 4 * GB - Size(w, Bios))
  }

  /** A mapping at the larger level has a region with large pages behind it. */
  lemma GuestLevels(w: seq<Info>)
    requires |w| == 2 && Size(w, Bios) <= 4 * GB
    ensures forall i :: 0 <= i < |GuestPieces(w)| ==>
      GuestPieces(w)[i].level < 2 && (GuestPieces(w)[i].level == 1 ==> Total(w[1]) > 0)
  {
  }

  /** No two mappings share guest memory or file pages. */
  lemma GuestApart(w: seq<Info>, low: seq<Piece>, high: seq<Piece>, bios: seq<Piece>)
    requires |w| == 2 && Size(w, Bios) <= 4 * GB && Size(w, Low) <= 4 * GB - Size(w, Bios)
    requires low == RegionPieces(w, Low, 0) && high == RegionPieces(w, High, HIGHMEM_BASE)
    requires bios == RegionPieces(w, Bios, 4 * GB - Size(w, Bios))
    ensures GuestPieces(w) == low + high + bios && AllApart(low + high + bios)
  {
    var at := 4 * GB - Size(w, Bios);
    assert AllApart(low) && AllApart(high) && AllApart(bios) by {
      RegionApart(w, Low, 0);
      RegionApart(w, High, HIGHMEM_BASE);
      RegionApart(w, Bios, at);
    }
    assert Cross(low, high) && Cross(low, bios) && Cross(high, bios) by {
      CrossApart(w, Low, 0, High, HIGHMEM_BASE);
      CrossApart(w, Low, 0, Bios, at);
      CrossApart(w, High, HIGHMEM_BASE, Bios, at);
    }
    ThreeApart(low, high, bios);
  }

  /** Large pages that start from the page boundary at 4 GB reach down to where the bios region starts. */
  predicate Even(bios: nat, q: nat)
    requires q > 0
  {
    bios < q || bios % q == 0
  }

  /** Low and high memory lie on page boundaries; bios memory does exactly when it has no large
      page or its size is a multiple of the large page. */
  lemma RegionsOnPages(w: seq<Info>)
    requires Layout(w) && Size(w, Bios) <= 4 * GB
    requires (4 * GB) % w[1].pgSize == 0 && HIGHMEM_BASE % w[1].pgSize == 0
    ensures OnPages(w, RegionPieces(w, Low, 0)) && OnPages(w, RegionPieces(w, High, HIGHMEM_BASE))
    ensures OnPages(w, RegionPieces(w, Bios, 4 * GB - Size(w, Bios))) <==>
      w[1].biosmem == 0 || Size(w, Bios) % w[1].pgSize == 0
  {
    var p, q, at := w[0].pgSize, w[1].pgSize, 4 * GB - Size(w, Bios);
    assert 0 % p == 0 && 0 % q == 0;
    HandDown(4 * GB, p, q);
    HandDown(HIGHMEM_BASE, p, q);
    HandDown(w[1].biosmem, p, q);
    PagesAdd(w[0].biosmem, w[1].biosmem, p);
    PagesSub(4 * GB, Size(w, Bios), p);
    RegionOnPages(w, Low, 0);
    RegionOnPages(w, High, HIGHMEM_BASE);
    RegionOnPages(w, Bios, at);
    Complement(4 * GB, Size(w, Bios), q);
  }

  lemma ThreeOnPages(w: seq<Info>, s: seq<Piece>, t: seq<Piece>, u: seq<Piece>)
    requires Layout(w)
    ensures OnPages(w, s + t + u) <==> OnPages(w, s) && OnPages(w, t) && OnPages(w, u)
  {
    var all := s + t + u;
    assert forall i :: 0 <= i < |s| ==> all[i] == s[i];
    assert forall i :: 0 <= i < |t| ==> all[|s| + i] == t[i];
    assert forall i :: 0 <= i < |u| ==> all[|s| + |t| + i] == u[i];
  }

  /**
   The mappings of a guest lie on page boundaries whatever falls back, if the bios region is smaller
   than a large page or a multiple of it; and if nothing falls back, only then.
   */
  lemma GuestOnPages(w: seq<Info>, bios: nat)
    requires Layout(w) && bios == Size(w, Bios) <= 4 * GB && w[1].biosmem <= AlignDown(bios, w[1].pgSize)
    requires (4 * GB) % w[1].pgSize == 0 && HIGHMEM_BASE % w[1].pgSize == 0
    ensures Even(bios, w[1].pgSize) ==> OnPages(w, GuestPieces(w))
    ensures w[1].biosmem == AlignDown(bios, w[1].pgSize) ==> (OnPages(w, GuestPieces(w)) <==> Even(bios, w[1].pgSize))
  {
    RegionsOnPages(w);
    ThreeOnPages(w, RegionPieces(w, Low, 0), RegionPieces(w, High, HIGHMEM_BASE), RegionPieces(w, Bios, 4 * GB - bios));
    DownAligned(bios, w[1].pgSize);
    NoLargePage(bios, w[1].pgSize);
  }

  /** The pieces fill the three regions end to end, and share neither guest memory nor file pages. */
  ghost predicate MapsGuest(w: seq<Info>, s: seq<Piece>, low: nat, bios: nat, high: nat) {
    && Layout(w) && Size(w, Low) == low && Size(w, Bios) == bios && Size(w, High) == high
    && bios <= 4 * GB && s == GuestPieces(w)
    && Tiles(RegionPieces(w, Low, 0), 0, low)
    && Tiles(RegionPieces(w, High, HIGHMEM_BASE), HIGHMEM_BASE, HIGHMEM_BASE + high)
    && Tiles(RegionPieces(w, Bios, 4 * GB - bios), 4 * GB - bios, 4 * GB)
    && (low + bios <= 4 * GB ==> AllApart(s))
  }

  lemma GuestMapped(w: seq<Info>, low: nat, bios: nat, high: nat)
    requires Layout(w) && Size(w, Low) == low && Size(w, Bios) == bios <= 4 * GB && Size(w, High) == high
    ensures MapsGuest(w, GuestPieces(w), low, bios, high)
  {
    RegionTiles(w, Low, 0);
    RegionTiles(w, High, HIGHMEM_BASE);
    RegionTiles(w, Bios, 4 * GB - bios);
    if low + bios <= 4 * GB {
      GuestApart(w, RegionPieces(w, Low, 0), RegionPieces(w, High, HIGHMEM_BASE), RegionPieces(w, Bios, 4 * GB - bios));
    }
  }

  lemma NoLargePage(x: nat, q: nat)
    requires q > 0
    ensures AlignDown(x, q) == 0 <==> x < q
  {
    DownAligned(x, q);
  }

  lemma Complement(x: nat, y: nat, q: nat)
    requires q > 0 && y <= x && x % q == 0
    ensures (x - y) % q == 0 <==> y % q == 0
  {
    if y % q == 0 {
      PagesSub(x, y, q);
    }
    if (x - y) % q == 0 {
      PagesSub(x, x - y, q);
      assert x - (x - y) == y;
    }
  }

  lemma SplitOne(x: nat, p: nat, q: nat)
    requires p > 0 && q > 0 && q % p == 0 && x % p == 0
    ensures AlignDown(x, q) <= x < AlignDown(x, q) + q && AlignDown(x, q) % q == 0
    ensures (x - AlignDown(x, q)) % p == 0
  {
    DownAligned(x, q);
    HandDown(AlignDown(x, q), p, q);
    PagesSub(x, AlignDown(x, q), p);
  }

  lemma DownAligned(x: nat, p: nat)
    requires p > 0
    ensures AlignDown(x, p) % p == 0 && AlignDown(x, p) <= x < AlignDown(x, p) + p
  {
    assert AlignDown(x, p) == (x / p) * p;
    MulDiv(x / p, p);
  }

  lemma DownPositive(x: nat, p: nat)
    requires p > 0
    ensures AlignDown(x, p) > 0 <==> x >= p
  {
    DownAligned(x, p);
  }
}

module HugeTlb {
  import opened GuestLayout
  import opened HugePages

  class HugeTlb {
    const lvMax: int           // hugetlb_lv_max: how many levels are mounted
    var priv: seq<Info>        // hugetlb_priv
    var pagesDelta: seq<int>   // and its pages_delta members: needed less free pages
    var pools: seq<Pool>       // the kernel's pools
    var mapped: seq<Piece>     // the mappings made so far

    // What the kernel can be relied on to do; with `writes` false, no room and `gives` zero it may do anything.
    const writes: bool         // writes to nr_hugepages succeed, and a lower number frees free pages
    const gives: nat           // small pages that can be had for each large page freed
    var room: seq<nat>         // pages of each level that can be had on request

    /** `levels` mounted levels with their page sizes, and nothing mapped. */
    constructor (levels: int, p: nat, q: nat, pools: seq<Pool>, writes: bool, gives: nat, room: seq<nat>)
      requires 1 <= levels <= 2 && p > 0 && (levels == 2 ==> q >= p && q % p == 0)
      requires |pools| == 2 && pools[0].free <= pools[0].nr && pools[1].free <= pools[1].nr && |room| == 2
      ensures Ready() && lvMax == levels && mapped == [] && this.pools == pools
      ensures this.writes == writes && this.gives == gives && this.room == room
      ensures priv == [Info(p, 0, 0, 0), Info(q, 0, 0, 0)]
    {
      lvMax := levels;
      this.writes, this.gives, this.room := writes, gives, room;
      priv := [Info(p, 0, 0, 0), Info(q, 0, 0, 0)];
      pagesDelta := [0, 0];
      this.pools := pools;
      mapped := [];
    }

    predicate Shaped()
      reads `priv
    {
      && 1 <= lvMax <= 2 && |priv| == 2 && priv[0].pgSize > 0
      && (lvMax == 2 ==> priv[1].pgSize >= priv[0].pgSize && priv[1].pgSize % priv[0].pgSize == 0)
    }

    predicate Ready()
      reads `priv, `pagesDelta, `pools, `room
    {
      Shaped() && |pagesDelta| == 2 && |room| == 2 && Pooled()
    }

    predicate Pooled()
      reads `pools
    {
      |pools| == 2 && pools[0].free <= pools[0].nr && pools[1].free <= pools[1].nr
    }

    /** Small pages per large page. */
    function Ratio(): nat
      reads `priv
      requires Shaped()
    {
      if lvMax == 2 then priv[1].pgSize / priv[0].pgSize else 0
    }

    function NeedAt(l: nat): nat
      reads `priv
      requires Shaped() && l < 2
    {
      if l < lvMax then Need(priv[l]) else 0
    }

    /** Small pages that must stand in for the large pages the pool lacks. */
    function Fallback(): nat
      reads `priv, `pools
      requires Shaped() && |pools| == 2
    {
      Ratio() * Pos(NeedAt(1) - pools[1].free)
    }

    /** The pools hold what the guest needs: small pages cover the small need and the fallback. */
    predicate Covered()
      reads `priv, `pools
      requires Shaped() && |pools| == 2
    {
      pools[0].free >= NeedAt(0) + Fallback()
    }

    // ---- the kernel ----

    /**
     Writing `total` to nr_hugepages: the pool moves towards it as far as the kernel can.  Raised, it gains at least the
     room there is; lowered, it loses free pages, and the memory of a large one is room for small ones.
     */
    method EchoNr(level: nat, total: int) returns (ok: bool)
      requires Pooled() && |room| == 2 && level < 2
      modifies `pools, `room
      ensures Pooled() && |room| == 2 && pools[1 - level] == old(pools)[1 - level] && room[1 - level] >= old(room)[1 - level]
      ensures pools[level].nr - old(pools)[level].nr == pools[level].free - old(pools)[level].free
      ensures if total >= old(pools)[level].nr then old(pools)[level].nr <= pools[level].nr <= total
              else total <= pools[level].nr <= old(pools)[level].nr
      ensures if ok then Raised(old(pools)[level], old(room), level, total) && Lowered(old(pools)[level], old(room), level, total)
              else pools == old(pools) && room == old(room)
      ensures writes ==> ok
    {
      ok := *;
      ok := ok || writes;
      var p := pools[level];
      if ok && total >= p.nr {
        var d: nat :| (d >= total - p.nr || d >= room[level]) && d <= total - p.nr;
        pools := pools[level := Pool(p.nr + d, p.free + d)];
        room := room[level := if d < room[level] then room[level] - d else 0];
      } else if ok {
        var d: nat :| (writes ==> d >= p.nr - total || d >= p.free) && d <= p.nr - total && d <= p.free;
        pools := pools[level := Pool(p.nr - d, p.free - d)];
        room := room[level := room[level] + d];
        room := room[0 := room[0] + if level == 1 then gives * d else 0];
      }
    }

    /** A write of at least `was.nr` got the room there was, and used up no more of it than it got. */
    predicate Raised(was: Pool, before: seq<nat>, level: nat, total: int)
      reads `pools, `room
      requires |pools| == 2 && |room| == 2 && |before| == 2 && level < 2
    {
      total >= was.nr ==>
        && (pools[level].nr >= total || pools[level].nr >= was.nr + before[level])
        && room[level] + (pools[level].nr - was.nr) >= before[level]
    }

    /** A write of less freed what it could, and freed large pages are room for small ones. */
    predicate Lowered(was: Pool, before: seq<nat>, level: nat, total: int)
      reads `pools, `room
      requires |pools| == 2 && |room| == 2 && |before| == 2 && level < 2
    {
      total < was.nr ==>
        && (writes ==> pools[level].nr <= total || pools[level].nr <= was.nr - was.free)
        && (level == 1 ==> room[0] >= before[0] + gives * (was.nr - pools[1].nr))
    }

    // ---- closing page gaps ----

    /** hugetlb_check_memgap. */
    method CheckMemgap() returns (hasGap: bool)
      requires Ready()
      modifies `pagesDelta
      ensures Ready()
      ensures forall l :: 0 <= l < lvMax ==> pagesDelta[l] == NeedAt(l) - pools[l].free
      ensures hasGap <==> exists l :: 0 <= l < lvMax && NeedAt(l) > pools[l].free
    {
      hasGap := false;
      var lvl := 0;
      while lvl < lvMax
        invariant 0 <= lvl <= lvMax && Ready()
        invariant forall l :: 0 <= l < lvl ==> pagesDelta[l] == NeedAt(l) - pools[l].free
        invariant hasGap <==> exists l :: 0 <= l < lvl && NeedAt(l) > pools[l].free
      {
        var need := (priv[lvl].lowmem + priv[lvl].biosmem + priv[lvl].highmem) / priv[lvl].pgSize;
        pagesDelta := pagesDelta[lvl := need - pools[lvl].free];
        if pagesDelta[lvl] > 0 {
          hasGap := true;
        }
        lvl := lvl + 1;
      }
    }

    /** reserve_more_pages: the gap shrinks by exactly the pages the kernel grants. */
    method ReserveMore(level: nat)
      requires Ready() && level < lvMax && pagesDelta[level] > 0
      modifies `pagesDelta, `pools, `room
      ensures Ready() && pagesDelta[1 - level] == old(pagesDelta)[1 - level] && pools[1 - level] == old(pools)[1 - level]
      ensures 0 <= pagesDelta[level] <= old(pagesDelta)[level]
      ensures pagesDelta[level] + pools[level].free == old(pagesDelta)[level] + old(pools)[level].free
      ensures room[1 - level] >= old(room)[1 - level]
      ensures room[level] - pagesDelta[level] >= old(room)[level] - old(pagesDelta)[level]
      ensures writes ==> pagesDelta[level] <= Pos(old(pagesDelta)[level] - old(room)[level])
    {
      var orig := pools[level].nr;
      var total := orig + pagesDelta[level];
      var ok := EchoNr(level, total);
      if !ok {
        return;
      }
      var cur := pools[level].nr;
      pagesDelta := pagesDelta[level := total - cur];
    }

    /** release_larger_freepage: give back one surplus page of a level at or above `limit`. */
    method ReleaseLarger(limit: nat) returns (released: bool)
      requires Ready() && limit == 1
      modifies `pagesDelta, `pools, `room
      ensures Ready() && pagesDelta[0] == old(pagesDelta)[0] && pools[0] == old(pools)[0]
      ensures released ==> lvMax == 2 && old(pagesDelta)[1] < 0
      ensures writes && lvMax == 2 && old(pagesDelta)[1] < 0 && old(pools)[1].free > 0 ==> released
      ensures room[0] >= old(room)[0] + if released then gives else 0
      ensures pagesDelta[1] == old(pagesDelta)[1] + if released then 1 else 0
      ensures pools[1].free == old(pools)[1].free - if released then 1 else 0
    {
      var level := lvMax - 1;
      while level >= limit
        invariant limit - 1 <= level < lvMax
        invariant pagesDelta == old(pagesDelta) && pools == old(pools) && |room| == 2 && room[0] >= old(room)[0]
        invariant level < lvMax - 1 ==> !writes || old(pagesDelta)[1] >= 0 || old(pools)[1].free == 0
      {
        if pagesDelta[level] < 0 {
          var orig: int := pools[level].nr;
          var ok := EchoNr(level, orig - 1);
          if !ok {
            return false;
          }
          var cur := pools[level].nr;
          if cur < orig {
            pagesDelta := pagesDelta[level := pagesDelta[level] + 1];
            break;
          }
        }
        level := level - 1;
      }
      return level >= limit;
    }

    /** `pagesDelta` is need minus free at each level; once level 2 has been handled, the level 1
        figure includes the large pages passed down. */
    predicate Books(passed: bool)
      reads `priv, `pagesDelta, `pools, `room
      requires Ready()
    {
      && (lvMax == 2 ==> pagesDelta[1] == NeedAt(1) - pools[1].free)
      && pagesDelta[0] == NeedAt(0) + (if passed then Fallback() else 0) - pools[0].free
    }

    /** Surplus large pages: what the step back to level 1 can still use up. */
    function Surplus(): nat
      reads `pagesDelta
      requires |pagesDelta| == 2
    {
      if lvMax == 2 then Pos(-pagesDelta[1]) else 0
    }

    /** The gap left at a level becomes a need for smaller pages at the level below. */
    method PassDown(level: nat)
      requires Ready() && Books(false) && level == LV2 < lvMax && pagesDelta[level] > 0
      modifies `pagesDelta
      ensures Ready() && Books(true) && pagesDelta[level] == old(pagesDelta)[level]
      ensures pagesDelta[level - 1] == old(pagesDelta)[level - 1] + Ratio() * pagesDelta[level]
    {
      var leftGap, pgSize := pagesDelta[level], priv[level].pgSize;
      pagesDelta := pagesDelta[level - 1 := pagesDelta[level - 1] + leftGap * (pgSize / priv[level - 1].pgSize)];
    }

    /** The large pages still lacking. */
    function Gap(): nat
      reads `pagesDelta
      requires |pagesDelta| == 2
    {
      if lvMax == 2 then Pos(pagesDelta[1]) else 0
    }

    /**
     The kernel's room closes the gaps: at level `level`, what cannot be had in large pages and what is lacking in small
     ones can be had in small ones, counting those that surplus large pages give.
     */
    predicate Hopeful(level: int)
      reads `priv, `pagesDelta, `room
      requires Shaped() && |pagesDelta| == 2 && |room| == 2
    {
      pagesDelta[0] + (if level >= LV2 then Ratio() * Pos(Gap() - room[1]) else 0) <= room[0] + gives * Surplus()
    }

    /** The large pages, as far as they can be had; what is lacking then is a need for small ones. */
    method ReserveLarge() returns (next: int)
      requires Ready() && Books(false) && lvMax == 2 && pagesDelta[LV2] > 0
      modifies `pagesDelta, `pools, `room
      ensures Ready() && Books(true) && next == LV1 && Surplus() == old(Surplus())
      ensures writes && old(Hopeful(LV2)) ==> Hopeful(LV1)
    {
      ghost var left := Pos(pagesDelta[LV2] - room[LV2]);
      ReserveMore(LV2);
      if pagesDelta[LV2] > 0 {
        PassDown(LV2);
        if writes {
          Larger(Ratio(), pagesDelta[LV2], left);
        }
      }
      next := LV1;
    }

    lemma Larger(k: nat, x: nat, y: nat)
      requires x <= y
      ensures k * x <= k * y
    {
    }

    /** Small pages, from the room there is or from a surplus large page. */
    method ReserveSmall() returns (next: int, stuck: bool)
      requires Ready() && Books(true) && pagesDelta[LV1] > 0
      modifies `pagesDelta, `pools, `room
      ensures Ready() && Books(true) && (next == -1 ==> pagesDelta[LV1] <= 0) && (stuck ==> next == LV1 && pagesDelta[LV1] > 0)
      ensures next == -1 || stuck || Surplus() < old(Surplus())
      ensures -1 <= next <= LV1 && Surplus() <= old(Surplus())
      ensures writes && old(Hopeful(LV1)) ==> !stuck && Hopeful(LV1)
    {
      ReserveMore(LV1);
      if pagesDelta[LV1] <= 0 {
        return -1, false;
      }
      ghost var s := Surplus();
      assert writes && old(Hopeful(LV1)) ==> pagesDelta[0] <= gives * s && s > 0;
      var released := ReleaseLarger(LV2);
      if released {
        assert gives * s == gives * (s - 1) + gives;
      }
      return LV1, !released;
    }

    /** hugetlb_reserve_pages: ends for every kernel behaviour, with true exactly when the pools
        then cover the need, and with true whenever the kernel's room closes the gaps. */
    method ReservePages() returns (ok: bool)
      requires Ready() && Books(false)
      modifies `pagesDelta, `pools, `room
      ensures Ready() && Books(true)
      ensures ok <==> Covered()
      ensures writes && old(Hopeful(LV2)) ==> ok
    {
      ghost var hope := writes && Hopeful(LV2);
      var level := lvMax - 1;
      while level >= LV1
        invariant Ready() && -1 <= level < lvMax
        invariant Books(level < LV2)
        invariant level == -1 ==> pagesDelta[0] <= 0
        invariant hope ==> Hopeful(if level >= LV2 then LV2 else LV1)
        decreases Surplus(), level + 1
      {
        if pagesDelta[level] <= 0 {
          level := level - 1;
          continue;
        }
        if level > LV1 {
          level := ReserveLarge();
          continue;
        }
        var stuck;
        level, stuck := ReserveSmall();
        if stuck {
          break;
        }
      }
      return level < LV1;
    }

    // ---- mapping ----

    /** mmap_hugetlbfs_from_level: all pages of the mapping are reserved and touched, or none. */
    method MmapFromLevel(level: nat, len: nat, offset: nat, skip: nat) returns (ret: int)
      requires Ready() && level < lvMax
      modifies `pools, `mapped
      ensures var n := len / priv[level].pgSize; var f := old(pools)[level].free;
        && ret == (if f >= n then 0 else -ENOMEM)
        && pools == (if f >= n then old(pools)[level := old(pools)[level].(free := f - n)] else old(pools))
        && mapped == old(mapped) + (if f >= n then [Piece(level, skip, offset, len)] else [])
    {
      var n := len / priv[level].pgSize;
      if pools[level].free < n {
        return -ENOMEM;
      }
      pools := pools[level := pools[level].(free := pools[level].free - n)];
      mapped := mapped + [Piece(level, skip, offset, len)];
      return 0;
    }

    /** The adj_*_param functions: hand one page of region `r` down a level. */
    method Adjust(r: Region, level: nat, adjSize: nat) returns (len: nat)
      requires Ready() && 0 < level < 2 && Get(priv[level], r) >= adjSize
      modifies `priv
      ensures len == Get(old(priv)[level], r) - adjSize
      ensures priv == old(priv)[level := With(old(priv)[level], r, len)]
                               [level - 1 := With(old(priv)[level - 1], r, Get(old(priv)[level - 1], r) + adjSize)]
    {
      priv := priv[level := With(priv[level], r, Get(priv[level], r) - adjSize)];
      priv := priv[level - 1 := With(priv[level - 1], r, Get(priv[level - 1], r) + adjSize)];
      len := Get(priv[level], r);
    }

    /** The larger level of mmap_hugetlbfs: map as many pages as are free, hand the rest down. */
    method MapLarge(start: nat, r: Region, ret0: int) returns (ret: int, len: nat)
      requires Ready() && lvMax == 2 && Get(priv[1], r) % priv[1].pgSize == 0
      modifies `priv, `pools, `mapped
      ensures var was, p := old(priv), old(priv)[1].pgSize;
        && len <= Get(was[1], r) && len % p == 0
        && len / p == Min(Get(was[1], r) / p, old(pools)[1].free)
        && priv == Moved(was, r, len)
        && pools == old(pools)[1 := old(pools)[1].(free := old(pools)[1].free - len / p)]
        && mapped == old(mapped) + (if len > 0 then [Piece(1, Skip(was[1], r), start, len)] else [])
        && ret == (if len > 0 then 0 else if Get(was[1], r) > 0 then -ENOMEM else ret0)
    {
      ghost var was, p, f := priv, priv[1].pgSize, pools[1].free;
      ret := ret0;
      var skip := Skip(priv[1], r);
      len := Get(priv[1], r);
      assert priv == Moved(was, r, len);
      while len > 0
        invariant len <= Get(was[1], r) && len % p == 0 && priv == Moved(was, r, len)
        invariant pools == old(pools) && mapped == old(mapped)
        invariant len < Get(was[1], r) ==> f <= len / p <= Get(was[1], r) / p
        invariant ret == if len < Get(was[1], r) then -ENOMEM else ret0
      {
        ret := MmapFromLevel(1, len, start, skip);
        if ret >= 0 {
          break;
        }
        OnePageLess(len, p);
        len := Adjust(r, 1, priv[1].pgSize);
      }
    }

    /** Both levels; a level that is not mounted holds nothing. */
    ghost function Levels(): seq<Info>
      reads `priv
      requires Shaped()
    {
      if lvMax == 2 then priv else [priv[0], Info(priv[0].pgSize, 0, 0, 0)]
    }

    lemma CoveredIsEnough()
      requires Shaped() && |pools| == 2 && Layout(Levels())
      ensures Covered() <==> Enough(Levels(), pools[0].free, pools[1].free)
    {
    }

    /** mmap_hugetlbfs, its loop over the levels written out. */
    method MapRegion(offset: nat, r: Region) returns (ret: int)
      requires Ready() && Layout(Levels())
      modifies `priv, `pools, `mapped
      ensures Ready() && |priv| == 2
      ensures var was, p, q := old(Levels()), old(Levels())[0].pgSize, old(Levels())[1].pgSize;
        var len, f0, f1 := Get(Levels()[1], r), old(pools)[0].free, old(pools)[1].free;
        && len <= Get(was[1], r) && len % q == 0 && len / q == Min(Get(was[1], r) / q, f1)
        && Levels() == Moved(was, r, len)
        && (ret == 0 <==> f0 >= Get(Levels()[0], r) / p) && ret <= 0
        && (ret == 0 ==>
              && pools[0].free == f0 - Get(Levels()[0], r) / p && pools[1].free == f1 - len / q
              && mapped == old(mapped) + RegionPieces(Levels(), r, offset))
    {
      ret := 0;
      var off := offset;
      if lvMax == 2 {
        var len;
        ret, len := MapLarge(off, r, ret);
        off := off + len;
      }
      assert Levels() == Moved(old(Levels()), r, Get(Levels()[1], r));
      ret := MapSmall(off, r, ret);
    }

    /** The smaller level of mmap_hugetlbfs: all of what is left there, or none. */
    method MapSmall(off: nat, r: Region, ret0: int) returns (ret: int)
      requires Ready()
      modifies `pools, `mapped
      ensures Ready()
      ensures var n, f := Get(priv[0], r) / priv[0].pgSize, old(pools)[0].free;
        if Get(priv[0], r) > 0 && f < n then ret == -ENOMEM
        else
          && ret == (if Get(priv[0], r) > 0 then 0 else ret0)
          && pools[0].free == f - n && pools[1] == old(pools)[1]
          && mapped == old(mapped) + if Get(priv[0], r) > 0 then [Piece(0, Skip(priv[0], r), off, Get(priv[0], r))] else []
    {
      ret := ret0;
      var len, skip := Get(priv[0], r), Skip(priv[0], r);
      if len > 0 {
        ret := MmapFromLevel(0, len, off, skip);
      } else {
        assert 0 / priv[0].pgSize == 0;
      }
    }

    /** Mapping region `r` when the pools cover the regions `x` still to be mapped. */
    method MapCovered(offset: nat, r: Region, ghost x: seq<Info>) returns (ret: int, ghost len: nat)
      requires Ready() && Layout(Levels()) && Layout(x) && Enough(x, pools[0].free, pools[1].free)
      requires SameRegion(x, Levels(), r)
      modifies `priv, `pools, `mapped
      ensures ret == 0 && Ready() && Layout(Levels())
      ensures len <= Get(old(Levels())[1], r) && Levels() == Moved(old(Levels()), r, len)
      ensures Layout(Drop(x, r)) && Enough(Drop(x, r), pools[0].free, pools[1].free)
      ensures mapped == old(mapped) + RegionPieces(Levels(), r, offset)
      ensures Need(x[1]) <= old(pools)[1].free ==>
        len == Get(old(Levels())[1], r) && Need(Drop(x, r)[1]) <= pools[1].free
    {
      ghost var f0, f1, was := pools[0].free, pools[1].free, Levels();
      ret := MapRegion(offset, r);
      len := Get(Levels()[1], r);
      assert Levels() == Moved(was, r, len);
      StillEnough(x, r, f0, f1, len);
      MovedLayout(x, was, r, len);
      if Need(x[1]) <= f1 {
        StillAmple(x, r, f1, len);
      }
    }

    /** The three mmap_hugetlbfs calls: with the need covered, none of them fails. */
    method MapAll(biosmem: nat) returns (ret: int)
      requires Ready() && Layout(Levels()) && Covered() && mapped == []
      requires biosmem == Size(Levels(), Bios) <= 4 * GB
      modifies `priv, `pools, `mapped
      ensures ret == 0 && Ready() && Layout(Levels())
      ensures forall r :: Size(Levels(), r) == Size(old(Levels()), r) && Get(Levels()[1], r) <= Get(old(Levels())[1], r)
      ensures Levels()[0].pgSize == old(Levels())[0].pgSize && Levels()[1].pgSize == old(Levels())[1].pgSize
      ensures mapped == GuestPieces(Levels())
      ensures old(NeedAt(1)) <= old(pools)[1].free ==> Levels() == old(Levels())
    {
      ghost var was := Levels();
      CoveredIsEnough();
      ghost var a, b := MapMain();
      ghost var c;
      ret, c := MapCovered(4 * GB - biosmem, Bios, Drop(Drop(was, Low), High));
      MovedAll(was, a, b, c);
    }

    /** The mappings of low and high memory, which leave enough for the bios region. */
    method MapMain() returns (ghost a: nat, ghost b: nat)
      requires Ready() && Layout(Levels()) && Enough(Levels(), pools[0].free, pools[1].free) && mapped == []
      modifies `priv, `pools, `mapped
      ensures Ready() && Layout(Levels())
      ensures a <= old(Levels())[1].lowmem && b <= old(Levels())[1].highmem
      ensures Levels() == Moved(Moved(old(Levels()), Low, a), High, b)
      ensures mapped == RegionPieces(Moved(old(Levels()), Low, a), Low, 0) + RegionPieces(Levels(), High, HIGHMEM_BASE)
      ensures var x := Drop(Drop(old(Levels()), Low), High);
        && Layout(x) && Enough(x, pools[0].free, pools[1].free)
        && (Need(old(Levels())[1]) <= old(pools)[1].free ==>
              a == old(Levels())[1].lowmem && b == old(Levels())[1].highmem && Need(x[1]) <= pools[1].free)
    {
      ghost var x := Levels();
      var ret;
      ret, a := MapCovered(0, Low, x);
      x := Drop(x, Low);
      ret, b := MapCovered(HIGHMEM_BASE, High, x);
    }

    /** The levels of a guest of these sizes before anything falls back. */
    ghost function LevelsFor(low: nat, bios: nat, high: nat): seq<Info>
      reads `priv
      requires Shaped()
    {
      if lvMax == 2 then Split(priv[0].pgSize, priv[1].pgSize, low, bios, high)
      else [Info(priv[0].pgSize, low, bios, high), Info(priv[0].pgSize, 0, 0, 0)]
    }

    /** The sizing loop of hugetlb_setup_memory: each region over the levels, largest first. */
    method SplitSizes(lowmem: nat, biosmem: nat, highmem: nat)
      requires Shaped() && lowmem % priv[0].pgSize == 0 && biosmem % priv[0].pgSize == 0 && highmem % priv[0].pgSize == 0
      modifies `priv
      ensures Shaped() && Layout(Levels())
      ensures Size(Levels(), Low) == lowmem && Size(Levels(), Bios) == biosmem && Size(Levels(), High) == highmem
      ensures Levels()[0].pgSize == old(Levels())[0].pgSize && Levels()[1].pgSize == old(Levels())[1].pgSize
      ensures forall r :: Get(Levels()[0], r) < Levels()[1].pgSize || lvMax == 1
      ensures Levels() == old(LevelsFor(lowmem, biosmem, highmem))
    {
      var low, bios, high := lowmem, biosmem, highmem;
      if lvMax == 2 {
        var q := priv[LV2].pgSize;
        SplitOne(low, priv[0].pgSize, q);
        SplitOne(bios, priv[0].pgSize, q);
        SplitOne(high, priv[0].pgSize, q);
        priv := priv[LV2 := Info(q, AlignDown(low, q), AlignDown(bios, q), AlignDown(high, q))];
        low, bios, high := low - priv[LV2].lowmem, bios - priv[LV2].biosmem, high - priv[LV2].highmem;
      }
      var p := priv[LV1].pgSize;
      assert 0 % p == 0;
      priv := priv[LV1 := Info(p, AlignDown(low, p), AlignDown(bios, p), AlignDown(high, p))];
    }

    /** The kernel's room closes the gaps of the guest that is sized. */
    ghost predicate Obtainable()
      reads `priv, `pools, `room
      requires Shaped() && |pools| == 2 && |room| == 2
    {
      CanObtain(Levels(), pools, room)
    }

    /** The kernel's room closes the gaps between the needs of `w` and the pools. */
    ghost predicate CanObtain(w: seq<Info>, pools: seq<Pool>, room: seq<nat>)
      requires |w| == 2 && w[0].pgSize > 0 && w[1].pgSize > 0 && |pools| == 2 && |room| == 2
    {
      var small, large := Need(w[0]) - pools[0].free, if lvMax == 2 then Need(w[1]) - pools[1].free else 0;
      small + (if lvMax == 2 then w[1].pgSize / w[0].pgSize else 0) * Pos(Pos(large) - room[1]) <= room[0] + gives * Pos(-large)
    }

    /** Checking and, if need be, reserving: the guest can be mapped exactly when this succeeds. */
    method Secure() returns (enough: bool)
      requires Ready() && Layout(Levels())
      modifies `pagesDelta, `pools, `room
      ensures Ready() && (enough <==> Covered())
      ensures old(NeedAt(0) <= pools[0].free && NeedAt(1) <= pools[1].free) ==> enough && pools == old(pools)
      ensures writes && old(Obtainable()) ==> enough
    {
      var hasGap := CheckMemgap();
      if hasGap {
        assert Obtainable() ==> Hopeful(LV2);
        enough := ReservePages();
      } else {
        enough := true;
        assert Fallback() == 0;
      }
    }

    /** should_enable_hugetlb_level. */
    predicate Enabled(level: nat)
      reads `priv
      requires Shaped() && level < 2
    {
      priv[level].lowmem > 0 || priv[level].biosmem > 0 || priv[level].highmem > 0
    }

    /** Some level is in use. */
    predicate InUse()
      reads `priv
      requires Shaped()
    {
      (lvMax == 2 && Enabled(LV2)) || Enabled(LV1)
    }

    /** The page size the reserved area is aligned to, that of the largest level in use; zero if none is. */
    function AreaPage(): (pg: nat)
      reads `priv
      requires Shaped()
      ensures InUse() <==> pg > 0
      ensures InUse() ==> pg % priv[0].pgSize == 0
    {
      if lvMax == 2 && Enabled(LV2) then priv[LV2].pgSize else if Enabled(LV1) then priv[LV1].pgSize else 0
    }

    /** One page of room for aligning: a large one if some region fills one, else a small one if there is any memory. */
    function Padding(low: nat, bios: nat, high: nat): nat
      reads `priv
      requires Shaped()
    {
      if lvMax == 2 && (low >= priv[1].pgSize || bios >= priv[1].pgSize || high >= priv[1].pgSize) then priv[1].pgSize
      else if low + bios + high > 0 then priv[0].pgSize
      else 0
    }

    lemma AreaIsPadding(low: nat, bios: nat, high: nat)
      requires Shaped() && Levels() == LevelsFor(low, bios, high)
      ensures AreaPage() == Padding(low, bios, high)
    {
      if lvMax == 2 {
        DownPositive(low, priv[1].pgSize);
        DownPositive(bios, priv[1].pgSize);
        DownPositive(high, priv[1].pgSize);
      }
    }

    /** Every mapping can sit on its level's page boundary of the host: the base is aligned for each
        level in use. */
    predicate BaseAligned(base: nat)
      reads `priv
      requires Shaped()
    {
      base % priv[0].pgSize == 0 && (lvMax == 2 && Enabled(LV2) ==> base % priv[1].pgSize == 0)
    }

    /** The base address: the start of the area aligned up, or as it was if no level is in use. */
    method AlignBase(vma: nat, baseaddr: nat) returns (base: nat)
      requires Shaped()
      ensures !InUse() ==> base == baseaddr
      ensures InUse() ==> vma <= base < vma + AreaPage() && BaseAligned(base)
    {
      base := baseaddr;
      var pg := AreaPage();
      if pg > 0 {
        base := AlignUp(vma, pg);
        DownAligned(vma + pg - 1, pg);
        HandDown(base, priv[0].pgSize, pg);
      }
    }

    /** The pools hold every page of both levels: nothing falls back. */
    predicate Ample()
      reads `priv, `pools
      requires Shaped() && |pools| == 2
    {
      NeedAt(0) <= pools[0].free && NeedAt(1) <= pools[1].free
    }

    /** The larger page size, or the only one. */
    function LargePage(): (q: nat)
      reads `priv
      requires Shaped()
      ensures q > 0
    {
      if lvMax == 2 then priv[1].pgSize else priv[0].pgSize
    }

    /** The page sizes divide the fixed places of the guest's memory. */
    predicate Divides()
      reads `priv
      requires Shaped()
    {
      (4 * GB) % LargePage() == 0 && HIGHMEM_BASE % LargePage() == 0
    }

    /** The sizes are split: the bios region has as many large pages as fit. */
    predicate BiosSplit(bios: nat)
      reads `priv
      requires Shaped()
    {
      lvMax == 2 ==> priv[1].biosmem == AlignDown(bios, LargePage())
    }

    /** Mapping the regions, from sizes just split: what the mappings amount to. */
    method MapGuest(ghost low: nat, biosmem: nat, ghost high: nat) returns (ret: int)
      requires Ready() && Layout(Levels()) && Covered() && mapped == [] && BiosSplit(biosmem)
      requires Size(Levels(), Low) == low && biosmem == Size(Levels(), Bios) <= 4 * GB && Size(Levels(), High) == high
      modifies `priv, `pools, `mapped
      ensures ret == 0 && Ready() && MapsGuest(Levels(), mapped, low, biosmem, high)
      ensures Levels()[0].pgSize == old(Levels())[0].pgSize && Levels()[1].pgSize == old(Levels())[1].pgSize
      ensures forall r :: Get(Levels()[1], r) <= Get(old(Levels())[1], r)
      ensures Divides() && Even(biosmem, LargePage()) ==> OnPages(Levels(), mapped)
      ensures Divides() && old(Ample()) && lvMax == 2 && !Even(biosmem, LargePage()) ==> !OnPages(Levels(), mapped)
    {
      assert Levels()[1].biosmem <= AlignDown(biosmem, LargePage()) by {
        DownAligned(biosmem, LargePage());
      }
      ret := MapAll(biosmem);
      GuestMapped(Levels(), low, biosmem, high);
      if Divides() {
        GuestOnPages(Levels(), biosmem);
      }
    }

    /** Pools that hold every page of a guest of these sizes, known before it is set up. */
    predicate AmpleFor(ctxLowmem: nat, ctxBiosmem: nat, ctxHighmem: nat)
      reads `priv, `pools
      requires Shaped() && |pools| == 2 && lvMax == 2
    {
      var p := priv[0].pgSize;
      var w := Split(p, priv[1].pgSize, AlignDown(ctxLowmem, p), AlignDown(ctxBiosmem, p), AlignDown(ctxHighmem, p));
      Need(w[0]) <= pools[0].free && Need(w[1]) <= pools[1].free
    }

    /** The base suits the guest: aligned for every mapping and followed by room for all of it. */
    ghost predicate BaseFits(base: nat, vma: nat, total: nat, high: nat)
      reads `priv, `mapped
      requires Shaped()
    {
      && vma <= base && base + HIGHMEM_BASE + high <= vma + total
      && forall i :: 0 <= i < |mapped| ==> mapped[i].level < 2 && base % Levels()[mapped[i].level].pgSize == 0
    }

    /** Placing the base and mapping the regions: the second half of hugetlb_setup_memory. */
    method Place(vma: nat, baseaddr: nat, low: nat, bios: nat, high: nat, ghost total: nat) returns (ret: int, base: nat)
      requires Ready() && Layout(Levels()) && Covered() && mapped == [] && BiosSplit(bios)
      requires Size(Levels(), Low) == low && Size(Levels(), Bios) == bios <= 4 * GB && Size(Levels(), High) == high
      requires total == HIGHMEM_BASE + high + AreaPage()
      modifies `priv, `pools, `mapped
      ensures ret == 0 && Ready() && MapsGuest(Levels(), mapped, low, bios, high)
      ensures Levels()[0].pgSize == old(Levels())[0].pgSize && Levels()[1].pgSize == old(Levels())[1].pgSize
      ensures if low + bios + high > 0 then BaseFits(base, vma, total, high) else base == baseaddr
      ensures Divides() && Even(bios, LargePage()) ==> OnPages(Levels(), mapped)
      ensures Divides() && old(Ample()) && lvMax == 2 && !Even(bios, LargePage()) ==> !OnPages(Levels(), mapped)
    {
      base := AlignBase(vma, baseaddr);
      ret := MapGuest(low, bios, high);
      GuestLevels(Levels());
    }

    /** The kernel's room closes the gaps of a guest of these sizes, known before it is set up. */
    ghost predicate ObtainableFor(ctxLowmem: nat, ctxBiosmem: nat, ctxHighmem: nat)
      reads `priv, `pools, `room
      requires Shaped() && |pools| == 2 && |room| == 2
    {
      var p := priv[0].pgSize;
      CanObtain(LevelsFor(AlignDown(ctxLowmem, p), AlignDown(ctxBiosmem, p), AlignDown(ctxHighmem, p)), pools, room)
    }

    /** Sizing and securing: the first half of hugetlb_setup_memory. */
    method Prepare(low: nat, bios: nat, high: nat) returns (enough: bool)
      requires Ready() && low % priv[0].pgSize == 0 && bios % priv[0].pgSize == 0 && high % priv[0].pgSize == 0
      modifies `priv, `pagesDelta, `pools, `room
      ensures Ready() && Layout(Levels()) && BiosSplit(bios) && (enough <==> Covered())
      ensures Levels()[0].pgSize == old(Levels())[0].pgSize && Levels()[1].pgSize == old(Levels())[1].pgSize
      ensures Size(Levels(), Low) == low && Size(Levels(), Bios) == bios && Size(Levels(), High) == high
      ensures lvMax == 2 && (var w := Split(old(priv)[0].pgSize, old(priv)[1].pgSize, low, bios, high);
                             Need(w[0]) <= old(pools)[0].free && Need(w[1]) <= old(pools)[1].free) ==>
                enough && Ample()
      ensures writes && CanObtain(old(LevelsFor(low, bios, high)), old(pools), old(room)) ==> enough
      ensures AreaPage() == Padding(low, bios, high)
    {
      SplitSizes(low, bios, high);
      AreaIsPadding(low, bios, high);
      enough := Secure();
    }

    /**
     hugetlb_setup_memory from the sizing to the last mapping.  `anon` says whether the reserving mmap
     succeeds, `vma` where it puts the area; the sizes and `baseaddr` are those of the VM context.
     */
    method SetupMemory(ctxLowmem: nat, ctxBiosmem: nat, ctxHighmem: nat, anon: bool, vma: nat, baseaddr: nat)
        returns (ret: int, enough: bool, total: nat, base: nat)
      requires Ready() && mapped == [] && ctxBiosmem <= 4 * GB
      modifies `priv, `pagesDelta, `pools, `room, `mapped
      ensures Ready() && priv[0].pgSize == old(priv)[0].pgSize && LargePage() == old(LargePage())
      ensures ret == (if ctxLowmem > 0 && enough && anon then 0 else -ENOMEM)
      ensures ctxLowmem > 0 && !enough ==> !Covered()
      ensures ctxLowmem > 0 && writes && old(ObtainableFor(ctxLowmem, ctxBiosmem, ctxHighmem)) ==> enough
      ensures var p := priv[0].pgSize;
        var low, bios, high := AlignDown(ctxLowmem, p), AlignDown(ctxBiosmem, p), AlignDown(ctxHighmem, p);
        ret == 0 ==>
          && total == HIGHMEM_BASE + high + Padding(low, bios, high)
          && MapsGuest(Levels(), mapped, low, bios, high)
          && (if low + bios + high > 0 then BaseFits(base, vma, total, high) else base == baseaddr)
          && (Divides() && Even(bios, LargePage()) ==> OnPages(Levels(), mapped))
      ensures ctxLowmem > 0 && lvMax == 2 && old(AmpleFor(ctxLowmem, ctxBiosmem, ctxHighmem)) ==>
        && enough
        && (ret == 0 && Divides() ==> (OnPages(Levels(), mapped) <==> Even(AlignDown(ctxBiosmem, priv[0].pgSize), LargePage())))
    {
      enough, total, base := false, 0, baseaddr;
      if ctxLowmem == 0 {
        return -ENOMEM, enough, total, base;
      }
      var p := priv[LV1].pgSize;
      var lowmem, biosmem, highmem := AlignDown(ctxLowmem, p), AlignDown(ctxBiosmem, p), AlignDown(ctxHighmem, p);
      DownAligned(ctxLowmem, p);
      DownAligned(ctxBiosmem, p);
      DownAligned(ctxHighmem, p);
      total := HIGHMEM_BASE + highmem;
      enough := Prepare(lowmem, biosmem, highmem);
      if !enough {
        return -ENOMEM, enough, total, base;
      }
      total := total + AreaPage();
      if !anon {
        return -ENOMEM, enough, total, base;
      }
      ret, base := Place(vma, baseaddr, lowmem, biosmem, highmem, total);
    }
  }

  /** A large page and a small page, split over levels with 512 small pages to a large one. */
  lemma OneOfEach(p: nat, q: nat)
    requires p > 0 && q == 512 * p
    ensures AlignDown(q, p) == q && AlignDown(q + p, p) == q + p && AlignDown(0, p) == 0 && !Even(q + p, q)
    ensures Split(p, q, q, q + p, 0) == [Info(p, 0, p, 0), Info(q, q, q, 0)]
    ensures Need(Info(p, 0, p, 0)) == 1 && Need(Info(q, q, q, 0)) == 2
  {
    MulDiv(512, p);
    MulDiv(513, p);
    MulDiv(1, p);
    MulDiv(1, q);
    MulDiv(2, q);
    DownAligned(q + p, q);
    Pages(AlignDown(q + p, q), q);
    MulSign(AlignDown(q + p, q) / q - 1, q);
  }

  lemma SamplePages(p: nat, q: nat)
    requires p == 0x20_0000 && q == 0x4000_0000
    ensures q == 512 * p && q % p == 0 && (4 * GB) % q == 0 && HIGHMEM_BASE % q == 0
  {
    MulDiv(512, p);
    MulDiv(4, q);
    MulDiv(5, q);
  }

  method SampleGuest(p: nat, q: nat) returns (h: HugeTlb)
    requires p > 0 && q == 512 * p
    ensures fresh(h) && h.Ready() && h.mapped == [] && h.lvMax == 2
    ensures h.priv[0].pgSize == p && h.LargePage() == q && h.AmpleFor(q, q + p, 0)
  {
    MulDiv(512, p);
    h := new HugeTlb(2, p, q, [Pool(1, 1), Pool(2, 2)], false, 0, [0, 0]);
    OneOfEach(p, q);
  }

  /** Whenever the pools hold all of the guest, a bios region that is not even gets a misaligned large page. */
  method Misaligned(h: HugeTlb, low: nat, bios: nat, high: nat) returns (ret: int)
    requires h.Ready() && h.lvMax == 2 && h.mapped == [] && h.Divides() && low > 0 && bios <= 4 * GB
    requires h.AmpleFor(low, bios, high) && !Even(AlignDown(bios, h.priv[0].pgSize), h.LargePage())
    modifies h
    ensures ret == 0 && h.Ready() && Layout(h.Levels()) && h.Divides() && !OnPages(h.Levels(), h.mapped)
  {
    var enough, total, base;
    ret, enough, total, base := h.SetupMemory(low, bios, high, true, 0, 0);
  }

  /** A bios region of one large and one small page is not even, and pools that hold such a guest exist. */
  method MisalignedAt(p: nat, q: nat) returns (h: HugeTlb, ret: int)
    requires p > 0 && q == 512 * p && q + p <= 4 * GB && (4 * GB) % q == 0 && HIGHMEM_BASE % q == 0
    ensures ret == 0 && h.Ready() && Layout(h.Levels()) && h.Divides() && !OnPages(h.Levels(), h.mapped)
  {
    OneOfEach(p, q);
    h := SampleGuest(p, q);
    ret := Misaligned(h, q, q + p, 0);
  }

  /** So it is with pages of 2 MB and 1 GB. */
  method MisalignedBios() returns (h: HugeTlb, ret: int)
    ensures ret == 0 && h.Ready() && Layout(h.Levels()) && h.Divides() && !OnPages(h.Levels(), h.mapped)
  {
    SamplePages(0x20_0000, 0x4000_0000);
    h, ret := MisalignedAt(0x20_0000, 0x4000_0000);
  }
}
