/** The disk geometry of `devicemodel/hw/block_if.c`, after the CHS appendix of the Virtual Hard Disk Image Format. */
module BlockChs {

  const CHS_MAX := 65535 * 16 * 255

  /** The sector count, clamped to the largest a geometry can name. */
  function Clamped(size: nat, sectsz: nat): nat
    requires sectsz >= 1
  {
    if size / sectsz > CHS_MAX then CHS_MAX else size / sectsz
  }

  /** Whole cylinders and no more: one cylinder more would pass the end of the disk. */
  predicate Covers(sectors: nat, c: nat, h: nat, s: nat) {
    c * h * s <= sectors < (c + 1) * h * s
  }

  lemma Cylinders(sectors: nat, h: nat, s: nat)
    requires h >= 1 && s >= 1
    ensures Covers(sectors, sectors / s / h, h, s)
  {
    var t := sectors / s;
    var c := t / h;
    Division(sectors, s);
    Division(t, h);
    Times(c * h, t, s);
    Times(t + 1, c * h + h, s);
    assert (c + 1) * h == c * h + h;
    assert (t + 1) * s == t * s + s;
  }

  lemma Division(x: nat, d: nat)
    requires d >= 1
    ensures x / d * d <= x < x / d * d + d
  {
  }

  lemma Times(x: nat, y: nat, z: nat)
    requires x <= y
    ensures x * z <= y * z
  {
  }

  /** The heads of a small disk, on unbounded numbers: the number that keeps cylinders below 1024, at least 4. */
  function Heads(tracks: nat): nat {
    if (tracks + 1023) / 1024 < 4 then 4 else (tracks + 1023) / 1024
  }

  /** The geometry on unbounded numbers: (tracks, heads, sectors per track). */
  function Geometry(sectors: nat): (nat, nat, nat) {
    if sectors >= 65536 * 16 * 63 then (sectors / 255, 16, 255)
    else
      var heads := Heads(sectors / 17);
      var a := if sectors / 17 >= heads * 1024 || heads > 16 then (sectors / 31, 16, 31) else (sectors / 17, heads, 17);
      if a.0 >= a.1 * 1024 then (sectors / 63, 16, 63) else a
  }

  /** The fewest heads, at least 4, with which the tracks make no more than 1024 cylinders. */
  predicate Fewest(tracks: nat, h: nat) {
    h >= 4 && tracks <= 1024 * h && (h > 4 ==> 1024 * (h - 1) < tracks)
  }

  /**
   The choice of the appendix.  The largest disks get 255 sectors a track; the others 17 while at most
   16 heads keep the cylinders below 1024, then 31 while 16 heads do, then 63.  Exactly 1024 cylinders
   with the fewest heads is not below.
   */
  predicate Rule(sectors: nat, h: nat, s: nat) {
    var fits := sectors / 17 < 1024 * 16 && (sectors / 17 < 1024 * 4 || sectors / 17 % 1024 != 0);
    && s == (if sectors >= 65536 * 16 * 63 then 255 else if fits then 17 else if sectors / 31 < 1024 * 16 then 31 else 63)
    && if s == 17 then Fewest(sectors / 17, h) else h == 16
  }

  lemma GeometryRule(sectors: nat)
    ensures Rule(sectors, Geometry(sectors).1, Geometry(sectors).2)
  {
  }

  /** Cutting the head count to 8 bits decides no branch differently and changes no result that is kept. */
  lemma EightBits(tracks: nat, heads: nat)
    requires tracks < 65536 * 16 * 63
    requires var cut := (tracks + 1023) / 1024 % 0x100; heads == if cut < 4 then 4 else cut
    ensures tracks >= heads * 1024 || heads > 16 <==> tracks >= Heads(tracks) * 1024 || Heads(tracks) > 16
    ensures tracks >= heads * 1024 || heads > 16 || heads == Heads(tracks)
  {
  }

  lemma FewCylinders(sectors: nat)
    requires sectors <= CHS_MAX
    ensures var g := Geometry(sectors); 1 <= g.1 <= 16 && 1 <= g.2 <= 255 && g.0 == sectors / g.2 && g.0 / g.1 <= 65535
  {
  }

  lemma GeometryCovers(sectors: nat)
    requires sectors <= CHS_MAX
    ensures var g := Geometry(sectors); g.1 >= 1 && Covers(sectors, g.0 / g.1, g.1, g.2)
  {
    FewCylinders(sectors);
    Cylinders(sectors, Geometry(sectors).1, Geometry(sectors).2);
  }

  method SmallDisk(sectors: nat) returns (hcyl: nat, heads: nat, secpt: nat)
    requires sectors < 65536 * 16 * 63
    ensures (hcyl, heads, secpt) == Geometry(sectors)
  {
    secpt := 17;
    hcyl := sectors / secpt;
    heads := (hcyl + 1023) / 1024 % 0x100;
    if heads < 4 {
      heads := 4;
    }
    EightBits(hcyl, heads);
    if hcyl >= heads * 1024 || heads > 16 {
      secpt := 31;
      heads := 16;
      hcyl := sectors / secpt;
    }
    if hcyl >= heads * 1024 {
      secpt := 63;
      heads := 16;
      hcyl := sectors / secpt;
    }
  }

  method Tracks(sectors: nat) returns (hcyl: nat, heads: nat, secpt: nat)
    ensures (hcyl, heads, secpt) == Geometry(sectors)
  {
    if sectors >= 65536 * 16 * 63 {
      secpt := 255;
      heads := 16;
      hcyl := sectors / secpt;
    } else {
      hcyl, heads, secpt := SmallDisk(sectors);
    }
  }

  /** Stores the geometry in the fields of the answer, 16 bits for the cylinders. */
  method Fields(sectors: nat) returns (c: nat, h: nat, s: nat)
    requires sectors <= CHS_MAX
    ensures var g := Geometry(sectors); g.1 >= 1 && c == g.0 / g.1 && h == g.1 && s == g.2
  {
    var hcyl, heads, secpt := Tracks(sectors);
    FewCylinders(sectors);
    c := hcyl / heads % 0x1_0000;
    h := heads;
    s := secpt;
  }

  /**
   The geometry covers the clamped disk, its cylinders fit 16 bits, and it is the one unbounded
   arithmetic gives although the head count passes through 8 bits.
   */
  method Chs(size: nat, sectsz: nat) returns (c: nat, h: nat, s: nat)
    requires sectsz >= 1
    ensures Covers(Clamped(size, sectsz), c, h, s)
    ensures c <= 65535 && 1 <= h <= 16 && 1 <= s <= 255
    ensures Rule(Clamped(size, sectsz), h, s)
    ensures var g := Geometry(Clamped(size, sectsz)); g.1 >= 1 && c == g.0 / g.1 && h == g.1 && s == g.2
  {
    var sectors := size / sectsz;
    if sectors > CHS_MAX {
      sectors := CHS_MAX;
    }
    c, h, s := Fields(sectors);
    FewCylinders(sectors);
    GeometryCovers(sectors);
    GeometryRule(sectors);
  }
}
