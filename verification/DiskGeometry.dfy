/** Conversion between cylinder/head/sector and linear block addresses (drivers/disk.c). */
module DiskGeometry {
  import opened Machine

  datatype Geometry = Geometry(heads: int, sectorsPerTrack: int)
  {
    predicate Valid() { 1 <= heads <= 255 && 1 <= sectorsPerTrack <= 255 }

    /** The number of blocks whose cylinder number fits the 16-bit field. */
    function Capacity(): int { 65536 * heads * sectorsPerTrack }
  }

  datatype Chs = Chs(cylinder: int, head: int, sector: int)
  {
    /** The values the out-parameters `uint16_t`, `uint8_t` and `uint8_t` can hold. */
    predicate Representable() { 0 <= cylinder < 65536 && 0 <= head < 256 && 0 <= sector < 256 }

    predicate Addresses(g: Geometry) { head < g.heads && 1 <= sector <= g.sectorsPerTrack }
  }

  function ChsToLba(c: Chs, g: Geometry): int
  {
    Wrap(Wrap(Wrap(c.cylinder * g.heads + c.head) * g.sectorsPerTrack) + (c.sector - 1))
  }

  function LbaToChs(lba: int, g: Geometry): Chs
    requires g.Valid()
  {
    Chs((lba / Wrap(g.sectorsPerTrack * g.heads)) % 65536,
        ((lba / g.sectorsPerTrack) % g.heads) % 256,
        (lba % g.sectorsPerTrack + 1) % 256)
  }

  lemma SmallProduct(g: Geometry)
    requires g.Valid()
    ensures 1 <= g.sectorsPerTrack * g.heads <= 255 * 255
    ensures g.Capacity() == 65536 * (g.sectorsPerTrack * g.heads)
  {
    var h, s := g.heads, g.sectorsPerTrack;
    assert h * s == s * h;
    assert 1 * h <= s * h <= 255 * h by { MulOrder(1, s, h); MulOrder(s, 255, h); }
    assert 65536 * h * s == 65536 * (h * s) by { MulAssoc(65536, h, s); }
  }

  lemma MulAssoc(a: int, b: int, c: int)
    ensures a * b * c == a * (b * c)
  {}

  /** Quotient and remainder are determined by the division identity. */
  lemma DivModUnique(n: int, d: int, q: int, r: int)
    requires d > 0 && 0 <= r < d && n == q * d + r
    ensures n / d == q && n % d == r
  {
    var q', r' := n / d, n % d;
    assert n == q' * d + r';
    if q' < q {
      MulOrder(q' + 1, q, d);
      assert false;
    } else if q < q' {
      MulOrder(q + 1, q', d);
      assert false;
    }
  }

  /** Dividing twice is dividing by the product. */
  lemma DivDiv(n: int, s: int, h: int)
    requires 0 <= n && s > 0 && h > 0
    ensures s * h > 0 && n / s / h == n / (s * h)
  {
    var q, r := n / s, n % s;
    var c, k := q / h, q % h;
    MulOrder(1, s, h);
    MulOrder(0, k, s);
    MulOrder(k, h - 1, s);
    calc {
      n;
      q * s + r;
      (c * h + k) * s + r;
      { MulAssoc(c, h, s); }
      c * (h * s) + (k * s + r);
    }
    assert h * s == s * h;
    DivModUnique(n, s * h, c, k * s + r);
  }

  /** The address computation stays within 32 bits for all addresses but 0/0/0, where it comes to -1. */
  lemma ChsToLbaExact(c: Chs, g: Geometry)
    requires g.Valid() && c.Representable()
    ensures ChsToLba(c, g) == (c.cylinder * g.heads + c.head) * g.sectorsPerTrack + c.sector - 1
      <==> c.sector >= 1 || c.cylinder + c.head >= 1
  {
    var h, s := g.heads, g.sectorsPerTrack;
    MulOrder(c.cylinder, 65535, h);
    MulOrder(0, c.cylinder, h);
    var t := c.cylinder * h + c.head;
    assert 65535 * h <= 65535 * 255;
    assert 0 <= t <= 65535 * 255 + 255;
    MulOrder(t, 65535 * 255 + 255, s);
    MulOrder(0, t, s);
    assert (65535 * 255 + 255) * s <= (65535 * 255 + 255) * 255;
    if c.sector == 0 && c.cylinder + c.head >= 1 {
      if c.cylinder >= 1 { MulOrder(1, c.cylinder, h); }
      MulOrder(1, t, s);
    }
  }

  lemma LbaAddresses(lba: int, g: Geometry)
    requires g.Valid() && IsUint32(lba)
    ensures LbaToChs(lba, g).Representable() && LbaToChs(lba, g).Addresses(g)
  {
    var h, s := g.heads, g.sectorsPerTrack;
    SmallProduct(g);
    assert 0 <= lba % s < s && 0 <= (lba / s) % h < h;
  }

  /** What the truncating assignments lose: nothing but the high part of the cylinder. */
  lemma LbaParts(lba: int, g: Geometry)
    requires g.Valid() && IsUint32(lba)
    ensures var c := LbaToChs(lba, g); var full := lba / (g.sectorsPerTrack * g.heads);
      && c.cylinder == full % 65536
      && lba == (full * g.heads + c.head) * g.sectorsPerTrack + c.sector - 1
  {
    var h, s := g.heads, g.sectorsPerTrack;
    SmallProduct(g);
    DivDiv(lba, s, h);
    var q := lba / s;
    assert q == q / h * h + q % h;
    assert lba == q * s + lba % s;
  }

  /**
   * Converting a block number and back returns it exactly when its cylinder fits 16 bits.
   */
  lemma LbaRoundTrip(lba: int, g: Geometry)
    requires g.Valid() && IsUint32(lba)
    ensures ChsToLba(LbaToChs(lba, g), g) == lba <==> lba < g.Capacity()
  {
    var h, s := g.heads, g.sectorsPerTrack;
    var c := LbaToChs(lba, g);
    LbaAddresses(lba, g);
    LbaParts(lba, g);
    ChsToLbaExact(c, g);
    SmallProduct(g);
    hide *;
    if lba < g.Capacity() {
      FullCylinderFits(lba, s * h);
    } else if ChsToLba(c, g) == lba {
      ChsBelowCapacity(c, g);
    }
  }

  lemma FullCylinderFits(lba: int, p: int)
    requires 1 <= p && 0 <= lba < 65536 * p
    ensures 0 <= lba / p < 65536
  {
    var q := lba / p;
    assert lba == q * p + lba % p;
    if q >= 65536 { MulOrder(65536, q, p); }
    if q <= -1 { MulOrder(q, -1, p); }
  }

  lemma ChsBelowCapacity(c: Chs, g: Geometry)
    requires g.Valid() && c.Representable() && c.Addresses(g)
    ensures ChsToLba(c, g) < g.Capacity()
  {
    var h, s := g.heads, g.sectorsPerTrack;
    ChsToLbaExact(c, g);
    SmallProduct(g);
    MulOrder(c.cylinder, 65535, h);
    var t := c.cylinder * h + c.head;
    assert t <= 65536 * h - 1;
    MulOrder(t, 65536 * h - 1, s);
    assert (65536 * h - 1) * s == 65536 * h * s - s;
  }

  /**
   * Converting an address and back returns it exactly when head and sector are within the geometry.
   */
  lemma ChsRoundTrip(c: Chs, g: Geometry)
    requires g.Valid() && c.Representable()
    ensures LbaToChs(ChsToLba(c, g), g) == c <==> c.Addresses(g)
  {
    var h, s := g.heads, g.sectorsPerTrack;
    var lba := ChsToLba(c, g);
    LbaAddresses(lba, g);
    if c.Addresses(g) {
      ChsToLbaExact(c, g);
      SmallProduct(g);
      DivDiv(lba, s, h);
      var t := c.cylinder * h + c.head;
      DivModUnique(lba, s, t, c.sector - 1);
      DivModUnique(t, h, c.cylinder, c.head);
    }
  }
}
