/**
 The directory of an ndbm database (bsdlibc/gen/ndbm.c): a set of bit numbers that spells a
 binary trie over the low bits of the hash.  The node for hash `h` at depth `d` has bit number
 `(h mod 2^d) + 2^d - 1`; a set bit means that the node has been split.
 */
module NdbmTrie {

  function P(d: nat): (r: nat)
    ensures r >= 1
  {
    if d == 0 then 1 else 2 * P(d - 1)
  }

  lemma {:induction false} PMonotone(c: nat, d: nat)
    requires c <= d
    ensures P(c) <= P(d)
    ensures c < d ==> 2 * P(c) <= P(d)
    decreases d
  {
    if c < d {
      PMonotone(c, d - 1);
    }
  }

  /** Powers of two outgrow every number. */
  lemma {:induction false} PExceeds(d: nat)
    ensures P(d) > d
  {
    if d > 0 {
      PExceeds(d - 1);
    }
  }

  // ----- low bits of a hash -----

  lemma MulAtLeast(m: int, k: int)
    requires m > 0 && k >= 1
    ensures m * k >= m
  {
    assert m * (k - 1) >= 0;
    assert m * k == m * (k - 1) + m;
  }

  lemma SmallMultiple(m: int, k: int)
    requires m > 0 && -m < m * k < m
    ensures k == 0
  {
    if k >= 1 {
      MulAtLeast(m, k);
    } else if k <= -1 {
      assert m * (-k) == -(m * k);
      MulAtLeast(m, -k);
    }
  }

  lemma DivMod(x: int, m: int)
    requires m > 0
    ensures x == m * (x / m) + x % m && 0 <= x % m < m
  {
  }

  lemma ModUnique(x: int, m: int, q: int, r: int)
    requires m > 0 && 0 <= r < m && x == m * q + r
    ensures x % m == r && x / m == q
  {
    DivMod(x, m);
    var q', r' := x / m, x % m;
    assert m * (q' - q) == m * q' - m * q;
    SmallMultiple(m, q' - q);
  }

  lemma ModSmall(x: int, m: int)
    requires 0 <= x < m
    ensures x % m == x
  {
    ModUnique(x, m, 0, x);
  }

  /** `h & w` for a power of two `w`. */
  predicate HasBit(h: nat, w: nat)
    requires w >= 1
  {
    (h / w) % 2 == 1
  }

  /** One more low bit either keeps the residue or adds `m`. */
  lemma ModDouble(h: nat, m: nat)
    requires m >= 1
    ensures h % (2 * m) == h % m + (if HasBit(h, m) then m else 0)
  {
    var q, r := h / m, h % m;
    assert h == m * q + r;
    var q2, b := q / 2, q % 2;
    assert q == 2 * q2 + b;
    assert m * q == (2 * m) * q2 + m * b by {
      assert m * (2 * q2 + b) == m * (2 * q2) + m * b;
    }
    assert 0 <= m * b + r < 2 * m;
    ModUnique(h, 2 * m, q2, m * b + r);
  }

  /** A node's residue is determined by the residue of any deeper node. */
  lemma {:induction false} ModNested(h: nat, c: nat, d: nat)
    requires c <= d
    ensures (h % P(d)) % P(c) == h % P(c)
    decreases d
  {
    if c < d {
      ModNested(h, c, d - 1);
      ModDouble(h, P(d - 1));
      Multiple(c, d - 1);
      var k: nat :| P(d - 1) == P(c) * k;
      ModShift(h % P(d - 1), P(c), k);
    } else {
      ModSmall(h % P(d), P(c));
    }
  }

  lemma ModShift(r: nat, m: nat, k: nat)
    requires m >= 1
    ensures (r + m * k) % m == r % m
  {
    DivMod(r, m);
    assert m * (r / m + k) == m * (r / m) + m * k;
    ModUnique(r + m * k, m, r / m + k, r % m);
  }

  lemma {:induction false} Multiple(c: nat, d: nat)
    requires c <= d
    ensures exists k: nat :: P(d) == P(c) * k
    decreases d
  {
    if c == d {
      assert P(d) == P(c) * 1;
    } else {
      Multiple(c, d - 1);
      var k: nat :| P(d - 1) == P(c) * k;
      assert P(d) == P(c) * (2 * k);
    }
  }

  // ----- nodes and leaves -----

  /** Bit number of the node that hash `h` passes at depth `d`. */
  function Node(h: nat, d: nat): nat {
    h % P(d) + P(d) - 1
  }

  ghost function Above(bits: set<nat>, d: nat): set<nat> {
    set n | n in bits && n >= P(d) - 1
  }

  lemma AboveShrinks(bits: set<nat>, h: nat, d: nat)
    requires Node(h, d) in bits
    ensures Above(bits, d + 1) < Above(bits, d)
  {
    assert Node(h, d) in Above(bits, d) && Node(h, d) !in Above(bits, d + 1);
  }

  /** Depth of the leaf that hash `h` reaches, starting at depth `d`. */
  ghost function Leaf(bits: set<nat>, h: nat, d: nat): (r: nat)
    ensures r >= d
    ensures Node(h, r) !in bits
    decreases Above(bits, d)
  {
    if Node(h, d) in bits then
      AboveShrinks(bits, h, d);
      Leaf(bits, h, d + 1)
    else d
  }

  /** The page that hash `h` reaches through the directory. */
  ghost function Home(bits: set<nat>, h: nat): nat {
    h % P(Leaf(bits, h, 0))
  }

  lemma {:induction false} LeafPath(bits: set<nat>, h: nat, d: nat, c: nat)
    requires d <= c < Leaf(bits, h, d)
    ensures Node(h, c) in bits
    decreases c - d
  {
    if d < c {
      LeafPath(bits, h, d + 1, c);
    }
  }

  /** The leaf is the first node on the way whose bit is clear. */
  lemma {:induction false} LeafIs(bits: set<nat>, h: nat, d: nat, e: nat)
    requires d <= e && Node(h, e) !in bits
    requires forall c :: d <= c < e ==> Node(h, c) in bits
    ensures Leaf(bits, h, d) == e
    decreases e - d
  {
    if d < e {
      assert Node(h, d) in bits;
      LeafIs(bits, h, d + 1, e);
    }
  }

  /** Node numbers at different depths never coincide. */
  lemma NodeDepth(h: nat, d: nat, g: nat, e: nat)
    requires Node(h, d) == Node(g, e)
    ensures d == e && h % P(d) == g % P(d)
  {
    assert h % P(d) < P(d) && g % P(e) < P(e);
    if d < e {
      PMonotone(d, e);
    } else if e < d {
      PMonotone(e, d);
    }
  }

  lemma SharedPage(bits: set<nat>, h: nat, g: nat)
    requires Home(bits, h) == Home(bits, g)
    ensures Leaf(bits, h, 0) >= Leaf(bits, g, 0)
  {
    var d, e := Leaf(bits, h, 0), Leaf(bits, g, 0);
    if d < e {
      ModNested(g, d, e);
      DivMod(h, P(d));
      ModSmall(h % P(d), P(d));
      assert Node(h, d) == Node(g, d);
      LeafPath(bits, g, 0, d);
    }
  }

  /** Distinct leaves never share a page. */
  lemma HomeDeterminesLeaf(bits: set<nat>, h: nat, g: nat)
    requires Home(bits, h) == Home(bits, g)
    ensures Leaf(bits, h, 0) == Leaf(bits, g, 0)
  {
    SharedPage(bits, h, g);
    SharedPage(bits, g, h);
  }

  // ----- splitting a leaf -----

  /** A set bit below depth 0 has its parent's bit set too. */
  ghost predicate PrefixClosed(bits: set<nat>) {
    forall h: nat, d: nat {:trigger Node(h, d + 1)} :: Node(h, d + 1) in bits ==> Node(h, d) in bits
  }

  lemma ClosedParent(bits: set<nat>, h: nat, d: nat)
    requires PrefixClosed(bits) && Node(h, d) !in bits
    ensures Node(h, d + 1) !in bits
  {
  }

  /** Setting the bit of a leaf moves exactly the hashes of that leaf one level down. */
  lemma SplitLeaf(bits: set<nat>, h: nat, g: nat)
    requires PrefixClosed(bits)
    ensures var d := Leaf(bits, h, 0);
            var bits' := bits + {Node(h, d)};
            Leaf(bits', g, 0) == if Home(bits, g) == Home(bits, h) then d + 1 else Leaf(bits, g, 0)
  {
    var d, e := Leaf(bits, h, 0), Leaf(bits, g, 0);
    var bits' := bits + {Node(h, d)};
    forall c | 0 <= c < e
      ensures Node(g, c) in bits'
    {
      LeafPath(bits, g, 0, c);
    }
    if Home(bits, g) == Home(bits, h) {
      HomeDeterminesLeaf(bits, g, h);
      ClosedParent(bits, g, d);
      if Node(g, d + 1) == Node(h, d) {
        NodeDepth(g, d + 1, h, d);
      }
      LeafIs(bits', g, 0, d + 1);
    } else {
      if Node(g, e) == Node(h, d) {
        NodeDepth(g, e, h, d);
      }
      LeafIs(bits', g, 0, e);
    }
  }

  lemma SameParent(g: nat, h: nat, e: nat)
    requires g % P(e + 1) == h % P(e + 1)
    ensures Node(g, e) == Node(h, e)
  {
    ModNested(g, e, e + 1);
    ModNested(h, e, e + 1);
  }

  lemma SplitClosed(bits: set<nat>, h: nat)
    requires PrefixClosed(bits)
    ensures PrefixClosed(bits + {Node(h, Leaf(bits, h, 0))})
  {
    var d := Leaf(bits, h, 0);
    var bits' := bits + {Node(h, d)};
    forall g: nat, e: nat | Node(g, e + 1) in bits'
      ensures Node(g, e) in bits'
    {
      if Node(g, e + 1) == Node(h, d) {
        NodeDepth(g, e + 1, h, d);
        SameParent(g, h, e);
        LeafPath(bits, h, 0, e);
      }
    }
  }

  /** Where the pairs of a split page go. */
  lemma SplitHome(bits: set<nat>, h: nat, g: nat)
    requires PrefixClosed(bits)
    ensures var d := Leaf(bits, h, 0);
            var bits' := bits + {Node(h, d)};
            Home(bits', g) ==
              if Home(bits, g) != Home(bits, h) then Home(bits, g)
              else Home(bits, h) + (if HasBit(g, P(d)) then P(d) else 0)
  {
    SplitLeaf(bits, h, g);
    if Home(bits, g) == Home(bits, h) {
      HomeDeterminesLeaf(bits, g, h);
      ModDouble(g, P(Leaf(bits, h, 0)));
    }
  }

  /** The page that a split creates is not yet the page of any leaf. */
  lemma SplitFresh(bits: set<nat>, h: nat, g: nat)
    requires PrefixClosed(bits)
    ensures Home(bits, g) != Home(bits, h) + P(Leaf(bits, h, 0))
  {
    var d, e := Leaf(bits, h, 0), Leaf(bits, g, 0);
    var b := h % P(d);
    if g % P(e) == b + P(d) {
      DivMod(g, P(e));
      DivMod(h, P(d));
      if e <= d {
        PMonotone(e, d);
        assert false;
      }
      ModNested(g, d, e);
      ModShift(b, P(d), 1);
      ModSmall(b, P(d));
      assert Node(g, d) == Node(h, d);
      LeafPath(bits, g, 0, d);
    }
  }

  /** Beyond every hash involved, sharing a leaf means having the same hash. */
  lemma DeepLeaf(bits: set<nat>, h: nat, g: nat, bound: nat)
    requires Home(bits, h) == Home(bits, g) && Leaf(bits, h, 0) >= bound && h < P(bound) && g < P(bound)
    ensures h == g
  {
    HomeDeterminesLeaf(bits, h, g);
    PMonotone(bound, Leaf(bits, h, 0));
    ModSmall(h, P(Leaf(bits, h, 0)));
    ModSmall(g, P(Leaf(bits, h, 0)));
  }
}
