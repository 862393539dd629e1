/**
 A scan with stores between its calls: which keys still come, and which come twice or never.  A store moves pairs, by
 dropping the old pair of its key and by splitting pages, and a scan has only a page and a place on it to go by.
 */
module NdbmStoreScan {
  import opened NdbmPage
  import opened NdbmTrie
  import opened NdbmMap
  import opened NdbmCohort
  import opened NdbmHash
  import opened NdbmScan

  /** Pair `e` of page `a` is not yet passed by a scan at place `c` of page `blk`. */
  predicate Due(lists: seq<seq<Pair>>, blk: nat, c: nat, a: nat, e: nat) {
    var s := StandsOn(lists, blk);
    a > s || (a == s && e >= c)
  }

  /** The keys that still come are those of the pairs not yet passed. */
  lemma DueComes(lists: seq<seq<Pair>>, bits: set<nat>, hash: Hash, m: Contents, blk: nat, c: nat, a: nat, e: nat)
    requires Denotes(lists, bits, hash, m) && e < |ListAt(lists, a)|
    ensures ListAt(lists, a)[e].key in Remaining(lists, blk, c) <==> Due(lists, blk, c, a, e)
  {
    hide Denotes, Remaining;
    var s, k := StandsOn(lists, blk), ListAt(lists, a)[e].key;
    StandsOnVisits(lists, blk, c);
    if k in Remaining(lists, s, c) {
      var b, j := RemainingFinds(lists, s, c, k);
      SamePlace(lists, bits, hash, m, b, j, a, e);
    }
    if Due(lists, blk, c, a, e) {
      RemainingHas(lists, s, c, a, e);
    }
  }

  // ----- where the pairs of a split page go -----

  /** The pairs of `ps` whose hashes reach page `a`, in order. */
  ghost function Sifted(ps: seq<Pair>, bits: set<nat>, hash: Hash, a: nat): seq<Pair> {
    if ps == [] then [] else
      var p := ps[|ps| - 1];
      Sifted(ps[..|ps| - 1], bits, hash, a) + if Home(bits, hash(p.key)) == a then [p] else []
  }

  lemma HalfOf(ps: seq<Pair>, p: Pair, hash: Hash, w: nat, up: bool)
    requires w >= 1
    ensures Half(ps + [p], hash, w, up) == Half(ps, hash, w, up) + if HasBit(hash(p.key), w) == up then [p] else []
  {
    assert (ps + [p])[..|ps|] == ps;
  }

  /** Splitting a page sifts its pairs further. */
  lemma {:induction false} SiftedHalf(ps: seq<Pair>, hash: Hash, bits: set<nat>, bs: set<nat>, b: nat, w: nat, up: bool,
                                      a: nat)
    requires w >= 1 && forall x: nat :: Home(bs, x) == a <==> Home(bits, x) == b && HasBit(x, w) == up
    ensures Sifted(ps, bs, hash, a) == Half(Sifted(ps, bits, hash, b), hash, w, up)
  {
    hide Half;
    if ps == [] {
      HalfNone(hash, w, up);
    } else {
      var n := |ps| - 1;
      var q := Sifted(ps[..n], bits, hash, b);
      SiftedHalf(ps[..n], hash, bits, bs, b, w, up, a);
      HalfOf(q, ps[n], hash, w, up);
      assert q + [] == q;
    }
  }

  lemma HalfNone(hash: Hash, w: nat, up: bool)
    requires w >= 1
    ensures Half([], hash, w, up) == []
  {
  }

  lemma {:induction false} SiftedSame(ps: seq<Pair>, hash: Hash, bits: set<nat>, bs: set<nat>, a: nat)
    requires forall x: nat :: Home(bs, x) == a <==> Home(bits, x) == a
    ensures Sifted(ps, bs, hash, a) == Sifted(ps, bits, hash, a)
  {
    if ps != [] {
      SiftedSame(ps[..|ps| - 1], hash, bits, bs, a);
    }
  }

  lemma {:induction false} SiftedAll(ps: seq<Pair>, bits: set<nat>, hash: Hash, a: nat)
    requires forall p :: p in ps ==> Home(bits, hash(p.key)) == a
    ensures Sifted(ps, bits, hash, a) == ps
  {
    if ps != [] {
      var n := |ps| - 1;
      assert ps == ps[..n] + [ps[n]];
      SiftedAll(ps[..n], bits, hash, a);
    }
  }

  /** A pair stands behind those before it that go to its page. */
  lemma {:induction false} SiftedAt(ps: seq<Pair>, bits: set<nat>, hash: Hash, e: nat)
    requires e < |ps|
    ensures var a := Home(bits, hash(ps[e].key));
            var d := |Sifted(ps[..e], bits, hash, a)|;
            d < |Sifted(ps, bits, hash, a)| && Sifted(ps, bits, hash, a)[d] == ps[e]
  {
    var n := |ps| - 1;
    if e < n {
      assert ps[..n][..e] == ps[..e];
      SiftedAt(ps[..n], bits, hash, e);
    }
  }

  lemma SiftStep(lists: seq<seq<Pair>>, bits: set<nat>, hash: Hash, h: nat, ps: seq<Pair>, g: nat)
    requires PrefixClosed(bits) && ListAt(lists, Home(bits, g)) == Sifted(ps, bits, hash, Home(bits, g))
    ensures var ls, bs := SplitLists(lists, bits, hash, h), SplitBits(bits, h);
            ListAt(ls, Home(bs, g)) == Sifted(ps, bs, hash, Home(bs, g))
  {
    hide PrefixClosed, Half, Home;
    var bs, b, w := SplitBits(bits, h), Home(bits, h), P(Leaf(bits, h, 0));
    var up := HasBit(g, w);
    forall x: nat
      ensures Home(bs, x) == if Home(bits, x) != b then Home(bits, x) else b + (if HasBit(x, w) then w else 0)
      ensures Home(bits, x) != b + w
    {
      SplitHome(bits, h, x);
      SplitFresh(bits, h, x);
    }
    if Home(bits, g) == b {
      SiftedHalf(ps, hash, bits, bs, b, w, up, Home(bs, g));
    } else {
      SiftedSame(ps, hash, bits, bs, Home(bs, g));
    }
  }

  /** After any number of splits the page of hash `g` holds the pairs of the split page that go there, in order. */
  lemma {:induction false} Sifts(lists: seq<seq<Pair>>, bits: set<nat>, hash: Hash, h: nat, n: nat, ps: seq<Pair>,
                                 g: nat)
    requires PrefixClosed(bits) && ListAt(lists, Home(bits, g)) == Sifted(ps, bits, hash, Home(bits, g))
    ensures var db := SplitTimes(lists, bits, hash, h, n);
            ListAt(db.0, Home(db.1, g)) == Sifted(ps, db.1, hash, Home(db.1, g))
    decreases n
  {
    hide PrefixClosed, SplitLists, SplitBits, Home, Sifted, ListAt;
    if n > 0 {
      SiftStep(lists, bits, hash, h, ps, g);
      SplitClosedBits(bits, h);
      Sifts(SplitLists(lists, bits, hash, h), SplitBits(bits, h), hash, h, n - 1, ps, g);
    }
  }

  lemma SplitClosedBits(bits: set<nat>, h: nat)
    requires PrefixClosed(bits)
    ensures PrefixClosed(SplitBits(bits, h))
  {
    SplitClosed(bits, h);
  }

  lemma UntouchedStep(lists: seq<seq<Pair>>, bits: set<nat>, hash: Hash, m: Contents, h: nat, a: nat)
    requires Denotes(lists, bits, hash, m) && PrefixClosed(bits) && ListAt(lists, a) != [] && a != Home(bits, h)
    ensures ListAt(SplitLists(lists, bits, hash, h), a) == ListAt(lists, a) && a != Home(SplitBits(bits, h), h)
  {
    hide PrefixClosed, Half;
    var p := ListAt(lists, a)[0];
    assert Belongs(p, a, bits, hash, m);
    SplitFresh(bits, h, hash(p.key));
    SplitHome(bits, h, h);
  }

  /** Splits leave every other page with pairs alone. */
  lemma {:induction false} Untouched(lists: seq<seq<Pair>>, bits: set<nat>, hash: Hash, m: Contents, h: nat, n: nat,
                                     a: nat)
    requires Denotes(lists, bits, hash, m) && PrefixClosed(bits) && ListAt(lists, a) != [] && a != Home(bits, h)
    ensures var db := SplitTimes(lists, bits, hash, h, n);
            ListAt(db.0, a) == ListAt(lists, a) && a != Home(db.1, h)
    decreases n
  {
    hide PrefixClosed, SplitLists, SplitBits, Home, Denotes;
    if n > 0 {
      UntouchedStep(lists, bits, hash, m, h, a);
      SplitStep(lists, bits, hash, m, h);
      Untouched(SplitLists(lists, bits, hash, h), SplitBits(bits, h), hash, m, h, n - 1, a);
    }
  }

  // ----- where a store puts the pairs -----

  /**
   The place that pair `e` of page `a` has after a store of `p` that took `n` splits: on the page of `p` the pairs
   behind the old pair of its key move down, and those whose hashes now reach other pages go there.
   */
  ghost function Place(lists: seq<seq<Pair>>, bits: set<nat>, hash: Hash, p: Pair, n: nat, a: nat, e: nat): (nat, nat)
    requires e < |ListAt(lists, a)|
  {
    var b := Home(bits, hash(p.key));
    if a != b then (a, e) else
      var ps := ListAt(lists, b);
      var d := if e > IndexOf(ps, p.key) then e - 1 else e;
      var bs := StoreRound(lists, bits, hash, p, n).1;
      var a' := Home(bs, hash(ps[e].key));
      (a', |Sifted(WithoutKey(ps, p.key)[..d], bs, hash, a')|)
  }

  /** After the store the data base denotes the map with the pair stored. */
  lemma ResultDenotes(lists: seq<seq<Pair>>, bits: set<nat>, hash: Hash, m: Contents, p: Pair, n: nat)
    requires Denotes(lists, bits, hash, m) && PrefixClosed(bits)
    ensures var db := StoreResult(lists, bits, hash, p, n); Denotes(db.0, db.1, hash, m[p.key := p.val])
  {
    hide Denotes, PrefixClosed, WithoutKey, SplitTimes;
    var b := Home(bits, hash(p.key));
    ReducedStart(lists, bits, hash, m, p.key);
    SplitTimesDenote(PutList(lists, b, WithoutKey(ListAt(lists, b), p.key)), bits, hash, m - {p.key}, hash(p.key), n);
    var db := StoreRound(lists, bits, hash, p, n);
    InsertDenotes(db.0, db.1, hash, m - {p.key}, p.key, p.val);
    assert (m - {p.key})[p.key := p.val] == m[p.key := p.val];
  }

  /** The pair stored is the last one of its page. */
  lemma OwnPlace(lists: seq<seq<Pair>>, bits: set<nat>, hash: Hash, p: Pair, n: nat)
    ensures var db := StoreResult(lists, bits, hash, p, n);
            var qs := ListAt(db.0, Home(db.1, hash(p.key)));
            qs != [] && qs[|qs| - 1] == p
  {
    hide StoreRound;
  }

  lemma OtherPages(lists: seq<seq<Pair>>, bits: set<nat>, hash: Hash, m: Contents, p: Pair, n: nat, a: nat, e: nat)
    requires Denotes(lists, bits, hash, m) && PrefixClosed(bits)
    requires e < |ListAt(lists, a)| && a != Home(bits, hash(p.key))
    ensures ListAt(StoreResult(lists, bits, hash, p, n).0, a) == ListAt(lists, a)
  {
    hide Denotes, PrefixClosed, WithoutKey, SplitTimes, Home;
    var b := Home(bits, hash(p.key));
    ReducedStart(lists, bits, hash, m, p.key);
    Untouched(PutList(lists, b, WithoutKey(ListAt(lists, b), p.key)), bits, hash, m - {p.key}, hash(p.key), n, a);
  }

  lemma Closes(lists: seq<seq<Pair>>, bits: set<nat>, hash: Hash, m: Contents, k: seq<byte>, e: nat)
    requires Denotes(lists, bits, hash, m)
    requires e < |ListAt(lists, Home(bits, hash(k)))| && ListAt(lists, Home(bits, hash(k)))[e].key != k
    ensures var ps := ListAt(lists, Home(bits, hash(k)));
            var qs, d := WithoutKey(ps, k), if e > IndexOf(ps, k) then e - 1 else e;
            d < |qs| && qs[d] == ps[e]
  {
  }

  lemma AllAtHome(lists: seq<seq<Pair>>, bits: set<nat>, hash: Hash, m: Contents, a: nat, qs: seq<Pair>)
    requires Denotes(PutList(lists, a, qs), bits, hash, m)
    ensures Sifted(qs, bits, hash, a) == qs
  {
    forall p | p in qs
      ensures Home(bits, hash(p.key)) == a
    {
      assert p in ListAt(PutList(lists, a, qs), a);
      assert Belongs(p, a, bits, hash, m);
    }
    SiftedAll(qs, bits, hash, a);
  }

  lemma SplitPairs(lists: seq<seq<Pair>>, bits: set<nat>, hash: Hash, m: Contents, p: Pair, n: nat, d: nat)
    requires Denotes(lists, bits, hash, m) && PrefixClosed(bits)
    requires d < |WithoutKey(ListAt(lists, Home(bits, hash(p.key))), p.key)|
    ensures var qs := WithoutKey(ListAt(lists, Home(bits, hash(p.key))), p.key);
            var db := StoreRound(lists, bits, hash, p, n);
            var a := Home(db.1, hash(qs[d].key));
            var e := |Sifted(qs[..d], db.1, hash, a)|;
            e < |ListAt(db.0, a)| && ListAt(db.0, a)[e] == qs[d]
  {
    hide Denotes, PrefixClosed, WithoutKey, SplitTimes, Home, Sifted;
    var b := Home(bits, hash(p.key));
    var qs := WithoutKey(ListAt(lists, b), p.key);
    ReducedStart(lists, bits, hash, m, p.key);
    AllAtHome(lists, bits, hash, m - {p.key}, b, qs);
    SiftedHomes(qs, bits, hash, b, d);
    Sifts(PutList(lists, b, qs), bits, hash, hash(p.key), n, qs, hash(qs[d].key));
    SiftedAt(qs, StoreRound(lists, bits, hash, p, n).1, hash, d);
  }

  lemma {:induction false} SiftedHomes(qs: seq<Pair>, bits: set<nat>, hash: Hash, a: nat, d: nat)
    requires Sifted(qs, bits, hash, a) == qs && d < |qs|
    ensures Home(bits, hash(qs[d].key)) == a
  {
    SiftedShorter(qs[..|qs| - 1], bits, hash, a);
    if d < |qs| - 1 {
      assert Sifted(qs[..|qs| - 1], bits, hash, a) == qs[..|qs| - 1];
      SiftedHomes(qs[..|qs| - 1], bits, hash, a, d);
    }
  }

  lemma {:induction false} SiftedShorter(ps: seq<Pair>, bits: set<nat>, hash: Hash, a: nat)
    ensures |Sifted(ps, bits, hash, a)| <= |ps|
  {
    if ps != [] {
      SiftedShorter(ps[..|ps| - 1], bits, hash, a);
    }
  }

  /** Every other pair is found again at its place. */
  lemma PlacedAt(lists: seq<seq<Pair>>, bits: set<nat>, hash: Hash, m: Contents, p: Pair, n: nat, a: nat, e: nat)
    requires Denotes(lists, bits, hash, m) && PrefixClosed(bits)
    requires e < |ListAt(lists, a)| && ListAt(lists, a)[e].key != p.key
    ensures var db, at := StoreResult(lists, bits, hash, p, n), Place(lists, bits, hash, p, n, a, e);
            at.1 < |ListAt(db.0, at.0)| && ListAt(db.0, at.0)[at.1] == ListAt(lists, a)[e]
  {
    hide Denotes, PrefixClosed, StoreRound, Home, Sifted, WithoutKey;
    if a != Home(bits, hash(p.key)) {
      OtherPages(lists, bits, hash, m, p, n, a, e);
    } else {
      var ps := ListAt(lists, a);
      Closes(lists, bits, hash, m, p.key, e);
      SplitPairs(lists, bits, hash, m, p, n, if e > IndexOf(ps, p.key) then e - 1 else e);
    }
  }

  /**
   A store between two calls of dbm_nextkey.  Another key, that of pair `e` of page `a`, comes after the store exactly
   if the place it then has is not yet passed, and it would have come without the store exactly if its old place was
   not yet passed.  The key stored comes exactly if the end of its page is not yet passed.  No other key comes, and
   none comes twice from there on.
   */
  lemma StoreDuringScan(lists: seq<seq<Pair>>, bits: set<nat>, hash: Hash, m: Contents, p: Pair, n: nat, blk: nat,
                        c: nat)
    requires Denotes(lists, bits, hash, m) && PrefixClosed(bits)
    ensures var db := StoreResult(lists, bits, hash, p, n);
            var ks, ks' := Remaining(lists, blk, c), Remaining(db.0, blk, c);
            && (forall a: nat, e: nat | e < |ListAt(lists, a)| && ListAt(lists, a)[e].key != p.key ::
                  var at := Place(lists, bits, hash, p, n, a, e);
                  && (ListAt(lists, a)[e].key in ks <==> Due(lists, blk, c, a, e))
                  && (ListAt(lists, a)[e].key in ks' <==> Due(db.0, blk, c, at.0, at.1)))
            && (var own := Home(db.1, hash(p.key));
                p.key in ks' <==> Due(db.0, blk, c, own, |ListAt(db.0, own)| - 1))
            && (forall k :: k in ks' ==> k in m || k == p.key)
            && (forall i, j :: 0 <= i < j < |ks'| ==> ks'[i] != ks'[j])
  {
    hide Denotes, PrefixClosed, StoreResult, Place, Remaining, Due, Home;
    var db := StoreResult(lists, bits, hash, p, n);
    ResultDenotes(lists, bits, hash, m, p, n);
    forall a: nat, e: nat | e < |ListAt(lists, a)| && ListAt(lists, a)[e].key != p.key
      ensures var at := Place(lists, bits, hash, p, n, a, e);
              && (ListAt(lists, a)[e].key in Remaining(lists, blk, c) <==> Due(lists, blk, c, a, e))
              && (ListAt(lists, a)[e].key in Remaining(db.0, blk, c) <==> Due(db.0, blk, c, at.0, at.1))
    {
      PlacedAt(lists, bits, hash, m, p, n, a, e);
      DueComes(lists, bits, hash, m, blk, c, a, e);
      var at := Place(lists, bits, hash, p, n, a, e);
      DueComes(db.0, db.1, hash, m[p.key := p.val], blk, c, at.0, at.1);
    }
    var own := Home(db.1, hash(p.key));
    OwnPlace(lists, bits, hash, p, n);
    DueComes(db.0, db.1, hash, m[p.key := p.val], blk, c, own, |ListAt(db.0, own)| - 1);
    RemainingOnce(db.0, db.1, hash, m[p.key := p.val], blk, c);
    forall k | k in Remaining(db.0, blk, c)
      ensures k in m || k == p.key
    {
      ComesStored(db.0, db.1, hash, m[p.key := p.val], blk, c, k);
    }
  }

  lemma ComesStored(lists: seq<seq<Pair>>, bits: set<nat>, hash: Hash, m: Contents, blk: nat, c: nat, k: seq<byte>)
    requires Denotes(lists, bits, hash, m) && k in Remaining(lists, blk, c)
    ensures k in m
  {
    var a, e := RemainingFinds(lists, blk, c, k);
    assert ListAt(lists, a)[e] in ListAt(lists, a);
    assert Belongs(ListAt(lists, a)[e], a, bits, hash, m);
  }

  // ----- stores that take no split -----

  lemma NoSplit(lists: seq<seq<Pair>>, bits: set<nat>, hash: Hash, p: Pair)
    ensures var b := Home(bits, hash(p.key));
            StoreResult(lists, bits, hash, p, 0)
            == (PutList(lists, b, WithoutKey(ListAt(lists, b), p.key) + [p]), bits)
  {
    hide WithoutKey, Home;
    var b := Home(bits, hash(p.key));
    SplitNever(PutList(lists, b, WithoutKey(ListAt(lists, b), p.key)), bits, hash, hash(p.key));
    PutTwice(lists, b, WithoutKey(ListAt(lists, b), p.key), WithoutKey(ListAt(lists, b), p.key) + [p]);
  }

  /** Where a scan stands once page `b` holds pairs: on `b`, if it would run over it. */
  lemma StandsAfter(lists: seq<seq<Pair>>, b: nat, qs: seq<Pair>, blk: nat)
    requires qs != []
    ensures var s, s' := StandsOn(lists, blk), StandsOn(PutList(lists, b, qs), blk);
            && (blk <= b && (b < s || s >= |lists|) ==> s' == b)
            && (s < |lists| && (b < blk || s <= b) ==> s' == s)
  {
    var s, s', ls := StandsOn(lists, blk), StandsOn(PutList(lists, b, qs), blk), PutList(lists, b, qs);
    assert ListAt(ls, b) != [];
    assert ListAt(ls, s') == if s' == b then qs else ListAt(lists, s');
    assert ListAt(ls, s) == if s == b then qs else ListAt(lists, s);
    assert s' > b >= blk ==> ListAt(ls, b) == [];
  }

  /** The keys that come before and after a new pair was put at the end of page `b`. */
  lemma NewKeyDue(lists: seq<seq<Pair>>, b: nat, p: Pair, blk: nat, c: nat, a: nat, e: nat)
    requires e < |ListAt(lists, a)|
    ensures var s, ls := StandsOn(lists, blk), PutList(lists, b, ListAt(lists, b) + [p]);
            && (Due(lists, blk, c, a, e) ==> Due(ls, blk, c, a, e))
            && (Due(ls, blk, c, a, e) && !Due(lists, blk, c, a, e) <==> blk <= b < s && a == s && e < c)
  {
    StandsAfter(lists, b, ListAt(lists, b) + [p], blk);
  }

  /** The key at the end of its page is still to come. */
  lemma NewKeyOwn(lists: seq<seq<Pair>>, b: nat, p: Pair, blk: nat, c: nat)
    ensures Due(PutList(lists, b, ListAt(lists, b) + [p]), blk, c, b, |ListAt(lists, b)|)
       <==> EndAhead(lists, blk, c, b)
  {
    StandsAfter(lists, b, ListAt(lists, b) + [p], blk);
  }

  /**
   The end of page `b` is not yet passed by a scan at place `c` of page `blk`.  A scan that stands on an empty page
   keeps its place, and so passes over the first key of the page if that is not 0.
   */
  predicate EndAhead(lists: seq<seq<Pair>>, blk: nat, c: nat, b: nat) {
    var s := StandsOn(lists, blk);
    blk <= b && if b == s then c <= |ListAt(lists, b)| else c == 0 || (s < b && s < |lists|)
  }

  /**
   Storing a new key without a split takes no key from a scan.  The new key comes exactly if the end of its page is
   not yet passed.  Another key comes that would not have come exactly if the scan, at a place other than 0, was about
   to run over the empty page that now holds the new key.
   */
  lemma NewKeyDuringScan(lists: seq<seq<Pair>>, bits: set<nat>, hash: Hash, m: Contents, p: Pair, blk: nat, c: nat)
    requires Denotes(lists, bits, hash, m) && p.key !in m
    ensures var b, s := Home(bits, hash(p.key)), StandsOn(lists, blk);
            var ks, ks' := Remaining(lists, blk, c), Remaining(StoreResult(lists, bits, hash, p, 0).0, blk, c);
            && (forall k :: k in ks ==> k in ks')
            && (p.key in ks' <==> EndAhead(lists, blk, c, b))
            && ((forall k :: k in ks' ==> k in ks || k == p.key) <==> !(c > 0 && blk <= b < s < |lists|))
  {
    hide Denotes, Remaining, Home, StoreResult, Due, EndAhead, WithoutKey;
    var b, s := Home(bits, hash(p.key)), StandsOn(lists, blk);
    var ls, m' := PutList(lists, b, ListAt(lists, b) + [p]), m[p.key := p.val];
    NoSplit(lists, bits, hash, p);
    WithoutAbsent(lists, bits, hash, m, p.key);
    InsertDenotes(lists, bits, hash, m, p.key, p.val);
    DueComes(ls, bits, hash, m', blk, c, b, |ListAt(lists, b)|);
    NewKeyOwn(lists, b, p, blk, c);
    forall a: nat, e: nat | e < |ListAt(lists, a)|
      ensures ListAt(lists, a)[e].key in Remaining(lists, blk, c) <==> Due(lists, blk, c, a, e)
      ensures ListAt(lists, a)[e].key in Remaining(ls, blk, c) <==> Due(ls, blk, c, a, e)
      ensures Due(lists, blk, c, a, e) ==> Due(ls, blk, c, a, e)
      ensures Due(ls, blk, c, a, e) && !Due(lists, blk, c, a, e) <==> blk <= b < s && a == s && e < c
    {
      DueComes(lists, bits, hash, m, blk, c, a, e);
      DueComes(ls, bits, hash, m', blk, c, a, e);
      NewKeyDue(lists, b, p, blk, c, a, e);
    }
    NewKeyKeys(lists, ls, p, blk, c, b);
    if s < |lists| {
      StoredKey(lists, bits, hash, m, s, 0);
    }
  }

  /** From the places to the keys. */
  lemma NewKeyKeys(lists: seq<seq<Pair>>, ls: seq<seq<Pair>>, p: Pair, blk: nat, c: nat, b: nat)
    requires ls == PutList(lists, b, ListAt(lists, b) + [p])
    requires forall a: nat, e: nat | e < |ListAt(lists, a)| ::
               var k, s := ListAt(lists, a)[e].key, StandsOn(lists, blk);
               && (k in Remaining(lists, blk, c) ==> k in Remaining(ls, blk, c))
               && (k in Remaining(ls, blk, c) && k !in Remaining(lists, blk, c) <==> blk <= b < s && a == s && e < c)
    ensures var s, ks, ks' := StandsOn(lists, blk), Remaining(lists, blk, c), Remaining(ls, blk, c);
            && (forall k :: k in ks ==> k in ks')
            && (forall k :: k in ks' && k !in ks && k != p.key ==> c > 0 && blk <= b < s < |lists|)
            && (c > 0 && blk <= b < s < |lists| ==>
                  ListAt(lists, s)[0].key in ks' && ListAt(lists, s)[0].key !in ks)
  {
    hide Remaining, StandsOn;
    forall k | k in Remaining(lists, blk, c)
      ensures k in Remaining(ls, blk, c)
    {
      var a, e := RemainingFinds(lists, blk, c, k);
    }
    forall k | k in Remaining(ls, blk, c) && k !in Remaining(lists, blk, c) && k != p.key
      ensures c > 0 && blk <= b < StandsOn(lists, blk) < |lists|
    {
      var a, e := RemainingFinds(ls, blk, c, k);
      assert e < |ListAt(lists, a)| && ListAt(lists, a)[e].key == k;
    }
    StandsOnPairs(lists, blk);
  }

  lemma StandsOnPairs(lists: seq<seq<Pair>>, blk: nat)
    ensures StandsOn(lists, blk) < |lists| ==> ListAt(lists, StandsOn(lists, blk)) != []
  {
  }

  lemma StoredKey(lists: seq<seq<Pair>>, bits: set<nat>, hash: Hash, m: Contents, a: nat, e: nat)
    requires Denotes(lists, bits, hash, m) && e < |ListAt(lists, a)|
    ensures ListAt(lists, a)[e].key in m
  {
    assert ListAt(lists, a)[e] in ListAt(lists, a);
    assert Belongs(ListAt(lists, a)[e], a, bits, hash, m);
  }

  /** A scan that keeps to a page with pairs on it sees a new key exactly if it comes behind its place. */
  lemma NewKeyPlain(lists: seq<seq<Pair>>, bits: set<nat>, hash: Hash, m: Contents, p: Pair, blk: nat, c: nat)
    requires Denotes(lists, bits, hash, m) && p.key !in m && (c == 0 || ListAt(lists, blk) != [])
    ensures var b := Home(bits, hash(p.key));
            var ks, ks' := Remaining(lists, blk, c), Remaining(StoreResult(lists, bits, hash, p, 0).0, blk, c);
            forall k :: k in ks' <==>
              k in ks || (k == p.key && (b > blk || (b == blk && c <= |ListAt(lists, b)|)))
  {
    hide Denotes, Remaining, Home, StoreResult;
    NewKeyDuringScan(lists, bits, hash, m, p, blk, c);
    var b, s := Home(bits, hash(p.key)), StandsOn(lists, blk);
    assert EndAhead(lists, blk, c, b) <==> b > blk || (b == blk && c <= |ListAt(lists, b)|);
    if p.key in Remaining(lists, blk, c) {
      ComesStored(lists, bits, hash, m, blk, c, p.key);
    }
  }

  /** Which pairs come before and after pair `j` of page `b` was put at its end with a new value. */
  lemma ReplacedDue(lists: seq<seq<Pair>>, b: nat, j: nat, p: Pair, blk: nat, c: nat, a: nat, e: nat)
    requires j < |ListAt(lists, b)| && e < |ListAt(lists, a)|
    ensures var s, n := StandsOn(lists, blk), |ListAt(lists, b)|;
            var ls := PutList(lists, b, Without(ListAt(lists, b), j) + [p]);
            var e' := if a == b && e == j then n - 1 else Shifted(b, j, a, e);
            && (Due(lists, blk, c, a, e) && !Due(ls, blk, c, a, e') <==> a == b == s && j < c < n && e == c)
            && (Due(ls, blk, c, a, e') && !Due(lists, blk, c, a, e) <==> a == b == s && j < c < n && e == j)
  {
    StandsAfter(lists, b, Without(ListAt(lists, b), j) + [p], blk);
  }

  lemma ReplacedAt(lists: seq<seq<Pair>>, b: nat, j: nat, p: Pair, a: nat, e: nat)
    requires j < |ListAt(lists, b)| && e < |ListAt(lists, a)| && p.key == ListAt(lists, b)[j].key
    ensures var ls := PutList(lists, b, Without(ListAt(lists, b), j) + [p]);
            var e' := if a == b && e == j then |ListAt(lists, b)| - 1 else Shifted(b, j, a, e);
            e' < |ListAt(ls, a)| && ListAt(ls, a)[e'].key == ListAt(lists, a)[e].key
  {
  }

  /**
   Replacing a value without a split moves the pair to the end of its page.  This costs a scan a key exactly if the
   scan stands on that page, has passed the pair and has not passed all the others: then the key that was next is
   lost, and the key stored comes a second time.  Otherwise the same keys come.
   */
  lemma ReplaceDuringScan(lists: seq<seq<Pair>>, bits: set<nat>, hash: Hash, m: Contents, p: Pair, j: nat, blk: nat,
                          c: nat)
    requires Denotes(lists, bits, hash, m) && PrefixClosed(bits)
    requires var ps := ListAt(lists, Home(bits, hash(p.key))); j < |ps| && ps[j].key == p.key
    ensures var b := Home(bits, hash(p.key));
            var ks, ks' := Remaining(lists, blk, c), Remaining(StoreResult(lists, bits, hash, p, 0).0, blk, c);
            var moved := b == StandsOn(lists, blk) && j < c < |ListAt(lists, b)|;
            && (forall k :: k in ks && k !in ks' ==> moved && k == ListAt(lists, b)[c].key)
            && (forall k :: k in ks' && k !in ks ==> moved && k == p.key)
            && (moved ==> var x := ListAt(lists, b)[c].key; x in ks && x !in ks' && p.key in ks' && p.key !in ks)
  {
    hide Denotes, Remaining, Home, StoreResult, Due, Without, WithoutKey, PrefixClosed;
    var b, s := Home(bits, hash(p.key)), StandsOn(lists, blk);
    var ls, m' := PutList(lists, b, Without(ListAt(lists, b), j) + [p]), m[p.key := p.val];
    NoSplit(lists, bits, hash, p);
    WithoutPresent(lists, bits, hash, m, p.key, b, j);
    ResultDenotes(lists, bits, hash, m, p, 0);
    StoredKey(lists, bits, hash, m, b, j);
    forall a: nat, e: nat | e < |ListAt(lists, a)|
      ensures var k := ListAt(lists, a)[e].key;
              && (k in Remaining(lists, blk, c) && k !in Remaining(ls, blk, c) <==>
                    a == b == s && j < c < |ListAt(lists, b)| && e == c)
              && (k in Remaining(ls, blk, c) && k !in Remaining(lists, blk, c) <==>
                    a == b == s && j < c < |ListAt(lists, b)| && e == j)
    {
      var e' := if a == b && e == j then |ListAt(lists, b)| - 1 else Shifted(b, j, a, e);
      ReplacedAt(lists, b, j, p, a, e);
      DueComes(lists, bits, hash, m, blk, c, a, e);
      DueComes(ls, bits, hash, m', blk, c, a, e');
      ReplacedDue(lists, b, j, p, blk, c, a, e);
    }
    forall k | k in Remaining(lists, blk, c) || k in Remaining(ls, blk, c)
      ensures exists a: nat, e: nat :: e < |ListAt(lists, a)| && ListAt(lists, a)[e].key == k
    {
      if k in Remaining(lists, blk, c) {
        ComesStored(lists, bits, hash, m, blk, c, k);
      } else {
        ComesStored(ls, bits, hash, m', blk, c, k);
      }
      var e := StoredAt(lists, bits, hash, m, k);
    }
  }

  lemma StoredAt(lists: seq<seq<Pair>>, bits: set<nat>, hash: Hash, m: Contents, k: seq<byte>) returns (e: nat)
    requires Denotes(lists, bits, hash, m) && k in m
    ensures e < |ListAt(lists, Home(bits, hash(k)))| && ListAt(lists, Home(bits, hash(k)))[e].key == k
  {
    assert HasKey(ListAt(lists, Home(bits, hash(k))), k);
    var p :| p in ListAt(lists, Home(bits, hash(k))) && p.key == k;
    e :| 0 <= e < |ListAt(lists, Home(bits, hash(k)))| && ListAt(lists, Home(bits, hash(k)))[e] == p;
  }

  // ----- stores that split -----

  lemma {:induction false} HomeGrows(lists: seq<seq<Pair>>, bits: set<nat>, hash: Hash, h: nat, n: nat, g: nat)
    requires PrefixClosed(bits)
    ensures Home(SplitTimes(lists, bits, hash, h, n).1, g) >= Home(bits, g)
    decreases n
  {
    hide PrefixClosed, SplitLists, Home;
    if n > 0 {
      SplitHome(bits, h, g);
      SplitClosedBits(bits, h);
      HomeGrows(SplitLists(lists, bits, hash, h), SplitBits(bits, h), hash, h, n - 1, g);
    }
  }

  /** Pairs of the page that is split go up, or stay and move down. */
  lemma PlaceMoves(lists: seq<seq<Pair>>, bits: set<nat>, hash: Hash, m: Contents, p: Pair, n: nat, e: nat)
    requires Denotes(lists, bits, hash, m) && PrefixClosed(bits)
    requires var ps := ListAt(lists, Home(bits, hash(p.key))); e < |ps| && ps[e].key != p.key
    ensures var b := Home(bits, hash(p.key));
            var at := Place(lists, bits, hash, p, n, b, e);
            at.0 >= b && at.1 <= e
  {
    hide Denotes, PrefixClosed, Sifted, SplitTimes;
    var b, ps := Home(bits, hash(p.key)), ListAt(lists, Home(bits, hash(p.key)));
    var d := if e > IndexOf(ps, p.key) then e - 1 else e;
    var bs := StoreRound(lists, bits, hash, p, n).1;
    SiftedShorter(WithoutKey(ps, p.key)[..d], bs, hash, Home(bs, hash(ps[e].key)));
    HomeGrows(PutList(lists, b, WithoutKey(ps, p.key)), bits, hash, hash(p.key), n, hash(ps[e].key));
    assert ps[e] in ps;
    assert Belongs(ps[e], b, bits, hash, m) by {
      HomeOf(lists, bits, hash, m, b, e);
    }
  }

  lemma HomeOf(lists: seq<seq<Pair>>, bits: set<nat>, hash: Hash, m: Contents, a: nat, e: nat)
    requires Denotes(lists, bits, hash, m) && e < |ListAt(lists, a)|
    ensures Belongs(ListAt(lists, a)[e], a, bits, hash, m)
  {
    assert ListAt(lists, a)[e] in ListAt(lists, a);
  }

  /** No pair moves to another page that held pairs. */
  lemma PlaceFresh(lists: seq<seq<Pair>>, bits: set<nat>, hash: Hash, m: Contents, p: Pair, n: nat, e: nat, blk: nat)
    requires Denotes(lists, bits, hash, m) && PrefixClosed(bits) && ListAt(lists, blk) != []
    requires var ps := ListAt(lists, Home(bits, hash(p.key))); e < |ps| && ps[e].key != p.key
    requires blk != Home(bits, hash(p.key))
    ensures Place(lists, bits, hash, p, n, Home(bits, hash(p.key)), e).0 != blk
  {
    hide Denotes, PrefixClosed, StoreResult, Place, Home;
    var b := Home(bits, hash(p.key));
    PlacedAt(lists, bits, hash, m, p, n, b, e);
    OtherPages(lists, bits, hash, m, p, n, blk, 0);
    var at := Place(lists, bits, hash, p, n, b, e);
    if at.0 == blk {
      SamePlace(lists, bits, hash, m, b, e, blk, at.1);
    }
  }

  /**
   A store that may split, during a scan whose page holds pairs before and after it.  Pair `e` of page `a` with another
   key is lost exactly if it stood on the page of the scan, not yet passed, and now stands on it before the place of
   the scan.  It comes although it was passed exactly if the split has moved it to a page behind that of the scan.
   */
  lemma SplitDuringScan(lists: seq<seq<Pair>>, bits: set<nat>, hash: Hash, m: Contents, p: Pair, n: nat, blk: nat,
                        c: nat, a: nat, e: nat)
    requires Denotes(lists, bits, hash, m) && PrefixClosed(bits)
    requires e < |ListAt(lists, a)| && ListAt(lists, a)[e].key != p.key
    requires ListAt(lists, blk) != [] && ListAt(StoreResult(lists, bits, hash, p, n).0, blk) != []
    ensures var k, b, at := ListAt(lists, a)[e].key, Home(bits, hash(p.key)), Place(lists, bits, hash, p, n, a, e);
            var ks, ks' := Remaining(lists, blk, c), Remaining(StoreResult(lists, bits, hash, p, n).0, blk, c);
            && (k in ks && k !in ks' <==> a == b == blk && e >= c && at.0 == blk && at.1 < c)
            && (k in ks' && k !in ks <==> a == b && at.0 > blk && (blk == b ==> e < c) && blk >= b)
  {
    hide Denotes, PrefixClosed, StoreResult, Place, Home, Remaining;
    var b, db := Home(bits, hash(p.key)), StoreResult(lists, bits, hash, p, n);
    var at := Place(lists, bits, hash, p, n, a, e);
    PlacedAt(lists, bits, hash, m, p, n, a, e);
    ResultDenotes(lists, bits, hash, m, p, n);
    DueComes(lists, bits, hash, m, blk, c, a, e);
    DueComes(db.0, db.1, hash, m[p.key := p.val], blk, c, at.0, at.1);
    assert StandsOn(lists, blk) == blk && StandsOn(db.0, blk) == blk;
    if a == b {
      PlaceMoves(lists, bits, hash, m, p, n, e);
      if blk != b {
        PlaceFresh(lists, bits, hash, m, p, n, e, blk);
      }
    } else {
      PlaceElsewhere(lists, bits, hash, p, n, a, e);
    }
  }

  lemma PlaceElsewhere(lists: seq<seq<Pair>>, bits: set<nat>, hash: Hash, p: Pair, n: nat, a: nat, e: nat)
    requires e < |ListAt(lists, a)| && a != Home(bits, hash(p.key))
    ensures Place(lists, bits, hash, p, n, a, e) == (a, e)
  {
  }

  // ----- what this means for a single call -----

  lemma {:induction false} SplitsShow(lists: seq<seq<Pair>>, bits: set<nat>, hash: Hash, h: nat, n: nat)
    ensures bits <= SplitTimes(lists, bits, hash, h, n).1
    ensures n > 0 ==> Node(h, Leaf(bits, h, 0)) in SplitTimes(lists, bits, hash, h, n).1
    decreases n
  {
    hide SplitLists, Node;
    if n > 0 {
      SplitsShow(SplitLists(lists, bits, hash, h), SplitBits(bits, h), hash, h, n - 1);
    }
  }

  /** A store that leaves the directory as it was took no split. */
  lemma NoBitNoSplit(lists: seq<seq<Pair>>, bits: set<nat>, hash: Hash, p: Pair, n: nat)
    requires StoreResult(lists, bits, hash, p, n).1 == bits
    ensures n == 0
  {
    hide WithoutKey, SplitTimes;
    var b, h := Home(bits, hash(p.key)), hash(p.key);
    SplitsShow(PutList(lists, b, WithoutKey(ListAt(lists, b), p.key)), bits, hash, h, n);
  }

  /** What a store that took no split means for the scan. */
  ghost predicate ScanGoesOn(lists: seq<seq<Pair>>, bits: set<nat>, hash: Hash, m: Contents, p: Pair, blk: nat,
                             c: nat, ks': seq<seq<byte>>)
  {
    var ks, b, s := Remaining(lists, blk, c), Home(bits, hash(p.key)), StandsOn(lists, blk);
    var ps := ListAt(lists, b);
    if p.key !in m then
      && (forall k :: k in ks ==> k in ks')
      && (p.key in ks' <==> EndAhead(lists, blk, c, b))
      && ((forall k :: k in ks' ==> k in ks || k == p.key) <==> !(c > 0 && blk <= b < s < |lists|))
    else
      var j := IndexOf(ps, p.key);
      var moved := b == s && j < c < |ps|;
      && (forall k :: k in ks && k !in ks' ==> moved && k == ps[c].key)
      && (forall k :: k in ks' && k !in ks ==> moved && k == p.key)
      && (moved ==> ps[c].key in ks && ps[c].key !in ks' && p.key in ks' && p.key !in ks)
  }

  lemma ReplaceGoesOn(lists: seq<seq<Pair>>, bits: set<nat>, hash: Hash, m: Contents, p: Pair, j: nat, blk: nat,
                      c: nat)
    requires Denotes(lists, bits, hash, m) && PrefixClosed(bits) && p.key in m
    requires var ps := ListAt(lists, Home(bits, hash(p.key)));
             j < |ps| && ps[j].key == p.key && IndexOf(ps, p.key) == j
    ensures ScanGoesOn(lists, bits, hash, m, p, blk, c, Remaining(StoreResult(lists, bits, hash, p, 0).0, blk, c))
  {
    hide Denotes, PrefixClosed, StoreResult, Home, Remaining, StandsOn, ListAt, IndexOf;
    ReplaceDuringScan(lists, bits, hash, m, p, j, blk, c);
  }

  lemma AtOnce(lists: seq<seq<Pair>>, bits: set<nat>, hash: Hash, m: Contents, p: Pair, blk: nat, c: nat)
    requires Denotes(lists, bits, hash, m) && PrefixClosed(bits)
    ensures ScanGoesOn(lists, bits, hash, m, p, blk, c, Remaining(StoreResult(lists, bits, hash, p, 0).0, blk, c))
  {
    hide Denotes, PrefixClosed, StoreResult, Home, Remaining, EndAhead, StandsOn, ListAt, IndexOf;
    if p.key !in m {
      NewKeyDuringScan(lists, bits, hash, m, p, blk, c);
    } else {
      var e := StoredAt(lists, bits, hash, m, p.key);
      PlaceOf(lists, bits, hash, m, Home(bits, hash(p.key)), p.key, e);
      ReplaceGoesOn(lists, bits, hash, m, p, e, blk, c);
    }
  }

  lemma PlacedScan(lists: seq<seq<Pair>>, bits: set<nat>, hash: Hash, m: Contents, p: Pair, blk: nat, c: nat,
                   ls: seq<seq<Pair>>, bs: set<nat>)
    requires Denotes(lists, bits, hash, m) && PrefixClosed(bits) && Placed(lists, bits, hash, p, ls, bs)
    ensures forall i, j :: 0 <= i < j < |Remaining(ls, blk, c)| ==> Remaining(ls, blk, c)[i] != Remaining(ls, blk, c)[j]
    ensures bs == bits ==> ScanGoesOn(lists, bits, hash, m, p, blk, c, Remaining(ls, blk, c))
  {
    hide Denotes, PrefixClosed, StoreResult, Home, Remaining, FirstRoom, ScanGoesOn;
    var n: nat :| FirstRoom(lists, bits, hash, p, n) && (ls, bs) == StoreResult(lists, bits, hash, p, n);
    ResultDenotes(lists, bits, hash, m, p, n);
    RemainingOnce(ls, bs, hash, m[p.key := p.val], blk, c);
    if bs == bits {
      NoBitNoSplit(lists, bits, hash, p, n);
      AtOnce(lists, bits, hash, m, p, blk, c);
    }
  }

  // ----- a split that loses a key -----

  /** The first split of all parts the keys by the last bit of their hashes. */
  lemma FirstSplit(hash: Hash, p: Pair, q: Pair, h: nat)
    requires hash(p.key) % 2 == 1 && hash(q.key) % 2 == 0
    ensures SplitLists([[p, q]], {}, hash, h) == [[q], [p]] && SplitBits({}, h) == {0}
  {
    hide Half;
    assert P(0) == 1 && h % 1 == 0;
    assert Leaf({}, h, 0) == 0;
    assert Node(h, 0) == 0 && Home({}, h) == 0 && P(Leaf({}, h, 0)) == 1;
    TwoHalves(hash, p, q);
    TwoPages(p, q);
  }

  lemma TwoPages(p: Pair, q: Pair)
    ensures ListAt([[p, q]], 0) == [p, q]
    ensures PutList(PutList([[p, q]], 0, [q]), 1, [p]) == [[q], [p]]
  {
    var ls := PutList(PutList([[p, q]], 0, [q]), 1, [p]);
    assert |ls| == 2 && ls[0] == ListAt(ls, 0) && ls[1] == ListAt(ls, 1);
  }

  lemma TwoHalves(hash: Hash, p: Pair, q: Pair)
    requires hash(p.key) % 2 == 1 && hash(q.key) % 2 == 0
    ensures Half([p, q], hash, 1, false) == [q] && Half([p, q], hash, 1, true) == [p]
  {
    hide Half;
    assert [] + [p] == [p] && [p] + [q] == [p, q] && [p] + [] == [p];
    forall up
      ensures Half([p, q], hash, 1, up) == if up then [p] else [q]
    {
      HalfNone(hash, 1, up);
      HalfOf([], p, hash, 1, up);
      HalfOf([p], q, hash, 1, up);
    }
  }

  lemma SplitOnceHome(h: nat)
    ensures Home({0}, h) == h % 2
  {
    assert Node(h, 0) == 0 && Node(h, 1) == h % 2 + 1;
  }

  lemma TwoFit(p: Pair, q: Pair, r: Pair)
    requires Size(p) == Size(q) == Size(r) == 401
    ensures Fits([p, q]) && !Fits([p, q, r])
  {
    assert Top([p, q, r], 1) == PBLKSIZ - 401 && Top([p, q], 1) == PBLKSIZ - 401;
    assert Top([p, q, r], 2) == PBLKSIZ - 802;
  }

  /** One split makes room for `r` on the page of `p` and `q`. */
  lemma OneSplit(hash: Hash, p: Pair, q: Pair, r: Pair)
    requires hash(p.key) % 2 == 1 && hash(q.key) % 2 == 0 && hash(r.key) % 2 == 0
    requires p.key != r.key && q.key != r.key && Size(p) == Size(q) == Size(r) == 401
    ensures FirstRoom([[p, q]], {}, hash, r, 1)
    ensures StoreResult([[p, q]], {}, hash, r, 1) == ([[q, r], [p]], {0})
  {
    hide Fits, Home, SplitLists, SplitBits;
    var h := hash(r.key);
    assert Home({}, h) == 0 by {
      EmptyHome(h);
    }
    assert WithoutKey([p, q], r.key) == [p, q];
    assert PutList([[p, q]], 0, [p, q]) == [[p, q]];
    FirstSplit(hash, p, q, h);
    SplitNever([[p, q]], {}, hash, h);
    SplitNever([[q], [p]], {0}, hash, h);
    assert SplitTimes([[p, q]], {}, hash, h, 1) == ([[q], [p]], {0});
    SplitOnceHome(h);
    TwoFit(p, q, r);
    TwoFit(q, r, p);
    assert [p, q] + [r] == [p, q, r] && [q] + [r] == [q, r];
    assert [[q], [p]][0 := [q, r]] == [[q, r], [p]];
  }

  lemma EmptyHome(h: nat)
    ensures Home({}, h) == 0
  {
  }

  lemma TwoPairsDenote(hash: Hash, p: Pair, q: Pair)
    requires p.key != q.key
    ensures Denotes([[p, q]], {}, hash, map[p.key := p.val, q.key := q.val])
  {
    var ps := [p, q];
    assert forall h :: Home({}, h) == 0;
    assert p in ps && q in ps && ListAt([ps], 0) == ps;
    forall k | k == p.key || k == q.key
      ensures HasKey(ListAt([ps], Home({}, hash(k))), k)
    {
    }
  }

  lemma TwoPagesScan(p: Pair, q: Pair, r: Pair)
    ensures Remaining([[p, q]], 0, 1) == [q.key]
    ensures Remaining([[q, r], [p]], 0, 1) == [r.key, p.key]
  {
    assert Remaining([[p, q]], 0, 2) == Remaining([[p, q]], 1, 0) == [];
    var lists := [[q, r], [p]];
    assert Remaining(lists, 1, 1) == Remaining(lists, 2, 0) == [];
    assert Remaining(lists, 0, 2) == Remaining(lists, 1, 0) == [p.key];
  }

  /**
   Two keys on one page, "a" and "d", with values of 400 bytes.  The scan has returned "a"; then "f" is stored, and for
   that the page is split.  From there on "f" comes and "a" comes a second time, but "d" never comes.
   */
  lemma SplitLosesKey(p: Pair, q: Pair, r: Pair)
    requires p.key == [97] && q.key == [100] && r.key == [102] && |p.val| == |q.val| == |r.val| == 400
    ensures Denotes([[p, q]], {}, Dcalchash, map[p.key := p.val, q.key := q.val])
    ensures FirstRoom([[p, q]], {}, Dcalchash, r, 1)
    ensures Remaining([[p, q]], 0, 1) == [q.key]
    ensures Remaining(StoreResult([[p, q]], {}, Dcalchash, r, 1).0, 0, 1) == [r.key, p.key]
  {
    hide *;
    LetterHashes();
    ThreeLetters(p, q, r);
    SplitMoves(Dcalchash, p, q, r);
  }

  lemma ThreeLetters(p: Pair, q: Pair, r: Pair)
    requires p.key == [97] && q.key == [100] && r.key == [102] && |p.val| == |q.val| == |r.val| == 400
    ensures p.key != q.key && p.key != r.key && q.key != r.key && Size(p) == Size(q) == Size(r) == 401
  {
    assert p.key[0] != q.key[0] && p.key[0] != r.key[0] && q.key[0] != r.key[0];
  }

  lemma SplitMoves(hash: Hash, p: Pair, q: Pair, r: Pair)
    requires hash(p.key) % 2 == 1 && hash(q.key) % 2 == 0 && hash(r.key) % 2 == 0 && p.key != q.key
    requires p.key != r.key && q.key != r.key && Size(p) == Size(q) == Size(r) == 401
    ensures Denotes([[p, q]], {}, hash, map[p.key := p.val, q.key := q.val])
    ensures FirstRoom([[p, q]], {}, hash, r, 1)
    ensures Remaining([[p, q]], 0, 1) == [q.key]
    ensures Remaining(StoreResult([[p, q]], {}, hash, r, 1).0, 0, 1) == [r.key, p.key]
  {
    hide *;
    TwoPairsDenote(hash, p, q);
    OneSplit(hash, p, q, r);
    TwoPagesScan(p, q, r);
  }
}
