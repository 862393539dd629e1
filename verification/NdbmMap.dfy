/**
 What a whole ndbm database means: the lists of pairs on its pages, placed by the directory
 trie, denote a finite map from keys to values.
 */
module NdbmMap {
  import opened NdbmPage
  import opened NdbmTrie

  type Hash = seq<byte> -> nat
  type Contents = map<seq<byte>, seq<byte>>

  // ----- pages of a file -----

  /** The list on page `i`; a page beyond the end of the file is empty. */
  function ListAt(lists: seq<seq<Pair>>, i: nat): seq<Pair> {
    if i < |lists| then lists[i] else []
  }

  /** The file after a write of page `i`; a gap reads as empty pages. */
  function PutList(lists: seq<seq<Pair>>, i: nat, ps: seq<Pair>): (r: seq<seq<Pair>>)
    ensures |r| == if i < |lists| then |lists| else i + 1
    ensures forall j: nat :: ListAt(r, j) == if j == i then ps else ListAt(lists, j)
  {
    if i < |lists| then lists[i := ps]
    else lists + seq(i - |lists|, _ => []) + [ps]
  }

  lemma PutTwice(lists: seq<seq<Pair>>, i: nat, ps: seq<Pair>, qs: seq<Pair>)
    ensures PutList(PutList(lists, i, ps), i, qs) == PutList(lists, i, qs)
  {
    var r, t := PutList(PutList(lists, i, ps), i, qs), PutList(lists, i, qs);
    assert |r| == |t|;
    forall j: nat | j < |r|
      ensures r[j] == t[j]
    {
      assert ListAt(r, j) == ListAt(t, j);
    }
  }

  predicate Distinct(ps: seq<Pair>) {
    forall i, j :: 0 <= i < j < |ps| ==> ps[i].key != ps[j].key
  }

  ghost predicate HasKey(ps: seq<Pair>, k: seq<byte>) {
    exists p :: p in ps && p.key == k
  }

  /** The place of key `k` in `ps`; beyond the end if it has none. */
  function IndexOf(ps: seq<Pair>, k: seq<byte>): (j: nat)
    ensures j <= |ps| && (j < |ps| ==> ps[j].key == k)
    ensures forall i :: 0 <= i < j ==> ps[i].key != k
  {
    if ps == [] || ps[0].key == k then 0 else 1 + IndexOf(ps[1..], k)
  }

  // ----- denotation -----

  ghost predicate Belongs(p: Pair, i: nat, bits: set<nat>, hash: Hash, m: Contents) {
    Home(bits, hash(p.key)) == i && p.key in m && m[p.key] == p.val
  }

  /**
   The page lists hold exactly the entries of `m`, every key once, on the one page that its
   hash reaches through the directory.
   */
  ghost predicate Denotes(lists: seq<seq<Pair>>, bits: set<nat>, hash: Hash, m: Contents) {
    && (forall i: nat {:trigger Distinct(ListAt(lists, i))} :: Distinct(ListAt(lists, i)))
    && (forall i: nat, p {:trigger Belongs(p, i, bits, hash, m)} ::
          p in ListAt(lists, i) ==> Belongs(p, i, bits, hash, m))
    && (forall k {:trigger HasKey(ListAt(lists, Home(bits, hash(k))), k)} ::
          k in m ==> HasKey(ListAt(lists, Home(bits, hash(k))), k))
  }

  lemma EmptyDenotes(hash: Hash)
    ensures Denotes([], {}, hash, map[])
  {
  }

  /** A search of the home page decides membership. */
  lemma SearchDecides(lists: seq<seq<Pair>>, bits: set<nat>, hash: Hash, m: Contents, k: seq<byte>)
    requires Denotes(lists, bits, hash, m)
    ensures k in m <==> HasKey(ListAt(lists, Home(bits, hash(k))), k)
    ensures forall p :: p in ListAt(lists, Home(bits, hash(k))) && p.key == k ==> p == Pair(k, m[k])
  {
    var ps := ListAt(lists, Home(bits, hash(k)));
    forall p | p in ps && p.key == k
      ensures k in m && p == Pair(k, m[k])
    {
      assert Belongs(p, Home(bits, hash(k)), bits, hash, m);
    }
  }

  /** The only places to look for a key are the pages of the file, and there it is found once. */
  lemma KeyOnOnePage(lists: seq<seq<Pair>>, bits: set<nat>, hash: Hash, m: Contents, i: nat, j: nat, p: Pair, q: Pair)
    requires Denotes(lists, bits, hash, m)
    requires p in ListAt(lists, i) && q in ListAt(lists, j) && p.key == q.key
    ensures i == j && p == q
  {
    assert Belongs(p, i, bits, hash, m) && Belongs(q, j, bits, hash, m);
  }

  lemma PlaceOf(lists: seq<seq<Pair>>, bits: set<nat>, hash: Hash, m: Contents, b: nat, key: seq<byte>, j: nat)
    requires Denotes(lists, bits, hash, m) && j < |ListAt(lists, b)| && ListAt(lists, b)[j].key == key
    ensures IndexOf(ListAt(lists, b), key) == j
  {
    assert Distinct(ListAt(lists, b));
  }

  // ----- changing one page -----

  /** Rewriting one page changes the map exactly on the keys at home there. */
  lemma RewritePage(lists: seq<seq<Pair>>, bits: set<nat>, hash: Hash, m: Contents,
                    i: nat, qs: seq<Pair>, m': Contents)
    requires Denotes(lists, bits, hash, m) && Distinct(qs)
    requires forall p :: p in qs ==> Belongs(p, i, bits, hash, m')
    requires forall k :: Home(bits, hash(k)) == i ==> (k in m' ==> HasKey(qs, k))
    requires forall k :: Home(bits, hash(k)) != i ==> (k in m' <==> k in m) && (k in m ==> m'[k] == m[k])
    ensures Denotes(PutList(lists, i, qs), bits, hash, m')
  {
    var r := PutList(lists, i, qs);
    forall j: nat, p | p in ListAt(r, j)
      ensures Belongs(p, j, bits, hash, m')
    {
      if j != i {
        assert Belongs(p, j, bits, hash, m);
      }
    }
    forall k | k in m'
      ensures HasKey(ListAt(r, Home(bits, hash(k))), k)
    {
    }
  }

  lemma SamePage(lists: seq<seq<Pair>>, bits: set<nat>, hash: Hash, m: Contents, i: nat)
    requires Denotes(lists, bits, hash, m)
    ensures Denotes(PutList(lists, i, ListAt(lists, i)), bits, hash, m)
  {
    RewritePage(lists, bits, hash, m, i, ListAt(lists, i), m);
  }

  lemma HasKeyAppend(ps: seq<Pair>, p: Pair, k: seq<byte>)
    ensures HasKey(ps + [p], k) <==> HasKey(ps, k) || p.key == k
  {
    if HasKey(ps, k) {
      var q :| q in ps && q.key == k;
      assert q in ps + [p];
    }
    assert p in ps + [p];
  }

  lemma InsertDenotes(lists: seq<seq<Pair>>, bits: set<nat>, hash: Hash, m: Contents, k: seq<byte>, v: seq<byte>)
    requires Denotes(lists, bits, hash, m) && k !in m
    ensures var i := Home(bits, hash(k));
            Denotes(PutList(lists, i, ListAt(lists, i) + [Pair(k, v)]), bits, hash, m[k := v])
  {
    var i, m' := Home(bits, hash(k)), m[k := v];
    var ps := ListAt(lists, i);
    var qs := ps + [Pair(k, v)];
    SearchDecides(lists, bits, hash, m, k);
    assert Distinct(ListAt(lists, i));
    assert Distinct(qs) by {
      assert forall j :: 0 <= j < |ps| ==> ps[j] in ps;
    }
    forall p | p in qs
      ensures Belongs(p, i, bits, hash, m')
    {
      if p in ps {
        assert Belongs(p, i, bits, hash, m);
        assert p.key != k;
      }
    }
    forall x | Home(bits, hash(x)) == i && x in m'
      ensures HasKey(qs, x)
    {
      assert x != k ==> HasKey(ListAt(lists, Home(bits, hash(x))), x);
      HasKeyAppend(ps, Pair(k, v), x);
    }
    RewritePage(lists, bits, hash, m, i, qs, m');
  }

  lemma WithoutMembers(ps: seq<Pair>, j: nat, p: Pair)
    requires j < |ps| && Distinct(ps)
    ensures p in Without(ps, j) <==> p in ps && p.key != ps[j].key
    ensures Distinct(Without(ps, j))
  {
    if p in ps && p.key != ps[j].key {
      var i :| 0 <= i < |ps| && ps[i] == p;
      assert Without(ps, j)[if i < j then i else i - 1] == p;
    }
    if p in Without(ps, j) {
      var i :| 0 <= i < |ps| - 1 && Without(ps, j)[i] == p;
      assert ps[if i < j then i else i + 1] == p;
    }
  }

  lemma RemoveDenotes(lists: seq<seq<Pair>>, bits: set<nat>, hash: Hash, m: Contents, k: seq<byte>, j: nat)
    requires Denotes(lists, bits, hash, m)
    requires var ps := ListAt(lists, Home(bits, hash(k))); j < |ps| && ps[j].key == k
    ensures var i := Home(bits, hash(k));
            Denotes(PutList(lists, i, Without(ListAt(lists, i), j)), bits, hash, m - {k})
  {
    var i, m' := Home(bits, hash(k)), m - {k};
    var ps := ListAt(lists, i);
    var qs := Without(ps, j);
    assert Distinct(ListAt(lists, i));
    WithoutMembers(ps, j, ps[j]);
    forall p | p in qs
      ensures Belongs(p, i, bits, hash, m')
    {
      WithoutMembers(ps, j, p);
      assert Belongs(p, i, bits, hash, m);
    }
    forall x | Home(bits, hash(x)) == i && x in m'
      ensures HasKey(qs, x)
    {
      assert HasKey(ListAt(lists, Home(bits, hash(x))), x);
      var p :| p in ps && p.key == x;
      WithoutMembers(ps, j, p);
    }
    RewritePage(lists, bits, hash, m, i, qs, m');
  }

  // ----- splitting a page -----

  /** The pairs of `ps` whose hash has bit `w` (a power of two) equal to `up`, in order. */
  function Half(ps: seq<Pair>, hash: Hash, w: nat, up: bool): seq<Pair>
    requires w >= 1
  {
    if ps == [] then [] else
      var p := ps[|ps| - 1];
      Half(ps[..|ps| - 1], hash, w, up) + if HasBit(hash(p.key), w) == up then [p] else []
  }

  lemma {:induction false} HalfMembers(ps: seq<Pair>, hash: Hash, w: nat, up: bool, p: Pair)
    requires w >= 1
    ensures p in Half(ps, hash, w, up) <==> p in ps && HasBit(hash(p.key), w) == up
  {
    if ps != [] {
      var n := |ps| - 1;
      HalfMembers(ps[..n], hash, w, up, p);
      assert ps == ps[..n] + [ps[n]];
    }
  }

  lemma {:induction false} HalfDistinct(ps: seq<Pair>, hash: Hash, w: nat, up: bool)
    requires w >= 1 && Distinct(ps)
    ensures Distinct(Half(ps, hash, w, up))
  {
    if ps != [] {
      var n := |ps| - 1;
      var q := Half(ps[..n], hash, w, up);
      HalfDistinct(ps[..n], hash, w, up);
      forall i | 0 <= i < |q|
        ensures q[i].key != ps[n].key
      {
        HalfMembers(ps[..n], hash, w, up, q[i]);
      }
    }
  }

  /** No pair is lost or duplicated by a split, and neither half needs more room than the whole. */
  lemma {:induction false} HalvesFit(ps: seq<Pair>, hash: Hash, w: nat, up: bool)
    requires w >= 1
    ensures |Half(ps, hash, w, up)| + |Half(ps, hash, w, !up)| == |ps|
    ensures Top(Half(ps, hash, w, up), |Half(ps, hash, w, up)|) >= Top(ps, |ps|)
    ensures Top(Half(ps, hash, w, !up), |Half(ps, hash, w, !up)|) >= Top(ps, |ps|)
  {
    if ps != [] {
      var n := |ps| - 1;
      HalvesFit(ps[..n], hash, w, up);
      assert ps == ps[..n] + [ps[n]];
      TopAppend(ps[..n], [ps[n]], n);
      var q, r := Half(ps[..n], hash, w, up), Half(ps[..n], hash, w, !up);
      TopAppend(q, [ps[n]], |q|);
      TopAppend(r, [ps[n]], |r|);
      assert q + [] == q && r + [] == r;
    }
  }

  /** The lists after the halves of `ps` were written to pages `b` and `b + w`. */
  function PutHalves(lists: seq<seq<Pair>>, b: nat, w: nat, hash: Hash, ps: seq<Pair>): seq<seq<Pair>>
    requires w >= 1
  {
    PutList(PutList(lists, b, Half(ps, hash, w, false)), b + w, Half(ps, hash, w, true))
  }

  /** The lists after the leaf of hash `h` has been split. */
  ghost function SplitLists(lists: seq<seq<Pair>>, bits: set<nat>, hash: Hash, h: nat): seq<seq<Pair>> {
    PutHalves(lists, Home(bits, h), P(Leaf(bits, h, 0)), hash, ListAt(lists, Home(bits, h)))
  }

  lemma SplitListsOf(lists: seq<seq<Pair>>, bits: set<nat>, hash: Hash, h: nat, ps: seq<Pair>)
    ensures SplitLists(PutList(lists, Home(bits, h), ps), bits, hash, h)
         == PutHalves(lists, Home(bits, h), P(Leaf(bits, h, 0)), hash, ps)
  {
    PutTwice(lists, Home(bits, h), ps, Half(ps, hash, P(Leaf(bits, h, 0)), false));
  }

  /** A split moves pairs between pages and leaves the map alone. */
  lemma SplitDenotes(lists: seq<seq<Pair>>, bits: set<nat>, hash: Hash, m: Contents, h: nat)
    requires Denotes(lists, bits, hash, m) && PrefixClosed(bits)
    ensures Denotes(SplitLists(lists, bits, hash, h), bits + {Node(h, Leaf(bits, h, 0))}, hash, m)
  {
    var b, w := Home(bits, h), P(Leaf(bits, h, 0));
    var bits' := bits + {Node(h, Leaf(bits, h, 0))};
    var ps := ListAt(lists, b);
    var r := SplitLists(lists, bits, hash, h);
    HalfDistinct(ps, hash, w, false);
    HalfDistinct(ps, hash, w, true);
    forall i: nat, p | p in ListAt(r, i)
      ensures Belongs(p, i, bits', hash, m)
    {
      SplitPlaces(lists, bits, hash, m, h, i, p);
    }
    forall k | k in m
      ensures HasKey(ListAt(r, Home(bits', hash(k))), k)
    {
      SplitKeeps(lists, bits, hash, m, h, k);
    }
  }

  lemma SplitPlaces(lists: seq<seq<Pair>>, bits: set<nat>, hash: Hash, m: Contents, h: nat, i: nat, p: Pair)
    requires Denotes(lists, bits, hash, m) && PrefixClosed(bits)
    requires p in ListAt(SplitLists(lists, bits, hash, h), i)
    ensures Belongs(p, i, bits + {Node(h, Leaf(bits, h, 0))}, hash, m)
  {
    var b, w := Home(bits, h), P(Leaf(bits, h, 0));
    SplitHome(bits, h, hash(p.key));
    SplitFresh(bits, h, hash(p.key));
    HalfMembers(ListAt(lists, b), hash, w, false, p);
    HalfMembers(ListAt(lists, b), hash, w, true, p);
    assert Belongs(p, if i == b + w then b else i, bits, hash, m);
  }

  lemma SplitKeeps(lists: seq<seq<Pair>>, bits: set<nat>, hash: Hash, m: Contents, h: nat, k: seq<byte>)
    requires Denotes(lists, bits, hash, m) && PrefixClosed(bits) && k in m
    ensures HasKey(ListAt(SplitLists(lists, bits, hash, h),
                          Home(bits + {Node(h, Leaf(bits, h, 0))}, hash(k))), k)
  {
    var b, w, i := Home(bits, h), P(Leaf(bits, h, 0)), Home(bits, hash(k));
    var up := HasBit(hash(k), w);
    SplitHome(bits, h, hash(k));
    SplitFresh(bits, h, hash(k));
    assert HasKey(ListAt(lists, Home(bits, hash(k))), k);
    var p :| p in ListAt(lists, i) && p.key == k;
    HalfMembers(ListAt(lists, b), hash, w, up, p);
    SplitPage(lists, b, w, hash, ListAt(lists, b), i, up);
  }

  /** What the pages look like after the halves of `ps` were written. */
  lemma SplitPage(lists: seq<seq<Pair>>, b: nat, w: nat, hash: Hash, ps: seq<Pair>, i: nat, up: bool)
    requires w >= 1 && i != b + w
    ensures ListAt(PutHalves(lists, b, w, hash, ps), if i != b then i else b + (if up then w else 0))
         == if i != b then ListAt(lists, i) else Half(ps, hash, w, up)
  {
  }
}
