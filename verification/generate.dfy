/**
  Pair filtering and similarity matching (generate.py).

  A distance matrix over a list of crops is thresholded into index pairs; the
  pairs are put in canonical (sorted) form, deduplicated and pruned; the crops
  no surviving pair mentions are dropped; and, when a prefix is given, every
  index is renamed to `prefix + str(index)` so that the face and object
  results can be merged into one namespace.
 */
module Generate {

  /** One crop, as load_images builds it: the crop's file, its bounding box,
      the id of the parent image it was cut from, and the parent's file. */
  datatype Item = Item(path: string, bbox: seq<real>, imid: string, impath: string)

  /** A pair of positions in the list of crops. */
  type Pair = (nat, nat)

  /** Parent images whose coarse distance is not above this are near-duplicates. */
  const CoarseThreshold: real := 0.5

  // ---------------------------------------------------------------------------
  // filter_pairs
  // ---------------------------------------------------------------------------

  /** `tuple(sorted(p))` */
  function Sorted(p: Pair): (r: Pair)
    ensures r.0 <= r.1
    ensures r == p || r == (p.1, p.0)
  {
    if p.0 <= p.1 then p else (p.1, p.0)
  }

  /** Every pair indexes the list of crops. */
  predicate InRange(pairs: set<Pair>, n: nat)
  {
    forall p :: p in pairs ==> p.0 < n && p.1 < n
  }

  /** `set(tuple(sorted(p)) for p in pairs)`: permutations collapse to one pair. */
  function Canonical(pairs: set<Pair>): (r: set<Pair>)
    ensures forall p :: p in pairs ==> Sorted(p) in r
    ensures forall q :: q in r ==> q.0 <= q.1 && (q in pairs || (q.1, q.0) in pairs)
    ensures forall n: nat :: InRange(pairs, n) ==> InRange(r, n)
  {
    set p | p in pairs :: Sorted(p)
  }

  /** The two cheap checks: not a self-pair, and not two crops of one parent image. */
  predicate CheapOk(p: Pair, images: seq<Item>)
    requires p.0 < |images| && p.1 < |images|
  {
    p.0 != p.1 && images[p.0].imid != images[p.1].imid
  }

  /** The whole test of the comprehension; `&&` short-circuits as in Python, so the
      coarse comparator is only applied to pairs that passed the cheap checks. */
  predicate Survives(p: Pair, images: seq<Item>, coarse: (string, string) -> real)
    requires p.0 < |images| && p.1 < |images|
  {
    CheapOk(p, images) && coarse(images[p.0].impath, images[p.1].impath) > CoarseThreshold
  }

  /** filter_pairs: the canonical forms of the input pairs that pass all three tests. */
  function FilterPairs(pairs: set<Pair>, images: seq<Item>, coarse: (string, string) -> real): (r: set<Pair>)
    requires InRange(pairs, |images|)
    ensures forall p :: p in r ==> p.0 < p.1 < |images| && Survives(p, images, coarse)
    ensures forall p :: p in r ==> p in pairs || (p.1, p.0) in pairs
    ensures forall p :: p in pairs && Survives(Sorted(p), images, coarse) ==> Sorted(p) in r
  {
    set p | p in Canonical(pairs) && Survives(p, images, coarse)
  }

  /** The pairs on which filter_pairs calls the coarse comparator. */
  function CoarseQueries(pairs: set<Pair>, images: seq<Item>): (r: set<Pair>)
    requires InRange(pairs, |images|)
    ensures forall q :: q in r ==> q.0 < q.1 < |images| && images[q.0].imid != images[q.1].imid
    ensures forall q :: q in r ==> q in pairs || (q.1, q.0) in pairs
    ensures forall p :: p in pairs && CheapOk(Sorted(p), images) ==> Sorted(p) in r
  {
    set p | p in Canonical(pairs) && CheapOk(p, images)
  }

  /** The comparator is consulted only on CoarseQueries: two comparators that agree
      there give the same result, whatever they answer for any other pair. */
  lemma FilterConsultsOnlyQueries(pairs: set<Pair>, images: seq<Item>,
                                  c1: (string, string) -> real, c2: (string, string) -> real)
    requires InRange(pairs, |images|)
    requires forall q :: q in CoarseQueries(pairs, images) ==>
               c1(images[q.0].impath, images[q.1].impath) == c2(images[q.0].impath, images[q.1].impath)
    ensures FilterPairs(pairs, images, c1) == FilterPairs(pairs, images, c2)
  {
    forall p | p in FilterPairs(pairs, images, c1)
      ensures p in FilterPairs(pairs, images, c2)
    {
      assert p in CoarseQueries(pairs, images);
    }
    forall p | p in FilterPairs(pairs, images, c2)
      ensures p in FilterPairs(pairs, images, c1)
    {
      assert p in CoarseQueries(pairs, images);
    }
  }

  /** Both orders of one pair give at most one output pair, the sorted one. */
  lemma PermutationsCollapse(pairs: set<Pair>, images: seq<Item>, coarse: (string, string) -> real, i: nat, j: nat)
    requires InRange(pairs, |images|)
    requires (i, j) in pairs && (j, i) in pairs
    ensures !((i, j) in FilterPairs(pairs, images, coarse) && (j, i) in FilterPairs(pairs, images, coarse))
    ensures Survives(Sorted((i, j)), images, coarse) <==> Sorted((i, j)) in FilterPairs(pairs, images, coarse)
  {
  }

  /** Running filter_pairs on its own output changes nothing. */
  lemma FilterIdempotent(pairs: set<Pair>, images: seq<Item>, coarse: (string, string) -> real)
    requires InRange(pairs, |images|)
    ensures InRange(FilterPairs(pairs, images, coarse), |images|)
    ensures FilterPairs(FilterPairs(pairs, images, coarse), images, coarse) == FilterPairs(pairs, images, coarse)
  {
    var once := FilterPairs(pairs, images, coarse);
    forall p | p in once
      ensures p in FilterPairs(once, images, coarse)
    {
      assert Sorted(p) == p;
    }
  }

  // ---------------------------------------------------------------------------
  // get_similar
  // ---------------------------------------------------------------------------

  /** The comparator returns an n-by-n matrix for n crops. */
  predicate IsMatrix(dists: seq<seq<real>>, n: nat)
  {
    |dists| == n && forall i :: 0 <= i < n ==> |dists[i]| == n
  }

  /** `np.argwhere(dists <= thresh)`: every position at or below the threshold. */
  function Candidates(dists: seq<seq<real>>, thresh: real): (r: set<Pair>)
    requires IsMatrix(dists, |dists|)
    ensures InRange(r, |dists|)
    ensures forall i: nat, j: nat :: i < |dists| && j < |dists| ==> ((i, j) in r <==> dists[i][j] <= thresh)
  {
    set i: nat, j: nat | i < |dists| && j < |dists| && dists[i][j] <= thresh :: (i, j)
  }

  /** `set(chain(*pairs))` */
  function Endpoints(pairs: set<Pair>): (r: set<nat>)
    ensures forall k :: k in r <==> exists p :: p in pairs && (k == p.0 || k == p.1)
  {
    (set p | p in pairs :: p.0) + (set p | p in pairs :: p.1)
  }

  /** What get_similar returns before any renaming: the surviving pairs and the
      crops they mention, keyed by position. */
  datatype Matches = Matches(pairs: set<Pair>, items: map<nat, Item>)

  /** get_similar without a prefix. */
  function Similar(images: seq<Item>, thresh: real, dists: seq<seq<real>>, coarse: (string, string) -> real): (r: Matches)
    requires IsMatrix(dists, |images|)
    ensures forall p :: p in r.pairs ==>
              && p.0 < p.1 < |images|
              && Survives(p, images, coarse)
              && (dists[p.0][p.1] <= thresh || dists[p.1][p.0] <= thresh)
    ensures forall i: nat, j: nat ::
              i < |images| && j < |images| && dists[i][j] <= thresh && Survives(Sorted((i, j)), images, coarse)
              ==> Sorted((i, j)) in r.pairs
    ensures forall k :: k in r.items <==> exists p :: p in r.pairs && (k == p.0 || k == p.1)
    ensures forall k :: k in r.items ==> k < |images| && r.items[k] == images[k]
  {
    var cands := Candidates(dists, thresh);
    var pairs := FilterPairs(cands, images, coarse);
    assert forall p :: p in pairs ==> p in cands || (p.1, p.0) in cands;
    var items := map idx | idx in Endpoints(pairs) :: images[idx];
    assert items.Keys == Endpoints(pairs);
    Matches(pairs, items)
  }

  /** No crops, no matches. */
  lemma SimilarOfNothing(thresh: real, coarse: (string, string) -> real)
    ensures Similar([], thresh, [], coarse) == Matches({}, map[])
  {
    var r := Similar([], thresh, [], coarse);
    if p :| p in r.pairs {
      assert false;
    }
  }

  // ---------------------------------------------------------------------------
  // Prefixes: '{}{}'.format(prefix, index)
  // ---------------------------------------------------------------------------

  predicate IsDigit(c: char)
  {
    '0' <= c <= '9'
  }

  predicate NoDigits(s: string)
  {
    forall i :: 0 <= i < |s| ==> !IsDigit(s[i])
  }

  function DigitChar(d: nat): (c: char)
    requires d < 10
    ensures IsDigit(c)
  {
    "0123456789"[d]
  }

  function DigitValue(c: char): nat
  {
    if IsDigit(c) then c as nat - '0' as nat else 0
  }

  /** `str(n)` for a non-negative integer: decimal digits, no leading zero. */
  function Decimal(n: nat): (s: string)
    ensures |s| >= 1
    ensures forall i :: 0 <= i < |s| ==> IsDigit(s[i])
    ensures |s| == 1 <==> n < 10
    ensures s[0] != '0' || n == 0
  {
    if n < 10 then [DigitChar(n)] else Decimal(n / 10) + [DigitChar(n % 10)]
  }

  /** The value a string of decimal digits denotes. */
  function ParseDecimal(s: string): nat
  {
    if s == [] then 0 else 10 * ParseDecimal(s[..|s| - 1]) + DigitValue(s[|s| - 1])
  }

  lemma {:induction false} DecimalRoundTrip(n: nat)
    ensures ParseDecimal(Decimal(n)) == n
  {
    if n >= 10 {
      DecimalRoundTrip(n / 10);
      var s := Decimal(n);
      assert s[..|s| - 1] == Decimal(n / 10);
    }
  }

  /** A prefixed index determines the index. */
  lemma PrefixedInjective(prefix: string, a: nat, b: nat)
    requires prefix + Decimal(a) == prefix + Decimal(b)
    ensures a == b
  {
    assert (prefix + Decimal(a))[|prefix|..] == Decimal(a);
    assert (prefix + Decimal(b))[|prefix|..] == Decimal(b);
    DecimalRoundTrip(a);
    DecimalRoundTrip(b);
  }

  /** Keys from two different digit-free prefixes never collide. */
  lemma PrefixesDisjoint(p: string, q: string, a: nat, b: nat)
    requires NoDigits(p) && NoDigits(q) && p != q
    ensures p + Decimal(a) != q + Decimal(b)
  {
    var s, t := p + Decimal(a), q + Decimal(b);
    if |p| == |q| {
      assert s[..|p|] == p && t[..|q|] == q;
    } else if |p| < |q| {
      assert IsDigit(s[|p|]) && !IsDigit(t[|p|]);
    } else {
      assert !IsDigit(s[|q|]) && IsDigit(t[|q|]);
    }
  }

  function Name(prefix: string, k: nat): string
  {
    prefix + Decimal(k)
  }

  function NamePair(prefix: string, p: Pair): (string, string)
  {
    (Name(prefix, p.0), Name(prefix, p.1))
  }

  /** `{f(x) for x in s}` */
  function Image<A, B>(s: set<A>, f: A -> B): set<B>
  {
    set x | x in s :: f(x)
  }

  /** The image of a set under a function that is one-to-one on it has the set's size. */
  lemma {:induction false} InjectiveImageSize<A, B>(s: set<A>, f: A -> B)
    requires forall x, y :: x in s && y in s && f(x) == f(y) ==> x == y
    ensures |Image(s, f)| == |s|
  {
    if s != {} {
      var x :| x in s;
      var rest := s - {x};
      InjectiveImageSize(rest, f);
      assert Image(s, f) == Image(rest, f) + {f(x)};
    }
  }

  lemma NameInjective(prefix: string)
    ensures forall a: nat, b: nat :: Name(prefix, a) == Name(prefix, b) ==> a == b
  {
    forall a: nat, b: nat | Name(prefix, a) == Name(prefix, b) ensures a == b {
      PrefixedInjective(prefix, a, b);
    }
  }

  /** The renamed pair list: `[(prefix + str(a), prefix + str(b)) for a, b in pairs]`. */
  function NamePairs(prefix: string, pairs: set<Pair>): (r: set<(string, string)>)
    ensures forall p :: p in pairs <==> NamePair(prefix, p) in r
    ensures forall x, y :: (x, y) in r ==> exists p :: p in pairs && (x, y) == NamePair(prefix, p)
    ensures |r| == |pairs|
  {
    NameInjective(prefix);
    InjectiveImageSize(pairs, p => NamePair(prefix, p));
    Image(pairs, p => NamePair(prefix, p))
  }

  /** The renamed crop map: `{prefix + str(k): v for k, v in images.items()}`. */
  function NameItems(prefix: string, items: map<nat, Item>): (r: map<string, Item>)
    ensures forall k :: k in items <==> Name(prefix, k) in r
    ensures forall key :: key in r ==> exists k :: k in items && key == Name(prefix, k)
    ensures forall k :: k in items ==> r[Name(prefix, k)] == items[k]
    ensures |r| == |items|
  {
    NameInjective(prefix);
    InjectiveImageSize(items.Keys, k => Name(prefix, k));
    var r := map k | k in items :: Name(prefix, k) := items[k];
    assert r.Keys == Image(items.Keys, k => Name(prefix, k));
    r
  }

  /** get_similar's results after renaming every index to `prefix + str(index)`. */
  datatype NamedMatches = NamedMatches(pairs: set<(string, string)>, items: map<string, Item>)

  /** The renaming get_similar applies when a prefix is given. */
  function Namespace(prefix: string, m: Matches): (r: NamedMatches)
    ensures forall p :: p in m.pairs <==> NamePair(prefix, p) in r.pairs
    ensures forall x, y :: (x, y) in r.pairs ==> exists p :: p in m.pairs && (x, y) == NamePair(prefix, p)
    ensures |r.pairs| == |m.pairs|
    ensures forall k :: k in m.items <==> Name(prefix, k) in r.items
    ensures forall key :: key in r.items ==> exists k :: k in m.items && key == Name(prefix, k)
    ensures forall k :: k in m.items ==> r.items[Name(prefix, k)] == m.items[k]
    ensures |r.items| == |m.items|
  {
    NamedMatches(NamePairs(prefix, m.pairs), NameItems(prefix, m.items))
  }

  /** Two different digit-free prefixes, such as 'f' and 'o', name disjoint key sets. */
  lemma NamesDisjoint(p: string, q: string)
    requires NoDigits(p) && NoDigits(q) && p != q
    ensures forall a: nat, b: nat :: Name(p, a) != Name(q, b)
  {
    forall a: nat, b: nat ensures Name(p, a) != Name(q, b) {
      PrefixesDisjoint(p, q, a, b);
    }
  }

  /** `images = {**faces, **objects}`: with prefixes 'f' and 'o' (or any two
      different digit-free prefixes) the merged map keeps every entry of both. */
  lemma MergeKeepsItems(p: string, q: string, mp: Matches, mq: Matches)
    requires NoDigits(p) && NoDigits(q) && p != q
    ensures Namespace(p, mp).items.Keys !! Namespace(q, mq).items.Keys
    ensures |Namespace(p, mp).items + Namespace(q, mq).items| == |mp.items| + |mq.items|
    ensures forall k :: k in mp.items ==> (Namespace(p, mp).items + Namespace(q, mq).items)[Name(p, k)] == mp.items[k]
    ensures forall k :: k in mq.items ==> (Namespace(p, mp).items + Namespace(q, mq).items)[Name(q, k)] == mq.items[k]
  {
    var np, nq := Namespace(p, mp).items, Namespace(q, mq).items;
    assert np.Keys !! nq.Keys by {
      NamesDisjoint(p, q);
    }
    assert (np + nq).Keys == np.Keys + nq.Keys;
  }

  /** `pairs = fpairs + opairs`: the two renamed pair lists share no pair, so the
      concatenation holds every pair of both. */
  lemma MergeKeepsPairs(p: string, q: string, mp: Matches, mq: Matches)
    requires NoDigits(p) && NoDigits(q) && p != q
    ensures Namespace(p, mp).pairs !! Namespace(q, mq).pairs
    ensures |Namespace(p, mp).pairs + Namespace(q, mq).pairs| == |mp.pairs| + |mq.pairs|
  {
    var np, nq := Namespace(p, mp).pairs, Namespace(q, mq).pairs;
    NamesDisjoint(p, q);
    forall x | x in np ensures x !in nq {
      var a :| a in mp.pairs && x == NamePair(p, a);
      assert forall b :: b in mq.pairs ==> x.0 != Name(q, b.0);
    }
  }
}
