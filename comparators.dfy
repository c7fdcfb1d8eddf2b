/** The comment ranking of the analyze view: the property comparator and its
    ascending variant, the tie-breaker, the four ranking comparators, and the
    sort that the collection performs with the chosen one. A comparator
    returns a number whose sign says which comment comes first: negative puts
    `a` before `b`. */
module Comparators {
  import opened Common

  /** The numeric properties a comparator reads with `get`. */
  datatype Property = AgreeCount | DisagreeCount | StarCount | CreatedAt

  function Get(c: Comment, p: Property): (r: int)
    ensures p == AgreeCount ==> r == c.A
    ensures p == DisagreeCount ==> r == c.D
    ensures p == StarCount ==> r == c.stars
    ensures p == CreatedAt ==> r == c.created
  {
    match p
    case AgreeCount => c.A
    case DisagreeCount => c.D
    case StarCount => c.stars
    case CreatedAt => c.created
  }

  /** JavaScript's `x || y` on numbers: `x` unless it is 0. */
  function Or(x: int, y: int): (r: int)
    ensures r == 0 <==> x == 0 && y == 0
    ensures r < 0 <==> x < 0 || (x == 0 && y < 0)
  {
    if x != 0 then x else y
  }

  /** `bbCompare`: the larger value of the property comes first. */
  function BbCompare(p: Property, a: Comment, b: Comment): (r: int)
    ensures r < 0 <==> Get(a, p) > Get(b, p)
    ensures r == 0 <==> Get(a, p) == Get(b, p)
  {
    Get(b, p) - Get(a, p)
  }

  /** `bbCompareAscending`: the smaller value of the property comes first. */
  function BbCompareAscending(p: Property, a: Comment, b: Comment): (r: int)
    ensures r < 0 <==> Get(a, p) < Get(b, p)
    ensures r == 0 <==> Get(a, p) == Get(b, p)
  {
    -BbCompare(p, a, b)
  }

  /** `compareTieBreaker`: more stars first, then the shorter text, then the
      newer comment. Zero only when all three agree; there is no id fallback. */
  function TieBreak(a: Comment, b: Comment): (r: int)
    ensures r == 0 <==> a.stars == b.stars && |a.txt| == |b.txt| && a.created == b.created
    ensures r < 0 <==>
      a.stars > b.stars
      || (a.stars == b.stars && |a.txt| < |b.txt|)
      || (a.stars == b.stars && |a.txt| == |b.txt| && a.created > b.created)
  {
    Or(BbCompare(StarCount, a, b), Or(|a.txt| - |b.txt|, BbCompare(CreatedAt, a, b)))
  }

  /** `comparatorAgree`: more agrees first, then fewer disagrees, then the
      tie-breaker. */
  function ComparatorAgree(a: Comment, b: Comment): (r: int)
    ensures r < 0 <==>
      a.A > b.A
      || (a.A == b.A && a.D < b.D)
      || (a.A == b.A && a.D == b.D && TieBreak(a, b) < 0)
    ensures r == 0 <==> a.A == b.A && a.D == b.D && TieBreak(a, b) == 0
    ensures a.A != b.A || a.D != b.D || r == TieBreak(a, b)
  {
    Or(BbCompare(AgreeCount, a, b), Or(BbCompareAscending(DisagreeCount, a, b), TieBreak(a, b)))
  }

  /** `comparatorDisagree`: more disagrees first, then fewer agrees, then the
      tie-breaker. */
  function ComparatorDisagree(a: Comment, b: Comment): (r: int)
    ensures r < 0 <==>
      a.D > b.D
      || (a.D == b.D && a.A < b.A)
      || (a.D == b.D && a.A == b.A && TieBreak(a, b) < 0)
    ensures r == 0 <==> a.A == b.A && a.D == b.D && TieBreak(a, b) == 0
    ensures a.A != b.A || a.D != b.D || r == TieBreak(a, b)
  {
    Or(BbCompare(DisagreeCount, a, b), Or(BbCompareAscending(AgreeCount, a, b), TieBreak(a, b)))
  }

  /** The divisive score A·D/(A+D+1) as an exact fraction; the `+ 1` keeps the
      denominator at least 1. */
  function Score(c: Comment): (r: real)
    ensures r >= 0.0
    ensures r * (c.A + c.D + 1) as real == (c.A * c.D) as real
    ensures r == 0.0 <==> c.A == 0 || c.D == 0
  {
    (c.A * c.D) as real / (c.A + c.D + 1) as real
  }

  /** A quotient comparison over positive denominators is a cross-product
      comparison. */
  lemma QuotientOrder(p: int, s: int, q: int, t: int)
    requires s > 0 && t > 0
    ensures (p as real / s as real < q as real / t as real) <==> p * t < q * s
    ensures (p as real / s as real == q as real / t as real) <==> p * t == q * s
  {
    var u, v := p as real / s as real, q as real / t as real;
    assert u * s as real == p as real;
    assert v * t as real == q as real;
    assert (p * t) as real == u * (s as real * t as real);
    assert (q * s) as real == v * (s as real * t as real);
  }

  /** `b_product/b_sum - a_product/a_sum`, compared exactly: the numerator of
      that difference over the common (positive) denominator. */
  function DivisiveDifference(a: Comment, b: Comment): (r: int)
    ensures r < 0 <==> Score(a) > Score(b)
    ensures r == 0 <==> Score(a) == Score(b)
  {
    var bProduct, aProduct := b.A * b.D, a.A * a.D;
    var bSum, aSum := b.A + b.D + 1, a.A + a.D + 1;
    QuotientOrder(aProduct, aSum, bProduct, bSum);
    bProduct * aSum - aProduct * bSum
  }

  /** `comparatorDivisive`: the higher divisive score first, then fewer agrees,
      then the tie-breaker. */
  function ComparatorDivisive(a: Comment, b: Comment): (r: int)
    ensures r < 0 <==>
      Score(a) > Score(b)
      || (Score(a) == Score(b) && a.A < b.A)
      || (Score(a) == Score(b) && a.A == b.A && TieBreak(a, b) < 0)
    ensures r == 0 <==> Score(a) == Score(b) && a.A == b.A && TieBreak(a, b) == 0
  {
    Or(DivisiveDifference(a, b), Or(BbCompareAscending(AgreeCount, a, b), TieBreak(a, b)))
  }

  /** `comparatorStars`: more stars first, then the tie-breaker (which compares
      the stars once more before the text length). */
  function ComparatorStars(a: Comment, b: Comment): (r: int)
    ensures r < 0 <==> TieBreak(a, b) < 0
    ensures r == 0 <==> TieBreak(a, b) == 0
  {
    Or(BbCompare(StarCount, a, b), TieBreak(a, b))
  }

  /** The comparator the collection holds. */
  datatype Mode = Agree | Disagree | Divisive | Stars

  function Compare(m: Mode, a: Comment, b: Comment): int
  {
    match m
    case Agree => ComparatorAgree(a, b)
    case Disagree => ComparatorDisagree(a, b)
    case Divisive => ComparatorDivisive(a, b)
    case Stars => ComparatorStars(a, b)
  }

  lemma TieBreakAntisymmetric(a: Comment, b: Comment)
    ensures TieBreak(a, b) == -TieBreak(b, a)
  {
  }

  /** Every comparator is antisymmetric: swapping the arguments negates it. */
  lemma CompareAntisymmetric(m: Mode, a: Comment, b: Comment)
    ensures Compare(m, a, b) == -Compare(m, b, a)
  {
    TieBreakAntisymmetric(a, b);
    if m == Divisive {
      assert DivisiveDifference(a, b) == -DivisiveDifference(b, a);
    }
  }

  /** Every comparator is transitive as a "not after" relation, so together
      with antisymmetry it is a total preorder and sorting with it is
      well defined. */
  lemma CompareTransitive(m: Mode, a: Comment, b: Comment, c: Comment)
    requires Compare(m, a, b) <= 0 && Compare(m, b, c) <= 0
    ensures Compare(m, a, c) <= 0
  {
  }

  /** No comparator falls back to the id or the text itself: two comments with
      the same votes, stars, text length and creation time compare equal,
      whatever their ids. */
  lemma DistinctCommentsMayTie(m: Mode, a: Comment, b: Comment)
    requires a.A == b.A && a.D == b.D && a.stars == b.stars
    requires |a.txt| == |b.txt| && a.created == b.created
    ensures Compare(m, a, b) == 0
  {
  }

  /** `s` is ordered by the comparator: no comment is ranked after a later one. */
  predicate Sorted(m: Mode, s: seq<Comment>)
  {
    forall i, j :: 0 <= i < j < |s| ==> Compare(m, s[i], s[j]) <= 0
  }

  /** Inserts `x` before the first comment it does not rank after. */
  function Insert(m: Mode, x: Comment, s: seq<Comment>): (r: seq<Comment>)
    ensures multiset(r) == multiset(s) + multiset{x}
  {
    if s == [] then [x]
    else if Compare(m, x, s[0]) <= 0 then [x] + s
    else
      assert s == [s[0]] + s[1..];
      [s[0]] + Insert(m, x, s[1..])
  }

  /** The collection's `sort` with comparator `m`: a stable insertion sort. */
  function SortBy(m: Mode, s: seq<Comment>): (r: seq<Comment>)
    ensures multiset(r) == multiset(s)
  {
    if s == [] then []
    else
      assert s == [s[0]] + s[1..];
      Insert(m, s[0], SortBy(m, s[1..]))
  }

  /** Putting `x` in front of an ordered sequence whose head it does not rank
      after keeps it ordered. */
  lemma ConsSorted(m: Mode, x: Comment, s: seq<Comment>)
    requires Sorted(m, s)
    requires forall y | y in s :: Compare(m, x, y) <= 0
    ensures Sorted(m, [x] + s)
  {
    var r := [x] + s;
    forall i, j | 0 <= i < j < |r| ensures Compare(m, r[i], r[j]) <= 0 {
      if i == 0 {
        assert r[j] == s[j - 1];
        assert r[j] in s;
      } else {
        assert r[i] == s[i - 1] && r[j] == s[j - 1];
      }
    }
  }

  /** The tail of an ordered sequence is ordered. */
  lemma SortedTail(m: Mode, s: seq<Comment>)
    requires Sorted(m, s) && s != []
    ensures Sorted(m, s[1..])
  {
    forall i, j | 0 <= i < j < |s[1..]| ensures Compare(m, s[1..][i], s[1..][j]) <= 0 {
      assert s[1..][i] == s[i + 1] && s[1..][j] == s[j + 1];
    }
  }

  /** Inserting the head of an ordered sequence in front of its tail gives the
      sequence back. */
  lemma InsertAtHead(m: Mode, s: seq<Comment>)
    requires Sorted(m, s) && s != []
    ensures Insert(m, s[0], s[1..]) == s
  {
    if |s| > 1 {
      assert Compare(m, s[0], s[1]) <= 0;
      assert s[1..][0] == s[1];
    }
    assert [s[0]] + s[1..] == s;
  }

  lemma {:induction false} InsertSorted(m: Mode, x: Comment, s: seq<Comment>)
    requires Sorted(m, s)
    ensures Sorted(m, Insert(m, x, s))
  {
    if s == [] {
    } else if Compare(m, x, s[0]) <= 0 {
      forall y | y in s ensures Compare(m, x, y) <= 0 {
        var k :| 0 <= k < |s| && s[k] == y;
        if k > 0 {
          CompareTransitive(m, x, s[0], y);
        }
      }
      ConsSorted(m, x, s);
    } else {
      var rest := Insert(m, x, s[1..]);
      SortedTail(m, s);
      InsertSorted(m, x, s[1..]);
      CompareAntisymmetric(m, x, s[0]);
      forall y | y in rest ensures Compare(m, s[0], y) <= 0 {
        assert y in multiset(rest);
        assert y in multiset(s[1..]) || y == x;
        if y != x {
          assert y in s[1..];
          var k :| 0 <= k < |s[1..]| && s[1..][k] == y;
          assert s[k + 1] == y;
        }
      }
      ConsSorted(m, s[0], rest);
    }
  }

  /** Sorting gives a permutation of its input, ordered by the comparator. */
  lemma {:induction false} SortBySorted(m: Mode, s: seq<Comment>)
    ensures Sorted(m, SortBy(m, s))
    ensures multiset(SortBy(m, s)) == multiset(s)
  {
    if s != [] {
      SortBySorted(m, s[1..]);
      InsertSorted(m, s[0], SortBy(m, s[1..]));
    }
  }

  /** Sorting an already ordered collection leaves it as it is, so re-sorting
      with the same comparator changes nothing. */
  lemma {:induction false} SortBySortedIsIdentity(m: Mode, s: seq<Comment>)
    requires Sorted(m, s)
    ensures SortBy(m, s) == s
  {
    if s != [] {
      SortedTail(m, s);
      SortBySortedIsIdentity(m, s[1..]);
      InsertAtHead(m, s);
    }
  }

  lemma SortByIdempotent(m: Mode, s: seq<Comment>)
    ensures SortBy(m, SortBy(m, s)) == SortBy(m, s)
  {
    SortBySorted(m, s);
    SortBySortedIsIdentity(m, SortBy(m, s));
  }

  /** Under the divisive comparator a comment nobody voted on has score 0 and
      is ranked after every comment with both agrees and disagrees. */
  lemma DivisiveUnvotedLast(s: seq<Comment>, i: nat, j: nat)
    requires Sorted(Divisive, s)
    requires i < |s| && j < |s|
    requires s[i].A == 0 && s[i].D == 0
    requires s[j].A > 0 && s[j].D > 0
    ensures j < i
  {
    var pj := s[j].A * s[j].D;
    assert pj > 0;
    QuotientOrder(0, 1, pj, s[j].A + s[j].D + 1);
    assert Score(s[j]) > Score(s[i]);
    assert Compare(Divisive, s[i], s[j]) > 0;
  }
}
