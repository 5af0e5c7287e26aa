/** The list of name-value pairs behind a `URLSearchParams` object, and the list
    operations of section 6.2 of the WHATWG URL Standard that the relay relies on. */
module SearchParams {
  import opened Options
  import Text

  /** One name-value pair of a query. */
  type Pair = (string, string)

  /** Is there a pair named `n`? */
  predicate Has(q: seq<Pair>, n: string) {
    exists k :: 0 <= k < |q| && q[k].0 == n
  }

  /** Every name occurs at most once, as in a JavaScript object. */
  predicate DistinctNames(q: seq<Pair>) {
    forall i, j :: 0 <= i < j < |q| ==> q[i].0 != q[j].0
  }

  /** How many pairs are named `n`. */
  function Count(q: seq<Pair>, n: string): (c: nat)
    ensures c <= |q|
    ensures c == 0 <==> !Has(q, n)
  {
    if |q| == 0 then 0
    else (if q[0].0 == n then 1 else 0) + Count(q[1..], n)
  }

  /** The list with every pair named `n` removed, the others kept in order. */
  function Without(q: seq<Pair>, n: string): (r: seq<Pair>)
    ensures |r| + Count(q, n) == |q|
    ensures forall k :: 0 <= k < |r| ==> r[k].0 != n
    ensures !Has(q, n) ==> r == q
  {
    if |q| == 0 then []
    else if q[0].0 == n then Without(q[1..], n)
    else [q[0]] + Without(q[1..], n)
  }

  /** The position of the first pair named `n`. */
  function FirstIndex(q: seq<Pair>, n: string): (i: nat)
    requires Has(q, n)
    ensures i < |q| && q[i].0 == n
    ensures forall k :: 0 <= k < i ==> q[k].0 != n
  {
    if q[0].0 == n then 0 else 1 + FirstIndex(q[1..], n)
  }

  /** `get(name)`: the value of the first pair named `n`, if any. */
  function Get(q: seq<Pair>, n: string): (r: Option<string>)
    ensures r.None? <==> !Has(q, n)
    ensures r.Some? ==> Has(q, n) && r.value == q[FirstIndex(q, n)].1
  {
    if |q| == 0 then None
    else if q[0].0 == n then Some(q[0].1)
    else Get(q[1..], n)
  }

  /** `set(name, value)`: give the first pair named `n` the value `v` and drop the
      others so named; with no such pair, append `(n, v)`. */
  function Set(q: seq<Pair>, n: string, v: string): (r: seq<Pair>)
    ensures Count(r, n) == 1
    ensures forall k :: 0 <= k < |r| && r[k].0 == n ==> r[k].1 == v
    ensures Without(r, n) == Without(q, n)
  {
    if |q| == 0 then [(n, v)]
    else if q[0].0 == n then [(n, v)] + Without(q[1..], n)
    else [q[0]] + Set(q[1..], n, v)
  }

  /** The algorithm of section 6.2 as the standard words it, position by position. */
  function SetAsWorded(q: seq<Pair>, n: string, v: string): seq<Pair> {
    if Has(q, n) then
      var i := FirstIndex(q, n);
      q[..i] + [(n, v)] + Without(q[i + 1..], n)
    else q + [(n, v)]
  }

  /** The recursive `Set` is the standard's algorithm: a caller's pair named `n` is
      overwritten in place at its first position, later ones vanish, and with none
      the new pair goes last. */
  lemma {:induction false} SetIsAsWorded(q: seq<Pair>, n: string, v: string)
    ensures Set(q, n, v) == SetAsWorded(q, n, v)
  {
    if |q| == 0 {
    } else if q[0].0 == n {
      assert FirstIndex(q, n) == 0;
    } else {
      SetIsAsWorded(q[1..], n, v);
      assert Set(q, n, v) == [q[0]] + Set(q[1..], n, v);
      if Has(q, n) {
        SetAsWordedLaterMatch(q, n, v);
      } else {
        SetAsWordedNoMatch(q, n, v);
      }
    }
  }

  /** The worded algorithm steps over a first pair with another name. */
  lemma SetAsWordedLaterMatch(q: seq<Pair>, n: string, v: string)
    requires |q| > 0 && q[0].0 != n && Has(q, n)
    ensures SetAsWorded(q, n, v) == [q[0]] + SetAsWorded(q[1..], n, v)
  {
    var t := q[1..];
    var k :| 0 <= k < |q| && q[k].0 == n;
    assert t[k - 1].0 == n;
    var i := FirstIndex(t, n);
    assert FirstIndex(q, n) == i + 1;
    assert q[..i + 1] == [q[0]] + t[..i];
    assert q[i + 2..] == t[i + 1..];
    Text.Regroup([q[0]], t[..i], [(n, v)], Without(t[i + 1..], n));
  }

  /** With no pair named `n`, the worded algorithm appends after the first pair too. */
  lemma SetAsWordedNoMatch(q: seq<Pair>, n: string, v: string)
    requires |q| > 0 && !Has(q, n)
    ensures SetAsWorded(q, n, v) == [q[0]] + SetAsWorded(q[1..], n, v)
  {
    assert q == [q[0]] + q[1..];
  }

  /** The value `get` then reads back is the one just set. */
  lemma SetThenGet(q: seq<Pair>, n: string, v: string)
    ensures Get(Set(q, n, v), n) == Some(v)
  {
  }

  /** Other names read the same values after a `set` as before. */
  lemma {:induction false} SetLeavesOtherNames(q: seq<Pair>, n: string, v: string, m: string)
    requires m != n
    ensures Get(Set(q, n, v), m) == Get(q, m)
  {
    if |q| > 0 && q[0].0 != n {
      SetLeavesOtherNames(q[1..], n, v, m);
    } else if |q| > 0 {
      WithoutLeavesOtherNames(q[1..], n, m);
    }
  }

  lemma {:induction false} WithoutLeavesOtherNames(q: seq<Pair>, n: string, m: string)
    requires m != n
    ensures Get(Without(q, n), m) == Get(q, m)
  {
    if |q| > 0 {
      WithoutLeavesOtherNames(q[1..], n, m);
    }
  }

  /** A second `set` of the same name overrides the first: the last value wins. */
  lemma {:induction false} SetTwice(q: seq<Pair>, n: string, u: string, v: string)
    ensures Set(Set(q, n, u), n, v) == Set(q, n, v)
  {
    if |q| == 0 {
    } else if q[0].0 == n {
      WithoutTwice(q[1..], n);
    } else {
      SetTwice(q[1..], n, u, v);
    }
  }

  lemma {:induction false} WithoutTwice(q: seq<Pair>, n: string)
    ensures Without(Without(q, n), n) == Without(q, n)
  {
    if |q| > 0 {
      WithoutTwice(q[1..], n);
    }
  }

  /** A list without repeated names keeps that property through `set`. */
  lemma {:induction false} SetKeepsNamesDistinct(q: seq<Pair>, n: string, v: string)
    requires DistinctNames(q)
    ensures DistinctNames(Set(q, n, v))
  {
    if |q| > 0 {
      if q[0].0 == n {
        WithoutKeepsNamesDistinct(q[1..], n);
      } else {
        SetKeepsNamesDistinct(q[1..], n, v);
        var r := Set(q, n, v);
        forall i, j | 0 <= i < j < |r|
          ensures r[i].0 != r[j].0
        {
          if i == 0 {
            assert r[j] in Set(q[1..], n, v);
            NamesOfSet(q[1..], n, v, r[j]);
          }
        }
      }
    }
  }

  /** Every pair of a `set` result is the new pair or a pair already in the list. */
  lemma {:induction false} NamesOfSet(q: seq<Pair>, n: string, v: string, p: Pair)
    requires p in Set(q, n, v)
    ensures p == (n, v) || p in q
  {
    if |q| > 0 && q[0].0 != n && p != q[0] {
      NamesOfSet(q[1..], n, v, p);
    } else if |q| > 0 && q[0].0 == n && p != (n, v) {
      InWithout(q[1..], n, p);
    }
  }

  lemma {:induction false} WithoutKeepsNamesDistinct(q: seq<Pair>, n: string)
    requires DistinctNames(q)
    ensures DistinctNames(Without(q, n))
  {
    if |q| > 0 {
      WithoutKeepsNamesDistinct(q[1..], n);
      var r := Without(q, n);
      if q[0].0 != n {
        forall j | 0 < j < |r|
          ensures r[0].0 != r[j].0
        {
          assert r[j] in Without(q[1..], n);
          InWithout(q[1..], n, r[j]);
        }
      }
    }
  }

  /** Removal keeps the order of the remaining pairs: it distributes over
      concatenation, and a single pair is kept exactly when it has another name. */
  lemma {:induction false} WithoutAppend(a: seq<Pair>, b: seq<Pair>, n: string)
    ensures Without(a + b, n) == Without(a, n) + Without(b, n)
  {
    if |a| == 0 {
      assert a + b == b;
    } else {
      var ab := a + b;
      assert ab[0] == a[0] && ab[1..] == a[1..] + b;
      WithoutAppend(a[1..], b, n);
      var rest := Without(a[1..], n) + Without(b, n);
      if a[0].0 != n {
        calc {
          Without(ab, n);
          [a[0]] + rest;
          { assert [a[0]] + rest == ([a[0]] + Without(a[1..], n)) + Without(b, n); }
          Without(a, n) + Without(b, n);
        }
      }
    }
  }

  lemma WithoutOne(p: Pair, n: string)
    ensures Without([p], n) == if p.0 == n then [] else [p]
  {
  }

  /** Membership in `Without`: exactly the pairs of other names survive. */
  lemma {:induction false} InWithout(q: seq<Pair>, n: string, p: Pair)
    ensures p in Without(q, n) <==> p in q && p.0 != n
  {
    if |q| > 0 {
      InWithout(q[1..], n, p);
      assert q == [q[0]] + q[1..];
    }
  }
}
