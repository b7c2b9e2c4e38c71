/**
 * The Mastermind code value type: a fixed-length sequence of integers drawn
 * from an inclusive range lo..hi, its validated construction, the
 * lexicographic order used for tie-breaking, and the enumeration of every
 * code of a given length over a range.
 */
module Codes {
  import opened Wrappers

  /** A code is its value sequence; equality (and hence hashing) is by value. */
  datatype Code = Code(values: seq<int>)

  /** Why the constructor refuses its arguments (each an ArgumentError in the source). */
  datatype CodeError = NonPositiveLength | WrongLength | ValueOutOfRange

  predicate InRange(vs: seq<int>, lo: int, hi: int)
  {
    forall i :: 0 <= i < |vs| ==> lo <= vs[i] <= hi
  }

  /** What a successfully constructed code satisfies. */
  predicate ValidCode(vs: seq<int>, codeLength: int, lo: int, hi: int)
  {
    codeLength > 0 && |vs| == codeLength && InRange(vs, lo, hi)
  }

  /**
   * Validated construction. The checks run in the source's order: the length
   * must be positive, then the value count must equal it, then every value
   * must lie in lo..hi. The stored values are the given ones, never shared
   * mutable state (a Dafny sequence is a value).
   */
  function NewCode(values: seq<int>, codeLength: int, lo: int, hi: int): (r: Result<Code, CodeError>)
    ensures r.Success? <==> ValidCode(values, codeLength, lo, hi)
    ensures r.Success? ==> r.value.values == values
    ensures codeLength <= 0 ==> r == Failure(NonPositiveLength)
    ensures codeLength > 0 && |values| != codeLength ==> r == Failure(WrongLength)
    ensures codeLength > 0 && |values| == codeLength && !InRange(values, lo, hi) ==> r == Failure(ValueOutOfRange)
  {
    if codeLength <= 0 then Failure(NonPositiveLength)
    else if |values| != codeLength then Failure(WrongLength)
    else if !InRange(values, lo, hi) then Failure(ValueOutOfRange)
    else Success(Code(values))
  }

  /** The refusals exercised by the source's tests, each for its own reason. */
  lemma NewCodeExamples()
    ensures NewCode([1, 2, 3, 4], -1, 0, 5) == Failure(NonPositiveLength)
    ensures NewCode([1, 2, 3, 4], 0, 0, 5) == Failure(NonPositiveLength)
    ensures NewCode([1], 4, 0, 5) == Failure(WrongLength)
    ensures NewCode([6, 0, 0, 0], 4, 0, 5) == Failure(ValueOutOfRange)
    ensures NewCode([0, 1, 2, 3], 4, 0, 5) == Success(Code([0, 1, 2, 3]))
  {
    assert !InRange([6, 0, 0, 0], 0, 5) by { assert [6, 0, 0, 0][0] == 6; }
  }

  // ---------------------------------------------------------------------
  // Ordering: Ruby's Array#<=> on the value sequences
  // ---------------------------------------------------------------------

  /**
   * Lexicographic three-way comparison: the first differing element decides;
   * when one sequence is a prefix of the other, the shorter one is smaller.
   */
  function Compare(a: seq<int>, b: seq<int>): (r: int)
    ensures -1 <= r <= 1
    ensures r == 0 <==> a == b
  {
    if |a| == 0 && |b| == 0 then 0
    else if |a| == 0 then -1
    else if |b| == 0 then 1
    else if a[0] < b[0] then -1
    else if a[0] > b[0] then 1
    else
      var r := Compare(a[1..], b[1..]);
      assert r == 0 ==> a == [a[0]] + a[1..] == [b[0]] + b[1..] == b;
      r
  }

  lemma {:induction false} CompareFlip(a: seq<int>, b: seq<int>)
    ensures Compare(b, a) == -Compare(a, b)
  {
    if |a| > 0 && |b| > 0 && a[0] == b[0] {
      CompareFlip(a[1..], b[1..]);
    }
  }

  lemma {:induction false} CompareTransitive(a: seq<int>, b: seq<int>, c: seq<int>)
    requires Compare(a, b) <= 0 && Compare(b, c) <= 0
    ensures Compare(a, c) <= 0
  {
    if |a| > 0 && |b| > 0 && |c| > 0 && a[0] == b[0] == c[0] {
      CompareTransitive(a[1..], b[1..], c[1..]);
    }
  }

  function Repeat(v: int, n: nat): (r: seq<int>)
    ensures |r| == n && forall i :: 0 <= i < n ==> r[i] == v
  {
    seq(n, _ => v)
  }

  /** The all-`lo` code is below every other code of its length over lo..hi. */
  lemma {:induction false} AllLowIsLeast(vs: seq<int>, lo: int)
    requires forall i :: 0 <= i < |vs| ==> lo <= vs[i]
    ensures Compare(Repeat(lo, |vs|), vs) == if vs == Repeat(lo, |vs|) then 0 else -1
  {
    if |vs| > 0 {
      AllLowIsLeast(vs[1..], lo);
      assert Repeat(lo, |vs|)[1..] == Repeat(lo, |vs| - 1);
    }
  }

  /** The all-`hi` code is above every other code of its length over lo..hi. */
  lemma {:induction false} AllHighIsGreatest(vs: seq<int>, hi: int)
    requires forall i :: 0 <= i < |vs| ==> vs[i] <= hi
    ensures Compare(Repeat(hi, |vs|), vs) == if vs == Repeat(hi, |vs|) then 0 else 1
  {
    if |vs| > 0 {
      AllHighIsGreatest(vs[1..], hi);
      assert Repeat(hi, |vs|)[1..] == Repeat(hi, |vs| - 1);
    }
  }

  predicate IsLeast(m: Code, t: set<Code>)
  {
    m in t && forall x :: x in t ==> Compare(m.values, x.values) <= 0
  }

  lemma {:induction false} LeastExists(t: set<Code>)
    requires t != {}
    ensures exists m :: IsLeast(m, t)
    decreases |t|
  {
    var x :| x in t;
    if t == {x} {
      assert IsLeast(x, t);
    } else {
      LeastExists(t - {x});
      var m :| IsLeast(m, t - {x});
      if Compare(x.values, m.values) <= 0 {
        forall y | y in t ensures Compare(x.values, y.values) <= 0 {
          if y != x { CompareTransitive(x.values, m.values, y.values); }
        }
        assert IsLeast(x, t);
      } else {
        CompareFlip(x.values, m.values);
        assert IsLeast(m, t);
      }
    }
  }

  lemma LeastUnique(t: set<Code>)
    ensures forall m1, m2 :: IsLeast(m1, t) && IsLeast(m2, t) ==> m1 == m2
  {
    forall m1, m2 | IsLeast(m1, t) && IsLeast(m2, t) ensures m1 == m2 {
      CompareFlip(m1.values, m2.values);
    }
  }

  /** Ruby's Enumerable#min over a non-empty set of codes. */
  function LeastCode(t: set<Code>): (m: Code)
    requires t != {}
    ensures m in t && forall x :: x in t ==> Compare(m.values, x.values) <= 0
  {
    LeastExists(t);
    LeastUnique(t);
    var m :| IsLeast(m, t); m
  }

  // ---------------------------------------------------------------------
  // Enumeration: every code of a length over a range
  // ---------------------------------------------------------------------

  /** The number of integers in lo..hi (Ruby's Range#count). */
  function RangeSize(lo: int, hi: int): nat
  {
    if hi < lo then 0 else hi - lo + 1
  }

  function Pow(b: nat, e: nat): nat
  {
    if e == 0 then 1 else b * Pow(b, e - 1)
  }

  function Prepend(v: int, s: set<Code>): set<Code>
  {
    set c | c in s :: Code([v] + c.values)
  }

  /** Every code [v] + c with lo <= v <= hi and c in s. */
  function Extend(lo: int, hi: int, s: set<Code>): set<Code>
    decreases hi - lo
  {
    if hi < lo then {} else Extend(lo, hi - 1, s) + Prepend(hi, s)
  }

  /** All value sequences of length n over lo..hi (repeated permutations). */
  function Words(n: nat, lo: int, hi: int): set<Code>
  {
    if n == 0 then {Code([])} else Extend(lo, hi, Words(n - 1, lo, hi))
  }

  lemma PrependMembers(v: int, s: set<Code>, c: Code)
    ensures c in Prepend(v, s) <==> |c.values| > 0 && c.values[0] == v && Code(c.values[1..]) in s
  {
    if |c.values| > 0 && c.values[0] == v && Code(c.values[1..]) in s {
      assert c == Code([v] + Code(c.values[1..]).values);
    }
    if c in Prepend(v, s) {
      var d :| d in s && c == Code([v] + d.values);
      assert c.values[1..] == d.values;
    }
  }

  lemma {:induction false} ExtendMembers(lo: int, hi: int, s: set<Code>, c: Code)
    ensures c in Extend(lo, hi, s) <==> |c.values| > 0 && lo <= c.values[0] <= hi && Code(c.values[1..]) in s
    decreases hi - lo
  {
    if hi >= lo {
      ExtendMembers(lo, hi - 1, s, c);
      PrependMembers(hi, s, c);
    }
  }

  lemma InRangeCons(vs: seq<int>, lo: int, hi: int)
    requires |vs| > 0
    ensures InRange(vs, lo, hi) <==> lo <= vs[0] <= hi && InRange(vs[1..], lo, hi)
  {
    if lo <= vs[0] <= hi && InRange(vs[1..], lo, hi) {
      forall i | 1 <= i < |vs| ensures lo <= vs[i] <= hi {
        assert vs[i] == vs[1..][i - 1];
      }
    }
  }

  /** Words(n, lo, hi) holds exactly the sequences of length n over lo..hi. */
  lemma {:induction false} WordsMembers(n: nat, lo: int, hi: int, c: Code)
    ensures c in Words(n, lo, hi) <==> |c.values| == n && InRange(c.values, lo, hi)
  {
    if n > 0 {
      ExtendMembers(lo, hi, Words(n - 1, lo, hi), c);
      if |c.values| > 0 {
        WordsMembers(n - 1, lo, hi, Code(c.values[1..]));
        InRangeCons(c.values, lo, hi);
      }
    }
  }

  lemma {:induction false} PrependCount(v: int, s: set<Code>)
    ensures |Prepend(v, s)| == |s|
    decreases |s|
  {
    if s != {} {
      var x :| x in s;
      var y := Code([v] + x.values);
      PrependCount(v, s - {x});
      assert Prepend(v, s) == Prepend(v, s - {x}) + {y};
      assert y !in Prepend(v, s - {x}) by {
        PrependMembers(v, s - {x}, y);
        assert y.values[1..] == x.values;
      }
    }
  }

  lemma DisjointUnionCount(a: set<Code>, b: set<Code>)
    requires a !! b
    ensures |a + b| == |a| + |b|
  {
    assert a * b == {};
  }

  lemma MulSucc(k: nat, n: nat)
    ensures (k + 1) * n == k * n + n
  {
  }

  lemma ExtendDisjoint(lo: int, hi: int, s: set<Code>)
    ensures Extend(lo, hi - 1, s) !! Prepend(hi, s)
  {
    forall c | c in Prepend(hi, s) ensures c !in Extend(lo, hi - 1, s) {
      PrependMembers(hi, s, c);
      ExtendMembers(lo, hi - 1, s, c);
    }
  }

  lemma {:induction false} ExtendCount(lo: int, hi: int, s: set<Code>)
    ensures |Extend(lo, hi, s)| == RangeSize(lo, hi) * |s|
    decreases hi - lo
  {
    if hi >= lo {
      var a, b := Extend(lo, hi - 1, s), Prepend(hi, s);
      ExtendCount(lo, hi - 1, s);
      PrependCount(hi, s);
      ExtendDisjoint(lo, hi, s);
      DisjointUnionCount(a, b);
      var k := RangeSize(lo, hi - 1);
      assert RangeSize(lo, hi) == k + 1;
      MulSucc(k, |s|);
      calc {
        |Extend(lo, hi, s)|;
        |a + b|;
        k * |s| + |s|;
        (k + 1) * |s|;
      }
    }
  }

  /** There are RangeSize(lo, hi)^n sequences of length n over lo..hi. */
  lemma {:induction false} WordsCount(n: nat, lo: int, hi: int)
    ensures |Words(n, lo, hi)| == Pow(RangeSize(lo, hi), n)
  {
    if n > 0 {
      WordsCount(n - 1, lo, hi);
      ExtendCount(lo, hi, Words(n - 1, lo, hi));
    }
  }

  /**
   * The source's all_possible_codes: every repeated permutation of lo..hi of
   * the given length, each passed through the validating constructor. Length
   * 0 yields the single empty sequence, which the constructor refuses; a
   * negative length yields no permutation at all, hence the empty set.
   */
  function AllPossibleCodes(codeLength: int, lo: int, hi: int): (r: Result<set<Code>, CodeError>)
    ensures r.Failure? <==> codeLength == 0
    ensures r.Failure? ==> r.error == NonPositiveLength
    ensures codeLength < 0 ==> r == Success({})
    ensures codeLength > 0 ==> (r.Success?
      && (forall c :: c in r.value <==> ValidCode(c.values, codeLength, lo, hi))
      && |r.value| == Pow(RangeSize(lo, hi), codeLength))
  {
    if codeLength == 0 then Failure(NonPositiveLength)
    else if codeLength < 0 then Success({})
    else
      var all := Words(codeLength, lo, hi);
      WordsCount(codeLength, lo, hi);
      assert forall c :: c in all <==> ValidCode(c.values, codeLength, lo, hi) by {
        forall c ensures c in all <==> ValidCode(c.values, codeLength, lo, hi) {
          WordsMembers(codeLength, lo, hi, c);
        }
      }
      Success(all)
  }
}
