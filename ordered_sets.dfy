/**
 * Python dicts keep insertion order; the Python parser uses a dict whose values
 * are all True as an ordered set of distinct elements. Here it is a sequence
 * without repetitions, grown by `setdefault`.
 */
module OrderedSets {

  predicate Distinct<T(==)>(s: seq<T>)
  {
    forall i, j :: 0 <= i < j < |s| ==> s[i] != s[j]
  }

  /** The elements of s, as a set. */
  function Elements<T(==)>(s: seq<T>): set<T>
  {
    set x | x in s
  }

  /** A sequence without repetitions has as many elements as its set. */
  lemma {:induction false} DistinctSize<T>(s: seq<T>)
    requires Distinct(s)
    ensures |Elements(s)| == |s|
    decreases |s|
  {
    if s != [] {
      var init := s[..|s| - 1];
      assert Elements(s) == Elements(init) + {s[|s| - 1]};
      assert s[|s| - 1] !in Elements(init);
      DistinctSize(init);
    }
  }

  /** `d.setdefault(x, True)`: appends x unless it is already present. */
  function Add<T(==)>(s: seq<T>, x: T): seq<T>
  {
    if x in s then s else s + [x]
  }

  /** Calls `setdefault` for each element of `xs` in turn. */
  function AddAll<T(==)>(s: seq<T>, xs: seq<T>): seq<T>
    decreases |xs|
  {
    if xs == [] then s else Add(AddAll(s, xs[..|xs| - 1]), xs[|xs| - 1])
  }

  /** Adding never removes or reorders: the starting list stays a prefix. */
  lemma {:induction false} AddAllExtends<T>(s: seq<T>, xs: seq<T>)
    ensures s <= AddAll(s, xs)
    decreases |xs|
  {
    if xs != [] {
      AddAllExtends(s, xs[..|xs| - 1]);
    }
  }

  /** Position of the first occurrence of x in s. */
  function FirstIndex<T(==)>(s: seq<T>, x: T): (i: nat)
    requires x in s
    ensures i < |s| && s[i] == x
    ensures forall j :: 0 <= j < i ==> s[j] != x
  {
    if s[0] == x then 0 else 1 + FirstIndex(s[1..], x)
  }

  lemma FirstIndexOfPrefix<T>(a: seq<T>, b: seq<T>, x: T)
    requires x in a
    ensures FirstIndex(a + b, x) == FirstIndex(a, x)
  {
    var k := FirstIndex(a, x);
    assert (a + b)[k] == x;
  }

  /**
   * Adding elements keeps the starting set as a prefix, never repeats an
   * element, and leaves exactly the elements of both.
   */
  lemma {:induction false} AddAllSpec<T>(s: seq<T>, xs: seq<T>)
    requires Distinct(s)
    ensures s <= AddAll(s, xs)
    ensures Distinct(AddAll(s, xs))
    ensures forall x :: x in AddAll(s, xs) <==> x in s || x in xs
    decreases |xs|
  {
    if xs != [] {
      var xs', x := xs[..|xs| - 1], xs[|xs| - 1];
      assert xs == xs' + [x];
      AddAllSpec(s, xs');
    }
  }

  /**
   * Elements come out in the order of their first occurrence in `s + xs`:
   * a repeated element keeps its first place.
   */
  lemma {:induction false} AddAllFirstSeenOrder<T>(s: seq<T>, xs: seq<T>)
    requires Distinct(s)
    ensures forall x :: x in AddAll(s, xs) ==> x in s + xs
    ensures var r := AddAll(s, xs);
      forall i, j :: 0 <= i < j < |r| ==> FirstIndex(s + xs, r[i]) < FirstIndex(s + xs, r[j])
    decreases |xs|
  {
    var r := AddAll(s, xs);
    AddAllSpec(s, xs);
    if xs == [] {
      assert s + xs == s;
      FirstIndexOfDistinct(s);
    } else {
      var xs', x := xs[..|xs| - 1], xs[|xs| - 1];
      var r' := AddAll(s, xs');
      AddAllSpec(s, xs');
      AddAllFirstSeenOrder(s, xs');
      assert s + xs == (s + xs') + [x];
      forall y | y in r' ensures FirstIndex(s + xs, y) == FirstIndex(s + xs', y) {
        FirstIndexOfPrefix(s + xs', [x], y);
      }
      if x !in r' {
        assert r == r' + [x];
        assert x !in s + xs';
        assert FirstIndex(s + xs, x) == |s + xs'|;
      }
      forall i, j | 0 <= i < j < |r| ensures FirstIndex(s + xs, r[i]) < FirstIndex(s + xs, r[j]) {
        assert r[i] == r'[i] && r'[i] in r';
        if j < |r'| {
          assert r[j] == r'[j] && r'[j] in r';
        }
      }
    }
  }

  /** In a list without repeats every element's first index is its index. */
  lemma FirstIndexOfDistinct<T>(s: seq<T>)
    requires Distinct(s)
    ensures forall i :: 0 <= i < |s| ==> FirstIndex(s, s[i]) == i
  {
    forall i | 0 <= i < |s| ensures FirstIndex(s, s[i]) == i {
      var k := FirstIndex(s, s[i]);
      assert s[k] == s[i];
    }
  }

  lemma {:induction false} AddAllConcat<T>(s: seq<T>, a: seq<T>, b: seq<T>)
    ensures AddAll(s, a + b) == AddAll(AddAll(s, a), b)
    decreases |b|
  {
    if b == [] {
      assert a + b == a;
    } else {
      assert (a + b)[..|a + b| - 1] == a + b[..|b| - 1];
      AddAllConcat(s, a, b[..|b| - 1]);
    }
  }

  /** Adding only elements already present changes nothing. */
  lemma {:induction false} AddAllPresent<T>(s: seq<T>, xs: seq<T>)
    requires forall x :: x in xs ==> x in s
    ensures AddAll(s, xs) == s
    decreases |xs|
  {
    if xs != [] {
      AddAllPresent(s, xs[..|xs| - 1]);
    }
  }

  /** Adding distinct new elements appends them all. */
  lemma {:induction false} AddAllFresh<T>(s: seq<T>, t: seq<T>)
    requires Distinct(s + t)
    ensures AddAll(s, t) == s + t
    decreases |t|
  {
    if t != [] {
      var t' := t[..|t| - 1];
      assert s + t == (s + t') + [t[|t| - 1]];
      assert Distinct(s + t') by {
        forall i, j | 0 <= i < j < |s + t'| ensures (s + t')[i] != (s + t')[j] {
          assert (s + t')[i] == (s + t)[i] && (s + t')[j] == (s + t)[j];
        }
      }
      AddAllFresh(s, t');
      assert t[|t| - 1] !in s + t' by {
        forall i | 0 <= i < |s + t'| ensures (s + t')[i] != t[|t| - 1] {
          assert (s + t')[i] == (s + t)[i];
          assert t[|t| - 1] == (s + t)[|s + t| - 1];
        }
      }
    }
  }

  /**
   * Merging the same additions a second time into the same start changes
   * nothing: AddAll(s, AddAll(s, xs)) == AddAll(s, xs).
   */
  lemma AddAllAbsorbs<T>(s: seq<T>, xs: seq<T>)
    requires Distinct(s)
    ensures AddAll(s, AddAll(s, xs)) == AddAll(s, xs)
  {
    var r := AddAll(s, xs);
    AddAllSpec(s, xs);
    var t := r[|s|..];
    assert r == s + t;
    AddAllConcat(s, s, t);
    AddAllPresent(s, s);
    AddAllFresh(s, t);
  }
}
