/** The ordering `imageFiles.sort((a, b) => a.localeCompare(b, undefined,
    { numeric: true, sensitivity: 'base' }))` applies to archive entry names,
    restricted to ASCII: a name is read as a sequence of collation keys, a run
    of digits being one key weighted by its numeric value, a letter one key
    compared without regard to case, and any other character one key weighted
    by its code. Punctuation sorts before numbers, numbers before letters. */
module NaturalOrder {
  import opened Text
  import opened Sequences

  /** One collation element: `rank` orders the classes (0 punctuation and
      symbols, 1 digit runs, 2 letters), `weight` orders within a class. */
  datatype Key = Key(rank: nat, weight: nat)

  /** The length of the run of digits at the front of `s`. */
  function DigitRun(s: string): (k: nat)
    ensures k <= |s| && AllDigits(s[..k])
    ensures k < |s| ==> !IsDigit(s[k])
    ensures s != [] && IsDigit(s[0]) ==> 0 < k
  {
    if s == [] || !IsDigit(s[0]) then 0 else 1 + DigitRun(s[1..])
  }

  function CharKey(c: char): Key
    requires !IsDigit(c)
  {
    if IsLetter(c) then Key(2, LowerChar(c) as nat) else Key(0, c as nat)
  }

  /** The collation keys of a name, front to back. */
  function Keys(s: string): seq<Key>
    decreases |s|
  {
    if s == [] then []
    else if IsDigit(s[0]) then
      var k := DigitRun(s);
      [Key(1, ParseDecimal(s[..k]))] + Keys(s[k..])
    else [CharKey(s[0])] + Keys(s[1..])
  }

  predicate KeyLess(a: Key, b: Key) {
    a.rank < b.rank || (a.rank == b.rank && a.weight < b.weight)
  }

  /** Lexicographic order on key sequences; a proper prefix comes first. */
  predicate KeysAtMost(a: seq<Key>, b: seq<Key>) {
    a == [] || (b != [] && (KeyLess(a[0], b[0]) || (a[0] == b[0] && KeysAtMost(a[1..], b[1..]))))
  }

  lemma {:induction false} KeysAtMostReflexive(a: seq<Key>)
    ensures KeysAtMost(a, a)
  {
    if a != [] { KeysAtMostReflexive(a[1..]); }
  }

  lemma {:induction false} KeysAtMostTotal(a: seq<Key>, b: seq<Key>)
    ensures KeysAtMost(a, b) || KeysAtMost(b, a)
  {
    if a != [] && b != [] && a[0] == b[0] { KeysAtMostTotal(a[1..], b[1..]); }
  }

  lemma {:induction false} KeysAtMostAntisymmetric(a: seq<Key>, b: seq<Key>)
    requires KeysAtMost(a, b) && KeysAtMost(b, a)
    ensures a == b
  {
    if a != [] {
      KeysAtMostAntisymmetric(a[1..], b[1..]);
      assert a == [a[0]] + a[1..] && b == [b[0]] + b[1..];
    }
  }

  lemma {:induction false} KeysAtMostTransitive(a: seq<Key>, b: seq<Key>, c: seq<Key>)
    requires KeysAtMost(a, b) && KeysAtMost(b, c)
    ensures KeysAtMost(a, c)
  {
    if a != [] && a[0] == b[0] && b[0] == c[0] {
      KeysAtMostTransitive(a[1..], b[1..], c[1..]);
    }
  }

  /** `x` may precede `y` in sorted order. */
  predicate AtMost(x: string, y: string) {
    KeysAtMost(Keys(x), Keys(y))
  }

  /** `x` and `y` compare equal (`localeCompare` returns 0). */
  predicate Equivalent(x: string, y: string) {
    Keys(x) == Keys(y)
  }

  /** `a.localeCompare(b, undefined, { numeric: true, sensitivity: 'base' })`,
      normalised to -1, 0 or 1. */
  function LocaleCompare(a: string, b: string): (r: int)
    ensures r == 0 <==> Equivalent(a, b)
    ensures r <= 0 <==> AtMost(a, b)
    ensures r >= 0 <==> AtMost(b, a)
    ensures -1 <= r <= 1
  {
    KeysAtMostReflexive(Keys(a));
    KeysAtMostTotal(Keys(a), Keys(b));
    if Keys(a) == Keys(b) then 0
    else if KeysAtMost(Keys(a), Keys(b)) then
      (KeysAtMostReflexive(Keys(b));
       if KeysAtMost(Keys(b), Keys(a)) then KeysAtMostAntisymmetric(Keys(a), Keys(b)); -1 else -1)
    else 1
  }

  lemma LocaleCompareAntisymmetric(a: string, b: string)
    ensures LocaleCompare(a, b) == -LocaleCompare(b, a)
  {
  }

  /** Inserts `x` into `s` after every element that may precede it, moving it
      only past elements that compare strictly greater: the step a stable sort
      takes for each element in turn. */
  function InsertStable(s: seq<string>, x: string): seq<string>
  {
    if s == [] then [x]
    else if AtMost(s[|s| - 1], x) then s + [x]
    else InsertStable(s[..|s| - 1], x) + [s[|s| - 1]]
  }

  /** The order a stable sort with `LocaleCompare` produces. */
  function NaturalSort(s: seq<string>): seq<string>
  {
    if s == [] then [] else InsertStable(NaturalSort(s[..|s| - 1]), s[|s| - 1])
  }

  predicate Sorted(s: seq<string>) {
    forall i, j :: 0 <= i < j < |s| ==> AtMost(s[i], s[j])
  }

  lemma {:induction false} InsertStablePermutes(s: seq<string>, x: string)
    ensures multiset(InsertStable(s, x)) == multiset(s) + multiset{x}
  {
    if s != [] && !AtMost(s[|s| - 1], x) {
      InsertStablePermutes(s[..|s| - 1], x);
      assert s == s[..|s| - 1] + [s[|s| - 1]];
    }
  }

  lemma {:induction false} InsertStableSorted(s: seq<string>, x: string)
    requires Sorted(s)
    ensures Sorted(InsertStable(s, x))
  {
    if s == [] {
    } else if AtMost(s[|s| - 1], x) {
      var r := s + [x];
      forall i, j | 0 <= i < j < |r| ensures AtMost(r[i], r[j]) {
        if j == |s| && i < |s| - 1 {
          KeysAtMostTransitive(Keys(s[i]), Keys(s[|s| - 1]), Keys(x));
        }
      }
    } else {
      var init, last := s[..|s| - 1], s[|s| - 1];
      InsertStableSorted(init, x);
      InsertStablePermutes(init, x);
      var t := InsertStable(init, x);
      var r := t + [last];
      KeysAtMostTotal(Keys(last), Keys(x));
      forall i, j | 0 <= i < j < |r| ensures AtMost(r[i], r[j]) {
        if j == |t| {
          assert r[i] in multiset(init) + multiset{x};
          if r[i] != x {
            assert r[i] in init;
            var k :| 0 <= k < |init| && init[k] == r[i];
            assert s[k] == r[i];
          }
        }
      }
    }
  }

  /** The sorted names are the input names, each as often as it occurs. */
  lemma {:induction false} NaturalSortPermutes(s: seq<string>)
    ensures multiset(NaturalSort(s)) == multiset(s)
  {
    if s != [] {
      var init, last := s[..|s| - 1], s[|s| - 1];
      var sortedInit := NaturalSort(init);
      assert NaturalSort(s) == InsertStable(sortedInit, last);
      NaturalSortPermutes(init);
      InsertStablePermutes(sortedInit, last);
      MultisetSnoc(s);
    }
  }

  /** Sorting a list without repeated names gives a list without repeats. */
  lemma NaturalSortDistinct(s: seq<string>)
    requires Distinct(s)
    ensures Distinct(NaturalSort(s))
  {
    NaturalSortPermutes(s);
    DistinctCounts(s);
    DistinctCounts(NaturalSort(s));
  }

  /** Every name of the sorted list may precede every later one. */
  lemma {:induction false} NaturalSortSorted(s: seq<string>)
    ensures Sorted(NaturalSort(s))
  {
    if s != [] {
      NaturalSortSorted(s[..|s| - 1]);
      InsertStableSorted(NaturalSort(s[..|s| - 1]), s[|s| - 1]);
    }
  }

  /** A predicate that holds only of names comparing equal to one another. */
  ghost predicate WithinOneClass(p: string -> bool) {
    forall a, b :: p(a) && p(b) ==> Equivalent(a, b)
  }

  lemma {:induction false} InsertStableKeepsClassOrder(s: seq<string>, x: string, p: string -> bool)
    requires WithinOneClass(p)
    ensures Filter(InsertStable(s, x), p) == Filter(s, p) + (if p(x) then [x] else [])
  {
    if s == [] {
      assert Filter([x], p) == Filter([], p) + (if p(x) then [x] else []) by { FilterSnoc([], x, p); }
    } else if AtMost(s[|s| - 1], x) {
      FilterSnoc(s, x, p);
    } else {
      var init, last := s[..|s| - 1], s[|s| - 1];
      InsertStableKeepsClassOrder(init, x, p);
      FilterSnoc(InsertStable(init, x), last, p);
      assert s == init + [last];
      FilterSnoc(init, last, p);
      if p(x) && p(last) {
        KeysAtMostReflexive(Keys(x));
        assert false;
      }
    }
  }

  /** The sort is stable: names that compare equal keep their input order. */
  lemma {:induction false} NaturalSortStable(s: seq<string>, p: string -> bool)
    requires WithinOneClass(p)
    ensures Filter(NaturalSort(s), p) == Filter(s, p)
  {
    if s != [] {
      var init, last := s[..|s| - 1], s[|s| - 1];
      var tail := if p(last) then [last] else [];
      assert NaturalSort(s) == InsertStable(NaturalSort(init), last);
      InsertStableKeepsClassOrder(NaturalSort(init), last, p);
      NaturalSortStable(init, p);
      assert s == init + [last];
      FilterSnoc(init, last, p);
      calc {
        Filter(NaturalSort(s), p);
        Filter(NaturalSort(init), p) + tail;
        Filter(init, p) + tail;
        Filter(s, p);
      }
    }
  }

  lemma KeysOfPngSuffix()
    ensures Keys(".png") == [Key(0, '.' as nat), Key(2, 'p' as nat), Key(2, 'n' as nat), Key(2, 'g' as nat)]
  {
  }

  lemma KeysOfF1()
    ensures Keys("f1.png") == [Key(2, 'f' as nat), Key(1, 1)] + Keys(".png")
  {
    assert "f1.png"[1..] == "1.png";
    assert DigitRun("1.png") == 1;
    assert "1.png"[..1] == "1" && "1.png"[1..] == ".png";
    assert ParseDecimal("1") == 1;
  }

  lemma KeysOfF2()
    ensures Keys("f2.png") == [Key(2, 'f' as nat), Key(1, 2)] + Keys(".png")
  {
    assert "f2.png"[1..] == "2.png";
    assert DigitRun("2.png") == 1;
    assert "2.png"[..1] == "2" && "2.png"[1..] == ".png";
    assert ParseDecimal("2") == 2;
  }

  lemma KeysOfF10()
    ensures Keys("f10.png") == [Key(2, 'f' as nat), Key(1, 10)] + Keys(".png")
  {
    assert "f10.png"[1..] == "10.png";
    assert DigitRun("10.png") == 2;
    assert "10.png"[..2] == "10" && "10.png"[2..] == ".png";
    assert ParseDecimal("10") == 10;
  }

  lemma ExampleKeys()
    ensures AtMost("f2.png", "f10.png") && !AtMost("f10.png", "f1.png") && !AtMost("f2.png", "f1.png")
  {
    KeysOfPngSuffix();
    KeysOfF1();
    KeysOfF2();
    KeysOfF10();
  }

  // Stated for any three names ordered as the example's are, so that the
  // solver sorts three variables rather than unfolding the sort on literals.
  lemma ExampleSort(f1: string, f2: string, f10: string)
    requires AtMost(f2, f10) && !AtMost(f10, f1) && !AtMost(f2, f1)
    ensures NaturalSort([f2, f10, f1]) == [f1, f2, f10]
  {
    assert NaturalSort([f2]) == [f2] by { assert [f2][..0] == []; }
    assert NaturalSort([f2, f10]) == [f2, f10] by { assert [f2, f10][..1] == [f2]; }
    assert [f2, f10, f1][..2] == [f2, f10];
    assert InsertStable([f2], f1) == [f1, f2] by { assert [f2][..0] == []; }
    assert InsertStable([f2, f10], f1) == [f1, f2, f10] by { assert [f2, f10][..1] == [f2]; }
  }

  lemma ExampleCase()
    ensures LocaleCompare("A.png", "a.png") == 0
  {
    assert Keys("A.png") == [Key(2, 'a' as nat)] + Keys(".png");
    assert Keys("a.png") == [Key(2, 'a' as nat)] + Keys(".png");
  }

  /** Digit runs compare by value and letters without regard to case. */
  lemma NaturalSortExample()
    ensures NaturalSort(["f2.png", "f10.png", "f1.png"]) == ["f1.png", "f2.png", "f10.png"]
    ensures LocaleCompare("A.png", "a.png") == 0
  {
    ExampleKeys();
    ExampleSort("f1.png", "f2.png", "f10.png");
    ExampleCase();
  }

  /** Letters compare without regard to case: lower-casing a name leaves its
      keys, and so its place in the order, unchanged. */
  lemma {:induction false} LocaleCompareIgnoresCase(s: string)
    ensures Keys(Lower(s)) == Keys(s)
    ensures LocaleCompare(s, Lower(s)) == 0
    decreases |s|
  {
    if s != [] {
      var t := Lower(s);
      if IsDigit(s[0]) {
        var k := DigitRun(s);
        DigitRunLower(s);
        assert t[..k] == s[..k];
        LowerSuffix(s, k);
        LocaleCompareIgnoresCase(s[k..]);
      } else {
        assert CharKey(t[0]) == CharKey(s[0]);
        LowerSuffix(s, 1);
        LocaleCompareIgnoresCase(s[1..]);
      }
    }
  }

  /** Lower-casing keeps digits and non-digits apart, so the leading run of
      digits is as long, and made of the same digits. */
  lemma {:induction false} DigitRunLower(s: string)
    ensures DigitRun(Lower(s)) == DigitRun(s)
    ensures forall i :: 0 <= i < DigitRun(s) ==> Lower(s)[i] == s[i]
    decreases |s|
  {
    if s != [] && IsDigit(s[0]) {
      LowerSuffix(s, 1);
      DigitRunLower(s[1..]);
    }
  }

  /** Digits compare by the value of the whole run: two names that differ
      only in a numeral compare as its numbers do, where the numeral is not
      run together with further digits. */
  lemma NumeralOrder(p: string, m: nat, n: nat, q: string)
    requires p == [] || !IsDigit(p[|p| - 1])
    requires q == [] || !IsDigit(q[0])
    ensures AtMost(p + DecimalString(m) + q, p + DecimalString(n) + q) <==> m <= n
  {
    NumeralInName(p, m, q);
    NumeralInName(p, n, q);
    var ka, kb := [Key(1, m)] + Keys(q), [Key(1, n)] + Keys(q);
    KeysAtMostPrefix(Keys(p), ka, kb);
    NumberKeyOrder(m, n, Keys(q));
  }

  /** The keys of a name with a numeral in it: those of the text before, one
      key for the number, those of the text after. */
  lemma NumeralInName(p: string, m: nat, q: string)
    requires p == [] || !IsDigit(p[|p| - 1])
    requires q == [] || !IsDigit(q[0])
    ensures Keys(p + DecimalString(m) + q) == Keys(p) + ([Key(1, m)] + Keys(q))
  {
    var d := DecimalString(m);
    ConcatAssociative(p, d, q);
    KeysAppend(p, d + q);
    NumeralKeys(m, q);
  }

  /** Keys that differ only in one number key compare as the numbers do. */
  lemma NumberKeyOrder(m: nat, n: nat, rest: seq<Key>)
    ensures KeysAtMost([Key(1, m)] + rest, [Key(1, n)] + rest) <==> m <= n
  {
    assert ([Key(1, m)] + rest)[1..] == rest == ([Key(1, n)] + rest)[1..];
    KeysAtMostReflexive(rest);
  }

  /** A name that does not end inside a run of digits is read on its own. */
  lemma {:induction false} KeysAppend(p: string, r: string)
    requires p == [] || !IsDigit(p[|p| - 1])
    ensures Keys(p + r) == Keys(p) + Keys(r)
    decreases |p|
  {
    if p == [] {
      assert p + r == r;
    } else if IsDigit(p[0]) {
      var k := DigitRun(p);
      DigitRunInside(p);
      DigitRunAppend(p, r);
      ConcatSlices(p, r, k);
      KeysAppend(p[k..], r);
    } else {
      ConcatSlices(p, r, 1);
      KeysAppend(p[1..], r);
    }
  }

  /** The run of digits at the front of a name that ends in a non-digit
      stops inside it. */
  lemma {:induction false} DigitRunInside(p: string)
    requires p != [] && !IsDigit(p[|p| - 1])
    ensures DigitRun(p) < |p|
    decreases |p|
  {
    if IsDigit(p[0]) {
      DigitRunInside(p[1..]);
    }
  }

  /** A run of digits that stops inside `s` stops at the same place in `s + r`. */
  lemma {:induction false} DigitRunAppend(s: string, r: string)
    requires DigitRun(s) < |s|
    ensures DigitRun(s + r) == DigitRun(s)
    decreases |s|
  {
    if IsDigit(s[0]) {
      assert (s + r)[1..] == s[1..] + r;
      DigitRunAppend(s[1..], r);
    }
  }

  /** The run of digits at the front of `d + q` is all of `d`, when `q` does
      not start with a digit. */
  lemma {:induction false} DigitRunAll(d: string, q: string)
    requires AllDigits(d)
    requires q == [] || !IsDigit(q[0])
    ensures DigitRun(d + q) == |d|
    decreases |d|
  {
    if d == [] {
      assert d + q == q;
    } else {
      assert (d + q)[1..] == d[1..] + q;
      DigitRunAll(d[1..], q);
    }
  }

  /** A rendered numeral is one key carrying its number. */
  lemma NumeralKeys(m: nat, q: string)
    requires q == [] || !IsDigit(q[0])
    ensures Keys(DecimalString(m) + q) == [Key(1, m)] + Keys(q)
  {
    var d := DecimalString(m);
    DigitRunAll(d, q);
    assert (d + q)[..|d|] == d && (d + q)[|d|..] == q;
    ParseDecimalString(m);
  }

  /** A common prefix does not decide the order. */
  lemma {:induction false} KeysAtMostPrefix(prefix: seq<Key>, a: seq<Key>, b: seq<Key>)
    ensures KeysAtMost(prefix + a, prefix + b) <==> KeysAtMost(a, b)
    decreases |prefix|
  {
    if prefix == [] {
      assert prefix + a == a && prefix + b == b;
    } else {
      assert (prefix + a)[1..] == prefix[1..] + a && (prefix + b)[1..] == prefix[1..] + b;
      KeysAtMostPrefix(prefix[1..], a, b);
    }
  }

  /** Where `InsertStable` puts `x`: after the last element that may precede
      it, when all elements from there on compare greater. */
  lemma {:induction false} InsertStableSplits(s: seq<string>, x: string, j: nat)
    requires j <= |s| && (j == 0 || AtMost(s[j - 1], x))
    requires forall k :: j <= k < |s| ==> !AtMost(s[k], x)
    ensures InsertStable(s, x) == s[..j] + [x] + s[j..]
    decreases |s|
  {
    if j < |s| {
      var init := s[..|s| - 1];
      InsertStableSplits(init, x, j);
      assert init[..j] == s[..j] && init[j..] + [s[|s| - 1]] == s[j..];
    } else {
      assert s[..j] == s;
    }
  }

  /** One pass of the sort: moves `a[i]` left past the elements of the
      sorted prefix `a[..i]` that compare greater than it. */
  method InsertAt(a: array<string>, i: nat)
    requires i < a.Length
    modifies a
    ensures a[..i + 1] == InsertStable(old(a[..i]), old(a[i]))
    ensures a[i + 1..] == old(a[i + 1..])
  {
    ghost var sorted := a[..i];
    var x := a[i];
    var j := i;
    while j > 0 && LocaleCompare(a[j - 1], x) > 0
      invariant 0 <= j <= i
      invariant forall k :: 0 <= k < j ==> a[k] == sorted[k]
      invariant forall k :: j < k <= i ==> a[k] == sorted[k - 1]
      invariant forall k :: i < k < a.Length ==> a[k] == old(a[k])
      invariant forall k :: j <= k < i ==> !AtMost(sorted[k], x)
    {
      a[j] := a[j - 1];
      j := j - 1;
    }
    a[j] := x;
    InsertStableSplits(sorted, x, j);
    ghost var r := sorted[..j] + [x] + sorted[j..];
    assert forall k :: 0 <= k <= i ==> a[k] == r[k];
  }

  /** Sorts `a` in place, as `Array.prototype.sort` does with `LocaleCompare`
      (an insertion sort: stable, so it gives the same order as any other
      stable sort). */
  method SortNames(a: array<string>)
    modifies a
    ensures a[..] == NaturalSort(old(a[..]))
  {
    ghost var input := a[..];
    var i := 0;
    while i < a.Length
      invariant 0 <= i <= a.Length
      invariant a[..i] == NaturalSort(input[..i])
      invariant a[i..] == input[i..]
    {
      assert input[..i + 1][..i] == input[..i];
      assert a[i + 1..] == input[i + 1..];
      InsertAt(a, i);
      i := i + 1;
    }
    assert a[..] == a[..a.Length] && input == input[..a.Length];
  }
}
