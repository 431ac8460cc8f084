/**
 * The decoder for Structured Expression (SE) values, the tagged union the
 * node's script evaluator returns (src/utils.ts).
 */
module SEDecoder {
  import Decimal

  /** One SE value as it arrives on the wire. */
  datatype SEItem =
    | Unit
    | Str(text: string)
    | Int(digits: string)                       // an integer carried as text
    | Array(elements: seq<SEItem>)
    | Tuple(entries: seq<(string, SEItem)>)     // the record's entries, in whatever order they arrive

  /** What `extractSEItemValue` hands back to its caller. */
  datatype Value =
    | Null
    | Text(s: string)                           // a String or Int payload, unchanged
    | Raw(items: seq<SEItem>)                   // an Array payload, elements left undecoded
    | List(values: seq<Value>)                  // a decoded tuple, in key order

  /** A positional tuple key: an underscore followed by decimal digits. */
  predicate ValidKey(key: string) {
    |key| >= 2 && key[0] == '_' && Decimal.AllDigits(key[1..])
  }

  /** `Number(key.slice(1))` for a valid key; other keys are ruled out by `WellFormed`, so their value is irrelevant. */
  function KeyNum(key: string): nat {
    if ValidKey(key) then Decimal.Value(key[1..]) else 0
  }

  /** No two entries have the same numeric key. */
  predicate DistinctKeys(es: seq<(string, SEItem)>) {
    forall i, j :: 0 <= i < j < |es| ==> KeyNum(es[i].0) != KeyNum(es[j].0)
  }

  /** Entries with equal numeric keys are equal; unlike `DistinctKeys` this survives any reordering. */
  predicate KeyDetermines(es: seq<(string, SEItem)>) {
    forall a, b :: a in es && b in es && KeyNum(a.0) == KeyNum(b.0) ==> a == b
  }

  /** The tuple keys the decoder relies on, in every tuple that it decodes. */
  predicate WellFormed(item: SEItem) {
    match item
    case Tuple(es) =>
      && (forall e :: e in es ==> ValidKey(e.0) && WellFormed(e.1))
      && DistinctKeys(es)
    case _ => true
  }

  predicate SortedByKey(es: seq<(string, SEItem)>) {
    forall i, j :: 0 <= i < j < |es| ==> KeyNum(es[i].0) <= KeyNum(es[j].0)
  }

  /** A key no larger than every key of a sorted sequence can go in front of it. */
  lemma PrependSorted(x: (string, SEItem), rest: seq<(string, SEItem)>)
    requires SortedByKey(rest)
    requires forall k :: 0 <= k < |rest| ==> KeyNum(x.0) <= KeyNum(rest[k].0)
    ensures SortedByKey([x] + rest)
  {
    var r := [x] + rest;
    forall i, j | 0 <= i < j < |r| ensures KeyNum(r[i].0) <= KeyNum(r[j].0) {
      assert r[j] == rest[j - 1];
      if i > 0 {
        assert r[i] == rest[i - 1];
      }
    }
  }

  /** Every entry of `rest`, which holds the tail of sorted `s` plus `e`, has a key at least that of `s[0]`. */
  lemma HeadBoundsInsertion(e: (string, SEItem), s: seq<(string, SEItem)>, rest: seq<(string, SEItem)>)
    requires s != [] && SortedByKey(s) && KeyNum(s[0].0) < KeyNum(e.0)
    requires multiset(rest) == multiset(s[1..]) + multiset{e}
    ensures forall k :: 0 <= k < |rest| ==> KeyNum(s[0].0) <= KeyNum(rest[k].0)
  {
    forall k | 0 <= k < |rest| ensures KeyNum(s[0].0) <= KeyNum(rest[k].0) {
      var x := rest[k];
      assert x in multiset(rest);
      if x != e {
        assert x in multiset(s[1..]);
        var m :| 0 <= m < |s[1..]| && s[1..][m] == x;
        assert s[m + 1] == x;
      }
    }
  }

  /** Puts `e` into a key-sorted sequence. */
  function InsertByKey(e: (string, SEItem), s: seq<(string, SEItem)>): (r: seq<(string, SEItem)>)
    requires SortedByKey(s)
    ensures SortedByKey(r)
    ensures multiset(r) == multiset(s) + multiset{e}
  {
    if s == [] then [e]
    else if KeyNum(e.0) <= KeyNum(s[0].0) then
      PrependSorted(e, s);
      [e] + s
    else
      TailSorted(s);
      var rest := InsertByKey(e, s[1..]);
      HeadBoundsInsertion(e, s, rest);
      PrependSorted(s[0], rest);
      MultisetOfTail(s);
      [s[0]] + rest
  }

  /** The array from `Object.entries`, ordered by `a - b` on the numeric key suffixes. */
  function SortByKey(es: seq<(string, SEItem)>): (s: seq<(string, SEItem)>)
    ensures SortedByKey(s)
    ensures multiset(s) == multiset(es)
  {
    if es == [] then []
    else
      assert es == [es[0]] + es[1..];
      InsertByKey(es[0], SortByKey(es[1..]))
  }

  /** `extractSEItemValue`. */
  function Extract(item: SEItem): (r: Value)
    requires WellFormed(item)
    ensures r.Null? <==> item.Unit?
    ensures item.Str? ==> r == Text(item.text)
    ensures item.Int? ==> r == Text(item.digits)
    ensures item.Array? ==> r == Raw(item.elements)
    ensures item.Tuple? ==> r.List? && |r.values| == |item.entries|
    decreases item
  {
    match item
    case Unit => Null
    case Tuple(es) =>
      var sorted := SortByKey(es);
      assert |sorted| == |multiset(sorted)| == |multiset(es)| == |es|;
      assert forall i :: 0 <= i < |sorted| ==> sorted[i] in es by {
        forall i | 0 <= i < |sorted| ensures sorted[i] in es {
          assert sorted[i] in multiset(sorted);
        }
      }
      List(seq(|sorted|, i requires 0 <= i < |sorted| => Extract(sorted[i].1)))
    case Str(s) => Text(s)
    case Int(s) => Text(s)
    case Array(xs) => Raw(xs)
  }

  lemma DistinctKeysDetermine(es: seq<(string, SEItem)>)
    requires DistinctKeys(es)
    ensures KeyDetermines(es)
  {
    forall a, b | a in es && b in es && KeyNum(a.0) == KeyNum(b.0) ensures a == b {
      var i :| 0 <= i < |es| && es[i] == a;
      var j :| 0 <= j < |es| && es[j] == b;
      assert i == j;
    }
  }

  lemma KeyDeterminesRearranged(es: seq<(string, SEItem)>, s: seq<(string, SEItem)>)
    requires KeyDetermines(es) && multiset(s) == multiset(es)
    ensures KeyDetermines(s)
  {
    forall a, b | a in s && b in s && KeyNum(a.0) == KeyNum(b.0) ensures a == b {
      assert a in multiset(s) && b in multiset(s);
    }
  }

  /** With distinct keys no entry occurs twice. */
  lemma {:induction false} DistinctKeysOccurOnce(es: seq<(string, SEItem)>)
    requires DistinctKeys(es)
    ensures forall x :: multiset(es)[x] <= 1
  {
    if es != [] {
      assert es == [es[0]] + es[1..];
      assert es[0] !in es[1..] by {
        forall m | 1 <= m < |es| ensures es[m] != es[0] {
          assert KeyNum(es[0].0) != KeyNum(es[m].0);
        }
      }
      DistinctKeysOccurOnce(es[1..]);
    }
  }

  /** An entry found at two positions occurs at least twice. */
  lemma TwoPositions(s: seq<(string, SEItem)>, i: nat, j: nat)
    requires i < j < |s|
    ensures s[i] == s[j] ==> multiset(s)[s[i]] >= 2
  {
    assert s == s[..i] + [s[i]] + s[i + 1..j] + [s[j]] + s[j + 1..];
  }

  /** The first entry of a key-sorted sequence has the smallest key. */
  lemma SortedHeadIsLeast(s: seq<(string, SEItem)>, x: (string, SEItem))
    requires SortedByKey(s) && x in s
    ensures KeyNum(s[0].0) <= KeyNum(x.0)
  {
    var k :| 0 <= k < |s| && s[k] == x;
    if k > 0 {
      assert KeyNum(s[0].0) <= KeyNum(s[k].0);
    }
  }

  lemma MultisetOfTail<T>(s: seq<T>)
    requires s != []
    ensures multiset(s[1..]) == multiset(s) - multiset{s[0]}
  {
    assert s == [s[0]] + s[1..];
  }

  lemma TailSorted(s: seq<(string, SEItem)>)
    requires s != [] && SortedByKey(s)
    ensures SortedByKey(s[1..])
  {
    forall i, j | 0 <= i < j < |s| - 1 ensures KeyNum(s[1..][i].0) <= KeyNum(s[1..][j].0) {
      assert s[1..][i] == s[i + 1] && s[1..][j] == s[j + 1];
    }
  }

  lemma TailKeyDetermines(s: seq<(string, SEItem)>)
    requires s != [] && KeyDetermines(s)
    ensures KeyDetermines(s[1..])
  {
    forall x | x in s[1..] ensures x in s {
      var k :| 0 <= k < |s| - 1 && s[1..][k] == x;
      assert s[k + 1] == x;
    }
  }

  /** Two key-sorted arrangements of the same entries start with the same entry. */
  lemma SortedHeadsEqual(s1: seq<(string, SEItem)>, s2: seq<(string, SEItem)>)
    requires s1 != [] && s2 != [] && multiset(s1) == multiset(s2)
    requires SortedByKey(s1) && SortedByKey(s2)
    requires KeyDetermines(s1)
    ensures s1[0] == s2[0]
  {
    assert s1[0] in multiset(s2) && s2[0] in multiset(s1);
    SortedHeadIsLeast(s1, s2[0]);
    SortedHeadIsLeast(s2, s1[0]);
  }

  /** With distinct keys there is only one key-sorted arrangement of a bag of entries. */
  lemma {:induction false} SortedUnique(s1: seq<(string, SEItem)>, s2: seq<(string, SEItem)>)
    requires multiset(s1) == multiset(s2)
    requires SortedByKey(s1) && SortedByKey(s2)
    requires KeyDetermines(s1)
    ensures s1 == s2
    decreases |s1|
  {
    assert |s1| == |multiset(s1)| == |multiset(s2)| == |s2|;
    if s1 != [] {
      SortedHeadsEqual(s1, s2);
      MultisetOfTail(s1);
      MultisetOfTail(s2);
      TailSorted(s1);
      TailSorted(s2);
      TailKeyDetermines(s1);
      SortedUnique(s1[1..], s2[1..]);
      SameHeadSameTail(s1, s2);
    }
  }

  lemma SameHeadSameTail<T>(s1: seq<T>, s2: seq<T>)
    requires s1 != [] && s2 != [] && s1[0] == s2[0] && s1[1..] == s2[1..]
    ensures s1 == s2
  {
    assert s1 == [s1[0]] + s1[1..] && s2 == [s2[0]] + s2[1..];
  }

  /** Every entry of a well-formed tuple, in any arrangement, holds a well-formed item. */
  lemma RearrangedWellFormed(es: seq<(string, SEItem)>, s: seq<(string, SEItem)>)
    requires WellFormed(Tuple(es)) && multiset(s) == multiset(es)
    ensures forall i :: 0 <= i < |s| ==> s[i] in es && WellFormed(s[i].1)
  {
    forall i | 0 <= i < |s| ensures s[i] in es {
      assert s[i] in multiset(s);
    }
  }

  /** Unfolds the tuple case of `Extract` once. */
  lemma ExtractTupleUnfold(es: seq<(string, SEItem)>)
    requires WellFormed(Tuple(es))
    ensures var sorted, r := SortByKey(es), Extract(Tuple(es));
      && |r.values| == |sorted|
      && forall i :: 0 <= i < |sorted| ==> WellFormed(sorted[i].1) && r.values[i] == Extract(sorted[i].1)
  {
    RearrangedWellFormed(es, SortByKey(es));
  }

  /**
   * The rule that matters: whatever arrangement `s` of a tuple's entries is
   * sorted by key, element i of the decoded tuple is the decoded value of
   * `s[i]`, the entry with the i-th smallest key.
   */
  lemma TupleDecodesInKeyOrder(es: seq<(string, SEItem)>, s: seq<(string, SEItem)>)
    requires WellFormed(Tuple(es))
    requires multiset(s) == multiset(es) && SortedByKey(s)
    ensures forall i, j :: 0 <= i < j < |s| ==> KeyNum(s[i].0) < KeyNum(s[j].0)
    ensures var r := Extract(Tuple(es));
      && r.List? && |r.values| == |s|
      && forall i :: 0 <= i < |s| ==> WellFormed(s[i].1) && r.values[i] == Extract(s[i].1)
  {
    DistinctKeysDetermine(es);
    KeyDeterminesRearranged(es, SortByKey(es));
    SortedUnique(SortByKey(es), s);
    ExtractTupleUnfold(es);
    DistinctKeysOccurOnce(es);
    forall i, j | 0 <= i < j < |s| ensures KeyNum(s[i].0) < KeyNum(s[j].0) {
      TwoPositions(s, i, j);
      assert s[i] in multiset(es) && s[j] in multiset(es);
    }
  }

  /** Decoding a tuple does not depend on the order its entries arrive in. */
  lemma ExtractIgnoresEntryOrder(es1: seq<(string, SEItem)>, es2: seq<(string, SEItem)>)
    requires WellFormed(Tuple(es1)) && WellFormed(Tuple(es2))
    requires multiset(es1) == multiset(es2)
    ensures Extract(Tuple(es1)) == Extract(Tuple(es2))
  {
    DistinctKeysDetermine(es1);
    KeyDeterminesRearranged(es1, SortByKey(es1));
    SortedUnique(SortByKey(es1), SortByKey(es2));
  }

  lemma SwapFront<T>(x: T, y: T, rest: seq<T>)
    ensures multiset([x, y] + rest) == multiset([y, x] + rest)
  {
    calc {
      multiset([x, y] + rest);
      multiset([x, y]) + multiset(rest);
      multiset([y, x]) + multiset(rest);
      multiset([y, x] + rest);
    }
  }

  lemma SeqOfThree<T>(r: seq<T>, x: T, y: T, z: T)
    requires |r| == 3 && r[0] == x && r[1] == y && r[2] == z
    ensures r == [x, y, z]
  {
  }

  lemma ThreeWellFormed(a: (string, SEItem), b: (string, SEItem), c: (string, SEItem))
    requires ValidKey(a.0) && ValidKey(b.0) && ValidKey(c.0)
    requires KeyNum(a.0) < KeyNum(b.0) < KeyNum(c.0)
    requires WellFormed(a.1) && WellFormed(b.1) && WellFormed(c.1)
    ensures WellFormed(Tuple([b, a, c]))
  {
    var es := [b, a, c];
    assert forall e :: e in es ==> e == a || e == b || e == c;
  }

  lemma ThreeSorted(a: (string, SEItem), b: (string, SEItem), c: (string, SEItem))
    requires KeyNum(a.0) < KeyNum(b.0) < KeyNum(c.0)
    ensures SortedByKey([a, b, c])
    ensures multiset([a, b, c]) == multiset([b, a, c])
  {
    SwapFront(a, b, [c]);
    assert [b, a, c] == [b, a] + [c] && [a, b, c] == [a, b] + [c];
  }

  /** Three entries arriving as second, first, third decode in key order. */
  lemma ThreeEntriesOutOfOrder(a: (string, SEItem), b: (string, SEItem), c: (string, SEItem))
    requires ValidKey(a.0) && ValidKey(b.0) && ValidKey(c.0)
    requires KeyNum(a.0) < KeyNum(b.0) < KeyNum(c.0)
    requires WellFormed(a.1) && WellFormed(b.1) && WellFormed(c.1)
    ensures WellFormed(Tuple([b, a, c]))
    ensures Extract(Tuple([b, a, c])) == List([Extract(a.1), Extract(b.1), Extract(c.1)])
  {
    ThreeWellFormed(a, b, c);
    ThreeSorted(a, b, c);
    var s := [a, b, c];
    TupleDecodesInKeyOrder([b, a, c], s);
    var r := Extract(Tuple([b, a, c]));
    assert s[0] == a && s[1] == b && s[2] == c;
    SeqOfThree(r.values, Extract(a.1), Extract(b.1), Extract(c.1));
  }

  /** An example: `{_2: "b", _1: "a", _3: "c"}` decodes to `["a", "b", "c"]`. */
  lemma ExampleTuple()
    ensures WellFormed(Tuple([("_2", Str("b")), ("_1", Str("a")), ("_3", Str("c"))]))
    ensures Extract(Tuple([("_2", Str("b")), ("_1", Str("a")), ("_3", Str("c"))]))
      == List([Text("a"), Text("b"), Text("c")])
  {
    assert "_1"[1..] == "1" && "_2"[1..] == "2" && "_3"[1..] == "3";
    ThreeEntriesOutOfOrder(("_1", Str("a")), ("_2", Str("b")), ("_3", Str("c")));
  }
}
