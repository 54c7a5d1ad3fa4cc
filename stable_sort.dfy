/** Python's `sorted(xs, key=k, reverse=True)`: a stable sort into descending key
    order, in which elements with equal keys keep their original relative order. */
module StableSort {

  /** Descending order by `key`. */
  predicate SortedDesc<T>(s: seq<T>, key: T -> real) {
    forall i, j :: 0 <= i < j < |s| ==> key(s[i]) >= key(s[j])
  }

  /** Inserts `x` in front of the first element whose key is not larger than its
      own, so that, among equal keys, `x` comes first. */
  function InsertDesc<T>(x: T, s: seq<T>, key: T -> real): (r: seq<T>)
    ensures |r| == |s| + 1
    decreases |s|
  {
    if s == [] || key(s[0]) <= key(x) then [x] + s
    else [s[0]] + InsertDesc(x, s[1..], key)
  }

  /** Inserting adds `x` and keeps every element of `s`, with its multiplicity. */
  lemma {:induction false} InsertDescPermutes<T>(x: T, s: seq<T>, key: T -> real)
    ensures multiset(InsertDesc(x, s, key)) == multiset(s) + multiset{x}
    decreases |s|
  {
    if s != [] && key(s[0]) > key(x) {
      InsertDescPermutes(x, s[1..], key);
      assert s == [s[0]] + s[1..];
    }
  }

  /** The position at which `InsertDesc` puts `x`. */
  function InsertPos<T>(x: T, s: seq<T>, key: T -> real): (p: nat)
    ensures p <= |s|
    ensures forall j :: 0 <= j < p ==> key(s[j]) > key(x)
    ensures p < |s| ==> key(s[p]) <= key(x)
    decreases |s|
  {
    if s == [] || key(s[0]) <= key(x) then 0 else 1 + InsertPos(x, s[1..], key)
  }

  /** Putting one element in front of a split sequence moves the split one place. */
  lemma ConsSplit<T>(a: T, t: seq<T>, p: nat, x: T)
    requires p <= |t|
    ensures [a] + (t[..p] + [x] + t[p..]) == ([a] + t)[..p + 1] + [x] + ([a] + t)[p + 1..]
  {
    assert ([a] + t)[..p + 1] == [a] + t[..p];
    assert ([a] + t)[p + 1..] == t[p..];
  }

  /** `InsertDesc` puts `x` between the elements with larger keys and the rest. */
  lemma {:induction false} InsertDescShape<T>(x: T, s: seq<T>, key: T -> real)
    ensures InsertDesc(x, s, key) == s[..InsertPos(x, s, key)] + [x] + s[InsertPos(x, s, key)..]
    decreases |s|
  {
    if s != [] && key(s[0]) > key(x) {
      var tail := s[1..];
      var q := InsertPos(x, tail, key);
      InsertDescShape(x, tail, key);
      ConsSplit(s[0], tail, q, x);
      assert [s[0]] + tail == s;
      calc {
        InsertDesc(x, s, key);
        [s[0]] + InsertDesc(x, tail, key);
        [s[0]] + (tail[..q] + [x] + tail[q..]);
        s[..q + 1] + [x] + s[q + 1..];
      }
    } else {
      assert s[..0] == [] && s[0..] == s;
    }
  }

  /** Element by element: the larger keys of `s`, then `x`, then the rest of `s`. */
  lemma InsertDescAt<T>(x: T, s: seq<T>, key: T -> real)
    ensures var r, p := InsertDesc(x, s, key), InsertPos(x, s, key);
      && r[p] == x
      && (forall j :: 0 <= j < p ==> r[j] == s[j])
      && (forall j :: p < j < |r| ==> r[j] == s[j - 1])
  {
    InsertDescShape(x, s, key);
  }

  /** A bound on `x` and on every key of `s` bounds every key after the insertion. */
  lemma {:induction false} InsertDescBounded<T>(x: T, s: seq<T>, key: T -> real, b: real)
    requires key(x) <= b
    requires forall k :: 0 <= k < |s| ==> key(s[k]) <= b
    ensures forall k :: 0 <= k < |InsertDesc(x, s, key)| ==> key(InsertDesc(x, s, key)[k]) <= b
    decreases |s|
  {
    if s != [] && key(s[0]) > key(x) {
      InsertDescBounded(x, s[1..], key, b);
    }
  }

  /** Inserting into a descending sequence keeps it descending. */
  lemma {:induction false} InsertDescSorted<T>(x: T, s: seq<T>, key: T -> real)
    requires SortedDesc(s, key)
    ensures SortedDesc(InsertDesc(x, s, key), key)
    decreases |s|
  {
    if s != [] && key(s[0]) > key(x) {
      var tail := s[1..];
      InsertDescSorted(x, tail, key);
      InsertDescBounded(x, tail, key, key(s[0]));
      var r' := InsertDesc(x, tail, key);
      var r := InsertDesc(x, s, key);
      assert r == [s[0]] + r';
      forall i, j | 0 <= i < j < |r| ensures key(r[i]) >= key(r[j]) {
        assert r[j] == r'[j - 1];
        if i > 0 {
          assert r[i] == r'[i - 1];
        }
      }
    }
  }

  /** `sorted(s, key=key, reverse=True)`, as an insertion sort that keeps the input
      order among equal keys. */
  function StableSortDesc<T>(s: seq<T>, key: T -> real): (r: seq<T>)
    ensures |r| == |s|
    decreases |s|
  {
    if s == [] then [] else InsertDesc(s[0], StableSortDesc(s[1..], key), key)
  }

  /** The sort's result is in descending key order. */
  lemma {:induction false} StableSortDescSorted<T>(s: seq<T>, key: T -> real)
    ensures SortedDesc(StableSortDesc(s, key), key)
    decreases |s|
  {
    if s != [] {
      StableSortDescSorted(s[1..], key);
      InsertDescSorted(s[0], StableSortDesc(s[1..], key), key);
    }
  }

  /** The sort permutes its input: same elements, same multiplicities. */
  lemma {:induction false} StableSortDescPermutes<T>(s: seq<T>, key: T -> real)
    ensures multiset(StableSortDesc(s, key)) == multiset(s)
    decreases |s|
  {
    if s != [] {
      var rest := StableSortDesc(s[1..], key);
      StableSortDescPermutes(s[1..], key);
      InsertDescPermutes(s[0], rest, key);
      assert s == [s[0]] + s[1..];
      assert multiset(s) == multiset(s[1..]) + multiset{s[0]};
    }
  }

  /** The sort keeps exactly the elements of its input. */
  lemma StableSortDescMembers<T>(s: seq<T>, key: T -> real)
    ensures forall x :: x in StableSortDesc(s, key) <==> x in s
  {
    var r := StableSortDesc(s, key);
    StableSortDescPermutes(s, key);
    forall x ensures x in r <==> x in s {
      assert x in r <==> x in multiset(r);
      assert x in s <==> x in multiset(s);
    }
  }

  /** A sequence that is already in descending order is left as it is. */
  lemma {:induction false} StableSortDescOfSorted<T>(s: seq<T>, key: T -> real)
    requires SortedDesc(s, key)
    ensures StableSortDesc(s, key) == s
    decreases |s|
  {
    if s != [] {
      assert SortedDesc(s[1..], key) by {
        forall i, j | 0 <= i < j < |s[1..]| ensures key(s[1..][i]) >= key(s[1..][j]) {
          assert s[1..][i] == s[i + 1] && s[1..][j] == s[j + 1];
        }
      }
      StableSortDescOfSorted(s[1..], key);
      assert s == [s[0]] + s[1..];
    }
  }

  /** `[x]` when its key is `v`, and nothing otherwise. */
  function Keep<T>(x: T, key: T -> real, v: real): seq<T> {
    if key(x) == v then [x] else []
  }

  /** The elements of `s` whose key is `v`, in their order in `s`. */
  function KeyClass<T>(s: seq<T>, key: T -> real, v: real): seq<T>
    decreases |s|
  {
    if s == [] then [] else Keep(s[0], key, v) + KeyClass(s[1..], key, v)
  }

  lemma {:induction false} KeyClassAppend<T>(a: seq<T>, b: seq<T>, key: T -> real, v: real)
    ensures KeyClass(a + b, key, v) == KeyClass(a, key, v) + KeyClass(b, key, v)
    decreases |a|
  {
    if a == [] {
      assert a + b == b;
    } else {
      var ab := a + b;
      assert ab[0] == a[0] && ab[1..] == a[1..] + b;
      KeyClassAppend(a[1..], b, key, v);
      calc {
        KeyClass(ab, key, v);
        Keep(a[0], key, v) + KeyClass(a[1..] + b, key, v);
        Keep(a[0], key, v) + (KeyClass(a[1..], key, v) + KeyClass(b, key, v));
        KeyClass(a, key, v) + KeyClass(b, key, v);
      }
    }
  }

  lemma {:induction false} KeyClassNone<T>(s: seq<T>, key: T -> real, v: real)
    requires forall j :: 0 <= j < |s| ==> key(s[j]) != v
    ensures KeyClass(s, key, v) == []
    decreases |s|
  {
    if s != [] {
      assert forall j :: 0 <= j < |s[1..]| ==> s[1..][j] == s[j + 1];
      KeyClassNone(s[1..], key, v);
    }
  }

  /** Splicing `x` between `pre` and `post`, where `pre` holds no element with the
      key of `x`, puts `x` first among the elements with its key. */
  lemma KeyClassSplice<T>(pre: seq<T>, x: T, post: seq<T>, key: T -> real, v: real)
    requires key(x) == v ==> forall j :: 0 <= j < |pre| ==> key(pre[j]) != v
    ensures KeyClass(pre + [x] + post, key, v) == Keep(x, key, v) + KeyClass(pre + post, key, v)
  {
    var k, c := Keep(x, key, v), KeyClass(pre, key, v);
    assert c + k == k + c by {
      if key(x) == v {
        KeyClassNone(pre, key, v);
      }
    }
    calc {
      KeyClass(pre + [x] + post, key, v);
      { KeyClassAppend(pre + [x], post, key, v); }
      KeyClass(pre + [x], key, v) + KeyClass(post, key, v);
      { KeyClassAppend(pre, [x], key, v); assert [x][1..] == []; }
      c + k + KeyClass(post, key, v);
      k + c + KeyClass(post, key, v);
      { KeyClassAppend(pre, post, key, v); }
      k + KeyClass(pre + post, key, v);
    }
  }

  /** Inserting `x` puts it in front of every element with its key, and moves no
      other element of any key past another. */
  lemma InsertDescClass<T>(x: T, s: seq<T>, key: T -> real, v: real)
    ensures KeyClass(InsertDesc(x, s, key), key, v) == Keep(x, key, v) + KeyClass(s, key, v)
  {
    var p := InsertPos(x, s, key);
    var pre, post := s[..p], s[p..];
    InsertDescShape(x, s, key);
    assert s == pre + post;
    KeyClassSplice(pre, x, post, key, v);
  }

  /** Stability: for every key, the elements with that key keep their input order. */
  lemma {:induction false} StableSortDescStable<T>(s: seq<T>, key: T -> real, v: real)
    ensures KeyClass(StableSortDesc(s, key), key, v) == KeyClass(s, key, v)
    decreases |s|
  {
    if s != [] {
      StableSortDescStable(s[1..], key, v);
      InsertDescClass(s[0], StableSortDesc(s[1..], key), key, v);
    }
  }

  /** The index of the first element with the largest key. */
  function FirstMaxIndex<T>(s: seq<T>, key: T -> real): (i: nat)
    requires |s| > 0
    ensures i < |s|
    ensures forall j :: 0 <= j < |s| ==> key(s[j]) <= key(s[i])
    ensures forall j :: 0 <= j < i ==> key(s[j]) < key(s[i])
    decreases |s|
  {
    if |s| == 1 then 0
    else
      var k := FirstMaxIndex(s[1..], key);
      if key(s[1 + k]) > key(s[0]) then 1 + k else 0
  }

  /** An index whose key is largest and strictly larger than every key before it is
      the first maximum. */
  lemma FirstMaxIndexUnique<T>(s: seq<T>, key: T -> real, i: nat)
    requires i < |s|
    requires forall j :: 0 <= j < |s| ==> key(s[j]) <= key(s[i])
    requires forall j :: 0 <= j < i ==> key(s[j]) < key(s[i])
    ensures FirstMaxIndex(s, key) == i
  {
  }

  /** The head of the stable descending sort is the first element with the largest
      key: stability decides every tie in favour of the earlier element. */
  lemma {:induction false} HeadIsFirstMax<T>(s: seq<T>, key: T -> real)
    requires |s| > 0
    ensures StableSortDesc(s, key)[0] == s[FirstMaxIndex(s, key)]
    decreases |s|
  {
    if |s| > 1 {
      var rest := StableSortDesc(s[1..], key);
      HeadIsFirstMax(s[1..], key);
      var k := FirstMaxIndex(s[1..], key);
      assert rest[0] == s[1 + k];
    }
  }

  // ---------------------------------------------------------------------------
  // Sorting twice

  /** `a` comes before `b` in the order the second key decides and the first key
      breaks ties in. */
  predicate LexGreater<T>(a: T, b: T, first: T -> real, second: T -> real) {
    second(a) > second(b) || (second(a) == second(b) && first(a) > first(b))
  }

  /** The first element that is greatest by the second key and then by the first. */
  function LexFirstMax<T>(s: seq<T>, first: T -> real, second: T -> real): (i: nat)
    requires |s| > 0
    ensures i < |s|
    ensures forall j :: 0 <= j < |s| ==> !LexGreater(s[j], s[i], first, second)
    ensures forall j :: 0 <= j < i ==> LexGreater(s[i], s[j], first, second)
    decreases |s|
  {
    if |s| == 1 then 0
    else
      var k := LexFirstMax(s[1..], first, second);
      assert forall j :: 1 <= j < |s| ==> s[j] == s[1..][j - 1];
      if LexGreater(s[1 + k], s[0], first, second) then 1 + k else 0
  }

  /** When the first top element `y` of `s` by `second` does not beat `x`, `x` is the
      first top element after inserting it by `first`. */
  lemma InsertedWins<T>(x: T, s: seq<T>, first: T -> real, second: T -> real)
    requires |s| > 0
    requires SortedDesc(s, first)
    requires !LexGreater(s[FirstMaxIndex(s, second)], x, first, second)
    ensures FirstMaxIndex(InsertDesc(x, s, first), second) == InsertPos(x, s, first)
  {
    var m := InsertDesc(x, s, first);
    var p := InsertPos(x, s, first);
    var f := FirstMaxIndex(s, second);
    InsertDescAt(x, s, first);
    assert m[p] == x;
    forall j | 0 <= j < |m| ensures second(m[j]) <= second(x) {
      if j != p {
        var k := if j < p then j else j - 1;
        assert m[j] == s[k];
      }
    }
    forall j | 0 <= j < p ensures second(m[j]) < second(x) {
      assert m[j] == s[j];
    }
    FirstMaxIndexUnique(m, second, p);
  }

  /** The bounds behind `InsertedLoses`, for any `m` laid out as `s` with `x` at `p`:
      `y`, the first top element of `s` by `second`, sits at `q` in `m`, nothing
      after beats it and everything before it is smaller. */
  lemma InsertedLosesBounds<T>(m: seq<T>, s: seq<T>, x: T, p: nat, f: nat, first: T -> real, second: T -> real)
    requires p <= |s| && f < |s| && |m| == |s| + 1 && m[p] == x
    requires forall j :: 0 <= j < p ==> m[j] == s[j]
    requires forall j :: p < j < |m| ==> m[j] == s[j - 1]
    requires p < |s| ==> first(s[p]) <= first(x)
    requires SortedDesc(s, first)
    requires forall j :: 0 <= j < |s| ==> second(s[j]) <= second(s[f])
    requires forall j :: 0 <= j < f ==> second(s[j]) < second(s[f])
    requires LexGreater(s[f], x, first, second)
    ensures var q := if f < p then f else f + 1;
      && m[q] == s[f]
      && (forall j :: 0 <= j < |m| ==> second(m[j]) <= second(s[f]))
      && (forall j :: 0 <= j < q ==> second(m[j]) < second(s[f]))
  {
    var y := s[f];
    var q := if f < p then f else f + 1;
    assert m[q] == y;
    forall j | 0 <= j < |m| ensures second(m[j]) <= second(y) {
      if j != p {
        var k := if j < p then j else j - 1;
        assert m[j] == s[k];
      }
    }
    forall j | 0 <= j < q ensures second(m[j]) < second(y) {
      if j == p {
        assert first(s[p]) >= first(y);
      } else {
        var k := if j < p then j else j - 1;
        assert m[j] == s[k] && k < f;
      }
    }
  }

  /** When the first top element `y` of `s` by `second` beats `x`, `y` stays the first
      top element after inserting `x` by `first`. */
  lemma InsertedLoses<T>(x: T, s: seq<T>, first: T -> real, second: T -> real)
    requires |s| > 0
    requires SortedDesc(s, first)
    requires LexGreater(s[FirstMaxIndex(s, second)], x, first, second)
    ensures var m := InsertDesc(x, s, first);
      m[FirstMaxIndex(m, second)] == s[FirstMaxIndex(s, second)]
  {
    var m := InsertDesc(x, s, first);
    var p := InsertPos(x, s, first);
    var f := FirstMaxIndex(s, second);
    InsertDescAt(x, s, first);
    InsertedLosesBounds(m, s, x, p, f, first, second);
    FirstMaxIndexUnique(m, second, if f < p then f else f + 1);
  }

  /** Inserting `x` by `first` into a sequence sorted by `first`, the first top
      element by `second` is the old one when it beats `x`, and `x` otherwise. */
  lemma FirstMaxOfInsert<T>(x: T, s: seq<T>, first: T -> real, second: T -> real)
    requires |s| > 0
    requires SortedDesc(s, first)
    ensures var m := InsertDesc(x, s, first);
      var y := s[FirstMaxIndex(s, second)];
      m[FirstMaxIndex(m, second)] == if LexGreater(y, x, first, second) then y else x
  {
    if LexGreater(s[FirstMaxIndex(s, second)], x, first, second) {
      InsertedLoses(x, s, first, second);
    } else {
      InsertedWins(x, s, first, second);
      InsertDescAt(x, s, first);
    }
  }

  /** Sorting stably by `first` and then stably by `second`, both descending, puts
      first the earliest element that is greatest by `second` and then by `first`. */
  lemma {:induction false} TwoPassHead<T>(s: seq<T>, first: T -> real, second: T -> real)
    requires |s| > 0
    ensures StableSortDesc(StableSortDesc(s, first), second)[0] == s[LexFirstMax(s, first, second)]
    decreases |s|
  {
    HeadIsFirstMax(StableSortDesc(s, first), second);
    if |s| > 1 {
      var rest := s[1..];
      TwoPassHead(rest, first, second);
      var sorted := StableSortDesc(rest, first);
      HeadIsFirstMax(sorted, second);
      StableSortDescSorted(rest, first);
      FirstMaxOfInsert(s[0], sorted, first, second);
      var k := LexFirstMax(rest, first, second);
      assert rest[k] == s[1 + k];
    }
  }
}
