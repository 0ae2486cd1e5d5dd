/** Operations on lists of records looked up by a string key, as the editor uses
    the array builtins: `findIndex`, `find`, `filter` on a key, `map` that
    replaces matching elements, and the find-then-replace-or-push upsert that
    both the local project store and its metadata list perform. */
module Lists {
  import opened Types

  /** The set of keys present in `s`. */
  function Keys<T(==,!new)>(s: seq<T>, key: T -> string): set<string>
  {
    set x | x in s :: key(x)
  }

  /** `findIndex(x => key(x) === k)`: the position of the first element with
      key `k`, or -1 when there is none. */
  function IndexOf<T(==,!new)>(s: seq<T>, key: T -> string, k: string): (i: int)
    ensures -1 <= i < |s|
    ensures 0 <= i ==> key(s[i]) == k && forall j :: 0 <= j < i ==> key(s[j]) != k
    ensures i == -1 <==> k !in Keys(s, key)
  {
    if |s| == 0 then -1
    else if key(s[0]) == k then 0
    else
      var j := IndexOf(s[1..], key, k);
      assert forall x :: x in s <==> x == s[0] || x in s[1..];
      if j < 0 then -1 else j + 1
  }

  /** `find(x => key(x) === k)`: the first element with key `k`, if any. */
  function Find<T(==,!new)>(s: seq<T>, key: T -> string, k: string): (r: Option<T>)
    ensures r.Some? <==> k in Keys(s, key)
    ensures r.Some? ==> r.value in s && key(r.value) == k
  {
    if |s| == 0 then None
    else if key(s[0]) == k then Some(s[0])
    else
      assert forall x :: x in s <==> x == s[0] || x in s[1..];
      Find(s[1..], key, k)
  }

  /** `filter(x => key(x) === k)`. */
  function Keep<T(==,!new)>(s: seq<T>, key: T -> string, k: string): (r: seq<T>)
    ensures forall x :: x in r <==> x in s && key(x) == k
    ensures |r| <= |s|
  {
    if |s| == 0 then []
    else
      assert forall x :: x in s <==> x == s[0] || x in s[1..];
      (if key(s[0]) == k then [s[0]] else []) + Keep(s[1..], key, k)
  }

  /** `filter(x => key(x) !== k)`. */
  function Remove<T(==,!new)>(s: seq<T>, key: T -> string, k: string): (r: seq<T>)
    ensures forall x :: x in r <==> x in s && key(x) != k
    ensures |r| <= |s|
  {
    if |s| == 0 then []
    else
      assert forall x :: x in s <==> x == s[0] || x in s[1..];
      (if key(s[0]) == k then [] else [s[0]]) + Remove(s[1..], key, k)
  }

  /** `map(x => key(x) === k ? y : x)`. */
  function ReplaceWhere<T(==,!new)>(s: seq<T>, key: T -> string, k: string, y: T): (r: seq<T>)
    ensures |r| == |s|
    ensures forall x :: x in r ==> x == y || (x in s && key(x) != k)
  {
    seq(|s|, i requires 0 <= i < |s| => if key(s[i]) == k then y else s[i])
  }

  /** The upsert of the local store: overwrite the first element with the
      same key as `x`, or push `x` when there is none. */
  function Upsert<T(==,!new)>(s: seq<T>, key: T -> string, x: T): (r: seq<T>)
    ensures x in r
    ensures |r| == if key(x) in Keys(s, key) then |s| else |s| + 1
  {
    var i := IndexOf(s, key, key(x));
    if i >= 0 then
      assert s[i := x][i] == x;
      s[i := x]
    else s + [x]
  }

  /** `find` returns the element at `findIndex`. */
  lemma {:induction false} FindAtIndexOf<T(!new)>(s: seq<T>, key: T -> string, k: string)
    ensures var i := IndexOf(s, key, k);
            Find(s, key, k) == if i < 0 then None else Some(s[i])
  {
    if |s| > 0 && key(s[0]) != k {
      FindAtIndexOf(s[1..], key, k);
    }
  }

  /** `find` and `findIndex` both stop at the first element with key `k`. */
  lemma FindFirst<T(!new)>(s: seq<T>, key: T -> string, k: string, i: nat)
    requires i < |s| && key(s[i]) == k
    requires forall j :: 0 <= j < i ==> key(s[j]) != k
    ensures IndexOf(s, key, k) == i
    ensures Find(s, key, k) == Some(s[i])
  {
    assert s[i] in s;
    FindAtIndexOf(s, key, k);
  }

  /** `find` returns the first element that `filter` keeps. */
  lemma {:induction false} FindIsFirstKept<T(!new)>(s: seq<T>, key: T -> string, k: string)
    ensures var kept := Keep(s, key, k);
            Find(s, key, k) == if kept == [] then None else Some(kept[0])
  {
    if |s| > 0 {
      FindIsFirstKept(s[1..], key, k);
    }
  }

  lemma {:induction false} KeepAppend<T(!new)>(a: seq<T>, b: seq<T>, key: T -> string, k: string)
    ensures Keep(a + b, key, k) == Keep(a, key, k) + Keep(b, key, k)
  {
    if |a| == 0 {
      assert a + b == b;
    } else {
      assert (a + b)[1..] == a[1..] + b;
      KeepAppend(a[1..], b, key, k);
    }
  }

  /** Filtering out a key keeps the relative order of the other elements: it
      distributes over concatenation. */
  lemma {:induction false} RemoveAppend<T(!new)>(a: seq<T>, b: seq<T>, key: T -> string, k: string)
    ensures Remove(a + b, key, k) == Remove(a, key, k) + Remove(b, key, k)
  {
    if |a| == 0 {
      assert a + b == b;
    } else {
      assert (a + b)[1..] == a[1..] + b;
      RemoveAppend(a[1..], b, key, k);
    }
  }

  /** An element whose key is not `k` does not change what `find` returns,
      wherever it is inserted. */
  lemma FindSkips<T(!new)>(a: seq<T>, y: T, b: seq<T>, key: T -> string, k: string)
    requires key(y) != k
    ensures Find(a + [y] + b, key, k) == Find(a + b, key, k)
  {
    KeepSkips(a, y, b, key, k);
    FindIsFirstKept(a + [y] + b, key, k);
    FindIsFirstKept(a + b, key, k);
  }

  /** An element whose key is not `k` is dropped by `filter` on `k`,
      wherever it is inserted. */
  lemma KeepSkips<T(!new)>(a: seq<T>, y: T, b: seq<T>, key: T -> string, k: string)
    requires key(y) != k
    ensures Keep(a + [y] + b, key, k) == Keep(a + b, key, k)
  {
    calc {
      Keep(a + [y] + b, key, k);
      == { KeepAppend(a + [y], b, key, k); }
      Keep(a + [y], key, k) + Keep(b, key, k);
      == { KeepAppend(a, [y], key, k);
           assert Keep([y], key, k) == [];
           assert Keep(a, key, k) + [] == Keep(a, key, k); }
      Keep(a, key, k) + Keep(b, key, k);
      == { KeepAppend(a, b, key, k); }
      Keep(a + b, key, k);
    }
  }

  /** Once some element has key `k`, elements added at the end do not change
      what `find` returns. */
  lemma FindIgnoresLater<T(!new)>(a: seq<T>, b: seq<T>, key: T -> string, k: string)
    requires k in Keys(a, key)
    ensures Find(a + b, key, k) == Find(a, key, k)
  {
    KeepAppend(a, b, key, k);
    FindIsFirstKept(a + b, key, k);
    FindIsFirstKept(a, key, k);
    var x :| x in a && key(x) == k;
    assert x in Keep(a, key, k);
  }

  /** Filtering out a key that is absent changes nothing. */
  lemma {:induction false} RemoveAbsent<T(!new)>(s: seq<T>, key: T -> string, k: string)
    requires k !in Keys(s, key)
    ensures Remove(s, key, k) == s
  {
    if |s| > 0 {
      assert s[0] in s;
      assert forall x :: x in s[1..] ==> x in s;
      RemoveAbsent(s[1..], key, k);
    }
  }

  /** Filtering on a key that is absent keeps nothing. */
  lemma {:induction false} KeepAbsent<T(!new)>(s: seq<T>, key: T -> string, k: string)
    requires k !in Keys(s, key)
    ensures Keep(s, key, k) == []
  {
    if |s| > 0 {
      assert s[0] in s;
      assert forall x :: x in s[1..] ==> x in s;
      KeepAbsent(s[1..], key, k);
    }
  }

  /** After filtering out `k`, exactly the keys other than `k` remain. */
  lemma RemoveKeys<T(!new)>(s: seq<T>, key: T -> string, k: string)
    ensures Keys(Remove(s, key, k), key) == Keys(s, key) - {k}
  {
    var r := Remove(s, key, k);
    forall j | j in Keys(s, key) - {k} ensures j in Keys(r, key) {
      var x :| x in s && key(x) == j;
      assert x in r;
    }
  }

  /** After an upsert, `find` on the upserted key returns the upserted element. */
  lemma UpsertThenFind<T(!new)>(s: seq<T>, key: T -> string, x: T)
    ensures Find(Upsert(s, key, x), key, key(x)) == Some(x)
  {
    var k := key(x);
    var i := IndexOf(s, key, k);
    var r := Upsert(s, key, x);
    if i >= 0 {
      assert r == s[i := x];
      assert forall j :: 0 <= j < i ==> key(r[j]) != k;
      assert r[i] in r && key(r[i]) == k;
      assert IndexOf(r, key, k) == i;
    } else {
      assert r == s + [x];
      assert forall j :: 0 <= j < |s| ==> s[j] in s;
      assert forall j :: 0 <= j < |s| ==> key(r[j]) != k;
      assert IndexOf(r, key, k) == |s|;
    }
    FindAtIndexOf(r, key, k);
  }

  /** An upsert of a present key overwrites the first element with that key
      in place; every other position keeps its element and the length stays. */
  lemma UpsertInPlace<T(!new)>(s: seq<T>, key: T -> string, x: T)
    requires key(x) in Keys(s, key)
    ensures var r := Upsert(s, key, x);
            var i := IndexOf(s, key, key(x));
            |r| == |s| && r[i] == x &&
            (forall j :: 0 <= j < i ==> key(s[j]) != key(x)) &&
            (forall j :: 0 <= j < |s| && j != i ==> r[j] == s[j])
  {
  }

  /** An upsert of an absent key appends at the end. */
  lemma UpsertAppends<T(!new)>(s: seq<T>, key: T -> string, x: T)
    requires key(x) !in Keys(s, key)
    ensures Upsert(s, key, x) == s + [x]
  {
  }

  /** Upserting the same element twice is the same as upserting it once. */
  lemma UpsertIdempotent<T(!new)>(s: seq<T>, key: T -> string, x: T)
    ensures Upsert(Upsert(s, key, x), key, x) == Upsert(s, key, x)
  {
    var k := key(x);
    var i := IndexOf(s, key, k);
    var r := Upsert(s, key, x);
    if i >= 0 {
      assert forall j :: 0 <= j < i ==> key(r[j]) != k;
      assert r[i] in r && key(r[i]) == k;
      assert IndexOf(r, key, k) == i;
    } else {
      assert forall j :: 0 <= j < |s| ==> s[j] in s;
      assert forall j :: 0 <= j < |s| ==> key(r[j]) != k;
      assert IndexOf(r, key, k) == |s|;
    }
  }

  /** An upsert adds the element's key to the keys and removes none. */
  lemma UpsertKeys<T(!new)>(s: seq<T>, key: T -> string, x: T)
    ensures Keys(Upsert(s, key, x), key) == Keys(s, key) + {key(x)}
  {
    var k := key(x);
    var i := IndexOf(s, key, k);
    var r := Upsert(s, key, x);
    if i >= 0 {
      forall j | j in Keys(s, key) ensures j in Keys(r, key) {
        var n :| 0 <= n < |s| && key(s[n]) == j;
        assert n == i || r[n] == s[n];
        assert r[n] in r;
      }
      forall j | j in Keys(r, key) ensures j in Keys(s, key) + {k} {
        var n :| 0 <= n < |r| && key(r[n]) == j;
        assert n == i || s[n] in s;
      }
      assert r[i] in r;
    } else {
      assert r == s + [x];
      assert x in r;
      assert forall y :: y in r <==> y in s || y == x;
    }
  }

  /** Replacing the elements with key `k` by an element with key `k` keeps
      the set of keys. */
  lemma ReplaceWhereKeys<T(!new)>(s: seq<T>, key: T -> string, k: string, y: T)
    requires key(y) == k
    ensures Keys(ReplaceWhere(s, key, k, y), key) == Keys(s, key)
  {
    var r := ReplaceWhere(s, key, k, y);
    forall j | j in Keys(s, key) ensures j in Keys(r, key) {
      var n :| 0 <= n < |s| && key(s[n]) == j;
      assert r[n] in r;
    }
    forall j | j in Keys(r, key) ensures j in Keys(s, key) {
      var n :| 0 <= n < |r| && key(r[n]) == j;
      assert s[n] in s;
    }
  }

  /** A replacement by key keeps the length and every element whose key
      differs, and puts `y` wherever the key matched. */
  lemma ReplaceWhereAt<T(!new)>(s: seq<T>, key: T -> string, k: string, y: T, i: int)
    requires 0 <= i < |s|
    ensures |ReplaceWhere(s, key, k, y)| == |s|
    ensures key(s[i]) == k ==> ReplaceWhere(s, key, k, y)[i] == y
    ensures key(s[i]) != k ==> ReplaceWhere(s, key, k, y)[i] == s[i]
  {
  }
}
