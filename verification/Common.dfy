/** Small shared vocabulary: optional values, map lookup and the byte-wise
    order that Go's string comparison and sort.Strings use. */
module Common {

  datatype Option<+T> = None | Some(value: T)

  function Lookup<K, V>(m: map<K, V>, k: K): Option<V> {
    if k in m then Some(m[k]) else None
  }

  /** Nothing but white space. */
  predicate Blank(s: string) {
    forall c <- s :: c in " \t\r\n"
  }

  /** A byte is a character below 256, so byte strings are strings. */
  type Byte = c: char | c as int < 256 witness '0'
  type Bytes = seq<Byte>

  /** Strict lexicographic order. */
  predicate Less(a: string, b: string) {
    if b == [] then false
    else if a == [] then true
    else a[0] < b[0] || (a[0] == b[0] && Less(a[1..], b[1..]))
  }

  /** At the first place where they differ the byte is smaller, or there the first
      string ends. */
  lemma {:induction false} LessMeans(a: string, b: string)
    ensures Less(a, b) <==> exists n: nat ::
      n <= |a| && n < |b| && a[..n] == b[..n] && (n < |a| ==> a[n] < b[n])
  {
    if a == [] || b == [] || a[0] != b[0] {
      assert a[..0] == [] && b[..0] == [];
      assert forall n: nat :: 0 < n <= |a| && n < |b| ==> a[..n][0] == a[0] && b[..n][0] == b[0];
    } else {
      LessMeans(a[1..], b[1..]);
      if Less(a, b) {
        var n: nat :| n <= |a[1..]| && n < |b[1..]| && a[1..][..n] == b[1..][..n] && (n < |a[1..]| ==> a[1..][n] < b[1..][n]);
        assert a[..n+1] == [a[0]] + a[1..][..n] && b[..n+1] == [b[0]] + b[1..][..n];
      }
      if n: nat :| n <= |a| && n < |b| && a[..n] == b[..n] && (n < |a| ==> a[n] < b[n]) {
        assert n > 0;
        assert a[1..][..n-1] == a[..n][1..] && b[1..][..n-1] == b[..n][1..];
      }
    }
  }

  lemma {:induction false} LessTransitive(a: string, b: string, c: string)
    requires Less(a, b) && Less(b, c)
    ensures Less(a, c)
  {
    if a != [] && a[0] == b[0] && b[0] == c[0] {
      LessTransitive(a[1..], b[1..], c[1..]);
    }
  }

  lemma {:induction false} LessTotal(a: string, b: string)
    ensures Less(a, b) || a == b || Less(b, a)
    ensures !(Less(a, b) && Less(b, a)) && !Less(a, a)
  {
    if a != [] && b != [] && a[0] == b[0] {
      LessTotal(a[1..], b[1..]);
      assert a == [a[0]] + a[1..] && b == [b[0]] + b[1..];
    }
    if a != [] {
      LessTotal(a[1..], a[1..]);
    }
  }

  // ----- sorting by a string key, the library sort -----

  /** Keys in strictly ascending order. */
  predicate Ascending<T(!new)>(key: T -> string, xs: seq<T>) {
    forall i, j :: 0 <= i < j < |xs| ==> Less(key(xs[i]), key(xs[j]))
  }

  predicate DistinctKeys<T(!new)>(key: T -> string, xs: seq<T>) {
    forall i, j :: 0 <= i < j < |xs| ==> key(xs[i]) != key(xs[j])
  }

  function Insert<T(!new)>(key: T -> string, x: T, xs: seq<T>): seq<T> {
    if xs == [] || Less(key(x), key(xs[0])) then [x] + xs else [xs[0]] + Insert(key, x, xs[1..])
  }

  function SortBy<T(!new)>(key: T -> string, xs: seq<T>): seq<T> {
    if xs == [] then [] else Insert(key, xs[0], SortBy(key, xs[1..]))
  }

  lemma {:induction false} InsertKeeps<T(!new)>(key: T -> string, x: T, xs: seq<T>)
    ensures forall y :: y in Insert(key, x, xs) <==> y == x || y in xs
    ensures |Insert(key, x, xs)| == |xs| + 1
  {
    if xs != [] && !Less(key(x), key(xs[0])) {
      InsertKeeps(key, x, xs[1..]);
      assert xs == [xs[0]] + xs[1..];
    }
  }

  lemma {:induction false} SortKeeps<T(!new)>(key: T -> string, xs: seq<T>)
    ensures forall y :: y in SortBy(key, xs) <==> y in xs
    ensures |SortBy(key, xs)| == |xs|
  {
    if xs != [] {
      SortKeeps(key, xs[1..]);
      InsertKeeps(key, xs[0], SortBy(key, xs[1..]));
      assert xs == [xs[0]] + xs[1..];
    }
  }

  lemma {:induction false} InsertSorts<T(!new)>(key: T -> string, x: T, xs: seq<T>)
    requires Ascending(key, xs) && forall y <- xs :: key(y) != key(x)
    ensures Ascending(key, Insert(key, x, xs))
  {
    if xs != [] {
      LessTotal(key(x), key(xs[0]));
      if Less(key(x), key(xs[0])) {
        forall i | 0 < i < |xs| ensures Less(key(x), key(xs[i])) {
          LessTransitive(key(x), key(xs[0]), key(xs[i]));
        }
      } else {
        InsertSorts(key, x, xs[1..]);
        InsertKeeps(key, x, xs[1..]);
        var rest := Insert(key, x, xs[1..]);
        forall k | 0 <= k < |rest| ensures Less(key(xs[0]), key(rest[k])) {
          assert rest[k] in rest;
          if rest[k] != x {
            var m :| 0 <= m < |xs[1..]| && xs[1..][m] == rest[k];
          }
        }
      }
    }
  }

  lemma {:induction false} SortSorts<T(!new)>(key: T -> string, xs: seq<T>)
    requires DistinctKeys(key, xs)
    ensures Ascending(key, SortBy(key, xs))
  {
    if xs != [] {
      SortSorts(key, xs[1..]);
      SortKeeps(key, xs[1..]);
      var rest := SortBy(key, xs[1..]);
      forall k | 0 <= k < |rest| ensures key(rest[k]) != key(xs[0]) {
        assert rest[k] in rest;
        var m :| 0 <= m < |xs[1..]| && xs[1..][m] == rest[k];
      }
      InsertSorts(key, xs[0], SortBy(key, xs[1..]));
    }
  }

  /** A strictly ascending list is determined by its elements. */
  lemma {:induction false} AscendingUnique<T(!new)>(key: T -> string, xs: seq<T>, ys: seq<T>)
    requires Ascending(key, xs) && Ascending(key, ys)
    requires forall x :: x in xs <==> x in ys
    ensures xs == ys
  {
    assert ys != [] ==> ys[0] in ys;
    if xs != [] {
      assert xs[0] in ys && ys != [] && ys[0] in xs;
      LessTotal(key(xs[0]), key(ys[0]));
      assert xs[0] == ys[0];
      LessTotal(key(xs[0]), key(xs[0]));
      assert xs[0] !in xs[1..] && ys[0] !in ys[1..];
      forall x ensures x in xs[1..] <==> x in ys[1..] {
        assert x in xs <==> x == xs[0] || x in xs[1..];
        assert x in ys <==> x == ys[0] || x in ys[1..];
      }
      AscendingUnique(key, xs[1..], ys[1..]);
    }
  }
}
