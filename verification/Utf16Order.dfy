/** The key order of RFC 8785, section 3.2.3: by UTF-16 code units. */
module Utf16Order {
  /** The code units of one character. */
  function Units(c: char): (r: seq<nat>)
    ensures |r| == 1 ==> r[0] == c as nat && !(0xD800 <= r[0] < 0xE000)
    ensures |r| == 2 ==> 0xD800 <= r[0] < 0xDC00 <= r[1] < 0xE000 &&
                         0x10000 + (r[0] - 0xD800) * 0x400 + (r[1] - 0xDC00) == c as nat
    ensures 1 <= |r| <= 2
  {
    var code := c as nat;
    if code < 0x10000 then [code]
    else [0xD800 + (code - 0x10000) / 0x400, 0xDC00 + (code - 0x10000) % 0x400]
  }

  function EncodeUtf16(s: string): seq<nat> {
    if s == "" then [] else Units(s[0]) + EncodeUtf16(s[1..])
  }

  /** Encoding goes character by character. */
  lemma {:induction false} EncodeAppend(a: string, b: string)
    ensures EncodeUtf16(a + b) == EncodeUtf16(a) + EncodeUtf16(b)
  {
    if a == "" {
      assert a + b == b;
    } else {
      assert (a + b)[1..] == a[1..] + b;
      EncodeAppend(a[1..], b);
    }
  }

  lemma EncodeOne(c: char)
    ensures EncodeUtf16([c]) == Units(c) && EncodeUtf16("") == []
  {}

  /** Different strings have different encodings. */
  lemma {:induction false} EncodingInjective(a: string, b: string)
    requires EncodeUtf16(a) == EncodeUtf16(b)
    ensures a == b
  {
    if a != "" && b != "" {
      var x, y := Units(a[0]), Units(b[0]);
      assert (x + EncodeUtf16(a[1..]))[0] == (y + EncodeUtf16(b[1..]))[0];
      assert |x| == |y|;
      if |x| == 2 {
        assert (x + EncodeUtf16(a[1..]))[1] == (y + EncodeUtf16(b[1..]))[1];
      }
      assert a[0] == b[0];
      assert (x + EncodeUtf16(a[1..]))[|x|..] == EncodeUtf16(a[1..]);
      assert (y + EncodeUtf16(b[1..]))[|y|..] == EncodeUtf16(b[1..]);
      EncodingInjective(a[1..], b[1..]);
      assert a == [a[0]] + a[1..] && b == [b[0]] + b[1..];
    }
  }

  predicate Before(x: seq<nat>, y: seq<nat>) {
    y != [] && (x == [] || x[0] < y[0] || (x[0] == y[0] && Before(x[1..], y[1..])))
  }

  predicate KeyBefore(a: string, b: string) {
    Before(EncodeUtf16(a), EncodeUtf16(b))
  }

  /** `u` is a proper beginning of `v`, or has the smaller unit where they first differ. */
  ghost predicate SmallerAt(u: seq<nat>, v: seq<nat>, i: nat) {
    i <= |u| && i < |v| && u[..i] == v[..i] && (i == |u| || u[i] < v[i])
  }

  lemma {:induction false} BeforeIff(u: seq<nat>, v: seq<nat>)
    ensures Before(u, v) <==> exists i: nat :: SmallerAt(u, v, i)
  {
    if u == [] || v == [] || u[0] != v[0] {
      if Before(u, v) { assert SmallerAt(u, v, 0); }
      forall i: nat | SmallerAt(u, v, i) ensures Before(u, v) {
        if i > 0 { assert u[..i][0] == v[..i][0]; }
      }
    } else {
      var x, y := u[1..], v[1..];
      BeforeIff(x, y);
      if Before(u, v) {
        var i: nat :| SmallerAt(x, y, i);
        assert u[..i + 1] == [u[0]] + x[..i] && v[..i + 1] == [v[0]] + y[..i];
        assert SmallerAt(u, v, i + 1);
      }
      forall i: nat | SmallerAt(u, v, i) ensures Before(u, v) {
        assert i > 0;
        assert x[..i - 1] == u[..i][1..] && y[..i - 1] == v[..i][1..];
        assert SmallerAt(x, y, i - 1);
      }
    }
  }

  /** The key order, said without recursion: section 3.2.3 of RFC 8785. */
  lemma KeyBeforeIff(a: string, b: string)
    ensures KeyBefore(a, b) <==> exists i: nat :: SmallerAt(EncodeUtf16(a), EncodeUtf16(b), i)
  {
    var u, v := EncodeUtf16(a), EncodeUtf16(b);
    BeforeIff(u, v);
    assert KeyBefore(a, b) <==> Before(u, v);
    assert forall i: nat :: SmallerAt(u, v, i) <==> SmallerAt(EncodeUtf16(a), EncodeUtf16(b), i);
  }

  lemma {:induction false} BeforeTotal(x: seq<nat>, y: seq<nat>)
    ensures Before(x, y) || Before(y, x) || x == y
    ensures !(Before(x, y) && Before(y, x))
    ensures !Before(x, x)
  {
    if x != [] && y != [] && x[0] == y[0] {
      BeforeTotal(x[1..], y[1..]);
      assert x == [x[0]] + x[1..] && y == [y[0]] + y[1..];
    }
    if x != [] && x != y {
      BeforeTotal(x[1..], x[1..]);
    }
    if x == y && x != [] {
      BeforeTotal(x[1..], x[1..]);
    }
  }

  lemma {:induction false} BeforeTransitive(x: seq<nat>, y: seq<nat>, z: seq<nat>)
    requires Before(x, y) && Before(y, z)
    ensures Before(x, z)
  {
    if x != [] && x[0] == y[0] == z[0] {
      BeforeTransitive(x[1..], y[1..], z[1..]);
    }
  }

  /** A strict total order on keys. */
  lemma KeysTotal(a: string, b: string)
    ensures KeyBefore(a, b) || KeyBefore(b, a) || a == b
    ensures !(KeyBefore(a, b) && KeyBefore(b, a))
    ensures !KeyBefore(a, a)
  {
    BeforeTotal(EncodeUtf16(a), EncodeUtf16(b));
    BeforeTotal(EncodeUtf16(a), EncodeUtf16(a));
    if EncodeUtf16(a) == EncodeUtf16(b) { EncodingInjective(a, b); }
  }

  lemma KeysTransitive(a: string, b: string, c: string)
    requires KeyBefore(a, b) && KeyBefore(b, c)
    ensures KeyBefore(a, c)
  {
    BeforeTransitive(EncodeUtf16(a), EncodeUtf16(b), EncodeUtf16(c));
  }

  // ---- sorting members ------------------------------------------------------------------

  type Members<T> = seq<(string, T)>

  ghost predicate Ascending<T>(ps: Members<T>) {
    forall i, j :: 0 <= i < j < |ps| ==> KeyBefore(ps[i].0, ps[j].0)
  }

  ghost predicate DistinctKeys<T>(ps: Members<T>) {
    forall i, j :: 0 <= i < j < |ps| ==> ps[i].0 != ps[j].0
  }

  function Insert<T>(p: (string, T), qs: Members<T>): Members<T> {
    if qs == [] || !KeyBefore(qs[0].0, p.0) then [p] + qs else [qs[0]] + Insert(p, qs[1..])
  }

  /** The stable sort by key. */
  function Sort<T>(ps: Members<T>): Members<T> {
    if ps == [] then [] else Insert(ps[0], Sort(ps[1..]))
  }

  lemma {:induction false} InsertContents<T>(p: (string, T), qs: Members<T>)
    ensures multiset(Insert(p, qs)) == multiset{p} + multiset(qs)
  {
    if !(qs == [] || !KeyBefore(qs[0].0, p.0)) {
      hide KeyBefore;
      InsertContents(p, qs[1..]);
      assert qs == [qs[0]] + qs[1..];
      assert Insert(p, qs) == [qs[0]] + Insert(p, qs[1..]);
    }
  }

  lemma SameContents<T>(ps: Members<T>, qs: Members<T>)
    requires multiset(ps) == multiset(qs)
    ensures |ps| == |qs| && forall x :: x in ps <==> x in qs
  {
    assert |ps| == |multiset(ps)| == |multiset(qs)| == |qs|;
    forall x ensures x in ps <==> x in qs {
      assert x in ps <==> x in multiset(ps);
      assert x in qs <==> x in multiset(qs);
    }
  }

  lemma {:induction false} SortPermutes<T>(ps: Members<T>)
    ensures multiset(Sort(ps)) == multiset(ps)
  {
    if ps != [] {
      SortPermutes(ps[1..]);
      InsertContents(ps[0], Sort(ps[1..]));
      assert ps == [ps[0]] + ps[1..];
    }
  }

  /** Sorting permutes. */
  lemma SortContents<T>(ps: Members<T>)
    ensures multiset(Sort(ps)) == multiset(ps) && |Sort(ps)| == |ps|
    ensures forall x :: x in Sort(ps) <==> x in ps
  {
    SortPermutes(ps);
    SameContents(Sort(ps), ps);
  }

  lemma {:induction false} InsertAscending<T>(p: (string, T), qs: Members<T>)
    requires Ascending(qs) && forall q :: q in qs ==> q.0 != p.0
    ensures Ascending(Insert(p, qs))
  {
    if qs == [] {
    } else if !KeyBefore(qs[0].0, p.0) {
      forall j | 0 <= j < |qs| ensures KeyBefore(p.0, qs[j].0) {
        KeysTotal(qs[0].0, p.0);
        assert qs[0] in qs;
        if j > 0 { KeysTransitive(p.0, qs[0].0, qs[j].0); }
      }
    } else {
      InsertAscending(p, qs[1..]);
      InsertContents(p, qs[1..]);
      var rest := Insert(p, qs[1..]);
      forall j | 0 <= j < |rest| ensures KeyBefore(qs[0].0, rest[j].0) {
        assert rest[j] in multiset(rest);
        if rest[j] != p {
          assert rest[j] in qs[1..];
          var k :| 0 <= k < |qs[1..]| && qs[1..][k] == rest[j];
          assert qs[k + 1] == rest[j];
        }
      }
    }
  }

  /** Of two members the one with the smaller key comes first, also among repeated keys. */
  ghost predicate InOrder<T>(ps: Members<T>) {
    forall i, j :: 0 <= i < j < |ps| ==> !KeyBefore(ps[j].0, ps[i].0)
  }

  lemma {:induction false} InsertInOrder<T>(p: (string, T), qs: Members<T>)
    requires InOrder(qs)
    ensures InOrder(Insert(p, qs))
  {
    if qs != [] && !KeyBefore(qs[0].0, p.0) {
      forall j | 0 <= j < |qs| ensures !KeyBefore(qs[j].0, p.0) {
        if KeyBefore(qs[j].0, p.0) {
          KeysTotal(qs[0].0, qs[j].0);
          KeysTotal(p.0, qs[0].0);
          if KeyBefore(qs[0].0, qs[j].0) { KeysTransitive(qs[0].0, qs[j].0, p.0); }
        }
      }
    } else if qs != [] {
      InsertInOrder(p, qs[1..]);
      InsertContents(p, qs[1..]);
      var rest := Insert(p, qs[1..]);
      forall j | 0 <= j < |rest| ensures !KeyBefore(rest[j].0, qs[0].0) {
        assert rest[j] in multiset(rest);
        KeysTotal(p.0, qs[0].0);
        if rest[j] != p {
          assert rest[j] in qs[1..];
          var k :| 0 <= k < |qs[1..]| && qs[1..][k] == rest[j];
          assert qs[k + 1] == rest[j];
        }
      }
    }
  }

  lemma {:induction false} SortInOrder<T>(ps: Members<T>)
    ensures InOrder(Sort(ps))
  {
    if ps != [] {
      SortInOrder(ps[1..]);
      InsertInOrder(ps[0], Sort(ps[1..]));
    }
  }

  /** The members with one key, in order. */
  ghost function WithKey<T>(ps: Members<T>, key: string): Members<T> {
    if ps == [] then [] else (if ps[0].0 == key then [ps[0]] else []) + WithKey(ps[1..], key)
  }

  lemma {:induction false} InsertStable<T>(p: (string, T), qs: Members<T>, key: string)
    ensures WithKey(Insert(p, qs), key) == (if p.0 == key then [p] else []) + WithKey(qs, key)
  {
    if qs == [] || !KeyBefore(qs[0].0, p.0) {
      hide KeyBefore;
      assert ([p] + qs)[1..] == qs;
    } else {
      KeysTotal(qs[0].0, p.0);
      hide KeyBefore;
      InsertStable(p, qs[1..], key);
      assert Insert(p, qs)[0] == qs[0] && Insert(p, qs)[1..] == Insert(p, qs[1..]);
    }
  }

  /** Members with one key keep their order. */
  lemma {:induction false} SortStable<T>(ps: Members<T>, key: string)
    ensures WithKey(Sort(ps), key) == WithKey(ps, key)
  {
    if ps != [] {
      hide KeyBefore, Insert;
      SortStable(ps[1..], key);
      InsertStable(ps[0], Sort(ps[1..]), key);
    }
  }

  /** Sorting distinct keys puts them in strictly ascending order. */
  lemma {:induction false} SortAscending<T>(ps: Members<T>)
    requires DistinctKeys(ps)
    ensures Ascending(Sort(ps))
  {
    if ps != [] {
      forall i, j | 0 <= i < j < |ps[1..]| ensures ps[1..][i].0 != ps[1..][j].0 {
        assert ps[i + 1].0 != ps[j + 1].0;
      }
      SortAscending(ps[1..]);
      SortContents(ps[1..]);
      forall q | q in Sort(ps[1..]) ensures q.0 != ps[0].0 {
        assert q in multiset(Sort(ps[1..]));
        var k :| 0 <= k < |ps[1..]| && ps[1..][k] == q;
        assert ps[k + 1] == q;
      }
      InsertAscending(ps[0], Sort(ps[1..]));
    }
  }

  /** What is strictly ascending is determined by its elements. */
  lemma {:induction false} AscendingUnique<T>(a: Members<T>, b: Members<T>)
    requires Ascending(a) && Ascending(b) && forall x :: x in a <==> x in b
    ensures a == b
  {
    assert a != [] ==> a[0] in a;
    assert b != [] ==> b[0] in b;
    if a != [] && b != [] {
      var i :| 0 <= i < |b| && b[i] == a[0];
      var j :| 0 <= j < |a| && a[j] == b[0];
      KeysTotal(a[0].0, b[0].0);
      assert a[0] == b[0];
      forall x ensures x in a[1..] <==> x in b[1..] {
        if x in a[1..] { TailOf(a, x); assert x in b; assert x != b[0]; InTail(b, x); }
        if x in b[1..] { TailOf(b, x); assert x in a; assert x != a[0]; InTail(a, x); }
      }
      AscendingUnique(a[1..], b[1..]);
      assert a == [a[0]] + a[1..] && b == [b[0]] + b[1..];
    }
  }

  lemma TailOf<T>(a: Members<T>, x: (string, T))
    requires a != [] && Ascending(a) && x in a[1..]
    ensures x in a && x != a[0]
  {
    var k :| 0 <= k < |a[1..]| && a[1..][k] == x;
    assert a[k + 1] == x && KeyBefore(a[0].0, a[k + 1].0);
    KeysTotal(x.0, x.0);
  }

  lemma InTail<T>(a: Members<T>, x: (string, T))
    requires a != [] && x in a && x != a[0]
    ensures x in a[1..]
  {
    var k :| 0 <= k < |a| && a[k] == x;
    assert a[1..][k - 1] == x;
  }

  lemma {:induction false} AscendingDistinct<T>(a: Members<T>)
    requires Ascending(a)
    ensures DistinctKeys(a)
  {
    forall i, j | 0 <= i < j < |a| ensures a[i].0 != a[j].0 { KeysTotal(a[i].0, a[j].0); }
  }

  /** Sorting something ascending changes nothing. */
  lemma SortFixed<T>(a: Members<T>)
    requires Ascending(a)
    ensures Sort(a) == a
  {
    AscendingDistinct(a);
    SortAscending(a);
    SortContents(a);
    AscendingUnique(Sort(a), a);
  }

  function MapValues<S, T>(ps: Members<S>, f: S -> T): (r: Members<T>)
    ensures |r| == |ps| && forall i :: 0 <= i < |ps| ==> r[i] == (ps[i].0, f(ps[i].1))
  {
    seq(|ps|, i requires 0 <= i < |ps| => (ps[i].0, f(ps[i].1)))
  }

  lemma {:induction false} InsertMap<S, T>(p: (string, S), qs: Members<S>, f: S -> T)
    ensures MapValues(Insert(p, qs), f) == Insert((p.0, f(p.1)), MapValues(qs, f))
  {
    if !(qs == [] || !KeyBefore(qs[0].0, p.0)) {
      InsertMap(p, qs[1..], f);
      assert MapValues(qs, f)[1..] == MapValues(qs[1..], f);
    }
  }

  /** Sorting looks at keys only. */
  lemma {:induction false} SortMap<S, T>(ps: Members<S>, f: S -> T)
    ensures Sort(MapValues(ps, f)) == MapValues(Sort(ps), f)
  {
    if ps != [] {
      SortMap(ps[1..], f);
      assert MapValues(ps, f)[1..] == MapValues(ps[1..], f);
      InsertMap(ps[0], Sort(ps[1..]), f);
    }
  }

  ghost function KeySet<T>(ps: Members<T>): (r: set<string>)
    ensures forall k :: 0 <= k < |ps| ==> ps[k].0 in r
    ensures forall key :: key in r ==> exists k :: 0 <= k < |ps| && ps[k].0 == key
  {
    set k | 0 <= k < |ps| :: ps[k].0
  }

  lemma LastKey<T>(ps: Members<T>)
    requires ps != []
    ensures
      var init, key := ps[..|ps| - 1], ps[|ps| - 1].0;
      && KeySet(ps) == KeySet(init) + {key}
      && (DistinctKeys(ps) <==> DistinctKeys(init) && key !in KeySet(init))
  {
    var init, key := ps[..|ps| - 1], ps[|ps| - 1].0;
    assert forall k :: 0 <= k < |init| ==> init[k] == ps[k];
    assert DistinctKeys(ps) ==> key !in KeySet(init);
  }

  /** Keys are distinct exactly when there are as many as members. */
  lemma {:induction false} DistinctIffAsMany<T>(ps: Members<T>)
    ensures |KeySet(ps)| <= |ps|
    ensures DistinctKeys(ps) <==> |KeySet(ps)| == |ps|
  {
    if ps != [] {
      LastKey(ps);
      hide DistinctKeys, KeySet;
      var init, key := ps[..|ps| - 1], ps[|ps| - 1].0;
      DistinctIffAsMany(init);
      if key in KeySet(init) { assert KeySet(init) + {key} == KeySet(init); }
    }
  }

  /** Sorting neither makes nor removes duplicates. */
  lemma SortDistinct<T>(ps: Members<T>)
    ensures DistinctKeys(Sort(ps)) <==> DistinctKeys(ps)
  {
    SortContents(ps);
    DistinctIffAsMany(ps);
    DistinctIffAsMany(Sort(ps));
    SameKeySet(ps, Sort(ps));
    SameKeySet(Sort(ps), ps);
    assert KeySet(ps) == KeySet(Sort(ps));
  }

  lemma SameKeySet<T>(ps: Members<T>, qs: Members<T>)
    requires multiset(ps) == multiset(qs)
    ensures KeySet(ps) <= KeySet(qs)
  {
    forall key | key in KeySet(ps) ensures key in KeySet(qs) {
      var k :| 0 <= k < |ps| && ps[k].0 == key;
      assert ps[k] in multiset(ps) && ps[k] in multiset(qs);
      var j :| 0 <= j < |qs| && qs[j] == ps[k];
    }
  }
}
