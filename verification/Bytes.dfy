/** Little-endian integers and fixed layouts of byte fields. */
module Bytes {
  type byte = x: nat | x < 256

  type Bytes32 = s: seq<byte> | |s| == 32 witness seq(32, _ => 0)

  type Bytes64 = s: seq<byte> | |s| == 64 witness seq(64, _ => 0)

  const ZERO32: Bytes32 := Zeros(32)

  // ---- integers ---------------------------------------------------------------------------

  function Power256(n: nat): (r: nat)
    ensures r >= 1
  {
    if n == 0 then 1 else 256 * Power256(n - 1)
  }

  lemma Widths()
    ensures Power256(2) == 0x1_0000 && Power256(4) == 0x1_0000_0000 && Power256(8) == 0x1_0000_0000_0000_0000
  {
    assert Power256(4) == 0x1_0000_0000;
  }

  function ToLe(x: nat, n: nat): (r: seq<byte>)
    ensures |r| == n
  {
    if n == 0 then [] else [x % 256] + ToLe(x / 256, n - 1)
  }

  /** Byte `k` is the `k`-th digit to the base 256, the lowest first. */
  lemma {:induction false} ToLeByte(x: nat, n: nat, k: nat)
    requires k < n
    ensures ToLe(x, n)[k] == x / Power256(k) % 256
  {
    if k > 0 {
      ToLeByte(x / 256, n - 1, k - 1);
      DivTwice(x, Power256(k - 1));
    }
  }

  lemma DivTwice(x: nat, p: nat)
    requires p > 0
    ensures x / 256 / p == x / (256 * p)
  {
    var q := x / 256;
    Bounds(q, p);
    Bounds(x, 256 * p);
    var m, n := Quotient(q, p), Quotient(x, 256 * p);
    hide Quotient;
    assert m * (256 * p) == 256 * (m * p);
    SameQuotient(m, n, 256 * p, x);
  }

  lemma SameQuotient(m: nat, n: nat, d: nat, x: nat)
    requires m * d <= x < m * d + d && n * d <= x < n * d + d
    ensures m == n
  {
    AtLeast(m, n, d, x);
    AtLeast(n, m, d, x);
  }

  lemma AtLeast(m: nat, n: nat, d: nat, x: nat)
    requires n * d <= x < m * d + d
    ensures n <= m
  {
    assert (m + 1) * d == m * d + d;
    if n >= m + 1 { TimesMore(m + 1, n, d); }
  }

  function Quotient(x: nat, d: nat): nat
    requires d > 0
  {
    x / d
  }

  lemma Bounds(x: nat, d: nat)
    requires d > 0
    ensures Quotient(x, d) * d <= x < Quotient(x, d) * d + d
  {}

  lemma TimesMore(a: int, b: int, d: nat)
    requires a <= b
    ensures a * d <= b * d
  {}

  lemma Powers()
    ensures Power256(0) == 1 && Power256(1) == 256 && Power256(2) == 0x1_0000 && Power256(3) == 0x100_0000
  {}

  function FromLe(b: seq<byte>): nat {
    if b == [] then 0 else b[0] + 256 * FromLe(b[1..])
  }

  lemma {:induction false} LeRound(x: nat, n: nat)
    requires x < Power256(n)
    ensures FromLe(ToLe(x, n)) == x
  {
    if n > 0 {
      LeRound(x / 256, n - 1);
      assert ToLe(x, n)[1..] == ToLe(x / 256, n - 1);
    }
  }

  lemma {:induction false} LeBack(b: seq<byte>)
    ensures FromLe(b) < Power256(|b|) && ToLe(FromLe(b), |b|) == b
  {
    if b != [] {
      LeBack(b[1..]);
      var low, high := b[0], FromLe(b[1..]);
      assert (low + 256 * high) % 256 == low && (low + 256 * high) / 256 == high;
      assert b == [low] + b[1..];
    }
  }

  // ---- layouts ----------------------------------------------------------------------------

  /** Fields one after the other. */
  function Layout(fields: seq<seq<byte>>): seq<byte> {
    if fields == [] then [] else Layout(fields[..|fields| - 1]) + fields[|fields| - 1]
  }

  lemma LayoutStep(fields: seq<seq<byte>>, k: nat)
    requires k < |fields|
    ensures Layout(fields[..k + 1]) == Layout(fields[..k]) + fields[k]
  {
    assert fields[..k + 1][..k] == fields[..k];
  }

  /** The beginning of a layout is the layout of the first fields. */
  lemma {:induction false} LayoutPrefix(fields: seq<seq<byte>>, k: nat)
    requires k <= |fields|
    ensures |Layout(fields[..k])| <= |Layout(fields)| && Layout(fields)[..|Layout(fields[..k])|] == Layout(fields[..k])
    decreases |fields| - k
  {
    if k < |fields| {
      LayoutPrefix(fields, k + 1);
      LayoutStep(fields, k);
      var mid, all := Layout(fields[..k + 1]), Layout(fields);
      assert all[..|Layout(fields[..k])|] == all[..|mid|][..|Layout(fields[..k])|];
    } else {
      assert fields[..k] == fields;
    }
  }

  ghost predicate FieldAt(data: seq<byte>, at: nat, field: seq<byte>) {
    at + |field| <= |data| && data[at..at + |field|] == field
  }

  /** Field `k` reaches from `offsets[k]` to `offsets[k + 1]`. */
  ghost predicate Measured(fields: seq<seq<byte>>, offsets: seq<nat>) {
    |offsets| == |fields| + 1 && offsets[0] == 0 && forall k :: 0 <= k < |fields| ==> Measures(fields, offsets, k)
  }

  ghost predicate Measures(fields: seq<seq<byte>>, offsets: seq<nat>, k: nat)
    requires k < |fields| && |offsets| == |fields| + 1
  {
    offsets[k + 1] == offsets[k] + |fields[k]|
  }

  lemma {:induction false} LayoutLength(fields: seq<seq<byte>>, offsets: seq<nat>, k: nat)
    requires Measured(fields, offsets) && k <= |fields|
    ensures |Layout(fields[..k])| == offsets[k]
  {
    if k > 0 {
      LayoutLength(fields, offsets, k - 1);
      LayoutStep(fields, k - 1);
      assert Measures(fields, offsets, k - 1);
    }
  }

  /** Every field is found at its offset. */
  lemma LayoutField(fields: seq<seq<byte>>, offsets: seq<nat>, k: nat)
    requires Measured(fields, offsets) && k < |fields|
    ensures FieldAt(Layout(fields), offsets[k], fields[k])
  {
    LayoutLength(fields, offsets, k);
    LayoutStep(fields, k);
    LayoutPrefix(fields, k + 1);
    hide Layout, Measured;
    var at, mid, all := offsets[k], Layout(fields[..k + 1]), Layout(fields);
    assert all[at..at + |fields[k]|] == all[..|mid|][at..];
    assert mid[at..] == fields[k];
  }

  /** Data that shows every field at its offset begins with the layout of the fields. */
  lemma {:induction false} LayoutOf(data: seq<byte>, fields: seq<seq<byte>>, offsets: seq<nat>, k: nat)
    requires Measured(fields, offsets) && k <= |fields|
    requires forall j :: 0 <= j < |fields| ==> FieldAt(data, offsets[j], fields[j])
    ensures offsets[k] <= |data| && Layout(fields[..k]) == data[..offsets[k]]
  {
    if k > 0 {
      LayoutOf(data, fields, offsets, k - 1);
      LayoutStep(fields, k - 1);
      assert Measures(fields, offsets, k - 1) && FieldAt(data, offsets[k - 1], fields[k - 1]);
      assert data[..offsets[k - 1]] + data[offsets[k - 1]..offsets[k]] == data[..offsets[k]];
    }
  }

  // ---- filling a buffer -------------------------------------------------------------------

  function Zeros(n: nat): (r: seq<byte>)
    ensures |r| == n
  {
    seq(n, _ => 0)
  }

  /** A zeroed buffer after its first `k` fields, `at` bytes, were written. */
  ghost predicate Written(data: seq<byte>, at: nat, fields: seq<seq<byte>>, k: nat) {
    k <= |fields| && at <= |data| && data[..at] == Layout(fields[..k]) && data[at..] == Zeros(|data| - at)
  }

  /** Copies the next field to its place. */
  method CopyField(buffer: array<byte>, at: nat, field: seq<byte>, ghost fields: seq<seq<byte>>, ghost k: nat)
    requires Written(buffer[..], at, fields, k) && k < |fields| && fields[k] == field && at + |field| <= buffer.Length
    modifies buffer
    ensures Written(buffer[..], at + |field|, fields, k + 1)
  {
    hide Written;
    for i := 0 to |field|
      invariant forall j :: 0 <= j < buffer.Length ==>
        buffer[j] == if at <= j < at + i then field[j - at] else old(buffer[j])
    {
      buffer[at + i] := field[i];
    }
    ghost var was, end := old(buffer[..]), at + |field|;
    assert buffer[..] == was[..at] + field + was[end..];
    NextWritten(was, at, fields, k);
  }

  /** Replacing zeros by the next field. */
  lemma NextWritten(data: seq<byte>, at: nat, fields: seq<seq<byte>>, k: nat)
    requires Written(data, at, fields, k) && k < |fields| && at + |fields[k]| <= |data|
    ensures
      var end := at + |fields[k]|;
      Written(data[..at] + fields[k] + data[end..], end, fields, k + 1)
  {
    var end := at + |fields[k]|;
    var next := data[..at] + fields[k] + data[end..];
    LayoutStep(fields, k);
    hide Layout;
    assert next[..end] == data[..at] + fields[k] && next[end..] == data[end..];
    assert data[end..] == data[at..][|fields[k]|..];
  }

  /** Leaves a reserved field zero. */
  lemma SkipField(data: seq<byte>, at: nat, fields: seq<seq<byte>>, k: nat)
    requires Written(data, at, fields, k) && k < |fields| && fields[k] == Zeros(|fields[k]|)
      && at + |fields[k]| <= |data|
    ensures Written(data, at + |fields[k]|, fields, k + 1)
  {
    LayoutStep(fields, k);
    hide Layout;
    assert data[..at + |fields[k]|] == data[..at] + data[at..][..|fields[k]|];
    assert data[at + |fields[k]|..] == data[at..][|fields[k]|..];
  }
}
