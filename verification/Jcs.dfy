/** Canonical JSON (`rvm-anchor/src/jcs.rs`): an integer-only parser and the printer of
    RFC 8785, over texts of Unicode scalar values. */
module Jcs {
  import opened Types
  import opened Utf16Order

  type i64 = x: int | -0x8000_0000_0000_0000 <= x <= 0x7FFF_FFFF_FFFF_FFFF

  datatype Json =
    Null | Bool(b: bool) | Int(i: i64) | Str(s: string) | Arr(items: seq<Json>) | Obj(pairs: Members<Json>)

  datatype JsonError = Syntax | NonConformingNumber | DuplicateKey | TrailingData | BadEscape

  /** No object, at any depth, has a key twice. */
  ghost predicate KeysDistinct(v: Json) {
    match v
    case Null | Bool(_) | Int(_) | Str(_) => true
    case Arr(items) => forall k :: 0 <= k < |items| ==> KeysDistinct(items[k])
    case Obj(pairs) => DistinctKeys(pairs) && forall k :: 0 <= k < |pairs| ==> KeysDistinct(pairs[k].1)
  }

  // ---- printing ---------------------------------------------------------------------------

  function Digit(d: nat): (c: char)
    requires d < 16
  {
    if d < 10 then '0' + (d as char) else 'a' + ((d - 10) as char)
  }

  function Decimal(n: nat): string {
    if n < 10 then [Digit(n)] else Decimal(n / 10) + [Digit(n % 10)]
  }

  function Integer(i: int): string {
    if i < 0 then "-" + Decimal(-i) else Decimal(i)
  }

  /** How a character appears inside a string (RFC 8785, section 3.2.2.2). */
  function Escape(c: char): (r: string)
    ensures r != "" && r[0] >= ' '
  {
    if c == '"' then "\\\"" else if c == '\\' then "\\\\"
    else if c == '\U{08}' then "\\b" else if c == '\t' then "\\t" else if c == '\n' then "\\n"
    else if c == '\U{0C}' then "\\f" else if c == '\r' then "\\r"
    else if c < ' ' then "\\u00" + [Digit(c as nat / 16), Digit(c as nat % 16)]
    else [c]
  }

  function EscapeAll(s: string): string {
    if s == "" then "" else Escape(s[0]) + EscapeAll(s[1..])
  }

  function Quoted(s: string): string {
    "\"" + EscapeAll(s) + "\""
  }

  /** `parts` separated by commas and closed by `end`. */
  function Joined(parts: seq<string>, end: string): string {
    if parts == [] then end else parts[0] + (if |parts| == 1 then "" else ",") + Joined(parts[1..], end)
  }

  function MemberTexts(ps: Members<string>): (r: seq<string>)
    ensures |r| == |ps| && forall k :: 0 <= k < |ps| ==> r[k] == Quoted(ps[k].0) + ":" + ps[k].1
  {
    seq(|ps|, k requires 0 <= k < |ps| => Quoted(ps[k].0) + ":" + ps[k].1)
  }

  /** The canonical text: no white space, members in key order. */
  function Canonical(v: Json): string {
    match v
    case Null => "null"
    case Bool(b) => if b then "true" else "false"
    case Int(i) => Integer(i)
    case Str(s) => Quoted(s)
    case Arr(items) => "[" + Joined(seq(|items|, k requires 0 <= k < |items| => Canonical(items[k])), "]")
    case Obj(pairs) =>
      var texts := seq(|pairs|, k requires 0 <= k < |pairs| => (pairs[k].0, Canonical(pairs[k].1)));
      "{" + Joined(MemberTexts(Sort(texts)), "}")
  }

  /** The same value with the members of every object in key order. */
  function Normal(v: Json): Json {
    match v
    case Null | Bool(_) | Int(_) | Str(_) => v
    case Arr(items) => Arr(seq(|items|, k requires 0 <= k < |items| => Normal(items[k])))
    case Obj(pairs) => Obj(Sort(seq(|pairs|, k requires 0 <= k < |pairs| => (pairs[k].0, Normal(pairs[k].1)))))
  }

  // ---- parsing ----------------------------------------------------------------------------

  type Parsed<T> = Result<(T, nat), JsonError>

  predicate IsSpace(c: char) { c == ' ' || c == '\t' || c == '\n' || c == '\r' }

  predicate IsDigit(c: char) { '0' <= c <= '9' }

  /** Whether the next character is `c`. */
  predicate Next(s: string, pos: nat, c: char) {
    pos < |s| && s[pos] == c
  }

  function SkipSpace(s: string, pos: nat): (r: nat)
    requires pos <= |s|
    ensures pos <= r <= |s|
    decreases |s| - pos
  {
    if pos < |s| && IsSpace(s[pos]) then SkipSpace(s, pos + 1) else pos
  }

  function LiteralAt(s: string, pos: nat, literal: string, value: Json): Parsed<Json>
    requires pos <= |s|
  {
    if |s| >= pos + |literal| && s[pos..pos + |literal|] == literal then Ok((value, pos + |literal|)) else Err(Syntax)
  }

  function DigitsEnd(s: string, pos: nat): (r: nat)
    requires pos <= |s|
    ensures pos <= r <= |s| && (r < |s| ==> !IsDigit(s[r])) && forall k :: pos <= k < r ==> IsDigit(s[k])
    decreases |s| - pos
  {
    if pos < |s| && IsDigit(s[pos]) then DigitsEnd(s, pos + 1) else pos
  }

  function DigitValue(c: char): nat
    requires IsDigit(c)
  {
    c as nat - '0' as nat
  }

  function DigitsValue(s: string, lo: nat, hi: nat): nat
    requires lo <= hi <= |s|
    requires forall k :: lo <= k < hi ==> IsDigit(s[k])
  {
    if lo == hi then 0 else 10 * DigitsValue(s, lo, hi - 1) + DigitValue(s[hi - 1])
  }

  function NumberAt(s: string, pos: nat): (r: Parsed<Json>)
    requires pos < |s|
    ensures r.Ok? ==> pos < r.value.1 <= |s| && r.value.0.Int?
  {
    var start := if s[pos] == '-' then pos + 1 else pos;
    var end := DigitsEnd(s, start);
    if end == start then Err(Syntax)
    else if s[start] == '0' && end - start > 1 then Err(Syntax)
    else if end < |s| && (s[end] == '.' || s[end] == 'e' || s[end] == 'E') then Err(NonConformingNumber)
    else if s[pos..end] == "-0" then Err(NonConformingNumber)
    else
      var size: int := DigitsValue(s, start, end);
      var value: int := if s[pos] == '-' then -size else size;
      if -0x8000_0000_0000_0000 <= value <= 0x7FFF_FFFF_FFFF_FFFF then Ok((Int(value), end))
      else Err(NonConformingNumber)
  }

  function HexValue(c: char): Option<nat> {
    if '0' <= c <= '9' then Some(c as nat - '0' as nat)
    else if 'a' <= c <= 'f' then Some(c as nat - 'a' as nat + 10)
    else if 'A' <= c <= 'F' then Some(c as nat - 'A' as nat + 10)
    else None
  }

  predicate HexDigitsAt(s: string, pos: nat, count: nat) {
    pos + count <= |s| && forall k :: pos <= k < pos + count ==> HexValue(s[k]).Some?
  }

  /** The value of `count` hexadecimal digits. */
  function HexPrefix(s: string, pos: nat, count: nat): (r: nat)
    requires HexDigitsAt(s, pos, count) && count <= 4
    ensures r < [1, 0x10, 0x100, 0x1000, 0x10000][count]
  {
    if count == 0 then 0 else HexPrefix(s, pos, count - 1) * 16 + HexValue(s[pos + count - 1]).value
  }

  function Hex4At(s: string, pos: nat): (r: Parsed<nat>)
    ensures r.Ok? ==> r.value.0 < 0x10000 && r.value.1 == pos + 4 <= |s|
  {
    if HexDigitsAt(s, pos, 4) then Ok((HexPrefix(s, pos, 4), pos + 4)) else Err(BadEscape)
  }

  /** The character after `\u`: one unit, or a high surrogate with its low one. */
  function UnicodeAt(s: string, pos: nat): (r: Parsed<char>)
    ensures r.Ok? ==> pos < r.value.1 <= |s|
  {
    var high := Hex4At(s, pos);
    if high.Err? then Err(high.error)
    else if 0xD800 <= high.value.0 <= 0xDBFF then
      if !Next(s, pos + 4, '\\') || !Next(s, pos + 5, 'u') then Err(BadEscape)
      else
        var low := Hex4At(s, pos + 6);
        if low.Err? then Err(low.error)
        else if !(0xDC00 <= low.value.0 <= 0xDFFF) then Err(BadEscape)
        else Ok(((0x10000 + (high.value.0 - 0xD800) * 0x400 + (low.value.0 - 0xDC00)) as char, low.value.1))
    else if 0xDC00 <= high.value.0 <= 0xDFFF then Err(BadEscape)
    else Ok((high.value.0 as char, high.value.1))
  }

  /** The single-letter escapes. */
  function Unescape(c: char): Option<char> {
    if c == '"' || c == '\\' || c == '/' then Some(c)
    else if c == 'b' then Some('\U{08}') else if c == 'f' then Some('\U{0C}') else if c == 'n' then Some('\n')
    else if c == 'r' then Some('\r') else if c == 't' then Some('\t')
    else None
  }

  /** The escape whose letter is at `pos`. */
  function EscapeAt(s: string, pos: nat): (r: Parsed<char>)
    ensures r.Ok? ==> pos < r.value.1 <= |s|
  {
    if Next(s, pos, 'u') then UnicodeAt(s, pos + 1)
    else if pos < |s| && Unescape(s[pos]).Some? then Ok((Unescape(s[pos]).value, pos + 1))
    else Err(BadEscape)
  }

  /** The characters up to the closing quote, after those in `out`. */
  function CharsFrom(s: string, pos: nat, out: string): (r: Parsed<string>)
    requires pos <= |s|
    ensures r.Ok? ==> pos < r.value.1 <= |s|
    decreases |s| - pos
  {
    if pos == |s| then Err(Syntax)
    else if s[pos] == '"' then Ok((out, pos + 1))
    else if s[pos] == '\\' then
      var escape := EscapeAt(s, pos + 1);
      if escape.Err? then Err(escape.error) else CharsFrom(s, escape.value.1, out + [escape.value.0])
    else if s[pos] < ' ' then Err(Syntax)
    else CharsFrom(s, pos + 1, out + [s[pos]])
  }

  /** The value at `pos`, after white space. Whatever is accepted has distinct keys. */
  function ValueAt(s: string, pos: nat): (r: Parsed<Json>)
    requires pos <= |s|
    ensures r.Ok? ==> pos < r.value.1 <= |s| && KeysDistinct(r.value.0)
    decreases |s| - pos, 1
  {
    var p := SkipSpace(s, pos);
    if p == |s| then Err(Syntax)
    else if s[p] == '{' then ObjectAt(s, p)
    else if s[p] == '[' then ArrayAt(s, p)
    else if s[p] == '"' then
      var chars := CharsFrom(s, p + 1, "");
      if chars.Err? then Err(chars.error) else Ok((Str(chars.value.0), chars.value.1))
    else if s[p] == 't' then LiteralAt(s, p, "true", Bool(true))
    else if s[p] == 'f' then LiteralAt(s, p, "false", Bool(false))
    else if s[p] == 'n' then LiteralAt(s, p, "null", Null)
    else if s[p] == '-' || IsDigit(s[p]) then NumberAt(s, p)
    else Err(Syntax)
  }

  function ArrayAt(s: string, pos: nat): (r: Parsed<Json>)
    requires pos < |s|
    ensures r.Ok? ==> pos < r.value.1 <= |s| && KeysDistinct(r.value.0)
    decreases |s| - pos, 0
  {
    var p := SkipSpace(s, pos + 1);
    if Next(s, p, ']') then Ok((Arr([]), p + 1)) else ItemsFrom(s, p, [])
  }

  function ItemsFrom(s: string, pos: nat, items: seq<Json>): (r: Parsed<Json>)
    requires pos <= |s|
    ensures r.Ok? && (forall k :: 0 <= k < |items| ==> KeysDistinct(items[k])) ==> KeysDistinct(r.value.0)
    ensures r.Ok? ==> pos < r.value.1 <= |s|
    decreases |s| - pos, 2
  {
    var item := ValueAt(s, pos);
    if item.Err? then Err(item.error)
    else
      var p := SkipSpace(s, item.value.1);
      if Next(s, p, ',') then ItemsFrom(s, p + 1, items + [item.value.0])
      else if Next(s, p, ']') then Ok((Arr(items + [item.value.0]), p + 1))
      else Err(Syntax)
  }

  predicate HasKey(pairs: Members<Json>, key: string) {
    exists k :: 0 <= k < |pairs| && pairs[k].0 == key
  }

  function ObjectAt(s: string, pos: nat): (r: Parsed<Json>)
    requires pos < |s|
    ensures r.Ok? ==> pos < r.value.1 <= |s| && KeysDistinct(r.value.0)
    decreases |s| - pos, 0
  {
    var p := SkipSpace(s, pos + 1);
    if Next(s, p, '}') then Ok((Obj([]), p + 1)) else MembersFrom(s, p, [])
  }

  function MembersFrom(s: string, pos: nat, pairs: Members<Json>): (r: Parsed<Json>)
    requires pos <= |s|
    ensures r.Ok? && KeysDistinct(Obj(pairs)) ==> KeysDistinct(r.value.0)
    ensures r.Ok? ==> pos < r.value.1 <= |s|
    decreases |s| - pos, 2
  {
    var p := SkipSpace(s, pos);
    if !Next(s, p, '"') then Err(Syntax)
    else
      var key := CharsFrom(s, p + 1, "");
      if key.Err? then Err(key.error)
      else if HasKey(pairs, key.value.0) then Err(DuplicateKey)
      else
        var q := SkipSpace(s, key.value.1);
        if !Next(s, q, ':') then Err(Syntax)
        else
          var value := ValueAt(s, q + 1);
          if value.Err? then Err(value.error)
          else
            var e := SkipSpace(s, value.value.1);
            var pairs' := pairs + [(key.value.0, value.value.0)];
            if Next(s, e, ',') then MembersFrom(s, e + 1, pairs')
            else if Next(s, e, '}') then Ok((Obj(pairs'), e + 1))
            else Err(Syntax)
  }

  /** A whole document. */
  function DocumentOf(s: string): (r: Result<Json, JsonError>)
    ensures r.Ok? ==> KeysDistinct(r.value)
  {
    var value := ValueAt(s, 0);
    if value.Err? then Err(value.error)
    else if SkipSpace(s, value.value.1) != |s| then Err(TrailingData)
    else Ok(value.value.0)
  }

  // ---- parsing undoes printing --------------------------------------------------------------

  ghost predicate At(s: string, pos: nat, text: string) {
    pos + |text| <= |s| && s[pos..pos + |text|] == text
  }

  lemma AtSplit(s: string, pos: nat, a: string, b: string)
    ensures At(s, pos, a + b) <==> At(s, pos, a) && At(s, pos + |a|, b)
    ensures At(s, pos, a + b) ==> pos + |a| + |b| <= |s|
  {
    if pos + |a + b| <= |s| {
      assert s[pos..pos + |a + b|] == s[pos..pos + |a|] + s[pos + |a|..pos + |a + b|];
      assert (a + b)[..|a|] == a && (a + b)[|a|..] == b;
      if s[pos..pos + |a + b|] == a + b {
        assert s[pos..pos + |a|] == (a + b)[..|a|];
        assert s[pos + |a|..pos + |a + b|] == (a + b)[|a|..];
      }
    }
  }

  lemma AtChar(s: string, pos: nat, text: string, k: nat)
    requires At(s, pos, text) && k < |text|
    ensures pos + k < |s| && s[pos + k] == text[k]
  {
    assert s[pos..pos + |text|][k] == s[pos + k];
  }

  /** What may come after a number: nothing that would make it longer or a fraction. */
  ghost predicate Ends(s: string, pos: nat) {
    pos < |s| ==> !IsDigit(s[pos]) && s[pos] != '.' && s[pos] != 'e' && s[pos] != 'E'
  }

  lemma {:induction false} DecimalShape(n: nat)
    ensures Decimal(n) != "" && (forall k :: 0 <= k < |Decimal(n)| ==> IsDigit(Decimal(n)[k]))
    ensures Decimal(n)[0] == '0' ==> n == 0
    ensures n == 0 ==> |Decimal(n)| == 1
  {
    if n >= 10 { DecimalShape(n / 10); }
  }

  lemma {:induction false} DecimalValue(s: string, pos: nat, n: nat)
    requires At(s, pos, Decimal(n))
    ensures forall k :: pos <= k < pos + |Decimal(n)| ==> IsDigit(s[k])
    ensures DigitsValue(s, pos, pos + |Decimal(n)|) == n
  {
    var t := Decimal(n);
    DecimalShape(n);
    forall k | pos <= k < pos + |t| ensures IsDigit(s[k]) { AtChar(s, pos, t, k - pos); }
    AtChar(s, pos, t, |t| - 1);
    if n >= 10 {
      AtSplit(s, pos, Decimal(n / 10), [Digit(n % 10)]);
      DecimalValue(s, pos, n / 10);
    }
  }

  lemma {:induction false} DigitsEndAt(s: string, pos: nat, end: nat)
    requires pos <= end <= |s| && (end < |s| ==> !IsDigit(s[end]))
    requires forall k :: pos <= k < end ==> IsDigit(s[k])
    ensures DigitsEnd(s, pos) == end
    decreases end - pos
  {
    if pos < end { DigitsEndAt(s, pos + 1, end); }
  }

  lemma NumberRound(s: string, pos: nat, i: i64)
    requires At(s, pos, Integer(i)) && Ends(s, pos + |Integer(i)|)
    ensures pos < |s| && (s[pos] == '-' || IsDigit(s[pos]))
    ensures NumberAt(s, pos) == Ok((Int(i), pos + |Integer(i)|))
  {
    var j: int := i;
    var n: nat := if j < 0 then -j else j;
    var start := if j < 0 then pos + 1 else pos;
    var end := start + |Decimal(n)|;
    if j < 0 {
      AtSplit(s, pos, "-", Decimal(n));
      AtChar(s, pos, "-", 0);
    }
    DecimalAt(s, start, n);
    assert end == pos + |Integer(i)|;
    hide DigitsValue, DigitsEnd, Decimal, Integer, At;
    NumberRead(s, pos, start, end, n, i);
  }

  /** What the digits from `start` to `end` and the sign before them make. */
  lemma NumberRead(s: string, pos: nat, start: nat, end: nat, n: nat, i: i64)
    requires pos <= start < end <= |s| && end == DigitsEnd(s, start) && Ends(s, end) && IsDigit(s[start])
    requires DigitsValue(s, start, end) == n && (s[start] == '0' ==> end == start + 1 && n == 0)
    requires start == (if i < 0 then pos + 1 else pos) && (if i < 0 then s[pos] == '-' && i + n == 0 else i == n)
    ensures NumberAt(s, pos) == Ok((Int(i), end))
  {
    hide DigitsValue, DigitsEnd;
    if i < 0 { assert s[pos..end][1] == s[start]; }
  }

  lemma DecimalAt(s: string, start: nat, n: nat)
    requires At(s, start, Decimal(n)) && Ends(s, start + |Decimal(n)|)
    ensures start < start + |Decimal(n)| == DigitsEnd(s, start) && IsDigit(s[start])
    ensures DigitsValue(s, start, start + |Decimal(n)|) == n
    ensures s[start] == '0' ==> |Decimal(n)| == 1 && n == 0
  {
    hide Decimal, DigitsValue, DigitsEnd, At;
    DecimalShape(n);
    DecimalValue(s, start, n);
    AtChar(s, start, Decimal(n), 0);
    AtChar(s, start, Decimal(n), |Decimal(n)| - 1);
    DigitsEndAt(s, start, start + |Decimal(n)|);
  }

  lemma EscapeRound(s: string, pos: nat, c: char)
    requires At(s, pos, Escape(c))
    ensures pos < |s|
    ensures s[pos] == '\\' ==> EscapeAt(s, pos + 1) == Ok((c, pos + |Escape(c)|))
    ensures s[pos] != '\\' ==> Escape(c) == [c] && s[pos] == c != '"' && c >= ' '
  {
    AtChar(s, pos, Escape(c), 0);
    if |Escape(c)| == 2 {
      AtChar(s, pos, Escape(c), 1);
    }
    if |Escape(c)| == 6 {
      AtChar(s, pos, Escape(c), 1);
      AtChar(s, pos, Escape(c), 2);
      AtChar(s, pos, Escape(c), 3);
      AtChar(s, pos, Escape(c), 4);
      AtChar(s, pos, Escape(c), 5);
      var high, low := c as nat / 16, c as nat % 16;
      assert s[pos + 2] == '0' && s[pos + 3] == '0' && s[pos + 4] == Digit(high) && s[pos + 5] == Digit(low);
      assert HexPrefix(s, pos + 2, 1) == 0;
      assert HexPrefix(s, pos + 2, 2) == 0;
      assert HexPrefix(s, pos + 2, 3) == high;
      assert HexPrefix(s, pos + 2, 4) == high * 16 + low;
    }
  }

  lemma {:induction false} CharsRound(s: string, pos: nat, t: string, out: string)
    requires At(s, pos, EscapeAll(t) + "\"")
    ensures pos <= |s| && CharsFrom(s, pos, out) == Ok((out + t, pos + |EscapeAll(t)| + 1))
    decreases |t|
  {
    hide At, Escape, EscapeAt;
    AtSplit(s, pos, EscapeAll(t), "\"");
    if t == "" {
      AtChar(s, pos, "\"", 0);
      assert out + t == out;
    } else {
      AtSplit(s, pos, Escape(t[0]), EscapeAll(t[1..]));
      EscapeRound(s, pos, t[0]);
      var next := pos + |Escape(t[0])|;
      AtSplit(s, next, EscapeAll(t[1..]), "\"");
      CharsRound(s, next, t[1..], out + [t[0]]);
      assert out + [t[0]] + t[1..] == out + t;
    }
  }

  lemma QuotedRound(s: string, pos: nat, t: string)
    requires At(s, pos, Quoted(t))
    ensures pos < |s| && s[pos] == '"' && CharsFrom(s, pos + 1, "") == Ok((t, pos + |Quoted(t)|))
  {
    hide At, EscapeAll, CharsFrom;
    var inner := EscapeAll(t) + "\"";
    assert Quoted(t) == "\"" + inner;
    AtSplit(s, pos, "\"", inner);
    AtChar(s, pos, "\"", 0);
    CharsRound(s, pos + 1, t, "");
    assert "" + t == t;
  }

  /** The first character of a canonical text tells what kind of value follows. */
  lemma FirstChar(v: Json)
    ensures Canonical(v) != "" && !IsSpace(Canonical(v)[0]) && Canonical(v)[0] != ']'
    ensures
      var c := Canonical(v)[0];
      match v
      case Null => c == 'n'
      case Bool(b) => c == if b then 't' else 'f'
      case Int(_) => c == '-' || IsDigit(c)
      case Str(_) => c == '"'
      case Arr(_) => c == '['
      case Obj(_) => c == '{'
  {
    if v.Int? {
      var i: int := v.i;
      DecimalShape(if i < 0 then -i else i);
    }
  }

  function CanonicalTexts(items: seq<Json>): (r: seq<string>)
    ensures |r| == |items| && forall k :: 0 <= k < |items| ==> r[k] == Canonical(items[k])
  {
    seq(|items|, k requires 0 <= k < |items| => Canonical(items[k]))
  }

  function NormalItems(items: seq<Json>): (r: seq<Json>)
    ensures |r| == |items| && forall k :: 0 <= k < |items| ==> r[k] == Normal(items[k])
  {
    seq(|items|, k requires 0 <= k < |items| => Normal(items[k]))
  }

  lemma CanonicalArr(items: seq<Json>)
    ensures Canonical(Arr(items)) == "[" + Joined(CanonicalTexts(items), "]")
    ensures Normal(Arr(items)) == Arr(NormalItems(items))
  {
    assert CanonicalTexts(items) == seq(|items|, k requires 0 <= k < |items| => Canonical(items[k]));
    assert NormalItems(items) == seq(|items|, k requires 0 <= k < |items| => Normal(items[k]));
  }

  /** An object prints, and normalizes, as its sorted members. */
  lemma CanonicalObj(pairs: Members<Json>)
    ensures Canonical(Obj(pairs)) == "{" + Joined(MemberTexts(MapValues(Sort(pairs), Canonical)), "}")
    ensures Normal(Obj(pairs)) == Obj(MapValues(Sort(pairs), Normal))
  {
    var texts := seq(|pairs|, k requires 0 <= k < |pairs| => (pairs[k].0, Canonical(pairs[k].1)));
    assert texts == MapValues(pairs, Canonical);
    SortMap(pairs, Canonical);
    var normals := seq(|pairs|, k requires 0 <= k < |pairs| => (pairs[k].0, Normal(pairs[k].1)));
    assert normals == MapValues(pairs, Normal);
    SortMap(pairs, Normal);
  }

  lemma SortedMember(pairs: Members<Json>, k: nat)
    requires k < |Sort(pairs)|
    ensures exists j :: 0 <= j < |pairs| && pairs[j] == Sort(pairs)[k]
  {
    SortContents(pairs);
    assert Sort(pairs)[k] in multiset(Sort(pairs));
    assert Sort(pairs)[k] in pairs;
  }

  lemma NoSpace(s: string, pos: nat)
    requires pos <= |s| && (pos < |s| ==> !IsSpace(s[pos]))
    ensures SkipSpace(s, pos) == pos
  {}

  /** Taking the first part off a joined text. */
  lemma JoinedAt(s: string, pos: nat, parts: seq<string>, k: nat, end: string)
    requires k < |parts| && At(s, pos, Joined(parts[k..], end))
    ensures At(s, pos, parts[k])
    ensures
      var next := pos + |parts[k]|;
      if k == |parts| - 1 then At(s, next, end) && |Joined(parts[k..], end)| == |parts[k]| + |end|
      else
        && Next(s, next, ',') && At(s, next + 1, Joined(parts[k + 1..], end))
        && |Joined(parts[k..], end)| == |parts[k]| + 1 + |Joined(parts[k + 1..], end)|
  {
    var comma := if k == |parts| - 1 then "" else ",";
    var rest := Joined(parts[k + 1..], end);
    assert parts[k..][1..] == parts[k + 1..] && parts[k..][0] == parts[k];
    assert Joined(parts[k..], end) == parts[k] + comma + rest;
    hide Joined, At;
    AtSplit(s, pos, parts[k] + comma, rest);
    AtSplit(s, pos, parts[k], comma);
    if k == |parts| - 1 {
      assert parts[k + 1..] == [];
      EmptyJoin(end);
    } else {
      AtChar(s, pos + |parts[k]|, comma, 0);
    }
  }

  lemma EmptyJoin(end: string)
    ensures Joined([], end) == end
  {}

  lemma ScalarOutcome(v: Json, end: nat)
    ensures !v.Arr? && !v.Obj? ==> Outcome(v, end) == Ok((v, end))
  {}

  lemma LiteralRound(v: Json, s: string, pos: nat)
    requires (v.Null? || v.Bool?) && At(s, pos, Canonical(v))
    ensures pos + |Canonical(v)| <= |s|
    ensures LiteralAt(s, pos, Canonical(v), v) == Ok((v, pos + |Canonical(v)|))
    ensures Canonical(Null) == "null" && Canonical(Bool(true)) == "true" && Canonical(Bool(false)) == "false"
  {}

  lemma IntText(i: i64)
    ensures Canonical(Int(i)) == Integer(i)
  {}

  lemma StrText(t: string)
    ensures Canonical(Str(t)) == Quoted(t)
  {}

  /** What parsing the canonical text of `v` comes to. */
  ghost function Outcome(v: Json, end: nat): Parsed<Json> {
    if KeysDistinct(v) then Ok((Normal(v), end)) else Err(DuplicateKey)
  }

  /** Parsing reads back what printing wrote, wherever it stands in a text. */
  lemma {:induction false} ValueRound(v: Json, s: string, pos: nat)
    requires At(s, pos, Canonical(v)) && Ends(s, pos + |Canonical(v)|)
    ensures pos <= |s| && ValueAt(s, pos) == Outcome(v, pos + |Canonical(v)|)
    decreases v, 1, 0
  {
    hide At, Canonical, SkipSpace, NumberAt, ArrayAt, ObjectAt, CharsFrom, LiteralAt, Outcome, Quoted, Integer;
    FirstChar(v);
    AtChar(s, pos, Canonical(v), 0);
    NoSpace(s, pos);
    ScalarOutcome(v, pos + |Canonical(v)|);
    match v {
      case Null | Bool(_) => LiteralRound(v, s, pos);
      case Int(i) =>
        IntText(i);
        NumberRound(s, pos, i);
      case Str(t) =>
        StrText(t);
        QuotedRound(s, pos, t);
      case Arr(items) => ArrayRound(v, items, s, pos);
      case Obj(pairs) => ObjectRound(v, pairs, s, pos);
    }
  }

  lemma {:induction false} ArrayRound(v: Json, items: seq<Json>, s: string, pos: nat)
    requires v == Arr(items) && At(s, pos, Canonical(v))
    ensures pos < |s| && ArrayAt(s, pos) == Outcome(v, pos + |Canonical(v)|)
    decreases v, 0, |items| + 1
  {
    CanonicalArr(items);
    hide At, Canonical, Normal, ItemsFrom, SkipSpace, CanonicalTexts, NormalItems;
    var body := Joined(CanonicalTexts(items), "]");
    AtSplit(s, pos, "[", body);
    AtChar(s, pos, "[", 0);
    AtChar(s, pos + 1, body, 0);
    if items == [] {
      NoSpace(s, pos + 1);
      assert NormalItems(items) == [];
    } else {
      FirstChar(items[0]);
      assert body[0] == Canonical(items[0])[0];
      NoSpace(s, pos + 1);
      assert CanonicalTexts(items)[0..] == CanonicalTexts(items) && NormalItems(items)[..0] == [];
      ItemsRound(v, items, 0, s, pos + 1);
    }
  }

  lemma {:induction false} ItemsRound(v: Json, items: seq<Json>, k: nat, s: string, pos: nat)
    requires v == Arr(items) && k < |items|
    requires At(s, pos, Joined(CanonicalTexts(items)[k..], "]"))
    ensures pos <= |s| && ItemsFrom(s, pos, NormalItems(items)[..k]) ==
      if forall j :: k <= j < |items| ==> KeysDistinct(items[j])
      then Ok((Arr(NormalItems(items)), pos + |Joined(CanonicalTexts(items)[k..], "]")|)) else Err(DuplicateKey)
    decreases v, 0, |items| - k
  {
    hide *;
    var next := ItemShape(s, pos, items, k);
    ValueRound(items[k], s, pos);
    ItemStep(s, pos, items, k, next);
    if k < |items| - 1 {
      ItemsRound(v, items, k + 1, s, next + 1);
    } else {
      assert NormalItems(items)[..k + 1] == NormalItems(items);
    }
  }

  /** Where the `k`-th item and what follows it stand in a joined text. */
  lemma ItemShape(s: string, pos: nat, items: seq<Json>, k: nat) returns (next: nat)
    requires k < |items| && At(s, pos, Joined(CanonicalTexts(items)[k..], "]"))
    ensures At(s, pos, Canonical(items[k])) && pos <= next == pos + |Canonical(items[k])| < |s|
    ensures s[next] == (if k == |items| - 1 then ']' else ',') && Ends(s, next)
    ensures
      var texts := CanonicalTexts(items);
      if k == |items| - 1 then next + 1 == pos + |Joined(texts[k..], "]")|
      else
        && At(s, next + 1, Joined(texts[k + 1..], "]"))
        && next + 1 + |Joined(texts[k + 1..], "]")| == pos + |Joined(texts[k..], "]")|
  {
    hide At, Joined, Canonical;
    JoinedAt(s, pos, CanonicalTexts(items), k, "]");
    next := pos + |Canonical(items[k])|;
    if k == |items| - 1 {
      AtChar(s, next, "]", 0);
    }
  }

  /** Reading the `k`-th item of an array after those before it. */
  lemma ItemStep(s: string, pos: nat, items: seq<Json>, k: nat, next: nat)
    requires k < |items| && pos <= next < |s| && s[next] in {',', ']'}
    requires ValueAt(s, pos) == Outcome(items[k], next)
    ensures ItemsFrom(s, pos, NormalItems(items)[..k]) ==
      if !KeysDistinct(items[k]) then Err(DuplicateKey)
      else if s[next] == ',' then ItemsFrom(s, next + 1, NormalItems(items)[..k + 1])
      else Ok((Arr(NormalItems(items)[..k + 1]), next + 1))
  {
    hide ValueAt, SkipSpace, Normal, KeysDistinct;
    NoSpace(s, next);
    var normals := NormalItems(items);
    assert normals[..k] + [Normal(items[k])] == normals[..k + 1];
  }

  lemma MembersStart(ps: Members<string>)
    ensures var body := Joined(MemberTexts(ps), "}"); body != "" && body[0] == if ps == [] then '}' else '"'
    ensures ps == [] ==> Joined(MemberTexts(ps), "}") == "}"
  {}

  lemma {:induction false} ObjectRound(v: Json, pairs: Members<Json>, s: string, pos: nat)
    requires v == Obj(pairs) && At(s, pos, Canonical(v))
    ensures pos < |s| && ObjectAt(s, pos) == Outcome(v, pos + |Canonical(v)|)
    decreases v, 0, |pairs| + 1
  {
    hide At, Canonical, Normal, Sort, MembersFrom, SkipSpace, MapValues, MemberTexts, Joined, KeysDistinct;
    hide DistinctKeys;
    CanonicalObj(pairs);
    SortContents(pairs);
    DistinctInside(pairs);
    var sorted := Sort(pairs);
    MembersStart(MapValues(sorted, Canonical));
    var texts, normals := MemberTexts(MapValues(sorted, Canonical)), MapValues(sorted, Normal);
    var body := Joined(texts, "}");
    AtSplit(s, pos, "{", body);
    AtChar(s, pos, "{", 0);
    AtChar(s, pos + 1, body, 0);
    if pairs == [] {
      assert normals == [];
    } else {
      assert texts[0..] == texts && normals[..0] == [] && sorted[..0] == [];
      MembersRound(v, pairs, 0, s, pos + 1);
    }
    NoSpace(s, pos + 1);
  }

  /** Key distinctness of an object, read off its sorted members. */
  lemma DistinctInside(pairs: Members<Json>)
    ensures KeysDistinct(Obj(pairs)) <==>
      DistinctKeys(Sort(pairs)) && forall k :: 0 <= k < |Sort(pairs)| ==> KeysDistinct(Sort(pairs)[k].1)
    ensures DistinctKeys(Sort(pairs)[..0])
    ensures pairs == [] ==> KeysDistinct(Obj(pairs))
  {
    var sorted := Sort(pairs);
    SortDistinct(pairs);
    SortContents(pairs);
    if forall k :: 0 <= k < |sorted| ==> KeysDistinct(sorted[k].1) {
      forall k | 0 <= k < |pairs| ensures KeysDistinct(pairs[k].1) {
        assert pairs[k] in multiset(pairs) && pairs[k] in multiset(sorted);
        var j :| 0 <= j < |sorted| && sorted[j] == pairs[k];
      }
    }
    if forall k :: 0 <= k < |pairs| ==> KeysDistinct(pairs[k].1) {
      forall k | 0 <= k < |sorted| ensures KeysDistinct(sorted[k].1) {
        SortedMember(pairs, k);
      }
    }
  }

  lemma {:induction false} MembersRound(v: Json, pairs: Members<Json>, k: nat, s: string, pos: nat)
    requires v == Obj(pairs) && k < |pairs| == |Sort(pairs)| && DistinctKeys(Sort(pairs)[..k])
    requires At(s, pos, Joined(MemberTexts(MapValues(Sort(pairs), Canonical))[k..], "}"))
    ensures pos <= |s| && MembersFrom(s, pos, MapValues(Sort(pairs), Normal)[..k]) ==
      if DistinctKeys(Sort(pairs)) && forall j :: k <= j < |pairs| ==> KeysDistinct(Sort(pairs)[j].1)
      then Ok((Obj(MapValues(Sort(pairs), Normal)),
               pos + |Joined(MemberTexts(MapValues(Sort(pairs), Canonical))[k..], "}")|))
      else Err(DuplicateKey)
    decreases v, 0, |pairs| - k
  {
    hide *;
    var sorted := Sort(pairs);
    var texts, normals := MemberTexts(MapValues(sorted, Canonical)), MapValues(sorted, Normal);
    var colon, next := MemberShape(s, pos, sorted, k);
    SortedMember(pairs, k);
    var j :| 0 <= j < |pairs| && pairs[j] == sorted[k];
    ValueRound(pairs[j].1, s, colon + 1);
    MemberStep(s, pos, sorted, k, colon, next);
    if k < |pairs| - 1 {
      if DistinctKeys(sorted[..k + 1]) {
        MembersRound(v, pairs, k + 1, s, next + 1);
      }
    } else {
      assert normals[..k + 1] == normals && sorted[..k + 1] == sorted;
    }
  }

  /** Where the parts of the `k`-th member and what follows it stand in a joined text. */
  lemma MemberShape(s: string, pos: nat, sorted: Members<Json>, k: nat) returns (colon: nat, next: nat)
    requires k < |sorted| && At(s, pos, Joined(MemberTexts(MapValues(sorted, Canonical))[k..], "}"))
    ensures pos < |s| && SkipSpace(s, pos) == pos
      && s[pos] == '"' && CharsFrom(s, pos + 1, "") == Ok((sorted[k].0, colon))
    ensures colon < next < |s| && SkipSpace(s, colon) == colon && s[colon] == ':'
    ensures At(s, colon + 1, Canonical(sorted[k].1)) && next == colon + 1 + |Canonical(sorted[k].1)|
    ensures s[next] == (if k == |sorted| - 1 then '}' else ',') && Ends(s, next)
    ensures
      var texts := MemberTexts(MapValues(sorted, Canonical));
      if k == |sorted| - 1 then next + 1 == pos + |Joined(texts[k..], "}")|
      else
        && At(s, next + 1, Joined(texts[k + 1..], "}"))
        && next + 1 + |Joined(texts[k + 1..], "}")| == pos + |Joined(texts[k..], "}")|
  {
    hide At, Joined, Canonical, CharsFrom, SkipSpace, Quoted;
    var texts := MemberTexts(MapValues(sorted, Canonical));
    hide MapValues, MemberTexts;
    JoinedAt(s, pos, texts, k, "}");
    MemberAt(s, pos, sorted[k].0, Canonical(sorted[k].1));
    colon, next := pos + |Quoted(sorted[k].0)|, pos + |texts[k]|;
    if k == |sorted| - 1 {
      AtChar(s, next, "}", 0);
    }
  }

  /** Reading the `k`-th member of an object after those before it. */
  lemma MemberStep(s: string, pos: nat, sorted: Members<Json>, k: nat, colon: nat, next: nat)
    requires k < |sorted| && DistinctKeys(sorted[..k])
    requires pos < |s| && SkipSpace(s, pos) == pos
      && s[pos] == '"' && CharsFrom(s, pos + 1, "") == Ok((sorted[k].0, colon))
    requires colon < next < |s| && SkipSpace(s, colon) == colon && s[colon] == ':'
    requires ValueAt(s, colon + 1) == Outcome(sorted[k].1, next) && s[next] in {',', '}'}
    ensures DistinctKeys(sorted) ==> DistinctKeys(sorted[..k + 1])
    ensures
      var normals := MapValues(sorted, Normal);
      MembersFrom(s, pos, normals[..k]) ==
        if !DistinctKeys(sorted[..k + 1]) || !KeysDistinct(sorted[k].1) then Err(DuplicateKey)
        else if s[next] == ',' then MembersFrom(s, next + 1, normals[..k + 1])
        else Ok((Obj(normals[..k + 1]), next + 1))
  {
    hide MembersFrom, CharsFrom, SkipSpace, ValueAt, Normal, KeysDistinct, DistinctKeys, MapValues, HasKey;
    var normals := MapValues(sorted, Normal);
    KeySeen(sorted, normals, k);
    NoSpace(s, next);
    assert normals[..k] + [(sorted[k].0, Normal(sorted[k].1))] == normals[..k + 1];
    OneMember(s, pos, normals[..k], sorted[k].0, sorted[k].1, colon, next);
  }

  /** What reading one member of an object comes to, when its key, colon and value are
      where they should be. */
  lemma OneMember(s: string, pos: nat, before: Members<Json>, key: string, value: Json, colon: nat, next: nat)
    requires pos < |s| && SkipSpace(s, pos) == pos && s[pos] == '"' && CharsFrom(s, pos + 1, "") == Ok((key, colon))
    requires colon < next < |s| && SkipSpace(s, colon) == colon && s[colon] == ':'
    requires ValueAt(s, colon + 1) == Outcome(value, next) && SkipSpace(s, next) == next
    ensures MembersFrom(s, pos, before) ==
      if HasKey(before, key) || !KeysDistinct(value) then Err(DuplicateKey)
      else if s[next] == ',' then MembersFrom(s, next + 1, before + [(key, Normal(value))])
      else if s[next] == '}' then Ok((Obj(before + [(key, Normal(value))]), next + 1))
      else Err(Syntax)
  {
    hide CharsFrom, SkipSpace, ValueAt, HasKey, Normal, KeysDistinct;
  }

  /** A key was seen before exactly when it spoils the distinctness of the members so far. */
  lemma KeySeen(sorted: Members<Json>, normals: Members<Json>, k: nat)
    requires normals == MapValues(sorted, Normal) && k < |sorted| && DistinctKeys(sorted[..k])
    ensures HasKey(normals[..k], sorted[k].0) <==> !DistinctKeys(sorted[..k + 1])
    ensures DistinctKeys(sorted) ==> DistinctKeys(sorted[..k + 1])
  {
    if HasKey(normals[..k], sorted[k].0) {
      var j :| 0 <= j < k && normals[j].0 == sorted[k].0;
      assert sorted[..k + 1][j].0 == sorted[..k + 1][k].0;
    } else {
      var seen := sorted[..k + 1];
      forall i, j | 0 <= i < j < |seen| ensures seen[i].0 != seen[j].0 {
        if j < k {
          assert sorted[..k][i].0 != sorted[..k][j].0;
        } else {
          assert normals[..k][i].0 != sorted[k].0;
        }
      }
    }
  }

  lemma MemberAt(s: string, pos: nat, key: string, text: string)
    requires At(s, pos, Quoted(key) + ":" + text)
    ensures pos < |s| && SkipSpace(s, pos) == pos && s[pos] == '"'
    ensures
      var colon := pos + |Quoted(key)|;
      && colon < |s| && s[colon] == ':' && SkipSpace(s, colon) == colon && At(s, colon + 1, text)
      && CharsFrom(s, pos + 1, "") == Ok((key, colon))
  {
    hide At, CharsFrom;
    AtSplit(s, pos, Quoted(key) + ":", text);
    AtSplit(s, pos, Quoted(key), ":");
    QuotedRound(s, pos, key);
    NoSpace(s, pos);
    AtChar(s, pos + |Quoted(key)|, ":", 0);
    NoSpace(s, pos + |Quoted(key)|);
  }

  /** Parsing a canonical text gives back the value with its keys in order, exactly when
      no object has a key twice; otherwise the duplicate is what is reported. */
  lemma RoundTrip(v: Json)
    ensures DocumentOf(Canonical(v)) == if KeysDistinct(v) then Ok(Normal(v)) else Err(DuplicateKey)
  {
    hide Canonical, ValueAt, Normal, KeysDistinct;
    var s := Canonical(v);
    assert s[0..0 + |s|] == s;
    ValueRound(v, s, 0);
  }

  /** The members of an object are printed in the order of the UTF-16 code units of their
      keys (RFC 8785, section 3.2.3), those of one key as they were. */
  lemma MembersInKeyOrder(pairs: Members<Json>) returns (ps: Members<Json>)
    ensures multiset(ps) == multiset(pairs) && forall key :: WithKey(ps, key) == WithKey(pairs, key)
    ensures Canonical(Obj(pairs)) == "{" + Joined(MemberTexts(MapValues(ps, Canonical)), "}")
    ensures forall i, j, n: nat :: 0 <= i < j < |ps| ==>
      !SmallerAt(EncodeUtf16(ps[j].0), EncodeUtf16(ps[i].0), n)
  {
    hide Canonical, KeyBefore, WithKey;
    ps := Sort(pairs);
    SortContents(pairs);
    SortInOrder(pairs);
    CanonicalObj(pairs);
    hide Sort;
    forall key ensures WithKey(ps, key) == WithKey(pairs, key) { SortStable(pairs, key); }
    forall i, j, n: nat | 0 <= i < j < |ps| ensures !SmallerAt(EncodeUtf16(ps[j].0), EncodeUtf16(ps[i].0), n) {
      KeyBeforeIff(ps[j].0, ps[i].0);
    }
  }

  // ---- equal up to key order ------------------------------------------------------------------

  ghost function Keys(ps: Members<Json>): set<string> {
    set k | 0 <= k < |ps| :: ps[k].0
  }

  /** Equal except for the order of members, at any depth. */
  ghost predicate Same(a: Json, b: Json) {
    match a
    case Null | Bool(_) | Int(_) | Str(_) => a == b
    case Arr(xs) => b.Arr? && |xs| == |b.items| && forall k :: 0 <= k < |xs| ==> Same(xs[k], b.items[k])
    case Obj(ps) =>
      && b.Obj? && Keys(ps) == Keys(b.pairs)
      && forall i, j :: 0 <= i < |ps| && 0 <= j < |b.pairs| && ps[i].0 == b.pairs[j].0 ==> Same(ps[i].1, b.pairs[j].1)
  }

  ghost predicate SameValues(ps: Members<Json>, qs: Members<Json>) {
    && Keys(ps) == Keys(qs)
    && forall i, j :: 0 <= i < |ps| && 0 <= j < |qs| && ps[i].0 == qs[j].0 ==> Normal(ps[i].1) == Normal(qs[j].1)
  }

  lemma SameElements(ps: Members<Json>, qs: Members<Json>)
    requires SameValues(ps, qs)
    ensures forall x :: x in MapValues(ps, Normal) ==> x in MapValues(qs, Normal)
  {
    var ms, ns := MapValues(ps, Normal), MapValues(qs, Normal);
    forall x | x in ms ensures x in ns {
      var i :| 0 <= i < |ps| && ms[i] == x;
      assert ps[i].0 in Keys(qs);
      var j :| 0 <= j < |qs| && qs[j].0 == ps[i].0;
      assert ns[j] == x;
    }
  }

  lemma ElementsSame(ps: Members<Json>, qs: Members<Json>)
    requires DistinctKeys(qs)
    requires multiset(MapValues(ps, Normal)) == multiset(MapValues(qs, Normal))
    ensures SameValues(ps, qs)
  {
    var ms, ns := MapValues(ps, Normal), MapValues(qs, Normal);
    forall k | 0 <= k < |ps| ensures ps[k].0 in Keys(qs) {
      assert ms[k] in multiset(ms) && ms[k] in multiset(ns);
      var j :| 0 <= j < |qs| && ns[j] == ms[k];
      assert qs[j].0 == ps[k].0;
    }
    forall k | 0 <= k < |qs| ensures qs[k].0 in Keys(ps) {
      assert ns[k] in multiset(ns) && ns[k] in multiset(ms);
      var j :| 0 <= j < |ps| && ms[j] == ns[k];
      assert ps[j].0 == qs[k].0;
    }
    forall i, j | 0 <= i < |ps| && 0 <= j < |qs| && ps[i].0 == qs[j].0 ensures Normal(ps[i].1) == Normal(qs[j].1) {
      assert ms[i] in multiset(ms) && ms[i] in multiset(ns);
      var k :| 0 <= k < |qs| && ns[k] == ms[i];
      assert k == j;
    }
  }

  lemma NormalObjects(ps: Members<Json>, qs: Members<Json>)
    requires DistinctKeys(ps) && DistinctKeys(qs)
    ensures Normal(Obj(ps)) == Normal(Obj(qs)) <==> SameValues(ps, qs)
  {
    hide Normal, Keys;
    var ms, ns := MapValues(ps, Normal), MapValues(qs, Normal);
    CanonicalObj(ps);
    CanonicalObj(qs);
    SortMap(ps, Normal);
    SortMap(qs, Normal);
    SortContents(ms);
    SortContents(ns);
    if Sort(ms) == Sort(ns) {
      ElementsSame(ps, qs);
    }
    if SameValues(ps, qs) {
      SameElements(ps, qs);
      SameElements(qs, ps);
      SortAscending(ms);
      SortAscending(ns);
      AscendingUnique(Sort(ms), Sort(ns));
    }
  }

  /** Normal forms are equal exactly for values equal up to key order. */
  lemma {:induction false} NormalIffSame(a: Json, b: Json)
    requires KeysDistinct(a) && KeysDistinct(b)
    ensures Normal(a) == Normal(b) <==> Same(a, b)
    decreases a
  {
    match a {
      case Null | Bool(_) | Int(_) | Str(_) =>
      case Arr(xs) =>
        if b.Arr? && |xs| == |b.items| {
          CanonicalArr(xs);
          CanonicalArr(b.items);
          forall k | 0 <= k < |xs| ensures Normal(xs[k]) == Normal(b.items[k]) <==> Same(xs[k], b.items[k]) {
            NormalIffSame(xs[k], b.items[k]);
          }
          if Normal(a) == Normal(b) {
            forall k | 0 <= k < |xs| ensures Same(xs[k], b.items[k]) {
              assert NormalItems(xs)[k] == NormalItems(b.items)[k];
            }
          }
          if Same(a, b) { assert NormalItems(xs) == NormalItems(b.items); }
        } else if b.Arr? {
          CanonicalArr(xs);
          CanonicalArr(b.items);
          assert |NormalItems(xs)| != |NormalItems(b.items)|;
        }
      case Obj(ps) =>
        if b.Obj? {
          NormalObjects(ps, b.pairs);
          forall i, j | 0 <= i < |ps| && 0 <= j < |b.pairs|
            ensures Normal(ps[i].1) == Normal(b.pairs[j].1) <==> Same(ps[i].1, b.pairs[j].1)
          {
            NormalIffSame(ps[i].1, b.pairs[j].1);
          }
        }
    }
  }

  /** The canonical text does not depend on the order of the keys. */
  lemma {:induction false} CanonicalOfNormal(v: Json)
    requires KeysDistinct(v)
    ensures Canonical(Normal(v)) == Canonical(v)
    decreases v
  {
    match v {
      case Null | Bool(_) | Int(_) | Str(_) =>
      case Arr(items) =>
        CanonicalArr(items);
        CanonicalArr(NormalItems(items));
        forall k | 0 <= k < |items| ensures Canonical(Normal(items[k])) == Canonical(items[k]) {
          CanonicalOfNormal(items[k]);
        }
        assert CanonicalTexts(NormalItems(items)) == CanonicalTexts(items);
      case Obj(pairs) =>
        SortContents(pairs);
        forall k | 0 <= k < |Sort(pairs)| ensures Canonical(Normal(Sort(pairs)[k].1)) == Canonical(Sort(pairs)[k].1) {
          SortedMember(pairs, k);
          var j :| 0 <= j < |pairs| && pairs[j] == Sort(pairs)[k];
          CanonicalOfNormal(pairs[j].1);
        }
        CanonicalOfSorted(pairs);
    }
  }

  lemma CanonicalOfSorted(pairs: Members<Json>)
    requires DistinctKeys(pairs)
    requires forall k :: 0 <= k < |Sort(pairs)| ==> Canonical(Normal(Sort(pairs)[k].1)) == Canonical(Sort(pairs)[k].1)
    ensures Canonical(Normal(Obj(pairs))) == Canonical(Obj(pairs))
  {
    hide Canonical, Normal, Sort;
    var sorted := Sort(pairs);
    var normals := MapValues(sorted, Normal);
    SortAscending(pairs);
    CanonicalObj(pairs);
    CanonicalObj(normals);
    SortFixed(normals);
    assert MapValues(normals, Canonical) == MapValues(sorted, Canonical);
  }

  /** Two values print equally exactly when they are equal up to key order. */
  lemma CanonicalIffSame(a: Json, b: Json)
    requires KeysDistinct(a) && KeysDistinct(b)
    ensures Canonical(a) == Canonical(b) <==> Same(a, b)
  {
    RoundTrip(a);
    RoundTrip(b);
    CanonicalOfNormal(a);
    CanonicalOfNormal(b);
    NormalIffSame(a, b);
  }

  /** For every accepted text, its canonical text is accepted, means the same up to key
      order, and is its own canonical text. */
  lemma CanonicalTextIsFixed(text: string)
    requires DocumentOf(text).Ok?
    ensures
      var canonical := Canonical(DocumentOf(text).value);
      && DocumentOf(canonical).Ok? && Same(DocumentOf(text).value, DocumentOf(canonical).value)
      && Canonical(DocumentOf(canonical).value) == canonical
  {
    var v := DocumentOf(text).value;
    RoundTrip(v);
    CanonicalOfNormal(v);
    CanonicalIffSame(v, Normal(v));
  }
}
