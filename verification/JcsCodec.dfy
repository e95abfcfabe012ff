/** The parser and the printer of `rvm-anchor/src/jcs.rs` as they run: a position moved
    along the text, an output appended to. */
module JcsCodec {
  import opened Types
  import opened Utf16Order
  import opened Jcs

  // ---- printing ---------------------------------------------------------------------------

  /** One character inside a string. */
  method WriteChar(c: char, output: string) returns (out: string)
    ensures out == output + Escape(c)
  {
    if c == '"' {
      out := output + "\\\"";
    } else if c == '\\' {
      out := output + "\\\\";
    } else if c == '\U{08}' {
      out := output + "\\b";
    } else if c == '\t' {
      out := output + "\\t";
    } else if c == '\n' {
      out := output + "\\n";
    } else if c == '\U{0C}' {
      out := output + "\\f";
    } else if c == '\r' {
      out := output + "\\r";
    } else if c < ' ' {
      var escape := "\\u00" + [Digit(c as nat / 16), Digit(c as nat % 16)];
      out := output + escape;
    } else {
      out := output + [c];
    }
  }

  method WriteEscaped(s: string, output: string) returns (out: string)
    ensures out == output + Quoted(s)
  {
    hide Escape, EscapeAll;
    out := output + "\"";
    assert s[0..] == s;
    for k := 0 to |s|
      invariant out + EscapeAll(s[k..]) == output + "\"" + EscapeAll(s)
    {
      ghost var before := out;
      out := WriteChar(s[k], out);
      EscapeStep(s, k, before);
    }
    EscapeEnd(s);
    assert out == output + "\"" + EscapeAll(s);
    out := out + "\"";
    assert out == output + ("\"" + EscapeAll(s) + "\"");
  }

  lemma EscapeStep(s: string, k: nat, before: string)
    requires k < |s|
    ensures before + Escape(s[k]) + EscapeAll(s[k + 1..]) == before + EscapeAll(s[k..])
  {
    assert s[k..][1..] == s[k + 1..] && s[k..][0] == s[k];
    hide Escape;
    assert before + Escape(s[k]) + EscapeAll(s[k + 1..]) == before + (Escape(s[k]) + EscapeAll(s[k + 1..]));
  }

  lemma EscapeEnd(s: string)
    ensures EscapeAll(s[|s|..]) == ""
  {}

  method WriteCanonical(value: Json, output: string) returns (out: string)
    ensures out == output + Canonical(value)
    decreases value, 2
  {
    match value {
      case Null => out := output + "null";
      case Bool(b) => out := output + if b then "true" else "false";
      case Int(i) => out := output + Integer(i);
      case Str(s) => out := WriteEscaped(s, output);
      case Arr(items) => out := WriteArray(value, items, output);
      case Obj(pairs) => out := WriteObject(value, pairs, output);
    }
  }

  method WriteArray(value: Json, items: seq<Json>, output: string) returns (out: string)
    requires value == Arr(items)
    ensures out == output + Canonical(value)
    decreases value, 1
  {
    CanonicalArr(items);
    hide Canonical, CanonicalTexts, Joined, Pending;
    ghost var texts := CanonicalTexts(items);
    out := output + "[";
    PendingStart(texts, "]");
    for k := 0 to |items|
      invariant out + Pending(texts, k, "]") == output + "[" + Joined(texts, "]")
    {
      ghost var before := out;
      if k > 0 {
        out := out + ",";
      }
      out := WriteCanonical(items[k], out);
      PendingStep(texts, k, "]", before, out);
    }
    PendingEnd(texts, "]");
    out := out + "]";
    assert out == output + ("[" + Joined(texts, "]"));
  }

  method WriteObject(value: Json, pairs: Members<Json>, output: string) returns (out: string)
    requires value == Obj(pairs)
    ensures out == output + Canonical(value)
    decreases value, 1
  {
    CanonicalObj(pairs);
    SortContents(pairs);
    hide Canonical, Joined, Pending, Sort, Quoted;
    var sorted := Sort(pairs);
    ghost var texts := MemberTexts(MapValues(sorted, Canonical));
    out := output + "{";
    PendingStart(texts, "}");
    for k := 0 to |sorted|
      invariant out + Pending(texts, k, "}") == output + "{" + Joined(texts, "}")
    {
      ghost var before := out;
      if k > 0 {
        out := out + ",";
      }
      SortedMember(pairs, k);
      ghost var j :| 0 <= j < |pairs| && pairs[j] == sorted[k];
      out := WriteMember(value, pairs, sorted[k].0, sorted[k].1, out);
      PendingStep(texts, k, "}", before, out);
    }
    PendingEnd(texts, "}");
    out := out + "}";
    assert out == output + ("{" + Joined(texts, "}"));
  }

  /** A key, a colon and a value. */
  method WriteMember(ghost whole: Json, ghost pairs: Members<Json>, key: string, value: Json, output: string)
      returns (out: string)
    requires whole == Obj(pairs) && exists j :: 0 <= j < |pairs| && pairs[j] == (key, value)
    ensures out == output + (Quoted(key) + ":" + Canonical(value))
    decreases whole, 0
  {
    hide Canonical, Quoted;
    out := WriteEscaped(key, output);
    out := out + ":";
    out := WriteCanonical(value, out);
    assert out == output + (Quoted(key) + ":" + Canonical(value));
  }

  /** What is still to be written before part `k`. */
  ghost function Pending(parts: seq<string>, k: nat, end: string): string
    requires k <= |parts|
  {
    (if 0 < k < |parts| then "," else "") + Joined(parts[k..], end)
  }

  lemma PendingStep(parts: seq<string>, k: nat, end: string, before: string, after: string)
    requires k < |parts| && after == before + (if k > 0 then "," else "") + parts[k]
    ensures after + Pending(parts, k + 1, end) == before + Pending(parts, k, end)
  {
    var rest := Joined(parts[k + 1..], end);
    assert parts[k..][1..] == parts[k + 1..] && parts[k..][0] == parts[k];
    assert Joined(parts[k..], end) == parts[k] + (if k == |parts| - 1 then "" else ",") + rest;
    hide Joined;
    var comma, next := if k > 0 then "," else "", if k == |parts| - 1 then "" else ",";
    assert before + (comma + (parts[k] + next + rest)) == (before + comma + parts[k]) + (next + rest);
  }

  lemma PendingStart(parts: seq<string>, end: string)
    ensures Pending(parts, 0, end) == Joined(parts, end)
  {
    assert parts[0..] == parts;
  }

  lemma PendingEnd(parts: seq<string>, end: string)
    ensures Pending(parts, |parts|, end) == end
  {}

  method Canonicalize(value: Json) returns (text: string)
    ensures text == Canonical(value)
  {
    text := WriteCanonical(value, "");
  }

  // ---- parsing ----------------------------------------------------------------------------

  method SkipWhite(s: string, pos: nat) returns (p: nat)
    requires pos <= |s|
    ensures p == SkipSpace(s, pos)
  {
    p := pos;
    while p < |s| && (s[p] == ' ' || s[p] == '\t' || s[p] == '\n' || s[p] == '\r')
      invariant pos <= p <= |s| && SkipSpace(s, p) == SkipSpace(s, pos)
    {
      p := p + 1;
    }
  }

  method ParseNumber(s: string, pos: nat) returns (r: Parsed<Json>)
    requires pos < |s|
    ensures r == NumberAt(s, pos)
  {
    var p := pos;
    if s[p] == '-' {
      p := p + 1;
    }
    var digitsStart := p;
    while p < |s| && '0' <= s[p] <= '9'
      invariant digitsStart <= p <= |s| && DigitsEnd(s, p) == DigitsEnd(s, digitsStart)
    {
      p := p + 1;
    }
    if p == digitsStart {
      return Err(Syntax);
    }
    if s[digitsStart] == '0' && p - digitsStart > 1 {
      return Err(Syntax);
    }
    if p < |s| && (s[p] == '.' || s[p] == 'e' || s[p] == 'E') {
      return Err(NonConformingNumber);
    }
    if s[pos..p] == "-0" {
      return Err(NonConformingNumber);
    }
    var size: int := DigitsValue(s, digitsStart, p);
    var value: int := if s[pos] == '-' then -size else size;
    if !(-0x8000_0000_0000_0000 <= value <= 0x7FFF_FFFF_FFFF_FFFF) {
      return Err(NonConformingNumber);
    }
    return Ok((Int(value), p));
  }

  method ParseHex4(s: string, pos: nat) returns (r: Parsed<nat>)
    ensures r == Hex4At(s, pos)
  {
    var value: nat := 0;
    for k := 0 to 4
      invariant HexDigitsAt(s, pos, k) || k == 0
      invariant k > 0 ==> value == HexPrefix(s, pos, k)
      invariant k == 0 ==> value == 0
    {
      if pos + k >= |s| || HexValue(s[pos + k]).None? {
        assert !HexDigitsAt(s, pos, 4);
        return Err(BadEscape);
      }
      assert HexDigitsAt(s, pos, k + 1);
      assert HexPrefix(s, pos, k + 1) == HexPrefix(s, pos, k) * 16 + HexValue(s[pos + k]).value;
      value := value * 16 + HexValue(s[pos + k]).value;
    }
    return Ok((value, pos + 4));
  }

  method ParseUnicode(s: string, pos: nat) returns (r: Parsed<char>)
    ensures r == UnicodeAt(s, pos)
  {
    var unit := ParseHex4(s, pos);
    if unit.Err? {
      return Err(unit.error);
    }
    var high, p := unit.value.0, unit.value.1;
    if 0xD800 <= high <= 0xDBFF {
      if p >= |s| || s[p] != '\\' || p + 1 >= |s| || s[p + 1] != 'u' {
        return Err(BadEscape);
      }
      var low := ParseHex4(s, p + 2);
      if low.Err? {
        return Err(low.error);
      }
      if !(0xDC00 <= low.value.0 <= 0xDFFF) {
        return Err(BadEscape);
      }
      var code := 0x10000 + (high - 0xD800) * 0x400 + (low.value.0 - 0xDC00);
      return Ok((code as char, low.value.1));
    } else if 0xDC00 <= high <= 0xDFFF {
      return Err(BadEscape);
    }
    return Ok((high as char, p));
  }

  method ParseString(s: string, pos: nat) returns (r: Parsed<string>)
    requires pos < |s| && s[pos] == '"'
    ensures r == CharsFrom(s, pos + 1, "")
  {
    var p, out := pos + 1, "";
    while true
      invariant pos < p <= |s| && CharsFrom(s, p, out) == CharsFrom(s, pos + 1, "")
      decreases |s| - p
    {
      if p == |s| {
        return Err(Syntax);
      } else if s[p] == '"' {
        return Ok((out, p + 1));
      } else if s[p] == '\\' {
        p := p + 1;
        if p < |s| && s[p] == 'u' {
          var escape := ParseUnicode(s, p + 1);
          if escape.Err? {
            return Err(escape.error);
          }
          out, p := out + [escape.value.0], escape.value.1;
        } else if p < |s| && Unescape(s[p]).Some? {
          out, p := out + [Unescape(s[p]).value], p + 1;
        } else {
          return Err(BadEscape);
        }
      } else if s[p] < ' ' {
        return Err(Syntax);
      } else {
        out, p := out + [s[p]], p + 1;
      }
    }
  }

  method ParseLiteral(s: string, pos: nat, literal: string, value: Json) returns (r: Parsed<Json>)
    requires pos <= |s|
    ensures r == LiteralAt(s, pos, literal, value)
  {
    if |s| >= pos + |literal| && s[pos..pos + |literal|] == literal {
      return Ok((value, pos + |literal|));
    }
    return Err(Syntax);
  }

  method ParseValue(s: string, pos: nat) returns (r: Parsed<Json>)
    requires pos <= |s|
    ensures r == ValueAt(s, pos)
    decreases |s| - pos, 1
  {
    var p := SkipWhite(s, pos);
    if p == |s| {
      return Err(Syntax);
    } else if s[p] == '{' {
      r := ParseObject(s, p);
    } else if s[p] == '[' {
      r := ParseArray(s, p);
    } else if s[p] == '"' {
      var chars := ParseString(s, p);
      return if chars.Err? then Err(chars.error) else Ok((Str(chars.value.0), chars.value.1));
    } else if s[p] == 't' {
      r := ParseLiteral(s, p, "true", Bool(true));
    } else if s[p] == 'f' {
      r := ParseLiteral(s, p, "false", Bool(false));
    } else if s[p] == 'n' {
      r := ParseLiteral(s, p, "null", Null);
    } else if s[p] == '-' || IsDigit(s[p]) {
      r := ParseNumber(s, p);
    } else {
      return Err(Syntax);
    }
  }

  method ParseArray(s: string, pos: nat) returns (r: Parsed<Json>)
    requires pos < |s| && s[pos] == '['
    ensures r == ArrayAt(s, pos)
    decreases |s| - pos, 0
  {
    hide ValueAt, SkipSpace;
    var p := SkipWhite(s, pos + 1);
    if p < |s| && s[p] == ']' {
      return Ok((Arr([]), p + 1));
    }
    var items: seq<Json> := [];
    while true
      invariant pos < p <= |s| && ItemsFrom(s, p, items) == ArrayAt(s, pos)
      decreases |s| - p
    {
      var item := ParseValue(s, p);
      if item.Err? {
        return Err(item.error);
      }
      items, p := items + [item.value.0], item.value.1;
      p := SkipWhite(s, p);
      if p < |s| && s[p] == ',' {
        p := p + 1;
      } else if p < |s| && s[p] == ']' {
        return Ok((Arr(items), p + 1));
      } else {
        return Err(Syntax);
      }
    }
  }

  method ContainsKey(pairs: Members<Json>, key: string) returns (found: bool)
    ensures found <==> HasKey(pairs, key)
  {
    for k := 0 to |pairs|
      invariant !HasKey(pairs[..k], key)
    {
      assert pairs[..k + 1] == pairs[..k] + [pairs[k]];
      if pairs[k].0 == key {
        return true;
      }
      assert forall j :: 0 <= j < k ==> pairs[..k][j].0 != key;
    }
    assert pairs[..|pairs|] == pairs;
    return false;
  }

  method ParseObject(s: string, pos: nat) returns (r: Parsed<Json>)
    requires pos < |s| && s[pos] == '{'
    ensures r == ObjectAt(s, pos)
    decreases |s| - pos, 0
  {
    hide ValueAt, SkipSpace, CharsFrom, HasKey;
    var p := SkipWhite(s, pos + 1);
    if p < |s| && s[p] == '}' {
      return Ok((Obj([]), p + 1));
    }
    var pairs: Members<Json> := [];
    while true
      invariant pos < p <= |s| && MembersFrom(s, p, pairs) == ObjectAt(s, pos)
      decreases |s| - p
    {
      p := SkipWhite(s, p);
      if p == |s| || s[p] != '"' {
        return Err(Syntax);
      }
      var key := ParseString(s, p);
      if key.Err? {
        return Err(key.error);
      }
      var seen := ContainsKey(pairs, key.value.0);
      if seen {
        return Err(DuplicateKey);
      }
      p := SkipWhite(s, key.value.1);
      if p == |s| || s[p] != ':' {
        return Err(Syntax);
      }
      var value := ParseValue(s, p + 1);
      if value.Err? {
        return Err(value.error);
      }
      pairs, p := pairs + [(key.value.0, value.value.0)], value.value.1;
      p := SkipWhite(s, p);
      if p < |s| && s[p] == ',' {
        p := p + 1;
      } else if p < |s| && s[p] == '}' {
        return Ok((Obj(pairs), p + 1));
      } else {
        return Err(Syntax);
      }
    }
  }

  method Parse(text: string) returns (r: Result<Json, JsonError>)
    ensures r == DocumentOf(text)
  {
    var value := ParseValue(text, 0);
    if value.Err? {
      return Err(value.error);
    }
    var end := SkipWhite(text, value.value.1);
    if end != |text| {
      return Err(TrailingData);
    }
    return Ok(value.value.0);
  }
}
