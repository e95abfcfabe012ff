/** The words of the JSON language (`rvm-anchor/src/jcs.rs`), said apart from the way they
    are read: white space, integers and strings (RFC 8259, sections 2, 6 and 7). */
module JcsLexemes {
  import opened Types
  import opened Utf16Order
  import opened Jcs

  // ---- white space ----------------------------------------------------------------------------

  lemma {:induction false} SpaceExactly(s: string, pos: nat)
    requires pos <= |s|
    ensures
      var end := SkipSpace(s, pos);
      && (forall k :: pos <= k < end ==> s[k] in {' ', '\t', '\n', '\r'})
      && (end < |s| ==> s[end] !in {' ', '\t', '\n', '\r'})
    decreases |s| - pos
  {
    if pos < |s| && IsSpace(s[pos]) { SpaceExactly(s, pos + 1); }
  }

  // ---- integers -------------------------------------------------------------------------------

  lemma DigitRead(c: char)
    requires IsDigit(c)
    ensures DigitValue(c) < 10 && Digit(DigitValue(c)) == c
  {}

  /** Digits without a leading zero are the decimal form of their value. */
  lemma {:induction false} DecimalOf(s: string, lo: nat, hi: nat)
    requires lo < hi <= |s| && (forall k :: lo <= k < hi ==> IsDigit(s[k])) && (s[lo] == '0' ==> hi == lo + 1)
    ensures s[lo..hi] == Decimal(DigitsValue(s, lo, hi))
    ensures DigitsValue(s, lo, hi) == 0 ==> s[lo] == '0'
  {
    var n := DigitsValue(s, lo, hi);
    DigitRead(s[hi - 1]);
    if hi == lo + 1 {
      assert DigitsValue(s, lo, lo) == 0;
      assert s[lo..hi] == [s[lo]];
    } else {
      DecimalOf(s, lo, hi - 1);
      assert n / 10 == DigitsValue(s, lo, hi - 1) && n % 10 == DigitValue(s[hi - 1]);
      assert s[lo..hi] == s[lo..hi - 1] + [s[hi - 1]];
    }
  }

  lemma MinusZero(s: string, pos: nat, end: nat)
    requires pos < end <= |s| && s[pos] == '-'
    ensures s[pos..end] == "-0" <==> s[pos + 1..end] == "0"
  {
    assert s[pos..end] == "-" + s[pos + 1..end];
    if s[pos..end] == "-0" { assert s[pos + 1..end] == s[pos..end][1..]; }
  }

  /** An integer is read exactly where its one decimal form stands by itself. */
  lemma NumberExactly(s: string, pos: nat, i: i64, end: nat)
    requires pos < |s|
    ensures NumberAt(s, pos) == Ok((Int(i), end)) <==>
      At(s, pos, Integer(i)) && end == pos + |Integer(i)| && Ends(s, end)
  {
    hide NumberAt, Integer, At;
    if NumberAt(s, pos) == Ok((Int(i), end)) {
      NumberText(s, pos, i, end);
    }
    if At(s, pos, Integer(i)) && end == pos + |Integer(i)| && Ends(s, end) {
      NumberRound(s, pos, i);
    }
  }

  lemma NumberText(s: string, pos: nat, i: i64, end: nat)
    requires pos < |s| && NumberAt(s, pos) == Ok((Int(i), end))
    ensures At(s, pos, Integer(i)) && end == pos + |Integer(i)| && Ends(s, end)
  {
    var start := if s[pos] == '-' then pos + 1 else pos;
    NumberShape(s, pos, start, i, end);
    DecimalOf(s, start, end);
    assert Decimal(0) == "0";
    hide NumberAt, DigitsValue, Decimal;
    if s[pos] == '-' {
      assert s[pos..end] == "-" + s[start..end];
      MinusZero(s, pos, end);
    }
  }

  lemma NumberShape(s: string, pos: nat, start: nat, i: i64, end: nat)
    requires pos < |s| && NumberAt(s, pos) == Ok((Int(i), end)) && start == if s[pos] == '-' then pos + 1 else pos
    ensures start < end <= |s| && forall k :: start <= k < end ==> IsDigit(s[k])
    ensures (s[start] == '0' ==> end == start + 1) && Ends(s, end) && s[pos..end] != "-0"
    ensures i as int == if s[pos] == '-' then -(DigitsValue(s, start, end) as int) else DigitsValue(s, start, end)
  {
    hide DigitsValue;
  }

  /** What is refused as malformed rather than as out of the integers. */
  lemma NumberMalformed(s: string, pos: nat)
    requires pos < |s|
    ensures
      var start := if s[pos] == '-' then pos + 1 else pos;
      NumberAt(s, pos) == Err(Syntax) <==>
        || start == |s| || s[start] !in "0123456789"
        || (s[start] == '0' && start + 1 < |s| && s[start + 1] in "0123456789")
    ensures NumberAt(s, pos).Ok? || NumberAt(s, pos).error in {Syntax, NonConformingNumber}
  {
    hide DigitsValue;
    assert forall c: char :: IsDigit(c) <==> c in "0123456789";
  }

  // ---- strings ----------------------------------------------------------------------------------

  const LOWER_HEX := "0123456789abcdef"
  const UPPER_HEX := "0123456789ABCDEF"

  ghost predicate HexDenotes(c: char, d: nat) {
    d < 16 && (c == LOWER_HEX[d] || c == UPPER_HEX[d])
  }

  /** `\u` and the four digits of a code unit. */
  ghost predicate UnitEscape(text: string, unit: nat) {
    && |text| == 6 && text[0] == '\\' && text[1] == 'u'
    && HexDenotes(text[2], unit / 0x1000) && HexDenotes(text[3], unit / 0x100 % 0x10)
    && HexDenotes(text[4], unit / 0x10 % 0x10) && HexDenotes(text[5], unit % 0x10)
  }

  /** The escapes of one letter. */
  const SHORT: set<(char, char)> :=
    {('"', '"'), ('\\', '\\'), ('/', '/'), ('b', '\U{08}'), ('f', '\U{0C}'), ('n', '\n'), ('r', '\r'), ('t', '\t')}

  /** The ways to write a character inside a string: as itself, by a letter, or by the `\u`
      escapes of its UTF-16 code units. */
  ghost predicate Spelling(text: string, c: char) {
    || (text == [c] && c >= ' ' && c != '"' && c != '\\')
    || (|text| == 2 && text[0] == '\\' && (text[1], c) in SHORT)
    || (|Units(c)| == 1 && UnitEscape(text, Units(c)[0]))
    || (|Units(c)| == 2 && |text| == 12 && UnitEscape(text[..6], Units(c)[0]) && UnitEscape(text[6..], Units(c)[1]))
  }

  lemma HexExactly(c: char, d: nat)
    ensures HexValue(c) == Some(d) <==> HexDenotes(c, d)
  {}

  /** Four digits are read exactly when they denote the unit. */
  lemma Hex4Exactly(s: string, pos: nat, unit: nat)
    ensures Hex4At(s, pos) == Ok((unit, pos + 4)) <==>
      && pos + 4 <= |s| && HexDenotes(s[pos], unit / 0x1000) && HexDenotes(s[pos + 1], unit / 0x100 % 0x10)
      && HexDenotes(s[pos + 2], unit / 0x10 % 0x10) && HexDenotes(s[pos + 3], unit % 0x10)
  {
    if pos + 4 <= |s| {
      var a, b, c, d := unit / 0x1000, unit / 0x100 % 0x10, unit / 0x10 % 0x10, unit % 0x10;
      HexExactly(s[pos], a);
      HexExactly(s[pos + 1], b);
      HexExactly(s[pos + 2], c);
      HexExactly(s[pos + 3], d);
      hide HexDenotes, HexValue, HexPrefix;
      if HexDigitsAt(s, pos, 4) {
        Hex4Value(s, pos);
        var w, x, y, z :=
          HexValue(s[pos]).value, HexValue(s[pos + 1]).value, HexValue(s[pos + 2]).value, HexValue(s[pos + 3]).value;
        NibblesOf(w, x, y, z, unit);
      }
    }
  }

  lemma NibblesOf(w: nat, x: nat, y: nat, z: nat, unit: nat)
    requires w < 16 && x < 16 && y < 16 && z < 16
    ensures w * 0x1000 + x * 0x100 + y * 0x10 + z == unit <==>
      w == unit / 0x1000 && x == unit / 0x100 % 0x10 && y == unit / 0x10 % 0x10 && z == unit % 0x10
  {
    var u, v := unit / 0x10, unit / 0x100;
    assert v == u / 0x10 && unit / 0x1000 == v / 0x10;
    LastNibble(w * 0x100 + x * 0x10 + y, z, unit);
    LastNibble(w * 0x10 + x, y, u);
    LastNibble(w, x, v);
  }

  lemma LastNibble(q: nat, r: nat, n: nat)
    requires r < 16
    ensures q * 16 + r == n <==> q == n / 16 && r == n % 16
  {}

  lemma Hex4Value(s: string, pos: nat)
    requires HexDigitsAt(s, pos, 4)
    ensures HexPrefix(s, pos, 4) ==
      HexValue(s[pos]).value * 0x1000 + HexValue(s[pos + 1]).value * 0x100
      + HexValue(s[pos + 2]).value * 0x10 + HexValue(s[pos + 3]).value
    ensures forall k :: pos <= k < pos + 4 ==> HexValue(s[k]).value < 16
  {
    assert HexPrefix(s, pos, 0) == 0;
    assert HexPrefix(s, pos, 1) == HexValue(s[pos]).value;
    assert HexPrefix(s, pos, 2) == HexPrefix(s, pos, 1) * 16 + HexValue(s[pos + 1]).value;
    assert HexPrefix(s, pos, 3) == HexPrefix(s, pos, 2) * 16 + HexValue(s[pos + 2]).value;
  }

  /** The four digits of a code unit stand at `pos`. */
  ghost predicate UnitAt(s: string, pos: nat, unit: nat) {
    && pos + 4 <= |s| && HexDenotes(s[pos], unit / 0x1000) && HexDenotes(s[pos + 1], unit / 0x100 % 0x10)
    && HexDenotes(s[pos + 2], unit / 0x10 % 0x10) && HexDenotes(s[pos + 3], unit % 0x10)
  }

  lemma UnitEscapeAt(s: string, pos: nat, unit: nat)
    requires pos + 6 <= |s|
    ensures UnitEscape(s[pos..pos + 6], unit) <==> s[pos] == '\\' && s[pos + 1] == 'u' && UnitAt(s, pos + 2, unit)
  {}

  lemma UnitRead(s: string, pos: nat, unit: nat)
    ensures UnitAt(s, pos, unit) <==> Hex4At(s, pos) == Ok((unit, pos + 4))
  {
    Hex4Exactly(s, pos, unit);
  }

  /** The units of a character are one that is no surrogate, or a high and a low one. */
  lemma UnitsExactly(c: char)
    ensures forall u: nat :: Units(c) == [u] <==> c as nat == u < 0x10000 && !(0xD800 <= u < 0xE000)
    ensures forall u: nat, v: nat :: Units(c) == [u, v] <==>
      0xD800 <= u < 0xDC00 <= v < 0xE000 && c as nat == 0x10000 + (u - 0xD800) * 0x400 + (v - 0xDC00)
  {}

  /** The `\u` escapes of a character's code units, from the digits of the first on. */
  ghost predicate UnitsAt(s: string, pos: nat, c: char, end: nat) {
    || (|Units(c)| == 1 && end == pos + 4 && UnitAt(s, pos, Units(c)[0]))
    || (&& |Units(c)| == 2 && end == pos + 10 && UnitAt(s, pos, Units(c)[0])
        && Next(s, pos + 4, '\\') && Next(s, pos + 5, 'u') && UnitAt(s, pos + 6, Units(c)[1]))
  }

  lemma UnicodeRead(s: string, pos: nat, c: char, end: nat)
    requires UnicodeAt(s, pos) == Ok((c, end))
    ensures UnitsAt(s, pos, c, end)
  {
    UnitsExactly(c);
    var high := Hex4At(s, pos).value.0;
    UnitRead(s, pos, high);
    if 0xD800 <= high <= 0xDBFF {
      var low := Hex4At(s, pos + 6).value.0;
      UnitRead(s, pos + 6, low);
      hide UnitAt, Hex4At, Units;
      assert Units(c) == [high, low];
    } else {
      hide UnitAt, Hex4At, Units;
      assert Units(c) == [high];
    }
  }

  lemma UnicodeSpelled(s: string, pos: nat, c: char, end: nat)
    requires UnitsAt(s, pos, c, end)
    ensures UnicodeAt(s, pos) == Ok((c, end))
  {
    UnitRead(s, pos, Units(c)[0]);
    if |Units(c)| == 2 { UnitRead(s, pos + 6, Units(c)[1]); }
    hide UnitAt, Hex4At, Units;
  }

  /** After a backslash exactly the escapes are read, each as the character it spells. */
  lemma EscapeExactly(s: string, pos: nat, c: char, end: nat)
    requires pos < |s| && s[pos] == '\\'
    ensures EscapeAt(s, pos + 1) == Ok((c, end)) <==> pos < end <= |s| && Spelling(s[pos..end], c)
  {
    if EscapeAt(s, pos + 1) == Ok((c, end)) {
      EscapeRead(s, pos, c, end);
    }
    if pos < end <= |s| && Spelling(s[pos..end], c) {
      EscapeSpelled(s, pos, c, end);
    }
  }

  lemma EscapeRead(s: string, pos: nat, c: char, end: nat)
    requires pos < |s| && s[pos] == '\\' && EscapeAt(s, pos + 1) == Ok((c, end))
    ensures pos < end <= |s| && Spelling(s[pos..end], c)
  {
    if Next(s, pos + 1, 'u') {
      UnicodeRead(s, pos + 2, c, end);
      hide UnicodeAt, Units;
      UnitEscapeAt(s, pos, Units(c)[0]);
      if |Units(c)| == 2 {
        UnitEscapeAt(s, pos + 6, Units(c)[1]);
        assert s[pos..end][..6] == s[pos..pos + 6] && s[pos..end][6..] == s[pos + 6..pos + 12];
      }
      hide UnitAt, UnitEscape;
    } else {
      assert (s[pos + 1], c) in SHORT;
    }
  }

  lemma EscapeSpelled(s: string, pos: nat, c: char, end: nat)
    requires pos < end <= |s| && s[pos] == '\\' && Spelling(s[pos..end], c)
    ensures EscapeAt(s, pos + 1) == Ok((c, end))
  {
    var text := s[pos..end];
    assert text[0] == s[pos];
    if |text| == 2 {
      assert text[1] == s[pos + 1] && (text[1], c) in SHORT;
    } else if |text| == 6 {
      UnitEscapeAt(s, pos, Units(c)[0]);
      hide UnitAt, UnitEscape, Units, UnicodeAt;
      UnicodeSpelled(s, pos + 2, c, end);
    } else {
      assert text[..6] == s[pos..pos + 6] && text[6..] == s[pos + 6..pos + 12];
      UnitEscapeAt(s, pos, Units(c)[0]);
      UnitEscapeAt(s, pos + 6, Units(c)[1]);
      hide UnitAt, UnitEscape, Units, UnicodeAt;
      UnicodeSpelled(s, pos + 2, c, end);
    }
  }

  /** `body` writes the characters of `t` one after the other. */
  ghost predicate Spells(body: string, t: string)
    decreases |t|
  {
    if t == "" then body == ""
    else exists n: nat :: SpellsFirst(body, t, n) && Spells(body[n..], t[1..])
  }

  ghost predicate SpellsFirst(body: string, t: string, n: nat)
    requires t != ""
  {
    0 < n <= |body| && Spelling(body[..n], t[0])
  }

  /** No spelling is a single backslash or quotation mark. */
  lemma SpellingStart(text: string, c: char)
    requires Spelling(text, c)
    ensures text != "" && text[0] >= ' ' && text[0] != '"'
    ensures text[0] != '\\' ==> text == [c]
  {}

  /** One step of the reader: the next `n` characters of the text are read as `c`. */
  ghost predicate ReadsChar(s: string, pos: nat, c: char, n: nat) {
    && 0 < n && pos + n <= |s|
    && if s[pos] == '\\' then EscapeAt(s, pos + 1) == Ok((c, pos + n)) else n == 1 && s[pos] == c >= ' ' && c != '"'
  }

  lemma CharSpelling(s: string, pos: nat, c: char, n: nat)
    requires 0 < n && pos + n <= |s|
    ensures ReadsChar(s, pos, c, n) <==> Spelling(s[pos..pos + n], c)
  {
    hide Spelling, EscapeAt;
    OneChar(s, pos, c, n);
    if s[pos] == '\\' {
      EscapeExactly(s, pos, c, pos + n);
    } else {
      PlainSpelling(s[pos..pos + n], c);
    }
  }

  lemma OneChar(s: string, pos: nat, c: char, n: nat)
    requires 0 < n && pos + n <= |s|
    ensures s[pos..pos + n] != "" && s[pos..pos + n][0] == s[pos]
    ensures s[pos..pos + n] == [c] <==> n == 1 && s[pos] == c
  {}

  lemma PlainSpelling(text: string, c: char)
    requires text != "" && text[0] != '\\'
    ensures Spelling(text, c) <==> text == [c] && c >= ' ' && c != '"'
  {}

  lemma CharsStep(s: string, pos: nat, out: string, c: char, n: nat)
    requires ReadsChar(s, pos, c, n)
    ensures pos + n <= |s| && CharsFrom(s, pos, out) == CharsFrom(s, pos + n, out + [c])
  {
    hide EscapeAt;
  }

  lemma CharsCases(s: string, pos: nat, out: string) returns (c: char, n: nat)
    requires pos <= |s| && CharsFrom(s, pos, out).Ok?
    ensures pos < |s|
    ensures s[pos] == '"' ==> CharsFrom(s, pos, out) == Ok((out, pos + 1))
    ensures s[pos] != '"' ==> 0 < n <= |s| - pos && ReadsChar(s, pos, c, n)
  {
    c, n := s[pos], 1;
    if s[pos] == '\\' { c, n := EscapeAt(s, pos + 1).value.0, EscapeAt(s, pos + 1).value.1 - pos; }
  }

  lemma {:induction false} CharsSpelled(s: string, pos: nat, out: string, t: string, end: nat)
    requires pos < end <= |s| && s[end - 1] == '"' && Spells(s[pos..end - 1], t)
    ensures CharsFrom(s, pos, out) == Ok((out + t, end))
    decreases |t|
  {
    hide *;
    if t == "" {
      NothingSpelled(s, pos, out, end);
    } else {
      var n := SpellsCases(s[pos..end - 1], t);
      SameText(s, pos, n, end - 1);
      CharSpelling(s, pos, t[0], n);
      CharsStep(s, pos, out, t[0], n);
      CharsSpelled(s, pos + n, out + [t[0]], t[1..], end);
      FirstMoved(out, t);
    }
  }

  lemma NothingSpelled(s: string, pos: nat, out: string, end: nat)
    requires pos < end <= |s| && s[end - 1] == '"' && Spells(s[pos..end - 1], "")
    ensures CharsFrom(s, pos, out) == Ok((out + "", end))
  {
    assert |s[pos..end - 1]| == 0 && out + "" == out;
  }

  lemma NothingRead(s: string, pos: nat, out: string, t: string, end: nat)
    requires pos < |s| && s[pos] == '"' && out == out + t && end == pos + 1
    ensures pos < end <= |s| && s[end - 1] == '"' && Spells(s[pos..end - 1], t)
  {
    assert |out + t| == |out|;
    assert s[pos..end - 1] == "";
  }

  lemma SpellsCases(body: string, t: string) returns (n: nat)
    requires t != "" && Spells(body, t)
    ensures 0 < n <= |body| && Spelling(body[..n], t[0]) && Spells(body[n..], t[1..])
  {
    hide Spelling;
    n :| SpellsFirst(body, t, n) && Spells(body[n..], t[1..]);
  }

  lemma SameText(s: string, pos: nat, n: nat, end: nat)
    requires pos + n <= end <= |s|
    ensures s[pos..end][..n] == s[pos..pos + n] && s[pos..end][n..] == s[pos + n..end]
  {}

  lemma FirstMoved(out: string, t: string)
    requires t != ""
    ensures out + t == (out + [t[0]]) + t[1..]
  {}

  lemma {:induction false} CharsRead(s: string, pos: nat, out: string, t: string, end: nat)
    requires pos <= |s| && CharsFrom(s, pos, out) == Ok((out + t, end))
    ensures pos < end <= |s| && s[end - 1] == '"' && Spells(s[pos..end - 1], t)
    decreases |s| - pos
  {
    hide *;
    var c, n := CharsCases(s, pos, out);
    if s[pos] == '"' {
      NothingRead(s, pos, out, t, end);
    } else {
      CharsStep(s, pos, out, c, n);
      CharSpelling(s, pos, c, n);
      CharsLonger(s, pos + n, out + [c]);
      NextOf(out, c, t);
      CharsRead(s, pos + n, out + [c], t[1..], end);
      SameText(s, pos, n, end - 1);
      OneMore(s[pos..end - 1], t, n);
    }
  }

  lemma NextOf(out: string, c: char, t: string)
    requires out + [c] <= out + t
    ensures t != "" && t[0] == c && out + t == (out + [c]) + t[1..]
  {
    assert (out + t)[|out|] == (out + [c])[|out|];
  }

  lemma OneMore(body: string, t: string, n: nat)
    requires t != "" && 0 < n <= |body| && Spelling(body[..n], t[0]) && Spells(body[n..], t[1..])
    ensures Spells(body, t)
  {
    hide Spelling;
    assert SpellsFirst(body, t, n);
  }

  /** What was read so far stays. */
  lemma {:induction false} CharsLonger(s: string, pos: nat, out: string)
    requires pos <= |s|
    ensures CharsFrom(s, pos, out).Ok? ==> out <= CharsFrom(s, pos, out).value.0 && pos < CharsFrom(s, pos, out).value.1
    decreases |s| - pos
  {
    if pos < |s| && s[pos] != '"' && s[pos] >= ' ' {
      if s[pos] != '\\' {
        CharsLonger(s, pos + 1, out + [s[pos]]);
      } else if EscapeAt(s, pos + 1).Ok? {
        var read := EscapeAt(s, pos + 1).value;
        CharsLonger(s, read.1, out + [read.0]);
      }
    }
  }

  /** A string is read exactly up to a quotation mark before which its characters are
      spelled. */
  lemma StringExactly(s: string, pos: nat, t: string, end: nat)
    requires pos <= |s|
    ensures CharsFrom(s, pos, "") == Ok((t, end)) <==>
      pos < end <= |s| && s[end - 1] == '"' && Spells(s[pos..end - 1], t)
  {
    assert "" + t == t;
    if CharsFrom(s, pos, "") == Ok((t, end)) { CharsRead(s, pos, "", t, end); }
    if pos < end <= |s| && s[end - 1] == '"' && Spells(s[pos..end - 1], t) { CharsSpelled(s, pos, "", t, end); }
  }

  /** The printer writes a character as itself whenever that is a spelling, else by a letter
      if there is one, else by four digits, in lower case (RFC 8785, section 3.2.2.2). */
  lemma EscapePrinted(c: char)
    ensures Spelling(Escape(c), c)
    ensures Escape(c) == [c] <==> c >= ' ' && c != '"' && c != '\\'
    ensures |Escape(c)| == 2 <==> c in {'"', '\\', '\U{08}', '\t', '\n', '\U{0C}', '\r'}
    ensures |Escape(c)| in {1, 2, 6} && (|Escape(c)| == 6 ==> Escape(c)[4] in LOWER_HEX && Escape(c)[5] in LOWER_HEX)
  {
    if c < ' ' && |Escape(c)| == 6 {
      ControlPrinted(c);
    } else if |Escape(c)| == 2 {
      assert (Escape(c)[1], c) in SHORT;
    }
  }

  lemma ControlPrinted(c: char)
    requires c < ' ' && |Escape(c)| == 6
    ensures Spelling(Escape(c), c) && Escape(c)[4] in LOWER_HEX && Escape(c)[5] in LOWER_HEX
  {
    var code := c as nat;
    assert Units(c) == [code];
    hide Units;
    var text := Escape(c);
    assert text[4] == Digit(code / 16) && text[5] == Digit(code % 16);
    hide Digit, Escape, LOWER_HEX, UPPER_HEX, SHORT, UnitEscape;
    LowUnit(text, code);
  }

  lemma LowUnit(text: string, code: nat)
    requires code < 0x100 && |text| == 6 && text[0] == '\\' && text[1] == 'u' && text[2] == text[3] == '0'
    requires text[4] == Digit(code / 16) && text[5] == Digit(code % 16)
    ensures UnitEscape(text, code) && text[4] in LOWER_HEX && text[5] in LOWER_HEX
  {
    DigitIs(code / 16);
    DigitIs(code % 16);
    ZeroDigit();
    hide Digit, HexDenotes, LOWER_HEX, UPPER_HEX;
    assert code / 0x1000 == 0 && code / 0x100 % 0x10 == 0 && code / 0x10 % 0x10 == code / 16;
  }

  lemma ZeroDigit()
    ensures HexDenotes('0', 0)
  {}

  lemma DigitIs(d: nat)
    requires d < 16
    ensures Digit(d) == LOWER_HEX[d] && Digit(d) in LOWER_HEX && HexDenotes(Digit(d), d)
  {}
}
