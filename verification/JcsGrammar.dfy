/** The language `Json::parse` accepts (`rvm-anchor/src/jcs.rs`): exactly the texts whose
    tokens, with any white space between them, spell a value without duplicate keys. */
module JcsGrammar {
  import opened Types
  import opened Utf16Order
  import opened Jcs

  /** A structural character, a scalar, or something that is neither. */
  datatype Token = Mark(c: char) | Word(v: Json) | Bad

  const MARKS := {'{', '}', '[', ']', ',', ':'}

  function WordOf(read: Parsed<Json>, s: string): (Token, nat) {
    if read.Ok? then (Word(read.value.0), read.value.1) else (Bad, |s|)
  }

  /** The token that starts at `p`, and where it ends. */
  function TokenAt(s: string, p: nat): (Token, nat)
    requires p < |s|
  {
    if s[p] in MARKS then (Mark(s[p]), p + 1)
    else if s[p] == '"' then
      var chars := CharsFrom(s, p + 1, "");
      if chars.Ok? then (Word(Str(chars.value.0)), chars.value.1) else (Bad, |s|)
    else if s[p] == 't' then WordOf(LiteralAt(s, p, "true", Bool(true)), s)
    else if s[p] == 'f' then WordOf(LiteralAt(s, p, "false", Bool(false)), s)
    else if s[p] == 'n' then WordOf(LiteralAt(s, p, "null", Null), s)
    else if s[p] == '-' || IsDigit(s[p]) then WordOf(NumberAt(s, p), s)
    else (Bad, |s|)
  }

  /** The tokens from `pos` on; white space only separates them. */
  function Tokens(s: string, pos: nat): seq<Token>
    requires pos <= |s|
    decreases |s| - pos
  {
    var p := SkipSpace(s, pos);
    if p == |s| then []
    else
      var (token, end) := TokenAt(s, p);
      if token == Bad || !(p < end <= |s|) then [Bad] else [token] + Tokens(s, end)
  }

  /** `parts` separated by commas and closed by `end`. */
  function Separated(parts: seq<seq<Token>>, end: char): seq<Token> {
    if parts == [] then [Mark(end)]
    else parts[0] + (if |parts| == 1 then [] else [Mark(',')]) + Separated(parts[1..], end)
  }

  /** The tokens that spell a value, its members in the order they have. */
  function Spell(v: Json): seq<Token> {
    match v
    case Null | Bool(_) | Int(_) | Str(_) => [Word(v)]
    case Arr(items) => [Mark('[')] + Separated(seq(|items|, k requires 0 <= k < |items| => Spell(items[k])), ']')
    case Obj(pairs) =>
      [Mark('{')] + Separated(seq(|pairs|, k requires 0 <= k < |pairs| => SpellKey(pairs[k].0) + Spell(pairs[k].1)),
                              '}')
  }

  function SpellKey(key: string): seq<Token> { [Word(Str(key)), Mark(':')] }

  function ItemSpells(items: seq<Json>): (r: seq<seq<Token>>)
    ensures |r| == |items| && forall k :: 0 <= k < |items| ==> r[k] == Spell(items[k])
  {
    seq(|items|, k requires 0 <= k < |items| => Spell(items[k]))
  }

  function MemberSpells(pairs: Members<Json>): (r: seq<seq<Token>>)
    ensures |r| == |pairs| && forall k :: 0 <= k < |pairs| ==> r[k] == SpellKey(pairs[k].0) + Spell(pairs[k].1)
  {
    seq(|pairs|, k requires 0 <= k < |pairs| => SpellKey(pairs[k].0) + Spell(pairs[k].1))
  }

  lemma SpellArr(items: seq<Json>)
    ensures Spell(Arr(items)) == [Mark('[')] + Separated(ItemSpells(items), ']')
  {
    assert ItemSpells(items) == seq(|items|, k requires 0 <= k < |items| => Spell(items[k]));
  }

  lemma SpellObj(pairs: Members<Json>)
    ensures Spell(Obj(pairs)) == [Mark('{')] + Separated(MemberSpells(pairs), '}')
  {
    assert MemberSpells(pairs) ==
      seq(|pairs|, k requires 0 <= k < |pairs| => SpellKey(pairs[k].0) + Spell(pairs[k].1));
  }

  lemma SeparatedStep(parts: seq<seq<Token>>, k: nat, end: char)
    requires k < |parts|
    ensures Separated(parts[k..], end) ==
      parts[k] + if k == |parts| - 1 then [Mark(end)] else [Mark(',')] + Separated(parts[k + 1..], end)
  {
    assert parts[k..][1..] == parts[k + 1..];
    if k < |parts| - 1 {
      var more := Separated(parts[k + 1..], end);
      assert parts[k] + [Mark(',')] + more == parts[k] + ([Mark(',')] + more);
    }
  }

  /** What is left of a separated text once part `k` is taken off. */
  function After(parts: seq<seq<Token>>, k: nat, end: char, rest: seq<Token>): seq<Token>
    requires k < |parts|
  {
    if k == |parts| - 1 then [Mark(end)] + rest else [Mark(',')] + (Separated(parts[k + 1..], end) + rest)
  }

  lemma TakePart(parts: seq<seq<Token>>, k: nat, end: char, rest: seq<Token>)
    requires k < |parts|
    ensures Separated(parts[k..], end) + rest == parts[k] + After(parts, k, end, rest)
  {
    hide Separated;
    SeparatedStep(parts, k, end);
    var tail := if k == |parts| - 1 then [Mark(end)] else [Mark(',')] + Separated(parts[k + 1..], end);
    assert (parts[k] + tail) + rest == parts[k] + (tail + rest);
    assert tail + rest == After(parts, k, end, rest);
  }

  lemma TakeMember(pairs: Members<Json>, k: nat, rest: seq<Token>)
    requires k < |pairs|
    ensures Separated(MemberSpells(pairs)[k..], '}') + rest ==
      SpellKey(pairs[k].0) + (Spell(pairs[k].1) + After(MemberSpells(pairs), k, '}', rest))
  {
    hide Separated, SpellKey, Spell, After;
    TakePart(MemberSpells(pairs), k, '}', rest);
    var tail := After(MemberSpells(pairs), k, '}', rest);
    assert (SpellKey(pairs[k].0) + Spell(pairs[k].1)) + tail == SpellKey(pairs[k].0) + (Spell(pairs[k].1) + tail);
  }

  // ---- tokens and characters --------------------------------------------------------------

  lemma {:induction false} SkipTwice(s: string, pos: nat)
    requires pos <= |s|
    ensures SkipSpace(s, SkipSpace(s, pos)) == SkipSpace(s, pos)
    ensures SkipSpace(s, pos) < |s| ==> !IsSpace(s[SkipSpace(s, pos)])
    decreases |s| - pos
  {
    if pos < |s| && IsSpace(s[pos]) { SkipTwice(s, pos + 1); }
  }

  lemma SkipKeeps(s: string, pos: nat)
    requires pos <= |s|
    ensures Tokens(s, SkipSpace(s, pos)) == Tokens(s, pos)
  {
    SkipTwice(s, pos);
  }

  /** A structural token comes next exactly when its character does. */
  lemma MarkNext(s: string, pos: nat, c: char)
    requires pos <= |s| && c in MARKS
    ensures
      var p := SkipSpace(s, pos);
      && (Next(s, p, c) <==> Tokens(s, pos) != [] && Tokens(s, pos)[0] == Mark(c))
      && (Next(s, p, c) ==> Tokens(s, pos) == [Mark(c)] + Tokens(s, p + 1))
  {
    hide SkipSpace, CharsFrom, LiteralAt, NumberAt;
  }

  ghost predicate Scalar(v: Json) { !v.Arr? && !v.Obj? }

  /** A scalar is read exactly when its token comes next. */
  lemma WordNext(s: string, pos: nat)
    requires pos <= |s|
    ensures
      var ts, p := Tokens(s, pos), SkipSpace(s, pos);
      && (ts != [] && ts[0].Word? ==>
            && Scalar(ts[0].v) && ValueAt(s, pos).Ok? && ValueAt(s, pos).value.0 == ts[0].v)
      && (p < |s| && s[p] !in {'{', '['} && ValueAt(s, pos).Ok? ==>
            var read := ValueAt(s, pos).value;
            Scalar(read.0) && ts == [Word(read.0)] + Tokens(s, read.1))
  {
    hide SkipSpace, CharsFrom, NumberAt;
  }

  /** A key is read exactly when its string comes next. */
  lemma KeyNext(s: string, pos: nat)
    requires pos <= |s|
    ensures
      var ts, p := Tokens(s, pos), SkipSpace(s, pos);
      && (Next(s, p, '"') && CharsFrom(s, p + 1, "").Ok? <==> ts != [] && ts[0].Word? && ts[0].v.Str?)
      && (Next(s, p, '"') && CharsFrom(s, p + 1, "").Ok? ==>
            var read := CharsFrom(s, p + 1, "").value;
            ts == [Word(Str(read.0))] + Tokens(s, read.1))
  {
    hide SkipSpace, CharsFrom, NumberAt;
  }

  // ---- what is accepted is spelled ----------------------------------------------------------

  lemma {:induction false} ValueSound(s: string, pos: nat)
    requires pos <= |s| && ValueAt(s, pos).Ok?
    ensures var read := ValueAt(s, pos).value; Tokens(s, pos) == Spell(read.0) + Tokens(s, read.1)
    decreases |s| - pos, 1
  {
    var p, read := SkipSpace(s, pos), ValueAt(s, pos).value;
    WordNext(s, pos);
    MarkNext(s, pos, '[');
    MarkNext(s, pos, '{');
    if s[p] == '[' {
      ArraySound(s, p);
    } else if s[p] == '{' {
      ObjectSound(s, p);
    }
  }

  lemma {:induction false} ArraySound(s: string, p: nat)
    requires p < |s| && ArrayAt(s, p).Ok?
    ensures var read := ArrayAt(s, p).value; [Mark('[')] + Tokens(s, p + 1) == Spell(read.0) + Tokens(s, read.1)
    decreases |s| - p, 0
  {
    hide *;
    Marks();
    MarkNext(s, p + 1, ']');
    SkipKeeps(s, p + 1);
    ArrayStep(s, p);
    var q := SkipSpace(s, p + 1);
    if Next(s, q, ']') {
      EmptySpells();
      TwoMarks('[', ']', Tokens(s, q + 1));
    } else {
      ItemsSound(s, q, []);
      var read := ItemsFrom(s, q, []).value;
      SpellArr(read.0.items);
      AllParts(ItemSpells(read.0.items));
      Regroup(Mark('['), Separated(ItemSpells(read.0.items), ']'), Tokens(s, read.1));
    }
  }

  lemma TwoMarks(open: char, close: char, rest: seq<Token>)
    ensures [Mark(open)] + ([Mark(close)] + rest) == [Mark(open), Mark(close)] + rest
  {}

  lemma Regroup(first: Token, body: seq<Token>, rest: seq<Token>)
    ensures [first] + (body + rest) == ([first] + body) + rest
  {}

  lemma EmptySpells()
    ensures Spell(Arr([])) == [Mark('['), Mark(']')] && Spell(Obj([])) == [Mark('{'), Mark('}')]
  {}

  lemma {:induction false} ItemsSound(s: string, pos: nat, items: seq<Json>)
    requires pos <= |s| && ItemsFrom(s, pos, items).Ok?
    ensures
      var read := ItemsFrom(s, pos, items).value;
      && read.0.Arr? && |items| < |read.0.items| && read.0.items[..|items|] == items
      && Tokens(s, pos) == Separated(ItemSpells(read.0.items)[|items|..], ']') + Tokens(s, read.1)
    decreases |s| - pos, 2
  {
    hide *;
    Marks();
    ItemsCases(s, pos, items);
    var item, k := ValueAt(s, pos).value, |items|;
    ItemsStep(s, pos, items, item.0, item.1);
    ValueSound(s, pos);
    MarkNext(s, item.1, ',');
    MarkNext(s, item.1, ']');
    var p := SkipSpace(s, item.1);
    if Next(s, p, ',') {
      ItemsSound(s, p + 1, items + [item.0]);
    }
    var read := ItemsFrom(s, pos, items).value;
    var all := read.0.items;
    assert all[..k + 1] == items + [item.0];
    assert all[k] == all[..k + 1][k];
    TakePart(ItemSpells(all), k, ']', Tokens(s, read.1));
    AfterIs(ItemSpells(all), k, ']', Tokens(s, read.1));
  }

  /** After an item comes a comma or the closing bracket. */
  lemma ItemsCases(s: string, pos: nat, before: seq<Json>)
    requires pos <= |s| && ItemsFrom(s, pos, before).Ok?
    ensures ValueAt(s, pos).Ok? && ValueAt(s, pos).value.1 <= |s|
    ensures var p := SkipSpace(s, ValueAt(s, pos).value.1); p < |s| && (Next(s, p, ',') || Next(s, p, ']'))
  {
    hide ValueAt, SkipSpace;
  }

  lemma AfterIs(parts: seq<seq<Token>>, k: nat, end: char, rest: seq<Token>)
    requires k < |parts|
    ensures After(parts, k, end, rest) ==
      if k == |parts| - 1 then [Mark(end)] + rest else [Mark(',')] + (Separated(parts[k + 1..], end) + rest)
  {}

  lemma {:induction false} ObjectSound(s: string, p: nat)
    requires p < |s| && ObjectAt(s, p).Ok?
    ensures var read := ObjectAt(s, p).value; [Mark('{')] + Tokens(s, p + 1) == Spell(read.0) + Tokens(s, read.1)
    decreases |s| - p, 0
  {
    hide *;
    Marks();
    MarkNext(s, p + 1, '}');
    SkipKeeps(s, p + 1);
    ObjectStep(s, p);
    var q := SkipSpace(s, p + 1);
    if Next(s, q, '}') {
      EmptySpells();
      TwoMarks('{', '}', Tokens(s, q + 1));
    } else {
      MembersSound(s, q, []);
      var read := MembersFrom(s, q, []).value;
      SpellObj(read.0.pairs);
      AllParts(MemberSpells(read.0.pairs));
      Regroup(Mark('{'), Separated(MemberSpells(read.0.pairs), '}'), Tokens(s, read.1));
    }
  }

  lemma {:induction false} MembersSound(s: string, pos: nat, pairs: Members<Json>)
    requires pos <= |s| && MembersFrom(s, pos, pairs).Ok?
    ensures
      var read := MembersFrom(s, pos, pairs).value;
      && read.0.Obj? && |pairs| < |read.0.pairs| && read.0.pairs[..|pairs|] == pairs
      && Tokens(s, pos) == Separated(MemberSpells(read.0.pairs)[|pairs|..], '}') + Tokens(s, read.1)
    decreases |s| - pos, 2
  {
    hide *;
    Marks();
    MembersCases(s, pos, pairs);
    var key, k := CharsFrom(s, SkipSpace(s, pos) + 1, "").value, |pairs|;
    KeySpelled(s, pos);
    var colon := SkipSpace(s, key.1);
    var value := ValueAt(s, colon + 1).value;
    var member := (key.0, value.0);
    MembersStep(s, pos, pairs, member, key.1, value.1);
    ValueSound(s, colon + 1);
    MarkNext(s, value.1, ',');
    MarkNext(s, value.1, '}');
    var p := SkipSpace(s, value.1);
    if Next(s, p, ',') {
      MembersSound(s, p + 1, pairs + [member]);
    }
    var read := MembersFrom(s, pos, pairs).value;
    var all := read.0.pairs;
    assert all[..k + 1] == pairs + [member];
    assert all[k] == all[..k + 1][k];
    TakeMember(all, k, Tokens(s, read.1));
    AfterIs(MemberSpells(all), k, '}', Tokens(s, read.1));
  }

  /** A member is a fresh key, a colon and a value, and after it comes a comma or the
      closing brace. */
  lemma MembersCases(s: string, pos: nat, before: Members<Json>)
    requires pos <= |s| && MembersFrom(s, pos, before).Ok?
    ensures Next(s, SkipSpace(s, pos), '"') && SkipSpace(s, pos) < |s|
    ensures
      var key := CharsFrom(s, SkipSpace(s, pos) + 1, "");
      && key.Ok? && key.value.1 <= |s| && !HasKey(before, key.value.0)
      && Next(s, SkipSpace(s, key.value.1), ':') && SkipSpace(s, key.value.1) < |s|
      && var value := ValueAt(s, SkipSpace(s, key.value.1) + 1);
      && value.Ok? && value.value.1 <= |s|
      && var p := SkipSpace(s, value.value.1);
      p < |s| && (Next(s, p, ',') || Next(s, p, '}'))
  {
    hide ValueAt, SkipSpace, CharsFrom, HasKey;
  }

  /** The tokens of a key and its colon. */
  lemma KeySpelled(s: string, pos: nat)
    requires pos <= |s| && SkipSpace(s, pos) < |s| && Next(s, SkipSpace(s, pos), '"')
    requires CharsFrom(s, SkipSpace(s, pos) + 1, "").Ok?
    ensures
      var key := CharsFrom(s, SkipSpace(s, pos) + 1, "").value;
      key.1 <= |s| && (Next(s, SkipSpace(s, key.1), ':') ==>
        Tokens(s, pos) == SpellKey(key.0) + Tokens(s, SkipSpace(s, key.1) + 1))
  {
    KeyNext(s, pos);
    var key := CharsFrom(s, SkipSpace(s, pos) + 1, "").value;
    MarkNext(s, key.1, ':');
    hide Tokens, SkipSpace, CharsFrom;
    var rest := Tokens(s, key.1);
    if Next(s, SkipSpace(s, key.1), ':') {
      assert [Word(Str(key.0))] + rest == SpellKey(key.0) + rest[1..];
    }
  }

  // ---- what is spelled is accepted ----------------------------------------------------------

  /** No value begins with a closing bracket. */
  lemma SpellFirst(v: Json)
    ensures Spell(v) != [] && Spell(v)[0] !in {Mark(']'), Mark('}')}
  {}

  /** Taking a structural token off. */
  lemma MarkTaken(s: string, pos: nat, c: char, rest: seq<Token>)
    requires pos <= |s| && c in MARKS && Tokens(s, pos) == [Mark(c)] + rest
    ensures
      var p := SkipSpace(s, pos);
      && p < |s| && Next(s, p, c) && (forall d :: d != c ==> !Next(s, p, d)) && Tokens(s, p + 1) == rest
  {
    MarkNext(s, pos, c);
    hide Tokens, SkipSpace;
    assert ([Mark(c)] + rest)[1..] == rest;
  }

  /** Taking the closing bracket or the comma after a part off. */
  lemma AfterTaken(s: string, pos: nat, parts: seq<seq<Token>>, k: nat, end: char, rest: seq<Token>)
    requires pos <= |s| && k < |parts| && end in MARKS && Tokens(s, pos) == After(parts, k, end, rest)
    ensures
      var p := SkipSpace(s, pos);
      && p < |s|
      && if k == |parts| - 1 then Next(s, p, end) && Tokens(s, p + 1) == rest
         else Next(s, p, ',') && Tokens(s, p + 1) == Separated(parts[k + 1..], end) + rest
  {
    hide Tokens, SkipSpace, Separated;
    if k == |parts| - 1 {
      MarkTaken(s, pos, end, rest);
    } else {
      MarkTaken(s, pos, ',', Separated(parts[k + 1..], end) + rest);
    }
  }

  /** What `ItemsFrom` does after an item. */
  lemma ItemsStep(s: string, pos: nat, before: seq<Json>, item: Json, end: nat)
    requires pos <= |s| && ValueAt(s, pos) == Ok((item, end))
    ensures end <= |s|
    ensures
      var p := SkipSpace(s, end);
      && (Next(s, p, ',') ==> ItemsFrom(s, pos, before) == ItemsFrom(s, p + 1, before + [item]))
      && (Next(s, p, ']') ==> ItemsFrom(s, pos, before) == Ok((Arr(before + [item]), p + 1)))
  {
    hide ValueAt, SkipSpace;
  }

  /** What `MembersFrom` does after a member. */
  lemma MembersStep(s: string, pos: nat, before: Members<Json>, member: (string, Json), keyEnd: nat, end: nat)
    requires pos <= |s| && Next(s, SkipSpace(s, pos), '"') && !HasKey(before, member.0)
    requires CharsFrom(s, SkipSpace(s, pos) + 1, "") == Ok((member.0, keyEnd)) && Next(s, SkipSpace(s, keyEnd), ':')
    requires ValueAt(s, SkipSpace(s, keyEnd) + 1) == Ok((member.1, end))
    ensures end <= |s|
    ensures
      var p, after := SkipSpace(s, end), before + [member];
      && (Next(s, p, ',') ==> MembersFrom(s, pos, before) == MembersFrom(s, p + 1, after))
      && (Next(s, p, '}') ==> MembersFrom(s, pos, before) == Ok((Obj(after), p + 1)))
  {
    hide ValueAt, SkipSpace, CharsFrom, HasKey;
  }

  /** `v` was read, and `rest` are the tokens after it. */
  ghost predicate Reads(read: Parsed<Json>, s: string, v: Json, rest: seq<Token>) {
    read.Ok? && read.value.0 == v && read.value.1 <= |s| && Tokens(s, read.value.1) == rest
  }

  lemma ReadTo(read: Parsed<Json>, s: string, v: Json, rest: seq<Token>) returns (end: nat)
    requires Reads(read, s, v, rest)
    ensures read == Ok((v, end)) && end <= |s| && Tokens(s, end) == rest
  {
    end := read.value.1;
  }

  lemma HasRead(s: string, v: Json, end: nat, rest: seq<Token>)
    requires end <= |s| && Tokens(s, end) == rest
    ensures Reads(Ok((v, end)), s, v, rest)
  {}

  lemma FirstOfItems(items: seq<Json>, rest: seq<Token>)
    requires items != []
    ensures var ts := Separated(ItemSpells(items)[0..], ']') + rest; ts != [] && ts[0] != Mark(']')
  {
    hide Separated, After, Spell;
    SpellFirst(items[0]);
    TakePart(ItemSpells(items), 0, ']', rest);
  }

  lemma FirstOfMembers(pairs: Members<Json>, rest: seq<Token>)
    requires pairs != []
    ensures var ts := Separated(MemberSpells(pairs)[0..], '}') + rest; ts != [] && ts[0] != Mark('}')
  {
    hide Separated, After, Spell;
    TakeMember(pairs, 0, rest);
  }

  lemma {:induction false} ValueComplete(v: Json, s: string, pos: nat, rest: seq<Token>)
    requires pos <= |s| && KeysDistinct(v) && Tokens(s, pos) == Spell(v) + rest
    ensures Reads(ValueAt(s, pos), s, v, rest)
    decreases v, 1, 0
  {
    WordNext(s, pos);
    MarkNext(s, pos, '[');
    MarkNext(s, pos, '{');
    match v {
      case Null | Bool(_) | Int(_) | Str(_) =>
        assert Tokens(s, pos)[1..] == rest;
      case Arr(items) => ArrayComplete(v, items, s, pos, rest);
      case Obj(pairs) => ObjectComplete(v, pairs, s, pos, rest);
    }
  }

  lemma {:induction false} ArrayComplete(v: Json, items: seq<Json>, s: string, pos: nat, rest: seq<Token>)
    requires v == Arr(items) && pos <= |s| && KeysDistinct(v) && Tokens(s, pos) == Spell(v) + rest
    ensures
      var p := SkipSpace(s, pos);
      p < |s| && Next(s, p, '[') && Reads(ArrayAt(s, p), s, v, rest)
    decreases v, 0, |items| + 1
  {
    hide *;
    Marks();
    SpellArr(items);
    var p := SkipSpace(s, pos);
    OpenTaken(s, pos, '[', Separated(ItemSpells(items), ']'), rest);
    ArrayStep(s, p);
    if items == [] {
      NoItems(rest);
      MarkTaken(s, p + 1, ']', rest);
      HasRead(s, v, SkipSpace(s, p + 1) + 1, rest);
    } else {
      MarkNext(s, p + 1, ']');
      FirstOfItems(items, rest);
      PrefixGrows(items, 0);
      AllParts(ItemSpells(items));
      ItemsComplete(v, items, 0, s, SkipSpace(s, p + 1), rest);
    }
  }

  lemma Marks()
    ensures '[' in MARKS && ']' in MARKS && '{' in MARKS && '}' in MARKS && ',' in MARKS
  {}

  lemma ItemDistinct(items: seq<Json>, k: nat)
    requires KeysDistinct(Arr(items)) && k < |items|
    ensures KeysDistinct(items[k])
  {}

  lemma MemberDistinct(pairs: Members<Json>, k: nat)
    requires KeysDistinct(Obj(pairs)) && k < |pairs|
    ensures KeysDistinct(pairs[k].1) && !HasKey(pairs[..k], pairs[k].0)
  {}

  /** Taking an opening bracket off. */
  lemma OpenTaken(s: string, pos: nat, c: char, body: seq<Token>, rest: seq<Token>)
    requires pos <= |s| && c in MARKS && Tokens(s, pos) == ([Mark(c)] + body) + rest
    ensures
      var p := SkipSpace(s, pos);
      && Next(s, p, c) && Tokens(s, p + 1) == body + rest && Tokens(s, SkipSpace(s, p + 1)) == body + rest
  {
    hide Tokens, SkipSpace;
    assert ([Mark(c)] + body) + rest == [Mark(c)] + (body + rest);
    MarkTaken(s, pos, c, body + rest);
    SkipKeeps(s, SkipSpace(s, pos) + 1);
  }

  lemma ArrayStep(s: string, p: nat)
    requires p < |s|
    ensures
      var q := SkipSpace(s, p + 1);
      ArrayAt(s, p) == if Next(s, q, ']') then Ok((Arr([]), q + 1)) else ItemsFrom(s, q, [])
  {}

  lemma ObjectStep(s: string, p: nat)
    requires p < |s|
    ensures
      var q := SkipSpace(s, p + 1);
      ObjectAt(s, p) == if Next(s, q, '}') then Ok((Obj([]), q + 1)) else MembersFrom(s, q, [])
  {}

  lemma NoItems(rest: seq<Token>)
    ensures Separated(ItemSpells([]), ']') + rest == [Mark(']')] + rest
    ensures Separated(MemberSpells([]), '}') + rest == [Mark('}')] + rest
  {}

  lemma AllParts<T>(parts: seq<T>)
    ensures parts[0..] == parts
  {}

  lemma PrefixGrows<T>(all: seq<T>, k: nat)
    requires k < |all|
    ensures all[..k] + [all[k]] == all[..k + 1] && (k + 1 == |all| ==> all[..k + 1] == all) && all[..0] == []
  {}

  lemma {:induction false} ItemsComplete(v: Json, items: seq<Json>, k: nat, s: string, pos: nat, rest: seq<Token>)
    requires v == Arr(items) && k < |items| && pos <= |s| && KeysDistinct(v)
    requires Tokens(s, pos) == Separated(ItemSpells(items)[k..], ']') + rest
    ensures Reads(ItemsFrom(s, pos, items[..k]), s, v, rest)
    decreases v, 0, |items| - k
  {
    hide *;
    Marks();
    ItemDistinct(items, k);
    TakePart(ItemSpells(items), k, ']', rest);
    var tail := After(ItemSpells(items), k, ']', rest);
    ValueComplete(items[k], s, pos, tail);
    var end := ReadTo(ValueAt(s, pos), s, items[k], tail);
    ItemsStep(s, pos, items[..k], items[k], end);
    PrefixGrows(items, k);
    AfterTaken(s, end, ItemSpells(items), k, ']', rest);
    if k < |items| - 1 {
      ItemsComplete(v, items, k + 1, s, SkipSpace(s, end) + 1, rest);
    } else {
      HasRead(s, v, SkipSpace(s, end) + 1, rest);
    }
  }

  lemma {:induction false} ObjectComplete(v: Json, pairs: Members<Json>, s: string, pos: nat, rest: seq<Token>)
    requires v == Obj(pairs) && pos <= |s| && KeysDistinct(v) && Tokens(s, pos) == Spell(v) + rest
    ensures
      var p := SkipSpace(s, pos);
      p < |s| && Next(s, p, '{') && Reads(ObjectAt(s, p), s, v, rest)
    decreases v, 0, |pairs| + 1
  {
    hide *;
    Marks();
    SpellObj(pairs);
    var p := SkipSpace(s, pos);
    OpenTaken(s, pos, '{', Separated(MemberSpells(pairs), '}'), rest);
    ObjectStep(s, p);
    if pairs == [] {
      NoItems(rest);
      MarkTaken(s, p + 1, '}', rest);
      HasRead(s, v, SkipSpace(s, p + 1) + 1, rest);
    } else {
      MarkNext(s, p + 1, '}');
      FirstOfMembers(pairs, rest);
      PrefixGrows(pairs, 0);
      AllParts(MemberSpells(pairs));
      MembersComplete(v, pairs, 0, s, SkipSpace(s, p + 1), rest);
    }
  }

  lemma {:induction false} MembersComplete(v: Json, pairs: Members<Json>, k: nat, s: string, pos: nat, rest: seq<Token>)
    requires v == Obj(pairs) && k < |pairs| && pos <= |s| && KeysDistinct(v)
    requires Tokens(s, pos) == Separated(MemberSpells(pairs)[k..], '}') + rest
    ensures Reads(MembersFrom(s, pos, pairs[..k]), s, v, rest)
    decreases v, 0, |pairs| - k
  {
    hide *;
    MemberDistinct(pairs, k);
    TakeMember(pairs, k, rest);
    var tail := After(MemberSpells(pairs), k, '}', rest);
    var keyEnd := KeyTaken(s, pos, pairs[k].0, Spell(pairs[k].1) + tail);
    var start := SkipSpace(s, keyEnd) + 1;
    ValueComplete(pairs[k].1, s, start, tail);
    var end := ReadTo(ValueAt(s, start), s, pairs[k].1, tail);
    MemberDone(pairs, k, s, pos, keyEnd, end, rest);
    if k < |pairs| - 1 {
      MembersComplete(v, pairs, k + 1, s, SkipSpace(s, end) + 1, rest);
    }
  }

  /** What is left after the `k`-th member was read. */
  lemma MemberDone(pairs: Members<Json>, k: nat, s: string, pos: nat, keyEnd: nat, end: nat, rest: seq<Token>)
    requires k < |pairs| && pos <= |s| && Next(s, SkipSpace(s, pos), '"') && !HasKey(pairs[..k], pairs[k].0)
    requires CharsFrom(s, SkipSpace(s, pos) + 1, "") == Ok((pairs[k].0, keyEnd)) && Next(s, SkipSpace(s, keyEnd), ':')
    requires ValueAt(s, SkipSpace(s, keyEnd) + 1) == Ok((pairs[k].1, end)) && end <= |s|
    requires Tokens(s, end) == After(MemberSpells(pairs), k, '}', rest)
    ensures k == |pairs| - 1 ==> Reads(MembersFrom(s, pos, pairs[..k]), s, Obj(pairs), rest)
    ensures k < |pairs| - 1 ==>
      var next := SkipSpace(s, end) + 1;
      && next <= |s| && Tokens(s, next) == Separated(MemberSpells(pairs)[k + 1..], '}') + rest
      && MembersFrom(s, pos, pairs[..k]) == MembersFrom(s, next, pairs[..k + 1])
  {
    hide *;
    Marks();
    MembersStep(s, pos, pairs[..k], pairs[k], keyEnd, end);
    PrefixGrows(pairs, k);
    AfterTaken(s, end, MemberSpells(pairs), k, '}', rest);
    if k == |pairs| - 1 {
      HasRead(s, Obj(pairs), SkipSpace(s, end) + 1, rest);
    }
  }

  /** Taking a key and its colon off. */
  lemma KeyTaken(s: string, pos: nat, key: string, rest: seq<Token>) returns (keyEnd: nat)
    requires pos <= |s| && Tokens(s, pos) == SpellKey(key) + rest
    ensures Next(s, SkipSpace(s, pos), '"') && CharsFrom(s, SkipSpace(s, pos) + 1, "") == Ok((key, keyEnd))
    ensures keyEnd <= |s| && SkipSpace(s, keyEnd) < |s| && Next(s, SkipSpace(s, keyEnd), ':')
    ensures Tokens(s, SkipSpace(s, keyEnd) + 1) == rest
  {
    KeyNext(s, pos);
    hide Tokens, SkipSpace, CharsFrom;
    keyEnd := CharsFrom(s, SkipSpace(s, pos) + 1, "").value.1;
    assert Tokens(s, pos)[1..] == [Mark(':')] + rest;
    MarkTaken(s, keyEnd, ':', rest);
  }

  // ---- the language ---------------------------------------------------------------------------

  /** A text stands for a value exactly when its tokens spell the value and no object of it
      has a key twice. */
  lemma AcceptedIff(s: string, v: Json)
    ensures DocumentOf(s) == Ok(v) <==> KeysDistinct(v) && Tokens(s, 0) == Spell(v)
  {
    hide ValueAt, Spell, KeysDistinct;
    if DocumentOf(s) == Ok(v) {
      ValueSound(s, 0);
    }
    if KeysDistinct(v) && Tokens(s, 0) == Spell(v) {
      assert Tokens(s, 0) == Spell(v) + [];
      ValueComplete(v, s, 0, []);
    }
  }

  /** Texts that differ only in the white space between their tokens have the same outcome. */
  lemma SameTokensSameValue(s: string, t: string)
    requires Tokens(s, 0) == Tokens(t, 0)
    ensures DocumentOf(s).Ok? <==> DocumentOf(t).Ok?
    ensures DocumentOf(s).Ok? ==> DocumentOf(s) == DocumentOf(t)
  {
    if DocumentOf(s).Ok? { AcceptedAs(s, t, DocumentOf(s).value); }
    if DocumentOf(t).Ok? { AcceptedAs(t, s, DocumentOf(t).value); }
  }

  lemma AcceptedAs(s: string, t: string, v: Json)
    requires Tokens(s, 0) == Tokens(t, 0) && DocumentOf(s) == Ok(v)
    ensures DocumentOf(t) == Ok(v)
  {
    AcceptedIff(s, v);
    AcceptedIff(t, v);
  }
}
