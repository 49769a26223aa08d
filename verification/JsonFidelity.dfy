/**
 * Which texts come back byte for byte.
 *
 * `Tidy` looks only at the text: two spaces a level, one space after a colon
 * and after a comma on one line, nothing broken inside a container that is on
 * one line, keys and literals in the printer's spelling, keys distinct, one
 * line break at the end. Reading and printing is the identity on exactly these.
 */
module JsonFidelity {
  import opened Wrappers
  import opened JsonText
  import opened JsonTree
  import opened JsonLayout

  /** The text after `prefix`, if the text starts with it. */
  function After(prefix: string, s: string): (rest: Option<string>)
    ensures rest.Some? ==> s == prefix + rest.value && |rest.value| == |s| - |prefix|
  {
    if prefix <= s then Some(s[|prefix|..]) else None
  }

  /** A canonical key that has not been seen, a colon and one space. */
  function CheckKey(s: string, seen: set<string>): (r: Option<Parsed<string>>)
    ensures r.Some? ==> |r.value.rest| < |s|
  {
    var inside :- After("\"", s);
    var n :- CloseQuote(inside);
    var body := inside[..n - 1];
    if !Canonical(body) || Unescape(body).None? || Unescape(body).value in seen then None
    else
      var rest :- After(": ", inside[n..]);
      Some(Parsed(Unescape(body).value, rest))
  }

  /** A string in any legal spelling. */
  function CheckString(s: string): (r: Option<string>)
    requires s != ""
    ensures r.Some? ==> |r.value| < |s|
  {
    var r :- ReadString(s);
    Some(r.rest)
  }

  /** `true`, `false`, `null`, or an integer other than `-0`. */
  function CheckLiteral(s: string): (r: Option<string>)
    ensures r.Some? ==> |r.value| < |s|
  {
    var n := LiteralLength(s);
    if LoadLiteral(s[..n]).Some? && s[..n] != "-0" then Some(s[n..]) else None
  }

  /** One tidy value off the front of `s`; the text after it. */
  function CheckValue(s: string, indent: nat, oneLine: bool): (r: Option<string>)
    ensures r.Some? ==> |r.value| < |s|
    decreases |s|, 1
  {
    if s == "" then None
    else if s[0] == '"' then CheckString(s)
    else if s[0] == '{' then
      if After("{}", s).Some? then After("{}", s)
      else if After("{ ", s).Some? then CheckMembers(After("{ ", s).value, ObjectFrame(OneLine, indent), true, {})
      else if oneLine then None
      else
        var rest :- After("{" + BrokenFrame(indent).open, s);
        CheckMembers(rest, BrokenFrame(indent), false, {})
    else if s[0] == '[' then
      var broken := After("[" + BrokenFrame(indent).open, s);
      if After("[]", s).Some? then After("[]", s)
      else if !oneLine && broken.Some? then CheckItems(broken.value, BrokenFrame(indent), false)
      else CheckItems(s[1..], ArrayFrame(OneLine, indent), true)
    else CheckLiteral(s)
  }

  function CheckMembers(s: string, f: Frame, oneLine: bool, seen: set<string>): (r: Option<string>)
    ensures r.Some? ==> |r.value| < |s|
    decreases |s|, 0
  {
    var key :- CheckKey(s, seen);
    var rest :- CheckValue(key.rest, f.indent, oneLine);
    if After("," + f.gap, rest).Some? then
      CheckMembers(After("," + f.gap, rest).value, f, oneLine, seen + {key.value})
    else After(f.close + "}", rest)
  }

  function CheckItems(s: string, f: Frame, oneLine: bool): (r: Option<string>)
    ensures r.Some? ==> |r.value| < |s|
    decreases |s|, 2
  {
    var rest :- CheckValue(s, f.indent, oneLine);
    if After("," + f.gap, rest).Some? then CheckItems(After("," + f.gap, rest).value, f, oneLine)
    else After(f.close + "]", rest)
  }

  predicate Tidy(text: string) {
    CheckValue(text, 0, false) == Some("\n")
  }

  // ---- every spelling of a laid-out tree is tidy ---------------------------

  lemma AfterIs(prefix: string, rest: string)
    ensures After(prefix, prefix + rest) == Some(rest)
  {
  }

  lemma CutBody(body: string, rest: string)
    ensures var inside := body + ("\"" + rest); inside[..|body|] == body && inside[|body| + 1..] == rest
    ensures "\"" + body + "\"" + rest == "\"" + (body + ("\"" + rest))
  {
  }

  lemma CheckSpelledKey(key: string, rest: string, seen: set<string>)
    requires key !in seen
    ensures CheckKey(Quote(key) + ": " + rest, seen) == Some(Parsed(key, rest))
  {
    hide CloseQuote, Unescape, Escape, Canonical;
    var body := Escape(key);
    var inside := body + ("\"" + (": " + rest));
    CutBody(body, ": " + rest);
    assert Quote(key) + ": " + rest == Quote(key) + (": " + rest);
    AfterIs("\"", inside);
    UnescapeInvertsEscape(key);
    EscapeIsCanonical(key);
    CloseQuoteIsExact(body, ": " + rest);
    AfterIs(": ", rest);
  }

  lemma CheckSpelledLiteral(t: Node, after: string)
    requires IsLiteral(t) && Delimited(t, after)
    ensures CheckLiteral(SpellLiteral(t) + after) == Some(after)
  {
    var token := SpellLiteral(t);
    LiteralSpelling(t);
    LiteralLengthIs(token, after);
    assert (token + after)[..|token|] == token && (token + after)[|token|..] == after;
    if t.Integer? { ReadInvertsShow(t.number); }
  }

  lemma CheckEmpty(indent: nat, oneLine: bool, after: string)
    ensures CheckValue("{}" + after, indent, oneLine) == Some(after)
    ensures CheckValue("[]" + after, indent, oneLine) == Some(after)
  {
    AfterIs("{}", after);
    AfterIs("[]", after);
  }

  lemma CheckSpelledText(raw: string, indent: nat, oneLine: bool, after: string)
    requires LoadString(raw).Some?
    ensures CheckValue(raw + after, indent, oneLine) == Some(after)
  {
    ReadQuoted(raw, after);
    hide LoadString, ReadString;
    assert (raw + after)[0] == '"';
  }

  lemma CheckSpelledBare(t: Node, indent: nat, oneLine: bool, after: string)
    requires IsLiteral(t) && Delimited(t, after)
    ensures CheckValue(SpellLiteral(t) + after, indent, oneLine) == Some(after)
  {
    LiteralSpelling(t);
    CheckSpelledLiteral(t, after);
    hide SpellLiteral, CheckLiteral, LoadLiteral;
    assert (SpellLiteral(t) + after)[0] == SpellLiteral(t)[0];
  }

  lemma {:induction false} TidySpell(t: Node, indent: nat, oneLine: bool, after: string)
    requires LaidOut(t, oneLine) && Delimited(t, after)
    ensures CheckValue(Spell(t, indent) + after, indent, oneLine) == Some(after)
    decreases t, 1
  {
    hide CheckValue, SpellLiteral, LoadString, ObjectFrame, ArrayFrame, SpellMembers, SpellItems;
    match t
    case Object(ms, _) =>
      if ms == [] { CheckEmpty(indent, oneLine, after); } else { TidySpellObject(t, indent, oneLine, after); }
    case Array(items, _) =>
      if items == [] { CheckEmpty(indent, oneLine, after); } else { TidySpellArray(t, indent, oneLine, after); }
    case String(v, raw) => CheckSpelledText(raw.value, indent, oneLine, after);
    case _ => CheckSpelledBare(t, indent, oneLine, after);
  }

  lemma {:induction false} CheckObjectStep(indent: nat, layout: Layout, oneLine: bool, inner: string, after: string)
    requires layout.OneLine? || (layout.Broken? && !oneLine)
    requires inner != "" && inner[0] != '}'
    requires CheckMembers(inner, ObjectFrame(layout, indent), layout.OneLine?, {}) == Some(after)
    ensures CheckValue("{" + ObjectFrame(layout, indent).open + inner, indent, oneLine) == Some(after)
  {
    hide CheckMembers;
    var f := ObjectFrame(layout, indent);
    var s := "{" + f.open + inner;
    assert "{" + " " == "{ ";
    AfterIs("{" + f.open, inner);
    assert s[1] == f.open[0];
  }

  lemma CheckArrayStep(indent: nat, layout: Layout, oneLine: bool, inner: string, after: string)
    requires layout.OneLine? || (layout.Broken? && !oneLine)
    requires inner != "" && inner[0] != ']' && !IsSpace(inner[0])
    requires CheckItems(inner, ArrayFrame(layout, indent), layout.OneLine?) == Some(after)
    ensures CheckValue("[" + ArrayFrame(layout, indent).open + inner, indent, oneLine) == Some(after)
  {
    hide CheckItems;
    var f := ArrayFrame(layout, indent);
    var s := "[" + f.open + inner;
    AfterIs("[" + f.open, inner);
    if layout.OneLine? {
      assert s[1..] == inner;
      assert s[1] == inner[0];
      assert BrokenFrame(indent).open[0] == '\n';
      assert ("[" + BrokenFrame(indent).open)[1] == '\n';
    } else {
      assert s[1] == '\n';
    }
  }

  lemma {:induction false} TidySpellObject(t: Node, indent: nat, oneLine: bool, after: string)
    requires t.Object? && t.members != [] && LaidOut(t, oneLine)
    ensures CheckValue(Spell(t, indent) + after, indent, oneLine) == Some(after)
    decreases t, 0
  {
    hide CheckValue, CheckMembers;
    var f := ObjectFrame(t.layout, indent);
    var body := SpellMembers(t.members, f);
    TidySpellMembers(t.members, f, oneLine || t.layout.OneLine?, {}, after);
    RegroupContainer("{", f.open, body, f.close, "}", after);
    assert body[0] == '"';
    CheckObjectStep(indent, t.layout, oneLine, body + f.close + "}" + after, after);
  }

  lemma {:induction false} TidySpellArray(t: Node, indent: nat, oneLine: bool, after: string)
    requires t.Array? && t.items != [] && LaidOut(t, oneLine)
    ensures CheckValue(Spell(t, indent) + after, indent, oneLine) == Some(after)
    decreases t, 0
  {
    hide CheckValue, CheckItems;
    var f, inside := ArrayFrame(t.layout, indent), oneLine || t.layout.OneLine?;
    var body := SpellItems(t.items, f);
    TidySpellItems(t.items, f, inside, after);
    RegroupContainer("[", f.open, body, f.close, "]", after);
    ItemsStart(t.items, f, inside);
    CheckArrayStep(indent, t.layout, oneLine, body + f.close + "]" + after, after);
  }

  lemma CheckMemberStep(key: string, rest: string, tail: string, f: Frame, oneLine: bool, seen: set<string>)
    requires key !in seen && CheckValue(rest, f.indent, oneLine) == Some(tail)
    ensures CheckMembers(Quote(key) + ": " + rest, f, oneLine, seen)
      == if After("," + f.gap, tail).Some?
         then CheckMembers(After("," + f.gap, tail).value, f, oneLine, seen + {key})
         else After(f.close + "}", tail)
  {
    CheckSpelledKey(key, rest, seen);
  }

  /** The closing text is not taken for a comma. */
  lemma CloseIsNotComma(f: Frame, bracket: char, after: string)
    requires AllSpace(f.close) && bracket != ','
    ensures var tail := "" + f.close + [bracket] + after;
            After("," + f.gap, tail).None? && After(f.close + [bracket], tail) == Some(after)
  {
    var tail := "" + f.close + [bracket] + after;
    assert tail == (f.close + [bracket]) + after;
    AfterIs(f.close + [bracket], after);
    assert ("," + f.gap)[0] == ',';
    if f.close != "" { assert tail[0] == f.close[0]; }
  }

  lemma CommaIsTaken(gap: string, rest: string, close: string, r: string, after: string)
    ensures After("," + gap, ("," + gap + rest) + close + r + after) == Some(rest + close + r + after)
  {
    assert ("," + gap + rest) + close + r + after == ("," + gap) + (rest + close + r + after);
    AfterIs("," + gap, rest + close + r + after);
  }

  lemma {:induction false} TidySpellMembers(ms: seq<Member>, f: Frame, oneLine: bool, seen: set<string>, after: string)
    requires ms != [] && LaidOutMembers(ms, oneLine) && BlankFrame(f)
    requires DistinctKeys(ms) && Keys(ms) !! seen
    ensures CheckMembers(SpellMembers(ms, f) + f.close + "}" + after, f, oneLine, seen) == Some(after)
    decreases ms, 0
  {
    hide CheckValue, CheckMembers;
    var key, t, value := ms[0].key, ms[0].value, Spell(ms[0].value, f.indent);
    KeysSplit(ms);
    DistinctSplit(ms);
    if |ms| == 1 {
      var tail := "" + f.close + "}" + after;
      LastTail(f.close, '}', after);
      TidySpell(t, f.indent, oneLine, tail);
      RegroupMember(Quote(key), value, "", f.close, after);
      CloseIsNotComma(f, '}', after);
      CheckMemberStep(key, value + tail, tail, f, oneLine, seen);
    } else {
      var rest := SpellMembers(ms[1..], f);
      var tail := ("," + f.gap + rest) + f.close + "}" + after;
      CommaTail(f.gap, rest, f.close, "}", after);
      TidySpell(t, f.indent, oneLine, tail);
      RegroupMember(Quote(key), value, "," + f.gap + rest, f.close, after);
      CommaIsTaken(f.gap, rest, f.close, "}", after);
      CheckMemberStep(key, value + tail, tail, f, oneLine, seen);
      TidySpellMembers(ms[1..], f, oneLine, seen + {key}, after);
    }
  }

  lemma CheckItemStep(s: string, tail: string, f: Frame, oneLine: bool)
    requires CheckValue(s, f.indent, oneLine) == Some(tail)
    ensures CheckItems(s, f, oneLine)
      == if After("," + f.gap, tail).Some?
         then CheckItems(After("," + f.gap, tail).value, f, oneLine)
         else After(f.close + "]", tail)
  {
  }

  lemma {:induction false} TidySpellItems(items: seq<Node>, f: Frame, oneLine: bool, after: string)
    requires items != [] && LaidOutItems(items, oneLine) && BlankFrame(f)
    ensures CheckItems(SpellItems(items, f) + f.close + "]" + after, f, oneLine) == Some(after)
    decreases items, 0
  {
    hide CheckValue, CheckItems;
    var t, value := items[0], Spell(items[0], f.indent);
    if |items| == 1 {
      var tail := "" + f.close + "]" + after;
      LastTail(f.close, ']', after);
      TidySpell(t, f.indent, oneLine, tail);
      RegroupItem(value, "", f.close, after);
      CloseIsNotComma(f, ']', after);
      CheckItemStep(value + tail, tail, f, oneLine);
    } else {
      var rest := SpellItems(items[1..], f);
      var tail := ("," + f.gap + rest) + f.close + "]" + after;
      CommaTail(f.gap, rest, f.close, "]", after);
      TidySpell(t, f.indent, oneLine, tail);
      RegroupItem(value, "," + f.gap + rest, f.close, after);
      CommaIsTaken(f.gap, rest, f.close, "]", after);
      CheckItemStep(value + tail, tail, f, oneLine);
      TidySpellItems(items[1..], f, oneLine, after);
    }
  }

  // ---- every tidy text is the spelling of a laid-out tree ------------------

  lemma KeyOfText(s: string, seen: set<string>)
    requires CheckKey(s, seen).Some?
    ensures var k := CheckKey(s, seen).value; s == Quote(k.value) + ": " + k.rest && k.value !in seen
  {
    hide CloseQuote, Unescape, Escape, Canonical;
    var inside := After("\"", s).value;
    var n := CloseQuote(inside).value;
    var body := inside[..n - 1];
    CanonicalRoundTrip(body);
    assert inside == body + "\"" + inside[n..];
  }

  lemma LiteralOfText(s: string) returns (t: Node)
    requires CheckLiteral(s).Some?
    ensures IsLiteral(t) && s == SpellLiteral(t) + CheckLiteral(s).value && Delimited(t, CheckLiteral(s).value)
  {
    var n := LiteralLength(s);
    t := LoadLiteral(s[..n]).value;
    assert s == s[..n] + s[n..];
    if t.Integer? { ShowInvertsRead(s[..n]); }
  }

  lemma {:induction false} TreeOfText(s: string, indent: nat, oneLine: bool) returns (t: Node)
    requires CheckValue(s, indent, oneLine).Some?
    ensures LaidOut(t, oneLine)
    ensures s == Spell(t, indent) + CheckValue(s, indent, oneLine).value
    ensures Delimited(t, CheckValue(s, indent, oneLine).value)
    decreases |s|, 1
  {
    if s[0] == '"' {
      var r := ReadString(s).value;
      t := String(r.value.value, Some(r.value.raw));
    } else if s[0] == '{' {
      t := ObjectOfText(s, indent, oneLine);
    } else if s[0] == '[' {
      t := ArrayOfText(s, indent, oneLine);
    } else {
      t := LiteralOfText(s);
      assert LaidOut(t, oneLine);
    }
  }

  lemma {:induction false} ObjectOfText(s: string, indent: nat, oneLine: bool) returns (t: Node)
    requires s != "" && s[0] == '{' && CheckValue(s, indent, oneLine).Some?
    ensures t.Object? && LaidOut(t, oneLine)
    ensures s == Spell(t, indent) + CheckValue(s, indent, oneLine).value
    decreases |s|, 0
  {
    var after := CheckValue(s, indent, oneLine).value;
    if After("{}", s).Some? {
      t := Object([], OneLine);
    } else {
      var layout := if After("{ ", s).Some? then OneLine else Broken;
      var f := ObjectFrame(layout, indent);
      assert "{" + " " == "{ ";
      var rest := After("{" + f.open, s).value;
      assert CheckMembers(rest, f, layout.OneLine?, {}) == Some(after);
      hide CheckValue, CheckMembers;
      var ms := MembersOfText(rest, f, layout.OneLine?, {});
      if oneLine { assert layout.OneLine?; }
      t := Object(ms, layout);
      var body := SpellMembers(ms, f);
      RegroupContainer("{", f.open, body, f.close, "}", after);
    }
  }

  lemma {:induction false} ArrayOfText(s: string, indent: nat, oneLine: bool) returns (t: Node)
    requires s != "" && s[0] == '[' && CheckValue(s, indent, oneLine).Some?
    ensures t.Array? && LaidOut(t, oneLine)
    ensures s == Spell(t, indent) + CheckValue(s, indent, oneLine).value
    decreases |s|, 0
  {
    var after := CheckValue(s, indent, oneLine).value;
    if After("[]", s).Some? {
      t := Array([], OneLine);
    } else {
      var layout := if !oneLine && After("[" + BrokenFrame(indent).open, s).Some? then Broken else OneLine;
      var f := ArrayFrame(layout, indent);
      assert s == "[" + s[1..];
      assert "[" + "" == "[";
      var rest := After("[" + f.open, s).value;
      assert CheckItems(rest, f, layout.OneLine?) == Some(after);
      hide CheckValue, CheckItems;
      var items := ItemsOfText(rest, f, layout.OneLine?);
      t := Array(items, layout);
      var body := SpellItems(items, f);
      RegroupContainer("[", f.open, body, f.close, "]", after);
    }
  }

  lemma ConsMember(key: string, t: Node, more: seq<Member>, f: Frame, oneLine: bool, seen: set<string>)
    requires LaidOut(t, oneLine) && key !in seen
    requires more != [] && LaidOutMembers(more, oneLine) && DistinctKeys(more) && Keys(more) !! seen + {key}
    ensures var ms := [Member(key, t)] + more;
            && LaidOutMembers(ms, oneLine) && DistinctKeys(ms) && Keys(ms) !! seen
            && SpellMembers(ms, f) == Quote(key) + ": " + Spell(t, f.indent) + ("," + f.gap + SpellMembers(more, f))
  {
    var ms := [Member(key, t)] + more;
    assert ms[1..] == more;
    KeysSplit(ms);
    DistinctSplit(ms);
  }

  /** The text of a member list that ends here, or goes on after a comma. */
  lemma MemberText(head: string, key: string, value: string, more: string, close: string, after: string, s: string,
      rest: string)
    requires s == Quote(key) + ": " + head && head == value + rest && rest == more + close + "}" + after
    ensures s == (Quote(key) + ": " + value + more) + close + "}" + after
  {
    RegroupMember(Quote(key), value, more, close, after);
  }

  lemma LastRest(close: string, bracket: string, after: string, rest: string)
    requires rest == (close + bracket) + after
    ensures rest == "" + close + bracket + after
  {
  }

  lemma CommaRest(gap: string, more: string, close: string, bracket: string, after: string, rest: string, inner: string)
    requires rest == ("," + gap) + inner && inner == more + close + bracket + after
    ensures rest == ("," + gap + more) + close + bracket + after
  {
  }

  lemma {:induction false} MembersOfText(s: string, f: Frame, oneLine: bool, seen: set<string>) returns (ms: seq<Member>)
    requires CheckMembers(s, f, oneLine, seen).Some?
    ensures ms != [] && LaidOutMembers(ms, oneLine) && DistinctKeys(ms) && Keys(ms) !! seen
    ensures s == SpellMembers(ms, f) + f.close + "}" + CheckMembers(s, f, oneLine, seen).value
    decreases |s|, 0
  {
    var after := CheckMembers(s, f, oneLine, seen).value;
    var key := CheckKey(s, seen).value;
    var rest := CheckValue(key.rest, f.indent, oneLine).value;
    var comma := After("," + f.gap, rest);
    hide CheckValue, CheckMembers;
    KeyOfText(s, seen);
    hide CheckKey;
    var t := TreeOfText(key.rest, f.indent, oneLine);
    var value := Spell(t, f.indent);
    if comma.None? {
      ms := [Member(key.value, t)];
      LastRest(f.close, "}", after, rest);
      MemberText(key.rest, key.value, value, "", f.close, after, s, rest);
    } else {
      var more := MembersOfText(comma.value, f, oneLine, seen + {key.value});
      ms := [Member(key.value, t)] + more;
      ConsMember(key.value, t, more, f, oneLine, seen);
      CommaRest(f.gap, SpellMembers(more, f), f.close, "}", after, rest, comma.value);
      MemberText(key.rest, key.value, value, "," + f.gap + SpellMembers(more, f), f.close, after, s, rest);
    }
  }

  lemma {:induction false} ItemsOfText(s: string, f: Frame, oneLine: bool) returns (items: seq<Node>)
    requires CheckItems(s, f, oneLine).Some?
    ensures items != [] && LaidOutItems(items, oneLine)
    ensures s == SpellItems(items, f) + f.close + "]" + CheckItems(s, f, oneLine).value
    decreases |s|, 2
  {
    var after := CheckItems(s, f, oneLine).value;
    var rest := CheckValue(s, f.indent, oneLine).value;
    var comma := After("," + f.gap, rest);
    hide CheckValue, CheckItems;
    var t := TreeOfText(s, f.indent, oneLine);
    var value := Spell(t, f.indent);
    if comma.None? {
      items := [t];
      LastRest(f.close, "]", after, rest);
      RegroupItem(value, "", f.close, after);
    } else {
      var more := ItemsOfText(comma.value, f, oneLine);
      items := [t] + more;
      ConsItem(t, more, f, oneLine);
      CommaRest(f.gap, SpellItems(more, f), f.close, "]", after, rest, comma.value);
      RegroupItem(value, "," + f.gap + SpellItems(more, f), f.close, after);
    }
  }

  lemma ConsItem(t: Node, more: seq<Node>, f: Frame, oneLine: bool)
    requires LaidOut(t, oneLine) && more != [] && LaidOutItems(more, oneLine)
    ensures LaidOutItems([t] + more, oneLine)
    ensures SpellItems([t] + more, f) == Spell(t, f.indent) + ("," + f.gap + SpellItems(more, f))
  {
    assert ([t] + more)[1..] == more;
  }

  // ---- fidelity -----------------------------------------------------------

  /** A document comes back byte for byte exactly when its text is tidy. */
  lemma FaithfulExactlyOnTidyText(text: string)
    ensures Tidy(text) <==> ReadDocument(text).Some? && WriteDocument(ReadDocument(text).value) == text
  {
    hide CheckValue, ReadValue;
    if Tidy(text) {
      var t := TreeOfText(text, 0, false);
      ReadInvertsSpell(t, 0, false, "\n");
      LaidOutIsWellFormed(t, false);
      PrintSpells(t, 0, 0);
      RereadFixed(t, 0, 0);
    }
    if ReadDocument(text).Some? && WriteDocument(ReadDocument(text).value) == text {
      var t := ReadDocument(text).value;
      ReadIsWellFormed(text);
      PrintSpells(t, 0, 0);
      TidySpell(Reread(t, 0, 0), 0, false, "\n");
    }
  }

  /** The tree read from a tidy text is the one its own print reads back as. */
  lemma TidyTreeIsSettled(text: string)
    requires Tidy(text)
    ensures ReadDocument(text).Some? && Reread(ReadDocument(text).value, 0, 0) == ReadDocument(text).value
  {
    hide CheckValue, ReadValue;
    var t := TreeOfText(text, 0, false);
    ReadInvertsSpell(t, 0, false, "\n");
    RereadFixed(t, 0, 0);
  }

  /** The line break at the end is part of a tidy text, and not of what is read. */
  lemma LastLineBreakIsNotRead(text: string)
    requires Tidy(text)
    ensures text != ""
    ensures var cut := text[..|text| - 1]; ReadDocument(cut) == ReadDocument(text) && !Tidy(cut)
  {
    hide CheckValue, ReadValue;
    var t := TreeOfText(text, 0, false);
    var cut := text[..|text| - 1];
    assert cut == Spell(t, 0) + "";
    ReadInvertsSpell(t, 0, false, "\n");
    ReadInvertsSpell(t, 0, false, "");
    FaithfulExactlyOnTidyText(text);
    FaithfulExactlyOnTidyText(cut);
  }

  /** A text without its last line break is read and comes back changed. */
  lemma NoLastLineBreak()
    ensures ReadDocument("[]") == Some(Array([], OneLine)) && !Tidy("[]")
  {
    assert SkipSpace("[]") == "[]" && SkipSpace("]") == "]";
  }

  lemma ReadSingleton(open: string, value: string, t: Node, after: string)
    requires AllSpace(open) && value != "" && !IsSpace(value[0]) && value[0] != ']'
    requires ReadValue(value + ("]" + after)) == Some(Parsed(t, "]" + after))
    ensures ReadValue("[" + open + (value + "]" + after))
         == Some(Parsed(Array([t], if '\n' in open then Broken else OneLine), after))
  {
    hide ReadValue, ReadItems;
    assert "" + "" + "]" + after == "]" + after;
    assert (value + "") + "" + "]" + after == value + "]" + after;
    ReadLastItem(value, t, "", [], after);
    assert [] + [t] == [t];
    ReadArrayStep(open, value + "]" + after, [t], after);
  }

  /** So is a break inside a container that starts on one line: it is flattened. */
  lemma BreakBelowOneLine()
    ensures var t := Array([Array([Null], Broken)], OneLine);
            ReadDocument("[[\nnull]]\n") == Some(t) && WriteDocument(t) == "[[null]]\n"
    ensures !Tidy("[[\nnull]]\n")
  {
    hide ReadValue, ReadItems, CheckValue;
    var inner := Array([Null], Broken);
    ReadInvertsSpell(Null, 0, true, "]" + "]\n");
    assert Spell(Null, 0) == "null";
    ReadSingleton("\n", "null", Null, "]\n");
    assert "[" + "\n" + ("null" + "]" + "]\n") == "[\nnull]" + ("]" + "\n");
    assert "\n"[0] == '\n' && "]\n" == "]" + "\n";
    ReadSingleton("", "[\nnull]", inner, "\n");
    assert "[" + "" + ("[\nnull]" + "]" + "\n") == "[[\nnull]]\n";
    FaithfulExactlyOnTidyText("[[\nnull]]\n");
  }
}
