/**
 * Reading inverts printing.
 *
 * `Reread(t)` is the tree that reading the print of `t` gives back. It is laid
 * out: every container knows whether it was on one line, every string knows
 * its source text. `Spell` writes a laid-out tree, and both the reader and the
 * printer are compared with it.
 */
module JsonLayout {
  import opened Wrappers
  import opened JsonText
  import opened JsonTree

  // ---- laid-out trees -----------------------------------------------------

  /**
   * A tree in the form the reader makes from a tidy file: an empty container
   * is on one line, and so is everything below a container that is.
   */
  predicate LaidOut(t: Node, oneLine: bool) {
    match t
    case Object(ms, layout) =>
      && (layout.OneLine? || (layout.Broken? && !oneLine && ms != []))
      && DistinctKeys(ms)
      && LaidOutMembers(ms, oneLine || layout.OneLine?)
    case Array(items, layout) =>
      && (layout.OneLine? || (layout.Broken? && !oneLine && items != []))
      && LaidOutItems(items, oneLine || layout.OneLine?)
    case String(v, raw) => raw.Some? && LoadString(raw.value) == Some(v)
    case _ => true
  }

  predicate LaidOutMembers(ms: seq<Member>, oneLine: bool) {
    ms == [] || (LaidOut(ms[0].value, oneLine) && LaidOutMembers(ms[1..], oneLine))
  }

  predicate LaidOutItems(items: seq<Node>, oneLine: bool) {
    items == [] || (LaidOut(items[0], oneLine) && LaidOutItems(items[1..], oneLine))
  }

  /** The white space inside a container: after the bracket, after a comma, before the closing bracket. */
  datatype Frame = Frame(open: string, gap: string, close: string, indent: nat)

  function BrokenFrame(indent: nat): Frame {
    Frame("\n" + Spaces(indent + 2), "\n" + Spaces(indent + 2), "\n" + Spaces(indent), indent + 2)
  }

  function ObjectFrame(layout: Layout, indent: nat): Frame {
    if layout.Broken? then BrokenFrame(indent) else Frame(" ", " ", " ", indent)
  }

  function ArrayFrame(layout: Layout, indent: nat): Frame {
    if layout.Broken? then BrokenFrame(indent) else Frame("", " ", "", indent)
  }

  predicate BlankFrame(f: Frame) { AllSpace(f.open) && AllSpace(f.gap) && AllSpace(f.close) }

  function SpellLiteral(t: Node): string
    requires t.Integer? || t.Boolean? || t.Null?
  {
    match t
    case Integer(n) => ShowInteger(n)
    case Boolean(b) => if b then "true" else "false"
    case Null => "null"
  }

  function Spell(t: Node, indent: nat): string {
    match t
    case Object(ms, layout) =>
      var f := ObjectFrame(layout, indent);
      if ms == [] then "{}" else "{" + f.open + SpellMembers(ms, f) + f.close + "}"
    case Array(items, layout) =>
      var f := ArrayFrame(layout, indent);
      if items == [] then "[]" else "[" + f.open + SpellItems(items, f) + f.close + "]"
    case String(v, raw) => if raw.Some? then raw.value else Quote(v)
    case _ => SpellLiteral(t)
  }

  function SpellMembers(ms: seq<Member>, f: Frame): string
    requires ms != []
  {
    Quote(ms[0].key) + ": " + Spell(ms[0].value, f.indent)
    + if |ms| == 1 then "" else "," + f.gap + SpellMembers(ms[1..], f)
  }

  function SpellItems(items: seq<Node>, f: Frame): string
    requires items != []
  {
    Spell(items[0], f.indent) + if |items| == 1 then "" else "," + f.gap + SpellItems(items[1..], f)
  }

  // ---- the tree a print reads back as -------------------------------------

  /** The same value with everything on one line and every string in its spelling. */
  function Flatten(t: Node): Node {
    match t
    case Object(ms, _) => Object(FlattenMembers(ms), OneLine)
    case Array(items, _) => Array(FlattenItems(items), OneLine)
    case String(v, raw) => if raw.Some? then t else String(v, Some(Quote(v)))
    case _ => t
  }

  function FlattenMembers(ms: seq<Member>): (r: seq<Member>)
    ensures |r| == |ms| && forall i :: 0 <= i < |ms| ==> r[i].key == ms[i].key
  {
    if ms == [] then [] else [Member(ms[0].key, Flatten(ms[0].value))] + FlattenMembers(ms[1..])
  }

  function FlattenItems(items: seq<Node>): (r: seq<Node>)
    ensures |r| == |items|
  {
    if items == [] then [] else [Flatten(items[0])] + FlattenItems(items[1..])
  }

  function Reread(t: Node, indent: nat, column: nat): Node {
    match t
    case Object(ms, _) =>
      if PrintsFlat(t, column) || ms == [] then Flatten(t) else Object(RereadMembers(ms, indent), Broken)
    case Array(items, _) =>
      if PrintsFlat(t, column) || items == [] then Flatten(t) else Array(RereadItems(items, indent), Broken)
    case _ => Flatten(t)
  }

  function RereadMembers(ms: seq<Member>, indent: nat): (r: seq<Member>)
    ensures |r| == |ms| && forall i :: 0 <= i < |ms| ==> r[i].key == ms[i].key
  {
    if ms == [] then []
    else
      [Member(ms[0].key, Reread(ms[0].value, indent + 2, indent + 2 + |Quote(ms[0].key)| + 2))]
      + RereadMembers(ms[1..], indent)
  }

  function RereadItems(items: seq<Node>, indent: nat): (r: seq<Node>)
    ensures |r| == |items|
  {
    if items == [] then [] else [Reread(items[0], indent + 2, indent + 2)] + RereadItems(items[1..], indent)
  }

  // ---- the one-line form is one line ---------------------------------------

  lemma QuotedIsOneLine(s: string)
    ensures '\n' !in Quote(s)
  {
    hide Escape, Unescape;
    LoadInvertsQuote(s);
    QuoteHasNoNewline(Quote(s));
  }

  lemma {:induction false} NaturalIsOneLine(n: nat)
    ensures '\n' !in ShowNatural(n)
  {
    ShownNatural(n);
  }

  /** No line break stands in the one-line form of any tree, so the width alone decides for a built container. */
  lemma {:induction false} FlatIsOneLine(t: Node)
    requires WellFormed(t)
    ensures '\n' !in Flat(t)
  {
    hide LoadString, Quote, ShowNatural;
    match t
    case Object(ms, _) => if ms != [] { FlatMembersAreOneLine(ms); }
    case Array(items, _) => if items != [] { FlatItemsAreOneLine(items); }
    case String(v, raw) => if raw.Some? { QuoteHasNoNewline(raw.value); } else { QuotedIsOneLine(v); }
    case Integer(n) => NaturalIsOneLine(if n < 0 then -n else n);
    case _ =>
  }

  lemma {:induction false} FlatMembersAreOneLine(ms: seq<Member>)
    requires ms != [] && forall i :: 0 <= i < |ms| ==> WellFormed(ms[i].value)
    ensures '\n' !in FlatMembers(ms)
  {
    hide Flat, Quote, WellFormed;
    QuotedIsOneLine(ms[0].key);
    FlatIsOneLine(ms[0].value);
    if |ms| > 1 { FlatMembersAreOneLine(ms[1..]); }
  }

  lemma {:induction false} FlatItemsAreOneLine(items: seq<Node>)
    requires items != [] && forall i :: 0 <= i < |items| ==> WellFormed(items[i])
    ensures '\n' !in FlatItems(items)
  {
    hide Flat, WellFormed;
    FlatIsOneLine(items[0]);
    if |items| > 1 { FlatItemsAreOneLine(items[1..]); }
  }

  /** The width test is on width: any built container goes on one line exactly when its one-line form fits. */
  lemma WidthAloneDecides(t: Node, column: nat)
    requires WellFormed(t) && (t.Object? || t.Array?) && t.layout.ByWidth?
    ensures PrintsFlat(t, column) <==> column + |Flat(t)| <= 80
  {
    hide Flat, WellFormed;
    FlatIsOneLine(t);
  }

  // ---- printing is spelling the reread tree -------------------------------

  lemma {:induction false} FlatSpells(t: Node, indent: nat)
    requires WellFormed(t)
    ensures LaidOut(Flatten(t), true)
    ensures Spell(Flatten(t), indent) == Flat(t)
  {
    match t
    case Object(ms, _) =>
      FlatMembersSpell(ms, ObjectFrame(OneLine, indent));
      assert DistinctKeys(FlattenMembers(ms));
    case Array(items, _) =>
      FlatItemsSpell(items, ArrayFrame(OneLine, indent));
    case String(v, raw) =>
      LoadInvertsQuote(v);
    case _ =>
  }

  lemma {:induction false} FlatMembersSpell(ms: seq<Member>, f: Frame)
    requires forall i :: 0 <= i < |ms| ==> WellFormed(ms[i].value)
    requires f.gap == " "
    ensures LaidOutMembers(FlattenMembers(ms), true)
    ensures ms != [] ==> SpellMembers(FlattenMembers(ms), f) == FlatMembers(ms)
  {
    if ms != [] {
      FlatSpells(ms[0].value, f.indent);
      FlatMembersSpell(ms[1..], f);
      assert FlattenMembers(ms)[1..] == FlattenMembers(ms[1..]);
      if |ms| > 1 {
        assert "," + f.gap + FlatMembers(ms[1..]) == ", " + FlatMembers(ms[1..]);
      }
    }
  }

  lemma {:induction false} FlatItemsSpell(items: seq<Node>, f: Frame)
    requires forall i :: 0 <= i < |items| ==> WellFormed(items[i])
    requires f.gap == " "
    ensures LaidOutItems(FlattenItems(items), true)
    ensures items != [] ==> SpellItems(FlattenItems(items), f) == FlatItems(items)
  {
    if items != [] {
      FlatSpells(items[0], f.indent);
      FlatItemsSpell(items[1..], f);
      assert FlattenItems(items)[1..] == FlattenItems(items[1..]);
      if |items| > 1 {
        assert "," + f.gap + FlatItems(items[1..]) == ", " + FlatItems(items[1..]);
      }
    }
  }

  lemma {:induction false} LaidOutIsMonotone(t: Node)
    requires LaidOut(t, true)
    ensures LaidOut(t, false)
  {
  }

  lemma WrapBroken(l: string, inner: string, body: string, outer: string, r: string)
    ensures l + ("\n" + inner) + body + ("\n" + outer) + r == l + "\n" + (inner + body) + "\n" + outer + r
  {
  }

  lemma JoinBroken(pad: string, head: string, tail: string)
    ensures pad + (head + ("," + ("\n" + pad) + tail)) == pad + head + (",\n" + (pad + tail))
  {
  }

  lemma JoinMembers(pad: string, key: string, value: string, tail: string)
    ensures pad + (key + ": " + value + "") == pad + key + ": " + value + ""
    ensures pad + (key + ": " + value + ("," + ("\n" + pad) + tail)) == pad + key + ": " + value + (",\n" + (pad + tail))
  {
    assert pad + (key + ": " + value) == pad + key + ": " + value;
    JoinBroken(pad, key + ": " + value, tail);
  }

  lemma {:induction false} PrintSpells(t: Node, indent: nat, column: nat)
    requires WellFormed(t)
    ensures LaidOut(Reread(t, indent, column), false)
    ensures Spell(Reread(t, indent, column), indent) == Print(t, indent, column)
    decreases t, 1
  {
    FlatSpells(t, indent);
    LaidOutIsMonotone(Flatten(t));
    if t.Object? && !PrintsFlat(t, column) && t.members != [] {
      PrintBrokenObjectSpells(t, indent, column);
    } else if t.Array? && !PrintsFlat(t, column) && t.items != [] {
      PrintBrokenArraySpells(t, indent, column);
    }
  }

  lemma {:induction false} PrintBrokenObjectSpells(t: Node, indent: nat, column: nat)
    requires WellFormed(t) && t.Object? && !PrintsFlat(t, column) && t.members != []
    ensures LaidOut(Reread(t, indent, column), false)
    ensures Spell(Reread(t, indent, column), indent) == Print(t, indent, column)
    decreases t, 0
  {
    var r := RereadMembers(t.members, indent);
    PrintMembersSpell(t.members, indent);
    assert DistinctKeys(r);
    WrapBroken("{", Spaces(indent + 2), SpellMembers(r, BrokenFrame(indent)), Spaces(indent), "}");
    assert "{" + "\n" == "{\n";
  }

  lemma {:induction false} PrintBrokenArraySpells(t: Node, indent: nat, column: nat)
    requires WellFormed(t) && t.Array? && !PrintsFlat(t, column) && t.items != []
    ensures LaidOut(Reread(t, indent, column), false)
    ensures Spell(Reread(t, indent, column), indent) == Print(t, indent, column)
    decreases t, 0
  {
    var r := RereadItems(t.items, indent);
    PrintItemsSpell(t.items, indent);
    WrapBroken("[", Spaces(indent + 2), SpellItems(r, BrokenFrame(indent)), Spaces(indent), "]");
    assert "[" + "\n" == "[\n";
  }

  lemma {:induction false} PrintMembersSpell(ms: seq<Member>, indent: nat)
    requires forall i :: 0 <= i < |ms| ==> WellFormed(ms[i].value)
    ensures LaidOutMembers(RereadMembers(ms, indent), false)
    ensures ms != [] ==>
      Spaces(indent + 2) + SpellMembers(RereadMembers(ms, indent), BrokenFrame(indent)) == PrintMembers(ms, indent)
    decreases ms, 0
  {
    if ms != [] {
      var f, r := BrokenFrame(indent), RereadMembers(ms, indent);
      var pad, column := Spaces(indent + 2), indent + 2 + |Quote(ms[0].key)| + 2;
      PrintSpells(ms[0].value, indent + 2, column);
      PrintMembersSpell(ms[1..], indent);
      assert r[1..] == RereadMembers(ms[1..], indent);
      var value := Print(ms[0].value, indent + 2, column);
      JoinMembers(pad, Quote(ms[0].key), value, if |ms| > 1 then SpellMembers(r[1..], f) else "");
    }
  }

  lemma {:induction false} PrintItemsSpell(items: seq<Node>, indent: nat)
    requires forall i :: 0 <= i < |items| ==> WellFormed(items[i])
    ensures LaidOutItems(RereadItems(items, indent), false)
    ensures items != [] ==>
      Spaces(indent + 2) + SpellItems(RereadItems(items, indent), BrokenFrame(indent)) == PrintItems(items, indent)
    decreases items, 0
  {
    if items != [] {
      var f, r := BrokenFrame(indent), RereadItems(items, indent);
      var pad := Spaces(indent + 2);
      PrintSpells(items[0], indent + 2, indent + 2);
      PrintItemsSpell(items[1..], indent);
      assert r[1..] == RereadItems(items[1..], indent);
      if |items| > 1 {
        JoinBroken(pad, Print(items[0], indent + 2, indent + 2), SpellItems(r[1..], f));
      }
    }
  }

  // ---- a laid-out tree rereads as itself ----------------------------------

  lemma {:induction false} FlattenFixed(t: Node)
    requires LaidOut(t, true)
    ensures Flatten(t) == t
  {
    match t
    case Object(ms, _) => FlattenMembersFixed(ms);
    case Array(items, _) => FlattenItemsFixed(items);
    case _ =>
  }

  lemma {:induction false} FlattenMembersFixed(ms: seq<Member>)
    requires LaidOutMembers(ms, true)
    ensures FlattenMembers(ms) == ms
  {
    if ms != [] {
      FlattenFixed(ms[0].value);
      FlattenMembersFixed(ms[1..]);
    }
  }

  lemma {:induction false} FlattenItemsFixed(items: seq<Node>)
    requires LaidOutItems(items, true)
    ensures FlattenItems(items) == items
  {
    if items != [] {
      FlattenFixed(items[0]);
      FlattenItemsFixed(items[1..]);
    }
  }

  lemma {:induction false} RereadFixed(t: Node, indent: nat, column: nat)
    requires LaidOut(t, false)
    ensures Reread(t, indent, column) == t
    decreases t
  {
    match t
    case Object(ms, layout) =>
      if layout.OneLine? {
        FlattenFixed(t);
      } else {
        RereadMembersFixed(ms, indent);
      }
    case Array(items, layout) =>
      if layout.OneLine? {
        FlattenFixed(t);
      } else {
        RereadItemsFixed(items, indent);
      }
    case _ =>
  }

  lemma {:induction false} RereadMembersFixed(ms: seq<Member>, indent: nat)
    requires LaidOutMembers(ms, false)
    ensures RereadMembers(ms, indent) == ms
    decreases ms
  {
    if ms != [] {
      RereadFixed(ms[0].value, indent + 2, indent + 2 + |Quote(ms[0].key)| + 2);
      RereadMembersFixed(ms[1..], indent);
    }
  }

  lemma {:induction false} RereadItemsFixed(items: seq<Node>, indent: nat)
    requires LaidOutItems(items, false)
    ensures RereadItems(items, indent) == items
    decreases items
  {
    if items != [] {
      RereadFixed(items[0], indent + 2, indent + 2);
      RereadItemsFixed(items[1..], indent);
    }
  }

  // ---- rereading keeps the value ------------------------------------------

  lemma {:induction false} FlattenReread(t: Node, indent: nat, column: nat)
    requires WellFormed(t)
    ensures Flatten(Reread(t, indent, column)) == Flatten(t)
    decreases t
  {
    FlatSpells(t, indent);
    FlattenFixed(Flatten(t));
    match t
    case Object(ms, _) => FlattenRereadMembers(ms, indent);
    case Array(items, _) => FlattenRereadItems(items, indent);
    case _ =>
  }

  lemma {:induction false} FlattenRereadMembers(ms: seq<Member>, indent: nat)
    requires forall i :: 0 <= i < |ms| ==> WellFormed(ms[i].value)
    ensures FlattenMembers(RereadMembers(ms, indent)) == FlattenMembers(ms)
    decreases ms
  {
    if ms != [] {
      FlattenReread(ms[0].value, indent + 2, indent + 2 + |Quote(ms[0].key)| + 2);
      FlattenRereadMembers(ms[1..], indent);
      assert RereadMembers(ms, indent)[1..] == RereadMembers(ms[1..], indent);
    }
  }

  lemma {:induction false} FlattenRereadItems(items: seq<Node>, indent: nat)
    requires forall i :: 0 <= i < |items| ==> WellFormed(items[i])
    ensures FlattenItems(RereadItems(items, indent)) == FlattenItems(items)
    decreases items
  {
    if items != [] {
      FlattenReread(items[0], indent + 2, indent + 2);
      FlattenRereadItems(items[1..], indent);
      assert RereadItems(items, indent)[1..] == RereadItems(items[1..], indent);
    }
  }

  // ---- reading inverts spelling -------------------------------------------

  predicate IsLiteral(t: Node) { t.Integer? || t.Boolean? || t.Null? }

  /** A bare literal can only be told apart from what follows it by a delimiter. */
  predicate Delimited(t: Node, after: string) {
    IsLiteral(t) ==> after == "" || EndsLiteral(after[0])
  }

  lemma {:induction false} LiteralLengthIs(token: string, after: string)
    requires forall i :: 0 <= i < |token| ==> !EndsLiteral(token[i])
    requires after == "" || EndsLiteral(after[0])
    ensures LiteralLength(token + after) == |token|
  {
    if token == "" {
      assert token + after == after;
    } else {
      assert (token + after)[1..] == token[1..] + after;
      LiteralLengthIs(token[1..], after);
    }
  }

  lemma LiteralSpelling(t: Node)
    requires IsLiteral(t)
    ensures LoadLiteral(SpellLiteral(t)) == Some(t)
    ensures SpellLiteral(t) != "" && SpellLiteral(t)[0] !in "{[\""
    ensures forall i :: 0 <= i < |SpellLiteral(t)| ==> !EndsLiteral(SpellLiteral(t)[i])
  {
    if t.Integer? {
      ReadInvertsShow(t.number);
      IntegerCharacters(SpellLiteral(t));
    }
  }

  lemma IntegerCharacters(s: string)
    requires IsInteger(s)
    ensures s != "true" && s != "false" && s != "null"
    ensures forall i :: 0 <= i < |s| ==> s[i] == '-' || IsDigit(s[i])
  {
    forall i | 0 <= i < |s| ensures s[i] == '-' || IsDigit(s[i]) {
      if s[0] == '-' && i > 0 { assert s[i] == s[1..][i - 1]; }
    }
    assert s != "true" && s != "false" && s != "null" by {
      assert s[0] == '-' || IsDigit(s[0]);
    }
  }

  /** No value starts with white space. */
  lemma SpellStarts(t: Node, indent: nat)
    requires LaidOut(t, false) || LaidOut(t, true)
    ensures Spell(t, indent) != "" && !IsSpace(Spell(t, indent)[0])
    ensures Spell(t, indent)[0] == '{' <==> t.Object?
    ensures Spell(t, indent)[0] == '[' <==> t.Array?
    ensures Spell(t, indent)[0] == '"' <==> t.String?
    ensures Spell(t, indent)[0] != '}' && Spell(t, indent)[0] != ']'
  {
    if IsLiteral(t) {
      LiteralSpelling(t);
      assert Spell(t, indent) == SpellLiteral(t);
      assert !EndsLiteral(SpellLiteral(t)[0]);
    }
  }

  lemma ReadQuoted(raw: string, after: string)
    requires LoadString(raw).Some?
    ensures raw[0] == '"'
    ensures ReadString(raw + after) == Some(Parsed(Token(LoadString(raw).value, raw), after))
  {
    var s := raw + after;
    var body := raw[1..|raw| - 1];
    CloseQuoteIsExact(body, after);
    assert s[1..] == body + ("\"" + after);
    assert s[..|raw|] == raw && s[|raw|..] == after;
  }

  lemma {:induction false} BrokeAfterLead(lead: string, s: string)
    requires AllSpace(lead) && s != "" && !IsSpace(s[0])
    ensures BrokeAfterBracket(lead + s) <==> '\n' in lead
  {
    if lead == "" {
      assert lead + s == s;
    } else {
      assert (lead + s)[1..] == lead[1..] + s;
      BrokeAfterLead(lead[1..], s);
      assert lead == [lead[0]] + lead[1..];
    }
  }

  lemma FrameFacts(layout: Layout, indent: nat)
    ensures BlankFrame(ObjectFrame(layout, indent)) && BlankFrame(ArrayFrame(layout, indent))
    ensures '\n' in ObjectFrame(layout, indent).open <==> layout.Broken?
    ensures '\n' in ArrayFrame(layout, indent).open <==> layout.Broken?
  {
  }

  // One step of each reading function, on a text cut up the way a spelling is.

  lemma OpenBracket(bracket: char, open: string, inner: string)
    requires AllSpace(open) && inner != "" && !IsSpace(inner[0]) && !IsSpace(bracket)
    ensures SkipSpace([bracket] + open + inner) == [bracket] + open + inner
    ensures ([bracket] + open + inner)[1..] == open + inner
    ensures SkipSpace(open + inner) == inner
    ensures BrokeAfterBracket(open + inner) <==> '\n' in open
  {
    SkipLeadingSpace(open, inner);
    BrokeAfterLead(open, inner);
  }

  lemma {:induction false} ReadObjectStep(open: string, inner: string, members: seq<Member>, after: string)
    requires AllSpace(open) && inner != "" && !IsSpace(inner[0]) && inner[0] != '}'
    requires ReadMembers(inner, []) == Some(Parsed(members, after))
    ensures ReadValue("{" + open + inner) == Some(Parsed(Object(members, if '\n' in open then Broken else OneLine), after))
  {
    OpenBracket('{', open, inner);
  }

  lemma ReadArrayStep(open: string, inner: string, items: seq<Node>, after: string)
    requires AllSpace(open) && inner != "" && !IsSpace(inner[0]) && inner[0] != ']'
    requires ReadItems(inner, []) == Some(Parsed(items, after))
    ensures ReadValue("[" + open + inner) == Some(Parsed(Array(items, if '\n' in open then Broken else OneLine), after))
  {
    OpenBracket('[', open, inner);
  }

  lemma KeyThenColon(key: string, rest: string)
    ensures var s := Quote(key) + ": " + rest;
            && s != "" && SkipSpace(s) == s
            && ReadString(s) == Some(Parsed(Token(key, Quote(key)), ": " + rest))
  {
    LoadInvertsQuote(key);
    ReadQuoted(Quote(key), ": " + rest);
    assert Quote(key) + ": " + rest == Quote(key) + (": " + rest);
  }

  lemma ColonThenValue(rest: string)
    ensures SkipSpace(": " + rest) == ": " + rest
    ensures (": " + rest)[1..] == " " + rest
  {
  }

  lemma {:induction false} ReadMemberStep(key: string, rest: string, t: Node, tail: string, sofar: seq<Member>)
    requires ReadValue(rest) == Some(Parsed(t, tail))
    requires key !in Keys(sofar)
    ensures ReadMembers(Quote(key) + ": " + rest, sofar)
      == var next := SkipSpace(tail);
         var grown := sofar + [Member(key, t)];
         if next == "" then None
         else if next[0] == ',' then ReadMembers(next[1..], grown)
         else if next[0] == '}' then Some(Parsed(grown, next[1..]))
         else None
  {
    KeyThenColon(key, rest);
    ColonThenValue(rest);
    ReadValueSkips(" ", rest);
    PutNew(sofar, key, t);
  }

  lemma ReadValueSkips(lead: string, s: string)
    requires AllSpace(lead)
    ensures ReadValue(lead + s) == ReadValue(s)
  {
    SkipLeadingSpace(lead, s);
  }

  lemma ReadMembersSkips(lead: string, s: string, sofar: seq<Member>)
    requires AllSpace(lead)
    ensures ReadMembers(lead + s, sofar) == ReadMembers(s, sofar)
  {
    SkipLeadingSpace(lead, s);
  }

  lemma ReadItemsSkips(lead: string, s: string, sofar: seq<Node>)
    requires AllSpace(lead)
    ensures ReadItems(lead + s, sofar) == ReadItems(s, sofar)
  {
    ReadValueSkips(lead, s);
  }

  lemma ReadEmpty(after: string)
    ensures ReadValue("{}" + after) == Some(Parsed(Object([], OneLine), after))
    ensures ReadValue("[]" + after) == Some(Parsed(Array([], OneLine), after))
  {
    var o, a := "{}" + after, "[]" + after;
    assert SkipSpace(o) == o && SkipSpace(o[1..]) == o[1..] && o[1..][1..] == after;
    assert SkipSpace(a) == a && SkipSpace(a[1..]) == a[1..] && a[1..][1..] == after;
  }

  lemma ReadSpelledLiteral(t: Node, after: string)
    requires IsLiteral(t) && Delimited(t, after)
    ensures ReadValue(SpellLiteral(t) + after) == Some(Parsed(t, after))
  {
    var token := SpellLiteral(t);
    var s := token + after;
    LiteralSpelling(t);
    LiteralLengthIs(token, after);
    assert s[..|token|] == token && s[|token|..] == after;
    assert s[0] == token[0] && !EndsLiteral(token[0]);
    assert SkipSpace(s) == s;
  }

  lemma {:induction false} ReadInvertsSpell(t: Node, indent: nat, oneLine: bool, after: string)
    requires LaidOut(t, oneLine)
    requires Delimited(t, after)
    ensures ReadValue(Spell(t, indent) + after) == Some(Parsed(t, after))
    decreases t, 1
  {
    match t
    case Object(ms, layout) =>
      if ms == [] {
        ReadEmpty(after);
      } else {
        ReadInvertsSpellObject(t, indent, oneLine, after);
      }
    case Array(items, layout) =>
      if items == [] {
        ReadEmpty(after);
      } else {
        ReadInvertsSpellArray(t, indent, oneLine, after);
      }
    case String(v, raw) =>
      ReadQuoted(raw.value, after);
    case _ =>
      ReadSpelledLiteral(t, after);
  }

  lemma RegroupContainer(l: string, open: string, body: string, close: string, r: string, after: string)
    ensures l + open + body + close + r + after == l + open + (body + close + r + after)
    ensures body != "" ==> (body + close + r + after)[0] == body[0]
  {
  }

  lemma {:induction false} ReadInvertsSpellObject(t: Node, indent: nat, oneLine: bool, after: string)
    requires t.Object? && t.members != [] && LaidOut(t, oneLine)
    ensures ReadValue(Spell(t, indent) + after) == Some(Parsed(t, after))
    decreases t, 0
  {
    var f := ObjectFrame(t.layout, indent);
    FrameFacts(t.layout, indent);
    var body := SpellMembers(t.members, f);
    assert [] + t.members == t.members;
    ReadInvertsSpellMembers(t.members, f, oneLine || t.layout.OneLine?, [], after);
    RegroupContainer("{", f.open, body, f.close, "}", after);
    assert body[0] == '"';
    ReadObjectStep(f.open, body + f.close + "}" + after, t.members, after);
  }

  lemma {:induction false} ReadInvertsSpellArray(t: Node, indent: nat, oneLine: bool, after: string)
    requires t.Array? && t.items != [] && LaidOut(t, oneLine)
    ensures ReadValue(Spell(t, indent) + after) == Some(Parsed(t, after))
    decreases t, 0
  {
    var f, inside := ArrayFrame(t.layout, indent), oneLine || t.layout.OneLine?;
    FrameFacts(t.layout, indent);
    var body := SpellItems(t.items, f);
    assert [] + t.items == t.items;
    ReadInvertsSpellItems(t.items, f, inside, [], after);
    RegroupContainer("[", f.open, body, f.close, "]", after);
    ItemsStart(t.items, f, inside);
    ReadArrayStep(f.open, body + f.close + "]" + after, t.items, after);
  }

  lemma ItemsStart(items: seq<Node>, f: Frame, oneLine: bool)
    requires items != [] && LaidOutItems(items, oneLine)
    ensures SpellItems(items, f) != "" && !IsSpace(SpellItems(items, f)[0]) && SpellItems(items, f)[0] != ']'
  {
    SpellStarts(items[0], f.indent);
  }

  lemma RegroupMember(key: string, value: string, more: string, close: string, after: string)
    ensures (key + ": " + value + more) + close + "}" + after == key + ": " + (value + (more + close + "}" + after))
  {
  }

  lemma RegroupItem(value: string, more: string, close: string, after: string)
    ensures (value + more) + close + "]" + after == value + (more + close + "]" + after)
  {
  }

  /** What follows an element that is not the last. */
  lemma CommaTail(gap: string, rest: string, close: string, r: string, after: string)
    ensures var tail := ("," + gap + rest) + close + r + after;
            && tail != "" && tail[0] == ',' && SkipSpace(tail) == tail
            && tail[1..] == gap + (rest + close + r + after)
  {
  }

  lemma LastTail(close: string, bracket: char, after: string)
    requires AllSpace(close) && EndsLiteral(bracket) && !IsSpace(bracket)
    ensures var tail := "" + close + [bracket] + after;
            && tail != "" && EndsLiteral(tail[0])
            && SkipSpace(tail) == [bracket] + after
            && SkipSpace(tail)[1..] == after
  {
    var tail := "" + close + [bracket] + after;
    assert tail == close + ([bracket] + after);
    SkipLeadingSpace(close, [bracket] + after);
  }

  lemma ReadLastMember(key: string, value: string, t: Node, close: string, sofar: seq<Member>, after: string)
    requires AllSpace(close) && key !in Keys(sofar)
    requires ReadValue(value + ("" + close + "}" + after)) == Some(Parsed(t, "" + close + "}" + after))
    ensures ReadMembers((Quote(key) + ": " + value + "") + close + "}" + after, sofar)
         == Some(Parsed(sofar + [Member(key, t)], after))
  {
    var tail := "" + close + "}" + after;
    LastTail(close, '}', after);
    RegroupMember(Quote(key), value, "", close, after);
    ReadMemberStep(key, value + tail, t, tail, sofar);
  }

  lemma {:induction false} ReadNextMember(key: string, value: string, t: Node, gap: string, rest: string,
      close: string, sofar: seq<Member>, after: string)
    requires AllSpace(gap) && key !in Keys(sofar)
    requires var tail := ("," + gap + rest) + close + "}" + after; ReadValue(value + tail) == Some(Parsed(t, tail))
    ensures ReadMembers((Quote(key) + ": " + value + ("," + gap + rest)) + close + "}" + after, sofar)
         == ReadMembers(rest + close + "}" + after, sofar + [Member(key, t)])
  {
    var tail := ("," + gap + rest) + close + "}" + after;
    CommaTail(gap, rest, close, "}", after);
    RegroupMember(Quote(key), value, "," + gap + rest, close, after);
    ReadMemberStep(key, value + tail, t, tail, sofar);
    ReadMembersSkips(gap, rest + close + "}" + after, sofar + [Member(key, t)]);
  }

  lemma {:induction false} ReadInvertsSpellMembers(ms: seq<Member>, f: Frame, oneLine: bool, sofar: seq<Member>,
      after: string)
    requires ms != [] && LaidOutMembers(ms, oneLine) && BlankFrame(f)
    requires DistinctKeys(sofar + ms)
    ensures ReadMembers(SpellMembers(ms, f) + f.close + "}" + after, sofar) == Some(Parsed(sofar + ms, after))
    decreases ms, 0
  {
    hide ReadMembers, ReadValue;
    var key, t, value := ms[0].key, ms[0].value, Spell(ms[0].value, f.indent);
    NotYetThere(sofar, ms);
    if |ms| == 1 {
      LastTail(f.close, '}', after);
      ReadInvertsSpell(t, f.indent, oneLine, "" + f.close + "}" + after);
      ReadLastMember(key, value, t, f.close, sofar, after);
      assert ms == [Member(key, t)];
    } else {
      var rest := SpellMembers(ms[1..], f);
      CommaTail(f.gap, rest, f.close, "}", after);
      ReadInvertsSpell(t, f.indent, oneLine, ("," + f.gap + rest) + f.close + "}" + after);
      ReadNextMember(key, value, t, f.gap, rest, f.close, sofar, after);
      assert (sofar + [Member(key, t)]) + ms[1..] == sofar + ms;
      ReadInvertsSpellMembers(ms[1..], f, oneLine, sofar + [Member(key, t)], after);
    }
  }

  lemma NotYetThere(sofar: seq<Member>, ms: seq<Member>)
    requires ms != [] && DistinctKeys(sofar + ms)
    ensures ms[0].key !in Keys(sofar)
  {
    var all := sofar + ms;
    assert all[|sofar|] == ms[0];
    forall i | 0 <= i < |sofar| ensures sofar[i].key != ms[0].key { assert all[i] == sofar[i]; }
  }

  lemma ReadLastItem(value: string, t: Node, close: string, sofar: seq<Node>, after: string)
    requires AllSpace(close)
    requires ReadValue(value + ("" + close + "]" + after)) == Some(Parsed(t, "" + close + "]" + after))
    ensures ReadItems((value + "") + close + "]" + after, sofar) == Some(Parsed(sofar + [t], after))
  {
    LastTail(close, ']', after);
    RegroupItem(value, "", close, after);
  }

  lemma ReadNextItem(value: string, t: Node, gap: string, rest: string, close: string, sofar: seq<Node>, after: string)
    requires AllSpace(gap)
    requires var tail := ("," + gap + rest) + close + "]" + after; ReadValue(value + tail) == Some(Parsed(t, tail))
    ensures ReadItems((value + ("," + gap + rest)) + close + "]" + after, sofar)
         == ReadItems(rest + close + "]" + after, sofar + [t])
  {
    CommaTail(gap, rest, close, "]", after);
    RegroupItem(value, "," + gap + rest, close, after);
    ReadItemsSkips(gap, rest + close + "]" + after, sofar + [t]);
  }

  lemma {:induction false} ReadInvertsSpellItems(items: seq<Node>, f: Frame, oneLine: bool, sofar: seq<Node>, after: string)
    requires items != [] && LaidOutItems(items, oneLine) && BlankFrame(f)
    ensures ReadItems(SpellItems(items, f) + f.close + "]" + after, sofar) == Some(Parsed(sofar + items, after))
    decreases items, 0
  {
    hide ReadItems, ReadValue;
    var t, value := items[0], Spell(items[0], f.indent);
    if |items| == 1 {
      LastTail(f.close, ']', after);
      ReadInvertsSpell(t, f.indent, oneLine, "" + f.close + "]" + after);
      ReadLastItem(value, t, f.close, sofar, after);
      assert items == [t];
    } else {
      var rest := SpellItems(items[1..], f);
      CommaTail(f.gap, rest, f.close, "]", after);
      ReadInvertsSpell(t, f.indent, oneLine, ("," + f.gap + rest) + f.close + "]" + after);
      ReadNextItem(value, t, f.gap, rest, f.close, sofar, after);
      assert (sofar + [t]) + items[1..] == sofar + items;
      ReadInvertsSpellItems(items[1..], f, oneLine, sofar + [t], after);
    }
  }

  // ---- the printer's theorems ---------------------------------------------

  /** What is printed reads back as the reread tree, which prints the same. */
  lemma {:induction false} PrintThenRead(t: Node)
    requires WellFormed(t)
    ensures ReadDocument(WriteDocument(t)) == Some(Reread(t, 0, 0))
    ensures WriteDocument(Reread(t, 0, 0)) == WriteDocument(t)
    ensures Flatten(Reread(t, 0, 0)) == Flatten(t)
  {
    var r := Reread(t, 0, 0);
    PrintSpells(t, 0, 0);
    ReadInvertsSpell(r, 0, false, "\n");
    RereadFixed(r, 0, 0);
    LaidOutIsWellFormed(r, false);
    PrintSpells(r, 0, 0);
    FlattenReread(t, 0, 0);
  }

  lemma {:induction false} LaidOutIsWellFormed(t: Node, oneLine: bool)
    requires LaidOut(t, oneLine)
    ensures WellFormed(t)
    decreases t
  {
    match t
    case Object(ms, layout) => LaidOutMembersAreWellFormed(ms, oneLine || layout.OneLine?);
    case Array(items, layout) => LaidOutItemsAreWellFormed(items, oneLine || layout.OneLine?);
    case _ =>
  }

  lemma {:induction false} LaidOutMembersAreWellFormed(ms: seq<Member>, oneLine: bool)
    requires LaidOutMembers(ms, oneLine)
    ensures forall i :: 0 <= i < |ms| ==> WellFormed(ms[i].value)
    decreases ms
  {
    if ms != [] {
      LaidOutIsWellFormed(ms[0].value, oneLine);
      LaidOutMembersAreWellFormed(ms[1..], oneLine);
    }
  }

  lemma {:induction false} LaidOutItemsAreWellFormed(items: seq<Node>, oneLine: bool)
    requires LaidOutItems(items, oneLine)
    ensures forall i :: 0 <= i < |items| ==> WellFormed(items[i])
    decreases items
  {
    if items != [] {
      LaidOutIsWellFormed(items[0], oneLine);
      LaidOutItemsAreWellFormed(items[1..], oneLine);
    }
  }
}
