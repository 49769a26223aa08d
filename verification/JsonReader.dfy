/** The reader as it runs: a cursor moved over the text by loops. */
module JsonReader {
  import opened Wrappers
  import opened JsonText
  import opened JsonTree

  lemma DropOne(text: string, i: nat)
    requires i < |text|
    ensures text[i..][1..] == text[i + 1..]
  {
  }

  lemma Slices(text: string, start: nat, i: nat)
    requires start <= i <= |text|
    ensures text[start..i] == text[start..][..i - start]
    ensures text[start..][i - start..] == text[i..]
  {
  }

  /** One turn of the string loop, from a position that may have run off the end. */
  lemma CloseStep(text: string, i: nat)
    ensures i < |text| && text[i] == '\\' && i + 2 <= |text| ==> CloseQuote(text[i..]) == Add(2, CloseQuote(text[i + 2..]))
    ensures i < |text| && text[i] == '\\' && i + 2 > |text| ==> CloseQuote(text[i..]) == None
    ensures i < |text| && text[i] == '"' ==> CloseQuote(text[i..]) == Some(1)
    ensures i < |text| && text[i] != '\\' && text[i] != '"' ==> CloseQuote(text[i..]) == Add(1, CloseQuote(text[i + 1..]))
    ensures i == |text| ==> CloseQuote(text[i..]) == None
  {
    if i < |text| {
      DropOne(text, i);
      if i + 2 <= |text| { assert text[i..][2..] == text[i + 2..]; }
    }
  }

  /** How far the scan of the string that opens at `start` has come: none of it closed, or past the end of the text. */
  ghost predicate Scanned(text: string, start: nat, i: nat) {
    && start < i <= |text| + 1 && start < |text|
    && CloseQuote(text[start + 1..]) == if i <= |text| then Add(i - (start + 1), CloseQuote(text[i..])) else None
  }

  lemma ScanStarts(text: string, start: nat)
    requires start < |text|
    ensures Scanned(text, start, start + 1)
  {
  }

  lemma ScanStep(text: string, start: nat, i: nat)
    requires Scanned(text, start, i)
    ensures i >= |text| ==> CloseQuote(text[start + 1..]).None?
    ensures i < |text| && text[i] == '\\' ==> Scanned(text, start, i + 2)
    ensures i < |text| && text[i] == '"' ==> CloseQuote(text[start + 1..]) == Some(i - start)
    ensures i < |text| && text[i] != '\\' && text[i] != '"' ==> Scanned(text, start, i + 1)
  {
    hide CloseQuote;
    CloseStep(text, i);
  }

  lemma TokenAt(text: string, start: nat, i: nat)
    requires start < i <= |text|
    requires CloseQuote(text[start + 1..]) == Some(i - start - 1)
    ensures ReadString(text[start..])
         == if LoadString(text[start..i]).None? then None
            else Some(Parsed(Token(LoadString(text[start..i]).value, text[start..i]), text[i..]))
  {
    hide CloseQuote, LoadString;
    DropOne(text, start);
    Slices(text, start, i);
  }

  lemma NoToken(text: string, start: nat)
    requires start < |text| && CloseQuote(text[start + 1..]).None?
    ensures ReadString(text[start..]).None?
  {
    hide CloseQuote;
    DropOne(text, start);
  }

  /** What the text after a member means for the object being read. */
  function AfterMember(next: string, members: seq<Member>): Option<Parsed<seq<Member>>> {
    if next == "" then None
    else if next[0] == ',' then ReadMembers(next[1..], members)
    else if next[0] == '}' then Some(Parsed(members, next[1..]))
    else None
  }

  /** What the text after an item means for the array being read. */
  function AfterItem(next: string, items: seq<Node>): Option<Parsed<seq<Node>>> {
    if next == "" then None
    else if next[0] == ',' then ReadItems(next[1..], items)
    else if next[0] == ']' then Some(Parsed(items, next[1..]))
    else None
  }

  lemma MemberStep(s: string, sofar: seq<Member>)
    ensures ReadMembers(s, sofar)
         == var t := SkipSpace(s);
            if t == "" then None
            else
              var key := ReadString(t);
              if key.None? then None
              else
                var colon := SkipSpace(key.value.rest);
                if colon == "" || colon[0] != ':' then None
                else
                  var v := ReadValue(colon[1..]);
                  if v.None? then None
                  else AfterMember(SkipSpace(v.value.rest), Put(sofar, key.value.value.value, v.value.value))
  {
    hide ReadValue, ReadString, SkipSpace, Put;
  }

  lemma ObjectSteps(s: string)
    requires s != "" && s[0] == '{'
    ensures var inner := SkipSpace(s[1..]);
            ReadValue(s)
              == if inner == "" then None
            else if inner[0] == '}' then Some(Parsed(Object([], OneLine), inner[1..]))
            else if ReadMembers(inner, []).None? then None
            else Some(Parsed(Object(ReadMembers(inner, []).value.value,
                                      if BrokeAfterBracket(s[1..]) then Broken else OneLine),
                             ReadMembers(inner, []).value.rest))
  {
    hide ReadMembers;
    assert SkipSpace(s) == s;
  }

  lemma ArraySteps(s: string)
    requires s != "" && s[0] == '['
    ensures var inner := SkipSpace(s[1..]);
            ReadValue(s)
              == if inner == "" then None
            else if inner[0] == ']' then Some(Parsed(Array([], OneLine), inner[1..]))
            else if ReadItems(inner, []).None? then None
            else Some(Parsed(Array(ReadItems(inner, []).value.value, if BrokeAfterBracket(s[1..]) then Broken else OneLine),
                             ReadItems(inner, []).value.rest))
  {
    hide ReadItems;
    assert SkipSpace(s) == s;
  }

  lemma ItemStep(s: string, sofar: seq<Node>)
    ensures var v := ReadValue(s);
            ReadItems(s, sofar)
              == if v.None? then None else AfterItem(SkipSpace(v.value.rest), sofar + [v.value.value])
  {
    hide ReadValue, SkipSpace;
  }

  class Parser {
    const text: string
    var i: nat

    constructor (text: string)
      ensures this.text == text && i == 0
    {
      this.text := text;
      i := 0;
    }

    method SkipSpaces()
      requires i <= |text|
      modifies this`i
      ensures old(i) <= i <= |text|
      ensures text[i..] == SkipSpace(text[old(i)..])
    {
      while i < |text| && IsSpace(text[i])
        invariant old(i) <= i <= |text|
        invariant SkipSpace(text[i..]) == SkipSpace(text[old(i)..])
      {
        assert text[i..][1..] == text[i + 1..];
        i := i + 1;
      }
    }

    method BrokeHere() returns (broke: bool)
      requires i <= |text|
      ensures broke == BrokeAfterBracket(text[i..])
    {
      var j := i;
      while j < |text| && (text[j] == ' ' || text[j] == '\t' || text[j] == '\r')
        invariant i <= j <= |text|
        invariant BrokeAfterBracket(text[j..]) == BrokeAfterBracket(text[i..])
      {
        assert text[j..][1..] == text[j + 1..];
        j := j + 1;
      }
      broke := j < |text| && text[j] == '\n';
    }

    /** Reads one value. Nothing comes back where the source raises. */
    method Parse() returns (r: Option<Node>)
      requires i <= |text|
      modifies this`i
      ensures r.None? <==> ReadValue(text[old(i)..]).None?
      ensures r.Some? ==> old(i) < i <= |text| && ReadValue(text[old(i)..]) == Some(Parsed(r.value, text[i..]))
      decreases |text| - i, 1
    {
      SkipSpaces();
      if i == |text| { return None; }
      if text[i] == '{' {
        r := ParseObject();
      } else if text[i] == '[' {
        r := ParseArray();
      } else if text[i] == '"' {
        var t := ParseString();
        if t.None? { return None; }
        r := Some(String(t.value.value, Some(t.value.raw)));
      } else {
        r := ParseLiteral();
      }
    }

    method ParseObject() returns (r: Option<Node>)
      requires i < |text| && text[i] == '{'
      modifies this`i
      ensures r.None? <==> ReadValue(text[old(i)..]).None?
      ensures r.Some? ==> old(i) < i <= |text| && ReadValue(text[old(i)..]) == Some(Parsed(r.value, text[i..]))
      decreases |text| - i, 0
    {
      hide ReadValue, ReadMembers, SkipSpace, BrokeAfterBracket;
      ObjectSteps(text[i..]);
      DropOne(text, i);
      i := i + 1;
      var multiline := BrokeHere();
      SkipSpaces();
      if i == |text| { return None; }
      if text[i] == '}' {
        DropOne(text, i);
        i := i + 1;
        return Some(Object([], OneLine));
      }
      ghost var inner := text[i..];
      var out: seq<Member> := [];
      while true
        invariant old(i) < i <= |text|
        invariant ReadMembers(text[i..], out) == ReadMembers(inner, [])
        decreases |text| - i
      {
        var grown := ParseMember(out);
        if grown.None? { return None; }
        out := grown.value;
        if i == |text| { return None; }
        DropOne(text, i);
        if text[i] == ',' {
          i := i + 1;
          continue;
        }
        if text[i] != '}' { return None; }
        i := i + 1;
        return Some(Object(out, if multiline then Broken else OneLine));
      }
    }

    /** A key, a colon, a value, and the space before what comes next. */
    method ParseMember(out: seq<Member>) returns (r: Option<seq<Member>>)
      requires i <= |text|
      modifies this`i
      ensures r.None? ==> ReadMembers(text[old(i)..], out).None?
      ensures r.Some? ==> old(i) < i <= |text| && ReadMembers(text[old(i)..], out) == AfterMember(text[i..], r.value)
      decreases |text| - i, 2
    {
      hide ReadValue, ReadMembers, ReadString, AfterMember, SkipSpace, Put;
      MemberStep(text[i..], out);
      SkipSpaces();
      if i == |text| { return None; }
      var key := ParseString();
      if key.None? { return None; }
      SkipSpaces();
      if i == |text| || text[i] != ':' { return None; }
      DropOne(text, i);
      i := i + 1;
      var value := Parse();
      if value.None? { return None; }
      SkipSpaces();
      return Some(Put(out, key.value.value, value.value));
    }

    method ParseArray() returns (r: Option<Node>)
      requires i < |text| && text[i] == '['
      modifies this`i
      ensures r.None? <==> ReadValue(text[old(i)..]).None?
      ensures r.Some? ==> old(i) < i <= |text| && ReadValue(text[old(i)..]) == Some(Parsed(r.value, text[i..]))
      decreases |text| - i, 0
    {
      hide ReadValue, ReadItems, SkipSpace, BrokeAfterBracket;
      ArraySteps(text[i..]);
      DropOne(text, i);
      i := i + 1;
      var multiline := BrokeHere();
      SkipSpaces();
      if i == |text| { return None; }
      if text[i] == ']' {
        DropOne(text, i);
        i := i + 1;
        return Some(Array([], OneLine));
      }
      ghost var inner := text[i..];
      var out: seq<Node> := [];
      while true
        invariant old(i) < i <= |text|
        invariant ReadItems(text[i..], out) == ReadItems(inner, [])
        decreases |text| - i
      {
        var grown := ParseItem(out);
        if grown.None? { return None; }
        out := grown.value;
        if i == |text| { return None; }
        DropOne(text, i);
        if text[i] == ',' {
          i := i + 1;
          continue;
        }
        if text[i] != ']' { return None; }
        i := i + 1;
        return Some(Array(out, if multiline then Broken else OneLine));
      }
    }

    /** A value, and the space before what comes next. */
    method ParseItem(out: seq<Node>) returns (r: Option<seq<Node>>)
      requires i <= |text|
      modifies this`i
      ensures r.None? ==> ReadItems(text[old(i)..], out).None?
      ensures r.Some? ==> old(i) < i <= |text| && ReadItems(text[old(i)..], out) == AfterItem(text[i..], r.value)
      decreases |text| - i, 2
    {
      hide ReadValue, ReadItems, AfterItem, SkipSpace;
      ItemStep(text[i..], out);
      var value := Parse();
      if value.None? { return None; }
      SkipSpaces();
      return Some(out + [value.value]);
    }

    /** From a quote to the one that closes it, stepping over escaped characters. */
    method ParseString() returns (r: Option<Token>)
      requires i < |text|
      modifies this`i
      ensures r.None? <==> ReadString(text[old(i)..]).None?
      ensures r.Some? ==> old(i) < i <= |text| && ReadString(text[old(i)..]) == Some(Parsed(r.value, text[i..]))
    {
      hide CloseQuote, LoadString, ReadString, Scanned;
      var start := i;
      ScanStarts(text, start);
      i := i + 1;
      while true
        invariant start < i <= |text| + 1 && Scanned(text, start, i)
        decreases |text| + 1 - i
      {
        ScanStep(text, start, i);
        if i >= |text| {
          NoToken(text, start);
          return None;
        }
        var c := text[i];
        if c == '\\' {
          i := i + 2;
          continue;
        }
        i := i + 1;
        if c == '"' {
          r := Load(start);
          return;
        }
      }
    }

    /** `json.loads` of the token from `start` to the cursor. */
    method Load(start: nat) returns (r: Option<Token>)
      requires start < i <= |text|
      requires CloseQuote(text[start + 1..]) == Some(i - start - 1)
      ensures r.None? <==> ReadString(text[start..]).None?
      ensures r.Some? ==> ReadString(text[start..]) == Some(Parsed(r.value, text[i..]))
    {
      hide CloseQuote, LoadString, ReadString;
      TokenAt(text, start, i);
      var raw := text[start..i];
      var value := LoadString(raw);
      if value.None? { return None; }
      return Some(Token(value.value, raw));
    }

    method ParseLiteral() returns (r: Option<Node>)
      requires i < |text| && !IsSpace(text[i]) && text[i] !in "{[\""
      modifies this`i
      ensures r.None? <==> ReadValue(text[old(i)..]).None?
      ensures r.Some? ==> old(i) < i <= |text| && ReadValue(text[old(i)..]) == Some(Parsed(r.value, text[i..]))
    {
      hide LoadLiteral;
      var start := i;
      while i < |text| && !EndsLiteral(text[i])
        invariant start <= i <= |text|
        invariant LiteralLength(text[start..]) == i - start + LiteralLength(text[i..])
      {
        DropOne(text, i);
        i := i + 1;
      }
      Slices(text, start, i);
      r := LoadLiteral(text[start..i]);
    }
  }
}
