/** What replacing one value in a tree changes in the printed text: the text of that value, and nothing around it. */
module JsonHole {
  import opened Wrappers
  import opened JsonText
  import opened JsonTree

  /** Where a value stands: inside a container on one line, or at an indent and a column. */
  datatype Place = Inline | At(indent: nat, column: nat)

  function Rendered(t: Node, p: Place): string {
    match p
    case Inline => Flat(t)
    case At(indent, column) => Print(t, indent, column)
  }

  // ---- trees that were read -----------------------------------------------

  /** Every container knows whether it was on one line, as in any tree that was read. */
  predicate FromFile(t: Node) {
    match t
    case Object(ms, layout) => !layout.ByWidth? && forall i :: 0 <= i < |ms| ==> FromFile(ms[i].value)
    case Array(items, layout) => !layout.ByWidth? && forall i :: 0 <= i < |items| ==> FromFile(items[i])
    case _ => true
  }

  lemma {:induction false} ReadIsFromFile(text: string)
    requires ReadValue(text).Some?
    ensures FromFile(ReadValue(text).value.value)
    decreases |text|, 1
  {
    var s := SkipSpace(text);
    if s[0] == '{' || s[0] == '[' {
      var inner := SkipSpace(s[1..]);
      if s[0] == '{' && inner[0] != '}' {
        ReadMembersAreFromFile(inner, []);
      } else if s[0] == '[' && inner[0] != ']' {
        ReadItemsAreFromFile(inner, []);
      }
    }
  }

  lemma {:induction false} ReadMembersAreFromFile(text: string, sofar: seq<Member>)
    requires ReadMembers(text, sofar).Some?
    requires forall i :: 0 <= i < |sofar| ==> FromFile(sofar[i].value)
    ensures var ms := ReadMembers(text, sofar).value.value; forall i :: 0 <= i < |ms| ==> FromFile(ms[i].value)
    decreases |text|, 0
  {
    var key := ReadString(SkipSpace(text)).value;
    var colon := SkipSpace(key.rest);
    ReadIsFromFile(colon[1..]);
    var v := ReadValue(colon[1..]).value;
    PutFromFile(sofar, key.value.value, v.value);
    var next := SkipSpace(v.rest);
    if next[0] == ',' {
      ReadMembersAreFromFile(next[1..], Put(sofar, key.value.value, v.value));
    }
  }

  lemma {:induction false} PutFromFile(ms: seq<Member>, key: string, value: Node)
    requires FromFile(value) && forall i :: 0 <= i < |ms| ==> FromFile(ms[i].value)
    ensures forall i :: 0 <= i < |Put(ms, key, value)| ==> FromFile(Put(ms, key, value)[i].value)
  {
    if ms != [] && ms[0].key != key { PutFromFile(ms[1..], key, value); }
  }

  lemma {:induction false} ReadItemsAreFromFile(text: string, sofar: seq<Node>)
    requires ReadItems(text, sofar).Some?
    requires forall i :: 0 <= i < |sofar| ==> FromFile(sofar[i])
    ensures forall i :: 0 <= i < |ReadItems(text, sofar).value.value| ==> FromFile(ReadItems(text, sofar).value.value[i])
    decreases |text|, 2
  {
    ReadIsFromFile(text);
    var v := ReadValue(text).value;
    var next := SkipSpace(v.rest);
    if next[0] == ',' {
      ReadItemsAreFromFile(next[1..], sofar + [v.value]);
    }
  }

  // ---- one value replaced -------------------------------------------------

  /** Assigning to a key that is there replaces the value at one position. */
  lemma {:induction false} PutAt(ms: seq<Member>, key: string, value: Node) returns (i: nat)
    requires key in Keys(ms)
    ensures i < |ms| && ms[i].key == key && Get(ms, key) == Some(ms[i].value)
    ensures Put(ms, key, value) == ms[i := Member(key, value)]
  {
    if ms[0].key == key {
      i := 0;
    } else {
      KeysSplit(ms);
      i := PutAt(ms[1..], key, value);
      i := i + 1;
    }
  }

  lemma Deeper(head: string, a: string, x: string, b: string)
    ensures head + (a + x + b) == (head + a) + x + b
  {
  }

  lemma Around(l: string, a: string, x: string, b: string, r: string)
    ensures l + (a + x + b) + r == (l + a) + x + (b + r)
  {
  }

  lemma {:induction false} FlatMembersHole(ms: seq<Member>, i: nat, v: Node) returns (a: string, b: string)
    requires i < |ms|
    ensures FlatMembers(ms) == a + Flat(ms[i].value) + b
    ensures FlatMembers(ms[i := Member(ms[i].key, v)]) == a + Flat(v) + b
  {
    hide Flat, Quote;
    var changed := ms[i := Member(ms[i].key, v)];
    if i == 0 {
      a := Quote(ms[0].key) + ": ";
      b := if |ms| == 1 then "" else ", " + FlatMembers(ms[1..]);
      assert changed[1..] == ms[1..];
    } else {
      var head := Quote(ms[0].key) + ": " + Flat(ms[0].value);
      var a1;
      a1, b := FlatMembersHole(ms[1..], i - 1, v);
      assert changed[1..] == ms[1..][i - 1 := Member(ms[i].key, v)];
      a := head + ", " + a1;
      assert forall rest :: head + (", " + rest) == (head + ", ") + rest;
      Deeper(head + ", ", a1, Flat(ms[i].value), b);
      Deeper(head + ", ", a1, Flat(v), b);
    }
  }

  lemma {:induction false} FlatItemsHole(items: seq<Node>, i: nat, v: Node) returns (a: string, b: string)
    requires i < |items|
    ensures FlatItems(items) == a + Flat(items[i]) + b
    ensures FlatItems(items[i := v]) == a + Flat(v) + b
  {
    hide Flat;
    var changed := items[i := v];
    if i == 0 {
      a := "";
      b := if |items| == 1 then "" else ", " + FlatItems(items[1..]);
      assert changed[1..] == items[1..];
    } else {
      var head := Flat(items[0]);
      var a1;
      a1, b := FlatItemsHole(items[1..], i - 1, v);
      assert changed[1..] == items[1..][i - 1 := v];
      a := head + ", " + a1;
      assert forall rest :: head + (", " + rest) == (head + ", ") + rest;
      Deeper(head + ", ", a1, Flat(items[i]), b);
      Deeper(head + ", ", a1, Flat(v), b);
    }
  }

  lemma {:induction false} PrintMembersHole(ms: seq<Member>, i: nat, v: Node, indent: nat)
    returns (a: string, b: string, p: Place)
    requires i < |ms|
    ensures PrintMembers(ms, indent) == a + Rendered(ms[i].value, p) + b
    ensures PrintMembers(ms[i := Member(ms[i].key, v)], indent) == a + Rendered(v, p) + b
  {
    hide Print, Quote, Spaces;
    var changed := ms[i := Member(ms[i].key, v)];
    var head := Spaces(indent + 2) + Quote(ms[0].key) + ": ";
    var column := indent + 2 + |Quote(ms[0].key)| + 2;
    if i == 0 {
      a, p := head, At(indent + 2, column);
      b := if |ms| == 1 then "" else ",\n" + PrintMembers(ms[1..], indent);
      assert changed[1..] == ms[1..];
    } else {
      var first := head + Print(ms[0].value, indent + 2, column);
      var a1;
      a1, b, p := PrintMembersHole(ms[1..], i - 1, v, indent);
      assert changed[1..] == ms[1..][i - 1 := Member(ms[i].key, v)];
      a := first + ",\n" + a1;
      assert forall rest :: first + (",\n" + rest) == (first + ",\n") + rest;
      Deeper(first + ",\n", a1, Rendered(ms[i].value, p), b);
      Deeper(first + ",\n", a1, Rendered(v, p), b);
    }
  }

  lemma {:induction false} PrintItemsHole(items: seq<Node>, i: nat, v: Node, indent: nat) returns (a: string, b: string)
    requires i < |items|
    ensures PrintItems(items, indent) == a + Print(items[i], indent + 2, indent + 2) + b
    ensures PrintItems(items[i := v], indent) == a + Print(v, indent + 2, indent + 2) + b
  {
    hide Print, Spaces;
    var changed := items[i := v];
    if i == 0 {
      a := Spaces(indent + 2);
      b := if |items| == 1 then "" else ",\n" + PrintItems(items[1..], indent);
      assert changed[1..] == items[1..];
    } else {
      var first := Spaces(indent + 2) + Print(items[0], indent + 2, indent + 2);
      var a1;
      a1, b := PrintItemsHole(items[1..], i - 1, v, indent);
      assert changed[1..] == items[1..][i - 1 := v];
      a := first + ",\n" + a1;
      assert forall rest :: first + (",\n" + rest) == (first + ",\n") + rest;
      Deeper(first + ",\n", a1, Print(items[i], indent + 2, indent + 2), b);
      Deeper(first + ",\n", a1, Print(v, indent + 2, indent + 2), b);
    }
  }

  /** The text around a member of an object whose layout is decided does not depend on the member's value. */
  lemma {:induction false} ObjectHole(t: Node, i: nat, v: Node, p: Place) returns (a: string, b: string, q: Place)
    requires t.Object? && !t.layout.ByWidth? && i < |t.members|
    ensures Rendered(t, p) == a + Rendered(t.members[i].value, q) + b
    ensures Rendered(t.(members := t.members[i := Member(t.members[i].key, v)]), p) == a + Rendered(v, q) + b
  {
    hide FlatMembers, PrintMembers;
    if p.Inline? || t.layout.OneLine? {
      a, b := FlatMembersHole(t.members, i, v);
      q := Inline;
      Around("{ ", a, Flat(t.members[i].value), b, " }");
      Around("{ ", a, Flat(v), b, " }");
      a, b := "{ " + a, b + " }";
    } else {
      a, b, q := PrintMembersHole(t.members, i, v, p.indent);
      var r := "\n" + Spaces(p.indent) + "}";
      BrokenEnd("{\n", PrintMembers(t.members, p.indent), Spaces(p.indent), "}");
      BrokenEnd("{\n", PrintMembers(t.members[i := Member(t.members[i].key, v)], p.indent), Spaces(p.indent), "}");
      Around("{\n", a, Rendered(t.members[i].value, q), b, r);
      Around("{\n", a, Rendered(v, q), b, r);
      a, b := "{\n" + a, b + r;
    }
  }

  lemma BrokenEnd(l: string, body: string, pad: string, r: string)
    ensures l + body + "\n" + pad + r == l + body + ("\n" + pad + r)
  {
  }

  lemma {:induction false} ArrayHole(t: Node, i: nat, v: Node, p: Place) returns (a: string, b: string, q: Place)
    requires t.Array? && !t.layout.ByWidth? && i < |t.items|
    ensures Rendered(t, p) == a + Rendered(t.items[i], q) + b
    ensures Rendered(t.(items := t.items[i := v]), p) == a + Rendered(v, q) + b
  {
    hide FlatItems, PrintItems;
    if p.Inline? || t.layout.OneLine? {
      a, b := FlatItemsHole(t.items, i, v);
      q := Inline;
      Around("[", a, Flat(t.items[i]), b, "]");
      Around("[", a, Flat(v), b, "]");
      a, b := "[" + a, b + "]";
    } else {
      a, b := PrintItemsHole(t.items, i, v, p.indent);
      q := At(p.indent + 2, p.indent + 2);
      var r := "\n" + Spaces(p.indent) + "]";
      BrokenEnd("[\n", PrintItems(t.items, p.indent), Spaces(p.indent), "]");
      BrokenEnd("[\n", PrintItems(t.items[i := v], p.indent), Spaces(p.indent), "]");
      Around("[\n", a, Rendered(t.items[i], q), b, r);
      Around("[\n", a, Rendered(v, q), b, r);
      a, b := "[\n" + a, b + r;
    }
  }

  /** A value replaced inside a value replaced: the surroundings add up. */
  lemma Nested(a: string, inner: string, b: string, c: string, x: string, d: string)
    requires inner == c + x + d
    ensures a + inner + b == (a + c) + x + (d + b)
  {
  }
}
