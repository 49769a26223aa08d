/** Reading the facts of an RPC back from the description that states them. */
module ContractReading {
  import opened Wrappers
  import opened Text
  import opened Contract

  /** What a reader learns from a block: an empty scope or binding when none is declared. */
  datatype Facts = Facts(procedure: string, protoFile: string, scope: string, binding: string)

  /** Reads a block by its labels, cutting at the backticks. */
  function ReadFacts(block: string): Option<Facts> {
    var p := Split(block, '`');
    if |p| < 5 || p[0] != "**From the contract.** " || p[2] != ", declared in " then None
    else if p[4] == ". No scope declared." && |p| == 5 then Some(Facts(p[1], p[3], "", ""))
    else if p[4] == ". No scope declared. Declared REST binding: " && |p| == 7 && p[6] == "." then
      Some(Facts(p[1], p[3], "", p[5]))
    else if p[4] != ". Required scope: " || |p| < 7 then None
    else if p[6] == "." && |p| == 7 then Some(Facts(p[1], p[3], p[5], ""))
    else if p[6] == ". Declared REST binding: " && |p| == 9 && p[8] == "." then Some(Facts(p[1], p[3], p[5], p[7]))
    else None
  }

  function FactsOf(m: Method): Facts {
    Facts(m.package + "." + m.service + "/" + m.name, m.protoFile, m.scope, m.binding)
  }

  /** No backtick stands in any fact. */
  predicate Quotable(m: Method) {
    '`' !in m.Procedure() && '`' !in m.protoFile && '`' !in m.scope && '`' !in m.binding
  }

  lemma JoinMore(a: string, b: string, rest: seq<string>)
    requires rest != []
    ensures Join([a, b] + rest, '`') == a + "`" + b + "`" + Join(rest, '`')
  {
    var x := [a, b] + rest;
    assert x[1..] == [b] + rest && x[1..][1..] == rest;
    assert Join([b] + rest, '`') == b + "`" + Join(rest, '`');
  }

  lemma JoinOne(a: string)
    ensures Join([a], '`') == a
  {
  }

  /** Where a block is cut, after the procedure and the file. */
  function TailPieces(scope: string, binding: string): (p: seq<string>)
    ensures p != []
  {
    if scope == "" && binding == "" then [". No scope declared."]
    else if scope == "" then [". No scope declared. Declared REST binding: ", binding, "."]
    else if binding == "" then [". Required scope: ", scope, "."]
    else [". Required scope: ", scope, ". Declared REST binding: ", binding, "."]
  }

  function BlockPieces(m: Method): (p: seq<string>)
    ensures p != []
  {
    [MARKER + " ", m.Procedure(), ", declared in ", m.protoFile] + TailPieces(m.scope, m.binding)
  }

  function BlockTail(scope: string, binding: string): string {
    "." + " " + (if scope != "" then "Required scope: `" + scope + "`." else "No scope declared.")
    + if binding != "" then " " + "Declared REST binding: `" + binding + "`." else ""
  }

  lemma Regroup(a: string, b: string, c: string, x: string, d: string, e: string)
    ensures (a + b) + c + x + d + e == a + ((b + c) + x + (d + e))
  {
  }

  lemma NeitherDeclared()
    ensures "." + " " + "No scope declared." + "" == ". No scope declared."
  {
  }

  lemma BindingDeclared(b: string)
    ensures ". No scope declared. Declared REST binding: " + "`" + b + "`" + "."
         == "." + " " + "No scope declared." + (" " + "Declared REST binding: `" + b + "`.")
  {
    assert ". No scope declared." + " Declared REST binding: " == ". No scope declared. Declared REST binding: ";
    assert " Declared REST binding: " + "`" == " " + "Declared REST binding: `" && "`" + "." == "`.";
    assert "." + " " + "No scope declared." == ". No scope declared.";
    Regroup(". No scope declared.", " Declared REST binding: ", "`", b, "`", ".");
  }

  lemma ScopeDeclared(s: string)
    ensures ". Required scope: " + "`" + s + "`" + "." == "." + " " + ("Required scope: `" + s + "`.") + ""
  {
    assert ". " + "Required scope: " == ". Required scope: " && "Required scope: " + "`" == "Required scope: `";
    assert "`" + "." == "`." && "." + " " == ". ";
    Regroup(". ", "Required scope: ", "`", s, "`", ".");
  }

  lemma BothDeclared(s: string, b: string)
    ensures ". Required scope: " + "`" + s + "`" + (". Declared REST binding: " + "`" + b + "`" + ".")
         == "." + " " + ("Required scope: `" + s + "`.") + (" " + "Declared REST binding: `" + b + "`.")
  {
    var end := " " + "Declared REST binding: `" + b + "`.";
    assert "." + " Declared REST binding: " == ". Declared REST binding: ";
    assert " Declared REST binding: " + "`" == " " + "Declared REST binding: `" && "`" + "." == "`.";
    Regroup(".", " Declared REST binding: ", "`", b, "`", ".");
    var front := ". Required scope: " + "`" + s + "`";
    assert front + ("." + end) == front + "." + end;
    ScopeDeclared(s);
  }

  lemma TailIsJoined(scope: string, binding: string)
    ensures Join(TailPieces(scope, binding), '`') == BlockTail(scope, binding)
  {
    hide Join;
    JoinOne(".");
    if scope == "" && binding == "" {
      JoinOne(". No scope declared.");
      NeitherDeclared();
    } else if scope == "" {
      var a := ". No scope declared. Declared REST binding: ";
      assert [a, binding, "."] == [a, binding] + ["."];
      JoinMore(a, binding, ["."]);
      BindingDeclared(binding);
    } else if binding == "" {
      var a := ". Required scope: ";
      assert [a, scope, "."] == [a, scope] + ["."];
      JoinMore(a, scope, ["."]);
      ScopeDeclared(scope);
    } else {
      var a, c := ". Required scope: ", ". Declared REST binding: ";
      assert [c, binding, "."] == [c, binding] + ["."];
      assert [a, scope, c, binding, "."] == [a, scope] + [c, binding, "."];
      JoinMore(c, binding, ["."]);
      JoinMore(a, scope, [c, binding, "."]);
      BothDeclared(scope, binding);
    }
  }

  lemma HeadIsJoined(p: string, f: string, tail: seq<string>)
    requires tail != []
    ensures Join([MARKER + " ", p, ", declared in ", f] + tail, '`')
         == MARKER + " " + "`" + p + "`" + (", declared in " + "`" + f + "`" + Join(tail, '`'))
  {
    hide Join;
    JoinMore(", declared in ", f, tail);
    JoinMore(MARKER + " ", p, [", declared in ", f] + tail);
    assert [MARKER + " ", p, ", declared in ", f] + tail == [MARKER + " ", p] + ([", declared in ", f] + tail);
  }

  lemma BlockShape(p: string, f: string, a: string, b: string)
    ensures MARKER + " " + "`" + p + "`" + (", declared in " + "`" + f + "`" + ("." + " " + a + b))
         == MARKER + " `" + p + "`, declared in `" + f + "`." + " " + a + b
  {
  }

  lemma BlockIsJoined(m: Method)
    ensures Join(BlockPieces(m), '`') == ContractBlock(m)
  {
    hide Join, TailPieces;
    HeadIsJoined(m.Procedure(), m.protoFile, TailPieces(m.scope, m.binding));
    TailIsJoined(m.scope, m.binding);
    var a := if m.scope != "" then "Required scope: `" + m.scope + "`." else "No scope declared.";
    var b := if m.binding != "" then " " + "Declared REST binding: `" + m.binding + "`." else "";
    assert BlockTail(m.scope, m.binding) == "." + " " + a + b;
    BlockShape(m.Procedure(), m.protoFile, a, b);
  }

  /** Every fact of a method is read back from its block: procedure, file, and scope and binding or their absence. */
  lemma {:induction false} BlockReadsBack(m: Method)
    requires Quotable(m)
    ensures ReadFacts(ContractBlock(m)) == Some(FactsOf(m))
  {
    hide Split, Join, ContractBlock;
    BlockIsJoined(m);
    PiecesAreQuotable(m);
    SplitInvertsJoin(BlockPieces(m), '`');
    assert MARKER + " " == "**From the contract.** ";
    hide BlockPieces;
    PiecesRead(m);
  }

  lemma PiecesRead(m: Method)
    requires Split(ContractBlock(m), '`') == BlockPieces(m)
    ensures ReadFacts(ContractBlock(m)) == Some(FactsOf(m))
  {
    hide Split, ContractBlock;
    assert MARKER + " " == "**From the contract.** ";
    var p := BlockPieces(m);
    assert p[4..] == TailPieces(m.scope, m.binding);
    assert forall i :: 4 <= i < |p| ==> p[i] == TailPieces(m.scope, m.binding)[i - 4];
  }

  lemma TailIsQuotable(scope: string, binding: string)
    requires '`' !in scope && '`' !in binding
    ensures forall i :: 0 <= i < |TailPieces(scope, binding)| ==> '`' !in TailPieces(scope, binding)[i]
  {
  }

  lemma LabelsAreQuotable()
    ensures '`' !in MARKER + " " && '`' !in ", declared in "
  {
  }

  lemma PiecesAreQuotable(m: Method)
    requires Quotable(m)
    ensures forall i :: 0 <= i < |BlockPieces(m)| ==> '`' !in BlockPieces(m)[i]
  {
    TailIsQuotable(m.scope, m.binding);
    LabelsAreQuotable();
    hide TailPieces;
    var p := m.Procedure();
    forall i | 0 <= i < |BlockPieces(m)| ensures '`' !in BlockPieces(m)[i] {
      if i >= 4 { assert BlockPieces(m)[i] == TailPieces(m.scope, m.binding)[i - 4]; }
    }
  }

  /** A description that ends in a block, alone or below a blank line, from which the facts are read back. */
  ghost predicate StatesFacts(description: string, facts: Facts) {
    exists k: nat :: BlockStartsAt(description, k) && ReadFacts(description[k..]) == Some(facts)
  }

  predicate BlockStartsAt(description: string, k: nat) {
    k <= |description| && (k == 0 || (k >= 2 && description[k - 2] == '\n' && description[k - 1] == '\n'))
  }

  /** Whatever was there before, a merged description states the facts of the method. */
  lemma {:induction false} MergedStatesTheFacts(existing: string, m: Method)
    requires Quotable(m)
    ensures StatesFacts(MergeDescription(existing, m), FactsOf(m))
  {
    hide ReadFacts, ContractBlock, Prose, FactsOf;
    BlockReadsBack(m);
    var d, b := MergeDescription(existing, m), ContractBlock(m);
    var k := |d| - |b|;
    assert d[k..] == b;
    assert BlockStartsAt(d, k);
  }
}
