/** An RPC of the proto contract, and the description of its request. */
module Contract {
  import opened Text

  datatype Method = Method(
    package: string, service: string, name: string, protoFile: string,
    scope: string, binding: string, comment: string)
  {
    /** The Connect path. */
    function Procedure(): string { ServicePath() + "/" + name }

    function ServicePath(): string { package + "." + service }
  }

  const MARKER := "**From the contract.**"
  const SEPARATOR := "\n\n" + MARKER

  function ContractBlock(m: Method): (b: string)
    ensures b != "" && MARKER <= b && !PythonSpace(b[|b| - 1])
  {
    MARKER + " `" + m.Procedure() + "`, declared in `" + m.protoFile + "`."
    + " " + (if m.scope != "" then "Required scope: `" + m.scope + "`." else "No scope declared.")
    + if m.binding != "" then " " + "Declared REST binding: `" + m.binding + "`." else ""
  }

  /** The hand-written half of a description. */
  function Prose(description: string): (p: string)
    ensures p != "" ==> !PythonSpace(p[|p| - 1])
    ensures !Contains(p, SEPARATOR)
  {
    var before := Before(description, SEPARATOR);
    var p := RightStrip(before);
    assert !Contains(p, SEPARATOR) by {
      if Contains(p, SEPARATOR) { PrefixContains(p, before, SEPARATOR); }
    }
    p
  }

  function MergeDescription(existing: string, m: Method): string {
    var prose := if Prose(existing) != "" then Prose(existing) else m.comment;
    if prose != "" then prose + "\n\n" + ContractBlock(m) else ContractBlock(m)
  }

  // ---- the prose is found again -------------------------------------------

  lemma MergedOccurrence(prose: string, m: Method)
    ensures OccursAt(prose + "\n\n" + ContractBlock(m), SEPARATOR, |prose|)
  {
    var s, b := prose + "\n\n" + ContractBlock(m), ContractBlock(m);
    assert b[..|MARKER|] == MARKER;
    assert s[|prose|..|prose| + |SEPARATOR|] == "\n\n" + b[..|MARKER|];
  }

  /** A separator cannot begin inside prose that does not end in a line break. */
  lemma NoEarlierSeparator(prose: string, m: Method, j: nat)
    requires prose != "" && prose[|prose| - 1] != '\n' && !Contains(prose, SEPARATOR)
    requires j < |prose|
    ensures !OccursAt(prose + "\n\n" + ContractBlock(m), SEPARATOR, j)
  {
    hide ContractBlock;
    var s := prose + "\n\n" + ContractBlock(m);
    var at := |prose| - j;
    SeparatorShape();
    if j + |SEPARATOR| <= |prose| {
      SameWithinPrefix(prose, s, SEPARATOR, j);
      assert !OccursAt(prose, SEPARATOR, j);
    } else if j + |SEPARATOR| <= |s| {
      if at == 1 {
        assert s[j] == prose[|prose| - 1];
        Mismatch(s, SEPARATOR, j, 0);
      } else {
        assert s[j + at] == '\n';
        Mismatch(s, SEPARATOR, j, at);
      }
    }
  }

  lemma SeparatorShape()
    ensures SEPARATOR[0] == '\n' && SEPARATOR[1] == '\n'
    ensures forall i :: 2 <= i < |SEPARATOR| ==> SEPARATOR[i] != '\n'
  {
  }

  /** Prose written above a block is read back as it was. */
  lemma {:induction false} ProseSurvives(prose: string, m: Method)
    requires prose != "" && !PythonSpace(prose[|prose| - 1]) && !Contains(prose, SEPARATOR)
    ensures Prose(prose + "\n\n" + ContractBlock(m)) == prose
  {
    var s := prose + "\n\n" + ContractBlock(m);
    MergedOccurrence(prose, m);
    forall j: nat | j < |prose| ensures !OccursAt(s, SEPARATOR, j) { NoEarlierSeparator(prose, m, j); }
    IndexIs(s, SEPARATOR, |prose|);
    assert s[..|prose|] == prose;
  }

  // ---- idempotence --------------------------------------------------------

  /** Can a description for `m` be merged again without changing? */
  ghost predicate Anchored(existing: string, m: Method) {
    Prose(existing) != "" || (m.comment != "" && !Contains(m.comment, SEPARATOR))
  }

  lemma {:induction false} CutComment(comment: string, m: Method)
    requires Stripped(comment) && Contains(comment, SEPARATOR)
    ensures var again := Prose(comment + "\n\n" + ContractBlock(m));
            again == Prose(comment) && again != "" && |again| < |comment|
  {
    hide ContractBlock;
    var s := comment + "\n\n" + ContractBlock(m);
    var k := IndexOf(comment, SEPARATOR).value;
    SameWithinPrefix(comment, s, SEPARATOR, k);
    forall j: nat | j < k ensures !OccursAt(s, SEPARATOR, j) { SameWithinPrefix(comment, s, SEPARATOR, j); }
    IndexIs(s, SEPARATOR, k);
    assert comment[k..k + |SEPARATOR|][0] == SEPARATOR[0] == '\n';
    assert k > 0;
    assert s[..k] == comment[..k];
    assert s[..k][0] == comment[0];
  }

  /** Merging twice is merging once exactly when there is prose, or a comment without the separator. */
  lemma MergeDescriptionIsIdempotent(existing: string, m: Method)
    requires Stripped(m.comment)
    ensures var once := MergeDescription(existing, m);
            MergeDescription(once, m) == once <==> Anchored(existing, m)
  {
    hide ContractBlock;
    var once := MergeDescription(existing, m);
    if Prose(existing) != "" {
      ProseSurvives(Prose(existing), m);
    } else if m.comment == "" {
      var b := ContractBlock(m);
      assert Before(b, SEPARATOR) != "" by { BlockDoesNotStartWithSeparator(m); }
      assert Prose(b) != "" by { assert Before(b, SEPARATOR)[0] == b[0] == '*'; }
    } else if !Contains(m.comment, SEPARATOR) {
      ProseSurvives(m.comment, m);
    } else {
      CutComment(m.comment, m);
    }
  }

  lemma BlockDoesNotStartWithSeparator(m: Method)
    ensures !OccursAt(ContractBlock(m), SEPARATOR, 0)
    ensures ContractBlock(m)[0] == '*'
  {
    var b := ContractBlock(m);
    assert b[0] == b[..|MARKER|][0] == '*';
    if |SEPARATOR| <= |b| { Mismatch(b, SEPARATOR, 0, 0); }
  }

  /** With neither prose nor comment the block stands alone, is doubled by the next run, and then stays. */
  lemma BareBlockDoublesOnce(existing: string, m: Method)
    requires Prose(existing) == "" && m.comment == "" && !Contains(ContractBlock(m), SEPARATOR)
    ensures var b := ContractBlock(m);
            && MergeDescription(existing, m) == b
            && MergeDescription(b, m) == b + "\n\n" + b
            && MergeDescription(b + "\n\n" + b, m) == b + "\n\n" + b
  {
    var b := ContractBlock(m);
    assert Prose(b) == b;
    ProseSurvives(b, m);
  }

  // ---- any history of contract changes ------------------------------------

  /** The description after merging with each version of the contract in turn. */
  function MergeHistory(existing: string, versions: seq<Method>): string {
    if versions == [] then existing
    else MergeDescription(MergeHistory(existing, versions[..|versions| - 1]), versions[|versions| - 1])
  }

  /** The prose one merge leaves to be read by the next: what was there, or what the comment or the bare block reads as. */
  function KeptProse(existing: string, m: Method): string {
    if Prose(existing) != "" then Prose(existing)
    else if m.comment != "" then Prose(m.comment)
    else Prose(ContractBlock(m))
  }

  /** Whatever was there and whatever the comment, a merged description has prose to be read. */
  lemma {:induction false} KeptProseIsRead(existing: string, m: Method)
    requires Stripped(m.comment)
    ensures Prose(MergeDescription(existing, m)) == KeptProse(existing, m) != ""
  {
    hide ContractBlock;
    if Prose(existing) != "" {
      ProseSurvives(Prose(existing), m);
    } else if m.comment == "" {
      BareBlockIsProse(m);
    } else if Contains(m.comment, SEPARATOR) {
      CutComment(m.comment, m);
    } else {
      ProseSurvives(m.comment, m);
    }
  }

  lemma BareBlockIsProse(m: Method)
    ensures Prose(ContractBlock(m)) != ""
  {
    hide ContractBlock;
    var b := ContractBlock(m);
    BlockDoesNotStartWithSeparator(m);
    assert Before(b, SEPARATOR) != "";
    assert Before(b, SEPARATOR)[0] == b[0] == '*';
  }

  /** No description changes after its second merge, with prose or without. */
  lemma {:induction false} TwoMergesSettle(existing: string, m: Method)
    requires Stripped(m.comment)
    ensures var twice := MergeDescription(MergeDescription(existing, m), m); MergeDescription(twice, m) == twice
  {
    hide MergeDescription, Prose, KeptProse;
    KeptProseIsRead(existing, m);
    MergeDescriptionIsIdempotent(MergeDescription(existing, m), m);
  }

  /**
   * After two versions of the contract or more, for every starting text: the
   * prose the first merge left, and the last version's block alone.
   */
  lemma {:induction false} HistoryKeepsTheFirstProse(existing: string, versions: seq<Method>)
    requires |versions| >= 2 && Stripped(versions[0].comment)
    ensures MergeHistory(existing, versions)
         == KeptProse(existing, versions[0]) + "\n\n" + ContractBlock(versions[|versions| - 1])
  {
    hide Prose, ContractBlock, KeptProse;
    var earlier := versions[..|versions| - 1];
    KeptProseIsRead(existing, versions[0]);
    if |earlier| == 1 {
      assert MergeHistory(existing, earlier) == MergeDescription(existing, versions[0]) by {
        assert earlier[..0] == [];
        assert MergeHistory(existing, earlier[..0]) == existing;
      }
    } else {
      HistoryKeepsTheFirstProse(existing, earlier);
      hide MergeHistory;
      KeptProseEnds(existing, versions[0]);
      ProseSurvives(KeptProse(existing, versions[0]), earlier[|earlier| - 1]);
      assert MergeHistory(existing, versions) == MergeDescription(MergeHistory(existing, earlier), versions[|versions| - 1]) by {
        OneMoreVersion(existing, versions);
      }
    }
  }

  lemma OneMoreVersion(existing: string, versions: seq<Method>)
    requires versions != []
    ensures MergeHistory(existing, versions)
         == MergeDescription(MergeHistory(existing, versions[..|versions| - 1]), versions[|versions| - 1])
  {
  }

  lemma KeptProseEnds(existing: string, m: Method)
    requires KeptProse(existing, m) != ""
    ensures var p := KeptProse(existing, m); !PythonSpace(p[|p| - 1]) && !Contains(p, SEPARATOR)
  {
    hide Prose, ContractBlock;
  }

  lemma WithoutSeparator(comment: string)
    requires Stripped(comment)
    ensures !Contains(comment, SEPARATOR) ==> Prose(comment) == comment
  {
  }

  /** The prose promised: a person's, or the first comment. */
  function PromisedProse(existing: string, m: Method): string {
    if Prose(existing) != "" then Prose(existing) else m.comment
  }

  /**
   * The promised prose above the last block, through every history of two
   * versions or more, exactly when the first description was anchored.
   */
  lemma {:induction false} ProseSurvivesExactly(existing: string, versions: seq<Method>)
    requires |versions| >= 2 && Stripped(versions[0].comment)
    ensures MergeHistory(existing, versions)
              == PromisedProse(existing, versions[0]) + "\n\n" + ContractBlock(versions[|versions| - 1])
       <==> Anchored(existing, versions[0])
  {
    hide ContractBlock, MergeHistory, Before;
    HistoryKeepsTheFirstProse(existing, versions);
    KeptProseIsRead(existing, versions[0]);
    if Prose(existing) == "" && Contains(versions[0].comment, SEPARATOR) { CutComment(versions[0].comment, versions[0]); }
    WithoutSeparator(versions[0].comment);
    hide Prose;
  }

  /** Without prose or comment the first version's block is frozen as prose, under every later contract. */
  lemma {:induction false} StaleBlockIsFrozen(existing: string, first: Method, later: seq<Method>)
    requires Prose(existing) == "" && first.comment == "" && !Contains(ContractBlock(first), SEPARATOR)
    requires later != []
    ensures MergeHistory(existing, [first] + later)
         == ContractBlock(first) + "\n\n" + ContractBlock(later[|later| - 1])
  {
    hide ContractBlock, MergeHistory;
    HistoryKeepsTheFirstProse(existing, [first] + later);
    assert RightStrip(ContractBlock(first)) == ContractBlock(first) by { BlockDoesNotEndInSpace(first); }
  }

  /** A comment that contains the separator loses all from there on at the second merge. */
  lemma {:induction false} CommentIsCutAtTheSeparator(existing: string, first: Method, later: seq<Method>)
    requires Prose(existing) == "" && Stripped(first.comment) && Contains(first.comment, SEPARATOR)
    requires later != []
    ensures MergeHistory(existing, [first] + later)
         == RightStrip(Before(first.comment, SEPARATOR)) + "\n\n" + ContractBlock(later[|later| - 1])
    ensures |RightStrip(Before(first.comment, SEPARATOR))| < |first.comment|
  {
    hide ContractBlock, MergeHistory;
    HistoryKeepsTheFirstProse(existing, [first] + later);
    CutComment(first.comment, first);
  }

  lemma BlockDoesNotEndInSpace(m: Method)
    ensures ContractBlock(m) != "" && !PythonSpace(ContractBlock(m)[|ContractBlock(m)| - 1])
  {
  }

  // ---- blocks without a separator -----------------------------------------

  /** A method none of whose facts has a line break in it. */
  predicate OneLineFacts(m: Method) {
    '\n' !in m.Procedure() && '\n' !in m.protoFile && '\n' !in m.scope && '\n' !in m.binding
  }

  lemma NoSeparatorWithoutLineBreak(s: string)
    requires '\n' !in s
    ensures !Contains(s, SEPARATOR)
  {
    forall i: nat | i + |SEPARATOR| <= |s| ensures !OccursAt(s, SEPARATOR, i) { Mismatch(s, SEPARATOR, i, 0); }
  }

  lemma BlockHasNoSeparator(m: Method)
    requires OneLineFacts(m)
    ensures !Contains(ContractBlock(m), SEPARATOR)
  {
    NoSeparatorWithoutLineBreak(ContractBlock(m));
  }

  /** An RPC nobody wrote a comment for. */
  function Undocumented(): Method {
    Method("kindlast.core.v1", "OrgService", "GetOrg", "proto/org.proto", "org:read", "", "")
  }

  /** Its request, when it has no description: the bare block is doubled. */
  lemma {:induction false} UndocumentedMethodIsDoubled()
    ensures var m := Undocumented();
            MergeDescription(MergeDescription("", m), m) == ContractBlock(m) + "\n\n" + ContractBlock(m)
  {
    var m := Undocumented();
    assert OneLineFacts(m);
    assert Prose("") == "";
    hide ContractBlock, MergeDescription, Prose, OneLineFacts;
    BlockHasNoSeparator(m);
    BareBlockDoublesOnce("", m);
  }

  lemma {:induction false} ProseSurvivesHistory(existing: string, versions: seq<Method>)
    requires versions != [] && Stripped(versions[0].comment) && Anchored(existing, versions[0])
    ensures MergeHistory(existing, versions)
         == (if Prose(existing) != "" then Prose(existing) else versions[0].comment)
            + "\n\n" + ContractBlock(versions[|versions| - 1])
  {
    hide Prose, ContractBlock;
    var prose := if Prose(existing) != "" then Prose(existing) else versions[0].comment;
    var earlier, last := versions[..|versions| - 1], versions[|versions| - 1];
    if earlier == [] {
      assert MergeHistory(existing, earlier) == existing;
    } else {
      ProseSurvivesHistory(existing, earlier);
      ProseSurvives(prose, earlier[|earlier| - 1]);
    }
  }
}
