/** What a run leaves alone in the text of the file: everything around the list of its own folder. */
module Surroundings {
  import opened JsonTree
  import opened JsonFidelity
  import opened Contract
  import opened JsonHole
  import opened Requests
  import opened Merging
  import opened Regenerate

  /** The list of requests, as a value of the folder. */
  function FolderList(root: Node): (list: Node)
    requires FolderItems(root).Some?
    ensures list.Array? && list.items == FolderItems(root).value
  {
    Field(Entries(root).value[FolderIndex(root).value], "item").value
  }

  /** The text around the list of an object does not depend on what the list holds. */
  lemma {:induction false} EntriesHole(t: Node, items: seq<Node>, p: Place) returns (a: string, b: string, q: Place)
    requires Entries(t).Some? && FromFile(t)
    ensures Rendered(t, p) == a + Rendered(Field(t, "item").value, q) + b
    ensures Rendered(WithEntries(t, items), p) == a + Rendered(Field(t, "item").value.(items := items), q) + b
  {
    hide Rendered, Put, Get;
    GetIsMembership(t.members, "item");
    var v := Field(t, "item").value.(items := items);
    var i := PutAt(t.members, "item", v);
    a, b, q := ObjectHole(t, i, v, p);
  }

  lemma GetIsFromFile(t: Node)
    requires Entries(t).Some? && FromFile(t)
    ensures FromFile(Field(t, "item").value)
  {
    hide Put, Get;
    GetIsMembership(t.members, "item");
    var i := PutAt(t.members, "item", Null);
  }

  /** The two prints of a root that differ in the list of its own folder. */
  lemma {:induction false} FolderHole(root: Node, items: seq<Node>) returns (a: string, b: string, place: Place)
    requires FolderItems(root).Some? && FromFile(root)
    ensures Rendered(root, At(0, 0)) == a + Rendered(FolderList(root), place) + b
    ensures Rendered(WithFolderItems(root, items), At(0, 0)) == a + Rendered(FolderList(root).(items := items), place) + b
  {
    hide Rendered, FromFile, Entries, WithEntries;
    var k, entries := FolderIndex(root).value, Entries(root).value;
    ListOfEntries(root);
    var list, folder := Field(root, "item").value, entries[k];
    var changed := WithEntries(folder, items);
    GetIsFromFile(root);
    ItemIsFromFile(list, k);
    var a0, b0, p0 := EntriesHole(root, entries[k := changed], At(0, 0));
    var a1, b1, p1 := ArrayHole(list, k, changed, p0);
    var a2, b2, p2 := EntriesHole(folder, items, p1);
    Nested(a1, Rendered(folder, p1), b1, a2, Rendered(FolderList(root), p2), b2);
    Nested(a1, Rendered(changed, p1), b1, a2, Rendered(FolderList(root).(items := items), p2), b2);
    a, b, place := a0 + (a1 + a2), b2 + b1 + b0, p2;
    Nested(a0, Rendered(list, p0), b0, a1 + a2, Rendered(FolderList(root), p2), b2 + b1);
    Nested(a0, Rendered(list.(items := entries[k := changed]), p0), b0,
           a1 + a2, Rendered(FolderList(root).(items := items), p2), b2 + b1);
  }

  lemma ListOfEntries(t: Node)
    requires Entries(t).Some?
    ensures Field(t, "item").Some? && Field(t, "item").value.Array? && Field(t, "item").value.items == Entries(t).value
  {
  }

  lemma ItemIsFromFile(t: Node, i: nat)
    requires t.Array? && FromFile(t) && i < |t.items|
    ensures !t.layout.ByWidth? && FromFile(t.items[i])
  {
  }

  /**
   * The file as it would be laid out, and the file as the run writes it, are
   * one text around the list of the folder, white space included. For a tidy
   * file the first is the file itself.
   */
  lemma {:induction false} NothingOutsideTheFolderMovesInTheText(file: string, methods: seq<Method>)
    returns (before: string, after: string, place: Place)
    requires Usable(file, methods)
    ensures var list := FolderList(Tree(file));
            && WriteDocument(Tree(file)) == before + Rendered(list, place) + after
            && Rewritten(file, methods)
                 == before + Rendered(list.(items := MergedItems(list.items, methods)), place) + after
            && (Tidy(file) ==> file == before + Rendered(list, place) + after)
  {
    hide ReadValue, Mergeable, FromFile, FolderItems, WithFolderItems, Print, CheckValue, MergedItems;
    var root := Tree(file);
    ReadIsFromFile(file);
    MergedIs(root, methods);
    var items := MergedItems(FolderItems(root).value, methods);
    var b;
    before, b, place := FolderHole(root, items);
    after := b + "\n";
    LastLineBreak(before, Rendered(FolderList(root), place), b);
    LastLineBreak(before, Rendered(FolderList(root).(items := items), place), b);
    FaithfulExactlyOnTidyText(file);
  }

  lemma LastLineBreak(a: string, x: string, b: string)
    ensures a + x + b + "\n" == a + x + (b + "\n")
  {
  }
}
