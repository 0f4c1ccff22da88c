/**
 * Flattening the loaded, expanded folders into the rows of the sidebar tree
 * (live/src/lib/tree-rows.ts, `flattenTree`).
 */
module TreeRows {
  import opened Wrappers
  import opened Sorting

  datatype LsEntry = LsEntry(name: string, isDir: bool)

  type Listing = seq<LsEntry>

  datatype Row =
    | EntryRow(path: string, parentPath: string, entry: LsEntry, depth: nat, isDir: bool, expanded: bool)
    | EmptyRow(path: string, depth: nat)

  /** What a flattening looks at: the expanded folders, the loaded listings, and the collation order of names. */
  datatype Tree = Tree(expanded: set<string>, getListing: string -> Option<Listing>, collation: string -> real)

  // --- Sorting a listing --------------------------------------------------------------

  /** Folders first, then by name. */
  predicate ShownBefore(collation: string -> real, a: LsEntry, b: LsEntry) {
    if a.isDir != b.isDir then a.isDir else collation(a.name) <= collation(b.name)
  }

  function SortedEntries(tree: Tree, listing: Listing): Listing {
    Sort(listing, (a: LsEntry, b: LsEntry) => ShownBefore(tree.collation, a, b))
  }

  // --- Paths -----------------------------------------------------------------------------

  function Join(parent: string, name: string): string {
    if parent == "" then name else parent + "/" + name
  }

  /** `x` is strictly inside the folder `p`. */
  predicate Under(x: string, p: string) {
    p + "/" <= x
  }

  function Slashes(s: string): nat {
    if s == "" then 0 else (if s[0] == '/' then 1 else 0) + Slashes(s[1..])
  }

  lemma {:induction false} SlashesConcat(s: string, t: string)
    ensures Slashes(s + t) == Slashes(s) + Slashes(t)
  {
    if s == "" {
      assert s + t == t;
    } else {
      assert (s + t)[1..] == s[1..] + t;
      SlashesConcat(s[1..], t);
    }
  }

  lemma {:induction false} NoSlashes(s: string)
    requires '/' !in s
    ensures Slashes(s) == 0
  {
    if s != "" {
      NoSlashes(s[1..]);
    }
  }

  /** The depth of what is directly in a folder. */
  function DepthIn(parent: string): nat {
    if parent == "" then 0 else Slashes(parent) + 1
  }

  lemma JoinSlashes(parent: string, name: string)
    requires '/' !in name
    ensures Slashes(Join(parent, name)) == DepthIn(parent)
  {
    NoSlashes(name);
    SlashesConcat(parent + "/", name);
    SlashesConcat(parent, "/");
    assert Slashes("/") == 1;
  }

  predicate NameOk(name: string) {
    name != "" && '/' !in name
  }

  ghost predicate ListingOk(listing: Listing) {
    && (forall e | e in listing :: NameOk(e.name))
    && (forall i, j | 0 <= i < j < |listing| :: listing[i].name != listing[j].name)
  }

  ghost predicate TreeOk(tree: Tree) {
    forall path :: tree.getListing(path).Some? ==> ListingOk(tree.getListing(path).value)
  }

  // --- Flattening ----------------------------------------------------------------------------

  /** The expanded folders that can still come up below `parent`. */
  function Deeper(tree: Tree, parent: string): set<string> {
    set p | p in tree.expanded && |p| > |parent|
  }

  lemma DeeperShrinks(tree: Tree, parent: string, path: string)
    requires path in tree.expanded && |path| > |parent|
    ensures |Deeper(tree, path)| < |Deeper(tree, parent)|
  {
    assert path in Deeper(tree, parent) - Deeper(tree, path);
    assert Deeper(tree, path) < Deeper(tree, parent);
    SubsetSmaller(Deeper(tree, path), Deeper(tree, parent));
  }

  lemma SubsetSmaller(a: set<string>, b: set<string>)
    requires a < b
    ensures |a| < |b|
  {
    assert |b - a| > 0 by {
      var x :| x in b && x !in a;
      assert x in b - a;
    }
    assert b == a + (b - a);
  }

  predicate IsExpanded(tree: Tree, path: string, e: LsEntry) {
    e.isDir && path in tree.expanded
  }

  function RowFor(tree: Tree, parent: string, e: LsEntry): Row {
    var path := Join(parent, e.name);
    EntryRow(path, parent, e, DepthIn(parent), e.isDir, IsExpanded(tree, path, e))
  }

  /** The rows below one entry. */
  ghost function ChildRows(tree: Tree, parent: string, e: LsEntry): seq<Row>
    requires TreeOk(tree) && NameOk(e.name)
    decreases |Deeper(tree, parent)|, 0, 0
  {
    var path := Join(parent, e.name);
    if !IsExpanded(tree, path, e) || tree.getListing(path).None? then []
    else
      var children := tree.getListing(path).value;
      if children == [] then [EmptyRow(path + "/", DepthIn(parent) + 1)]
      else
        DeeperShrinks(tree, parent, path);
        SortedOk(tree, children);
        RowsOf(tree, path, SortedEntries(tree, children))
  }

  /** The rows of a listing, in pre-order. */
  ghost function RowsOf(tree: Tree, parent: string, entries: Listing): seq<Row>
    requires TreeOk(tree) && ListingOk(entries)
    decreases |Deeper(tree, parent)|, 1, |entries|
  {
    if entries == [] then []
    else [RowFor(tree, parent, entries[0])] + ChildRows(tree, parent, entries[0]) + RowsOf(tree, parent, entries[1..])
  }

  /** The rows of one entry: its own, then those below it. */
  ghost function EntryRows(tree: Tree, parent: string, e: LsEntry): seq<Row>
    requires TreeOk(tree) && NameOk(e.name)
  {
    [RowFor(tree, parent, e)] + ChildRows(tree, parent, e)
  }

  lemma RowsOfNext(tree: Tree, parent: string, entries: Listing)
    requires TreeOk(tree) && ListingOk(entries) && entries != []
    ensures ListingOk(entries[1..])
    ensures RowsOf(tree, parent, entries) == EntryRows(tree, parent, entries[0]) + RowsOf(tree, parent, entries[1..])
  {
  }

  /** Sorting keeps a listing well formed and complete. */
  lemma SortedOk(tree: Tree, listing: Listing)
    requires ListingOk(listing)
    ensures ListingOk(SortedEntries(tree, listing))
    ensures forall e :: e in SortedEntries(tree, listing) <==> e in listing
  {
    var sorted := SortedEntries(tree, listing);
    forall e ensures e in sorted <==> e in listing {
      SameElements(listing, sorted, e);
    }
    forall i, j | 0 <= i < j < |sorted| ensures sorted[i].name != sorted[j].name {
      NameOnce(listing, sorted[i]);
      if sorted[i] == sorted[j] {
        CountedTwice(sorted, i, j);
      }
    }
  }

  lemma {:induction false} NameOnce(listing: Listing, e: LsEntry)
    requires ListingOk(listing) && e in listing
    ensures multiset(listing)[e] == 1
    ensures forall x | x in listing && x != e :: x.name != e.name
  {
    assert listing == [listing[0]] + listing[1..];
    forall x | x in listing && x != e ensures x.name != e.name {
      var i :| 0 <= i < |listing| && listing[i] == x;
      var j :| 0 <= j < |listing| && listing[j] == e;
      assert i < j || j < i;
    }
    if listing[0] == e {
      assert e !in listing[1..];
    } else {
      NameOnce(listing[1..], e);
    }
  }

  /** The sorted listing shows folders first, then names in collation order. */
  lemma SortedOrder(tree: Tree, listing: Listing)
    ensures Sorted(SortedEntries(tree, listing), (a: LsEntry, b: LsEntry) => ShownBefore(tree.collation, a, b))
  {
    SortSorts(listing, (a: LsEntry, b: LsEntry) => ShownBefore(tree.collation, a, b));
  }

  function ExpandedPaths(rows: seq<Row>): seq<string> {
    if rows == [] then []
    else (if rows[0].EntryRow? && rows[0].expanded then [rows[0].path] else []) + ExpandedPaths(rows[1..])
  }

  lemma {:induction false} ExpandedConcat(a: seq<Row>, b: seq<Row>)
    ensures ExpandedPaths(a + b) == ExpandedPaths(a) + ExpandedPaths(b)
  {
    if a == [] {
      assert a + b == b;
    } else {
      assert (a + b)[1..] == a[1..] + b;
      ExpandedConcat(a[1..], b);
    }
  }

  lemma EntryParts(tree: Tree, parent: string, e: LsEntry)
    requires TreeOk(tree) && NameOk(e.name)
    ensures var path := Join(parent, e.name);
            if IsExpanded(tree, path, e)
            then ExpandedPaths(EntryRows(tree, parent, e)) == [path] + ExpandedPaths(ChildRows(tree, parent, e))
            else EntryRows(tree, parent, e) == [RowFor(tree, parent, e)] && ExpandedPaths(EntryRows(tree, parent, e)) == []
  {
    var row := [RowFor(tree, parent, e)];
    ExpandedConcat(row, ChildRows(tree, parent, e));
    assert row[1..] == [];
    assert row + [] == row;
  }

  /** The two lists that the visit pushes onto. */
  class FlatTree {
    var rows: seq<Row>
    var expandedDirs: seq<string>

    constructor ()
      ensures rows == [] && expandedDirs == []
    {
      rows, expandedDirs := [], [];
    }

    method Visit(tree: Tree, parentPath: string, listing: Listing, depth: nat)
      requires TreeOk(tree) && ListingOk(listing) && depth == DepthIn(parentPath)
      modifies this
      decreases |Deeper(tree, parentPath)|, 2
      ensures ListingOk(SortedEntries(tree, listing))
      ensures rows == old(rows) + RowsOf(tree, parentPath, SortedEntries(tree, listing))
      ensures expandedDirs == old(expandedDirs) + ExpandedPaths(RowsOf(tree, parentPath, SortedEntries(tree, listing)))
    {
      SortedOk(tree, listing);
      var entries := SortedEntries(tree, listing);
      ghost var all, shown := RowsOf(tree, parentPath, entries), [];
      assert entries[0..] == entries;
      for i := 0 to |entries|
        invariant ListingOk(entries[i..])
        invariant shown + RowsOf(tree, parentPath, entries[i..]) == all
        invariant rows == old(rows) + shown && expandedDirs == old(expandedDirs) + ExpandedPaths(shown)
      {
        ghost var added := EntryRows(tree, parentPath, entries[i]);
        RowsOfNext(tree, parentPath, entries[i..]);
        assert entries[i..][1..] == entries[i + 1..];
        VisitEntry(tree, parentPath, entries[i], depth);
        ExpandedConcat(shown, added);
        Regroup(shown, added, RowsOf(tree, parentPath, entries[i + 1..]));
        Regroup(old(rows), shown, added);
        Regroup(old(expandedDirs), ExpandedPaths(shown), ExpandedPaths(added));
        shown := shown + added;
      }
      assert entries[|entries|..] == [] && shown + [] == shown;
    }

    method VisitEntry(tree: Tree, parentPath: string, entry: LsEntry, depth: nat)
      requires TreeOk(tree) && NameOk(entry.name) && depth == DepthIn(parentPath)
      modifies this
      decreases |Deeper(tree, parentPath)|, 1
      ensures rows == old(rows) + EntryRows(tree, parentPath, entry)
      ensures expandedDirs == old(expandedDirs) + ExpandedPaths(EntryRows(tree, parentPath, entry))
    {
      var path := if parentPath != "" then parentPath + "/" + entry.name else entry.name;
      var isExpanded := entry.isDir && path in tree.expanded;
      EntryParts(tree, parentPath, entry);
      rows := rows + [EntryRow(path, parentPath, entry, depth, entry.isDir, isExpanded)];
      if isExpanded {
        expandedDirs := expandedDirs + [path];
        VisitChildren(tree, parentPath, entry, path, depth);
        ghost var below := ChildRows(tree, parentPath, entry);
        Regroup(old(rows), [RowFor(tree, parentPath, entry)], below);
        Regroup(old(expandedDirs), [path], ExpandedPaths(below));
      }
    }

    /** The listing of an expanded folder, if it is loaded. */
    method VisitChildren(tree: Tree, ghost parentPath: string, ghost entry: LsEntry, path: string, depth: nat)
      requires TreeOk(tree) && NameOk(entry.name) && depth == DepthIn(parentPath)
      requires path == Join(parentPath, entry.name) && IsExpanded(tree, path, entry)
      modifies this
      decreases |Deeper(tree, parentPath)|, 0
      ensures rows == old(rows) + ChildRows(tree, parentPath, entry)
      ensures expandedDirs == old(expandedDirs) + ExpandedPaths(ChildRows(tree, parentPath, entry))
    {
      var children := tree.getListing(path);
      if children.None? {
        return;
      }
      if children.value == [] {
        rows := rows + [EmptyRow(path + "/", depth + 1)];
        assert [EmptyRow(path + "/", depth + 1)][1..] == [];
      } else {
        DeeperShrinks(tree, parentPath, path);
        JoinSlashes(parentPath, entry.name);
        Visit(tree, path, children.value, depth + 1);
      }
    }
  }

  /** Flattening from the root listing. */
  method FlattenTree(tree: Tree, root: Listing) returns (rows: seq<Row>, expandedDirs: seq<string>)
    requires TreeOk(tree) && ListingOk(root)
    ensures ListingOk(SortedEntries(tree, root))
    ensures rows == RowsOf(tree, "", SortedEntries(tree, root))
    ensures expandedDirs == ExpandedPaths(rows)
  {
    var flat := new FlatTree();
    flat.Visit(tree, "", root, 0);
    rows, expandedDirs := flat.rows, flat.expandedDirs;
  }

  // --- Where rows are ---------------------------------------------------------------------------

  /** `x` is the path of the entry `name` of `parent`, or strictly inside it. */
  predicate Within(x: string, parent: string, name: string) {
    x == Join(parent, name) || Under(x, Join(parent, name))
  }

  /** A path lies within one entry of a folder at most. */
  lemma WithinOne(x: string, parent: string, a: string, b: string)
    requires NameOk(a) && NameOk(b) && Within(x, parent, a) && Within(x, parent, b)
    ensures a == b
  {
    if |a| <= |b| {
      WithinShorter(x, parent, a, b);
    } else {
      WithinShorter(x, parent, b, a);
    }
  }

  lemma WithinShorter(x: string, parent: string, a: string, b: string)
    requires NameOk(a) && NameOk(b) && Within(x, parent, a) && Within(x, parent, b) && |a| <= |b|
    ensures a == b
  {
    if |a| < |b| {
      LongerHasSlash(x, parent, a, b);
    } else {
      SamePlace(x, parent, a, b);
    }
  }

  lemma SamePlace(x: string, parent: string, a: string, b: string)
    requires Within(x, parent, a) && Within(x, parent, b) && |a| == |b|
    ensures a == b
  {
    var p, q := Join(parent, a), Join(parent, b);
    assert p == x[..|p|] == q;
    assert a == p[|p| - |a|..] && b == q[|q| - |b|..];
  }

  lemma LongerHasSlash(x: string, parent: string, a: string, b: string)
    requires Within(x, parent, a) && Within(x, parent, b) && |a| < |b|
    ensures '/' in b
  {
    var p, q := Join(parent, a), Join(parent, b);
    assert q == x[..|q|];
    assert p + "/" <= x;
    assert (p + "/")[|p|] == '/';
    assert b == q[|q| - |b|..];
    assert b[|a|] == q[|p|] == x[|p|] == '/';
  }

  lemma {:induction false} ChildrenUnder(tree: Tree, parent: string, e: LsEntry, r: Row)
    requires TreeOk(tree) && NameOk(e.name) && r in ChildRows(tree, parent, e)
    ensures Under(r.path, Join(parent, e.name)) && r.depth == Slashes(r.path)
    decreases |Deeper(tree, parent)|, 0, 0
  {
    var path := Join(parent, e.name);
    var children := tree.getListing(path).value;
    if children == [] {
      JoinSlashes(parent, e.name);
      MarkerSlashes(path);
    } else {
      DeeperShrinks(tree, parent, path);
      SortedOk(tree, children);
      var c := RowsWithin(tree, path, SortedEntries(tree, children), r);
      InsideIsUnder(r.path, path, c.name);
    }
  }

  lemma MarkerSlashes(path: string)
    ensures Slashes(path + "/") == Slashes(path) + 1
  {
    SlashesConcat(path, "/");
    assert Slashes("/") == 1;
  }

  lemma InsideIsUnder(x: string, path: string, name: string)
    requires path != "" && Within(x, path, name)
    ensures Under(x, path)
  {
    assert path + "/" <= Join(path, name);
  }

  /** Each row is one of the listed entries or inside one, and its depth is the number of slashes in its path. */
  lemma {:induction false} RowsWithin(tree: Tree, parent: string, entries: Listing, r: Row) returns (e: LsEntry)
    requires TreeOk(tree) && ListingOk(entries) && r in RowsOf(tree, parent, entries)
    ensures e in entries && Within(r.path, parent, e.name) && r.depth == Slashes(r.path)
    decreases |Deeper(tree, parent)|, 1, |entries|
  {
    e := entries[0];
    if r == RowFor(tree, parent, e) {
      JoinSlashes(parent, e.name);
    } else if r in ChildRows(tree, parent, e) {
      ChildrenUnder(tree, parent, e, r);
    } else {
      e := RowsWithin(tree, parent, entries[1..], r);
    }
  }

  /** Rows of one entry and rows of the later ones keep apart. */
  lemma {:induction false} EntriesApart(tree: Tree, parent: string, entries: Listing, r: Row, later: Row)
    requires TreeOk(tree) && ListingOk(entries) && entries != []
    requires r in EntryRows(tree, parent, entries[0]) && later in RowsOf(tree, parent, entries[1..])
    ensures r.path != later.path && !Under(r.path, later.path) && !Under(later.path, r.path)
  {
    var first := entries[0];
    if r in ChildRows(tree, parent, first) {
      ChildrenUnder(tree, parent, first, r);
    }
    assert Within(r.path, parent, first.name);
    var e := RowsWithin(tree, parent, entries[1..], later);
    var j :| 0 <= j < |entries[1..]| && entries[1..][j] == e;
    assert first.name != entries[j + 1].name;
    KeepApart(r.path, later.path, parent, first.name, e.name);
  }

  lemma KeepApart(x: string, y: string, parent: string, a: string, b: string)
    requires NameOk(a) && NameOk(b) && a != b && Within(x, parent, a) && Within(y, parent, b)
    ensures x != y && !Under(x, y) && !Under(y, x)
  {
    if Within(x, parent, b) || Within(y, parent, a) {
      if Within(x, parent, b) {
        WithinOne(x, parent, a, b);
      } else {
        WithinOne(y, parent, a, b);
      }
    }
    if Under(x, y) {
      UnderWithin(x, y, parent, b);
    }
    if Under(y, x) {
      UnderWithin(y, x, parent, a);
    }
  }

  lemma UnderWithin(x: string, y: string, parent: string, name: string)
    requires Under(x, y) && Within(y, parent, name)
    ensures Within(x, parent, name)
  {
    var p := Join(parent, name);
    if y != p {
      assert (p + "/") == y[..|p| + 1] == x[..|p| + 1];
    }
  }

  // --- The theorems ---------------------------------------------------------------------------------

  /** Depth equals the number of slashes in the path, for every row. */
  lemma DepthIsSlashes(tree: Tree, root: Listing, r: Row)
    requires TreeOk(tree) && ListingOk(root)
    requires ListingOk(SortedEntries(tree, root)) && r in RowsOf(tree, "", SortedEntries(tree, root))
    ensures r.depth == Slashes(r.path)
  {
    var _ := RowsWithin(tree, "", SortedEntries(tree, root), r);
  }

  ghost predicate DistinctPaths(rows: seq<Row>) {
    forall i, j | 0 <= i < j < |rows| :: rows[i].path != rows[j].path
  }

  /** Row keys are distinct. */
  lemma {:induction false} RowKeysDistinct(tree: Tree, parent: string, entries: Listing)
    requires TreeOk(tree) && ListingOk(entries)
    ensures DistinctPaths(RowsOf(tree, parent, entries))
    decreases |Deeper(tree, parent)|, 1, |entries|
  {
    if entries != [] {
      var e, rest := entries[0], RowsOf(tree, parent, entries[1..]);
      var first := EntryRows(tree, parent, e);
      RowsOfNext(tree, parent, entries);
      RowKeysDistinct(tree, parent, entries[1..]);
      EntryKeysDistinct(tree, parent, e);
      forall i, j | 0 <= i < |first| && 0 <= j < |rest| ensures first[i].path != rest[j].path {
        EntriesApart(tree, parent, entries, first[i], rest[j]);
      }
      ConcatDistinct(first, rest);
    }
  }

  lemma ConcatDistinct(a: seq<Row>, b: seq<Row>)
    requires DistinctPaths(a) && DistinctPaths(b)
    requires forall i, j | 0 <= i < |a| && 0 <= j < |b| :: a[i].path != b[j].path
    ensures DistinctPaths(a + b)
  {
  }

  lemma {:induction false} EntryKeysDistinct(tree: Tree, parent: string, e: LsEntry)
    requires TreeOk(tree) && NameOk(e.name)
    ensures DistinctPaths(EntryRows(tree, parent, e))
    decreases |Deeper(tree, parent)|, 0, 0
  {
    var path := Join(parent, e.name);
    var row, below := [RowFor(tree, parent, e)], ChildRows(tree, parent, e);
    forall j | 0 <= j < |below| ensures row[0].path != below[j].path {
      ChildrenUnder(tree, parent, e, below[j]);
    }
    if IsExpanded(tree, path, e) && tree.getListing(path).Some? && tree.getListing(path).value != [] {
      DeeperShrinks(tree, parent, path);
      SortedOk(tree, tree.getListing(path).value);
      RowKeysDistinct(tree, path, SortedEntries(tree, tree.getListing(path).value));
    }
    ConcatDistinct(row, below);
  }

  /** The rows strictly inside the entry of row `i` are exactly the `n` rows right after it. */
  ghost predicate Block(rows: seq<Row>, i: nat, n: nat) {
    && i + n < |rows|
    && forall j | 0 <= j < |rows| :: Under(rows[j].path, rows[i].path) <==> i < j <= i + n
  }

  /** Each subtree is one contiguous block right after its row. */
  lemma {:induction false} SubtreeIsBlock(tree: Tree, parent: string, entries: Listing, i: nat) returns (n: nat)
    requires TreeOk(tree) && ListingOk(entries)
    requires i < |RowsOf(tree, parent, entries)| && RowsOf(tree, parent, entries)[i].EntryRow?
    ensures Block(RowsOf(tree, parent, entries), i, n)
    decreases |Deeper(tree, parent)|, 1, |entries|
  {
    var e, rest := entries[0], RowsOf(tree, parent, entries[1..]);
    var first := EntryRows(tree, parent, e);
    RowsOfNext(tree, parent, entries);
    forall j, k | 0 <= j < |first| && 0 <= k < |rest|
      ensures !Under(first[j].path, rest[k].path) && !Under(rest[k].path, first[j].path)
    {
      EntriesApart(tree, parent, entries, first[j], rest[k]);
    }
    if i < |first| {
      n := EntryBlock(tree, parent, e, i);
      BlockLeft(first, rest, i, n);
    } else {
      n := SubtreeIsBlock(tree, parent, entries[1..], i - |first|);
      BlockRight(first, rest, i - |first|, n);
    }
  }

  lemma BlockLeft(a: seq<Row>, b: seq<Row>, i: nat, n: nat)
    requires Block(a, i, n)
    requires forall j, k | 0 <= j < |a| && 0 <= k < |b| :: !Under(b[k].path, a[j].path)
    ensures Block(a + b, i, n)
  {
  }

  lemma BlockRight(a: seq<Row>, b: seq<Row>, i: nat, n: nat)
    requires Block(b, i, n)
    requires forall j, k | 0 <= j < |a| && 0 <= k < |b| :: !Under(a[j].path, b[k].path)
    ensures Block(a + b, |a| + i, n)
  {
    var rows := a + b;
    assert rows[|a| + i] == b[i];
    forall j | 0 <= j < |rows| ensures Under(rows[j].path, rows[|a| + i].path) <==> |a| + i < j <= |a| + i + n {
      if j >= |a| {
        assert rows[j] == b[j - |a|];
      }
    }
  }

  lemma {:induction false} EntryBlock(tree: Tree, parent: string, e: LsEntry, i: nat) returns (n: nat)
    requires TreeOk(tree) && NameOk(e.name)
    requires i < |EntryRows(tree, parent, e)| && EntryRows(tree, parent, e)[i].EntryRow?
    ensures Block(EntryRows(tree, parent, e), i, n)
    decreases |Deeper(tree, parent)|, 1, 0
  {
    var row, below := [RowFor(tree, parent, e)], ChildRows(tree, parent, e);
    forall j | 0 <= j < |below|
      ensures Under(below[j].path, row[0].path) && !Under(row[0].path, below[j].path)
    {
      ChildrenUnder(tree, parent, e, below[j]);
    }
    if i == 0 {
      n := |below|;
      BlockHead(row, below);
    } else {
      n := ChildBlock(tree, parent, e, i - 1);
      BlockRight(row, below, i - 1, n);
    }
  }

  lemma BlockHead(row: seq<Row>, below: seq<Row>)
    requires |row| == 1
    requires forall j | 0 <= j < |below| :: Under(below[j].path, row[0].path)
    ensures Block(row + below, 0, |below|)
  {
    var rows := row + below;
    forall j | 0 <= j < |rows| ensures Under(rows[j].path, rows[0].path) <==> 0 < j <= |below| {
      if j > 0 {
        assert rows[j] == below[j - 1];
      }
    }
  }

  lemma {:induction false} ChildBlock(tree: Tree, parent: string, e: LsEntry, i: nat) returns (n: nat)
    requires TreeOk(tree) && NameOk(e.name)
    requires i < |ChildRows(tree, parent, e)| && ChildRows(tree, parent, e)[i].EntryRow?
    ensures Block(ChildRows(tree, parent, e), i, n)
    decreases |Deeper(tree, parent)|, 0, 0
  {
    var path := Join(parent, e.name);
    var children := tree.getListing(path).value;
    DeeperShrinks(tree, parent, path);
    SortedOk(tree, children);
    n := SubtreeIsBlock(tree, path, SortedEntries(tree, children), i);
  }

  // --- What is shown ------------------------------------------------------------------------------------

  /** The row of an entry listed directly in a folder. */
  lemma {:induction false} ListedShown(tree: Tree, parent: string, entries: Listing, e: LsEntry)
    requires TreeOk(tree) && ListingOk(entries) && e in entries
    ensures RowFor(tree, parent, e) in RowsOf(tree, parent, entries)
    ensures forall r | r in ChildRows(tree, parent, e) :: r in RowsOf(tree, parent, entries)
  {
    if e != entries[0] {
      ListedShown(tree, parent, entries[1..], e);
    }
  }

  /** Every entry of a shown, expanded and loaded folder is shown, one level down. */
  lemma {:induction false} ChildrenShown(tree: Tree, parent: string, entries: Listing, r: Row, child: LsEntry)
    requires TreeOk(tree) && ListingOk(entries) && r in RowsOf(tree, parent, entries)
    requires r.EntryRow? && r.expanded && tree.getListing(r.path).Some? && child in tree.getListing(r.path).value
    ensures RowFor(tree, r.path, child) in RowsOf(tree, parent, entries)
    decreases |Deeper(tree, parent)|, |entries|
  {
    var e := entries[0];
    if r == RowFor(tree, parent, e) {
      var children := tree.getListing(r.path).value;
      SortedOk(tree, children);
      ListedShown(tree, r.path, SortedEntries(tree, children), child);
    } else if r in ChildRows(tree, parent, e) {
      var path := Join(parent, e.name);
      DeeperShrinks(tree, parent, path);
      SortedOk(tree, tree.getListing(path).value);
      ChildrenShown(tree, path, SortedEntries(tree, tree.getListing(path).value), r, child);
    } else {
      ChildrenShown(tree, parent, entries[1..], r, child);
    }
  }

  /** Nothing else is: a shown entry is in the listing it was reached from, whose folder is shown and expanded. */
  lemma {:induction false} ShownFromListing(tree: Tree, parent: string, entries: Listing, r: Row)
    requires TreeOk(tree) && ListingOk(entries) && r in RowsOf(tree, parent, entries) && r.EntryRow?
    ensures NameOk(r.entry.name) && r == RowFor(tree, r.parentPath, r.entry)
    ensures (r.parentPath == parent && r.entry in entries)
            || (tree.getListing(r.parentPath).Some? && r.entry in tree.getListing(r.parentPath).value
                && exists f :: f in RowsOf(tree, parent, entries) && f.EntryRow? && f.path == r.parentPath && f.expanded)
    decreases |Deeper(tree, parent)|, |entries|
  {
    var e, rest := entries[0], entries[1..];
    var rows := RowsOf(tree, parent, entries);
    if r == RowFor(tree, parent, e) {
    } else if r in ChildRows(tree, parent, e) {
      var path := Join(parent, e.name);
      var children := tree.getListing(path).value;
      DeeperShrinks(tree, parent, path);
      SortedOk(tree, children);
      ShownFromListing(tree, path, SortedEntries(tree, children), r);
      if r.parentPath == path && r.entry in SortedEntries(tree, children) {
        assert RowFor(tree, parent, e) in rows;
      } else {
        var f :| f in ChildRows(tree, parent, e) && f.EntryRow? && f.path == r.parentPath && f.expanded;
        assert f in rows;
      }
    } else {
      ShownFromListing(tree, parent, rest, r);
      if !(r.parentPath == parent && r.entry in rest) {
        var f :| f in RowsOf(tree, parent, rest) && f.EntryRow? && f.path == r.parentPath && f.expanded;
        assert f in rows;
      }
    }
  }

  /** Each entry's row has its path, its kind, and whether it is a folder among the expanded ones. */
  lemma RowIs(tree: Tree, parent: string, entries: Listing, r: Row)
    requires TreeOk(tree) && ListingOk(entries) && r in RowsOf(tree, parent, entries) && r.EntryRow?
    ensures r.path == (if r.parentPath == "" then "" else r.parentPath + "/") + r.entry.name
    ensures r.isDir == r.entry.isDir && (r.expanded <==> r.entry.isDir && r.path in tree.expanded)
  {
    ShownFromListing(tree, parent, entries, r);
  }

  /** The expanded folders are reported in the order of their rows, loaded or not. */
  lemma {:induction false} ExpandedListed(rows: seq<Row>)
    ensures ExpandedPaths(rows) == Map(Filter(rows, (r: Row) => r.EntryRow? && r.expanded), (r: Row) => r.path)
  {
    if rows != [] {
      ExpandedListed(rows[1..]);
    }
  }

  // --- Folders that are empty -----------------------------------------------------------------------------

  /** `f` is the row of an expanded folder that is loaded and empty. */
  predicate ShowsEmpty(tree: Tree, f: Row) {
    f.EntryRow? && f.expanded && tree.getListing(f.path) == Some([])
  }

  /** The rows of empty folders, and no others, are followed by their marker. */
  ghost predicate EmptyMarked(tree: Tree, rows: seq<Row>) {
    && (forall i | 0 <= i < |rows| && ShowsEmpty(tree, rows[i]) ::
          i + 1 < |rows| && rows[i + 1] == EmptyRow(rows[i].path + "/", rows[i].depth + 1))
    && (forall i | 0 <= i < |rows| && rows[i].EmptyRow? :: i > 0 && ShowsEmpty(tree, rows[i - 1]))
  }

  lemma MarkedConcat(tree: Tree, a: seq<Row>, b: seq<Row>)
    requires EmptyMarked(tree, a) && EmptyMarked(tree, b)
    ensures EmptyMarked(tree, a + b)
  {
    var rows := a + b;
    forall i | 0 <= i < |rows| && ShowsEmpty(tree, rows[i])
      ensures i + 1 < |rows| && rows[i + 1] == EmptyRow(rows[i].path + "/", rows[i].depth + 1)
    {
      if i < |a| {
        assert a[i] == rows[i] && a[i + 1] == rows[i + 1];
      } else {
        assert b[i - |a|] == rows[i] && b[i - |a| + 1] == rows[i + 1];
      }
    }
    forall i | 0 <= i < |rows| && rows[i].EmptyRow? ensures i > 0 && ShowsEmpty(tree, rows[i - 1]) {
      if i < |a| {
        assert a[i] == rows[i] && a[i - 1] == rows[i - 1];
      } else {
        assert b[i - |a|] == rows[i] && b[i - |a| - 1] == rows[i - 1];
      }
    }
  }

  /** An expanded folder that is loaded and empty shows one marker right after its row, and no other marker is shown. */
  lemma {:induction false} EmptyFolders(tree: Tree, parent: string, entries: Listing)
    requires TreeOk(tree) && ListingOk(entries)
    ensures EmptyMarked(tree, RowsOf(tree, parent, entries))
    decreases |Deeper(tree, parent)|, 1, |entries|
  {
    if entries != [] {
      RowsOfNext(tree, parent, entries);
      EmptyFolder(tree, parent, entries[0]);
      EmptyFolders(tree, parent, entries[1..]);
      MarkedConcat(tree, EntryRows(tree, parent, entries[0]), RowsOf(tree, parent, entries[1..]));
    }
  }

  lemma {:induction false} EmptyFolder(tree: Tree, parent: string, e: LsEntry)
    requires TreeOk(tree) && NameOk(e.name)
    ensures EmptyMarked(tree, EntryRows(tree, parent, e))
    decreases |Deeper(tree, parent)|, 0, 0
  {
    var path := Join(parent, e.name);
    var row := [RowFor(tree, parent, e)];
    if IsExpanded(tree, path, e) && tree.getListing(path).Some? && tree.getListing(path).value != [] {
      var children := tree.getListing(path).value;
      DeeperShrinks(tree, parent, path);
      SortedOk(tree, children);
      EmptyFolders(tree, path, SortedEntries(tree, children));
      MarkedConcat(tree, row, RowsOf(tree, path, SortedEntries(tree, children)));
    }
  }

  // --- The order of siblings ---------------------------------------------------------------------------------

  /** A folder before a file, and among folders or files in the order of their names. */
  predicate Precedes(tree: Tree, a: LsEntry, b: LsEntry) {
    && (b.isDir ==> a.isDir)
    && (a.isDir == b.isDir ==> tree.collation(a.name) <= tree.collation(b.name))
  }

  ghost predicate InOrder(tree: Tree, entries: Listing) {
    forall i, j | 0 <= i < j < |entries| :: Precedes(tree, entries[i], entries[j])
  }

  lemma SortedInOrder(tree: Tree, listing: Listing)
    ensures InOrder(tree, SortedEntries(tree, listing))
  {
    SortedOrder(tree, listing);
  }

  /** Names that the collation does not tell apart stay in the order of the listing. */
  lemma TiesInListingOrder(tree: Tree, listing: Listing, e: LsEntry)
    ensures var tied := (x: LsEntry) => x.isDir == e.isDir && tree.collation(x.name) == tree.collation(e.name);
            Filter(SortedEntries(tree, listing), tied) == Filter(listing, tied)
  {
    var tied := (x: LsEntry) => x.isDir == e.isDir && tree.collation(x.name) == tree.collation(e.name);
    var order := (a: LsEntry, b: LsEntry) => ShownBefore(tree.collation, a, b);
    var same := Filter(listing, tied);
    SortFilter(listing, order, tied);
    forall i, j | 0 <= i < j < |same| ensures order(same[i], same[j]) {
      assert same[i] in same && same[j] in same;
    }
    SortIdentity(same, order);
  }

  /** Two rows with the same parent, the first before the second. */
  ghost predicate Siblings(tree: Tree, rows: seq<Row>) {
    forall i, j | 0 <= i < j < |rows| && rows[i].EntryRow? && rows[j].EntryRow? && rows[i].parentPath == rows[j].parentPath ::
      Precedes(tree, rows[i].entry, rows[j].entry)
  }

  /** An entry's row is listed in the folder itself or further inside one of its entries. */
  lemma ParentWithin(tree: Tree, parent: string, entries: Listing, r: Row)
    requires TreeOk(tree) && ListingOk(entries) && r in RowsOf(tree, parent, entries) && r.EntryRow?
    ensures (r.parentPath == parent && r.entry in entries)
            || (exists e :: e in entries && Within(r.parentPath, parent, e.name))
  {
    ShownFromListing(tree, parent, entries, r);
    if !(r.parentPath == parent && r.entry in entries) {
      var f :| f in RowsOf(tree, parent, entries) && f.EntryRow? && f.path == r.parentPath && f.expanded;
      var e := RowsWithin(tree, parent, entries, f);
    }
  }

  lemma ParentOfChild(tree: Tree, parent: string, e: LsEntry, r: Row)
    requires TreeOk(tree) && NameOk(e.name) && r in ChildRows(tree, parent, e) && r.EntryRow?
    ensures Within(r.parentPath, parent, e.name)
  {
    var path := Join(parent, e.name);
    var children := tree.getListing(path).value;
    SortedOk(tree, children);
    ParentWithin(tree, path, SortedEntries(tree, children), r);
    if r.parentPath != path {
      var c :| c in SortedEntries(tree, children) && Within(r.parentPath, path, c.name);
      InsideIsUnder(r.parentPath, path, c.name);
    }
  }

  lemma WithinLonger(x: string, parent: string, name: string)
    requires NameOk(name) && Within(x, parent, name)
    ensures x != parent
  {
    assert |Join(parent, name)| > |parent|;
  }

  /** A row of the first entry and a later sibling of it are rows of two entries of the folder. */
  lemma AcrossEntries(tree: Tree, parent: string, entries: Listing, r: Row, later: Row)
    requires TreeOk(tree) && ListingOk(entries) && entries != [] && InOrder(tree, entries)
    requires r in EntryRows(tree, parent, entries[0]) && later in RowsOf(tree, parent, entries[1..])
    requires r.EntryRow? && later.EntryRow? && r.parentPath == later.parentPath
    ensures Precedes(tree, r.entry, later.entry)
  {
    var first, rest := entries[0], entries[1..];
    ParentWithin(tree, parent, rest, later);
    if r == RowFor(tree, parent, first) {
      if e :| e in rest && Within(parent, parent, e.name) {
        WithinLonger(parent, parent, e.name);
      }
      var j :| 0 <= j < |rest| && rest[j] == later.entry;
      assert entries[j + 1] == later.entry;
    } else {
      ParentOfChild(tree, parent, first, r);
      NotAcross(tree, parent, entries, r.parentPath, later);
    }
  }

  lemma NotAcross(tree: Tree, parent: string, entries: Listing, x: string, later: Row)
    requires ListingOk(entries) && entries != [] && Within(x, parent, entries[0].name)
    ensures x != parent && forall e | e in entries[1..] :: !Within(x, parent, e.name)
  {
    WithinLonger(x, parent, entries[0].name);
    forall e | e in entries[1..] ensures !Within(x, parent, e.name) {
      var j :| 0 <= j < |entries[1..]| && entries[1..][j] == e;
      assert entries[j + 1] == e;
      if Within(x, parent, e.name) {
        WithinOne(x, parent, entries[0].name, e.name);
      }
    }
  }

  /** At every depth, folders come before files, and each in the order of their names. */
  lemma {:induction false} SiblingOrder(tree: Tree, parent: string, entries: Listing)
    requires TreeOk(tree) && ListingOk(entries) && InOrder(tree, entries)
    ensures Siblings(tree, RowsOf(tree, parent, entries))
    decreases |Deeper(tree, parent)|, 1, |entries|
  {
    if entries != [] {
      var first, rest := EntryRows(tree, parent, entries[0]), RowsOf(tree, parent, entries[1..]);
      RowsOfNext(tree, parent, entries);
      assert forall i | 0 <= i < |entries[1..]| :: entries[1..][i] == entries[i + 1];
      SiblingOrder(tree, parent, entries[1..]);
      SiblingsBelow(tree, parent, entries[0]);
      forall i, j | 0 <= i < |first| && 0 <= j < |rest| && first[i].EntryRow? && rest[j].EntryRow? && first[i].parentPath == rest[j].parentPath
        ensures Precedes(tree, first[i].entry, rest[j].entry)
      {
        AcrossEntries(tree, parent, entries, first[i], rest[j]);
      }
      SiblingsConcat(tree, first, rest);
    }
  }

  lemma SiblingsConcat(tree: Tree, a: seq<Row>, b: seq<Row>)
    requires Siblings(tree, a) && Siblings(tree, b)
    requires forall i, j | 0 <= i < |a| && 0 <= j < |b| && a[i].EntryRow? && b[j].EntryRow? && a[i].parentPath == b[j].parentPath ::
               Precedes(tree, a[i].entry, b[j].entry)
    ensures Siblings(tree, a + b)
  {
  }

  lemma {:induction false} SiblingsBelow(tree: Tree, parent: string, e: LsEntry)
    requires TreeOk(tree) && NameOk(e.name)
    ensures Siblings(tree, EntryRows(tree, parent, e))
    decreases |Deeper(tree, parent)|, 0, 0
  {
    var path := Join(parent, e.name);
    var row, below := [RowFor(tree, parent, e)], ChildRows(tree, parent, e);
    if IsExpanded(tree, path, e) && tree.getListing(path).Some? && tree.getListing(path).value != [] {
      var children := tree.getListing(path).value;
      DeeperShrinks(tree, parent, path);
      SortedOk(tree, children);
      SortedInOrder(tree, children);
      SiblingOrder(tree, path, SortedEntries(tree, children));
    }
    forall j | 0 <= j < |below| && below[j].EntryRow? ensures below[j].parentPath != parent {
      ParentOfChild(tree, parent, e, below[j]);
      WithinLonger(below[j].parentPath, parent, e.name);
    }
    SiblingsConcat(tree, row, below);
  }

  /** So it is with everything below the root. */
  lemma RootOrder(tree: Tree, root: Listing)
    requires TreeOk(tree) && ListingOk(root)
    ensures ListingOk(SortedEntries(tree, root)) && Siblings(tree, RowsOf(tree, "", SortedEntries(tree, root)))
  {
    SortedOk(tree, root);
    SortedInOrder(tree, root);
    SiblingOrder(tree, "", SortedEntries(tree, root));
  }
}
