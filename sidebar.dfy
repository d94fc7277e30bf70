/**
 * The accounts sidebar (AccountsSidebar in src/components/sidebar, and the same methods
 * of the main window in src/main.py): a list of rows, an account row followed, while the
 * account is expanded, by the rows of its folder tree, and the map of expanded folders,
 * keyed "<account email>:<full path>". Rows are identified by their position in the list,
 * where the source compares row objects.
 */
module Sidebar {
  import opened Strings
  import opened LexOrder
  import opened FolderTree

  /** A row hanging under the account (a row with that parent_account). */
  predicate InAccount(r: Row, email: string) {
    !r.AccountRow? && r.account == email
  }

  /** A folder row of the account: the rows that carry a level. */
  predicate FolderOf(r: Row, email: string) {
    r.FolderRow? && r.account == email
  }

  predicate HasAccountRow(rows: seq<Row>, email: string) {
    exists k :: 0 <= k < |rows| && rows[k].AccountRow? && rows[k].email == email
  }

  // ---------------------------------------------------------------------
  // remove_folder_descendants and collapse_account on the rows
  // ---------------------------------------------------------------------

  /** How many rows from position j on the descendant walk covers: it stops at the
      first folder row of the account whose level is at most the parent's. */
  function Walk(s: seq<Row>, j: nat, account: string, level: nat): (n: nat)
    requires j <= |s|
    ensures j + n <= |s|
    decreases |s| - j
  {
    if j == |s| then 0
    else if FolderOf(s[j], account) && s[j].level <= level then 0
    else 1 + Walk(s, j + 1, account, level)
  }

  /** The rows that are not folder rows of the account, in order. */
  function DropFolders(s: seq<Row>, account: string): seq<Row>
    decreases |s|
  {
    if s == [] then []
    else DropFolders(s[..|s| - 1], account) + if FolderOf(s[|s| - 1], account) then [] else [s[|s| - 1]]
  }

  /** The expanded-folder keys of the account's folder rows at positions lo to hi - 1. */
  function FolderKeys(s: seq<Row>, lo: nat, hi: nat, account: string): set<string>
    requires lo <= hi <= |s|
    decreases hi - lo
  {
    if hi == lo then {}
    else FolderKeys(s, lo, hi - 1, account)
         + if FolderOf(s[hi - 1], account) then {FolderKey(account, s[hi - 1].fullPath)} else {}
  }

  /** The map with every key of ks that it holds set to False; no key is added. */
  function ClearKeys(e: map<string, bool>, ks: set<string>): (r: map<string, bool>)
    ensures r.Keys == e.Keys
    ensures forall k :: k in r && r[k] ==> e[k] && k !in ks
  {
    map k | k in e :: if k in ks then false else e[k]
  }

  /** The rows after remove_folder_descendants on the folder row at i: the folder rows
      of its account that the walk covers are gone, everything else stays in order. */
  function RemoveDescendants(rows: seq<Row>, i: nat): seq<Row>
    requires i < |rows| && rows[i].FolderRow?
  {
    var j := i + 1 + Walk(rows, i + 1, rows[i].account, rows[i].level);
    rows[..i + 1] + DropFolders(rows[i + 1..j], rows[i].account) + rows[j..]
  }

  /** The keys remove_folder_descendants clears: those of the rows it removes. */
  function DescendantKeys(rows: seq<Row>, i: nat): set<string>
    requires i < |rows| && rows[i].FolderRow?
  {
    FolderKeys(rows, i + 1, i + 1 + Walk(rows, i + 1, rows[i].account, rows[i].level), rows[i].account)
  }

  /** The rows after expand_folder on the folder row at i: the rows of its children,
      one level deeper, right after it. */
  function ShowChildren(rows: seq<Row>, i: nat, expanded: map<string, bool>): (r: seq<Row>)
    requires i < |rows| && rows[i].FolderRow?
    ensures i < |r| && r[i] == rows[i]
  {
    var f := rows[i];
    rows[..i + 1] + LevelRows(f.tree, f.path, f.account, expanded, f.level + 1) + rows[i + 1..]
  }

  /** The rows not hanging under the account, in order. */
  function DropAccount(s: seq<Row>, email: string): seq<Row>
    decreases |s|
  {
    if s == [] then []
    else DropAccount(s[..|s| - 1], email) + if InAccount(s[|s| - 1], email) then [] else [s[|s| - 1]]
  }

  // ---------------------------------------------------------------------
  // The sidebar
  // ---------------------------------------------------------------------

  class AccountsSidebar {
    var rows: seq<Row>
    var expandedFolders: map<string, bool>

    constructor ()
      ensures rows == [] && expandedFolders == map[]
    {
      rows := [];
      expandedFolders := map[];
    }

    /** add_folder_level: inserts the rows of the children of p, in name order, at
        insertPosition + currentIndex and returns the index after them. */
    method AddFolderLevel(t: Tree, p: seq<string>, account: string, insertPosition: nat,
                          currentIndex: nat, level: nat) returns (index: nat)
      requires insertPosition + currentIndex <= |rows|
      modifies this`rows
      ensures var at := insertPosition + currentIndex;
        rows == old(rows[..at]) + LevelRows(t, p, account, expandedFolders, level) + old(rows[at..])
      ensures index == currentIndex + |LevelRows(t, p, account, expandedFolders, level)|
      decreases Below(t, p), 1
    {
      var cs := SortedSet(Children(t, p));
      ghost var at := insertPosition + currentIndex;
      ghost var front, back := rows[..at], rows[at..];
      index := currentIndex;
      for n := 0 to |cs|
        invariant rows == front + ChildrenRows(t, p, cs[..n], account, expandedFolders, level) + back
        invariant index == currentIndex + |ChildrenRows(t, p, cs[..n], account, expandedFolders, level)|
      {
        ghost var done := ChildrenRows(t, p, cs[..n], account, expandedFolders, level);
        NamedChild(t, p, n);
        assert cs[..n + 1][..n] == cs[..n];
        assert ChildrenRows(t, p, cs[..n + 1], account, expandedFolders, level)
               == done + ChildRows(t, p, cs[n], account, expandedFolders, level);
        index := AddChildRows(t, p, cs[n], account, insertPosition, index, level);
        Splice(front, done, back, ChildRows(t, p, cs[n], account, expandedFolders, level));
      }
      assert cs[..|cs|] == cs;
    }

    /** One pass of the loop of add_folder_level: the rows of the child c of p. */
    method AddChildRows(t: Tree, p: seq<string>, c: string, account: string, insertPosition: nat,
                        currentIndex: nat, level: nat) returns (index: nat)
      requires p + [c] in t && insertPosition + currentIndex <= |rows|
      modifies this`rows
      ensures var at := insertPosition + currentIndex;
        rows == old(rows[..at]) + ChildRows(t, p, c, account, expandedFolders, level) + old(rows[at..])
      ensures index == currentIndex + |ChildRows(t, p, c, account, expandedFolders, level)|
      decreases Below(t, p), 0
    {
      var key := p + [c];
      var node := t[key];
      index := currentIndex;
      var at := insertPosition + currentIndex;
      if level == 0 && Upper(node.fullPath) == "INBOX" {
        assert ChildRows(t, p, c, account, expandedFolders, level) == [];
        assert rows == rows[..at] + [] + rows[at..];
      } else if node.isError {
        assert ChildRows(t, p, c, account, expandedFolders, level) == [ErrorRow(account, node.name)];
        rows := rows[..at] + [ErrorRow(account, node.name)] + rows[at..];
        index := index + 1;
      } else {
        var hasChildren := Children(t, key) != {};
        var row := FolderRow(account, level, node.name, node.fullPath, hasChildren, t, key);
        ghost var start := rows;
        rows := rows[..at] + [row] + rows[at..];
        index := index + 1;
        var folderKey := FolderKey(account, node.fullPath);
        if hasChildren && folderKey in expandedFolders && expandedFolders[folderKey] {
          BelowShrinks(t, p, c);
          index := AddFolderLevel(t, key, account, insertPosition, index, level + 1);
          InsertAfter(start, at, row, LevelRows(t, key, account, expandedFolders, level + 1));
          assert ChildRows(t, p, c, account, expandedFolders, level)
                 == [row] + LevelRows(t, key, account, expandedFolders, level + 1);
        } else {
          assert ChildRows(t, p, c, account, expandedFolders, level) == [row];
        }
      }
    }

    /** add_folder_rows: the tree of the folders shown under the account row at
        accountIndex. */
    method AddFolderRows(accountIndex: nat, folders: seq<string>)
      requires accountIndex < |rows| && rows[accountIndex].AccountRow?
      modifies this`rows
      ensures rows == old(rows[..accountIndex + 1])
                      + LevelRows(Organize(folders), [], old(rows[accountIndex].email), expandedFolders, 0)
                      + old(rows[accountIndex + 1..])
    {
      var organized := OrganizeFoldersHierarchy(folders);
      var email := rows[accountIndex].email;
      var index := AddFolderLevel(organized, [], email, accountIndex + 1, 0, 0);
    }

    /** expand_folder: marks the folder expanded and, when the account has its row,
        shows the folder's children right after it. */
    method ExpandFolder(i: nat)
      requires i < |rows| && rows[i].FolderRow?
      modifies this
      ensures var r := old(rows[i]);
        expandedFolders == old(expandedFolders)[FolderKey(r.account, r.fullPath) := true]
        && rows == if HasAccountRow(old(rows), r.account) then ShowChildren(old(rows), i, expandedFolders) else old(rows)
    {
      var folderRow := rows[i];
      expandedFolders := expandedFolders[FolderKey(folderRow.account, folderRow.fullPath) := true];
      var found := FindAccountRow(folderRow.account);
      if found {
        ghost var before := rows;
        var index := AddFolderLevel(folderRow.tree, folderRow.path, folderRow.account, i + 1, 0, folderRow.level + 1);
        assert rows == before[..i + 1] + LevelRows(folderRow.tree, folderRow.path, folderRow.account, expandedFolders, folderRow.level + 1)
                       + before[i + 1..];
      }
    }

    /** The search of expand_folder for the row of the folder's account. */
    method FindAccountRow(email: string) returns (found: bool)
      ensures found <==> HasAccountRow(rows, email)
    {
      found := false;
      var j := 0;
      while j < |rows| && !found
        invariant 0 <= j <= |rows|
        invariant found <==> HasAccountRow(rows[..j], email)
      {
        assert rows[..j + 1] == rows[..j] + [rows[j]];
        if rows[j].AccountRow? && rows[j].email == email {
          found := true;
        }
        j := j + 1;
      }
      if found {
        assert forall k :: 0 <= k < j ==> rows[..j][k] == rows[k];
      } else {
        assert rows[..j] == rows;
      }
    }

    /** remove_folder_descendants: removes the account's folder rows that follow the
        folder row at i, up to the first one no deeper than it, and sets the expanded
        keys of the removed rows, where present, to False. */
    method RemoveFolderDescendants(i: nat)
      requires i < |rows| && rows[i].FolderRow?
      modifies this
      ensures rows == RemoveDescendants(old(rows), i)
      ensures expandedFolders == ClearKeys(old(expandedFolders), DescendantKeys(old(rows), i))
    {
      var toRemove, j := ClearDescendantKeys(i);
      var shown := rows;
      var kept := KeptRows(shown, i, j, shown[i].account, toRemove);
      rows := kept + shown[j..];
    }

    /** The first loop of remove_folder_descendants: walks the rows after the folder row
        at i up to the first folder row of its account that is no deeper, collects the
        positions of the account's folder rows on the way and sets their keys, where
        present, to False. Returns those positions and where the walk stopped. */
    method ClearDescendantKeys(i: nat) returns (toRemove: set<nat>, j: nat)
      requires i < |rows| && rows[i].FolderRow?
      modifies this`expandedFolders
      ensures i < j <= |rows|
      ensures j == i + 1 + Walk(rows, i + 1, rows[i].account, rows[i].level)
      ensures toRemove == FolderPositions(rows, i + 1, j, rows[i].account)
      ensures expandedFolders == ClearKeys(old(expandedFolders), FolderKeys(rows, i + 1, j, rows[i].account))
    {
      var parentLevel := rows[i].level;
      var accountKey := rows[i].account;
      toRemove := {};
      j := i + 1;
      while j < |rows|
        invariant i + 1 <= j <= |rows|
        invariant Walk(rows, i + 1, accountKey, parentLevel) == (j - i - 1) + Walk(rows, j, accountKey, parentLevel)
        invariant toRemove == FolderPositions(rows, i + 1, j, accountKey)
        invariant expandedFolders == ClearKeys(old(expandedFolders), FolderKeys(rows, i + 1, j, accountKey))
      {
        var row := rows[j];
        if row.FolderRow? && row.account == accountKey {
          if row.level > parentLevel {
            FolderPositionsSnoc(rows, i + 1, j, accountKey);
            toRemove := toRemove + {j};
            var descendantKey := FolderKey(accountKey, row.fullPath);
            ClearStep(old(expandedFolders), FolderKeys(rows, i + 1, j, accountKey), descendantKey, expandedFolders);
            if descendantKey in expandedFolders {
              expandedFolders := expandedFolders[descendantKey := false];
            }
          } else {
            break;
          }
        } else {
          FolderPositionsSnoc(rows, i + 1, j, accountKey);
        }
        j := j + 1;
      }
    }

    /** The rows between i and j that the second loop of remove_folder_descendants keeps:
        those whose positions it did not collect. */
    method KeptRows(shown: seq<Row>, i: nat, j: nat, account: string, toRemove: set<nat>) returns (kept: seq<Row>)
      requires i < j <= |shown| && toRemove == FolderPositions(shown, i + 1, j, account)
      ensures kept == shown[..i + 1] + DropFolders(shown[i + 1..j], account)
    {
      kept := shown[..i + 1];
      var m := i + 1;
      while m < j
        invariant i + 1 <= m <= j
        invariant kept == shown[..i + 1] + DropFolders(shown[i + 1..m], account)
      {
        DropFoldersSnoc(shown, i + 1, m, account);
        InFolderPositions(shown, i + 1, j, account, m);
        if m !in toRemove {
          kept := kept + [shown[m]];
        }
        m := m + 1;
      }
    }

    /** collapse_folder: marks the folder collapsed and removes its descendants. */
    method CollapseFolder(i: nat)
      requires i < |rows| && rows[i].FolderRow?
      modifies this
      ensures var r := old(rows[i]);
        expandedFolders == ClearKeys(old(expandedFolders)[FolderKey(r.account, r.fullPath) := false],
                                     DescendantKeys(old(rows), i))
        && rows == RemoveDescendants(old(rows), i)
    {
      var folderRow := rows[i];
      expandedFolders := expandedFolders[FolderKey(folderRow.account, folderRow.fullPath) := false];
      RemoveFolderDescendants(i);
    }

    /** on_folder_button_clicked for a folder with children: collapses it when its key is
        present and True, expands it otherwise. A click on a folder without children
        selects it, which is not part of this model. */
    method OnFolderClicked(i: nat)
      requires i < |rows| && rows[i].FolderRow?
      modifies this
      ensures var r := old(rows[i]);
        var key := FolderKey(r.account, r.fullPath);
        var wasExpanded := old(IsExpanded(expandedFolders, key));
        (r.hasChildren ==> key in expandedFolders && expandedFolders[key] == !wasExpanded)
        && (r.hasChildren && wasExpanded ==>
              expandedFolders == ClearKeys(old(expandedFolders)[key := false], DescendantKeys(old(rows), i))
              && rows == RemoveDescendants(old(rows), i))
        && (r.hasChildren && !wasExpanded ==>
              expandedFolders == old(expandedFolders)[key := true]
              && rows == if HasAccountRow(old(rows), r.account) then ShowChildren(old(rows), i, expandedFolders)
                         else old(rows))
        && (!r.hasChildren ==> rows == old(rows) && expandedFolders == old(expandedFolders))
    {
      var folderRow := rows[i];
      if folderRow.hasChildren {
        var folderKey := FolderKey(folderRow.account, folderRow.fullPath);
        if folderKey in expandedFolders && expandedFolders[folderKey] {
          CollapseFolder(i);
        } else {
          ExpandFolder(i);
        }
      }
    }

    /** collapse_account: marks the account row collapsed, deletes the account's
        expanded keys and removes every row hanging under the account. */
    method CollapseAccount(i: nat)
      requires i < |rows| && rows[i].AccountRow?
      modifies this
      ensures var email := old(rows[i].email);
        expandedFolders == (map k | k in old(expandedFolders) && !StartsWith(k, email + ":") :: old(expandedFolders)[k])
        && rows == DropAccount(old(rows)[i := AccountRow(email, false)], email)
    {
      var accountEmail := rows[i].email;
      rows := rows[i := AccountRow(accountEmail, false)];
      var keysToRemove := KeysUnder(accountEmail + ":");
      expandedFolders := expandedFolders - keysToRemove;
      rows := RowsOutside(rows, accountEmail);
    }

    /** The first loop of collapse_account: the expanded keys that start with prefix. */
    method KeysUnder(prefix: string) returns (keysToRemove: set<string>)
      ensures forall k :: k in keysToRemove <==> k in expandedFolders && StartsWith(k, prefix)
    {
      var remaining := expandedFolders.Keys;
      keysToRemove := {};
      while remaining != {}
        invariant remaining <= expandedFolders.Keys
        invariant forall k :: k in keysToRemove <==> k in expandedFolders && k !in remaining && StartsWith(k, prefix)
        decreases remaining
      {
        var key :| key in remaining;
        if StartsWith(key, prefix) {
          keysToRemove := keysToRemove + {key};
        }
        remaining := remaining - {key};
      }
    }
  }

  /** The loop of collapse_account over the rows: those not hanging under the account. */
  method RowsOutside(rows: seq<Row>, email: string) returns (kept: seq<Row>)
    ensures kept == DropAccount(rows, email)
  {
    kept := [];
    for m := 0 to |rows|
      invariant kept == DropAccount(rows[..m], email)
    {
      assert rows[..m + 1][..m] == rows[..m];
      if !(!rows[m].AccountRow? && rows[m].account == email) {
        kept := kept + [rows[m]];
      }
    }
    assert rows[..|rows|] == rows;
  }

  /** The n-th name in sorted order is that of a child of p. */
  lemma NamedChild(t: Tree, p: seq<string>, n: nat)
    requires n < |SortedSet(Children(t, p))|
    ensures p + [SortedSet(Children(t, p))[n]] in t
  {
    SortedSetOrders(Children(t, p));
    ChildKey(t, p, SortedSet(Children(t, p))[n]);
  }

  /** A block inserted at the end of the rows already added. */
  lemma Splice(front: seq<Row>, done: seq<Row>, back: seq<Row>, block: seq<Row>)
    ensures var rows, at := front + done + back, |front| + |done|;
      rows[..at] + block + rows[at..] == front + (done + block) + back
  {
    var rows, at := front + done + back, |front| + |done|;
    assert rows[..at] == front + done;
    assert rows[at..] == back;
  }

  /** A block inserted right after a row inserted at the same place. */
  lemma InsertAfter(s: seq<Row>, at: nat, row: Row, block: seq<Row>)
    requires at <= |s|
    ensures var r := s[..at] + [row] + s[at..];
      r[..at + 1] + block + r[at + 1..] == s[..at] + ([row] + block) + s[at..]
  {
    var r := s[..at] + [row] + s[at..];
    assert r[..at + 1] == s[..at] + [row];
    assert r[at + 1..] == s[at..];
  }

  /** The positions in [lo, hi) of the account's folder rows. */
  function FolderPositions(s: seq<Row>, lo: nat, hi: nat, account: string): set<nat>
    requires lo <= hi <= |s|
  {
    set m: nat | lo <= m < hi && FolderOf(s[m], account)
  }

  lemma FolderPositionsSnoc(s: seq<Row>, lo: nat, j: nat, account: string)
    requires lo <= j < |s|
    ensures FolderPositions(s, lo, j + 1, account)
            == FolderPositions(s, lo, j, account) + if FolderOf(s[j], account) then {j} else {}
  {
  }

  lemma InFolderPositions(s: seq<Row>, lo: nat, hi: nat, account: string, m: nat)
    requires lo <= m < hi <= |s|
    ensures m in FolderPositions(s, lo, hi, account) <==> FolderOf(s[m], account)
  {
  }

  lemma DropFoldersSnoc(s: seq<Row>, lo: nat, m: nat, account: string)
    requires lo <= m < |s|
    ensures DropFolders(s[lo..m + 1], account)
            == DropFolders(s[lo..m], account) + if FolderOf(s[m], account) then [] else [s[m]]
  {
    assert s[lo..m + 1][..m - lo] == s[lo..m];
  }

  lemma ClearStep(e: map<string, bool>, ks: set<string>, key: string, cleared: map<string, bool>)
    requires cleared == ClearKeys(e, ks)
    ensures ClearKeys(e, ks + {key}) == if key in cleared then cleared[key := false] else cleared
  {
  }

  // ---------------------------------------------------------------------
  // What the operations undo and keep
  // ---------------------------------------------------------------------

  /** A row that ends the descendant walk of a parent at (account, level). */
  predicate Stops(r: Row, account: string, level: nat) {
    FolderOf(r, account) && r.level <= level
  }

  /** The walk covers rows none of which stops it, and ends at the first that does. */
  lemma {:induction false} WalkStops(s: seq<Row>, j: nat, account: string, level: nat)
    requires j <= |s|
    ensures var n := Walk(s, j, account, level);
      (forall k :: j <= k < j + n ==> !Stops(s[k], account, level))
      && (j + n < |s| ==> Stops(s[j + n], account, level))
    decreases |s| - j
  {
    if j < |s| && !Stops(s[j], account, level) {
      WalkStops(s, j + 1, account, level);
    }
  }

  /** The walk from j sees only the rows from j on. */
  lemma {:induction false} WalkSuffix(s: seq<Row>, j: nat, account: string, level: nat)
    requires j <= |s|
    ensures Walk(s, j, account, level) == Walk(s[j..], 0, account, level)
    decreases |s| - j
  {
    if j < |s| {
      assert s[j..][0] == s[j];
      if !Stops(s[j], account, level) {
        WalkSuffix(s, j + 1, account, level);
        WalkSuffix(s[j..], 1, account, level);
        assert s[j..][1..] == s[j + 1..];
      }
    }
  }

  /** Rows that do not stop the walk are walked over. */
  lemma {:induction false} WalkSkip(s: seq<Row>, j: nat, m: nat, account: string, level: nat)
    requires j + m <= |s|
    requires forall k :: j <= k < j + m ==> !Stops(s[k], account, level)
    ensures Walk(s, j, account, level) == m + Walk(s, j + m, account, level)
    decreases m
  {
    if m > 0 {
      WalkSkip(s, j + 1, m - 1, account, level);
    }
  }

  lemma {:induction false} DropFoldersAppend(a: seq<Row>, b: seq<Row>, account: string)
    ensures DropFolders(a + b, account) == DropFolders(a, account) + DropFolders(b, account)
    decreases |b|
  {
    if b != [] {
      var b0 := b[..|b| - 1];
      assert (a + b)[..|a + b| - 1] == a + b0;
      DropFoldersAppend(a, b0, account);
    } else {
      assert a + b == a;
    }
  }

  /** DropFolders keeps rows that are not folder rows of the account ... */
  lemma {:induction false} DropFoldersNone(a: seq<Row>, account: string)
    requires forall k :: 0 <= k < |a| ==> !FolderOf(a[k], account)
    ensures DropFolders(a, account) == a
    decreases |a|
  {
    if a != [] {
      DropFoldersNone(a[..|a| - 1], account);
    }
  }

  /** ... drops the folder rows ... */
  lemma {:induction false} DropFoldersAll(a: seq<Row>, account: string)
    requires forall k :: 0 <= k < |a| ==> FolderOf(a[k], account)
    ensures DropFolders(a, account) == []
    decreases |a|
  {
    if a != [] {
      DropFoldersAll(a[..|a| - 1], account);
    }
  }

  /** ... and leaves none. */
  lemma {:induction false} DropFoldersClean(a: seq<Row>, account: string)
    ensures forall k :: 0 <= k < |DropFolders(a, account)| ==> !FolderOf(DropFolders(a, account)[k], account)
    decreases |a|
  {
    if a != [] {
      var a0 := a[..|a| - 1];
      DropFoldersClean(a0, account);
      var d0 := DropFolders(a0, account);
      var last := if FolderOf(a[|a| - 1], account) then [] else [a[|a| - 1]];
      forall k | 0 <= k < |d0 + last| ensures !FolderOf((d0 + last)[k], account) {
        if k < |d0| {
          assert (d0 + last)[k] == d0[k];
        }
      }
    }
  }

  /** Removing the descendants a second time changes nothing. */
  lemma RemoveDescendantsIdempotent(rows: seq<Row>, i: nat)
    requires i < |rows| && rows[i].FolderRow?
    ensures var r := RemoveDescendants(rows, i);
      i < |r| && r[i] == rows[i] && RemoveDescendants(r, i) == r
  {
    var account, level := rows[i].account, rows[i].level;
    var j := i + 1 + Walk(rows, i + 1, account, level);
    var front, back := rows[..i + 1], rows[j..];
    var d := DropFolders(rows[i + 1..j], account);
    assert RemoveDescendants(rows, i) == front + d + back;
    assert front[i] == rows[i];
    DropFoldersClean(rows[i + 1..j], account);
    WalkStops(rows, i + 1, account, level);
    assert back != [] ==> back[0] == rows[j];
    RemoveTwice(front, d, back);
    RemoveShape(front + d + back, i, front, d, back);
    DropFoldersNone(d, account);
    assert DropFolders(d, account) == d;
  }

  /** RemoveDescendants on rows split as the parent's prefix, the rows the walk covers and
      the rest. */
  lemma RemoveShape(rows: seq<Row>, i: nat, front: seq<Row>, mid: seq<Row>, back: seq<Row>)
    requires rows == front + mid + back && |front| == i + 1 && front[i].FolderRow?
    requires Walk(rows, i + 1, front[i].account, front[i].level) == |mid|
    ensures rows[i] == front[i]
    ensures RemoveDescendants(rows, i) == front + DropFolders(mid, front[i].account) + back
  {
    assert rows[i] == front[i];
    assert rows[..i + 1] == front;
    assert rows[i + 1..i + 1 + |mid|] == mid;
    assert rows[i + 1 + |mid|..] == back;
  }

  /** The walk over rows with no folder row of the account, followed by a row that stops
      it or by nothing. */
  lemma RemoveTwice(front: seq<Row>, d: seq<Row>, back: seq<Row>)
    requires front != [] && front[|front| - 1].FolderRow?
    requires var p := front[|front| - 1];
      (forall k :: 0 <= k < |d| ==> !FolderOf(d[k], p.account))
      && (back != [] ==> Stops(back[0], p.account, p.level))
    ensures var r, i := front + d + back, |front| - 1;
      Walk(r, i + 1, front[i].account, front[i].level) == |d|
  {
    var r, i := front + d + back, |front| - 1;
    var account, level := front[i].account, front[i].level;
    WalkSuffix(r, i + 1, account, level);
    assert r[i + 1..] == d + back;
    WalkOver(d, back, account, level);
  }

  /** Folder rows of the account, each deeper than level. */
  predicate DeeperFolders(block: seq<Row>, account: string, level: nat) {
    forall k :: 0 <= k < |block| ==> FolderOf(block[k], account) && block[k].level > level
  }

  predicate AllInAccount(block: seq<Row>, email: string) {
    forall k :: 0 <= k < |block| ==> InAccount(block[k], email)
  }

  /** The rows an expansion adds under a folder row with a path are the account's folder
      rows, deeper than it. */
  lemma ExpansionRows(t: Tree, p: seq<string>, account: string, expanded: map<string, bool>, level: nat)
    requires ErrorsAtRoot(t) && p != []
    ensures DeeperFolders(LevelRows(t, p, account, expanded, level + 1), account, level)
  {
    var block := LevelRows(t, p, account, expanded, level + 1);
    LevelRowsShown(t, p, account, expanded, level + 1);
    forall k | 0 <= k < |block| ensures FolderOf(block[k], account) && block[k].level > level {
      assert block[k] in block;
    }
  }

  /** collapse_folder after expand_folder on the same folder row leaves the rows that
      collapsing alone would leave. */
  lemma CollapseUndoesExpand(rows: seq<Row>, i: nat, expanded: map<string, bool>)
    requires i < |rows| && rows[i].FolderRow?
    requires rows[i].path != [] && ErrorsAtRoot(rows[i].tree)
    ensures RemoveDescendants(ShowChildren(rows, i, expanded), i) == RemoveDescendants(rows, i)
  {
    var r := rows[i];
    ExpansionRows(r.tree, r.path, r.account, expanded, r.level);
    RemoveAfterBlock(rows, i, LevelRows(r.tree, r.path, r.account, expanded, r.level + 1));
  }

  /** Deeper folder rows of the account inserted right after a folder row are exactly
      what remove_folder_descendants removes on top of what it removed before. */
  lemma RemoveAfterBlock(rows: seq<Row>, i: nat, block: seq<Row>)
    requires i < |rows| && rows[i].FolderRow?
    requires DeeperFolders(block, rows[i].account, rows[i].level)
    ensures var s := rows[..i + 1] + block + rows[i + 1..];
      i < |s| && s[i] == rows[i] && RemoveDescendants(s, i) == RemoveDescendants(rows, i)
  {
    var account, level := rows[i].account, rows[i].level;
    var j := i + 1 + Walk(rows, i + 1, account, level);
    var front, mid, back := rows[..i + 1], rows[i + 1..j], rows[j..];
    var s := rows[..i + 1] + block + rows[i + 1..];
    assert rows[i + 1..] == mid + back;
    assert rows == front + mid + back;
    assert s == front + (block + mid) + back;
    WalkPast(rows, i, block);
    RemoveShape(rows, i, front, mid, back);
    RemoveShape(s, i, front, block + mid, back);
    DropFoldersAppend(block, mid, account);
    DropFoldersAll(block, account);
    assert [] + DropFolders(mid, account) == DropFolders(mid, account);
  }

  /** The walk from i + 1 goes over the inserted block and then as before. */
  lemma WalkPast(rows: seq<Row>, i: nat, block: seq<Row>)
    requires i < |rows| && rows[i].FolderRow?
    requires DeeperFolders(block, rows[i].account, rows[i].level)
    ensures var s := rows[..i + 1] + block + rows[i + 1..];
      Walk(s, i + 1, rows[i].account, rows[i].level) == |block| + Walk(rows, i + 1, rows[i].account, rows[i].level)
  {
    var account, level := rows[i].account, rows[i].level;
    var front, back := rows[..i + 1], rows[i + 1..];
    SliceAfterFront(front, block, back);
    WalkSuffix(front + block + back, i + 1, account, level);
    DeeperDoesNotStop(block, account, level);
    WalkOver(block, back, account, level);
    WalkSuffix(rows, i + 1, account, level);
  }

  lemma SliceAfterFront(front: seq<Row>, block: seq<Row>, back: seq<Row>)
    ensures (front + block + back)[|front|..] == block + back
  {
  }

  lemma DeeperDoesNotStop(block: seq<Row>, account: string, level: nat)
    requires DeeperFolders(block, account, level)
    ensures forall k :: 0 <= k < |block| ==> !Stops(block[k], account, level)
  {
  }

  /** A block without a row that stops the walk is walked over. */
  lemma WalkOver(block: seq<Row>, back: seq<Row>, account: string, level: nat)
    requires forall k :: 0 <= k < |block| ==> !Stops(block[k], account, level)
    ensures Walk(block + back, 0, account, level) == |block| + Walk(back, 0, account, level)
  {
    var s := block + back;
    forall k | 0 <= k < |block| ensures !Stops(s[k], account, level) {
      assert s[k] == block[k];
    }
    WalkSkip(s, 0, |block|, account, level);
    WalkSuffix(s, |block|, account, level);
    assert s[|block|..] == back;
  }

  lemma {:induction false} DropAccountAppend(a: seq<Row>, b: seq<Row>, email: string)
    ensures DropAccount(a + b, email) == DropAccount(a, email) + DropAccount(b, email)
    decreases |b|
  {
    if b != [] {
      var b0 := b[..|b| - 1];
      assert (a + b)[..|a + b| - 1] == a + b0;
      DropAccountAppend(a, b0, email);
    } else {
      assert a + b == a;
    }
  }

  /** DropAccount keeps a row exactly when it does not hang under the account. */
  lemma {:induction false} DropAccountMembers(s: seq<Row>, email: string)
    ensures forall x :: x in DropAccount(s, email) <==> x in s && !InAccount(x, email)
    decreases |s|
  {
    if s != [] {
      var s0 := s[..|s| - 1];
      DropAccountMembers(s0, email);
      assert s == s0 + [s[|s| - 1]];
    }
  }

  lemma {:induction false} DropAccountAll(a: seq<Row>, email: string)
    requires AllInAccount(a, email)
    ensures DropAccount(a, email) == []
    decreases |a|
  {
    if a != [] {
      DropAccountAll(a[..|a| - 1], email);
    }
  }

  /** collapse_account removes the rows add_folder_rows showed under the account, and
      leaves the other rows as they were before; organize_folders_hierarchy gives a tree
      of that kind (OrganizedErrorsAtRoot). */
  lemma CollapseUndoesAddFolderRows(rows: seq<Row>, a: nat, t: Tree, expanded: map<string, bool>)
    requires a < |rows| && rows[a].AccountRow? && ErrorsAtRoot(t)
    ensures var email := rows[a].email;
      DropAccount(rows[..a + 1] + LevelRows(t, [], email, expanded, 0) + rows[a + 1..], email)
      == DropAccount(rows, email)
  {
    var email := rows[a].email;
    AddedRowsInAccount(t, email, expanded);
    DropAccountBlock(rows[..a + 1], LevelRows(t, [], email, expanded, 0), rows[a + 1..], email);
    assert rows[..a + 1] + rows[a + 1..] == rows;
  }

  /** The rows add_folder_rows shows all hang under the account. */
  lemma AddedRowsInAccount(t: Tree, email: string, expanded: map<string, bool>)
    requires ErrorsAtRoot(t)
    ensures AllInAccount(LevelRows(t, [], email, expanded, 0), email)
  {
    var block := LevelRows(t, [], email, expanded, 0);
    LevelRowsShown(t, [], email, expanded, 0);
    forall k | 0 <= k < |block| ensures InAccount(block[k], email) {
      assert block[k] in block;
    }
  }

  lemma DropAccountBlock(front: seq<Row>, block: seq<Row>, back: seq<Row>, email: string)
    requires AllInAccount(block, email)
    ensures DropAccount(front + block + back, email) == DropAccount(front + back, email)
  {
    var head := front + block;
    DropAccountAll(block, email);
    DropAccountAppend(head, back, email);
    DropAccountAppend(front, block, email);
    DropAccountAppend(front, back, email);
    assert DropAccount(head, email) == DropAccount(front, email);
  }
}
