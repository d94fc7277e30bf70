/**
 * The sidebar's folder tree (organize_folders_hierarchy in src/components/sidebar and its
 * copy in src/main.py): the flat list of folder names a server reported becomes nested
 * dictionaries of nodes, a node per path component, and the sidebar shows the tree as rows
 * (add_folder_level), walking into the folders the user has expanded.
 *
 * The nested dictionaries are modelled flat: a node is keyed by the component names
 * leading to it from the root, and the children of the node at p are the nodes at p + [c].
 */
module FolderTree {
  import opened Strings
  import opened LexOrder

  /** A node's own entries: its name, its full path and whether it stands for an error. */
  datatype FolderNode = FolderNode(name: string, fullPath: string, isError: bool)

  type Tree = map<seq<string>, FolderNode>

  const ErrorPrefix := "Error:"

  /** A name that the folder fetch put in the list in place of the folders. */
  predicate IsErrorFolder(folder: string) {
    StartsWith(folder, ErrorPrefix)
  }

  /** The components of a folder name: a leading "[...]" (up to the first "]") is one
      component and the rest, less one leading "/", is split on "/" when anything is left;
      any other name is split on "/". */
  function Components(folder: string): (r: seq<string>)
    ensures r != []
  {
    if folder != "" && folder[0] == '[' && ']' in folder then
      var k := IndexOf(folder, ']');
      var remaining := folder[k + 1..];
      var rest := if remaining != "" && remaining[0] == '/' then remaining[1..] else remaining;
      [folder[..k + 1]] + (if rest != "" then Split(rest, '/') else [])
    else Split(folder, '/')
  }

  // ---------------------------------------------------------------------
  // organize_folders_hierarchy
  // ---------------------------------------------------------------------

  /** The inner loop after n steps: every prefix of parts of length 1..n has a node, a
      node already there being kept as it is. */
  function AddPrefixes(t: Tree, parts: seq<string>, n: nat): Tree
    requires n <= |parts|
  {
    if n == 0 then t
    else
      var t1 := AddPrefixes(t, parts, n - 1);
      if parts[..n] in t1 then t1
      else t1[parts[..n] := FolderNode(parts[n - 1], JoinWith(parts[..n], "/"), false)]
  }

  /** One pass of the outer loop: an error name replaces the root entry of that name
      (and with it any subtree) by an error node; any other name adds its path. */
  function InsertFolder(t: Tree, folder: string): Tree {
    if IsErrorFolder(folder) then
      (map p | p in t && !(|p| > 1 && p[0] == folder) :: t[p])[[folder] := FolderNode(folder, folder, true)]
    else
      var parts := Components(folder);
      AddPrefixes(t, parts, |parts|)
  }

  /** The tree of a list of folder names, inserted in order. */
  function Organize(folders: seq<string>): Tree
    decreases |folders|
  {
    if folders == [] then map[] else InsertFolder(Organize(folders[..|folders| - 1]), folders[|folders| - 1])
  }

  method OrganizeFoldersHierarchy(folders: seq<string>) returns (rootFolders: Tree)
    ensures rootFolders == Organize(folders)
  {
    rootFolders := map[];
    for j := 0 to |folders|
      invariant rootFolders == Organize(folders[..j])
    {
      assert folders[..j + 1][..j] == folders[..j];
      var folder := folders[j];
      if IsErrorFolder(folder) {
        rootFolders := (map p | p in rootFolders && !(|p| > 1 && p[0] == folder) :: rootFolders[p])[[folder] := FolderNode(folder, folder, true)];
      } else {
        var parts := Components(folder);
        rootFolders := AddFolderPath(rootFolders, parts);
      }
    }
    assert folders[..|folders|] == folders;
  }

  /** The inner loop of organize_folders_hierarchy: a node for each prefix of the
      components that has none, named by its last component and the prefix joined by "/". */
  method AddFolderPath(t: Tree, parts: seq<string>) returns (r: Tree)
    ensures r == AddPrefixes(t, parts, |parts|)
  {
    r := t;
    var currentPath := "";
    for i := 0 to |parts|
      invariant r == AddPrefixes(t, parts, i)
      invariant i > 0 ==> currentPath == JoinWith(parts[..i], "/")
    {
      if i == 0 {
        currentPath := parts[i];
        assert parts[..1] == [parts[0]];
      } else {
        JoinSnoc(parts[..i], parts[i], "/");
        assert parts[..i] + [parts[i]] == parts[..i + 1];
        currentPath := currentPath + "/" + parts[i];
      }
      if parts[..i + 1] !in r {
        r := r[parts[..i + 1] := FolderNode(parts[i], currentPath, false)];
      }
    }
  }

  // ---------------------------------------------------------------------
  // What the tree is: one node per path, determined by the path
  // ---------------------------------------------------------------------

  /** The node organize_folders_hierarchy keeps at path p. */
  function NodeAt(p: seq<string>): FolderNode
    requires p != []
  {
    FolderNode(p[|p| - 1], JoinWith(p, "/"), |p| == 1 && IsErrorFolder(p[0]))
  }

  /** Paths of a tree: none empty, and only a one-component path can be an error name. */
  predicate WellKeyed(paths: set<seq<string>>) {
    forall p :: p in paths ==> p != [] && (|p| > 1 ==> !IsErrorFolder(p[0]))
  }

  function Canon(paths: set<seq<string>>): Tree
    requires WellKeyed(paths)
  {
    map p | p in paths :: NodeAt(p)
  }

  /** The prefixes of parts of length 1..n. */
  function Prefixes(parts: seq<string>, n: nat): set<seq<string>>
    requires n <= |parts|
  {
    set j | 1 <= j <= n :: parts[..j]
  }

  /** The paths a folder name contributes. */
  function PathsOf(folder: string): set<seq<string>> {
    if IsErrorFolder(folder) then {[folder]}
    else var parts := Components(folder); Prefixes(parts, |parts|)
  }

  function Paths(folders: seq<string>): set<seq<string>>
    decreases |folders|
  {
    if folders == [] then {} else Paths(folders[..|folders| - 1]) + PathsOf(folders[|folders| - 1])
  }

  /** The first component of a name that is not an error name is not one either. */
  lemma FirstComponentNotError(folder: string)
    requires !IsErrorFolder(folder)
    ensures !IsErrorFolder(Components(folder)[0])
  {
    var c := Components(folder)[0];
    if folder != "" && folder[0] == '[' && ']' in folder {
      assert c[0] == '[';
    } else {
      assert c == folder[..IndexOf(folder, '/')];
    }
  }

  lemma {:induction false} AddPrefixesCanon(paths: set<seq<string>>, parts: seq<string>, n: nat)
    requires WellKeyed(paths) && parts != [] && !IsErrorFolder(parts[0]) && n <= |parts|
    ensures WellKeyed(paths + Prefixes(parts, n))
    ensures AddPrefixes(Canon(paths), parts, n) == Canon(paths + Prefixes(parts, n))
  {
    if n > 0 {
      AddPrefixesCanon(paths, parts, n - 1);
      var key := parts[..n];
      assert Prefixes(parts, n) == Prefixes(parts, n - 1) + {key};
      assert key[0] == parts[0] && key[n - 1] == parts[n - 1];
      var before := paths + Prefixes(parts, n - 1);
      assert paths + Prefixes(parts, n) == before + {key};
      CanonAddKey(before, key);
    } else {
      assert Prefixes(parts, 0) == {};
      assert paths + {} == paths;
    }
  }

  /** Adding the node of a new path to the tree of some paths gives the tree of the paths
      with it; adding a path already there changes nothing. */
  lemma CanonAddKey(paths: set<seq<string>>, key: seq<string>)
    requires WellKeyed(paths) && key != [] && !IsErrorFolder(key[0])
    ensures WellKeyed(paths + {key})
    ensures var t := Canon(paths);
      (if key in t then t else t[key := FolderNode(key[|key| - 1], JoinWith(key, "/"), false)])
      == Canon(paths + {key})
  {
    WellKeyedAdd(paths, key);
    assert NodeAt(key) == FolderNode(key[|key| - 1], JoinWith(key, "/"), false);
    if key in paths {
      assert paths + {key} == paths;
    } else {
      CanonAddNew(paths, key);
    }
  }

  lemma WellKeyedAdd(paths: set<seq<string>>, key: seq<string>)
    requires WellKeyed(paths) && key != [] && !IsErrorFolder(key[0])
    ensures WellKeyed(paths + {key})
  {
  }

  lemma CanonAddNew(paths: set<seq<string>>, key: seq<string>)
    requires WellKeyed(paths) && WellKeyed(paths + {key}) && key != [] && key !in paths
    ensures key !in Canon(paths) && Canon(paths)[key := NodeAt(key)] == Canon(paths + {key})
  {
    var t, u := Canon(paths), Canon(paths + {key});
    var t2 := t[key := NodeAt(key)];
    assert t2.Keys == u.Keys;
    forall p | p in u ensures t2[p] == u[p] {
      if p != key {
        assert p in paths;
      }
    }
  }

  lemma InsertFolderCanon(paths: set<seq<string>>, folder: string)
    requires WellKeyed(paths)
    ensures WellKeyed(paths + PathsOf(folder))
    ensures InsertFolder(Canon(paths), folder) == Canon(paths + PathsOf(folder))
  {
    if IsErrorFolder(folder) {
      var t := Canon(paths);
      assert (map p | p in t && !(|p| > 1 && p[0] == folder) :: t[p]) == t;
      assert JoinWith([folder], "/") == folder;
    } else {
      var parts := Components(folder);
      FirstComponentNotError(folder);
      AddPrefixesCanon(paths, parts, |parts|);
    }
  }

  /** Whatever the order of the names, the tree has exactly one node per path the names
      contribute, and that node is determined by its path. */
  lemma {:induction false} OrganizeCanon(folders: seq<string>)
    ensures WellKeyed(Paths(folders))
    ensures Organize(folders) == Canon(Paths(folders))
    decreases |folders|
  {
    if folders != [] {
      var init := folders[..|folders| - 1];
      OrganizeCanon(init);
      InsertFolderCanon(Paths(init), folders[|folders| - 1]);
    } else {
      assert Canon({}) == map[];
    }
  }

  lemma {:induction false} PathsOfIn(folders: seq<string>, folder: string)
    requires folder in folders
    ensures PathsOf(folder) <= Paths(folders)
    decreases |folders|
  {
    var init := folders[..|folders| - 1];
    if folder != folders[|folders| - 1] {
      assert folders == init + [folders[|folders| - 1]];
      PathsOfIn(init, folder);
    }
  }

  lemma {:induction false} PathsSub(a: seq<string>, b: seq<string>)
    requires forall x :: x in a ==> x in b
    ensures Paths(a) <= Paths(b)
    decreases |a|
  {
    if a != [] {
      var init := a[..|a| - 1];
      assert forall x :: x in init ==> x in a;
      PathsSub(init, b);
      PathsOfIn(b, a[|a| - 1]);
    }
  }

  /** The tree depends only on which names are listed: not on their order, nor on how
      often each is listed. */
  lemma OrganizeOrderFree(a: seq<string>, b: seq<string>)
    requires forall x :: x in a <==> x in b
    ensures Organize(a) == Organize(b)
  {
    OrganizeCanon(a);
    OrganizeCanon(b);
    PathsSub(a, b);
    PathsSub(b, a);
  }

  /** Inserting a name already inserted changes nothing. */
  lemma InsertAgain(folders: seq<string>, folder: string)
    requires folder in folders
    ensures InsertFolder(Organize(folders), folder) == Organize(folders)
  {
    var more := folders + [folder];
    assert more[..|folders|] == folders;
    OrganizeOrderFree(more, folders);
  }
  lemma {:induction false} PathsPrefixClosed(folders: seq<string>)
    ensures forall p, j :: p in Paths(folders) && 1 <= j < |p| ==> p[..j] in Paths(folders)
    decreases |folders|
  {
    if folders != [] {
      var init, last := folders[..|folders| - 1], folders[|folders| - 1];
      PathsPrefixClosed(init);
      forall p, j | p in PathsOf(last) && 1 <= j < |p| ensures p[..j] in PathsOf(last) {
        var parts := Components(last);
        var m :| 1 <= m <= |parts| && p == parts[..m];
        assert p[..j] == parts[..j];
      }
    }
  }

  /** Every node's name is the last component of its path, its full path is the path
      joined with "/", and only a root named like an error is an error node; the paths
      are closed under prefixes, so every node but a root hangs under its parent. */
  lemma TreeNodes(folders: seq<string>)
    ensures var t := Organize(folders);
      (forall p :: p in t ==>
         p != [] && t[p].name == p[|p| - 1] && t[p].fullPath == JoinWith(p, "/")
         && (t[p].isError <==> |p| == 1 && IsErrorFolder(p[0])))
      && forall p, j :: p in t && 1 <= j < |p| ==> p[..j] in t
  {
    OrganizeCanon(folders);
    PathsPrefixClosed(folders);
  }

  /** Each listed name has its node: an error name a root error node with nothing under
      it, any other name the node at its components, whose full path joins them. */
  lemma ListedFolderNode(folders: seq<string>, folder: string)
    requires folder in folders
    ensures var t := Organize(folders);
      (IsErrorFolder(folder) ==>
         [folder] in t && t[[folder]].isError && t[[folder]].name == folder && t[[folder]].fullPath == folder
         && forall q :: q in t && |q| > 1 ==> q[0] != folder)
      && (!IsErrorFolder(folder) ==>
         Components(folder) in t && t[Components(folder)].fullPath == JoinWith(Components(folder), "/")
         && !t[Components(folder)].isError)
  {
    OrganizeCanon(folders);
    PathsOfIn(folders, folder);
    if IsErrorFolder(folder) {
      assert JoinWith([folder], "/") == folder;
    } else {
      var parts := Components(folder);
      FirstComponentNotError(folder);
      assert parts[..|parts|] == parts;
    }
  }

  /** The full path of a name's node is the name itself, except where a leading "[...]"
      is followed by something other than "/" and more, which gains or loses a "/". */
  lemma FullPathIsName(folder: string)
    ensures var k := IndexOf(folder, ']');
      JoinWith(Components(folder), "/") == folder
      <==> !(folder != "" && folder[0] == '[' && ']' in folder) || k + 1 == |folder|
           || (folder[k + 1] == '/' && k + 2 < |folder|)
  {
    if folder != "" && folder[0] == '[' && ']' in folder {
      BracketFullPath(folder);
    } else {
      SplitJoin(folder, '/');
    }
  }

  lemma BracketFullPath(folder: string)
    requires folder != "" && folder[0] == '[' && ']' in folder
    ensures var k := IndexOf(folder, ']');
      JoinWith(Components(folder), "/") == folder
      <==> k + 1 == |folder| || (folder[k + 1] == '/' && k + 2 < |folder|)
  {
    var k := IndexOf(folder, ']');
    var b, remaining := folder[..k + 1], folder[k + 1..];
    assert folder == b + remaining;
    var rest := if remaining != "" && remaining[0] == '/' then remaining[1..] else remaining;
    assert Components(folder) == [b] + (if rest != "" then Split(rest, '/') else []);
    JoinBracket(b, rest);
    JoinCases(b, remaining);
    if remaining != "" {
      assert folder[k + 1] == remaining[0];
    }
  }

  /** The bracket component joined back to what follows it gives the name back exactly
      when nothing follows, or a "/" and more. */
  lemma JoinCases(b: string, remaining: string)
    ensures var rest := if remaining != "" && remaining[0] == '/' then remaining[1..] else remaining;
      (if rest == "" then b else b + "/" + rest) == b + remaining
      <==> remaining == "" || (remaining[0] == '/' && |remaining| > 1)
  {
    var rest := if remaining != "" && remaining[0] == '/' then remaining[1..] else remaining;
    if remaining != "" && remaining[0] == '/' {
      assert remaining == "/" + rest;
      assert b + "/" + rest == b + ("/" + rest);
    } else if remaining != "" {
      assert (b + "/" + rest)[|b|] == '/' && (b + remaining)[|b|] == remaining[0];
    }
  }

  lemma JoinBracket(b: string, rest: string)
    ensures JoinWith([b] + (if rest != "" then Split(rest, '/') else []), "/")
            == if rest == "" then b else b + "/" + rest
  {
    if rest != "" {
      var tail := Split(rest, '/');
      assert ([b] + tail)[1..] == tail;
      SplitJoin(rest, '/');
    }
  }

  // ---------------------------------------------------------------------
  // get_folder_icon
  // ---------------------------------------------------------------------

  const IconNames := {"mail-unread-symbolic", "mail-send-symbolic", "document-edit-symbolic",
                      "user-trash-symbolic", "mail-mark-junk-symbolic", "shoe-box-symbolic",
                      "mail-mark-important-symbolic", "starred-symbolic", "folder-symbolic"}

  /** A word some rule of get_folder_icon looks for in the upper-cased name. */
  predicate NamesKnownFolder(u: string) {
    u == "INBOX" || Contains(u, "SENT MAIL") || Contains(u, "SENT") || Contains(u, "ITEMS")
    || Contains(u, "DRAFT") || Contains(u, "TRASH") || Contains(u, "DELETED")
    || Contains(u, "SPAM") || Contains(u, "JUNK") || Contains(u, "BULK")
    || Contains(u, "ALL MAIL") || Contains(u, "ARCHIVE") || Contains(u, "IMPORTANT") || Contains(u, "STARRED")
  }

  /** The word classes of get_folder_icon's rules, in the order they are tried. */
  predicate SentRule(u: string) { Contains(u, "SENT MAIL") || Contains(u, "SENT") || Contains(u, "ITEMS") }
  predicate TrashRule(u: string) { Contains(u, "TRASH") || Contains(u, "DELETED") }
  predicate JunkRule(u: string) { Contains(u, "SPAM") || Contains(u, "JUNK") || Contains(u, "BULK") }

  /** None of the rules before "ALL MAIL" applies. */
  predicate NoEarlierRule(u: string) {
    u != "INBOX" && !SentRule(u) && !Contains(u, "DRAFT") && !TrashRule(u) && !JunkRule(u)
  }

  /** The icon of a folder: the first rule whose word the upper-cased name holds. */
  function FolderIcon(folderName: string): (r: string)
    ensures r in IconNames
    ensures r == "folder-symbolic" <==> !NamesKnownFolder(Upper(folderName))
    ensures Upper(folderName) == "INBOX" ==> r == "mail-unread-symbolic"
    ensures var u := Upper(folderName);
      (r == "mail-send-symbolic" <==> u != "INBOX" && SentRule(u))
      && (r == "document-edit-symbolic" <==> u != "INBOX" && !SentRule(u) && Contains(u, "DRAFT"))
      && (r == "user-trash-symbolic" <==> u != "INBOX" && !SentRule(u) && !Contains(u, "DRAFT") && TrashRule(u))
      && (r == "mail-mark-junk-symbolic" <==>
            u != "INBOX" && !SentRule(u) && !Contains(u, "DRAFT") && !TrashRule(u) && JunkRule(u))
      && (r == "mail-unread-symbolic" <==> u == "INBOX" || (NoEarlierRule(u) && Contains(u, "ALL MAIL")))
      && (r == "shoe-box-symbolic" <==> NoEarlierRule(u) && !Contains(u, "ALL MAIL") && Contains(u, "ARCHIVE"))
      && (r == "mail-mark-important-symbolic" <==>
            NoEarlierRule(u) && !Contains(u, "ALL MAIL") && !Contains(u, "ARCHIVE") && Contains(u, "IMPORTANT"))
      && (r == "starred-symbolic" <==>
            NoEarlierRule(u) && !Contains(u, "ALL MAIL") && !Contains(u, "ARCHIVE") && !Contains(u, "IMPORTANT")
            && Contains(u, "STARRED"))
  {
    var u := Upper(folderName);
    if u == "INBOX" then "mail-unread-symbolic"
    else if Contains(u, "SENT MAIL") || Contains(u, "SENT") || Contains(u, "ITEMS") then "mail-send-symbolic"
    else if Contains(u, "DRAFT") then "document-edit-symbolic"
    else if Contains(u, "TRASH") || Contains(u, "DELETED") then "user-trash-symbolic"
    else if Contains(u, "SPAM") || Contains(u, "JUNK") || Contains(u, "BULK") then "mail-mark-junk-symbolic"
    else if Contains(u, "ALL MAIL") then "mail-unread-symbolic"
    else if Contains(u, "ARCHIVE") then "shoe-box-symbolic"
    else if Contains(u, "IMPORTANT") then "mail-mark-important-symbolic"
    else if Contains(u, "STARRED") then "starred-symbolic"
    else "folder-symbolic"
  }

  /** The icon ignores case. */
  lemma FolderIconIgnoresCase(folderName: string)
    ensures FolderIcon(Lower(folderName)) == FolderIcon(folderName)
    ensures FolderIcon(Upper(folderName)) == FolderIcon(folderName)
  {
    CaseMapsAbsorb(folderName);
    assert Upper(Upper(folderName)) == Upper(folderName);
  }

  // ---------------------------------------------------------------------
  // add_folder_level: the rows the tree shows
  // ---------------------------------------------------------------------

  /** The names of the children of the node at p (of the roots when p is []). */
  function Children(t: Tree, p: seq<string>): set<string> {
    set k | k in t && |k| == |p| + 1 && k[..|p|] == p :: k[|p|]
  }

  /** The nodes strictly under p. */
  function Below(t: Tree, p: seq<string>): set<seq<string>> {
    set k | k in t && |k| > |p| && k[..|p|] == p
  }

  lemma ChildKey(t: Tree, p: seq<string>, c: string)
    requires c in Children(t, p)
    ensures p + [c] in t
  {
    var k :| k in t && |k| == |p| + 1 && k[..|p|] == p && k[|p|] == c;
    assert k == p + [c];
  }

  /** A child's subtree is smaller than its parent's: the walk terminates. */
  lemma BelowShrinks(t: Tree, p: seq<string>, c: string)
    requires p + [c] in t
    ensures Below(t, p + [c]) < Below(t, p)
  {
    var q := p + [c];
    forall k | k in Below(t, q) ensures k in Below(t, p) {
      assert k[..|p|] == k[..|q|][..|p|];
    }
    assert q[..|p|] == p;
    assert q in Below(t, p) && q !in Below(t, q);
  }

  /** The expanded-folder key of a folder of an account. */
  function FolderKey(account: string, fullPath: string): string {
    account + ":" + fullPath
  }

  /** expanded_folders.get(key, False) */
  predicate IsExpanded(expanded: map<string, bool>, key: string) {
    key in expanded && expanded[key]
  }

  /** A sidebar row: an account, a folder (its children being the subtree of tree at
      path), an error entry, or the placeholder shown while folders load. */
  datatype Row =
    | AccountRow(email: string, expanded: bool)
    | FolderRow(account: string, level: nat, name: string, fullPath: string, hasChildren: bool,
                tree: Tree, path: seq<string>)
    | ErrorRow(account: string, name: string)
    | LoadingRow(account: string)

  /** The rows for the children of p at the given level: in sorted order of their names,
      each followed by its own children's rows when it is expanded. */
  function LevelRows(t: Tree, p: seq<string>, account: string, expanded: map<string, bool>, level: nat): seq<Row>
    decreases Below(t, p), 1, 0
  {
    ChildrenRows(t, p, SortedSet(Children(t, p)), account, expanded, level)
  }

  function ChildrenRows(t: Tree, p: seq<string>, cs: seq<string>, account: string,
                        expanded: map<string, bool>, level: nat): seq<Row>
    decreases Below(t, p), 0, |cs|
  {
    if cs == [] then []
    else ChildrenRows(t, p, cs[..|cs| - 1], account, expanded, level) + ChildRows(t, p, cs[|cs| - 1], account, expanded, level)
  }

  /** The rows of one child: none for INBOX at the top level (the account row stands for
      it), an error row for an error node, otherwise its folder row and, when it has
      children and is expanded, their rows one level deeper. A name without a node, which
      the names of the children never are, gives no rows. */
  function ChildRows(t: Tree, p: seq<string>, c: string, account: string,
                     expanded: map<string, bool>, level: nat): seq<Row>
    decreases Below(t, p), 0, 0
  {
    var q := p + [c];
    if q !in t then []
    else
    var node := t[q];
    if level == 0 && Upper(node.fullPath) == "INBOX" then []
    else if node.isError then [ErrorRow(account, node.name)]
    else
      var hasChildren := Children(t, q) != {};
      [FolderRow(account, level, node.name, node.fullPath, hasChildren, t, q)]
      + if hasChildren && IsExpanded(expanded, FolderKey(account, node.fullPath)) then
          BelowShrinks(t, p, c);
          LevelRows(t, q, account, expanded, level + 1)
        else []
  }
  /** Only roots are error nodes, as in every tree organize_folders_hierarchy builds. */
  predicate ErrorsAtRoot(t: Tree) {
    forall k :: k in t && t[k].isError ==> |k| == 1
  }

  lemma OrganizedErrorsAtRoot(folders: seq<string>)
    ensures ErrorsAtRoot(Organize(folders))
  {
    TreeNodes(folders);
  }

  /** What a row shown for the children of p at the given level is: a folder row of the
      account for a node under p, as many levels below p as its level is deeper, carrying
      that node's name and full path, never INBOX on the top level, and deeper than the
      walk's level only when its parent folder is expanded; or, for the roots only, an
      error row of the account. */
  predicate ShownRow(t: Tree, p: seq<string>, account: string, expanded: map<string, bool>, level: nat, r: Row) {
    match r
    case FolderRow(a, l, name, fullPath, _, tr, q) =>
      a == account && tr == t && q in t && l >= level && |q| == |p| + 1 + (l - level) && q[..|p|] == p
      && name == t[q].name && fullPath == t[q].fullPath
      && (l == 0 ==> Upper(fullPath) != "INBOX")
      && (l > level ==> q[..|q| - 1] in t && IsExpanded(expanded, FolderKey(account, t[q[..|q| - 1]].fullPath)))
    case ErrorRow(a, _) => a == account && p == []
    case _ => false
  }

  /** The walk shows only rows of that kind. */
  lemma {:induction false} LevelRowsShown(t: Tree, p: seq<string>, account: string, expanded: map<string, bool>, level: nat)
    requires ErrorsAtRoot(t)
    ensures forall r :: r in LevelRows(t, p, account, expanded, level) ==> ShownRow(t, p, account, expanded, level, r)
    decreases Below(t, p), 1, 0
  {
    ChildrenRowsShown(t, p, SortedSet(Children(t, p)), account, expanded, level);
  }

  lemma {:induction false} ChildrenRowsShown(t: Tree, p: seq<string>, cs: seq<string>, account: string,
                                             expanded: map<string, bool>, level: nat)
    requires ErrorsAtRoot(t)
    ensures forall r :: r in ChildrenRows(t, p, cs, account, expanded, level) ==> ShownRow(t, p, account, expanded, level, r)
    decreases Below(t, p), 0, |cs|
  {
    if cs != [] {
      ChildrenRowsShown(t, p, cs[..|cs| - 1], account, expanded, level);
      ChildRowsShown(t, p, cs[|cs| - 1], account, expanded, level);
    }
  }

  lemma {:induction false} ChildRowsShown(t: Tree, p: seq<string>, c: string, account: string,
                                          expanded: map<string, bool>, level: nat)
    requires ErrorsAtRoot(t)
    ensures forall r :: r in ChildRows(t, p, c, account, expanded, level) ==> ShownRow(t, p, account, expanded, level, r)
    decreases Below(t, p), 0, 0
  {
    var q := p + [c];
    if q !in t {
      return;
    }
    var node := t[q];
    var rows := ChildRows(t, p, c, account, expanded, level);
    if level == 0 && Upper(node.fullPath) == "INBOX" {
    } else if node.isError {
      assert |q| == 1;
    } else {
      var first := FolderRow(account, level, node.name, node.fullPath, Children(t, q) != {}, t, q);
      ShownChild(t, p, c, account, expanded, level);
      if Children(t, q) != {} && IsExpanded(expanded, FolderKey(account, node.fullPath)) {
        BelowShrinks(t, p, c);
        var deeper := LevelRows(t, q, account, expanded, level + 1);
        assert rows == [first] + deeper;
        LevelRowsShown(t, q, account, expanded, level + 1);
        forall r | r in deeper ensures ShownRow(t, p, account, expanded, level, r) {
          ShownDeeper(t, p, c, account, expanded, level, r);
        }
      } else {
        assert rows == [first];
      }
    }
  }

  lemma ShownChild(t: Tree, p: seq<string>, c: string, account: string, expanded: map<string, bool>, level: nat)
    requires p + [c] in t && !(level == 0 && Upper(t[p + [c]].fullPath) == "INBOX")
    ensures var q := p + [c];
      ShownRow(t, p, account, expanded, level,
               FolderRow(account, level, t[q].name, t[q].fullPath, Children(t, q) != {}, t, q))
  {
    assert (p + [c])[..|p|] == p;
  }

  /** A row shown one level down under an expanded child is shown under the parent. */
  lemma ShownDeeper(t: Tree, p: seq<string>, c: string, account: string, expanded: map<string, bool>,
                    level: nat, r: Row)
    requires p + [c] in t && IsExpanded(expanded, FolderKey(account, t[p + [c]].fullPath))
    requires ShownRow(t, p + [c], account, expanded, level + 1, r)
    ensures ShownRow(t, p, account, expanded, level, r)
  {
    var q := p + [c];
    if r.FolderRow? {
      assert q[..|p|] == p;
      assert r.path[..|p|] == r.path[..|q|][..|p|];
      if r.level == level + 1 {
        assert r.path[..|r.path| - 1] == q;
      }
    }
  }

  /** With nothing expanded the walk shows one level only. */
  lemma NothingExpandedOneLevel(t: Tree, p: seq<string>, account: string, expanded: map<string, bool>, level: nat)
    requires ErrorsAtRoot(t)
    requires forall k :: k in expanded ==> !expanded[k]
    ensures forall r :: r in LevelRows(t, p, account, expanded, level) && r.FolderRow? ==>
              r.level == level && |r.path| == |p| + 1
  {
    LevelRowsShown(t, p, account, expanded, level);
  }
}
