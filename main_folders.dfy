/**
 * The folder fetch of the older main window (src/main.py, fetch_imap_folders): the
 * folder names read from the LIST lines, each once, INBOX when none was read, ordered by
 * a priority key (a stable sort, so names of the same priority keep the server's order),
 * and the messages for the ways the fetch can fail.
 */
module MainFolders {
  import opened Opt
  import opened Strings
  import opened DateOrder
  import Mail

  /** The second-to-last "-separated segment of a line, when there are at least three. */
  function QuotedName(line: string): (r: Option<string>)
    ensures '"' in line ==> r == Mail.ParseFolderLine(line)
    ensures '"' !in line ==> r == None
  {
    var parts := Split(line, '"');
    if '"' !in line then
      assert IndexOf(line, '"') == |line|;
      None
    else if |parts| >= 3 then Some(parts[|parts| - 2]) else None
  }

  /** The name one line contributes: nothing for an empty line, an unreadable one or an
      empty name. */
  function NameIn(line: string): (r: seq<string>)
    ensures r == [] || (|r| == 1 && r[0] != "")
  {
    var name := if line != "" then QuotedName(line) else None;
    if name.Some? && name.value != "" then [name.value] else []
  }

  /** The non-empty names of the lines, in order, repeats included. */
  function QuotedNames(lines: seq<string>): (r: seq<string>)
    ensures forall k :: 0 <= k < |r| ==> r[k] != ""
    decreases |lines|
  {
    if lines == [] then [] else QuotedNames(lines[..|lines| - 1]) + NameIn(lines[|lines| - 1])
  }

  /** The loop at the start of the OK branch: each non-empty name once, in the order first
      met. */
  method CollectFolderNames(lines: seq<string>) returns (folders: seq<string>)
    ensures folders == Dedupe(QuotedNames(lines))
  {
    folders := [];
    var i := 0;
    while i < |lines|
      invariant 0 <= i <= |lines|
      invariant folders == Dedupe(QuotedNames(lines[..i]))
    {
      ghost var found := QuotedNames(lines[..i]);
      assert lines[..i + 1][..i] == lines[..i];
      assert QuotedNames(lines[..i + 1]) == found + NameIn(lines[i]);
      var folderName := if lines[i] != "" then QuotedName(lines[i]) else None;
      if folderName.Some? && folderName.value != "" {
        DedupeAppend(found, folderName.value);
        if folderName.value !in folders {
          folders := folders + [folderName.value];
        }
      } else {
        assert found + NameIn(lines[i]) == found;
      }
      i := i + 1;
    }
    assert lines[..i] == lines;
  }

  /** The sort key: INBOX 0, sent 1, drafts 2, deleted 3, junk 4, the rest 5 (upper-cased). */
  function Priority(name: string): (r: int)
    ensures 0 <= r <= 5
    ensures r == 0 <==> Upper(name) == "INBOX"
  {
    var u := Upper(name);
    if u == "INBOX" then 0
    else if Contains(u, "SENT") || Contains(u, "OUTBOX") then 1
    else if Contains(u, "DRAFT") || Contains(u, "DRAFTS") then 2
    else if Contains(u, "TRASH") || Contains(u, "DELETED") || Contains(u, "BIN") then 3
    else if Contains(u, "SPAM") || Contains(u, "JUNK") then 4
    else 5
  }

  /** The key ignores case. */
  lemma PriorityIgnoresCase(name: string)
    ensures Priority(Lower(name)) == Priority(name) && Priority(Upper(name)) == Priority(name)
  {
    CaseMapsAbsorb(name);
    UpperIdempotent(name);
  }

  lemma UpperIdempotent(s: string)
    ensures Upper(Upper(s)) == Upper(s)
  {
  }

  function PriorityKey(name: string): Option<int> {
    Some(Priority(name))
  }

  /** The folders of an OK answer: the names read, or ["INBOX"], sorted by priority. */
  function ListedFolders(lines: seq<string>): (r: seq<string>)
  {
    var names := Dedupe(QuotedNames(lines));
    var folders := if names == [] then ["INBOX"] else names;
    Sort(folders, PriorityKey, false)
  }

  /** The OK branch of fetch_imap_folders: the loop, the INBOX default, then the sort. */
  method OrderFolders(lines: seq<string>) returns (folders: seq<string>)
    ensures folders == ListedFolders(lines)
  {
    folders := CollectFolderNames(lines);
    if folders == [] {
      folders := ["INBOX"];
    }
    folders := Sort(folders, PriorityKey, false);
  }

  /** Each name read appears once; nothing else appears but INBOX, and that only when no
      name was read; the list is ordered by priority, and names of one priority keep the
      order in which the server listed them. */
  lemma ListedFoldersOrder(lines: seq<string>)
    ensures var r, names := ListedFolders(lines), Dedupe(QuotedNames(lines));
      Distinct(r)
      && (names == [] ==> r == ["INBOX"])
      && (names != [] ==> multiset(r) == multiset(names)
                          && forall n :: n in r <==> n in QuotedNames(lines))
      && SortedBy(r, PriorityKey, false)
      && forall p :: WithKey(r, PriorityKey, Some(p)) == WithKey(if names == [] then ["INBOX"] else names, PriorityKey, Some(p))
  {
    var names := Dedupe(QuotedNames(lines));
    var folders := if names == [] then ["INBOX"] else names;
    DedupeProperties(QuotedNames(lines));
    SortPermutes(folders, PriorityKey, false);
    SortSorted(folders, PriorityKey, false);
    forall p ensures WithKey(Sort(folders, PriorityKey, false), PriorityKey, Some(p)) == WithKey(folders, PriorityKey, Some(p)) {
      SortStable(folders, PriorityKey, false, Some(p));
    }
    PermutationKeepsDistinct(folders, Sort(folders, PriorityKey, false));
    var r := Sort(folders, PriorityKey, false);
    forall n ensures n in r <==> n in folders {
      assert n in r <==> n in multiset(r);
      assert n in folders <==> n in multiset(folders);
    }
  }

  /** A permutation of a list without repeats has no repeats. */
  lemma PermutationKeepsDistinct(a: seq<string>, b: seq<string>)
    requires Distinct(a) && multiset(a) == multiset(b)
    ensures Distinct(b)
  {
    forall x | x in multiset(a) ensures multiset(a)[x] == 1 {
      DistinctCount(a, x);
    }
    forall i, j | 0 <= i < j < |b| ensures b[i] != b[j] {
      TwoCopies(b, i, j);
    }
  }

  /** Two equal elements at two positions count twice. */
  lemma TwoCopies(b: seq<string>, i: nat, j: nat)
    requires i < j < |b|
    ensures b[i] == b[j] ==> multiset(b)[b[i]] >= 2
  {
    assert b == b[..j] + [b[j]] + b[j + 1..];
    assert b[..j][i] == b[i];
    assert b[i] in multiset(b[..j]);
  }

  lemma {:induction false} DistinctCount(a: seq<string>, x: string)
    requires Distinct(a) && x in a
    ensures multiset(a)[x] == 1
    decreases |a|
  {
    var init := a[..|a| - 1];
    assert a == init + [a[|a| - 1]];
    if a[|a| - 1] == x {
      assert x !in init by {
        forall k | 0 <= k < |init| ensures init[k] != x { assert init[k] == a[k]; }
      }
    } else {
      assert x in init;
      DistinctCount(init, x);
    }
  }

  // ---------------------------------------------------------------------
  // Failures
  // ---------------------------------------------------------------------

  const ErrorMark := Mail.ErrorMark

  /** What the list request gave: an exception text, or a status and the lines. */
  function FolderList(listing: Mail.Listing): (r: seq<string>)
    ensures r != []
  {
    match listing
    case Raised(e) => [Mail.ClassifyError(e)]
    case Answered(status, lines) =>
      if status == "OK" then ListedFolders(lines) else [ErrorMark + " Failed to list folders - " + status]
  }

  /** The list stored for the account and handed to the callback. In this copy the
      connection, the authentication attempt and logout all sit inside the inner try, so
      their exceptions are classified; the stages are parameters as in mail.py. */
  function FetchedFolders(account: Mail.AccountData, settings: Option<Mail.MailSettings>,
                          connectError: Option<string>, token: Option<string>, accepts: string -> bool,
                          listing: Mail.Listing, logoutError: Option<string>): (r: seq<string>)
    ensures r != []
  {
    if settings.None? then [Mail.NoSettings]
    else if connectError.Some? then [Mail.ClassifyError(connectError.value)]
    else if !Mail.AuthenticateImap(account, settings.value, token, accepts) then [Mail.OAuthRequired]
    else if listing.Answered? && logoutError.Some? then [Mail.ClassifyError(logoutError.value)]
    else FolderList(listing)
  }

  /** Every failure gives one message opening with the error mark; a successful answer
      gives the ordered names and never an empty list. */
  lemma FetchedFoldersShape(account: Mail.AccountData, settings: Option<Mail.MailSettings>,
                            connectError: Option<string>, token: Option<string>, accepts: string -> bool,
                            listing: Mail.Listing, logoutError: Option<string>)
    ensures var r := FetchedFolders(account, settings, connectError, token, accepts, listing, logoutError);
      ((|r| == 1 && StartsWith(r[0], ErrorMark))
       || (listing == Mail.Answered("OK", listing.lines) && r == ListedFolders(listing.lines)))
      && ((settings.Some? && connectError.None? && logoutError.None?
           && Mail.AuthenticateImap(account, settings.value, token, accepts)
           && listing.Answered? && listing.status == "OK") ==> r == ListedFolders(listing.lines))
  {
    Mail.ErrorMessagesMarked();
    match listing
    case Answered(status, _) =>
      Mail.Marked(" Failed to list folders - " + status);
    case Raised(_) =>
  }
}
