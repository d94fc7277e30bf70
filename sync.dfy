/**
 * The bookkeeping of the background sync service (SyncService in
 * src/utils/sync_service.py): the registry of accounts to sync, the folders discovered
 * for each and whether discovery finished, the folder opened in the window, the
 * callbacks told about sync events, the folders each sync cycle asks for, and the uid
 * difference that decides which stored messages a sync deletes.
 *
 * Threads, sleeps, the fetch itself and the database are not modelled as such: a
 * discovery result arrives as the argument of OnFoldersDiscovered, a cycle returns the
 * folder syncs it would start, a callback is an identifier and the callbacks that raise
 * on a call are a parameter, and the stored messages of one folder are a map from uid.
 */
module Sync {
  import opened Opt
  import opened Strings
  import Mail
  import LexOrder

  // ---------------------------------------------------------------------
  // Events and callbacks
  // ---------------------------------------------------------------------

  datatype EventType = FolderDiscoveryComplete | FolderDiscoveryError

  /** The arguments every callback receives: event type, account, folder and data. */
  datatype Notification = Notification(eventType: EventType, accountId: string, folderName: string, folders: seq<string>)

  /** One call of a callback. */
  datatype Delivery = Delivery(callback: nat, notification: Notification)

  /** The callbacks, in order, whose call raised. */
  function Failing(callbacks: seq<nat>, raises: set<nat>): seq<nat>
    decreases |callbacks|
  {
    if callbacks == [] then []
    else
      var last := callbacks[|callbacks| - 1];
      Failing(callbacks[..|callbacks| - 1], raises) + if last in raises then [last] else []
  }

  /** A callback is logged as failed exactly when it is registered and raised. */
  lemma {:induction false} FailingMembers(callbacks: seq<nat>, raises: set<nat>)
    ensures forall c :: c in Failing(callbacks, raises) <==> c in callbacks && c in raises
    decreases |callbacks|
  {
    if callbacks != [] {
      var init := callbacks[..|callbacks| - 1];
      FailingMembers(init, raises);
      assert callbacks == init + [callbacks[|callbacks| - 1]];
    }
  }

  // ---------------------------------------------------------------------
  // Discovery
  // ---------------------------------------------------------------------

  /** The test on_folders_discovered applies to the list fetch_imap_folders delivers. */
  predicate DiscoverySucceeded(folders: seq<string>) {
    folders != [] && !StartsWith(folders[0], Mail.ErrorMark)
  }

  /** No failure of the fetch is taken for a folder list. A fetch that lists folders
      succeeds unless a folder whose own name opens with the error mark sorts first; when
      no listed name does, it succeeds. */
  lemma FetchedDiscovery(account: Mail.AccountData, settings: Option<Mail.MailSettings>,
                         connectError: Option<string>, token: Option<string>, accepts: string -> bool,
                         listing: Mail.Listing, logoutError: Option<string>)
    ensures var r := Mail.FetchedFolders(account, settings, connectError, token, accepts, listing, logoutError);
      (Mail.IsErrorList(r) ==> !DiscoverySucceeded(r))
      && (settings.None? || connectError.Some? || logoutError.Some? ==> !DiscoverySucceeded(r))
      && (settings.Some? && connectError.None? && logoutError.None?
          && Mail.AuthenticateImap(account, settings.value, token, accepts)
          && listing.Answered? && listing.status == "OK" && Mail.FolderNames(listing.lines) != []
          && (forall k :: 0 <= k < |Mail.FolderNames(listing.lines)| ==>
                !StartsWith(Mail.FolderNames(listing.lines)[k], Mail.ErrorMark))
          ==> DiscoverySucceeded(r))
  {
    Mail.FetchedFoldersNonEmpty(account, settings, connectError, token, accepts, listing, logoutError);
    Mail.ErrorMessagesMarked();
    var r := Mail.FetchedFolders(account, settings, connectError, token, accepts, listing, logoutError);
    if settings.Some? && connectError.None? && logoutError.None?
       && Mail.AuthenticateImap(account, settings.value, token, accepts)
       && listing.Answered? && listing.status == "OK" && Mail.FolderNames(listing.lines) != [] {
      var names := Mail.FolderNames(listing.lines);
      LexOrder.SortLexPermutes(names);
      assert r == LexOrder.SortLex(names);
      assert r[0] in multiset(names);
    }
  }

  // ---------------------------------------------------------------------
  // The folder choice of a sync cycle
  // ---------------------------------------------------------------------

  /** The folders a cycle tries for an account: INBOX, then the current folder when one is
      set (a non-empty name) and it is not INBOX. */
  function FoldersToSync(current: Option<string>): (r: seq<string>)
    ensures 1 <= |r| <= 2 && r[0] == "INBOX"
    ensures |r| == 2 <==> current.Some? && current.value != "" && current.value != "INBOX"
    ensures |r| == 2 ==> r[1] == current.value && r[1] != r[0]
  {
    if current.Some? && current.value != "" && current.value != "INBOX" then ["INBOX", current.value]
    else ["INBOX"]
  }

  /** One folder sync a cycle starts. */
  datatype SyncRequest = SyncRequest(account: Mail.AccountData, folder: string)

  /** all_folders.get(account_id, []) */
  function FoldersOf(allFolders: map<string, seq<string>>, accountId: string): seq<string> {
    if accountId in allFolders then allFolders[accountId] else []
  }

  /** folder_discovery_complete.get(account_id, False) */
  predicate IsComplete(complete: map<string, bool>, accountId: string) {
    accountId in complete && complete[accountId]
  }

  /** The candidates that are among the account's discovered folders, in order. */
  function Picked(account: Mail.AccountData, candidates: seq<string>, known: seq<string>): seq<SyncRequest>
    decreases |candidates|
  {
    if candidates == [] then []
    else
      var last := candidates[|candidates| - 1];
      Picked(account, candidates[..|candidates| - 1], known)
      + if last in known then [SyncRequest(account, last)] else []
  }

  /** The syncs one account contributes to a cycle. */
  function AccountTargets(accountId: string, accounts: map<string, Mail.AccountData>, complete: map<string, bool>,
                          allFolders: map<string, seq<string>>, current: Option<string>): seq<SyncRequest>
  {
    if accountId !in accounts || !IsComplete(complete, accountId) then []
    else Picked(accounts[accountId], FoldersToSync(current), FoldersOf(allFolders, accountId))
  }

  /** The syncs of one cycle, account by account in registration order. */
  function Targets(order: seq<string>, accounts: map<string, Mail.AccountData>, complete: map<string, bool>,
                   allFolders: map<string, seq<string>>, current: Option<string>): seq<SyncRequest>
    decreases |order|
  {
    if order == [] then []
    else
      Targets(order[..|order| - 1], accounts, complete, allFolders, current)
      + AccountTargets(order[|order| - 1], accounts, complete, allFolders, current)
  }

  lemma {:induction false} PickedMembers(account: Mail.AccountData, candidates: seq<string>, known: seq<string>,
                                         r: SyncRequest)
    ensures r in Picked(account, candidates, known) <==> r.account == account && r.folder in candidates && r.folder in known
    decreases |candidates|
  {
    if candidates != [] {
      var init := candidates[..|candidates| - 1];
      PickedMembers(account, init, known, r);
      assert candidates == init + [candidates[|candidates| - 1]];
    }
  }

  /** A cycle starts a sync of folder f for an account exactly when the account is
      registered, its discovery has completed, f is INBOX or the current folder, and f is
      one of the account's discovered folders. */
  lemma {:induction false} TargetsMembers(order: seq<string>, accounts: map<string, Mail.AccountData>,
                                          complete: map<string, bool>, allFolders: map<string, seq<string>>,
                                          current: Option<string>, r: SyncRequest)
    requires forall k :: 0 <= k < |order| ==> order[k] in accounts && accounts[order[k]].email == order[k]
    ensures r in Targets(order, accounts, complete, allFolders, current)
            <==> r.account.email in order && accounts[r.account.email] == r.account
                 && IsComplete(complete, r.account.email)
                 && r.folder in FoldersToSync(current) && r.folder in FoldersOf(allFolders, r.account.email)
    decreases |order|
  {
    if order != [] {
      var init := order[..|order| - 1];
      var id := order[|order| - 1];
      TargetsMembers(init, accounts, complete, allFolders, current, r);
      if IsComplete(complete, id) {
        PickedMembers(accounts[id], FoldersToSync(current), FoldersOf(allFolders, id), r);
      }
      assert order == init + [id];
    }
  }

  // ---------------------------------------------------------------------
  // The database update of a folder sync
  // ---------------------------------------------------------------------

  /** A fetched message: its uid and the columns stored with it. */
  datatype FetchedMessage = FetchedMessage(uid: string, data: string)

  function UidsOf(messages: seq<FetchedMessage>): set<string>
    decreases |messages|
  {
    if messages == [] then {} else UidsOf(messages[..|messages| - 1]) + {messages[|messages| - 1].uid}
  }

  /** The stored uids the server no longer lists. */
  function UidsToRemove(existing: set<string>, newMessages: seq<FetchedMessage>): set<string> {
    existing - UidsOf(newMessages)
  }

  /** store_messages: each message written in turn with INSERT OR REPLACE, so a later
      message with a uid replaces an earlier one. */
  function StoreAll(db: map<string, FetchedMessage>, messages: seq<FetchedMessage>): map<string, FetchedMessage>
    decreases |messages|
  {
    if messages == [] then db
    else
      var last := messages[|messages| - 1];
      StoreAll(db, messages[..|messages| - 1])[last.uid := last]
  }

  /** The messages stored for the folder after _update_messages_in_db. `existing` is the
      set of uids get_messages listed, which the stored uids include. */
  function UpdatedDb(db: map<string, FetchedMessage>, existing: set<string>, newMessages: seq<FetchedMessage>)
    : map<string, FetchedMessage>
  {
    StoreAll(db - UidsToRemove(existing, newMessages), newMessages)
  }

  /** The stored message with a uid is the last fetched one with that uid. */
  function LastWith(messages: seq<FetchedMessage>, uid: string): (r: FetchedMessage)
    requires uid in UidsOf(messages)
    ensures r in messages && r.uid == uid
    decreases |messages|
  {
    var last := messages[|messages| - 1];
    if last.uid == uid then last else LastWith(messages[..|messages| - 1], uid)
  }

  lemma {:induction false} StoreAllContents(db: map<string, FetchedMessage>, messages: seq<FetchedMessage>)
    ensures StoreAll(db, messages).Keys == db.Keys + UidsOf(messages)
    ensures forall u :: u in UidsOf(messages) ==> StoreAll(db, messages)[u] == LastWith(messages, u)
    ensures forall u :: u in db && u !in UidsOf(messages) ==> StoreAll(db, messages)[u] == db[u]
    decreases |messages|
  {
    if messages != [] {
      StoreAllContents(db, messages[..|messages| - 1]);
    }
  }

  /** After the update the folder holds the fetched messages, the last of each uid, plus
      the stored messages that get_messages did not list; the listed ones the server no
      longer has are gone. */
  lemma UpdatedDbContents(db: map<string, FetchedMessage>, existing: set<string>, newMessages: seq<FetchedMessage>)
    requires existing <= db.Keys
    ensures var r := UpdatedDb(db, existing, newMessages);
      r.Keys == UidsOf(newMessages) + (db.Keys - existing)
      && (forall u :: u in UidsOf(newMessages) ==> r[u] == LastWith(newMessages, u))
      && (forall u :: u in db && u !in existing && u !in UidsOf(newMessages) ==> r[u] == db[u])
  {
    StoreAllContents(db - UidsToRemove(existing, newMessages), newMessages);
  }

  /** When get_messages listed every stored uid, the folder ends with exactly the uids the
      server sent. */
  lemma UpdatedDbMirrorsServer(db: map<string, FetchedMessage>, newMessages: seq<FetchedMessage>)
    ensures UpdatedDb(db, db.Keys, newMessages).Keys == UidsOf(newMessages)
  {
    UpdatedDbContents(db, db.Keys, newMessages);
  }

  /** The update is idempotent: syncing the same answer again changes nothing. */
  lemma UpdatedDbIdempotent(db: map<string, FetchedMessage>, newMessages: seq<FetchedMessage>)
    ensures var once := UpdatedDb(db, db.Keys, newMessages);
      UpdatedDb(once, once.Keys, newMessages) == once
  {
    var once := UpdatedDb(db, db.Keys, newMessages);
    UpdatedDbContents(db, db.Keys, newMessages);
    UpdatedDbContents(once, once.Keys, newMessages);
  }

  // ---------------------------------------------------------------------
  // Registration order
  // ---------------------------------------------------------------------

  /** The order with one id taken out. */
  function Without(order: seq<string>, id: string): seq<string>
    decreases |order|
  {
    if order == [] then []
    else
      var last := order[|order| - 1];
      Without(order[..|order| - 1], id) + if last == id then [] else [last]
  }

  lemma {:induction false} WithoutMembers(order: seq<string>, id: string)
    ensures forall x :: x in Without(order, id) <==> x in order && x != id
    decreases |order|
  {
    if order != [] {
      WithoutMembers(order[..|order| - 1], id);
      assert order == order[..|order| - 1] + [order[|order| - 1]];
    }
  }

  lemma {:induction false} WithoutDistinct(order: seq<string>, id: string)
    requires Distinct(order)
    ensures Distinct(Without(order, id))
    decreases |order|
  {
    if order != [] {
      var init := order[..|order| - 1];
      var last := order[|order| - 1];
      WithoutDistinct(init, id);
      WithoutMembers(init, id);
      assert last !in init by {
        forall k | 0 <= k < |init| ensures init[k] != last { assert init[k] == order[k]; }
      }
      if last != id {
        DistinctSnoc(Without(init, id), last);
      }
    }
  }

  lemma DistinctSnoc(s: seq<string>, x: string)
    requires Distinct(s) && x !in s
    ensures Distinct(s + [x])
  {
  }

  /** Taking out an id that is not there changes nothing. */
  lemma {:induction false} WithoutAbsent(order: seq<string>, id: string)
    requires id !in order
    ensures Without(order, id) == order
    decreases |order|
  {
    if order != [] {
      WithoutAbsent(order[..|order| - 1], id);
      assert order == order[..|order| - 1] + [order[|order| - 1]];
    }
  }

  /** Registering a new account and unregistering it again leaves the registries as they
      were. */
  lemma UnregisterUndoesRegister(accounts: map<string, Mail.AccountData>, order: seq<string>,
                                 complete: map<string, bool>, allFolders: map<string, seq<string>>,
                                 account: Mail.AccountData)
    requires account.email !in accounts && account.email !in order
    requires account.email !in complete && account.email !in allFolders
    ensures accounts[account.email := account] - {account.email} == accounts
    ensures Without(order + [account.email], account.email) == order
    ensures complete[account.email := false] - {account.email} == complete
    ensures allFolders - {account.email} == allFolders
  {
    WithoutAbsent(order, account.email);
    assert (order + [account.email])[..|order|] == order;
  }

  /** Taking out a key that is not there changes nothing. */
  lemma RemoveAbsent<V>(m: map<string, V>, k: string)
    requires k !in m
    ensures m - {k} == m
  {
    assert (m - {k}).Keys == m.Keys;
  }

  /** Each registered account once in the order, and each keyed by its email. */
  ghost predicate Registry(accounts: map<string, Mail.AccountData>, order: seq<string>) {
    Distinct(order)
    && (forall id :: id in accounts <==> id in order)
    && forall id :: id in accounts ==> accounts[id].email == id
  }

  lemma RegisterKeepsRegistry(accounts: map<string, Mail.AccountData>, order: seq<string>, account: Mail.AccountData)
    requires Registry(accounts, order)
    ensures Registry(accounts[account.email := account],
                     if account.email in accounts then order else order + [account.email])
  {
    if account.email !in accounts {
      DistinctSnoc(order, account.email);
    }
  }

  lemma UnregisterKeepsRegistry(accounts: map<string, Mail.AccountData>, order: seq<string>, id: string)
    requires Registry(accounts, order)
    ensures Registry(accounts - {id}, Without(order, id))
  {
    WithoutMembers(order, id);
    WithoutDistinct(order, id);
  }

  // ---------------------------------------------------------------------
  // The service
  // ---------------------------------------------------------------------

  class SyncService {
    var syncInterval: nat
    var syncCallbacks: seq<nat>
    var accountsToSync: map<string, Mail.AccountData>
    /** The order in which accounts_to_sync iterates: the order of first registration. */
    var accountOrder: seq<string>
    var allFolders: map<string, seq<string>>
    var currentFolder: Option<string>
    var folderDiscoveryComplete: map<string, bool>

    ghost predicate Valid()
      reads this
    {
      Registry(accountsToSync, accountOrder)
    }

    constructor (syncInterval: nat)
      ensures Valid()
      ensures this.syncInterval == syncInterval && syncCallbacks == []
      ensures accountsToSync == map[] && accountOrder == [] && allFolders == map[]
      ensures currentFolder == None && folderDiscoveryComplete == map[]
    {
      this.syncInterval := syncInterval;
      syncCallbacks := [];
      accountsToSync := map[];
      accountOrder := [];
      allFolders := map[];
      currentFolder := None;
      folderDiscoveryComplete := map[];
    }

    /** add_sync_callback */
    method AddSyncCallback(callback: nat)
      modifies this`syncCallbacks
      ensures syncCallbacks == old(syncCallbacks) + [callback]
    {
      syncCallbacks := syncCallbacks + [callback];
    }

    /** register_account: the account is stored under its email and its discovery marked
        as not yet complete; an account registered again keeps its place in the order. The
        discovery it starts ends in OnFoldersDiscovered. */
    method RegisterAccount(account: Mail.AccountData)
      requires Valid()
      modifies this`accountsToSync, this`accountOrder, this`folderDiscoveryComplete
      ensures Valid()
      ensures accountsToSync == old(accountsToSync)[account.email := account]
      ensures folderDiscoveryComplete == old(folderDiscoveryComplete)[account.email := false]
      ensures accountOrder == if account.email in old(accountsToSync) then old(accountOrder)
                              else old(accountOrder) + [account.email]
    {
      RegisterKeepsRegistry(accountsToSync, accountOrder, account);
      var accountId := account.email;
      if accountId !in accountsToSync {
        accountOrder := accountOrder + [accountId];
      }
      accountsToSync := accountsToSync[accountId := account];
      folderDiscoveryComplete := folderDiscoveryComplete[accountId := false];
    }

    /** unregister_account: the id leaves all three registries; an unknown id changes
        nothing, and other accounts keep their entries. */
    method UnregisterAccount(accountId: string)
      requires Valid()
      modifies this`accountsToSync, this`accountOrder, this`allFolders, this`folderDiscoveryComplete
      ensures Valid()
      ensures accountsToSync == old(accountsToSync) - {accountId}
      ensures accountOrder == Without(old(accountOrder), accountId)
      ensures allFolders == old(allFolders) - {accountId}
      ensures folderDiscoveryComplete == old(folderDiscoveryComplete) - {accountId}
    {
      UnregisterKeepsRegistry(accountsToSync, accountOrder, accountId);
      if accountId in accountsToSync {
        accountsToSync := accountsToSync - {accountId};
        accountOrder := Without(accountOrder, accountId);
      } else {
        WithoutAbsent(accountOrder, accountId);
        RemoveAbsent(accountsToSync, accountId);
      }
      if accountId in allFolders {
        allFolders := allFolders - {accountId};
      } else {
        RemoveAbsent(allFolders, accountId);
      }
      if accountId in folderDiscoveryComplete {
        folderDiscoveryComplete := folderDiscoveryComplete - {accountId};
      } else {
        RemoveAbsent(folderDiscoveryComplete, accountId);
      }
    }

    /** set_current_folder */
    method SetCurrentFolder(folderName: string)
      modifies this`currentFolder
      ensures currentFolder == Some(folderName)
    {
      currentFolder := Some(folderName);
    }

    /** _notify_callbacks: every callback is called with the same arguments, in the order
        of registration, whether or not an earlier one raised; `raises` names the callbacks
        that raise on this call, and `failed` lists the ones logged as failing. */
    method NotifyCallbacks(notification: Notification, raises: set<nat>)
      returns (delivered: seq<Delivery>, failed: seq<nat>)
      ensures |delivered| == |syncCallbacks|
      ensures forall k :: 0 <= k < |delivered| ==> delivered[k] == Delivery(syncCallbacks[k], notification)
      ensures failed == Failing(syncCallbacks, raises)
    {
      delivered := [];
      failed := [];
      for i := 0 to |syncCallbacks|
        invariant |delivered| == i
        invariant forall k :: 0 <= k < i ==> delivered[k] == Delivery(syncCallbacks[k], notification)
        invariant failed == Failing(syncCallbacks[..i], raises)
      {
        var callback := syncCallbacks[i];
        assert syncCallbacks[..i + 1][..i] == syncCallbacks[..i];
        delivered := delivered + [Delivery(callback, notification)];
        if callback in raises {
          failed := failed + [callback];
        }
      }
      assert syncCallbacks[..|syncCallbacks|] == syncCallbacks;
    }

    /** on_folders_discovered: a list that is not empty and does not open with the error
        mark is stored as the account's folders and marks its discovery complete; any
        other list changes nothing. Either way the callbacks hear of it. */
    method OnFoldersDiscovered(accountId: string, folders: seq<string>, raises: set<nat>)
      returns (delivered: seq<Delivery>, failed: seq<nat>)
      modifies this`allFolders, this`folderDiscoveryComplete
      ensures allFolders == if DiscoverySucceeded(folders) then old(allFolders)[accountId := folders]
                            else old(allFolders)
      ensures folderDiscoveryComplete == if DiscoverySucceeded(folders) then old(folderDiscoveryComplete)[accountId := true]
                                         else old(folderDiscoveryComplete)
      ensures var event := if DiscoverySucceeded(folders) then FolderDiscoveryComplete else FolderDiscoveryError;
        |delivered| == |syncCallbacks|
        && forall k :: 0 <= k < |delivered| ==> delivered[k] == Delivery(syncCallbacks[k], Notification(event, accountId, "", folders))
      ensures failed == Failing(syncCallbacks, raises)
    {
      if folders != [] && !StartsWith(folders[0], "Error:") {
        allFolders := allFolders[accountId := folders];
        folderDiscoveryComplete := folderDiscoveryComplete[accountId := true];
        delivered, failed := NotifyCallbacks(Notification(FolderDiscoveryComplete, accountId, "", folders), raises);
      } else {
        delivered, failed := NotifyCallbacks(Notification(FolderDiscoveryError, accountId, "", folders), raises);
      }
    }

    /** One pass of _sync_loop over the accounts: the folder syncs it starts, in order. */
    method SyncCycle() returns (requests: seq<SyncRequest>)
      requires Valid()
      ensures requests == Targets(accountOrder, accountsToSync, folderDiscoveryComplete, allFolders, currentFolder)
    {
      requests := [];
      for i := 0 to |accountOrder|
        invariant requests == Targets(accountOrder[..i], accountsToSync, folderDiscoveryComplete, allFolders, currentFolder)
      {
        var accountId := accountOrder[i];
        assert accountOrder[..i + 1][..i] == accountOrder[..i];
        assert accountId in accountsToSync;
        ghost var before := Targets(accountOrder[..i], accountsToSync, folderDiscoveryComplete, allFolders, currentFolder);
        assert Targets(accountOrder[..i + 1], accountsToSync, folderDiscoveryComplete, allFolders, currentFolder)
            == before + AccountTargets(accountId, accountsToSync, folderDiscoveryComplete, allFolders, currentFolder);
        if accountId in folderDiscoveryComplete && folderDiscoveryComplete[accountId] {
          var foldersToSync := ["INBOX"];
          if currentFolder.Some? && currentFolder.value != "" && currentFolder.value != "INBOX" {
            foldersToSync := foldersToSync + [currentFolder.value];
          }
          assert foldersToSync == FoldersToSync(currentFolder);
          var picked := PickKnown(accountsToSync[accountId], foldersToSync, accountId);
          requests := requests + picked;
        } else {
          assert before + [] == before;
        }
      }
      assert accountOrder[..|accountOrder|] == accountOrder;
    }

    /** The inner loop of a cycle: each candidate the account's discovered folders hold. */
    method PickKnown(account: Mail.AccountData, foldersToSync: seq<string>, accountId: string)
      returns (picked: seq<SyncRequest>)
      ensures picked == Picked(account, foldersToSync, FoldersOf(allFolders, accountId))
    {
      picked := [];
      for j := 0 to |foldersToSync|
        invariant picked == Picked(account, foldersToSync[..j], FoldersOf(allFolders, accountId))
      {
        var folderName := foldersToSync[j];
        assert foldersToSync[..j + 1][..j] == foldersToSync[..j];
        if accountId in allFolders && folderName in allFolders[accountId] {
          picked := picked + [SyncRequest(account, folderName)];
        }
      }
      assert foldersToSync[..|foldersToSync|] == foldersToSync;
    }

    /** get_all_folders: the discovered folders, [] for an account without any. */
    function GetAllFolders(accountId: string): (r: seq<string>)
      reads this
      ensures accountId !in allFolders ==> r == []
      ensures accountId in allFolders ==> r == allFolders[accountId]
    {
      FoldersOf(allFolders, accountId)
    }

    /** is_folder_discovery_complete: false for an account never registered. */
    function IsFolderDiscoveryComplete(accountId: string): (r: bool)
      reads this
      ensures accountId !in folderDiscoveryComplete ==> !r
      ensures accountId in folderDiscoveryComplete ==> r == folderDiscoveryComplete[accountId]
    {
      IsComplete(folderDiscoveryComplete, accountId)
    }
  }

  /** The uid difference of _update_messages_in_db, with the two writes it makes. */
  method UpdateMessagesInDb(db: map<string, FetchedMessage>, existingMessages: seq<FetchedMessage>,
                            newMessages: seq<FetchedMessage>)
    returns (updated: map<string, FetchedMessage>, uidsToRemove: set<string>)
    ensures uidsToRemove == UidsToRemove(UidsOf(existingMessages), newMessages)
    ensures updated == UpdatedDb(db, UidsOf(existingMessages), newMessages)
  {
    var existingUids := UidsOf(existingMessages);
    var newUids := UidsOf(newMessages);
    uidsToRemove := existingUids - newUids;
    updated := db;
    if uidsToRemove != {} {
      updated := updated - uidsToRemove;
    } else {
      assert updated == db - uidsToRemove;
    }
    if newMessages != [] {
      updated := StoreMessages(updated, newMessages);
    }
  }

  /** store_messages: the messages written one after another. */
  method StoreMessages(db: map<string, FetchedMessage>, messages: seq<FetchedMessage>)
    returns (updated: map<string, FetchedMessage>)
    ensures updated == StoreAll(db, messages)
  {
    updated := db;
    for i := 0 to |messages|
      invariant updated == StoreAll(db, messages[..i])
    {
      assert messages[..i + 1][..i] == messages[..i];
      updated := updated[messages[i].uid := messages[i]];
    }
    assert messages[..|messages|] == messages;
  }
}
