/**
 * The folder listing of src/utils/mail.py: reading a folder name out of one line of an
 * IMAP LIST response, the list handed to the sidebar (sorted names or a single error
 * message), the XOAUTH2 authentication string and the decision whether to authenticate.
 * The IMAP connection, D-Bus and the background thread are parameters: what the server
 * answers, whether a token was obtained, which exception text was raised.
 */
module Mail {
  import opened Opt
  import opened Strings
  import opened LexOrder

  // ---------------------------------------------------------------------
  // XOAUTH2
  // ---------------------------------------------------------------------

  /** The initial client response of the XOAUTH2 SASL mechanism. */
  function XOAuth2String(username: string, token: string): (r: string)
    ensures StartsWith(r, "user=" + username) && EndsWith(r, "\U{1}\U{1}")
  {
    "user=" + username + "\U{1}auth=Bearer " + token + "\U{1}\U{1}"
  }

  /** The string is the user field, the bearer field and two empty fields, separated by
      ^A, so both values can be read back from it. */
  lemma XOAuth2Fields(username: string, token: string)
    requires '\U{1}' !in username && '\U{1}' !in token
    ensures Split(XOAuth2String(username, token), '\U{1}') == ["user=" + username, "auth=Bearer " + token, "", ""]
  {
    var user, auth := "user=" + username, "auth=Bearer " + token;
    assert XOAuth2String(username, token) == user + ['\U{1}'] + auth + ['\U{1}'] + ['\U{1}'];
    SplitTwoFields(user, auth, '\U{1}');
  }

  /** Two fields, each closed by the separator, and a final separator. */
  lemma SplitTwoFields(a: string, b: string, c: char)
    requires c !in a && c !in b
    ensures Split(a + [c] + b + [c] + [c], c) == [a, b, "", ""]
  {
    var y := "" + [c] + "";
    var x := b + [c] + y;
    var s := a + [c] + b + [c] + [c];
    assert s == a + [c] + x;
    SplitHead("", "", c);
    SplitHead(b, y, c);
    SplitHead(a, x, c);
    assert Split(s, c) == [a] + ([b] + ([""] + [""]));
    ListOfFour(a, b, "");
  }

  lemma ListOfFour(a: string, b: string, e: string)
    ensures [a] + ([b] + ([e] + [e])) == [a, b, e, e]
  {
  }

  // ---------------------------------------------------------------------
  // authenticate_imap
  // ---------------------------------------------------------------------

  /** The account as D-Bus describes it: its address and whether it offers OAuth2. */
  datatype AccountData = AccountData(email: string, path: string, hasOAuth2: bool)

  /** The mail settings; only the IMAP user name matters here, and it may be missing. */
  datatype MailSettings = MailSettings(imapUsername: Option<string>)

  /** mail_settings.get("imap_username", email) */
  function UserName(account: AccountData, settings: MailSettings): string {
    if settings.imapUsername.Some? then settings.imapUsername.value else account.email
  }

  /** The string authenticate_imap sends, when it sends one: only for an OAuth2 account
      and a non-empty token. */
  function AuthAttempt(account: AccountData, settings: MailSettings, token: Option<string>): (r: Option<string>)
    ensures r.Some? <==> account.hasOAuth2 && token.Some? && token.value != ""
    ensures r.Some? ==> r.value == XOAuth2String(UserName(account, settings), token.value)
  {
    if !account.hasOAuth2 then None
    else if token.None? || token.value == "" then None
    else Some(XOAuth2String(UserName(account, settings), token.value))
  }

  /** authenticate_imap: true exactly when a string was sent and the server accepted it
      (`accepts` stands for the server; a refusal is the exception path). */
  function AuthenticateImap(account: AccountData, settings: MailSettings, token: Option<string>,
                            accepts: string -> bool): (r: bool)
    ensures r ==> account.hasOAuth2 && token.Some? && token.value != ""
    ensures r ==> accepts(XOAuth2String(UserName(account, settings), token.value))
    ensures (account.hasOAuth2 && token.Some? && token.value != ""
             && accepts(XOAuth2String(UserName(account, settings), token.value))) ==> r
  {
    var attempt := AuthAttempt(account, settings, token);
    attempt.Some? && accepts(attempt.value)
  }

  /** Without OAuth2 or without a token nothing is sent and the answer is false, whatever
      the server would have said. */
  lemma NoTokenNoLogin(account: AccountData, settings: MailSettings, token: Option<string>,
                       accepts: string -> bool)
    requires !account.hasOAuth2 || token.None? || token == Some("")
    ensures AuthAttempt(account, settings, token) == None
    ensures !AuthenticateImap(account, settings, token, accepts)
  {
  }

  // ---------------------------------------------------------------------
  // parse_folder_line
  // ---------------------------------------------------------------------

  /** parse_folder_line: on a line with a quote, the second-to-last "-separated segment;
      otherwise the whitespace tokens from the third on, joined by single spaces. */
  function ParseFolderLine(line: string): (r: Option<string>)
    ensures r.Some? && '"' in line ==> '"' !in r.value
  {
    if '"' in line then
      var parts := Split(line, '"');
      if |parts| >= 3 then Some(parts[|parts| - 2]) else None
    else
      var parts := SplitWhitespace(line);
      if |parts| >= 3 then Some(JoinWith(parts[2..], " ")) else None
  }

  /** The "-separated segments of a line that ends with a quoted name. */
  lemma QuotedLineParts(prefix: string, name: string)
    requires '"' !in name
    ensures var line := prefix + "\"" + name + "\"";
      '"' in line && Split(line, '"') == Split(prefix, '"') + [name, ""]
  {
    var line := prefix + "\"" + name + "\"";
    assert line == prefix + ['"'] + (name + ['"'] + "");
    SplitConcat(prefix, name + ['"'] + "", '"');
    SplitConcat(name, "", '"');
    assert IndexOf(name, '"') == |name|;
    assert IndexOf("", '"') == 0;
    assert line[|prefix|] == '"';
  }

  /** A line that ends with a quoted name gives that name, whatever comes before it
      (the attributes and the quoted delimiter of a LIST response). */
  lemma QuotedNameRead(prefix: string, name: string)
    requires '"' !in name
    ensures ParseFolderLine(prefix + "\"" + name + "\"") == Some(name)
  {
    QuotedLineParts(prefix, name);
  }

  /** A line without quotes gives its tokens after the second. */
  lemma UnquotedNameRead(toks: seq<string>)
    requires |toks| >= 3
    requires forall k :: 0 <= k < |toks| ==> toks[k] != [] && NoSpace(toks[k]) && '"' !in toks[k]
    ensures ParseFolderLine(JoinWith(toks, " ")) == Some(JoinWith(toks[2..], " "))
  {
    NoQuoteInJoin(toks);
    SplitWhitespaceJoin(toks);
  }

  lemma {:induction false} NoQuoteInJoin(toks: seq<string>)
    requires forall k :: 0 <= k < |toks| ==> '"' !in toks[k]
    ensures '"' !in JoinWith(toks, " ")
  {
    if |toks| > 1 {
      NoQuoteInJoin(toks[1..]);
      assert JoinWith(toks, " ") == toks[0] + " " + JoinWith(toks[1..], " ");
    }
  }

  /** The "-separated segments of a line whose name is an unquoted atom after a quoted
      delimiter. */
  lemma DelimiterLineParts(attributes: string, delimiter: string, name: string)
    requires '"' !in attributes && '"' !in delimiter && '"' !in name
    ensures var line := attributes + " \"" + delimiter + "\" " + name;
      '"' in line && Split(line, '"') == [attributes + " ", delimiter, " " + name]
  {
    var line := attributes + " \"" + delimiter + "\" " + name;
    var front, back := attributes + " ", " " + name;
    assert line == front + ['"'] + (delimiter + ['"'] + back);
    assert line[|front|] == '"';
    SplitNone(front, '"');
    SplitNone(delimiter, '"');
    SplitNone(back, '"');
    SplitConcat(front, delimiter + ['"'] + back, '"');
    SplitConcat(delimiter, back, '"');
  }

  /** As written, a line whose name is an unquoted atom after a quoted delimiter, such as
      (\HasNoChildren) "/" INBOX, gives the delimiter instead of the name. */
  lemma UnquotedNameGivesDelimiter(attributes: string, delimiter: string, name: string)
    requires '"' !in attributes && '"' !in delimiter && '"' !in name
    ensures ParseFolderLine(attributes + " \"" + delimiter + "\" " + name) == Some(delimiter)
  {
    DelimiterLineParts(attributes, delimiter, name);
  }

  /** parse_folder_line as evidently intended: the name is the last field, quoted or not. */
  function ParseFolderLineIntended(line: string): (r: Option<string>)
    ensures '"' !in line ==> r == ParseFolderLine(line)
  {
    if '"' in line then
      var parts := Split(line, '"');
      var last := parts[|parts| - 1];
      if Strip(last) != "" then Some(Strip(last))
      else if |parts| >= 3 then Some(parts[|parts| - 2]) else None
    else ParseFolderLine(line)
  }

  /** Corrected, the unquoted name after a quoted delimiter is read... */
  lemma UnquotedNameReadIntended(attributes: string, delimiter: string, name: string)
    requires '"' !in attributes && '"' !in delimiter && '"' !in name
    requires name != [] && !IsSpace(name[0]) && !IsSpace(name[|name| - 1])
    ensures ParseFolderLineIntended(attributes + " \"" + delimiter + "\" " + name) == Some(name)
  {
    DelimiterLineParts(attributes, delimiter, name);
    StripSpacePrefix(name);
  }

  /** ... and a quoted name is read as before. */
  lemma QuotedNameReadIntended(prefix: string, name: string)
    requires '"' !in name
    ensures ParseFolderLineIntended(prefix + "\"" + name + "\"") == Some(name)
  {
    QuotedLineParts(prefix, name);
  }

  // ---------------------------------------------------------------------
  // get_folders_from_imap
  // ---------------------------------------------------------------------

  /** What mail.list() does: raise with a message, or answer with a status and the
      lines (already decoded; an empty line stands for a falsy entry). */
  datatype Listing = Raised(error: string) | Answered(status: string, lines: seq<string>)

  predicate AuthError(e: string) {
    Contains(e, "Authentication") || Contains(Lower(e), "login") || Contains(e, "AUTHENTICATE")
  }

  predicate ConnectionError(e: string) {
    Contains(Lower(e), "timeout") || Contains(Lower(e), "connection")
  }

  predicate SslError(e: string) {
    Contains(e, "SSL") || Contains(Lower(e), "certificate")
  }

  /** The mark that opens every error message listed instead of folders. */
  const ErrorMark := "Error:"

  const AuthFailed := ErrorMark + " Authentication failed - check account credentials"
  const NetworkFailed := ErrorMark + " Connection failed - check network"
  const SslFailed := ErrorMark + " SSL/TLS connection failed"
  const ImapFailed := ErrorMark + " IMAP connection failed"

  /** The message an exception is reported as: the first of authentication, connection,
      SSL whose words occur in it, else the generic one. */
  function ClassifyError(e: string): (r: string)
    ensures r in ErrorMessages
    ensures r == AuthFailed <==> AuthError(e)
    ensures r == NetworkFailed <==> !AuthError(e) && ConnectionError(e)
    ensures r == SslFailed <==> !AuthError(e) && !ConnectionError(e) && SslError(e)
    ensures r == ImapFailed <==> !AuthError(e) && !ConnectionError(e) && !SslError(e)
  {
    if AuthError(e) then AuthFailed
    else if ConnectionError(e) then NetworkFailed
    else if SslError(e) then SslFailed
    else ImapFailed
  }

  /** The names read from the lines, in order: falsy lines, unreadable lines and empty
      names are skipped. Each line is read by the corrected parse_folder_line
      (ParseFolderLineIntended), so an unquoted name after a quoted delimiter is kept. */
  function FolderNames(lines: seq<string>): (r: seq<string>)
    ensures |r| <= |lines|
    decreases |lines|
  {
    if lines == [] then []
    else FolderNames(lines[..|lines| - 1]) + NameOf(lines[|lines| - 1])
  }

  function NameOf(line: string): (r: seq<string>)
    ensures r == [] || (|r| == 1 && r[0] != "")
  {
    if line == "" then []
    else match ParseFolderLineIntended(line)
      case Some(name) => if name != "" then [name] else []
      case None => []
  }

  /** A name is listed exactly when some line yields it. */
  lemma FolderNamesFromLines(lines: seq<string>)
    ensures forall n :: n in FolderNames(lines) <==> exists k :: 0 <= k < |lines| && NameOf(lines[k]) == [n]
  {
    forall n ensures n in FolderNames(lines) <==> exists k :: 0 <= k < |lines| && NameOf(lines[k]) == [n] {
      if n in FolderNames(lines) {
        var k := FolderNameSource(lines, n);
      }
      forall k | 0 <= k < |lines| && NameOf(lines[k]) == [n] ensures n in FolderNames(lines) {
        FolderNameListed(lines, k, n);
      }
    }
  }

  /** The line a listed name comes from. */
  lemma {:induction false} FolderNameSource(lines: seq<string>, n: string) returns (k: nat)
    requires n in FolderNames(lines)
    ensures k < |lines| && NameOf(lines[k]) == [n]
    decreases |lines|
  {
    var init := lines[..|lines| - 1];
    assert FolderNames(lines) == FolderNames(init) + NameOf(lines[|lines| - 1]);
    if n in FolderNames(init) {
      k := FolderNameSource(init, n);
      assert lines[k] == init[k];
    } else {
      k := |lines| - 1;
    }
  }

  /** The name a line yields is listed. */
  lemma {:induction false} FolderNameListed(lines: seq<string>, k: nat, n: string)
    requires k < |lines| && NameOf(lines[k]) == [n]
    ensures n in FolderNames(lines)
    decreases |lines|
  {
    var init, last := lines[..|lines| - 1], lines[|lines| - 1];
    assert FolderNames(lines) == FolderNames(init) + NameOf(last);
    if k < |init| {
      assert init[k] == lines[k];
      FolderNameListed(init, k, n);
    } else {
      assert NameOf(last) == [n];
    }
  }

  const ListFailed := ErrorMark + " Failed to list folders"
  const NoFolders := ErrorMark + " No folders found"
  const NoSettings := ErrorMark + " Could not get mail settings"
  const OAuthRequired := ErrorMark + " Authentication failed - OAuth2 required"
  const ConnectFailed := ErrorMark + " Failed to connect to mail server"

  /** Every message mail.py reports instead of folders. */
  const ErrorMessages := {AuthFailed, NetworkFailed, SslFailed, ImapFailed, ListFailed, NoFolders,
                          NoSettings, OAuthRequired, ConnectFailed}

  /** Each of them starts with "Error:", the mark the sidebar and the sync service test for. */
  lemma ErrorMessagesMarked()
    ensures forall m :: m in ErrorMessages ==> StartsWith(m, ErrorMark)
  {
    Marked(" Authentication failed - check account credentials");
    Marked(" Connection failed - check network");
    Marked(" SSL/TLS connection failed");
    Marked(" IMAP connection failed");
    Marked(" Failed to list folders");
    Marked(" No folders found");
    Marked(" Could not get mail settings");
    Marked(" Authentication failed - OAuth2 required");
    Marked(" Failed to connect to mail server");
  }

  lemma Marked(tail: string)
    ensures StartsWith(ErrorMark + tail, ErrorMark)
  {
    assert (ErrorMark + tail)[..|ErrorMark|] == ErrorMark;
  }

  /** get_folders_from_imap */
  function FoldersFromImap(listing: Listing): (r: seq<string>)
  {
    match listing
    case Raised(e) => [ClassifyError(e)]
    case Answered(status, lines) =>
      if status != "OK" then [ListFailed]
      else
        var names := FolderNames(lines);
        if names != [] then SortLex(names) else [NoFolders]
  }

  /** get_folders_from_imap: the loop over the response lines, then the sort. */
  method GetFoldersFromImap(listing: Listing) returns (folders: seq<string>)
    ensures folders == FoldersFromImap(listing)
  {
    if listing.Raised? {
      return [ClassifyError(listing.error)];
    }
    if listing.status != "OK" {
      return [ListFailed];
    }
    folders := ReadFolderNames(listing.lines);
    if folders != [] {
      folders := SortLex(folders);
    } else {
      folders := [NoFolders];
    }
  }

  /** The loop of get_folders_from_imap: each readable, non-empty name in turn. */
  method ReadFolderNames(lines: seq<string>) returns (folders: seq<string>)
    ensures folders == FolderNames(lines)
  {
    folders := [];
    var i := 0;
    while i < |lines|
      invariant 0 <= i <= |lines|
      invariant folders == FolderNames(lines[..i])
    {
      assert lines[..i + 1][..i] == lines[..i];
      if lines[i] != "" {
        var folderName := ParseFolderLineIntended(lines[i]);
        if folderName.Some? && folderName.value != "" {
          folders := folders + [folderName.value];
        }
      }
      i := i + 1;
    }
    assert lines[..i] == lines;
  }

  /** A single error message, as the sidebar shows it. */
  predicate IsErrorList(r: seq<string>) {
    |r| == 1 && r[0] in ErrorMessages
  }

  /** The result is never empty: the names read, sorted and each kept as often as it was
      read, or a single error message. */
  lemma FoldersFromImapShape(listing: Listing)
    ensures var r := FoldersFromImap(listing);
      r != [] &&
      (IsErrorList(r) ||
       (listing.Answered? && listing.status == "OK" && LexSorted(r)
        && multiset(r) == multiset(FolderNames(listing.lines))))
  {
    if listing.Answered? && listing.status == "OK" && FolderNames(listing.lines) != [] {
      SortLexSorted(FolderNames(listing.lines));
      SortLexPermutes(FolderNames(listing.lines));
    }
  }

  // ---------------------------------------------------------------------
  // fetch_imap_folders
  // ---------------------------------------------------------------------

  /** The list fetch_imap_folders hands to its callback. Each stage that can fail is a
      parameter: the settings (None when D-Bus gave none), the exception text of the
      connection or of logout (None when it succeeded), the token and the server. */
  function FetchedFolders(account: AccountData, settings: Option<MailSettings>, connectError: Option<string>,
                          token: Option<string>, accepts: string -> bool, listing: Listing,
                          logoutError: Option<string>): (r: seq<string>)
    ensures settings.None? || connectError.Some? || logoutError.Some? ==> IsErrorList(r)
    ensures settings.None? ==> r == [NoSettings]
    ensures settings.Some? && connectError.Some? ==> r == [ConnectFailed]
    ensures settings.Some? && connectError.None? && !AuthenticateImap(account, settings.value, token, accepts)
            ==> r == [OAuthRequired]
    ensures (settings.Some? && connectError.None? && AuthenticateImap(account, settings.value, token, accepts)
             && logoutError.Some?) ==> r == [ConnectFailed]
    ensures (settings.Some? && connectError.None? && logoutError.None?
             && AuthenticateImap(account, settings.value, token, accepts)) ==> r == FoldersFromImap(listing)
  {
    if settings.None? then [NoSettings]
    else if connectError.Some? then [ConnectFailed]
    else if !AuthenticateImap(account, settings.value, token, accepts) then [OAuthRequired]
    else if logoutError.Some? then [ConnectFailed]
    else FoldersFromImap(listing)
  }

  /** The callback always receives a non-empty list: folder names, or one error message. */
  lemma FetchedFoldersNonEmpty(account: AccountData, settings: Option<MailSettings>, connectError: Option<string>,
                               token: Option<string>, accepts: string -> bool, listing: Listing,
                               logoutError: Option<string>)
    ensures var r := FetchedFolders(account, settings, connectError, token, accepts, listing, logoutError);
      r != [] && (IsErrorList(r) || (listing.Answered? && LexSorted(r)
                                     && multiset(r) == multiset(FolderNames(listing.lines))))
  {
    FoldersFromImapShape(listing);
  }

  /** Without OAuth2 or a token no folder is listed. */
  lemma NoTokenNoFolders(account: AccountData, settings: MailSettings, token: Option<string>,
                         accepts: string -> bool, listing: Listing, logoutError: Option<string>)
    requires !account.hasOAuth2 || token.None? || token == Some("")
    ensures FetchedFolders(account, Some(settings), None, token, accepts, listing, logoutError) == [OAuthRequired]
  {
    NoTokenNoLogin(account, settings, token, accepts);
  }
}
