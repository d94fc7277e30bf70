# brevlada mail client: a verified model of its data handling

brevlada is a GTK mail client written in Python. This project models its
sequential data handling in Dafny and proves properties of that model:

- **IMAP response parsing** (src/utils/message_parser.py):
  - the depth- and quote-aware tokenizer for parenthesised IMAP data;
  - ENVELOPE fields and address structures (section 7.4.2 of RFC 3501);
  - the BODYSTRUCTURE parameter pairing and size field;
  - the FLAGS list (system flags, section 2.3.2 of RFC 3501).
- **The message model** (src/models/message.py):
  - flag booleans and address assembly (mailbox@host);
  - display fallbacks and the thread subject;
  - message-id extraction from References and In-Reply-To (section 3.6.4 of RFC 5322);
  - attachments: bookkeeping, extension, icon and size label.
- **Conversation threading** (src/utils/thread_grouping.py, src/models/thread.py):
  - the greedy grouping pass, references first, then the thread subject;
  - the MessageThread accumulator, which keeps participants, date extremes, the unread count and flags, and a date-sorted message list;
  - the final newest-first sort.
- **Folder lists.**
  - LIST-line name extraction and error classification (src/utils/mail.py and the older copy in src/main.py).
  - The XOAUTH2 string and the authentication decision.
  - The main window's dedupe, INBOX default and priority sort.
- **The sidebar folder tree.**
  - It lives in src/components/sidebar/__init__.py and again in src/main.py. The tree building and the row logic of the two copies are identical, and rows cite the sidebar file. The copies differ in widget construction (main.py builds its boxes with `append` rather than `children=`) and in the selection call (main.py calls `on_account_selected` where the sidebar calls `selection_callback`), neither of which is modelled.
  - Flat folder names become a tree, with a leading "[Gmail]"-style group kept as one component.
  - The tree is flattened into rows by an expanded-folder map.
  - Expand, collapse and descendant removal, and collapsing an account.
- **The search filter** (src/components/message_list/search.py).
- **The sync service's bookkeeping** (src/utils/sync_service.py):
  - the registries and the discovery-success rule;
  - the folders each cycle syncs;
  - the callbacks;
  - the uid difference that decides which stored messages a sync deletes.

Strings are `seq<char>`. Dates are `Option<int>`, with None below every date, as
`datetime.min` ranks in the source. Python's `str.lower()`/`upper()` are an ASCII case
map. `str.strip()`/`split()` use the whitespace class of `str.isspace()`: the ASCII whitespace, \x1c-\x1f, \x85, \xa0, U+1680, U+2000-U+200A, U+2028, U+2029, U+202F, U+205F and U+3000.

Where the code does things step by step, the model is imperative. This covers the
character loops and in-place updates, MessageThread and the sidebar, MessageSearch and
SyncService. Each method is proved against a specification function, about which the
properties are then proved. The grouping pass works on MessageThread objects. Its
contract ties the objects to a value-level view of the threads.

Five places where the code evidently does not do what it was written for are listed
under "## Findings". Each is modelled as written, with a lemma that shows the
discrepancy on a concrete input. Each is also modelled as intended, with the intended
property proved. The operations of the model use the intended versions.

Modules, one per file: Strings, DateOrder, LexOrder (Python built-ins the core relies on),
MessageParser, Messages, Threads, ThreadGrouping, Mail, MainFolders, FolderTree, Sidebar,
Search, Sync.

## Model

| member | source | states |
|---|---|---|
| MessageParser.ParseEnvelopeParts | src/utils/message_parser.py:70-112 | the character loop returns the top-level tokens of the text between the outer parentheses (EnvelopeParts), and [] for any text that does not start with "(" and end with ")" |
| MessageParser.SegmentsJoin | src/utils/message_parser.py:97-107 | the raw tokens, joined with single spaces, give back exactly the scanned text: the loop loses and adds no character |
| MessageParser.SeparatorsAreSplits | src/utils/message_parser.py:97-107 | a position ends a token if and only if it holds a space met at depth 0, outside quotes and not escaped |
| MessageParser.TokensRoundTrip | src/utils/message_parser.py:70-112 | tokens written out between parentheses, separated by single spaces, are read back exactly, in order |
| MessageParser.EscapedQuote | src/utils/message_parser.py:82-95 | a backslash and the quote after it are both copied into the token and leave the quoting state unchanged |
| MessageParser.AtomIsToken | src/utils/message_parser.py:97-110 | an atom (NIL, a number, a word) is one finished top-level token |
| MessageParser.QuotedIsToken | src/utils/message_parser.py:92-95 | a quoted string, spaces and parentheses inside it included, is one token |
| MessageParser.ListIsToken | src/utils/message_parser.py:97-101 | a parenthesised list balanced inside is one token, whatever spaces it holds |
| MessageParser.DecodeEnvelopeField | src/utils/message_parser.py:115-121 | an empty field and NIL decode to "" |
| MessageParser.DecodeQuoted | src/utils/message_parser.py:115-136 | a quoted stripped value decodes to the value |
| MessageParser.DecodeNString | src/utils/message_parser.py:115-136 | a value written as an IMAP nstring (NIL for empty, quoted otherwise) decodes to the value |
| MessageParser.ParseAddressParts | src/utils/message_parser.py:164-186 | the character loop returns AddressParts: a part closes at each ")" that brings the depth back to 0, parts are stripped, and leftover text is kept only when not blank |
| MessageParser.NestedCloseIsDoubled | src/utils/message_parser.py:173-181 | a ")" that leaves the depth above 0 is appended twice: "((x))" gives the single part "((x)))" |
| MessageParser.AddressPartsOfWrapped | src/utils/message_parser.py:164-186 | address structures written side by side, each without nested parentheses, come back one per part |
| MessageParser.AddressOfPart | src/utils/message_parser.py:150-159 | an address is read only from a parenthesised part with at least four fields |
| MessageParser.ReadAddress | src/utils/message_parser.py:149-159 | one turn of the loop yields the address AddressOfPart gives |
| MessageParser.ParseAddressList | src/utils/message_parser.py:139-161 | the loop returns AddressList: [] for empty, NIL or unparenthesised text, else one address per part with name and mailbox@host when mailbox and host are both non-empty |
| MessageParser.AddressOfWritten | src/utils/message_parser.py:150-159 | one written address structure (name, NIL route, mailbox, host) reads back as the name and mailbox@host |
| MessageParser.AddressListRoundTrip | src/utils/message_parser.py:139-161 | every well-formed address list a server writes is read back in full, in order |
| MessageParser.NStringIsToken | src/utils/message_parser.py:92-110 | an nstring (NIL, or a quoted string) is one top-level token of the envelope |
| MessageParser.AddressListIsToken | src/utils/message_parser.py:52-61 | a written address list is one top-level token of the envelope |
| MessageParser.ParseEnvelope | src/utils/message_parser.py:39-67 | a dictionary is produced if and only if the text has at least ten top-level parts; empty data gives none |
| MessageParser.EnvelopeFieldsRoundTrip | src/utils/message_parser.py:52-63 | the ten fields of a written ENVELOPE are split back, in order |
| MessageParser.EnvelopeRoundTrip | src/utils/message_parser.py:39-67 | every well-formed ENVELOPE is read back field by field: date, subject, from, sender, reply_to, to, cc, bcc, in_reply_to, message_id |
| MessageParser.PairUpLookup | src/utils/message_parser.py:239-243 | pairing the tokens gives each lower-cased key the value of its last pair; an odd trailing token adds nothing |
| MessageParser.ParseBodystructureParameters | src/utils/message_parser.py:230-245 | the loop returns the corrected parameter dictionary: the pairs of the tokens of the list itself |
| MessageParser.IntendedParametersRoundTrip | src/utils/message_parser.py:230-245 | corrected, a written parameter list is read back pair by pair, the last pair for a key winning |
| MessageParser.PairKept | src/utils/message_parser.py:230-245 | corrected, ("KEY" "value") gives exactly {key lower-cased: value} |
| MessageParser.PairDropped | src/utils/message_parser.py:236-237 | as written, a one-pair list such as ("CHARSET" "utf-8") gives no parameters |
| MessageParser.ParametersAsWritten | src/utils/message_parser.py:236-237 | as written, every parameter list whose inside does not itself open with "(" and close with ")" gives {} |
| MessageParser.BodystructureSize | src/utils/message_parser.py:248-253 | text int() rejects gives 0 |
| MessageParser.SizeRoundTrip | src/utils/message_parser.py:248-253 | a size written as a decimal number, negative ones included, is read back |
| MessageParser.NilSizeIsZero | src/utils/message_parser.py:248-253 | NIL gives 0 |
| MessageParser.SystemFlags | src/utils/message_parser.py:270-274 | the flags kept are at most the tokens and each starts with a backslash |
| MessageParser.SystemFlagsMembers | src/utils/message_parser.py:270-274 | a token is kept if and only if it is one of the tokens and starts with a backslash |
| MessageParser.SystemFlagsOfFlags | src/utils/message_parser.py:270-274 | tokens that are all system flags are kept unchanged, in order |
| MessageParser.ParseFlags | src/utils/message_parser.py:256-276 | the loop returns Flags: [] for empty data, else the system flags among the whitespace-separated tokens, outer parentheses removed first |
| MessageParser.FlagsOfJoin | src/utils/message_parser.py:256-276 | a written FLAGS list yields its system flags in order, keywords dropped |
| MessageParser.FlagsRoundTrip | src/utils/message_parser.py:256-276 | a FLAGS list of system flags is read back unchanged |
| Messages.ParseAddress | src/models/message.py:71-85 | an empty list or a non-dictionary first entry gives the empty address; the email is non-empty if and only if the first entry is a dictionary with mailbox and host |
| Messages.ParseAddressList | src/models/message.py:87-99 | at most one address per entry, each with a non-empty email |
| Messages.ParseAddressListAppend | src/models/message.py:92-97 | the list is read entry by entry, in order: reading a + b is reading a, then b |
| Messages.KeptEntry | src/models/message.py:87-99 | a dictionary with a mailbox and a host is kept with email mailbox@host, as written and as corrected |
| Messages.ParsedEntryDropped | src/models/message.py:78-81 | as written, an address in the form the envelope parser produces (name, email) loses its email and is dropped from a list |
| Messages.ParseAddressIntended | src/models/message.py:71-85 | corrected: an entry that already carries an email keeps it, any other entry is read as written, and the fallbacks stay the same |
| Messages.ParseAddressListIntended | src/models/message.py:87-99 | corrected list: at most one address per entry, each with a non-empty email |
| Messages.ParsedEntriesKept | src/models/message.py:87-99 | corrected, every address the envelope parser reports survives, in order, with its name stripped |
| Messages.EntryKept | src/models/message.py:93-97 | corrected, one reported entry with an email is read back as that address |
| Messages.DisplaySender | src/models/message.py:141-148 | the name, else the email, else "Unknown Sender"; never empty |
| Messages.DisplaySubject | src/models/message.py:150-155 | the subject when there is one, else "(No Subject)" |
| Messages.PrefixLength | src/models/message.py:163-165 | returns the length of a reply/forward prefix, colon included, that starts the text ignoring case, or None when no prefix does |
| Messages.StripReplyPrefix | src/models/message.py:163-165 | a text without a reply/forward prefix is unchanged |
| Messages.UniquePrefix | src/models/message.py:163-165 | at most one prefix can match, so the length found is that prefix's |
| Messages.ThreadSubject | src/models/message.py:157-168 | "" for an empty subject; otherwise the words of the subject with one reply/forward prefix removed, single-spaced (collapsing it again changes nothing) |
| Messages.ThreadSubjectStripped | src/models/message.py:157-168 | a thread subject neither starts nor ends with whitespace |
| Messages.ThreadSubjectOfWords | src/models/message.py:166 | how the words of a subject are spaced does not change its thread subject |
| Messages.ReplyKeepsThreadSubject | src/models/message.py:157-168 | prefix:, in any case, followed by any whitespace before a subject gives the thread subject of the subject itself |
| Messages.AngleIds | src/models/message.py:176 | each id found is non-empty and holds no ">" |
| Messages.AngleIdsGroup | src/models/message.py:176 | "<id>" followed by more text yields id, then the ids of the rest |
| Messages.AngleIdsRoundTrip | src/models/message.py:170-183 | ids written as a References header, "<a> <b> ...", are found again, in order |
| Messages.ThreadReferences | src/models/message.py:170-183 | non-empty ids without ">", the References ids first, in order, then the In-Reply-To ids |
| Messages.BracketedIdNeverReferenced | src/models/message.py:170-183 | a message id with its angle brackets, as the envelope stores it, is never among any message's thread references |
| Messages.BareMessageId | src/utils/thread_grouping.py:54-57 | corrected (Findings row src/utils/thread_grouping.py:54-57): the comparison key is never longer than the message id |
| Messages.BareIdReferenced | src/models/message.py:170-183 | with the brackets removed, the id of a message that a References header lists is among the replier's thread references |
| Messages.AttachmentSummary | src/models/message.py:205-213 | "" exactly for no attachment, "1 attachment" for one, "N attachments" for more |
| Messages.Message.constructor | src/models/message.py:9-47 | addresses corrected (Findings row src/models/message.py:78-81): every derived field: the flag booleans are exactly membership of \Seen, \Flagged, \Deleted, \Draft, \Answered; the addresses, the thread subject and references, has_attachments, no attachments, and the display sender and subject |
| Messages.Message.AddAttachment | src/models/message.py:196-203 | the attachment is appended, has_attachments becomes true and the count grows by one |
| Messages.Message.AttachmentCount | src/models/message.py:201-203 | 0 exactly when no attachment was added; a positive count implies has_attachments |
| Messages.Message.Summary | src/models/message.py:205-213 | "" if and only if there are no attachments |
| Messages.DisplayName | src/models/message.py:249-251 | the file name when it is non-empty, else "Unknown" |
| Messages.Extension | src/models/message.py:253-257 | the extension holds no "." |
| Messages.ExtensionOf | src/models/message.py:253-257 | the extension of base.ext is ext lower-cased, whatever dots the base holds |
| Messages.NoExtension | src/models/message.py:253-257 | a name without a dot has no extension |
| Messages.IconName | src/models/message.py:259-278 | one iff per group, in the order of the table: image-x-generic exactly for jpg, jpeg, png, gif, bmp, svg; application-pdf for pdf; application-msword for doc, docx; application-vnd.ms-excel for xls, xlsx; application-vnd.ms-powerpoint for ppt, pptx; application-x-archive for zip, rar, 7z, tar, gz; text-x-generic exactly for every other extension (txt and md included) |
| Messages.IconIgnoresCase | src/models/message.py:253-278 | the icon does not depend on the case of the extension in the file name |
| Messages.SizeString | src/models/message.py:280-292 | "Unknown size" for a missing or zero size; "N B" written out for a non-zero size below 1024; otherwise a scaled label only for a size of at least 1024 bytes, its unit divisor at least 1 KiB, and a quotient of at least 1 and below 1024 except in GB |
| Messages.SmallSizeExact | src/models/message.py:280-286 | a non-zero size below 1024 is written out exactly as "N B", and the number reads back |
| Threads.PutLookup | src/models/thread.py:22-27 | participants[email] = name is read back, and every other email keeps its name |
| Threads.PutEmails | src/models/thread.py:22-27 | a known email keeps the order of the dictionary; a new one is appended |
| Threads.ParticipantsOfValid | src/models/thread.py:21-27 | the participants of every thread have distinct non-empty emails and non-empty names |
| Threads.ParticipantSummary | src/models/thread.py:72-81 | at most one participant gives the display sender; two give both names joined by " and "; more give "first and N-1 others" |
| Threads.LatestIsMaximum | src/models/thread.py:29-32 | latest_date is None exactly when no message has a date, and otherwise is the date of some message and at least every date |
| Threads.EarliestIsMinimum | src/models/thread.py:29-34 | earliest_date is None exactly when no message has a date, and otherwise is the date of some message and at most every date |
| Threads.UnreadCounts | src/models/thread.py:36-38 | the unread count is at most the number of messages, and 0 exactly when all are read |
| Threads.AnyFlaggedIff | src/models/thread.py:43-44 | is_flagged holds exactly when some message is flagged |
| Threads.LastIsLatest | src/models/thread.py:47 | after the sort, the last message carries latest_date |
| Threads.DisplayedIsLastAddedOfLatest | src/models/thread.py:47-60 | the message whose sender is shown is the last added of those with the latest date |
| Threads.MessageThread.constructor | src/models/thread.py:7-15 | a new thread: no messages, no participants, no dates, no unread message, no attachments, not flagged |
| Threads.MessageThread.AddMessage | src/models/thread.py:17-47 | one more added message, every field kept equal to the summary of the added messages, has_attachments a monotone OR |
| Threads.MessageThread.SortMessages | src/models/thread.py:47 | appending to the sorted list and sorting again gives the sort of all added messages |
| Threads.MessageThread.NoteParticipants | src/models/thread.py:21-27 | the sender, then each recipient with an email, is noted, in order |
| Threads.MessageThread.NoteDates | src/models/thread.py:29-34 | the date range becomes that of all added messages |
| Threads.MessageThread.NoteFlags | src/models/thread.py:36-44 | the unread count and the flags become those of all added messages |
| Threads.MessageThread.DisplaySubjectText | src/models/thread.py:49-51 | the thread subject, or "(No Subject)" for an empty one |
| Threads.MessageThread.DisplaySenderText | src/models/thread.py:53-60 | "Unknown" for a thread without messages; otherwise the display sender of the last-added message among those carrying the thread's latest date |
| Threads.MessageThread.ParticipantSummaryText | src/models/thread.py:72-81 | on the thread's own participants: at most one gives the display sender; two give both names joined by " and "; more give "first and N-1 others" |
| Threads.MessageThread.UnreadCount | src/models/thread.py:83-85 | the number of added messages not marked \Seen |
| Threads.DisplaySenderIsLatest | src/models/thread.py:53-60 | a thread shows the sender of the last-added message among those with its latest date |
| Threads.ThreadMessagesSorted | src/models/thread.py:19-47 | the messages are exactly the added ones, each as often as added, in date order, with messages of equal date in the order they were added |
| ThreadGrouping.First | src/utils/thread_grouping.py:38-40 | the first index from i on that satisfies the test, or None when none does |
| ThreadGrouping.FindByReferences | src/utils/thread_grouping.py:45-60 | corrected (Findings row src/utils/thread_grouping.py:54-57): no references, no match; otherwise the first thread with a message linked either way, or None when no thread has one |
| ThreadGrouping.FindBySubject | src/utils/thread_grouping.py:35-42 | an empty thread subject never matches; otherwise the first thread whose subject equals it ignoring case |
| ThreadGrouping.FindThread | src/utils/thread_grouping.py:28-42 | the index found is one of the threads |
| ThreadGrouping.ReferencesFirst | src/utils/thread_grouping.py:30-33 | a reference match wins over any subject match, even one in an earlier thread |
| ThreadGrouping.SubjectFallback | src/utils/thread_grouping.py:35-40 | a thread is chosen by its subject only when no thread matches by reference, and then it is the first such thread |
| ThreadGrouping.NothingToMatch | src/utils/thread_grouping.py:28-42 | a message with neither references nor thread subject finds no thread |
| ThreadGrouping.Place | src/utils/thread_grouping.py:12-20 | one placement keeps the number of threads or adds exactly one |
| ThreadGrouping.PlaceKeeps | src/utils/thread_grouping.py:12-20 | one placement adds the message to exactly one thread |
| ThreadGrouping.GroupKeepsEveryMessage | src/utils/thread_grouping.py:8-21 | every input message lands in exactly one thread, as often as it occurs |
| ThreadGrouping.GroupOpenedByFirst | src/utils/thread_grouping.py:17-20 | each thread is named after the thread subject of the message that opened it; there are never more threads than messages |
| ThreadGrouping.LoneMessageOpensThread | src/utils/thread_grouping.py:14-20 | a message with neither references nor thread subject opens a thread of its own at the end |
| ThreadGrouping.SortedThreads | src/utils/thread_grouping.py:23 | the result holds the grouped threads, newest first, undated last, and threads with the same latest date keep their creation order |
| ThreadGrouping.GroupedMessagesCount | src/utils/thread_grouping.py:8-25 | the returned threads together hold exactly the input messages, so their total count is the input length |
| ThreadGrouping.FindThreadByReferences | src/utils/thread_grouping.py:45-60 | corrected (Findings row src/utils/thread_grouping.py:54-57): the nested loop over the thread objects returns the thread FindByReferences finds on their view |
| ThreadGrouping.FindThreadForMessage | src/utils/thread_grouping.py:28-42 | corrected (Findings row src/utils/thread_grouping.py:54-57): the loop over the thread objects returns the thread FindThread finds on their view |
| ThreadGrouping.SortedShows | src/utils/thread_grouping.py:23 | sorting the thread objects by latest_date shows the sorted views |
| ThreadGrouping.AddToThread | src/utils/thread_grouping.py:14-15 | add_message on a found thread extends that thread's view alone |
| ThreadGrouping.OpenThread | src/utils/thread_grouping.py:17-19 | a fresh thread named after the message's thread subject, holding the message |
| ThreadGrouping.PlaceMessage | src/utils/thread_grouping.py:13-20 | corrected (Findings row src/utils/thread_grouping.py:54-57): the loop body leaves the threads showing Place of the views, each thread distinct |
| ThreadGrouping.AppendThread | src/utils/thread_grouping.py:17-20 | a new thread is added at the end |
| ThreadGrouping.GroupMessagesIntoThreads | src/utils/thread_grouping.py:8-25 | corrected (Findings row src/utils/thread_grouping.py:54-57): the returned objects are fresh and show the grouped threads, sorted newest first |
| ThreadGrouping.BracketedIdsNeverLinked | src/utils/thread_grouping.py:54-57 | as written, two messages whose ids carry their angle brackets are never linked by reference |
| ThreadGrouping.ReplyLinked | src/utils/thread_grouping.py:54-57 | corrected, a reply whose References header lists the id of a message is linked to it |
| ThreadGrouping.CutTrailingGroupAsWritten | src/utils/thread_grouping.py:75-76 | the lazy pattern, which in fact reaches back to the first "[", never lengthens the subject |
| ThreadGrouping.CutTrailingGroup | src/utils/thread_grouping.py:75-76 | the intended cut never lengthens the subject |
| ThreadGrouping.NormalizeSubjectAsWritten | src/utils/thread_grouping.py:63-78 | an empty subject gives "" |
| ThreadGrouping.NormalizeSubject | src/utils/thread_grouping.py:63-78 | an empty subject gives "" |
| ThreadGrouping.CutTrailingTag | src/utils/thread_grouping.py:75-76 | the intended rule removes a tag at the very end of the subject, with the whitespace before it, and nothing else |
| ThreadGrouping.LeadingTagSwallowsSubject | src/utils/thread_grouping.py:75 | as written, a subject that opens with "[" and ends with a "[tag]" is cut to "" |
| ThreadGrouping.LeadingTagKept | src/utils/thread_grouping.py:75 | corrected, the same subject is kept up to its last tag |
| ThreadGrouping.ReplyNormalizesLikeOriginal | src/utils/thread_grouping.py:63-78 | a reply ("Re:" and any other prefix, any spacing) normalises like the subject it answers |
| ThreadGrouping.ParseReferences | src/utils/thread_grouping.py:81-97 | the angle-bracketed ids, each once, in order of first occurrence; empty input gives [] |
| Mail.XOAuth2String | src/utils/mail.py:46 | the string opens with user=username and ends with two \x01 |
| Mail.XOAuth2Fields | src/utils/mail.py:46 | split at \x01 it is exactly user=username, auth=Bearer token and two empty fields |
| Mail.AuthAttempt | src/utils/mail.py:77-93 | a string is sent if and only if the account offers OAuth2 and a non-empty token is available, and then it is the XOAUTH2 string of the IMAP user name |
| Mail.AuthenticateImap | src/utils/mail.py:77-98 | true if and only if the account offers OAuth2, a non-empty token is available, and the server accepts the XOAUTH2 string of the IMAP user name |
| Mail.NoTokenNoLogin | src/utils/mail.py:82-90 | without OAuth2 or a token nothing is sent and the result is false, whatever the server does |
| Mail.ParseFolderLine | src/utils/mail.py:101-118 | on a line with a quote, a name found holds no quote |
| Mail.QuotedNameRead | src/utils/mail.py:109-112 | a line that ends with a quoted name gives that name, whatever comes before it |
| Mail.UnquotedNameRead | src/utils/mail.py:113-116 | a line without quotes gives its whitespace tokens from the third on, joined by single spaces |
| Mail.UnquotedNameGivesDelimiter | src/utils/mail.py:109-112 | as written, an unquoted name after a quoted delimiter, as in (\HasNoChildren) "/" INBOX, gives the delimiter |
| Mail.ParseFolderLineIntended | src/utils/mail.py:101-118 | corrected: on a line without quotes it agrees with the code as written |
| Mail.UnquotedNameReadIntended | src/utils/mail.py:109-116 | corrected, the unquoted name after a quoted delimiter is read |
| Mail.QuotedNameReadIntended | src/utils/mail.py:109-112 | corrected, a quoted name is read as before |
| Mail.ClassifyError | src/utils/mail.py:143-156 | one of the four messages, chosen in the order authentication, then timeout/connection, then SSL/certificate, then the generic one, each if and only if the earlier tests fail |
| Mail.FolderNames | src/utils/mail.py:127-132 | corrected (Findings row src/utils/mail.py:109-112): at most one name per line |
| Mail.NameOf | src/utils/mail.py:128-132 | corrected (Findings row src/utils/mail.py:109-112): a line contributes nothing or one non-empty name |
| Mail.FolderNamesFromLines | src/utils/mail.py:127-132 | corrected (Findings row src/utils/mail.py:109-112): a name is listed if and only if some line yields it |
| Mail.ErrorMessagesMarked | src/utils/mail.py:125-187 | every message reported instead of folders starts with "Error:" |
| Mail.GetFoldersFromImap | src/utils/mail.py:121-156 | corrected (Findings row src/utils/mail.py:109-112): the loop and the sort compute FoldersFromImap |
| Mail.ReadFolderNames | src/utils/mail.py:127-132 | corrected (Findings row src/utils/mail.py:109-112): the loop collects the readable non-empty names in order |
| Mail.FoldersFromImapShape | src/utils/mail.py:121-156 | corrected (Findings row src/utils/mail.py:109-112): the result is never empty: one error message, or, on an OK answer, the names read in ascending order, each kept as often as read |
| Mail.FetchedFolders | src/utils/mail.py:159-187 | corrected (Findings row src/utils/mail.py:109-112): each stage's message: no settings gives "Could not get mail settings"; a connection failure gives "Failed to connect to mail server"; a refused or impossible login gives "Authentication failed - OAuth2 required"; a logout failure (whatever list() did) gives "Failed to connect to mail server"; with every stage passed, the list get_folders_from_imap returns |
| Mail.FetchedFoldersNonEmpty | src/utils/mail.py:159-187 | corrected (Findings row src/utils/mail.py:109-112): the callback always receives a non-empty list: one error message, or the names read, sorted |
| Mail.NoTokenNoFolders | src/utils/mail.py:173-177 | without OAuth2 or a token the callback receives the OAuth2-required message alone |
| MainFolders.QuotedName | src/main.py:347-349 | on a line with a quote it is mail.py's parse_folder_line as written; on a line without one it reads nothing |
| MainFolders.NameIn | src/main.py:338-351 | a line contributes nothing or one non-empty name |
| MainFolders.QuotedNames | src/main.py:338-351 | every name read is non-empty |
| MainFolders.CollectFolderNames | src/main.py:336-351 | the loop collects each non-empty name once, in the order first met |
| MainFolders.Priority | src/main.py:356-363 | a key from 0 to 5, and 0 exactly for INBOX in any case |
| MainFolders.PriorityIgnoresCase | src/main.py:356-363 | the key does not depend on case |
| MainFolders.OrderFolders | src/main.py:336-363 | the OK branch computes ListedFolders: the loop, the INBOX default, then the sort |
| MainFolders.ListedFoldersOrder | src/main.py:336-363 | distinct names, just ["INBOX"] when none was read, otherwise exactly the names read; sorted by priority, with names of one priority in the server's order |
| MainFolders.PermutationKeepsDistinct | src/main.py:356-363 | the sort cannot create a repeat |
| MainFolders.FolderList | src/main.py:332-378 | the list request's outcome is never an empty list |
| MainFolders.FetchedFolders | src/main.py:273-388 | the list stored and handed to the callback is never empty |
| MainFolders.FetchedFoldersShape | src/main.py:273-388 | either one message starting with "Error:", or, on an OK answer, the ordered folder names; and an authenticated fetch with an OK answer and no logout failure gives exactly the ordered folder names |
| FolderTree.Components | src/components/sidebar/__init__.py:169-179 | every folder name has at least one component |
| FolderTree.OrganizeFoldersHierarchy | src/components/sidebar/__init__.py:161-200 | the loop over the names builds Organize(folders) |
| FolderTree.AddFolderPath | src/components/sidebar/__init__.py:182-198 | the inner loop adds each prefix of the components that is missing |
| FolderTree.OrganizeCanon | src/components/sidebar/__init__.py:161-200 | the tree is determined by the set of component paths of the names: existing nodes are reused and never overwritten |
| FolderTree.OrganizeOrderFree | src/components/sidebar/__init__.py:161-200 | lists with the same names give the same tree, whatever their order or repeats |
| FolderTree.InsertAgain | src/components/sidebar/__init__.py:182-198 | inserting a listed name again changes nothing |
| FolderTree.TreeNodes | src/components/sidebar/__init__.py:184-196 | every node's name is the last component of its path and its full path the components joined by "/"; only a root named like an error is an error node; every node but a root hangs under its parent |
| FolderTree.ListedFolderNode | src/components/sidebar/__init__.py:165-198 | a name starting with "Error:" is a root error node keyed by the whole name with nothing under it; any other name has its node at its components |
| FolderTree.FullPathIsName | src/components/sidebar/__init__.py:169-196 | a node's full path is its name exactly unless a leading "[...]" is followed by text other than "/" and more |
| FolderTree.BracketFullPath | src/components/sidebar/__init__.py:169-177 | the full path of a bracketed name: the group, then the rest split on "/", leading "/" dropped |
| FolderTree.FolderIcon | src/components/sidebar/__init__.py:39-61 | the rules in first-match order, one iff per icon: INBOX (whole name) or, failing every earlier rule, ALL MAIL gives the unread-mail icon; SENT MAIL/SENT/ITEMS the send icon; then DRAFT the edit icon; then TRASH/DELETED the trash icon; then SPAM/JUNK/BULK the junk icon; then ARCHIVE the shoe-box icon; then IMPORTANT; then STARRED; the default folder icon exactly when no word occurs in the upper-cased name |
| FolderTree.FolderIconIgnoresCase | src/components/sidebar/__init__.py:39-61 | the icon does not depend on case |
| FolderTree.BelowShrinks | src/components/sidebar/__init__.py:214-316 | a child has fewer nodes below it than its parent, which bounds the recursion |
| FolderTree.OrganizedErrorsAtRoot | src/components/sidebar/__init__.py:165-167 | error nodes are only ever roots |
| FolderTree.LevelRowsShown | src/components/sidebar/__init__.py:214-316 | every row of the walk is a folder row of the account for a node under the path, as many levels down as its level is deeper, with that node's name and full path; it is never INBOX at level 0, and is deeper only under an expanded parent; or it is an error row at the roots |
| FolderTree.ShownChild | src/components/sidebar/__init__.py:214-316 | the row of a child that is not INBOX at level 0 is a row the walk may show |
| FolderTree.ShownDeeper | src/components/sidebar/__init__.py:214-316 | a row shown under an expanded child is shown under its parent |
| FolderTree.NothingExpandedOneLevel | src/components/sidebar/__init__.py:214-316 | with nothing expanded the walk shows a single level |
| Sidebar.Walk | src/components/sidebar/__init__.py:369-379 | the walk never runs past the rows |
| Sidebar.WalkStops | src/components/sidebar/__init__.py:369-379 | the walk covers rows none of which is a folder row of the account no deeper than the parent, and ends at the first that is |
| Sidebar.ClearKeys | src/components/sidebar/__init__.py:374-377 | no key is added, and a key stays true only if it was true and is not among those cleared |
| Sidebar.ShowChildren | src/components/sidebar/__init__.py:318-348 | the folder row itself stays in place |
| Sidebar.AccountsSidebar.constructor | src/components/sidebar/__init__.py:9-33 | no rows and nothing expanded |
| Sidebar.AccountsSidebar.AddFolderLevel | src/components/sidebar/__init__.py:214-316 | inserts exactly the rows LevelRows gives (children in key order, INBOX skipped at level 0, descending into expanded folders) at insert position + current index, and returns the index after them |
| Sidebar.AccountsSidebar.AddChildRows | src/components/sidebar/__init__.py:215-316 | one pass of the loop inserts the rows of one child |
| Sidebar.AccountsSidebar.AddFolderRows | src/components/sidebar/__init__.py:202-212 | the rows of the organised tree appear right after the account row |
| Sidebar.AccountsSidebar.ExpandFolder | src/components/sidebar/__init__.py:318-348 | the folder's key becomes true, and its children appear right after it when the account has its row |
| Sidebar.AccountsSidebar.FindAccountRow | src/components/sidebar/__init__.py:325-333 | found exactly when an account row of that email exists |
| Sidebar.AccountsSidebar.RemoveFolderDescendants | src/components/sidebar/__init__.py:363-386 | the account's folder rows the walk covers are removed and all other rows kept in order; the keys of the removed rows, where present, become false |
| Sidebar.AccountsSidebar.ClearDescendantKeys | src/components/sidebar/__init__.py:369-379 | the first loop stops where the walk stops and collects exactly the positions of the account's folder rows on the way |
| Sidebar.AccountsSidebar.KeptRows | src/components/sidebar/__init__.py:381-386 | the second loop keeps exactly the rows not collected |
| Sidebar.AccountsSidebar.CollapseFolder | src/components/sidebar/__init__.py:350-361 | the key becomes false and the descendants are removed |
| Sidebar.AccountsSidebar.OnFolderClicked | src/components/sidebar/__init__.py:83-91 | a folder with children toggles. A collapsed (absent or false) key becomes true, and the new state is exactly expand_folder's: the children appear after the row when the account row exists. A key that is true becomes false, the descendants are removed and their keys cleared, exactly as collapse_folder does. A folder without children changes nothing here |
| Sidebar.AccountsSidebar.CollapseAccount | src/components/sidebar/__init__.py:388-407 | every expanded key starting with "email:" is deleted, the others kept, and every row hanging under the account removed |
| Sidebar.AccountsSidebar.KeysUnder | src/components/sidebar/__init__.py:393-396 | exactly the expanded keys with that prefix |
| Sidebar.RowsOutside | src/components/sidebar/__init__.py:398-407 | the loop keeps exactly the rows not hanging under the account |
| Sidebar.DropFoldersNone | src/components/sidebar/__init__.py:381-386 | rows of other accounts and account rows are kept |
| Sidebar.DropFoldersAll | src/components/sidebar/__init__.py:381-386 | the account's folder rows are dropped |
| Sidebar.DropFoldersClean | src/components/sidebar/__init__.py:381-386 | no folder row of the account is left in the walked stretch |
| Sidebar.RemoveShape | src/components/sidebar/__init__.py:363-386 | when the walk after a folder row covers a given stretch, removal drops exactly the account's folder rows of that stretch and keeps everything before and after |
| Sidebar.RemoveDescendantsIdempotent | src/components/sidebar/__init__.py:363-386 | removing the descendants a second time changes nothing |
| Sidebar.ExpansionRows | src/components/sidebar/__init__.py:318-348 | the rows an expansion adds are folder rows of the account deeper than the folder |
| Sidebar.CollapseUndoesExpand | src/components/sidebar/__init__.py:318-361 | collapsing a folder after expanding it leaves the rows collapsing alone would leave |
| Sidebar.RemoveAfterBlock | src/components/sidebar/__init__.py:363-386 | deeper folder rows of the account inserted after a folder row are exactly what removal takes on top |
| Sidebar.DropAccountMembers | src/components/sidebar/__init__.py:398-407 | a row is kept exactly when it is one of the rows and does not hang under the account |
| Sidebar.CollapseUndoesAddFolderRows | src/components/sidebar/__init__.py:202-212 | collapsing an account removes the rows add_folder_rows showed under it, and the other rows are as before |
| Sidebar.AddedRowsInAccount | src/components/sidebar/__init__.py:202-212 | every row add_folder_rows shows hangs under the account |
| Search.MessageMatchesSearch | src/components/message_list/search.py:25-38 | a message matches if and only if the text occurs in one of the lower-cased sender name, sender email or subject |
| Search.ContainsIffOccurs | src/components/message_list/search.py:31-37 | Python's `in` on strings holds exactly when the text occurs at some position |
| Search.MatchPositionsExact | src/components/message_list/search.py:16-23 | the kept positions are ascending, in range, and exactly those of matching messages |
| Search.FilterPicksMatches | src/components/message_list/search.py:16-23 | the result is the subsequence of the input at the matching positions |
| Search.FilterMembers | src/components/message_list/search.py:16-23 | a message is kept exactly when it is in the input and matches |
| Search.FilterAppend | src/components/message_list/search.py:16-23 | the filter of a + b is the filter of a, then of b |
| Search.FilterIdempotent | src/components/message_list/search.py:16-23 | filtering the result again changes nothing |
| Search.FilterEmptyText | src/components/message_list/search.py:13-15 | the empty text keeps every message, so the early branch agrees with the loop |
| Search.NormalizeIdempotent | src/components/message_list/search.py:8-10 | storing a stored text again stores the same text |
| Search.NormalizeEmptyIff | src/components/message_list/search.py:8-10 | the stored text is empty exactly when the text typed is all whitespace |
| Search.MessageSearch.constructor | src/components/message_list/search.py:4-6 | no text, no filtered messages |
| Search.MessageSearch.SetSearchText | src/components/message_list/search.py:8-10 | stores the text lower-cased and stripped |
| Search.MessageSearch.ApplyFilter | src/components/message_list/search.py:12-23 | grouping is on exactly without search text; the result, also stored, is the matching messages in order (all of them without search text) |
| Search.MessageSearch.GetFilteredMessages | src/components/message_list/search.py:40-41 | the list the last apply_filter stored |
| Search.MessageSearch.HasSearchText | src/components/message_list/search.py:43-44 | true exactly when the stored text is non-empty |
| Sync.FailingMembers | src/utils/sync_service.py:203-209 | a callback is logged as failing exactly when it is registered and raises |
| Sync.FetchedDiscovery | src/utils/sync_service.py:102-110 | corrected (Findings row src/utils/mail.py:109-112): no error list is taken for discovered folders, and missing settings, a connection failure or a logout failure never count as a discovery; a fetch that authenticated, listed OK and read names none of which opens with "Error:" is taken as discovered |
| Sync.FoldersToSync | src/utils/sync_service.py:177-179 | INBOX first, and the current folder second exactly when it is set, non-empty and not INBOX |
| Sync.PickedMembers | src/utils/sync_service.py:181-188 | a candidate is synced exactly when it is among the account's discovered folders |
| Sync.TargetsMembers | src/utils/sync_service.py:168-188 | a cycle syncs a folder of an account exactly when the account is registered, its discovery is complete, the folder is INBOX or the current one, and it was discovered |
| Sync.LastWith | src/utils/sync_service.py:133-134 | the stored message for a uid is one of the fetched messages with that uid |
| Sync.StoreAllContents | src/utils/sync_service.py:133-134 | after storing, the keys are the old ones plus the fetched uids, each fetched uid holding its last message and the others untouched |
| Sync.UpdatedDbContents | src/utils/sync_service.py:114-140 | the folder ends with the fetched messages, the last of each uid, plus the stored messages get_messages did not list; listed ones the server no longer has are gone |
| Sync.UpdatedDbMirrorsServer | src/utils/sync_service.py:114-140 | when every stored uid was listed, the folder ends with exactly the server's uids |
| Sync.UpdatedDbIdempotent | src/utils/sync_service.py:114-140 | syncing the same answer again changes nothing |
| Sync.WithoutMembers | src/utils/sync_service.py:58-61 | the order without an id holds exactly the other ids |
| Sync.WithoutDistinct | src/utils/sync_service.py:58-61 | taking an id out keeps the order free of repeats |
| Sync.WithoutAbsent | src/utils/sync_service.py:58-66 | taking out an id that is not there changes nothing |
| Sync.UnregisterUndoesRegister | src/utils/sync_service.py:43-66 | registering a new account and unregistering it again leaves the registries as they were |
| Sync.RegisterKeepsRegistry | src/utils/sync_service.py:43-47 | registration keeps each account once in the order, keyed by its email |
| Sync.UnregisterKeepsRegistry | src/utils/sync_service.py:58-66 | unregistration keeps each account once in the order, keyed by its email |
| Sync.SyncService.constructor | src/utils/sync_service.py:11-20 | empty registries, no callbacks, no current folder |
| Sync.SyncService.AddSyncCallback | src/utils/sync_service.py:39-41 | the callback is appended |
| Sync.SyncService.RegisterAccount | src/utils/sync_service.py:43-56 | the account is stored under its email and its discovery marked incomplete; an account registered again keeps its place |
| Sync.SyncService.UnregisterAccount | src/utils/sync_service.py:58-66 | the id leaves all three registries; an unknown id changes nothing and other accounts keep their entries |
| Sync.SyncService.SetCurrentFolder | src/utils/sync_service.py:68-71 | the current folder becomes the name |
| Sync.SyncService.NotifyCallbacks | src/utils/sync_service.py:203-209 | every callback is called with the same arguments in registration order, whether or not an earlier one raised |
| Sync.SyncService.OnFoldersDiscovered | src/utils/sync_service.py:102-110 | a non-empty list not opening with "Error:" is stored and marks discovery complete; any other list changes nothing; either way every callback hears of it with the matching event |
| Sync.SyncService.SyncCycle | src/utils/sync_service.py:162-188 | one pass over the accounts starts exactly the syncs Targets names, in order |
| Sync.SyncService.PickKnown | src/utils/sync_service.py:181-188 | the inner loop picks each candidate the account's discovered folders hold |
| Sync.SyncService.GetAllFolders | src/utils/sync_service.py:221-223 | the discovered folders, [] for an account without any |
| Sync.SyncService.IsFolderDiscoveryComplete | src/utils/sync_service.py:225-227 | false for an account never registered, else the stored flag |
| Sync.UpdateMessagesInDb | src/utils/sync_service.py:114-140 | the uids removed are exactly the stored uids minus the fetched ones, and the folder ends as UpdatedDb says |
| Sync.StoreMessages | src/utils/sync_service.py:133-134 | the messages are written one after another, later ones replacing earlier ones with the same uid |
| Strings.StripIdempotent | src/components/message_list/search.py:10 | str.strip() of a stripped text changes nothing |
| Strings.StripEmptyIff | src/components/message_list/search.py:10 | str.strip() gives "" exactly for all-whitespace text |
| Strings.SplitJoin | src/utils/mail.py:110 | joining the parts of s.split(c) with c gives s back |
| Strings.JoinSplit | src/utils/mail.py:110 | splitting parts joined with c gives the parts back when none holds c |
| Strings.SplitWhitespaceJoin | src/utils/mail.py:114-116 | s.split() of tokens joined by single spaces gives the tokens back |
| Strings.CollapseWords | src/models/message.py:166 | collapsing the whitespace keeps the words of the text |
| Strings.CollapseIdempotent | src/models/message.py:166 | collapsing twice is collapsing once |
| Strings.ParseIntRoundTrip | src/utils/message_parser.py:251 | int(str(n)) == n for every integer |
| Strings.DedupeProperties | src/utils/thread_grouping.py:89-97 | each element once, the same elements as the input, in the order of their first occurrence |
| Strings.DedupeOfDistinct | src/utils/thread_grouping.py:89-97 | a list without repeats is kept as it is |
| DateOrder.SortPermutes | src/models/thread.py:47 | the sort keeps every element as often as it occurs |
| DateOrder.SortSorted | src/models/thread.py:47 | the result is ordered by the key, None standing for datetime.min, in either direction |
| DateOrder.SortStable | src/utils/thread_grouping.py:23 | elements with equal keys keep their relative order |
| DateOrder.SortOfSorted | src/models/thread.py:47 | sorting a sorted list changes nothing |
| DateOrder.SortAppended | src/models/thread.py:19-47 | sorting the sorted list with one more element appended is sorting all the elements |
| DateOrder.MaxDate | src/models/thread.py:31-32 | the larger of two dates, and one of them |
| LexOrder.SortLexPermutes | src/utils/mail.py:135 | folders.sort() keeps every name as often as it occurs |
| LexOrder.SortLexSorted | src/utils/mail.py:135 | folders.sort() leaves the names in ascending order |
| LexOrder.SortedUnique | src/utils/mail.py:135 | the sorted list is the only ordered permutation of the names |
| LexOrder.SortedSetOrders | src/components/sidebar/__init__.py:215 | sorted(folder_dict.items()) visits each key once, in ascending order |

## Left out

- I/O and concurrency are not modelled:
  - background threads and `GLib.idle_add`;
  - `start`/`stop`, the `running` flag and the sleeps of `_sync_loop`;
  - `get_sync_status`, which reads `time.time()`.
- A callback is an identifier, and the set of callbacks that raise on a call is a parameter. A notification carries the folder list as its data.
- `sync_folder` and the fetch of a folder's messages are not modelled. A cycle returns the folder syncs it would start.
- The database:
  - the stored messages of one folder are a map from uid;
  - the uids `get_messages` lists are a parameter;
  - `_remove_messages_from_db` is the removal of those keys, and the attachment rows it deletes are not modelled.
- The discovery callback's `isinstance(folders, list)` test is not modelled, since the model's discovery result is always a list.
- D-Bus is not modelled. Account lookup, `get_oauth2_token` and `get_mail_settings` become parameters: the token, the settings, and None for missing settings. An empty settings dictionary, which the source also treats as missing, is that same None.
- The connection is not modelled: `connect_to_imap_server`, SSL contexts and ports. The failure of each stage is a parameter, an exception text or None.
- `mail.list()` is a parameter: an exception text, or a status with the lines already decoded. The bytes/tuple decoding of each line is not modelled.
- MIME and RFC 2047 header decoding is the identity followed by strip, which is exact for text without encoded words. This covers `_decode_header` and `decode_envelope_field` after its NIL and quote handling.
- Also left out:
  - `parse_bodystructure`, `parse_bodystructure_string` and `parse_message_from_imap`;
  - the `extract_*` and `create_message_from_raw_email` functions, which wrap the `email` library.
- Dates are not modelled:
  - `_parse_date`, `_format_date_for_display` and `get_display_date` read `datetime.now()`;
  - a date is an optional integer.
- Messages.Message.constructor: builds the addresses with the corrected reading of message.py:78-81. The code as written gives an envelope address {"name": "A", "email": "a@x"} the email "", so its recipient lists are empty and the sender has no email (Messages.ParsedEntryDropped).
- Messages.BareMessageId: the code as written compares the message id with its angle brackets (thread_grouping.py:54-57), so no reference ever matches (ThreadGrouping.BracketedIdsNeverLinked).
- ThreadGrouping.FindByReferences: links by bare ids. As written, a reply whose References header names a message never joins that message's thread through references; it joins by subject, or opens a new thread when the subject changed.
- ThreadGrouping.FindThreadByReferences: returns the corrected reference match; the code as written finds none.
- ThreadGrouping.FindThreadForMessage: as written, the reference step never fires, so only the subject step chooses a thread.
- ThreadGrouping.PlaceMessage: places by the corrected match; as written, a reply with a changed subject opens a thread of its own.
- ThreadGrouping.GroupMessagesIntoThreads: the threads are those of the corrected link; as written, with ids in their bracketed envelope form, grouping is by thread subject alone.
- Mail.FolderNames: reads lines with the corrected parse_folder_line. As written, `(\HasNoChildren) "/" INBOX` lists "/" (Mail.UnquotedNameGivesDelimiter).
- Mail.NameOf: the corrected reading; as written, an unquoted name after a quoted delimiter yields the delimiter.
- Mail.GetFoldersFromImap: computes the corrected folder list; as written, a server that quotes the delimiter but not the names reports "/" once per folder.
- Mail.ReadFolderNames: the corrected reading; as written it collects the delimiter in place of each unquoted name.
- Mail.FetchedFolders: gives the corrected folder list on success. As written, with the login accepted, an OK answer holding `(\HasNoChildren) "/" INBOX` and no logout error, the callback receives ["/"], where the model gives ["INBOX"].
- Mail.FetchedFoldersNonEmpty: stated of the corrected list; the code as written also never delivers an empty list, but the names it sorts are delimiters where names are unquoted.
- Sync.FetchedDiscovery: stated of the corrected fetch. As written, a server that quotes the delimiter but not the names makes discovery succeed with a list of "/" entries, so the cycle then finds no INBOX among the discovered folders.
- Strings.ParseInt: accepts ASCII decimal digits (with single underscores between them) only; Python's `int()` also accepts other Unicode decimal digits, such as Arabic-Indic or full-width digits, which the model rejects, so the size field reads them as 0.
- Mail.FoldersFromImapShape: stated of the corrected list; the code as written satisfies the same shape with delimiters in place of unquoted names.
- Sync.UpdatedDbContents: the database is modelled one folder at a time. In storage.py the messages table has `uid INTEGER PRIMARY KEY` (separately from folder and account), so `INSERT OR REPLACE` of a uid also replaces a row with that uid in another folder or account. The model does not show that, and it does not promise that other folders are untouched.
- Sync.FetchedDiscovery: a fetch that lists a real folder whose own name opens with "Error:" and sorts first is taken for a failed discovery, as on_folders_discovered does; the lemma states success only when no name read opens with the mark.
- Messages.SizeString: the KB/MB/GB branches of `get_size_string` use floating point. The model keeps the divisor and unit of each branch, and states only the bounds of the quotient, not the one-decimal text.
- `str.lower()`/`upper()` are an ASCII case map, so non-ASCII case pairs are not folded.
- The GTK widgets are not modelled: the button and icon objects, row selection, and the loading row. A row is a record of account, level, name and full path; row objects are identified by their position.
- A click on a folder without children selects it, which is a widget action and is not modelled. OnFolderClicked changes nothing in that case.
- Sidebar.CollapseUndoesAddFolderRows requires a tree whose error nodes are all roots. Every tree organize_folders_hierarchy builds is one (FolderTree.OrganizedErrorsAtRoot).
- The `print`/`logging` calls are not modelled.
- MainFolders.QuotedName models the name extraction of the older main window (src/main.py:347-349) as written. It has the same second-to-last-segment rule as mail.py's parse_folder_line, whose correction is listed under Findings; the main window's copy is left uncorrected.
- The UI files, storage.py, imap_manager.py, the loaders and the TypeScript services are not part of this model.

## Findings

| source | as written | input that shows it | evidently intended | confidence | as-written member | corrected member |
|---|---|---|---|---|---|---|
| src/utils/message_parser.py:237 | the tokens are taken from `parse_envelope_parts(param_str[1:-1])`, which returns [] unless the inside of the list itself opens with "(" and closes with ")" | `("CHARSET" "utf-8")` gives {} | `{"charset": "utf-8"}`, the pairs of the list's own tokens | high (not executed) | MessageParser.PairDropped | MessageParser.PairKept |
| src/utils/thread_grouping.py:75 | `\s*\[.*?\]\s*$` is lazy, but the leftmost match wins, so it starts at the first "[" of the subject | "[PATCH] fix [v2]" normalises to "" | "[PATCH] fix", only the trailing tag removed | high (not executed) | ThreadGrouping.LeadingTagSwallowsSubject | ThreadGrouping.LeadingTagKept |
| src/models/message.py:78-81 | `_parse_address` reads "mailbox" and "host", but the envelope parser's address dictionaries carry "name" and "email" | the parsed address {"name": "A", "email": "a@x"} gives email "", so the recipient list is empty | a reported email kept as it is | medium (not executed) | Messages.ParsedEntryDropped | Messages.ParsedEntriesKept |
| src/utils/thread_grouping.py:54-57 | the message id is compared with angle brackets ("<id>") against thread references extracted without them | a reply whose References header is "<id>" never joins the thread of the message with id "<id>" | compare the bare ids | high (not executed) | ThreadGrouping.BracketedIdsNeverLinked | ThreadGrouping.ReplyLinked |
| src/utils/mail.py:109-112 | a line holding a quote gives its second-to-last quote-separated segment | `(\HasNoChildren) "/" INBOX` gives "/" | the folder name, the last field of the line | high (not executed) | Mail.UnquotedNameGivesDelimiter | Mail.UnquotedNameReadIntended |
