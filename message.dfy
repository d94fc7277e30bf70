/**
 * The message model of src/models/message.py: the values a Message derives once
 * from the parsed IMAP data (flag booleans, addresses, display fallbacks, the
 * threading subject and references), its attachment list, and Attachment.
 */
module Messages {
  import opened Opt
  import opened Strings

  // ---------------------------------------------------------------------
  // Input data
  // ---------------------------------------------------------------------

  /** An element of an address list: a dictionary of strings, or anything else. */
  datatype Entry = Dict(fields: map<string, string>) | NotDict

  /** dict.get(key, "") */
  function Get(f: map<string, string>, key: string): string {
    if key in f then f[key] else ""
  }

  /** The envelope dictionary; a missing key reads as its default ("" or []).
      The date is already converted to a timestamp: parsedate_tz is not part of this model. */
  datatype EnvelopeDict = EnvelopeDict(
    subject: string,
    from: seq<Entry>, to: seq<Entry>, cc: seq<Entry>, bcc: seq<Entry>, replyTo: seq<Entry>,
    date: Option<int>,
    messageId: string, inReplyTo: string, references: string)

  /** The BODYSTRUCTURE value: absent, a dictionary (empty or not), or a list of parts. */
  datatype BodyStructure = NoBody | BodyDict(isEmpty: bool) | BodyList(length: nat)

  datatype MessageData = MessageData(uid: Option<int>, flags: seq<string>, envelope: EnvelopeDict,
                                     bodyStructure: BodyStructure)

  datatype Address = Address(name: string, email: string)

  // ---------------------------------------------------------------------
  // Derivations
  // ---------------------------------------------------------------------

  /** _decode_header on text without RFC 2047 encoded words: the text, stripped. */
  function DecodeHeader(h: string): string {
    Strip(h)
  }

  /** _parse_address: the first entry's name and mailbox@host; the empty address for an
      empty list or a first entry that is not a dictionary (the exception path). */
  function ParseAddress(data: seq<Entry>): (r: Address)
    ensures data == [] || data[0].NotDict? ==> r == Address("", "")
    ensures r.email != "" <==> data != [] && data[0].Dict?
                               && Get(data[0].fields, "mailbox") != "" && Get(data[0].fields, "host") != ""
  {
    if data == [] then Address("", "")
    else match data[0]
      case NotDict => Address("", "")
      case Dict(f) =>
        var mailbox := Get(f, "mailbox");
        var host := Get(f, "host");
        Address(DecodeHeader(Get(f, "name")), if mailbox != "" && host != "" then mailbox + "@" + host else "")
  }

  /** The address one entry of a list contributes: dictionaries whose address has an email. */
  function AddressOfEntry(e: Entry): seq<Address> {
    if e.Dict? && ParseAddress([e]).email != "" then [ParseAddress([e])] else []
  }

  /** _parse_address_list: non-dictionaries and addresses without an email are dropped. */
  function ParseAddressList(entries: seq<Entry>): (r: seq<Address>)
    ensures |r| <= |entries|
    ensures forall k :: 0 <= k < |r| ==> r[k].email != ""
    decreases |entries|
  {
    if entries == [] then [] else AddressOfEntry(entries[0]) + ParseAddressList(entries[1..])
  }

  /** The list is read entry by entry, in order. */
  lemma {:induction false} ParseAddressListAppend(a: seq<Entry>, b: seq<Entry>)
    ensures ParseAddressList(a + b) == ParseAddressList(a) + ParseAddressList(b)
  {
    if a != [] {
      assert (a + b)[0] == a[0] && (a + b)[1..] == a[1..] + b;
      ParseAddressListAppend(a[1..], b);
    } else {
      assert a + b == b;
    }
  }

  /** A dictionary with a mailbox and a host is kept; its email is mailbox@host. */
  lemma KeptEntry(name: string, mailbox: string, host: string)
    requires mailbox != "" && host != ""
    ensures ParseAddressList([Dict(map["name" := name, "mailbox" := mailbox, "host" := host])])
            == [Address(Strip(name), mailbox + "@" + host)]
    ensures ParseAddressListIntended([Dict(map["name" := name, "mailbox" := mailbox, "host" := host])])
            == [Address(Strip(name), mailbox + "@" + host)]
  {
    var e := Dict(map["name" := name, "mailbox" := mailbox, "host" := host]);
    assert Get(e.fields, "mailbox") == mailbox && Get(e.fields, "host") == host;
    assert [e][1..] == [];
  }

  /** The dictionary the envelope parser produces for one address: its keys are name and email. */
  function ParsedEntry(name: string, email: string): Entry {
    Dict(map["name" := name, "email" := email])
  }

  /** As written, an address in the envelope parser's own form loses its email, so every
      such address is dropped from a list and a sender keeps only its name. */
  lemma ParsedEntryDropped(name: string, email: string)
    ensures ParseAddress([ParsedEntry(name, email)]) == Address(Strip(name), "")
    ensures ParseAddressList([ParsedEntry(name, email)]) == []
  {
    var e := ParsedEntry(name, email);
    assert "mailbox" !in e.fields && "host" !in e.fields;
    assert [e][1..] == [];
  }

  /** _parse_address as evidently intended: an entry that already carries an email keeps
      it; an entry with mailbox and host (the raw IMAP form) joins them. */
  function ParseAddressIntended(data: seq<Entry>): (r: Address)
    ensures data == [] || data[0].NotDict? ==> r == Address("", "")
    ensures data != [] && data[0].Dict? && Get(data[0].fields, "email") != ""
            ==> r.email == Get(data[0].fields, "email")
    ensures data != [] && data[0].Dict? && Get(data[0].fields, "email") == "" ==> r == ParseAddress(data)
  {
    if data == [] then Address("", "")
    else match data[0]
      case NotDict => Address("", "")
      case Dict(f) =>
        if Get(f, "email") != "" then Address(DecodeHeader(Get(f, "name")), Get(f, "email"))
        else ParseAddress(data)
  }

  function AddressOfEntryIntended(e: Entry): seq<Address> {
    if e.Dict? && ParseAddressIntended([e]).email != "" then [ParseAddressIntended([e])] else []
  }

  /** _parse_address_list over ParseAddressIntended. */
  function ParseAddressListIntended(entries: seq<Entry>): (r: seq<Address>)
    ensures |r| <= |entries|
    ensures forall k :: 0 <= k < |r| ==> r[k].email != ""
    decreases |entries|
  {
    if entries == [] then [] else AddressOfEntryIntended(entries[0]) + ParseAddressListIntended(entries[1..])
  }

  /** The entries the envelope parser produces for a list of addresses. */
  function ParsedEntries(addrs: seq<Address>): (r: seq<Entry>)
    ensures |r| == |addrs|
    decreases |addrs|
  {
    if addrs == [] then [] else [ParsedEntry(addrs[0].name, addrs[0].email)] + ParsedEntries(addrs[1..])
  }

  /** Corrected, every address the envelope parser reports survives, in order, with its
      name and email. */
  lemma {:induction false} ParsedEntriesKept(addrs: seq<Address>)
    requires forall k :: 0 <= k < |addrs| ==> addrs[k].email != ""
    ensures var r := ParseAddressListIntended(ParsedEntries(addrs));
            |r| == |addrs| && forall k :: 0 <= k < |addrs| ==> r[k] == Address(Strip(addrs[k].name), addrs[k].email)
    decreases |addrs|
  {
    if addrs != [] {
      var entries := ParsedEntries(addrs);
      var rest := addrs[1..];
      ParsedEntriesKept(rest);
      assert entries[1..] == ParsedEntries(rest);
      EntryKept(addrs[0]);
      var r := ParseAddressListIntended(entries);
      assert r == [Address(Strip(addrs[0].name), addrs[0].email)] + ParseAddressListIntended(ParsedEntries(rest));
      forall k | 1 <= k < |addrs| ensures r[k] == Address(Strip(addrs[k].name), addrs[k].email) {
        assert addrs[k] == rest[k - 1];
      }
    }
  }

  /** One entry the envelope parser produces, with an email, is read back. */
  lemma EntryKept(a: Address)
    requires a.email != ""
    ensures AddressOfEntryIntended(ParsedEntry(a.name, a.email)) == [Address(Strip(a.name), a.email)]
  {
    assert Get(ParsedEntry(a.name, a.email).fields, "email") == a.email;
  }

  /** _format_sender_for_display: the name, else the email, else "Unknown Sender". */
  function DisplaySender(a: Address): (r: string)
    ensures r != ""
    ensures a.name != "" ==> r == a.name
    ensures a.name == "" && a.email != "" ==> r == a.email
    ensures a.name == "" && a.email == "" ==> r == "Unknown Sender"
  {
    if a.name != "" then a.name else if a.email != "" then a.email else "Unknown Sender"
  }

  /** _format_subject_for_display */
  function DisplaySubject(subject: string): (r: string)
    ensures r != ""
    ensures subject != "" ==> r == subject
    ensures subject == "" ==> r == "(No Subject)"
  {
    if subject != "" then subject else "(No Subject)"
  }

  /** The reply and forward prefixes of ^(Re|Fwd?|AW|Antw|回复|转发):, lower-cased. */
  const ReplyPrefixes: seq<string> := ["re", "fw", "fwd", "aw", "antw", "回复", "转发"]

  /** p, ignoring ASCII case, followed by ':' starts s. */
  predicate PrefixAt(s: string, p: string) {
    |p| < |s| && Lower(s[..|p|]) == p && s[|p|] == ':'
  }

  /** Length of the first reply/forward prefix (colon included) that starts s, if any. */
  function PrefixLength(s: string, ps: seq<string>): (r: Option<nat>)
    ensures r.Some? ==> exists k :: 0 <= k < |ps| && PrefixAt(s, ps[k]) && r.value == |ps[k]| + 1
    ensures r.None? ==> forall k :: 0 <= k < |ps| ==> !PrefixAt(s, ps[k])
    ensures r.Some? ==> r.value <= |s|
    decreases |ps|
  {
    if ps == [] then None
    else if PrefixAt(s, ps[0]) then Some(|ps[0]| + 1)
    else
      var r := PrefixLength(s, ps[1..]);
      assert forall k :: 1 <= k < |ps| ==> ps[k] == ps[1..][k - 1];
      r
  }

  predicate HasReplyPrefix(s: string) {
    PrefixLength(s, ReplyPrefixes).Some?
  }

  /** re.sub(r"^(Re|Fwd?|AW|Antw|回复|转发):\s*", "", s, flags=re.IGNORECASE): one prefix
      and the whitespace after it removed. */
  function StripReplyPrefix(s: string): (r: string)
    ensures !HasReplyPrefix(s) ==> r == s
  {
    match PrefixLength(s, ReplyPrefixes)
    case Some(n) => TrimLeft(s[n..])
    case None => s
  }

  /** get_thread_subject: "" for an empty subject; otherwise one reply/forward prefix removed
      and the whitespace collapsed. */
  function ThreadSubject(subject: string): (r: string)
    ensures subject == "" ==> r == ""
    ensures SplitWhitespace(r) == SplitWhitespace(StripReplyPrefix(subject))
    ensures Collapse(r) == r
  {
    if subject == "" then ""
    else
      CollapseWords(StripReplyPrefix(subject));
      CollapseIdempotent(StripReplyPrefix(subject));
      Collapse(StripReplyPrefix(subject))
  }

  /** A thread subject neither starts nor ends with whitespace. */
  lemma ThreadSubjectStripped(subject: string)
    ensures var t := ThreadSubject(subject); t == [] || (!IsSpace(t[0]) && !IsSpace(t[|t| - 1]))
  {
    if subject != "" {
      CollapseStripped(StripReplyPrefix(subject));
    }
  }

  /** Whitespace inside a subject does not matter to its thread subject. */
  lemma ThreadSubjectOfWords(subject: string)
    requires !HasReplyPrefix(subject) && !HasReplyPrefix(Collapse(subject))
    ensures ThreadSubject(Collapse(subject)) == ThreadSubject(subject)
  {
    CollapseIdempotent(subject);
  }

  /** A reply, "Re: " (in any case) or another prefix put in front of a subject, lands in the
      thread of the subject it answers. */
  lemma ReplyKeepsThreadSubject(p: string, sep: string, subject: string)
    requires p in ReplyPrefixes
    requires forall i :: 0 <= i < |sep| ==> IsSpace(sep[i])
    requires subject != [] && !IsSpace(subject[0]) && !HasReplyPrefix(subject)
    ensures ThreadSubject(p + ":" + sep + subject) == ThreadSubject(subject)
  {
    var rest := sep + subject;
    assert p + ":" + sep + subject == p + ":" + rest;
    StripPrefixed(p, rest);
    TrimLeftOver(sep, subject);
  }

  lemma PrefixedHasPrefix(p: string, rest: string)
    requires p in ReplyPrefixes
    ensures PrefixAt(p + ":" + rest, p)
  {
    var s := p + ":" + rest;
    assert s[..|p|] == p && s[|p|] == ':';
    LowerOfLower(p);
  }

  /** The prefix and the colon are removed, and then the whitespace after them. */
  lemma StripPrefixed(p: string, rest: string)
    requires p in ReplyPrefixes
    ensures StripReplyPrefix(p + ":" + rest) == TrimLeft(rest)
  {
    var s := p + ":" + rest;
    PrefixedHasPrefix(p, rest);
    UniquePrefix(s, p);
    assert s[|p| + 1..] == rest;
  }

  /** The prefixes are lower case already. */
  lemma LowerOfLower(p: string)
    requires p in ReplyPrefixes
    ensures Lower(p) == p
  {
  }

  lemma NoColonInPrefixes()
    ensures forall k :: 0 <= k < |ReplyPrefixes| ==> ':' !in ReplyPrefixes[k]
  {
  }

  /** Two prefixes followed by the colon at the start of the same text are the same prefix. */
  lemma PrefixUnique(s: string, p: string, q: string)
    requires ':' !in p && ':' !in q && PrefixAt(s, p) && PrefixAt(s, q)
    ensures p == q
  {
    assert Lower(s[..|p|]) == p && Lower(s[..|q|]) == q;
  }

  /** At most one prefix can start a text, since each is followed by the colon. */
  lemma UniquePrefix(s: string, p: string)
    requires p in ReplyPrefixes && PrefixAt(s, p)
    ensures PrefixLength(s, ReplyPrefixes) == Some(|p| + 1)
  {
    NoColonInPrefixes();
    var i :| 0 <= i < |ReplyPrefixes| && ReplyPrefixes[i] == p;
    FirstPrefixLength(s, ReplyPrefixes, p);
  }

  lemma {:induction false} FirstPrefixLength(s: string, ps: seq<string>, p: string)
    requires p in ps && PrefixAt(s, p) && ':' !in p
    requires forall k :: 0 <= k < |ps| ==> ':' !in ps[k]
    ensures PrefixLength(s, ps) == Some(|p| + 1)
    decreases |ps|
  {
    if PrefixAt(s, ps[0]) {
      PrefixUnique(s, p, ps[0]);
    } else {
      assert p in ps[1..];
      FirstPrefixLength(s, ps[1..], p);
    }
  }

  lemma {:induction false} TrimLeftOver(sep: string, t: string)
    requires forall i :: 0 <= i < |sep| ==> IsSpace(sep[i])
    requires t != [] && !IsSpace(t[0])
    ensures TrimLeft(sep + t) == t
    decreases |sep|
  {
    if sep == [] {
      assert sep + t == t;
    } else {
      assert (sep + t)[1..] == sep[1..] + t;
      TrimLeftOver(sep[1..], t);
    }
  }

  // ---------------------------------------------------------------------
  // References
  // ---------------------------------------------------------------------

  /** re.findall(r"<([^>]+)>", s): the text of each <...> group, left to right. A "<" starts
      a group when at least one character other than ">" follows it and then a ">". */
  function AngleIds(s: string): (r: seq<string>)
    ensures forall k :: 0 <= k < |r| ==> r[k] != [] && '>' !in r[k]
    decreases |s|
  {
    if s == [] then []
    else if s[0] == '<' then
      var k := IndexOf(s[1..], '>');
      if 0 < k < |s| - 1 then
        assert forall i :: 0 <= i < k ==> s[1..1 + k][i] == s[1..][i];
        [s[1..1 + k]] + AngleIds(s[k + 2..])
      else AngleIds(s[1..])
    else AngleIds(s[1..])
  }

  /** A message id that contains no ">". */
  predicate IdText(id: string) {
    id != [] && '>' !in id
  }

  lemma AngleIdsGroup(id: string, rest: string)
    requires IdText(id)
    ensures AngleIds("<" + id + ">" + rest) == [id] + AngleIds(rest)
  {
    var s := "<" + id + ">" + rest;
    assert s[1..] == id + ">" + rest;
    IndexOfAfter(id, rest);
    assert s[1..1 + |id|] == id;
    assert s[|id| + 2..] == rest;
  }

  lemma IndexOfAfter(id: string, rest: string)
    requires '>' !in id
    ensures IndexOf(id + ">" + rest, '>') == |id|
  {
    var t := id + ">" + rest;
    assert t[|id|] == '>';
    assert forall i :: 0 <= i < |id| ==> t[i] == id[i];
    IndexOfFirst(t, '>', |id|);
  }

  lemma {:induction false} IndexOfFirst(t: string, c: char, j: nat)
    requires j < |t| && t[j] == c && forall i :: 0 <= i < j ==> t[i] != c
    ensures IndexOf(t, c) == j
    decreases j
  {
    if j > 0 {
      IndexOfFirst(t[1..], c, j - 1);
    }
  }

  lemma AngleIdsSpace(rest: string)
    ensures AngleIds(" " + rest) == AngleIds(rest)
  {
    assert (" " + rest)[1..] == rest;
  }

  /** Ids written as a References header, "<a> <b> ...", are found again in order. */
  lemma {:induction false} AngleIdsRoundTrip(ids: seq<string>)
    requires forall k :: 0 <= k < |ids| ==> IdText(ids[k])
    ensures AngleIds(JoinWith(Bracketed(ids), " ")) == ids
  {
    if |ids| == 1 {
      AngleIdsGroup(ids[0], "");
      assert "<" + ids[0] + ">" + "" == "<" + ids[0] + ">";
      assert AngleIds("") == [];
    } else if |ids| > 1 {
      var b := Bracketed(ids);
      assert b[1..] == Bracketed(ids[1..]);
      var tail := JoinWith(b[1..], " ");
      assert JoinWith(b, " ") == "<" + ids[0] + ">" + (" " + tail);
      AngleIdsGroup(ids[0], " " + tail);
      AngleIdsSpace(tail);
      AngleIdsRoundTrip(ids[1..]);
      assert [ids[0]] + ids[1..] == ids;
    }
  }

  function Bracketed(ids: seq<string>): (r: seq<string>)
    ensures |r| == |ids|
  {
    if ids == [] then [] else ["<" + ids[0] + ">"] + Bracketed(ids[1..])
  }

  /** _parse_references: the ids of the References header followed by those of In-Reply-To,
      duplicates kept. */
  function ThreadReferences(references: string, inReplyTo: string): (r: seq<string>)
    ensures forall k :: 0 <= k < |r| ==> r[k] != [] && '>' !in r[k]
    ensures AngleIds(references) <= r && AngleIds(inReplyTo) == r[|AngleIds(references)|..]
  {
    AngleIds(references) + AngleIds(inReplyTo)
  }

  /** A message id as the envelope stores it, brackets included, is never one of the
      bracket-free ids the references are reduced to. */
  lemma BracketedIdNeverReferenced(id: string, references: string, inReplyTo: string)
    ensures "<" + id + ">" !in ThreadReferences(references, inReplyTo)
  {
    var b := "<" + id + ">";
    var a := AngleIds(references);
    var refs := ThreadReferences(references, inReplyTo);
    assert b[|b| - 1] == '>';
  }

  /** The evidently intended comparison key: the message id with its angle brackets
      removed, the form the references are reduced to. */
  function BareMessageId(messageId: string): (r: string)
    ensures |r| <= |messageId|
  {
    if |messageId| >= 2 && messageId[0] == '<' && messageId[|messageId| - 1] == '>'
    then messageId[1..|messageId| - 1]
    else messageId
  }

  /** With the brackets removed, the id of a referenced message is found among the
      references of a message that lists it. */
  lemma BareIdReferenced(id: string, ids: seq<string>, inReplyTo: string)
    requires IdText(id) && id in ids
    requires forall k :: 0 <= k < |ids| ==> IdText(ids[k])
    ensures BareMessageId("<" + id + ">") == id
    ensures id in ThreadReferences(JoinWith(Bracketed(ids), " "), inReplyTo)
  {
    var b := "<" + id + ">";
    assert b[1..|b| - 1] == id;
    AngleIdsRoundTrip(ids);
  }

  // ---------------------------------------------------------------------
  // The Message object
  // ---------------------------------------------------------------------

  /** _has_attachments: only a BODYSTRUCTURE list with more than one part counts. */
  function HasAttachments(b: BodyStructure): bool {
    b.BodyList? && b.length > 1
  }

  /** get_attachment_summary for a given count. */
  function AttachmentSummary(count: nat): (r: string)
    ensures r == "" <==> count == 0
    ensures count == 1 ==> r == "1 attachment"
    ensures count > 1 ==> r == NatToString(count) + " attachments"
  {
    if count == 0 then "" else if count == 1 then "1 attachment" else NatToString(count) + " attachments"
  }

  class Message {
    const uid: Option<int>
    const flags: seq<string>
    const subject: string
    const sender: Address
    const recipients: seq<Address>
    const cc: seq<Address>
    const bcc: seq<Address>
    const replyTo: seq<Address>
    const date: Option<int>
    const messageId: string
    const inReplyTo: string
    const references: string
    const isRead: bool
    const isFlagged: bool
    const isDeleted: bool
    const isDraft: bool
    const isAnswered: bool
    const threadSubject: string
    const threadReferences: seq<string>
    const displaySender: string
    const displaySubject: string
    var hasAttachments: bool
    var attachments: seq<Attachment>

    /** Once an attachment is added, has_attachments stays set. */
    predicate Valid()
      reads this
    {
      attachments != [] ==> hasAttachments
    }

    /** Message.__init__: every derived value is computed once from the data; the
        addresses are read by the corrected _parse_address (ParseAddressIntended). */
    constructor(data: MessageData)
      ensures uid == data.uid && flags == data.flags && date == data.envelope.date
      ensures subject == DecodeHeader(data.envelope.subject)
      ensures sender == ParseAddressIntended(data.envelope.from)
      ensures recipients == ParseAddressListIntended(data.envelope.to)
      ensures cc == ParseAddressListIntended(data.envelope.cc) && bcc == ParseAddressListIntended(data.envelope.bcc)
      ensures replyTo == ParseAddressListIntended(data.envelope.replyTo)
      ensures messageId == data.envelope.messageId && inReplyTo == data.envelope.inReplyTo
      ensures references == data.envelope.references
      ensures isRead <==> "\\Seen" in data.flags
      ensures isFlagged <==> "\\Flagged" in data.flags
      ensures isDeleted <==> "\\Deleted" in data.flags
      ensures isDraft <==> "\\Draft" in data.flags
      ensures isAnswered <==> "\\Answered" in data.flags
      ensures threadSubject == ThreadSubject(subject)
      ensures threadReferences == ThreadReferences(references, inReplyTo)
      ensures hasAttachments == HasAttachments(data.bodyStructure) && attachments == [] && Valid()
      ensures displaySender == DisplaySender(sender) && displaySubject == DisplaySubject(subject)
    {
      var env := data.envelope;
      uid := data.uid;
      flags := data.flags;
      subject := DecodeHeader(env.subject);
      sender := ParseAddressIntended(env.from);
      recipients := ParseAddressListIntended(env.to);
      cc := ParseAddressListIntended(env.cc);
      bcc := ParseAddressListIntended(env.bcc);
      replyTo := ParseAddressListIntended(env.replyTo);
      date := env.date;
      messageId := env.messageId;
      inReplyTo := env.inReplyTo;
      references := env.references;
      isRead := "\\Seen" in data.flags;
      isFlagged := "\\Flagged" in data.flags;
      isDeleted := "\\Deleted" in data.flags;
      isDraft := "\\Draft" in data.flags;
      isAnswered := "\\Answered" in data.flags;
      threadSubject := ThreadSubject(DecodeHeader(env.subject));
      threadReferences := ThreadReferences(env.references, env.inReplyTo);
      hasAttachments := HasAttachments(data.bodyStructure);
      attachments := [];
      displaySender := DisplaySender(ParseAddressIntended(env.from));
      displaySubject := DisplaySubject(DecodeHeader(env.subject));
    }

    /** add_attachment */
    method AddAttachment(a: Attachment)
      modifies this
      ensures attachments == old(attachments) + [a]
      ensures hasAttachments && Valid()
      ensures AttachmentCount() == old(AttachmentCount()) + 1
    {
      attachments := attachments + [a];
      hasAttachments := true;
    }

    /** get_attachment_count */
    function AttachmentCount(): (r: nat)
      reads this
      ensures r == 0 <==> attachments == []
      ensures Valid() && r > 0 ==> hasAttachments
    {
      |attachments|
    }

    /** get_attachment_summary */
    function Summary(): (r: string)
      reads this
      ensures r == "" <==> attachments == []
    {
      AttachmentSummary(AttachmentCount())
    }
  }

  // ---------------------------------------------------------------------
  // Attachment
  // ---------------------------------------------------------------------

  datatype Attachment = Attachment(filename: string, contentType: Option<string>, size: Option<int>,
                                   partId: Option<string>, isInline: bool, contentId: Option<string>)

  /** get_display_name */
  function DisplayName(a: Attachment): (r: string)
    ensures r != ""
    ensures a.filename != "" ==> r == a.filename
    ensures a.filename == "" ==> r == "Unknown"
  {
    if a.filename != "" then a.filename else "Unknown"
  }

  /** get_file_extension: the text after the last ".", lower-cased, or "" without a dot. */
  function Extension(filename: string): (r: string)
    ensures '.' !in r
  {
    match LastIndexOf(filename, '.')
    case None => ""
    case Some(i) =>
      var e := filename[i + 1..];
      assert forall j :: 0 <= j < |e| ==> e[j] == filename[i + 1 + j];
      Lower(e)
  }

  /** The extension of base.ext is ext, lower-cased, whatever dots base holds. */
  lemma ExtensionOf(base: string, ext: string)
    requires '.' !in ext
    ensures Extension(base + "." + ext) == Lower(ext)
  {
    var f := base + "." + ext;
    assert f[|base|] == '.';
    assert forall i :: |base| < i < |f| ==> f[i] == ext[i - |base| - 1];
    LastIndexOfAt(f, '.', |base|);
    assert f[|base| + 1..] == ext;
  }

  lemma LastIndexOfAt(s: string, c: char, j: nat)
    requires j < |s| && s[j] == c && forall i :: j < i < |s| ==> s[i] != c
    ensures LastIndexOf(s, c) == Some(j)
  {
  }

  lemma NoExtension(filename: string)
    requires '.' !in filename
    ensures Extension(filename) == ""
  {
  }

  /** get_icon_name: the first extension group that holds ext, text for anything else. */
  function IconName(ext: string): (r: string)
    ensures ext in ["jpg", "jpeg", "png", "gif", "bmp", "svg"] <==> r == "image-x-generic"
    ensures ext == "pdf" <==> r == "application-pdf"
    ensures ext in ["doc", "docx"] <==> r == "application-msword"
    ensures ext in ["xls", "xlsx"] <==> r == "application-vnd.ms-excel"
    ensures ext in ["ppt", "pptx"] <==> r == "application-vnd.ms-powerpoint"
    ensures ext in ["zip", "rar", "7z", "tar", "gz"] <==> r == "application-x-archive"
    ensures r == "text-x-generic" <==>
      ext !in ["jpg", "jpeg", "png", "gif", "bmp", "svg", "pdf", "doc", "docx", "xls", "xlsx",
               "ppt", "pptx", "zip", "rar", "7z", "tar", "gz"]
  {
    if ext in ["jpg", "jpeg", "png", "gif", "bmp", "svg"] then "image-x-generic"
    else if ext in ["pdf"] then "application-pdf"
    else if ext in ["doc", "docx"] then "application-msword"
    else if ext in ["xls", "xlsx"] then "application-vnd.ms-excel"
    else if ext in ["ppt", "pptx"] then "application-vnd.ms-powerpoint"
    else if ext in ["txt", "md"] then "text-x-generic"
    else if ext in ["zip", "rar", "7z", "tar", "gz"] then "application-x-archive"
    else "text-x-generic"
  }

  /** The icon does not depend on the case of the extension in the file name. */
  lemma IconIgnoresCase(base: string, ext: string)
    requires '.' !in ext && '.' !in Upper(ext)
    ensures IconName(Extension(base + "." + Upper(ext))) == IconName(Extension(base + "." + ext))
  {
    ExtensionOf(base, ext);
    ExtensionOf(base, Upper(ext));
    CaseMapsAbsorb(ext);
    assert Lower(Upper(ext)) == Lower(ext);
  }

  /** What get_size_string shows: a text, or a byte count scaled to a unit. The decimal
      rendering of the scaled value (one digit after the point) is not part of this model. */
  datatype SizeLabel = Text(text: string) | Scaled(unit: string, divisor: nat)

  const KiB: nat := 1024

  /** get_size_string */
  function SizeString(size: Option<int>): (r: SizeLabel)
    ensures size.None? || size.value == 0 ==> r == Text("Unknown size")
    ensures size.Some? && size.value != 0 && size.value < KiB ==> r == Text(IntToString(size.value) + " B")
    ensures r.Scaled? ==> r.divisor >= KiB
    ensures r.Scaled? ==> size.Some? && size.value >= KiB && size.value / r.divisor >= 1
    ensures r.Scaled? && r.unit != "GB" ==> size.value / r.divisor < KiB
  {
    if size.None? || size.value == 0 then Text("Unknown size")
    else if size.value < KiB then Text(IntToString(size.value) + " B")
    else if size.value < KiB * KiB then Scaled("KB", KiB)
    else if size.value < KiB * KiB * KiB then Scaled("MB", KiB * KiB)
    else Scaled("GB", KiB * KiB * KiB)
  }

  /** Sizes below 1024 bytes are written out exactly, and the number reads back. */
  lemma SmallSizeExact(n: int)
    requires n != 0 && n < KiB
    ensures SizeString(Some(n)) == Text(IntToString(n) + " B")
    ensures ParseInt(IntToString(n)) == Some(n)
  {
    ParseIntRoundTrip(n);
  }
}
