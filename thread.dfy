/**
 * src/models/thread.py: a MessageThread collects messages and keeps running metadata
 * (participants, first and last date, unread count, attachment and flag markers),
 * re-sorting its messages by date after every addition.
 */
module Threads {
  import opened Opt
  import opened Strings
  import opened DateOrder
  import opened Messages

  /** The sort key: the message date, with None as datetime.min. */
  function DateOf(m: Message): Option<int> {
    m.date
  }

  /** messages.sort(key=lambda m: m.date or datetime.min) */
  function SortByDate(ms: seq<Message>): seq<Message> {
    Sort(ms, DateOf, false)
  }

  // ---------------------------------------------------------------------
  // Participants: a dict from email to name, in insertion order
  // ---------------------------------------------------------------------

  /** (email, name) pairs in the order the dict first saw each email. */
  type Participants = seq<(string, string)>

  function Emails(ps: Participants): (r: seq<string>)
    ensures |r| == |ps| && forall i :: 0 <= i < |ps| ==> r[i] == ps[i].0
  {
    if ps == [] then [] else [ps[0].0] + Emails(ps[1..])
  }

  /** participants.get(email) */
  function Lookup(ps: Participants, email: string): Option<string> {
    if ps == [] then None else if ps[0].0 == email then Some(ps[0].1) else Lookup(ps[1..], email)
  }

  /** participants[email] = name: an existing key keeps its place, a new one goes last. */
  function Put(ps: Participants, email: string, name: string): Participants {
    if ps == [] then [(email, name)]
    else if ps[0].0 == email then [(email, name)] + ps[1..]
    else [ps[0]] + Put(ps[1..], email, name)
  }

  /** The assignment is read back; every other email is unaffected. */
  lemma {:induction false} PutLookup(ps: Participants, email: string, name: string, other: string)
    ensures Lookup(Put(ps, email, name), other) == if other == email then Some(name) else Lookup(ps, other)
  {
    if ps != [] && ps[0].0 != email {
      PutLookup(ps[1..], email, name, other);
    }
  }

  /** Insertion order: a known email keeps the order, a new one is appended. */
  lemma {:induction false} PutEmails(ps: Participants, email: string, name: string)
    ensures Emails(Put(ps, email, name)) == if email in Emails(ps) then Emails(ps) else Emails(ps) + [email]
  {
    if ps != [] && ps[0].0 != email {
      PutEmails(ps[1..], email, name);
      assert Emails(ps) == [ps[0].0] + Emails(ps[1..]);
    }
  }

  /** No email twice, and every email and name non-empty. */
  predicate ParticipantsValid(ps: Participants) {
    Distinct(Emails(ps)) && forall i :: 0 <= i < |ps| ==> ps[i].0 != "" && ps[i].1 != ""
  }

  lemma PutValid(ps: Participants, email: string, name: string)
    requires ParticipantsValid(ps) && email != "" && name != ""
    ensures ParticipantsValid(Put(ps, email, name))
  {
    var r := Put(ps, email, name);
    PutEmails(ps, email, name);
    PutPairs(ps, email, name);
    forall i | 0 <= i < |r| ensures r[i].0 != "" && r[i].1 != "" {
      assert r[i] in r;
      if r[i] != (email, name) {
        var k :| 0 <= k < |ps| && ps[k] == r[i];
      }
    }
  }

  lemma {:induction false} PutPairs(ps: Participants, email: string, name: string)
    ensures forall p :: p in Put(ps, email, name) ==> p in ps || p == (email, name)
  {
    if ps != [] && ps[0].0 != email {
      PutPairs(ps[1..], email, name);
    }
  }

  /** name or email */
  function NameOrEmail(a: Address): string {
    if a.name != "" then a.name else a.email
  }

  /** The update add_message makes for one address: only addresses with an email count. */
  function Note(ps: Participants, a: Address): Participants {
    if a.email != "" then Put(ps, a.email, NameOrEmail(a)) else ps
  }

  function NoteAll(ps: Participants, addrs: seq<Address>): Participants
    decreases |addrs|
  {
    if addrs == [] then ps else Note(NoteAll(ps, addrs[..|addrs| - 1]), addrs[|addrs| - 1])
  }

  lemma NoteAllStep(ps: Participants, addrs: seq<Address>, i: nat)
    requires i < |addrs|
    ensures NoteAll(ps, addrs[..i + 1]) == Note(NoteAll(ps, addrs[..i]), addrs[i])
  {
    assert addrs[..i + 1][..i] == addrs[..i];
  }

  /** The sender, then each recipient. */
  function NoteMessage(ps: Participants, m: Message): Participants {
    NoteAll(Note(ps, m.sender), m.recipients)
  }

  /** The participants of a thread the messages were added to in this order. */
  function ParticipantsOf(ms: seq<Message>): Participants
    decreases |ms|
  {
    if ms == [] then [] else NoteMessage(ParticipantsOf(ms[..|ms| - 1]), ms[|ms| - 1])
  }

  lemma NoteValid(ps: Participants, a: Address)
    requires ParticipantsValid(ps)
    ensures ParticipantsValid(Note(ps, a))
  {
    if a.email != "" {
      PutValid(ps, a.email, NameOrEmail(a));
    }
  }

  lemma {:induction false} NoteAllValid(ps: Participants, addrs: seq<Address>)
    requires ParticipantsValid(ps)
    ensures ParticipantsValid(NoteAll(ps, addrs))
    decreases |addrs|
  {
    if addrs != [] {
      NoteAllValid(ps, addrs[..|addrs| - 1]);
      NoteValid(NoteAll(ps, addrs[..|addrs| - 1]), addrs[|addrs| - 1]);
    }
  }

  /** Every thread's participants have distinct, non-empty emails and non-empty names. */
  lemma {:induction false} ParticipantsOfValid(ms: seq<Message>)
    ensures ParticipantsValid(ParticipantsOf(ms))
    decreases |ms|
  {
    if ms != [] {
      var init := ms[..|ms| - 1];
      ParticipantsOfValid(init);
      NoteValid(ParticipantsOf(init), ms[|ms| - 1].sender);
      NoteAllValid(Note(ParticipantsOf(init), ms[|ms| - 1].sender), ms[|ms| - 1].recipients);
    }
  }

  /** [name for name in participants.values() if name] */
  function Names(ps: Participants): (r: seq<string>)
    ensures |r| <= |ps|
  {
    if ps == [] then [] else (if ps[0].1 != "" then [ps[0].1] else []) + Names(ps[1..])
  }

  lemma {:induction false} NamesOfValid(ps: Participants)
    requires forall i :: 0 <= i < |ps| ==> ps[i].1 != ""
    ensures |Names(ps)| == |ps| && forall i :: 0 <= i < |ps| ==> Names(ps)[i] == ps[i].1
  {
    if ps != [] {
      NamesOfValid(ps[1..]);
    }
  }

  /** get_participant_summary, given what get_display_sender returns. */
  function ParticipantSummary(ps: Participants, sender: string): (r: string)
    requires ParticipantsValid(ps)
    ensures |ps| <= 1 ==> r == sender
    ensures |ps| == 2 ==> r == ps[0].1 + " and " + ps[1].1
    ensures |ps| > 2 ==> r == ps[0].1 + " and " + NatToString(|ps| - 1) + " others"
  {
    NamesOfValid(ps);
    var names := Names(ps);
    assert |ps| == 2 ==> names[..2][1..] == [names[1]] && JoinWith([names[1]], " and ") == names[1];
    if |ps| <= 1 then sender
    else if |ps| == 2 then JoinWith(names[..2], " and ")
    else names[0] + " and " + NatToString(|ps| - 1) + " others"
  }

  // ---------------------------------------------------------------------
  // Dates and counters
  // ---------------------------------------------------------------------

  /** The latest_date update for one message. */
  function LaterOf(current: Option<int>, d: Option<int>): Option<int> {
    if d.Some? && (current.None? || d.value > current.value) then d else current
  }

  /** The earliest_date update for one message. */
  function EarlierOf(current: Option<int>, d: Option<int>): Option<int> {
    if d.Some? && (current.None? || d.value < current.value) then d else current
  }

  function Latest(ms: seq<Message>): Option<int>
    decreases |ms|
  {
    if ms == [] then None else LaterOf(Latest(ms[..|ms| - 1]), ms[|ms| - 1].date)
  }

  function Earliest(ms: seq<Message>): Option<int>
    decreases |ms|
  {
    if ms == [] then None else EarlierOf(Earliest(ms[..|ms| - 1]), ms[|ms| - 1].date)
  }

  /** latest_date is the largest date of the thread, or None when no message has one. */
  lemma {:induction false} LatestIsMaximum(ms: seq<Message>)
    ensures Latest(ms).None? <==> forall k :: 0 <= k < |ms| ==> ms[k].date.None?
    ensures forall k :: 0 <= k < |ms| && ms[k].date.Some? ==> ms[k].date.value <= Latest(ms).value
    ensures Latest(ms).Some? ==> exists k :: 0 <= k < |ms| && ms[k].date == Latest(ms)
    decreases |ms|
  {
    if ms != [] {
      var init := ms[..|ms| - 1];
      LatestIsMaximum(init);
      assert forall k :: 0 <= k < |init| ==> ms[k] == init[k];
    }
  }

  /** earliest_date is the smallest date of the thread, or None when no message has one. */
  lemma {:induction false} EarliestIsMinimum(ms: seq<Message>)
    ensures Earliest(ms).None? <==> forall k :: 0 <= k < |ms| ==> ms[k].date.None?
    ensures forall k :: 0 <= k < |ms| && ms[k].date.Some? ==> Earliest(ms).value <= ms[k].date.value
    ensures Earliest(ms).Some? ==> exists k :: 0 <= k < |ms| && ms[k].date == Earliest(ms)
    decreases |ms|
  {
    if ms != [] {
      var init := ms[..|ms| - 1];
      EarliestIsMinimum(init);
      assert forall k :: 0 <= k < |init| ==> ms[k] == init[k];
    }
  }

  /** The number of unread messages. */
  function Unread(ms: seq<Message>): nat
    decreases |ms|
  {
    if ms == [] then 0 else Unread(ms[..|ms| - 1]) + (if ms[|ms| - 1].isRead then 0 else 1)
  }

  /** Whether some message is flagged. */
  function AnyFlagged(ms: seq<Message>): bool
    decreases |ms|
  {
    if ms == [] then false else AnyFlagged(ms[..|ms| - 1]) || ms[|ms| - 1].isFlagged
  }

  /** unread_count counts the messages without \Seen: none exactly when all are read. */
  lemma {:induction false} UnreadCounts(ms: seq<Message>)
    ensures Unread(ms) <= |ms|
    ensures Unread(ms) == 0 <==> forall k :: 0 <= k < |ms| ==> ms[k].isRead
    decreases |ms|
  {
    if ms != [] {
      UnreadCounts(ms[..|ms| - 1]);
      assert forall k :: 0 <= k < |ms| - 1 ==> ms[..|ms| - 1][k] == ms[k];
    }
  }

  /** is_flagged is set exactly when some message carries \Flagged. */
  lemma {:induction false} AnyFlaggedIff(ms: seq<Message>)
    ensures AnyFlagged(ms) <==> exists k :: 0 <= k < |ms| && ms[k].isFlagged
    decreases |ms|
  {
    if ms != [] {
      AnyFlaggedIff(ms[..|ms| - 1]);
      assert forall k :: 0 <= k < |ms| - 1 ==> ms[..|ms| - 1][k] == ms[k];
    }
  }

  /** One more message, as each summary sees it. */
  lemma ParticipantsStep(ms: seq<Message>, m: Message)
    ensures ParticipantsOf(ms + [m]) == NoteMessage(ParticipantsOf(ms), m)
  {
    assert (ms + [m])[..|ms|] == ms;
  }

  lemma DatesStep(ms: seq<Message>, m: Message)
    ensures Latest(ms + [m]) == LaterOf(Latest(ms), m.date)
    ensures Earliest(ms + [m]) == EarlierOf(Earliest(ms), m.date)
  {
    assert (ms + [m])[..|ms|] == ms;
  }

  lemma FlagsStep(ms: seq<Message>, m: Message)
    ensures Unread(ms + [m]) == Unread(ms) + (if m.isRead then 0 else 1)
    ensures AnyFlagged(ms + [m]) == (AnyFlagged(ms) || m.isFlagged)
  {
    assert (ms + [m])[..|ms|] == ms;
  }

  /** The latest-date update agrees with the larger key of the sort. */
  lemma LaterOfIsMax(current: Option<int>, d: Option<int>)
    ensures LaterOf(current, d) == MaxDate(current, d)
  {
  }

  /** After sorting, the last message carries latest_date. */
  lemma {:induction false} LastIsLatest(ms: seq<Message>)
    requires ms != []
    ensures var s := SortByDate(ms); s[|s| - 1].date == Latest(ms)
    decreases |ms|
  {
    var init, m := ms[..|ms| - 1], ms[|ms| - 1];
    if init != [] {
      LastIsLatest(init);
      InsertLast(SortByDate(init), m, DateOf);
      LaterOfIsMax(Latest(init), m.date);
    }
  }

  /** The message whose sender get_display_sender shows: among the messages with the
      latest date, the one added last. */
  /** DisplayedIsLastAddedOfLatest, for a list that may be empty. */
  lemma LastAddedOfLatest(ms: seq<Message>)
    ensures ms == [] ==> SortByDate(ms) == []
    ensures ms != [] ==> var s := SortByDate(ms); var w := WithKey(ms, DateOf, Latest(ms));
            w != [] && s != [] && s[|s| - 1] == w[|w| - 1]
  {
    if ms != [] {
      DisplayedIsLastAddedOfLatest(ms);
    }
  }

  lemma DisplayedIsLastAddedOfLatest(ms: seq<Message>)
    requires ms != []
    ensures var s := SortByDate(ms); var w := WithKey(ms, DateOf, Latest(ms));
            w != [] && s[|s| - 1] == w[|w| - 1]
  {
    var s := SortByDate(ms);
    LastIsLatest(ms);
    SortStable(ms, DateOf, false, Latest(ms));
    assert s == s[..|s| - 1] + [s[|s| - 1]];
    WithKeyAppend(s[..|s| - 1], s[|s| - 1], DateOf, Latest(ms));
  }

  // ---------------------------------------------------------------------
  // The thread object
  // ---------------------------------------------------------------------

  class MessageThread {
    const subject: string
    var messages: seq<Message>
    var participants: Participants
    var latestDate: Option<int>
    var earliestDate: Option<int>
    var unreadCount: nat
    var hasAttachments: bool
    var isFlagged: bool
    /** The messages in the order they were added. */
    ghost var added: seq<Message>

    /** Every field is the summary of the added messages. */
    ghost predicate Valid()
      reads this
    {
      messages == SortByDate(added)
      && participants == ParticipantsOf(added)
      && latestDate == Latest(added) && earliestDate == Earliest(added)
      && unreadCount == Unread(added) && isFlagged == AnyFlagged(added)
    }

    constructor(subject: string)
      ensures this.subject == subject && Valid() && added == []
      ensures messages == [] && participants == [] && latestDate == None && earliestDate == None
      ensures unreadCount == 0 && !hasAttachments && !isFlagged
    {
      this.subject := subject;
      messages := [];
      participants := [];
      latestDate := None;
      earliestDate := None;
      unreadCount := 0;
      hasAttachments := false;
      isFlagged := false;
      added := [];
    }

    /** add_message */
    method AddMessage(m: Message)
      requires Valid()
      modifies this
      ensures Valid() && added == old(added) + [m]
      ensures hasAttachments == (old(hasAttachments) || m.hasAttachments)
    {
      ghost var before := added;
      messages := messages + [m];
      NoteParticipants(m, before);
      NoteDates(m, before);
      NoteFlags(m, before);
      SortMessages(m, before);
      added := before + [m];
    }

    /** messages.sort(key=lambda m: m.date or datetime.min), after the append. */
    method SortMessages(m: Message, ghost ms: seq<Message>)
      requires messages == SortByDate(ms) + [m]
      modifies this`messages
      ensures messages == SortByDate(ms + [m])
    {
      messages := SortByDate(messages);
      SortAppended(ms, m, DateOf, false);
    }

    /** The participants part of add_message: the sender, then each recipient, by email. */
    method NoteParticipants(m: Message, ghost ms: seq<Message>)
      requires participants == ParticipantsOf(ms)
      modifies this`participants
      ensures participants == ParticipantsOf(ms + [m])
    {
      if m.sender.email != "" {
        participants := Put(participants, m.sender.email, NameOrEmail(m.sender));
      }
      ghost var afterSender := participants;
      var i := 0;
      while i < |m.recipients|
        invariant 0 <= i <= |m.recipients|
        invariant participants == NoteAll(afterSender, m.recipients[..i])
        modifies this`participants
      {
        var recipient := m.recipients[i];
        NoteAllStep(afterSender, m.recipients, i);
        if recipient.email != "" {
          participants := Put(participants, recipient.email, NameOrEmail(recipient));
        }
        i := i + 1;
      }
      assert m.recipients[..i] == m.recipients;
      ParticipantsStep(ms, m);
    }

    /** The date part of add_message: a dated message may move either end of the range. */
    method NoteDates(m: Message, ghost ms: seq<Message>)
      requires latestDate == Latest(ms) && earliestDate == Earliest(ms)
      modifies this`latestDate, this`earliestDate
      ensures latestDate == Latest(ms + [m]) && earliestDate == Earliest(ms + [m])
    {
      DatesStep(ms, m);
      if m.date.Some? {
        if latestDate.None? || m.date.value > latestDate.value {
          latestDate := m.date;
        }
        if earliestDate.None? || m.date.value < earliestDate.value {
          earliestDate := m.date;
        }
      }
    }

    /** The flag part of add_message. */
    method NoteFlags(m: Message, ghost ms: seq<Message>)
      requires unreadCount == Unread(ms) && isFlagged == AnyFlagged(ms)
      modifies this`unreadCount, this`hasAttachments, this`isFlagged
      ensures unreadCount == Unread(ms + [m]) && isFlagged == AnyFlagged(ms + [m])
      ensures hasAttachments == (old(hasAttachments) || m.hasAttachments)
    {
      FlagsStep(ms, m);
      if !m.isRead {
        unreadCount := unreadCount + 1;
      }
      if m.hasAttachments {
        hasAttachments := true;
      }
      if m.isFlagged {
        isFlagged := true;
      }
    }

    /** get_display_subject */
    function DisplaySubjectText(): (r: string)
      ensures r != "" && (subject != "" ==> r == subject)
      ensures subject == "" ==> r == "(No Subject)"
    {
      DisplaySubject(subject)
    }

    /** get_display_sender: "Unknown" for an empty thread, else the display sender of the
        last message in date order. */
    function DisplaySenderText(): (r: string)
      reads this
      ensures Valid() && added == [] ==> r == "Unknown"
      ensures Valid() && added != [] ==>
        var w := WithKey(added, DateOf, latestDate); w != [] && r == w[|w| - 1].displaySender
    {
      LastAddedOfLatest(added);
      if messages == [] then "Unknown" else messages[|messages| - 1].displaySender
    }

    /** get_participant_summary */
    function ParticipantSummaryText(): (r: string)
      reads this
      requires Valid()
      ensures |participants| <= 1 ==> r == DisplaySenderText()
      ensures |participants| == 2 ==> r == participants[0].1 + " and " + participants[1].1
      ensures |participants| > 2 ==>
        r == participants[0].1 + " and " + NatToString(|participants| - 1) + " others"
    {
      ParticipantsOfValid(added);
      ParticipantSummary(participants, DisplaySenderText())
    }

    /** get_unread_count: the number of added messages not marked \Seen. */
    function UnreadCount(): (r: nat)
      reads this
      requires Valid()
      ensures r == Unread(added)
    {
      unreadCount
    }
  }

  /** What a valid thread shows as its sender: the last-added message among those with
      the latest date. */
  lemma DisplaySenderIsLatest(t: MessageThread)
    requires t.Valid() && t.added != []
    ensures var w := WithKey(t.added, DateOf, t.latestDate);
            w != [] && t.DisplaySenderText() == w[|w| - 1].displaySender
  {
    DisplayedIsLastAddedOfLatest(t.added);
  }

  /** A valid thread holds exactly the added messages, in date order, each kept once as
      often as it was added, messages of equal date in the order they were added. */
  lemma ThreadMessagesSorted(t: MessageThread)
    requires t.Valid()
    ensures multiset(t.messages) == multiset(t.added)
    ensures SortedBy(t.messages, DateOf, false)
    ensures forall d :: WithKey(t.messages, DateOf, d) == WithKey(t.added, DateOf, d)
  {
    SortPermutes(t.added, DateOf, false);
    SortSorted(t.added, DateOf, false);
    forall d ensures WithKey(t.messages, DateOf, d) == WithKey(t.added, DateOf, d) {
      SortStable(t.added, DateOf, false, d);
    }
  }
}
