/**
 * The message list's search filter (MessageSearch in
 * src/components/message_list/search.py): the search text is kept lower-cased and
 * stripped, and a message passes when that text occurs in its lower-cased sender name,
 * sender email or subject.
 */
module Search {
  import opened Opt
  import opened Strings

  /** The parts of a message dict the search reads: the sender dict and the subject, each
      None when the key is absent. */
  datatype MessageDict = MessageDict(sender: Option<map<string, string>>, subject: Option<string>)

  /** message.get('sender', {}).get(key, '') */
  function SenderField(m: MessageDict, key: string): string {
    match m.sender
    case None => ""
    case Some(f) => if key in f then f[key] else ""
  }

  /** message.get('subject', '') */
  function SubjectOf(m: MessageDict): string {
    match m.subject
    case None => ""
    case Some(s) => s
  }

  /** The three texts the search looks in, lower-cased, in the order it tries them. */
  function SearchFields(m: MessageDict): seq<string> {
    [Lower(SenderField(m, "name")), Lower(SenderField(m, "email")), Lower(SubjectOf(m))]
  }

  /** sub occurs in s starting at position i. */
  predicate OccursAt(s: string, sub: string, i: nat) {
    i + |sub| <= |s| && s[i..i + |sub|] == sub
  }

  /** sub occurs in s at some position. */
  ghost predicate Occurs(s: string, sub: string) {
    exists i: nat :: OccursAt(s, sub, i)
  }

  /** _message_matches_search: the sender name, then the sender email, then the subject. */
  function MessageMatchesSearch(m: MessageDict, searchText: string): (r: bool)
    ensures r <==> exists k :: 0 <= k < 3 && Occurs(SearchFields(m)[k], searchText)
  {
    var fields := SearchFields(m);
    ContainsIffOccurs(fields[0], searchText);
    ContainsIffOccurs(fields[1], searchText);
    ContainsIffOccurs(fields[2], searchText);
    if Contains(Lower(SenderField(m, "name")), searchText) then true
    else if Contains(Lower(SenderField(m, "email")), searchText) then true
    else Contains(Lower(SubjectOf(m)), searchText)
  }

  /** Python's `sub in s` holds exactly when sub occurs in s somewhere. */
  lemma ContainsIffOccurs(s: string, sub: string)
    ensures Contains(s, sub) <==> Occurs(s, sub)
  {
    if Contains(s, sub) {
      var i := ContainsWitness(s, sub);
      assert OccursAt(s, sub, i);
    }
    if Occurs(s, sub) {
      var i: nat :| OccursAt(s, sub, i);
      ContainsAt(s, sub, i);
    }
  }

  /** The messages that match, in their order. */
  function Filter(messages: seq<MessageDict>, searchText: string): seq<MessageDict>
    decreases |messages|
  {
    if messages == [] then []
    else
      var last := messages[|messages| - 1];
      Filter(messages[..|messages| - 1], searchText)
      + if MessageMatchesSearch(last, searchText) then [last] else []
  }

  /** The positions of the matching messages, in ascending order. */
  function MatchPositions(messages: seq<MessageDict>, searchText: string): seq<nat>
    decreases |messages|
  {
    if messages == [] then []
    else
      MatchPositions(messages[..|messages| - 1], searchText)
      + if MessageMatchesSearch(messages[|messages| - 1], searchText) then [|messages| - 1] else []
  }

  /** The positions are ascending, below |messages|, and exactly those of the matches. */
  lemma {:induction false} MatchPositionsExact(messages: seq<MessageDict>, searchText: string)
    ensures var idx := MatchPositions(messages, searchText);
      (forall k :: 0 <= k < |idx| ==> idx[k] < |messages|)
      && (forall k, l :: 0 <= k < l < |idx| ==> idx[k] < idx[l])
      && (forall j :: 0 <= j < |messages| ==> (j in idx <==> MessageMatchesSearch(messages[j], searchText)))
    decreases |messages|
  {
    if messages != [] {
      var init := messages[..|messages| - 1];
      MatchPositionsExact(init, searchText);
      forall j | 0 <= j < |init| ensures init[j] == messages[j] { }
    }
  }

  /** The filter picks the messages at those positions: it is the subsequence of the
      input made of the matching messages. */
  lemma {:induction false} FilterPicksMatches(messages: seq<MessageDict>, searchText: string)
    ensures var idx, r := MatchPositions(messages, searchText), Filter(messages, searchText);
      |r| == |idx| && forall k :: 0 <= k < |idx| ==> idx[k] < |messages| && r[k] == messages[idx[k]]
    decreases |messages|
  {
    if messages != [] {
      var init := messages[..|messages| - 1];
      FilterPicksMatches(init, searchText);
      MatchPositionsExact(init, searchText);
    }
  }

  /** A message is kept exactly when it is one of the input and matches. */
  lemma {:induction false} FilterMembers(messages: seq<MessageDict>, searchText: string)
    ensures forall m :: m in Filter(messages, searchText) <==> m in messages && MessageMatchesSearch(m, searchText)
    decreases |messages|
  {
    if messages != [] {
      var init := messages[..|messages| - 1];
      FilterMembers(init, searchText);
      assert messages == init + [messages[|messages| - 1]];
    }
  }

  lemma {:induction false} FilterAppend(a: seq<MessageDict>, b: seq<MessageDict>, searchText: string)
    ensures Filter(a + b, searchText) == Filter(a, searchText) + Filter(b, searchText)
    decreases |b|
  {
    if b == [] {
      assert a + b == a;
    } else {
      var b0 := b[..|b| - 1];
      assert (a + b)[..|a + b| - 1] == a + b0;
      FilterAppend(a, b0, searchText);
    }
  }

  /** Filtering the filtered list again changes nothing. */
  lemma {:induction false} FilterIdempotent(messages: seq<MessageDict>, searchText: string)
    ensures Filter(Filter(messages, searchText), searchText) == Filter(messages, searchText)
    decreases |messages|
  {
    if messages != [] {
      var init := messages[..|messages| - 1];
      var last := messages[|messages| - 1];
      FilterIdempotent(init, searchText);
      var tail := if MessageMatchesSearch(last, searchText) then [last] else [];
      FilterAppend(Filter(init, searchText), tail, searchText);
      if MessageMatchesSearch(last, searchText) {
        assert tail[..0] == [];
      }
    }
  }

  /** The empty text occurs everywhere, so filtering by it keeps every message: the
      branch for an empty search text returns what the loop would. */
  lemma {:induction false} FilterEmptyText(messages: seq<MessageDict>)
    ensures Filter(messages, "") == messages
    decreases |messages|
  {
    if messages != [] {
      var m := messages[|messages| - 1];
      assert SearchFields(m)[0][0..0] == "";
      FilterEmptyText(messages[..|messages| - 1]);
    }
  }

  /** What set_search_text stores. */
  function Normalize(text: string): string {
    Strip(Lower(text))
  }

  /** Storing a stored text again stores the same text. */
  lemma NormalizeIdempotent(text: string)
    ensures Normalize(Normalize(text)) == Normalize(text)
  {
    var u := Lower(text);
    var a := LeadingSpaces(u);
    var s := Normalize(text);
    assert s == u[a..][..TrailingStart(u[a..])];
    forall k | 0 <= k < |s| ensures LowerChar(s[k]) == s[k] {
      assert s[k] == u[a + k];
    }
    assert Lower(s) == s;
    StripIdempotent(u);
  }

  /** The stored text is empty, and the search off, exactly when the text typed is all
      whitespace. */
  lemma NormalizeEmptyIff(text: string)
    ensures Normalize(text) == "" <==> forall i :: 0 <= i < |text| ==> IsSpace(text[i])
  {
    StripEmptyIff(Lower(text));
    forall i | 0 <= i < |text| ensures IsSpace(Lower(text)[i]) <==> IsSpace(text[i]) {
    }
  }

  class MessageSearch {
    var searchText: string
    var filteredMessages: seq<MessageDict>

    constructor ()
      ensures searchText == "" && filteredMessages == []
    {
      searchText := "";
      filteredMessages := [];
    }

    /** set_search_text: stores the text lower-cased and stripped. */
    method SetSearchText(text: string)
      modifies this`searchText
      ensures searchText == Normalize(text)
    {
      searchText := Strip(Lower(text));
    }

    /** apply_filter: with no search text, every message and grouping on; otherwise the
        matching messages, in order, and grouping off. The result is also stored. */
    method ApplyFilter(messages: seq<MessageDict>) returns (result: seq<MessageDict>, grouping: bool)
      modifies this`filteredMessages
      ensures grouping <==> searchText == ""
      ensures result == Filter(messages, searchText) && filteredMessages == result
    {
      if searchText == "" {
        FilterEmptyText(messages);
        filteredMessages := messages;
        return filteredMessages, true;
      }
      filteredMessages := [];
      for i := 0 to |messages|
        invariant filteredMessages == Filter(messages[..i], searchText)
      {
        assert messages[..i + 1][..i] == messages[..i];
        if MessageMatchesSearch(messages[i], searchText) {
          filteredMessages := filteredMessages + [messages[i]];
        }
      }
      assert messages[..|messages|] == messages;
      return filteredMessages, false;
    }

    /** get_filtered_messages: the list the last apply_filter stored. */
    function GetFilteredMessages(): (r: seq<MessageDict>)
      reads this
      ensures r == filteredMessages
    {
      filteredMessages
    }

    /** has_search_text: bool(self.search_text). */
    function HasSearchText(): (r: bool)
      reads this
      ensures r <==> |searchText| > 0
    {
      searchText != ""
    }
  }
}
