/**
 * src/utils/thread_grouping.py: messages are grouped into conversation threads in one
 * greedy pass (a reference match first, then a case-insensitive thread-subject match,
 * else a new thread), and the threads are then sorted by their latest date, newest first.
 */
module ThreadGrouping {
  import opened Opt
  import opened Strings
  import opened DateOrder
  import opened Messages
  import opened Threads

  // ---------------------------------------------------------------------
  // The grouping on values
  // ---------------------------------------------------------------------

  /** A thread as the grouping sees it: its subject and its messages in the order added. */
  datatype View = View(subject: string, added: seq<Message>)

  /** The two reference tests as written: x's id is among m's references, or m's id among
      x's. */
  predicate LinkedAsWritten(m: Message, x: Message) {
    x.messageId in m.threadReferences || m.messageId in x.threadReferences
  }

  /** As written, two messages whose ids carry the angle brackets of the envelope are
      never linked, whatever their references say. */
  lemma BracketedIdsNeverLinked(m: Message, x: Message, a: string, b: string)
    requires m.threadReferences == ThreadReferences(m.references, m.inReplyTo)
    requires x.threadReferences == ThreadReferences(x.references, x.inReplyTo)
    requires m.messageId == "<" + a + ">" && x.messageId == "<" + b + ">"
    ensures !LinkedAsWritten(m, x)
  {
    BracketedIdNeverReferenced(b, m.references, m.inReplyTo);
    BracketedIdNeverReferenced(a, x.references, x.inReplyTo);
  }

  /** The reference tests as evidently intended, on the bare ids (BareMessageId); the
      grouping below uses these. */
  predicate Linked(m: Message, x: Message) {
    BareMessageId(x.messageId) in m.threadReferences || BareMessageId(m.messageId) in x.threadReferences
  }

  /** Corrected, a reply whose References header lists the id of x is linked to x. */
  lemma ReplyLinked(m: Message, x: Message, id: string, ids: seq<string>)
    requires IdText(id) && id in ids && forall k :: 0 <= k < |ids| ==> IdText(ids[k])
    requires m.threadReferences == ThreadReferences(JoinWith(Bracketed(ids), " "), m.inReplyTo)
    requires x.messageId == "<" + id + ">"
    ensures Linked(m, x)
  {
    BareIdReferenced(id, ids, m.inReplyTo);
  }

  /** Some message of the thread is linked to m. */
  predicate RefMatch(m: Message, v: View) {
    exists x :: x in v.added && Linked(m, x)
  }

  /** thread.subject.lower() == normalized_subject.lower() */
  predicate SubjectMatch(m: Message, v: View) {
    Lower(v.subject) == Lower(m.threadSubject)
  }

  /** The first index from i on whose thread satisfies p. */
  function First(vs: seq<View>, p: View -> bool, i: nat): (r: Option<nat>)
    requires i <= |vs|
    ensures r.Some? ==> i <= r.value < |vs| && p(vs[r.value])
    ensures r.Some? ==> forall j :: i <= j < r.value ==> !p(vs[j])
    ensures r.None? ==> forall j :: i <= j < |vs| ==> !p(vs[j])
    decreases |vs| - i
  {
    if i == |vs| then None else if p(vs[i]) then Some(i) else First(vs, p, i + 1)
  }

  /** find_thread_by_references, as the index of the thread found. */
  function FindByReferences(m: Message, vs: seq<View>): (r: Option<nat>)
    ensures m.threadReferences == [] ==> r.None?
    ensures r.Some? ==> r.value < |vs| && RefMatch(m, vs[r.value])
    ensures r.Some? ==> forall j :: 0 <= j < r.value ==> !RefMatch(m, vs[j])
    ensures r.None? && m.threadReferences != [] ==> forall j :: 0 <= j < |vs| ==> !RefMatch(m, vs[j])
  {
    if m.threadReferences == [] then None else First(vs, v => RefMatch(m, v), 0)
  }

  /** The subject half of find_thread_for_message. */
  function FindBySubject(m: Message, vs: seq<View>): (r: Option<nat>)
    ensures m.threadSubject == "" ==> r.None?
    ensures r.Some? ==> r.value < |vs| && SubjectMatch(m, vs[r.value])
    ensures r.Some? ==> forall j :: 0 <= j < r.value ==> !SubjectMatch(m, vs[j])
    ensures r.None? && m.threadSubject != "" ==> forall j :: 0 <= j < |vs| ==> !SubjectMatch(m, vs[j])
  {
    if m.threadSubject == "" then None else First(vs, v => SubjectMatch(m, v), 0)
  }

  /** find_thread_for_message: references first, then the subject. */
  function FindThread(m: Message, vs: seq<View>): (r: Option<nat>)
    ensures r.Some? ==> r.value < |vs|
  {
    match FindByReferences(m, vs)
    case Some(i) => Some(i)
    case None => FindBySubject(m, vs)
  }

  /** A reference match wins over any subject match, even one in an earlier thread. */
  lemma ReferencesFirst(m: Message, vs: seq<View>, i: nat)
    requires m.threadReferences != [] && i < |vs| && RefMatch(m, vs[i])
    ensures var r := FindThread(m, vs);
            r.Some? && r.value <= i && RefMatch(m, vs[r.value])
            && forall j :: 0 <= j < r.value ==> !RefMatch(m, vs[j])
  {
  }

  /** A thread is chosen by its subject only when no thread matches by reference, and then
      it is the first whose subject equals the message's non-empty thread subject. */
  lemma SubjectFallback(m: Message, vs: seq<View>)
    requires FindThread(m, vs).Some? && !RefMatch(m, vs[FindThread(m, vs).value])
    ensures var i := FindThread(m, vs).value;
            m.threadSubject != "" && SubjectMatch(m, vs[i])
            && (m.threadReferences == [] || forall j :: 0 <= j < |vs| ==> !RefMatch(m, vs[j]))
            && forall j :: 0 <= j < i ==> !SubjectMatch(m, vs[j])
  {
  }

  /** No thread is found for a message without references whose thread subject is empty. */
  lemma NothingToMatch(m: Message, vs: seq<View>)
    requires m.threadReferences == [] && m.threadSubject == ""
    ensures FindThread(m, vs).None?
  {
  }

  /** One iteration of the grouping loop. */
  function Place(vs: seq<View>, m: Message): (r: seq<View>)
    ensures |r| == |vs| || |r| == |vs| + 1
  {
    match FindThread(m, vs)
    case Some(i) => vs[i := View(vs[i].subject, vs[i].added + [m])]
    case None => vs + [View(m.threadSubject, [m])]
  }

  /** The threads of group_messages_into_threads before the final sort, in creation order. */
  function Group(ms: seq<Message>): seq<View>
    decreases |ms|
  {
    if ms == [] then [] else Place(Group(ms[..|ms| - 1]), ms[|ms| - 1])
  }

  /** All messages of the threads, thread by thread. */
  function Flat(vs: seq<View>): seq<Message>
    decreases |vs|
  {
    if vs == [] then [] else Flat(vs[..|vs| - 1]) + vs[|vs| - 1].added
  }

  /** Adding a message to one thread adds it to the whole. */
  lemma {:induction false} FlatUpdate(vs: seq<View>, i: nat, v: View, m: Message)
    requires i < |vs| && v.added == vs[i].added + [m]
    ensures multiset(Flat(vs[i := v])) == multiset(Flat(vs)) + multiset{m}
    decreases |vs|
  {
    var init, last := vs[..|vs| - 1], vs[|vs| - 1];
    if i == |vs| - 1 {
      assert vs[i := v][..|vs| - 1] == init;
    } else {
      assert vs[i := v][..|vs| - 1] == init[i := v];
      FlatUpdate(init, i, v, m);
    }
  }

  lemma FlatAppend(vs: seq<View>, v: View)
    ensures Flat(vs + [v]) == Flat(vs) + v.added
  {
    assert (vs + [v])[..|vs|] == vs;
  }

  /** One placement adds the message to exactly one thread. */
  lemma PlaceKeeps(vs: seq<View>, m: Message)
    ensures multiset(Flat(Place(vs, m))) == multiset(Flat(vs)) + multiset{m}
  {
    match FindThread(m, vs)
    case Some(i) =>
      FlatUpdate(vs, i, View(vs[i].subject, vs[i].added + [m]), m);
    case None =>
      FlatAppend(vs, View(m.threadSubject, [m]));
  }

  /** Every input message lands in exactly one thread, as often as it occurs. */
  lemma {:induction false} GroupKeepsEveryMessage(ms: seq<Message>)
    ensures multiset(Flat(Group(ms))) == multiset(ms)
    decreases |ms|
  {
    if ms != [] {
      var init, m := ms[..|ms| - 1], ms[|ms| - 1];
      GroupKeepsEveryMessage(init);
      PlaceKeeps(Group(init), m);
      SplitLast(ms);
    }
  }

  /** Every thread is named after the thread subject of the message that opened it. */
  lemma {:induction false} GroupOpenedByFirst(ms: seq<Message>)
    ensures forall k :: 0 <= k < |Group(ms)| ==>
      Group(ms)[k].added != [] && Group(ms)[k].subject == Group(ms)[k].added[0].threadSubject
    ensures |Group(ms)| <= |ms|
    decreases |ms|
  {
    if ms != [] {
      GroupOpenedByFirst(ms[..|ms| - 1]);
    }
  }

  /** A message without references or thread subject opens a thread of its own. */
  lemma LoneMessageOpensThread(ms: seq<Message>, m: Message)
    requires m.threadReferences == [] && m.threadSubject == ""
    ensures Group(ms + [m]) == Group(ms) + [View("", [m])]
  {
    assert (ms + [m])[..|ms|] == ms;
    NothingToMatch(m, Group(ms));
  }

  // ---------------------------------------------------------------------
  // The final sort
  // ---------------------------------------------------------------------

  /** t.latest_date, with None for datetime.min */
  function ViewLatest(v: View): Option<int> {
    Latest(v.added)
  }

  /** threads.sort(key=lambda t: t.latest_date or datetime.min, reverse=True) */
  function SortByLatest(vs: seq<View>): seq<View> {
    Sort(vs, ViewLatest, true)
  }

  /** The sorted threads are the grouped ones, newest first, threads with the same latest
      date in creation order, and threads without any date last. */
  lemma SortedThreads(ms: seq<Message>)
    ensures var out := SortByLatest(Group(ms));
            multiset(out) == multiset(Group(ms))
            && SortedBy(out, ViewLatest, true)
            && (forall d :: WithKey(out, ViewLatest, d) == WithKey(Group(ms), ViewLatest, d))
            && forall i, j :: 0 <= i < j < |out| && ViewLatest(out[i]).None? ==> ViewLatest(out[j]).None?
  {
    var vs := Group(ms);
    SortPermutes(vs, ViewLatest, true);
    SortSorted(vs, ViewLatest, true);
    forall d ensures WithKey(SortByLatest(vs), ViewLatest, d) == WithKey(vs, ViewLatest, d) {
      SortStable(vs, ViewLatest, true, d);
    }
  }

  lemma {:induction false} FlatInsert(s: seq<View>, x: View, desc: bool)
    ensures multiset(Flat(Insert(s, x, ViewLatest, desc))) == multiset(Flat(s)) + multiset(x.added)
    decreases |s|
  {
    if s == [] {
      FlatAppend([], x);
    } else if Precedes(ViewLatest(s[|s| - 1]), ViewLatest(x), desc) {
      FlatAppend(s, x);
    } else {
      var init, last := s[..|s| - 1], s[|s| - 1];
      FlatInsert(init, x, desc);
      FlatAppend(Insert(init, x, ViewLatest, desc), last);
    }
  }

  lemma {:induction false} FlatSort(vs: seq<View>, desc: bool)
    ensures multiset(Flat(Sort(vs, ViewLatest, desc))) == multiset(Flat(vs))
    decreases |vs|
  {
    if vs != [] {
      FlatSort(vs[..|vs| - 1], desc);
      FlatInsert(Sort(vs[..|vs| - 1], ViewLatest, desc), vs[|vs| - 1], desc);
    }
  }

  /** The total message count over the returned threads equals the number of input messages,
      and each input message is in exactly one returned thread. */
  lemma GroupedMessagesCount(ms: seq<Message>)
    ensures multiset(Flat(SortByLatest(Group(ms)))) == multiset(ms)
    ensures |Flat(SortByLatest(Group(ms)))| == |ms|
  {
    FlatSort(Group(ms), true);
    GroupKeepsEveryMessage(ms);
    assert |Flat(SortByLatest(Group(ms)))| == |multiset(Flat(SortByLatest(Group(ms))))|;
  }

  // ---------------------------------------------------------------------
  // The grouping on thread objects
  // ---------------------------------------------------------------------

  /** The object t is the thread v. */
  ghost predicate Shows(t: MessageThread, v: View)
    reads t
  {
    t.Valid() && t.subject == v.subject && t.added == v.added
  }

  ghost predicate ShowsAll(ts: seq<MessageThread>, vs: seq<View>)
    reads set t | t in ts
  {
    |ts| == |vs| && forall k :: 0 <= k < |ts| ==> Shows(ts[k], vs[k])
  }

  predicate DistinctThreads(ts: seq<MessageThread>) {
    forall i, j :: 0 <= i < j < |ts| ==> ts[i] != ts[j]
  }

  /** The thread at an index found on the views. */
  function ThreadAt(ts: seq<MessageThread>, i: Option<nat>): Option<MessageThread> {
    if i.Some? && i.value < |ts| then Some(ts[i.value]) else None
  }

  /** What the lookups read of the threads: the subject and which messages they hold. */
  ghost predicate Mirrors(ts: seq<MessageThread>, vs: seq<View>)
    reads set t | t in ts
  {
    |ts| == |vs|
    && forall k :: 0 <= k < |ts| ==>
      ts[k].subject == vs[k].subject && multiset(ts[k].messages) == multiset(vs[k].added)
  }

  lemma ShowsMirrors(ts: seq<MessageThread>, vs: seq<View>)
    requires ShowsAll(ts, vs)
    ensures Mirrors(ts, vs)
  {
    forall k | 0 <= k < |ts| ensures multiset(ts[k].messages) == multiset(vs[k].added) {
      ThreadMessagesSorted(ts[k]);
    }
  }

  /** find_thread_by_references: every message of every thread, in order, with the
      message ids compared without their brackets (see Linked). */
  method FindThreadByReferences(m: Message, threads: seq<MessageThread>, ghost vs: seq<View>)
    returns (r: Option<MessageThread>)
    requires Mirrors(threads, vs)
    ensures r == ThreadAt(threads, FindByReferences(m, vs))
  {
    if m.threadReferences == [] {
      return None;
    }
    var i := 0;
    while i < |threads|
      invariant 0 <= i <= |threads|
      invariant forall j :: 0 <= j < i ==> !RefMatch(m, vs[j])
    {
      var thread := threads[i];
      var k := 0;
      while k < |thread.messages|
        invariant 0 <= k <= |thread.messages|
        invariant forall q :: 0 <= q < k ==> !Linked(m, thread.messages[q])
      {
        var threadMessage := thread.messages[k];
        if BareMessageId(threadMessage.messageId) in m.threadReferences {
          assert threadMessage in multiset(vs[i].added);
          return Some(thread);
        }
        if BareMessageId(m.messageId) in threadMessage.threadReferences {
          assert threadMessage in multiset(vs[i].added);
          return Some(thread);
        }
        k := k + 1;
      }
      forall x | x in vs[i].added ensures !Linked(m, x) {
        assert x in multiset(thread.messages);
        var q :| 0 <= q < |thread.messages| && thread.messages[q] == x;
      }
      i := i + 1;
    }
    return None;
  }

  /** find_thread_for_message */
  method FindThreadForMessage(m: Message, threads: seq<MessageThread>, ghost vs: seq<View>)
    returns (r: Option<MessageThread>)
    requires Mirrors(threads, vs)
    ensures r == ThreadAt(threads, FindThread(m, vs))
  {
    r := FindThreadByReferences(m, threads, vs);
    if r.Some? {
      return;
    }
    var normalizedSubject := m.threadSubject;
    if normalizedSubject != "" {
      var i := 0;
      while i < |threads|
        invariant 0 <= i <= |threads|
        invariant forall j :: 0 <= j < i ==> !SubjectMatch(m, vs[j])
      {
        if Lower(threads[i].subject) == Lower(normalizedSubject) {
          return Some(threads[i]);
        }
        i := i + 1;
      }
    }
    return None;
  }

  /** The sort key of each thread, taken once per thread as list.sort does. */
  function Keyed(ts: seq<MessageThread>): (r: seq<(Option<int>, MessageThread)>)
    reads set t | t in ts
    ensures |r| == |ts| && forall k :: 0 <= k < |ts| ==> r[k] == (ts[k].latestDate, ts[k])
    decreases |ts|
  {
    if ts == [] then [] else Keyed(ts[..|ts| - 1]) + [(ts[|ts| - 1].latestDate, ts[|ts| - 1])]
  }

  function KeyOf(p: (Option<int>, MessageThread)): Option<int> {
    p.0
  }

  function ThreadOf(p: (Option<int>, MessageThread)): MessageThread {
    p.1
  }

  /** The view of the first thread in ts that is t. */
  ghost function ViewFor(t: MessageThread, ts: seq<MessageThread>, vs: seq<View>): View
    decreases |ts|
  {
    if ts == [] || vs == [] then View("", []) else if ts[0] == t then vs[0] else ViewFor(t, ts[1..], vs[1..])
  }

  lemma {:induction false} ViewForAt(ts: seq<MessageThread>, vs: seq<View>, k: nat)
    requires |ts| == |vs| && k < |ts| && DistinctThreads(ts)
    ensures ViewFor(ts[k], ts, vs) == vs[k]
    decreases k
  {
    if k > 0 {
      ViewForAt(ts[1..], vs[1..], k - 1);
    }
  }

  ghost function Viewer(ts: seq<MessageThread>, vs: seq<View>): ((Option<int>, MessageThread)) -> View {
    (p: (Option<int>, MessageThread)) => ViewFor(p.1, ts, vs)
  }

  /** Mapping each keyed thread to its view gives the views back, with the key carried along. */
  lemma ViewerOnKeyed(keyed: seq<(Option<int>, MessageThread)>, ts: seq<MessageThread>, vs: seq<View>)
    requires |keyed| == |ts| == |vs| && DistinctThreads(ts)
    requires forall k :: 0 <= k < |keyed| ==> keyed[k] == (ViewLatest(vs[k]), ts[k])
    ensures forall y :: y in keyed ==> KeyOf(y) == ViewLatest(ViewFor(y.1, ts, vs))
    ensures Map(keyed, Viewer(ts, vs)) == vs
  {
    forall k | 0 <= k < |vs| ensures ViewFor(keyed[k].1, ts, vs) == vs[k] {
      ViewForAt(ts, vs, k);
    }
  }

  /** Sorting the keyed threads and then taking each one's view sorts the views. */
  lemma SortedViews(keyed: seq<(Option<int>, MessageThread)>, vs: seq<View>,
                    f: ((Option<int>, MessageThread)) -> View)
    requires forall y :: y in keyed ==> KeyOf(y) == ViewLatest(f(y))
    requires Map(keyed, f) == vs
    ensures Map(Sort(keyed, KeyOf, true), f) == SortByLatest(vs)
  {
    SortMap(keyed, f, KeyOf, ViewLatest, true);
  }

  /** A permutation of the keyed threads, mapped to views, takes each view from the place of
      the thread it names. */
  lemma PickAt(sorted: seq<(Option<int>, MessageThread)>, keyed: seq<(Option<int>, MessageThread)>,
               ts: seq<MessageThread>, vs: seq<View>, w: seq<View>, f: ((Option<int>, MessageThread)) -> View)
    requires multiset(sorted) == multiset(keyed) && |keyed| == |ts| == |vs|
    requires forall k :: 0 <= k < |keyed| ==> keyed[k].1 == ts[k]
    requires Map(keyed, f) == vs && Map(sorted, f) == w
    ensures |sorted| == |vs| && forall q :: 0 <= q < |sorted| ==>
              exists k :: 0 <= k < |ts| && sorted[q].1 == ts[k] && w[q] == vs[k]
  {
    assert |sorted| == |multiset(sorted)|;
    forall q | 0 <= q < |sorted|
      ensures exists k :: 0 <= k < |ts| && sorted[q].1 == ts[k] && w[q] == vs[k]
    {
      assert sorted[q] in multiset(keyed);
      var k :| 0 <= k < |keyed| && keyed[k] == sorted[q];
      assert w[q] == f(sorted[q]) == vs[k];
    }
  }

  /** Sorting the keyed threads shows the sorted views. */
  lemma SortedShows(ts: seq<MessageThread>, vs: seq<View>)
    requires ShowsAll(ts, vs) && DistinctThreads(ts)
    ensures var out := Map(Sort(Keyed(ts), KeyOf, true), ThreadOf);
            ShowsAll(out, SortByLatest(vs)) && forall t :: t in out ==> t in ts
  {
    var keyed := Keyed(ts);
    ViewerOnKeyed(keyed, ts, vs);
    SortedViews(keyed, vs, Viewer(ts, vs));
    var sorted := Sort(keyed, KeyOf, true);
    SortPermutes(keyed, KeyOf, true);
    PickAt(sorted, keyed, ts, vs, SortByLatest(vs), Viewer(ts, vs));
    var out := Map(sorted, ThreadOf);
    forall q | 0 <= q < |out| ensures Shows(out[q], SortByLatest(vs)[q]) && out[q] in ts {
      var k :| 0 <= k < |ts| && sorted[q].1 == ts[k] && SortByLatest(vs)[q] == vs[k];
    }
    forall t | t in out ensures t in ts {
      var q :| 0 <= q < |out| && out[q] == t;
    }
  }

  /** thread.add_message(message) on a thread found among the others. */
  method AddToThread(thread: MessageThread, m: Message, ghost ts: seq<MessageThread>, ghost vs: seq<View>, ghost j: nat)
    requires ShowsAll(ts, vs) && DistinctThreads(ts) && j < |ts| && thread == ts[j]
    modifies thread
    ensures ShowsAll(ts, vs[j := View(vs[j].subject, vs[j].added + [m])])
  {
    thread.AddMessage(m);
  }

  /** A new MessageThread(message.get_thread_subject()) holding the message. */
  method OpenThread(m: Message) returns (thread: MessageThread)
    ensures fresh(thread) && Shows(thread, View(m.threadSubject, [m]))
  {
    thread := new MessageThread(m.threadSubject);
    thread.AddMessage(m);
  }

  lemma ShowsAllAppend(ts: seq<MessageThread>, vs: seq<View>, t: MessageThread, v: View)
    requires ShowsAll(ts, vs) && Shows(t, v)
    ensures ShowsAll(ts + [t], vs + [v])
  {
  }

  /** The body of the loop of group_messages_into_threads for one message. */
  method PlaceMessage(message: Message, threads: seq<MessageThread>, ghost vs: seq<View>)
    returns (after: seq<MessageThread>)
    requires ShowsAll(threads, vs) && DistinctThreads(threads)
    modifies set t | t in threads
    ensures ShowsAll(after, Place(vs, message)) && DistinctThreads(after)
    ensures forall t :: t in after ==> t in threads || fresh(t)
  {
    ShowsMirrors(threads, vs);
    ghost var index := FindThread(message, vs);
    var thread := FindThreadForMessage(message, threads, vs);
    if thread.Some? {
      assert index.Some? && thread.value == threads[index.value];
      AddToThread(thread.value, message, threads, vs, index.value);
      after := threads;
    } else {
      after := AppendThread(message, threads, vs);
    }
  }

  /** A new thread for a message no thread takes, added at the end. */
  method AppendThread(message: Message, threads: seq<MessageThread>, ghost vs: seq<View>)
    returns (after: seq<MessageThread>)
    requires ShowsAll(threads, vs) && DistinctThreads(threads)
    ensures ShowsAll(after, vs + [View(message.threadSubject, [message])]) && DistinctThreads(after)
    ensures forall t :: t in after ==> t in threads || fresh(t)
  {
    var newThread := OpenThread(message);
    ShowsAllAppend(threads, vs, newThread, View(message.threadSubject, [message]));
    DistinctAppend(threads, newThread);
    after := threads + [newThread];
  }

  lemma DistinctAppend(ts: seq<MessageThread>, t: MessageThread)
    requires DistinctThreads(ts) && t !in ts
    ensures DistinctThreads(ts + [t])
  {
  }

  /** group_messages_into_threads */
  method GroupMessagesIntoThreads(messages: seq<Message>) returns (threads: seq<MessageThread>)
    ensures ShowsAll(threads, SortByLatest(Group(messages)))
    ensures forall t :: t in threads ==> fresh(t)
  {
    var created: seq<MessageThread> := [];
    ghost var views: seq<View> := [];
    var i := 0;
    while i < |messages|
      invariant 0 <= i <= |messages|
      invariant ShowsAll(created, views) && views == Group(messages[..i])
      invariant DistinctThreads(created)
      invariant forall t :: t in created ==> fresh(t)
    {
      assert messages[..i + 1][..i] == messages[..i];
      created := PlaceMessage(messages[i], created, views);
      views := Place(views, messages[i]);
      i := i + 1;
    }
    assert messages[..i] == messages;
    SortedShows(created, views);
    threads := Map(Sort(Keyed(created), KeyOf, true), ThreadOf);
  }

  // ---------------------------------------------------------------------
  // normalize_subject
  // ---------------------------------------------------------------------

  /** re.sub(r"\s*\[.*?\]\s*$", "", s) (and the same with parentheses), as written: the
      leftmost match starts at the whitespace before the FIRST opening bracket, as soon as
      the text ends with a closing one. ('.' cannot cross a newline; the input has none
      once whitespace is collapsed.) */
  function CutTrailingGroupAsWritten(s: string, open: char, close: char): (r: string)
    ensures |r| <= |s|
  {
    var t := TrimRight(s);
    if t != [] && t[|t| - 1] == close && open in t[..|t| - 1] then TrimRight(s[..IndexOf(s, open)])
    else s
  }

  /** The evidently intended rule: only the bracket group at the very end is removed, with
      the whitespace before it. */
  function CutTrailingGroup(s: string, open: char, close: char): (r: string)
    ensures |r| <= |s|
  {
    var t := TrimRight(s);
    if t != [] && t[|t| - 1] == close then
      match LastIndexOf(t[..|t| - 1], open)
      case Some(k) => if close in t[k + 1..|t| - 1] then s else TrimRight(s[..k])
      case None => s
    else s
  }

  /** normalize_subject as written. */
  function NormalizeSubjectAsWritten(subject: string): (r: string)
    ensures subject == "" ==> r == ""
  {
    if subject == "" then ""
    else CutTrailingGroupAsWritten(CutTrailingGroupAsWritten(ThreadSubject(subject), '[', ']'), '(', ')')
  }

  /** normalize_subject with the trailing-group rule as intended. */
  function NormalizeSubject(subject: string): (r: string)
    ensures subject == "" ==> r == ""
  {
    if subject == "" then ""
    else CutTrailingGroup(CutTrailingGroup(ThreadSubject(subject), '[', ']'), '(', ')')
  }

  predicate Brackets(open: char, close: char) {
    (open == '[' && close == ']') || (open == '(' && close == ')')
  }

  lemma TrimRightSpace(a: string)
    ensures TrimRight(a + " ") == TrimRight(a)
  {
    assert (a + " ")[..|a|] == a;
  }

  lemma TrimRightClosed(s: string, close: char)
    requires s != [] && s[|s| - 1] == close && !IsSpace(close)
    ensures TrimRight(s) == s
  {
  }

  /** The intended rule removes a tag at the end, and only that. */
  lemma CutTrailingTag(a: string, tag: string, open: char, close: char)
    requires Brackets(open, close) && open !in tag && close !in tag
    ensures CutTrailingGroup(a + " " + [open] + tag + [close], open, close) == TrimRight(a)
  {
    var s := a + " " + [open] + tag + [close];
    var front := a + " ";
    TrimRightClosed(s, close);
    assert s[..|s| - 1] == front + [open] + tag;
    LastOpenBeforeTag(front, tag, open);
    assert s[..|front|] == front;
    TrimRightSpace(a);
  }

  /** The last opening bracket is the one before a tag that holds none. */
  lemma LastOpenBeforeTag(front: string, tag: string, open: char)
    requires open !in tag
    ensures var body := front + [open] + tag;
      LastIndexOf(body, open) == Some(|front|) && body[|front| + 1..] == tag
  {
    var body := front + [open] + tag;
    var k := LastIndexOf(body, open);
    assert body[|front|] == open;
    forall i | |front| < i < |body| ensures body[i] != open {
      assert body[i] == tag[i - |front| - 1];
    }
    assert body[|front| + 1..] == tag;
  }

  /** As written, a subject that opens with a bracket (a list tag such as "[PATCH]") and ends
      with a bracket group is cut down to nothing. */
  lemma LeadingTagSwallowsSubject(a: string, tag: string)
    requires a != [] && a[0] == '['
    ensures CutTrailingGroupAsWritten(a + " [" + tag + "]", '[', ']') == ""
  {
    var s := a + " [" + tag + "]";
    TrimRightClosed(s, ']');
    assert s[0] == '[' && s[..|s| - 1][|a| + 1] == '[';
  }

  /** The intended rule keeps such a subject up to its last tag. */
  lemma LeadingTagKept(a: string, tag: string)
    requires a != [] && a[0] == '[' && !IsSpace(a[|a| - 1])
    requires '[' !in tag && ']' !in tag
    ensures CutTrailingGroup(a + " [" + tag + "]", '[', ']') == a
  {
    assert a + " [" + tag + "]" == a + " " + ['['] + tag + [']'];
    CutTrailingTag(a, tag, '[', ']');
  }

  /** A reply normalises like the subject it answers. */
  lemma ReplyNormalizesLikeOriginal(p: string, sep: string, subject: string)
    requires p in ReplyPrefixes
    requires forall i :: 0 <= i < |sep| ==> IsSpace(sep[i])
    requires subject != [] && !IsSpace(subject[0]) && !HasReplyPrefix(subject)
    ensures NormalizeSubject(p + ":" + sep + subject) == NormalizeSubject(subject)
  {
    ReplyKeepsThreadSubject(p, sep, subject);
  }

  // ---------------------------------------------------------------------
  // parse_references
  // ---------------------------------------------------------------------


  /** parse_references */
  method ParseReferences(referencesHeader: string) returns (uniqueIds: seq<string>)
    ensures uniqueIds == Dedupe(AngleIds(referencesHeader))
    ensures referencesHeader == "" ==> uniqueIds == []
  {
    if referencesHeader == "" {
      return [];
    }
    var messageIds := AngleIds(referencesHeader);
    var seen: set<string> := {};
    uniqueIds := [];
    var i := 0;
    while i < |messageIds|
      invariant 0 <= i <= |messageIds|
      invariant uniqueIds == Dedupe(messageIds[..i])
      invariant forall x :: x in seen <==> x in messageIds[..i]
    {
      var msgId := messageIds[i];
      assert messageIds[..i + 1][..i] == messageIds[..i];
      if msgId !in seen {
        seen := seen + {msgId};
        uniqueIds := uniqueIds + [msgId];
      }
      i := i + 1;
    }
    assert messageIds[..i] == messageIds;
  }
}
