/** Ordering of a chat log: which neighbouring messages share a sender,
    which messages belong to a thread, and the order in which the log lists
    message dates, with each reply placed under its thread's root.

    A message is keyed by its date in milliseconds; a reply names its
    parent by the parent's date. */
module ChatLog {
  import opened Wrappers
  import opened JsText
  import opened JsValue
  import opened Sorting
  import Cmp

  datatype ChatMessage = ChatMessage(date: int, senderId: string, replyTo: Option<int>)

  /** The chat's messages in the order the map enumerates them, each under
      its key (the date in milliseconds). */
  type Messages = seq<(int, ChatMessage)>

  /** `messages.get(key)`. */
  function Get(messages: map<string, ChatMessage>, key: Option<string>): Option<ChatMessage>
  {
    if key.Some? && key.value in messages then Some(messages[key.value]) else None
  }

  /** `dates[i]`, undefined outside the array. */
  function At(dates: seq<string>, i: int): Option<string>
  {
    if 0 <= i < |dates| then Some(dates[i]) else None
  }

  /** Both messages exist and were sent by the same account. */
  predicate SameSender(a: Option<ChatMessage>, b: Option<ChatMessage>)
  {
    a.Some? && b.Some? && a.value.senderId == b.value.senderId
  }

  /** `isNextMessageSender(index, dates, messages)`. */
  predicate IsNextMessageSender(index: int, dates: seq<string>, messages: map<string, ChatMessage>)
  {
    if index + 1 == |dates| then false
    else SameSender(Get(messages, At(dates, index)), Get(messages, At(dates, index + 1)))
  }

  /** `isPrevMessageSender(index, dates, messages)`. */
  predicate IsPrevMessageSender(index: int, dates: seq<string>, messages: map<string, ChatMessage>)
  {
    if index == 0 then false
    else SameSender(Get(messages, At(dates, index)), Get(messages, At(dates, index - 1)))
  }

  /** A message continues its sender's run exactly when the next one starts
      from it: the two tests agree on every pair of neighbours. */
  lemma NextSenderIsPrevSender(index: int, dates: seq<string>, messages: map<string, ChatMessage>)
    ensures IsNextMessageSender(index, dates, messages) == IsPrevMessageSender(index + 1, dates, messages)
  {
  }

  /** Whether some message in the log replies to `date`. */
  function HasReplyTo(messages: Messages, date: int): (b: bool)
    ensures b <==> exists i :: 0 <= i < |messages| && messages[i].1.replyTo == Some(date)
  {
    if messages == [] then false
    else
      messages[|messages| - 1].1.replyTo == Some(date) || HasReplyTo(messages[..|messages| - 1], date)
  }

  /** `isThread(messages, message)`: a reply, or the root of some reply. */
  predicate IsThread(messages: Messages, message: ChatMessage)
  {
    message.replyTo.Some? || HasReplyTo(messages, message.date)
  }

  /** What the sort sees of a message: its date and its parent's date. */
  datatype Entry = Entry(time: int, parent: Option<int>)

  function CmpNum(x: int, y: int): (r: int)
    ensures r == Cmp.Cmp(Num(x), Num(y))
    ensures r == -1 <==> x < y
    ensures r == 1 <==> x > y
  {
    Cmp.Cmp(Num(x), Num(y))
  }

  /** `cmpMessages(a, b)`: replies to one parent by their own date; a parent
      before its reply; otherwise by the date of the thread's root. */
  function CmpMessages(a: Entry, b: Entry): (r: int)
    ensures -1 <= r <= 1
  {
    if a.parent.Some? && a.parent == b.parent then CmpNum(a.time, b.time)
    else if a.parent == Some(b.time) then 1
    else if b.parent == Some(a.time) then -1
    else CmpNum(a.parent.GetOr(a.time), b.parent.GetOr(b.time))
  }

  function CmpLe(a: Entry, b: Entry): bool
  {
    CmpMessages(a, b) <= 0
  }

  /** Each is the other's parent: the one pair the comparison orders both
      ways round. */
  predicate MutualParents(a: Entry, b: Entry)
  {
    a.parent == Some(b.time) && b.parent == Some(a.time)
  }

  /** Swapping the messages negates the comparison, except for mutual
      parents, which both compare as later. */
  lemma CmpMessagesAntisymmetric(a: Entry, b: Entry)
    ensures !MutualParents(a, b) ==> CmpMessages(a, b) == -CmpMessages(b, a)
    ensures MutualParents(a, b) && a.parent != b.parent ==> CmpMessages(a, b) == 1 == CmpMessages(b, a)
  {
  }

  /** Two replies to the same parent are ordered by their own dates. */
  lemma SiblingsByOwnTime(a: Entry, b: Entry)
    requires a.parent.Some? && a.parent == b.parent
    ensures CmpMessages(a, b) < 0 <==> a.time < b.time
    ensures CmpMessages(a, b) == 0 <==> a.time == b.time
  {
  }

  /** A parent comes before its reply. */
  lemma ParentBeforeReply(parent: Entry, reply: Entry)
    requires reply.parent == Some(parent.time)
    requires parent.parent != Some(reply.time) && parent.parent != reply.parent
    ensures CmpMessages(parent, reply) == -1 && CmpMessages(reply, parent) == 1
  {
  }

  /** Messages of unrelated threads are ordered by the dates of the threads'
      roots (a root's own date for a root). */
  lemma UnrelatedByThreadTime(a: Entry, b: Entry)
    requires a.parent != Some(b.time) && b.parent != Some(a.time)
    requires a.parent.None? || a.parent != b.parent
    ensures CmpMessages(a, b) < 0 <==> a.parent.GetOr(a.time) < b.parent.GetOr(b.time)
    ensures CmpMessages(a, b) > 0 <==> a.parent.GetOr(a.time) > b.parent.GetOr(b.time)
  {
  }

  // ---------------------------------------------------------------------
  // getSortedDates

  /** Whether the loop leaves a message out as a folded thread body. The
      fold state comes from the thread's root and the viewer; `isFolded`
      stands for that look-up. */
  predicate FoldedOut(messages: Messages, message: ChatMessage, isFolded: ChatMessage -> bool)
  {
    IsThread(messages, message) && isFolded(message) && message.replyTo.Some?
  }

  function EntryOf(key: int, message: ChatMessage): Entry
  {
    Entry(key, message.replyTo)
  }

  /** The entries the loop pushes and the number it counts as folded,
      over the filtered messages seen so far. */
  function Collect(messages: Messages, filtered: Messages, searching: bool, isFolded: ChatMessage -> bool): (seq<Entry>, nat)
  {
    if filtered == [] then ([], 0)
    else
      var (v, numFolded) := Collect(messages, filtered[..|filtered| - 1], searching, isFolded);
      var (key, message) := filtered[|filtered| - 1];
      if !searching && FoldedOut(messages, message, isFolded) then (v, numFolded + 1)
      else (v + [EntryOf(key, message)], numFolded)
  }

  function Dates(v: seq<Entry>): (dates: seq<string>)
    ensures |dates| == |v|
    ensures forall i :: 0 <= i < |v| ==> dates[i] == IntToString(v[i].time)
  {
    seq(|v|, i requires 0 <= i < |v| => IntToString(v[i].time))
  }

  /** `getSortedDates(messages, search, account_id)`: `messages` is `None`
      when the chat has none; `filtered` is what the search filter keeps of
      them; `searching` is whether a search text is given. */
  method GetSortedDates(messages: Option<Messages>, filtered: Messages, searching: bool, isFolded: ChatMessage -> bool)
    returns (dates: seq<string>, numFolded: nat)
    ensures messages.None? ==> dates == [] && numFolded == 0
    ensures messages.Some? ==>
      var (v, n) := Collect(messages.value, filtered, searching, isFolded);
      dates == Dates(SortBy(v, CmpLe)) && numFolded == n
  {
    if messages.None? {
      return [], 0;
    }
    var all := messages.value;
    var v: seq<Entry> := [];
    numFolded := 0;
    for i := 0 to |filtered|
      invariant Collect(all, filtered[..i], searching, isFolded) == (v, numFolded)
    {
      assert filtered[..i + 1][..i] == filtered[..i];
      var (date, message) := filtered[i];
      if !searching {
        var isThread := message.replyTo.Some? || HasReplyTo(all, message.date);
        var isBody := message.replyTo.Some?;
        if isThread && isFolded(message) && isBody {
          numFolded := numFolded + 1;
          continue;
        }
      }
      v := v + [Entry(date, message.replyTo)];
    }
    assert filtered[..|filtered|] == filtered;
    dates := Dates(SortBy(v, CmpLe));
  }

  /** Every filtered message is either listed or counted as folded. */
  lemma {:induction false} CollectAccounts(messages: Messages, filtered: Messages, searching: bool, isFolded: ChatMessage -> bool)
    ensures |Collect(messages, filtered, searching, isFolded).0| + Collect(messages, filtered, searching, isFolded).1 == |filtered|
    ensures searching ==> Collect(messages, filtered, searching, isFolded).1 == 0
  {
    if filtered != [] {
      CollectAccounts(messages, filtered[..|filtered| - 1], searching, isFolded);
    }
  }

  /** Without a search, a message is left out exactly when it is a reply in
      a folded thread; being a thread adds nothing, since every reply is
      one. */
  lemma FoldedOutIffFoldedReply(messages: Messages, message: ChatMessage, isFolded: ChatMessage -> bool)
    ensures FoldedOut(messages, message, isFolded) <==> message.replyTo.Some? && isFolded(message)
  {
  }

  /** The dates come out ordered by the comparison whenever no two listed
      messages are each other's parent, and they are the listed dates. */
  lemma SortedDatesOrdered(v: seq<Entry>)
    requires forall i, j :: 0 <= i < |v| && 0 <= j < |v| ==> !MutualParents(v[i], v[j])
    ensures AdjacentSorted(SortBy(v, CmpLe), CmpLe)
    ensures multiset(SortBy(v, CmpLe)) == multiset(v)
  {
    forall a, b | a in v && b in v
      ensures CmpLe(a, b) || CmpLe(b, a)
    {
      CmpMessagesAntisymmetric(a, b);
    }
    SortBySorted(v, CmpLe);
  }
}
