/** The message list of an open conversation (`ChatMessageList`): the
    timeline state, newest message first, changed by the seeding effect, the
    scroll-to-top handler and the live subscription's snapshot callback, and
    the render walk over it. */
module MessageList {
  import opened Model
  import opened Rendering

  /** The page size of the older-page query (`limit(10)`). */
  const OlderPageSize: nat := 10

  datatype ChangeType = Added | Modified | Removed

  /** One entry of `querySnapshot.docChanges()`. */
  datatype Change = Change(kind: ChangeType, doc: Doc)

  /** The records the snapshot callback collects: one per change of type
      `'added'`, in the order of the changes. */
  function AddedMessages(cs: seq<Change>): seq<Message>
  {
    if cs == [] then []
    else AddedMessages(cs[..|cs| - 1]) + (if cs[|cs| - 1].kind == Added then [FromDoc(cs[|cs| - 1].doc)] else [])
  }

  /** The positions of the `'added'` changes, in increasing order. */
  function AddedPositions(cs: seq<Change>): seq<nat>
  {
    if cs == [] then []
    else AddedPositions(cs[..|cs| - 1]) + (if cs[|cs| - 1].kind == Added then [|cs| - 1] else [])
  }

  /** The k-th collected record comes from the change at the k-th `'added'`
      position: nothing but `'added'` changes is taken, converted as they are. */
  lemma {:induction false} AddedMessagesAt(cs: seq<Change>)
    ensures |AddedPositions(cs)| == |AddedMessages(cs)|
    ensures forall k :: 0 <= k < |AddedPositions(cs)| ==>
      && AddedPositions(cs)[k] < |cs| && cs[AddedPositions(cs)[k]].kind == Added
      && AddedMessages(cs)[k] == FromDoc(cs[AddedPositions(cs)[k]].doc)
  {
    if cs != [] {
      var n := |cs| - 1;
      var front := cs[..n];
      AddedMessagesAt(front);
      var picked, before := AddedPositions(front), AddedMessages(front);
      var idx, got := AddedPositions(cs), AddedMessages(cs);
      forall k | 0 <= k < |idx|
        ensures idx[k] < |cs| && cs[idx[k]].kind == Added && got[k] == FromDoc(cs[idx[k]].doc)
      {
        if k < |picked| {
          assert idx[k] == picked[k] && got[k] == before[k];
          assert front[picked[k]] == cs[picked[k]];
        }
      }
    }
  }

  /** The relative order of the changes is kept: the positions increase
      strictly, and every `'added'` change is among them. */
  lemma {:induction false} AddedPositionsOrdered(cs: seq<Change>)
    ensures forall k :: 0 <= k < |AddedPositions(cs)| ==> AddedPositions(cs)[k] < |cs|
    ensures forall k, l :: 0 <= k < l < |AddedPositions(cs)| ==> AddedPositions(cs)[k] < AddedPositions(cs)[l]
    ensures forall i :: 0 <= i < |cs| && cs[i].kind == Added ==> i in AddedPositions(cs)
  {
    if cs != [] {
      var n := |cs| - 1;
      var front := cs[..n];
      AddedPositionsOrdered(front);
      var picked, idx := AddedPositions(front), AddedPositions(cs);
      assert idx[..|picked|] == picked;
      forall i | 0 <= i < |cs| && cs[i].kind == Added ensures i in idx {
        if i < n {
          assert front[i] == cs[i];
          assert i in picked;
        }
      }
    }
  }

  /** The `forEach`/`push` loop of `onScroll` over the fetched documents. */
  method CollectPage(page: seq<Doc>) returns (loading: seq<Message>)
    ensures loading == FromDocs(page)
  {
    loading := [];
    var i := 0;
    while i < |page|
      invariant 0 <= i <= |page|
      invariant loading == FromDocs(page[..i])
    {
      assert page[..i + 1][..i] == page[..i];
      loading := loading + [FromDoc(page[i])];
      i := i + 1;
    }
    assert page[..|page|] == page;
  }

  /** The `forEach` loop of the snapshot callback: it pushes a record for
      each change of type `'added'` and skips the others. */
  method CollectAdded(changes: seq<Change>) returns (newMessages: seq<Message>)
    ensures newMessages == AddedMessages(changes)
  {
    newMessages := [];
    var i := 0;
    while i < |changes|
      invariant 0 <= i <= |changes|
      invariant newMessages == AddedMessages(changes[..i])
    {
      assert changes[..i + 1][..i] == changes[..i];
      if changes[i].kind == Added {
        newMessages := newMessages + [FromDoc(changes[i].doc)];
      }
      i := i + 1;
    }
    assert changes[..|changes|] == changes;
  }

  datatype ScrollOutcome =
    | Ignored            // not at the top, or no more history: nothing happens
    | Loaded(before: Stamp)  // the page older than `before` was appended
    | ScrollCrashed      // the list is empty or its oldest message has no time: a TypeError ends the handler
    | FetchFailed(before: Stamp)  // the query older than `before` was rejected: the handler stops at the await

  datatype SubscribeOutcome =
    | NotOpened          // the effect's guard is false: not seeded yet, or already subscribed
    | Opened(after: Stamp)   // listening for messages newer than `after`
    | SubscribeCrashed   // the seeded page's newest message has no usable time: a TypeError ends the effect

  class ConversationView {
    /** The signed-in user. */
    const cuid: UserId
    var messages: seq<Message>
    var canLoadMore: bool
    var isLoading: bool
    /** `lastMessagesFetched`, and the seeded first page (`lastMessages`). */
    var lastMessagesFetched: bool
    var lastMessages: seq<Message>
    /** Whether the live subscription has been opened. */
    var subscribed: bool
    /** The conversation's `lastRead` map, user to message id. */
    var lastRead: map<UserId, Id>

    /** The parts the list is made of: what the live feed put in front, and
        what older pages put behind, the seeded page. */
    ghost var live: seq<Message>
    ghost var older: seq<Message>

    ghost predicate Valid()
      reads this
    {
      && messages == live + lastMessages + older
      && (!lastMessagesFetched ==> messages == [] && lastMessages == [] && !subscribed)
      && (!subscribed ==> live == [])
      && (subscribed ==> lastMessages != [] && lastMessages[0].createdAt.Some?)
    }

    constructor (cuid: UserId, lastRead: map<UserId, Id>)
      ensures Valid()
      ensures this.cuid == cuid && this.lastRead == lastRead
      ensures messages == [] && canLoadMore && !isLoading && !lastMessagesFetched && !subscribed
    {
      this.cuid := cuid;
      this.lastRead := lastRead;
      messages, canLoadMore, isLoading := [], true, false;
      lastMessagesFetched, lastMessages, subscribed := false, [], false;
      live, older := [], [];
    }

    /** The friend's read marker, when the map has one. */
    function ReadMark(friend: UserId): Option<Id>
      reads this
    {
      if friend in lastRead then Some(lastRead[friend]) else None
    }

    /** The seeding effect, run when the first page (newest first) arrives:
        once only, it replaces the list with the page, and when the page is
        not empty marks its newest message as read by the viewer. */
    method SeedInitialPage(page: seq<Message>)
      requires Valid()
      modifies this
      ensures Valid()
      ensures old(lastMessagesFetched) ==> unchanged(this)
      ensures !old(lastMessagesFetched) ==>
        && lastMessagesFetched && messages == page && lastMessages == page
        && lastRead == (if page == [] then old(lastRead) else old(lastRead)[cuid := page[0].id])
        && canLoadMore == old(canLoadMore) && isLoading == old(isLoading) && subscribed == old(subscribed)
    {
      if !lastMessagesFetched {
        messages := page;
        lastMessages := page;
        older := [];
        lastMessagesFetched := true;
        if |page| > 0 {
          lastRead := lastRead[cuid := page[0].id];
        }
      }
    }

    /** `onScroll` with the scroll offset `scrollTop` and the store's answer
        to the older-page query: whether it succeeds (`fetchSucceeds`) and the
        `page` it returns. At the top and while more history may exist, the
        page is appended behind the list in the order fetched and
        `canLoadMore` becomes whether a full page came back; the query bound is
        the oldest message's time, and without one the handler crashes after
        raising `isLoading`. A rejected query also ends the handler with
        `isLoading` raised and nothing else changed. */
    method OnScroll(scrollTop: int, fetchSucceeds: bool, page: seq<Doc>) returns (outcome: ScrollOutcome)
      requires Valid()
      modifies this
      ensures Valid()
      ensures outcome.Ignored? <==> !(scrollTop == 0 && old(canLoadMore))
      ensures outcome.ScrollCrashed? <==>
        scrollTop == 0 && old(canLoadMore) && (old(messages) == [] || old(messages)[|old(messages)| - 1].createdAt.None?)
      ensures outcome.FetchFailed? <==> !outcome.Ignored? && !outcome.ScrollCrashed? && !fetchSucceeds
      ensures outcome.FetchFailed? ==>
        old(messages) != [] && old(messages)[|old(messages)| - 1].createdAt == Some(outcome.before)
      ensures outcome.Loaded? ==>
        && old(messages) != [] && old(messages)[|old(messages)| - 1].createdAt == Some(outcome.before)
        && messages == old(messages) + FromDocs(page) && older == old(older) + FromDocs(page)
        && canLoadMore == (|page| == OlderPageSize) && !isLoading
      ensures !outcome.Loaded? ==> messages == old(messages) && older == old(older) && canLoadMore == old(canLoadMore)
      ensures outcome.Ignored? ==> isLoading == old(isLoading)
      ensures outcome.ScrollCrashed? || outcome.FetchFailed? ==> isLoading
      ensures live == old(live) && lastMessages == old(lastMessages) && lastRead == old(lastRead)
      ensures lastMessagesFetched == old(lastMessagesFetched) && subscribed == old(subscribed)
    {
      if !(scrollTop == 0 && canLoadMore) {
        return Ignored;
      }
      isLoading := true;
      if messages == [] || messages[|messages| - 1].createdAt.None? {
        return ScrollCrashed;
      }
      var before := messages[|messages| - 1].createdAt.value;
      if !fetchSucceeds {
        return FetchFailed(before);
      }
      canLoadMore := |page| == OlderPageSize;
      var loading := CollectPage(page);
      assert messages + loading == live + lastMessages + (older + loading);
      messages := messages + loading;
      older := older + loading;
      isLoading := false;
      outcome := Loaded(before);
    }

    /** The subscribing effect: once seeded and not yet subscribed, it listens
        for messages newer than the seeded page's newest one. */
    method Subscribe() returns (outcome: SubscribeOutcome)
      requires Valid()
      modifies this
      ensures Valid()
      ensures outcome.NotOpened? <==> !(old(lastMessagesFetched) && !old(subscribed))
      ensures outcome.SubscribeCrashed? <==>
        old(lastMessagesFetched) && !old(subscribed) && (lastMessages == [] || lastMessages[0].createdAt.None?)
      ensures outcome.Opened? ==> lastMessages != [] && lastMessages[0].createdAt == Some(outcome.after)
      ensures subscribed == (old(subscribed) || outcome.Opened?)
      ensures messages == old(messages) && canLoadMore == old(canLoadMore) && isLoading == old(isLoading)
      ensures lastMessagesFetched == old(lastMessagesFetched) && lastMessages == old(lastMessages)
      ensures lastRead == old(lastRead) && live == old(live) && older == old(older)
    {
      if !(lastMessagesFetched && !subscribed) {
        return NotOpened;
      }
      if lastMessages == [] || lastMessages[0].createdAt.None? {
        return SubscribeCrashed;
      }
      subscribed := true;
      outcome := Opened(lastMessages[0].createdAt.value);
    }

    /** The snapshot callback of the live subscription: the `'added'` changes,
        in order, go in front of the list as they are (nothing is removed or
        reordered), and when there is at least one, the newest of them is
        marked as read by the viewer. */
    method OnSnapshot(changes: seq<Change>)
      requires Valid() && subscribed
      modifies this
      ensures Valid()
      ensures messages == AddedMessages(changes) + old(messages)
      ensures live == AddedMessages(changes) + old(live)
      ensures lastRead ==
        if AddedMessages(changes) == [] then old(lastRead) else old(lastRead)[cuid := AddedMessages(changes)[0].id]
      ensures canLoadMore == old(canLoadMore) && isLoading == old(isLoading) && subscribed == old(subscribed)
      ensures lastMessagesFetched == old(lastMessagesFetched) && lastMessages == old(lastMessages) && older == old(older)
    {
      var newMessages := CollectAdded(changes);
      assert newMessages + messages == (newMessages + live) + lastMessages + older;
      messages := newMessages + messages;
      live := newMessages + live;
      if |newMessages| > 0 {
        lastRead := lastRead[cuid := newMessages[0].id];
      }
    }

    /** `parseMessages` for the conversation with `friend`: the walk from the
        oldest message to the newest. */
    method ParseMessages(friend: UserId) returns (elements: seq<Element>)
      ensures elements == Render(messages, ReadMark(friend), cuid)
    {
      var readMark := ReadMark(friend);
      elements := [];
      var i := |messages| - 1;
      while i >= 0
        invariant -1 <= i < |messages|
        invariant elements == RenderFrom(messages, i + 1, readMark, cuid)
      {
        if i == |messages| - 1 || !IsSameDay(messages[i].createdAt, messages[i + 1].createdAt) {
          elements := elements + [DateSeparator(messages[i].createdAt)];
        }
        var showTime := i == |messages| - 1 ||
          (&& messages[i].createdAt.Some? && messages[i + 1].createdAt.Some?
           && Abs(messages[i].createdAt.value.minute - messages[i + 1].createdAt.value.minute) >= 5);
        var showRead := readMark == Some(messages[i].id) && cuid == messages[i].uid;
        elements := elements + [Bubble(messages[i], showTime, showRead)];
        i := i - 1;
      }
    }
  }

  /** A redelivered `'added'` change is not deduplicated: the message is in
      the list twice afterwards. */
  method ReplayIsKept(m: MessageData) returns (shown: seq<Message>)
    requires m.createdAt.Some?
    ensures shown == [FromDoc(Doc("a", m)), FromDoc(Doc("a", m))]
  {
    var view := new ConversationView("me", map[]);
    view.SeedInitialPage([FromDoc(Doc("a", m))]);
    var subscription := view.Subscribe();
    assert subscription.Opened?;
    view.OnSnapshot([Change(Added, Doc("a", m))]);
    assert [Change(Added, Doc("a", m))][..0] == [];
    shown := view.messages;
  }

  /** After such a replay the viewer's own message is in the list twice, and
      when the friend's read marker names it the read icon shows on both
      copies: the at-most-once property needs distinct ids, which the blind
      prepend does not keep. */
  lemma ReplayShowsReadTwice(m: Message)
    ensures ReadCount(Render([m, m], Some(m.id), m.uid)) == 2
  {
    RenderFromReadCount([m, m], 0, Some(m.id), m.uid);
    assert MatchCount([m, m], 1, Some(m.id), m.uid) == 1;
  }
}
