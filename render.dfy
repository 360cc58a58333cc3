/** The render model of the conversation view (`parseMessages`): the message
    list is kept newest first, and it is walked from the oldest message
    (index |msgs| - 1) to the newest (index 0). Each message is preceded by a
    date separator when the calendar day changes, and carries two flags:
    `showTime` (the five-minute rule) and `showRead` (the friend's read marker
    is on this message of the viewer's). */
module Rendering {
  import opened Model

  datatype Element =
    | DateSeparator(at: Option<Stamp>)
    | Bubble(message: Message, showTime: bool, showRead: bool)

  function Abs(x: int): nat
  {
    if x < 0 then -x else x
  }

  /** `isSameDay`: a missing time on either side is never the same day. */
  predicate IsSameDay(a: Option<Stamp>, b: Option<Stamp>)
  {
    && a.Some? && b.Some?
    && a.value.year == b.value.year && a.value.month == b.value.month && a.value.day == b.value.day
  }

  /** The message at index i opens a new day: it is the oldest, or it is not
      on the same day as its older neighbour msgs[i + 1]. */
  predicate NeedsSeparator(msgs: seq<Message>, i: nat)
    requires i < |msgs|
  {
    i == |msgs| - 1 || !IsSameDay(msgs[i].createdAt, msgs[i + 1].createdAt)
  }

  /** The time is forced on the oldest message, and on any other whose
      minute of the hour is at least 5 away from its older neighbour's. A
      missing time on either side makes the JavaScript difference NaN, and the
      comparison false. */
  predicate ShowTime(msgs: seq<Message>, i: nat)
    requires i < |msgs|
  {
    || i == |msgs| - 1
    || (&& msgs[i].createdAt.Some? && msgs[i + 1].createdAt.Some?
        && Abs(msgs[i].createdAt.value.minute - msgs[i + 1].createdAt.value.minute) >= 5)
  }

  /** The friend's read marker (`readMark`) names this message, and the viewer
      `cuid` wrote it. */
  predicate ShowRead(m: Message, readMark: Option<Id>, cuid: UserId)
  {
    readMark == Some(m.id) && m.uid == cuid
  }

  /** The elements one step of the walk pushes for the message at index i. */
  function Step(msgs: seq<Message>, i: nat, readMark: Option<Id>, cuid: UserId): seq<Element>
    requires i < |msgs|
  {
    Layout(msgs[i], NeedsSeparator(msgs, i), ShowTime(msgs, i), ShowRead(msgs[i], readMark, cuid))
  }

  /** The bubble for m with its flags, preceded by a date separator with m's
      time when `separated`. */
  function Layout(m: Message, separated: bool, showTime: bool, showRead: bool): seq<Element>
  {
    if separated then [DateSeparator(m.createdAt), Bubble(m, showTime, showRead)] else [Bubble(m, showTime, showRead)]
  }

  /** What the walk has pushed once it has handled indices |msgs| - 1 down to j. */
  function RenderFrom(msgs: seq<Message>, j: nat, readMark: Option<Id>, cuid: UserId): seq<Element>
    requires j <= |msgs|
    decreases |msgs| - j
  {
    if j == |msgs| then [] else RenderFrom(msgs, j + 1, readMark, cuid) + Step(msgs, j, readMark, cuid)
  }

  function Render(msgs: seq<Message>, readMark: Option<Id>, cuid: UserId): seq<Element>
  {
    RenderFrom(msgs, 0, readMark, cuid)
  }

  // ---- reading the output back

  /** The messages of the bubbles, in output order. */
  function MessagesOf(es: seq<Element>): seq<Message>
  {
    if es == [] then []
    else MessagesOf(es[..|es| - 1]) + (if es[|es| - 1].Bubble? then [es[|es| - 1].message] else [])
  }

  function SeparatorCount(es: seq<Element>): nat
  {
    if es == [] then 0
    else SeparatorCount(es[..|es| - 1]) + (if es[|es| - 1].DateSeparator? then 1 else 0)
  }

  /** The number of bubbles whose read icon is on. */
  function ReadCount(es: seq<Element>): nat
  {
    if es == [] then 0
    else ReadCount(es[..|es| - 1]) + (if es[|es| - 1].Bubble? && es[|es| - 1].showRead then 1 else 0)
  }

  lemma {:induction false} CountsAppend(a: seq<Element>, b: seq<Element>)
    ensures MessagesOf(a + b) == MessagesOf(a) + MessagesOf(b)
    ensures SeparatorCount(a + b) == SeparatorCount(a) + SeparatorCount(b)
    ensures ReadCount(a + b) == ReadCount(a) + ReadCount(b)
    decreases |b|
  {
    if b == [] {
      assert a + b == a;
    } else {
      var b' := b[..|b| - 1];
      assert (a + b)[..|a + b| - 1] == a + b';
      CountsAppend(a, b');
    }
  }

  /** One step yields one bubble, for msgs[i], whose read icon follows the
      read rule, and a separator exactly when the day test fires. */
  lemma StepShape(msgs: seq<Message>, i: nat, readMark: Option<Id>, cuid: UserId)
    requires i < |msgs|
    ensures |Step(msgs, i, readMark, cuid)| == 1 + SeparatorCount(Step(msgs, i, readMark, cuid))
    ensures SeparatorCount(Step(msgs, i, readMark, cuid)) == if NeedsSeparator(msgs, i) then 1 else 0
    ensures MessagesOf(Step(msgs, i, readMark, cuid)) == [msgs[i]]
    ensures ReadCount(Step(msgs, i, readMark, cuid)) == if ShowRead(msgs[i], readMark, cuid) then 1 else 0
  {
    var step := Step(msgs, i, readMark, cuid);
    var bubble := step[|step| - 1];
    CountsSingle(bubble);
    if |step| == 2 {
      CountsPair(step[0], bubble);
    }
  }

  /** What one step of the walk adds to the output read back, where
      `sep` is the number of separators it pushes. */
  lemma RenderFromStepLength(msgs: seq<Message>, j: nat, readMark: Option<Id>, cuid: UserId) returns (sep: nat)
    requires j < |msgs|
    ensures sep == if NeedsSeparator(msgs, j) then 1 else 0
    ensures sep <= 1 && (j == |msgs| - 1 ==> sep == 1)
    ensures |RenderFrom(msgs, j, readMark, cuid)| == |RenderFrom(msgs, j + 1, readMark, cuid)| + 1 + sep
    ensures SeparatorCount(RenderFrom(msgs, j, readMark, cuid)) == SeparatorCount(RenderFrom(msgs, j + 1, readMark, cuid)) + sep
  {
    var older, step := RenderFrom(msgs, j + 1, readMark, cuid), Step(msgs, j, readMark, cuid);
    assert RenderFrom(msgs, j, readMark, cuid) == older + step;
    StepShape(msgs, j, readMark, cuid);
    CountsAppend(older, step);
    sep := SeparatorCount(step);
  }

  lemma RenderFromStepMessages(msgs: seq<Message>, j: nat, readMark: Option<Id>, cuid: UserId)
    requires j < |msgs|
    ensures MessagesOf(RenderFrom(msgs, j, readMark, cuid)) == MessagesOf(RenderFrom(msgs, j + 1, readMark, cuid)) + [msgs[j]]
  {
    var older, step := RenderFrom(msgs, j + 1, readMark, cuid), Step(msgs, j, readMark, cuid);
    assert RenderFrom(msgs, j, readMark, cuid) == older + step;
    StepShape(msgs, j, readMark, cuid);
    CountsAppend(older, step);
  }

  lemma RenderFromStepReads(msgs: seq<Message>, j: nat, readMark: Option<Id>, cuid: UserId)
    requires j < |msgs|
    ensures ReadCount(RenderFrom(msgs, j, readMark, cuid)) ==
      ReadCount(RenderFrom(msgs, j + 1, readMark, cuid)) + (if ShowRead(msgs[j], readMark, cuid) then 1 else 0)
  {
    var older, step := RenderFrom(msgs, j + 1, readMark, cuid), Step(msgs, j, readMark, cuid);
    assert RenderFrom(msgs, j, readMark, cuid) == older + step;
    StepShape(msgs, j, readMark, cuid);
    CountsAppend(older, step);
  }

  lemma CountsSingle(e: Element)
    ensures MessagesOf([e]) == if e.Bubble? then [e.message] else []
    ensures SeparatorCount([e]) == if e.DateSeparator? then 1 else 0
    ensures ReadCount([e]) == if e.Bubble? && e.showRead then 1 else 0
  {
    assert [e][..0] == [];
  }

  lemma CountsPair(separator: Element, bubble: Element)
    requires separator.DateSeparator?
    ensures MessagesOf([separator, bubble]) == MessagesOf([bubble])
    ensures SeparatorCount([separator, bubble]) == 1 + SeparatorCount([bubble])
    ensures ReadCount([separator, bubble]) == ReadCount([bubble])
  {
    assert [separator, bubble][..1] == [separator];
    CountsSingle(separator);
    CountsSingle(bubble);
  }

  // ---- properties of the render model

  /** The messages of s from last to first. */
  function Reversed(s: seq<Message>): seq<Message>
  {
    if s == [] then [] else Reversed(s[1..]) + [s[0]]
  }

  lemma {:induction false} ReversedAt(s: seq<Message>)
    ensures |Reversed(s)| == |s|
    ensures forall k :: 0 <= k < |s| ==> Reversed(s)[k] == s[|s| - 1 - k]
  {
    if s != [] {
      ReversedAt(s[1..]);
      forall k | 0 <= k < |s| ensures Reversed(s)[k] == s[|s| - 1 - k] {
        if k < |s| - 1 {
          assert Reversed(s)[k] == Reversed(s[1..])[k];
        }
      }
    }
  }

  /** The walk down to index j has emitted the messages msgs[j..], oldest
      first, each in exactly one bubble. */
  lemma {:induction false} RenderFromMessages(msgs: seq<Message>, j: nat, readMark: Option<Id>, cuid: UserId)
    requires j <= |msgs|
    ensures MessagesOf(RenderFrom(msgs, j, readMark, cuid)) == Reversed(msgs[j..])
    decreases |msgs| - j
  {
    if j < |msgs| {
      RenderFromMessages(msgs, j + 1, readMark, cuid);
      RenderFromStepMessages(msgs, j, readMark, cuid);
      assert msgs[j..][1..] == msgs[j + 1..];
      assert Reversed(msgs[j..]) == Reversed(msgs[j + 1..]) + [msgs[j]];
    }
  }

  /** Every message comes out exactly once, oldest first: the k-th bubble
      carries msgs[|msgs| - 1 - k]. */
  lemma RenderEmitsEachMessageOnce(msgs: seq<Message>, readMark: Option<Id>, cuid: UserId)
    ensures |MessagesOf(Render(msgs, readMark, cuid))| == |msgs|
    ensures forall k :: 0 <= k < |msgs| ==> MessagesOf(Render(msgs, readMark, cuid))[k] == msgs[|msgs| - 1 - k]
  {
    RenderFromMessages(msgs, 0, readMark, cuid);
    assert msgs[0..] == msgs;
    ReversedAt(msgs);
  }

  /** The output is the messages plus the separators, and there is at least
      one separator (before the oldest message) and at most one per message. */
  lemma {:induction false} RenderFromLength(msgs: seq<Message>, j: nat, readMark: Option<Id>, cuid: UserId)
    requires j <= |msgs|
    ensures |RenderFrom(msgs, j, readMark, cuid)| == (|msgs| - j) + SeparatorCount(RenderFrom(msgs, j, readMark, cuid))
    ensures SeparatorCount(RenderFrom(msgs, j, readMark, cuid)) <= |msgs| - j
    ensures j < |msgs| ==> 1 <= SeparatorCount(RenderFrom(msgs, j, readMark, cuid))
    decreases |msgs| - j
  {
    if j < |msgs| {
      var sep := RenderFromStepLength(msgs, j, readMark, cuid);
      RenderFromLength(msgs, j + 1, readMark, cuid);
    }
  }

  lemma RenderLength(msgs: seq<Message>, readMark: Option<Id>, cuid: UserId)
    ensures |Render(msgs, readMark, cuid)| == |msgs| + SeparatorCount(Render(msgs, readMark, cuid))
    ensures msgs != [] ==> 1 <= SeparatorCount(Render(msgs, readMark, cuid)) <= |msgs|
    ensures msgs == [] ==> Render(msgs, readMark, cuid) == []
  {
    RenderFromLength(msgs, 0, readMark, cuid);
  }

  /** The number of indices of msgs[j..] whose message opens a new day. */
  function SeparatorsNeeded(msgs: seq<Message>, j: nat): nat
    requires j <= |msgs|
    decreases |msgs| - j
  {
    if j == |msgs| then 0
    else SeparatorsNeeded(msgs, j + 1) + (if NeedsSeparator(msgs, j) then 1 else 0)
  }

  /** The walk down to index j pushes one separator per walked message that
      opens a new day, and no other. */
  lemma {:induction false} RenderFromSeparators(msgs: seq<Message>, j: nat, readMark: Option<Id>, cuid: UserId)
    requires j <= |msgs|
    ensures SeparatorCount(RenderFrom(msgs, j, readMark, cuid)) == SeparatorsNeeded(msgs, j)
    decreases |msgs| - j
  {
    if j < |msgs| {
      RenderFromSeparators(msgs, j + 1, readMark, cuid);
      var sep := RenderFromStepLength(msgs, j, readMark, cuid);
    }
  }

  /** Every separator of a partial walk is directly followed by a bubble. */
  lemma {:induction false} RenderFromSeparatorThenBubble(msgs: seq<Message>, j: nat, readMark: Option<Id>, cuid: UserId)
    requires j <= |msgs|
    ensures forall p :: 0 <= p < |RenderFrom(msgs, j, readMark, cuid)| && RenderFrom(msgs, j, readMark, cuid)[p].DateSeparator? ==>
      p + 1 < |RenderFrom(msgs, j, readMark, cuid)| && RenderFrom(msgs, j, readMark, cuid)[p + 1].Bubble?
    decreases |msgs| - j
  {
    if j < |msgs| {
      RenderFromSeparatorThenBubble(msgs, j + 1, readMark, cuid);
      var older, step := RenderFrom(msgs, j + 1, readMark, cuid), Step(msgs, j, readMark, cuid);
      var out := RenderFrom(msgs, j, readMark, cuid);
      assert out == older + step;
      forall p | 0 <= p < |out| && out[p].DateSeparator? ensures p + 1 < |out| && out[p + 1].Bubble? {
        if p < |older| {
          assert out[p] == older[p] && out[p + 1] == older[p + 1];
        } else {
          assert out[p] == step[p - |older|];
        }
      }
    }
  }

  /** The whole output: one separator per message that opens a new day, each
      directly followed by a bubble. */
  lemma RenderSeparators(msgs: seq<Message>, readMark: Option<Id>, cuid: UserId)
    ensures SeparatorCount(Render(msgs, readMark, cuid)) == SeparatorsNeeded(msgs, 0)
    ensures forall p :: 0 <= p < |Render(msgs, readMark, cuid)| && Render(msgs, readMark, cuid)[p].DateSeparator? ==>
      p + 1 < |Render(msgs, readMark, cuid)| && Render(msgs, readMark, cuid)[p + 1].Bubble?
  {
    RenderFromSeparators(msgs, 0, readMark, cuid);
    RenderFromSeparatorThenBubble(msgs, 0, readMark, cuid);
  }

  /** What the walk has pushed for the later (newer) indices extends what it
      had pushed before. */
  lemma {:induction false} RenderFromPrefix(msgs: seq<Message>, k: nat, j: nat, readMark: Option<Id>, cuid: UserId)
    requires k <= j <= |msgs|
    ensures |RenderFrom(msgs, j, readMark, cuid)| <= |RenderFrom(msgs, k, readMark, cuid)|
    ensures RenderFrom(msgs, k, readMark, cuid)[..|RenderFrom(msgs, j, readMark, cuid)|] == RenderFrom(msgs, j, readMark, cuid)
    decreases j - k
  {
    if k < j {
      RenderFromPrefix(msgs, k + 1, j, readMark, cuid);
      var longer := RenderFrom(msgs, k, readMark, cuid);
      var mid := RenderFrom(msgs, k + 1, readMark, cuid);
      assert longer == mid + Step(msgs, k, readMark, cuid);
      assert longer[..|mid|] == mid;
    }
  }

  /** The output position of the bubble of msgs[i]. */
  function Position(msgs: seq<Message>, i: nat, readMark: Option<Id>, cuid: UserId): nat
    requires i < |msgs|
  {
    |RenderFrom(msgs, i + 1, readMark, cuid)| + (if NeedsSeparator(msgs, i) then 1 else 0)
  }

  /** Where msgs[i] is drawn: its bubble, with the flags of the source's
      rules, stands at Position(i); just before it stands its date separator
      when it opens a new day, and otherwise the bubble of its older
      neighbour. The oldest message's separator opens the output. */
  lemma RenderAt(msgs: seq<Message>, i: nat, readMark: Option<Id>, cuid: UserId)
    requires i < |msgs|
    ensures var out := Render(msgs, readMark, cuid); var p := Position(msgs, i, readMark, cuid);
      && 0 < p < |out|
      && out[p] == Bubble(msgs[i], ShowTime(msgs, i), ShowRead(msgs[i], readMark, cuid))
      && (NeedsSeparator(msgs, i) ==> out[p - 1] == DateSeparator(msgs[i].createdAt))
      && (!NeedsSeparator(msgs, i) ==> out[p - 1].Bubble? && out[p - 1].message == msgs[i + 1])
      && (i == |msgs| - 1 ==> p == 1)
  {
    var out := Render(msgs, readMark, cuid);
    var older := RenderFrom(msgs, i + 1, readMark, cuid);
    var upto := RenderFrom(msgs, i, readMark, cuid);
    RenderFromPrefix(msgs, 0, i, readMark, cuid);
    assert upto == older + Step(msgs, i, readMark, cuid);
    assert out[..|upto|] == upto;
    var p := Position(msgs, i, readMark, cuid);
    assert out[p] == upto[p];
    assert out[p - 1] == upto[p - 1] by {
      if !NeedsSeparator(msgs, i) {
        assert p - 1 < |older|;
      }
    }
    if !NeedsSeparator(msgs, i) {
      var tail := RenderFrom(msgs, i + 2, readMark, cuid);
      assert older == tail + Step(msgs, i + 1, readMark, cuid);
      assert upto[p - 1] == older[|older| - 1];
    }
  }

  /** The time label of msgs[i]'s bubble is forced on the oldest message and
      otherwise shown exactly when both times exist and their minutes of the
      hour are at least 5 apart. */
  lemma TimeLabelAt(msgs: seq<Message>, i: nat, readMark: Option<Id>, cuid: UserId)
    requires i < |msgs|
    ensures var out := Render(msgs, readMark, cuid); var p := Position(msgs, i, readMark, cuid);
      && p < |out| && out[p].Bubble? && out[p].message == msgs[i]
      && (out[p].showTime <==>
            || i == |msgs| - 1
            || (&& msgs[i].createdAt.Some? && msgs[i + 1].createdAt.Some?
                && Abs(msgs[i].createdAt.value.minute - msgs[i + 1].createdAt.value.minute) >= 5))
  {
    RenderAt(msgs, i, readMark, cuid);
  }

  /** The read icon of msgs[i]'s bubble is on exactly when the read marker is
      its id and the viewer wrote it. */
  lemma ReadIconAt(msgs: seq<Message>, i: nat, readMark: Option<Id>, cuid: UserId)
    requires i < |msgs|
    ensures var out := Render(msgs, readMark, cuid); var p := Position(msgs, i, readMark, cuid);
      && p < |out| && out[p].Bubble? && out[p].message == msgs[i]
      && (out[p].showRead <==> readMark == Some(msgs[i].id) && msgs[i].uid == cuid)
  {
    RenderAt(msgs, i, readMark, cuid);
  }

  /** A date separator carrying msgs[i]'s time stands just before its bubble
      exactly when it is the oldest message, a time is missing on either side,
      or year, month or day differ from its older neighbour's; otherwise the
      older neighbour's bubble stands there. */
  lemma SeparatorBefore(msgs: seq<Message>, i: nat, readMark: Option<Id>, cuid: UserId)
    requires i < |msgs|
    ensures var out := Render(msgs, readMark, cuid); var p := Position(msgs, i, readMark, cuid);
      && 0 < p < |out|
      && (out[p - 1].DateSeparator? <==>
            || i == |msgs| - 1
            || msgs[i].createdAt.None? || msgs[i + 1].createdAt.None?
            || msgs[i].createdAt.value.year != msgs[i + 1].createdAt.value.year
            || msgs[i].createdAt.value.month != msgs[i + 1].createdAt.value.month
            || msgs[i].createdAt.value.day != msgs[i + 1].createdAt.value.day)
      && (out[p - 1].DateSeparator? ==> out[p - 1].at == msgs[i].createdAt)
      && (out[p - 1].Bubble? ==> out[p - 1].message == msgs[i + 1])
      && (i == |msgs| - 1 ==> p == 1 && out[0] == DateSeparator(msgs[i].createdAt))
  {
    RenderAt(msgs, i, readMark, cuid);
  }

  /** `isSameDay` is an equivalence on present times, and a missing time is
      on no day, not even its own. */
  lemma SameDayIsEquivalence(a: Option<Stamp>, b: Option<Stamp>, c: Option<Stamp>)
    ensures a.Some? ==> IsSameDay(a, a)
    ensures a.None? ==> !IsSameDay(a, b) && !IsSameDay(b, a)
    ensures IsSameDay(a, b) ==> IsSameDay(b, a)
    ensures IsSameDay(a, b) && IsSameDay(b, c) ==> IsSameDay(a, c)
  {
  }

  /** The number of messages of msgs[j..] that meet the read-icon condition. */
  function MatchCount(msgs: seq<Message>, j: nat, readMark: Option<Id>, cuid: UserId): nat
    requires j <= |msgs|
    decreases |msgs| - j
  {
    if j == |msgs| then 0
    else MatchCount(msgs, j + 1, readMark, cuid) + (if ShowRead(msgs[j], readMark, cuid) then 1 else 0)
  }

  /** The walk down to index j shows the read icon once per walked message
      that meets the condition. */
  lemma {:induction false} RenderFromReadCount(msgs: seq<Message>, j: nat, readMark: Option<Id>, cuid: UserId)
    requires j <= |msgs|
    ensures ReadCount(RenderFrom(msgs, j, readMark, cuid)) == MatchCount(msgs, j, readMark, cuid)
    decreases |msgs| - j
  {
    if j < |msgs| {
      RenderFromReadCount(msgs, j + 1, readMark, cuid);
      RenderFromStepReads(msgs, j, readMark, cuid);
      assert MatchCount(msgs, j, readMark, cuid) ==
        MatchCount(msgs, j + 1, readMark, cuid) + (if ShowRead(msgs[j], readMark, cuid) then 1 else 0);
    }
  }

  /** No message meets the condition exactly when the count is zero, and with
      distinct ids at most one does. */
  lemma {:induction false} MatchCountBounds(msgs: seq<Message>, j: nat, readMark: Option<Id>, cuid: UserId)
    requires j <= |msgs|
    ensures MatchCount(msgs, j, readMark, cuid) == 0 <==>
      forall k :: j <= k < |msgs| ==> !ShowRead(msgs[k], readMark, cuid)
    ensures UniqueIds(msgs) ==> MatchCount(msgs, j, readMark, cuid) <= 1
    decreases |msgs| - j
  {
    if j < |msgs| {
      MatchCountBounds(msgs, j + 1, readMark, cuid);
      if UniqueIds(msgs) && ShowRead(msgs[j], readMark, cuid) {
        forall k | j + 1 <= k < |msgs| ensures !ShowRead(msgs[k], readMark, cuid) {
          assert msgs[j].id != msgs[k].id;
        }
      }
    }
  }

  /** With distinct message ids at most one bubble shows the read icon, and
      one does exactly when some message of the viewer carries the marked id. */
  lemma ReadIconAtMostOnce(msgs: seq<Message>, readMark: Option<Id>, cuid: UserId)
    requires UniqueIds(msgs)
    ensures ReadCount(Render(msgs, readMark, cuid)) <= 1
    ensures ReadCount(Render(msgs, readMark, cuid)) == 1 <==>
      exists k :: 0 <= k < |msgs| && readMark == Some(msgs[k].id) && msgs[k].uid == cuid
  {
    RenderFromReadCount(msgs, 0, readMark, cuid);
    MatchCountBounds(msgs, 0, readMark, cuid);
  }

  // ---- two concrete walks

  /** Three messages of one day at 09:00:00, 09:00:10 and 09:06:00 (newest
      first in the list): one separator, and the time is shown on the oldest
      (forced) and on 09:06 (6 minutes past its neighbour), not on 09:00:10. */
  lemma SameDayScenario(a: Message, b: Message, c: Message)
    requires a.createdAt == Some(Stamp(2021, 3, 14, 6))
    requires b.createdAt == Some(Stamp(2021, 3, 14, 0)) && c.createdAt == Some(Stamp(2021, 3, 14, 0))
    ensures Render([a, b, c], None, "") ==
      [DateSeparator(c.createdAt), Bubble(c, true, false), Bubble(b, false, false), Bubble(a, true, false)]
  {
    var msgs := [a, b, c];
    assert RenderFrom(msgs, 2, None, "") == [DateSeparator(c.createdAt), Bubble(c, true, false)];
    assert RenderFrom(msgs, 1, None, "") == RenderFrom(msgs, 2, None, "") + [Bubble(b, false, false)];
  }

  /** Only the minute of the hour is compared (the model keeps no hour): a
      message sent at 10:30 after one at 09:30 shows no time, and one sent at
      10:01 after one at 09:58 does. */
  lemma MinuteOfHourScenario(a: Message, b: Message, c: Message, d: Message)
    requires a.createdAt == Some(Stamp(2021, 3, 14, 30)) && b.createdAt == Some(Stamp(2021, 3, 14, 30))
    requires c.createdAt == Some(Stamp(2021, 3, 14, 1)) && d.createdAt == Some(Stamp(2021, 3, 14, 58))
    ensures Render([a, b], None, "") == [DateSeparator(b.createdAt), Bubble(b, true, false), Bubble(a, false, false)]
    ensures Render([c, d], None, "") == [DateSeparator(d.createdAt), Bubble(d, true, false), Bubble(c, true, false)]
  {
    assert RenderFrom([a, b], 1, None, "") == [DateSeparator(b.createdAt), Bubble(b, true, false)];
    assert RenderFrom([c, d], 1, None, "") == [DateSeparator(d.createdAt), Bubble(d, true, false)];
  }
}
