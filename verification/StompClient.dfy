/**
 One subscription of the C2SIM exercise client. The socket is the sequence of chunks it answers
 with, an empty chunk for a read that timed out; the deadline passes after the last one.
 `Stomp.Valid` ties the messages collected so far to the whole stream received so far.
 */
module StompClient {
  import opened Wrappers
  import opened StompFrames

  type Message = (Headers, Octets)

  // ------------------------------------------------- what is collected, said of the frames alone

  /** Ascending positions among `n`. */
  ghost predicate Ascending(ks: seq<nat>, n: nat) {
    && (forall i, j :: 0 <= i < j < |ks| ==> ks[i] < ks[j])
    && (forall i :: 0 <= i < |ks| ==> ks[i] < n)
  }

  /** The positions of the MESSAGE frames. */
  ghost predicate ArePositions(frames: seq<Frame>, ks: seq<nat>) {
    && Ascending(ks, |frames|)
    && forall k :: 0 <= k < |frames| ==> (k in ks <==> frames[k].command == Ascii("MESSAGE"))
  }

  /** The positions of the MESSAGE frames whose selector header is this one. */
  ghost predicate AreSelected(frames: seq<Frame>, selector: Octets, ks: seq<nat>) {
    && Ascending(ks, |frames|)
    && forall k :: 0 <= k < |frames| ==> (k in ks <==> IsSelected(frames[k], selector))
  }

  predicate IsSelected(frame: Frame, selector: Octets) {
    && frame.command == Ascii("MESSAGE")
    && Ascii("message-selector") in frame.headers && frame.headers[Ascii("message-selector")] == selector
  }

  /** The messages are the headers and bodies of the MESSAGE frames before the first ERROR frame, in order. */
  ghost predicate Collected(messages: seq<Message>, frames: seq<Frame>) {
    exists end: nat, ks ::
      && end <= |frames|
      && (forall k :: 0 <= k < end ==> frames[k].command != Ascii("ERROR"))
      && (end < |frames| ==> frames[end].command == Ascii("ERROR"))
      && ArePositions(frames[..end], ks) && ShowFrames(messages, frames, ks)
  }

  /** The messages are those of the frames at these positions. */
  ghost predicate ShowFrames(messages: seq<Message>, frames: seq<Frame>, ks: seq<nat>) {
    |messages| == |ks|
    && forall i :: 0 <= i < |ks| ==> ks[i] < |frames| && messages[i] == (frames[ks[i]].headers, frames[ks[i]].body)
  }

  /** The bodies are those of the frames at these positions. */
  ghost predicate ShowBodies(bodies: seq<Octets>, frames: seq<Frame>, ks: seq<nat>) {
    |bodies| == |ks| && forall i :: 0 <= i < |ks| ==> ks[i] < |frames| && bodies[i] == frames[ks[i]].body
  }

  const MESSAGE: Octets := [77, 69, 83, 83, 65, 71, 69]
  const ERROR: Octets := [69, 82, 82, 79, 82]
  const CONNECTED: Octets := [67, 79, 78, 78, 69, 67, 84, 69, 68]
  /** `message-selector`, octet by octet. */
  const SELECTOR: Octets := [109, 101, 115, 115, 97, 103, 101, 45, 115, 101, 108, 101, 99, 116, 111, 114]

  function MessagesOf(frames: seq<Frame>): seq<Message> {
    if frames == [] then []
    else
      var last := frames[|frames| - 1];
      var before := MessagesOf(frames[..|frames| - 1]);
      if last.command == MESSAGE then before + [(last.headers, last.body)] else before
  }

  /** The frames before the first ERROR frame: all of them when there is none. */
  function BeforeError(frames: seq<Frame>): seq<Frame> {
    if frames == [] || frames[0].command == ERROR then [] else [frames[0]] + BeforeError(frames[1..])
  }

  predicate ErrorFree(frames: seq<Frame>) {
    forall f :: f in frames ==> f.command != ERROR
  }

  /** The bodies of the messages a selector names. */
  function Matching(messages: seq<Message>, selector: Octets): seq<Octets> {
    if messages == [] then []
    else
      var (headers, body) := messages[|messages| - 1];
      var before := Matching(messages[..|messages| - 1], selector);
      if SELECTOR in headers && headers[SELECTOR] == selector then before + [body] else before
  }

  lemma MessagesOfNone()
    ensures MessagesOf([]) == []
  {
  }

  lemma MessagesOfNext(frames: seq<Frame>, last: Frame)
    ensures MessagesOf(frames + [last])
         == MessagesOf(frames) + if last.command == MESSAGE then [(last.headers, last.body)] else []
  {
    assert (frames + [last])[..|frames|] == frames;
  }

  lemma {:induction false} MessagesOfConcat(a: seq<Frame>, b: seq<Frame>)
    ensures MessagesOf(a + b) == MessagesOf(a) + MessagesOf(b)
  {
    hide MessagesOf;
    if b == [] {
      assert a + b == a;
      MessagesOfNone();
    } else {
      var before, last := b[..|b| - 1], b[|b| - 1];
      MessagesOfConcat(a, before);
      MessagesOfNext(a + before, last);
      MessagesOfNext(before, last);
      assert a + b == a + before + [last] && b == before + [last];
    }
  }

  lemma {:induction false} MatchingOfConcat(a: seq<Message>, b: seq<Message>, selector: Octets)
    ensures Matching(a + b, selector) == Matching(a, selector) + Matching(b, selector)
  {
    hide Matching;
    if b == [] {
      assert a + b == a;
      MatchingOfNone(selector);
    } else {
      var before, last := b[..|b| - 1], b[|b| - 1];
      MatchingOfConcat(a, before, selector);
      MatchingOfNext(a + before, last, selector);
      MatchingOfNext(before, last, selector);
      assert a + b == a + before + [last] && b == before + [last];
    }
  }

  lemma MatchingOfNone(selector: Octets)
    ensures Matching([], selector) == []
  {
  }

  lemma MatchingOfNext(messages: seq<Message>, last: Message, selector: Octets)
    ensures Matching(messages + [last], selector)
         == Matching(messages, selector) + if SELECTOR in last.0 && last.0[SELECTOR] == selector then [last.1] else []
  {
    assert (messages + [last])[..|messages|] == messages;
  }

  lemma Commands()
    ensures MESSAGE == Ascii("MESSAGE") && ERROR == Ascii("ERROR") && CONNECTED == Ascii("CONNECTED")
    ensures SELECTOR == Ascii("message-selector")
  {
  }

  lemma {:induction false} MessagesMean(frames: seq<Frame>) returns (ks: seq<nat>)
    ensures ArePositions(frames, ks) && ShowFrames(MessagesOf(frames), frames, ks)
  {
    hide MessagesOf, ArePositions, ShowFrames;
    if frames == [] {
      ks := [];
      NothingShown();
    } else {
      var before, last := frames[..|frames| - 1], frames[|frames| - 1];
      ks := MessagesMean(before);
      Commands();
      MessagesOfNext(before, last);
      assert frames == before + [last];
      NextPosition(before, last, ks);
      NextShown(MessagesOf(before), before, last, ks);
      ks := if last.command == MESSAGE then ks + [|before|] else ks;
    }
  }

  lemma NothingShown()
    ensures ArePositions([], []) && ShowFrames(MessagesOf([]), [], [])
    ensures forall selector :: AreSelected([], selector, []) && ShowBodies(Matching(MessagesOf([]), selector), [], [])
  {
  }

  lemma NextPosition(frames: seq<Frame>, last: Frame, ks: seq<nat>)
    requires ArePositions(frames, ks)
    ensures ArePositions(frames + [last], if last.command == Ascii("MESSAGE") then ks + [|frames|] else ks)
  {
    hide Ascii;
    var more := if last.command == Ascii("MESSAGE") then ks + [|frames|] else ks;
    forall k | 0 <= k < |frames + [last]|
      ensures k in more <==> (frames + [last])[k].command == Ascii("MESSAGE")
    {
    }
  }

  lemma NextShown(messages: seq<Message>, frames: seq<Frame>, last: Frame, ks: seq<nat>)
    requires ShowFrames(messages, frames, ks)
    ensures ShowFrames(messages, frames + [last], ks) && messages + [] == messages
    ensures ShowFrames(messages + [(last.headers, last.body)], frames + [last], ks + [|frames|])
  {
  }

  lemma {:induction false} SelectedMean(frames: seq<Frame>, selector: Octets) returns (ks: seq<nat>)
    ensures AreSelected(frames, selector, ks) && ShowBodies(Matching(MessagesOf(frames), selector), frames, ks)
  {
    hide MessagesOf, Matching, AreSelected, ShowBodies, IsSelected;
    if frames == [] {
      ks := [];
      NothingShown();
    } else {
      var before, last := frames[..|frames| - 1], frames[|frames| - 1];
      ks := SelectedMean(before, selector);
      MessagesOfNext(before, last);
      assert frames == before + [last];
      NextSelected(before, last, selector, ks);
      NextBody(Matching(MessagesOf(before), selector), before, last, ks);
      SelectedNext(before, last, selector);
      ks := if IsSelected(last, selector) then ks + [|before|] else ks;
    }
  }

  lemma SelectedNext(frames: seq<Frame>, last: Frame, selector: Octets)
    ensures Matching(MessagesOf(frames + [last]), selector)
         == Matching(MessagesOf(frames), selector) + if IsSelected(last, selector) then [last.body] else []
  {
    hide Matching, MessagesOf;
    Commands();
    MessagesOfNext(frames, last);
    MatchingOfNext(MessagesOf(frames), (last.headers, last.body), selector);
    assert MessagesOf(frames) + [] == MessagesOf(frames);
    assert Matching(MessagesOf(frames), selector) + [] == Matching(MessagesOf(frames), selector);
  }

  lemma NextSelected(frames: seq<Frame>, last: Frame, selector: Octets, ks: seq<nat>)
    requires AreSelected(frames, selector, ks)
    ensures AreSelected(frames + [last], selector, if IsSelected(last, selector) then ks + [|frames|] else ks)
  {
    hide IsSelected;
    var more := if IsSelected(last, selector) then ks + [|frames|] else ks;
    forall k | 0 <= k < |frames + [last]|
      ensures k in more <==> IsSelected((frames + [last])[k], selector)
    {
    }
  }

  lemma NextBody(bodies: seq<Octets>, frames: seq<Frame>, last: Frame, ks: seq<nat>)
    requires ShowBodies(bodies, frames, ks)
    ensures ShowBodies(bodies, frames + [last], ks) && bodies + [] == bodies
    ensures ShowBodies(bodies + [last.body], frames + [last], ks + [|frames|])
  {
  }

  lemma FirstBodies(bodies: seq<Octets>, frames: seq<Frame>, ks: seq<nat>, n: nat)
    requires ShowBodies(bodies, frames, ks) && n <= |ks|
    ensures n <= |bodies| == |ks| && ShowBodies(bodies[..n], frames, ks[..n])
  {
  }

  lemma {:induction false} ErrorEnds(frames: seq<Frame>) returns (end: nat)
    ensures end <= |frames| && BeforeError(frames) == frames[..end]
    ensures forall k :: 0 <= k < end ==> frames[k].command != Ascii("ERROR")
    ensures end < |frames| ==> frames[end].command == Ascii("ERROR")
  {
    Commands();
    end := 0;
    if frames != [] && frames[0].command != ERROR {
      end := ErrorEnds(frames[1..]);
      end := end + 1;
    }
  }

  lemma CollectedIs(frames: seq<Frame>)
    ensures Collected(MessagesOf(BeforeError(frames)), frames)
  {
    hide MessagesOf, BeforeError;
    var end := ErrorEnds(frames);
    var ks := MessagesMean(frames[..end]);
    assert ShowFrames(MessagesOf(frames[..end]), frames, ks);
  }

  lemma StateCollected(messages: seq<Message>, frames: seq<Frame>)
    requires messages == MessagesOf(BeforeError(frames)) || (ErrorFree(frames) && messages == MessagesOf(frames))
    ensures Collected(messages, frames)
  {
    hide Collected, MessagesOf;
    CollectedIs(frames);
    if ErrorFree(frames) {
      assert frames[..|frames|] == frames;
      BeforeErrorAt(frames, |frames|);
    }
  }

  lemma {:induction false} BeforeErrorAt(frames: seq<Frame>, i: nat)
    requires i <= |frames| && ErrorFree(frames[..i])
    requires i < |frames| ==> frames[i].command == ERROR
    ensures BeforeError(frames) == frames[..i]
  {
    if i > 0 {
      assert frames[0] == frames[..i][0];
      assert frames[1..][..i - 1] == frames[..i][1..];
      BeforeErrorAt(frames[1..], i - 1);
      assert frames[..i] == [frames[0]] + frames[1..][..i - 1];
    }
  }

  lemma {:induction false} BeforeErrorOfConcat(a: seq<Frame>, b: seq<Frame>)
    requires ErrorFree(a)
    ensures BeforeError(a + b) == a + BeforeError(b)
  {
    if a == [] {
      assert a + b == b;
    } else {
      assert a[0] in a && forall f :: f in a[1..] ==> f in a;
      BeforeErrorOfConcat(a[1..], b);
      assert (a + b)[1..] == a[1..] + b;
    }
  }

  /** A new batch after error-free frames: what is collected of both is what was collected, and
      then what the batch holds before its first ERROR frame. */
  lemma BatchJoins(earlier: seq<Frame>, batch: seq<Frame>)
    requires ErrorFree(earlier)
    ensures ErrorFree(earlier + batch) == ErrorFree(batch)
    ensures MessagesOf(BeforeError(earlier + batch)) == MessagesOf(earlier) + MessagesOf(BeforeError(batch))
    ensures ErrorFree(batch) ==> BeforeError(earlier + batch) == earlier + batch
  {
    BeforeErrorOfConcat(earlier, batch);
    MessagesOfConcat(earlier, BeforeError(batch));
    if f :| f in batch && f.command == ERROR {
      assert f in earlier + batch;
    } else {
      BeforeErrorAt(batch, |batch|);
      assert batch[..|batch|] == batch;
    }
  }

  /** What `_wait` waits for: a CONNECTED frame among those just read, or a number of messages. */
  datatype Goal = Connection | Messages(selector: Octets, total: nat)

  predicate Done(goal: Goal, batch: seq<Frame>, messages: seq<Message>) {
    match goal
    case Connection => exists f :: f in batch && f.command == CONNECTED
    case Messages(selector, total) => |Matching(messages, selector)| >= total
  }

  /** `ErrorFrame` and `BadContentLength` are the two exceptions. */
  datatype Outcome = Reached | TimedOut | ErrorFrame | BadContentLength

  /** The batches of some passes, in order. */
  function Joined(passes: seq<seq<Frame>>): seq<Frame> {
    if passes == [] then [] else Joined(passes[..|passes| - 1]) + passes[|passes| - 1]
  }

  /** The first `k` passes hold what the first `k` chunks completed. */
  ghost predicate PassesRead(received: Octets, chunks: seq<Octets>, frames: seq<Frame>, passes: seq<seq<Frame>>, k: nat)
    requires k <= |passes| && k <= |chunks|
  {
    var reading := Parse(received + Concat(chunks[..k]));
    reading.Read? && reading.frames == frames + Joined(passes[..k])
  }

  /** The goal was met at the end of pass `k`. */
  predicate DoneAt(goal: Goal, messages: seq<Message>, passes: seq<seq<Frame>>, k: nat)
    requires 0 < k <= |passes|
  {
    Done(goal, passes[k - 1], messages + MessagesOf(Joined(passes[..k])))
  }

  /** What ends a wait: a CONNECTED frame in the last pass, or enough messages of the selector; a wait for the
      connection that times out saw no CONNECTED frame. */
  ghost predicate EndsRight(outcome: Outcome, goal: Goal, frames: seq<Frame>, passes: seq<seq<Frame>>) {
    match goal
    case Connection =>
      && (outcome.Reached? ==>
            passes != [] && exists f :: f in passes[|passes| - 1] && f.command == Ascii("CONNECTED"))
      && (outcome.TimedOut? ==> forall f :: f in Joined(passes) ==> f.command != Ascii("CONNECTED"))
    case Messages(selector, total) =>
      outcome.Reached? ==> exists ks :: AreSelected(frames, selector, ks) && |ks| >= total
  }

  class Stomp {
    var buffer: Octets
    var messages: seq<Message>
    /** Every octet received, and every frame among them. */
    ghost var received: Octets
    ghost var frames: seq<Frame>

    ghost predicate Valid()
      reads this
    {
      && Parse(received) == Read(frames, buffer)
      && ErrorFree(frames)
      && messages == MessagesOf(frames)
    }

    constructor ()
      ensures Valid() && received == []
    {
      buffer, messages := [], [];
      received, frames := [], [];
    }

    /** The loop over one batch of frames: it stops at the first ERROR frame. */
    method Take(batch: seq<Frame>) returns (error: bool)
      modifies this`messages
      ensures error <==> !ErrorFree(batch)
      ensures messages == old(messages) + MessagesOf(BeforeError(batch))
      ensures old(messages) <= messages && Collected(messages[|old(messages)|..], batch)
    {
      CollectedIs(batch);
      for i := 0 to |batch|
        invariant ErrorFree(batch[..i])
        invariant messages == old(messages) + MessagesOf(batch[..i])
      {
        assert batch[..i + 1][..i] == batch[..i];
        if batch[i].command == MESSAGE {
          messages := messages + [(batch[i].headers, batch[i].body)];
        }
        if batch[i].command == ERROR {
          BeforeErrorAt(batch, i);
          assert batch[i] in batch;
          return true;
        }
      }
      assert batch[..|batch|] == batch;
      BeforeErrorAt(batch, |batch|);
      error := false;
    }

    /** The object once an exception has left it: after an ERROR frame the messages are those
        before it; after an unreadable length, those of the frames read before. */
    ghost predicate Failed(outcome: Outcome)
      reads this
    {
      match outcome
      case ErrorFrame =>
        Parse(received) == Read(frames, buffer) && !ErrorFree(frames) && messages == MessagesOf(BeforeError(frames))
      case BadContentLength =>
        Parse(received).Refused? && ErrorFree(frames) && messages == MessagesOf(frames)
      case _ => false
    }

    /** One pass of `_wait`'s loop, from the chunk to the frames it completed. */
    method Receive(chunk: Octets) returns (failure: Option<Outcome>, batch: seq<Frame>)
      requires Valid()
      modifies this
      ensures received == old(received) + chunk && frames == old(frames) + batch
      ensures failure.None? ==> Valid()
      ensures failure.Some? ==> Failed(failure.value)
    {
      hide MessagesOf, BeforeError, StripEols, ReadFrame;
      ParseOfConcat(received, chunk);
      received := received + chunk;
      buffer := buffer + chunk;
      var reading := ParseFrames(buffer);
      if reading.Refused? {
        return Some(BadContentLength), [];
      }
      buffer := reading.rest;
      batch := reading.frames;
      BatchJoins(frames, batch);
      frames := frames + batch;
      var error := Take(batch);
      failure := if error then Some(ErrorFrame) else None;
    }

    /** `_wait`: whatever the chunks, what is collected is the MESSAGE frames of everything received, in
        order; after an ERROR frame, those before it. The goal is looked at after every pass, and the wait
        ends with the first that meets it; it times out when none did. */
    method Wait(chunks: seq<Octets>, goal: Goal)
      returns (outcome: Outcome, used: nat, ghost arrived: seq<Frame>, ghost passes: seq<seq<Frame>>)
      requires Valid()
      modifies this
      ensures used <= |chunks| && received == old(received) + Concat(chunks[..used])
      ensures frames == old(frames) + arrived && arrived == Joined(passes)
      ensures if outcome.Reached? || outcome.TimedOut? then Valid() else Failed(outcome)
      ensures Collected(messages, frames)
      ensures EndsRight(outcome, goal, frames, passes)
      ensures outcome.Reached? || outcome.TimedOut? ==> messages == old(messages) + MessagesOf(arrived)
      ensures |passes| == used
      ensures forall k :: 0 <= k < used ==> PassesRead(old(received), chunks, old(frames), passes, k)
      ensures forall k :: 0 < k < used ==> !DoneAt(goal, old(messages), passes, k)
      ensures outcome.Reached? ==> 0 < used && DoneAt(goal, old(messages), passes, used)
      ensures outcome.TimedOut? ==> used == |chunks| && (0 < used ==> !DoneAt(goal, old(messages), passes, used))
    {
      hide Parse, MessagesOf, Done, Collected, AreSelected;
      used, arrived, passes := 0, [], [];
      NoPasses(chunks, received, frames);
      MessagesOfConcat(frames, []);
      assert frames + [] == frames;
      while used < |chunks|
        invariant used <= |chunks| && received == old(received) + Concat(chunks[..used])
        invariant Valid() && frames == old(frames) + arrived
        invariant messages == old(messages) + MessagesOf(arrived)
        invariant |passes| == used && arrived == Joined(passes)
        invariant forall k :: 0 <= k <= used ==> PassesRead(old(received), chunks, old(frames), passes, k)
        invariant forall k :: 0 < k <= used ==> !DoneAt(goal, old(messages), passes, k)
      {
        ConcatOfPrefix(chunks, used);
        assert old(received) + Concat(chunks[..used + 1]) == received + chunks[used];
        var failure, batch := Receive(chunks[used]);
        ghost var before := passes;
        MorePasses(old(received), chunks, old(frames), goal, old(messages), before, batch);
        used, arrived, passes := used + 1, arrived + batch, passes + [batch];
        assert frames == old(frames) + arrived;
        if failure.Some? {
          StateCollected(messages, frames);
          return failure.value, used, arrived, passes;
        }
        MessagesOfConcat(old(frames), arrived);
        assert passes[..used] == passes;
        if Done(goal, batch, messages) {
          StateCollected(messages, frames);
          GoalMeans(goal, batch, frames);
          return Reached, used, arrived, passes;
        }
      }
      assert chunks[..used] == chunks;
      StateCollected(messages, frames);
      NeverConnected(goal, old(messages), passes);
      outcome := TimedOut;
    }

    /** `collect`: the next `count` bodies for a selector, none that was there before the call and
        none skipped. */
    method Collect(selector: Octets, count: nat, chunks: seq<Octets>)
      returns (r: Result<seq<Octets>, Outcome>, used: nat, ghost arrived: seq<Frame>)
      requires Valid()
      modifies this
      ensures used <= |chunks| && received == old(received) + Concat(chunks[..used])
      ensures frames == old(frames) + arrived
      ensures r.Ok? ==>
                && Valid()
                && var next := Matching(MessagesOf(arrived), selector);
                   r.value == next[..if |next| < count then |next| else count]
      ensures r.Ok? ==> exists ks ::
                && AreSelected(arrived, selector, ks)
                && ShowBodies(r.value, arrived, ks[..if |ks| < count then |ks| else count])
      ensures r.Ok? && |r.value| < count ==> used == |chunks|
      ensures r.Err? ==> Failed(r.error)
    {
      hide Parse, PassesRead, Joined, MessagesOf, Matching, Collected, AreSelected, ShowBodies;
      var seen := |Matching(messages, selector)|;
      var outcome;
      ghost var passes;
      outcome, used, arrived, passes := Wait(chunks, Messages(selector, seen + count));
      if outcome.ErrorFrame? || outcome.BadContentLength? {
        return Err(outcome), used, arrived;
      }
      assert outcome.Reached? ==> passes[..used] == passes;
      var matching := Matching(messages, selector);
      MatchingOfConcat(old(messages), MessagesOf(arrived), selector);
      var end := if |matching| < seen + count then |matching| else seen + count;
      ghost var next := Matching(MessagesOf(arrived), selector);
      ghost var ks := SelectedMean(arrived, selector);
      FirstBodies(next, arrived, ks, |ks|);
      FirstBodies(next, arrived, ks, end - seen);
      assert matching[seen..end] == next[..end - seen];
      r := Ok(matching[seen..end]);
    }
  }

  /** What it means that a goal is met. */
  lemma GoalMeans(goal: Goal, batch: seq<Frame>, frames: seq<Frame>)
    ensures goal.Connection? ==>
              (Done(goal, batch, MessagesOf(frames)) <==> exists f :: f in batch && f.command == Ascii("CONNECTED"))
    ensures goal.Messages? && Done(goal, batch, MessagesOf(frames)) ==>
              exists ks :: AreSelected(frames, goal.selector, ks) && |ks| >= goal.total
  {
    Commands();
    if goal.Messages? {
      var ks := SelectedMean(frames, goal.selector);
    }
  }

  lemma {:induction false} NeverConnected(goal: Goal, messages: seq<Message>, passes: seq<seq<Frame>>)
    requires forall k :: 0 < k <= |passes| ==> !DoneAt(goal, messages, passes, k)
    ensures goal.Connection? ==> forall f :: f in Joined(passes) ==> f.command != Ascii("CONNECTED")
  {
    Commands();
    if goal.Connection? && passes != [] {
      var n := |passes| - 1;
      forall k | 0 < k <= n
        ensures !DoneAt(goal, messages, passes[..n], k)
      {
        assert !DoneAt(goal, messages, passes, k);
      }
      NeverConnected(goal, messages, passes[..n]);
      assert !DoneAt(goal, messages, passes, n + 1);
    }
  }

  lemma NoPasses(chunks: seq<Octets>, received: Octets, frames: seq<Frame>)
    requires Parse(received).Read? && Parse(received).frames == frames
    ensures PassesRead(received, chunks, frames, [], 0)
  {
    hide Parse;
    assert chunks[..0] == [] && received + [] == received && frames + [] == frames;
  }

  // What was said of the passes before stays, and they join with one more.
  lemma MorePasses(received: Octets, chunks: seq<Octets>, frames: seq<Frame>, goal: Goal, messages: seq<Message>,
                   before: seq<seq<Frame>>, batch: seq<Frame>)
    ensures Joined(before + [batch]) == Joined(before) + batch
    ensures forall k :: 0 <= k <= |before| && k <= |chunks| && PassesRead(received, chunks, frames, before, k) ==>
              PassesRead(received, chunks, frames, before + [batch], k)
    ensures forall k :: 0 < k <= |before| ==>
              (DoneAt(goal, messages, before + [batch], k) <==> DoneAt(goal, messages, before, k))
  {
    hide Parse, MessagesOf, Done;
    var after := before + [batch];
    assert after[..|before|] == before;
    forall k | 0 <= k <= |before|
      ensures after[..k] == before[..k]
    {
    }
  }

  lemma ConcatOfPrefix(chunks: seq<Octets>, i: nat)
    requires i < |chunks|
    ensures Concat(chunks[..i + 1]) == Concat(chunks[..i]) + chunks[i]
  {
    ConcatOfSnoc(chunks[..i], chunks[i]);
    assert chunks[..i + 1] == chunks[..i] + [chunks[i]];
  }

  lemma {:induction false} ConcatOfSnoc(chunks: seq<Octets>, last: Octets)
    ensures Concat(chunks + [last]) == Concat(chunks) + last
  {
    if chunks == [] {
      assert Concat([last]) == last + Concat([]);
    } else {
      ConcatOfSnoc(chunks[1..], last);
      assert (chunks + [last])[1..] == chunks[1..] + [last];
    }
  }
}
