/**
 * What the bridge talks to, seen from the bridge: the host's chat panels, the
 * messaging client's events, the contact list's refresh signal and the
 * client's command surface. The bridge's behaviour is the sequence of effects
 * it asks of them.
 */
module Collaborators {
  import opened JsValues

  /** A chat panel made by the host; each `createWebviewPanel` yields a new one. */
  datatype PanelHandle = PanelHandle(serial: nat)

  /** The client events the bridge subscribes to, with the ids it reads and their whole payload. */
  datatype ClientEvent =
    | GroupMessage(groupId: nat, body: Value)    // "message.group"
    | PrivateMessage(userId: nat, body: Value)   // "message.private"
    | GroupNotice(groupId: nat, body: Value)     // "notice.group"
    | FriendRecall(userId: nat, body: Value)     // "notice.friend.recall"

  /** What is posted to a panel: its own contact id first, then call results and pushed events. */
  datatype Outbound =
    | Announce(id: string)
    | Response(reply: map<string, Value>)
    | Pushed(event: ClientEvent)

  datatype Effect =
    | Create(id: string, panel: PanelHandle)     // createWebviewPanel for contact `id`
    | Reveal(panel: PanelHandle)                 // panel.reveal()
    | Post(panel: PanelHandle, message: Outbound) // panel.webview.postMessage(message)
    | Refresh(id: string, unread: bool)          // refreshContacts(id, unread)
    | Invoke(command: string, args: seq<Value>)  // client[command](...args)

  /** The effect concerns panel `h`. */
  predicate Mentions(e: Effect, h: PanelHandle)
  {
    (e.Create? || e.Reveal? || e.Post?) && e.panel == h
  }

  /** Every panel the effect concerns is one of the first `n` the host made. */
  predicate Below(e: Effect, n: nat)
  {
    (e.Create? || e.Reveal? || e.Post?) ==> e.panel.serial < n
  }

  /** The messages posted to panel `h`, in order. */
  function PostsTo(trace: seq<Effect>, h: PanelHandle): (r: seq<Outbound>)
    ensures forall m :: m in r ==> Post(h, m) in trace
  {
    if trace == [] then []
    else (if trace[0].Post? && trace[0].panel == h then [trace[0].message] else []) + PostsTo(trace[1..], h)
  }

  /** Posts to a panel split along a split of the trace. */
  lemma {:induction false} PostsToAppend(a: seq<Effect>, b: seq<Effect>, h: PanelHandle)
    ensures PostsTo(a + b, h) == PostsTo(a, h) + PostsTo(b, h)
    decreases |a|
  {
    if a == [] {
      assert a + b == b;
    } else {
      assert (a + b)[0] == a[0];
      assert (a + b)[1..] == a[1..] + b;
      PostsToAppend(a[1..], b, h);
    }
  }

  /** A panel no effect mentions has had nothing posted to it. */
  lemma {:induction false} PostsToUnmentioned(trace: seq<Effect>, h: PanelHandle)
    requires forall k :: 0 <= k < |trace| ==> !Mentions(trace[k], h)
    ensures PostsTo(trace, h) == []
    decreases |trace|
  {
    if trace != [] {
      assert !Mentions(trace[0], h);
      PostsToUnmentioned(trace[1..], h);
    }
  }

  /**
   * A panel made after everything in `before` hears, from its creation, its
   * reveal and the post of its contact id, exactly that id.
   */
  lemma OpeningPosts(before: seq<Effect>, id: string, h: PanelHandle)
    requires forall k :: 0 <= k < |before| ==> Below(before[k], h.serial)
    ensures PostsTo(before + [Create(id, h), Reveal(h), Post(h, Announce(id))], h) == [Announce(id)]
  {
    var opening := [Create(id, h), Reveal(h), Post(h, Announce(id))];
    PostsToUnmentioned(before, h);
    PostsToAppend(before, opening, h);
    assert PostsTo(opening[2..], h) == [Announce(id)];
    assert opening[1..][1..] == opening[2..];
  }

  /** The first message panel `h` ever received is the contact id `id`. */
  ghost predicate Greeted(trace: seq<Effect>, h: PanelHandle, id: string)
  {
    var posts := PostsTo(trace, h);
    posts != [] && posts[0] == Announce(id)
  }

  /** Appending effects never changes the first message a panel received. */
  lemma GreetedAppend(trace: seq<Effect>, more: seq<Effect>, h: PanelHandle, id: string)
    requires Greeted(trace, h, id)
    ensures Greeted(trace + more, h, id)
  {
    PostsToAppend(trace, more, h);
  }
}
