/**
 * The routing rules `bind` installs on the messaging client: a message marks
 * its conversation unread in the contact list unless that conversation's
 * panel is open and active, and every routed event is posted to the panel of
 * its conversation when one is open.
 */
module Router {
  import opened Wrappers
  import opened ContactIds
  import opened Collaborators

  /** The conversation an event belongs to: groups by `group_id`, the rest by `user_id`. */
  function EventContact(ev: ClientEvent): (c: Contact)
    ensures c.kind == Group <==> ev.GroupMessage? || ev.GroupNotice?
    ensures c.uin == if ev.GroupMessage? || ev.GroupNotice? then ev.groupId else ev.userId
  {
    match ev
    case GroupMessage(g, _) => Contact(Group, g)
    case GroupNotice(g, _) => Contact(Group, g)
    case PrivateMessage(u, _) => Contact(User, u)
    case FriendRecall(u, _) => Contact(User, u)
  }

  predicate IsMessage(ev: ClientEvent)
  {
    ev.GroupMessage? || ev.PrivateMessage?
  }

  /** The panel for `id` is open and the host reports it active. */
  predicate InFocus(panels: map<string, PanelHandle>, active: set<PanelHandle>, id: string)
  {
    id in panels && panels[id] in active
  }

  /** The unread listeners for "message.group" and "message.private". */
  function UnreadSignal(panels: map<string, PanelHandle>, active: set<PanelHandle>, id: string): (r: seq<Effect>)
    ensures r == [] || r == [Refresh(id, true)]
    ensures r == [] <==> InFocus(panels, active, id)
  {
    if InFocus(panels, active, id) then [] else [Refresh(id, true)]
  }

  /** `postGroupEvent` and `postC2CEvent`: the event goes to the open panel, if any. */
  function Forward(panels: map<string, PanelHandle>, id: string, ev: ClientEvent): (r: seq<Effect>)
    ensures id !in panels <==> r == []
    ensures id in panels ==> r == [Post(panels[id], Pushed(ev))]
  {
    if id in panels then [Post(panels[id], Pushed(ev))] else []
  }

  /**
   * All the listeners for one event, in the order they were registered (the
   * unread listener before the forwarding one), for the contact id `id` of
   * the event's conversation.
   */
  function Route(panels: map<string, PanelHandle>, active: set<PanelHandle>, id: string, ev: ClientEvent): (r: seq<Effect>)
    ensures Refresh(id, true) in r <==> IsMessage(ev) && !InFocus(panels, active, id)
    ensures forall e :: e in r && e.Refresh? ==> e == Refresh(id, true)
    ensures forall e :: e in r && e.Post? ==> id in panels && e == Post(panels[id], Pushed(ev))
    ensures id in panels ==> Post(panels[id], Pushed(ev)) in r
    ensures forall e :: e in r ==> e.Refresh? || e.Post?
    ensures |r| <= 2 && (|r| == 2 ==> r[0].Refresh? && r[1].Post?)
  {
    (if IsMessage(ev) then UnreadSignal(panels, active, id) else []) + Forward(panels, id, ev)
  }

  /** No two ids share a panel. */
  ghost predicate OnePanelEach(panels: map<string, PanelHandle>)
  {
    forall a, b :: a in panels && b in panels && panels[a] == panels[b] ==> a == b
  }

  /**
   * With a lawful codec and one panel per id, an event is only ever posted to
   * the panel that was opened for its own conversation.
   */
  lemma RouteReachesOwnPanel(codec: Codec, panels: map<string, PanelHandle>, active: set<PanelHandle>, ev: ClientEvent, key: string)
    requires Lawful(codec)
    requires OnePanelEach(panels)
    requires key in panels
    requires exists e :: e in Route(panels, active, codec.encode(EventContact(ev)), ev) && e.Post? && e.panel == panels[key]
    ensures codec.decode(key) == Some(EventContact(ev))
  {
    var id := codec.encode(EventContact(ev));
    var e :| e in Route(panels, active, id, ev) && e.Post? && e.panel == panels[key];
    assert panels[id] == panels[key];
    assert codec.decode(id) == Some(EventContact(ev));
  }
}
