/**
 * The bridge's shared state: one registry of open chat panels keyed by
 * contact id, with the operations that change it (opening and disposing a
 * panel) and the two handlers that read it (a panel's inbound messages and
 * the client's events). Each effect on a collaborator is recorded in `trace`.
 */
module Chat {
  import opened Wrappers
  import opened JsValues
  import opened ContactIds
  import opened Collaborators
  import opened Cursors
  import opened Dispatcher
  import opened Router
  import Base64

  /** How `Open` ended: an open panel was revealed, or a new one was made. */
  datatype Opened = Revealed(panel: PanelHandle) | Created(panel: PanelHandle)

  class Registry {
    /** The contact-id codec of the surrounding extension. */
    const codec: Codec
    /** `webviewMap`: the open panel of each contact id. */
    var panels: map<string, PanelHandle>
    /** How many panels the host has made; the next one it makes is `PanelHandle(created)`. */
    var created: nat
    /** Every effect asked of a collaborator, in order. */
    ghost var trace: seq<Effect>

    ghost predicate Valid()
      reads this
    {
      && (forall id :: id in panels ==> codec.decode(id).Some?)
      && (forall id :: id in panels ==> panels[id].serial < created)
      && OnePanelEach(panels)
      && (forall k :: 0 <= k < |trace| ==> Below(trace[k], created))
      && (forall id :: id in panels ==> Greeted(trace, panels[id], id))
    }

    constructor (codec: Codec)
      ensures Valid()
      ensures this.codec == codec && panels == map[] && created == 0 && trace == []
    {
      this.codec := codec;
      panels := map[];
      created := 0;
      trace := [];
    }

    /** The trace grows by `more`, which concerns only panels already made. */
    ghost method Record(more: seq<Effect>)
      requires Valid()
      requires forall k :: 0 <= k < |more| ==> Below(more[k], created)
      modifies this`trace
      ensures Valid()
      ensures trace == old(trace) + more
    {
      forall id | id in panels
        ensures Greeted(trace + more, panels[id], id)
      {
        GreetedAppend(trace, more, panels[id], id);
      }
      trace := trace + more;
    }

    /**
     * `openChatView(id)` for an id that parses: reveal the panel already open for
     * it, or else create a panel, register it, reveal it and post the id to it.
     */
    method Open(id: string) returns (result: Opened)
      requires Valid()
      requires codec.decode(id).Some?
      modifies this
      ensures Valid()
      ensures id in old(panels) ==>
        && result == Revealed(old(panels)[id])
        && panels == old(panels) && created == old(created)
        && trace == old(trace) + [Reveal(old(panels)[id])]
      ensures id !in old(panels) ==>
        var h := PanelHandle(old(created));
        && result == Created(h)
        && panels == old(panels)[id := h]
        && created == old(created) + 1
        && (forall k :: 0 <= k < |old(trace)| ==> !Mentions(old(trace)[k], h))
        && trace == old(trace) + [Create(id, h), Reveal(h), Post(h, Announce(id))]
        && PostsTo(trace, h) == [Announce(id)]
    {
      if id in panels {
        var h := panels[id];
        Record([Reveal(h)]);
        return Revealed(h);
      }
      var h := NewPanel(id);
      result := Created(h);
    }

    /**
     * The creating half of `openChatView`: ask the host for a panel, register
     * it under `id`, reveal it and post the id to it.
     */
    method NewPanel(id: string) returns (h: PanelHandle)
      requires Valid()
      requires codec.decode(id).Some? && id !in panels
      modifies this
      ensures Valid()
      ensures h == PanelHandle(old(created))
      ensures panels == old(panels)[id := h]
      ensures created == old(created) + 1
      ensures forall k :: 0 <= k < |old(trace)| ==> !Mentions(old(trace)[k], h)
      ensures trace == old(trace) + [Create(id, h), Reveal(h), Post(h, Announce(id))]
      ensures PostsTo(trace, h) == [Announce(id)]
    {
      h := PanelHandle(created);
      ghost var opening := [Create(id, h), Reveal(h), Post(h, Announce(id))];
      OpeningPosts(trace, id, h);
      forall k | k in panels
        ensures Greeted(trace + opening, panels[k], k)
      {
        GreetedAppend(trace, opening, panels[k], k);
      }
      created := created + 1;
      panels := panels[id := h];
      // created, revealed, then told its own id
      trace := trace + opening;
    }


    /** The panel's `onDidDispose` listener: `webviewMap.delete(id)`. */
    method Dispose(id: string)
      requires Valid()
      modifies this`panels
      ensures Valid()
      ensures panels == old(panels) - {id}
    {
      panels := panels - {id};
    }

    /**
     * The panel's `onDidReceiveMessage` listener for the open panel of `id`,
     * step by step as the source runs it; its effects are those `Dispatch`
     * specifies.
     */
    method Receive(id: string, client: Client, data: Inbound)
      requires Valid()
      requires id in panels
      modifies this`trace
      ensures Valid()
      ensures trace == old(trace) + Dispatch(id, codec.decode(id).value, panels[id], client, data)
    {
      var webview := panels[id];
      var contact := codec.decode(id).value;
      if data.command.None? || data.command.value == "" {
        Record([Refresh(id, false)]);
        return;
      }
      var command := data.command.value;
      var params := data.params;
      if command == HistoryCommand && params.Some? && |params.value| > 0 && params.value[0] == Str("") {
        if contact.uin >= Uint32Limit {
          // writeUInt32BE throws: the handler's promise rejects with nothing sent
          return;
        }
        var buf := AllocCursor(contact.kind, contact.uin);
        params := Some(params.value[0 := Str(Base64.Encode(buf[..]))]);
      }
      var args := ArgList(params);
      assert CallArgs(contact, data) == Some(args);
      Call(webview, client, command, args, data.echo);
    }

    /**
     * The call at the end of the handler: `client[command]` is looked up and,
     * when it is a function, applied to `args`; a result it returns is
     * normalized and posted to `webview`.
     */
    method Call(webview: PanelHandle, client: Client, command: string, args: seq<Value>, echo: Option<string>)
      requires Valid()
      requires webview.serial < created
      modifies this`trace
      ensures Valid()
      ensures trace == old(trace) + CallEffects(webview, client, command, args, echo)
    {
      if command !in client {
        return;
      }
      var outcome := client[command](args);
      match outcome
      case Failed =>
        Record([Invoke(command, args)]);
      case Returned(ret) =>
        if "data" in ret && ret["data"].Dict? {
          ret := ret["data" := List(Values(ret["data"].entries))];
        }
        ret := ret["echo" := OptionalString(echo)];
        Record([Invoke(command, args), Post(webview, Response(ret))]);
    }

    /** The listeners `bind` registered, run for one client event; `active` is the set of panels the host reports active. */
    method Emit(ev: ClientEvent, active: set<PanelHandle>)
      requires Valid()
      modifies this`trace
      ensures Valid()
      ensures trace == old(trace) + Route(panels, active, codec.encode(EventContact(ev)), ev)
    {
      var id := codec.encode(EventContact(ev));
      var effects := [];
      if IsMessage(ev) {
        if !(id in panels && panels[id] in active) {
          effects := effects + [Refresh(id, true)];
        }
      }
      if id in panels {
        effects := effects + [Post(panels[id], Pushed(ev))];
      }
      assert effects == Route(panels, active, id, ev);
      Record(effects);
    }
  }

  /** Opening an id twice makes one panel: the second open only reveals it. */
  method OpenTwice(r: Registry, id: string)
    requires r.Valid()
    requires r.codec.decode(id).Some? && id !in r.panels
    modifies r
    ensures r.Valid()
    ensures id in r.panels && r.panels == old(r.panels)[id := r.panels[id]]
    ensures var h := r.panels[id];
      r.trace == old(r.trace) + [Create(id, h), Reveal(h), Post(h, Announce(id)), Reveal(h)]
  {
    var first := r.Open(id);
    var second := r.Open(id);
  }

  /** Once its panel is disposed, opening an id makes a new panel, not the old one. */
  method ReopenAfterDispose(r: Registry, id: string)
    requires r.Valid()
    requires id in r.panels
    modifies r
    ensures r.Valid()
    ensures id in r.panels && r.panels[id] != old(r.panels[id])
    ensures PostsTo(r.trace, r.panels[id]) == [Announce(id)]
  {
    r.Dispose(id);
    var reopened := r.Open(id);
  }
}
