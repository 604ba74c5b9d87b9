/**
 * The handler a chat panel runs for each message its view sends: a focus
 * notice becomes a contact-list refresh, anything else is a call into the
 * messaging client whose result is posted back to the view.
 */
module Dispatcher {
  import opened Wrappers
  import opened JsValues
  import opened ContactIds
  import opened Collaborators
  import opened Cursors

  /** `{command?, params?, echo?}` as the view sends it. */
  datatype Inbound = Inbound(command: Option<string>, params: Option<seq<Value>>, echo: Option<string>)

  /** How a client call settles: with a result object, or by throwing or rejecting. */
  datatype Outcome = Returned(reply: map<string, Value>) | Failed

  /** The members of the client that are functions, by name. */
  type Client = map<string, seq<Value> -> Outcome>

  const HistoryCommand: string := "getChatHistory"

  /** `!data.command`: no command, or an empty one, means the view was focused. */
  predicate IsFocusNotice(msg: Inbound)
  {
    msg.command.None? || msg.command.value == ""
  }

  /** `data.command === "getChatHistory" && data.params?.[0] === ""`. */
  predicate AsksNewestPage(msg: Inbound)
  {
    && msg.command == Some(HistoryCommand)
    && msg.params.Some?
    && |msg.params.value| > 0
    && msg.params.value[0] == Str("")
  }

  /** The argument list `fn.apply(client, params)` passes: none when `params` is absent. */
  function ArgList(params: Option<seq<Value>>): seq<Value>
  {
    if params.None? then [] else params.value
  }

  /**
   * The arguments the client is called with, or `None` when making the cursor
   * throws (`writeUInt32BE` rejects an id of 2^32 or more). Only a request for
   * the newest page of history has its first argument replaced by the cursor;
   * every other request is forwarded as it came.
   */
  function CallArgs(contact: Contact, msg: Inbound): (r: Option<seq<Value>>)
    ensures !AsksNewestPage(msg) ==> r == Some(ArgList(msg.params))
    ensures AsksNewestPage(msg) ==> (r.Some? <==> contact.uin < Uint32Limit)
    ensures AsksNewestPage(msg) && r.Some? ==>
      && |r.value| == |msg.params.value|
      && r.value[0] == Str(Cursor(contact.kind, contact.uin))
      && r.value[1..] == msg.params.value[1..]
  {
    if AsksNewestPage(msg) then
      if contact.uin < Uint32Limit then
        Some(msg.params.value[0 := Str(Cursor(contact.kind, contact.uin))])
      else None
    else Some(ArgList(msg.params))
  }

  /**
   * The result object as posted: a `Map` under `data` is replaced by the list
   * of its values, and `echo` is set to the request's token (to `undefined`
   * when the request had none). Every other field is kept.
   */
  function Normalize(reply: map<string, Value>, echo: Option<string>): (r: map<string, Value>)
    ensures r.Keys == reply.Keys + {"echo"}
    ensures StringOf(r["echo"]) == echo
    ensures echo.Some? ==> r["echo"] == Str(echo.value)
    ensures echo.None? ==> r["echo"] == Undefined
    ensures "data" in reply && reply["data"].Dict? ==>
      && r["data"].List?
      && |r["data"].items| == |reply["data"].entries|
      && forall i :: 0 <= i < |reply["data"].entries| ==> r["data"].items[i] == reply["data"].entries[i].val
    ensures "data" in reply && !reply["data"].Dict? ==> r["data"] == reply["data"]
    ensures forall k :: k in reply && k != "data" && k != "echo" ==> r[k] == reply[k]
  {
    var flattened :=
      if "data" in reply && reply["data"].Dict? then reply["data" := List(Values(reply["data"].entries))]
      else reply;
    flattened["echo" := OptionalString(echo)]
  }

  /** The view gets an answer: it asked for a call, the call could be made, and it returned. */
  predicate Answered(contact: Contact, client: Client, msg: Inbound)
  {
    && !IsFocusNotice(msg)
    && CallArgs(contact, msg).Some?
    && msg.command.value in client
    && client[msg.command.value](CallArgs(contact, msg).value).Returned?
  }

  /**
   * The effects of calling `client[name]` with `args` for the panel `panel`:
   * nothing when the client has no such member; otherwise the call, and when
   * it returns, the normalized result posted back.
   */
  function CallEffects(panel: PanelHandle, client: Client, name: string, args: seq<Value>, echo: Option<string>): (effects: seq<Effect>)
    ensures name !in client ==> effects == []
    ensures name in client ==> |effects| >= 1 && effects[0] == Invoke(name, args)
    ensures name in client && client[name](args).Returned? <==> |effects| == 2
    ensures |effects| == 2 ==> effects[1] == Post(panel, Response(Normalize(client[name](args).reply, echo)))
    ensures |effects| <= 2
  {
    if name !in client then []
    else
      match client[name](args)
      case Failed => [Invoke(name, args)]
      case Returned(reply) => [Invoke(name, args), Post(panel, Response(Normalize(reply, echo)))]
  }

  /**
   * The effects of one inbound message on the panel `panel` of contact `id`
   * (decoded as `contact`), as a specification of the handler.
   */
  function Dispatch(id: string, contact: Contact, panel: PanelHandle, client: Client, msg: Inbound): (effects: seq<Effect>)
    ensures IsFocusNotice(msg) ==> effects == [Refresh(id, false)]
    ensures !IsFocusNotice(msg) ==> forall e :: e in effects ==> !e.Refresh?
    ensures !IsFocusNotice(msg) && msg.command.value !in client ==> effects == []
    ensures forall e :: e in effects && e.Invoke? ==>
      && !IsFocusNotice(msg)
      && e.command == msg.command.value
      && CallArgs(contact, msg) == Some(e.args)
    ensures forall e :: e in effects && e.Post? ==>
      && Answered(contact, client, msg)
      && e.panel == panel
      && e.message.Response?
      && e.message.reply == Normalize(client[msg.command.value](CallArgs(contact, msg).value).reply, msg.echo)
    ensures (exists e :: e in effects && e.Post?) <==> Answered(contact, client, msg)
    ensures forall i, j :: 0 <= i < j < |effects| ==> !(effects[i].Post? && effects[j].Post?)
    ensures forall e :: e in effects ==> !e.Create? && !e.Reveal?
    ensures !IsFocusNotice(msg) && CallArgs(contact, msg).None? ==> effects == []
    ensures !IsFocusNotice(msg) && CallArgs(contact, msg).Some? ==>
      effects == CallEffects(panel, client, msg.command.value, CallArgs(contact, msg).value, msg.echo)
  {
    if IsFocusNotice(msg) then [Refresh(id, false)]
    else
      match CallArgs(contact, msg)
      case None => []
      case Some(args) =>
        var effects := CallEffects(panel, client, msg.command.value, args, msg.echo);
        assert |effects| == 2 ==> effects[1] in effects;
        effects
  }
}
