# Chat panel bridge of vscode-qq, modelled in Dafny

vscode-qq shows QQ conversations in VS Code chat panels. `src/chat.ts` is the
bridge between three parties:

- the host's webview panels;
- the oicq messaging client;
- the contact list, which is asked to refresh a conversation.

This project models that bridge. It has four parts.

- **Panel registry** (`Chat.Registry`): a class holding `webviewMap` as a
  `map<string, PanelHandle>`. Its methods open a panel for a contact id and
  dispose of one. Every effect the bridge asks of the host, the client or the
  contact list is appended to a ghost `trace`: create, reveal, post, refresh
  and invoke. The class invariant says:
  - every key parses as a contact id;
  - no two ids share a panel;
  - the first message every registered panel received is its own id.
- **Inbound handler** (`Dispatcher`, plus `Chat.Registry.Receive` and
  `Chat.Registry.Call`). A panel's view sends `{command?, params?, echo?}`.
  - With no command, the bridge sends a "seen" refresh for the conversation.
  - Otherwise it calls the client. A request for the newest page of history
    first gets a made-up history cursor.
  - The call's result is posted back with `data` flattened and `echo` copied.
  - `Dispatch` is the specification of this handler. The methods go through
    the same steps, with the request's parameters and the result object
    reassigned as values, and are proved to produce exactly its effects. The
    cursor buffer is a real array, filled in place.
- **History cursor** (`Cursors`, `Base64`, `Octets`). The cursor is a zero-filled
  buffer of 21 bytes for a group or 17 for a user. The numeric id is written
  big-endian at offset 0 and the buffer is Base64-encoded (section 4 of
  RFC 4648). Decoding is the encoding's partner: the round trip
  (`CursorDecodes`) proves what a cursor carries, and with it
  `CursorInjective` proves that distinct conversations get distinct cursors.
  The length (28 or 24 characters) comes from `Base64.Encode`'s own length
  contract, through `Cursor`.
- **Event router** (`Router`, plus `Chat.Registry.Emit`). It models the
  listeners `bind` installs:
  - a message marks its conversation unread unless the conversation's panel
    is open and active;
  - each message and notice is forwarded to the open panel of its
    conversation, if there is one.

The contact-id codec (`genContactId`/`parseContactId`) lives in src/global.ts,
which is not part of this model. It is a parameter: any `encode`, together
with a partial `decode` that undoes it (`ContactIds.Lawful`). Its textual
format is not modelled.

A focus notice is whatever `!data.command` accepts. That is an absent
command, and also an empty command `""` (`Dispatcher.IsFocusNotice`).

## Model

| member | source | states |
|---|---|---|
| Chat.Registry.constructor | src/chat.ts:16 | The registry starts with no panels and nothing recorded, and its invariant holds. |
| Chat.Registry.Open | src/chat.ts:58-79 | Keeps the invariant. For an id already registered, only reveals that panel: the map, the panel count and everything else stay unchanged. For a new id, registers exactly one fresh panel under it and leaves the other entries unchanged. Records create, reveal and a post of the id, and the id is the only message that panel has had. |
| Chat.Registry.NewPanel | src/chat.ts:71-79 | The creating half of opening. The new panel is one no earlier effect mentioned. The map gains exactly `id := h`. The trace grows by create, reveal and a post of the id, and the invariant holds afterwards. |
| Chat.Registry.Dispose | src/chat.ts:80-82 | Removes exactly `id` from the map and leaves every other entry unchanged. Keeps the invariant. |
| Chat.ReopenAfterDispose | src/chat.ts:68-82 | After disposing an id's panel, opening the id again gives a panel different from the old one, whose only message is the id. |
| Chat.OpenTwice | src/chat.ts:68-79 | Opening a new id twice makes one panel. The second open adds only a reveal of that same panel. |
| Chat.Registry.Receive | src/chat.ts:83-96 | The handler run step by step. The buffer is filled in place, and `params[0]` is replaced by reassigning the parameter list. Appends exactly `Dispatch`'s effects for the panel's id and keeps the invariant. |
| Chat.Registry.Call | src/chat.ts:97-109 | Looks up the client member and calls it. It then reassigns the result map with `data` flattened and `echo` set, and posts it. Appends exactly `CallEffects`. |
| Chat.Registry.Emit | src/chat.ts:124-146 | Running the listeners for one event appends exactly `Route`'s effects for the event's contact id, and keeps the invariant. |
| Dispatcher.Dispatch | src/chat.ts:83-111 | For each inbound message: <br>• No command or `""`: exactly one refresh `(id, false)` and nothing else. <br>• Otherwise: no refresh. <br>• A command the client lacks: nothing. <br>• Every invoke carries the command and exactly `CallArgs`. <br>• A post happens iff the call was made and returned. There is at most one, it goes to the panel itself, and it carries the normalized result. <br>• Never a create or reveal. <br>• When the arguments cannot be built, nothing. When they can, the effects are exactly `CallEffects`: one invoke of the command with those arguments, then the post if the call returned. |
| Dispatcher.IsFocusNotice | src/chat.ts:84 | Definition of `!data.command`: the command is absent or `""`. |
| Dispatcher.AsksNewestPage | src/chat.ts:87 | Definition of `data.command === "getChatHistory" && data.params?.[0] === ""`. |
| Dispatcher.ArgList | src/chat.ts:100 | Definition: the arguments `fn.apply(client, data.params)` passes, none when `params` is absent. |
| Dispatcher.CallArgs | src/chat.ts:87-96 | Parameters are forwarded unchanged unless the command is `getChatHistory` with `params[0] == ""`. In that case `params[0]` becomes the conversation's cursor, the rest are unchanged, and the length is kept. An id of 2^32 or more, where `writeUInt32BE` throws, yields no call. |
| Dispatcher.CallEffects | src/chat.ts:97-108 | A name the client lacks: nothing. Otherwise an invoke comes first. A second effect exists iff the call returned, and it is the post of the normalized result to the panel. |
| Dispatcher.Normalize | src/chat.ts:104-107 | The result keeps its keys and gains `echo`, which is exactly the request's token as a string, or exactly `undefined` when the request had none (so the key is dropped when serialized, never sent as `null`). A `Map` under `data` becomes the list of its values in insertion order. Any other `data` and every other field is unchanged. |
| JsValues.Values | src/chat.ts:105 | `[...m.values()]` has one element per entry, in order, each the entry's value. |
| JsValues.OptionalString | src/chat.ts:107 | An absent token is stored as `undefined`, a present one as that string. Reading it back gives the token. |
| Cursors.BufferSize | src/chat.ts:89-93 | The contract says the buffer always has room for the 4-byte id. The sizes, 21 for a group and 17 otherwise, are the body; they reach contracts through `Cursor` (28 or 24 characters), `CursorDecodes` and the examples. |
| Cursors.BigEndian32 | src/chat.ts:94 | Definition of the four bytes `writeUInt32BE` writes, most significant first. `ReadWrite32` and `WriteRead32` are its partners. |
| Cursors.ReadWrite32 | src/chat.ts:94 | Reading the four big-endian bytes of `n < 2^32` gives `n` back. |
| Cursors.WriteRead32 | src/chat.ts:94 | Every four bytes are the big-endian encoding of what they read as, so the 32-bit encoding is a bijection. |
| Cursors.WriteUInt32BE | src/chat.ts:94 | The four bytes at `offset` become the big-endian encoding of the value. Every other byte of the buffer is unchanged. |
| Cursors.CursorBytes | src/chat.ts:88-94 | The cursor buffer has the conversation's size. Its first four bytes read back as the numeric id, and every other byte is zero. |
| Cursors.AllocCursor | src/chat.ts:88-94 | `Buffer.alloc` followed by `writeUInt32BE(uin, 0)` gives a fresh array holding exactly `CursorBytes`. |
| Cursors.Cursor | src/chat.ts:95 | A group's cursor is 28 characters long and a user's is 24. |
| Cursors.CursorDecodes | src/chat.ts:88-95 | Base64-decoding a cursor gives a buffer of the conversation's size, with the id in its first four bytes and zeros after. |
| Cursors.CursorInjective | src/chat.ts:88-95 | Two cursors are equal iff they are for the same kind and id. |
| Cursors.GroupCursorExample | src/chat.ts:89-95 | Group 123456 gets a 28-character cursor that decodes to `00 01 E2 40` followed by seventeen zero bytes. |
| Cursors.UserCursorExample | src/chat.ts:89-95 | User 123456 gets a 24-character cursor that decodes to `00 01 E2 40` followed by thirteen zero bytes. |
| Cursors.CursorTextExamples | src/chat.ts:88-95 | The cursor of group 123456 is `AAHiQAAAAAAAAAAAAAAAAAAAAAAA`, and the cursor of user 123456 is `AAHiQAAAAAAAAAAAAAAAAAA=`. |
| Base64.SextetRoundTrip | src/chat.ts:95 | Every 6-bit value has an alphabet character, and decoding that character gives the value back. |
| Base64.Encode | src/chat.ts:95 | The text has four characters per started group of three bytes. |
| Base64.NoPadding | src/chat.ts:95 | A byte count divisible by three gives a text without `=`. |
| Base64.DecodeEncode | src/chat.ts:95 | Decoding the encoding of any byte string gives back exactly that byte string. |
| Base64.EncodeInjective | src/chat.ts:95 | Two byte strings have the same Base64 text iff they are equal. |
| Base64.EncodeCons | src/chat.ts:95 | A group of three bytes in front of any bytes puts its four characters in front of their text. |
| Base64.EncodeZeros | src/chat.ts:95 | `n` zero bytes encode to four `A`s per whole group, then `AA==` or `AAA=` for a final one or two bytes. |
| Base64.RfcShortVectors | src/chat.ts:95 | The section 10 test vectors of RFC 4648: "" gives "", "f" gives `Zg==`, "fo" gives `Zm8=`. |
| Base64.RfcFoo | src/chat.ts:95 | RFC 4648 test vector: "foo" gives `Zm9v`. |
| Base64.RfcFoob | src/chat.ts:95 | RFC 4648 test vector: "foob" gives `Zm9vYg==`. |
| Base64.RfcFooba | src/chat.ts:95 | RFC 4648 test vector: "fooba" gives `Zm9vYmE=`. |
| Base64.RfcFoobar | src/chat.ts:95 | RFC 4648 test vector: "foobar" gives `Zm9vYmFy`. |
| Router.EventContact | src/chat.ts:114-126 | Group messages and notices belong to the group `group_id` (kind g). Private messages and recalls belong to the user `user_id` (kind u). |
| Router.UnreadSignal | src/chat.ts:125-139 | The unread listener sends refresh `(id, true)` iff the id has no open panel or its panel is not active. Otherwise it sends nothing. |
| Router.IsMessage | src/chat.ts:125-142 | Definition: the events that have an unread listener besides the forwarding one, `message.group` and `message.private`. |
| Router.InFocus | src/chat.ts:127 | Definition of `webviewMap.get(id)?.active` being truthy: the id has a panel and the host reports it active. |
| Router.Forward | src/chat.ts:114-122 | The event is posted to the id's panel iff one is registered. Otherwise nothing happens. |
| Router.Route | src/chat.ts:124-146 | For one event: <br>• A refresh `(id, true)` happens iff the event is a message and its panel is not open and active. <br>• Every post is the event to the registered panel, and there is one iff the panel is registered. <br>• Nothing but refreshes and posts. <br>• At most two effects, the refresh first. |
| Router.RouteReachesOwnPanel | src/chat.ts:114-122 | With a lawful codec and one panel per id, an event is only ever posted to a panel whose key decodes to the event's own conversation. |
| ContactIds.EncodeInjective | src/chat.ts:115-126 | A lawful codec gives distinct conversations distinct ids. |
| Collaborators.PostsToAppend | src/chat.ts:79 | The messages a panel received over two spans of effects are those of the first span followed by those of the second. |
| Collaborators.OpeningPosts | src/chat.ts:71-79 | A panel made after all earlier effects has, after its create, reveal and post, received exactly its id. |

## Left out

- `getHtml`, the HTML template and the theme settings (src/chat.ts:18-56) are left out. They read configuration and resolve resource URIs; setting `webview.html` has no effect on the registry, the handler or the router.
- Command registration (src/chat.ts:13-14) and the label lookup through `client.fl`/`client.gl` (src/chat.ts:60-66) are left out. The first is host wiring; the second only produces a display string.
- Chat.Registry.Open requires an id that parses. What `parseContactId` does with any other string is in src/global.ts, which is not part of this model.
- The codec's body (src/global.ts) is not part of this model. `genContactId` is any function, and `parseContactId` any partial inverse of it (`ContactIds.Lawful`).
- `createWebviewPanel`, `reveal`, `postMessage` and `refreshContacts` are recorded as effects in a ghost trace, not modelled. A new panel is `PanelHandle(created)`, a counter standing for the fresh object the host returns. The host's `active` flag is passed in as a set of panels.
- Dispatcher.CallEffects: a client member is a total function from arguments to `Returned(object)` or `Failed`. Every call whose result is not an object is counted as `Failed`, because nothing is posted for it. For `undefined` or `null`, reading `ret.data` throws. For a boolean, number or string, `ret.data` is `undefined`, but the assignment to `ret.echo` throws in strict-mode module code. A synchronous throw and a rejected promise are also `Failed`.
- Asynchrony is left out: the `await` on a returned promise and the interleaving of other events with a pending call. Each handler runs to completion in one step.
- JavaScript numbers are modelled as integers. A contact id is a `nat`, so negative ids, which `writeUInt32BE` rejects, and fractional ids, which it accepts and truncates, cannot occur. Ids of 2^32 and above are modelled as the error path.
- Only the `data` and `echo` fields of a result are modelled as rewritten. A result is a flat map of fields; nested objects are values.
- Chat.Registry.Receive and Chat.Registry.Call: the source updates the request's `params` array and the result object in place. The model reassigns them as values instead, so their aliasing with other references to the same objects is not modelled. Only the cursor buffer, in Cursors.AllocCursor, is an array filled in place.
- Events posted to a panel that was disposed, but whose listeners are still running, are not modelled. The registry lookup decides everything.
