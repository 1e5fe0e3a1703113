# Magma engine core in Dafny

This project models the core of the Magma game engine and proves properties of
that model. The core covers five areas:

- **The message bus.** This is the global message-type registry (name to ID,
  with a counter that starts at 1). It includes the message listeners (a
  subscription set plus a FIFO inbox of handles) and the bus itself (one
  listener list per type ID, with list 0 as the wildcard list). It also
  includes the slab of fixed-size message slots with their occupancy flags,
  the list of tracked messages, and the intrusive reference count that
  message handles adjust. The later header revision
  (src/Magma/Systems/MessageBus.hpp) has the same handle (lines 92-94) and
  send (lines 258-286) and adds a payload-type registry and the `empty`/`int`
  payload codecs.
- **`Core`.** This listener keeps a running flag. Draining the inbox clears
  the flag when a message named "exit" arrives.
- **The text codecs.**
  - the INI document (`@start` … `@end`, sections and `key=value` lines);
  - the XML subset, with its element tree operations, serializer and
    character-driven reader;
  - `GlobalVar` values terminated by `\#`;
  - `UIEvent` records;
  - the debug-console pipe protocol: NUL-framed commands written by
    `WindowsConsole` and decoded by the console form.
- **Registries and caches.**
  - the generic `Registrable` factory registry;
  - the console input-callback table;
  - the resource-info table, with its lazy loading and cache of live
    resources.
- **Scene-graph bookkeeping.** This is the parent/child relation between
  scene nodes and the attachment relation between nodes and components.

## How the model is built

- **Objects the code updates in place are classes.** Their methods carry
  `modifies` clauses and state the whole new state. These are the bus,
  listeners, messages, the registry, `Core`, INI sections and documents, XML
  elements, global variables, the callback table, the consoles, the console
  form, the resource manager and scene nodes.
- **Pure code is datatypes and functions.** This covers the serializers, the
  INI and XML readers' specifications, the registries' lookup and resource
  info.
- **Loops in the source are `while` loops with invariants.** Each loop method
  is proved equal to a specification function. Examples are the type-ID
  reverse lookup, bus unsubscribe, fan-out, `Clean`, the INI line loop, the
  XML character loop, `GlobalVar::Deserialize`, the console input thread and
  the form's segment loop.
- **`MAGMA_ERROR` is a failure outcome.** The model follows the non-Windows
  build, where the logging function aborts (src/Magma/Utils/Utils.cpp:15-19).
- **`MAGMA_WARNING` changes no state.** Where the caller can see that a
  warning was issued, the warning is reported as a failure value.
- **Two `size_t`/`uint64_t` counters wrap modulo 2^64.** These are the
  reference count and the callback IDs (module `Words`). The type-ID counter
  is the exception; see "## Left out".

### Where the code and its documentation disagree

The model follows the code, and separate lemmas make each departure visible:

- **Allocation.** `AllocateMessage` returns the first free slot but never
  sets its occupancy flag. `SendMessage<T>` never adds the message to
  `m_messages`. So every send reuses slot 0, and `Clean` never reclaims a sent
  payload (`BusDepartures.SendsReuseSlotZero`,
  `BusDepartures.CleanMissesSentPayload`).
- **Fan-out.** It ignores the message type: the message goes to list 0 and
  then to every other list (`BusDepartures.DeliveryIgnoresType`).
- **Allocation failure.** When the buffer is full, `MAGMA_ERROR` aborts (off Windows)
  before the fall-through construction at a null address. The model reports
  `Fail(BufferFull)`, and this is not recoverable.
- **Bus `Unsubscribe`.** It advances past the element that an erase shifts
  into the current index. A listener subscribed twice in a row therefore
  stays in the list once (`BusLists.DoubleSubscriptionSurvives`).
- **`IsSubscribedTo`.** This is plain membership. After `SubscribeToAll`, the
  only member is 0 (`MessageBus.WildcardIsOnlyZero`).
- **`UIEvent::Deserialize`.** It reads only the type. The field switch sits
  inside an outer switch with no case labels, so it never runs.
- **`Element::RemoveChild`.** It never advances its iterator. It does not
  terminate when the first child has another name.
- **The console form.** A segment that is exactly "print", "error" or "warng"
  makes `Substring(6)` throw. A segment without a terminating NUL is never
  finished, because `Peek` returns -1 at the end of the data.

## Model

| member | source | states |
|---|---|---|
| Words.Inc | Solution/Magma/src/Magma/Systems/MessageBus.hpp:79-80 | a `size_t` increment: one more, or 0 past 2^64 - 1 |
| Words.Dec | Solution/Magma/src/Magma/Systems/MessageBus.hpp:81 | a `size_t` decrement: one less, or 2^64 - 1 below 0 |
| Words.AddWrappedIsModular | Solution/Magma/src/Magma/Systems/MessageBus.hpp:79-81 | k increments from x leave (x + k) mod 2^64 |
| Words.SubWrappedIsModular | Solution/Magma/src/Magma/Systems/MessageBus.hpp:79-81 | k decrements from x leave (x - k) mod 2^64 |
| Words.DecUndoesInc | Solution/Magma/src/Magma/Systems/MessageBus.hpp:79-81 | destroying a handle undoes constructing it, even across the wrap |
| Words.AddWrappedTwice | Solution/Magma/src/Magma/Systems/MessageBus.cpp:168-172 | a batch of a increments followed by a batch of b equals a + b increments |
| Words.AddWrapped | Solution/Magma/src/Magma/Systems/MessageBus.hpp:79-80 | the count after k handle constructions or copies; `AddWrappedIsModular` proves it is (x + k) mod 2^64 |
| Words.SubWrapped | Solution/Magma/src/Magma/Systems/MessageBus.hpp:81 | the count after k handle destructions; `SubWrappedIsModular` proves it is (x - k) mod 2^64 |
| TypeRegistry.NameOf | Solution/Magma/src/Magma/Systems/MessageBus.cpp:8-17 | the name registered for an ID, or "" when no name has that ID |
| TypeRegistry.NameOfRegistered | Solution/Magma/src/Magma/Systems/MessageBus.cpp:8-17 | in a registry with distinct IDs, the name found for a registered name's ID is that name |
| TypeRegistry.Registry.constructor | Solution/Magma/src/Magma/Systems/MessageBus.cpp:5-6 | the registry starts empty with the counter at 1 |
| TypeRegistry.Registry.TypeNameToTypeID | Solution/Magma/src/Magma/Systems/MessageBus.cpp:19-28 | a known name returns its ID and changes nothing; a new name gets the counter's value, is recorded, and the counter advances; the ID is at least 1 and no other name has it |
| TypeRegistry.Registry.TypeIDToTypeName | Solution/Magma/src/Magma/Systems/MessageBus.cpp:8-17 | the search over the map returns the name holding the ID, or "" when none does |
| TypeRegistry.NameRoundTrip | Solution/Magma/src/Magma/Systems/MessageBus.cpp:8-28 | the name of the ID assigned to a name is that name |
| MessageBus.Message.constructor | Solution/Magma/src/Magma/Systems/MessageBus.cpp:130-131 | a slot of the zeroed buffer: type 0, count 0 |
| MessageBus.Retain | Solution/Magma/src/Magma/Systems/MessageBus.hpp:79-80 | constructing or copying a handle to a message adds 1 to its count (mod 2^64); a null handle touches nothing |
| MessageBus.Release | Solution/Magma/src/Magma/Systems/MessageBus.hpp:81 | destroying a handle subtracts 1 (mod 2^64); a null handle touches nothing |
| MessageBus.Listener.constructor | Solution/Magma/src/Magma/Systems/MessageBus.hpp:176-177 | a new listener has no subscriptions, an empty inbox and no bus |
| MessageBus.Listener.CheckDestroy | Solution/Magma/src/Magma/Systems/MessageBus.cpp:30-34 | destroying a listener is an error exactly when it still has a bus |
| MessageBus.Listener.Init | Solution/Magma/src/Magma/Systems/MessageBus.cpp:36-40 | attaches the bus and leaves the subscriptions and inbox as they were |
| MessageBus.Listener.PushMessage | Solution/Magma/src/Magma/Systems/MessageBus.cpp:121-125 | appends the message at the tail and counts the new handle |
| MessageBus.Listener.PopMessage | Solution/Magma/src/Magma/Systems/MessageBus.cpp:109-119 | removes and returns the head; on an empty inbox returns null and changes nothing |
| MessageBus.Listener.Subscribe | Solution/Magma/src/Magma/Systems/MessageBus.cpp:65-77 | type 0 is refused and changes nothing; while the set holds 0 nothing changes; otherwise t joins the set and the listener is appended to bus list t, even when already there |
| MessageBus.Listener.Unsubscribe | Solution/Magma/src/Magma/Systems/MessageBus.cpp:79-93 | type 0, or any type while subscribed to everything, is refused and changes nothing; otherwise t leaves the set and the bus erases the listener from list t |
| MessageBus.Listener.SubscribeByName | Solution/Magma/src/Magma/Systems/MessageBus.cpp:95-100 | resolves (and may register) the name, subscribes to its ID and returns that ID |
| MessageBus.Listener.UnsubscribeByName | Solution/Magma/src/Magma/Systems/MessageBus.cpp:102-107 | resolves (and may register) the name, unsubscribes from its ID and returns that ID |
| MessageBus.Listener.UnsubscribeFromAll | Solution/Magma/src/Magma/Systems/MessageBus.cpp:58-63 | the listener is erased from the list of each type it held and the set becomes empty; a detached listener with no subscriptions is accepted and nothing else changes |
| MessageBus.Listener.SubscribeToAll | Solution/Magma/src/Magma/Systems/MessageBus.cpp:49-56 | leaves every subscribed list, then the set is exactly {0} and the listener is in list 0 |
| MessageBus.Listener.Terminate | Solution/Magma/src/Magma/Systems/MessageBus.cpp:42-47 | leaves every subscribed list, leaving the old bus's messages alone; empties the set and detaches the bus; the inbox is kept; a second `Terminate`, or one before `Init`, is accepted and changes nothing |
| MessageBus.Listener.LeaveAll | Solution/Magma/src/Magma/Systems/MessageBus.cpp:60-61 | the loop over the subscriptions erases the listener from each subscribed list |
| MessageBus.WildcardIsOnlyZero | Solution/Magma/src/Magma/Systems/MessageBus.hpp:115 | after subscribing to everything, `IsSubscribedTo(t)` holds for t = 0 only |
| MessageBus.ErasedFrom | Solution/Magma/src/Magma/Systems/MessageBus.cpp:60-61 | erasing from several lists keeps the number of lists and leaves every other list unchanged |
| MessageBus.ErasedFromStep | Solution/Magma/src/Magma/Systems/MessageBus.cpp:60-61 | erasing from one more list is one more bus `Unsubscribe`, in any order |
| MessageBus.Bus.constructor | Solution/Magma/src/Magma/Systems/MessageBus.cpp:127-136 | every slot is free and zeroed; there is exactly one (wildcard) listener list and no tracked message |
| MessageBus.Bus.AllocateMessage | Solution/Magma/src/Magma/Systems/MessageBus.cpp:191-198 | returns the least free slot, or nothing when all are taken, and changes no flag |
| MessageBus.Bus.Subscribe | Solution/Magma/src/Magma/Systems/MessageBus.cpp:175-181 | grows the lists to reach t and appends the listener to list t |
| MessageBus.Bus.Unsubscribe | Solution/Magma/src/Magma/Systems/MessageBus.cpp:183-189 | the erase loop leaves list t as `EraseSkipping` describes and changes no other list |
| MessageBus.Bus.SendMessage | Solution/Magma/src/Magma/Systems/MessageBus.hpp:228-250 | an oversized payload fails before allocating; a full buffer fails; otherwise the first free slot gets the type and a count of one per listener occurrence, and each listener's inbox gains as many copies as its occurrences in all lists; a failure changes nothing; no flag or tracked list changes |
| MessageBus.Bus.SendMessageByName | Solution/Magma/src/Magma/Systems/MessageBus.hpp:252-256 | resolves (and may register) the type name, then sends under that ID |
| MessageBus.Bus.FanOut | Solution/Magma/src/Magma/Systems/MessageBus.cpp:165-173 | pushes the message once per occurrence of a listener in list 0 and then in every other list, whatever the type |
| MessageBus.Bus.FanOutLists | Solution/Magma/src/Magma/Systems/MessageBus.cpp:170-172 | the loop over the lists delivers the concatenation of the lists |
| MessageBus.Bus.FanOutList | Solution/Magma/src/Magma/Systems/MessageBus.cpp:168-169 | the loop over one list pushes once per occurrence and counts each handle |
| MessageBus.Bus.Clean | Solution/Magma/src/Magma/Systems/MessageBus.cpp:147-163 | drops exactly the tracked messages whose count is 0, zeroing their slot and clearing its flag; every other message and flag is untouched |
| MessageBus.Bus.Sweep | Solution/Magma/src/Magma/Systems/MessageBus.cpp:150-162 | the loop over the tracked list keeps the messages in use, in order, and reclaims the rest |
| MessageBus.Bus.Reclaim | Solution/Magma/src/Magma/Systems/MessageBus.cpp:156-159 | zeroes one slot and clears its flag only |
| MessageBus.KeptExactly | Solution/Magma/src/Magma/Systems/MessageBus.cpp:150-162 | after cleaning, a message in use occurs as often as before and a message with count 0 does not occur |
| MessageBus.Kept | Solution/Magma/src/Magma/Systems/MessageBus.cpp:150-162 | the tracked messages `Clean` keeps, in order: those whose count is not 0; `KeptExactly` proves they keep their multiplicity and the others vanish |
| MessageBus.Reclaimed | Solution/Magma/src/Magma/Systems/MessageBus.cpp:156-160 | the slots `Clean` frees: the slots of tracked messages whose count is 0 |
| MessageBus.FirstFreeIsLeast | Solution/Magma/src/Magma/Systems/MessageBus.cpp:193-195 | the first unflagged slot found by the scan is the allocation |
| MessageBus.FirstFreeNone | Solution/Magma/src/Magma/Systems/MessageBus.cpp:196-197 | when every slot is flagged there is no allocation |
| BusLists.Grow | Solution/Magma/src/Magma/Systems/MessageBus.cpp:178-179 | resizing keeps the existing lists and pads with empty ones |
| BusLists.Appended | Solution/Magma/src/Magma/Systems/MessageBus.cpp:178-180 | list t gains the listener at its end; every other list is unchanged or a new empty list |
| BusLists.AppendedCounts | Solution/Magma/src/Magma/Systems/MessageBus.cpp:180 | subscribing adds exactly one occurrence of that listener to list t |
| BusLists.EraseSkipping | Solution/Magma/src/Magma/Systems/MessageBus.cpp:186-188 | the erase loop's result, which is never longer than the list |
| BusLists.EraseSkippingKeepsOthers | Solution/Magma/src/Magma/Systems/MessageBus.cpp:186-188 | other listeners keep every occurrence |
| BusLists.EraseSkippingRemovesAll | Solution/Magma/src/Magma/Systems/MessageBus.cpp:186-188 | when no two occurrences of the listener are adjacent, all of them are removed |
| BusLists.DoubleSubscriptionSurvives | Solution/Magma/src/Magma/Systems/MessageBus.cpp:186-188 | from [l, l] one unsubscribe leaves [l] |
| BusLists.FirstFree | Solution/Magma/src/Magma/Systems/MessageBus.cpp:193-197 | the least unflagged index, or none when every flag is set |
| BusDepartures.SendsReuseSlotZero | Solution/Magma/src/Magma/Systems/MessageBus.hpp:245-249 | on a fresh bus two sends both succeed in slot 0; the slot stays free and nothing is tracked |
| BusDepartures.CleanMissesSentPayload | Solution/Magma/src/Magma/Systems/MessageBus.cpp:147-163 | a sent payload with count 0 survives `Clean` with its type |
| BusDepartures.DeliveryIgnoresType | Solution/Magma/src/Magma/Systems/MessageBus.cpp:165-173 | a listener subscribed only to type 1 receives a type-2 message |
| Payloads.PayloadTypes.constructor | src/Magma/Systems/MessageBus.hpp:295-299 | the payload-type registry starts empty |
| Payloads.PayloadTypes.Instance | src/Magma/Systems/MessageBus.hpp:308-327 | the entry for a payload type is built at most once; it inserts the name only when absent, keeping the first entry on a duplicate |
| Payloads.RegisterBasicPayloads | src/Magma/Systems/MessageBus.hpp:361-381 | the two registrations map "empty" and "int" to their payload types |
| Payloads.Serialize | src/Magma/Systems/MessageBus.hpp:365-378 | the empty payload writes nothing; the int payload writes its value |
| Payloads.Deserialize | src/Magma/Systems/MessageBus.hpp:366-379 | the empty payload reads nothing; the int payload reads one 64-bit integer |
| Payloads.SerializeRoundTrip | src/Magma/Systems/MessageBus.hpp:365-379 | reading what a payload wrote gives back the payload, leaving what follows |
| CoreSystem.NamesExitSnoc | src/Magma/Systems/Core/Core.cpp:7-10 | one more popped message names "exit" overall iff the earlier ones did or it does |
| CoreSystem.NamesExit | src/Magma/Systems/Core/Core.cpp:5-10 | the condition under which `Update` clears running: some drained message's type ID is registered under "exit" |
| CoreSystem.ReleaseOnce | src/Magma/Systems/Core/Core.cpp:5-11 | each popped handle is destroyed once at the end of its iteration |
| CoreSystem.Core.constructor | src/Magma/Systems/Core/Core.hpp:23 | a new core is not running and its listener is fresh |
| CoreSystem.Core.Init | src/Magma/Systems/Core/Core.cpp:14-19 | attaches the bus and sets running. The registry keeps every entry, gaining "exit" under the next ID only when absent. Unless the listener holds the wildcard, "exit"'s ID joins its set and the listener is appended to that bus list. The bus's messages and the inbox are unchanged |
| CoreSystem.Core.Terminate | src/Magma/Systems/Core/Core.cpp:21-24 | clears running, then the listener is erased from the old bus's list of every type it held and detached; the bus's messages and the inbox are unchanged |
| CoreSystem.Core.Consume | src/Magma/Systems/Core/Core.cpp:7-10 | an "exit" message clears running; any other changes nothing but its handle |
| CoreSystem.Core.Step | src/Magma/Systems/Core/Core.cpp:5-11 | one pop keeps the drain invariant and shrinks the inbox |
| CoreSystem.Core.Update | src/Magma/Systems/Core/Core.cpp:3-12 | empties the inbox; running becomes false iff some popped message's type name is "exit", and is otherwise unchanged; each handle is released once |
| Decimal.Render | src/Magma/Window/UIEvent.cpp:5 | `<<` of an integer: an optional minus sign followed by digits |
| Decimal.ReadInt | src/Magma/Window/UIEvent.cpp:38 | `>>` of an integer: skips blanks, reads a sign and digits, and clamps an out-of-range value to the bound with failure |
| Decimal.SkipSpace | src/Magma/Window/UIEvent.cpp:38 | the leading-blank skip of `>>`: a suffix of the input that does not start with a blank |
| Decimal.ReadMagnitude | src/Magma/Window/UIEvent.cpp:38 | the digits after the sign: a value within the bounds, never reading past the input |
| Decimal.RenderThenRead | src/Magma/Window/UIEvent.cpp:5-38 | reading back a written integer in range gives it back and stops at the next non-digit |
| IniText.SectionName | src/Magma/Utils/INIDocument.cpp:37 | the section name is the text after '[' up to the first ']', and has no ']' |
| IniText.SplitKey | src/Magma/Utils/INIDocument.cpp:42-46 | a key line splits at its first '=' so the key has no '=' and the value may |
| IniText.Parse | src/Magma/Utils/INIDocument.cpp:26-55 | the reading loop over the lines: skips blank, ';' and "@start" lines, stops at "@end", opens sections and sets keys, and fails on a key before any section; sections already read are never dropped |
| IniText.ParseKeyLine | src/Magma/Utils/INIDocument.cpp:40-54 | a key line sets that key in the current section, overwriting an earlier value |
| IniText.ParseHeader | src/Magma/Utils/INIDocument.cpp:35-39 | a header line opens a new empty section and makes it current |
| IniText.SerializedText | src/Magma/Utils/INIDocument.cpp:7-20 | the output is "@start", then "\n[name]\n" and one "key=value\n" per key for each section in name order, then "@end" |
| IniText.Serialize | src/Magma/Utils/INIDocument.cpp:7-20 | the written text always begins with "@start" and ends with "@end"; `DeserializeSerialized` proves it reads back |
| Text.Below | src/Magma/Utils/INIDocument.cpp:11-17 | the `std::string` `<` that orders `std::map` keys; `BelowIrreflexive`, `BelowTransitive` and `BelowTotal` prove it is a strict total order |
| Text.SortedKeys | src/Magma/Utils/INIDocument.cpp:11-17 | the order a `std::map` iterates its keys in: strictly ascending and holding exactly the keys |
| LineText.Lines | src/Magma/Utils/INIDocument.cpp:29 | the lines `std::getline` yields: none holds a newline, and a final newline yields no empty last line |
| LineText.Until | src/Magma/Utils/INIDocument.cpp:37 | `find_first_of`: the index of the first occurrence, or the length when there is none |
| IniText.SerializedLines | src/Magma/Utils/INIDocument.cpp:7-20 | for a writable document the output's lines are "@start", the section lines and "@end" |
| IniText.DeserializeSerialized | src/Magma/Utils/INIDocument.cpp:7-56 | reading what a writable document with at least one section writes gives back the same document without error |
| IniText.SerializeEmpty | src/Magma/Utils/INIDocument.cpp:9-19 | an empty document writes "@start" then "@end" |
| IniText.KeyWithoutSection | src/Magma/Utils/INIDocument.cpp:48-52 | a key line before any section stops reading with an error |
| IniText.EmptyDocumentRejected | src/Magma/Utils/INIDocument.cpp:7-56 | an empty document writes "@start@end", which reading rejects |
| IniDocument.Section.constructor | Solution/Magma/src/Magma/Utils/INIDocument.hpp:48 | a new section has no keys |
| IniDocument.Section.SetKey | Solution/Magma/src/Magma/Utils/INIDocument.hpp:26 | inserts or overwrites that key only |
| IniDocument.Section.RemoveKey | Solution/Magma/src/Magma/Utils/INIDocument.hpp:32 | erases that key only; an absent key is a no-op |
| IniDocument.Section.GetKey | Solution/Magma/src/Magma/Utils/INIDocument.hpp:39 | the key's value, or nothing for a missing key |
| IniDocument.Document.constructor | Solution/Magma/src/Magma/Utils/INIDocument.hpp:72 | a new document has no sections |
| IniDocument.Document.RemoveSection | Solution/Magma/src/Magma/Utils/INIDocument.hpp:55 | erases that section only |
| IniDocument.Document.SetSection | Solution/Magma/src/Magma/Utils/INIDocument.hpp:62 | replaces that section's keys with a copy of the given section's and leaves the others |
| IniDocument.Document.GetSection | Solution/Magma/src/Magma/Utils/INIDocument.hpp:69 | returns the named section, first inserting an empty one when absent |
| IniDocument.Document.Deserialize | src/Magma/Utils/INIDocument.cpp:22-56 | discards the sections, then the line loop leaves exactly the document and error outcome of the reading specification |
| XmlElements.Element.constructor | src/Magma/Utils/XMLDocument.cpp:272-283 | a new element has empty name, text, attributes and children and no parent |
| XmlElements.Element.GetAttribute | src/Magma/Utils/XMLDocument.hpp:30 | returns the value; a missing name is inserted with "" and "" is returned |
| XmlElements.Element.SetAttribute | src/Magma/Utils/XMLDocument.hpp:43 | inserts or overwrites that attribute only |
| XmlElements.Element.RemoveAttribute | src/Magma/Utils/XMLDocument.hpp:49 | erases that attribute only |
| XmlElements.Element.SetText | src/Magma/Utils/XMLDocument.hpp:101 | the text becomes t and nothing else changes |
| XmlElements.Element.SetName | src/Magma/Utils/XMLDocument.hpp:113 | the name becomes n and nothing else changes |
| XmlElements.Element.GetChild | src/Magma/Utils/XMLDocument.cpp:226-232 | the first child with the name, or null when no child has it |
| XmlElements.Element.GetChildren | src/Magma/Utils/XMLDocument.cpp:234-241 | all children with the name, in order |
| XmlElements.Element.RemoveChild | src/Magma/Utils/XMLDocument.cpp:243-253 | false on no children; removes the first child and returns true when it has the name; otherwise the loop never ends |
| XmlElements.Element.RemoveChildren | src/Magma/Utils/XMLDocument.cpp:255-270 | removes every child with the name, keeps the rest in order, and reports whether any was removed |
| XmlElements.Element.Unnamed | src/Magma/Utils/XMLDocument.cpp:258-267 | the loop keeps exactly the children without the name |
| XmlElements.Element.AddChild | src/Magma/Utils/XMLDocument.cpp:272-283 | appends and returns a new element with the name, empty text, attributes and children, and this element as parent |
| XmlElements.Select | src/Magma/Utils/XMLDocument.cpp:234-241 | the children with (or without) the name, drawn from the list |
| XmlElements.SelectSplits | src/Magma/Utils/XMLDocument.cpp:255-270 | every child is selected by its own name's side |
| XmlElements.SelectSizes | src/Magma/Utils/XMLDocument.cpp:255-270 | the children with and without the name together number all children |
| XmlElements.XmlDocument.constructor | src/Magma/Utils/XMLDocument.cpp:17-22 | a new document has a single root named "root" with no children |
| XmlCodec.Tabs | src/Magma/Utils/XMLDocument.cpp:58-59 | the indentation is n tab characters |
| XmlCodec.Indented | src/Magma/Utils/XMLDocument.cpp:40-53 | what `formatMultiline` returns: tabs before the first line and after each newline, without a final newline |
| XmlCodec.Serialize | src/Magma/Utils/XMLDocument.cpp:55-100 | what `recursiveSerialize` writes for an element: it always ends with the element's end tag; `DeserializeSerialized` proves it reads back |
| XmlCodec.ChildrenText | src/Magma/Utils/XMLDocument.cpp:87-91 | each child serialized one level deeper and followed by a newline: empty exactly when there are no children, otherwise ending in a newline |
| XmlCodec.FormatMultiline | src/Magma/Utils/XMLDocument.cpp:40-53 | the loop indents the first line and each line after a newline, dropping a final newline |
| XmlCodec.GetLine | src/Magma/Utils/XMLDocument.cpp:157-218 | `getline` up to a delimiter: the part before it has none, and the rest follows it |
| XmlCodec.AddChar | src/Magma/Utils/XMLDocument.cpp:125-147 | a text character is either skipped (indentation, leading blank) or appended |
| XmlCodec.Attach | src/Magma/Utils/XMLDocument.cpp:157-183 | closing an element appends it to its parent's children and changes no outer element |
| XmlCodec.Trimmed | src/Magma/Utils/XMLDocument.cpp:163-176 | closing strips one trailing newline from the text and nothing else |
| XmlCodec.Step | src/Magma/Utils/XMLDocument.cpp:106-224 | one pass of the reading loop either stops with a result or continues on a shorter suffix |
| XmlCodec.Parse | src/Magma/Utils/XMLDocument.cpp:117-223 | the reading loop run to its end: the root with the unread rest, an error, or no end when the input runs out first |
| XmlCodec.OpenTag | src/Magma/Utils/XMLDocument.cpp:186-214 | the element a start tag opens: the name up to the first blank, attributes from the blank-separated fields, and empty text |
| XmlCodec.Fields | src/Magma/Utils/XMLDocument.cpp:206 | the attribute fields `getline(..., ' ')` yields, none of which holds a blank |
| XmlCodec.Ignore | src/Magma/Utils/XMLDocument.cpp:211 | `ignore(64, '"')`: skips at most 64 characters, through the first quote, and never lengthens the input |
| XmlCodec.Attribute | src/Magma/Utils/XMLDocument.cpp:208-212 | one field's name up to '=' and value between the next two quotes; `AttributeOfField` proves it inverts the written field |
| XmlCodec.SetAttributes | src/Magma/Utils/XMLDocument.cpp:206-214 | the fields applied by `SetAttribute` in order, so a later duplicate wins |
| XmlCodec.CloseMismatch | src/Magma/Utils/XMLDocument.cpp:163-170 | an end tag naming another element stops with an error |
| XmlCodec.CloseUnopened | src/Magma/Utils/XMLDocument.cpp:157-162 | an end tag with nothing open stops with an error |
| XmlCodec.Collapse | src/Magma/Utils/XMLDocument.cpp:163-172 | the tree the document holds when reading stops with elements still open: each open element hung under its parent |
| XmlCodec.Deserialize | src/Magma/Utils/XMLDocument.cpp:106-224 | the character loop gives exactly the reading specification's result, which never stops on input that ends before the root closes |
| XmlCodec.DeserializeSerialized | src/Magma/Utils/XMLDocument.cpp:30-224 | reading what a writable element tree writes gives back the same tree and leaves what follows its end tag |
| Globals.Serialize | Solution/Magma/src/Magma/Utils/Globals.cpp:6-9 | the value followed by the two characters `\#` |
| Globals.Scan | Solution/Magma/src/Magma/Utils/Globals.cpp:11-24 | the value read is a prefix of the input |
| Globals.GlobalVar.constructor | Solution/Magma/src/Magma/Utils/Globals.cpp:13 | a new variable holds "" |
| Globals.GlobalVar.Deserialize | Solution/Magma/src/Magma/Utils/Globals.cpp:11-24 | resets the value, then the loop reads up to a `\` followed by `#`, consuming the `\` and leaving the `#` |
| Globals.ScanEnds | Solution/Magma/src/Magma/Utils/Globals.cpp:19-20 | at `\#` reading stops with the `#` unread |
| Globals.ScanAppends | Solution/Magma/src/Magma/Utils/Globals.cpp:21-22 | any other character is appended |
| Globals.ScanSerialized | Solution/Magma/src/Magma/Utils/Globals.cpp:6-24 | a value without `\#` reads back unchanged, with `#` and what follows left unread |
| Globals.ValueTruncated | Solution/Magma/src/Magma/Utils/Globals.cpp:19-20 | a value containing `\#` reads back as the text before its first occurrence |
| Globals.Globals.constructor | Solution/Magma/src/Magma/Utils/Globals.cpp:3 | there are no variables at first |
| Globals.Globals.Get | Solution/Magma/src/Magma/Utils/Globals.cpp:26-30 | returns the existing variable, or inserts and returns an empty one |
| UIEvents.Serialize | src/Magma/Window/UIEvent.cpp:3-34 | the type's integer comes first; the kinds with fields add a space and their fields; the others write only the type |
| UIEvents.FieldText | src/Magma/Window/UIEvent.cpp:6-33 | the fields written after the type for each kind that has them, each preceded by a blank; nothing for the others |
| UIEvents.UIEvent.constructor | src/Magma/Window/UIEvent.cpp:3-34 | an event of a kind with its fields |
| UIEvents.UIEvent.Deserialize | src/Magma/Window/UIEvent.cpp:36-70 | reads the type only and leaves every field as it was |
| UIEvents.TypeRoundTrip | src/Magma/Window/UIEvent.cpp:3-38 | reading the type from a serialized event gives that type and leaves the field text |
| UIEvents.ReadBack | src/Magma/Window/UIEvent.cpp:3-70 | serializing then deserializing into an event keeps only the type; the fields stay what they were |
| Consoles.Encode | Solution/Magma/src/Magma/Debug/WindowsConsole.cpp:82-105 | "print ", "error " or "warng " followed by the text; "clear"; "close" |
| Consoles.FramedSnoc | Solution/Magma/src/Magma/Debug/WindowsConsole.cpp:115-119 | each command sent adds its bytes and one NUL to the pipe |
| Consoles.Notified | Solution/Magma/src/Magma/Debug/WindowsConsole.cpp:149-152 | every registered callback receives the same text and none is added or removed |
| Consoles.CallbackTable.constructor | Solution/Magma/src/Magma/Debug/Console.hpp:24-28 | no callbacks, with the next ID at its initial value |
| Consoles.CallbackTable.Add | Solution/Magma/src/Magma/Debug/Console.hpp:24-28 | stores the callback under the next ID, advances it and returns the ID, which was unused |
| Consoles.CallbackTable.Remove | Solution/Magma/src/Magma/Debug/Console.hpp:30-33 | erases only that entry; an unknown ID is a no-op |
| Consoles.CallbackTable.Notify | Solution/Magma/src/Magma/Debug/WindowsConsole.cpp:149-152 | the loop gives every callback the text |
| Consoles.Delivered | Solution/Magma/src/Magma/Debug/WindowsConsole.cpp:141-148 | the text given to callbacks, which holds no NUL |
| Consoles.DeliveredEndsLine | Solution/Magma/src/Magma/Debug/WindowsConsole.cpp:143-148 | the text always ends in '\n', which is added only when the bytes read did not end in one |
| Consoles.DeliveredStopsAtNul | Solution/Magma/src/Magma/Debug/WindowsConsole.cpp:151 | the text stops at the first NUL read |
| Consoles.HeardKeys | Solution/Magma/src/Magma/Debug/WindowsConsole.cpp:124-155 | reading never adds or removes callbacks |
| Consoles.EndLine | Solution/Magma/src/Magma/Debug/WindowsConsole.cpp:143-148 | the bytes read, ending in '\n': unchanged when they already do, else with one added |
| Consoles.Heard | Solution/Magma/src/Magma/Debug/WindowsConsole.cpp:124-155 | the callback table after the reads, up to the first failed one; `HeardKeys` and `HeardTexts` prove what it holds |
| Consoles.HeardTexts | Solution/Magma/src/Magma/Debug/WindowsConsole.cpp:124-155 | every callback hears the same texts in order; a zero-byte read delivers nothing |
| Consoles.WindowsConsole.constructor | Solution/Magma/src/Magma/Debug/WindowsConsole.cpp:62 | a console over an open or invalid pipe with nothing written |
| Consoles.WindowsConsole.Send | Solution/Magma/src/Magma/Debug/WindowsConsole.cpp:107-122 | an invalid pipe writes nothing; otherwise the command and one NUL are written, and a write failure throws |
| Consoles.WindowsConsole.Issue | Solution/Magma/src/Magma/Debug/WindowsConsole.cpp:107-122 | sends a command's encoding |
| Consoles.WindowsConsole.DPrint | Solution/Magma/src/Magma/Debug/WindowsConsole.cpp:82-85 | sends "print " + text |
| Consoles.WindowsConsole.DPrintLn | Solution/Magma/src/Magma/Debug/WindowsConsole.cpp:87-90 | sends "print " + text + "\n\r" |
| Consoles.WindowsConsole.DError | Solution/Magma/src/Magma/Debug/WindowsConsole.cpp:92-95 | sends "error " + text |
| Consoles.WindowsConsole.DWarning | Solution/Magma/src/Magma/Debug/WindowsConsole.cpp:97-100 | sends "warng " + text |
| Consoles.WindowsConsole.DClear | Solution/Magma/src/Magma/Debug/WindowsConsole.cpp:102-105 | sends "clear" |
| Consoles.WindowsConsole.Close | Solution/Magma/src/Magma/Debug/WindowsConsole.cpp:65-68 | destruction first sends "close" |
| Consoles.WindowsConsole.Terminate | Solution/Magma/src/Magma/Debug/WindowsConsole.cpp:141-148 | the in-place termination of the read buffer yields the delivered text |
| Consoles.WindowsConsole.InputThread | Solution/Magma/src/Magma/Debug/WindowsConsole.cpp:124-155 | the read loop leaves every callback having heard the texts of the reads |
| Consoles.Console.constructor | Solution/Magma/src/Magma/Debug/Console.hpp:21 | no console is active at first |
| Consoles.Console.InitWindows | Solution/Magma/src/Magma/Debug/Console.hpp:21 | destroys the active console (which sends "close") and installs a new Windows console |
| Consoles.Console.InitNull | Solution/Magma/src/Magma/Debug/Console.hpp:21 | destroys the active console (which sends "close") and installs a console that writes nothing |
| Consoles.Console.Forward | Solution/Magma/src/Magma/Debug/Console.hpp:35-40 | print, error, warning and clear go unchanged to the active console |
| ConsoleForm.Replaced | Solution/Console/Form1.cs:75 | each "\n" becomes "\r\n": one character longer per newline, and unchanged without newlines |
| ConsoleForm.Dispatch | Solution/Console/Form1.cs:143-155 | "close" closes, "clear" clears, the three prefixes route the text from index 6, exactly "print", "error" or "warng" throws, anything else is an unknown-message error |
| ConsoleForm.Receive | Solution/Console/Form1.cs:137-156 | the received data handled command by command: empty commands skipped, a last command without NUL never finished; `ReceiveFramed` proves it shows exactly the sent commands |
| ConsoleForm.Continue | Solution/Console/Form1.cs:142-156 | one command's effect (close, clear, append or throw), then the rest of the data |
| ConsoleForm.ReceiveAt | Solution/Console/Form1.cs:137-142 | a NUL-terminated segment is dispatched, and an empty one is skipped |
| ConsoleForm.Advance | Solution/Console/Form1.cs:137-156 | after a segment that appends or clears, reading goes on from the next one |
| ConsoleForm.HangsAt | Solution/Console/Form1.cs:139-140 | a segment without a terminating NUL never finishes |
| ConsoleForm.Form.constructor | Solution/Console/Form1.cs:100-102 | an open form with no output, input or sent text |
| ConsoleForm.Form.Print | Solution/Console/Form1.cs:74-76 | appends the text, with newlines replaced, in the default colour |
| ConsoleForm.Form.Error | Solution/Console/Form1.cs:78-80 | appends the text, with newlines replaced, in the error colour |
| ConsoleForm.Form.Warning | Solution/Console/Form1.cs:82-84 | appends the text, with newlines replaced, in the warning colour |
| ConsoleForm.Form.Clear | Solution/Console/Form1.cs:100-102 | empties the output |
| ConsoleForm.Form.Execute | Solution/Console/Form1.cs:86-93 | clears the input; blank input does nothing more; otherwise echoes "> " + text + "\n" and sends the text unframed |
| ConsoleForm.Blank | Solution/Console/Form1.cs:89 | the `IsNullOrWhiteSpace` test of the input, over ASCII whitespace |
| ConsoleForm.Form.Handle | Solution/Console/Form1.cs:142-156 | carries out one segment's action on the output and the open flag |
| ConsoleForm.Form.Segment | Solution/Console/Form1.cs:138-141 | collects the characters up to the next NUL |
| ConsoleForm.Form.ReadCallback | Solution/Console/Form1.cs:120-161 | the segment loop leaves exactly the output and ending of the receiving specification, and closes the form on "close" |
| ConsoleForm.EncodeFree | Solution/Magma/src/Magma/Debug/WindowsConsole.cpp:84-104 | a command whose text has no NUL encodes without NUL |
| ConsoleForm.DispatchEncoded | Solution/Console/Form1.cs:143-154 | the form's dispatch of each command's encoding is the matching action |
| ConsoleForm.ReceiveOne | Solution/Console/Form1.cs:137-156 | decoding what `DPrint`, `DError`, `DWarning`, `DClear` or close sends performs the matching form action |
| ConsoleForm.ReceiveFramed | Solution/Console/Form1.cs:137-157 | decoding a stream of sent commands displays exactly those commands in order |
| ConsoleForm.UnterminatedHangs | Solution/Console/Form1.cs:139-140 | commands followed by an unterminated segment never finish |
| Registrable.Register | Solution/Magma/src/Magma/Utils/RegistrableRegistry.hpp:45-57 | inserts the name only when absent, keeping the first entry and every other entry |
| Registrable.Create | Solution/Magma/src/Magma/Utils/Registrable.hpp:31-41 | nothing for an unregistered name, otherwise what the registered factory makes |
| Registrable.CreateAfterRegister | Solution/Magma/src/Magma/Utils/RegistrableRegistry.hpp:45-57 | once a new name is registered, creating it yields its type |
| Registrable.RegisterKeepsEarlier | Solution/Magma/src/Magma/Utils/RegistrableRegistry.hpp:45-57 | registering never changes what an existing name creates |
| Registrable.Registries.constructor | Solution/Magma/src/Magma/Utils/RegistrableRegistry.hpp:24-29 | one empty registry per base type |
| Registrable.Registries.Instance | Solution/Magma/src/Magma/Utils/RegistrableRegistry.hpp:38-42 | the entry for a (base, type) pair is built at most once; later calls, even with another name, register nothing |
| Registrable.Registries.CreateObject | Solution/Magma/src/Magma/Utils/Registrable.hpp:31-41 | creates from the base's registry without changing it |
| Resources.Folder | Solution/Magma/src/Magma/Systems/Resources/ResourcesManager.cpp:56-62 | the path's prefix through its last backslash, or "" when there is none |
| Resources.FolderOfFile | Solution/Magma/src/Magma/Systems/Resources/ResourcesManager.cpp:56-62 | the folder of `dir\file` is `dir\` |
| Resources.Lookup | Solution/Magma/src/Magma/Utils/INIDocument.hpp:39 | a key of a section, or nothing when either is missing |
| Resources.ResourceInfo.GetName | Solution/Magma/src/Magma/Systems/Resources/Resource.hpp:36 | the General/Name value, or nothing when missing |
| Resources.ResourceInfo.GetType | Solution/Magma/src/Magma/Systems/Resources/Resource.hpp:42 | the General/Type value, or nothing when missing |
| Resources.ResourceInfo.GetPath | Solution/Magma/src/Magma/Systems/Resources/Resource.hpp:48 | the folder followed by the General/Path value |
| Resources.ResourceInfo.GetInfo | Solution/Magma/src/Magma/Systems/Resources/Resource.hpp:55 | key n of the Info section, or nothing when missing |
| Resources.PathBesideInfoFile | Solution/Magma/src/Magma/Systems/Resources/Resource.hpp:48 | a resource's path is taken relative to its info file's folder |
| Resources.Resource.constructor | Solution/Magma/src/Magma/Utils/RegistrableRegistry.hpp:31-32 | a new resource of a registered type, not yet loaded |
| Resources.Resource.Load | Solution/Magma/src/Magma/Systems/Resources/ResourcesManager.cpp:38 | the resource is loaded from its info |
| Resources.As | Solution/Magma/src/Magma/Systems/Resources/Resource.hpp:78-84 | the `dynamic_cast` succeeds, returning the same resource, exactly when the target is the resource's own type, one of its bases, or `Resource`; otherwise it fails |
| Resources.CastToBaseOfCast | Solution/Magma/src/Magma/Systems/Resources/Resource.hpp:78-84 | in a transitive hierarchy rooted at `Resource`, a cast that succeeded to a type also succeeds to every base of that type |
| Resources.CastOfCast | Solution/Magma/src/Magma/Systems/Resources/Resource.hpp:78-84 | casting a cast's result behaves as casting the original resource, because the dynamic type is kept |
| Resources.ResourcesManager.constructor | Solution/Magma/src/Magma/Systems/Resources/ResourcesManager.hpp:30-35 | no infos and nothing loaded |
| Resources.ResourcesManager.LoadSingleInfo | Solution/Magma/src/Magma/Systems/Resources/ResourcesManager.cpp:46-83 | an unopenable file changes nothing; otherwise the info keyed by its name is added with its folder, and a duplicate name keeps the first entry |
| Resources.ResourcesManager.Get | Solution/Magma/src/Magma/Systems/Resources/ResourcesManager.cpp:19-44 | an unknown name fails; a live cached resource is returned without reloading; otherwise a missing or unregistered type fails, else a new resource is created, loaded, cached and returned |
| Scene.SceneNode.constructor | src/Magma/Systems/Scene/SceneNode.cpp:3-6 | no parent, children or components |
| Scene.SceneNode.AddChild | src/Magma/Systems/Scene/SceneNode.cpp:49-54 | the child's parent is this node and it is among the children |
| Scene.SceneNode.RemoveChild | src/Magma/Systems/Scene/SceneNode.cpp:56-61 | the child's parent is null and it is no longer a child |
| Scene.SceneNode.SetParent | src/Magma/Systems/Scene/SceneNode.cpp:41-47 | leaves the old parent, if any, then joins p; the parent is p |
| Scene.SceneNode.Attach | src/Magma/Systems/Scene/SceneNode.cpp:69-75 | the component is attached here, points back to this node, and has left its previous node |
| Scene.SceneNode.Dettach | src/Magma/Systems/Scene/SceneNode.cpp:77-85 | removes and detaches the component only when it is attached to this node |
| Scene.Component.constructor | src/Magma/Systems/Scene/SceneNode.cpp:140-143 | no node |
| Scene.Component.Attach | src/Magma/Systems/Scene/SceneNode.cpp:150-157 | leaves any previous node, then points to n and is among n's components |
| Scene.Component.Dettach | src/Magma/Systems/Scene/SceneNode.cpp:159-165 | leaves its node's components and points to no node |
| Scene.SetParentKeepsTree | src/Magma/Systems/Scene/SceneNode.cpp:41-61 | re-parenting keeps every child's parent link and every parent's child set consistent |
| Scene.AttachKeepsLinks | src/Magma/Systems/Scene/SceneNode.cpp:69-75 | attaching keeps node and component links mutually consistent |
| Scene.DettachKeepsLinks | src/Magma/Systems/Scene/SceneNode.cpp:159-165 | detaching keeps node and component links mutually consistent |

## Left out

- Locking: every mutex, recursive mutex and atomic. Each operation is sequential and atomic.
- Raw memory: placement new, `malloc`/`memset` and pointer arithmetic. Slots are indexed message records.
- MessageBus.Bus.SendMessage: payload bytes and constructor arguments are not modelled; only the payload's size is.
- The construction at a null address after a failed allocation is not modelled, because `MAGMA_ERROR` aborts first.
- Handle truthiness and equality are null tests and reference equality on `Message?`; they need no member of their own.
- The later revision's stream send `SendMessage(type, typeName, istream)` and `Message::Create` are not modelled. Their definitions are not in any file shown.
- Real and vector payloads are not modelled: they carry floating point.
- The `StringMessage` payload (registered as "string") is not modelled: its `Serialize` and `Deserialize` are not defined in any file shown.
- The Windows build's `MAGMA_ERROR` is not modelled: it shows a message box and continues when the user declines to abort (src/Magma/Utils/Utils.cpp:7-13).
- TypeRegistry.Registry.TypeNameToTypeID: the `size_t` counter `s_nextTypeID` is unbounded here. Only after 2^64 - 1 registrations would the source's counter wrap, hand out 0 and then reuse IDs.
- The mouse-wheel `delta` of `UIEvent` is a float and is carried as opaque text.
- `Registrable::Destroy` only deallocates; there is no memory model.
- Resources.As: the class hierarchy is a parameter (`bases`), since C++ fixes it at compile time. A private or ambiguous base, to which `dynamic_cast` also fails, is not modelled.
- `ResourceInfo::GetResource`/`SetResource` (the weak pointer) are the manager's cache of loaded resources plus `Get`'s `live` set of resources still alive.
- The `LoadInfo` directory walk and all file I/O are left out. A file's contents are a parameter, and `None` stands for a file that cannot be opened.
- Scene.Component.Dettach: requires a node, because the source dereferences the null node (as the destructor of an unattached component does).
- `SceneNode` serialization and transforms are left out: they use floats and the component stream.
- ConsoleForm.Form.Execute, ConsoleForm.Blank: blank input is ASCII whitespace only; `String.IsNullOrWhiteSpace` also accepts Unicode whitespace.
- The console form's UTF-8 decoding of the pipe bytes is not modelled: each byte is one character.
- Process and pipe set-up and the WinForms widgets are left out. Pipe reads are a parameter (`chunks`), and the success of each write is a parameter (`writeOk`).
- Consoles.CallbackTable.constructor: the initial value of `s_nextCallbackID` is not defined in any file shown; it is a parameter.
- Consoles.Console.Forward: with no active console the source dereferences a null pointer; the model does nothing.
- `Console::Read`, `Console::Terminate` and the null console's output are left out, because Console.cpp is stdout/stdin I/O.
- The `IsSubscribedTo(name)` overload is left out. It is membership of the name's ID.
- `XMLDocument` and `Element` destructors are left out: no memory model.
- The XML codec (`XmlCodec.Serialize`, `XmlCodec.Deserialize`) is specified over a `Node` value copy of the element tree. No abstraction function ties the `Element` objects that `XMLDocument` holds in `m_root` to that value.
- The XML element getters `GetText`, `GetName`, `GetParent` and `GetChildren()` are field reads of the class.
- The terminal, windowing, input, rendering and example programs are outside the core.
