# vplc telemetry core in Dafny

This project models the sequential core of a small telemetry toy. `PseudoController` (plc.py) holds simulated
parameters. It gives them sequential addresses and broadcasts each changed reading to every connected
client as a JSON-shaped text message. `Receiver` (man.py) reads that stream, cuts each chunk into frames with
the regular expression `{.*?}`, parses the frames, and queues every record on each registered storage.

The model is functional: immutable datatypes and pure step functions. Sockets, the selector, threads, the
clock and the random generator are replaced by parameters of the step functions.

| file | module | models |
|---|---|---|
| wrappers.dfy | `Wrappers` | `Option` (a parse that raised, a search that found nothing) |
| text.dfy | `Text` | `str(int)`, ASCII `str.lower()`, concatenation of messages |
| wire.dfy | `Wire` | the message shape of `get_message`; `json.loads` restricted to that shape |
| framing.dfy | `Framing` | `re.findall('{.*?}', chunk)` as an index scanner plus an independent characterisation |
| parameters.dfy | `Parameters` | parameter kinds and values, `ParameterFabric`, `get_message` |
| server.dfy | `Server` | the client registry (`__queues`), per-connection `outb`, accept / read / write events, `stop_socket` |
| controller.dfy | `Controller` | `add_parameter`, and the broadcast step of `run_updating` |
| receiver.dfy | `Receiver` | the `Receiver.start` read loop: per-chunk framing, parse-or-skip, fan-out, end-of-stream stop |

Where the code behaves differently from what a reader might expect, the model follows the code:

- **No leftover buffer.** A reassembling decoder would keep the text after the last frame for the next read,
  so that a record split across two reads is put back together. The code frames every `recv` chunk on its own
  and drops the rest (man.py:39-41). `Receiver.SplitMessageLost` proves that a message cut anywhere between
  two reads is never queued.
- **Received data is echoed.** Client input could be ignored. Instead the code appends it to that client's
  output buffer (plc.py:246-247), and `Server.OnReadable` does the same.
- **The write step always dequeues.** A writer could wait until the buffer is empty before taking the next
  message. The code takes one message on every writable event and appends it to the buffer (plc.py:254-257),
  as `Server.OnWritable` does. Order is still preserved.
- **Accept order.** The code registers the socket with the selector before it creates the client's queue
  (plc.py:233-234). The model does both in one step.
- **End of stream.** An empty read stops every storage and breaks out of the loop (man.py:49-53). The code
  leaves `__run` set; the model's `running` flag means "the loop still reads", so it is cleared there.
- **Stopping the receiver.** `stop` clears `__run` and shuts the socket down (man.py:55-62). When the loop is
  blocked in `recv`, the shutdown wakes it with an empty read, so the end-of-stream branch then stops every
  storage. `Receiver.Stop` takes all of this as one step.

## Model

| member | source | states |
|---|---|---|
| Text.NatTextRoundTrip | plc.py:113 | the decimal text of a counter reads back as that counter, so different counters give different name suffixes |
| Text.IntText | plc.py:39 | `str(n)` is non-empty, starts with `-` exactly for negative n, and otherwise consists of decimal digits |
| Text.IntTextInjective | plc.py:39 | different addresses or timestamps render as different texts |
| Text.Lower | plc.py:40 | lower-casing keeps the length and every non-letter, and turns every capital into its own small letter (`A` to `a`, ..., `Z` to `z`), leaving no capital |
| Wire.Render | plc.py:39-41 | a rendered message starts with `{` and ends with `}` |
| Wire.ParseFlat | man.py:43 | a successful parse returns plain fields whose rendering is exactly the parsed frame |
| Wire.ParseRender | man.py:43 | parsing a rendered reading with plain fields returns that reading |
| Wire.ParseFlatExact | man.py:42-45 | the parse succeeds with x exactly when the frame is the rendering of x and x's fields are plain |
| Wire.RenderIsFrame | plc.py:39-41 | when no field holds a `}` or a newline, the rendered message is one regex match from its first to its last character |
| Wire.FramesOfRenders | man.py:41 | framing back-to-back renderings whose fields hold no `}` and no newline returns exactly those messages, in order |
| Wire.RenderOpensOnce | plc.py:39-41 | when no field holds a `{`, the message's only `{` is its first character |
| Wire.RenderClosesOnce | plc.py:39-41 | when no field holds a `}`, the message's only `}` is its last character |
| Wire.ParseFramesOfRenders | man.py:41-43 | framing back-to-back renderings returns exactly those messages, and each parses back to its reading |
| Framing.StopFrom | man.py:41 | finds the first `}` or newline at or after a position, or reports that none follows |
| Framing.MatchAt | man.py:41 | reports the match of `{.*?}` starting at a position when there is one; that match is the only one there; None means no match starts there |
| Framing.SpansFindAll | man.py:41 | the scanner's spans are matches in increasing position order, and no match starts in any gap before, between or after them |
| Framing.FindAllUnique | man.py:41 | any span list with that leftmost, non-overlapping property is exactly the scanner's result |
| Framing.SpansShift | man.py:41 | scanning text placed after a prefix finds the same matches, moved right by the prefix's length |
| Framing.Frames | man.py:41 | every reported frame is a `{`, then characters other than `}` and newline, then `}` |
| Framing.FramesCons | man.py:41 | a frame at the head of a chunk is reported first, and framing carries on with the text after it |
| Framing.FramesOfFrame | man.py:41 | a chunk that is a single frame yields exactly that frame |
| Framing.FramesOfFlatten | man.py:41 | framing a concatenation of frames returns those frames in order |
| Framing.FramesNeedBraces | man.py:41 | a chunk yields a frame only if it contains both a `{` and a `}` |
| Framing.SplitFrameVanishes | man.py:39-41 | for a frame whose only `{` is its first character, neither piece of a cut at any inner position yields a frame |
| Framing.OpenBraceInsideFrame | man.py:41 | an inner `{` does not start a new frame: `{{}` is one frame |
| Framing.NewlineBreaksFrame | man.py:41 | a `{` and a `}` separated by a newline form no frame |
| Parameters.GetMessage | plc.py:34-43 | the message starts with `{` and ends with `}` |
| Parameters.ValueText | plc.py:59-61 | `str(value)`: an integer reports `float(n)`, so its text is a sign only for negatives, digits, then `.0`; a float (plc.py:77-79) is its own text; a boolean (plc.py:95-97) is `True` exactly when it is true, else `False` |
| Parameters.ValueTextInjective | plc.py:59-97 | two values of one kind with the same `str()` text are equal: the text tells a changed value apart |
| Parameters.MessageRoundTrip | plc.py:34-43 | when the value text is safe, the message frames as itself and parses back to (address, lower-cased value text, timestamp) |
| Parameters.ReadingFramable | plc.py:39-41 | address and timestamp digits, and integer and boolean value texts, are always safe to frame and parse |
| Parameters.BooleanText | plc.py:40 | booleans go on the wire as `true` and `false` |
| Parameters.IntegerText | plc.py:59-61 | an integer parameter goes on the wire as `str(float(n))`, i.e. its digits followed by `.0` |
| Parameters.Create | plc.py:111-130 | the new parameter is named after its kind and that kind's counter; only that counter goes up, by one |
| Parameters.CreatedNamesDistinct | plc.py:105-130 | two parameters created from different kinds or different counter values never share a name |
| Server.Accept | plc.py:229-234 | the new client gets an empty queue and an empty buffer; every other registry entry is unchanged |
| Server.Broadcast | plc.py:194-195 | every registered queue gets the message appended at its tail, and nothing else changes |
| Server.BroadcastPending | plc.py:194-195 | after a broadcast each client is owed exactly what it was owed before, followed by the message |
| Server.OnReadable | plc.py:244-251 | a non-empty read is appended to that client's buffer; an empty read removes exactly that client's queue and registration |
| Server.OnWritable | plc.py:253-261 | at most one message is dequeued (none from an empty queue); sent bytes, then the new buffer, then the remaining queue equal the old buffer then the old queue; other clients are untouched |
| Server.WritableConsistent | plc.py:253-261 | a write event keeps every registered connection paired with a queue |
| Server.Serve | plc.py:241-272 | a teardown sends nothing and leaves no entry; otherwise sent bytes plus what is still owed equal the old buffer, then the echoed data, then the old queue |
| Server.StartSocket | plc.py:212-213 | starting sets the run flag and the selector and leaves the registry alone |
| Server.StopSocket | plc.py:285-293 | a no-op unless the server runs with a selector, and then only the run flag is cleared |
| Server.StopSocketIdempotent | plc.py:290-293 | stopping twice equals stopping once |
| Server.StopSocketStops | plc.py:290-293 | when the run flag implies a selector, as `start_socket` sets them, a stop always clears the flag |
| Controller.AddParameter | plc.py:164-171 | the parameter is appended with the counter as its address, the counter grows by one, and sequential addressing is preserved |
| Controller.AddAllSequential | plc.py:156-171 | after adding parameters in order, the k-th added one holds address `k + 1`, with everything else kept |
| Controller.AddressesFromOne | plc.py:156-171 | from a new controller, successive addresses are 1, 2, 3, ... and pairwise distinct |
| Controller.Update | plc.py:187-195 | only the chosen parameter may change; if its value changed, every client queue gets exactly one copy of its message, otherwise no queue changes |
| Controller.Sweep | plc.py:186-195 | after a pass, every parameter whose coin came up holds its draw and every other parameter is unchanged; names, addresses, kinds, the address counter and the set of clients are kept |
| Controller.SweepBroadcasts | plc.py:186-195 | one pass appends to every client queue exactly the messages of the changed parameters, once each, in parameter order |
| Receiver.AddStorage | man.py:64-69 | the new storage comes after every earlier one, and those keep their places |
| Receiver.QueueData | man.py:124-125 | `queue_data` puts the record at the tail of the storage's queue, keeps everything before it, and leaves the listening flag alone (the Redis storage, man.py:177-178, is the same) |
| Receiver.Start | man.py:29-32 | the loop runs and every storage starts listening |
| Receiver.FanOut | man.py:47-48 | every storage gets the record appended to its queue exactly once |
| Receiver.Rejected | man.py:42-45 | every reported frame is one of the chunk's frames that failed to parse |
| Receiver.RejectedComplete | man.py:42-45 | every frame that fails to parse is reported |
| Receiver.RejectedConcat | man.py:41-45 | the reports for two runs of frames are the first run's reports followed by the second's, so reports keep frame order |
| Receiver.FrameParsedOrRejected | man.py:42-48 | frame by frame: frame k contributes, between what the frames before and after it contribute, either its record (when it parses) or itself as a report (when it does not), never both and never neither |
| Receiver.ParsedOrRejected | man.py:42-48 | the records and the reports together number exactly the frames |
| Receiver.AllParsed | man.py:42-48 | frames that all parse yield exactly their records, in order, and nothing is reported |
| Receiver.Dispatch | man.py:41-48 | each storage receives exactly the parsed records, in frame order, once each; failures in between are reported and skipped |
| Receiver.OnRecv | man.py:38-53 | a non-empty chunk queues its own frames' records on every storage; an empty read stops every storage, queues nothing and ends the loop |
| Receiver.Stop | man.py:49-62 | the loop stops reading and every storage stops listening with its queue untouched, as the empty read the shutdown provokes does |
| Receiver.StopIsEndOfStream | man.py:49-62 | stopping a running receiver leaves exactly what an empty read leaves |
| Receiver.TwoChunks | man.py:38-48 | two reads queue the first chunk's records, then the second's: chunks are framed separately |
| Receiver.FramelessChunk | man.py:39-48 | a non-empty read without a whole frame queues nothing, reports nothing, and the loop goes on |
| Receiver.ReceiveRendered | man.py:39-48 | a chunk of back-to-back messages for framable readings queues exactly those readings on every storage, in order, with no errors |
| Receiver.MalformedFrameSkipped | man.py:41-48 | a frame that is not JSON (`{x}`) before a good message is reported, and the good reading is still queued |
| Receiver.SplitMessageLost | man.py:39-41 | a message split across two reads queues nothing, while the same message in one read is queued |

## Left out

- Sockets, `selectors`, `select` timeouts, `bind`/`listen`/`connect`, and the drain loop after the server stops
  (plc.py:263-283) are I/O plumbing. Each selector event is a step function, and the caller supplies the event.
- An `OSError` raised by `getpeername` or `send` on one connection is swallowed (plc.py:269-272). A failed
  send leaves the buffer as it was, which equals `sent = 0` in `Server.OnWritable`. A write after a teardown in
  the same event is modelled in `Server.Serve`.
- Threads, the `thread` decorator, the `updating` flag with its guard, `stop_updating`, and `time.sleep`
  (plc.py:133-141, 174-186, 197-204) are concurrency and timing. So is the dictionary being read by the update
  thread while the event loop changes it.
- `random` and `time.time()` become inputs: one `Controller.Draw` per parameter holds the coin, the drawn value and
  the clock reading. `Parameters.Drawable` states the range each `randomize_value` draws from.
- Floating point is not modelled. A float's value is the text `str()` gives it, and two floats are compared by
  that text. An integer parameter's `str(float(n))` is its digits followed by `.0`, which holds for the drawn
  range 0..100.
- UTF-8 encoding and decoding (plc.py:43, man.py:41) are left out: characters stand for bytes.
- `json.loads` is modelled by `Wire.ParseFlat`, which accepts only the flat shape the encoder emits, with fields
  of plain JSON string characters. JSON documents that `json.loads` would also accept (whitespace, escapes,
  other keys) are rejected by the model. In particular the code queues `{}`, and any other JSON object a frame
  holds, where the model reports the frame. The receiver is generic over its parser, so the fan-out facts hold
  for any parser.
- `str.lower()` is modelled for ASCII letters only.
- The printed messages (`print('error', d)`, "Disconnected by peer") are not modelled. The frames that fail to
  parse are returned as a list instead.
- Storage backends are left out: `_get_connection`, `_store_data`, the `listen` loops and the SQL and Redis
  calls (man.py:110-203, apart from `queue_data` and the listening flag).
- Receiver.Stop: the socket itself is not modelled, so the shutdown, the empty read it provokes and the
  storage stop are one step. A `stop` before `start` has opened the socket fails on `None`, and a `stop` after
  the loop has ended fails on the closed socket (man.py:60-62); neither failure is modelled. The model also
  assumes the loop is blocked in `recv` when `stop` arrives. If `stop` arrives while a chunk is being handled,
  the loop instead leaves through its `while` test (man.py:38) and the storages keep listening.
- Controller.AddParameter: each call is taken to receive a distinct parameter object, as `get_test_plc` does.
  The code sets the address on the object it is given and appends a reference to it (plc.py:169-171), so
  adding one object twice would give two entries sharing the later address. The model's value semantics
  gives each entry its own address, and `Controller.AddressesFromOne`'s distinct addresses rely on the same
  assumption.
- Receiver.AddStorage: each call is taken to receive a distinct storage. The code appends a reference
  (man.py:69), so a storage added twice would queue every record twice; in the model the two entries are
  separate storages.
- `get_test_plc` (plc.py:296-315) is covered only through `Controller.AddAll` and `Controller.AddressesFromOne`.
