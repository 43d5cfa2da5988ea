# arduflow core in Dafny

arduflow is a cooperative actor runtime for Arduino boards. Every actor
(`TActor`) owns an intrusive singly-linked list of events (`TList<TEventPtr>`),
its mailbox. `TActorLib` keeps the actors in a chain in registration order,
hands events to mailboxes (`Send`, `SendImmediate`, `Resend`,
`ResendImmediate`) and runs them: `Run` samples the time once, and for each
actor in turn pops the events of its list, delivers those that are due and
pushes the others back to the end of the list. Events are owned through a
move-only pointer, `TUniquePtr`. Around this core sit fixed-capacity
containers, string views and a copy-on-write string, serial-port line
framing and chunked output, a Bluetooth module state machine, an LED actor,
a debounced pulse counter and the AM2320 temperature/humidity sensor with
its Modbus CRC-16 check.

This project models that core and proves properties of the model:

- `Time`: `TTime`, 32-bit milliseconds with wrapping `+` and `-`.
- `Ownership`: `TUniquePtr` as a class whose field is the held pointer.
- `Containers`: `TVector` over an array with its shifting loops, the
  index-window `TDeque` (capacity at most 7, the range of its 4-bit
  indices), and `TPeriodicTrigger`.
- `Workflow`: events, the `TList` mailbox as a linked list of `Event`
  objects with a ghost sequence of its nodes, actors, and the requests a
  handler makes through its `TActorContext`.
- `Strings`: the `StringBuf` queries as functions, and `String` as a class
  whose content is a sequence and whose shared buffer has an 8-bit
  reference counter.
- `LineFraming`: the line scanning shared by `TSerialActor` and
  `SerialActivity`.
- `Serial`, `SerialActivity`, `BluetoothZS040`, `Bluetooth`, `Led`,
  `SensorCounter` and `SensorAM2320`: the device actors.
- `ActorLib`: `TActorLib` as a class, with registration, the four send
  operations and `Run`. Handlers are the closed set of actor kinds above.
  A handler returns the requests it makes through its context, and `Run`
  applies them in order.
- `PassModel`: one actor's turn of `Run` on values. It shows both the
  turn as the code is written and the turn with a corrected boundary.

Hardware is modelled by its effects. A serial port is the input it holds,
the room it reports and a log of what was written to it. An I2C bus is the
sequence of replies the sensor gives. A pin write is an entry in a log.

## Model

| member | source | states |
|---|---|---|
| Time.Add | ArduinoWorkflow.h:562 | The sum of two times is their arithmetic sum when that is below 2^32, and the sum minus 2^32 otherwise. |
| Time.Sub | ArduinoWorkflow.h:563 | The difference of two times is `a - b` when `b <= a`, and `a - b + 2^32` otherwise. |
| Time.Seconds | ArduinoWorkflow.h:565 | `Seconds(s)` is `s * 1000` when that fits in 32 bits, and agrees with it modulo 2^32 always. |
| Time.SubAddRoundTrip | ArduinoWorkflow.h:562-563 | Subtracting `b` undoes adding `b`, even across the wrap. |
| Time.AddSubRoundTrip | ArduinoWorkflow.h:562-563 | Adding `b` undoes subtracting `b`, even across the wrap. |
| Time.AddWrapsBelow | ArduinoWorkflow.h:562 | A positive addend that overflows gives a result below the first operand. |
| Time.MaxIsLargest | ArduinoWorkflow.h:569-570 | `Max()` is at least every time, and `Max() + 1` wraps to `Zero()`. |
| Ownership.UniquePtr.constructor | ArduinoWorkflow.h:35-37 | The new pointer holds exactly the object it was given. |
| Ownership.UniquePtr.Steal | ArduinoWorkflow.h:39-47 | Copy and move construction take the source's object and leave the source null. |
| Ownership.UniquePtr.Release | ArduinoWorkflow.h:85-89 | Returns the held object and leaves the pointer null. |
| Ownership.UniquePtr.AssignRaw | ArduinoWorkflow.h:53-57 | The previously held object is deleted (returned as `deleted`) and the new one is held. |
| Ownership.UniquePtr.AssignMove | ArduinoWorkflow.h:66-71 | Deletes the previously held object, takes the source's and leaves the source null; self-assignment leaves the pointer null. |
| Ownership.UniquePtr.AssignCopy | ArduinoWorkflow.h:59-64 | Lvalue assignment also steals from the source; the old object goes to a temporary that deletes it. |
| Ownership.UniquePtr.Destroy | ArduinoWorkflow.h:49-51 | The destructor deletes exactly the held object. |
| Containers.Vector.constructor | ArduinoWorkflow.h:100-102 | A new vector is empty and has the given capacity. |
| Containers.Vector.Empty | ArduinoWorkflow.h:108-110 | True if and only if the vector holds no element. |
| Containers.Vector.Insert | ArduinoWorkflow.h:140-155 | Below capacity, the item lands at `pos` and later elements shift right by one; when full, nothing changes; the position is returned. |
| Containers.Vector.PushBack | ArduinoWorkflow.h:120-122 | Appends the item unless the vector is full, in which case nothing changes. |
| Containers.Vector.PushFront | ArduinoWorkflow.h:124-126 | Prepends the item unless the vector is full, in which case nothing changes. |
| Containers.Vector.Erase | ArduinoWorkflow.h:128-138 | Removes exactly the element at `pos`, later elements shift left by one, and the old end position is returned. |
| Containers.Deque.constructor | ArduinoWorkflow.h:175-178 | A new deque is empty. |
| Containers.Deque.Size | ArduinoWorkflow.h:180-182 | `EndIdx - BeginIdx` is the number of items held. |
| Containers.Deque.IsEmpty | ArduinoWorkflow.h:188-190 | True if and only if the deque holds no item. |
| Containers.Deque.Move | ArduinoWorkflow.h:268-287 | `move` copies the range to its destination, nulls the source slots it does not overwrite, and leaves every other slot alone. |
| Containers.Deque.Insert | ArduinoWorkflow.h:238-265 | When full: prints `OVERFLOW`, changes nothing and returns the iterator. At `begin()`: prepends. At `end()`: appends. At any other position: inserts nothing and returns the iterator. |
| Containers.Deque.InsertAtBegin | ArduinoWorkflow.h:240-249 | Prepends, either in the free slot before the window or by shifting the window right. |
| Containers.Deque.InsertAtEnd | ArduinoWorkflow.h:251-259 | Appends, either in the free slot after the window or by shifting the window left. |
| Containers.Deque.PushBack | ArduinoWorkflow.h:204-206 | Appends unless full, in which case the contents are unchanged. |
| Containers.Deque.PushFront | ArduinoWorkflow.h:208-210 | Prepends unless full, in which case the contents are unchanged. |
| Containers.Deque.PopFront | ArduinoWorkflow.h:212-217 | Deletes the first item, and resets both indices to 0 when the deque becomes empty. |
| Containers.Deque.Erase | ArduinoWorkflow.h:219-236 | Removes exactly the item at `it` and returns the iterator at the same logical position; both indices reset to 0 when the deque becomes empty. |
| Containers.PeriodicTrigger.IsTriggered | ArduinoWorkflow.h:771-777 | Fires if and only if `LastTriggered + period <= Now` (wrapping add); only then is `LastTriggered` set to `Now`. |
| Workflow.EventList.Empty | ArduinoWorkflow.h:463-465 | True if and only if the list has no node. |
| Workflow.EventList.Size | ArduinoWorkflow.h:453-461 | The counting walk returns the number of nodes. |
| Workflow.EventList.Insert | ArduinoWorkflow.h:526-545 | At `begin()`, the item becomes the head and is returned. At `end()` of a non-empty list, it is appended and `end()` is returned. At a node, it goes before that node and the node is returned. At a position not in the list, nothing changes and `end()` is returned. |
| Workflow.EventList.LinkHead | ArduinoWorkflow.h:527-530 | The item becomes the head and the old nodes follow in order. |
| Workflow.EventList.LinkAfter | ArduinoWorkflow.h:536-537 | The item is linked right after the k-th node and every other node keeps its place. |
| Workflow.EventList.PushBack | ArduinoWorkflow.h:479-481 | Appends the item; returns the item only when the list was empty, and `end()` otherwise. |
| Workflow.EventList.PushFront | ArduinoWorkflow.h:483-485 | Prepends the item and returns it. |
| Workflow.EventList.PopValue | ArduinoWorkflow.h:491-508 | If `it` is a node, removes exactly that node, returns it unlinked, moves `it` to the following node and keeps the rest in order. Otherwise it returns null and changes nothing. |
| Workflow.EventList.UnlinkHead | ArduinoWorkflow.h:492-496 | Detaches the head; the list is the old tail. |
| Workflow.EventList.UnlinkAfter | ArduinoWorkflow.h:500-504 | Detaches the node after the k-th; the predecessor now links to the node after it. |
| Workflow.EventList.Erase | ArduinoWorkflow.h:510-524 | Removes exactly the node at `it` and returns the next position; for a position not in the list, changes nothing and returns `end()`. |
| Workflow.EventList.PopFront | ArduinoWorkflow.h:487-489 | On a non-empty list, removes the head and returns the new `begin()`. |
| Strings.StrNCmpEqualNulFree | StringBuf.h:55-58 | On NUL-free text, `strncmp` over `n` characters reports equality if and only if the first `n` characters are the same. |
| Strings.Equal | StringBuf.h:55-58 | Views that compare equal have the same length. |
| Strings.EqualIffSame | StringBuf.h:55-58 | For NUL-free content, `==` holds if and only if both views hold the same characters. |
| Strings.EqualStopsAtNul | StringBuf.h:55-58 | `strncmp` stops at a NUL, so `"a\0x"` equals `"a\0y"`. |
| Strings.Substr | StringBuf.h:72-77 | `substr(pos, n)` is the characters at positions `pos` up to `pos + min(n, size - pos)`. |
| Strings.SubstrDefault | StringBuf.h:72-77 | The default length `npos` is 255: the result is at most 255 characters, and it is the whole tail if and only if the tail is at most 255 long. |
| Strings.StartsWith | StringBuf.h:79-82 | A view starts with a prefix only if the prefix is no longer than the view. |
| Strings.StartsWithIffPrefix | StringBuf.h:79-82 | For a NUL-free prefix, `starts_with` holds if and only if the view's first characters are the prefix. |
| Strings.FindFrom | StringBuf.h:88-95 | The scan from `p` returns the first index at or after `p` holding `c`, or `npos` if there is none. |
| Strings.Find | StringBuf.h:88-95 | `find(c)` returns the smallest index holding `c`, or `npos` (255) if there is none. |
| Strings.FindAmbiguousAt255 | StringBuf.h:88-95 | A first match at index 255 cannot be told apart from "not found". |
| Strings.ToIntMeaning | StringBuf.h:101-111 | `toint` of an all-digit text (including the empty text) is its decimal value; any other character makes it 0. |
| Strings.ToIntDigits | StringBuf.h:101-111 | On digits only, the accumulating loop computes the decimal value. |
| Strings.ToIntFromNonDigit | StringBuf.h:104-108 | Any non-digit makes the result 0, whatever was accumulated before. |
| Strings.ToIntOfDecimal | StringBuf.h:101-111 | Round trip: `toint` of the decimal digits of `n` is `n`. |
| Strings.Inc8 | StringBuf.h:201 | `++RefCounter` on an `unsigned char` adds one, and 255 wraps to 0. |
| Strings.Dec8 | StringBuf.h:375 | `--RefCounter` subtracts one, and 0 wraps to 255. |
| Strings.String.constructor | StringBuf.h:122-124 | The default string is empty and holds no buffer. |
| Strings.String.Literal | StringBuf.h:136-140 | A literal is viewed in place, with no buffer. |
| Strings.String.FromView | StringBuf.h:126-130 | Copying characters in allocates a fresh buffer with one owner, and nothing for no characters. |
| Strings.String.Copy | StringBuf.h:196-203 | The copy shares the view and the buffer, whose 8-bit counter goes up by one. |
| Strings.String.Take | StringBuf.h:205-212 | Move construction takes the view and buffer and leaves the source empty. |
| Strings.String.Sub | StringBuf.h:337-351 | The substring is the source's characters from `pos`, clamped to its size. An empty result holds no buffer; otherwise it shares the buffer and counts one more owner. |
| Strings.ClampedLength | StringBuf.h:339-342 | The length is `min(length, size - pos)` when `pos <= size`, and 0 past the end. |
| Strings.String.Free | StringBuf.h:373-381 | Counts one owner fewer. At zero the buffer is released and the string becomes empty; otherwise the string keeps pointing at it. |
| Strings.String.AssignCopy | StringBuf.h:214-223 | Frees the old buffer first: an unshared old buffer loses an owner and is released when this string was its last owner. Then it shares the source's view and buffer with one more owner; a buffer already shared with the source keeps its count. Self-assignment of a sole owner releases the buffer and leaves the string empty. |
| Strings.String.Append | StringBuf.h:260-263 | The content becomes the old content followed by the added text. A shared buffer is first copied into a buffer of its own. |
| Strings.String.EnsureOneOwner | StringBuf.h:310-335 | The content is unchanged, and afterwards the string is the sole owner of its buffer, if it has one. |
| Strings.String.Erase | StringBuf.h:265-282 | The content becomes `old[..pos] + old[pos+length..]`. Erasing at either end only moves the view; erasing in the middle copies into a buffer of its own. |
| Strings.String.Destroy | StringBuf.h:251-253 | The destructor frees: one owner fewer, and the buffer is released by its last owner. |
| LineFraming.TrimCR | Serial.h:132-135 | Stripping trailing `'\r'` leaves a prefix of the line. |
| LineFraming.TrimCRLast | Serial.h:133-135 | A trimmed line does not end with `'\r'`. |
| LineFraming.Scan | Serial.h:130-141 | The start of the unfinished line lies within the text. |
| LineFraming.ScanFacts | Serial.h:130-141 | The unfinished line starts at 0 or right after a `'\n'`, and holds no `'\n'`. |
| LineFraming.Rest | Serial.h:142 | The text kept for the next call is a suffix of the scanned text without `'\n'`. |
| LineFraming.LinesCount | Serial.h:130-141 | One line is produced per `'\n'`. |
| LineFraming.LinesAreClean | Serial.h:130-141 | No line holds a `'\n'`, and no line ends with `'\r'`. |
| LineFraming.JoinLinesRest | Serial.h:130-142 | For text without `'\r'`: the lines, each followed by `'\n'`, then the kept tail, give back the text. |
| LineFraming.ScanSplit | Serial.h:130-142 | Scanning `a + b` in one go yields the lines of `a`, then those of `a`'s kept tail followed by `b`. |
| LineFraming.ScanConcat | Serial.h:130-142 | Reading the text in two parts, keeping the tail between them, yields the same lines as reading it at once. |
| LineFraming.TrimEnd | Serial.h:132-135 | The backward loop over `'\r'` stops at the trimmed end of the line and never runs past its start. |
| LineFraming.SpansAreLines | SerialActivity.h:36-46 | The start and trimmed end recorded for each `'\n'` delimit exactly the corresponding line. |
| Serial.ReadSize | Serial.h:122 | Reads no more than is available, and never beyond `MaxBufferSize` (256) in total. |
| Serial.WriteStepKeepsEverything | Serial.h:103-118 | One delivery loses and repeats nothing: what it writes, followed by what is still owed, is the Data and its end of line. |
| Serial.DeliveriesKeepEverything | Serial.h:103-119 | The same holds across any number of deliveries. |
| Serial.DeliveriesComplete | Serial.h:103-119 | For non-empty Data and a port that always takes something, the bytes written are exactly Data followed by one `"\n"`, within `|Data|` deliveries. |
| Serial.EmptyDataNeverWritten | Serial.h:103-118 | As written, empty Data is never written and is re-queued forever, whatever room the port has. |
| Serial.FixedDeliveriesComplete | Serial.h:103-119 | With empty Data written as a bare end of line, every Data completes as Data followed by `"\n"`. |
| Serial.SerialActor.constructor | Serial.h:76-79 | A new actor has an empty buffer and an unopened port. |
| Serial.SerialActor.OnEvent | Serial.h:87-96 | Dispatches on the event id to bootstrap, serial data or receive; any other id does nothing. |
| Serial.SerialActor.OnBootstrap | Serial.h:98-101 | Opens the port and sends one fresh `TEventReceive` to itself. |
| Serial.SerialActor.OnSerialData | Serial.h:103-119 | Writes `min(len, AvailableForWrite)` bytes. A partial write erases the written prefix and re-queues the rest at the head; a full write adds the end of line; writing nothing re-queues the event unchanged. |
| Serial.SerialActor.OnReceive | Serial.h:121-145 | Reads what fits. Sends one TEventSerialData per completed line to the owner, in order. Keeps the unfinished tail, and re-queues the receive event with `Resend`. |
| Serial.SendLines | Serial.h:130-141 | The scanning loop sends one fresh event per line, in order, and ends at the start of the unfinished line. |
| Serial.EmitLine | Serial.h:132-137 | Each line goes to the owner as a fresh TEventSerialData sent by this actor, holding the trimmed line. |
| SerialActivity.IntendedView | SerialActivity.h:42 | The corrected view of a line ends where the line ends. |
| SerialActivity.AsWrittenViewIffFirst | SerialActivity.h:42 | The view built as written equals the line's view if and only if the line starts at index 0. |
| SerialActivity.AsWrittenViewOverruns | SerialActivity.h:42 | For `"a\nb\n"`, the second view covers three characters from index 2 instead of the one character `"b"`. |
| SerialActivity.IntendedViewsAreLines | SerialActivity.h:36-46 | The corrected views are exactly the received lines, in order. |
| SerialActivity.ShiftDown | SerialActivity.h:49 | `memmove` to the front: the first `n` slots now hold the characters that started at `from`. |
| SerialActivity.CopyInto | SerialActivity.h:79 | `memmove` into the buffer: the characters are placed after the first `at` slots, which are kept. |
| SerialActivity.SendSplitIsPrefix | SerialActivity.h:66-81 | `send` reorders nothing: what is written plus what is buffered is a prefix of the text. The buffer never exceeds 256, and no more is written than the port takes. |
| SerialActivity.SendSplitKeepsAvailable | SerialActivity.h:66-85 | When `IsAvailableForSend(len)` holds, the corrected split keeps every character. The split as written does so if and only if the buffer was not empty or at most 255 characters are left after the port's share. |
| SerialActivity.SendDropsDespiteAvailable | SerialActivity.h:66-85 | 256 characters with an empty buffer and no room pass `IsAvailableForSend`, yet only 255 are kept. |
| SerialActivity.ScanLines | SerialActivity.h:36-46 | The scanning loop hands over, in order, one view per line (built as written), and ends at the start of the unfinished line. |
| SerialActivity.Activity.constructor | SerialActivity.h:14-17 | Both buffers start empty. |
| SerialActivity.Activity.IsAvailableForSend | SerialActivity.h:83-85 | True if and only if the outgoing buffer's free space is at least `size`. |
| SerialActivity.Activity.OnLoop | SerialActivity.h:26-64 | Reads `min(free, available)` characters and reports each completed line. The unfinished tail moves to the front. Then writes `min(buffered, room)` characters and keeps the rest, in order. |
| SerialActivity.Activity.ReadLines | SerialActivity.h:27-52 | The incoming half of `OnLoop`: nothing happens if nothing is read. Otherwise the lines of old tail plus new input are reported, and their tail is kept. |
| SerialActivity.Activity.Receive | SerialActivity.h:29-35 | `readBytes` appends the first `size` available characters to the buffer. |
| SerialActivity.Activity.ReportLines | SerialActivity.h:36-50 | Reports the lines of the buffer, then keeps only its unfinished tail, at the front. |
| SerialActivity.Activity.Flush | SerialActivity.h:53-63 | Writes the first `min(buffered, room)` characters and shifts the rest to the front; written plus buffered is unchanged. |
| SerialActivity.Activity.Send | SerialActivity.h:66-81 | Writes and buffers exactly the split computed as written, and the buffer stays within 256. |
| BluetoothZS040.Zs040.constructor | BluetoothZS040.h:124-131 | The machine starts in Error, not connected. |
| BluetoothZS040.Zs040.Init | BluetoothZS040.h:133-137 | `Init` moves to OK. |
| BluetoothZS040.Zs040.Receive | BluetoothZS040.h:139-163 | In Error: returns true and changes nothing. In OK: returns false; `"CONNECTED"` sets Connected when not connected, `"+DISC:SUCCESS"` clears it when connected, and nothing else changes it. In AT: `"OK"` moves to OK, anything else to Error, and the result is true. |
| BluetoothZS040.Zs040.IsOK | BluetoothZS040.h:168-170 | True if and only if the state is OK. |
| BluetoothZS040.NoticesAreExact | BluetoothZS040.h:145-151 | For NUL-free data, the notices compare equal exactly to `"+DISC:SUCCESS"` and `"CONNECTED"`, and the first starts with `"+"`. |
| Bluetooth.BluetoothActor.constructor | Bluetooth.h:12-16 | The module starts in Error, not connected. |
| Bluetooth.BluetoothActor.OnEvent | Bluetooth.h:31-59 | Bootstrap puts the module in state OK and sends nothing. Serial data from the Serial actor goes to the module; it is forwarded to the owner if and only if the module was in state OK, the only state in which it consumes nothing. A line from Serial drives the module as `Zs040.Receive` says. In state OK, `CONNECTED` sets Connected (what `IsConnected` reports) and `+DISC:SUCCESS` clears it. In state AT, `OK` moves the module to OK and anything else to Error. In state Error, nothing changes. Serial data from anyone else is forwarded to Serial. Forwarding uses `Send`, and other events change nothing. |
| Led.LedActor.constructor | Led.h:23-24 | The LED starts off and no pin write has happened. |
| Led.LedActor.OnEvent | Led.h:26-56 | LedOn and LedOff set the LED and write the pin. Receive toggles and writes. Blink while on does nothing; while off, it sends two fresh TEventReceive to itself, one due at once and one at `Now + Period`. Other events are ignored. |
| SensorCounter.SensorCounter.constructor | SensorCounter.h:11-29 | Period 1000, values sent, all counters zero. |
| SensorCounter.SensorCounter.Interrupt | SensorCounter.h:75-100 | An unchanged pin does nothing. A transition earlier than its minimum delay only records the level. An accepted rising edge increments Value by one and stamps Low with `Now`. An accepted falling edge stamps High with `Now`. LastTime moves only on accepted edges, and elapsed time uses wrapping subtraction. |
| SensorCounter.SensorCounter.OnEvent | SensorCounter.h:39-46 | Dispatches bootstrap and receive; other events change nothing. |
| SensorCounter.SensorCounter.OnBootstrap | SensorCounter.h:48-57 | Zeroes Value, Low and High, samples the pin and the time, and arms one receive at `Now + Period`. |
| SensorCounter.SensorCounter.OnReceive | SensorCounter.h:59-73 | Compares Value, converted to the stored `double`, with the published count. When they differ, it stores Value, Low and High as `double`s, stamps Updated and, when SendValues is set, sends the three readings. It always re-arms at `Now + Period` with `Resend`. |
| SensorCounter.SensorCounter.Readings | SensorCounter.h:66-68 | Three fresh sensor-data events, counter, low and high, holding the published values. |
| SensorCounter.Float32Of | Sensors.h:4-7 | A `uint32_t` stored in `TSensorValue::Value`, a `double`, which is a 32-bit float on AVR: exact below 2^24, otherwise within half the gap between neighbouring floats. |
| SensorCounter.Float32Loses | SensorCounter.h:60-63 | Past 2^24 the change test and the stored readings lose the last bits: counts 2^24 and 2^24 + 1 compare equal. |
| SensorAM2320.Crc16 | SensorAM2320.h:95-109 | The checksum of no bytes is the preset 0xFFFF. |
| SensorAM2320.ComputeCrc16 | SensorAM2320.h:95-109 | The byte and shift loops compute the CRC-16 of Modbus over Serial Line V1.02, section 6.2.2 (preset 0xFFFF, reflected polynomial 0xA001). |
| SensorAM2320.CrcFromAppend | SensorAM2320.h:99-107 | Checksumming `a + b` is checksumming `b` from the register left by `a`. |
| SensorAM2320.CrcResidue | SensorAM2320.h:95-109 | Appending the checksum, low byte first, brings the register to zero. |
| SensorAM2320.Crc16CheckValue | SensorAM2320.h:95-109 | The checksum of `"123456789"` is 0x4B37, the published check value of this CRC. |
| SensorAM2320.Bswap | SensorAM2320.h:116-118 | `bswap` exchanges the high and low bytes. |
| SensorAM2320.BswapInvolution | SensorAM2320.h:116-118 | Swapping twice restores the value. |
| SensorAM2320.BswapMemoryOrder | SensorAM2320.h:153-155 | A 16-bit value read from memory and swapped is the value sent high byte first. |
| SensorAM2320.Validate | SensorAM2320.h:156-180 | Checks in order. A code other than 3 is refused first; then a length other than 4; the reply is accepted if and only if, in addition, the CRC of the first six bytes equals the swapped received CRC. |
| SensorAM2320.ValidateFrame | SensorAM2320.h:151-180 | Every frame built from a reading is accepted with that reading. |
| SensorAM2320.AcceptedIsFrame | SensorAM2320.h:151-180 | Every accepted reply is the frame of the reading it yields. |
| SensorAM2320.AcceptedHasZeroResidue | SensorAM2320.h:172 | An accepted reply has a zero checksum residue over all eight bytes. |
| SensorAM2320.TenthsAsWritten | SensorAM2320.h:181-183 | As written, the temperature is read as an unsigned 16-bit count of tenths. |
| SensorAM2320.NegativeTemperatureAsWritten | SensorAM2320.h:181-183 | The sensor's encoding of -10.1 degrees (0x8065) is read as 3286.9 degrees. |
| SensorAM2320.SignedTenthsRoundTrip | SensorAM2320.h:181-183 | Decoding the sensor's sign-and-magnitude temperature returns every encoded value, and negative values are exactly those with the top bit set. |
| SensorAM2320.PowerPinDrivenAsWritten | SensorAM2320.h:44-60 | As written, `PowerPin != -1` holds for every pin. |
| SensorAM2320.PowerPinDriven | SensorAM2320.h:44-60 | Corrected: the pin is driven if and only if it is not the "no pin" value 255. |
| SensorAM2320.DefaultPowerPinDriven | SensorAM2320.h:44-60 | With the default `PowerPin` (255, from `uint8_t = -1`), the test as written drives the pin; the corrected test does not. |
| SensorAM2320.SwitchPower | SensorAM2320.h:44-60 | As written: switching sets `Powered` and changes nothing when the state is already right. Otherwise the new level is written to the pin, whatever the pin, the default 255 included. |
| SensorAM2320.SwitchPowerFixed | SensorAM2320.h:44-60 | Corrected: switching sets `Powered` and changes nothing when the state is already right. Otherwise the new level is written if and only if a power pin is given. |
| SensorAM2320.SwitchPowerFixedAgrees | SensorAM2320.h:44-60 | The switch as written and the corrected one agree on every sensor that has a power pin. With the default 255, powering on writes the pin as written and does not when corrected. |
| SensorAM2320.SwitchPowerIdempotent | SensorAM2320.h:44-60 | `PowerOn` and `PowerOff` are idempotent. |
| SensorAM2320.FailedRounds | SensorAM2320.h:63-92 | After one or more failed probe rounds the sensor is off. |
| SensorAM2320.FirstProbe | SensorAM2320.h:63-92 | The index of the successful probe is at most 2. It is below 2 if and only if one of the first two probe replies has code 3 and length 2, and then the probe at that index is such a reply. |
| SensorAM2320.ReadVerdict | SensorAM2320.h:148-180 | No reply is recorded exactly when the bus did not return eight bytes. |
| SensorAM2320.RetryAfterFailureIsOnePeriod | SensorAM2320.h:198-203 | After a failure the re-arm at `Period - PowerOnDelay` plus the power-on delay add up to one Period. |
| SensorAM2320.AM2320.constructor | SensorAM2320.h:11-33 | Period 8000, values sent, unpowered, no errors. |
| SensorAM2320.AM2320.PowerOn | SensorAM2320.h:44-51 | Is the switch to on as written: turning on an unpowered sensor writes the pin, even the default 255. |
| SensorAM2320.AM2320.PowerOff | SensorAM2320.h:53-60 | Is the switch to off as written: turning off a powered sensor writes the pin, even the default 255. |
| SensorAM2320.AM2320.Transact | SensorAM2320.h:141-154 | One bus exchange consumes the next reply and logs the command. |
| SensorAM2320.AM2320.OnEvent | SensorAM2320.h:35-42 | Dispatches bootstrap and receive; other events change nothing. |
| SensorAM2320.AM2320.OnBootstrap | SensorAM2320.h:62-93 | Probes at most twice, powering off after each failure. The periodic receive (and a message to the owner) is armed if and only if a probe succeeded; after two failures nothing is scheduled. |
| SensorAM2320.AM2320.OnReceive | SensorAM2320.h:127-205 | Unpowered: powers on and re-arms at `Now + PowerOnDelay`, nothing else. Accepted reply: stores the swapped readings, timestamps them, sends them and re-arms at `Now + Period`. Failure: powers off, increments Errors by exactly one, sends one message and re-arms at `Now + (Period - PowerOnDelay)`. |
| SensorAM2320.AM2320.Accept | SensorAM2320.h:180-204 | The success branch: the temperature is stored as written (the unsigned word as tenths) and the humidity as received, Updated = Now, and the event is re-armed one Period later as the last request. When values are sent, the temperature and humidity readings go to the owner first. |
| SensorAM2320.AM2320.Reject | SensorAM2320.h:198-204 | The failure branch: powered off, one more error reported, re-armed at `Period - PowerOnDelay`. |
| SensorAM2320.AM2320.Readings | SensorAM2320.h:186-189 | Two fresh sensor-data events: temperature and humidity. |
| ActorLib.Post | ArduinoWorkflow.cpp:77-95 | Send and Resend append to the recipient's list; SendImmediate and ResendImmediate prepend; every other list is unchanged. |
| ActorLib.PostAllSizes | ArduinoWorkflow.cpp:77-95 | After a handler's requests, each list has grown by exactly the number of requests addressed to it. |
| ActorLib.PostAllElsewhere | ArduinoWorkflow.cpp:7-21 | A handler's requests leave an actor's list unchanged if and only if none of them is addressed to that actor. |
| ActorLib.AddressedNone | ArduinoWorkflow.cpp:7-21 | An outbox with no request addressed to an actor adds nothing to its list. |
| ActorLib.CountVisit | ArduinoWorkflow.cpp:52-64 | After one visit, the list length plus the handled event equals the old length plus the requests addressed to the actor. An actor that never sends to itself adds none. |
| ActorLib.PopMirrored | ArduinoWorkflow.cpp:52-61 | One pop of the list, whether the event is delivered or pushed back, is one step of `PassModel.Pass` as written, on the events with the NotBefore they had before the pop. |
| ActorLib.OwnsAdd | ArduinoWorkflow.cpp:77-95 | Posting an event held by no list keeps every queued event in exactly one list. |
| ActorLib.OwnsTake | ArduinoWorkflow.cpp:52 | Popping the head keeps that invariant, and the popped event is nowhere else in its list. |
| ActorLib.MailboxesTake | ArduinoWorkflow.cpp:52 | Popping the head keeps the mailbox invariant, and the popped event was queued and well typed. |
| ActorLib.MailboxesPost | ArduinoWorkflow.cpp:77-95 | Posting a new event keeps the mailbox invariant. |
| ActorLib.MailboxesPostAll | ArduinoWorkflow.cpp:7-21 | Applying all of a handler's requests, each with a distinct new event, keeps the mailbox invariant. |
| ActorLib.InChainOrderAppend | ArduinoWorkflow.cpp:46-69 | Appending the deliveries of an actor no earlier in the chain keeps the log in registration order. |
| ActorLib.Dispatch | ArduinoWorkflow.h:601-609 | The virtual `OnEvent` of each actor kind keeps that handler's state valid and returns requests carrying new events or the delivered one. |
| ActorLib.Lib.constructor | ArduinoWorkflow.cpp:23-25 | A new runtime has no actors, no mailboxes and no deliveries. |
| ActorLib.Lib.Send | ArduinoWorkflow.cpp:77-81 | Stamps `Sender` and appends the event to the recipient's list. |
| ActorLib.Lib.SendImmediate | ArduinoWorkflow.cpp:83-87 | Stamps `Sender` and puts the event at the head of the recipient's list. |
| ActorLib.Lib.Resend | ArduinoWorkflow.cpp:89-91 | Appends without touching `Sender`. |
| ActorLib.Lib.ResendImmediate | ArduinoWorkflow.cpp:93-95 | Puts the event at the head without touching `Sender`. |
| ActorLib.Lib.Hand | ArduinoWorkflow.cpp:7-21 | A context call only delegates: the matching placement, with `Sender` stamped exactly for the Send pair. |
| ActorLib.Lib.Stamp | ArduinoWorkflow.cpp:77-95 | `Sender` becomes the sender for Send and SendImmediate, and stays as it was for the Resend pair. |
| ActorLib.Lib.Apply | ArduinoWorkflow.cpp:7-21 | The requests are placed in order and each `Sender` is stamped as its request says. |
| ActorLib.Lib.HandOut | ArduinoWorkflow.cpp:7-21 | Handing out a handler's requests keeps the runtime valid. Exactly their events become queued, and the lists become those the requests give when posted in order. |
| ActorLib.Lib.LinkLast | ArduinoWorkflow.cpp:28-36 | The walk to the last actor appends the new actor at the end of the chain, leaving the earlier order unchanged. |
| ActorLib.Lib.Admit | ArduinoWorkflow.cpp:27-36 | The actor is appended to the chain and its handler recorded. |
| ActorLib.Lib.Bootstrap | ArduinoWorkflow.cpp:37-38 | One fresh TEventBootstrap, whose `Sender` is the actor, goes to the tail of the actor's own list. |
| ActorLib.Lib.Register | ArduinoWorkflow.cpp:27-40 | Appends the actor to the chain and queues exactly one TEventBootstrap from it to its own tail. Nothing is delivered. |
| ActorLib.Lib.Take | ArduinoWorkflow.cpp:52 | `pop_value` at the head removes exactly the head, hands it out owned and moves `itEvent` to the new head. |
| ActorLib.Lib.Handle | ArduinoWorkflow.cpp:64 | Calls the actor's handler on an event held by no list. |
| ActorLib.Lib.Deliver | ArduinoWorkflow.cpp:62-64 | A due event is passed to its actor's handler exactly once, while no list holds it, and the delivery is logged with the event's NotBefore. The lists become those the handler's requests give when posted in order, and no other event's NotBefore changes. |
| ActorLib.Lib.Defer | ArduinoWorkflow.cpp:58-61 | A not-yet-due event goes back to the tail of its own list. `push_back` returns the event only when the list was empty, and `end()` otherwise. |
| ActorLib.Lib.Settle | ArduinoWorkflow.cpp:53-64 | The event is handled if and only if it is due (`Now` is not before its NotBefore), and then it is the one delivery logged and minSleep becomes zero. Otherwise it goes back to the tail of its list, nothing is delivered, minSleep becomes the smaller of itself and the time left, and the boundary is returned only when that list was empty. minSleep never grows. |
| ActorLib.Lib.Visit | ArduinoWorkflow.cpp:52-64 | Pops the head of the list, which occurs nowhere else in it, and moves `itEvent` to the next event. The popped head is handled if and only if it is due; a due head is then delivered and logged once with its NotBefore, and the handler's requests are posted to the lists left. A head not due goes to the tail. A boundary returned by `push_back` means the deferred event is alone in the list. The list ends as long as it began, less the handled event, plus the requests addressed to the actor; there are none when the actor's kind never sends to itself. |
| ActorLib.Lib.Round | ArduinoWorkflow.cpp:51-67 | One iteration of the inner loop. `selfPosts` counts the requests addressed to the actor itself. It is pinned by the list: its length plus the events handled equals its length at the start plus `selfPosts`. It stays zero for an actor whose kind never sends to itself. A `break` (the handler changed the head) needs such a request. Otherwise, while no handler has posted to the actor, the turn is still what `PassModel.Pass` as written leaves it, one pop further on. |
| ActorLib.Lib.Rounds | ArduinoWorkflow.cpp:48-68 | The inner loop stops at end(), at the boundary, at a changed head or when the budget runs out; a changed head needs a request addressed to the actor. The same count of requests addressed to the actor holds as for `Round`. Otherwise the loop stopped at end() or with no pops left, and, while no handler has posted to the actor, `PassModel.Pass` as written from the list the loop started with has the same outcome as `Pass` resumed from the list and the deliveries left. |
| ActorLib.Lib.RunActor | ArduinoWorkflow.cpp:48-68 | One actor's turn logs only deliveries to that actor at `Now`, and `stop` says why it ended. A boundary is recorded only when the deferred event is alone in the list, so it never ends a pass early. `selfPosts`, the number of requests the handlers addressed to the actor, is the final length of the list plus the events delivered less its length at the start. It is zero for an actor whose kind never sends to itself. While it is zero, the turn is `PassModel.Pass` as written: the same events are delivered in the same order, the list is left as `Pass` leaves it, and the budget runs out exactly when `Pass` runs out of fuel. With at most one event not due, the due events are delivered and the waiting one is kept; with two or more events none of which is due, the turn spins until the budget runs out. |
| ActorLib.Lib.Turn | ArduinoWorkflow.cpp:46-70 | After the k-th actor's turn, the next actor visited is the (k+1)-th in the chain, and the log is still in registration order. |
| ActorLib.Lib.Run | ArduinoWorkflow.cpp:42-75 | One pass samples `Now` once and visits actors in registration order. Every delivery is logged in chain order at that `Now`. A delivery makes minSleep zero. |
| PassModel.PushedAt | ArduinoWorkflow.h:526-545 | As written, `push_back` returns the new item only on an empty list; the corrected version always returns it. |
| PassModel.PassKeepsEntries | ArduinoWorkflow.cpp:51-66 | A finished turn loses and invents no event: list plus delivered is the same multiset as before. |
| PassModel.PassSpins | ArduinoWorkflow.cpp:49-61 | As written, a list of two or more events none of which is due rotates without end: every number of pops runs out. |
| PassModel.TwoWaitingEventsSpin | ArduinoWorkflow.cpp:49-61 | Two events due at 2, at time 1, are still rotating after 1000 pops. |
| PassModel.PassAlone | ArduinoWorkflow.cpp:53-61 | As written, a waiting event alone in its list becomes the boundary and the turn stops at it. |
| PassModel.PassEndsWithOneWaiting | ArduinoWorkflow.cpp:49-66 | As written, with at most one event not due, the turn ends within `|list| + 1` pops. It delivers exactly the due events, in list order, and leaves the waiting one. |
| PassModel.PassDrains | ArduinoWorkflow.cpp:49-66 | With the corrected boundary, a list without repeated events is visited once in at most `|list|` pops. The due events are delivered in order and the waiting ones kept in order. |

## Left out

- The watchdog and low-power calls in `TActorLib` (`wdt_*`, `LowPower`) are hardware side effects.
- `TTime::Now()` reads the board clock: `Run` and the handlers take `now` as a parameter.
- ActorLib.Lib.Run: takes a per-actor pop `budget` so that the model terminates. The source's inner loop may spin forever; `PassModel.PassSpins` states that case and `PassModel.PassEndsWithOneWaiting` states when it ends.
- ActorLib.Lib.RunActor: same `budget` as `Run`.
- ActorLib.Lib.RunActor: relates the turn to `PassModel.Pass` only while the actor's handlers post nothing to the actor itself. That always holds for an actor whose kind never sends to itself. For other kinds it holds in turns whose list ends as long as it began less the events delivered. A turn in which the handlers do post to the actor is described by the log, `stop`, the boundary and that count only, because `Pass` takes the list as fixed values.
- ActorLib.Lib.Run: its contract gives the chain order of the log, the single `Now` and minSleep. What each actor's turn does is stated by `ActorLib.Lib.RunActor`, which `Turn` calls, and is not restated for the whole pass.
- ActorLib.Lib.Run: returns `minSleep` instead of discarding it.
- ActorLib.Lib: in `Lib`, each actor's `Events` list is a sequence in the map `mail`, and a ghost map gives the list that holds each event. The linked `TList`, with its `next` links updated in place, is modelled on its own as `Workflow.EventList`. The two are not joined, because frames over the linked nodes of every actor do not fit the verifier's budget. Aliasing between an event's `next` link and other lists is therefore not modelled in `Lib`.
- ActorLib.Dispatch: handlers return the requests they make through `TActorContext`, and `Run` applies them in order after `OnEvent` returns. This is equivalent to the source because no handler reads a mailbox during `OnEvent`.
- ActorLib.Lib.Apply: requires the requests to carry distinct events, as every handler here does.
- Handlers are the closed set of actor kinds in this model: LED, serial, Bluetooth, counter and AM2320. `SerialActivity` is driven from the main loop and is not an actor.
- PassModel.PassDrains: models one actor's list as values, with every due event taken by a handler that posts nothing back to the same list. `Lib` runs `push_back` as written, so its turns are tied to `PassModel.Pass` as written (by `ActorLib.Lib.RunActor`, under the same condition) and not to the corrected boundary.
- `TEventSensorData` holds references to the sensor's source and value (Sensors.h:20-21), so a receiver reads the value as it is when the event is delivered. The model's `SensorReading` payload copies the value when the event is made; a later change to the sensor's value is not seen.
- `TPin`, `TWire`, `TEEPROM`, `THardwareSerial` and `TSoftwareSerial` are hardware wrappers. Ports, buses and pins are modelled by their inputs and an output log.
- `delay`, `delayMicroseconds` and `attachInterrupt` are timing and setup calls with no state in the model.
- `ArduinoSettings`, `TAverage`, `TAveragedValue`, the float `String` constructors and `dtostrf` are floating point.
- SensorCounter.Float32Of: models `double` as the 32-bit float of the AVR target, rounding to nearest with ties to even. Where `double` has 64 bits, every `uint32_t` is exact and the conversion is the identity.
- SensorAM2320.AM2320.Accept: stores temperature and humidity as integer tenths; the source's `/ 10` into a `float` is not modelled.
- `String`'s allocation and capacity policy (`Alloc`, `Realloc`, `malloc`) and its number-formatting constructors (`utoa`, `itoa`) are foreign calls. The content is a sequence, and the buffer is an object with an 8-bit owner count.
- Strings.ToIntMeaning: does not model the overflow of the 16-bit `int` on long digit strings; the value is unbounded.
- Containers.Vector.Erase: the source's last step also copies the slot one past the last element (outside the storage when the vector is full). The model stops one step earlier; that slot is not part of the contents either way.
- Containers.Vector.Insert: the source's shifting loop also copies the slot before `pos` into `pos` just before the new item overwrites it (it reads before the storage when `pos` is 0). The model does not perform that copy.
- Containers.Deque.constructor: requires a capacity of 7 or less, the range of the signed 4-bit `BeginIdx`/`EndIdx` bitfields.
- The race between SensorCounter's interrupt and the main loop on its `volatile` fields is concurrency; `Interrupt` is a sequential step.
- `SensorMemory`, `SensorVoltage`, `SensorCT`, `Sensors` and the display drivers hold no logic beyond hardware, floats and graphics.
- Commented-out code in `BluetoothZS040.h` and `ArduinoWorkflow.h` is not modelled.

## Findings

The imperative members model the code as written: `Lib.RunActor` (with
`push_back` as written), `SerialActor.OnSerialData`, `Activity.OnLoop`,
`Activity.Send`, `AM2320.PowerOn`/`PowerOff` (the pin test as written) and
`AM2320.Accept` (the temperature word read as unsigned). The corrected
definitions sit beside them, with the intended property proved.

| source | as written | input that shows it | evidently intended | confidence | as-written member | corrected member |
|---|---|---|---|---|---|---|
| ArduinoWorkflow.h:526-545 | `insert` at `end()` of a non-empty list returns `end()`, so `Run`'s boundary `end` stays `end()` unless an event was deferred into an empty list, and two not-yet-due events rotate forever | one actor's list holds two events with NotBefore 2 and `Now` is 1 | `push_back` returns the new node, so the first deferred event ends the pass and each event is visited once | not executed | PassModel.PassSpins, PassModel.TwoWaitingEventsSpin | PassModel.PassDrains |
| Serial.h:103-118 | empty Data gives `size == 0`, so the event is re-queued at the head of the list and no end of line is ever written | a TEventSerialData with empty Data while the port has room | an empty line is written as a bare `"\n"` | not executed | Serial.EmptyDataNeverWritten | Serial.FixedDeliveriesComplete |
| SerialActivity.h:42 | the end index `strSize` is passed as the view's length | incoming `"a\nb\n"`: the second view covers three characters from index 2 instead of `"b"` | length `strSize - strStart` | not executed | SerialActivity.AsWrittenViewOverruns | SerialActivity.IntendedViewsAreLines |
| SerialActivity.h:74 | `str.substr(size)` takes the default length `npos` (255), so a rest longer than 255 loses its tail even when `IsAvailableForSend` promised room | 256 characters, empty buffer, port room 0: 255 are kept | the whole rest is kept, cut only to the free space | not executed | SerialActivity.SendDropsDespiteAvailable | SerialActivity.SendSplitKeepsAvailable |
| SensorAM2320.h:181-183 | the temperature word is read as unsigned, but the sensor sends sign and magnitude | -10.1 degrees is sent as 0x8065 and read as 3286.9 | decode the top bit as the sign | not executed | SensorAM2320.NegativeTemperatureAsWritten | SensorAM2320.SignedTenthsRoundTrip |
| SensorAM2320.h:44-60 | `PowerPin` is a `uint8_t` defaulting to `-1`, i.e. 255, and `PowerPin != -1` compares it with the `int` -1, so it always holds | the default `PowerPin`: the sensor writes to pin 255 | skip the pin write when no power pin is given | not executed | SensorAM2320.PowerPinDrivenAsWritten, SensorAM2320.SwitchPower | SensorAM2320.PowerPinDriven, SensorAM2320.SwitchPowerFixed |
