# HM-10 receive path and configuration tables, in Dafny

This project models the receive side of the `HM10` driver class for the HM-10
Bluetooth-LE module. The module sits on a UART, and the UART's receiver is fed
by a DMA engine in circular mode. It also models the configuration tables the
driver uses.

- **Framer** (`framer.dfy`). On each idle-line interrupt, `rx_compltd` turns the
  DMA engine's bytes-remaining counter into a write index. It copies the bytes
  received since the read cursor into the message buffer as one NUL-terminated
  frame, handling the case where the ring has wrapped. Then it moves the read
  cursor to the write index. The ring is a `seq<Byte>`, and the cursors are
  indices from 0 to the capacity.
- **Response helpers** (`responses.dfy`).
  - `compare_with_resp` is modelled as C `strncmp` semantics and proved equal to
    a byte-for-byte prefix test.
  - `copystr_from_resp` is modelled as written, with its two ways of leaving its
    buffers, and also in a bounded form.
- **Link state** (`link.dfy`). One driver object's state is a `Link` record
  holding the ring, the cursors, the message buffer, the busy flags, the RF-comm
  mode, the connection flag, the MAC field and the registered observers. Every
  callback invocation is appended to an event log. Modelled operations:
  - dispatch after framing: the classifier first, then the data callback;
  - the connection classifier (`handle_conn_message`), a two-state machine on
    the "OK+CONN" and "OK+LOST" prefixes;
  - `tx_compltd`, the setters and `is_alive`.
- **Configuration** (`config.dfy`).
  - the baud code → baud value table and its partial inverse;
  - the nine other setting enumerations, with contiguous codes and the sentinel
    255;
  - the 15-character name, version and MAC fields.

Hardware, and code whose text is not among the files modelled here, become parameters:
- The DMA counter is a `remaining` argument.
- The transaction `tx_and_rx(100)` that `is_alive` relies on is given as its
  outcome plus the link it leaves behind.
- Callbacks are observer identities. An invocation is an event in the log.

The repository's `hm10.cpp` does not compile as shipped. The cursor is named
`m_rx_buffer_end_ptr` at line 58 and `m_rx_buff_end_ptr` after that.
`buffer_size` lacks its call parentheses. Line 87 calls `membpy`. Line 179 calls
`copy_str_from_resp` while the function is `copystr_from_resp`. Line 120 has no
return type. The header declares `set_device_disconnection_callback`, but the
source defines `set_device_disconn_callback`. The model follows the evident
meaning of each of these.

`HM10_BUFFER_SIZE` is not defined in the files modelled here. The ring
capacity is therefore any positive length. The message buffer is assumed to hold
a whole ring plus its terminator (`Link.Valid`).

Two behaviours of `rx_compltd` that the model keeps as written:
- `rx_compltd` does not skip zero-length frames. An empty frame still goes
  through the classifier and to the data callback.
- The classifier runs only when no receive is pending (`!is_rx() && …`).
  A frame that arrives while a command waits for its reply is therefore not
  classified, even if it is a connection notice.

The getters are fields of `Link`: `is_rx`, `is_tx`, `is_connected` and
`master_mac` read `rxBusy`, `txBusy`, `connected` and `mac`. `is_busy` is
`Link.IsBusy`.

## Model

| member | source | states |
|---|---|---|
| Framer.WriteIndex | 01_hm10_lib/Src/hm10.cpp:58 | the write index derived from the DMA bytes-remaining counter lies within the ring, 0 .. capacity |
| Framer.Extract | 01_hm10_lib/Src/hm10.cpp:61-94 | the frame is the circular span from the read cursor: byte i is ring[(read + i) mod capacity]; its length is write − read without wrap, and (capacity − read) + write, less than the capacity, with wrap |
| Framer.MemCopy | 01_hm10_lib/Src/hm10.cpp:67 | `memcpy` of count bytes: the destination span equals the source span and every byte outside it is unchanged |
| Framer.CopyFrame | 01_hm10_lib/Src/hm10.cpp:61-94 | the copy loops store exactly the extracted frame at the start of the message buffer, write a NUL at index length, leave the rest of the buffer as it was, and report the frame's length |
| Framer.FrameIsWhatArrived | 01_hm10_lib/Src/hm10.cpp:55-99 | any run of fewer than capacity bytes that the DMA engine writes circularly from the read cursor comes back as the frame exactly and in order, across the wrap-around too |
| Framer.PrefixLenAsWrittenOverruns | 01_hm10_lib/Src/hm10.cpp:78 | with the ring wrapped, the prefix length as written (`end - start` in a 32-bit `size_t`) exceeds the whole ring capacity |
| Framer.PrefixLenAsWrittenExample | 01_hm10_lib/Src/hm10.cpp:78 | 16-byte ring, read cursor 14, write cursor 4: the written prefix length is 4294967286, while the correct frame has 6 bytes |
| Responses.StrNEqualIsPrefix | 01_hm10_lib/Src/hm10.cpp:165 | `strncmp(buf, p, strlen(p)) == 0` holds exactly when p is a byte-for-byte prefix of the terminated buffer |
| Responses.CompareWithResp | 01_hm10_lib/Src/hm10.cpp:158-166 | true iff the pattern is a prefix of the message buffer, in both directions; a match never spans a NUL |
| Link.CompareIsFramePrefix | 01_hm10_lib/Src/hm10.cpp:158-166 | on a valid link, `compare_with_resp(p)` is true iff p is a prefix of the stored frame: the empty pattern always matches, and a frame shorter than p never does |
| Responses.FirstDelimiter | 01_hm10_lib/Src/hm10.cpp:144 | finds the first NUL, CR or LF at or after the offset, with none before it; None exactly when the buffer has no delimiter from the offset on |
| Responses.CopyStrFromResp | 01_hm10_lib/Src/hm10.cpp:136-155 | succeeds exactly when a delimiter is reached and the span before it fits the destination; it then writes exactly the bytes from msg[offset] up to the delimiter, excluding it, and leaves the rest of the destination unterminated and unchanged |
| Responses.CopyStrBounded | 01_hm10_lib/Src/hm10.cpp:136-155 | the corrected copy: it copies the delimiter-free bytes from the offset, never reading past the frame's length and never writing past the destination; the rest of the destination is unchanged |
| Responses.BoundedAgreesWithAsWritten | 01_hm10_lib/Src/hm10.cpp:136-155 | wherever the copy as written stays inside both buffers and starts inside the frame, the bounded copy gives the same destination |
| Responses.OverlongFieldOverflows | 01_hm10_lib/Src/hm10.cpp:144-154 | when more non-delimiter bytes follow the offset than the destination holds, the copy as written overruns the destination; the bounded copy fills it with those bytes |
| Responses.OverlongNoticeOverflows | 01_hm10_lib/Src/hm10.cpp:179 | "OK+CONN:" followed by 16 characters overruns the 15-character MAC field |
| Responses.BareNoticeCopiesStaleBytes | 01_hm10_lib/Src/hm10.cpp:179 | a bare 7-character "OK+CONN" puts offset 8 past the terminator: the copy as written picks up an earlier message's bytes, and the bounded copy leaves the MAC field alone |
| Link.NoticesExclusive | 01_hm10_lib/Src/hm10.cpp:173-193 | no frame starts with both "OK+CONN" and "OK+LOST" |
| Link.HandleConnMessage | 01_hm10_lib/Src/hm10.cpp:170-215 | consumes the frame iff it starts with "OK+CONN" or "OK+LOST". On CONN: connected, MAC from offset 8, connected observer notified once if registered. On LOST: disconnected, all 15 MAC bytes NUL, disconnected observer notified once if registered. Otherwise nothing changes. No other field is touched |
| Link.ConnMacAgreesWithSource | 01_hm10_lib/Src/hm10.cpp:179 | on an "OK+CONN" frame that reaches offset 8, where `copystr_from_resp(8, mac)` stays inside both buffers, the classifier stores exactly the MAC that copy writes |
| Link.DataEvent | 01_hm10_lib/Src/hm10.cpp:104-113 | in plain mode the data callback gets the buffer with the stored length, whose first length bytes are the frame; in RF-comm mode it gets the buffer after the first byte, with that byte as the length |
| Link.Dispatch | 01_hm10_lib/Src/hm10.cpp:101-117 | a receive pending on entry runs neither the classifier nor the callback. A notice goes to the classifier only. Any other frame fires the data callback once if one is registered. Ring, cursor and frame are unchanged, at most one event is appended, and the rx flag ends false |
| Link.DataCallbackSeesFrame | 01_hm10_lib/Src/hm10.cpp:104-113 | plain mode hands the callback exactly the frame; RF-comm mode hands it frame[1 .. 1 + frame[0]] when that prefix lies inside the frame |
| Link.Deliver | 01_hm10_lib/Src/hm10.cpp:67-117 | a newly stored frame replaces the previous one (at most one frame is held), and dispatch leaves the rx flag false |
| Link.RxCompleted | 01_hm10_lib/Src/hm10.cpp:55-118 | the read cursor becomes capacity − remaining, the stored frame is the extracted span, the rx flag ends false, busy then means exactly "transmit in progress", and the result is the delivery of that frame |
| Link.IsBusy | 01_hm10_lib/Src/hm10.cpp:231-234 | busy while a receive or a transmit is in progress: after the receive handler busy means exactly "transmit in progress", after the transmit handler exactly "receive in progress" (see RxCompleted, TxCompleted) |
| Link.IdleAfterBothCompletions | 01_hm10_lib/Src/hm10.cpp:120-123 | once both the receive-complete and the transmit-complete handler have run, in either order, the link is not busy |
| Link.TxCompleted | 01_hm10_lib/Src/hm10.cpp:120-123 | clears the transmit flag and nothing else; busy afterwards means exactly "receive in progress" |
| Link.IsAlive | 01_hm10_lib/Src/hm10.cpp:248-257 | false whenever the exchange failed; otherwise true iff the reply frame starts with "OK" |
| Link.SetDataCallback | 01_hm10_lib/Src/hm10.cpp:31-34 | the data observer becomes the given one whatever was registered before; nothing else changes |
| Link.SetDeviceConnCallback | 01_hm10_lib/Src/hm10.cpp:37-40 | the connected observer becomes the given one; nothing else changes |
| Link.SetDeviceDisconnCallback | 01_hm10_lib/Src/hm10.cpp:43-46 | the disconnected observer becomes the given one; nothing else changes |
| Link.SetRfCommMode | 01_hm10_lib/Src/hm10.cpp:125-128 | RF-comm mode becomes the given flag; nothing else changes |
| Link.LatestDataObserverNotified | 01_hm10_lib/Src/hm10.cpp:31-34 | with no receive pending, after two registrations a plain data frame notifies the second observer, once |
| Link.ConnectionFollowsNotices | 01_hm10_lib/Src/hm10.cpp:170-215 | over any sequence of frames received with no receive pending, the connection flag is the one set by the last notice, or the starting flag if there is none |
| Link.PendingReceiveNotifiesNobody | 01_hm10_lib/Src/hm10.cpp:101-117 | a frame that completes while a receive is pending adds no event and leaves the connection flag and the MAC unchanged, even if it is a notice |
| Link.DeliverCountsConnected | 01_hm10_lib/Src/hm10.cpp:182-187 | with no receive pending and a connected observer registered, one delivered frame adds a connected notification iff it is an "OK+CONN" notice |
| Link.ConnectedObserverOncePerNotice | 01_hm10_lib/Src/hm10.cpp:182-187 | starting with no receive pending and a connected observer registered, over any sequence of frames the observer is notified exactly once per "OK+CONN" frame |
| Config.BaudValue | 01_hm10_lib/Inc/hm10_config.hpp:22-24 | a baud setting's table value is 0 exactly for `baud_invalid`; every valid setting maps to a real rate between 1200 and 230400 |
| Config.BaudFromCode | 01_hm10_lib/Inc/hm10_config.hpp:8-20 | codes 0 .. 9 name a setting, and that setting's code is the given one; larger codes name none |
| Config.FindBaudCode | 01_hm10_lib/Inc/hm10_config.hpp:22-24 | finds a valid code whose table value is v, or reports that no valid code has it |
| Config.BaudFromValue | 01_hm10_lib/Inc/hm10_config.hpp:22-24 | value → setting is a partial inverse: a result is a valid setting with that rate, and None means no valid setting has it |
| Config.BaudValuesDistinct | 01_hm10_lib/Inc/hm10_config.hpp:22-24 | the nine valid rates are pairwise distinct |
| Config.BaudRoundTrip | 01_hm10_lib/Inc/hm10_config.hpp:8-24 | every valid setting is recovered from its rate |
| Config.DefaultBaudMatchesUart | 01_hm10_lib/Inc/hm10.hpp:24 | the default setting `baud_9600` maps to 9600, the rate the UART is initialised with (uart.c line 3) |
| Config.SentinelIsNotACode | 01_hm10_lib/Inc/hm10_config.hpp:26-121 | in each of the nine setting enumerations, the `*_invalid` enumerator is 255, no named enumerator has that value, and every named value lies below it |
| Config.CodesContiguous | 01_hm10_lib/Inc/hm10_config.hpp:26-121 | in each of the nine setting enumerations, the named enumerators take the values 0, 1, 2, … in declaration order, so a code is valid exactly when it is below the number of named enumerators |
| Link.MacFitsField | 01_hm10_lib/Src/hm10.cpp:136-155 | a 12-character MAC at offset 8 ended by a delimiter fits the 15-character field: `copystr_from_resp(8, mac)` stays inside both buffers, puts the address in the first 12 characters and leaves the other 3 unchanged |
| Link.ConnNoticeStoresMac | 01_hm10_lib/Src/hm10.cpp:173-179 | an "OK+CONN" notice carrying a 12-character MAC connects the link and stores that address in the MAC field |

## Left out

- `start_uart` (hm10.cpp:48-53) and `__HAL_DMA_GET_COUNTER`: arming the DMA engine is hardware. The counter value is the `remaining` argument of `RxCompleted`.
- `copy_cmd_to_buff` and `copy_cmd_to_buff_varg` (hm10.cpp:259-283): variadic formatting through the C library's `vsniprintf`. `IsAlive`'s documentation names the command text "AT" (`AliveCommand`) and the 100-unit reply timeout (`AliveTimeout`). No formatting is modelled.
- `tx_and_rx`, `reboot`, `factory_reset` and the getters/setters that `test_modules.cpp` calls: the files modelled here hold only their declarations, or no text at all. `IsAlive` takes the outcome of `tx_and_rx` as a parameter. The transaction engine and the reboot/baud sequencing are not modelled.
- The constructor, `set_uart`, `UART()` and `buffer_size()`: they handle the HAL handle. The buffer size is the ring's length.
- `uart.c`, `main.cpp`, `freertos.cpp`, `main.h`, `uart.h`: peripheral, GPIO, DMA and NVIC set-up, plus task creation.
- `hm10_debug.hpp` and `hm10_debug.cpp`: logging, including the log call at hm10.cpp:96.
- `test_modules.cpp`: a hardware harness that only logs.
- Interrupt versus task races: `RxCompleted` is one atomic step.
- Framing loss: a burst longer than the ring between two idle interrupts overwrites unread bytes. The code cannot detect this and the model does not either. `FrameIsWhatArrived` assumes the burst is shorter than the ring.
- Link.DataCallbackSeesFrame: RF-comm delivery is stated only when the length byte lies inside the frame. A larger length byte makes the callback read past the frame, which the event records as a raw view and length.
- The names of the setting enumerators, such as `advert_546p25ms`, carry no behaviour. Only their values are transcribed (`Config.DeclaredCodes`).
- Link.HandleConnMessage: it takes the MAC with the bounded copy, so it differs from the source's copy in two cases, both listed under Findings. (1) A field longer than the 15-character MAC field makes the source's copy overrun the MAC field or the buffer; that undefined behaviour is not modelled. (2) A frame shorter than the MAC offset, such as the bare 7-character "OK+CONN", makes the source copy stale bytes from past the frame's terminator into the MAC and pass them to the connected callback. The model leaves the MAC unchanged instead. `Link.ConnMacAgreesWithSource` states that the two agree in every other case.
- Plain `char` is taken as unsigned, as on the ARM GCC target. The RF-comm length byte is therefore 0..255.

## Findings

| source | as written | input that shows it | evidently intended | confidence | as-written member | corrected member |
|---|---|---|---|---|---|---|
| 01_hm10_lib/Src/hm10.cpp:78 | the wrapped prefix length is `end - start`, which is negative when the ring has wrapped and so wraps to about 2^32 in `size_t` | 16-byte ring, read cursor 14, write cursor 4: length 4294967286 | capacity − read (here 2), as the comment on line 77 says | high; not executed | Framer.PrefixLenAsWrittenExample | Framer.CopyFrame |
| 01_hm10_lib/Src/hm10.cpp:144-154 | the copy has no bound on the destination, and line 179 hands it the 15-character MAC field | the frame "OK+CONN:" followed by 16 × 'A' | copy at most the 15 characters the field holds | medium; not executed | Responses.OverlongNoticeOverflows | Responses.CopyStrBounded |
| 01_hm10_lib/Src/hm10.cpp:179 | the MAC is copied from offset 8 even when the frame is shorter, so the copy reads past its terminator into bytes left by earlier messages | the bare frame "OK+CONN" with "AAAAAAAAAAAA" left at offsets 8-19 by an earlier message | copy nothing from past the frame's end | medium; not executed | Responses.BareNoticeCopiesStaleBytes | Responses.CopyStrBounded |
