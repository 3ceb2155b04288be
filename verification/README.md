# USB–UART bridge firmware: line editor and forwarder, in Dafny

This project models two pieces of the STM32 firmware in `stm-firmware/main.c`. The
firmware bridges a USB virtual serial port to a hardware UART.

- **`inputline`**: the blocking line editor. It reads bytes from a stream into a
  caller-supplied buffer of capacity `size` and echoes them back. It handles erase
  requests (DEL 0x7F and backspace 0x08), ends on CR or LF, and ignores other
  non-printable bytes. It returns the line length, or 0 when `size - 1` characters
  are held without a line break.
- **One pass of `tx_thread`'s inner loop**: bytes read from USB are echoed back to
  USB and written to the UART until a read yields 0.

The line editor is modelled twice:

- `LineEditor.Scan` / `LineEditor.Run` is a reference state machine over a finite
  input sequence. It makes one step per byte read and uses one decrement per
  erase. It returns a `Session`: how the run ended (`Line(len)`, `Exhausted`, or
  `Starved` when the input ran out and the firmware would still be blocked in
  `streamGet`), the edited line, the echo, and the number of bytes read.
- `InputLine.InputLine` mirrors the C control flow on an array. An erase
  decrements the index a second time (`main.c:72`), so at position 0 it reaches
  −1, and the `for` loop's post-increment brings it back to 0. It is proved to
  agree with `Run`.
  The C return value is recovered from the outcome by `LineEditor.ReturnCode`.

`LineEditor.Edits` / `LineEditor.Echoes` are a second, fold-shaped reference. They
apply the per-byte edit and echo to the bytes read. `ScanIsFold` / `RunIsFold`
prove that the state machine computes exactly these folds, up to the first line
break or the first prefix that fills the buffer.

Bytes are `Bytes.byte` (0..255). The C `char` buffer is also a sequence of bytes:
only 0 and printable values are ever stored in it. `isprint` is the C-locale range
0x20..0x7E. The stream is an input sequence plus an echo output sequence. The
caller's buffer is passed in by value (`buffer0`) and returned (`buffer`). The
method works on an array of exactly `size` slots. So Dafny's array bounds checks
prove that every write of the C code lands in `[0, size - 1]`, and the rest of the
caller's buffer comes back untouched.

## Model

| member | source | states |
|---|---|---|
| InputLine.InputLine | stm-firmware/main.c:57-90 | The C loop, including the double decrement on erase and the single decrement on an ignored byte, agrees with the reference `Run`. It returns the same code, echo and byte count, holds the edited line in `buffer[0..len)`, and blocks exactly when `Run` is starved. On a line break the code is in `[0, size-2]` and `buffer[code]` is NUL. On exhaustion the code is 0 and `buffer[size-1]` is NUL. Bytes from index `size` on are unchanged. |
| InputLine.EditByte | stm-firmware/main.c:63-73 | The erase, store and ignore arms of the switch. They leave the cursor in `[-1, size-2]`, one below where the post-increment puts it. After that increment the held line is exactly `Edit` of the old line. Each arm's writes to the array are stated exactly: an erase writes only NUL at the new cursor, a printable byte is written only at the old cursor, and an ignored byte writes nothing. The arm echoes exactly `Echo(c)`: BS SP BS for an erase (even at position 0), the byte itself if it is printable, and nothing otherwise. |
| LineEditor.Edit | stm-firmware/main.c:63-86 | What one non-terminating byte does to the held line. An erase drops the last character (none when the line is empty) and keeps the prefix. Any other byte keeps the line as a prefix and grows it by one exactly when the byte is printable, that byte then being last. Printable lines stay printable. `InputLine.EditByte` proves the C switch arms implement it, and `LineEditor.ScanIsFold` proves a run is its fold. |
| LineEditor.Echo | stm-firmware/main.c:63-86 | What one non-terminating byte echoes: at most three bytes, each printable or BS. The echo is empty exactly for ignored bytes and line ends, and a printable byte echoes itself. `InputLine.EditByte` and `LineEditor.ScanIsFold` tie it to the switch arms and to the run's echo. |
| LineEditor.Scan | stm-firmware/main.c:60-86 | From a held line of at most `limit` characters, the held line never exceeds `limit`. The run is exhausted exactly when the line fills `limit`. A `Line(len)` outcome has `len` equal to the line length, and its last byte read is CR or LF. A starved run read the whole input. Printable lines stay printable. Every echoed byte is printable or BS. |
| LineEditor.Run | stm-firmware/main.c:57-90 | One call holds at most `size-1` printable characters. `Line(len)` has `len <= size-2` and ends on a CR/LF byte. `Exhausted` holds exactly when `size-1` characters are held. The echo consists only of printable bytes and BS. |
| LineEditor.ReturnCode | stm-firmware/main.c:77-89 | The C return value is the line length on a line break and 0 when the buffer fills. It is 0 exactly for a full buffer or an empty line, so the caller cannot tell these two apart. |
| LineEditor.ScanIsFold | stm-firmware/main.c:60-86 | The line held is the fold of `Edit` over the bytes read before the first CR/LF, and the echo is the concatenation of their echoes. None of those bytes is a line end. Every proper prefix left room in the buffer. A line-break exit is followed by a CR/LF byte, and a starved run read everything. |
| LineEditor.RunIsFold | stm-firmware/main.c:57-90 | The same fold characterisation for a whole call, starting from an empty line with room for `size-1` characters. |
| LineEditor.EraseStep | stm-firmware/main.c:64-72 | DEL or BS below capacity shortens the line by one (by none when empty) and keeps its prefix. It echoes BS SP BS and reads one byte. |
| LineEditor.PrintStep | stm-firmware/main.c:78-81 | A printable byte is appended to the line and echoed once. |
| LineEditor.LineEndStep | stm-firmware/main.c:74-77 | CR or LF ends the call with `Line(n)` for the line held, echoing nothing. |
| LineEditor.IgnoredBytesInvisible | stm-firmware/main.c:82-84 | Any run of non-printable bytes other than BS, DEL, CR and LF is read but changes neither the line nor the echo. It does not count toward the capacity. |
| LineEditor.TypeThenErase | stm-firmware/main.c:64-81 | Typing a printable byte and then erasing it restores the line. The echo is the byte followed by BS SP BS. |
| LineEditor.EchoIsStoredWithoutErase | stm-firmware/main.c:69-81 | When no erase request is read, the echo is exactly the bytes appended to the line. |
| LineEditor.SizeOneReadsNothing | stm-firmware/main.c:60-89 | With `size == 1` no byte is read and the call reports a full buffer. |
| LineEditor.EraseAtStart | stm-firmware/main.c:66-72 | An erase request on an empty line leaves it empty, so the cursor never goes negative, and it still echoes BS SP BS. |
| LineEditor.ScenarioBackspace | stm-firmware/main.c:57-90 | "ab", BS, "c", CR into a 10-byte buffer gives the line "ac" and `Line(2)`. |
| LineEditor.ScenarioEmptyLine | stm-firmware/main.c:74-77 | A lone CR gives the empty line with return code 0. |
| LineEditor.ScenarioFull | stm-firmware/main.c:60-89 | Nine printable bytes in a 10-byte buffer are stored and echoed, and the call ends exhausted after reading exactly nine bytes. Its return code equals the empty line's. |
| LineEditor.FillsUp | stm-firmware/main.c:60-88 | Printable bytes that fill the remaining room are stored and echoed verbatim. The call then ends exhausted, whatever input follows. |
| Forwarder.ForwardPass | stm-firmware/main.c:99-102 | A pass reads up to and including the first zero byte, or the whole input if there is none. Every byte it forwards is non-zero. It writes exactly two bytes per forwarded byte. |
| Forwarder.RunPass | stm-firmware/main.c:99-102 | The inner `while` loop computes exactly `ForwardPass`. |
| Forwarder.PassInterleaving | stm-firmware/main.c:99-102 | Byte `j` of the input is echoed to USB at write `2j` and sent to the UART at write `2j+1`. |
| Forwarder.PassSends | stm-firmware/main.c:99-102 | For either port, the bytes a pass writes there are exactly the input bytes it forwarded, in order. |
| Forwarder.PassForwardsPrefix | stm-firmware/main.c:99-102 | The bytes sent to the UART and those echoed to USB are each exactly the maximal non-zero prefix of the input, so the terminating zero never reaches the UART. |
| Forwarder.NonZeroAfterPass | stm-firmware/main.c:97-104 | The non-zero bytes of the input are those a pass forwards, followed by the non-zero bytes it left unread. |
| Forwarder.Bridge | stm-firmware/main.c:97-104 | The writes of the outer `while (1)` of `tx_thread` over a finite input, passes back to back. The number of writes is even (passes write in USB/UART pairs) and at most twice the number of bytes read. What reaches each port is characterised by `Forwarder.BridgeForwardsNonZero`. |
| Forwarder.BridgeForwardsNonZero | stm-firmware/main.c:97-104 | Over any finite input, successive passes deliver exactly the input's non-zero bytes to the UART and echo the same bytes to USB, in order. |

## Left out

- `main` bring-up (`main.c:128-175`): HAL and kernel initialisation, the USB disconnect/connect delay, pin modes, the UART configuration (115200 baud, 1 stop bit), and the timed start-up handshake. These are hardware set-up and sleeps.
- Thread creation, the infinite outer loops and the 100 ms sleep of `tx_thread`. `Forwarder.Bridge` runs passes back to back over a finite input; the sleep has no effect on the bytes.
- `rx_thread` (`main.c:110-120`): its behaviour is the timeout of `sdReadTimeout` and `chprintf` formatting, a foreign library.
- `serial_write` (`main.c:122-126`): a thin wrapper over `strlen`, `sdWrite` and `chprintf`.
- Negative `msg_t` status codes from `streamGet` being truncated to `unsigned char`: input is a plain sequence of bytes.
- Blocking reads: when the input sequence runs out, the model reports `Starved` (`waiting` in `InputLine.InputLine`) instead of blocking.
- `isprint` is modelled for the C locale only (0x20..0x7E).
- In-place mutation of the caller's buffer: the model takes the buffer's contents by value and returns its final contents.
