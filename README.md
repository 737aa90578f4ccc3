# STM32F3DISCOVERY exercises, modelled in Dafny

This project models five bare-metal programs for the STM32F3DISCOVERY board.
Each program drives a peripheral of the microcontroller by hand:

- `registers` switches two LEDs on and off with raw 32-bit stores to the
  bit set/reset register (BSRR) of GPIO port E.
- `led_roulette` turns each LED of the compass on, lights the next one 100 ms
  later and turns the first off 50 ms after that.
- `clocks_and_timers` makes its own `delay` out of the basic timer TIM6
  (auto-reload register, one-pulse mode, prescaler, update flag). It uses it
  to rotate a single lit LED around the ring of eight.
- `usart` waits for one received byte on USART1, then prints
  "The answer is 42" through a `core::fmt::Write` implementation that polls
  the TXE flag before each store to TDR.
- `echo_server` reads bytes into a 32-byte `heapless::Vec` until `'\n'`. It
  reports every byte that does not fit, then sends the buffered bytes back
  reversed, followed by a newline.

## Modules

- `Ints` holds the unsigned widths the programs use (`u8`, `u16`, `u32`) as
  subsets of `int`.
- `Fmt` covers what `core::fmt` produces for the arguments the programs print:
  - the bytes of an ASCII literal;
  - the decimal digits of an integer (`{}` of a `u8` or of `40 + 2`);
  - the UTF-8 bytes of `byte as char`.
- `Serial` models USART1 as the class `SerialPort`.
  - The hardware's answers are oracles. For each coming busy-wait on RXNE or
    TXE there is the number of polls that still see the flag clear, and there
    are the values successive loads of RDR return.
  - `bus` logs every access (ISR poll, RDR load, TDR store).
  - `Sent(bus)` is the low byte of every TDR store, so it is what the other
    end of the line receives.
  - `ReadByte`, `WriteStr` and `Uprint` model `read_byte`, `write_str` and
    the `uprint!` macro. `write_fmt` hands the formatted pieces to
    `write_str` one after the other.
- `Echo` has three parts:
  - `LineBuffer` is the `heapless::Vec<u8, 32>`: an array and a length, with
    `clear`, `push` and `reverse`.
  - The main loop is split into the receive loop, `ReceiveLine`, and the
    echo loop, `EchoBack`.
  - `LineTrace` defines the bus accesses of one pass, in order, byte by
    byte: each byte's RXNE busy-wait and RDR load, then the accesses of its
    error line if it was rejected, before the next byte is read.
  - `LineOutput(cap, line)` defines the bytes sent for one
    line. It is the error lines of the rejected bytes, then the echo of the
    kept bytes reversed, then `'\n'`.
- `Usart` is the `usart` program's `main`.
- `Leds` is the shared vocabulary of LED programs:
  - a sequence of `On`, `Off` and `Wait` steps;
  - `Run`, which applies steps to the LED states;
  - `TotalWait`, the total time the steps wait;
  - the class `Board`: the LED array (`array<bool>`) and the record of every
    call made on it so far. `TurnOn`, `TurnOff` and `Waited` change the
    array and append their own step to the record. Its invariant is that
    the LEDs are the start states run through the recorded calls.
- `Roulette` is `led_roulette`. Its loop methods work on a `Board`. They
  are proved to add exactly the calls of `Iteration` and `Plan` to the
  record, in order, so the call order comes from the calls the methods make.
- `ClocksAndTimers` has two parts:
  - `Tim6` is the timer as a class with CR1, PSC, ARR, the update flag and a
    log of register accesses. The number of polls before each update event
    is an oracle.
  - `Delay`, `Setup` and the rotation loop are modelled on it, with the
    rotation's effect on the LEDs. The loop drives a `Board`; each `delay`
    is recorded on it as a wait of `ms` milliseconds (`LoopDelay`).
- `Registers` is GPIOE:
  - the port's sixteen output pins;
  - the effect of a BSRR store (bits 0..15 set pins, bits 16..31 reset
    them);
  - the four stores of `registers`' `main`.

## Where the code differs from what one might expect

- **Echo includes the terminator.** The echo server pushes the terminating
  `'\n'` into the buffer like any other byte, so it is reversed along with
  the rest. "hello\n" therefore comes back as "\nolleh\n"
  (`Echo.HelloComesBackReversed`), not "olleh\n".
- **A full buffer also rejects `'\n'`.** When the buffer is full, `push`
  rejects the `'\n'` as well. The terminator then gets its own error line
  ("... cannot write 10"), and the loop still ends because the byte read was
  `'\n'` (`Echo.LineThatOverflows`).
- **The buffer holds 32 bytes.** The capacity is fixed at 32 by the type
  `Vec<u8, 32>`.
- **Starting the counter clears one-pulse mode.** `delay` writes CR1 with
  `write`, which starts from the register's reset value. Setting CEN there
  therefore clears the OPM bit that `main` set (`CR1_START`,
  `ClocksAndTimers.StartClearsOnePulse`). After the first `delay` the timer
  keeps counting, and only the update flag paces the loop.

## Model

| member | source | states |
|---|---|---|
| Fmt.Ascii | echo_server/src/main.rs:79 | the bytes of an ASCII string literal: one byte per character, equal to its code |
| Fmt.Digit | usart/src/main.rs:57 | the character of a decimal digit is a digit character whose distance from '0' is the digit |
| Fmt.Decimal | usart/src/main.rs:57 | `{}` of a number is a non-empty run of digit characters with no leading zero, one character exactly for numbers below ten |
| Fmt.DigitValue | usart/src/main.rs:57 | reading a digit character gives back the digit whose character it is |
| Fmt.ParseDecimalOfDecimal | echo_server/src/main.rs:79 | reading back the decimal digits printed for n gives n: nothing of the number is lost |
| Fmt.DecimalOfByte | echo_server/src/main.rs:79 | a u8 prints as at most three digits |
| Fmt.EncodeChar | echo_server/src/main.rs:89 | `byte as char` written with `{}`: an ASCII byte goes out as itself, any other as a two-byte UTF-8 sequence (lead 0xC2 or 0xC3, continuation byte) |
| Fmt.EncodeCharRoundTrip | echo_server/src/main.rs:89 | decoding the UTF-8 sent for a byte gives the byte back |
| Serial.Low8 | echo_server/src/main.rs:31 | `bits() as u8` keeps the low byte (the value is the high byte times 256 plus the result), and a value that fits in a byte, as `byte as u16` stores it, reads back unchanged |
| Serial.BusyWait | echo_server/src/main.rs:30 | a busy-wait is a run of polls that see the flag clear, ended by the one poll that sees it set |
| Serial.TxTrace | echo_server/src/main.rs:36-46 | the accesses of `write_str(s)`: per byte of `s`, a TXE busy-wait and then one TDR store of the byte (its properties: `SentTxTrace`, `TxTraceShape`); the same for the identical `write_str` at usart/src/main.rs:27-40 |
| Serial.Sent | echo_server/src/main.rs:42 | the bytes that reach the line: the low byte of each TDR store, in order; polls and loads send nothing (`SentAppend`, `SentBusyWait`, `ReceiveSendsNothing`) |
| Serial.Flatten | echo_server/src/main.rs:9-13 | the text `write_fmt` sends: its pieces one after another (`FlattenErrorPieces`, `FlattenOne`) |
| Serial.Polled | echo_server/src/main.rs:30 | a poll that sees the flag set ends its busy-wait; one that sees it clear leaves one clear poll fewer |
| Serial.SerialPort.constructor | echo_server/src/main.rs:66 | a port with the given hardware answers and nothing yet on the bus |
| Serial.SerialPort.PollRxne | echo_server/src/main.rs:30 | a read of ISR.RXNE: sees the flag set exactly when no clear poll is left, logs the read and changes nothing else |
| Serial.SerialPort.PollTxe | echo_server/src/main.rs:39 | a read of ISR.TXE, the same for the transmitter |
| Serial.SerialPort.WaitRxne | echo_server/src/main.rs:30 | the busy-wait loop logs exactly the polls of one busy-wait and consumes that busy-wait, nothing else |
| Serial.SerialPort.WaitTxe | echo_server/src/main.rs:39 | the same for TXE |
| Serial.SerialPort.LoadRdr | echo_server/src/main.rs:31 | one load of RDR returns the next received value and logs the load |
| Serial.SerialPort.ReadByte | echo_server/src/main.rs:29-32 | `read_byte` waits for RXNE, loads RDR once and returns its low byte; nothing is sent |
| Serial.SerialPort.WriteStr | echo_server/src/main.rs:36-46 | `write_str` logs, byte by byte, a TXE busy-wait and then a TDR store of the byte; it always returns `Ok` (the same `write_str` is at usart/src/main.rs:27-40) |
| Serial.SerialPort.Uprint | echo_server/src/main.rs:9-13 | `uprint!` adds to the bus exactly the accesses of writing the concatenation of the formatted pieces (a TXE busy-wait before each TDR store), so it sends exactly that concatenation; it consumes one TXE busy-wait per byte and leaves RXNE and RDR untouched; the `uprint!` and `uprintln!` macros of `usart` (usart/src/main.rs:7-20) are the same |
| Serial.TxTraceAppend | echo_server/src/main.rs:36-46 | writing `a` and then `b` makes the accesses of `a` followed by those of `b`, the second starting where the TXE oracle was left by the first |
| Serial.PollStep | echo_server/src/main.rs:30 | one poll of a busy-wait keeps the rest of the bus trace of that busy-wait in step, and a poll that sees the flag set completes it |
| Serial.PollClear | echo_server/src/main.rs:39 | a poll that sees the flag clear leaves a busy-wait that is one poll shorter and ends on the same trace |
| Serial.WriteStrStep | echo_server/src/main.rs:37-43 | one pass of `write_str`'s loop extends the trace so that the remainder of the string completes the whole call's trace |
| Serial.SentAppend | echo_server/src/main.rs:42 | the bytes sent by two runs of accesses are those of the first followed by those of the second |
| Serial.ReceiveSendsNothing | echo_server/src/main.rs:29-32 | receiving a byte (busy-wait plus RDR load) transmits nothing |
| Serial.SentBusyWait | echo_server/src/main.rs:39 | polling a flag transmits nothing |
| Serial.SentTxTrace | echo_server/src/main.rs:36-46 | the bytes `write_str(s)` puts on the line are exactly `s` |
| Serial.TxTraceShape | echo_server/src/main.rs:37-43 | every access `write_str` makes is a TXE poll or a TDR store, and every store directly follows a poll that saw TXE set |
| Echo.Reversed | echo_server/src/main.rs:86 | the reversal of a sequence has its length |
| Echo.ReversedAt | echo_server/src/main.rs:86 | element k of the reversal is element len-1-k of the original |
| Echo.ReversedTwice | echo_server/src/main.rs:86 | reversing twice gives the bytes back |
| Echo.ReversedCons | echo_server/src/main.rs:86 | the byte received first comes last in the reversal |
| Echo.LineBuffer.constructor | echo_server/src/main.rs:67 | `Vec::new()`: an empty buffer over a fresh array of the given capacity |
| Echo.LineBuffer.Clear | echo_server/src/main.rs:70 | `clear` empties the buffer and keeps its storage |
| Echo.LineBuffer.Push | echo_server/src/main.rs:76-82 | `push` appends the byte when there is room and returns `Ok`; on a full buffer it hands the same byte back and leaves the contents unchanged |
| Echo.LineBuffer.Reverse | echo_server/src/main.rs:86 | `reverse` leaves the held bytes reversed, in place |
| Echo.SwappedAll | echo_server/src/main.rs:86 | swapping the ends pairwise until they meet in the middle gives the reversal |
| Echo.Received | echo_server/src/main.rs:31 | the bytes `read_byte` delivers are the low bytes of the RDR values, one for one |
| Echo.LineLength | echo_server/src/main.rs:73-74 | the loop reads up to and including the first `'\n'` and no further |
| Echo.Line | echo_server/src/main.rs:72-74 | the bytes one pass of the main loop reads: the input up to and including its first `'\n'` (`LineIsLine`) |
| Echo.Kept | echo_server/src/main.rs:76-77 | the bytes of a line that `push` accepts: the first `cap` (`LineSplit`) |
| Echo.Rejected | echo_server/src/main.rs:78-81 | the bytes of a line that `push` hands back: the rest, in arrival order (`LineSplit`) |
| Echo.LineIsLine | echo_server/src/main.rs:73-74 | the bytes read for a line end with its only `'\n'` and are a prefix of the input |
| Echo.LineSplit | echo_server/src/main.rs:76-81 | every byte of a line is either kept or rejected, in order; the buffer keeps as many as fit and all of a line that fits |
| Echo.EchoTextSnoc | echo_server/src/main.rs:88-89 | echoing one more byte appends that byte's characters |
| Echo.ErrorTextSnoc | echo_server/src/main.rs:78-80 | rejecting one more byte appends its error line |
| Echo.ErrorPieces | echo_server/src/main.rs:79 | the pieces `uprintln!` hands to `write_str` for an error: the message, the byte's decimal digits, `'\n'` (`FlattenErrorPieces`) |
| Echo.ErrorLine | echo_server/src/main.rs:79 | the error line of a rejected byte: the message, its decimal digits, `'\n'` (`ErrorLineIsOneLine`, `ErrorLineNamesByte`) |
| Echo.ErrorText | echo_server/src/main.rs:76-82 | the error lines of the rejected bytes, in arrival order (`ErrorTextSnoc`, `ErrorTextLines`) |
| Echo.EchoText | echo_server/src/main.rs:88-90 | what `uprint!(serial, "{}", *byte as char)` sends for the bytes, one after another (`EchoTextLength`, `EchoTextIsIdentity`) |
| Echo.LineOutput | echo_server/src/main.rs:70-91 | what one pass of the main loop sends: the error lines of the rejected bytes, then the kept bytes reversed as characters, then `'\n'` (`EchoLine`, `LineThatFits`, `LineThatOverflows`) |
| Echo.FlattenErrorPieces | echo_server/src/main.rs:79 | the pieces of the error message spell its error line |
| Echo.FlattenOne | echo_server/src/main.rs:89 | a single piece is sent as itself |
| Echo.EchoLine | echo_server/src/main.rs:70-91 | one pass of the main loop reads exactly the next line; adds to the bus exactly `LineTrace` of it: each byte's RXNE busy-wait and RDR load, followed, for a rejected byte, by the TXE busy-waits and TDR stores of its error line before the next byte is read, then the echo of the kept bytes reversed and `'\n'`; so it sends exactly `LineOutput` (`SentLineTrace`); leaves the kept bytes reversed in the buffer, and the RDR values and RXNE busy-waits after the line and the TXE busy-waits after its output for the next pass |
| Echo.EchoOneLine | echo_server/src/main.rs:70-91 | the same for a given line of the input |
| Echo.EchoTwoLines | echo_server/src/main.rs:66-91 | two passes of the loop chain: the second starts from the port, oracles and buffer the first leaves; the bus gets the first line's `LineTrace` followed by the second's, on what the first left of each oracle; the input and both oracles move on by what the two lines use |
| Echo.PushTrace | echo_server/src/main.rs:76-82 | the accesses `push` of byte n leads to: none while the buffer has room; otherwise those of writing its error line, on the TXE busy-waits the earlier error lines left |
| Echo.ReceiveTrace | echo_server/src/main.rs:72-84 | the accesses of the receive loop over the first n bytes: per byte, the RXNE busy-wait, the RDR load, then its `PushTrace`, before the next byte |
| Echo.LineTrace | echo_server/src/main.rs:70-91 | the accesses of one pass: the receive loop's, then the echo of the kept bytes reversed and `'\n'` on the TXE busy-waits the error lines left |
| Echo.ErrorRoom | echo_server/src/main.rs:78-80 | the error line of a rejected byte fits in what the line's error text leaves after the error lines before it |
| Echo.SentReceiveTrace | echo_server/src/main.rs:72-84 | the receive loop over n bytes sends exactly the error lines of the bytes rejected among them |
| Echo.SentPush | echo_server/src/main.rs:76-82 | `push` of a byte sends its error line if the byte was rejected and nothing otherwise |
| Echo.ErrorTextStep | echo_server/src/main.rs:76-82 | one more byte adds its error line to the error text exactly when it is rejected |
| Echo.SentLineTrace | echo_server/src/main.rs:70-91 | what a pass puts on the bus sends exactly `LineOutput` of the line |
| Echo.ReverseAndEcho | echo_server/src/main.rs:86-91 | `reverse` then the echo loop: the buffer holds the kept bytes reversed, and the bus gets exactly the accesses of writing their characters and `'\n'`, one TXE busy-wait per byte; nothing is read |
| Echo.LinesInOrder | echo_server/src/main.rs:72-74 | of two lines at the head of the input, the second is at the head of what is left once the first is read |
| Echo.EchoFirstLine | echo_server/src/main.rs:66-91 | `main` up to the end of the first line: a fresh 32-byte buffer, then the output of the first line |
| Echo.ReceiveLine | echo_server/src/main.rs:72-84 | the receive loop consumes exactly the line's RDR values and RXNE busy-waits, leaves the bytes that fit in the buffer, adds to the bus exactly `ReceiveTrace` of the line (each rejected byte's error line written before the next byte is read), and consumes one TXE busy-wait per byte of the error text |
| Echo.ReceiveByte | echo_server/src/main.rs:74-82 | one pass of the receive loop reads byte n of the line, signals the end exactly at the terminator, extends the bus by that byte's accesses and keeps the loop state for n+1 |
| Echo.ReadLineByte | echo_server/src/main.rs:74 | the byte read is byte n of the line and is `'\n'` exactly for the last one; one RDR value and one RXNE busy-wait are consumed and exactly that busy-wait and the load are logged; TXE is untouched |
| Echo.StoreByte | echo_server/src/main.rs:76-82 | pushing byte n keeps the buffer equal to the first bytes that fit, the sent text equal to the errors of the rejected bytes so far, and adds exactly the byte's `PushTrace` to the bus |
| Echo.RejectByte | echo_server/src/main.rs:78-81 | a byte that did not fit adds its error line to the error text sent for the line, as exactly the byte's `PushTrace` on the bus |
| Echo.ReportRejected | echo_server/src/main.rs:79 | `uprintln!` of the error makes exactly the accesses of writing the error line of the byte, so it sends exactly that line |
| Echo.LineDone | echo_server/src/main.rs:73-83 | when the loop has read the whole line, the buffer holds the kept bytes, the bus holds the line's `ReceiveTrace`, the error text of the rejected bytes has been sent, and the input and both flag oracles have moved on by exactly what the line used |
| Echo.RejectedBound | echo_server/src/main.rs:78-81 | the error text sent after any number of bytes is no longer than that of the whole line |
| Echo.FitsStep | echo_server/src/main.rs:77 | a byte that arrives while there is room is kept and reports nothing |
| Echo.OverflowStep | echo_server/src/main.rs:78-81 | a byte that arrives when the buffer is full is not kept and adds its error line |
| Echo.EchoBack | echo_server/src/main.rs:88-91 | the echo loop adds to the bus exactly the accesses of writing each buffered byte as a character, then `'\n'`, consuming one TXE busy-wait per byte sent; it reads nothing and leaves RXNE untouched |
| Echo.EchoByte | echo_server/src/main.rs:89 | one pass of the echo loop extends the bus with the accesses of writing the characters of byte i after those of the bytes before it, consuming one TXE busy-wait per byte sent; RDR and RXNE are untouched |
| Echo.EchoStep | echo_server/src/main.rs:88-89 | the echo of the first i+1 bytes is that of the first i followed by byte i, and is no longer than the whole echo |
| Echo.EchoTextPrefixOf | echo_server/src/main.rs:88-90 | the echo of a prefix is a prefix of the echo |
| Echo.EchoTextOne | echo_server/src/main.rs:89 | echoing one byte sends its characters |
| Echo.Wide | echo_server/src/main.rs:89 | the number of bytes above 0x7F is at most the number of bytes |
| Echo.EchoTextLength | echo_server/src/main.rs:89 | the echo is one byte longer than the input for each byte above 0x7F |
| Echo.EchoTextIsIdentity | echo_server/src/main.rs:89 | the echo is the bytes themselves if and only if every byte is ASCII |
| Echo.AsciiEchoesItself | echo_server/src/main.rs:89 | ASCII bytes are echoed unchanged |
| Echo.WideAt | echo_server/src/main.rs:89 | a byte above 0x7F anywhere makes the echo longer |
| Echo.Newlines | echo_server/src/main.rs:79 | a text has no more newlines than bytes |
| Echo.NewlinesAppend | echo_server/src/main.rs:78-80 | the newlines of a concatenation add up |
| Echo.NoNewlines | echo_server/src/main.rs:79 | a text without `'\n'` has no newlines |
| Echo.ErrorLineIsOneLine | echo_server/src/main.rs:79 | each error report is exactly one line, ended by `'\n'` |
| Echo.ErrorLineNamesByte | echo_server/src/main.rs:79 | an error line is the fixed message, then one to three digits that read back as the rejected byte, then `'\n'` |
| Echo.ErrorTextLines | echo_server/src/main.rs:78-81 | the error text has one line per rejected byte |
| Echo.NothingRejected | echo_server/src/main.rs:70-91 | a line that fits gets no error lines: the output is its echo reversed and `'\n'` |
| Echo.LineThatFits | echo_server/src/main.rs:70-91 | a line that fits is answered with its bytes reversed plus `'\n'`, and the answer starts with the line's own terminator |
| Echo.EchoStartsWithTerminator | echo_server/src/main.rs:73-89 | the reversed echo of a line starts with the pushed `'\n'` |
| Echo.LineThatOverflows | echo_server/src/main.rs:73-81 | for a line longer than the buffer, every byte past the capacity is reported, the terminator last (as "10"), and the first `cap` bytes come back reversed |
| Echo.AsciiLineThatFits | echo_server/src/main.rs:86-91 | an ASCII line that fits comes back as its exact reversal plus `'\n'` |
| Echo.HelloComesBackReversed | echo_server/src/main.rs:64-91 | "hello\n" is answered with "\nolleh\n" |
| Usart.AnswerPieces | usart/src/main.rs:57 | `uprintln!` with one argument hands three pieces to `write_str` |
| Usart.AnswerText | usart/src/main.rs:57 | the pieces spell "The answer is 42\n" |
| Usart.AnswerMain | usart/src/main.rs:47-57 | `main` waits for RXNE, reads one byte (its low byte of RDR), then makes exactly the accesses of writing "The answer is 42\n" (a TXE busy-wait before each TDR store), so it sends exactly that text; one RXNE and one TXE busy-wait per byte sent are consumed |
| Leds.Run | led_roulette/src/main.rs:19-30 | running steps keeps the number of LEDs |
| Leds.Apply | led_roulette/src/main.rs:21-29 | one call: `on` lights its LED, `off` darkens it, a delay changes nothing, no other LED is touched (`RunSnoc`, `LitStaysAmong`) |
| Leds.TotalWait | led_roulette/src/main.rs:23-27 | the milliseconds spent in the delays of a run of calls (`TotalWaitAppend`, `TotalWaitSnoc`) |
| Leds.RunAppend | led_roulette/src/main.rs:19-30 | running two step sequences one after the other is running their concatenation |
| Leds.RunSnoc | led_roulette/src/main.rs:21-29 | one more call acts on the states the earlier calls left |
| Leds.TotalWaitAppend | led_roulette/src/main.rs:23-27 | waiting times add up over concatenated step sequences |
| Leds.TotalWaitSnoc | led_roulette/src/main.rs:23-27 | one more step adds its delay, if it is one |
| Leds.Board.constructor | led_roulette/src/main.rs:9 | the LED array as `init` hands it over, with the given states and no call recorded yet |
| Leds.Board.TurnOn | led_roulette/src/main.rs:21 | `leds[i].on()` lights LED i, changes no other, and is recorded as `On(i)` after the earlier calls; the LEDs stay the start states run through the recorded calls; likewise `leds[next].on()` at clocks_and_timers/src/main.rs:44 |
| Leds.Board.TurnOff | led_roulette/src/main.rs:29 | `leds[i].off()` darkens LED i, changes no other, and is recorded as `Off(i)` after the earlier calls; likewise `leds[curr].off()` at clocks_and_timers/src/main.rs:46 |
| Leds.Board.Waited | led_roulette/src/main.rs:23-27 | a delay of `ms` milliseconds changes no LED and is recorded as `Wait(ms)` |
| Leds.Board.Since | led_roulette/src/main.rs:19-30 | the LEDs now are the states shown at an earlier point run through the calls recorded since then |
| Leds.AllOff | led_roulette/src/main.rs:9 | all LEDs dark: none is lit (used by `FirstPassFromDark`) |
| Leds.LitStaysAmong | led_roulette/src/main.rs:19-30 | steps that only switch on LEDs of a set never light an LED outside it |
| Roulette.Next | led_roulette/src/main.rs:25 | the next LED is a valid index, and it is the first one exactly after the last |
| Roulette.NextIsSuccessorModulo | led_roulette/src/main.rs:24-25 | the next LED is i + 1 modulo the number of LEDs |
| Roulette.Iteration | led_roulette/src/main.rs:20-29 | the calls of one iteration address only LEDs of the array |
| Roulette.Plan | led_roulette/src/main.rs:19 | the calls of the first n iterations address only LEDs of the array |
| Roulette.RouletteIteration | led_roulette/src/main.rs:20-29 | the loop body adds to the board's record exactly the calls of iteration i, on(i), 100 ms, on(next), 50 ms, off(i), in the order it makes them, and leaves the LEDs as those calls do |
| Roulette.RoulettePass | led_roulette/src/main.rs:19-30 | the `for` loop adds to the record exactly the calls of iterations 0 to len-1, in order, and leaves the LEDs as those calls do |
| Roulette.IterationSteps | led_roulette/src/main.rs:20-29 | an iteration is on(i), 100 ms, on(next), 50 ms, off(i), in that order |
| Roulette.IterationWait | led_roulette/src/main.rs:22-27 | each iteration waits 150 ms |
| Roulette.PassWait | led_roulette/src/main.rs:18-30 | n iterations wait 150·n ms |
| Roulette.IterationEffect | led_roulette/src/main.rs:21-29 | an iteration lights LED i and the next one and darkens LED i again; no other LED changes |
| Roulette.PartialPass | led_roulette/src/main.rs:19-30 | after 1 ≤ n < count iterations, whatever the LEDs showed, the LEDs before n are dark, LED n is lit and those after n are as they were |
| Roulette.FullPass | led_roulette/src/main.rs:19-30 | whatever the LEDs showed before, a full pass leaves exactly the first LED lit |
| Roulette.LitAfterIteration | led_roulette/src/main.rs:19-30 | after iteration i exactly LED (i + 1) mod count is lit |
| Roulette.LitBeforeIteration | led_roulette/src/main.rs:19-30 | before iteration i no LED other than i is lit |
| Roulette.IterationLights | led_roulette/src/main.rs:21-25 | an iteration switches on only LED i and the next one |
| Roulette.AtMostTwoLit | led_roulette/src/main.rs:18-30 | at every point of iteration i only LED i and the next one can be lit |
| ClocksAndTimers.CounterRate | clocks_and_timers/src/main.rs:32-37 | the counter rate is the APB1 clock divided by PSC + 1, rounded down |
| ClocksAndTimers.OneTickPerMillisecond | clocks_and_timers/src/main.rs:32-37 | PSC = 7999 divides 8 MHz exactly into 1 kHz: one tick per millisecond |
| ClocksAndTimers.UifWait | clocks_and_timers/src/main.rs:14 | the wait is a run of SR reads that see UIF clear, ended by one that sees it set |
| ClocksAndTimers.ClearPolls | clocks_and_timers/src/main.rs:14 | SR reads that still see UIF clear: none when UIF is already set, otherwise those before the next update event (`StaleUifSkipsWait`) |
| ClocksAndTimers.AfterWait | clocks_and_timers/src/main.rs:14 | the update events left once the wait has seen UIF set: a stale UIF uses none up (`StaleUifSkipsWait`) |
| ClocksAndTimers.DelayTrace | clocks_and_timers/src/main.rs:7-18 | `delay(ms)` writes ARR with ms, then CR1 with CEN, then polls SR until UIF is set, then clears UIF |
| ClocksAndTimers.StaleUifSkipsWait | clocks_and_timers/src/main.rs:15-17 | a `delay` entered with UIF still set polls once and returns without using an update event |
| ClocksAndTimers.Tim6.constructor | clocks_and_timers/src/main.rs:22 | TIM6 after reset: counter disabled, one-pulse off, UIF clear, PSC 0, ARR 0xFFFF, nothing logged |
| ClocksAndTimers.Tim6.WriteCr1 | clocks_and_timers/src/main.rs:12 | a CR1 write replaces the whole register and logs it |
| ClocksAndTimers.Tim6.WritePsc | clocks_and_timers/src/main.rs:37 | a PSC write sets the prescaler and logs it |
| ClocksAndTimers.Tim6.WriteArr | clocks_and_timers/src/main.rs:10 | an ARR write sets the reload value and logs it |
| ClocksAndTimers.Tim6.ClearUif | clocks_and_timers/src/main.rs:17 | the SR write clears UIF and logs it |
| ClocksAndTimers.Tim6.PollUif | clocks_and_timers/src/main.rs:14 | a UIF read sees the flag set exactly when it already was or the update event is due; the event sets UIF, is consumed and, in one-pulse mode, stops the counter |
| ClocksAndTimers.Tim6.Delay | clocks_and_timers/src/main.rs:7-18 | `delay(ms)` leaves ARR = ms, the counter running, UIF clear and PSC unchanged, uses at most one update event, and logs exactly its register accesses |
| ClocksAndTimers.Setup | clocks_and_timers/src/main.rs:26-37 | after setup, one-pulse mode is on, the counter is stopped and PSC gives 1 kHz |
| ClocksAndTimers.StartClearsOnePulse | clocks_and_timers/src/main.rs:12-30 | `CR1_START`, the CR1 value `delay` writes (line 12), enables the counter with one-pulse mode off; `CR1_SETUP`, the one setup writes (line 30), has one-pulse mode on and the counter off |
| ClocksAndTimers.NextLed | clocks_and_timers/src/main.rs:42 | `(curr + 1) % 8` is an LED other than curr, and 0 exactly after the last |
| ClocksAndTimers.RotationStep | clocks_and_timers/src/main.rs:41-48 | the calls of one iteration address only the eight LEDs |
| ClocksAndTimers.Rotation | clocks_and_timers/src/main.rs:41 | the calls of the first n iterations address only the eight LEDs |
| ClocksAndTimers.UpdatesUsed | clocks_and_timers/src/main.rs:41-48 | the update events the delays of the first iterations use: two per iteration, one fewer when UIF was left set (`UpdatesUsedStep`, `RotationPass`) |
| ClocksAndTimers.UpdatesUsedStep | clocks_and_timers/src/main.rs:45-47 | the update events used by one more iteration follow those of the earlier ones |
| ClocksAndTimers.LoopDelay | clocks_and_timers/src/main.rs:45 | `delay(tim6, ms)` inside the loop: the timer effect of `Tim6.Delay`, and the wait of ms milliseconds recorded on the board, no LED changed |
| ClocksAndTimers.RotationIteration | clocks_and_timers/src/main.rs:42-47 | one iteration adds to the board's record exactly on(next), 50 ms, off(curr), 50 ms, in the order it makes them, and leaves the LEDs as those calls do; uses two update events (one if UIF was stale); logs two delay traces |
| ClocksAndTimers.RotationPass | clocks_and_timers/src/main.rs:41-48 | the `for` loop adds to the record exactly the calls of the whole rotation, in order, leaves the LEDs as those calls do and uses 16 update events (15 if UIF was stale) |
| ClocksAndTimers.PassStep | clocks_and_timers/src/main.rs:41-48 | one pass of the `for` loop extends the recorded calls and the update events used by one iteration |
| ClocksAndTimers.RotationStepEffect | clocks_and_timers/src/main.rs:44-47 | an iteration lights the next LED and darkens the current one; no other LED changes |
| ClocksAndTimers.StepWait | clocks_and_timers/src/main.rs:44-47 | each iteration waits twice 50 ms |
| ClocksAndTimers.RotationWait | clocks_and_timers/src/main.rs:39-48 | n iterations wait 100·n ms |
| ClocksAndTimers.LitAfterStep | clocks_and_timers/src/main.rs:44-47 | if at most the current LED was lit, afterwards exactly the next one is |
| ClocksAndTimers.LitAfterRotation | clocks_and_timers/src/main.rs:40-48 | from all dark or only LED 0 lit, after n iterations exactly LED n mod 8 is lit |
| ClocksAndTimers.PassEndsWithFirstLit | clocks_and_timers/src/main.rs:40-48 | a full pass ends with only LED 0 lit, which is where the next pass starts |
| ClocksAndTimers.FirstPassFromDark | clocks_and_timers/src/main.rs:40-48 | starting from all eight LEDs dark, the first pass already ends with only LED 0 lit |
| ClocksAndTimers.LitBeforeStep | clocks_and_timers/src/main.rs:40-48 | before iteration curr no LED other than curr is lit |
| ClocksAndTimers.StepLights | clocks_and_timers/src/main.rs:44 | an iteration switches on only the next LED |
| ClocksAndTimers.AtMostTwoLitRotation | clocks_and_timers/src/main.rs:40-48 | at every point of iteration curr only LED curr and the next one can be lit |
| Registers.BsrrAddress | registers/src/main.rs:32-41 | 0x48001018 is BSRR (offset 0x18) of the GPIOE block at 0x48001000 |
| Registers.Pow2 | registers/src/main.rs:49 | a power of two is positive |
| Registers.BitAt | registers/src/main.rs:43-56 | bit k of a stored value: the bit that sets pin k when k < 16 and resets pin k - 16 otherwise (`OnlyBit`, `SetDrivesHigh`, `ResetDrivesLow`) |
| Registers.OnlyBit | registers/src/main.rs:48-49 | `1 << n` has bit n set and no other |
| Registers.Pow2Range | registers/src/main.rs:55-59 | `1 << n` fits in 32 bits, and lies in the set half of BSRR exactly when n < 16 |
| Registers.Shl | registers/src/main.rs:49 | `1 << n` as a u32, below 0x10000 exactly for n < 16 |
| Registers.BsrrEffect | registers/src/main.rs:43-56 | a BSRR store leaves sixteen pins |
| Registers.Replay | registers/src/main.rs:49-62 | a run of BSRR stores leaves sixteen pins |
| Registers.SetDrivesHigh | registers/src/main.rs:43-49 | storing `1 << n` drives pin n high and leaves every other pin as it was |
| Registers.ResetDrivesLow | registers/src/main.rs:55-59 | storing `1 << (n + 16)` drives pin n low and leaves every other pin as it was |
| Registers.MasksDisjoint | registers/src/main.rs:43-59 | the set and reset values of a pin share no bit and lie in different halves of the register |
| Registers.GpioE.constructor | registers/src/main.rs:9 | the port with the given pin states and no store made yet |
| Registers.GpioE.WriteBsrr | registers/src/main.rs:49 | a store applies its effect to the pins and is recorded |
| Registers.RegistersMain | registers/src/main.rs:11-63 | the `unsafe` block makes exactly the four stores, in order, and leaves the pins as they replay |
| Registers.MainStoreValues | registers/src/main.rs:49-62 | the four stores, in order, are 0x200, 0x800, 0x2000000 and 0x8000000: `1 << 9`, `1 << 11`, `1 << (9 + 16)`, `1 << (11 + 16)` |
| Registers.ReplayFour | registers/src/main.rs:49-62 | four stores act one after the other, and the state after two is that after the first two |
| Registers.SetBoth | registers/src/main.rs:49-53 | setting two pins drives both high and nothing else |
| Registers.ResetBoth | registers/src/main.rs:59-62 | resetting two pins drives both low and nothing else |
| Registers.SetThenReset | registers/src/main.rs:49-62 | setting two pins and then resetting them first drives both high and then leaves both low, touching no other pin |
| Registers.MainLeavesLedsOff | registers/src/main.rs:45-62 | after the first two stores PE9 (North) and PE11 (East) are high; after all four both are low; no other pin of port E changes |

## Left out

- Board start-up is not modelled: `aux*::init`, clock and GPIO
  configuration, the RCC enable of TIM6 (`rcc.apb1enr`), the ITM trace
  (`iprintln!`) and `bkpt()`. They change nothing the programs' own logic
  reads back.
- Real time, baud rate and electrical timing are not modelled. How long a
  flag stays clear is an oracle: the number of clear polls per busy-wait
  (USART) or per update event (TIM6).
- ClocksAndTimers.Tim6.Delay: the number of polls before the update event
  is an oracle, not derived from `ms` and the prescaler. So `delay(ms)`
  blocking for ms milliseconds is stated only through the ARR value and the
  1 kHz tick rate.
- The outer `loop {}` of every program is not modelled as non-termination.
  One pass of the body is modelled, with the states it leaves for the next
  pass: `EchoLine` (two passes chained by `EchoTwoLines`), `RoulettePass`,
  `RotationPass`, and `PassEndsWithFirstLit` and `FullPass` for the start of
  the next pass.
- LED switching through `switch_hal` is modelled as always succeeding. This
  covers the `.ok()` and `unwrap()` on `on`/`off`, which never see an error
  here.
- Volatile access ordering and the `unsafe` raw-pointer store are not
  modelled; each store is one atomic step.
- A general register field and permission model (named bit ranges,
  reserved bits, read-only and write-only fields) is not part of this model:
  these programs write whole registers by raw address or through the
  generated `write` closures. Only the fields these
  programs use are modelled: CEN and OPM of CR1, UIF, PSC, ARR, BSRR, and
  ISR, RDR and TDR of USART1.
- Registers: a load of BSRR returns 0. The program never loads BSRR; its
  comment at registers/src/main.rs:39-40 only notes that a debugger reads 0
  there. So it is not modelled.
- Registers: the port's output state is its sixteen pins, not the 32-bit
  ODR word. Its upper half is reserved.
- ClocksAndTimers.Tim6.constructor: assumes the TIM6 reset values (ARR
  0xFFFF, PSC 0, CR1 0), because the program does not write ARR before the
  first `delay`.
- ClocksAndTimers.RotationPass: does not state the timer log of the whole
  pass. Each iteration's log is stated by `RotationIteration` as two
  `DelayTrace`s.
- ClocksAndTimers: update events between two `delay` calls are not
  modelled separately. With one-pulse mode cleared the counter keeps
  running, and the oracle simply gives the polls until the next event the
  program sees.
- Echo.EchoLine: needs enough TXE busy-waits in the oracle for every byte
  it sends. A transmitter that never becomes ready would block the real
  program forever.
- Leds.Apply: its own contract states only that the number of LEDs is kept.
  What each step does to the LEDs is stated by `Roulette.IterationEffect`
  and `ClocksAndTimers.RotationStepEffect`.
