/** The line-reversing echo server of `echo_server`.

    Each line starts from an empty 32-byte `heapless::Vec<u8, 32>`. Bytes are
    received one at a time and pushed, the terminating '\n' included, until a
    '\n' has been read. A byte that does not fit is handed back by `push` and
    reported by an error line, and reading goes on. The buffer is then
    reversed in place and each byte is sent back as `byte as char`, followed
    by a final '\n'. */
module Echo {
  import opened Ints
  import opened Fmt
  import opened Serial

  /** Capacity of the line buffer. */
  const CAPACITY: nat := 32

  /** Result of `Vec::push`: `Ok(())`, or `Err(byte)` handing the byte back. */
  datatype PushResult = Pushed | Full(byte: u8)

  function Min(a: nat, b: nat): nat {
    if a <= b then a else b
  }

  function Reversed(s: seq<u8>): (r: seq<u8>)
    ensures |r| == |s|
  {
    if s == [] then [] else [s[|s| - 1]] + Reversed(s[..|s| - 1])
  }

  /** Element `k` of the reversal is element `|s| - 1 - k` of the original. */
  lemma {:induction false} ReversedAt(s: seq<u8>, k: nat)
    requires k < |s|
    ensures |Reversed(s)| == |s| && Reversed(s)[k] == s[|s| - 1 - k]
  {
    if k > 0 {
      ReversedAt(s[..|s| - 1], k - 1);
    }
  }

  /** `heapless::Vec<u8, N>`: a fixed array and a length. */
  class LineBuffer {
    var data: array<u8>
    var len: nat

    ghost predicate Valid()
      reads this
    {
      len <= data.Length
    }

    /** The bytes currently held, oldest first. */
    function Contents(): seq<u8>
      reads this, data
      requires Valid()
    {
      data[..len]
    }

    /** `Vec::new()` */
    constructor (capacity: nat)
      ensures Valid() && fresh(data) && data.Length == capacity && Contents() == []
    {
      data := new u8[capacity];
      len := 0;
    }

    /** `Vec::clear` */
    method Clear()
      requires Valid()
      modifies this
      ensures Valid() && data == old(data) && Contents() == []
    {
      len := 0;
    }

    /** `Vec::push`: appends when there is room, otherwise hands the byte back
        and leaves the contents as they were. */
    method Push(b: u8) returns (r: PushResult)
      requires Valid()
      modifies this, data
      ensures Valid() && data == old(data)
      ensures old(len) < data.Length ==> r == Pushed && Contents() == old(Contents()) + [b]
      ensures old(len) == data.Length ==> r == Full(b) && Contents() == old(Contents())
    {
      if len < data.Length {
        data[len] := b;
        len := len + 1;
        r := Pushed;
      } else {
        r := Full(b);
      }
    }

    /** `Vec::reverse` (through `[T]::reverse`): swaps the held bytes end for end. */
    method Reverse()
      requires Valid()
      modifies data
      ensures Valid() && Contents() == Reversed(old(Contents()))
    {
      ghost var was := data[..len];
      var i := 0;
      while i < len / 2
        invariant Swapped(data[..len], was, i)
      {
        ghost var now := data[..len];
        data[i], data[len - 1 - i] := data[len - 1 - i], data[i];
        assert data[..len] == now[i := now[len - 1 - i]][len - 1 - i := now[i]];
        SwapStep(now, was, i);
        i := i + 1;
      }
      SwappedAll(data[..len], was);
    }
  }

  /** `now` is `was` with its first `i` bytes and its last `i` bytes swapped
      end for end, and the bytes between them as they were. */
  ghost predicate Swapped(now: seq<u8>, was: seq<u8>, i: nat) {
    && |now| == |was| && i <= |was| / 2
    && (forall m :: 0 <= m < i ==> now[m] == was[|was| - 1 - m] && now[|was| - 1 - m] == was[m])
    && (forall m :: i <= m < |was| - i ==> now[m] == was[m])
  }

  /** Swapping the next pair of bytes extends the swapped ends by one. */
  lemma SwapStep(now: seq<u8>, was: seq<u8>, i: nat)
    requires Swapped(now, was, i) && i < |was| / 2
    ensures Swapped(now[i := now[|was| - 1 - i]][|was| - 1 - i := now[i]], was, i + 1)
  {
  }

  /** Once the ends meet in the middle, the bytes are reversed. */
  lemma SwappedAll(now: seq<u8>, was: seq<u8>)
    requires Swapped(now, was, |was| / 2)
    ensures now == Reversed(was)
  {
    forall k | 0 <= k < |was|
      ensures now[k] == Reversed(was)[k]
    {
      ReversedAt(was, k);
      if k >= |was| - |was| / 2 {
        assert now[|was| - 1 - (|was| - 1 - k)] == was[|was| - 1 - k];
      }
    }
  }

  /** The low bytes of the values RDR will return: the bytes `read_byte` will deliver. */
  function Received(rdr: seq<u16>): (input: seq<u8>)
    ensures |input| == |rdr|
    ensures forall i :: 0 <= i < |rdr| ==> input[i] == Low8(rdr[i])
  {
    if rdr == [] then [] else [Low8(rdr[0])] + Received(rdr[1..])
  }

  /** Number of bytes the line loop reads: up to and including the first '\n'. */
  function LineLength(input: seq<u8>): (k: nat)
    requires NEWLINE in input
    ensures 0 < k <= |input| && input[k - 1] == NEWLINE
    ensures forall j :: 0 <= j < k - 1 ==> input[j] != NEWLINE
  {
    if input[0] == NEWLINE then 1
    else
      assert NEWLINE in input[1..];
      1 + LineLength(input[1..])
  }

  /** The bytes of one line, terminator included. */
  function Line(input: seq<u8>): seq<u8>
    requires NEWLINE in input
  {
    input[..LineLength(input)]
  }

  /** The bytes of `line` that the buffer accepts: the first `cap`. */
  function Kept(cap: nat, line: seq<u8>): seq<u8> {
    line[..Min(|line|, cap)]
  }

  /** The bytes of `line` that `push` hands back. */
  function Rejected(cap: nat, line: seq<u8>): seq<u8> {
    line[Min(|line|, cap)..]
  }

  /** Every byte of a line is either kept or reported, in order; the buffer
      keeps as many as fit. */
  lemma LineSplit(cap: nat, line: seq<u8>)
    ensures Kept(cap, line) + Rejected(cap, line) == line
    ensures |Kept(cap, line)| <= cap
    ensures |line| <= cap ==> Kept(cap, line) == line && Rejected(cap, line) == []
    ensures |line| >= cap ==> |Kept(cap, line)| == cap
  {
  }

  const ERROR_PREFIX: seq<u8> := Ascii("Error: buffer is full, cannot write ")

  /** The pieces `uprintln!(serial, "Error: buffer is full, cannot write {}", byte)`
      hands to `write_str`. */
  function ErrorPieces(b: u8): seq<seq<u8>> {
    [ERROR_PREFIX, Decimal(b), [NEWLINE]]
  }

  /** The error line reported for a rejected byte. */
  function ErrorLine(b: u8): seq<u8> {
    ERROR_PREFIX + Decimal(b) + [NEWLINE]
  }

  /** What `uprint!(serial, "{}", *byte as char)` sends for `bytes`, one byte after the other. */
  function EchoText(bytes: seq<u8>): seq<u8> {
    if bytes == [] then [] else EchoText(bytes[..|bytes| - 1]) + EncodeChar(bytes[|bytes| - 1])
  }

  /** The error lines reported for `bytes`, in the order they were rejected. */
  function ErrorText(bytes: seq<u8>): seq<u8> {
    if bytes == [] then [] else ErrorText(bytes[..|bytes| - 1]) + ErrorLine(bytes[|bytes| - 1])
  }

  lemma {:induction false} EchoTextPrefix(s: seq<u8>, m: nat)
    requires m <= |s|
    ensures |EchoText(s[..m])| <= |EchoText(s)|
  {
    if m < |s| {
      var init := s[..|s| - 1];
      assert init[..m] == s[..m];
      EchoTextPrefix(init, m);
    } else {
      assert s[..m] == s;
    }
  }

  lemma {:induction false} ErrorTextPrefix(s: seq<u8>, m: nat)
    requires m <= |s|
    ensures |ErrorText(s[..m])| <= |ErrorText(s)|
  {
    if m < |s| {
      var init := s[..|s| - 1];
      assert init[..m] == s[..m];
      ErrorTextPrefix(init, m);
    } else {
      assert s[..m] == s;
    }
  }

  lemma EchoTextSnoc(s: seq<u8>, b: u8)
    ensures EchoText(s + [b]) == EchoText(s) + EncodeChar(b)
  {
    assert (s + [b])[..|s|] == s;
  }

  lemma ErrorTextSnoc(s: seq<u8>, b: u8)
    ensures ErrorText(s + [b]) == ErrorText(s) + ErrorLine(b)
  {
    assert (s + [b])[..|s|] == s;
  }

  /** Everything the server transmits for one line: an error line per rejected
      byte, in arrival order, then the accepted bytes reversed, then '\n'. */
  function LineOutput(cap: nat, line: seq<u8>): seq<u8> {
    ErrorText(Rejected(cap, line)) + EchoText(Reversed(Kept(cap, line))) + [NEWLINE]
  }

  /** The accesses `push` of byte `n` of `line` leads to: none while the
      buffer of `cap` bytes has room; otherwise those of the byte's error
      line, on the TXE busy-waits that the error lines before it left of `txe`. */
  function PushTrace(cap: nat, line: seq<u8>, n: nat, txe: seq<nat>): seq<Access>
    requires n < |line| && |ErrorText(Rejected(cap, line))| <= |txe|
  {
    if n < cap then []
    else
      ErrorRoom(cap, line, n);
      TxTrace(txe[|ErrorText(line[Min(n, cap)..n])|..], ErrorLine(line[n]))
  }

  /** The accesses of the receive loop over the first `n` bytes of `line`,
      when the line starts at RXNE busy-waits `rxne`, RDR values `rdr` and
      TXE busy-waits `txe`: per byte, the busy-wait on RXNE and the load of
      RDR, then what its `push` leads to, before the next byte is read. */
  function ReceiveTrace(cap: nat, line: seq<u8>, n: nat, rxne: seq<nat>, rdr: seq<u16>, txe: seq<nat>)
    : seq<Access>
    requires n <= |line| <= |rxne| && |line| <= |rdr| && |ErrorText(Rejected(cap, line))| <= |txe|
  {
    if n == 0 then []
    else
      ReceiveTrace(cap, line, n - 1, rxne, rdr, txe)
        + BusyWait(Rxne, rxne[n - 1]) + [RdrRead(rdr[n - 1])] + PushTrace(cap, line, n - 1, txe)
  }

  /** The accesses of one pass of the main loop over `line`: the receive
      loop, then the echo of the kept bytes reversed and `'\n'` on the TXE
      busy-waits the error lines left. */
  function LineTrace(cap: nat, line: seq<u8>, rxne: seq<nat>, rdr: seq<u16>, txe: seq<nat>): seq<Access>
    requires |line| <= |rxne| && |line| <= |rdr| && |LineOutput(cap, line)| <= |txe|
  {
    ReceiveTrace(cap, line, |line|, rxne, rdr, txe)
      + TxTrace(txe[|ErrorText(Rejected(cap, line))|..], EchoText(Reversed(Kept(cap, line))) + [NEWLINE])
  }

  /** The error line of a rejected byte fits in what the line's error text
      leaves after the error lines before it. */
  lemma ErrorRoom(cap: nat, line: seq<u8>, n: nat)
    requires cap <= n < |line|
    ensures |ErrorText(line[Min(n, cap)..n])| + |ErrorLine(line[n])| <= |ErrorText(Rejected(cap, line))|
  {
    OverflowStep(cap, line, n);
    RejectedBound(cap, line, n + 1);
  }

  /** What the receive loop puts on the line is exactly the error lines of the
      bytes rejected so far. */
  lemma {:induction false} SentReceiveTrace(cap: nat, line: seq<u8>, n: nat, rxne: seq<nat>, rdr: seq<u16>,
                                            txe: seq<nat>)
    requires n <= |line| <= |rxne| && |line| <= |rdr| && |ErrorText(Rejected(cap, line))| <= |txe|
    ensures Sent(ReceiveTrace(cap, line, n, rxne, rdr, txe)) == ErrorText(line[Min(n, cap)..n])
  {
    if n > 0 {
      var m := n - 1;
      var before := ReceiveTrace(cap, line, m, rxne, rdr, txe);
      var push := PushTrace(cap, line, m, txe);
      SentReceiveTrace(cap, line, m, rxne, rdr, txe);
      SentPush(cap, line, m, txe);
      ErrorTextStep(cap, line, m);
      if m < cap {
        SentStep(before, rxne[m], rdr[m], push, ErrorText(line[Min(m, cap)..m]), []);
      } else {
        SentStep(before, rxne[m], rdr[m], push, ErrorText(line[Min(m, cap)..m]), ErrorLine(line[m]));
      }
    }
  }

  /** Proof helper: reading a byte puts nothing on the line between two traces. */
  lemma SentStep(before: seq<Access>, clear: nat, v: u16, push: seq<Access>, errors: seq<u8>, pushed: seq<u8>)
    requires Sent(before) == errors && Sent(push) == pushed
    ensures Sent(before + BusyWait(Rxne, clear) + [RdrRead(v)] + push) == errors + pushed
  {
    ReceiveSendsNothing(before, clear, v);
    SentAppend(before + BusyWait(Rxne, clear) + [RdrRead(v)], push);
  }

  /** `push` puts on the line the error line of the byte when it is rejected, and nothing otherwise. */
  lemma SentPush(cap: nat, line: seq<u8>, n: nat, txe: seq<nat>)
    requires n < |line| && |ErrorText(Rejected(cap, line))| <= |txe|
    ensures Sent(PushTrace(cap, line, n, txe)) == if n < cap then [] else ErrorLine(line[n])
  {
    if n >= cap {
      ErrorRoom(cap, line, n);
      SentTxTrace(txe[|ErrorText(line[Min(n, cap)..n])|..], ErrorLine(line[n]));
    }
  }

  /** Byte `n` adds its error line to the error text when it is rejected, and nothing otherwise. */
  lemma ErrorTextStep(cap: nat, line: seq<u8>, n: nat)
    requires n < |line|
    ensures ErrorText(line[Min(n + 1, cap)..n + 1])
      == ErrorText(line[Min(n, cap)..n]) + if n < cap then [] else ErrorLine(line[n])
  {
    if n < cap {
      FitsStep(cap, line, n);
    } else {
      OverflowStep(cap, line, n);
    }
  }

  /** What a pass puts on the line is exactly its output. */
  lemma SentLineTrace(cap: nat, line: seq<u8>, rxne: seq<nat>, rdr: seq<u16>, txe: seq<nat>)
    requires |line| <= |rxne| && |line| <= |rdr| && |LineOutput(cap, line)| <= |txe|
    ensures Sent(LineTrace(cap, line, rxne, rdr, txe)) == LineOutput(cap, line)
  {
    var errors := ErrorText(Rejected(cap, line));
    SentReceiveTrace(cap, line, |line|, rxne, rdr, txe);
    AllRejected(cap, line);
    SentPass(ReceiveTrace(cap, line, |line|, rxne, rdr, txe), txe[|errors|..], errors,
             EchoText(Reversed(Kept(cap, line))));
  }

  /** Proof helper: once the whole line is read, the bytes past the buffer are the rejected ones. */
  lemma AllRejected(cap: nat, line: seq<u8>)
    ensures line[Min(|line|, cap)..|line|] == Rejected(cap, line)
  {
  }

  /** Received accesses that sent `errors`, then the echo and `'\n'`, send
      `errors`, the echo and `'\n'`. */
  lemma SentPass(received: seq<Access>, waits: seq<nat>, errors: seq<u8>, echo: seq<u8>)
    requires Sent(received) == errors && |waits| >= |echo| + 1
    ensures Sent(received + TxTrace(waits, echo + [NEWLINE])) == errors + echo + [NEWLINE]
  {
    SentAppend(received, TxTrace(waits, echo + [NEWLINE]));
    SentTxTrace(waits, echo + [NEWLINE]);
  }

  lemma FlattenErrorPieces(b: u8)
    ensures Flatten(ErrorPieces(b)) == ErrorLine(b)
  {
    var p := ErrorPieces(b);
    assert p[..2][..1] == [ERROR_PREFIX];
    assert p[..2] == [ERROR_PREFIX, Decimal(b)];
    assert Flatten([ERROR_PREFIX]) == ERROR_PREFIX by {
      assert [ERROR_PREFIX][..0] == [];
    }
  }

  lemma FlattenOne(piece: seq<u8>)
    ensures Flatten([piece]) == piece
  {
    assert [piece][..0] == [];
  }

  /** One pass of the body of `main`'s `loop`: clear the buffer, read a line,
      reverse it, echo it. */
  method EchoLine(serial: SerialPort, buffer: LineBuffer)
    requires buffer.Valid()
    requires NEWLINE in Received(serial.rdr)
    requires |serial.rxne| >= LineLength(Received(serial.rdr))
    requires |serial.txe| >= |LineOutput(buffer.data.Length, Line(Received(serial.rdr)))|
    modifies serial, buffer, buffer.data
    ensures buffer.Valid() && buffer.data == old(buffer.data)
    ensures Sent(serial.bus)
      == old(Sent(serial.bus)) + LineOutput(buffer.data.Length, Line(old(Received(serial.rdr))))
    ensures buffer.Contents() == Reversed(Kept(buffer.data.Length, Line(old(Received(serial.rdr)))))
    ensures serial.rdr == old(serial.rdr)[LineLength(old(Received(serial.rdr)))..]
    ensures serial.rxne == old(serial.rxne)[LineLength(old(Received(serial.rdr)))..]
    ensures serial.txe == old(serial.txe)[|LineOutput(buffer.data.Length, Line(old(Received(serial.rdr))))|..]
    ensures serial.bus == old(serial.bus) + LineTrace(buffer.data.Length, Line(old(Received(serial.rdr))),
                                                      old(serial.rxne), old(serial.rdr), old(serial.txe))
  {
    LineIsLine(Received(serial.rdr));
    EchoOneLine(serial, buffer, Line(Received(serial.rdr)));
  }

  /** The same pass, for the line `line` at the head of the input. */
  method EchoOneLine(serial: SerialPort, buffer: LineBuffer, ghost line: seq<u8>)
    requires buffer.Valid()
    requires IsLine(line) && |line| <= |serial.rdr| && line == Received(serial.rdr)[..|line|]
    requires |serial.rxne| >= |line|
    requires |serial.txe| >= |LineOutput(buffer.data.Length, line)|
    modifies serial, buffer, buffer.data
    ensures buffer.Valid() && buffer.data == old(buffer.data)
    ensures Sent(serial.bus) == old(Sent(serial.bus)) + LineOutput(buffer.data.Length, line)
    ensures buffer.Contents() == Reversed(Kept(buffer.data.Length, line))
    ensures serial.rdr == old(serial.rdr)[|line|..]
    ensures serial.rxne == old(serial.rxne)[|line|..]
    ensures serial.txe == old(serial.txe)[|LineOutput(buffer.data.Length, line)|..]
    ensures serial.bus
      == old(serial.bus) + LineTrace(buffer.data.Length, line, old(serial.rxne), old(serial.rdr), old(serial.txe))
  {
    ghost var cap := buffer.data.Length;
    ghost var errors := ErrorText(Rejected(cap, line));
    ghost var echo := EchoText(Reversed(Kept(cap, line)));
    ghost var sent0, bus0, txe0 := Sent(serial.bus), serial.bus, serial.txe;
    ghost var rxne0, rdr0 := serial.rxne, serial.rdr;
    assert LineOutput(cap, line) == errors + echo + [NEWLINE];
    assert |serial.txe| >= |errors| + |echo| + 1;
    buffer.Clear();
    ReceiveLine(serial, buffer, line);
    ghost var sent1, bus1, txe1 := Sent(serial.bus), serial.bus, serial.txe;
    ReverseAndEcho(serial, buffer, Kept(cap, line));
    AppendAssoc(sent0, errors, echo, [NEWLINE]);
    AccessAssoc(bus0, ReceiveTrace(cap, line, |line|, rxne0, rdr0, txe0), TxTrace(txe1, echo + [NEWLINE]));
    assert |LineOutput(cap, line)| == |errors| + (|echo| + 1);
    DropDrop(txe0, |errors|, |echo| + 1);
  }

  /** `buffer.reverse()`, then the echo of the reversed bytes and `'\n'`. */
  method ReverseAndEcho(serial: SerialPort, buffer: LineBuffer, ghost kept: seq<u8>)
    requires buffer.Valid() && buffer.Contents() == kept
    requires |serial.txe| >= |EchoText(Reversed(kept))| + 1
    modifies serial, buffer.data
    ensures buffer.Valid() && buffer.Contents() == Reversed(kept)
    ensures Sent(serial.bus) == old(Sent(serial.bus)) + EchoText(Reversed(kept)) + [NEWLINE]
    ensures serial.txe == old(serial.txe)[|EchoText(Reversed(kept))| + 1..]
    ensures serial.rdr == old(serial.rdr) && serial.rxne == old(serial.rxne)
    ensures serial.bus == old(serial.bus) + TxTrace(old(serial.txe), EchoText(Reversed(kept)) + [NEWLINE])
  {
    buffer.Reverse();
    EchoBack(serial, buffer, Reversed(kept));
  }

  /** Two passes of `main`'s loop: the second starts from the port, oracles
      and buffer the first leaves, and the two answers follow each other. */
  method EchoTwoLines(serial: SerialPort, buffer: LineBuffer, ghost first: seq<u8>, ghost second: seq<u8>)
    requires buffer.Valid()
    requires IsLine(first) && IsLine(second)
    requires |first| + |second| <= |serial.rdr| && first + second == Received(serial.rdr)[..|first| + |second|]
    requires |serial.rxne| >= |first| + |second|
    requires |serial.txe| >= |LineOutput(buffer.data.Length, first)| + |LineOutput(buffer.data.Length, second)|
    modifies serial, buffer, buffer.data
    ensures buffer.Valid() && buffer.data == old(buffer.data)
    ensures Sent(serial.bus) == old(Sent(serial.bus))
      + LineOutput(buffer.data.Length, first) + LineOutput(buffer.data.Length, second)
    ensures buffer.Contents() == Reversed(Kept(buffer.data.Length, second))
    ensures serial.rdr == old(serial.rdr)[|first| + |second|..]
    ensures serial.rxne == old(serial.rxne)[|first| + |second|..]
    ensures serial.txe
      == old(serial.txe)[|LineOutput(buffer.data.Length, first)|..][|LineOutput(buffer.data.Length, second)|..]
    ensures serial.bus == old(serial.bus)
      + LineTrace(buffer.data.Length, first, old(serial.rxne), old(serial.rdr), old(serial.txe))
      + LineTrace(buffer.data.Length, second, old(serial.rxne)[|first|..], old(serial.rdr)[|first|..],
                  old(serial.txe)[|LineOutput(buffer.data.Length, first)|..])
  {
    ghost var rdr0, rxne0 := serial.rdr, serial.rxne;
    LinesInOrder(rdr0, first, second);
    EchoOneLine(serial, buffer, first);
    EchoOneLine(serial, buffer, second);
    DropDrop(rdr0, |first|, |second|);
    DropDrop(rxne0, |first|, |second|);
  }

  /** Two lines at the head of the input: the first is at the head now, and
      the second is at the head of what is left after the first. */
  lemma LinesInOrder(rdr: seq<u16>, first: seq<u8>, second: seq<u8>)
    requires |first| + |second| <= |rdr| && first + second == Received(rdr)[..|first| + |second|]
    ensures |first| <= |rdr| && first == Received(rdr)[..|first|]
    ensures |second| <= |rdr[|first|..]| && second == Received(rdr[|first|..])[..|second|]
  {
    var input := Received(rdr);
    assert first == input[..|first|] && second == input[|first|..|first| + |second|];
    ReceivedDrop(rdr, |first|);
  }

  /** What is left to receive after `k` values is what was left before, minus
      its first `k` bytes. */
  lemma ReceivedDrop(rdr: seq<u16>, k: nat)
    requires k <= |rdr|
    ensures Received(rdr[k..]) == Received(rdr)[k..]
  {
  }

  /** `line` is one line of input: it ends with the first '\n'. */
  predicate IsLine(line: seq<u8>) {
    line != [] && line[|line| - 1] == NEWLINE && forall j :: 0 <= j < |line| - 1 ==> line[j] != NEWLINE
  }

  /** `Line` cuts exactly one line from the input. */
  lemma LineIsLine(input: seq<u8>)
    requires NEWLINE in input
    ensures IsLine(Line(input)) && Line(input) == input[..LineLength(input)]
  {
  }

  /** The `while byte != '\n' as u8` loop: read the bytes of `line`, the next
      line of input, into the (empty) buffer, reporting each byte that does not fit. */
  method ReceiveLine(serial: SerialPort, buffer: LineBuffer, ghost line: seq<u8>)
    requires buffer.Valid() && buffer.Contents() == []
    requires IsLine(line) && |line| <= |serial.rdr| && line == Received(serial.rdr)[..|line|]
    requires |serial.rxne| >= |line|
    requires |serial.txe| >= |ErrorText(Rejected(buffer.data.Length, line))|
    modifies serial, buffer, buffer.data
    ensures buffer.Valid() && buffer.data == old(buffer.data)
    ensures buffer.Contents() == Kept(buffer.data.Length, line)
    ensures Sent(serial.bus) == old(Sent(serial.bus)) + ErrorText(Rejected(buffer.data.Length, line))
    ensures serial.txe == old(serial.txe)[|ErrorText(Rejected(buffer.data.Length, line))|..]
    ensures serial.rdr == old(serial.rdr)[|line|..] && serial.rxne == old(serial.rxne)[|line|..]
    ensures serial.bus == old(serial.bus)
      + ReceiveTrace(buffer.data.Length, line, |line|, old(serial.rxne), old(serial.rdr), old(serial.txe))
  {
    ghost var sent0, bus0 := Sent(serial.bus), serial.bus;
    ghost var rdr0, rxne0, txe0 := serial.rdr, serial.rxne, serial.txe;

    var byte: u8 := 0;
    ghost var n := 0;
    while byte != NEWLINE
      invariant buffer.data == old(buffer.data)
      invariant Progress(serial, buffer, rdr0, rxne0, line, n, sent0, txe0, bus0)
      invariant n < |line| <==> byte != NEWLINE
      decreases |line| - n
    {
      byte := ReceiveByte(serial, buffer, rdr0, rxne0, line, n, sent0, txe0, bus0);
      n := n + 1;
    }
    LineDone(serial, buffer, rdr0, rxne0, line, n, sent0, txe0, bus0);
  }

  /** Where the loop over a line stands after `n` of its bytes: the input is
      consumed up to byte `n`, the buffer holds the bytes that fit and every
      byte that did not fit has been reported. */
  ghost predicate Progress(serial: SerialPort, buffer: LineBuffer, rdr0: seq<u16>, rxne0: seq<nat>,
                           line: seq<u8>, n: nat, sent0: seq<u8>, txe0: seq<nat>, bus0: seq<Access>)
    reads serial, buffer, buffer.data
  {
    && buffer.Valid() && n <= |line| <= |rdr0| && |line| <= |rxne0|
    && serial.rdr == rdr0[n..] && serial.rxne == rxne0[n..]
    && buffer.Contents() == line[..Min(n, buffer.data.Length)]
    && Sent(serial.bus) == sent0 + ErrorText(line[Min(n, buffer.data.Length)..n])
    && |ErrorText(line[Min(n, buffer.data.Length)..n])| <= |txe0|
    && serial.txe == txe0[|ErrorText(line[Min(n, buffer.data.Length)..n])|..]
    && |ErrorText(Rejected(buffer.data.Length, line))| <= |txe0|
    && serial.bus == bus0 + ReceiveTrace(buffer.data.Length, line, n, rxne0, rdr0, txe0)
  }

  /** Once the whole line is read, the buffer holds the kept bytes and the
      error text covers the rejected ones. */
  lemma LineDone(serial: SerialPort, buffer: LineBuffer, rdr0: seq<u16>, rxne0: seq<nat>,
                 line: seq<u8>, n: nat, sent0: seq<u8>, txe0: seq<nat>, bus0: seq<Access>)
    requires Progress(serial, buffer, rdr0, rxne0, line, n, sent0, txe0, bus0) && n == |line|
    ensures buffer.Contents() == Kept(buffer.data.Length, line)
    ensures Sent(serial.bus) == sent0 + ErrorText(Rejected(buffer.data.Length, line))
    ensures serial.txe == txe0[|ErrorText(Rejected(buffer.data.Length, line))|..]
    ensures serial.rdr == rdr0[|line|..] && serial.rxne == rxne0[|line|..]
    ensures serial.bus == bus0 + ReceiveTrace(buffer.data.Length, line, |line|, rxne0, rdr0, txe0)
  {
    var cap := buffer.data.Length;
    assert line[..Min(n, cap)] == Kept(cap, line);
    assert line[Min(n, cap)..n] == Rejected(cap, line);
  }

  /** After `n` bytes of `line`, the buffer has sent no more error text than
      the whole line will cause. */
  lemma RejectedBound(cap: nat, line: seq<u8>, n: nat)
    requires n <= |line|
    ensures |ErrorText(line[Min(n, cap)..n])| <= |ErrorText(Rejected(cap, line))|
  {
    if n > cap {
      assert Rejected(cap, line)[..n - cap] == line[cap..n];
      ErrorTextPrefix(Rejected(cap, line), n - cap);
    } else {
      assert line[n..n] == [];
    }
  }

  /** A byte that arrives while the buffer has room is kept, and reports nothing. */
  lemma FitsStep(cap: nat, line: seq<u8>, n: nat)
    requires n < |line| && n < cap
    ensures line[..Min(n + 1, cap)] == line[..Min(n, cap)] + [line[n]]
    ensures line[Min(n + 1, cap)..n + 1] == [] == line[Min(n, cap)..n]
  {
  }

  /** A byte that arrives when the buffer is full is not kept, and adds its error line. */
  lemma OverflowStep(cap: nat, line: seq<u8>, n: nat)
    requires n < |line| && n >= cap
    ensures line[..Min(n + 1, cap)] == line[..Min(n, cap)]
    ensures ErrorText(line[Min(n + 1, cap)..n + 1]) == ErrorText(line[Min(n, cap)..n]) + ErrorLine(line[n])
  {
    assert line[cap..n + 1] == line[cap..n] + [line[n]];
    ErrorTextSnoc(line[cap..n], line[n]);
  }

  /** One pass of the body of the `while` loop over byte `n` of `line`: read
      the byte and push it; if the buffer is full, report the byte it hands
      back and go on with the loop. The buffer then holds the first bytes of
      the line that fit, and the error lines of the others have been sent. */
  method ReceiveByte(serial: SerialPort, buffer: LineBuffer, ghost rdr0: seq<u16>, ghost rxne0: seq<nat>,
                     ghost line: seq<u8>, ghost n: nat, ghost sent0: seq<u8>, ghost txe0: seq<nat>,
                     ghost bus0: seq<Access>)
    returns (byte: u8)
    requires Progress(serial, buffer, rdr0, rxne0, line, n, sent0, txe0, bus0)
    requires IsLine(line) && n < |line| && line == Received(rdr0)[..|line|]
    modifies serial, buffer, buffer.data
    ensures byte == line[n] && (byte == NEWLINE <==> n + 1 == |line|)
    ensures buffer.data == old(buffer.data)
    ensures Progress(serial, buffer, rdr0, rxne0, line, n + 1, sent0, txe0, bus0)
  {
    ghost var cap := buffer.data.Length;
    byte := ReadLineByte(serial, rdr0, rxne0, line, n);
    StoreByte(serial, buffer, byte, line, n, sent0, txe0);
    TraceStep(bus0, ReceiveTrace(cap, line, n, rxne0, rdr0, txe0), BusyWait(Rxne, rxne0[n]),
              [RdrRead(rdr0[n])], PushTrace(cap, line, n, txe0));
  }

  /** Proof helper: one byte's accesses after those of the bytes before it. */
  lemma TraceStep(a: seq<Access>, b: seq<Access>, c: seq<Access>, d: seq<Access>, e: seq<Access>)
    ensures a + b + c + d + e == a + (b + c + d + e)
  {
  }

  /** `byte = serial.read_byte()` for byte `n` of `line`. */
  method ReadLineByte(serial: SerialPort, ghost rdr0: seq<u16>, ghost rxne0: seq<nat>, ghost line: seq<u8>,
                      ghost n: nat)
    returns (byte: u8)
    requires IsLine(line) && n < |line| <= |rdr0| && line == Received(rdr0)[..|line|]
    requires |line| <= |rxne0| && serial.rdr == rdr0[n..] && serial.rxne == rxne0[n..]
    modifies serial
    ensures byte == line[n] && (byte == NEWLINE <==> n + 1 == |line|)
    ensures serial.rdr == rdr0[n + 1..] && serial.rxne == rxne0[n + 1..]
    ensures Sent(serial.bus) == old(Sent(serial.bus)) && serial.txe == old(serial.txe)
    ensures serial.bus == old(serial.bus) + BusyWait(Rxne, rxne0[n]) + [RdrRead(rdr0[n])]
  {
    assert serial.rdr[0] == rdr0[n] && line[n] == Low8(rdr0[n]);
    assert serial.rxne[0] == rxne0[n];
    assert rdr0[n..][1..] == rdr0[n + 1..] && rxne0[n..][1..] == rxne0[n + 1..];
    byte := serial.ReadByte();
  }

  /** `match buffer.push(byte)`: keep byte `n` of `line` if it fits, otherwise
      report it. */
  method StoreByte(serial: SerialPort, buffer: LineBuffer, byte: u8, ghost line: seq<u8>,
                   ghost n: nat, ghost sent0: seq<u8>, ghost txe0: seq<nat>)
    requires buffer.Valid() && n < |line| && byte == line[n]
    requires buffer.Contents() == line[..Min(n, buffer.data.Length)]
    requires Sent(serial.bus) == sent0 + ErrorText(line[Min(n, buffer.data.Length)..n])
    requires |ErrorText(line[Min(n, buffer.data.Length)..n])| <= |txe0|
    requires serial.txe == txe0[|ErrorText(line[Min(n, buffer.data.Length)..n])|..]
    requires |txe0| >= |ErrorText(Rejected(buffer.data.Length, line))|
    modifies serial, buffer, buffer.data
    ensures buffer.Valid() && buffer.data == old(buffer.data)
    ensures buffer.Contents() == line[..Min(n + 1, buffer.data.Length)]
    ensures Sent(serial.bus) == sent0 + ErrorText(line[Min(n + 1, buffer.data.Length)..n + 1])
    ensures |ErrorText(line[Min(n + 1, buffer.data.Length)..n + 1])| <= |txe0|
    ensures serial.txe == txe0[|ErrorText(line[Min(n + 1, buffer.data.Length)..n + 1])|..]
    ensures serial.rdr == old(serial.rdr) && serial.rxne == old(serial.rxne)
    ensures serial.bus == old(serial.bus) + PushTrace(buffer.data.Length, line, n, txe0)
  {
    ghost var cap := buffer.data.Length;
    assert buffer.len == Min(n, cap);
    var pushed := buffer.Push(byte);
    match pushed {
      case Pushed =>
        FitsStep(cap, line, n);
        assert serial.bus == old(serial.bus) + [];
      case Full(rejected) =>
        RejectByte(serial, rejected, cap, line, n, sent0, txe0);
    }
  }

  /** Byte `n` of `line` did not fit into the full buffer of `cap` bytes: its
      error line follows the error text of the bytes rejected before it. */
  method RejectByte(serial: SerialPort, b: u8, ghost cap: nat, ghost line: seq<u8>,
                    ghost n: nat, ghost sent0: seq<u8>, ghost txe0: seq<nat>)
    requires n < |line| && n >= cap && b == line[n]
    requires Sent(serial.bus) == sent0 + ErrorText(line[Min(n, cap)..n])
    requires |ErrorText(line[Min(n, cap)..n])| <= |txe0|
    requires serial.txe == txe0[|ErrorText(line[Min(n, cap)..n])|..]
    requires |txe0| >= |ErrorText(Rejected(cap, line))|
    modifies serial
    ensures Sent(serial.bus) == sent0 + ErrorText(line[Min(n + 1, cap)..n + 1])
    ensures |ErrorText(line[Min(n + 1, cap)..n + 1])| <= |txe0|
    ensures serial.txe == txe0[|ErrorText(line[Min(n + 1, cap)..n + 1])|..]
    ensures serial.rdr == old(serial.rdr) && serial.rxne == old(serial.rxne)
    ensures serial.bus == old(serial.bus) + PushTrace(cap, line, n, txe0)
  {
    OverflowStep(cap, line, n);
    RejectedBound(cap, line, n + 1);
    ReportRejected(serial, b, sent0, ErrorText(line[Min(n, cap)..n]));
  }

  /** `uprintln!(serial, "Error: buffer is full, cannot write {}", byte)`: the
      error line goes out after the error text `before` sent so far. */
  method ReportRejected(serial: SerialPort, b: u8, ghost sent0: seq<u8>, ghost before: seq<u8>)
    requires Sent(serial.bus) == sent0 + before
    requires |serial.txe| >= |ErrorLine(b)|
    modifies serial
    ensures Sent(serial.bus) == sent0 + (before + ErrorLine(b))
    ensures serial.bus == old(serial.bus) + TxTrace(old(serial.txe), ErrorLine(b))
    ensures serial.txe == old(serial.txe)[|ErrorLine(b)|..]
    ensures serial.rdr == old(serial.rdr) && serial.rxne == old(serial.rxne)
  {
    FlattenErrorPieces(b);
    serial.Uprint(ErrorPieces(b));
    BytesAssoc(sent0, before, ErrorLine(b));
  }

  /** `for byte in &buffer { uprint!(serial, "{}", *byte as char); }` then `uprintln!(serial, "")`. */
  method EchoBack(serial: SerialPort, buffer: LineBuffer, ghost echoed: seq<u8>)
    requires buffer.Valid() && echoed == buffer.Contents()
    requires |serial.txe| >= |EchoText(echoed)| + 1
    modifies serial
    ensures Sent(serial.bus) == old(Sent(serial.bus)) + EchoText(echoed) + [NEWLINE]
    ensures serial.txe == old(serial.txe)[|EchoText(echoed)| + 1..]
    ensures serial.rdr == old(serial.rdr) && serial.rxne == old(serial.rxne)
    ensures serial.bus == old(serial.bus) + TxTrace(old(serial.txe), EchoText(echoed) + [NEWLINE])
  {
    ghost var sent1, txe1, bus1 := Sent(serial.bus), serial.txe, serial.bus;
    EchoTextPrefix(echoed, 0);
    for i := 0 to buffer.len
      invariant |EchoText(echoed[..i])| <= |EchoText(echoed)|
      invariant Sent(serial.bus) == sent1 + EchoText(echoed[..i])
      invariant serial.txe == txe1[|EchoText(echoed[..i])|..]
      invariant serial.rdr == old(serial.rdr) && serial.rxne == old(serial.rxne)
      invariant serial.bus == bus1 + TxTrace(txe1, EchoText(echoed[..i]))
    {
      EchoByte(serial, buffer, echoed, i, sent1, txe1, bus1);
    }
    assert echoed[..buffer.len] == echoed;
    ghost var mid := serial.bus;
    FlattenOne([NEWLINE]);
    serial.Uprint([[NEWLINE]]);
    TxTraceAppend(txe1, EchoText(echoed), [NEWLINE]);
    AccessAssoc(bus1, TxTrace(txe1, EchoText(echoed)), TxTrace(txe1[|EchoText(echoed)|..], [NEWLINE]));
  }

  /** One pass of the `for` loop over the buffer: send byte `i` as a character. */
  method EchoByte(serial: SerialPort, buffer: LineBuffer, ghost echoed: seq<u8>, i: nat,
                  ghost sent1: seq<u8>, ghost txe1: seq<nat>, ghost bus1: seq<Access>)
    requires buffer.Valid() && echoed == buffer.Contents() && i < buffer.len
    requires |EchoText(echoed)| + 1 <= |txe1| && |EchoText(echoed[..i])| <= |EchoText(echoed)|
    requires Sent(serial.bus) == sent1 + EchoText(echoed[..i])
    requires serial.txe == txe1[|EchoText(echoed[..i])|..]
    requires serial.bus == bus1 + TxTrace(txe1, EchoText(echoed[..i]))
    modifies serial
    ensures |EchoText(echoed[..i + 1])| <= |EchoText(echoed)|
    ensures Sent(serial.bus) == sent1 + EchoText(echoed[..i + 1])
    ensures serial.txe == txe1[|EchoText(echoed[..i + 1])|..]
    ensures serial.rdr == old(serial.rdr) && serial.rxne == old(serial.rxne)
    ensures serial.bus == bus1 + TxTrace(txe1, EchoText(echoed[..i + 1]))
  {
    var c := buffer.data[i];
    EchoStep(echoed, i);
    ghost var done := EchoText(echoed[..i]);
    var text := EncodeChar(c);
    FlattenOne(text);
    serial.Uprint([text]);
    BytesAssoc(sent1, done, text);
    DropDrop(txe1, |done|, |text|);
    TxTraceAppend(txe1, done, text);
    AccessAssoc(bus1, TxTrace(txe1, done), TxTrace(txe1[|done|..], text));
  }

  /** The echo of one more byte is the echo so far followed by that byte as a character. */
  lemma EchoStep(echoed: seq<u8>, i: nat)
    requires i < |echoed|
    ensures EchoText(echoed[..i + 1]) == EchoText(echoed[..i]) + EncodeChar(echoed[i])
    ensures |EchoText(echoed[..i + 1])| <= |EchoText(echoed)|
  {
    assert echoed[..i + 1] == echoed[..i] + [echoed[i]];
    EchoTextSnoc(echoed[..i], echoed[i]);
    EchoTextPrefix(echoed, i + 1);
  }

  /** Proof helper: regrouping four appends, kept apart to keep `EchoLine` cheap. */
  lemma AppendAssoc(a: seq<u8>, b: seq<u8>, c: seq<u8>, d: seq<u8>)
    ensures ((a + b) + c) + d == a + ((b + c) + d)
  {
  }

  /** `main` up to the end of the first line: a new, empty 32-byte buffer, then one line. */
  method EchoFirstLine(serial: SerialPort) returns (buffer: LineBuffer)
    requires NEWLINE in Received(serial.rdr)
    requires |serial.rxne| >= LineLength(Received(serial.rdr))
    requires |serial.txe| >= |LineOutput(CAPACITY, Line(Received(serial.rdr)))|
    modifies serial
    ensures fresh(buffer) && fresh(buffer.data) && buffer.Valid() && buffer.data.Length == CAPACITY
    ensures Sent(serial.bus) == old(Sent(serial.bus)) + LineOutput(CAPACITY, Line(old(Received(serial.rdr))))
    ensures serial.bus == old(serial.bus) + LineTrace(CAPACITY, Line(old(Received(serial.rdr))),
                                                      old(serial.rxne), old(serial.rdr), old(serial.txe))
  {
    buffer := new LineBuffer(CAPACITY);
    EchoLine(serial, buffer);
  }

  /** Reversing twice gives the bytes back: `reverse` loses nothing. */
  lemma {:induction false} ReversedTwice(s: seq<u8>)
    ensures Reversed(Reversed(s)) == s
  {
    if s != [] {
      var init := s[..|s| - 1];
      ReversedTwice(init);
      ReversedCons(s[|s| - 1], Reversed(init));
      assert s == init + [s[|s| - 1]];
    }
  }

  /** The byte received first comes last in the reversal. */
  lemma {:induction false} ReversedCons(b: u8, s: seq<u8>)
    ensures Reversed([b] + s) == Reversed(s) + [b]
  {
    if s == [] {
      assert Reversed([b]) == [b] + Reversed([]);
    } else {
      var init := s[..|s| - 1];
      assert ([b] + s)[..|s|] == [b] + init;
      ReversedCons(b, init);
    }
  }

  /** Number of bytes of 0x80 and above: `byte as char` sends each of them as
      two bytes. */
  function Wide(bytes: seq<u8>): (n: nat)
    ensures n <= |bytes|
  {
    if bytes == [] then 0
    else Wide(bytes[..|bytes| - 1]) + (if bytes[|bytes| - 1] >= 0x80 then 1 else 0)
  }

  /** Every byte of 0x80 and above costs one extra byte on the wire. */
  lemma {:induction false} EchoTextLength(bytes: seq<u8>)
    ensures |EchoText(bytes)| == |bytes| + Wide(bytes)
  {
    if bytes != [] {
      EchoTextLength(bytes[..|bytes| - 1]);
    }
  }

  /** The echo is the bytes themselves exactly when every byte is ASCII. */
  lemma EchoTextIsIdentity(bytes: seq<u8>)
    ensures EchoText(bytes) == bytes <==> forall i :: 0 <= i < |bytes| ==> bytes[i] < 0x80
  {
    if forall i :: 0 <= i < |bytes| ==> bytes[i] < 0x80 {
      AsciiEchoesItself(bytes);
    } else {
      var j :| 0 <= j < |bytes| && bytes[j] >= 0x80;
      WideAt(bytes, j);
      EchoTextLength(bytes);
    }
  }

  lemma {:induction false} AsciiEchoesItself(bytes: seq<u8>)
    requires forall i :: 0 <= i < |bytes| ==> bytes[i] < 0x80
    ensures EchoText(bytes) == bytes
  {
    if bytes != [] {
      var init, last := bytes[..|bytes| - 1], bytes[|bytes| - 1];
      forall i | 0 <= i < |init|
        ensures init[i] < 0x80
      {
        assert init[i] == bytes[i];
      }
      AsciiEchoesItself(init);
      assert bytes == init + [last];
    }
  }

  lemma {:induction false} WideAt(bytes: seq<u8>, j: nat)
    requires j < |bytes| && bytes[j] >= 0x80
    ensures Wide(bytes) > 0
  {
    if j < |bytes| - 1 {
      WideAt(bytes[..|bytes| - 1], j);
    }
  }

  /** Number of '\n' bytes in `s`. */
  function Newlines(s: seq<u8>): (n: nat)
    ensures n <= |s|
  {
    if s == [] then 0
    else Newlines(s[..|s| - 1]) + (if s[|s| - 1] == NEWLINE then 1 else 0)
  }

  lemma {:induction false} NewlinesAppend(a: seq<u8>, b: seq<u8>)
    ensures Newlines(a + b) == Newlines(a) + Newlines(b)
  {
    if b != [] {
      assert (a + b)[..|a + b| - 1] == a + b[..|b| - 1];
      NewlinesAppend(a, b[..|b| - 1]);
    } else {
      assert a + b == a;
    }
  }

  lemma {:induction false} NoNewlines(s: seq<u8>)
    requires forall i :: 0 <= i < |s| ==> s[i] != NEWLINE
    ensures Newlines(s) == 0
  {
    if s != [] {
      NoNewlines(s[..|s| - 1]);
    }
  }

  /** An error line is one line: the prefix, the digits, and a single '\n' at the end. */
  lemma ErrorLineIsOneLine(b: u8)
    ensures Newlines(ErrorLine(b)) == 1
    ensures ErrorLine(b)[|ErrorLine(b)| - 1] == NEWLINE
  {
    NoNewlines(ERROR_PREFIX);
    NoNewlines(Decimal(b));
    NewlinesAppend(ERROR_PREFIX, Decimal(b));
    NewlinesAppend(ERROR_PREFIX + Decimal(b), [NEWLINE]);
    assert Newlines([NEWLINE]) == 1 by {
      assert [NEWLINE][..0] == [];
    }
  }

  /** The number in an error line is the rejected byte, in at most three digits. */
  lemma ErrorLineNamesByte(b: u8)
    ensures ErrorLine(b)[..|ERROR_PREFIX|] == ERROR_PREFIX
    ensures |ERROR_PREFIX| + 2 <= |ErrorLine(b)| <= |ERROR_PREFIX| + 4
    ensures forall i :: |ERROR_PREFIX| <= i < |ErrorLine(b)| - 1 ==> IsDigit(ErrorLine(b)[i])
    ensures ParseDecimal(ErrorLine(b)[|ERROR_PREFIX|..|ErrorLine(b)| - 1]) == b
  {
    var line := ErrorLine(b);
    assert line[|ERROR_PREFIX|..|line| - 1] == Decimal(b);
    DecimalOfByte(b);
    ParseDecimalOfDecimal(b);
  }

  /** One error line is reported per rejected byte. */
  lemma {:induction false} ErrorTextLines(rejected: seq<u8>)
    ensures Newlines(ErrorText(rejected)) == |rejected|
  {
    if rejected != [] {
      var init := rejected[..|rejected| - 1];
      ErrorTextLines(init);
      ErrorLineIsOneLine(rejected[|rejected| - 1]);
      NewlinesAppend(ErrorText(init), ErrorLine(rejected[|rejected| - 1]));
    }
  }

  /** A line that fits is echoed reversed with no error line; since the
      terminator is kept, the reply starts with '\n'. */
  lemma LineThatFits(cap: nat, line: seq<u8>)
    requires |line| <= cap && line != [] && line[|line| - 1] == NEWLINE
    ensures LineOutput(cap, line) == EchoText(Reversed(line)) + [NEWLINE]
    ensures LineOutput(cap, line)[0] == NEWLINE
  {
    NothingRejected(cap, line);
    EchoStartsWithTerminator(line);
  }

  lemma NothingRejected(cap: nat, line: seq<u8>)
    requires |line| <= cap
    ensures LineOutput(cap, line) == EchoText(Reversed(line)) + [NEWLINE]
  {
    LineSplit(cap, line);
    var r, k := Rejected(cap, line), Kept(cap, line);
    assert r == [] && k == line;
    var echo := EchoText(Reversed(k));
    assert LineOutput(cap, line) == ErrorText(r) + echo + [NEWLINE];
    assert ErrorText(r) == [];
    EmptyPrefix(echo);
  }

  /** Proof helper: an empty prefix, kept apart to keep `NothingRejected` cheap. */
  lemma EmptyPrefix(s: seq<u8>)
    ensures [] + s == s
  {
  }

  lemma EchoStartsWithTerminator(line: seq<u8>)
    requires line != [] && line[|line| - 1] == NEWLINE
    ensures EchoText(Reversed(line)) != [] && EchoText(Reversed(line))[0] == NEWLINE
  {
    var init := line[..|line| - 1];
    assert Reversed(line) == [NEWLINE] + Reversed(init);
    EchoTextPrefixOf([NEWLINE], Reversed(init));
    EchoTextOne(NEWLINE);
  }

  lemma EchoTextOne(b: u8)
    ensures EchoText([b]) == EncodeChar(b)
  {
    assert [b][..0] == [];
  }

  /** The echo of `a + b` starts with the echo of `a`. */
  lemma {:induction false} EchoTextPrefixOf(a: seq<u8>, b: seq<u8>)
    ensures EchoText(a) <= EchoText(a + b)
  {
    if b != [] {
      assert (a + b)[..|a + b| - 1] == a + b[..|b| - 1];
      EchoTextPrefixOf(a, b[..|b| - 1]);
    } else {
      assert a + b == a;
    }
  }

  /** A line that overflows loses its terminator too: the last error line
      reports byte 10, and the echo is the first `cap` bytes reversed. */
  lemma LineThatOverflows(cap: nat, line: seq<u8>)
    requires |line| > cap && line[|line| - 1] == NEWLINE
    ensures Rejected(cap, line) == line[cap..]
    ensures ErrorText(Rejected(cap, line)) == ErrorText(line[cap..|line| - 1]) + ErrorLine(NEWLINE)
    ensures Decimal(NEWLINE) == [0x31, 0x30]
    ensures LineOutput(cap, line)
      == ErrorText(line[cap..]) + EchoText(Reversed(line[..cap])) + [NEWLINE]
  {
    var r := line[cap..];
    assert r == r[..|r| - 1] + [NEWLINE];
    assert r[..|r| - 1] == line[cap..|line| - 1];
    ErrorTextSnoc(r[..|r| - 1], NEWLINE);
  }

  /** A line of ASCII bytes that fits comes back as its reversal, then '\n'. */
  lemma AsciiLineThatFits(cap: nat, line: seq<u8>)
    requires |line| <= cap && forall i :: 0 <= i < |line| ==> line[i] < 0x80
    ensures LineOutput(cap, line) == Reversed(line) + [NEWLINE]
  {
    NothingRejected(cap, line);
    forall i | 0 <= i < |line|
      ensures Reversed(line)[i] < 0x80
    {
      ReversedAt(line, i);
    }
    EchoTextIsIdentity(Reversed(line));
  }

  /** `hello` followed by enter comes back as '\n' then `olleh` then '\n'. */
  lemma HelloComesBackReversed()
    ensures LineOutput(CAPACITY, [0x68, 0x65, 0x6C, 0x6C, 0x6F, 0x0A]) == [0x0A, 0x6F, 0x6C, 0x6C, 0x65, 0x68, 0x0A]
  {
    var bytes: seq<u8> := [0x68, 0x65, 0x6C, 0x6C, 0x6F, 0x0A];
    var reply: seq<u8> := [0x0A, 0x6F, 0x6C, 0x6C, 0x65, 0x68];
    forall k | 0 <= k < 6
      ensures Reversed(bytes)[k] == reply[k]
    {
      ReversedAt(bytes, k);
    }
    assert Reversed(bytes) == reply;
    AsciiLineThatFits(CAPACITY, bytes);
    assert reply + [NEWLINE] == [0x0A, 0x6F, 0x6C, 0x6C, 0x65, 0x68, 0x0A];
  }
}
