/** The polling USART1 driver shared by `echo_server` and `usart`:
    `SerialPort::read_byte`, `fmt::Write::write_str` and the `uprint!` /
    `uprintln!` macros.

    The peripheral is abstract state. What the hardware will do is given in
    advance: for every busy-wait on ISR.RXNE (and on ISR.TXE), how many polls
    will still see the flag clear before one sees it set, and the values
    successive loads of RDR return. What the program does is recorded, in bus
    order, in `bus`: every load of ISR (with the flag it tested and the value
    seen), every load of RDR and every store to TDR. */
module Serial {
  import opened Ints

  datatype Flag = Rxne | Txe

  /** One volatile access to a USART1 register. */
  datatype Access =
    | IsrRead(flag: Flag, isSet: bool)
    | RdrRead(value: u16)
    | TdrWrite(value: u16)

  /** `bits() as u8`: the low eight bits of a 16-bit register value. The
      high byte is dropped, and a value that fits in a byte (as `byte as u16`
      stores it) reads back unchanged. */
  function Low8(v: u16): (b: u8)
    ensures v == (v / 0x100) * 0x100 + b
    ensures v < 0x100 ==> b == v
  {
    v % 0x100
  }

  /** The ISR loads of a busy-wait on `flag` whose polls see the flag clear
      `clear` times and then set. */
  function BusyWait(flag: Flag, clear: nat): (r: seq<Access>)
    ensures |r| == clear + 1 && r[clear] == IsrRead(flag, true)
    ensures forall i :: 0 <= i < clear ==> r[i] == IsrRead(flag, false)
  {
    if clear == 0 then [IsrRead(flag, true)]
    else [IsrRead(flag, false)] + BusyWait(flag, clear - 1)
  }

  /** The accesses `write_str(s)` makes when its busy-waits on TXE see the
      flag clear `waits[0]`, `waits[1]`, ... times: per byte, a busy-wait on
      TXE and then one store of the byte to TDR. */
  function TxTrace(waits: seq<nat>, s: seq<u8>): seq<Access>
    requires |waits| >= |s|
  {
    if s == [] then []
    else BusyWait(Txe, waits[0]) + [TdrWrite(s[0])] + TxTrace(waits[1..], s[1..])
  }

  /** The bytes that went out on the line: the low byte of every TDR store, in order. */
  function Sent(bus: seq<Access>): seq<u8> {
    if bus == [] then []
    else (if bus[0].TdrWrite? then [Low8(bus[0].value)] else []) + Sent(bus[1..])
  }

  /** Concatenation of the pieces `write_fmt` hands to `write_str`. */
  function Flatten(pieces: seq<seq<u8>>): seq<u8> {
    if pieces == [] then []
    else Flatten(pieces[..|pieces| - 1]) + pieces[|pieces| - 1]
  }

  class SerialPort {
    /** For each coming busy-wait on RXNE, the number of polls that still see it clear. */
    var rxne: seq<nat>
    /** For each coming busy-wait on TXE, the number of polls that still see it clear. */
    var txe: seq<nat>
    /** Values successive loads of RDR will return. */
    var rdr: seq<u16>
    /** Every access made so far, oldest first. */
    var bus: seq<Access>

    constructor (rxne: seq<nat>, txe: seq<nat>, rdr: seq<u16>)
      ensures this.rxne == rxne && this.txe == txe && this.rdr == rdr && bus == []
    {
      this.rxne, this.txe, this.rdr := rxne, txe, rdr;
      bus := [];
    }

    /** `isr.read().rxne()`: the poll sees RXNE set once no clear poll is left
        for the current busy-wait, which then ends. */
    method PollRxne() returns (isSet: bool)
      requires rxne != []
      modifies this
      ensures isSet <==> old(rxne[0]) == 0
      ensures rxne == Polled(old(rxne))
      ensures bus == old(bus) + [IsrRead(Rxne, isSet)]
      ensures txe == old(txe) && rdr == old(rdr)
    {
      isSet := rxne[0] == 0;
      rxne, bus := Polled(rxne), bus + [IsrRead(Rxne, isSet)];
    }

    /** `isr.read().txe()`, the same for TXE. */
    method PollTxe() returns (isSet: bool)
      requires txe != []
      modifies this
      ensures isSet <==> old(txe[0]) == 0
      ensures txe == Polled(old(txe))
      ensures bus == old(bus) + [IsrRead(Txe, isSet)]
      ensures rxne == old(rxne) && rdr == old(rdr)
    {
      isSet := txe[0] == 0;
      txe, bus := Polled(txe), bus + [IsrRead(Txe, isSet)];
    }

    /** `while isr.read().rxne().bit_is_clear() {}` */
    method WaitRxne()
      requires rxne != []
      modifies this
      ensures rxne == old(rxne[1..])
      ensures bus == old(bus) + BusyWait(Rxne, old(rxne[0]))
      ensures txe == old(txe) && rdr == old(rdr)
    {
      ghost var rest, final := rxne[1..], bus + BusyWait(Rxne, rxne[0]);
      var isSet := false;
      while !isSet
        invariant !isSet ==> Waiting(Rxne, rxne, bus, rest, final)
        invariant isSet ==> rxne == rest && bus == final
        invariant txe == old(txe) && rdr == old(rdr)
        decreases if isSet then 0 else rxne[0] + 1
      {
        PollStep(Rxne, rxne, bus, rest, final);
        isSet := PollRxne();
      }
    }

    /** `while isr.read().txe().bit_is_clear() {}` */
    method WaitTxe()
      requires txe != []
      modifies this
      ensures txe == old(txe[1..])
      ensures bus == old(bus) + BusyWait(Txe, old(txe[0]))
      ensures rxne == old(rxne) && rdr == old(rdr)
    {
      ghost var rest, final := txe[1..], bus + BusyWait(Txe, txe[0]);
      var isSet := false;
      while !isSet
        invariant !isSet ==> Waiting(Txe, txe, bus, rest, final)
        invariant isSet ==> txe == rest && bus == final
        invariant rxne == old(rxne) && rdr == old(rdr)
        decreases if isSet then 0 else txe[0] + 1
      {
        PollStep(Txe, txe, bus, rest, final);
        isSet := PollTxe();
      }
    }

    /** `rdr.read().rdr().bits()`: one load of RDR. */
    method LoadRdr() returns (v: u16)
      requires rdr != []
      modifies this
      ensures v == old(rdr[0])
      ensures bus == old(bus) + [RdrRead(v)]
      ensures rdr == old(rdr[1..]) && rxne == old(rxne) && txe == old(txe)
    {
      v := rdr[0];
      rdr, bus := rdr[1..], bus + [RdrRead(v)];
    }

    /** `read_byte`: wait for RXNE, then load RDR once and keep its low eight bits. */
    method ReadByte() returns (b: u8)
      requires rxne != [] && rdr != []
      modifies this
      ensures b == Low8(old(rdr[0]))
      ensures bus == old(bus) + BusyWait(Rxne, old(rxne[0])) + [RdrRead(old(rdr[0]))]
      ensures rxne == old(rxne[1..]) && rdr == old(rdr[1..]) && txe == old(txe)
      ensures Sent(bus) == old(Sent(bus))
    {
      ghost var before, clear := bus, rxne[0];
      WaitRxne();
      var v := LoadRdr();
      b := Low8(v);
      ReceiveSendsNothing(before, clear, v);
    }

    /** `write_str(s)`: for each byte of `s`, wait for TXE, then store `byte as u16` to TDR. */
    method WriteStr(s: seq<u8>) returns (ok: bool)
      requires |txe| >= |s|
      modifies this
      ensures ok
      ensures bus == old(bus) + TxTrace(old(txe), s)
      ensures txe == old(txe)[|s|..]
      ensures rxne == old(rxne) && rdr == old(rdr)
    {
      ghost var final := bus + TxTrace(txe, s);
      assert s[0..] == s;
      for i := 0 to |s|
        invariant txe == old(txe)[i..]
        invariant bus + TxTrace(txe, s[i..]) == final
        invariant rxne == old(rxne) && rdr == old(rdr)
      {
        ghost var waits, before := txe, bus;
        WaitTxe();
        bus := bus + [TdrWrite(s[i])];
        WriteStrStep(waits, before, s, i, bus, final);
      }
      ok := true;
    }

    /** `uprint!` (and `uprintln!`, whose "\n" ends the last piece): `write_fmt`
        hands each piece to `write_str` in turn; `.ok()` drops the result. */
    method Uprint(pieces: seq<seq<u8>>)
      requires |txe| >= |Flatten(pieces)|
      modifies this
      ensures bus == old(bus) + TxTrace(old(txe), Flatten(pieces))
      ensures Sent(bus) == old(Sent(bus)) + Flatten(pieces)
      ensures txe == old(txe)[|Flatten(pieces)|..]
      ensures rxne == old(rxne) && rdr == old(rdr)
    {
      assert pieces[..0] == [];
      for i := 0 to |pieces|
        invariant |Flatten(pieces[..i])| <= |Flatten(pieces)|
        invariant bus == old(bus) + TxTrace(old(txe), Flatten(pieces[..i]))
        invariant txe == old(txe)[|Flatten(pieces[..i])|..]
        invariant rxne == old(rxne) && rdr == old(rdr)
      {
        ghost var done := Flatten(pieces[..i]);
        FlattenStep(pieces, i);
        var ignored := WriteStr(pieces[i]);
        TxTraceAppend(old(txe), done, pieces[i]);
        AccessAssoc(old(bus), TxTrace(old(txe), done), TxTrace(old(txe)[|done|..], pieces[i]));
      }
      assert pieces[..|pieces|] == pieces;
      SentAppend(old(bus), TxTrace(old(txe), Flatten(pieces)));
      SentTxTrace(old(txe), Flatten(pieces));
      assert pieces[..|pieces|] == pieces;
    }
  }

  /** What a poll leaves of the busy-waits to come: one clear poll fewer for
      the current one, or, when it sees the flag set, the next busy-waits. */
  function Polled(waits: seq<nat>): (rest: seq<nat>)
    requires waits != []
    ensures waits[0] == 0 ==> rest == waits[1..]
    ensures waits[0] > 0 ==> rest != [] && rest[0] == waits[0] - 1 && rest[1..] == waits[1..]
  {
    if waits[0] == 0 then waits[1..] else [waits[0] - 1] + waits[1..]
  }

  /** A busy-wait on `flag` is under way: `waits[0]` clear polls are still
      to come, after it the busy-waits `rest` remain, and once it ends the
      bus holds `final`. */
  ghost predicate Waiting(flag: Flag, waits: seq<nat>, bus: seq<Access>, rest: seq<nat>, final: seq<Access>) {
    waits != [] && waits[1..] == rest && bus + BusyWait(flag, waits[0]) == final
  }

  /** A poll that sees the flag clear leaves one clear poll fewer to come;
      one that sees it set completes the busy-wait. */
  lemma PollStep(flag: Flag, waits: seq<nat>, bus: seq<Access>, rest: seq<nat>, final: seq<Access>)
    requires Waiting(flag, waits, bus, rest, final)
    ensures waits[0] == 0 ==> Polled(waits) == rest && bus + [IsrRead(flag, true)] == final
    ensures waits[0] > 0 ==> Waiting(flag, Polled(waits), bus + [IsrRead(flag, false)], rest, final)
  {
    if waits[0] > 0 {
      PollClear(flag, waits, bus, rest, final);
    }
  }

  lemma PollClear(flag: Flag, waits: seq<nat>, bus: seq<Access>, rest: seq<nat>, final: seq<Access>)
    requires Waiting(flag, waits, bus, rest, final) && waits[0] > 0
    ensures Waiting(flag, Polled(waits), bus + [IsrRead(flag, false)], rest, final)
  {
    var polled, clear := Polled(waits), IsrRead(flag, false);
    assert polled[0] == waits[0] - 1 && polled[1..] == rest;
    assert BusyWait(flag, waits[0]) == [clear] + BusyWait(flag, polled[0]);
    AccessAssoc(bus, [clear], BusyWait(flag, polled[0]));
  }

  /** One iteration of `write_str`'s loop keeps what is left to do in step
      with the trace of the whole call. */
  lemma WriteStrStep(waits: seq<nat>, before: seq<Access>, s: seq<u8>, i: nat,
                     after: seq<Access>, final: seq<Access>)
    requires i < |s| && |waits| >= |s| - i
    requires before + TxTrace(waits, s[i..]) == final
    requires after == before + BusyWait(Txe, waits[0]) + [TdrWrite(s[i])]
    ensures after + TxTrace(waits[1..], s[i + 1..]) == final
  {
    var waited := BusyWait(Txe, waits[0]);
    var store := [TdrWrite(s[i])];
    var more := TxTrace(waits[1..], s[i + 1..]);
    assert TxTrace(waits, s[i..]) == waited + store + more by {
      assert s[i..][1..] == s[i + 1..] && s[i..][0] == s[i];
    }
    calc {
      final;
      before + (waited + store + more);
      { AccessAssoc(before, waited + store, more); }
      before + (waited + store) + more;
      { AccessAssoc(before, waited, store); }
      after + more;
    }
  }

  /** Proof helper: regrouping appends of bytes, kept apart to keep the
      methods that append to the sent bytes cheap. */
  lemma BytesAssoc(a: seq<u8>, b: seq<u8>, c: seq<u8>)
    ensures a + b + c == a + (b + c)
  {
  }

  /** Proof helper: dropping `a` elements and then `b` more drops `a + b`. */
  lemma DropDrop<T>(s: seq<T>, a: nat, b: nat)
    requires a + b <= |s|
    ensures s[a..][b..] == s[a + b..]
  {
  }

  /** Proof helper: regrouping appends of bus accesses. */
  lemma AccessAssoc(a: seq<Access>, b: seq<Access>, c: seq<Access>)
    ensures a + b + c == a + (b + c)
  {
  }

  /** `write_str(a + b)` makes the accesses of `write_str(a)` and then those
      of `write_str(b)` over the busy-waits left. */
  lemma {:induction false} TxTraceAppend(waits: seq<nat>, a: seq<u8>, b: seq<u8>)
    requires |waits| >= |a| + |b|
    ensures TxTrace(waits, a + b) == TxTrace(waits, a) + TxTrace(waits[|a|..], b)
  {
    if a == [] {
      assert a + b == b && waits[|a|..] == waits;
    } else {
      var head := BusyWait(Txe, waits[0]) + [TdrWrite(a[0])];
      assert (a + b)[0] == a[0] && (a + b)[1..] == a[1..] + b;
      TxTraceAppend(waits[1..], a[1..], b);
      assert waits[1..][|a| - 1..] == waits[|a|..];
      AccessAssoc(head, TxTrace(waits[1..], a[1..]), TxTrace(waits[|a|..], b));
    }
  }

  /** The pieces up to `i + 1` are the pieces up to `i` and piece `i`, and
      never longer than all of them. */
  lemma FlattenStep(pieces: seq<seq<u8>>, i: nat)
    requires i < |pieces|
    ensures Flatten(pieces[..i + 1]) == Flatten(pieces[..i]) + pieces[i]
    ensures |Flatten(pieces[..i + 1])| <= |Flatten(pieces)|
  {
    assert pieces[..i + 1][..i] == pieces[..i];
    FlattenPrefix(pieces, i + 1);
  }

  lemma {:induction false} FlattenPrefix(pieces: seq<seq<u8>>, m: nat)
    requires m <= |pieces|
    ensures |Flatten(pieces[..m])| <= |Flatten(pieces)|
  {
    if m < |pieces| {
      var init := pieces[..|pieces| - 1];
      assert init[..m] == pieces[..m];
      FlattenPrefix(init, m);
    } else {
      assert pieces[..m] == pieces;
    }
  }

  /** What went out is what the first part sent followed by what the second sent. */
  lemma {:induction false} SentAppend(a: seq<Access>, b: seq<Access>)
    ensures Sent(a + b) == Sent(a) + Sent(b)
  {
    if a == [] {
      assert a + b == b;
    } else {
      assert (a + b)[0] == a[0];
      assert (a + b)[1..] == a[1..] + b;
      SentAppend(a[1..], b);
    }
  }

  /** Waiting for RXNE and loading RDR put nothing on the line. */
  lemma ReceiveSendsNothing(before: seq<Access>, clear: nat, v: u16)
    ensures Sent(before + BusyWait(Rxne, clear) + [RdrRead(v)]) == Sent(before)
  {
    SentAppend(before + BusyWait(Rxne, clear), [RdrRead(v)]);
    SentAppend(before, BusyWait(Rxne, clear));
    SentBusyWait(Rxne, clear);
    assert Sent([RdrRead(v)]) == [] by {
      assert [RdrRead(v)][1..] == [];
    }
  }

  /** Polling ISR puts nothing on the line. */
  lemma {:induction false} SentBusyWait(flag: Flag, clear: nat)
    ensures Sent(BusyWait(flag, clear)) == []
  {
    if clear > 0 {
      SentBusyWait(flag, clear - 1);
      SentAppend([IsrRead(flag, false)], BusyWait(flag, clear - 1));
    }
  }

  /** `write_str(s)` puts exactly the bytes of `s` on the line, in order. */
  lemma {:induction false} SentTxTrace(waits: seq<nat>, s: seq<u8>)
    requires |waits| >= |s|
    ensures Sent(TxTrace(waits, s)) == s
  {
    if s != [] {
      var waited := BusyWait(Txe, waits[0]);
      var store := [TdrWrite(s[0])];
      SentAppend(waited + store, TxTrace(waits[1..], s[1..]));
      SentAppend(waited, store);
      SentBusyWait(Txe, waits[0]);
      SentTxTrace(waits[1..], s[1..]);
      assert Sent(store) == [s[0]];
    }
  }

  /** Access `i` of `t` is one `write_str` may make: a TXE poll, or a store of a
      value below 256 right after a poll that observed TXE set. */
  predicate TxAccess(t: seq<Access>, i: nat)
    requires i < |t|
  {
    match t[i]
    case IsrRead(flag, _) => flag == Txe
    case RdrRead(_) => false
    case TdrWrite(v) => 0 < i && t[i - 1] == IsrRead(Txe, true) && v < 256
  }

  /** Every access of `write_str` is a TXE poll or a TDR store; every store is
      immediately preceded by a poll that observed TXE set, and stores a value
      below 256. */
  lemma {:induction false} TxTraceShape(waits: seq<nat>, s: seq<u8>)
    requires |waits| >= |s|
    ensures forall i :: 0 <= i < |TxTrace(waits, s)| ==> TxAccess(TxTrace(waits, s), i)
  {
    if s != [] {
      var k := waits[0];
      TxTraceShape(waits[1..], s[1..]);
      var w := TdrWrite(s[0]);
      var head := BusyWait(Txe, k) + [w];
      var tail := TxTrace(waits[1..], s[1..]);
      var t := head + tail;
      assert TxTrace(waits, s) == t;
      assert |head| == k + 2;
      assert s[0] < 256;
      forall i | 0 <= i < |t|
        ensures TxAccess(t, i)
      {
        if i >= |head| {
          var j := i - |head|;
          assert t[i] == tail[j];
          assert TxAccess(tail, j);
          if tail[j].TdrWrite? {
            assert t[i - 1] == tail[j - 1];
          }
        } else if i == k + 1 {
          assert t[i] == w;
          assert t[i - 1] == head[k] == IsrRead(Txe, true);
        } else {
          assert t[i] == head[i];
        }
      }
    }
  }
}
