/** The `usart` exercise: wait for one byte, read it, then print
    "The answer is 42" with `uprintln!`. */
module Usart {
  import opened Ints
  import opened Fmt
  import opened Serial

  /** The pieces `uprintln!(serial, "The answer is {}", 40 + 2)` hands to
      `write_str`: the literal before the argument, the decimal digits of the
      argument, and the "\n" `uprintln!` appends to the format string. */
  function AnswerPieces(): (pieces: seq<seq<u8>>)
    ensures |pieces| == 3
  {
    [Ascii("The answer is "), Decimal(40 + 2), [NEWLINE]]
  }

  /** The bytes of "The answer is 42\n". */
  const ANSWER: seq<u8> :=
    [0x54, 0x68, 0x65, 0x20, 0x61, 0x6E, 0x73, 0x77, 0x65, 0x72, 0x20, 0x69, 0x73, 0x20, 0x34, 0x32, 0x0A]

  /** The three pieces spell "The answer is 42\n". */
  lemma AnswerText()
    ensures Flatten(AnswerPieces()) == ANSWER
    ensures ANSWER == Ascii("The answer is 42\n")
  {
    var prefix := Ascii("The answer is ");
    assert prefix == ANSWER[..14];
    assert Decimal(42) == [0x34, 0x32] by {
      assert Decimal(4) == [0x34];
    }
    var digits: seq<u8> := [0x34, 0x32];
    var none: seq<seq<u8>> := [];
    assert Flatten([prefix]) == prefix by {
      assert [prefix][..0] == none;
    }
    assert Flatten([prefix, digits]) == prefix + digits by {
      assert [prefix, digits][..1] == [prefix];
    }
    assert Flatten(AnswerPieces()) == prefix + digits + [NEWLINE] by {
      assert AnswerPieces()[..2] == [prefix, digits];
    }
    assert ANSWER == ANSWER[..14] + [0x34, 0x32] + [NEWLINE];
  }

  /** `main` after `init`: busy-wait on RXNE, load RDR once and keep its low
      byte, then print the answer through the `SerialPort` writer. */
  method AnswerMain(serial: SerialPort) returns (byte: u8)
    requires serial.rxne != [] && serial.rdr != []
    requires |serial.txe| >= |ANSWER|
    modifies serial
    ensures byte == Low8(old(serial.rdr[0]))
    ensures serial.bus == old(serial.bus) + BusyWait(Rxne, old(serial.rxne[0])) + [RdrRead(old(serial.rdr[0]))]
                          + TxTrace(old(serial.txe), ANSWER)
    ensures Sent(serial.bus) == old(Sent(serial.bus)) + ANSWER
    ensures serial.rdr == old(serial.rdr[1..]) && serial.rxne == old(serial.rxne[1..])
    ensures serial.txe == old(serial.txe)[|ANSWER|..]
  {
    ghost var before, clear := serial.bus, serial.rxne[0];
    serial.WaitRxne();
    var v := serial.LoadRdr();
    byte := Low8(v);
    ReceiveSendsNothing(before, clear, v);
    AnswerText();
    serial.Uprint(AnswerPieces());
  }
}
