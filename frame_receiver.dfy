/**
 * The EPS UART receive interrupt of beacon/main.c (USCI_A0_ISR): bytes
 * between a start byte 0x7E and an end byte 0x98, both included, are
 * collected into the 10-byte array received_data; the end byte raises
 * data_ready.
 */
module UartFrame {

  const StartOfData: bv8 := 0x7E
  const EndOfData: bv8 := 0x98
  const ReceivedDataLength: nat := 10
  /** The UCA0IV value of a received byte (RXIFG). */
  const RxInterrupt: nat := 2

  /** The receiver's variables; `data` is received_data[0 .. data_counter). */
  datatype Receiver = Receiver(data: seq<bv8>, receiving: bool, ready: bool)

  /** The effect of one received byte. */
  function Receive(r: Receiver, b: bv8): Receiver
  {
    if b == StartOfData then Receiver([b], true, false)
    else if r.receiving && b == EndOfData then Receiver(r.data + [b], false, true)
    else if r.receiving then r.(data := r.data + [b])
    else r
  }

  /** The effect of a stream of bytes, in order. */
  function ReceiveAll(r: Receiver, bs: seq<bv8>): Receiver
    decreases |bs|
  {
    if |bs| == 0 then r else ReceiveAll(Receive(r, bs[0]), bs[1..])
  }

  lemma {:induction false} ReceiveAllAppend(r: Receiver, a: seq<bv8>, b: bv8)
    ensures ReceiveAll(r, a + [b]) == Receive(ReceiveAll(r, a), b)
    decreases |a|
  {
    if |a| == 0 {
      assert a + [b] == [b];
    } else {
      assert (a + [b])[1..] == a[1..] + [b];
      ReceiveAllAppend(Receive(r, a[0]), a[1..], b);
    }
  }

  /** Bytes other than the two markers. */
  predicate Plain(bs: seq<bv8>)
  {
    forall i :: 0 <= i < |bs| ==> bs[i] != StartOfData && bs[i] != EndOfData
  }

  /** Inside a frame, plain bytes are appended in order and nothing else changes. */
  lemma {:induction false} PlainBytesAppend(r: Receiver, bs: seq<bv8>)
    requires r.receiving && Plain(bs)
    ensures ReceiveAll(r, bs) == r.(data := r.data + bs)
    decreases |bs|
  {
    if |bs| == 0 {
      assert r.data + bs == r.data;
    } else {
      assert Plain(bs[1..]);
      assert r.data + [bs[0]] + bs[1..] == r.data + bs;
      PlainBytesAppend(Receive(r, bs[0]), bs[1..]);
    }
  }

  /** Outside a frame, every byte but the start byte is ignored. */
  lemma {:induction false} IdleIgnoresBytes(r: Receiver, bs: seq<bv8>)
    requires !r.receiving
    requires forall i :: 0 <= i < |bs| ==> bs[i] != StartOfData
    ensures ReceiveAll(r, bs) == r
    decreases |bs|
  {
    if |bs| > 0 {
      IdleIgnoresBytes(Receive(r, bs[0]), bs[1..]);
    }
  }

  /**
   * Whatever the receiver was doing, a start byte, plain bytes and an end
   * byte leave exactly that frame in the buffer with data_ready raised.
   */
  lemma FrameReceived(r: Receiver, payload: seq<bv8>)
    requires Plain(payload)
    ensures ReceiveAll(r, [StartOfData] + payload + [EndOfData])
        == Receiver([StartOfData] + payload + [EndOfData], false, true)
  {
    var r1 := Receive(r, StartOfData);
    assert r1 == Receiver([StartOfData], true, false);
    calc {
      ReceiveAll(r, [StartOfData] + payload + [EndOfData]);
      { ReceiveAllAppend(r, [StartOfData] + payload, EndOfData); }
      Receive(ReceiveAll(r, [StartOfData] + payload), EndOfData);
      { assert ([StartOfData] + payload)[1..] == payload; }
      Receive(ReceiveAll(r1, payload), EndOfData);
      { PlainBytesAppend(r1, payload); }
      Receive(r1.(data := [StartOfData] + payload), EndOfData);
    }
  }

  /** A start byte in the middle of a frame discards it and starts over. */
  lemma StartResynchronises(r: Receiver)
    ensures Receive(r, StartOfData) == Receiver([StartOfData], true, false)
  {
  }

  /** While receiving, every buffer starts with the start byte and holds no other marker. */
  predicate Framing(r: Receiver)
  {
    (r.receiving ==> |r.data| >= 1 && r.data[0] == StartOfData && Plain(r.data[1..]))
    && (r.ready ==> !r.receiving)
  }

  lemma ReceiveKeepsFraming(r: Receiver, b: bv8)
    requires Framing(r)
    ensures Framing(Receive(r, b))
  {
    if r.receiving && b != StartOfData && b != EndOfData {
      assert (r.data + [b])[1..] == r.data[1..] + [b];
    }
  }

  /** The interrupt's variables, updated in place. */
  class UartReceiver {
    const receivedData: array<bv8>
    var dataCounter: nat
    var receiving: bool
    var dataReady: bool
    var receivedByte: bv8

    ghost predicate Valid()
      reads this
    {
      receivedData.Length == ReceivedDataLength && dataCounter <= ReceivedDataLength
    }

    function State(): Receiver
      reads this, receivedData
      requires Valid()
    {
      Receiver(receivedData[..dataCounter], receiving, dataReady)
    }

    constructor()
      ensures Valid() && State() == Receiver([], false, false)
      ensures fresh(receivedData)
    {
      receivedData := new bv8[ReceivedDataLength];
      dataCounter := 0;
      receiving := false;
      dataReady := false;
      receivedByte := 0;
    }

    /**
     * USCI_A0_ISR for interrupt vector `iv` and received byte `b`. The code
     * does not bound data_counter: a frame longer than the array writes
     * past it, so the caller must keep a byte stored while receiving inside
     * the array.
     */
    method UsciA0Isr(iv: nat, b: bv8)
      requires Valid()
      requires iv == RxInterrupt && receiving && b != StartOfData ==> dataCounter < ReceivedDataLength
      modifies this, receivedData
      ensures Valid()
      ensures State() == if iv == RxInterrupt then Receive(old(State()), b) else old(State())
      ensures forall j :: dataCounter <= j < ReceivedDataLength ==> receivedData[j] == old(receivedData[j])
    {
      if iv == RxInterrupt {
        receivedByte := b;
        if receivedByte == StartOfData {
          receiving := true;
          dataCounter := 0;
          receivedData[dataCounter] := receivedByte;
          dataCounter := dataCounter + 1;
          dataReady := false;
        } else if receivedByte == EndOfData {
          if receiving {
            receivedData[dataCounter] := receivedByte;
            dataCounter := dataCounter + 1;
            receiving := false;
            dataReady := true;
          }
        } else {
          if receiving {
            receivedData[dataCounter] := receivedByte;
            dataCounter := dataCounter + 1;
          }
        }
      }
    }
  }
}
