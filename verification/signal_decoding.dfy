/** Signal extraction from a received frame, as done by the device imitator's
    `process_can_message`: the payload is read as one big-endian integer and
    each signal is a bit field counted from the most-significant end, so that
    bit 0 is the top bit of byte 0. */
module SignalDecoding {
  import opened CanFrame
  import opened BitMath
  import opened Results

  /** A signal of a frame definition; start bit and length are unconstrained
      integers, as in the definition records the decoder reads. */
  datatype Signal = Signal(name: string, startBit: int, length: int, factor: real, offset: real, isSigned: bool)

  datatype FrameDefinition = FrameDefinition(signals: seq<Signal>)

  /** Decoded values of one frame, by signal name. */
  type Decoded = map<string, real>

  /** Python's `ValueError: negative shift count`, the only way decoding fails. */
  datatype DecodeError = NegativeShiftCount

  /** The payload read as one unsigned big-endian integer. */
  function BigEndian(data: seq<Byte>): nat
  {
    if |data| == 0 then 0 else BigEndian(data[..|data| - 1]) * 256 + data[|data| - 1]
  }

  /** Bit `p` of the payload in most-significant-first numbering: bit 0 is the
      top bit of byte 0, bit 8 the top bit of byte 1. Positions outside the
      payload read as 0. */
  function PayloadBit(data: seq<Byte>, p: int): nat
  {
    if 0 <= p < 8 * |data| then BitOf(data[p / 8], 7 - p % 8) else 0
  }

  /** Whether a `length`-bit field starting at `start` can be cut out of the payload. */
  predicate FieldFits(data: seq<Byte>, start: int, length: int)
  {
    0 <= length && start + length <= 8 * |data|
  }

  /** The unsigned field: the big-endian value shifted right so that the
      field's last bit lands at bit 0, then masked to `length` bits. A negative
      shift count or a negative mask width aborts. */
  function ExtractRaw(data: seq<Byte>, start: int, length: int): (r: Result<nat, DecodeError>)
    ensures r.Err? <==> !FieldFits(data, start, length)
    ensures r.Ok? ==> r.value < Pow2(length)
  {
    var shift := 8 * |data| - (start + length);
    if shift < 0 || length < 0 then Err(NegativeShiftCount)
    else Ok(BigEndian(data) / Pow2(shift) % Pow2(length))
  }

  /** Optional two's-complement reinterpretation of an unsigned `length`-bit
      field. A signed field of width 0 aborts, since its sign bit would sit at
      position -1. */
  function Interpret(raw: nat, length: nat, isSigned: bool): (r: Result<int, DecodeError>)
    requires raw < Pow2(length)
    ensures r.Err? <==> isSigned && length == 0
    ensures r.Ok? && !isSigned ==> r.value == raw
    ensures r.Ok? && isSigned ==> length >= 1 && -(Pow2(length - 1) as int) <= r.value < Pow2(length - 1)
    ensures r.Ok? ==> (r.value - raw) % Pow2(length) == 0
  {
    if !isSigned then Ok(raw)
    else if length == 0 then Err(NegativeShiftCount)
    else
      var full := Pow2(length);
      assert full == 2 * Pow2(length - 1);
      if raw >= Pow2(length - 1) then
        DivUnique(-(full as int), full, -1, 0);
        assert (raw - full) - raw == -(full as int);
        Ok(raw - full)
      else Ok(raw)
  }

  /** Whether a signal can be decoded from the payload: the field fits, and a
      signed field has a sign bit. */
  predicate Decodable(data: seq<Byte>, sig: Signal)
  {
    FieldFits(data, sig.startBit, sig.length) && !(sig.isSigned && sig.length == 0)
  }

  /** A field's integer value scaled to the signal's physical value. */
  function Scale(v: int, sig: Signal): real
  {
    v as real * sig.factor + sig.offset
  }

  /** The physical value of one signal: the field, reinterpreted, scaled and shifted. */
  function Decode(data: seq<Byte>, sig: Signal): (r: Result<real, DecodeError>)
    ensures r.Ok? <==> Decodable(data, sig)
  {
    match ExtractRaw(data, sig.startBit, sig.length)
    case Err(e) => Err(e)
    case Ok(raw) =>
      match Interpret(raw, sig.length, sig.isSigned)
      case Err(e) => Err(e)
      case Ok(v) => Ok(Scale(v, sig))
  }

  /** The names a frame definition's signals carry. */
  function Names(sigs: seq<Signal>): set<string>
  {
    if |sigs| == 0 then {} else Names(sigs[..|sigs| - 1]) + {sigs[|sigs| - 1].name}
  }

  /** Signal `i` is the last one carrying its name, so its value is the one kept. */
  predicate LastOfName(sigs: seq<Signal>, i: int)
    requires 0 <= i < |sigs|
  {
    forall j :: i < j < |sigs| ==> sigs[j].name != sigs[i].name
  }

  /** Decodes the signals in order into a name-to-value map; a later signal
      overwrites an earlier one of the same name, and the first signal that
      fails aborts the whole frame. */
  function DecodeSignals(data: seq<Byte>, sigs: seq<Signal>): (r: Result<Decoded, DecodeError>)
    ensures r.Ok? <==> forall i :: 0 <= i < |sigs| ==> Decodable(data, sigs[i])
    ensures r.Ok? ==> r.value.Keys == Names(sigs)
  {
    if |sigs| == 0 then Ok(map[])
    else
      var init, last := sigs[..|sigs| - 1], sigs[|sigs| - 1];
      var prefix := DecodeSignals(data, init);
      if prefix.Err? then prefix
      else
        var d := Decode(data, last);
        if d.Err? then Err(d.error)
        else Ok(prefix.value[last.name := d.value])
  }

  /** Each name a signal carries has an entry in the decoded map, holding the
      value of the last signal that carries it. */
  lemma {:induction false} DecodeSignalsKeepsLast(data: seq<Byte>, sigs: seq<Signal>, i: int)
    requires DecodeSignals(data, sigs).Ok? && 0 <= i < |sigs| && LastOfName(sigs, i)
    ensures sigs[i].name in DecodeSignals(data, sigs).value
    ensures DecodeSignals(data, sigs).value[sigs[i].name] == Decode(data, sigs[i]).value
  {
    var init, last := sigs[..|sigs| - 1], sigs[|sigs| - 1];
    if i < |init| {
      assert init[i] == sigs[i] && sigs[i].name != last.name;
      assert LastOfName(init, i);
      DecodeSignalsKeepsLast(data, init, i);
    }
  }

  /** What the decoder has stored so far: the latest decoded signals per frame identifier. */
  type ReceivedData = map<nat, Decoded>

  /** `process_can_message`: a frame whose identifier has a definition replaces
      that identifier's entry with its freshly decoded signals; any other frame
      leaves the store as it was. A failing signal aborts before the store is
      written, so an `Err` means the store is unchanged. */
  function ProcessCanMessage(received: ReceivedData, definitions: map<nat, FrameDefinition>, msg: Frame): (r: Result<ReceivedData, DecodeError>)
    ensures msg.id !in definitions ==> r == Ok(received)
    ensures msg.id in definitions ==>
              (r.Ok? <==> forall i :: 0 <= i < |definitions[msg.id].signals| ==> Decodable(msg.data, definitions[msg.id].signals[i]))
    ensures r.Ok? && msg.id in definitions ==>
              && r.value.Keys == received.Keys + {msg.id}
              && r.value[msg.id].Keys == Names(definitions[msg.id].signals)
              && r.value[msg.id] == DecodeSignals(msg.data, definitions[msg.id].signals).value
    ensures r.Ok? ==> forall id :: id in received && id != msg.id ==> id in r.value && r.value[id] == received[id]
  {
    if msg.id !in definitions then Ok(received)
    else
      var decoded :- DecodeSignals(msg.data, definitions[msg.id].signals);
      Ok(received[msg.id := decoded])
  }

  // ---------------------------------------------------------------------------
  // Reference reading: the field taken one payload bit at a time

  /** The `count` payload bits from position `from` on, read most-significant first. */
  function FieldBits(data: seq<Byte>, from: int, count: nat): nat
  {
    if count == 0 then 0 else 2 * FieldBits(data, from, count - 1) + PayloadBit(data, from + count - 1)
  }

  /** The integer a signal stands for: its bits read in order, and, when signed,
      the first bit taken as the two's-complement sign. */
  function FieldValue(data: seq<Byte>, sig: Signal): int
    requires sig.length >= 0
  {
    var u := FieldBits(data, sig.startBit, sig.length);
    if sig.isSigned && PayloadBit(data, sig.startBit) == 1 then u - Pow2(sig.length) else u
  }

  // ---------------------------------------------------------------------------
  // Lemmas

  lemma {:induction false} BigEndianBound(data: seq<Byte>)
    ensures BigEndian(data) < Pow2(8 * |data|)
  {
    if |data| > 0 {
      var init := data[..|data| - 1];
      BigEndianBound(init);
      Pow2Add(8 * |init|, 8);
      Pow2Byte();
      assert BigEndian(init) * 256 + data[|data| - 1] < Pow2(8 * |init|) * 256 by {
        RemainderBound(BigEndian(init), 256, Pow2(8 * |init|), data[|data| - 1]);
      }
    }
  }

  /** Bit `q` (from the least-significant end) of the big-endian value is bit
      `q % 8` of byte `|data| - 1 - q / 8`, and 0 above the payload. */
  lemma {:induction false} BigEndianBit(data: seq<Byte>, q: nat)
    ensures BitOf(BigEndian(data), q) == PayloadBit(data, 8 * |data| - 1 - q)
  {
    if |data| == 0 {
      BitOfBelow(0, q);
    } else {
      var init, last := data[..|data| - 1], data[|data| - 1];
      Pow2Byte();
      SplitBit(BigEndian(init), last, 8, q);
      if q >= 8 {
        BigEndianBit(init, q - 8);
        var p := 8 * |data| - 1 - q;
        if 0 <= p {
          assert data[p / 8] == init[p / 8];
        }
      }
    }
  }

  /** Bit `j` of the extracted field is payload bit `start + length - 1 - j`:
      the field's most-significant bit is payload bit `start`. */
  lemma ExtractReadsMsbFirst(data: seq<Byte>, start: int, length: int, j: nat)
    requires FieldFits(data, start, length) && j < length
    ensures BitOf(ExtractRaw(data, start, length).value, j) == PayloadBit(data, start + length - 1 - j)
  {
    var shift: nat := 8 * |data| - (start + length);
    var x := BigEndian(data);
    DivMod(x, Pow2(shift));
    BitOfMask(x / Pow2(shift), length, j);
    BitOfShift(x, shift, j);
    BigEndianBit(data, shift + j);
  }

  lemma {:induction false} FieldBitsBits(data: seq<Byte>, from: int, count: nat, j: nat)
    requires j < count
    ensures BitOf(FieldBits(data, from, count), j) == PayloadBit(data, from + count - 1 - j)
  {
    BitOfAppend(FieldBits(data, from, count - 1), PayloadBit(data, from + count - 1), j);
    if j >= 1 {
      FieldBitsBits(data, from, count - 1, j - 1);
    }
  }

  lemma {:induction false} FieldBitsBound(data: seq<Byte>, from: int, count: nat)
    ensures FieldBits(data, from, count) < Pow2(count)
  {
    if count > 0 {
      FieldBitsBound(data, from, count - 1);
    }
  }

  /** The top bit of an n-bit number is set exactly when it is at least 2^(n-1). */
  lemma TopBit(x: nat, n: nat)
    requires 1 <= n && x < Pow2(n)
    ensures BitOf(x, n - 1) == 1 <==> x >= Pow2(n - 1)
  {
    var p := Pow2(n - 1);
    if x >= p {
      DivUnique(x, p, 1, x - p);
    } else {
      DivUnique(x, p, 0, x);
    }
  }

  /** The extracted field is the field read bit by bit. */
  lemma RawIsFieldBits(data: seq<Byte>, start: int, length: int)
    requires FieldFits(data, start, length)
    ensures ExtractRaw(data, start, length).value == FieldBits(data, start, length)
  {
    var raw := ExtractRaw(data, start, length).value;
    var ref := FieldBits(data, start, length);
    forall j | 0 <= j < length
      ensures BitOf(raw, j) == BitOf(ref, j)
    {
      ExtractReadsMsbFirst(data, start, length, j);
      FieldBitsBits(data, start, length, j);
    }
    FieldBitsBound(data, start, length);
    BitsDetermine(raw, ref, length);
  }

  /** The reinterpreted field is the bit-by-bit reading with the first bit as sign. */
  lemma InterpretIsFieldValue(data: seq<Byte>, sig: Signal)
    requires FieldFits(data, sig.startBit, sig.length)
    requires !(sig.isSigned && sig.length == 0)
    ensures Interpret(ExtractRaw(data, sig.startBit, sig.length).value, sig.length, sig.isSigned).value == FieldValue(data, sig)
  {
    var start, length := sig.startBit, sig.length;
    var raw := ExtractRaw(data, start, length).value;
    RawIsFieldBits(data, start, length);
    if sig.isSigned {
      TopBit(raw, length);
      ExtractReadsMsbFirst(data, start, length, length - 1);
    }
  }

  /** Decoding a field that fits yields the bits read most-significant first,
      sign-extended when signed, times the factor plus the offset. */
  lemma DecodeMatchesBitReading(data: seq<Byte>, sig: Signal)
    requires Decodable(data, sig)
    ensures Decode(data, sig).Ok?
    ensures Decode(data, sig).value == Scale(FieldValue(data, sig), sig)
  {
    InterpretIsFieldValue(data, sig);
  }

  /** A 16-bit unsigned field at bit 0 of [0xE8, 0x03] is 0xE803: byte 0 is the high byte. */
  lemma ExampleBigEndianField()
    ensures Decode([0xE8, 0x03], Signal("v", 0, 16, 1.0, 0.0, false)) == Ok(59395.0)
  {
    var data: seq<Byte> := [0xE8, 0x03];
    assert data[..1] == [0xE8];
    assert [0xE8][..0] == [];
    assert BigEndian(data) == 59395;
    Pow2Byte();
    Pow2Add(8, 8);
    assert ExtractRaw(data, 0, 16) == Ok(59395);
  }

  /** An 8-bit signed field holding 0xFF reads as -1. */
  lemma ExampleSignedByte()
    ensures Decode([0xFF], Signal("v", 0, 8, 1.0, 0.0, true)) == Ok(-1.0)
  {
    var data: seq<Byte> := [0xFF];
    assert data[..0] == [];
    Pow2Byte();
    assert Pow2(7) == 128;
    assert ExtractRaw(data, 0, 8) == Ok(255);
  }
}
