/** The sensor payload decoder of the HDROP BLE client (`calculateRes`).
    A notification payload is a byte buffer; its first two bytes are read as a
    little-endian unsigned 16-bit value, which is split into a 12-bit mantissa
    (bits 0-11) and an unsigned 4-bit exponent (bits 12-15). The reading is
    mantissa * 2^exponent. The encoding follows the TI SensorTag
    `sfloatExp2ToDouble` convention: base 2, unsigned exponent. */
module SensorDecoder {

  /** Why a payload could not be decoded: `DataView.getUint16(0, true)` throws a
      RangeError when the buffer holds fewer than two bytes. */
  datatype DecodeError = RangeError

  datatype Result<T> = Ok(value: T) | Err(error: DecodeError)

  /** Largest mantissa (12 bits) and largest exponent (4 bits, unsigned). */
  const MaxMantissa: nat := 4095
  const MaxExponent: nat := 15

  /** Largest reading the decoder can produce: 4095 * 2^15. */
  const MaxReading: nat := 4095 * 32768

  /** 2^e, the `Math.pow(2, exponent)` of the source; exact for every e. */
  function Pow2(e: nat): (p: nat)
    ensures p >= 1
  {
    if e == 0 then 1 else 2 * Pow2(e - 1)
  }

  lemma {:induction false} Pow2Monotone(a: nat, b: nat)
    requires a <= b
    ensures Pow2(a) <= Pow2(b)
  {
    if a < b {
      Pow2Monotone(a, b - 1);
    }
  }

  /** 2^15 is the largest magnitude an exponent nibble can select. */
  lemma Pow2OfExponentBounded(e: nat)
    requires e <= MaxExponent
    ensures Pow2(e) <= 32768
  {
    Pow2Monotone(e, 15);
    assert Pow2(15) == 32768;
  }

  // ---------------------------------------------------------------------------
  // Little-endian 16-bit read (`new DataView(data).getUint16(0, true)`)
  // ---------------------------------------------------------------------------

  /** Reads the first two bytes of `data` as an unsigned 16-bit little-endian
      value; fails when fewer than two bytes are present. */
  function ReadUint16LE(data: seq<bv8>): (r: Result<bv16>)
    ensures r.Ok? <==> |data| >= 2
    ensures r.Ok? ==> r.value as int == data[0] as int + 256 * data[1] as int
  {
    if |data| < 2 then Err(RangeError)
    else
      var v := (data[1] as bv16 << 8) | data[0] as bv16;
      assert v as int == data[0] as int + 256 * data[1] as int by {
        ComposeBytes(data[0], data[1]);
      }
      Ok(v)
  }

  lemma ComposeBytes(lo: bv8, hi: bv8)
    ensures ((hi as bv16 << 8) | lo as bv16) as int == lo as int + 256 * hi as int
  {
    var h := hi as bv16 << 8;
    assert h as int == 256 * hi as int;
    assert h & 0xFF == 0;
    assert (h | lo as bv16) == h + lo as bv16;
  }

  /** The two bytes a 16-bit value occupies in little-endian order: the
      inverse of `ReadUint16LE`. */
  function EncodeUint16LE(v: bv16): (bytes: seq<bv8>)
    ensures |bytes| == 2
    ensures bytes[0] as int + 256 * bytes[1] as int == v as int
  {
    var lo := (v & 0xFF) as bv8;
    var hi := (v >> 8) as bv8;
    assert lo as int + 256 * hi as int == v as int by { SplitBytes(v); }
    [lo, hi]
  }

  lemma SplitBytes(v: bv16)
    ensures ((v & 0xFF) as bv8) as int + 256 * ((v >> 8) as bv8) as int == v as int
  {
    assert v == ((v >> 8) << 8) + (v & 0xFF);
    assert ((v >> 8) << 8) as int == 256 * (v >> 8) as int;
  }

  /** Writing a value and reading it back gives the value, whatever follows. */
  lemma ReadAfterEncode(v: bv16, trailing: seq<bv8>)
    ensures ReadUint16LE(EncodeUint16LE(v) + trailing) == Ok(v)
  {
    var data := EncodeUint16LE(v) + trailing;
    var r := ReadUint16LE(data);
    assert r.value as int == v as int;
  }

  /** Reading two bytes and writing the value back gives the two bytes. */
  lemma EncodeAfterRead(data: seq<bv8>)
    requires |data| == 2
    ensures ReadUint16LE(data).Ok? && EncodeUint16LE(ReadUint16LE(data).value) == data
  {
  }

  // ---------------------------------------------------------------------------
  // Mantissa / exponent split (`value & 0x0FFF`, `value >> 12`)
  // ---------------------------------------------------------------------------

  /** Bits 0-11 of the raw value (`value & 0x0FFF`). */
  function Mantissa(v: bv16): (m: bv12)
    ensures m as int == v as int % 4096
  {
    FieldsCompose(v);
    DivMod4096(v as int, (v >> 12) as int, (v & 0x0FFF) as int);
    (v & 0x0FFF) as bv12
  }

  /** Bits 12-15 of the raw value (`value >> 12`), an unsigned nibble. */
  function Exponent(v: bv16): (e: bv4)
    ensures e as int == v as int / 4096
  {
    FieldsCompose(v);
    DivMod4096(v as int, (v >> 12) as int, (v & 0x0FFF) as int);
    (v >> 12) as bv4
  }

  lemma FieldsCompose(v: bv16)
    ensures (v & 0x0FFF) as int + 4096 * (v >> 12) as int == v as int
    ensures (v & 0x0FFF) as int < 4096
  {
  }

  lemma DivMod4096(x: int, q: int, r: int)
    requires 0 <= r < 4096 && x == q * 4096 + r
    ensures x / 4096 == q && x % 4096 == r
  {
  }

  /** The raw value with the given exponent and mantissa: the inverse of the
      split. */
  function Pack(m: bv12, e: bv4): (v: bv16)
    ensures v as int == e as int * 4096 + m as int
  {
    var v := (e as bv16 << 12) | m as bv16;
    PackedFields(m, e);
    FieldsCompose(v);
    v
  }

  lemma PackedFields(m: bv12, e: bv4)
    ensures ((e as bv16 << 12) | m as bv16) & 0x0FFF == m as bv16
    ensures ((e as bv16 << 12) | m as bv16) >> 12 == e as bv16
    ensures (m as bv16) as int == m as int && (e as bv16) as int == e as int
  {
  }

  /** The split loses nothing: exponent * 4096 + mantissa is the value, and
      packing the two fields again rebuilds it. */
  lemma SplitIsLossless(v: bv16)
    ensures v as int == Exponent(v) as int * 4096 + Mantissa(v) as int
    ensures Pack(Mantissa(v), Exponent(v)) == v
  {
  }

  /** Packing and splitting again recovers both fields. */
  lemma SplitAfterPack(m: bv12, e: bv4)
    ensures Mantissa(Pack(m, e)) == m && Exponent(Pack(m, e)) == e
  {
  }

  // ---------------------------------------------------------------------------
  // The decoder (`calculateRes`)
  // ---------------------------------------------------------------------------

  /** Decodes a notification payload into a reading: mantissa * 2^exponent of
      the little-endian 16-bit value in its first two bytes. The JavaScript
      result is a double, but every possible reading is an integer below
      2^53, so the double is exact and the model uses `nat`. */
  function CalculateRes(data: seq<bv8>): (r: Result<nat>)
    ensures r.Ok? <==> |data| >= 2
    ensures r.Ok? ==> r.value <= MaxReading
    ensures r.Ok? ==> (r.value == 0 <==> data[0] == 0 && data[1] & 0x0F == 0)
  {
    match ReadUint16LE(data)
    case Err(e) => Err(e)
    case Ok(value) =>
      var mantissa := Mantissa(value) as nat;
      var exponent := Exponent(value) as nat;
      ReadingBounds(mantissa, exponent);
      MantissaZero(data[0], data[1], value);
      Ok(mantissa * Pow2(exponent))
  }

  lemma ReadingBounds(m: nat, e: nat)
    requires m <= MaxMantissa && e <= MaxExponent
    ensures m * Pow2(e) <= MaxReading
    ensures m * Pow2(e) == 0 <==> m == 0
  {
    Pow2OfExponentBounded(e);
    MulMonotone(m, MaxMantissa, Pow2(e));
    MulMonotone(Pow2(e), 32768, MaxMantissa);
    if m != 0 {
      MulMonotone(1, m, Pow2(e));
    }
  }

  lemma MulMonotone(a: nat, b: nat, c: nat)
    requires a <= b
    ensures a * c <= b * c
  {
  }

  lemma MantissaZero(lo: bv8, hi: bv8, v: bv16)
    requires v as int == lo as int + 256 * hi as int
    ensures Mantissa(v) == 0 <==> lo == 0 && hi & 0x0F == 0
  {
    LowNibble(hi);
    MantissaOfBytes(lo, hi, v);
  }

  lemma LowNibble(b: bv8)
    ensures (b & 0x0F) as int == b as int % 16
  {
  }

  /** The fields in terms of the two bytes: the low byte and the low nibble of
      the high byte form the mantissa, the high nibble of the high byte is the
      exponent. */
  lemma MantissaOfBytes(lo: bv8, hi: bv8, v: bv16)
    requires v as int == lo as int + 256 * hi as int
    ensures Mantissa(v) as int == lo as int + 256 * (hi as int % 16)
    ensures Exponent(v) as int == hi as int / 16
  {
    var h := hi as int;
    assert h == 16 * (h / 16) + h % 16;
    assert v as int == (h / 16) * 4096 + (lo as int + 256 * (h % 16));
    DivMod4096(v as int, h / 16, lo as int + 256 * (h % 16));
  }

  /** The decoder in plain integer arithmetic on the two bytes. */
  lemma CalculateResArithmetic(data: seq<bv8>)
    requires |data| >= 2
    ensures CalculateRes(data)
         == Ok((data[0] as int + 256 * (data[1] as int % 16)) * Pow2(data[1] as int / 16))
  {
  }

  /** Only the first two bytes are consumed: whatever follows them does not
      change the reading. */
  lemma TrailingBytesIgnored(data: seq<bv8>, trailing: seq<bv8>)
    requires |data| >= 2
    ensures CalculateRes(data + trailing) == CalculateRes(data) == CalculateRes(data[..2])
  {
  }

  /** Every 16-bit value, written little-endian, decodes to
      (value & 0x0FFF) * 2^(value >> 12). */
  lemma DecodeOfEncodedValue(v: bv16)
    ensures CalculateRes(EncodeUint16LE(v)) == Ok(Mantissa(v) as nat * Pow2(Exponent(v) as nat))
  {
  }

  /** A mantissa and exponent, packed and written little-endian, decode to
      mantissa * 2^exponent. */
  lemma DecodeOfPackedFields(m: bv12, e: bv4)
    ensures CalculateRes(EncodeUint16LE(Pack(m, e))) == Ok(m as nat * Pow2(e as nat))
  {
  }

  /** Worked values: 0x1234 has mantissa 564 and exponent 1; 0xF0FF has
      mantissa 255 and exponent 15; short buffers are refused. */
  lemma WorkedValues()
    ensures CalculateRes([0x34, 0x12]) == Ok(1128)
    ensures CalculateRes([0x00, 0x00]) == Ok(0)
    ensures CalculateRes([0xFF, 0xF0]) == Ok(8355840)
    ensures CalculateRes([0x01, 0x00]) == Ok(1)
    ensures CalculateRes([0x00, 0x01]) == Ok(256)
    ensures CalculateRes([]) == Err(RangeError)
    ensures CalculateRes([0x34]) == Err(RangeError)
  {
    CalculateResArithmetic([0x34, 0x12]);
    CalculateResArithmetic([0xFF, 0xF0]);
    CalculateResArithmetic([0x01, 0x00]);
    CalculateResArithmetic([0x00, 0x01]);
    assert Pow2(1) == 2 && Pow2(15) == 32768;
  }
}
