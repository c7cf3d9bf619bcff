/** The characteristic codec of the BLE layer (volcano/api.py): temperatures
    as 2-byte little-endian tenths of a degree, the status byte as two flags,
    the operation counters as 2-byte little-endian integers, brightness as one byte. */
module Codec {
  import opened Common

  /** Byte-0 masks the code applies to the status register. */
  const HEAT_MASK: bv8 := 0x01
  const FAN_MASK: bv8 := 0x02

  /** Write ranges, in degrees and percent. */
  const MIN_TEMP: real := 40.0
  const MAX_TEMP: real := 230.0
  const MIN_BRIGHTNESS: int := 0
  const MAX_BRIGHTNESS: int := 100

  /** `struct.unpack("<H", data[:2])[0]`: the slice is shorter than two bytes
      exactly when the unpack raises. */
  function UnpackU16(data: seq<byte>): (r: Option<nat>)
    ensures r.Some? <==> |data| >= 2
    ensures r.Some? ==> r.value < 0x1_0000 && r.value % 256 == data[0] && r.value / 256 == data[1]
  {
    if |data| < 2 then None else Some(data[0] as int + 256 * (data[1] as int))
  }

  /** `struct.pack("<H", v)` for a value that fits in 16 bits. */
  function PackU16(v: nat): (r: seq<byte>)
    requires v < 0x1_0000
    ensures |r| == 2
  {
    [v % 256, v / 256]
  }

  /** Unpacking what was packed gives the value back. */
  lemma UnpackPack(v: nat)
    requires v < 0x1_0000
    ensures UnpackU16(PackU16(v)) == Some(v)
  {
  }

  /** Packing what was unpacked gives the two bytes back. */
  lemma PackUnpack(data: seq<byte>)
    requires |data| == 2
    ensures PackU16(UnpackU16(data).value) == data
  {
  }

  /** Only the first two bytes of a payload are read; anything after them is ignored. */
  lemma UnpackIgnoresTail(data: seq<byte>, tail: seq<byte>)
    requires |data| >= 2
    ensures UnpackU16(data + tail) == UnpackU16(data)
  {
  }

  /** A temperature payload in degrees: the raw little-endian value over ten. */
  function DecodeTemperature(data: seq<byte>): (r: Option<real>)
    ensures r.Some? <==> |data| >= 2
    ensures r.Some? ==> r.value * 10.0 == (data[0] as int + 256 * (data[1] as int)) as real
    ensures r.Some? ==> 0.0 <= r.value < 6553.6
  {
    match UnpackU16(data)
    case None => None
    case Some(raw) => Some(raw as real / 10.0)
  }

  /** True when the target-temperature write accepts `t`. */
  predicate TemperatureInRange(t: real)
  {
    MIN_TEMP <= t <= MAX_TEMP
  }

  /** `int(t * 10)`: truncation toward zero, which is the floor for the
      positive temperatures the range check lets through. */
  function TruncatedTenths(t: real): (n: int)
    requires TemperatureInRange(t)
    ensures 400 <= n <= 2300
    ensures n as real <= t * 10.0 < n as real + 1.0
  {
    (t * 10.0).Floor
  }

  /** The payload written to the target-temperature characteristic. */
  function EncodeTemperature(t: real): (r: seq<byte>)
    requires TemperatureInRange(t)
    ensures |r| == 2
    ensures UnpackU16(r) == Some(TruncatedTenths(t))
  {
    PackU16(TruncatedTenths(t))
  }

  /** Encoding truncates: the temperature read back lies within one tenth
      below the requested one and never above it. */
  lemma EncodeDecodeWithinTenth(t: real)
    requires TemperatureInRange(t)
    ensures DecodeTemperature(EncodeTemperature(t)).Some?
    ensures t - 0.1 < DecodeTemperature(EncodeTemperature(t)).value <= t
  {
    var n := TruncatedTenths(t);
    assert UnpackU16(EncodeTemperature(t)) == Some(n);
    assert DecodeTemperature(EncodeTemperature(t)).value * 10.0 == n as real;
  }

  /** For every whole number of tenths in the accepted range, the written
      payload decodes to exactly that number of tenths. */
  lemma TenthsRoundTrip(n: int)
    requires 400 <= n <= 2300
    ensures TemperatureInRange(n as real / 10.0)
    ensures UnpackU16(EncodeTemperature(n as real / 10.0)) == Some(n)
    ensures DecodeTemperature(EncodeTemperature(n as real / 10.0)) == Some(n as real / 10.0)
  {
    var t := n as real / 10.0;
    assert t * 10.0 == n as real;
    assert TruncatedTenths(t) == n;
  }

  /** The heat and fan flags carried by the status register. */
  datatype Status = Status(heat: bool, fan: bool)

  /** True when `b` has a bit of `mask` set (`bool(b & mask)`). */
  predicate HasMask(b: byte, mask: bv8)
  {
    (b as bv8) & mask != 0
  }

  /** The status payload: heat from bit 0 and fan from bit 1 of byte 0;
      an empty payload carries no status. */
  function DecodeStatus(data: seq<byte>): (r: Option<Status>)
    ensures r.Some? <==> |data| >= 1
    ensures r.Some? ==> (r.value.heat <==> data[0] % 2 == 1)
    ensures r.Some? ==> (r.value.fan <==> (data[0] / 2) % 2 == 1)
  {
    if |data| < 1 then None
    else Some(Status(HasMask(data[0], HEAT_MASK), HasMask(data[0], FAN_MASK)))
  }

  /** Status decoding looks at the two low bits of the first byte and at nothing else. */
  lemma StatusIgnoresOtherBits(a: seq<byte>, b: seq<byte>)
    requires |a| >= 1 && |b| >= 1
    requires a[0] % 4 == b[0] % 4
    ensures DecodeStatus(a) == DecodeStatus(b)
  {
    assert (a[0] / 2) % 2 == (a[0] % 4) / 2;
    assert (b[0] / 2) % 2 == (b[0] % 4) / 2;
  }

  /** True when the screen-brightness write accepts `b`. */
  predicate BrightnessInRange(b: int)
  {
    MIN_BRIGHTNESS <= b <= MAX_BRIGHTNESS
  }

  /** The percentage a brightness payload carries: exactly one byte, in range. */
  function DecodeBrightness(payload: seq<byte>): (r: Option<int>)
    ensures r.Some? ==> BrightnessInRange(r.value)
    ensures r.Some? ==> |payload| == 1
  {
    if |payload| == 1 && BrightnessInRange(payload[0]) then Some(payload[0]) else None
  }

  /** `bytes([brightness])`: the one-byte payload that carries the percentage. */
  function EncodeBrightness(b: int): (r: seq<byte>)
    requires BrightnessInRange(b)
    ensures DecodeBrightness(r) == Some(b)
  {
    [b]
  }

  /** Every payload that carries a percentage is the encoding of it, so the
      encoding is the only one for each accepted value. */
  lemma BrightnessRoundTrip(payload: seq<byte>)
    ensures DecodeBrightness(payload).Some? ==> EncodeBrightness(DecodeBrightness(payload).value) == payload
  {
  }
}
