/** Bytes and the fixed-width integers that travel between the two boards and to the drive.

    Integers are mathematical; the source's `u16` and `u32` are the subset types below, and every
    wrap-around is written out where the source has one. */
module Words {
  const U16: nat := 0x1_0000
  const U32: nat := 0x1_0000_0000

  type byte = n: nat | n < 256
  type u16 = n: nat | n < 0x1_0000
  type u32 = n: nat | n < 0x1_0000_0000

  /** `esp_err_t`: a signed 32-bit status code. */
  type EspErr = e: int | -0x8000_0000 <= e < 0x8000_0000

  const ESP_OK: EspErr := 0
  const ESP_FAIL: EspErr := -1
  const ESP_ERR_NO_MEM: EspErr := 0x101
  const ESP_ERR_INVALID_ARG: EspErr := 0x102
  const ESP_ERR_INVALID_STATE: EspErr := 0x103
  const ESP_ERR_INVALID_SIZE: EspErr := 0x104
  const ESP_ERR_NOT_FOUND: EspErr := 0x105
  const ESP_ERR_INVALID_CRC: EspErr := 0x109
  const ESP_ERR_MSC_INTERNAL: EspErr := 0x1703
  const ESP_ERR_MSC_STALL: EspErr := 0x1704

  /** The codes as ESP-IDF and its mass-storage component number them. */
  lemma ErrorNumbers()
    ensures ESP_OK == 0 && ESP_FAIL == -1
    ensures ESP_ERR_NO_MEM == 0x101 && ESP_ERR_INVALID_ARG == 0x102 && ESP_ERR_INVALID_STATE == 0x103
    ensures ESP_ERR_INVALID_SIZE == 0x104 && ESP_ERR_NOT_FOUND == 0x105 && ESP_ERR_INVALID_CRC == 0x109
    ensures ESP_ERR_MSC_INTERNAL == 0x1703 && ESP_ERR_MSC_STALL == 0x1704
  {
  }

  datatype Option<+T> = None | Some(value: T)

  datatype Result<+T> = Ok(value: T) | Err(error: EspErr)

  function Min(a: nat, b: nat): nat {
    if a < b then a else b
  }

  function Max(a: nat, b: nat): nat {
    if a < b then b else a
  }

  /** Truncation to 16 and to 32 bits. */
  function Wrap16(n: nat): u16 {
    n % 0x1_0000
  }

  function Wrap32(n: nat): u32 {
    n % 0x1_0000_0000
  }

  /** `u16::to_le_bytes`, `u32::to_le_bytes`, and the big-endian forms a SCSI command block uses. */
  function Le16(n: u16): seq<byte> {
    [n % 256, n / 256]
  }

  function Le32(n: u32): seq<byte> {
    Le16(n % 0x1_0000) + Le16(n / 0x1_0000)
  }

  function Be16(n: u16): seq<byte> {
    [n / 256, n % 256]
  }

  function Be32(n: u32): seq<byte> {
    Be16(n / 0x1_0000) + Be16(n % 0x1_0000)
  }

  function FromLe16(b: seq<byte>): (n: u16)
    requires |b| == 2
  {
    b[0] as nat + 256 * (b[1] as nat)
  }

  function FromLe32(b: seq<byte>): (n: u32)
    requires |b| == 4
  {
    FromLe16(b[..2]) + 0x1_0000 * FromLe16(b[2..])
  }

  function FromBe16(b: seq<byte>): (n: u16)
    requires |b| == 2
  {
    256 * (b[0] as nat) + b[1] as nat
  }

  function FromBe32(b: seq<byte>): (n: u32)
    requires |b| == 4
  {
    0x1_0000 * FromBe16(b[..2]) + FromBe16(b[2..])
  }

  lemma Le16RoundTrip(n: u16)
    ensures FromLe16(Le16(n)) == n
  {
  }

  lemma Be16RoundTrip(n: u16)
    ensures FromBe16(Be16(n)) == n
  {
  }

  lemma Le32RoundTrip(n: u32)
    ensures FromLe32(Le32(n)) == n
  {
    Le16RoundTrip(n % 0x1_0000);
    Le16RoundTrip(n / 0x1_0000);
    assert Le32(n)[..2] == Le16(n % 0x1_0000);
    assert Le32(n)[2..] == Le16(n / 0x1_0000);
  }

  lemma Be32RoundTrip(n: u32)
    ensures FromBe32(Be32(n)) == n
  {
    Be16RoundTrip(n % 0x1_0000);
    Be16RoundTrip(n / 0x1_0000);
    assert Be32(n)[..2] == Be16(n / 0x1_0000);
    assert Be32(n)[2..] == Be16(n % 0x1_0000);
  }

  /** The two's-complement image of a status code (`status as u32`) and its inverse. */
  function StatusWord(e: EspErr): u32 {
    if e < 0 then e + 0x1_0000_0000 else e
  }

  function StatusOf(w: u32): EspErr {
    if w < 0x8000_0000 then w else w - 0x1_0000_0000
  }

  lemma StatusRoundTrip(e: EspErr)
    ensures StatusOf(StatusWord(e)) == e
  {
  }
}
