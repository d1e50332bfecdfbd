/** Machine types, the history entry record and the error codes shared by the battery-history modules. */
module Types {

  newtype uint8 = x: int | 0 <= x < 0x100
  newtype uint32 = x: int | 0 <= x < 0x1_0000_0000
  newtype int32 = x: int | -0x8000_0000 <= x < 0x8000_0000

  /** Largest value of a C `int` (32 bits on the targets this firmware runs on). */
  const IntMax: int := 0x7fff_ffff

  datatype Option<+T> = None | Some(value: T)

  /** One sample of the history: device uptime in seconds and the state of charge in percent. */
  datatype Entry = Entry(timestamp: uint32, percentage: uint8)

  /** sizeof(int) and sizeof(struct battery_history_entry) (a uint32 and a uint8, padded to 8 bytes). */
  const IntSize: nat := 4
  const EntrySize: nat := 8

  /** Positive errno values; the C code returns their negations. */
  const ENOENT: int := 2
  const EIO: int := 5
  const EINVAL: int := 22

  function Min(a: int, b: int): (r: int) { if a < b then a else b }

  /** The C cast `(uint32_t)` of a signed value: reduction modulo 2^32. */
  function ToUint32(x: int): (r: uint32)
  {
    (x % 0x1_0000_0000) as uint32
  }
}
