/** The data one report carries about a vehicle. */
module Vehicle {

  type Byte8 = n: int | 0 <= n < 256
  type UInt64 = n: int | 0 <= n < 0x1_0000_0000_0000_0000

  const UINT64_MAX: UInt64 := 0xFFFF_FFFF_FFFF_FFFF

  /** `OptionalDataItem<uint8_t>`. */
  datatype Lights = Unavailable | Lights(bits: Byte8)

  datatype VehicleData = VehicleData(
    stationID: UInt64,
    lat: real,
    lon: real,
    elevation: real,
    heading: real,
    speed: real,
    gnTimestamp: UInt64,
    timestampUs: UInt64,
    exteriorLights: Lights)
}
