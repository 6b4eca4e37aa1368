/** The configuration constants the fire objects read from `FireConsts`,
    passed in as one immutable value instead of module-wide globals. */
module FireConsts {
  /** `maxOffDays`/`limOffDays` are the growth and death windows, in the same
      half-day unit as time indices; `areaVI` is the nominal VIIRS pixel area
      in km2; `viirsBuf` and `flBuffer` are the buffer distances used when
      extracting a fire line. */
  datatype Config = Config(
    maxOffDays: int,
    limOffDays: int,
    areaVI: real,
    viirsBuf: real,
    flBuffer: real)
  {
    /** The growth window ends before the death window does. */
    predicate Valid() {
      maxOffDays < limOffDays
    }
  }
}
