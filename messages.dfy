/** The record that sensors and the relay exchange, shared by both programs. */
module Messages {

  datatype Option<+T> = None | Some(value: T)

  /** A grid position; the client only ever announces positions in 0..9. */
  datatype Coords = Coords(x: int, y: int)

  /**
   * One reading: the sensor type token, where the sensor sits, and the value.
   * A negative measurement is the relay's "peer removed" sentinel.
   */
  datatype SensorMessage = SensorMessage(kind: string, coords: Coords, measurement: real)

  /** The measurement the relay puts in a removal notice. */
  const RemovedMeasurement: real := -1.0

  /** The three sensor type tokens the client accepts. */
  const Temperature: string := "temperature"
  const Humidity: string := "humidity"
  const AirQuality: string := "air_quality"

  predicate IsSensorType(kind: string)
  {
    kind == Temperature || kind == Humidity || kind == AirQuality
  }
}
