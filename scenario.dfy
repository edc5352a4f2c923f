/**
 * Relay and sensor together: two temperature sensors, A at (2,2) and B at (3,3).
 */
module Scenario {
  import opened Messages
  import Relay
  import SensorClient

  const PlaceA: Coords := Coords(2, 2)
  const PlaceB: Coords := Coords(3, 3)

  function RowA(a: int, m: real): Relay.ClientInfo { Relay.ClientInfo(a, Temperature, PlaceA, m) }
  function RowB(b: int, m: real): Relay.ClientInfo { Relay.ClientInfo(b, Temperature, PlaceB, m) }

  /** A announces, then B announces, then A reports again: two rows, A's refreshed in place. */
  lemma Registration(a: int, b: int, first: real, second: real, reading: real)
    requires a != b
    ensures Relay.Upserted([], a, SensorMessage(Temperature, PlaceA, first)) == [RowA(a, first)]
    ensures Relay.Upserted([RowA(a, first)], b, SensorMessage(Temperature, PlaceB, second))
      == [RowA(a, first), RowB(b, second)]
    ensures Relay.Upserted([RowA(a, first), RowB(b, second)], a, SensorMessage(Temperature, PlaceA, reading))
      == [RowA(a, reading), RowB(b, second)]
  {
    assert Relay.Find([RowA(a, first)], b) == None;
    assert Relay.Find([RowA(a, first), RowB(b, second)], a) == Some(0);
  }

  /** A's reading goes to B alone, and a disconnect of A sends B alone one removal notice. */
  lemma Relaying(a: int, b: int, reading: real, second: real)
    requires a != b
    ensures Relay.Targets([RowA(a, reading), RowB(b, second)], Temperature, a) == [b]
    ensures Relay.Notice([RowA(a, reading), RowB(b, second)], a)
      == Some(Relay.Delivery([b], SensorMessage(Temperature, PlaceA, -1.0)))
    ensures Relay.Disconnected([RowA(a, reading), RowB(b, second)], a) == [RowB(b, second)]
  {
    var e := [RowA(a, reading), RowB(b, second)];
    assert e[..1] == [RowA(a, reading)];
    assert Relay.Targets(e[..1], Temperature, a) == [];
    assert Relay.Find(e, a) == Some(0);
  }

  /**
   * B, whose squared distance to A is 2, applies A's reading and ignores A's
   * removal notice, whatever the type token; which action is taken does not
   * depend on the distance value `d` used for the weight.
   */
  lemma Receiving(kind: string, own: real, reading: real, d: SensorClient.Distance)
    requires 0.0 <= reading
    ensures SensorClient.Classify(PlaceB, own, SensorMessage(kind, PlaceA, reading), d).action
      == SensorClient.CorrectionApplied
    ensures SensorClient.Classify(PlaceB, own, SensorMessage(kind, PlaceA, -1.0), d)
      == SensorClient.Outcome(SensorClient.Removed, own)
  {
  }

  /**
   * The whole exchange: after both have announced, A's next reading reaches B
   * exactly once and B corrects toward it; when A leaves, B receives exactly one
   * removal notice carrying A's type and place, and classifies it as removed.
   */
  lemma TwoTemperatureSensors(a: int, b: int, first: real, second: real, reading: real,
                              own: real, d: SensorClient.Distance)
    requires a != b && 0.0 <= reading
    ensures var table := Relay.Upserted(Relay.Upserted([], a, SensorMessage(Temperature, PlaceA, first)),
                                        b, SensorMessage(Temperature, PlaceB, second));
      var after := Relay.Upserted(table, a, SensorMessage(Temperature, PlaceA, reading));
      Relay.Targets(after, Temperature, a) == [b] &&
      Relay.Notice(after, a) == Some(Relay.Delivery([b], SensorMessage(Temperature, PlaceA, -1.0))) &&
      Relay.Disconnected(after, a) == [RowB(b, second)]
    ensures SensorClient.Classify(PlaceB, own, SensorMessage(Temperature, PlaceA, reading), d).action
      == SensorClient.CorrectionApplied
    ensures var m := SensorClient.Classify(PlaceB, own, SensorMessage(Temperature, PlaceA, reading), d).measurement;
      (own < reading ==> own < m < reading) && (reading < own ==> reading < m < own)
    ensures SensorClient.Classify(PlaceB, own, SensorMessage(Temperature, PlaceA, -1.0), d).action
      == SensorClient.Removed
  {
    Registration(a, b, first, second, reading);
    Relaying(a, b, reading, second);
    Receiving(Temperature, own, reading, d);
    SensorClient.CorrectionMovesToward(PlaceB, own, SensorMessage(Temperature, PlaceA, reading), d);
  }
}
