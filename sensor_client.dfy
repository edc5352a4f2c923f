/**
 * The sensor client's decision logic (src/client.c): command-line validation,
 * the per-type random reading, the four-way classification of each peer
 * reading with its proximity-weighted correction, and the send / drain /
 * resample cycle.
 */
module SensorClient {
  import opened Messages

  // ---------------------------------------------------------------------------
  // Command line (src/client.c:51-95).
  // ---------------------------------------------------------------------------

  /** One argv entry: its text and the integer that atoi reads from it. */
  datatype Token = Token(text: string, value: int)

  /** What a successful validation yields: server address, port, sensor type and place. */
  datatype Config = Config(host: string, port: int, kind: string, coords: Coords)

  /** Why the arguments were rejected, in the order the checks run. */
  datatype ArgError = WrongArgCount | InvalidArgument(token: string) | InvalidSensorType | CoordsOutOfRange

  datatype Validation = Accepted(config: Config) | Rejected(error: ArgError)

  /** The program name, host, port and five option tokens. */
  const ExpectedArgc: nat := 8

  /** Where the coordinates start before any `-coords` option is read. */
  const Unset: Coords := Coords(-1, -1)

  /** Result of the option loop: the last type and coordinates read, or the first token it refused. */
  datatype ScanResult = Scanned(kind: Option<string>, coords: Coords) | BadToken(text: string)

  /**
   * The option loop from index `i`, with `kind` and `coords` the values read so
   * far: `-type T` and `-coords X Y` are consumed while enough tokens follow;
   * anything else stops the loop. A later option overrides an earlier one.
   */
  function Scan(argv: seq<Token>, i: nat, kind: Option<string>, coords: Coords): ScanResult
    decreases |argv| - i
  {
    if i >= |argv| then Scanned(kind, coords)
    else if argv[i].text == "-type" && i + 1 < |argv| then
      Scan(argv, i + 2, Some(argv[i + 1].text), coords)
    else if argv[i].text == "-coords" && i + 2 < |argv| then
      Scan(argv, i + 3, kind, Coords(argv[i + 1].value, argv[i + 2].value))
    else BadToken(argv[i].text)
  }

  predicate InGrid(c: Coords)
  {
    0 <= c.x <= 9 && 0 <= c.y <= 9
  }

  /** The whole validation: argument count, option loop, type check, range check. */
  function Validate(argv: seq<Token>): Validation
  {
    if |argv| != ExpectedArgc then Rejected(WrongArgCount)
    else match Scan(argv, 3, None, Unset)
      case BadToken(t) => Rejected(InvalidArgument(t))
      case Scanned(kind, coords) =>
        if kind.None? || !IsSensorType(kind.value) then Rejected(InvalidSensorType)
        else if !InGrid(coords) then Rejected(CoordsOutOfRange)
        else Accepted(Config(argv[1].text, argv[2].value, kind.value, coords))
  }

  /** `main`'s validation, with the loop that walks argv and updates type, coords and i. */
  method ParseArgs(argv: seq<Token>) returns (v: Validation)
    ensures v == Validate(argv)
  {
    if |argv| != ExpectedArgc {
      return Rejected(WrongArgCount);
    }
    var kind: Option<string> := None;
    var coords := Unset;
    var i := 3;
    while i < |argv|
      invariant 3 <= i
      invariant Scan(argv, 3, None, Unset) == Scan(argv, i, kind, coords)
      decreases |argv| - i
    {
      if argv[i].text == "-type" && i + 1 < |argv| {
        kind := Some(argv[i + 1].text);
        i := i + 2;
      } else if argv[i].text == "-coords" && i + 2 < |argv| {
        coords := Coords(argv[i + 1].value, argv[i + 2].value);
        i := i + 3;
      } else {
        return Rejected(InvalidArgument(argv[i].text));
      }
    }
    if kind.None? || !IsSensorType(kind.value) {
      return Rejected(InvalidSensorType);
    }
    if coords.x < 0 || coords.x > 9 || coords.y < 0 || coords.y > 9 {
      return Rejected(CoordsOutOfRange);
    }
    v := Accepted(Config(argv[1].text, argv[2].value, kind.value, coords));
  }

  /** `-type T -coords X Y` after the port. */
  predicate TypeFirst(argv: seq<Token>)
    requires |argv| == ExpectedArgc
  {
    argv[3].text == "-type" && argv[5].text == "-coords"
  }

  /** `-coords X Y -type T` after the port. */
  predicate CoordsFirst(argv: seq<Token>)
    requires |argv| == ExpectedArgc
  {
    argv[3].text == "-coords" && argv[6].text == "-type"
  }

  /**
   * The arguments are accepted exactly when there are eight of them, the five
   * after the port are `-type T` and `-coords X Y` in either order, T is a known
   * sensor type and X, Y lie in 0..9; the configuration is then read off them.
   */
  lemma ValidateAcceptsExactly(argv: seq<Token>)
    ensures Validate(argv).Accepted? <==>
      |argv| == ExpectedArgc &&
      ((TypeFirst(argv) && IsSensorType(argv[4].text) && InGrid(Coords(argv[6].value, argv[7].value))) ||
       (CoordsFirst(argv) && IsSensorType(argv[7].text) && InGrid(Coords(argv[4].value, argv[5].value))))
    ensures |argv| == ExpectedArgc && TypeFirst(argv) && Validate(argv).Accepted? ==>
      Validate(argv).config == Config(argv[1].text, argv[2].value, argv[4].text, Coords(argv[6].value, argv[7].value))
    ensures |argv| == ExpectedArgc && CoordsFirst(argv) && Validate(argv).Accepted? ==>
      Validate(argv).config == Config(argv[1].text, argv[2].value, argv[7].text, Coords(argv[4].value, argv[5].value))
  {
    if |argv| == ExpectedArgc {
      var s := Scan(argv, 3, None, Unset);
      if argv[3].text == "-type" {
        var k := Some(argv[4].text);
        assert s == Scan(argv, 5, k, Unset);
        if argv[5].text == "-type" {
          assert s == Scan(argv, 7, Some(argv[6].text), Unset);
          assert s == BadToken(argv[7].text);
        } else if argv[5].text == "-coords" {
          assert s == Scanned(k, Coords(argv[6].value, argv[7].value));
        } else {
          assert s == BadToken(argv[5].text);
        }
      } else if argv[3].text == "-coords" {
        var c := Coords(argv[4].value, argv[5].value);
        assert s == Scan(argv, 6, None, c);
        if argv[6].text == "-type" {
          assert s == Scanned(Some(argv[7].text), c);
        } else {
          assert s == BadToken(argv[6].text);
        }
      } else {
        assert s == BadToken(argv[3].text);
      }
    }
  }

  /** An accepted configuration names a known sensor type and a position on the grid. */
  lemma AcceptedIsValid(argv: seq<Token>)
    requires Validate(argv).Accepted?
    ensures IsSensorType(Validate(argv).config.kind) && InGrid(Validate(argv).config.coords)
    ensures |argv| == ExpectedArgc
  {
  }

  /** Without a `-coords` option the loop leaves the coordinates where they started. */
  lemma {:induction false} ScanKeepsCoords(argv: seq<Token>, i: nat, kind: Option<string>, coords: Coords)
    requires forall k :: i <= k < |argv| ==> argv[k].text != "-coords"
    ensures Scan(argv, i, kind, coords).Scanned? ==> Scan(argv, i, kind, coords).coords == coords
    decreases |argv| - i
  {
    if i < |argv| && argv[i].text == "-type" && i + 1 < |argv| {
      ScanKeepsCoords(argv, i + 2, Some(argv[i + 1].text), coords);
    }
  }

  /** With no `-coords` option, an odd number of remaining tokens cannot all be consumed by `-type T` pairs. */
  lemma {:induction false} ScanRefusesOddTail(argv: seq<Token>, i: nat, kind: Option<string>, coords: Coords)
    requires i <= |argv| && (|argv| - i) % 2 == 1
    requires forall k :: i <= k < |argv| ==> argv[k].text != "-coords"
    ensures Scan(argv, i, kind, coords).BadToken?
    decreases |argv| - i
  {
    if argv[i].text == "-type" && i + 1 < |argv| {
      ScanRefusesOddTail(argv, i + 2, Some(argv[i + 1].text), coords);
    }
  }

  /**
   * If `-coords` never appears, the arguments are rejected; with eight arguments
   * it is already the option loop that refuses a token, before the type and range
   * checks run.
   */
  lemma MissingCoordsRejected(argv: seq<Token>)
    requires forall k :: 3 <= k < |argv| ==> argv[k].text != "-coords"
    ensures Validate(argv).Rejected?
    ensures |argv| == ExpectedArgc ==> Validate(argv).error.InvalidArgument?
  {
    if |argv| == ExpectedArgc {
      ScanRefusesOddTail(argv, 3, None, Unset);
    }
  }

  // ---------------------------------------------------------------------------
  // Random reading (src/client.c:29-46); `r` is the value rand() returned.
  // ---------------------------------------------------------------------------

  /** medicaoAleatoria: a reading on a 0.01 grid in the type's range, or 0 for an unknown type. */
  function RandomMeasurement(kind: string, r: nat): (m: real)
    ensures kind == Temperature ==> 20.0 <= m < 40.0
    ensures kind == Humidity ==> 10.0 <= m < 90.0
    ensures kind == AirQuality ==> 15.0 <= m < 30.0
    ensures !IsSensorType(kind) ==> m == 0.0
  {
    if kind == Temperature then 20.0 + (r % 2000) as real / 100.0
    else if kind == Humidity then 10.0 + (r % 8000) as real / 100.0
    else if kind == AirQuality then 15.0 + (r % 1500) as real / 100.0
    else 0.0
  }

  // ---------------------------------------------------------------------------
  // Classifying one peer reading (src/client.c:146-171).
  // ---------------------------------------------------------------------------

  datatype Action = Removed | SameLocation | NotNeighbor | CorrectionApplied

  /** A Euclidean distance: never negative. */
  type Distance = d: real | 0.0 <= d

  /** The client's reading after one peer message, and what it did with it. */
  datatype Outcome = Outcome(action: Action, measurement: real)

  function SquaredDistance(a: Coords, b: Coords): int
  {
    (a.x - b.x) * (a.x - b.x) + (a.y - b.y) * (a.y - b.y)
  }

  /**
   * The action for one incoming reading at a client placed at `own`. The source
   * tests `sqrt(dx*dx + dy*dy) > 3`; for integer coordinates that is the integer
   * test below (see NeighbourTestExact).
   */
  function ActionOf(own: Coords, incoming: SensorMessage): Action
  {
    if incoming.measurement < 0.0 then Removed
    else if incoming.coords == own then SameLocation
    else if SquaredDistance(incoming.coords, own) > 9 then NotNeighbor
    else CorrectionApplied
  }

  /** The correction weight for a peer at distance `d`: 0.1 / (d + 1). */
  function Weight(d: Distance): real
  {
    0.1 * (1.0 / (d + 1.0))
  }

  /** One incoming reading: classify it, and pull the own reading toward a neighbour's. */
  function Classify(own: Coords, measurement: real, incoming: SensorMessage, d: Distance): Outcome
  {
    match ActionOf(own, incoming)
    case CorrectionApplied =>
      Outcome(CorrectionApplied, measurement + Weight(d) * (incoming.measurement - measurement))
    case other => Outcome(other, measurement)
  }

  lemma MulNonneg(a: real, b: real)
    requires 0.0 <= a && 0.0 <= b
    ensures 0.0 <= a * b
  {
  }

  lemma MulPos(a: real, b: real)
    requires 0.0 < a && 0.0 < b
    ensures 0.0 < a * b
  {
  }

  lemma IntSquare(n: int)
    ensures n * n >= 0
    ensures n != 0 ==> n * n > 0
  {
  }

  /** The squared distance is zero exactly at the same place. */
  lemma SquaredDistanceZero(a: Coords, b: Coords)
    ensures SquaredDistance(a, b) >= 0
    ensures SquaredDistance(a, b) == 0 <==> a == b
  {
    IntSquare(a.x - b.x);
    IntSquare(a.y - b.y);
  }

  lemma SquareMono(a: real, b: real)
    requires 0.0 <= a <= b
    ensures a * a <= b * b
    ensures a < b ==> a * a < b * b
  {
    assert b * b - a * a == (b - a) * (b + a);
    if a < b { MulPos(b - a, b + a); } else { MulNonneg(b - a, b + a); }
  }

  lemma SquareAboveNine(d: real)
    requires 0.0 <= d
    ensures d > 3.0 <==> d * d > 9.0
  {
    if d > 3.0 { SquareMono(3.0, d); } else { SquareMono(d, 3.0); }
  }

  /** For the true distance d (d >= 0, d*d = dx*dx + dy*dy), `d > 3` is the integer test `dx*dx + dy*dy > 9`. */
  lemma NeighbourTestExact(a: Coords, b: Coords, d: real)
    requires 0.0 <= d && d * d == SquaredDistance(a, b) as real
    ensures d > 3.0 <==> SquaredDistance(a, b) > 9
  {
    SquareAboveNine(d);
  }

  /** The true distance is zero exactly at the same place. */
  lemma DistanceZero(a: Coords, b: Coords, d: real)
    requires 0.0 <= d && d * d == SquaredDistance(a, b) as real
    ensures d == 0.0 <==> a == b
  {
    SquaredDistanceZero(a, b);
    SquareMono(0.0, d);
  }

  /**
   * Stated with the true Euclidean distance d, as the source computes it: a removal
   * notice is "removed" wherever it comes from; otherwise the same place is "same
   * location", a place farther than 3 is "not neighbor", and any other place is a
   * neighbour whose reading is applied.
   */
  lemma ClassifyByDistance(own: Coords, measurement: real, incoming: SensorMessage, d: Distance)
    requires d * d == SquaredDistance(incoming.coords, own) as real
    ensures var o := Classify(own, measurement, incoming, d);
      (o.action == Removed <==> incoming.measurement < 0.0) &&
      (o.action == SameLocation <==> 0.0 <= incoming.measurement && d == 0.0) &&
      (o.action == NotNeighbor <==> 0.0 <= incoming.measurement && d > 3.0) &&
      (o.action == CorrectionApplied <==> 0.0 <= incoming.measurement && 0.0 < d <= 3.0) &&
      (o.action != CorrectionApplied ==> o.measurement == measurement)
  {
    NeighbourTestExact(incoming.coords, own, d);
    DistanceZero(incoming.coords, own, d);
  }

  lemma WeightBounds(d: Distance)
    ensures 0.0 < Weight(d) <= 0.1
  {
  }

  lemma ScaledStep(w: real, x: real)
    requires 0.0 < w <= 0.1
    ensures x >= 0.0 ==> 0.0 <= w * x <= x
    ensures x <= 0.0 ==> x <= w * x <= 0.0
    ensures x != 0.0 ==> w * x != 0.0 && w * x != x
  {
  }

  /**
   * A correction moves the own reading toward the peer's: the result lies between
   * the two, and strictly closer to the peer's reading whenever they differ.
   */
  lemma CorrectionMovesToward(own: Coords, measurement: real, incoming: SensorMessage, d: Distance)
    requires ActionOf(own, incoming) == CorrectionApplied
    ensures var m := Classify(own, measurement, incoming, d).measurement;
      (measurement <= incoming.measurement ==> measurement <= m <= incoming.measurement) &&
      (incoming.measurement <= measurement ==> incoming.measurement <= m <= measurement) &&
      (measurement != incoming.measurement ==> m != measurement && m != incoming.measurement)
  {
    WeightBounds(d);
    ScaledStep(Weight(d), incoming.measurement - measurement);
  }

  // ---------------------------------------------------------------------------
  // Draining the socket after a send (src/client.c:143-176).
  // ---------------------------------------------------------------------------

  /** The reading and the log after the messages `incoming`, taken in receipt order. */
  datatype Drained = Drained(measurement: real, actions: seq<Action>)

  function DrainAll(own: Coords, measurement: real, incoming: seq<SensorMessage>,
                    dist: (Coords, Coords) -> Distance): Drained
  {
    if incoming == [] then Drained(measurement, [])
    else
      var before := DrainAll(own, measurement, incoming[..|incoming| - 1], dist);
      var last := incoming[|incoming| - 1];
      var o := Classify(own, before.measurement, last, dist(last.coords, own));
      Drained(o.measurement, before.actions + [o.action])
  }

  /**
   * The inner receive loop: `measurement` is corrected in place by each message.
   * `dist` stands for distanciaEuclidiana.
   */
  method Drain(own: Coords, measurement: real, incoming: seq<SensorMessage>,
               dist: (Coords, Coords) -> Distance) returns (corrected: real, actions: seq<Action>)
    ensures Drained(corrected, actions) == DrainAll(own, measurement, incoming, dist)
  {
    corrected, actions := measurement, [];
    var i := 0;
    while i < |incoming|
      invariant 0 <= i <= |incoming|
      invariant Drained(corrected, actions) == DrainAll(own, measurement, incoming[..i], dist)
    {
      var msg := incoming[i];
      var o := Classify(own, corrected, msg, dist(msg.coords, own));
      corrected := o.measurement;
      actions := actions + [o.action];
      assert incoming[..i + 1][..i] == incoming[..i];
      i := i + 1;
    }
    assert incoming[..i] == incoming;
  }

  /** Each message's action depends on that message alone, not on earlier corrections. */
  lemma {:induction false} DrainActions(own: Coords, measurement: real, incoming: seq<SensorMessage>,
                                        dist: (Coords, Coords) -> Distance)
    ensures var r := DrainAll(own, measurement, incoming, dist);
      |r.actions| == |incoming| &&
      forall k :: 0 <= k < |incoming| ==> r.actions[k] == ActionOf(own, incoming[k])
  {
    if incoming != [] {
      var p := incoming[..|incoming| - 1];
      DrainActions(own, measurement, p, dist);
      assert forall k :: 0 <= k < |p| ==> p[k] == incoming[k];
    }
  }

  /** Only corrections move the reading: with no neighbour among the messages it is unchanged. */
  lemma {:induction false} DrainWithoutNeighbours(own: Coords, measurement: real, incoming: seq<SensorMessage>,
                                                  dist: (Coords, Coords) -> Distance)
    requires forall k :: 0 <= k < |incoming| ==> ActionOf(own, incoming[k]) != CorrectionApplied
    ensures DrainAll(own, measurement, incoming, dist).measurement == measurement
  {
    if incoming != [] {
      var p := incoming[..|incoming| - 1];
      assert forall k :: 0 <= k < |p| ==> p[k] == incoming[k];
      DrainWithoutNeighbours(own, measurement, p, dist);
    }
  }

  /**
   * Draining never leaves the range spanned by the own reading and the peers'
   * non-negative readings: a correction is a weighted average, not an extrapolation.
   */
  lemma {:induction false} DrainStaysInRange(own: Coords, measurement: real, incoming: seq<SensorMessage>,
                                             dist: (Coords, Coords) -> Distance, lo: real, hi: real)
    requires lo <= measurement <= hi
    requires forall k :: 0 <= k < |incoming| && 0.0 <= incoming[k].measurement ==>
      lo <= incoming[k].measurement <= hi
    ensures lo <= DrainAll(own, measurement, incoming, dist).measurement <= hi
  {
    if incoming != [] {
      var p := incoming[..|incoming| - 1];
      var last := incoming[|incoming| - 1];
      assert forall k :: 0 <= k < |p| ==> p[k] == incoming[k];
      DrainStaysInRange(own, measurement, p, dist, lo, hi);
      var before := DrainAll(own, measurement, p, dist);
      if ActionOf(own, last) == CorrectionApplied {
        CorrectionMovesToward(own, before.measurement, last, dist(last.coords, own));
      }
    }
  }

  // ---------------------------------------------------------------------------
  // The client cycle (src/client.c:124-181).
  // ---------------------------------------------------------------------------

  /**
   * What the environment supplies for one turn of the loop: whether the send
   * succeeds, the readings the receive loop obtains before its `recv` reports
   * end of stream or an error, and the rand() value the resample at the end of
   * the turn draws.
   */
  datatype Round = Round(sendOk: bool, incoming: seq<SensorMessage>, draw: nat)

  /** The message sent in turn `k`: the client's type and place with a fresh draw (the initial one, then the previous turn's resample). */
  function SentMessage(config: Config, initialDraw: nat, rounds: seq<Round>, k: nat): SensorMessage
    requires k <= |rounds|
  {
    SensorMessage(config.kind, config.coords,
                  RandomMeasurement(config.kind, if k == 0 then initialDraw else rounds[k - 1].draw))
  }

  /** The actions logged in turn `k`: the drain of that turn's readings, starting from the reading sent. */
  function TurnLog(config: Config, initialDraw: nat, rounds: seq<Round>, k: nat, dist: (Coords, Coords) -> Distance): seq<Action>
    requires k < |rounds|
  {
    DrainAll(config.coords, SentMessage(config, initialDraw, rounds, k).measurement, rounds[k].incoming, dist).actions
  }

  /** How many turns send successfully before the first failed send. */
  function CompletedRounds(rounds: seq<Round>): (n: nat)
    ensures n <= |rounds|
    ensures forall k :: 0 <= k < n ==> rounds[k].sendOk
    ensures n < |rounds| ==> !rounds[n].sendOk
  {
    if rounds == [] || !rounds[0].sendOk then 0 else 1 + CompletedRounds(rounds[1..])
  }

  /**
   * The loop after the connection is up, over a finite schedule of turns: each
   * turn sends the current reading (a failed send ends the loop), receives and
   * classifies the turn's readings, correcting the reading in place, and then
   * replaces it with a fresh draw. Returns the messages sent, each turn's
   * actions, and whether a send failed.
   */
  method Run(config: Config, initialDraw: nat, rounds: seq<Round>, dist: (Coords, Coords) -> Distance)
    returns (sent: seq<SensorMessage>, logs: seq<seq<Action>>, failed: bool)
    ensures |sent| == |logs| == CompletedRounds(rounds)
    ensures failed <==> CompletedRounds(rounds) < |rounds|
    ensures forall k :: 0 <= k < |sent| ==> sent[k] == SentMessage(config, initialDraw, rounds, k)
    ensures forall k :: 0 <= k < |logs| ==>
      logs[k] == DrainAll(config.coords, sent[k].measurement, rounds[k].incoming, dist).actions
  {
    var msg := SensorMessage(config.kind, config.coords, RandomMeasurement(config.kind, initialDraw));
    sent, logs, failed := [], [], false;
    var k := 0;
    while k < |rounds| && !failed
      invariant 0 <= k <= CompletedRounds(rounds)
      invariant failed ==> k < |rounds| && !rounds[k].sendOk
      invariant |sent| == |logs| == k
      invariant msg == SentMessage(config, initialDraw, rounds, k)
      invariant forall j :: 0 <= j < k ==> sent[j] == SentMessage(config, initialDraw, rounds, j)
      invariant forall j :: 0 <= j < k ==> logs[j] == TurnLog(config, initialDraw, rounds, j, dist)
      decreases |rounds| - k, !failed
    {
      if !rounds[k].sendOk {
        failed := true;
      } else {
        sent := sent + [msg];
        var corrected, actions := Drain(config.coords, msg.measurement, rounds[k].incoming, dist);
        msg := msg.(measurement := corrected);
        logs := logs + [actions];
        msg := msg.(measurement := RandomMeasurement(config.kind, rounds[k].draw));
        k := k + 1;
      }
    }
  }
}
