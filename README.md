# Sensor relay and sensor client — a Dafny model

This project models the two sequential cores of a small C sensor network. A relay
(`src/server.c`) keeps a table of connected sensors and forwards each reading to the
other sensors of the same type. A sensor client (`src/client.c`) validates its command
line, sends random readings, and pulls its own reading toward the readings of nearby
peers.

- `messages.dfy` (module `Messages`): the record both programs exchange (`sensor_message`):
  a type token, integer grid coordinates, and a measurement. A negative measurement is the
  relay's "peer removed" notice.
- `relay.dfy` (module `Relay`): the table `arrayClients[12]` with its counter
  `contagemCliente`, as class `Registry` over an `array<ClientInfo>` and a `count` field.
  The broadcast routine `menssagemBroadCast` is method `Broadcast`. Each of the two
  mutex-guarded regions of `clientePrincipal` is one method: `HandleMessage` for
  update-or-append then broadcast, and `HandleDisconnect` for the removal notice then
  swap-removal. Each method is proved against functions on the sequence of occupied rows:
  `Find`, `Upserted`, `Targets`, `Disconnected` and `Notice`. A reference map from socket
  to row (`View`) states the intended meaning of the table independently of slot order.
  A broadcast is modelled as what it would send: the target sockets, in slot order, and the
  message.
- `sensor_client.dfy` (module `SensorClient`): argument validation (`ParseArgs`, the
  `main` loop over argv, proved against `Validate`), the per-type random reading
  (`RandomMeasurement`), the four-way classification of an incoming reading with its
  proximity-weighted correction (`ActionOf`, `Classify`), the receive loop (`Drain`) and
  the send / drain / resample cycle (`Run`).
- `scenario.dfy` (module `Scenario`): two temperature sensors, at (2,2) and (3,3), going
  through the relay and back.

Points where the code's behaviour is easy to misread:

- A reading from a socket that already has a row refreshes only its measurement
  (`src/server.c:69`). The row's type and coordinates stay as first announced. The
  broadcast still uses the type carried by the message (`src/server.c:89`).
- A new socket that arrives when the table is full is silently not recorded
  (`src/server.c:75`). It is neither rejected nor closed. While it has no row, no broadcast
  reaches it. Its first reading that arrives while a row is free registers it; another new
  socket may take the freed row first.
- Two readings from the same place are "same location" whatever the distance weighting
  would give (`src/client.c:153-156`). A reading at the client's own place never corrects
  the client's reading.
- Argument validation is modelled, because its accept/reject rule is exact.

## Model

| member | source | states |
|---|---|---|
| `Relay.Find` | src/server.c:65-73 | The scan's result is the first row holding the socket; there is none exactly when no row holds it |
| `Relay.UpsertRefreshes` | src/server.c:65-73 | A reading from a registered socket changes only that row's measurement; type, coordinates, count and every other row stay as they were |
| `Relay.UpsertAppends` | src/server.c:75-83 | A reading from an unknown socket while fewer than 12 rows are used appends a row with the socket and the message's type, coordinates and measurement at index `count` |
| `Relay.UpsertIgnoredWhenFull` | src/server.c:75 | A reading from an unknown socket when all 12 rows are used leaves the table unchanged |
| `Relay.UpsertKeepsInvariant` | src/server.c:64-83 | Registering keeps at most 12 rows and pairwise distinct sockets, and grows the table by at most one |
| `Relay.UpsertView` | src/server.c:64-83 | Against the socket-to-row map, registering is: refresh the measurement, insert while there is room, or nothing |
| `Relay.Targets` | src/server.c:37-43 | The sender is never a broadcast target, and there are no more targets than rows |
| `Relay.TargetsMembership` | src/server.c:37-43 | A socket is a target exactly when a row holds it with the broadcast's type and it is not the sender |
| `Relay.TargetsDistinct` | src/server.c:37-43 | With distinct sockets, every target receives a broadcast exactly once |
| `Relay.UpsertKeepsTargets` | src/server.c:63-89 | Broadcasting after the table update reaches the same sockets as broadcasting before it would |
| `Relay.UnregisteredNeverTarget` | src/server.c:75-83 | A socket without a row, such as one turned away by a full table, is not reached by a broadcast over that table |
| `Relay.RegistersOnceRowFrees` | src/server.c:64-113 | A socket turned away by a full table stays out of it; after any registered socket disconnects, a reading of it that arrives while the freed row is still free registers it, and later broadcasts of its type from other senders reach it |
| `Relay.FreedRowGoesToFirstComer` | src/server.c:64-113 | If another new socket reports first after a disconnect, it takes the freed row, the table is full again, and the turned-away socket's reading is still ignored |
| `Relay.RemovedAtMultiset` | src/server.c:112-113 | Swap-removal takes out exactly the removed row and keeps every other row, with the count reduced by one |
| `Relay.DisconnectView` | src/server.c:96-116 | A disconnect keeps the invariants, removes the leaving socket from the socket-to-row map and keeps every other row, shrinking the table by one exactly when the socket was registered |
| `Relay.DisconnectUnknown` | src/server.c:96-116 | A disconnect of an unregistered socket changes nothing and broadcasts nothing |
| `Relay.DisconnectFoundAt` | src/server.c:96-113 | When the scan first meets the leaving socket at slot i, the table becomes the swap-removal at i, sockets stay distinct, and the notice carries that row's type and place to its type's targets |
| `Relay.NoticeReachesRemainingPeers` | src/server.c:98-107 | The removal notice carries the leaving row's type and coordinates with measurement -1.0, and goes exactly to the remaining clients of that type |
| `Relay.Registry.constructor` | src/server.c:30-31 | The table starts empty, with room for 12 rows |
| `Relay.Registry.Broadcast` | src/server.c:35-44 | The loop visits the occupied slots in order and sends to exactly `Targets` of the table, carrying the given message unchanged |
| `Relay.Registry.HandleMessage` | src/server.c:61-91 | One locked region: the table becomes `Upserted` of the old table, the invariants hold, and the broadcast goes to the message type's targets in the new table, excluding the sender |
| `Relay.Registry.HandleDisconnect` | src/server.c:95-117 | One locked region: the table becomes `Disconnected` of the old table, the invariants hold, and the returned notice is `Notice` of the old table |
| `SensorClient.ParseArgs` | src/client.c:51-95 | The argument loop, updating type, coordinates and index step by step, returns exactly `Validate` of argv, error kind included |
| `SensorClient.ValidateAcceptsExactly` | src/client.c:51-95 | Arguments are accepted exactly when there are 8 and the five after the port are `-type T` and `-coords X Y` in either order, T is temperature, humidity or air_quality, and 0 <= X, Y <= 9; the configuration is then read off those tokens |
| `SensorClient.AcceptedIsValid` | src/client.c:83-95 | An accepted configuration has a known sensor type and coordinates in 0..9 |
| `SensorClient.MissingCoordsRejected` | src/client.c:61-95 | If `-coords` never appears, the arguments are rejected; with exactly 8 arguments the option loop itself refuses them as an invalid argument |
| `SensorClient.ScanKeepsCoords` | src/client.c:61-80 | Without a `-coords` option the loop leaves the coordinates where they started, (-1,-1) in `main` |
| `SensorClient.ScanRefusesOddTail` | src/client.c:64-80 | Without a `-coords` option, an odd number of remaining tokens makes the option loop refuse a token |
| `SensorClient.RandomMeasurement` | src/client.c:29-46 | A random reading lies in [20,40) for temperature, [10,90) for humidity, [15,30) for air_quality, and is 0 for any other type |
| `SensorClient.NeighbourTestExact` | src/client.c:160-162 | For the true Euclidean distance d, `d > 3` holds exactly when the integer squared distance exceeds 9 |
| `SensorClient.ClassifyByDistance` | src/client.c:148-172 | With the true distance d: removed iff the measurement is negative (whatever the coordinates); same location iff d = 0; not neighbor iff d > 3; correction applied iff 0 < d <= 3; and the own reading changes only under a correction |
| `SensorClient.CorrectionMovesToward` | src/client.c:166-171 | A correction leaves the own reading between its old value and the peer's, strictly closer to the peer's when they differ |
| `SensorClient.Drain` | src/client.c:143-176 | The receive loop, correcting the reading in place message by message, ends with the reading and the action log of `DrainAll` |
| `SensorClient.DrainActions` | src/client.c:144-176 | One action per received message, in receipt order, and each depends only on that message and the client's place, not on earlier corrections |
| `SensorClient.DrainWithoutNeighbours` | src/client.c:149-165 | If no received message is a neighbour's reading, the own reading is unchanged |
| `SensorClient.DrainStaysInRange` | src/client.c:166-171 | Draining never takes the reading outside any range that holds the starting reading and every non-negative received reading |
| `SensorClient.CompletedRounds` | src/client.c:134-138 | The count of turns before the first failed send: every earlier send succeeded and the next one, if any, failed |
| `SensorClient.Run` | src/client.c:125-181 | Sends happen until the first failed send, which ends the loop; the reading sent in each turn is a fresh draw, the initial one or the previous turn's resample, so corrections never carry over; each turn's log is the drain of what it received, starting from the reading it sent |
| `Scenario.Registration` | src/server.c:64-83 | A and B announce, then A reports again: two rows, A's refreshed in place |
| `Scenario.Relaying` | src/server.c:89-113 | A's reading is broadcast to B only; A's disconnect sends B alone one removal notice with A's type and place, and leaves only B's row |
| `Scenario.Receiving` | src/client.c:149-171 | B, at squared distance 2 from A, applies A's reading as a correction and classifies A's removal notice as removed, keeping its own reading |
| `Scenario.TwoTemperatureSensors` | src/server.c:59-116 | End to end: after both announce, A's reading reaches B exactly once and B applies a correction that moves its reading strictly toward A's; A's departure gives B one removal notice, which B classifies as removed |

## Left out

- Sockets, `bind`, `listen`, `accept`, `connect`, `inet_pton` and the IPv4/IPv6 choice (`src/server.c:124-206`, `src/client.c:97-122`) are operating-system I/O.
- Threads and `client_mutex` are left out. Each locked region is one method that runs to completion. The model says nothing about interleavings between connections.
- `send` and `recv` are not modelled. A broadcast returns its target sockets and message. The client's drain takes the received messages as a given sequence. Partial reads and the native struct layout on the wire are not modelled.
- `close` and `pthread_exit` after a disconnect are left out, as are the relay's own command line and its accept loop.
- Measurements are exact reals. Single-precision `float` rounding and the IEEE behaviour of `sqrt` and `pow` are not modelled.
- `SensorClient.Classify` makes the neighbour test in integers (squared distance > 9). `NeighbourTestExact` shows this equals the source's `distance > 3` for the true distance. The distance used in the weight is a parameter (`dist`, standing for `distanciaEuclidiana`), because Dafny has no square root.
- `Scenario.Receiving`: the scenario's distance is any non-negative value, not sqrt(2). Which action is chosen does not depend on it.
- `rand`, `srand`, `time` and `sleep` are left out. Each random draw is an input: the value `rand()` returned.
- `atoi` is left out. Each argv token carries the integer `atoi` would read from it.
- `printf` logging, `imprimeErroEntrada` and the usage text are left out. So is the fixed "same location" label on the client's send log. A rejection is modelled as the kind of error instead.
- `SensorClient.Run`: the source loops forever. The model runs a finite schedule of turns. Each turn says whether the send succeeds, which readings its receive loop obtains, and the next draw. The exit status after a failed send is not modelled.
- The client's receive loop (`src/client.c:144`) calls a blocking `recv`, so in the source it ends only when the stream ends or `recv` fails. The model lets each turn receive any finite sequence of readings and then go on to the next send.
- The relay's unused `distanciaEuclidiana`, `MAXIMO_VIZINHOS` and `BUFFER_SIZE` are not part of this model.
