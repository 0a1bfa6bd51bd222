/**
 * The learning road map: fifteen stations laid out three to a row, a
 * connector from each station to the next one in its row, and a "Step k/n"
 * badge on each.
 */
module RoadMap {
  import opened Text

  datatype Station = Station(id: nat, name: string, color: string, skills: seq<string>)

  /** A station with its position added (`{ ...station, x, y }`). */
  datatype PlacedStation = PlacedStation(station: Station, x: int, y: int)

  const Stations: seq<Station> := [
    Station(1, "JavaScript Essentials", "#3B82F6", ["ES6+", "Async/Await", "DOM", "Event Loop"]),
    Station(2, "Node.js Core", "#10B981", ["Modules", "File System", "Streams", "Buffer"]),
    Station(3, "Express & APIs", "#6366F1", ["Routing", "Middleware", "REST", "GraphQL"]),
    Station(4, "Databases", "#F59E0B", ["MongoDB", "PostgreSQL", "Redis", "ORMs"]),
    Station(5, "Authentication", "#EC4899", ["JWT", "OAuth", "Sessions", "Security"]),
    Station(6, "Advanced Concepts", "#8B5CF6", ["WebSockets", "Workers", "Clustering", "Caching"]),
    Station(7, "Microservices", "#14B8A6", ["Docker", "Kubernetes", "Message Queues", "Service Discovery"]),
    Station(8, "DevOps", "#F43F5E", ["CI/CD", "AWS/GCP", "Monitoring", "Deployment"]),
    Station(9, "React", "#3B82F6", ["React", "React Router", "React Context", "React Hooks"]),
    Station(10, "Next.js", "#3B82F6", ["Next.js", "Next.js Router", "Next.js Context", "Next.js Hooks"]),
    Station(11, "Tailwind CSS", "#3B82F6", ["Tailwind CSS", "Tailwind CSS Router", "Tailwind CSS Context", "Tailwind CSS Hooks"]),
    Station(12, "TypeScript", "#3B82F6", ["TypeScript", "TypeScript Router", "TypeScript Context", "TypeScript Hooks"]),
    Station(13, "Redux", "#3B82F6", ["Redux", "Redux Router", "Redux Context", "Redux Hooks"]),
    Station(14, "React Native", "#3B82F6", ["React Native", "React Native Router", "React Native Context", "React Native Hooks"]),
    Station(15, "Node.js", "#3B82F6", ["Node.js", "Node.js Router", "Node.js Context", "Node.js Hooks"])
  ]

  /** `100 + (index % 3) * 400`: every station sits in one of three columns. */
  function ColumnX(index: nat): (x: int)
    ensures x in {100, 500, 900}
  {
    100 + (index % 3) * 400
  }

  /** `100 + Math.floor(index / 3) * 200`: a new row every three stations; the first
      three stations make the top row. */
  function RowY(index: nat): (y: int)
    ensures y >= 100
    ensures y == 100 <==> index < 3
  {
    100 + (index / 3) * 200
  }

  /** `updatedStations`: every station in its place, in the same order, with its position. */
  function UpdatedStations(stations: seq<Station>): (placed: seq<PlacedStation>)
    ensures |placed| == |stations|
    ensures forall i | 0 <= i < |stations| ::
      placed[i].station == stations[i] && placed[i].x == ColumnX(i) && placed[i].y == RowY(i)
  {
    seq(|stations|, i requires 0 <= i < |stations| => PlacedStation(stations[i], ColumnX(i), RowY(i)))
  }

  /** Later stations are never placed higher up. */
  lemma RowsDescend(i: nat, j: nat)
    requires i <= j
    ensures RowY(i) <= RowY(j)
  {
  }

  /** No two stations share a position. */
  lemma PositionsDistinct(i: nat, j: nat)
    requires ColumnX(i) == ColumnX(j) && RowY(i) == RowY(j)
    ensures i == j
  {
    assert i % 3 == j % 3;
    assert i / 3 == j / 3;
    assert i == 3 * (i / 3) + i % 3;
    assert j == 3 * (j / 3) + j % 3;
  }

  /** The connector is rendered for every station but the last. */
  predicate ConnectorRendered(index: nat, count: nat)
    ensures index + 1 < count ==> ConnectorRendered(index, count)
    ensures index + 1 == count ==> !ConnectorRendered(index, count)
  {
    index != count - 1
  }

  /** A rendered connector is hidden after the third station of each row, so no
      visible connector leaves the right-hand column. */
  predicate ConnectorVisible(index: nat, count: nat)
    ensures ConnectorVisible(index, count) ==> ColumnX(index) < 900
  {
    ConnectorRendered(index, count) && (index + 1) % 3 != 0
  }

  /** Where a connector is visible, the next station's computed position is in the same
      row, one column to the right. */
  lemma ConnectorStaysInRow(index: nat, count: nat)
    requires index < count && ConnectorVisible(index, count)
    ensures index + 1 < count
    ensures RowY(index + 1) == RowY(index) && ColumnX(index + 1) == ColumnX(index) + 400
  {
    assert index % 3 < 2;
    assert index == 3 * (index / 3) + index % 3;
    assert (index + 1) / 3 == index / 3;
  }

  /** The badge `Step {station.id}/{updatedStations.length}`. */
  function StepLabel(station: Station, count: nat): (badge: string)
    ensures "Step " <= badge
    ensures |badge| == 6 + |NatToString(station.id)| + |NatToString(count)|
  {
    "Step " + NatToString(station.id) + "/" + NatToString(count)
  }

  /** The fifteen stations are numbered in order from 1, so the badge shows the
      station's place in the list out of 15. */
  lemma StationsNumberedInOrder(i: nat)
    requires i < |Stations|
    ensures |Stations| == 15 && Stations[i].id == i + 1
    ensures StepLabel(UpdatedStations(Stations)[i].station, |UpdatedStations(Stations)|)
            == "Step " + NatToString(i + 1) + "/" + NatToString(15)
  {
    StationIds();
  }

  lemma StationIds()
    ensures |Stations| == 15 && forall i | 0 <= i < |Stations| :: Stations[i].id == i + 1
  {
  }
}
