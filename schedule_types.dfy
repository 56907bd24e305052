/** Data model of the Python reference scheduler (schedule.py): placed
    modules, the hardware library, the graph of query nodes and the table
    metadata.  Python dictionaries become Dafny maps; where the source
    iterates a dictionary and the order matters, the entries are kept as a
    sequence in insertion order. */
module ScheduleTypes {
  import opened Wrappers

  /** Largest Python int the source uses as "infinity" (sys.maxsize). */
  const MAXSIZE: int := 0x7FFF_FFFF_FFFF_FFFF

  /** A module placed in a run: node, operation, bitstream file and the
      inclusive (start, end) column range it occupies. */
  datatype ScheduledModule = ScheduledModule(
    nodeName: string,
    operation: string,
    bitstream: string,
    position: (int, int))

  /** A candidate placement: the index at which the module is inserted into
      the current run, and the module itself. */
  type Placement = (int, ScheduledModule)

  /** The capacity vector and column length of one bitstream. */
  datatype Bitstream = Bitstream(capacity: seq<int>, length: int)

  /** The library entry of one operation: its bitstreams in dictionary
      order, the bitstream names that can start at each column, and its
      decorators ("sorting", "first_module", ...). */
  datatype OperationLibrary = OperationLibrary(
    bitstreams: seq<(string, Bitstream)>,
    startLocations: seq<seq<string>>,
    decorators: set<string>)

  type HwLibrary = map<string, OperationLibrary>

  /** Metadata of one table; the record size is optional in the source
      (it defaults to 14 where it is read).  Each sorted sequence is a
      (start, length, column) triple. */
  datatype TableData = TableData(
    recordCount: int,
    recordSize: Option<int>,
    sortedSequences: seq<(int, int, int)>)

  type DataTables = map<string, TableData>

  /** A node of the scheduling graph.  `before` lists (predecessor name,
      stream index) pairs, ("", -1) standing for a table input; `after`
      lists successor names, "" standing for a table output. */
  datatype GraphNode = GraphNode(
    operation: string,
    capacity: seq<int>,
    before: seq<(string, int)>,
    after: seq<string>,
    tables: seq<string>,
    satisfyingBitstreams: seq<seq<string>>)

  type Graph = map<string, GraphNode>

  /** Dictionary lookup of a bitstream by name (keys are unique, so the
      first match is the entry). */
  function FindBitstream(bitstreams: seq<(string, Bitstream)>, name: string): (r: Option<Bitstream>)
    ensures r.Some? <==> exists k :: 0 <= k < |bitstreams| && bitstreams[k].0 == name
    ensures r.Some? ==> exists k :: 0 <= k < |bitstreams| && bitstreams[k] == (name, r.value)
  {
    if |bitstreams| == 0 then None
    else if bitstreams[0].0 == name then Some(bitstreams[0].1)
    else
      var r := FindBitstream(bitstreams[1..], name);
      assert forall k :: 0 <= k < |bitstreams| - 1 ==> bitstreams[1..][k] == bitstreams[k + 1];
      r
  }

  /** The column ranges a run occupies, in run order. */
  function Positions(run: seq<ScheduledModule>): (r: seq<(int, int)>)
    ensures |r| == |run|
    ensures forall i :: 0 <= i < |run| ==> r[i] == run[i].position
  {
    if |run| == 0 then [] else Positions(run[..|run| - 1]) + [run[|run| - 1].position]
  }

  /** Column ranges that are each non-empty, in ascending order and pairwise
      disjoint: the shape every run of a plan must have. */
  predicate SortedDisjoint(ranges: seq<(int, int)>) {
    (forall i :: 0 <= i < |ranges| ==> ranges[i].0 <= ranges[i].1) &&
    (forall i, j :: 0 <= i < j < |ranges| ==> ranges[i].1 < ranges[j].0)
  }

  /** Python's floor division `a // b`. */
  function FloorDiv(a: int, b: int): int
    requires b != 0
  {
    if b > 0 then a / b else (-a) / (-b)
  }

  /** Python's `a % b`, whose sign follows the divisor. */
  function FloorMod(a: int, b: int): int
    requires b != 0
  {
    a - b * FloorDiv(a, b)
  }

  /** Python's `x in <tuple of pairs>` on the names of a before list. */
  function BeforeNames(before: seq<(string, int)>): (r: seq<string>)
    ensures |r| == |before|
    ensures forall i :: 0 <= i < |before| ==> r[i] == before[i].0
  {
    if |before| == 0 then [] else BeforeNames(before[..|before| - 1]) + [before[|before| - 1].0]
  }

  /** Python's `s[i]` on a list: negative indices count from the end. */
  function PyAt<T>(s: seq<T>, i: int): (r: Result<T>)
    ensures r.Success? <==> -|s| <= i < |s|
    ensures r.Success? ==> r.value == if i >= 0 then s[i] else s[|s| + i]
  {
    if 0 <= i < |s| then Success(s[i])
    else if -|s| <= i < 0 then Success(s[|s| + i])
    else Failure("IndexError")
  }

  /** Python's `s[i] = x` on a list. */
  function PySet<T>(s: seq<T>, i: int, x: T): (r: Result<seq<T>>)
    ensures r.Success? <==> -|s| <= i < |s|
    ensures r.Success? ==> r.value == if i >= 0 then s[i := x] else s[|s| + i := x]
  {
    if 0 <= i < |s| then Success(s[i := x])
    else if -|s| <= i < 0 then Success(s[|s| + i := x])
    else Failure("IndexError")
  }
}
