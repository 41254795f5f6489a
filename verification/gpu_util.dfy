/** The free-GPU resolver: which GPUs have no compute process on them, and which
    single device the current process should use.

    The two `nvidia-smi` queries are given as their stdout text and the
    CUDA_VISIBLE_DEVICES value as an optional string; every exception the
    resolver can raise is an `Err` value. */
module GpuUtil {
  import opened Builtins

  /** The exceptions the resolver lets escape. */
  datatype Error =
    | FieldCount(line: string)    // ValueError: a line does not unpack into two fields
    | NotAnInteger(text: string)  // ValueError: int() of a non-integer text
    | UnknownBusId(busId: string) // KeyError: `del` of a bus id that is not in the dictionary
    | NoFreeGpu                   // IndexError: `[0]` of an empty list

  datatype Result<T> = Ok(value: T) | Err(error: Error)

  /** A query line split at its only comma: the index or pid, then the bus id
      (which keeps the space that follows the comma). */
  datatype Record = Record(first: string, busId: string)

  /** An inventory line once `int(idx)` has succeeded: `gpus[busId] = index`. */
  datatype Entry = Entry(busId: string, index: int)

  /** The device chosen for this process, and whether the active CUDA device
      is switched to it. */
  datatype Choice = Choice(device: int, rebind: bool)

  // ---------------------------------------------------------------------------
  // Parsing the query output

  /** `stdout.strip().split(os.linesep)` with "\n" as the line separator. */
  function Lines(text: string): (r: seq<string>)
    ensures forall l :: l in r ==> '\n' !in l
    ensures Join(r, '\n') == Strip(text)
  {
    Split(Strip(text), '\n')
  }

  /** `first, busid = line.strip().split(',')`: the unpacking succeeds exactly when
      the stripped line holds one comma. */
  function ParseRecord(line: string): (r: Result<Record>)
    ensures r.Ok? <==> Occurrences(Strip(line), ',') == 1
    ensures r.Ok? ==> Strip(line) == r.value.first + [','] + r.value.busId
    ensures r.Ok? ==> ',' !in r.value.first && ',' !in r.value.busId
    ensures r.Err? ==> r.error == FieldCount(line)
  {
    var fields := Split(Strip(line), ',');
    if |fields| == 2 then
      SplitInTwo(Strip(line), ',');
      assert fields[0] in fields && fields[1] in fields;
      Ok(Record(fields[0], fields[1]))
    else Err(FieldCount(line))
  }

  // ---------------------------------------------------------------------------
  // The dictionary `gpus`, one line at a time

  /** `idx, busid = line.strip().split(',')` followed by `int(idx)`. */
  function ParseEntry(line: string): (r: Result<Entry>)
    ensures r.Ok? <==> ParseRecord(line).Ok? && ParseInt(ParseRecord(line).value.first).Some?
    ensures r.Ok? ==> Strip(line) == ParseRecord(line).value.first + [','] + r.value.busId
    ensures r.Ok? ==> ParseInt(ParseRecord(line).value.first) == Some(r.value.index)
    ensures r.Err? ==> r.error.FieldCount? || r.error.NotAnInteger?
  {
    match ParseRecord(line)
    case Err(e) => Err(e)
    case Ok(rec) =>
      match ParseInt(rec.first)
      case None => Err(NotAnInteger(rec.first))
      case Some(idx) => Ok(Entry(rec.busId, idx))
  }

  /** One turn of the inventory loop: skip an empty line, otherwise
      `gpus[busid] = int(idx)`. */
  function AddLine(gpus: map<string, int>, line: string): (r: Result<map<string, int>>)
    ensures line == "" ==> r == Ok(gpus)
    ensures r.Ok? ==> gpus.Keys <= r.value.Keys && |r.value.Keys - gpus.Keys| <= 1
  {
    if line == "" then Ok(gpus)
    else match ParseEntry(line)
      case Err(e) => Err(e)
      case Ok(entry) => Ok(gpus[entry.busId := entry.index])
  }

  /** The inventory loop over the remaining lines, stopping at the first exception. */
  function AddInventory(gpus: map<string, int>, lines: seq<string>): (r: Result<map<string, int>>)
    ensures r.Ok? ==> gpus.Keys <= r.value.Keys
    decreases |lines|
  {
    if lines == [] then Ok(gpus)
    else match AddLine(gpus, lines[0])
      case Err(e) => Err(e)
      case Ok(next) => AddInventory(next, lines[1..])
  }

  /** One turn of the compute-apps loop: skip an empty line, otherwise `del gpus[busid]`. */
  function RemoveLine(gpus: map<string, int>, line: string): (r: Result<map<string, int>>)
    ensures line == "" ==> r == Ok(gpus)
    ensures r.Ok? ==> r.value.Keys <= gpus.Keys
  {
    if line == "" then Ok(gpus)
    else match ParseRecord(line)
      case Err(e) => Err(e)
      case Ok(rec) =>
        if rec.busId in gpus then Ok(gpus - {rec.busId}) else Err(UnknownBusId(rec.busId))
  }

  /** The compute-apps loop over the remaining lines, stopping at the first exception. */
  function RemoveBusy(gpus: map<string, int>, lines: seq<string>): (r: Result<map<string, int>>)
    ensures r.Ok? ==> r.value.Keys <= gpus.Keys
    decreases |lines|
  {
    if lines == [] then Ok(gpus)
    else match RemoveLine(gpus, lines[0])
      case Err(e) => Err(e)
      case Ok(next) => RemoveBusy(next, lines[1..])
  }

  /** The dictionary left after both loops of get_free_gpus. */
  function FreeGpuMap(inventory: string, apps: string): (r: Result<map<string, int>>)
    ensures r.Ok? ==> AddInventory(map[], Lines(inventory)).Ok?
    ensures r.Ok? ==> r.value.Keys <= AddInventory(map[], Lines(inventory)).value.Keys
  {
    match AddInventory(map[], Lines(inventory))
    case Err(e) => Err(e)
    case Ok(gpus) => RemoveBusy(gpus, Lines(apps))
  }

  /** How many bus ids map to index v: the multiplicity of v in the dictionary's values. */
  ghost function Count(gpus: map<string, int>, v: int): nat {
    |set b | b in gpus && gpus[b] == v|
  }

  /** Adding a new bus id b with index x: the count of x grows by one and no other count changes. */
  lemma CountAdd(gpus: map<string, int>, b: string, x: int)
    requires b !in gpus
    ensures forall v :: Count(gpus[b := x], v) == Count(gpus, v) + (if v == x then 1 else 0)
  {
    forall v ensures Count(gpus[b := x], v) == Count(gpus, v) + (if v == x then 1 else 0) {
      CountAddAt(gpus, b, x, v);
    }
  }

  lemma CountAddAt(gpus: map<string, int>, b: string, x: int, v: int)
    requires b !in gpus
    ensures Count(gpus[b := x], v) == Count(gpus, v) + (if v == x then 1 else 0)
  {
    var before := set c | c in gpus && gpus[c] == v;
    var grown := gpus[b := x];
    var after := set c | c in grown && grown[c] == v;
    if v == x {
      assert after == before + {b};
    } else {
      assert after == before;
    }
  }

  /** A list whose multiplicities are those of a dictionary's values holds exactly those values. */
  lemma ValuesListed(list: seq<int>, gpus: map<string, int>)
    requires forall v :: multiset(list)[v] == Count(gpus, v)
    ensures list == [] <==> gpus == map[]
    ensures forall x :: x in list <==> x in gpus.Values
  {
    forall x ensures x in list <==> x in gpus.Values {
      var holders := set c | c in gpus && gpus[c] == x;
      assert Count(gpus, x) == |holders|;
      if x in gpus.Values {
        var b :| b in gpus && gpus[b] == x;
        assert b in holders;
        assert multiset(list)[x] > 0;
      }
      if x in list {
        assert x in multiset(list);
        assert |holders| > 0;
        var b :| b in holders;
        assert gpus[b] in gpus.Values;
      }
    }
    if list != [] {
      assert list[0] in list;
    }
    if gpus != map[] {
      var b :| b in gpus;
      assert gpus[b] in gpus.Values;
    }
  }

  /** `[gpus[busid] for busid in gpus]`: every index in the dictionary, once per bus id. */
  method Indices(gpus: map<string, int>) returns (indices: seq<int>)
    ensures forall v :: multiset(indices)[v] == Count(gpus, v)
  {
    indices := [];
    var rest := gpus.Keys;
    assert gpus - rest == map[];
    while rest != {}
      invariant rest <= gpus.Keys
      invariant forall v :: multiset(indices)[v] == Count(gpus - rest, v)
      decreases |rest|
    {
      var b :| b in rest;
      CountAdd(gpus - rest, b, gpus[b]);
      assert gpus - (rest - {b}) == (gpus - rest)[b := gpus[b]];
      indices := indices + [gpus[b]];
      rest := rest - {b};
    }
    assert gpus - rest == gpus;
  }

  // ---------------------------------------------------------------------------
  // get_free_gpus

  /** The first loop of get_free_gpus: `gpus[busid] = int(idx)` for every non-empty
      inventory line, in order. */
  method FillInventory(lines: seq<string>) returns (r: Result<map<string, int>>)
    ensures r == AddInventory(map[], lines)
  {
    var gpus: map<string, int> := map[];
    assert lines[0..] == lines;
    var i := 0;
    while i < |lines|
      invariant 0 <= i <= |lines|
      invariant AddInventory(map[], lines) == AddInventory(gpus, lines[i..])
    {
      var line := lines[i];
      assert lines[i..][0] == line && lines[i..][1..] == lines[i + 1..];
      if line != "" {
        var fields := ParseRecord(line);
        if fields.Err? {
          return Err(fields.error);
        }
        var idx := ParseInt(fields.value.first);
        if idx.None? {
          return Err(NotAnInteger(fields.value.first));
        }
        gpus := gpus[fields.value.busId := idx.value];
      }
      i := i + 1;
    }
    assert lines[i..] == [];
    r := Ok(gpus);
  }

  /** The second loop of get_free_gpus: `del gpus[busid]` for every non-empty
      compute-apps line, in order. */
  method RemoveProcesses(gpus: map<string, int>, busy: seq<string>) returns (r: Result<map<string, int>>)
    ensures r == RemoveBusy(gpus, busy)
  {
    var left := gpus;
    assert busy[0..] == busy;
    var j := 0;
    while j < |busy|
      invariant 0 <= j <= |busy|
      invariant RemoveBusy(gpus, busy) == RemoveBusy(left, busy[j..])
    {
      var line := busy[j];
      assert busy[j..][0] == line && busy[j..][1..] == busy[j + 1..];
      if line != "" {
        var fields := ParseRecord(line);
        if fields.Err? {
          return Err(fields.error);
        }
        if fields.value.busId !in left {
          return Err(UnknownBusId(fields.value.busId));
        }
        left := left - {fields.value.busId};
      }
      j := j + 1;
    }
    assert busy[j..] == [];
    r := Ok(left);
  }

  /** get_free_gpus: fill the dictionary from the inventory, delete every bus id that
      runs a compute process, and return the remaining indices in ascending order. */
  method GetFreeGpus(inventory: string, apps: string) returns (r: Result<seq<int>>)
    ensures r.Err? <==> FreeGpuMap(inventory, apps).Err?
    ensures r.Err? ==> r.error == FreeGpuMap(inventory, apps).error
    ensures r.Ok? ==> IsSorted(r.value)
    ensures r.Ok? ==> forall v :: multiset(r.value)[v] == Count(FreeGpuMap(inventory, apps).value, v)
  {
    var gpus := FillInventory(Lines(inventory));
    if gpus.Err? {
      return Err(gpus.error);
    }
    var free := RemoveProcesses(gpus.value, Lines(apps));
    if free.Err? {
      return Err(free.error);
    }
    var indices := Indices(free.value);
    r := Ok(SortAscending(indices));
  }

  // ---------------------------------------------------------------------------
  // What the two loops compute, stated over the parsed records

  /** Every non-empty line split at its comma, or the first line that does not split in two. */
  function Records(lines: seq<string>): Result<seq<Record>>
    decreases |lines|
  {
    if lines == [] then Ok([])
    else if lines[0] == "" then Records(lines[1..])
    else match ParseRecord(lines[0])
      case Err(e) => Err(e)
      case Ok(rec) =>
        match Records(lines[1..])
        case Err(e) => Err(e)
        case Ok(recs) => Ok([rec] + recs)
  }

  function BusIds(recs: seq<Record>): (ids: seq<string>)
    ensures |ids| == |recs|
    ensures forall i :: 0 <= i < |recs| ==> ids[i] == recs[i].busId
  {
    seq(|recs|, i requires 0 <= i < |recs| => recs[i].busId)
  }

  function IdSet(ids: seq<string>): set<string> {
    set b | b in ids
  }

  predicate Distinct(ids: seq<string>) {
    forall i, j :: 0 <= i < j < |ids| ==> ids[i] != ids[j]
  }

  /** Every non-empty inventory line parsed, or the first exception in line order. */
  function Entries(lines: seq<string>): Result<seq<Entry>>
    decreases |lines|
  {
    if lines == [] then Ok([])
    else if lines[0] == "" then Entries(lines[1..])
    else match ParseEntry(lines[0])
      case Err(e) => Err(e)
      case Ok(entry) =>
        match Entries(lines[1..])
        case Err(e) => Err(e)
        case Ok(entries) => Ok([entry] + entries)
  }

  function EntryIds(entries: seq<Entry>): set<string> {
    set i | 0 <= i < |entries| :: entries[i].busId
  }

  /** No later entry repeats the bus id of entry j. */
  predicate LastFor(entries: seq<Entry>, j: int)
    requires 0 <= j < |entries|
  {
    forall k :: j < k < |entries| ==> entries[k].busId != entries[j].busId
  }

  /** An empty line in the inventory output changes nothing, wherever it stands. */
  lemma {:induction false} InventorySkipsBlank(gpus: map<string, int>, a: seq<string>, b: seq<string>)
    ensures AddInventory(gpus, a + [""] + b) == AddInventory(gpus, a + b)
    decreases |a|
  {
    if a == [] {
      assert a + [""] + b == [""] + b && ([""] + b)[1..] == b;
      assert a + b == b;
    } else {
      assert (a + [""] + b)[0] == a[0] && (a + [""] + b)[1..] == a[1..] + [""] + b;
      assert (a + b)[0] == a[0] && (a + b)[1..] == a[1..] + b;
      match AddLine(gpus, a[0])
      case Err(_) =>
      case Ok(next) => InventorySkipsBlank(next, a[1..], b);
    }
  }

  /** An empty line in the compute-apps output changes nothing, wherever it stands. */
  lemma {:induction false} BusySkipsBlank(gpus: map<string, int>, a: seq<string>, b: seq<string>)
    ensures RemoveBusy(gpus, a + [""] + b) == RemoveBusy(gpus, a + b)
    decreases |a|
  {
    if a == [] {
      assert a + [""] + b == [""] + b && ([""] + b)[1..] == b;
      assert a + b == b;
    } else {
      assert (a + [""] + b)[0] == a[0] && (a + [""] + b)[1..] == a[1..] + [""] + b;
      assert (a + b)[0] == a[0] && (a + b)[1..] == a[1..] + b;
      match RemoveLine(gpus, a[0])
      case Err(_) =>
      case Ok(next) => BusySkipsBlank(next, a[1..], b);
    }
  }

  /** A non-empty line that does not unpack into two fields fails in either loop. */
  lemma MalformedLineFails(gpus: map<string, int>, line: string)
    requires line != "" && Occurrences(Strip(line), ',') != 1
    ensures AddLine(gpus, line) == Err(FieldCount(line))
    ensures RemoveLine(gpus, line) == Err(FieldCount(line))
  {
    assert ParseRecord(line) == Err(FieldCount(line));
  }

  /** A non-empty inventory line whose stripped text does not hold exactly one comma
      makes the inventory loop fail, whatever lines come before or after it. */
  lemma InventoryMalformedFails(gpus: map<string, int>, a: seq<string>, line: string, b: seq<string>)
    requires line != "" && Occurrences(Strip(line), ',') != 1
    ensures AddInventory(gpus, a + [line] + b).Err?
  {
    forall g: map<string, int> ensures AddLine(g, line).Err? {
      MalformedLineFails(g, line);
    }
    InventoryFailingLine(gpus, a, line, b);
  }

  /** A line that fails in every dictionary makes the loop fail wherever it stands. */
  lemma {:induction false} InventoryFailingLine(gpus: map<string, int>, a: seq<string>, line: string, b: seq<string>)
    requires forall g: map<string, int> :: AddLine(g, line).Err?
    ensures AddInventory(gpus, a + [line] + b).Err?
    decreases |a|
  {
    if a == [] {
      assert a + [line] + b == [line] + b && ([line] + b)[0] == line;
      assert AddLine(gpus, line).Err?;
    } else {
      assert (a + [line] + b)[0] == a[0] && (a + [line] + b)[1..] == a[1..] + [line] + b;
      match AddLine(gpus, a[0])
      case Err(_) =>
      case Ok(next) => InventoryFailingLine(next, a[1..], line, b);
    }
  }

  /** A non-empty compute-apps line whose stripped text does not hold exactly one comma
      makes the compute-apps loop fail, whatever lines come before or after it. */
  lemma BusyMalformedFails(gpus: map<string, int>, a: seq<string>, line: string, b: seq<string>)
    requires line != "" && Occurrences(Strip(line), ',') != 1
    ensures RemoveBusy(gpus, a + [line] + b).Err?
  {
    forall g: map<string, int> ensures RemoveLine(g, line).Err? {
      MalformedLineFails(g, line);
    }
    BusyFailingLine(gpus, a, line, b);
  }

  /** A line that fails in every dictionary makes the loop fail wherever it stands. */
  lemma {:induction false} BusyFailingLine(gpus: map<string, int>, a: seq<string>, line: string, b: seq<string>)
    requires forall g: map<string, int> :: RemoveLine(g, line).Err?
    ensures RemoveBusy(gpus, a + [line] + b).Err?
    decreases |a|
  {
    if a == [] {
      assert a + [line] + b == [line] + b && ([line] + b)[0] == line;
      assert RemoveLine(gpus, line).Err?;
    } else {
      assert (a + [line] + b)[0] == a[0] && (a + [line] + b)[1..] == a[1..] + [line] + b;
      match RemoveLine(gpus, a[0])
      case Err(_) =>
      case Ok(next) => BusyFailingLine(next, a[1..], line, b);
    }
  }

  lemma DistinctCons(b: string, ids: seq<string>)
    ensures Distinct([b] + ids) <==> b !in ids && Distinct(ids)
  {
    var s := [b] + ids;
    assert forall i :: 0 <= i < |ids| ==> s[i + 1] == ids[i];
    if b in ids {
      var k :| 0 <= k < |ids| && ids[k] == b;
      assert s[0] == s[k + 1];
    }
    if b !in ids && Distinct(ids) {
      forall i, j | 0 <= i < j < |s| ensures s[i] != s[j] {
        if i == 0 {
          assert s[j] == ids[j - 1];
        } else {
          assert s[i] == ids[i - 1] && s[j] == ids[j - 1];
        }
      }
    }
  }

  /** The compute-apps loop succeeds exactly when every line parses, no bus id is listed
      twice and every listed bus id is in the dictionary; it then removes exactly the
      listed bus ids. A bus id shared by two processes, or one the inventory never
      reported, is a KeyError. */
  lemma {:induction false} RemoveBusyIff(gpus: map<string, int>, lines: seq<string>)
    ensures RemoveBusy(gpus, lines).Ok? <==>
              && Records(lines).Ok?
              && Distinct(BusIds(Records(lines).value))
              && IdSet(BusIds(Records(lines).value)) <= gpus.Keys
    ensures RemoveBusy(gpus, lines).Ok? ==>
              && Records(lines).Ok?
              && RemoveBusy(gpus, lines).value == gpus - IdSet(BusIds(Records(lines).value))
    decreases |lines|
  {
    if lines == [] {
      assert Records(lines) == Ok([]);
      assert IdSet(BusIds([])) == {};
      assert gpus - {} == gpus;
    } else if lines[0] == "" {
      assert RemoveBusy(gpus, lines) == RemoveBusy(gpus, lines[1..]);
      assert Records(lines) == Records(lines[1..]);
      RemoveBusyIff(gpus, lines[1..]);
    } else if ParseRecord(lines[0]).Err? {
      assert RemoveBusy(gpus, lines).Err?;
      assert Records(lines).Err?;
    } else {
      var rec := ParseRecord(lines[0]).value;
      var b := rec.busId;
      var tail := Records(lines[1..]);
      if tail.Ok? {
        assert Records(lines) == Ok([rec] + tail.value);
        BusIdsCons(rec, tail.value);
        DeleteThenRest(gpus, b, BusIds(tail.value));
      } else {
        assert Records(lines).Err?;
      }
      if b in gpus {
        assert RemoveBusy(gpus, lines) == RemoveBusy(gpus - {b}, lines[1..]);
        RemoveBusyIff(gpus - {b}, lines[1..]);
      } else {
        assert RemoveBusy(gpus, lines) == Err(UnknownBusId(b));
      }
    }
  }

  /** How the compute-apps loop fails: with a KeyError, or else with the unpacking error
      of the first line that does not split in two; when every line splits, the KeyError
      names a listed bus id. */
  lemma {:induction false} RemoveBusyError(gpus: map<string, int>, lines: seq<string>)
    ensures RemoveBusy(gpus, lines).Err? ==>
              || RemoveBusy(gpus, lines).error.UnknownBusId?
              || (Records(lines).Err? && RemoveBusy(gpus, lines).error == Records(lines).error)
    ensures RemoveBusy(gpus, lines).Err? && Records(lines).Ok? ==>
              && RemoveBusy(gpus, lines).error.UnknownBusId?
              && RemoveBusy(gpus, lines).error.busId in IdSet(BusIds(Records(lines).value))
    decreases |lines|
  {
    if lines != [] {
      var rest := lines[1..];
      if lines[0] == "" {
        assert RemoveBusy(gpus, lines) == RemoveBusy(gpus, rest);
        assert Records(lines) == Records(rest);
        RemoveBusyError(gpus, rest);
      } else {
        var parsed := ParseRecord(lines[0]);
        if parsed.Err? {
          assert RemoveBusy(gpus, lines) == Err(parsed.error);
          assert Records(lines) == Err(parsed.error);
        } else {
          RemoveBusyStep(gpus, lines, parsed.value);
        }
      }
    }
  }

  /** The inductive step of RemoveBusyError, for a first line that splits in two. */
  lemma RemoveBusyStep(gpus: map<string, int>, lines: seq<string>, rec: Record)
    requires lines != [] && lines[0] != "" && ParseRecord(lines[0]) == Ok(rec)
    ensures RemoveBusy(gpus, lines).Err? ==>
              || RemoveBusy(gpus, lines).error.UnknownBusId?
              || (Records(lines).Err? && RemoveBusy(gpus, lines).error == Records(lines).error)
    ensures RemoveBusy(gpus, lines).Err? && Records(lines).Ok? ==>
              && RemoveBusy(gpus, lines).error.UnknownBusId?
              && RemoveBusy(gpus, lines).error.busId in IdSet(BusIds(Records(lines).value))
    decreases |lines|, 0
  {
    var b := rec.busId;
    var rest := lines[1..];
    var tail := Records(rest);
    if tail.Ok? {
      assert Records(lines) == Ok([rec] + tail.value);
      BusIdsCons(rec, tail.value);
    } else {
      assert Records(lines) == tail;
    }
    if b in gpus {
      assert RemoveBusy(gpus, lines) == RemoveBusy(gpus - {b}, rest);
      RemoveBusyError(gpus - {b}, rest);
    } else {
      assert RemoveBusy(gpus, lines) == Err(UnknownBusId(b));
    }
  }

  lemma BusIdsCons(rec: Record, recs: seq<Record>)
    ensures BusIds([rec] + recs) == [rec.busId] + BusIds(recs)
    ensures IdSet(BusIds([rec] + recs)) == {rec.busId} + IdSet(BusIds(recs))
  {
  }

  /** Two processes on one GPU: when the compute-apps output lists a bus id twice, the
      second `del` finds the key gone and get_free_gpus raises a KeyError. */
  lemma SharedGpuFails(gpus: map<string, int>, lines: seq<string>)
    requires Records(lines).Ok? && !Distinct(BusIds(Records(lines).value))
    ensures RemoveBusy(gpus, lines).Err? && RemoveBusy(gpus, lines).error.UnknownBusId?
  {
    RemoveBusyIff(gpus, lines);
    RemoveBusyError(gpus, lines);
  }

  /** Deleting b and then the bus ids ids is deleting the bus ids [b] + ids, and it
      succeeds under the same conditions. */
  lemma DeleteThenRest(gpus: map<string, int>, b: string, ids: seq<string>)
    ensures (b in gpus && Distinct(ids) && IdSet(ids) <= (gpus - {b}).Keys) <==>
              (Distinct([b] + ids) && IdSet([b] + ids) <= gpus.Keys)
    ensures b in gpus ==> (gpus - {b}) - IdSet(ids) == gpus - IdSet([b] + ids)
  {
    DistinctCons(b, ids);
    assert IdSet([b] + ids) == {b} + IdSet(ids);
  }

  /** m is what `gpus[busid] = index` for each entry in turn makes of gpus: every
      listed bus id is a key, unlisted keys keep their index, and a repeated bus id
      holds the index of its last entry. */
  predicate Assigned(m: map<string, int>, gpus: map<string, int>, entries: seq<Entry>) {
    && m.Keys == gpus.Keys + EntryIds(entries)
    && (forall b :: b in gpus && b !in EntryIds(entries) ==> m[b] == gpus[b])
    && (forall j {:trigger LastFor(entries, j)} :: 0 <= j < |entries| && LastFor(entries, j) ==>
          m[entries[j].busId] == entries[j].index)
  }

  /** The inventory loop fails exactly when some non-empty line fails to parse, with the
      first such exception; otherwise it assigns every entry in order. */
  lemma {:induction false} AddInventoryIff(gpus: map<string, int>, lines: seq<string>)
    ensures AddInventory(gpus, lines).Err? <==> Entries(lines).Err?
    ensures AddInventory(gpus, lines).Err? ==> AddInventory(gpus, lines).error == Entries(lines).error
    ensures AddInventory(gpus, lines).Ok? ==> Assigned(AddInventory(gpus, lines).value, gpus, Entries(lines).value)
    decreases |lines|
  {
    if lines == [] {
      assert EntryIds([]) == {};
    } else if lines[0] == "" {
      assert AddInventory(gpus, lines) == AddInventory(gpus, lines[1..]);
      assert Entries(lines) == Entries(lines[1..]);
      AddInventoryIff(gpus, lines[1..]);
    } else if ParseEntry(lines[0]).Err? {
      assert AddInventory(gpus, lines) == Err(ParseEntry(lines[0]).error);
      assert Entries(lines) == Err(ParseEntry(lines[0]).error);
    } else {
      var entry := ParseEntry(lines[0]).value;
      var next := gpus[entry.busId := entry.index];
      assert AddInventory(gpus, lines) == AddInventory(next, lines[1..]);
      AddInventoryIff(next, lines[1..]);
      var tail := Entries(lines[1..]);
      if tail.Ok? {
        assert Entries(lines) == Ok([entry] + tail.value);
        AssignedCons(AddInventory(gpus, lines).value, gpus, entry, tail.value);
      } else {
        assert Entries(lines) == tail;
      }
    }
  }

  /** Assigning one entry and then the entries that follow is assigning them all. */
  lemma AssignedCons(m: map<string, int>, gpus: map<string, int>, entry: Entry, entries: seq<Entry>)
    requires Assigned(m, gpus[entry.busId := entry.index], entries)
    ensures Assigned(m, gpus, [entry] + entries)
  {
    var b := entry.busId;
    var all := [entry] + entries;
    assert EntryIds(all) == {b} + EntryIds(entries) by {
      assert all[0] == entry;
      forall x | x in EntryIds(all) ensures x in {b} + EntryIds(entries) {
        var i :| 0 <= i < |all| && all[i].busId == x;
        if i > 0 {
          assert all[i] == entries[i - 1];
        }
      }
      forall x | x in EntryIds(entries) ensures x in EntryIds(all) {
        var i :| 0 <= i < |entries| && entries[i].busId == x;
        assert all[i + 1] == entries[i];
      }
    }
    forall j | 0 <= j < |all| && LastFor(all, j)
      ensures m[all[j].busId] == all[j].index
    {
      if j == 0 {
        forall k | 0 <= k < |entries| ensures entries[k].busId != b {
          assert all[k + 1] == entries[k];
        }
        assert b !in EntryIds(entries);
      } else {
        assert all[j] == entries[j - 1];
        forall k | j - 1 < k < |entries| ensures entries[k].busId != entries[j - 1].busId {
          assert all[k + 1] == entries[k];
        }
        assert LastFor(entries, j - 1);
      }
    }
  }

  /** Removing bus ids counts, for each index, only the bus ids that stay. */
  lemma CountMinus(gpus: map<string, int>, gone: set<string>)
    ensures forall v :: Count(gpus - gone, v) == |set b | b in gpus && b !in gone && gpus[b] == v|
  {
    var free := gpus - gone;
    forall v ensures Count(free, v) == |set b | b in gpus && b !in gone && gpus[b] == v| {
      assert (set b | b in free && free[b] == v) == (set b | b in gpus && b !in gone && gpus[b] == v);
    }
  }

  /** What get_free_gpus returns, when it returns: the indices of the inventory's bus
      ids that no compute process uses, each as often as it is listed. No busy bus id
      keeps its index and no idle one loses it. */
  lemma FreeGpusAreUnlisted(inventory: string, apps: string)
    ensures FreeGpuMap(inventory, apps).Ok? ==>
              && AddInventory(map[], Lines(inventory)).Ok?
              && Records(Lines(apps)).Ok?
              && var inv := AddInventory(map[], Lines(inventory)).value;
                 var busy := IdSet(BusIds(Records(Lines(apps)).value));
                 && busy <= inv.Keys
                 && FreeGpuMap(inventory, apps).value == inv - busy
                 && forall v :: Count(FreeGpuMap(inventory, apps).value, v) ==
                                  |set b | b in inv && b !in busy && inv[b] == v|
  {
    var first := AddInventory(map[], Lines(inventory));
    if first.Ok? {
      var inv := first.value;
      RemoveBusyIff(inv, Lines(apps));
      if FreeGpuMap(inventory, apps).Ok? {
        CountMinus(inv, IdSet(BusIds(Records(Lines(apps)).value)));
      }
    }
  }

  // ---------------------------------------------------------------------------
  // use_single_gpu

  /** x[::-1] */
  function Reverse(s: seq<int>): (r: seq<int>)
    ensures |r| == |s|
    ensures forall i :: 0 <= i < |s| ==> r[i] == s[|s| - 1 - i]
  {
    if s == [] then [] else Reverse(s[1..]) + [s[0]]
  }

  /** cvd.split(',')[0]: the text before the first comma, or all of it when there is none. */
  function FirstField(s: string): (t: string)
    ensures ',' !in t
    ensures ',' !in s ==> t == s
    ensures ',' in s ==> |t| < |s| && s[..|t| + 1] == t + [',']
  {
    var fields := Split(s, ',');
    assert fields[0] in fields;
    if |fields| > 1 then
      assert s == fields[0] + [','] + Join(fields[1..], ',');
      fields[0]
    else
      fields[0]
  }

  /** The selection rule of use_single_gpu, given the free list get_free_gpus would
      return. Unset: the last entry of the list, and a switch of the active device.
      Set: the integer before the first comma, or the whole value, with no switch. */
  function Select(env: Option<string>, free: seq<int>): (r: Result<Choice>)
    ensures env.None? ==> (r.Ok? <==> free != [])
    ensures env.None? && r.Err? ==> r.error == NoFreeGpu
    ensures env.None? && r.Ok? ==> r.value.rebind && r.value.device in free
    ensures env.None? && r.Ok? && IsSorted(free) ==> forall x :: x in free ==> x <= r.value.device
    ensures env.Some? ==> (r.Ok? <==> ParseInt(FirstField(env.value)).Some?)
    ensures env.Some? && r.Err? ==> r.error == NotAnInteger(FirstField(env.value))
    ensures env.Some? && r.Ok? ==> !r.value.rebind && r.value.device == ParseInt(FirstField(env.value)).value
  {
    match env
    case None =>
      if free == [] then Err(NoFreeGpu)
      else
        var device := Reverse(free)[0];
        assert device == free[|free| - 1];
        Ok(Choice(device, true))
    case Some(cvd) =>
      var text := if ',' in cvd then FirstField(cvd) else cvd;
      match ParseInt(text)
      case None => Err(NotAnInteger(text))
      case Some(n) => Ok(Choice(n, false))
  }

  /** use_single_gpu: the free-GPU queries are consulted only when the variable is
      unset; then the highest free index is chosen and made the active device. */
  method UseSingleGpu(env: Option<string>, inventory: string, apps: string) returns (r: Result<Choice>)
    ensures env.Some? ==> forall free :: r == Select(env, free)
    ensures env.None? && FreeGpuMap(inventory, apps).Err? ==> r == Err(FreeGpuMap(inventory, apps).error)
    ensures env.None? && FreeGpuMap(inventory, apps).Ok? ==>
              var free := FreeGpuMap(inventory, apps).value;
              && (r.Ok? <==> free != map[])
              && (r.Err? ==> r.error == NoFreeGpu)
              && (r.Ok? ==> r.value.rebind && r.value.device in free.Values)
              && (r.Ok? ==> forall b :: b in free ==> free[b] <= r.value.device)
  {
    if env.None? {
      var free := GetFreeGpus(inventory, apps);
      if free.Err? {
        return Err(free.error);
      }
      r := Select(env, free.value);
      var m := FreeGpuMap(inventory, apps).value;
      ValuesListed(free.value, m);
      if r.Ok? {
        forall b | b in m ensures m[b] <= r.value.device {
          assert m[b] in m.Values;
        }
      }
    } else {
      r := Select(env, []);
    }
  }

  // ---------------------------------------------------------------------------
  // Properties of the selection rule

  /** A reserved list is read by its first entry alone: "t,rest" selects what "t" does. */
  lemma ReservedListUsesFirstEntry(t: string, rest: string, free: seq<int>)
    requires ',' !in t
    ensures Select(Some(t + [','] + rest), free) == Select(Some(t), free)
  {
    var s := t + [','] + rest;
    assert s[|t|] == ',';
    FirstPiece(t, ',', rest);
  }

  /** A variable holding one decimal index selects that index, with no switch of device. */
  lemma ReservedIndexSelected(n: nat, free: seq<int>)
    requires |Decimal(n)| <= MaxStrDigits
    ensures Select(Some(Decimal(n)), free) == Ok(Choice(n, false))
  {
    var d := Decimal(n);
    assert ',' !in d by {
      assert forall i :: 0 <= i < |d| ==> IsDigit(d[i]);
    }
    assert ParseInt(d) == Some(n) by {
      assert [] + d + [] == d;
      ParseDecimal(n, [], []);
    }
  }

  /** With the variable unset, the choice is the highest free index, not the lowest. */
  lemma UnsetPicksHighest(free: seq<int>)
    requires IsSorted(free) && free != []
    ensures Select(None, free).Ok?
    ensures forall x :: x in free ==> x <= Select(None, free).value.device
    ensures Select(None, free).value.device == free[|free| - 1]
  {
    assert free[|free| - 1] in free;
  }

  // ---------------------------------------------------------------------------
  // Parsing and selection for whole families of inputs, and one concrete choice

  /** Trimmed text that is the newline-join of newline-free lines splits back into them. */
  lemma LinesOf(text: string, lines: seq<string>)
    requires |lines| >= 1 && Trimmed(text) && Join(lines, '\n') == text
    requires forall l :: l in lines ==> '\n' !in l
    ensures Lines(text) == lines
  {
    StripTrimmed(text);
    SplitJoin(lines, '\n');
  }

  /** A trimmed line with one comma parses into the texts on either side of it. */
  lemma RecordParses(line: string, first: string, busId: string)
    requires ',' !in first && ',' !in busId
    requires line == first + [','] + busId && Trimmed(line)
    ensures ParseRecord(line) == Ok(Record(first, busId))
  {
    StripTrimmed(line);
    SplitPair(first, ',', busId);
  }

  /** `idx, busid` with a decimal idx parses into that index and bus id. */
  lemma EntryParses(line: string, first: string, busId: string, n: nat)
    requires first == Decimal(n) && |first| <= MaxStrDigits && ',' !in busId
    requires line == first + [','] + busId && Trimmed(line)
    ensures ParseEntry(line) == Ok(Entry(busId, n))
  {
    assert ParseInt(first) == Some(n) by {
      assert [] + first + [] == first;
      ParseDecimal(n, [], []);
    }
    RecordParses(line, first, busId);
  }

  /** Free indices 0 and 2 with the variable unset: device 2 is chosen and rebound. */
  lemma UnsetExample()
    ensures Select(None, [0, 2]) == Ok(Choice(2, true))
  {
  }

  /** A variable listing several indices, the first in decimal, selects that first index. */
  lemma ReservedListSelectsFirst(n: nat, rest: string, free: seq<int>)
    requires |Decimal(n)| <= MaxStrDigits
    ensures Select(Some(Decimal(n) + [','] + rest), free) == Ok(Choice(n, false))
  {
    ReservedListUsesFirstEntry(Decimal(n), rest, free);
    ReservedIndexSelected(n, free);
  }
}
