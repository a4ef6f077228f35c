/** The last-writer-wins reputation store: src/reputation/reputation_crdt.cpp.
    Scores are reals; how a score is printed and read back is a parameter. */
module ReputationCrdt {
  import opened Basics
  import opened Text

  datatype NodeReputation = NodeReputation(
    identityKey: string,
    globalScore: real,
    mathScore: real,
    grammarScore: real,
    latencyScore: real,
    consistencyScore: real,
    taskCount: uint64,
    lastUpdatedMs: uint64)

  type State = map<string, NodeReputation>

  // ---------------------------------------------------------------- merging

  function Merge(state: State, remote: NodeReputation): State {
    if remote.identityKey !in state || remote.lastUpdatedMs > state[remote.identityKey].lastUpdatedMs
    then state[remote.identityKey := remote]
    else state
  }

  function MergeAll(state: State, records: seq<NodeReputation>): State
    decreases |records|
  {
    if |records| == 0 then state else MergeAll(Merge(state, records[0]), records[1..])
  }

  /** What a replica holds after the given deliveries, in the given order. */
  function Replica(deliveries: seq<NodeReputation>): State {
    MergeAll(map[], deliveries)
  }

  ghost predicate SameRecords(a: seq<NodeReputation>, b: seq<NodeReputation>) {
    forall r :: r in a <==> r in b
  }

  /** No record for the same key carries a later time. */
  ghost predicate Latest(r: NodeReputation, records: seq<NodeReputation>) {
    r in records && forall q :: q in records && q.identityKey == r.identityKey ==> q.lastUpdatedMs <= r.lastUpdatedMs
  }

  ghost predicate UniqueLatest(records: seq<NodeReputation>) {
    forall r, q :: Latest(r, records) && Latest(q, records) && r.identityKey == q.identityKey ==> r == q
  }

  /** The state holds, for exactly the keys that occur, a record with the latest time. */
  ghost predicate HoldsLatest(state: State, records: seq<NodeReputation>) {
    (forall k :: k in state ==> state[k].identityKey == k && Latest(state[k], records)) &&
    (forall r :: r in records ==> r.identityKey in state)
  }

  /** Delivery number i carries the latest time for its key, and none before it carries the same. */
  ghost predicate FirstLatestAt(records: seq<NodeReputation>, i: nat) {
    i < |records| &&
    forall j :: 0 <= j < |records| && records[j].identityKey == records[i].identityKey ==>
      records[j].lastUpdatedMs <= records[i].lastUpdatedMs &&
      (j < i ==> records[j].lastUpdatedMs < records[i].lastUpdatedMs)
  }

  /** The first delivered record among those with its key's latest time. */
  ghost predicate FirstLatest(r: NodeReputation, records: seq<NodeReputation>) {
    exists i: nat :: FirstLatestAt(records, i) && records[i] == r
  }

  /** The state holds, for exactly the keys that occur, the first delivered of the latest records. */
  ghost predicate HoldsFirst(state: State, records: seq<NodeReputation>) {
    (forall k :: k in state ==> state[k].identityKey == k && FirstLatest(state[k], records)) &&
    (forall r :: r in records ==> r.identityKey in state)
  }

  lemma {:induction false} MergeAllHoldsFirst(state: State, seen: seq<NodeReputation>, records: seq<NodeReputation>)
    requires HoldsFirst(state, seen)
    ensures HoldsFirst(MergeAll(state, records), seen + records)
    decreases |records|
  {
    hide HoldsFirst, Merge;
    if |records| == 0 {
      assert seen + records == seen;
    } else {
      MergeHoldsFirst(state, seen, records[0]);
      MergeAllHoldsFirst(Merge(state, records[0]), seen + [records[0]], records[1..]);
      assert seen + [records[0]] + records[1..] == seen + records;
    }
  }

  /** A held key keeps its record until a later one arrives. */
  lemma HolderIndex(state: State, seen: seq<NodeReputation>, k: string, r: NodeReputation)
    requires k in state && state[k].identityKey == k && FirstLatest(state[k], seen)
    ensures FirstLatest(Merge(state, r)[k], seen + [r])
  {
    var i: nat :| FirstLatestAt(seen, i) && seen[i] == state[k];
    var all := seen + [r];
    if Merge(state, r)[k] == state[k] {
      assert FirstLatestAt(all, i) && all[i] == state[k];
    } else {
      assert FirstLatestAt(all, |seen|) && all[|seen|] == r;
    }
  }

  lemma MergeHoldsFirst(state: State, seen: seq<NodeReputation>, r: NodeReputation)
    requires HoldsFirst(state, seen)
    ensures HoldsFirst(Merge(state, r), seen + [r])
  {
    var after, all := Merge(state, r), seen + [r];
    forall k | k in after
      ensures after[k].identityKey == k && FirstLatest(after[k], all)
    {
      if k in state {
        HolderIndex(state, seen, k, r);
      } else {
        assert forall j :: 0 <= j < |seen| ==> seen[j] in seen;
        assert FirstLatestAt(all, |seen|) && all[|seen|] == r;
      }
    }
  }

  /** What a replica holds, exactly: for each delivered key the first delivered record among those
      with the key's latest time. */
  lemma ReplicaHoldsFirst(deliveries: seq<NodeReputation>)
    ensures HoldsFirst(Replica(deliveries), deliveries)
  {
    hide HoldsFirst, MergeAll;
    NothingHeld();
    MergeAllHoldsFirst(map[], [], deliveries);
    assert [] + deliveries == deliveries;
  }

  lemma NothingHeld()
    ensures HoldsFirst(map[], [])
  {
  }

  /** That leaves no choice. */
  lemma FirstDetermines(s: State, t: State, records: seq<NodeReputation>)
    requires HoldsFirst(s, records) && HoldsFirst(t, records)
    ensures s == t
  {
    forall k | k in s || k in t
      ensures k in s && k in t && s[k] == t[k]
    {
      if k in s { HolderDelivered(s, records, k); }
      if k in t { HolderDelivered(t, records, k); }
      var i: nat :| FirstLatestAt(records, i) && records[i] == s[k];
      var j: nat :| FirstLatestAt(records, j) && records[j] == t[k];
    }
  }

  lemma HolderDelivered(s: State, records: seq<NodeReputation>, k: string)
    requires HoldsFirst(s, records) && k in s
    ensures s[k].identityKey == k && s[k] in records
  {
    var i: nat :| FirstLatestAt(records, i) && records[i] == s[k];
  }

  /** Whatever the order and the duplication, a replica holds a latest record for every key. */
  lemma ReplicaHoldsLatest(deliveries: seq<NodeReputation>)
    ensures HoldsLatest(Replica(deliveries), deliveries)
  {
    ReplicaHoldsFirst(deliveries);
    var s := Replica(deliveries);
    forall k | k in s
      ensures s[k].identityKey == k && Latest(s[k], deliveries)
    {
      var i: nat :| FirstLatestAt(deliveries, i) && deliveries[i] == s[k];
    }
  }

  /** Two states that hold latest records of the same set agree when those are unique. */
  lemma LatestDetermines(s: State, t: State, a: seq<NodeReputation>, b: seq<NodeReputation>)
    requires SameRecords(a, b) && UniqueLatest(a) && HoldsLatest(s, a) && HoldsLatest(t, b)
    ensures s == t
  {
    assert forall k :: k in s ==> s[k] in a && s[k] in b;
    assert forall k :: k in t ==> t[k] in b && t[k] in a;
    forall k | k in s
      ensures k in t && s[k] == t[k]
    {
      assert s[k] in b && k in t;
      SameLatest(t[k], b, a);
    }
  }

  lemma SameLatest(r: NodeReputation, a: seq<NodeReputation>, b: seq<NodeReputation>)
    requires SameRecords(b, a) && Latest(r, a)
    ensures Latest(r, b)
  {
  }

  /** Once a latest record is held, nothing replaces it. */
  lemma {:induction false} LatestStays(state: State, r: NodeReputation, records: seq<NodeReputation>)
    requires r.identityKey in state && state[r.identityKey] == r
    requires forall q :: q in records && q.identityKey == r.identityKey ==> q.lastUpdatedMs <= r.lastUpdatedMs
    ensures r.identityKey in MergeAll(state, records) && MergeAll(state, records)[r.identityKey] == r
    decreases |records|
  {
    if |records| > 0 {
      assert records[0] in records;
      LatestStays(Merge(state, records[0]), r, records[1..]);
    }
  }

  /** All delivery orders and duplications of these records lead to the same state. */
  ghost predicate Converges(a: seq<NodeReputation>) {
    forall b :: SameRecords(a, b) ==> Replica(b) == Replica(a)
  }

  /** Replicas converge exactly when every key has only one record with its latest time. */
  lemma Convergence(a: seq<NodeReputation>)
    ensures Converges(a) <==> UniqueLatest(a)
  {
    hide Replica, UniqueLatest, SameRecords;
    if UniqueLatest(a) {
      forall b | SameRecords(a, b)
        ensures Replica(b) == Replica(a)
      {
        ReplicaHoldsLatest(a);
        ReplicaHoldsLatest(b);
        LatestDetermines(Replica(a), Replica(b), a, b);
      }
    }
    if Converges(a) { ConvergingIsUnique(a); }
  }

  lemma ConvergingIsUnique(a: seq<NodeReputation>)
    requires Converges(a)
    ensures UniqueLatest(a)
  {
    hide Replica, Latest;
    forall r, q | Latest(r, a) && Latest(q, a) && r.identityKey == q.identityKey
      ensures r == q
    {
      FirstLatestWins(r, a);
      FirstLatestWins(q, a);
      assert Replica([r] + a) == Replica(a) == Replica([q] + a);
    }
  }

  lemma FirstLatestWins(r: NodeReputation, a: seq<NodeReputation>)
    requires Latest(r, a)
    ensures SameRecords(a, [r] + a)
    ensures r.identityKey in Replica([r] + a) && Replica([r] + a)[r.identityKey] == r
  {
    assert ([r] + a)[0] == r && ([r] + a)[1..] == a;
    LatestStays(Merge(map[], r), r, a);
  }

  /** The usual discipline is enough: no two distinct records share a key and a time. */
  lemma DistinctTimesConverge(a: seq<NodeReputation>, b: seq<NodeReputation>)
    requires SameRecords(a, b)
    requires forall r, q :: r in a && q in a && r.identityKey == q.identityKey && r.lastUpdatedMs == q.lastUpdatedMs ==>
                              r == q
    ensures Replica(a) == Replica(b)
  {
    Convergence(a);
  }

  /** Receiving the records another replica holds is as good as receiving all it ever received, in its
      order: also where records tie for the latest time. */
  lemma ExchangingStates(a: seq<NodeReputation>, b: seq<NodeReputation>, held: seq<NodeReputation>)
    requires forall r :: r in held <==> r.identityKey in Replica(b) && Replica(b)[r.identityKey] == r
    ensures MergeAll(Replica(a), held) == Replica(a + b)
  {
    hide Replica, MergeAll, HoldsFirst;
    ReplicaHoldsFirst(a);
    ReplicaHoldsFirst(b);
    ReplicaHoldsFirst(a + b);
    MergeAllHoldsFirst(Replica(a), a, held);
    var s := MergeAll(Replica(a), held);
    HeldStandsForAll(s, a, b, held, Replica(b));
    FirstDetermines(s, Replica(a + b), a + b);
  }

  /** In a list of deliveries the records a replica holds can stand for all it received. */
  lemma HeldStandsForAll(s: State, a: seq<NodeReputation>, b: seq<NodeReputation>, held: seq<NodeReputation>, t: State)
    requires HoldsFirst(t, b) && HoldsFirst(s, a + held)
    requires forall r :: r in held <==> r.identityKey in t && t[r.identityKey] == r
    ensures HoldsFirst(s, a + b)
  {
    forall r | r in b
      ensures r.identityKey in t && t[r.identityKey] in held && r.lastUpdatedMs <= t[r.identityKey].lastUpdatedMs
    {
      HolderIsLatest(t, b, r);
    }
    forall k | k in s
      ensures FirstLatest(s[k], a + b)
    {
      HolderStands(s[k], a, b, held, t);
    }
    forall r | r in a + b
      ensures r.identityKey in s
    {
      if r in b { assert t[r.identityKey] in a + held; } else { assert r in a + held; }
    }
  }

  lemma HolderIsLatest(t: State, b: seq<NodeReputation>, r: NodeReputation)
    requires HoldsFirst(t, b) && r in b
    ensures r.identityKey in t && t[r.identityKey].identityKey == r.identityKey
    ensures r.lastUpdatedMs <= t[r.identityKey].lastUpdatedMs
  {
    var i: nat :| FirstLatestAt(b, i) && b[i] == t[r.identityKey];
  }

  lemma HolderStands(r: NodeReputation, a: seq<NodeReputation>, b: seq<NodeReputation>, held: seq<NodeReputation>,
                     t: State)
    requires HoldsFirst(t, b) && FirstLatest(r, a + held)
    requires forall q :: q in held <==> q.identityKey in t && t[q.identityKey] == q
    ensures FirstLatest(r, a + b)
  {
    var before, all := a + held, a + b;
    var i: nat :| FirstLatestAt(before, i) && before[i] == r;
    if i < |a| {
      forall j | 0 <= j < |all| && all[j].identityKey == r.identityKey
        ensures all[j].lastUpdatedMs <= r.lastUpdatedMs && (j < i ==> all[j].lastUpdatedMs < r.lastUpdatedMs)
      {
        if j < |a| {
          assert all[j] == before[j];
        } else {
          HolderIsLatest(t, b, all[j]);
          assert t[r.identityKey] in held && t[r.identityKey] in before;
        }
      }
      assert FirstLatestAt(all, i) && all[i] == r;
    } else {
      assert r in held;
      var m: nat :| FirstLatestAt(b, m) && b[m] == r;
      forall j | 0 <= j < |all| && all[j].identityKey == r.identityKey
        ensures all[j].lastUpdatedMs <= r.lastUpdatedMs && (j < |a| + m ==> all[j].lastUpdatedMs < r.lastUpdatedMs)
      {
        if j < |a| { assert all[j] == before[j]; } else { assert all[j] == b[j - |a|]; }
      }
      assert FirstLatestAt(all, |a| + m) && all[|a| + m] == r;
    }
  }

  /** The record is for a held key and not newer than what is held. */
  predicate Stale(state: State, r: NodeReputation) {
    r.identityKey in state && r.lastUpdatedMs <= state[r.identityKey].lastUpdatedMs
  }

  /** What is stale stays stale, and whatever is merged is stale from then on. */
  lemma {:induction false} MergedIsStale(state: State, records: seq<NodeReputation>)
    ensures forall r :: Stale(state, r) || r in records ==> Stale(MergeAll(state, records), r)
    decreases |records|
  {
    if |records| > 0 { MergedIsStale(Merge(state, records[0]), records[1..]); }
  }

  /** Merging changes nothing exactly when every record is for a held key and not newer. */
  lemma {:induction false} StaleRecordsChangeNothing(state: State, records: seq<NodeReputation>)
    ensures MergeAll(state, records) == state <==> forall r :: r in records ==> Stale(state, r)
  {
    MergedIsStale(state, records);
    if forall r :: r in records ==> Stale(state, r) { AllStale(state, records); }
  }

  lemma {:induction false} AllStale(state: State, records: seq<NodeReputation>)
    requires forall r :: r in records ==> Stale(state, r)
    ensures MergeAll(state, records) == state
  {
    if |records| > 0 {
      assert records[0] in records;
      AllStale(state, records[1..]);
    }
  }

  // ---------------------------------------------------------------- the text form

  /** operator<< and std::stod on a score; None for an exception. */
  datatype Numerals = Numerals(write: real -> string, read: string -> Option<real>)

  predicate Without(s: string, c: char) { forall i :: 0 <= i < |s| ==> s[i] != c }

  predicate Clean(s: string) { Without(s, ',') && Without(s, '\n') }

  ghost predicate CleanNumerals(num: Numerals) { forall x :: Clean(num.write(x)) }

  function Cell(field: string, rest: string): string {
    field + "," + rest
  }

  function Line(r: NodeReputation, num: Numerals): string {
    Cell(r.identityKey, Cell(num.write(r.globalScore), Cell(num.write(r.mathScore),
      Cell(num.write(r.grammarScore), Cell(num.write(r.latencyScore), Cell(num.write(r.consistencyScore),
        Cell(NatToString(r.taskCount), NatToString(r.lastUpdatedMs))))))))
  }

  /** The order lists every key of the state once. */
  ghost predicate Enumerates(order: seq<string>, state: State) {
    (forall k :: k in order <==> k in state) && forall i, j :: 0 <= i < j < |order| ==> order[i] != order[j]
  }

  /** One line per entry, in the iteration order of the hash table. */
  function Serialized(state: State, order: seq<string>, num: Numerals): string
    requires forall k :: k in order ==> k in state
  {
    if |order| == 0 then "" else Line(state[order[0]], num) + "\n" + Serialized(state, order[1..], num)
  }

  /** std::getline until it fails: a last line needs no line break. */
  function Lines(data: string): seq<string>
    decreases |data|
  {
    if data == "" then []
    else
      var n := FindFirstOf(data, {'\n'}, 0);
      if n.None? then [data] else [data[..n.value]] + Lines(data[n.value + 1..])
  }

  /** A stream over one line and the token last read. Once the end was met no rest remains and
      further reads leave the token as it was. */
  datatype Stream = Stream(rest: Option<string>, token: string)

  function Next(s: Stream): Stream {
    if s.rest.None? then s
    else
      var n := FindFirstOf(s.rest.value, {','}, 0);
      if n.None? then Stream(None, s.rest.value)
      else Stream(Some(s.rest.value[n.value + 1..]), s.rest.value[..n.value])
  }

  function ParseLine(line: string, num: Numerals): Option<NodeReputation> {
    var key := Next(Stream(Some(line), ""));
    var global := Next(key);
    var math := Next(global);
    var grammar := Next(math);
    var latency := Next(grammar);
    var consistency := Next(latency);
    var tasks := Next(consistency);
    var updated := Next(tasks);
    Assemble(key.token, num.read(global.token), num.read(math.token), num.read(grammar.token),
             num.read(latency.token), num.read(consistency.token), Stoull(tasks.token), Stoull(updated.token))
  }

  function Assemble(key: string, global: Option<real>, math: Option<real>, grammar: Option<real>,
                    latency: Option<real>, consistency: Option<real>, tasks: Option<uint64>, updated: Option<uint64>)
    : Option<NodeReputation>
  {
    if global.None? || math.None? || grammar.None? || latency.None? || consistency.None? || tasks.None? || updated.None?
    then None
    else Some(NodeReputation(key, global.value, math.value, grammar.value, latency.value, consistency.value,
                             tasks.value, updated.value))
  }

  function MergeLine(state: State, line: string, num: Numerals): State {
    if line == "" || ParseLine(line, num).None? then state else Merge(state, ParseLine(line, num).value)
  }

  function MergeLines(state: State, lines: seq<string>, num: Numerals): State
    decreases |lines|
  {
    if |lines| == 0 then state else MergeLines(MergeLine(state, lines[0], num), lines[1..], num)
  }

  /** The parts of a text between the separators; there is always one. */
  function Split(s: string, c: char): (parts: seq<string>)
    ensures |parts| > 0
    decreases |s|
  {
    var n := FindFirstOf(s, {c}, 0);
    if n.None? then [s] else [s[..n.value]] + Split(s[n.value + 1..], c)
  }

  /** Field i of a line, as the stream yields it: past the end the last field is read again. */
  function FieldAt(fields: seq<string>, i: nat): string
    requires |fields| > 0
  {
    if i < |fields| then fields[i] else fields[|fields| - 1]
  }

  function FromFields(fields: seq<string>, num: Numerals): Option<NodeReputation>
    requires |fields| > 0
  {
    Assemble(FieldAt(fields, 0), num.read(FieldAt(fields, 1)), num.read(FieldAt(fields, 2)),
             num.read(FieldAt(fields, 3)), num.read(FieldAt(fields, 4)), num.read(FieldAt(fields, 5)),
             Stoull(FieldAt(fields, 6)), Stoull(FieldAt(fields, 7)))
  }

  /** The seven fields behind the key. */
  function Printed(r: NodeReputation, num: Numerals): seq<string> {
    [num.write(r.globalScore), num.write(r.mathScore), num.write(r.grammarScore), num.write(r.latencyScore),
     num.write(r.consistencyScore), NatToString(r.taskCount), NatToString(r.lastUpdatedMs)]
  }

  /** What arrives when a record is sent: the first eight of the parts of its key and its seven other
      fields. With a comma in the key the fields shift. */
  function Received(r: NodeReputation, num: Numerals): Option<NodeReputation> {
    FromFields(Split(r.identityKey, ',') + Printed(r, num), num)
  }

  function ReceivedAll(state: State, order: seq<string>, num: Numerals): (records: seq<NodeReputation>)
    requires forall k :: k in order ==> k in state
  {
    if |order| == 0 then []
    else
      var first := Received(state[order[0]], num);
      (if first.None? then [] else [first.value]) + ReceivedAll(state, order[1..], num)
  }

  /** The records that lines deliver. */
  function Parsed(lines: seq<string>, num: Numerals): seq<NodeReputation> {
    if |lines| == 0 then []
    else
      var first := ParseLine(lines[0], num);
      (if lines[0] == "" || first.None? then [] else [first.value]) + Parsed(lines[1..], num)
  }

  // ------------------------------------------------------------- splitting

  lemma {:induction false} FirstSeparator(s: string, field: string, separator: string, rest: string, c: char)
    requires s == field + separator + rest && separator == [c] && Without(field, c)
    ensures FindFirstOf(s, {c}, 0) == Some(|field|) && s[..|field|] == field && s[|field| + 1..] == rest
  {
    StopsAt(s, {c}, 0, |field|);
  }

  lemma {:induction false} NoSeparator(s: string, c: char, start: nat)
    requires forall i :: start <= i < |s| ==> s[i] != c
    ensures FindFirstOf(s, {c}, start) == None
    decreases |s| - start
  {
    if start < |s| { NoSeparator(s, c, start + 1); }
  }

  /** A text without the separator is its only part; otherwise a part ends at the first one. */
  lemma {:induction false} SplitCases(s: string, c: char)
    ensures Without(s, c) ==> FindFirstOf(s, {c}, 0).None? && Split(s, c) == [s]
    ensures !Without(s, c) ==>
              var n := FindFirstOf(s, {c}, 0);
              n.Some? && Without(s[..n.value], c) && s == s[..n.value] + [c] + s[n.value + 1..] &&
              Split(s, c) == [s[..n.value]] + Split(s[n.value + 1..], c)
  {
    if Without(s, c) {
      NoSeparator(s, c, 0);
    } else {
      FirstFound(s, c, 0);
    }
  }

  lemma {:induction false} FirstFound(s: string, c: char, start: nat)
    requires exists i :: start <= i < |s| && s[i] == c
    ensures var n := FindFirstOf(s, {c}, start);
            n.Some? && s[n.value] == c && forall i :: start <= i < n.value ==> s[i] != c
    decreases |s| - start
  {
    if s[start] != c { FirstFound(s, c, start + 1); }
  }

  /** Splitting distributes over a separator. */
  lemma {:induction false} SplitJoin(s: string, a: string, c: char, b: string)
    requires s == a + [c] + b
    ensures Split(s, c) == Split(a, c) + Split(b, c)
    decreases |a|
  {
    hide Split;
    SplitCases(a, c);
    if Without(a, c) {
      FirstSeparator(s, a, [c], b, c);
      assert s[|a|] == c;
      SplitCases(s, c);
    } else {
      var n := FindFirstOf(a, {c}, 0).value;
      var head, tail := a[..n], a[n + 1..];
      assert s == head + [c] + (tail + [c] + b);
      FirstSeparator(s, head, [c], tail + [c] + b, c);
      assert s[n] == c;
      SplitCases(s, c);
      SplitJoin(tail + [c] + b, tail, c, b);
      assert [head] + (Split(tail, c) + Split(b, c)) == [head] + Split(tail, c) + Split(b, c);
    }
  }

  /** The lines of a text that starts with `x` and a line break are the parts of `x`, then the rest. */
  /** The end of a text: a last line needs no line break, and none follows a final one. */
  lemma {:induction false} LinesEnd(x: string)
    requires Without(x, '\n')
    ensures Lines("") == [] && Lines(x + "\n") == [x]
    ensures x != "" ==> Lines(x) == [x]
  {
    var data := x + "\n";
    FirstSeparator(data, x, "\n", "", '\n');
    NoSeparator(x, '\n', 0);
    assert data[|x| + 1..] == "";
    hide FindFirstOf;
  }

  lemma {:induction false} LinesJoin(data: string, x: string, rest: string)
    requires data == x + "\n" + rest
    ensures Lines(data) == Split(x, '\n') + Lines(rest)
    decreases |x|
  {
    hide Split;
    SplitCases(x, '\n');
    if Without(x, '\n') {
      FirstSeparator(data, x, "\n", rest, '\n');
    } else {
      var n := FindFirstOf(x, {'\n'}, 0).value;
      var head, tail := x[..n], x[n + 1..];
      assert data == head + "\n" + (tail + "\n" + rest);
      FirstSeparator(data, head, "\n", tail + "\n" + rest, '\n');
      LinesJoin(tail + "\n" + rest, tail, rest);
      assert [head] + (Split(tail, '\n') + Lines(rest)) == [head] + Split(tail, '\n') + Lines(rest);
    }
  }

  // --------------------------------------------------------------- parsing

  /** A stream that still holds the fields from number i on. */
  predicate Holds(s: Stream, fields: seq<string>, i: nat) {
    if i < |fields| then s.rest.Some? && Split(s.rest.value, ',') == fields[i..]
    else s.rest.None? && |fields| > 0 && s.token == fields[|fields| - 1]
  }

  lemma {:induction false} NextField(s: Stream, fields: seq<string>, i: nat)
    requires Holds(s, fields, i)
    ensures |fields| > 0 && Next(s).token == FieldAt(fields, i) && Holds(Next(s), fields, i + 1)
  {
    if i < |fields| {
      var rest := s.rest.value;
      SplitCases(rest, ',');
      assert fields[i..][0] == fields[i] && fields[i..][1..] == fields[i + 1..];
    }
  }

  /** A line is read as the parts between its commas. */
  lemma {:induction false} ParseLineOfFields(line: string, num: Numerals)
    ensures ParseLine(line, num) == FromFields(Split(line, ','), num)
  {
    hide Next, Holds, FieldAt, Stoull, Split;
    var fields := Split(line, ',');
    var s0 := Stream(Some(line), "");
    assert Holds(s0, fields, 0) by { assert fields[0..] == fields; StartHolds(line); }
    NextField(s0, fields, 0);
    var s1 := Next(s0);
    NextField(s1, fields, 1);
    var s2 := Next(s1);
    NextField(s2, fields, 2);
    var s3 := Next(s2);
    NextField(s3, fields, 3);
    var s4 := Next(s3);
    NextField(s4, fields, 4);
    var s5 := Next(s4);
    NextField(s5, fields, 5);
    var s6 := Next(s5);
    NextField(s6, fields, 6);
    NextField(Next(s6), fields, 7);
  }

  lemma StartHolds(line: string)
    ensures Holds(Stream(Some(line), ""), Split(line, ','), 0)
  {
  }

  lemma CleanDigits(n: nat)
    ensures Clean(NatToString(n))
  {
    hide NatToString;
  }

  /** One clean field in front of others. */
  lemma {:induction false} CellFields(field: string, rest: string, fields: seq<string>)
    requires Clean(field) && Without(rest, '\n') && Split(rest, ',') == fields
    ensures Split(Cell(field, rest), ',') == [field] + fields && Without(Cell(field, rest), '\n')
  {
    hide Split;
    SplitCases(field, ',');
    SplitJoin(Cell(field, rest), field, ',', rest);
  }

  /** Behind the key a line has the seven printed fields. */
  lemma {:induction false} PrintedFields(r: NodeReputation, num: Numerals) returns (rest: string)
    requires CleanNumerals(num)
    ensures Line(r, num) == Cell(r.identityKey, rest) && Split(rest, ',') == Printed(r, num) && Without(rest, '\n')
  {
    hide Split, NatToString, Cell;
    var tasks, updated := NatToString(r.taskCount), NatToString(r.lastUpdatedMs);
    CleanDigits(r.taskCount);
    CleanDigits(r.lastUpdatedMs);
    SplitCases(updated, ',');
    CellFields(tasks, updated, [updated]);
    var c6, f6 := Cell(tasks, updated), [tasks] + [updated];
    CellFields(num.write(r.consistencyScore), c6, f6);
    var c5, f5 := Cell(num.write(r.consistencyScore), c6), [num.write(r.consistencyScore)] + f6;
    CellFields(num.write(r.latencyScore), c5, f5);
    var c4, f4 := Cell(num.write(r.latencyScore), c5), [num.write(r.latencyScore)] + f5;
    CellFields(num.write(r.grammarScore), c4, f4);
    var c3, f3 := Cell(num.write(r.grammarScore), c4), [num.write(r.grammarScore)] + f4;
    CellFields(num.write(r.mathScore), c3, f3);
    var c2, f2 := Cell(num.write(r.mathScore), c3), [num.write(r.mathScore)] + f3;
    CellFields(num.write(r.globalScore), c2, f2);
    rest := Cell(num.write(r.globalScore), c2);
    assert [num.write(r.globalScore)] + f2 == Printed(r, num);
  }

  /** A line reads back as what arrives of its record, whatever commas the key holds. */
  lemma {:induction false} ParseLineOfLine(r: NodeReputation, num: Numerals)
    requires CleanNumerals(num)
    ensures ParseLine(Line(r, num), num) == Received(r, num) && Line(r, num) != ""
    ensures Without(r.identityKey, '\n') ==> Without(Line(r, num), '\n')
  {
    hide Split, FromFields, ParseLine, Line, Printed;
    var rest := PrintedFields(r, num);
    SplitJoin(Line(r, num), r.identityKey, ',', rest);
    ParseLineOfFields(Line(r, num), num);
  }

  /** The line of a record, in full. */
  lemma LineIs(r: NodeReputation, num: Numerals)
    ensures Line(r, num) ==
            r.identityKey + "," + num.write(r.globalScore) + "," + num.write(r.mathScore) + ","
            + num.write(r.grammarScore) + "," + num.write(r.latencyScore) + "," + num.write(r.consistencyScore) + ","
            + NatToString(r.taskCount) + "," + NatToString(r.lastUpdatedMs)
  {
    hide NatToString;
    var updated := NatToString(r.lastUpdatedMs);
    var tasks := NatToString(r.taskCount) + "," + updated;
    var consistency := num.write(r.consistencyScore) + "," + tasks;
    var latency := num.write(r.latencyScore) + "," + consistency;
    var grammar := num.write(r.grammarScore) + "," + latency;
    var math := num.write(r.mathScore) + "," + grammar;
    assert Line(r, num) == r.identityKey + "," + (num.write(r.globalScore) + "," + math);
  }

  /** A line of eight parts or more: the key, five scores and two counts in this order, all readable. */
  lemma EightFields(line: string, num: Numerals)
    requires |Split(line, ',')| >= 8
    ensures var f := Split(line, ',');
            ParseLine(line, num) ==
            if num.read(f[1]).Some? && num.read(f[2]).Some? && num.read(f[3]).Some? && num.read(f[4]).Some?
               && num.read(f[5]).Some? && Stoull(f[6]).Some? && Stoull(f[7]).Some?
            then Some(NodeReputation(f[0], num.read(f[1]).value, num.read(f[2]).value, num.read(f[3]).value,
                                     num.read(f[4]).value, num.read(f[5]).value, Stoull(f[6]).value,
                                     Stoull(f[7]).value))
            else None
  {
    ParseLineOfFields(line, num);
    hide Split, Stoull, ParseLine;
  }

  lemma StoullOfPrinted(n: uint64)
    ensures Stoull(NatToString(n)) == Some(n)
  {
    hide Stoull, NatToString;
    StoullOfNatToString(n, "");
    assert NatToString(n) + "" == NatToString(n);
  }

  /** With a key free of commas the record itself arrives, its scores as their printed form reads back. */
  lemma {:induction false} ReceivedWithCleanKey(r: NodeReputation, num: Numerals)
    requires Without(r.identityKey, ',')
    ensures Received(r, num) ==
              Assemble(r.identityKey, num.read(num.write(r.globalScore)), num.read(num.write(r.mathScore)),
                       num.read(num.write(r.grammarScore)), num.read(num.write(r.latencyScore)),
                       num.read(num.write(r.consistencyScore)), Some(r.taskCount), Some(r.lastUpdatedMs))
  {
    hide Split, Stoull, NatToString, Assemble;
    SplitCases(r.identityKey, ',');
    StoullOfPrinted(r.taskCount);
    StoullOfPrinted(r.lastUpdatedMs);
  }

  /** With one comma the fields shift by one: the second half of the key is taken for a score, a score
      for the task count, and the task count for the time. */
  lemma {:induction false} ReceivedWithOneComma(name: string, suffix: string, r: NodeReputation, num: Numerals)
    requires Without(name, ',') && Without(suffix, ',') && r.identityKey == name + "," + suffix
    ensures Received(r, num) ==
              Assemble(name, num.read(suffix), num.read(num.write(r.globalScore)), num.read(num.write(r.mathScore)),
                       num.read(num.write(r.grammarScore)), num.read(num.write(r.latencyScore)),
                       Stoull(num.write(r.consistencyScore)), Some(r.taskCount))
  {
    hide Split, Stoull, NatToString, Assemble;
    SplitCases(name, ',');
    SplitCases(suffix, ',');
    SplitJoin(r.identityKey, name, ',', suffix);
    StoullOfPrinted(r.taskCount);
  }

  // ------------------------------------------------------------ exchanging

  /** Merging lines is merging the records they deliver. */
  lemma {:induction false} MergeLinesIsMergeAll(state: State, lines: seq<string>, num: Numerals)
    ensures MergeLines(state, lines, num) == MergeAll(state, Parsed(lines, num))
    decreases |lines|
  {
    hide ParseLine, Merge;
    if |lines| > 0 {
      MergeLinesIsMergeAll(MergeLine(state, lines[0], num), lines[1..], num);
      var first, rest := ParseLine(lines[0], num), Parsed(lines[1..], num);
      if lines[0] == "" || first.None? {
        assert [] + rest == rest;
      } else {
        assert ([first.value] + rest)[1..] == rest;
      }
    }
  }

  /** The line delivers nothing, or nothing newer. */
  predicate Harmless(state: State, line: string, num: Numerals) {
    line != "" && ParseLine(line, num).Some? ==> Stale(state, ParseLine(line, num).value)
  }

  lemma {:induction false} ParsedStale(state: State, lines: seq<string>, num: Numerals)
    ensures (forall r :: r in Parsed(lines, num) ==> Stale(state, r)) <==>
            (forall line :: line in lines ==> Harmless(state, line, num))
  {
    hide ParseLine, Stale;
    if |lines| > 0 {
      var first, tail := lines[0], Parsed(lines[1..], num);
      ParsedStale(state, lines[1..], num);
      assert forall r :: r in tail ==> r in Parsed(lines, num);
      assert Harmless(state, first, num) <==> forall r :: r in Parsed([first], num) ==> Stale(state, r) by {
        assert Parsed([first][1..], num) == [];
      }
      assert Parsed(lines, num) == Parsed([first], num) + tail by { assert Parsed([first][1..], num) == []; }
      assert forall line :: line in lines <==> line == first || line in lines[1..];
    }
  }

  /** Receiving any text changes nothing exactly when none of its lines delivers a newer record. */
  lemma TextChangesNothing(state: State, data: string, num: Numerals)
    ensures MergeLines(state, Lines(data), num) == state <==>
            forall line :: line in Lines(data) ==> Harmless(state, line, num)
  {
    MergeLinesIsMergeAll(state, Lines(data), num);
    StaleRecordsChangeNothing(state, Parsed(Lines(data), num));
    ParsedStale(state, Lines(data), num);
  }

  lemma {:induction false} LinesOfSerialized(sender: State, order: seq<string>, num: Numerals, line: string)
    requires forall k :: k in order ==> k in sender
    ensures line in Lines(Serialized(sender, order, num)) <==>
            exists k :: k in order && line in Split(Line(sender[k], num), '\n')
    decreases |order|
  {
    hide Line, Split;
    if |order| > 0 {
      var x, rest := Line(sender[order[0]], num), Serialized(sender, order[1..], num);
      LinesJoin(x + "\n" + rest, x, rest);
      LinesOfSerialized(sender, order[1..], num, line);
      assert forall k :: k in order <==> k == order[0] || k in order[1..];
    }
  }

  /** Receiving a serialized state changes nothing exactly when, for every entry, no part of its line
      between line breaks delivers a newer record. The keys may hold anything. */
  lemma SerializedChangesNothing(state: State, sender: State, order: seq<string>, num: Numerals)
    requires forall k :: k in order ==> k in sender
    ensures MergeLines(state, Lines(Serialized(sender, order, num)), num) == state <==>
            forall k, line :: k in order && line in Split(Line(sender[k], num), '\n') ==> Harmless(state, line, num)
  {
    hide Lines, Serialized, Line, Split, Harmless, MergeLines;
    TextChangesNothing(state, Serialized(sender, order, num), num);
    forall line
      ensures line in Lines(Serialized(sender, order, num)) <==>
              exists k :: k in order && line in Split(Line(sender[k], num), '\n')
    {
      LinesOfSerialized(sender, order, num, line);
    }
  }

  /** Sending a state as text delivers, in iteration order, the records as they arrive. */
  lemma {:induction false} DeserializeUndoesSerialize(state: State, sender: State, order: seq<string>, num: Numerals)
    requires CleanNumerals(num)
    requires forall k :: k in order ==> k in sender && sender[k].identityKey == k && Without(k, '\n')
    ensures MergeLines(state, Lines(Serialized(sender, order, num)), num)
            == MergeAll(state, ReceivedAll(sender, order, num))
    decreases |order|
  {
    hide Line, ParseLine, Received, Merge, Split;
    if |order| > 0 {
      assert order[0] in order;
      var r, rest := sender[order[0]], Serialized(sender, order[1..], num);
      var line := Line(r, num);
      ParseLineOfLine(r, num);
      LinesJoin(line + "\n" + rest, line, rest);
      SplitCases(line, '\n');
      assert Lines(line + "\n" + rest) == [line] + Lines(rest);
      var first := Received(r, num);
      var tail := ReceivedAll(sender, order[1..], num);
      if first.Some? {
        assert ([first.value] + tail)[1..] == tail;
      } else {
        assert [] + tail == tail;
      }
      DeserializeUndoesSerialize(MergeLine(state, line, num), sender, order[1..], num);
    }
  }

  lemma {:induction false} ReceivedElements(sender: State, order: seq<string>, num: Numerals, r: NodeReputation)
    requires forall k :: k in order ==> k in sender
    ensures r in ReceivedAll(sender, order, num) <==> exists k :: k in order && Received(sender[k], num) == Some(r)
  {
    hide Received;
    if |order| > 0 {
      ReceivedElements(sender, order[1..], num, r);
      assert forall k :: k in order <==> k == order[0] || k in order[1..];
    }
  }

  /** Merging back one's own serialized state, for keys free of line breaks: it changes nothing
      exactly when what arrives of each entry is unreadable, or stale under the key it arrives with. */
  lemma OwnStateExactly(state: State, order: seq<string>, num: Numerals)
    requires CleanNumerals(num)
    requires forall k :: k in order ==> k in state && state[k].identityKey == k && Without(k, '\n')
    ensures MergeLines(state, Lines(Serialized(state, order, num)), num) == state <==>
            forall k :: k in order && Received(state[k], num).Some? ==> Stale(state, Received(state[k], num).value)
  {
    hide Received, MergeLines, MergeAll, ReceivedAll, Stale;
    DeserializeUndoesSerialize(state, state, order, num);
    StaleRecordsChangeNothing(state, ReceivedAll(state, order, num));
    forall r
      ensures r in ReceivedAll(state, order, num) <==> exists k :: k in order && Received(state[k], num) == Some(r)
    {
      ReceivedElements(state, order, num, r);
    }
    forall k | k in order && Received(state[k], num).Some?
      ensures Received(state[k], num).value in ReceivedAll(state, order, num)
    {
      assert Received(state[k], num) == Some(Received(state[k], num).value);
    }
  }

  /** In particular it changes nothing when the keys are free of commas, too, even though the scores
      lose digits on the way. */
  lemma OwnStateChangesNothing(state: State, order: seq<string>, num: Numerals)
    requires CleanNumerals(num)
    requires forall k :: k in order ==> k in state && state[k].identityKey == k && Clean(k)
    ensures MergeLines(state, Lines(Serialized(state, order, num)), num) == state
  {
    hide Received, MergeLines, Lines, Serialized;
    OwnStateExactly(state, order, num);
    forall k | k in order && Received(state[k], num).Some?
      ensures Stale(state, Received(state[k], num).value)
    {
      ReceivedWithCleanKey(state[k], num);
    }
  }

  /** An entry whose key holds one comma does no harm exactly when its second half is no number, a
      score does not read back or is no count, or a record under the first half is already held
      whose time is at least the entry's task count. */
  predicate CommaHarmless(state: State, name: string, suffix: string, r: NodeReputation, num: Numerals) {
    || num.read(suffix).None? || Stoull(num.write(r.consistencyScore)).None?
    || num.read(num.write(r.globalScore)).None? || num.read(num.write(r.mathScore)).None?
    || num.read(num.write(r.grammarScore)).None? || num.read(num.write(r.latencyScore)).None?
    || (name in state && r.taskCount <= state[name].lastUpdatedMs)
  }

  /** Keys with a comma, exactly: a state with one key `name,suffix` among clean keys is changed by its
      own text if and only if that entry does harm. What it then does is to add an entry under `name`
      or to overwrite the one there. */
  lemma CommaInKeyExactly(state: State, order: seq<string>, name: string, suffix: string, num: Numerals)
    requires CleanNumerals(num) && Clean(name) && Clean(suffix) && name + "," + suffix in order
    requires forall k :: k in order ==> k in state && state[k].identityKey == k
    requires forall k :: k in order && k != name + "," + suffix ==> Clean(k)
    ensures MergeLines(state, Lines(Serialized(state, order, num)), num) == state <==>
            CommaHarmless(state, name, suffix, state[name + "," + suffix], num)
  {
    hide Received, MergeLines, Lines, Serialized, Stoull;
    var key := name + "," + suffix;
    OwnStateExactly(state, order, num);
    ReceivedWithOneComma(name, suffix, state[key], num);
    forall k | k in order && k != key && Received(state[k], num).Some?
      ensures Stale(state, Received(state[k], num).value)
    {
      ReceivedWithCleanKey(state[k], num);
    }
  }

  /** When that entry does harm, afterwards the key's first half holds a record at least as late as the
      entry's task count: added if there was none, replacing an older one otherwise. */
  lemma CommaInKeyAddsEntry(state: State, order: seq<string>, name: string, suffix: string, num: Numerals)
    requires CleanNumerals(num) && Clean(name) && Clean(suffix) && name + "," + suffix in order
    requires forall k :: k in order ==> k in state && state[k].identityKey == k && Without(k, '\n')
    requires !CommaHarmless(state, name, suffix, state[name + "," + suffix], num)
    ensures var after := MergeLines(state, Lines(Serialized(state, order, num)), num);
            && name in after && after[name].lastUpdatedMs >= state[name + "," + suffix].taskCount
            && (name in state ==> after[name].lastUpdatedMs > state[name].lastUpdatedMs)
  {
    hide Received, MergeLines, Lines, Serialized, Stoull, ReceivedAll, MergeAll;
    var r := state[name + "," + suffix];
    ReceivedWithOneComma(name, suffix, r, num);
    DeserializeUndoesSerialize(state, state, order, num);
    ReceivedElements(state, order, num, Received(r, num).value);
    MergedIsStale(state, ReceivedAll(state, order, num));
  }

  /** Such states exist: one entry under the key `a,1`, all scores printed as 1, seven counted runs. */
  lemma {:induction false} CommaDoesHarm(num: Numerals)
    requires CleanNumerals(num) && num.write(1.0) == "1" && num.read("1").Some?
    ensures var key := "a,1";
            var r := NodeReputation(key, 1.0, 1.0, 1.0, 1.0, 1.0, 7, 9);
            var own := map[key := r];
            && !CommaHarmless(own, "a", "1", r, num)
            && MergeLines(own, Lines(Serialized(own, [key], num)), num) != own
  {
    hide MergeLines, Lines, Serialized, Stoull, NatToString;
    var key := "a" + "," + "1";
    var own := map[key := NodeReputation(key, 1.0, 1.0, 1.0, 1.0, 1.0, 7, 9)];
    assert key == "a,1" && |key| == 3;
    StoullOfPrinted(1);
    assert NatToString(1) == "1" by { OneInDecimal(); }
    CommaInKeyExactly(own, [key], "a", "1", num);
  }

  lemma OneInDecimal()
    ensures NatToString(1) == "1"
  {
  }

  // ---------------------------------------------------------------- the store

  /** std::istringstream over one line, read field by field. */
  class LineReader {
    var stream: Stream

    constructor (line: string)
      ensures stream == Stream(Some(line), "")
    {
      stream := Stream(Some(line), "");
    }

    method Read() returns (token: string)
      modifies this
      ensures stream == Next(old(stream)) && token == stream.token
    {
      if stream.rest.Some? {
        var line := stream.rest.value;
        var comma := FindFirstOf(line, {','}, 0);
        if comma.Some? {
          stream := Stream(Some(line[comma.value + 1..]), line[..comma.value]);
        } else {
          stream := Stream(None, line);
        }
      }
      token := stream.token;
    }
  }

  method ReadRecord(line: string, num: Numerals) returns (r: Option<NodeReputation>)
    ensures r == ParseLine(line, num)
  {
    hide Next, Stoull;
    var ls := new LineReader(line);
    var key := ls.Read();
    var token := ls.Read();
    var global := num.read(token);
    if global.None? { return None; }
    token := ls.Read();
    var math := num.read(token);
    if math.None? { return None; }
    token := ls.Read();
    var grammar := num.read(token);
    if grammar.None? { return None; }
    token := ls.Read();
    var latency := num.read(token);
    if latency.None? { return None; }
    token := ls.Read();
    var consistency := num.read(token);
    if consistency.None? { return None; }
    token := ls.Read();
    var tasks := Stoull(token);
    if tasks.None? { return None; }
    token := ls.Read();
    var updated := Stoull(token);
    if updated.None? { return None; }
    r := Some(NodeReputation(key, global.value, math.value, grammar.value, latency.value, consistency.value,
                             tasks.value, updated.value));
  }

  class Store {
    var state: State

    ghost predicate Valid()
      reads this
    {
      forall k :: k in state ==> state[k].identityKey == k
    }

    constructor ()
      ensures Valid() && state == Replica([])
    {
      state := map[];
    }

    method MergeRecord(remote: NodeReputation)
      requires Valid()
      modifies this
      ensures Valid() && state == Merge(old(state), remote)
    {
      if remote.identityKey !in state {
        state := state[remote.identityKey := remote];
        return;
      }
      var local := state[remote.identityKey];
      if remote.lastUpdatedMs > local.lastUpdatedMs {
        state := state[remote.identityKey := remote];
      }
    }

    /** The loop takes the entries in any order, as a hash table would. */
    method Serialize(num: Numerals) returns (text: string)
      requires Valid()
      ensures exists order :: Enumerates(order, state) && text == Serialized(state, order, num)
    {
      hide Line;
      text := "";
      ghost var order: seq<string> := [];
      var left := state.Keys;
      while left != {}
        invariant forall k :: k in order <==> k in state && k !in left
        invariant left <= state.Keys
        invariant forall i, j :: 0 <= i < j < |order| ==> order[i] != order[j]
        invariant text == Serialized(state, order, num)
        decreases |left|
      {
        var k :| k in left;
        SerializedAppend(state, order, k, num);
        text := text + Line(state[k], num) + "\n";
        left := left - {k};
        order := order + [k];
      }
      assert Enumerates(order, state);
    }

    method DeserializeAndMerge(data: string, num: Numerals)
      requires Valid()
      modifies this
      ensures Valid() && state == MergeLines(old(state), Lines(data), num)
    {
      hide ParseLine, Merge;
      var rest := data;
      while rest != ""
        invariant Valid()
        invariant MergeLines(old(state), Lines(data), num) == MergeLines(state, Lines(rest), num)
        decreases |rest|
      {
        var newline := FindFirstOf(rest, {'\n'}, 0);
        var line := if newline.None? then rest else rest[..newline.value];
        var after := if newline.None? then "" else rest[newline.value + 1..];
        assert Lines(rest) == [line] + Lines(after);
        assert MergeLines(state, Lines(rest), num) == MergeLines(MergeLine(state, line, num), Lines(after), num);
        rest := after;
        if line == "" { continue; }
        var r := ReadRecord(line, num);
        if r.Some? { MergeRecord(r.value); }
      }
    }
  }

  lemma {:induction false} SerializedAppend(state: State, order: seq<string>, k: string, num: Numerals)
    requires k in state && forall q :: q in order ==> q in state
    ensures Serialized(state, order + [k], num) == Serialized(state, order, num) + Line(state[k], num) + "\n"
    decreases |order|
  {
    hide Line;
    if |order| == 0 {
      assert order + [k] == [k] && Serialized(state, [k][1..], num) == "";
    } else {
      SerializedAppend(state, order[1..], k, num);
      assert (order + [k])[1..] == order[1..] + [k];
    }
  }
}
