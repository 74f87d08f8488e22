/**
 Building the socket / core / virtual-core topology from /proc/cpuinfo: collect the allowed
 processors, sort them, and start a new socket or core whenever an id changes.
 */
module CpuTopology {
  import opened Options
  import opened ThreadPlacement

  datatype Entry = Entry(physicalId: int, coreId: int, processor: int)

  const NO_ENTRY: Entry := Entry(-1, -1, -1)

  /** A line of cpuinfo; `None` for a value that does not parse. */
  datatype Line =
    | Processor(value: Option<int>)
    | PhysicalId(value: Option<int>)
    | CoreId(value: Option<int>)
    | Other

  // ----- collecting -----

  /** What the lines from here on contribute, with `cur` filled in so far; `None` for ill-formed input. */
  function Collected(lines: seq<Line>, cur: Entry, available: set<int>): Option<seq<Entry>> {
    if lines == [] then Some([])
    else
      var rest := lines[1..];
      match lines[0]
      case Other => Collected(rest, cur, available)
      case Processor(v) => if v.None? then None else Collected(rest, cur.(processor := v.value), available)
      case PhysicalId(v) => if v.None? then None else Collected(rest, cur.(physicalId := v.value), available)
      case CoreId(v) =>
        if v.None? then None
        else
          var e := cur.(coreId := v.value);
          if e.physicalId < 0 || e.coreId < 0 || e.processor < 0 then None
          else if e.processor in available then
            var more := Collected(rest, NO_ENTRY, available);
            if more.None? then None else Some([e] + more.value)
          else Collected(rest, e, available)
  }

  method Collect(lines: seq<Line>, available: set<int>) returns (r: Option<seq<Entry>>)
    ensures r == Collected(lines, NO_ENTRY, available)
  {
    var entries, cur := [], NO_ENTRY;
    assert lines[0..] == lines;
    ghost var all := Collected(lines, NO_ENTRY, available);
    if all.Some? {
      assert [] + all.value == all.value;
    }
    for i := 0 to |lines|
      invariant Collected(lines, NO_ENTRY, available) ==
                var more := Collected(lines[i..], cur, available);
                if more.None? then None else Some(entries + more.value)
    {
      assert lines[i..][1..] == lines[i + 1..];
      match lines[i]
      case Other =>
      case Processor(v) =>
        if v.None? {
          return None;
        }
        cur := cur.(processor := v.value);
      case PhysicalId(v) =>
        if v.None? {
          return None;
        }
        cur := cur.(physicalId := v.value);
      case CoreId(v) =>
        if v.None? {
          return None;
        }
        cur := cur.(coreId := v.value);
        if cur.physicalId < 0 || cur.coreId < 0 || cur.processor < 0 {
          return None;
        }
        if cur.processor in available {
          ghost var more := Collected(lines[i + 1..], NO_ENTRY, available);
          if more.Some? {
            assert entries + ([cur] + more.value) == (entries + [cur]) + more.value;
          }
          entries := entries + [cur];
          cur := NO_ENTRY;
        }
    }
    assert entries + [] == entries;
    r := Some(entries);
  }

  /** The lines that matter, of one record after the other. */
  function RecordLines(records: seq<Entry>): seq<Line> {
    if records == [] then []
    else
      [Processor(Some(records[0].processor)), PhysicalId(Some(records[0].physicalId)), CoreId(Some(records[0].coreId))]
      + RecordLines(records[1..])
  }

  function Stripped(lines: seq<Line>): seq<Line> {
    if lines == [] then []
    else if lines[0].Other? then Stripped(lines[1..]) else [lines[0]] + Stripped(lines[1..])
  }

  /** Every record lists its processor, its socket and then its core, all non-negative. */
  predicate WellFormed(lines: seq<Line>, records: seq<Entry>) {
    && Stripped(lines) == RecordLines(records)
    && forall r <- records :: r.physicalId >= 0 && r.coreId >= 0 && r.processor >= 0
  }

  function Allowed(records: seq<Entry>, available: set<int>): seq<Entry> {
    if records == [] then []
    else (if records[0].processor in available then [records[0]] else []) + Allowed(records[1..], available)
  }

  lemma {:induction false} OtherLinesDoNotMatter(lines: seq<Line>, cur: Entry, available: set<int>)
    ensures Collected(Stripped(lines), cur, available) == Collected(lines, cur, available)
    decreases |lines|
  {
    if lines != [] {
      var rest := lines[1..];
      if !lines[0].Other? {
        assert Stripped(lines)[1..] == Stripped(rest);
      }
      match lines[0]
      case Other => OtherLinesDoNotMatter(rest, cur, available);
      case Processor(v) => if v.Some? { OtherLinesDoNotMatter(rest, cur.(processor := v.value), available); }
      case PhysicalId(v) => if v.Some? { OtherLinesDoNotMatter(rest, cur.(physicalId := v.value), available); }
      case CoreId(v) =>
        if v.Some? {
          OtherLinesDoNotMatter(rest, cur.(coreId := v.value), available);
          OtherLinesDoNotMatter(rest, NO_ENTRY, available);
        }
    }
  }

  /** Well-formed cpuinfo yields the allowed records, even though an excluded one is left in place. */
  lemma {:induction false} CollectsAllowed(records: seq<Entry>, cur: Entry, available: set<int>)
    requires forall r <- records :: r.physicalId >= 0 && r.coreId >= 0 && r.processor >= 0
    ensures Collected(RecordLines(records), cur, available) == Some(Allowed(records, available))
    decreases |records|
  {
    if records != [] {
      var r, lines, more := records[0], RecordLines(records), RecordLines(records[1..]);
      assert r in records;
      assert lines[1..] == [PhysicalId(Some(r.physicalId)), CoreId(Some(r.coreId))] + more;
      assert lines[1..][1..] == [CoreId(Some(r.coreId))] + more && lines[1..][1..][1..] == more;
      var c1 := cur.(processor := r.processor);
      var c2 := c1.(physicalId := r.physicalId);
      assert Collected(lines, cur, available) == Collected(lines[1..], c1, available);
      assert Collected(lines[1..], c1, available) == Collected(lines[1..][1..], c2, available);
      assert c2.(coreId := r.coreId) == r;
      assert [] + Allowed(records[1..], available) == Allowed(records[1..], available);
      CollectsAllowed(records[1..], NO_ENTRY, available);
      CollectsAllowed(records[1..], r, available);
    }
  }

  // ----- what an excluded processor leaves behind -----

  /** A strict reader, which forgets the record after every core id. */
  function StrictCollected(lines: seq<Line>, cur: Entry, available: set<int>): Option<seq<Entry>> {
    if lines == [] then Some([])
    else
      var rest := lines[1..];
      match lines[0]
      case Other => StrictCollected(rest, cur, available)
      case Processor(v) => if v.None? then None else StrictCollected(rest, cur.(processor := v.value), available)
      case PhysicalId(v) => if v.None? then None else StrictCollected(rest, cur.(physicalId := v.value), available)
      case CoreId(v) =>
        var more := StrictCollected(rest, NO_ENTRY, available);
        if v.None? || cur.physicalId < 0 || v.value < 0 || cur.processor < 0 || more.None? then None
        else Some((if cur.processor in available then [cur.(coreId := v.value)] else []) + more.value)
  }

  /** Every core id has a processor and a physical id of its own, in either order, since the core id before it. */
  predicate OwnLines(lines: seq<Line>, hasProcessor: bool, hasSocket: bool) {
    if lines == [] then true
    else
      match lines[0]
      case Other => OwnLines(lines[1..], hasProcessor, hasSocket)
      case Processor(_) => OwnLines(lines[1..], true, hasSocket)
      case PhysicalId(_) => OwnLines(lines[1..], hasProcessor, true)
      case CoreId(_) => hasProcessor && hasSocket && OwnLines(lines[1..], false, false)
  }

  /** The records agree on the fields seen since the last core id, and the strict reader's has no others. */
  predicate SeenSince(cur: Entry, strict: Entry, hasProcessor: bool, hasSocket: bool) {
    && (if hasProcessor then strict.processor == cur.processor else strict.processor < 0)
    && (if hasSocket then strict.physicalId == cur.physicalId else strict.physicalId < 0)
  }

  lemma {:induction false} LingeringFields(lines: seq<Line>, cur: Entry, strict: Entry,
                                           hasProcessor: bool, hasSocket: bool, available: set<int>)
    requires SeenSince(cur, strict, hasProcessor, hasSocket)
    ensures var r := Collected(lines, cur, available);
            if r.None? then StrictCollected(lines, strict, available) == None
            else r == StrictCollected(lines, strict, available) <==> OwnLines(lines, hasProcessor, hasSocket)
    decreases |lines|
  {
    if lines != [] {
      var rest := lines[1..];
      match lines[0]
      case Other => LingeringFields(rest, cur, strict, hasProcessor, hasSocket, available);
      case Processor(v) =>
        if v.Some? {
          LingeringFields(rest, cur.(processor := v.value), strict.(processor := v.value), true, hasSocket, available);
        }
      case PhysicalId(v) =>
        if v.Some? {
          LingeringFields(rest, cur.(physicalId := v.value), strict.(physicalId := v.value),
                          hasProcessor, true, available);
        }
      case CoreId(v) =>
        if v.Some? {
          var e := cur.(coreId := v.value);
          var next := if e.processor in available then NO_ENTRY else e;
          LingeringFields(rest, next, NO_ENTRY, false, false, available);
          LastField(lines, cur, strict, hasProcessor, hasSocket, available);
        }
    }
  }

  /** The step at a core id, given what holds of the lines after it. */
  lemma LastField(lines: seq<Line>, cur: Entry, strict: Entry, hasProcessor: bool, hasSocket: bool, available: set<int>)
    requires SeenSince(cur, strict, hasProcessor, hasSocket) && lines != [] && lines[0].CoreId? && lines[0].value.Some?
    requires var e := cur.(coreId := lines[0].value.value);
             var more := Collected(lines[1..], if e.processor in available then NO_ENTRY else e, available);
             if more.None? then StrictCollected(lines[1..], NO_ENTRY, available) == None
             else more == StrictCollected(lines[1..], NO_ENTRY, available) <==> OwnLines(lines[1..], false, false)
    ensures var r := Collected(lines, cur, available);
            if r.None? then StrictCollected(lines, strict, available) == None
            else r == StrictCollected(lines, strict, available) <==> OwnLines(lines, hasProcessor, hasSocket)
  {
    var rest, e := lines[1..], cur.(coreId := lines[0].value.value);
    var more := Collected(rest, if e.processor in available then NO_ENTRY else e, available);
    var strictly := StrictCollected(rest, NO_ENTRY, available);
    if hasProcessor && hasSocket && more.Some? && strictly.Some? {
      assert strict.(coreId := lines[0].value.value) == e;
      assert ([e] + more.value)[1..] == more.value && ([e] + strictly.value)[1..] == strictly.value;
      assert [] + strictly.value == strictly.value;
    }
  }

  /**
   The code agrees with the strict reader on a text if and only if it rejects the text or every core id has its
   own processor and physical id: exactly then no field of an excluded processor is taken over.
   */
  lemma ReadsStrictlyIff(lines: seq<Line>, available: set<int>)
    ensures Collected(lines, NO_ENTRY, available) == StrictCollected(lines, NO_ENTRY, available) <==>
            Collected(lines, NO_ENTRY, available).None? || OwnLines(lines, false, false)
  {
    LingeringFields(lines, NO_ENTRY, NO_ENTRY, false, false, available);
  }

  /**
   On text that is not well formed the reader can be misled: a processor outside the affinity set leaves
   its socket behind, and the next record takes it over instead of being refused for having none.
   */
  lemma ExcludedRecordLeavesItsSocket()
    ensures var lines :=
              [Processor(Some(0)), PhysicalId(Some(7)), CoreId(Some(0)), Processor(Some(1)), CoreId(Some(3))];
            && Collected(lines, NO_ENTRY, {1}) == Some([Entry(7, 3, 1)])
            && Collected(lines[3..], NO_ENTRY, {1}) == None
  {
    var rest := [Processor(Some(1)), CoreId(Some(3))];
    var lines := [Processor(Some(0)), PhysicalId(Some(7)), CoreId(Some(0))] + rest;
    assert lines == [Processor(Some(0)), PhysicalId(Some(7)), CoreId(Some(0)), Processor(Some(1)), CoreId(Some(3))];
    assert rest[1..] == [CoreId(Some(3))] && [CoreId(Some(3))][1..] == [];
    assert lines[1..][1..][1..] == rest && lines[3..] == rest;
    assert Collected([], NO_ENTRY, {1}) == Some([]);
    assert Collected(rest, Entry(7, 0, 0), {1}) == Collected([CoreId(Some(3))], Entry(7, 0, 1), {1});
    assert Collected([CoreId(Some(3))], Entry(7, 0, 1), {1}) == Some([Entry(7, 3, 1)] + []);
    assert [Entry(7, 3, 1)] + [] == [Entry(7, 3, 1)];
    assert Collected(lines, NO_ENTRY, {1}) == Collected(lines[1..], Entry(-1, -1, 0), {1});
    assert Collected(lines[1..], Entry(-1, -1, 0), {1}) == Collected(lines[1..][1..], Entry(7, -1, 0), {1});
    assert Collected(lines[1..][1..], Entry(7, -1, 0), {1}) == Collected(rest, Entry(7, 0, 0), {1});
  }

  // ----- sorting -----

  /** Lexicographic: socket, then core, then processor. */
  predicate AtMost(a: Entry, b: Entry) {
    || a.physicalId < b.physicalId
    || (a.physicalId == b.physicalId
        && (a.coreId < b.coreId || (a.coreId == b.coreId && a.processor <= b.processor)))
  }

  predicate Sorted(s: seq<Entry>) {
    forall i, j :: 0 <= i < j < |s| ==> AtMost(s[i], s[j])
  }

  /** The library sort: the one sorted arrangement of the entries. */
  method Sort(entries: seq<Entry>) returns (r: seq<Entry>)
    ensures Sorted(r) && multiset(r) == multiset(entries)
  {
    r := [];
    for i := 0 to |entries|
      invariant Sorted(r) && multiset(r) == multiset(entries[..i])
    {
      assert entries[..i + 1] == entries[..i] + [entries[i]];
      r := Insert(r, entries[i]);
    }
    assert entries[..|entries|] == entries;
  }

  method Insert(s: seq<Entry>, e: Entry) returns (r: seq<Entry>)
    requires Sorted(s)
    ensures Sorted(r) && multiset(r) == multiset(s) + multiset{e}
  {
    var k := 0;
    while k < |s| && AtMost(s[k], e)
      invariant 0 <= k <= |s| && forall i :: 0 <= i < k ==> AtMost(s[i], e)
    {
      k := k + 1;
    }
    r := s[..k] + [e] + s[k..];
    assert s == s[..k] + s[k..];
    InsertedIsSorted(s, k, e);
  }

  lemma InsertedIsSorted(s: seq<Entry>, k: nat, e: Entry)
    requires Sorted(s) && k <= |s| && (forall i :: 0 <= i < k ==> AtMost(s[i], e))
    requires k < |s| ==> !AtMost(s[k], e)
    ensures Sorted(s[..k] + [e] + s[k..])
  {
    var r := s[..k] + [e] + s[k..];
    forall i, j | 0 <= i < j < |r|
      ensures AtMost(r[i], r[j])
    {
      var a := if i < k then s[i] else if i == k then e else s[i - 1];
      var b := if j < k then s[j] else if j == k then e else s[j - 1];
      assert r[i] == a && r[j] == b;
      if i == k && j > k + 1 {
        assert AtMost(s[k], s[j - 1]);
      }
    }
  }

  // ----- grouping -----

  type CoreGroup = seq<Entry>
  type SocketGroup = seq<CoreGroup>

  function FlatSocket(s: SocketGroup): seq<Entry> {
    if s == [] then [] else FlatSocket(s[..|s| - 1]) + s[|s| - 1]
  }

  function Flat(groups: seq<SocketGroup>): seq<Entry> {
    if groups == [] then [] else Flat(groups[..|groups| - 1]) + FlatSocket(groups[|groups| - 1])
  }

  /** All entries of a core share its ids. */
  predicate IsCore(c: CoreGroup, socket: int, core: int) {
    c != [] && forall e <- c :: e.physicalId == socket && e.coreId == core
  }

  /** A socket of cores with increasing ids. */
  predicate IsSocket(s: SocketGroup, socket: int) {
    && s != []
    && (forall i :: 0 <= i < |s| ==> s[i] != [] && IsCore(s[i], socket, s[i][0].coreId))
    && (forall i, j :: 0 <= i < j < |s| ==> s[i][0].coreId < s[j][0].coreId)
  }

  predicate Headed(s: SocketGroup) { s != [] && s[0] != [] }

  function SocketId(s: SocketGroup): int
    requires Headed(s)
  {
    s[0][0].physicalId
  }

  /** Sockets with increasing ids: one group for every id, one core for every pair of ids. */
  predicate IsGrouping(groups: seq<SocketGroup>) {
    && (forall i :: 0 <= i < |groups| ==> Headed(groups[i]) && IsSocket(groups[i], SocketId(groups[i])))
    && (forall i, j :: 0 <= i < j < |groups| ==> SocketId(groups[i]) < SocketId(groups[j]))
  }

  function Processors(c: CoreGroup): seq<int> { seq(|c|, i requires 0 <= i < |c| => c[i].processor) }

  function SocketShape(s: SocketGroup): seq<seq<int>> { seq(|s|, i requires 0 <= i < |s| => Processors(s[i])) }

  /** The topology that is returned: the groups, with only processor numbers left. */
  function Shape(groups: seq<SocketGroup>): seq<seq<seq<int>>> {
    seq(|groups|, i requires 0 <= i < |groups| => SocketShape(groups[i]))
  }

  /** The last entry of a grouping. */
  predicate EndsWith(groups: seq<SocketGroup>, e: Entry) {
    && groups != [] && groups[|groups| - 1] != [] && groups[|groups| - 1][|groups[|groups| - 1]| - 1] != []
    && var core := groups[|groups| - 1][|groups[|groups| - 1]| - 1]; core[|core| - 1] == e
  }

  /** Where the next entry goes. */
  function Extend(groups: seq<SocketGroup>, prev: Entry, e: Entry): seq<SocketGroup> {
    if e.physicalId != prev.physicalId || groups == [] || groups[|groups| - 1] == [] then groups + [[[e]]]
    else
      var last := |groups| - 1;
      var socket := groups[last];
      if e.coreId != prev.coreId then groups[last := socket + [[e]]]
      else groups[last := socket[|socket| - 1 := socket[|socket| - 1] + [e]]]
  }

  lemma FlatLast(groups: seq<SocketGroup>, s: SocketGroup)
    ensures Flat(groups + [s]) == Flat(groups) + FlatSocket(s)
  {
    assert (groups + [s])[..|groups|] == groups;
  }

  lemma FlatSocketLast(s: SocketGroup, c: CoreGroup)
    ensures FlatSocket(s + [c]) == FlatSocket(s) + c
  {
    assert (s + [c])[..|s|] == s;
  }

  /** Extending a grouping appends the entry to its flattening. */
  lemma ExtendAppends(groups: seq<SocketGroup>, prev: Entry, e: Entry)
    requires groups == [] || EndsWith(groups, prev)
    ensures Flat(Extend(groups, prev, e)) == Flat(groups) + [e] && EndsWith(Extend(groups, prev, e), e)
  {
    hide Flat, FlatSocket;
    if groups == [] || e.physicalId != prev.physicalId {
      FlatLast(groups, [[e]]);
      FlatSocketLast([], [e]);
      assert [] + [[e]] == [[e]];
      FlatOfNothing();
    } else {
      var front, socket := groups[..|groups| - 1], groups[|groups| - 1];
      assert groups == front + [socket];
      FlatLast(front, socket);
      if e.coreId != prev.coreId {
        assert Extend(groups, prev, e) == front + [socket + [[e]]];
        FlatLast(front, socket + [[e]]);
        FlatSocketLast(socket, [e]);
      } else {
        var cores, core := socket[..|socket| - 1], socket[|socket| - 1];
        assert socket == cores + [core];
        FlatSocketLast(cores, core);
        FlatSocketLast(cores, core + [e]);
        assert socket[|socket| - 1 := core + [e]] == cores + [core + [e]];
        assert Extend(groups, prev, e) == front + [cores + [core + [e]]];
        FlatLast(front, cores + [core + [e]]);
      }
    }
  }

  lemma FlatOfNothing()
    ensures Flat([]) == [] && FlatSocket([]) == []
  {
  }

  /** Extending by an entry no smaller than the last keeps the grouping. */
  lemma ExtendKeepsGrouping(groups: seq<SocketGroup>, prev: Entry, e: Entry)
    requires IsGrouping(groups) && (groups == [] || (EndsWith(groups, prev) && AtMost(prev, e)))
    ensures IsGrouping(Extend(groups, prev, e))
  {
    if groups != [] {
      var last := |groups| - 1;
      var socket := groups[last];
      assert Headed(socket) && IsSocket(socket, SocketId(socket));
      var core := socket[|socket| - 1];
      assert IsCore(core, SocketId(socket), core[0].coreId);
      assert prev in core;
      if e.physicalId == prev.physicalId {
        if e.coreId != prev.coreId {
          NewCore(socket, SocketId(socket), e);
        } else {
          GrownCore(socket, SocketId(socket), e);
        }
      }
    }
  }

  lemma NewCore(s: SocketGroup, socket: int, e: Entry)
    requires IsSocket(s, socket) && e.physicalId == socket && s[|s| - 1][0].coreId < e.coreId
    ensures IsSocket(s + [[e]], socket)
  {
  }

  lemma GrownCore(s: SocketGroup, socket: int, e: Entry)
    requires IsSocket(s, socket) && e.physicalId == socket && s[|s| - 1][0].coreId == e.coreId
    ensures IsSocket(s[|s| - 1 := s[|s| - 1] + [e]], socket)
  {
    var last := |s| - 1;
    var s': SocketGroup := s[last := s[last] + [e]];
    assert forall i :: 0 <= i < |s| ==> s'[i] != [] && s'[i][0] == s[i][0];
    assert IsCore(s'[last], socket, s'[last][0].coreId);
  }

  /** Start a socket or a core whenever an id changes; the result is the processors, grouped. */
  method Build(entries: seq<Entry>) returns (sockets: seq<seq<seq<int>>>, ghost groups: seq<SocketGroup>)
    requires Sorted(entries) && forall e <- entries :: e.physicalId >= 0
    ensures sockets == Shape(groups) && IsGrouping(groups) && Flat(groups) == entries
  {
    hide IsGrouping, Flat, EndsWith;
    sockets, groups := [], [];
    var prev := NO_ENTRY;
    EmptyGrouping();
    for i := 0 to |entries|
      invariant sockets == Shape(groups) && IsGrouping(groups) && Flat(groups) == entries[..i]
      invariant groups == [] <==> i == 0
      invariant if i == 0 then prev == NO_ENTRY else prev == entries[i - 1] && EndsWith(groups, prev)
    {
      var e := entries[i];
      assert e in entries;
      if i > 0 {
        assert AtMost(entries[i - 1], entries[i]);
      }
      ExtendAppends(groups, prev, e);
      ExtendKeepsGrouping(groups, prev, e);
      sockets := Place(sockets, prev, e, groups);
      groups := Extend(groups, prev, e);
      prev := e;
      assert entries[..i + 1] == entries[..i] + [e];
      ExtendNonEmpty(groups, e);
    }
    assert entries[..|entries|] == entries;
  }

  lemma ExtendNonEmpty(groups: seq<SocketGroup>, e: Entry)
    requires EndsWith(groups, e)
    ensures groups != []
  {
  }

  lemma EmptyGrouping()
    ensures IsGrouping([]) && Flat([]) == [] && Shape([]) == []
  {
  }

  /** One turn of the building loop on the processors alone. */
  method Place(sockets: seq<seq<seq<int>>>, prev: Entry, e: Entry, ghost groups: seq<SocketGroup>)
      returns (r: seq<seq<seq<int>>>)
    requires sockets == Shape(groups) && e.physicalId >= 0
    requires if groups == [] then prev == NO_ENTRY else EndsWith(groups, prev)
    ensures r == Shape(Extend(groups, prev, e))
  {
    r := sockets;
    if e.physicalId != prev.physicalId {
      r := r + [[]];
    }
    var s := |r| - 1;
    if e.physicalId != prev.physicalId || e.coreId != prev.coreId {
      r := r[s := r[s] + [[]]];
    }
    var c := |r[s]| - 1;
    r := r[s := r[s][c := r[s][c] + [e.processor]]];
    PlacedShape(sockets, prev, e, groups, r);
  }

  lemma PlacedShape(sockets: seq<seq<seq<int>>>, prev: Entry, e: Entry, groups: seq<SocketGroup>, r: seq<seq<seq<int>>>)
    requires sockets == Shape(groups)
    requires if groups == [] then e.physicalId != prev.physicalId else EndsWith(groups, prev)
    requires
      var begun := if e.physicalId != prev.physicalId then sockets + [[]] else sockets;
      && begun != []
      && var s := |begun| - 1;
         var cores := if e.physicalId != prev.physicalId || e.coreId != prev.coreId then begun[s] + [[]] else begun[s];
         && cores != []
         && var c := |cores| - 1;
            r == begun[s := cores[c := cores[c] + [e.processor]]]
    ensures r == Shape(Extend(groups, prev, e))
  {
    hide Shape, SocketShape, Processors;
    if groups == [] || e.physicalId != prev.physicalId {
      ShapeOfNew(groups, [[e]]);
      SocketShapeOfNew([], [e]);
      ProcessorsOfNew([], e);
      EmptyShapes();
      assert [] + [[e]] == [[e]] && [] + [e] == [e];
      var none: seq<seq<int>>, no: seq<int> := [], [];
      assert no + [e.processor] == [e.processor];
      assert none + [[e.processor]] == [[e.processor]];
      assert SocketShape([[e]]) == [[e.processor]];
      NewSocketWrite(sockets, e.processor);
    } else {
      var last := |groups| - 1;
      var socket := groups[last];
      ShapeAt(groups, last);
      if e.coreId != prev.coreId {
        ShapeUpdated(groups, last, socket + [[e]]);
        SocketShapeOfNew(socket, [e]);
        ProcessorsOfNew([], e);
        EmptyShapes();
        assert [] + [e] == [e];
        var no: seq<int> := [];
        assert no + [e.processor] == [e.processor] && Processors([e]) == [e.processor];
        NewCoreWrite(SocketShape(socket), e.processor);
      } else {
        var c := |socket| - 1;
        SocketShapeAt(socket, c);
        var core := socket[c] + [e];
        ShapeUpdated(groups, last, socket[c := core]);
        SocketShapeUpdated(socket, c, core);
        ProcessorsOfNew(socket[c], e);
      }
    }
  }

  lemma NewSocketWrite(sockets: seq<seq<seq<int>>>, p: int)
    ensures var begun: seq<seq<seq<int>>> := sockets + [[]];
            var cores: seq<seq<int>> := begun[|sockets|] + [[]];
            && |cores| == 1
            && begun[|sockets| := cores[0 := cores[0] + [p]]] == sockets + [[[p]]]
  {
    var begun: seq<seq<seq<int>>> := sockets + [[]];
    var cores: seq<seq<int>> := begun[|sockets|] + [[]];
    assert cores == [[]];
    assert cores[0] + [p] == [p];
    assert cores[0 := [p]] == [[p]];
  }

  lemma NewCoreWrite(cores: seq<seq<int>>, p: int)
    ensures var more: seq<seq<int>> := cores + [[]];
            more[|cores| := more[|cores|] + [p]] == cores + [[p]]
  {
    var more: seq<seq<int>> := cores + [[]];
    assert more[|cores|] + [p] == [p];
  }

  lemma EmptyShapes()
    ensures SocketShape([]) == [] && Processors([]) == []
  {
  }

  lemma ShapeOfNew(groups: seq<SocketGroup>, s: SocketGroup)
    ensures Shape(groups + [s]) == Shape(groups) + [SocketShape(s)]
  {
  }

  lemma ShapeAt(groups: seq<SocketGroup>, i: nat)
    requires i < |groups|
    ensures |Shape(groups)| == |groups| && Shape(groups)[i] == SocketShape(groups[i])
  {
  }

  lemma ShapeUpdated(groups: seq<SocketGroup>, i: nat, s: SocketGroup)
    requires i < |groups| == |Shape(groups)|
    ensures Shape(groups[i := s]) == Shape(groups)[i := SocketShape(s)]
  {
  }

  lemma SocketShapeOfNew(s: SocketGroup, c: CoreGroup)
    ensures SocketShape(s + [c]) == SocketShape(s) + [Processors(c)]
  {
  }

  lemma SocketShapeAt(s: SocketGroup, i: nat)
    requires i < |s|
    ensures |SocketShape(s)| == |s| && SocketShape(s)[i] == Processors(s[i])
  {
  }

  lemma SocketShapeUpdated(s: SocketGroup, i: nat, c: CoreGroup)
    requires i < |s| == |SocketShape(s)|
    ensures SocketShape(s[i := c]) == SocketShape(s)[i := Processors(c)]
  {
  }

  lemma ProcessorsOfNew(c: CoreGroup, e: Entry)
    ensures Processors(c + [e]) == Processors(c) + [e.processor]
  {
  }

  // ----- from cpuinfo to placement -----

  /** Within a core, CPU ids never decrease. */
  predicate IdsIncrease(sockets: seq<seq<seq<int>>>) {
    forall g, c, k, k' ::
      0 <= g < |sockets| && 0 <= c < |sockets[g]| && 0 <= k < k' < |sockets[g][c]| ==>
        sockets[g][c][k] <= sockets[g][c][k']
  }

  lemma SortedParts(a: seq<Entry>, b: seq<Entry>)
    requires Sorted(a + b)
    ensures Sorted(a) && Sorted(b)
  {
    assert forall i :: 0 <= i < |a| ==> (a + b)[i] == a[i];
    assert forall i :: 0 <= i < |b| ==> (a + b)[|a| + i] == b[i];
  }

  lemma {:induction false} CoreOfSortedSocket(s: SocketGroup, c: nat)
    requires Sorted(FlatSocket(s)) && c < |s|
    ensures Sorted(s[c])
    decreases |s|
  {
    hide Sorted;
    SortedParts(FlatSocket(s[..|s| - 1]), s[|s| - 1]);
    if c < |s| - 1 {
      CoreOfSortedSocket(s[..|s| - 1], c);
    }
  }

  lemma {:induction false} CoreOfSorted(groups: seq<SocketGroup>, g: nat, c: nat)
    requires Sorted(Flat(groups)) && g < |groups| && c < |groups[g]|
    ensures Sorted(groups[g][c])
    decreases |groups|
  {
    hide Sorted, FlatSocket;
    var last := |groups| - 1;
    SortedParts(Flat(groups[..last]), FlatSocket(groups[last]));
    if g < last {
      CoreOfSorted(groups[..last], g, c);
    } else {
      CoreOfSortedSocket(groups[g], c);
    }
  }

  /** Entries of one core have the same ids, so they are sorted by processor. */
  lemma CoresAreSorted(groups: seq<SocketGroup>)
    requires IsGrouping(groups) && Sorted(Flat(groups))
    ensures IdsIncrease(Shape(groups))
  {
    hide Flat;
    var sockets := Shape(groups);
    forall g, c, k, k' | 0 <= g < |sockets| && 0 <= c < |sockets[g]| && 0 <= k < k' < |sockets[g][c]|
      ensures sockets[g][c][k] <= sockets[g][c][k']
    {
      CoreOfSorted(groups, g, c);
      var core := groups[g][c];
      assert IsSocket(groups[g], SocketId(groups[g]));
      assert IsCore(core, SocketId(groups[g]), core[0].coreId);
      assert core[k] in core && core[k'] in core;
    }
  }

  /**
   The whole topology: the collected processors, sorted, grouped by socket and core; on well-formed
   text those are the allowed ones.
   */
  method GetSystemInfo(lines: seq<Line>, available: set<int>, ghost records: seq<Entry>)
      returns (r: Option<seq<seq<seq<int>>>>, ghost groups: seq<SocketGroup>)
    ensures r.None? <==> Collected(lines, NO_ENTRY, available).None?
    ensures r.Some? ==>
              && r.value == Shape(groups) && IsGrouping(groups) && Sorted(Flat(groups))
              && multiset(Flat(groups)) == multiset(Collected(lines, NO_ENTRY, available).value)
    ensures r.Some? ==> IdsIncrease(r.value)
    ensures WellFormed(lines, records) ==>
              r.Some? && multiset(Flat(groups)) == multiset(Allowed(records, available))
  {
    hide IsGrouping, Flat, Collected, RecordLines;
    groups := [];
    ParsedWhenWellFormed(lines, available, records);
    var entries := Collect(lines, available);
    if entries.None? {
      return None, [];
    }
    CollectedIsNonNegative(lines, NO_ENTRY, available);
    var sorted := Sort(entries.value);
    assert forall e <- sorted :: e in multiset(sorted);
    var sockets;
    sockets, groups := Build(sorted);
    CoresAreSorted(groups);
    r := Some(sockets);
  }

  lemma ParsedWhenWellFormed(lines: seq<Line>, available: set<int>, records: seq<Entry>)
    ensures WellFormed(lines, records) ==>
              Collected(lines, NO_ENTRY, available) == Some(Allowed(records, available))
  {
    if WellFormed(lines, records) {
      OtherLinesDoNotMatter(lines, NO_ENTRY, available);
      CollectsAllowed(records, NO_ENTRY, available);
    }
  }

  lemma {:induction false} CollectedIsNonNegative(lines: seq<Line>, cur: Entry, available: set<int>)
    ensures var r := Collected(lines, cur, available);
            r.Some? ==> forall e <- r.value :: e.physicalId >= 0 && e.processor >= 0 && e.processor in available
    decreases |lines|
  {
    if lines != [] {
      var rest := lines[1..];
      match lines[0]
      case Other => CollectedIsNonNegative(rest, cur, available);
      case Processor(v) => if v.Some? { CollectedIsNonNegative(rest, cur.(processor := v.value), available); }
      case PhysicalId(v) => if v.Some? { CollectedIsNonNegative(rest, cur.(physicalId := v.value), available); }
      case CoreId(v) =>
        if v.Some? {
          CollectedIsNonNegative(rest, cur.(coreId := v.value), available);
          CollectedIsNonNegative(rest, NO_ENTRY, available);
        }
    }
  }

  // ----- every pinned CPU is in the caller's affinity set -----

  lemma {:induction false} FlatSocketHolds(s: SocketGroup, c: nat, k: nat)
    requires c < |s| && k < |s[c]|
    ensures s[c][k] in FlatSocket(s)
    decreases |s|
  {
    if c < |s| - 1 {
      FlatSocketHolds(s[..|s| - 1], c, k);
    }
  }

  lemma {:induction false} FlatHolds(groups: seq<SocketGroup>, g: nat, c: nat, k: nat)
    requires g < |groups| && c < |groups[g]| && k < |groups[g][c]|
    ensures groups[g][c][k] in Flat(groups)
    decreases |groups|
  {
    if g < |groups| - 1 {
      FlatHolds(groups[..|groups| - 1], g, c, k);
    } else {
      FlatSocketHolds(groups[g], c, k);
    }
  }

  lemma {:induction false} CoresFromSockets(sockets: seq<Socket>, i: nat) returns (g: nat, c: nat)
    requires i < |Cores(sockets)|
    ensures g < |sockets| && c < |sockets[g]| && sockets[g][c] == Cores(sockets)[i]
    decreases |sockets|
  {
    if i < |sockets[0]| {
      g, c := 0, i;
    } else {
      g, c := CoresFromSockets(sockets[1..], i - |sockets[0]|);
      g := g + 1;
    }
  }

  /** Placement on a topology built from any cpuinfo that parses pins threads only to allowed CPUs. */
  lemma PinnedCpusAreAllowed(lines: seq<Line>, available: set<int>, groups: seq<SocketGroup>,
                             sockets: seq<Socket>, numThreads: nat, ids: seq<nat>, x: nat)
    requires Collected(lines, NO_ENTRY, available).Some? && sockets == Shape(groups)
    requires multiset(Flat(groups)) == multiset(Collected(lines, NO_ENTRY, available).value)
    requires IsPlacement(Cores(sockets), numThreads, ids) && x in ids && x != NO_AFFINITY
    ensures x in available
  {
    hide IsPlacement, Collected;
    var i, k := PinnedCpusAreListed(Cores(sockets), numThreads, ids, x);
    var g, c := CoresFromSockets(sockets, i);
    assert sockets[g][c] == Processors(groups[g][c]);
    var e := groups[g][c][k];
    FlatHolds(groups, g, c, k);
    assert e in multiset(Flat(groups));
    CollectedIsNonNegative(lines, NO_ENTRY, available);
  }

  // ----- placement on the built topology is fair -----

  /** Every processor has one record. */
  ghost predicate OneRecordEach(records: multiset<Entry>) {
    && (forall e, e' :: e in records && e' in records && e.processor == e'.processor ==> e == e')
    && forall e :: e in records ==> records[e] == 1
  }

  predicate NoRepeats(s: seq<int>) { forall i, j :: 0 <= i < j < |s| ==> s[i] != s[j] }

  lemma DistinctProcessors(s: seq<Entry>)
    requires OneRecordEach(multiset(s))
    ensures NoRepeats(Processors(s))
  {
    forall i, j | 0 <= i < j < |s|
      ensures s[i].processor != s[j].processor
    {
      if s[i].processor == s[j].processor {
        assert s[i] in multiset(s) && s[j] in multiset(s);
        TwiceInSequence(s, i, j);
      }
    }
  }

  lemma TwiceInSequence(s: seq<Entry>, i: nat, j: nat)
    requires i < j < |s| && s[i] == s[j]
    ensures multiset(s)[s[i]] >= 2
  {
    assert s == s[..j] + s[j..];
    assert s[i] in s[..j] && s[i] in s[j..];
    assert s[i] in multiset(s[..j]) && s[i] in multiset(s[j..]);
  }

  /** All CPU ids, core after core. */
  function AllIds(cores: seq<Core>): seq<int> {
    if cores == [] then [] else cores[0] + AllIds(cores[1..])
  }

  lemma {:induction false} AllIdsAppend(a: seq<Core>, b: seq<Core>)
    ensures AllIds(a + b) == AllIds(a) + AllIds(b)
    decreases |a|
  {
    if a == [] {
      assert a + b == b;
    } else {
      assert (a + b)[1..] == a[1..] + b;
      AllIdsAppend(a[1..], b);
    }
  }

  lemma {:induction false} AllIdsHolds(cores: seq<Core>, i: nat, k: nat)
    requires i < |cores| && k < |cores[i]|
    ensures cores[i][k] in AllIds(cores)
    decreases |cores|
  {
    if i > 0 {
      AllIdsHolds(cores[1..], i - 1, k);
    }
  }

  lemma {:induction false} NoRepeatsGiveDistinctIds(cores: seq<Core>)
    requires NoRepeats(AllIds(cores))
    ensures DistinctIds(cores)
    decreases |cores|
  {
    if cores != [] {
      var tail, ids := cores[1..], AllIds(cores[1..]);
      assert AllIds(cores) == cores[0] + ids;
      assert forall j :: 0 <= j < |ids| ==> AllIds(cores)[|cores[0]| + j] == ids[j];
      NoRepeatsGiveDistinctIds(tail);
      assert forall i :: 1 <= i < |cores| ==> cores[i] == tail[i - 1];
      forall i, k, i', k' |
        && 0 <= i < |cores| && 0 <= k < |cores[i]| && 0 <= i' < |cores| && 0 <= k' < |cores[i']|
        && cores[i][k] == cores[i'][k']
        ensures i == i' && k == k'
      {
        if i == 0 && i' > 0 { FirstCoreIsApart(cores, k, i', k'); }
        if i' == 0 && i > 0 { FirstCoreIsApart(cores, k', i, k); }
        if i == 0 && i' == 0 {
          assert AllIds(cores)[k] == cores[0][k] && AllIds(cores)[k'] == cores[0][k'];
        }
      }
    }
  }

  lemma FirstCoreIsApart(cores: seq<Core>, k: nat, i: nat, l: nat)
    requires cores != [] && NoRepeats(AllIds(cores)) && k < |cores[0]| && 0 < i < |cores| && l < |cores[i]|
    ensures cores[0][k] != cores[i][l]
  {
    var ids := AllIds(cores[1..]);
    AllIdsHolds(cores[1..], i - 1, l);
    var j :| 0 <= j < |ids| && ids[j] == cores[i][l];
    assert AllIds(cores)[k] == cores[0][k] && AllIds(cores)[|cores[0]| + j] == ids[j];
  }

  lemma ProcessorsConcat(a: seq<Entry>, b: seq<Entry>)
    ensures Processors(a + b) == Processors(a) + Processors(b)
  {
  }

  lemma {:induction false} SocketIds(s: SocketGroup, cores: seq<Core>)
    requires SocketShape(s) == cores
    ensures AllIds(cores) == Processors(FlatSocket(s))
    decreases |s|
  {
    if s != [] {
      var last := |s| - 1;
      SocketIds(s[..last], cores[..last]);
      assert cores == cores[..last] + [cores[last]];
      AllIdsAppend(cores[..last], [cores[last]]);
      assert AllIds([cores[last]]) == cores[last];
      ProcessorsConcat(FlatSocket(s[..last]), s[last]);
    }
  }

  lemma {:induction false} TopologyIds(groups: seq<SocketGroup>, sockets: seq<Socket>)
    requires Shape(groups) == sockets
    ensures AllIds(Cores(sockets)) == Processors(Flat(groups))
    decreases |groups|
  {
    if groups != [] {
      var last := |groups| - 1;
      TopologyIds(groups[..last], sockets[..last]);
      assert sockets == sockets[..last] + [sockets[last]];
      CoresAppend(sockets[..last], sockets[last]);
      AllIdsAppend(Cores(sockets[..last]), sockets[last]);
      SocketIds(groups[last], sockets[last]);
      ProcessorsConcat(Flat(groups[..last]), FlatSocket(groups[last]));
    }
  }

  lemma {:induction false} AllIdsMember(cores: seq<Core>, x: int) returns (i: nat, k: nat)
    requires x in AllIds(cores)
    ensures i < |cores| && k < |cores[i]| && cores[i][k] == x
    decreases |cores|
  {
    if x in cores[0] {
      i := 0;
      k :| 0 <= k < |cores[0]| && cores[0][k] == x;
    } else {
      i, k := AllIdsMember(cores[1..], x);
      i := i + 1;
    }
  }

  lemma {:induction false} SomeIdIffDeep(cores: seq<Core>)
    ensures AllIds(cores) != [] <==> Depth(cores) > 0
    decreases |cores|
  {
    if cores != [] {
      SomeIdIffDeep(cores[1..]);
    }
  }

  /** With one record for every processor, placement uses any two CPUs equally often, give or take one. */
  lemma PlacementOnTopologyIsFair(groups: seq<SocketGroup>, sockets: seq<Socket>, numThreads: nat, ids: seq<nat>,
                                  a: Entry, b: Entry)
    requires OneRecordEach(multiset(Flat(groups))) && sockets == Shape(groups)
    requires IsPlacement(Cores(sockets), numThreads, ids) && a in Flat(groups) && b in Flat(groups)
    requires 0 <= a.processor < NO_AFFINITY && 0 <= b.processor < NO_AFFINITY
    ensures Count(ids, a.processor) <= Count(ids, b.processor) + 1
  {
    hide IsPlacement, Flat, Cores, Shape, DistinctIds, NoRepeats, OneRecordEach, AllIds;
    var cores := Cores(sockets);
    DistinctProcessors(Flat(groups));
    TopologyIds(groups, sockets);
    NoRepeatsGiveDistinctIds(cores);
    ProcessorListed(Flat(groups), a);
    ProcessorListed(Flat(groups), b);
    var i, k := AllIdsMember(cores, a.processor);
    var i', k' := AllIdsMember(cores, b.processor);
    PlacementIsFair(cores, numThreads, ids, i, k, i', k');
  }

  lemma ProcessorListed(s: seq<Entry>, e: Entry)
    requires e in s
    ensures e.processor in Processors(s)
  {
    var i :| 0 <= i < |s| && s[i] == e;
    assert Processors(s)[i] == e.processor;
  }

  // ----- from cpuinfo to pinned threads -----

  /** The text is refused, there is no CPU to place on (the placement loop would not end), or the threads' CPUs. */
  datatype Outcome = Refused | NoCpu | Placed(ids: seq<nat>)

  /** Any two of these processors are used equally often, give or take one. */
  ghost predicate FairlyUsed(entries: seq<Entry>, ids: seq<nat>) {
    forall a <- entries, b <- entries :: 0 <= a.processor < NO_AFFINITY && 0 <= b.processor < NO_AFFINITY ==>
      Count(ids, a.processor) <= Count(ids, b.processor) + 1
  }

  /** Read the topology and place the threads: only on allowed CPUs, and fairly if no processor is listed twice. */
  method PlaceThreads(lines: seq<Line>, available: set<int>, numThreads: nat) returns (r: Outcome)
    ensures r.Refused? <==> Collected(lines, NO_ENTRY, available).None?
    ensures r.NoCpu? <==> Collected(lines, NO_ENTRY, available) == Some([]) && numThreads > 0
    ensures r.Placed? ==>
              && |r.ids| == numThreads && (forall x <- r.ids :: x != NO_AFFINITY ==> x in available)
              && var entries := Collected(lines, NO_ENTRY, available).value;
                 OneRecordEach(multiset(entries)) ==> FairlyUsed(entries, r.ids)
  {
    hide *;
    var info, groups := GetSystemInfo(lines, available, []);
    if info.None? {
      return Refused;
    }
    ghost var entries := Collected(lines, NO_ENTRY, available).value;
    CollectedIsNonNegative(lines, NO_ENTRY, available);
    SameEntries(entries, Flat(groups));
    var sockets := AsCpuIds(info.value, groups);
    TopologyIds(groups, sockets);
    SomeIdIffDeep(Cores(sockets));
    ProcessorsLength(Flat(groups));
    if numThreads > 0 && Depth(Cores(sockets)) == 0 {
      return NoCpu;
    }
    var ids := GetPreferredCpuIDs(sockets, numThreads);
    r := Placed(ids);
    forall x | x in ids && x != NO_AFFINITY
      ensures x in available
    {
      PinnedCpusAreAllowed(lines, available, groups, sockets, numThreads, ids, x);
    }
    if OneRecordEach(multiset(entries)) {
      TopologyIsFair(groups, sockets, numThreads, ids, entries);
    }
  }

  lemma SameEntries(a: seq<Entry>, b: seq<Entry>)
    requires multiset(a) == multiset(b)
    ensures |a| == |b| && (forall e :: e in a <==> e in b)
  {
    assert |a| == |multiset(a)| && |b| == |multiset(b)|;
    assert forall e :: (e in a <==> e in multiset(a)) && (e in b <==> e in multiset(b));
  }

  lemma ProcessorsLength(s: seq<Entry>)
    ensures |Processors(s)| == |s|
  {
  }

  /** The topology of non-negative processors, as CPU ids. */
  method AsCpuIds(sockets: seq<seq<seq<int>>>, ghost groups: seq<SocketGroup>) returns (r: seq<Socket>)
    requires sockets == Shape(groups) && forall e <- Flat(groups) :: e.processor >= 0
    ensures r == sockets
  {
    hide Flat;
    forall g, c, k | 0 <= g < |sockets| && 0 <= c < |sockets[g]| && 0 <= k < |sockets[g][c]|
      ensures sockets[g][c][k] >= 0
    {
      FlatHolds(groups, g, c, k);
    }
    r := sockets;
  }

  lemma TopologyIsFair(groups: seq<SocketGroup>, sockets: seq<Socket>, numThreads: nat, ids: seq<nat>,
                       entries: seq<Entry>)
    requires OneRecordEach(multiset(entries)) && multiset(Flat(groups)) == multiset(entries) && sockets == Shape(groups)
    requires IsPlacement(Cores(sockets), numThreads, ids)
    ensures FairlyUsed(entries, ids)
  {
    hide IsPlacement, OneRecordEach, Flat, Shape, Cores, Count;
    SameEntries(entries, Flat(groups));
    forall a, b | a in entries && b in entries && 0 <= a.processor < NO_AFFINITY && 0 <= b.processor < NO_AFFINITY
      ensures Count(ids, a.processor) <= Count(ids, b.processor) + 1
    {
      PlacementOnTopologyIsFair(groups, sockets, numThreads, ids, a, b);
    }
  }
}
