/** The console's ring of messages: a repeated message is counted, and when the ring is full the oldest message makes way. */
module Console {
  const CAPACITY := 200

  // ----- the bounded list that the ring stands for, oldest first

  datatype Entry = Entry(id: nat, count: int)

  ghost predicate Distinct(log: seq<Entry>) {
    forall i, j :: 0 <= i < j < |log| ==> log[i].id != log[j].id
  }

  /** The place of a message in the list, or its length. */
  function Place(log: seq<Entry>, id: nat): (k: nat)
    ensures k <= |log| && (k < |log| ==> log[k].id == id)
  {
    if log == [] || log[0].id == id then 0 else 1 + Place(log[1..], id)
  }

  lemma {:induction false} PlaceFirst(log: seq<Entry>, id: nat, i: nat)
    requires i < Place(log, id)
    ensures log[i].id != id
  {
    if i > 0 { PlaceFirst(log[1..], id, i - 1); }
  }

  /** A message arrives. */
  function Added(log: seq<Entry>, e: Entry): seq<Entry> {
    var k := Place(log, e.id);
    if k < |log| then log[k := Entry(e.id, log[k].count + 1)]
    else (if |log| < CAPACITY then log else log[1..]) + [e]
  }

  lemma PlaceIs(log: seq<Entry>, id: nat, k: nat)
    requires Distinct(log) && k < |log| && log[k].id == id
    ensures Place(log, id) == k
  {
    if k < Place(log, id) { PlaceFirst(log, id, k); }
  }

  lemma AddedNew(log: seq<Entry>, e: Entry)
    requires forall k :: 0 <= k < |log| ==> log[k].id != e.id
    ensures Place(log, e.id) == |log| && Added(log, e) == (if |log| < CAPACITY then log else log[1..]) + [e]
  {
    hide Place;
    var k := Place(log, e.id);
  }

  lemma AddedOld(log: seq<Entry>, k: nat, count: int)
    requires Distinct(log) && k < |log|
    ensures Place(log, log[k].id) == k && Added(log, Entry(log[k].id, count)) == log[k := Entry(log[k].id, log[k].count + 1)]
  {
    hide Place, Distinct;
    PlaceIs(log, log[k].id, k);
  }

  lemma AddedDistinct(log: seq<Entry>, e: Entry)
    requires Distinct(log) && |log| <= CAPACITY
    ensures Distinct(Added(log, e)) && |Added(log, e)| <= CAPACITY
  {
    hide Place;
    if Place(log, e.id) == |log| {
      forall k | 0 <= k < |log| ensures log[k].id != e.id { PlaceFirst(log, e.id, k); }
    }
  }

  function Total(log: seq<Entry>): int {
    if log == [] then 0 else Total(log[..|log| - 1]) + log[|log| - 1].count
  }

  lemma {:induction false} TotalUpdate(log: seq<Entry>, k: nat, e: Entry)
    requires k < |log|
    ensures Total(log[k := e]) == Total(log) + e.count - log[k].count
  {
    var n := |log| - 1;
    if k < n {
      assert log[k := e][..n] == log[..n][k := e];
      TotalUpdate(log[..n], k, e);
    } else {
      assert log[k := e][..n] == log[..n];
    }
  }

  /** Nothing is lost before the ring is full: every arrival is counted once. */
  lemma Conserved(log: seq<Entry>, e: Entry)
    requires |log| < CAPACITY
    ensures Total(Added(log, e)) == Total(log) + (if Place(log, e.id) < |log| then 1 else e.count)
  {
    hide Place, Total;
    var k := Place(log, e.id);
    if k < |log| { TotalUpdate(log, k, Entry(e.id, log[k].count + 1)); } else { TotalNext(log, e); }
  }

  lemma TotalNext(log: seq<Entry>, e: Entry)
    ensures Total(log + [e]) == Total(log) + e.count
  {
    assert (log + [e])[..|log|] == log;
  }

  /** A run of new messages. */
  function Run(ids: seq<nat>): seq<Entry> {
    if ids == [] then [] else Added(Run(ids[..|ids| - 1]), Entry(ids[|ids| - 1], 1))
  }

  function CountOf(log: seq<Entry>, id: nat): int {
    var k := Place(log, id);
    if k < |log| then log[k].count else 0
  }

  function IdSet(ids: seq<nat>): set<nat> {
    set i | 0 <= i < |ids| :: ids[i]
  }

  /** As long as a run has no more different messages than the ring has room for, the list has every one of them once, with the
      number of times it came. */
  lemma {:induction false} RunCounts(ids: seq<nat>, id: nat)
    requires |IdSet(ids)| <= CAPACITY
    ensures Distinct(Run(ids)) && Listed(Run(ids)) == IdSet(ids) && CountOf(Run(ids), id) == multiset(ids)[id]
  {
    if ids != [] {
      var n := |ids| - 1;
      var x := ids[n];
      assert ids == ids[..n] + [x];
      assert IdSet(ids) == IdSet(ids[..n]) + {x};
      SubsetSize(IdSet(ids[..n]), IdSet(ids));
      RunCounts(ids[..n], id);
      var log := Run(ids[..n]);
      ListedSize(log);
      AddedCounts(log, x, id);
    } else {
      assert IdSet(ids) == {} && Listed(Run(ids)) == {};
    }
  }

  lemma {:induction false} SubsetSize(a: set<nat>, b: set<nat>)
    requires a <= b
    ensures |a| <= |b|
  {
    if x :| x in a { SubsetSize(a - {x}, b - {x}); }
  }

  ghost function Listed(log: seq<Entry>): set<nat> {
    set i | 0 <= i < |log| :: log[i].id
  }

  lemma {:induction false} ListedSize(log: seq<Entry>)
    requires Distinct(log)
    ensures |Listed(log)| == |log|
  {
    if log != [] {
      var n := |log| - 1;
      ListedSize(log[..n]);
      assert Listed(log) == Listed(log[..n]) + {log[n].id};
      assert log[n].id !in Listed(log[..n]);
    }
  }

  lemma AddedCounts(log: seq<Entry>, x: nat, id: nat)
    requires Distinct(log) && |log| <= CAPACITY && (|log| == CAPACITY ==> x in Listed(log))
    ensures Distinct(Added(log, Entry(x, 1))) && Listed(Added(log, Entry(x, 1))) == Listed(log) + {x}
    ensures CountOf(Added(log, Entry(x, 1)), id) == CountOf(log, id) + (if x == id then 1 else 0)
  {
    hide Place;
    AddedDistinct(log, Entry(x, 1));
    if k :| 0 <= k < |log| && log[k].id == x {
      AddedOld(log, k, 1);
      var log' := log[k := Entry(x, log[k].count + 1)];
      ListedUpdate(log, k, log'[k]);
      CountUpdate(log, k, log'[k], id);
    } else {
      AddedNew(log, Entry(x, 1));
      ListedNext(log, Entry(x, 1));
      CountNext(log, Entry(x, 1), id);
    }
  }

  lemma ListedUpdate(log: seq<Entry>, k: nat, e: Entry)
    requires k < |log| && e.id == log[k].id
    ensures Listed(log[k := e]) == Listed(log) && e.id in Listed(log)
  {
    var log' := log[k := e];
    forall y ensures y in Listed(log') <==> y in Listed(log) {
      if y in Listed(log) { var i :| 0 <= i < |log| && log[i].id == y; assert log'[i].id == y; }
    }
  }

  lemma ListedNext(log: seq<Entry>, e: Entry)
    ensures Listed(log + [e]) == Listed(log) + {e.id}
  {
    var log' := log + [e];
    assert log'[|log|] == e;
    forall y ensures y in Listed(log') <==> y in Listed(log) + {e.id} {
      if y in Listed(log) { var i :| 0 <= i < |log| && log[i].id == y; assert log'[i].id == y; }
    }
  }

  lemma CountUpdate(log: seq<Entry>, k: nat, e: Entry, id: nat)
    requires Distinct(log) && k < |log| && e.id == log[k].id
    ensures CountOf(log[k := e], id) == CountOf(log, id) + (if e.id == id then e.count - log[k].count else 0)
  {
    hide Place;
    PlaceKept(log, log[k := e], id);
    if e.id == id { PlaceIs(log, id, k); }
  }

  lemma {:induction false} PlaceKept(log: seq<Entry>, log': seq<Entry>, id: nat)
    requires |log| == |log'| && forall i :: 0 <= i < |log| ==> log[i].id == log'[i].id
    ensures Place(log, id) == Place(log', id)
  {
    if log != [] { PlaceKept(log[1..], log'[1..], id); }
  }

  lemma CountNext(log: seq<Entry>, e: Entry, id: nat)
    requires forall k :: 0 <= k < |log| ==> log[k].id != e.id
    ensures CountOf(log + [e], id) == CountOf(log, id) + (if e.id == id then e.count else 0)
  {
    PlaceNext(log, e, id);
  }

  lemma {:induction false} PlaceNext(log: seq<Entry>, e: Entry, id: nat)
    ensures Place(log + [e], id) == if Place(log, id) < |log| then Place(log, id) else if e.id == id then |log| else |log| + 1
  {
    if log != [] {
      assert (log + [e])[1..] == log[1..] + [e];
      PlaceNext(log[1..], e, id);
    }
  }

  // ----- the ring as a value

  datatype Cell = Free | Taken(entry: Entry)

  /** The oldest slot is free and so are all after it, or every slot is taken; no message is there twice. */
  ghost predicate Ring(cells: seq<Cell>, begin: nat) {
    && |cells| == CAPACITY && begin < CAPACITY
    && (if cells[begin].Free? then forall i :: 0 <= i < CAPACITY ==> (cells[i].Taken? <==> i < begin) else forall i :: 0 <= i < CAPACITY ==> cells[i].Taken?)
    && forall i, j :: 0 <= i < j < CAPACITY && cells[i].Taken? && cells[j].Taken? ==> cells[i].entry.id != cells[j].entry.id
  }

  ghost function Length(cells: seq<Cell>, begin: nat): (n: nat)
    requires Ring(cells, begin)
    ensures n <= CAPACITY
  {
    if cells[begin].Free? then begin else CAPACITY
  }

  /** The slot of the `k`th oldest message. */
  ghost function SlotOf(cells: seq<Cell>, begin: nat, k: nat): (i: nat)
    requires Ring(cells, begin) && k < Length(cells, begin)
    ensures i < CAPACITY && cells[i].Taken?
  {
    if cells[begin].Free? then k else if begin + k < CAPACITY then begin + k else begin + k - CAPACITY
  }

  /** The list that the ring stands for. */
  ghost function LogOf(cells: seq<Cell>, begin: nat): (log: seq<Entry>)
    requires Ring(cells, begin)
    ensures |log| == Length(cells, begin) && forall k :: 0 <= k < |log| ==> log[k] == cells[SlotOf(cells, begin, k)].entry
  {
    seq(Length(cells, begin), k requires 0 <= k < Length(cells, begin) => cells[SlotOf(cells, begin, k)].entry)
  }

  lemma LogDistinct(cells: seq<Cell>, begin: nat)
    requires Ring(cells, begin)
    ensures Distinct(LogOf(cells, begin)) && |LogOf(cells, begin)| <= CAPACITY
  {
    forall i, j | 0 <= i < j < |LogOf(cells, begin)| ensures LogOf(cells, begin)[i].id != LogOf(cells, begin)[j].id {
      assert SlotOf(cells, begin, i) != SlotOf(cells, begin, j);
    }
  }

  /** A message that is in slot `i` already is counted there. */
  lemma Bumped(cells: seq<Cell>, begin: nat, i: nat, count: int)
    requires Ring(cells, begin) && i < CAPACITY && cells[i].Taken?
    ensures var e := cells[i].entry; var cells' := cells[i := Taken(Entry(e.id, e.count + 1))];
            Ring(cells', begin) && LogOf(cells', begin) == Added(LogOf(cells, begin), Entry(e.id, count)) && Place(LogOf(cells, begin), e.id) < |LogOf(cells, begin)|
  {
    hide Place, Added, Distinct;
    var e, log := cells[i].entry, LogOf(cells, begin);
    var cells' := cells[i := Taken(Entry(e.id, e.count + 1))];
    var k: nat := if cells[begin].Free? then i else if i >= begin then i - begin else i + CAPACITY - begin;
    assert SlotOf(cells, begin, k) == i;
    LogDistinct(cells, begin);
    AddedOld(log, k, count);
    assert Ring(cells', begin);
    forall j | 0 <= j < |log| ensures LogOf(cells', begin)[j] == log[k := Entry(e.id, e.count + 1)][j] {
      assert SlotOf(cells', begin, j) == SlotOf(cells, begin, j);
    }
    assert LogOf(cells', begin) == log[k := Entry(e.id, e.count + 1)];
  }

  /** A message that is not there takes the slot at `begin`. */
  lemma Stored(cells: seq<Cell>, begin: nat, e: Entry)
    requires Ring(cells, begin) && forall i :: 0 <= i < CAPACITY && cells[i].Taken? ==> cells[i].entry.id != e.id
    ensures var cells', begin' := cells[begin := Taken(e)], if begin + 1 == CAPACITY then 0 else begin + 1;
            Ring(cells', begin') && LogOf(cells', begin') == Added(LogOf(cells, begin), e) && Place(LogOf(cells, begin), e.id) == |LogOf(cells, begin)|
            && Length(cells', begin') == if Length(cells, begin) < CAPACITY then Length(cells, begin) + 1 else CAPACITY
  {
    hide Place, Added;
    var log := LogOf(cells, begin);
    AddedNew(log, e);
    var cells', begin' := cells[begin := Taken(e)], if begin + 1 == CAPACITY then 0 else begin + 1;
    assert Ring(cells', begin');
    var rest := if |log| < CAPACITY then log else log[1..];
    forall k | 0 <= k < |LogOf(cells', begin')| ensures LogOf(cells', begin')[k] == (rest + [e])[k] {
      if k < |rest| {
        assert SlotOf(cells', begin', k) == SlotOf(cells, begin, if |log| < CAPACITY then k else k + 1) != begin;
      } else {
        assert SlotOf(cells', begin', k) == begin;
      }
    }
    assert LogOf(cells', begin') == rest + [e];
  }

  // ----- the ring

  class Message {
    /** `m_MessageID`, `m_Level`, `m_Count` */
    const id: nat
    const level: nat
    var count: int

    constructor (id: nat, level: nat)
      ensures this.id == id && this.level == level && count == 1
    {
      this.id, this.level, count := id, level, 1;
    }
  }

  class ConsoleWindow {
    const buffer: array<Message?>
    var begin: nat
    var size: nat
    var allowScrolling: bool
    var requestScroll: bool
    /** How often a message has been put into a slot, altogether and since the last flush. */
    ghost var stored: nat
    ghost var kept: nat

    ghost function Held(): set<object>
      reads buffer
    {
      set i | 0 <= i < buffer.Length && buffer[i] != null :: buffer[i]
    }

    ghost function Cells(): (cells: seq<Cell>)
      reads buffer, Held()
      ensures |cells| == buffer.Length
      ensures forall i :: 0 <= i < buffer.Length ==> cells[i] == if buffer[i] == null then Free else Taken(Entry(buffer[i].id, buffer[i].count))
    {
      seq(buffer.Length, i requires 0 <= i < buffer.Length reads buffer, Held() =>
        if buffer[i] == null then Free else assert buffer[i] in Held(); Taken(Entry(buffer[i].id, buffer[i].count)))
    }

    ghost predicate Valid()
      reads `begin, `size, `stored, `kept, buffer, Held()
    {
      && Ring(Cells(), begin) && size == (if stored < CAPACITY then stored else CAPACITY)
      && Length(Cells(), begin) == (if kept < CAPACITY then kept else CAPACITY) && kept <= stored
    }

    /** The list that the ring stands for. */
    ghost function Log(): (log: seq<Entry>)
      reads `begin, `size, `stored, `kept, buffer, Held()
      requires Valid()
    {
      LogOf(Cells(), begin)
    }

    constructor ()
      ensures Valid() && Log() == [] && size == stored == kept == 0 && fresh(buffer)
    {
      buffer := new Message?[CAPACITY](_ => null);
      begin, size, allowScrolling, requestScroll, stored, kept := 0, 0, true, false, 0, 0;
    }

    lemma Slots()
      requires Valid()
      ensures buffer.Length == CAPACITY && begin < CAPACITY && (buffer[begin] == null ==> forall i :: begin <= i < CAPACITY ==> buffer[i] == null)
    {
    }

    /** An occupied slot at `begin` means that all slots are occupied, which is what makes it safe to look at them unguarded. */
    lemma AllOccupied(i: nat)
      requires Valid() && buffer[begin] != null && i < CAPACITY
      ensures buffer[i] != null
    {
      assert Cells()[begin].Taken? && Cells()[i].Taken?;
    }

    /** `(*messIt)->IncreaseCount()` */
    method Bump(i: nat, ghost count: int)
      requires Valid() && i < CAPACITY && buffer[i] != null
      modifies buffer[i]
      ensures Valid() && Log() == Added(old(Log()), Entry(buffer[i].id, count)) && Place(old(Log()), buffer[i].id) < |old(Log())|
    {
      hide Ring, LogOf, Added, Place;
      Slots();
      ghost var cells := Cells();
      Bumped(cells, begin, i, count);
      Apart(i);
      buffer[i].count := buffer[i].count + 1;
      assert Cells() == cells[i := Taken(Entry(cells[i].entry.id, cells[i].entry.count + 1))];
    }

    /** No message is in two slots. */
    lemma Apart(i: nat)
      requires Valid() && i < CAPACITY && buffer[i] != null
      ensures forall j :: 0 <= j < CAPACITY && j != i ==> buffer[j] != buffer[i]
    {
      forall j | 0 <= j < CAPACITY && j != i ensures buffer[j] != buffer[i] {
        assert Cells()[i] == Taken(Entry(buffer[i].id, buffer[i].count));
        if buffer[j] != null { assert Cells()[j] == Taken(Entry(buffer[j].id, buffer[j].count)); }
      }
    }

    /** A message that is not in the ring takes the slot at `begin`, and `begin` moves on. */
    method Store(message: Message)
      requires Valid() && forall i :: 0 <= i < CAPACITY && buffer[i] != null ==> buffer[i].id != message.id
      modifies this`begin, this`size, this`stored, this`kept, buffer
      ensures Valid() && Log() == Added(old(Log()), Entry(message.id, message.count)) && stored == old(stored) + 1 && kept == old(kept) + 1 && Place(old(Log()), message.id) == |old(Log())|
    {
      hide Ring, LogOf, Added, Place;
      ghost var cells := Cells();
      Slots();
      forall i | 0 <= i < CAPACITY && cells[i].Taken? ensures cells[i].entry.id != message.id {}
      Stored(cells, begin, Entry(message.id, message.count));
      buffer[begin] := message;
      stored, kept := stored + 1, kept + 1;
      begin := begin + 1;
      if begin == CAPACITY { begin := 0; }
      if size < CAPACITY { size := size + 1; }
      assert Cells() == cells[old(begin) := Taken(Entry(message.id, message.count))];
    }

    /** The first loop of `AddMessage`, which does not ask whether a slot is occupied. */
    method FindOld(id: nat) returns (i: nat)
      requires Valid() && buffer[begin] != null
      ensures begin <= i <= CAPACITY && (i < CAPACITY ==> buffer[i] != null && buffer[i].id == id)
      ensures i == CAPACITY ==> forall k :: begin <= k < CAPACITY ==> buffer[k] != null && buffer[k].id != id
    {
      i := begin;
      while i < CAPACITY
        invariant begin <= i <= CAPACITY && forall k :: begin <= k < i ==> buffer[k] != null && buffer[k].id != id
      {
        AllOccupied(i);
        if id == buffer[i].id { return; }
        i := i + 1;
      }
    }

    /** The second loop, over the slots before `begin`. */
    method FindNew(id: nat) returns (i: nat)
      requires Valid()
      ensures i <= begin && (i < begin ==> buffer[i] != null && buffer[i].id == id)
      ensures i == begin ==> forall k :: 0 <= k < begin && buffer[k] != null ==> buffer[k].id != id
    {
      i := 0;
      while i < begin
        invariant i <= begin && forall k :: 0 <= k < i && buffer[k] != null ==> buffer[k].id != id
      {
        if buffer[i] != null && id == buffer[i].id { return; }
        i := i + 1;
      }
    }

    /** `ConsoleWindow::AddMessage` */
    method AddMessage(message: Message)
      requires Valid()
      modifies this`begin, this`size, this`requestScroll, this`stored, this`kept, buffer, Held()
      ensures Valid()
      ensures Log() == if message.level == 0 then old(Log()) else Added(old(Log()), Entry(message.id, old(message.count)))
      ensures stored == old(stored) + (if message.level != 0 && Place(old(Log()), message.id) == |old(Log())| then 1 else 0)
      ensures kept - old(kept) == stored - old(stored) && (stored == old(stored) ==> size == old(size))
      ensures allowScrolling && stored > old(stored) ==> requestScroll
    {
      hide Added, Place, Ring, LogOf;
      if message.level == 0 { return; }
      Slots();
      if buffer[begin] != null {
        var i := FindOld(message.id);
        if i < CAPACITY {
          Bump(i, message.count);
          return;
        }
      }
      if begin != 0 {
        var i := FindNew(message.id);
        if i < begin {
          Bump(i, message.count);
          return;
        }
      }
      Store(message);
      ghost var cells := Cells();
      if allowScrolling { requestScroll := true; }
      assert Cells() == cells;
    }

    /** `ConsoleWindow::Flush`; the size is left as it is. */
    method Flush()
      requires Valid()
      modifies this`begin, this`kept, buffer
      ensures Valid() && Log() == [] && size == old(size) && kept == 0
    {
      for i := 0 to CAPACITY
        invariant buffer.Length == CAPACITY && forall k :: 0 <= k < i ==> buffer[k] == null
      {
        buffer[i] := null;
      }
      begin, kept := 0, 0;
    }

    /** When `s_MessageBufferSize` is the number of messages, over every run: when the list is full, or nothing that was stored has been
        flushed. */
    lemma SizeIsLength()
      requires Valid()
      ensures size == |Log()| <==> |Log()| == CAPACITY || stored == kept
      ensures |Log()| <= size && (|Log()| == CAPACITY <==> kept >= CAPACITY)
    {
      hide Ring, LogOf;
      assert |Log()| == Length(Cells(), begin);
    }

    /** The order in which `ImGuiRenderMessages` shows the messages. */
    method ReadOut() returns (shown: seq<Message>)
      requires Valid()
      ensures |shown| == |Log()| && forall k :: 0 <= k < |shown| ==> Entry(shown[k].id, shown[k].count) == Log()[k]
    {
      Slots();
      shown := [];
      if buffer[begin] != null {
        for i := begin to CAPACITY
          invariant |shown| == i - begin && forall k :: 0 <= k < |shown| ==> Shows(shown[k], k)
        {
          AllOccupied(i);
          shown := shown + [buffer[i]];
        }
      }
      ghost var n := |shown|;
      if begin != 0 {
        for i := 0 to begin
          invariant |shown| == n + i && forall k :: 0 <= k < |shown| ==> Shows(shown[k], k)
        {
          assert Cells()[i].Taken?;
          if buffer[i] != null { shown := shown + [buffer[i]]; }
        }
      }
    }

    ghost predicate Shows(message: Message, k: nat)
      reads `begin, `size, `stored, `kept, buffer, Held(), message
      requires Valid()
    {
      k < |Log()| && Entry(message.id, message.count) == Log()[k]
    }
  }

  /** A size that is not the number of messages: it stays at 1 when the list is empty. */
  method SizeAfterFlush() returns (c: ConsoleWindow)
    ensures c.Valid() && c.Log() == [] && c.size == 1
  {
    c := new ConsoleWindow();
    var m := new Message(7, 1);
    c.AddMessage(m);
    c.Flush();
  }
}
