/** The shared memory transport (shared_memory.c): a static pool of items that move between a free
    list and the lists of a matrix of matched entities, relinked in place. */
module SharedMemory {
  import opened SeqNum

  datatype EntityKind = Topic | DataWriter | DataReader | Requester | Replier | Other

  /** Who asked: what uxr_handle_shared_memory puts together for a replier, and what a reply names. */
  datatype SampleIdentity = SampleIdentity(
    sequenceLow: SeqNum, sessionKey: seq<byte>, key0: byte, key1: byte, kind: EntityKind)

  /** An entity: its id and kind, the key of its session, and whether the session has a callback. */
  datatype Entity = Entity(id: SeqNum, kind: EntityKind, sessionKey: seq<byte>, hasCallback: bool)

  /** The data of a sample; `destination` is the identity that a reply begins with. */
  datatype Sample = Sample(data: seq<byte>, destination: SampleIdentity)

  /** A callback: the entity called, its data, and for a request or a reply who asked. */
  datatype Call =
    | OnTopic(to: nat, data: seq<byte>)
    | OnRequest(to: nat, from: SampleIdentity, data: seq<byte>)
    | OnReply(to: nat, request: SeqNum, data: seq<byte>)

  /** The identity of a request, from shared_memory.c:247-261. */
  function IdentityOf(e: Entity, requestId: SeqNum): SampleIdentity {
    SampleIdentity(requestId, e.sessionKey, e.id % 0x100, e.id / 0x100, e.kind)
  }

  /** The test of shared_memory.c:284-291, in which the high octet of the id is shifted out. */
  predicate Addressed(e: Entity, s: SampleIdentity) {
    && e.sessionKey == s.sessionKey
    && e.id == s.key1 as int / 0x100 + s.key0
    && e.kind == s.kind
  }

  /** A reply that names the identity of a request reaches the requester exactly when the id of that
      requester fits in one octet. */
  lemma ReplyReaches(e: Entity, requestId: SeqNum)
    ensures Addressed(e, IdentityOf(e, requestId)) <==> e.id < 0x100
  {
  }

  /** What handling an item of the list from entity i to entity j calls. */
  function Calls(entities: seq<Entity>, i: nat, j: nat, s: Sample, requestId: SeqNum): seq<Call>
    requires i < |entities| && j < |entities|
  {
    var e := entities[j];
    if !e.hasCallback then []
    else
      match e.kind
      case DataReader => [OnTopic(j, s.data)]
      case Replier => [OnRequest(j, IdentityOf(entities[i], requestId), s.data)]
      case Requester => if Addressed(e, s.destination) then [OnReply(j, s.destination.sequenceLow, s.data)] else []
      case Topic => []
      case DataWriter => []
      case Other => []
  }

  predicate Same(e: Entity, sessionKey: seq<byte>, id: SeqNum, kind: EntityKind) {
    e.sessionKey == sessionKey && e.id == id && e.kind == kind
  }

  predicate Sends(kind: EntityKind) {
    kind == DataWriter || kind == Replier || kind == Requester
  }

  /** Where an item can be: on the free list, or on the list from one entity to another. */
  datatype Place = Free | Cell(i: nat, j: nat)

  class Item {
    var next: Item?
    var sample: Sample
    var requestId: SeqNum

    constructor (sample: Sample)
      ensures this.sample == sample
    {
      next, this.sample, requestId := null, sample, 0;
    }
  }

  /** Lists grow and shrink at their heads: they are stacks, written here with the head last. */
  ghost function Below(s: seq<Item>, k: nat): Item?
    requires k <= |s|
  {
    if k == 0 then null else s[k - 1]
  }

  /** What an item carries. */
  datatype Entry = Entry(sample: Sample, requestId: SeqNum)

  ghost function Entries(s: seq<Item>): (q: seq<Entry>)
    reads s`sample, s`requestId
    ensures |q| == |s| && forall k | 0 <= k < |s| :: q[k] == Entry(s[k].sample, s[k].requestId)
  {
    if s == [] then [] else var n := |s| - 1; Entries(s[..n]) + [Entry(s[n].sample, s[n].requestId)]
  }

  function Repeat(x: Entry, n: nat): (r: seq<Entry>)
    ensures |r| == n && forall k | 0 <= k < n :: r[k] == x
  {
    seq(n, k => x)
  }

  lemma EntriesPushed(s: seq<Item>, x: Item)
    ensures Entries(s + [x]) == Entries(s) + [Entry(x.sample, x.requestId)]
  {
    assert (s + [x])[..|s|] == s;
  }

  lemma EntriesPopped(s: seq<Item>)
    requires s != []
    ensures var n := |s| - 1; Entries(s[..n]) == Entries(s)[..n] && Entries(s)[n] == Entry(s[n].sample, s[n].requestId)
  {
  }

  /** What handling the list from entity i to entity j calls: the newest item comes first. */
  function CallsOf(entities: seq<Entity>, i: nat, j: nat, q: seq<Entry>): seq<Call>
    requires i < |entities| && j < |entities|
  {
    if q == [] then []
    else
      var n := |q| - 1;
      Calls(entities, i, j, q[n].sample, q[n].requestId) + CallsOf(entities, i, j, q[..n])
  }

  ghost predicate HasCells(was: map<Place, seq<Entry>>, n: nat) {
    forall i: nat, j: nat | i < n && j < n :: Cell(i, j) in was
  }

  /** What handling the first n lists of a row calls. */
  ghost function CallsOfRow(entities: seq<Entity>, i: nat, was: map<Place, seq<Entry>>, n: nat): seq<Call>
    requires i < |entities| && n <= |entities| && HasCells(was, |entities|)
  {
    if n == 0 then [] else CallsOfRow(entities, i, was, n - 1) + CallsOf(entities, i, n - 1, was[Cell(i, n - 1)])
  }

  /** What handling the first n rows calls: only writers, repliers and requesters send. */
  ghost function CallsOfAll(entities: seq<Entity>, was: map<Place, seq<Entry>>, n: nat): seq<Call>
    requires n <= |entities| && HasCells(was, |entities|)
  {
    if n == 0 then []
    else
      CallsOfAll(entities, was, n - 1)
      + if Sends(entities[n - 1].kind) then CallsOfRow(entities, n - 1, was, |entities|) else []
  }

  /** Item number k, from the oldest on, of the list from entity i to entity j. */
  datatype Turn = Turn(i: nat, j: nat, k: nat)

  /** Whether the destination of an item is to be called: a data reader or a replier always, a requester if the
      identity in the reply has its key, its kind and, in its low octet, its id; nothing else ever, and nothing
      that has no callback. */
  ghost predicate Due(e: Entity, x: Entry) {
    && e.hasCallback
    && (e.kind == DataReader || e.kind == Replier
        || (e.kind == Requester && x.sample.destination.sessionKey == e.sessionKey
            && x.sample.destination.kind == e.kind && x.sample.destination.key0 as int == e.id))
  }

  /** The call that an item from entity `from` to entity number j makes: it goes to j and carries the data of the
      item, for a replier with the number of the request and the key, the id and the kind of who asked, for a
      requester with the number in the reply. */
  ghost predicate Answers(c: Call, from: Entity, j: nat, e: Entity, x: Entry) {
    && c.to == j && c.data == x.sample.data
    && (e.kind == DataReader ==> c.OnTopic?)
    && (e.kind == Replier ==>
          && c.OnRequest? && c.from.sequenceLow == x.requestId && c.from.sessionKey == from.sessionKey
          && c.from.key0 + 0x100 * c.from.key1 as int == from.id && c.from.kind == from.kind)
    && (e.kind == Requester ==> c.OnReply? && c.request == x.sample.destination.sequenceLow)
  }

  lemma CallsExactly(entities: seq<Entity>, i: nat, j: nat, x: Entry)
    requires i < |entities| && j < |entities|
    ensures var calls := Calls(entities, i, j, x.sample, x.requestId);
      if Due(entities[j], x) then |calls| == 1 && Answers(calls[0], entities[i], j, entities[j], x) else calls == []
  {
  }

  /** Rows and lists in order, each list from its newest item on. */
  ghost predicate Before(a: Turn, b: Turn) {
    a.i < b.i || (a.i == b.i && (a.j < b.j || (a.j == b.j && a.k > b.k)))
  }

  ghost predicate IsItem(entities: seq<Entity>, was: map<Place, seq<Entry>>, t: Turn) {
    t.i < |entities| && t.j < |entities| && Cell(t.i, t.j) in was && t.k < |was[Cell(t.i, t.j)]|
  }

  ghost predicate DueItem(entities: seq<Entity>, was: map<Place, seq<Entry>>, t: Turn) {
    IsItem(entities, was, t) && Due(entities[t.j], was[Cell(t.i, t.j)][t.k])
  }

  ghost predicate AnswersItem(entities: seq<Entity>, was: map<Place, seq<Entry>>, c: Call, t: Turn) {
    IsItem(entities, was, t) && Answers(c, entities[t.i], t.j, entities[t.j], was[Cell(t.i, t.j)][t.k])
  }

  /** Each of these items, in this order, has made its one call. */
  ghost predicate Handed(entities: seq<Entity>, was: map<Place, seq<Entry>>, calls: seq<Call>, order: seq<Turn>) {
    && |calls| == |order|
    && (forall x, y | 0 <= x < y < |order| :: Before(order[x], order[y]))
    && forall x | 0 <= x < |order| :: AnswersItem(entities, was, calls[x], order[x])
  }

  lemma NothingHanded(entities: seq<Entity>, was: map<Place, seq<Entry>>)
    ensures Handed(entities, was, [], [])
  {
  }

  lemma HandedBoth(entities: seq<Entity>, was: map<Place, seq<Entry>>, a: seq<Call>, before: seq<Turn>, b: seq<Call>,
                   after: seq<Turn>)
    requires Handed(entities, was, a, before) && Handed(entities, was, b, after)
    requires forall s, t | s in before && t in after :: Before(s, t)
    ensures Handed(entities, was, a + b, before + after)
  {
    hide Before;
    hide AnswersItem;
  }

  /** What handling the oldest n items of a list calls: each that is due once, and nothing else. */
  lemma {:induction false} CellHanded(entities: seq<Entity>, was: map<Place, seq<Entry>>, i: nat, j: nat, n: nat)
    returns (order: seq<Turn>)
    requires i < |entities| && j < |entities| && Cell(i, j) in was && n <= |was[Cell(i, j)]|
    ensures Handed(entities, was, CallsOf(entities, i, j, was[Cell(i, j)][..n]), order)
    ensures forall t: Turn :: t in order <==> t.i == i && t.j == j && t.k < n && DueItem(entities, was, t)
  {
    hide Handed;
    hide Calls;
    hide CallsOf;
    hide DueItem;
    var q := was[Cell(i, j)];
    if n == 0 {
      order := [];
      NothingHanded(entities, was);
      CallsNone(entities, i, j);
      assert q[..0] == [];
    } else {
      var m := n - 1;
      var rest := CellHanded(entities, was, i, j, m);
      var first := ItemHanded(entities, was, i, j, m);
      order := first + rest;
      CallsStep(entities, i, j, q, n);
      HandedBoth(entities, was, Calls(entities, i, j, q[m].sample, q[m].requestId), first,
                 CallsOf(entities, i, j, q[..m]), rest);
    }
  }

  lemma ItemHanded(entities: seq<Entity>, was: map<Place, seq<Entry>>, i: nat, j: nat, k: nat) returns (order: seq<Turn>)
    requires i < |entities| && j < |entities| && Cell(i, j) in was && k < |was[Cell(i, j)]|
    ensures var x := was[Cell(i, j)][k]; Handed(entities, was, Calls(entities, i, j, x.sample, x.requestId), order)
    ensures forall t: Turn :: t in order <==> t == Turn(i, j, k) && DueItem(entities, was, t)
  {
    hide Calls;
    hide Answers;
    var x := was[Cell(i, j)][k];
    CallsExactly(entities, i, j, x);
    order := if Due(entities[j], x) then [Turn(i, j, k)] else [];
  }

  /** Everything in one list of a row comes before everything in a later one. */
  lemma LaterInRow(before: seq<Turn>, after: seq<Turn>, i: nat, n: nat)
    requires forall t <- before :: t.i == i && t.j < n
    requires forall t <- after :: t.i == i && t.j == n
    ensures forall s, t | s in before && t in after :: Before(s, t)
  {
  }

  lemma LaterRow(before: seq<Turn>, after: seq<Turn>, n: nat)
    requires forall t <- before :: t.i < n
    requires forall t <- after :: t.i == n
    ensures forall s, t | s in before && t in after :: Before(s, t)
  {
  }

  lemma CallsStep(entities: seq<Entity>, i: nat, j: nat, q: seq<Entry>, n: nat)
    requires i < |entities| && j < |entities| && 0 < n <= |q|
    ensures CallsOf(entities, i, j, q[..n])
         == Calls(entities, i, j, q[n - 1].sample, q[n - 1].requestId) + CallsOf(entities, i, j, q[..n - 1])
  {
    assert q[..n][..n - 1] == q[..n - 1] && q[..n][n - 1] == q[n - 1];
  }

  lemma {:induction false} RowHanded(entities: seq<Entity>, was: map<Place, seq<Entry>>, i: nat, n: nat)
    returns (order: seq<Turn>)
    requires i < |entities| && n <= |entities| && HasCells(was, |entities|)
    ensures Handed(entities, was, CallsOfRow(entities, i, was, n), order)
    ensures forall t: Turn :: t in order <==> t.i == i && t.j < n && DueItem(entities, was, t)
  {
    hide Handed;
    hide DueItem;
    hide Before;
    hide CallsOf;
    if n == 0 {
      order := [];
      NothingHanded(entities, was);
    } else {
      var before := RowHanded(entities, was, i, n - 1);
      var q := was[Cell(i, n - 1)];
      var more := CellHanded(entities, was, i, n - 1, |q|);
      assert q[..|q|] == q;
      order := before + more;
      LaterInRow(before, more, i, n - 1);
      HandedBoth(entities, was, CallsOfRow(entities, i, was, n - 1), before, CallsOf(entities, i, n - 1, q), more);
      RowItems(entities, was, i, n - 1);
    }
  }

  lemma {:induction false} RowsHanded(entities: seq<Entity>, was: map<Place, seq<Entry>>, n: nat)
    returns (order: seq<Turn>)
    requires n <= |entities| && HasCells(was, |entities|)
    ensures Handed(entities, was, CallsOfAll(entities, was, n), order)
    ensures forall t: Turn :: t in order <==> t.i < n && SendsTo(entities, t) && DueItem(entities, was, t)
  {
    hide Handed;
    hide DueItem;
    hide Before;
    hide CallsOfRow;
    if n == 0 {
      order := [];
      NothingHanded(entities, was);
    } else {
      var before := RowsHanded(entities, was, n - 1);
      if Sends(entities[n - 1].kind) {
        var more := RowHanded(entities, was, n - 1, |entities|);
        ItemsInside(entities, was);
        order := before + more;
        LaterRow(before, more, n - 1);
        HandedBoth(entities, was, CallsOfAll(entities, was, n - 1), before,
                   CallsOfRow(entities, n - 1, was, |entities|), more);
      } else {
        order := before;
        assert CallsOfAll(entities, was, n - 1) + [] == CallsOfAll(entities, was, n - 1);
      }
    }
  }

  lemma RowItems(entities: seq<Entity>, was: map<Place, seq<Entry>>, i: nat, j: nat)
    requires Cell(i, j) in was
    ensures forall t: Turn :: DueItem(entities, was, t) && t.i == i && t.j == j ==> t.k < |was[Cell(i, j)]|
  {
  }

  lemma ItemsInside(entities: seq<Entity>, was: map<Place, seq<Entry>>)
    ensures forall t: Turn :: DueItem(entities, was, t) ==> t.i < |entities| && t.j < |entities|
  {
  }

  /** Only writers, repliers and requesters send. */
  ghost predicate SendsTo(entities: seq<Entity>, t: Turn) {
    && t.i < |entities|
    && (entities[t.i].kind == DataWriter || entities[t.i].kind == Replier || entities[t.i].kind == Requester)
  }

  /** The calls are exactly those that are due: one for each item that a writer, a replier or a requester has
      sent to an entity that is to be called, row by row and list by list, the newest item of a list first. */
  ghost predicate AllHanded(entities: seq<Entity>, was: map<Place, seq<Entry>>, calls: seq<Call>) {
    exists order: seq<Turn> ::
      && Handed(entities, was, calls, order)
      && forall t: Turn :: t in order <==> SendsTo(entities, t) && DueItem(entities, was, t)
  }

  lemma EverythingHanded(entities: seq<Entity>, was: map<Place, seq<Entry>>)
    requires HasCells(was, |entities|)
    ensures AllHanded(entities, was, CallsOfAll(entities, was, |entities|))
  {
    hide Handed;
    hide DueItem;
    var order := RowsHanded(entities, was, |entities|);
  }

  /** The same for one list. */
  ghost predicate ListHanded(entities: seq<Entity>, i: nat, j: nat, q: seq<Entry>, calls: seq<Call>) {
    var was: map<Place, seq<Entry>> := map[Cell(i, j) := q];
    exists order: seq<Turn> ::
      && Handed(entities, was, calls, order)
      && forall t: Turn :: t in order <==> t.i == i && t.j == j && DueItem(entities, was, t)
  }

  lemma OneListHanded(entities: seq<Entity>, i: nat, j: nat, q: seq<Entry>)
    requires i < |entities| && j < |entities|
    ensures ListHanded(entities, i, j, q, CallsOf(entities, i, j, q))
  {
    hide Handed;
    hide CallsOf;
    var was: map<Place, seq<Entry>> := map[Cell(i, j) := q];
    assert q[..|q|] == q;
    var order := CellHanded(entities, was, i, j, |q|);
    assert forall t: Turn :: t in order <==> t.i == i && t.j == j && DueItem(entities, was, t);
  }

  /** Where an item is: on which list, and on top of how many others. */
  datatype Spot = Spot(p: Place, k: nat)

  type Lists = map<Place, seq<Item>>
  type Spots = map<Item, Spot>

  ghost predicate HasSpot(lists: Lists, spots: Spots, x: Item) {
    && x in spots && spots[x].p in lists && spots[x].k < |lists[spots[x].p]|
    && lists[spots[x].p][spots[x].k] == x
  }

  ghost predicate OnSpots(s: seq<Item>, p: Place, spots: Spots, present: set<Item>) {
    forall k | 0 <= k < |s| :: s[k] in present && s[k] in spots && spots[s[k]] == Spot(p, k)
  }

  /** Every item that is present is on exactly one list, once, and nothing else is on any. */
  ghost predicate Partition(lists: Lists, spots: Spots, present: set<Item>) {
    && (forall p <- lists :: OnSpots(lists[p], p, spots, present))
    && (forall x <- present :: HasSpot(lists, spots, x))
  }

  lemma PartitionPopped(lists: Lists, spots: Spots, present: set<Item>, p: Place)
    requires Partition(lists, spots, present) && p in lists && lists[p] != []
    ensures var n := |lists[p]| - 1;
      lists[p][n] in present && Partition(lists[p := lists[p][..n]], spots, present - {lists[p][n]})
  {
    var n := |lists[p]| - 1;
    var x, lists' := lists[p][n], lists[p := lists[p][..n]];
    assert OnSpots(lists[p], p, spots, present);
    forall q <- lists'
      ensures OnSpots(lists'[q], q, spots, present - {x})
    {
      assert OnSpots(lists[q], q, spots, present);
    }
    forall y <- present - {x}
      ensures HasSpot(lists', spots, y)
    {
      assert HasSpot(lists, spots, y);
    }
  }

  lemma PartitionPushed(lists: Lists, spots: Spots, present: set<Item>, p: Place, x: Item)
    requires Partition(lists, spots, present) && p in lists && x !in present
    ensures Partition(lists[p := lists[p] + [x]], spots[x := Spot(p, |lists[p]|)], present + {x})
  {
    var lists', spots' := lists[p := lists[p] + [x]], spots[x := Spot(p, |lists[p]|)];
    forall q <- lists'
      ensures OnSpots(lists'[q], q, spots', present + {x})
    {
      assert OnSpots(lists[q], q, spots, present);
    }
    forall y <- present + {x}
      ensures HasSpot(lists', spots', y)
    {
      if y != x {
        assert HasSpot(lists, spots, y);
      }
    }
  }

  /** One item is taken from the free list, if there is one, for list p. */
  function Give(lists: Lists, p: Place): Lists
    requires Free in lists && p in lists && p != Free
  {
    var free := lists[Free];
    if free == [] then lists
    else lists[Free := free[..|free| - 1]][p := lists[p] + [free[|free| - 1]]]
  }

  /** The first n entities of a row are given an item each, if they match. */
  ghost function GiveRow(lists: Lists, e: nat, row: seq<bool>, n: nat): (r: Lists)
    requires Free in lists && n <= |row| && forall j: nat | j < |row| :: Cell(e, j) in lists
    ensures r.Keys == lists.Keys
  {
    if n == 0 then lists
    else
      var before := GiveRow(lists, e, row, n - 1);
      if row[n - 1] then Give(before, Cell(e, n - 1)) else before
  }

  lemma GiveRowNone(lists: Lists, e: nat, row: seq<bool>)
    requires Free in lists && forall j: nat | j < |row| :: Cell(e, j) in lists
    ensures GiveRow(lists, e, row, 0) == lists
  {
  }

  lemma GiveRowNext(lists: Lists, e: nat, row: seq<bool>, n: nat)
    requires Free in lists && n < |row| && forall j: nat | j < |row| :: Cell(e, j) in lists
    ensures var before := GiveRow(lists, e, row, n);
      GiveRow(lists, e, row, n + 1) == if row[n] then Give(before, Cell(e, n)) else before
  {
  }

  function Matching(row: seq<bool>, n: nat): (m: nat)
    requires n <= |row|
    ensures m <= n
  {
    if n == 0 then 0 else Matching(row, n - 1) + if row[n - 1] then 1 else 0
  }

  /** What entity j of the row gets. */
  ghost function GivenTo(free: seq<Item>, row: seq<bool>, n: nat, j: nat): seq<Item>
    requires n <= |row| && j < |row|
  {
    if j < n && row[j] && Matching(row, j) < |free| then [free[|free| - 1 - Matching(row, j)]] else []
  }

  ghost predicate IsGivenRow(lists: Lists, e: nat, row: seq<bool>, n: nat, r: Lists)
    requires Free in lists && n <= |row| && forall j: nat | j < |row| :: Cell(e, j) in lists
  {
    var free, m := lists[Free], Matching(row, n);
    && r.Keys == lists.Keys
    && r[Free] == free[..if m < |free| then |free| - m else 0]
    && (forall j: nat | j < |row| :: r[Cell(e, j)] == lists[Cell(e, j)] + GivenTo(free, row, n, j))
    && (forall p <- lists | p != Free && !(p.i == e && p.j < |row|) :: r[p] == lists[p])
  }

  /** Each matched destination gets exactly one item, in order, as long as there are free ones; no
      other list changes. */
  lemma {:induction false} RowGiven(lists: Lists, e: nat, row: seq<bool>, n: nat)
    requires Free in lists && n <= |row| && forall j: nat | j < |row| :: Cell(e, j) in lists
    ensures IsGivenRow(lists, e, row, n, GiveRow(lists, e, row, n))
  {
    hide IsGivenRow;
    hide GiveRow;
    hide Give;
    if n > 0 {
      RowGiven(lists, e, row, n - 1);
      OneMoreGiven(lists, e, row, n, GiveRow(lists, e, row, n - 1));
      GiveRowNext(lists, e, row, n - 1);
    } else {
      GiveRowNone(lists, e, row);
      NoneGiven(lists, e, row);
    }
  }

  lemma NoneGiven(lists: Lists, e: nat, row: seq<bool>)
    requires Free in lists && forall j: nat | j < |row| :: Cell(e, j) in lists
    ensures IsGivenRow(lists, e, row, 0, lists)
  {
    assert forall p <- lists :: lists[p] + [] == lists[p];
  }

  lemma OneMoreGiven(lists: Lists, e: nat, row: seq<bool>, n: nat, before: Lists)
    requires Free in lists && 0 < n <= |row| && forall j: nat | j < |row| :: Cell(e, j) in lists
    requires IsGivenRow(lists, e, row, n - 1, before)
    ensures IsGivenRow(lists, e, row, n, if row[n - 1] then Give(before, Cell(e, n - 1)) else before)
  {
    var free, m := lists[Free], Matching(row, n - 1);
    var r := if row[n - 1] then Give(before, Cell(e, n - 1)) else before;
    assert Matching(row, n) == m + if row[n - 1] then 1 else 0;
    hide Matching;
    forall j: nat | j < |row|
      ensures r[Cell(e, j)] == lists[Cell(e, j)] + GivenTo(free, row, n, j)
    {
      assert before[Cell(e, j)] == lists[Cell(e, j)] + GivenTo(free, row, n - 1, j);
      if j == n - 1 {
        assert GivenTo(free, row, n - 1, j) == [];
        assert before[Cell(e, j)] == lists[Cell(e, j)];
      } else {
        assert r[Cell(e, j)] == before[Cell(e, j)];
      }
    }
  }

  /** The last item of list p is free again. */
  ghost predicate Freed(before: Lists, p: Place, now: Lists) {
    && p in before && Free in before && p != Free && before[p] != []
    && now == before[p := before[p][..|before[p]| - 1]][Free := before[Free] + [before[p][|before[p]| - 1]]]
  }

  lemma FreedInTwo(before: Lists, mid: Lists, now: Lists, p: Place)
    requires p in before && Free in before && p != Free && before[p] != []
    requires mid == before[p := before[p][..|before[p]| - 1]]
    requires now == mid[Free := mid[Free] + [before[p][|before[p]| - 1]]]
    ensures Freed(before, p, now) && p in now && now[p] == before[p][..|before[p]| - 1]
  {
  }

  lemma EmptyBelow(s: seq<Item>)
    ensures s == [] ==> Below(s, |s|) == null
  {
  }

  lemma BelowTop(s: seq<Item>)
    ensures s != [] ==> Below(s, |s|) == s[|s| - 1]
  {
  }

  lemma GiveCases(lists: Lists, p: Place)
    requires Free in lists && p in lists && p != Free
    ensures lists[Free] == [] ==> Give(lists, p) == lists && Below(lists[Free], |lists[Free]|) == null
    ensures lists[Free] != [] ==>
              var free, n := lists[Free], |lists[Free]| - 1;
              var mid := lists[Free := free[..n]];
              Give(lists, p) == mid[p := mid[p] + [free[n]]]
  {
  }

  /** Of the cells only p has changed. */
  ghost predicate OnlyFreed(before: Lists, p: Place, now: Lists) {
    now.Keys == before.Keys && p in now && forall q <- now | q.Cell? && q != p :: now[q] == before[q]
  }

  lemma NothingFreed(before: Lists, p: Place)
    requires p in before
    ensures OnlyFreed(before, p, before)
  {
  }

  lemma MoreFreed(before: Lists, now: Lists, after: Lists, p: Place)
    requires OnlyFreed(before, p, now) && Freed(now, p, after)
    ensures OnlyFreed(before, p, after) && now[p] != [] && |after[p]| < |now[p]|
  {
  }

  lemma NoEntries(s: seq<Item>)
    ensures s == [] ==> Entries(s) == []
  {
  }

  ghost function NoItems(n: nat): (r: Lists)
    ensures forall p :: p in r <==> p.Free? || (p.i < n && p.j < n)
    ensures forall p <- r :: r[p] == []
  {
    (map i: nat, j: nat | i < n && j < n :: Cell(i, j) := [])[Free := []]
  }

  lemma NoneOnLists(lists: Lists, items: set<Item>)
    requires (forall p <- lists :: lists[p] == []) && items == {}
    ensures Partition(lists, map[], items)
  {
  }

  lemma StampMore(was: seq<Entry>, before: seq<Entry>, now: seq<Entry>, entry: Entry, n: nat, given: bool)
    requires before == was + Repeat(entry, n) && now == before + if given then [entry] else []
    ensures now == was + Repeat(entry, if given then n + 1 else n)
  {
    if given {
      assert Repeat(entry, n) + [entry] == Repeat(entry, n + 1);
      assert was + Repeat(entry, n) + [entry] == was + (Repeat(entry, n) + [entry]);
    }
  }

  /** The items of s are linked, from `head` on, from its end to its beginning. */
  ghost predicate Chain(head: Item?, s: seq<Item>)
    reads s`next
  {
    head == Below(s, |s|) && forall k | 0 <= k < |s| :: s[k].next == Below(s, k)
  }

  lemma ChainPopped(head: Item?, s: seq<Item>)
    requires Chain(head, s) && s != []
    ensures head == s[|s| - 1] && Chain(s[|s| - 1].next, s[..|s| - 1])
  {
  }

  lemma ChainPushed(head: Item?, s: seq<Item>, x: Item)
    requires Chain(head, s) && x.next == head
    ensures Chain(x, s + [x])
  {
  }

  class SharedMemoryMap {
    const pool: seq<Item>
    const lists: array2<Item?>
    const matched: array2<bool>
    const entities: seq<Entity>
    var freeItems: Item?

    /** The items of the pool, those of every list, and where each is. */
    ghost const items: set<Item>
    ghost var contents: Lists
    ghost var spots: Spots

    ghost predicate IsPlace(p: Place) {
      p.Free? || (p.i < lists.Length0 && p.j < lists.Length1)
    }

    ghost function Head(p: Place): Item?
      requires IsPlace(p)
      reads this`freeItems, lists
    {
      match p
      case Free => freeItems
      case Cell(i, j) => lists[i, j]
    }

    ghost predicate Shape() {
      && lists.Length0 == lists.Length1 == matched.Length0 == matched.Length1
      && |entities| <= lists.Length0
      && (forall k, l | 0 <= k < l < |pool| :: pool[k] != pool[l])
      && (forall x <- items :: x in pool) && (forall x <- pool :: x in items)
    }

    /** Every item of the pool but the loose ones is on exactly one list, the free one or that of one
        cell; the lists are linked from their heads and have no cycles. */
    ghost predicate Valid(loose: set<Item>)
      reads this`freeItems, this`contents, this`spots, lists, items`next
    {
      && Shape() && loose <= items
      && (forall p :: p in contents <==> IsPlace(p))
      && Partition(contents, spots, items - loose)
      && (forall p <- contents :: Linked(p))
    }

    ghost predicate Linked(p: Place)
      requires IsPlace(p) && p in contents
      reads this`freeItems, this`contents, lists, items`next
    {
      LinkedAs(p, contents[p])
    }

    /** List p is linked, and its items are those of s. */
    ghost predicate LinkedAs(p: Place, s: seq<Item>)
      requires IsPlace(p)
      reads this`freeItems, lists, items`next
    {
      (forall x <- s :: x in items) && Chain(Head(p), s)
    }

    /** The location of the head of list p. */
    method SetHead(p: Place, head: Item?)
      requires IsPlace(p)
      modifies this`freeItems, lists
      ensures Head(p) == head && forall q | IsPlace(q) && q != p :: Head(q) == old(Head(q))
    {
      if p.Free? {
        freeItems := head;
      } else {
        lists[p.i, p.j] := head;
      }
    }

    method GetHead(p: Place) returns (head: Item?)
      requires IsPlace(p)
      ensures head == Head(p)
    {
      head := if p.Free? then freeItems else lists[p.i, p.j];
    }

    lemma ListOf(p: Place, loose: set<Item>)
      requires Valid(loose) && IsPlace(p)
      ensures p in contents && (forall x <- contents[p] :: x in items && x !in loose)
      ensures Chain(Head(p), contents[p]) && Head(p) == Below(contents[p], |contents[p]|)
    {
      assert Linked(p) && OnSpots(contents[p], p, spots, items - loose);
    }

    /** The head of list p moves on to the next item; the other lists stay as they are. */
    method Unlink(p: Place, ghost s: seq<Item>, ghost lists': Lists)
      requires IsPlace(p) && LinkedAs(p, s) && s != [] && s[|s| - 1] == Head(p)
      requires forall q <- lists' :: IsPlace(q) && LinkedAs(q, lists'[q])
      modifies this`freeItems, lists
      ensures LinkedAs(p, s[..|s| - 1])
      ensures forall q <- lists' | q != p :: LinkedAs(q, lists'[q])
    {
      hide Chain;
      ChainPopped(Head(p), s);
      var member := GetHead(p);
      SetHead(p, member.next);
      forall q <- lists' | q != p
        ensures LinkedAs(q, lists'[q])
      {
        assert old(LinkedAs(q, lists'[q]));
      }
    }

    /** An item comes before the head of list p; it is on no other list. */
    method Link(member: Item, p: Place, ghost s: seq<Item>, ghost lists': Lists)
      requires IsPlace(p) && LinkedAs(p, s) && member !in s && member in items
      requires forall q <- lists' :: IsPlace(q) && LinkedAs(q, lists'[q]) && member !in lists'[q]
      modifies this`freeItems, lists, member`next
      ensures LinkedAs(p, s + [member])
      ensures forall q <- lists' | q != p :: LinkedAs(q, lists'[q])
    {
      hide Chain;
      member.next := GetHead(p);
      ChainPushed(member.next, s, member);
      SetHead(p, member);
      forall q <- lists' | q != p
        ensures LinkedAs(q, lists'[q])
      {
        assert old(LinkedAs(q, lists'[q]));
      }
    }

    lemma ListsLinked(loose: set<Item>)
      requires Valid(loose)
      ensures Shape() && loose <= items && (forall p :: p in contents <==> IsPlace(p))
      ensures Partition(contents, spots, items - loose)
      ensures forall p <- contents :: LinkedAs(p, contents[p])
      ensures forall p <- contents :: forall x <- loose :: x !in contents[p]
    {
      hide Chain;
      hide Partition;
      assert forall p <- contents :: Linked(p);
      forall p <- contents
        ensures forall x <- loose :: x !in contents[p]
      {
        ListOf(p, loose);
      }
    }

    /** uxr_pop_head_from_list. */
    method PopHead(p: Place, ghost loose: set<Item>) returns (member: Item?)
      requires Valid(loose) && IsPlace(p)
      modifies this`freeItems, this`contents, lists
      ensures p in old(contents) && member == Below(old(contents)[p], |old(contents)[p]|)
      ensures member == null ==> Valid(loose) && contents == old(contents)
      ensures member != null ==>
                member in items && member !in loose && Valid(loose + {member})
                && contents == old(contents)[p := old(contents)[p][..|old(contents)[p]| - 1]]
    {
      hide Chain;
      hide Partition;
      hide LinkedAs;
      ListsLinked(loose);
      ListOf(p, loose);
      member := GetHead(p);
      if member != null {
        ghost var s := contents[p];
        PartitionPopped(contents, spots, items - loose, p);
        Unlink(p, s, contents);
        contents := contents[p := s[..|s| - 1]];
        assert items - loose - {member} == items - (loose + {member});
      }
    }

    /** uxr_prepend_to_list. */
    method PrependTo(member: Item, p: Place, ghost loose: set<Item>)
      requires Valid(loose) && IsPlace(p) && member in loose
      modifies this`freeItems, this`contents, this`spots, lists, member`next
      ensures p in old(contents) && contents == old(contents)[p := old(contents)[p] + [member]]
      ensures Valid(loose - {member})
    {
      hide Chain;
      hide Partition;
      hide LinkedAs;
      ListsLinked(loose);
      ghost var s := contents[p];
      PartitionPushed(contents, spots, items - loose, p, member);
      Link(member, p, s, contents);
      spots := spots[member := Spot(p, |s|)];
      contents := contents[p := s + [member]];
      assert items - loose + {member} == items - (loose - {member});
    }

    /** A zeroed map, before uxr_init_shared_memory. */
    constructor (pool: seq<Item>, entities: seq<Entity>, matched: array2<bool>)
      requires forall k, l | 0 <= k < l < |pool| :: pool[k] != pool[l]
      requires matched.Length0 == matched.Length1 >= |entities|
      ensures Shape() && Valid(items) && fresh(lists)
      ensures this.pool == pool && this.entities == entities && this.matched == matched
      ensures Free in contents && forall p <- contents :: contents[p] == []
      ensures forall x :: x in items <==> x in pool
    {
      var n := matched.Length0;
      this.pool, this.entities, this.matched := pool, entities, matched;
      lists := new Item?[n, n]((i, j) => null);
      freeItems := null;
      items := set x | x in pool;
      contents := NoItems(n);
      spots := map[];
      new;
      NoneOnLists(contents, items - items);
    }

    /** uxr_init_shared_memory: all items are free. */
    method Init()
      requires Shape() && Valid(items) && Free in contents && forall p <- contents :: contents[p] == []
      modifies this`freeItems, this`contents, this`spots, lists, items
      ensures Valid({}) && contents == old(contents)[Free := pool]
    {
      hide Valid;
      ghost var loose := items;
      var i := 0;
      assert pool[0..] == pool && pool[..0] == [];
      while i < |pool|
        invariant i <= |pool| && Valid(loose) && (forall x :: x in loose <==> x in pool[i..])
        invariant Free in contents && contents == old(contents)[Free := pool[..i]]
      {
        ghost var rest := pool[i + 1..];
        assert pool[i..] == [pool[i]] + rest && pool[..i + 1] == pool[..i] + [pool[i]];
        assert pool[i] !in rest;
        PrependTo(pool[i], Free, loose);
        loose := loose - {pool[i]};
        i := i + 1;
      }
      assert loose == {} && pool[..i] == pool;
      assert Valid(loose);
    }

    /** uxr_shared_memory_get_entity_index: the first entity with this session key, id and kind. */
    method GetEntityIndex(sessionKey: seq<byte>, id: SeqNum, kind: EntityKind) returns (index: int)
      ensures -1 <= index < |entities|
      ensures index >= 0 ==>
                entities[index].sessionKey == sessionKey && entities[index].id == id && entities[index].kind == kind
      ensures forall k | 0 <= k < if index < 0 then |entities| else index ::
                entities[k].sessionKey != sessionKey || entities[k].id != id || entities[k].kind != kind
    {
      var i := 0;
      while i < |entities|
        invariant i <= |entities| && forall k | 0 <= k < i :: !Same(entities[k], sessionKey, id, kind)
      {
        if Same(entities[i], sessionKey, id, kind) {
          return i;
        }
        i := i + 1;
      }
      return -1;
    }

    ghost function Row(e: nat): seq<bool>
      requires Shape() && e < |entities|
      reads matched
    {
      seq(|entities|, j requires 0 <= j < |entities| reads matched => matched[e, j])
    }

    /** An item is filled and put on the list of its destination. */
    method Fill(item: Item, p: Place, sample: Sample, requestId: SeqNum)
      requires Valid({item}) && IsPlace(p)
      modifies this`freeItems, this`contents, this`spots, lists, item
      ensures Valid({}) && p in old(contents) && contents == old(contents)[p := old(contents)[p] + [item]]
      ensures forall q <- contents ::
                Entries(contents[q]) == old(Entries(contents[q])) + if q == p then [Entry(sample, requestId)] else []
    {
      hide Valid;
      hide Entries;
      hide Shape;
      hide IsPlace;
      ListsOf({item});
      item.sample, item.requestId := sample, requestId;
      ghost var before := contents;
      forall q <- before
        ensures Entries(before[q]) == old(Entries(contents[q])) && Entries(before[q]) + [] == Entries(before[q])
      {
        assert item !in before[q];
      }
      PrependTo(item, p, {item});
      assert {item} - {item} == {};
      EntriesPushed(before[p], item);
      forall q <- contents
        ensures Entries(contents[q]) == old(Entries(contents[q])) + if q == p then [Entry(sample, requestId)] else []
      {
        assert q != p ==> contents[q] == before[q];
      }
    }

    /** A free item, if there is one; what the cells hold does not change. */
    method TakeFree() returns (item: Item?)
      requires Valid({}) && IsPlace(Free)
      modifies this`freeItems, this`contents, lists
      ensures Free in old(contents) && (item == null <==> old(contents)[Free] == [])
      ensures item == null ==> Valid({}) && contents == old(contents)
      ensures item != null ==>
        var free := old(contents)[Free];
        && item in items && Valid({item}) && item == free[|free| - 1]
        && contents == old(contents)[Free := free[..|free| - 1]]
      ensures forall q <- contents | q.Cell? :: Entries(contents[q]) == old(Entries(contents[q]))
    {
      hide *;
      PlacesIn(Free);
      ghost var before := contents;
      BelowTop(before[Free]);
      EmptyBelow(before[Free]);
      item := PopHead(Free, {});
      assert {} + {item} == {item};
    }

    /** A matched destination is given an item, if there is a free one. */
    method GiveItem(p: Place, sample: Sample, requestId: SeqNum)
      requires Valid({}) && p.Cell? && IsPlace(p)
      modifies this`freeItems, this`contents, this`spots, lists, items
      ensures Valid({}) && Free in old(contents) && p in old(contents) && contents == Give(old(contents), p)
      ensures forall q <- contents | q.Cell? ::
                Entries(contents[q]) == old(Entries(contents[q]))
                  + if q == p && old(contents)[Free] != [] then [Entry(sample, requestId)] else []
    {
      hide *;
      PlacesIn(p);
      ghost var before := contents;
      GiveCases(before, p);
      var item := TakeFree();
      if item != null {
        Fill(item, p, sample, requestId);
      } else {
        forall q <- contents | q.Cell?
          ensures Entries(contents[q]) == old(Entries(contents[q])) + []
        {
        }
      }
    }

    lemma PlacesIn(p: Place)
      requires Valid({}) && IsPlace(p)
      ensures IsPlace(Free) && Free in contents && p in contents
    {
    }

    /** One destination of uxr_prepare_shared_memory. */
    method PrepareOne(e: nat, i: nat, sample: Sample, requestId: SeqNum)
      requires Valid({}) && e < |entities| && i < |entities| && Shape()
      modifies this`freeItems, this`contents, this`spots, lists, items
      ensures Valid({}) && Free in old(contents) && Cell(e, i) in old(contents)
      ensures contents == if matched[e, i] then Give(old(contents), Cell(e, i)) else old(contents)
      ensures forall p <- contents | p.Cell? ::
                Entries(contents[p]) == old(Entries(contents[p]))
                  + if p == Cell(e, i) && matched[e, i] && old(contents)[Free] != [] then [Entry(sample, requestId)] else []
    {
      hide Valid;
      hide Entries;
      hide Give;
      CellPlaces(e, i);
      if matched[e, i] {
        GiveItem(Cell(e, i), sample, requestId);
      } else {
        forall p <- contents
          ensures Entries(contents[p]) == old(Entries(contents[p])) + []
        {
        }
      }
    }

    lemma CellPlaces(e: nat, i: nat)
      requires Valid({}) && Shape() && e < |entities| && i < |entities|
      ensures IsPlace(Free) && IsPlace(Cell(e, i)) && Free in contents && Cell(e, i) in contents
    {
    }

    lemma ListsOf(loose: set<Item>)
      requires Valid(loose)
      ensures forall p :: p in contents <==> IsPlace(p)
      ensures forall p <- contents :: forall x <- contents[p] :: x in items && x !in loose
      ensures forall p, q | p in contents && q in contents && p != q :: forall x <- contents[p] :: x !in contents[q]
    {
    }

    /** What the lists carry. */
    ghost function Carried(): map<Place, seq<Entry>>
      reads this`contents, items`sample, items`requestId
    {
      map p | p in contents && OfPool(contents[p]) :: Entries(contents[p])
    }

    ghost predicate OfPool(s: seq<Item>) {
      forall x <- s :: x in items
    }

    /** The new items of each cell carry the sample; what was there before is still there. */
    ghost predicate Stamped(was: map<Place, seq<Entry>>, entry: Entry)
      reads this`contents, items`sample, items`requestId
    {
      forall p <- contents | p.Cell? ::
        && p in was && |was[p]| <= |contents[p]| && OfPool(contents[p])
        && Entries(contents[p]) == was[p] + Repeat(entry, |contents[p]| - |was[p]|)
    }

    /** One destination, in terms of what there was at the beginning. */
    method StampOne(e: nat, i: nat, ghost was: map<Place, seq<Entry>>, entry: Entry)
      requires Valid({}) && e < |entities| && i < |entities| && Shape() && Stamped(was, entry)
      modifies this`freeItems, this`contents, this`spots, lists, items
      ensures Valid({}) && Free in old(contents) && Cell(e, i) in old(contents)
      ensures contents == if matched[e, i] then Give(old(contents), Cell(e, i)) else old(contents)
      ensures Stamped(was, entry)
    {
      hide Valid;
      hide Entries;
      hide Repeat;
      hide OfPool;
      ghost var before := contents;
      ListsOf({});
      PrepareOne(e, i, entry.sample, entry.requestId);
      ListsOf({});
      ghost var given := matched[e, i] && before[Free] != [];
      forall p <- contents | p.Cell?
        ensures p in was && |was[p]| <= |contents[p]|
        ensures Entries(contents[p]) == was[p] + Repeat(entry, |contents[p]| - |was[p]|)
      {
        StampMore(was[p], old(Entries(contents[p])), Entries(contents[p]), entry, |before[p]| - |was[p]|,
                  given && p == Cell(e, i));
      }
      AllOfPool({});
    }

    lemma AllOfPool(loose: set<Item>)
      requires Valid(loose)
      ensures forall p <- contents :: OfPool(contents[p])
    {
      ListsOf(loose);
    }

    /** The loop of uxr_prepare_shared_memory. */
    method PrepareRow(e: nat, entry: Entry)
      requires Valid({}) && Shape() && e < |entities|
      modifies this`freeItems, this`contents, this`spots, lists, items
      ensures Valid({}) && Stamped(old(Carried()), entry)
      ensures Free in old(contents) && (forall j: nat | j < |entities| :: Cell(e, j) in old(contents))
      ensures IsGivenRow(old(contents), e, Row(e), |entities|, contents)
    {
      hide Valid;
      hide Entries;
      hide Give;
      hide GiveRow;
      hide IsGivenRow;
      hide Stamped;
      ghost var was, before, row := Carried(), contents, Row(e);
      ListsOf({});
      NothingStamped(entry);
      GiveRowNone(before, e, row);
      var i := 0;
      while i < |entities|
        invariant i <= |entities| && Valid({}) && Stamped(was, entry)
        invariant contents == GiveRow(before, e, row, i)
      {
        GiveRowNext(before, e, row, i);
        StampOne(e, i, was, entry);
        i := i + 1;
      }
      RowGiven(before, e, row, |entities|);
    }

    lemma NothingStamped(entry: Entry)
      requires Valid({})
      ensures Stamped(Carried(), entry)
    {
      hide Entries;
      hide Valid;
      ListsOf({});
      assert forall p <- contents :: Entries(contents[p]) + Repeat(entry, 0) == Entries(contents[p]);
    }

    /** uxr_prepare_shared_memory: every matched destination is given one item with the sample, as long
        as there are free items. */
    method Prepare(sessionKey: seq<byte>, id: SeqNum, kind: EntityKind, sample: Sample, requestId: SeqNum)
      returns (index: int)
      requires Valid({}) && Shape()
      modifies this`freeItems, this`contents, this`spots, lists, items
      ensures Valid({}) && -1 <= index < |entities|
      ensures forall k | 0 <= k < if index < 0 then |entities| else index ::
                entities[k].sessionKey != sessionKey || entities[k].id != id || entities[k].kind != kind
      ensures index >= 0 ==>
                entities[index].sessionKey == sessionKey && entities[index].id == id && entities[index].kind == kind
      ensures index < 0 ==> contents == old(contents)
      ensures index >= 0 ==>
                && Free in old(contents) && (forall j: nat | j < |entities| :: Cell(index, j) in old(contents))
                && IsGivenRow(old(contents), index, Row(index), |entities|, contents)
      ensures Stamped(old(Carried()), Entry(sample, requestId))
    {
      hide Valid;
      hide Stamped;
      hide IsGivenRow;
      NothingStamped(Entry(sample, requestId));
      index := GetEntityIndex(sessionKey, id, kind);
      if index >= 0 {
        PrepareRow(index, Entry(sample, requestId));
      }
    }

    /** One item of uxr_handle_shared_memory: its callback is called, and it is free again. */
    method HandleOne(i: nat, j: nat) returns (calls: seq<Call>)
      requires Valid({}) && Shape() && i < |entities| && j < |entities| && lists[i, j] != null
      modifies this`freeItems, this`contents, this`spots, lists, items`next
      ensures Valid({}) && Freed(old(contents), Cell(i, j), contents)
      ensures Entries(contents[Cell(i, j)]) == old(Entries(contents[Cell(i, j)]))[..|old(contents)[Cell(i, j)]| - 1]
      ensures var q := old(Entries(contents[Cell(i, j)]));
        && calls == Calls(entities, i, j, q[|q| - 1].sample, q[|q| - 1].requestId)
        && |calls| == (if Due(entities[j], q[|q| - 1]) then 1 else 0)
        && (calls != [] ==> Answers(calls[0], entities[i], j, entities[j], q[|q| - 1]))
    {
      hide Valid;
      hide Chain;
      hide Partition;
      hide Calls;
      hide Entries;
      hide Freed;
      hide Below;
      CellHead(i, j);
      ghost var before, p := contents, Cell(i, j);
      EntriesPopped(before[p]);
      BelowTop(before[p]);
      var item := PopHead(Cell(i, j), {});
      calls := Calls(entities, i, j, item.sample, item.requestId);
      CallsExactly(entities, i, j, Entry(item.sample, item.requestId));
      ghost var mid := contents;
      assert {} + {item} == {item} && {item} - {item} == {};
      PrependTo(item, Free, {item});
      FreedInTwo(before, mid, contents, p);
    }

    /** The innermost loop of uxr_handle_shared_memory. */
    method HandleCell(i: nat, j: nat) returns (calls: seq<Call>)
      requires Valid({}) && Shape() && i < |entities| && j < |entities|
      modifies this`freeItems, this`contents, this`spots, lists, items`next
      ensures Valid({}) && Cell(i, j) in old(contents) && OnlyFreed(old(contents), Cell(i, j), contents)
      ensures contents[Cell(i, j)] == []
      ensures calls == CallsOf(entities, i, j, old(Entries(contents[Cell(i, j)])))
      ensures ListHanded(entities, i, j, old(Entries(contents[Cell(i, j)])), calls)
    {
      hide Valid;
      hide Shape;
      hide Entries;
      hide Calls;
      hide CallsOf;
      hide Chain;
      hide Freed;
      hide OnlyFreed;
      hide ListHanded;
      hide Due;
      hide Answers;
      calls := [];
      CellHead(i, j);
      ghost var before, all := contents, CallsOf(entities, i, j, Entries(contents[Cell(i, j)]));
      NothingFreed(before, Cell(i, j));
      assert [] + all == all;
      while lists[i, j] != null
        invariant Valid({}) && OnlyFreed(before, Cell(i, j), contents)
        invariant Cell(i, j) in contents && (lists[i, j] == null <==> contents[Cell(i, j)] == [])
        invariant calls + CallsOf(entities, i, j, Entries(contents[Cell(i, j)])) == all
        decreases |contents[Cell(i, j)]|
      {
        ghost var now, q := contents, Entries(contents[Cell(i, j)]);
        var more := HandleOne(i, j);
        MoreFreed(before, now, contents, Cell(i, j));
        CellHead(i, j);
        CallsNext(entities, i, j, q, calls, more);
        calls := calls + more;
      }
      NoEntries(contents[Cell(i, j)]);
      CallsNone(entities, i, j);
      assert calls + [] == calls;
      OneListHanded(entities, i, j, old(Entries(contents[Cell(i, j)])));
    }

    /** The list of a cell is empty when its head is null. */
    lemma CellHead(i: nat, j: nat)
      requires Valid({}) && Shape() && i < |entities| && j < |entities|
      ensures i < lists.Length0 && j < lists.Length1
      ensures Free in contents && Cell(i, j) in contents && (lists[i, j] == null <==> contents[Cell(i, j)] == [])
    {
      hide Valid;
      ListsOf({});
      ListOf(Cell(i, j), {});
    }

    /** The cells of row e up to n, and of the sending rows before it. */
    ghost predicate Handled(e: nat, n: nat, p: Place) {
      p.Cell? && p.j < |entities| && ((p.i == e && p.j < n) || (p.i < e && p.i < |entities| && Sends(entities[p.i].kind)))
    }

    /** The cells that have been handled are empty; the others have and carry what they did before. */
    ghost predicate UpTo(before: Lists, was: map<Place, seq<Entry>>, e: nat, n: nat)
      reads this`contents, items`sample, items`requestId
    {
      && contents.Keys == before.Keys
      && (forall p <- contents | p.Cell? :: contents[p] == if Handled(e, n, p) then [] else before[p])
      && (forall p <- contents | p.Cell? && !Handled(e, n, p) ::
            p in was && OfPool(contents[p]) && Entries(contents[p]) == was[p])
    }

    /** One cell, in terms of what there was at the beginning. */
    method HandleNext(e: nat, j: nat, ghost before: Lists, ghost was: map<Place, seq<Entry>>) returns (calls: seq<Call>)
      requires Valid({}) && Shape() && e < |entities| && j < |entities| && UpTo(before, was, e, j)
      modifies this`freeItems, this`contents, this`spots, lists, items`next
      ensures Valid({}) && UpTo(before, was, e, j + 1)
      ensures Cell(e, j) in was && calls == CallsOf(entities, e, j, was[Cell(e, j)])
    {
      hide Valid;
      hide Shape;
      hide Entries;
      hide CallsOf;
      CellHead(e, j);
      calls := HandleCell(e, j);
    }

    /** A row of uxr_handle_shared_memory. */
    method HandleRow(e: nat, ghost before: Lists, ghost was: map<Place, seq<Entry>>) returns (calls: seq<Call>)
      requires Valid({}) && Shape() && e < |entities| && UpTo(before, was, e, 0) && HasCells(was, |entities|)
      modifies this`freeItems, this`contents, this`spots, lists, items`next
      ensures Valid({}) && UpTo(before, was, e, |entities|)
      ensures calls == CallsOfRow(entities, e, was, |entities|)
    {
      hide Valid;
      hide UpTo;
      hide CallsOf;
      calls := [];
      var j := 0;
      while j < |entities|
        invariant j <= |entities| && Valid({}) && UpTo(before, was, e, j)
        invariant calls == CallsOfRow(entities, e, was, j)
      {
        var more := HandleNext(e, j, before, was);
        calls := calls + more;
        j := j + 1;
      }
    }

    lemma RowDone(before: Lists, was: map<Place, seq<Entry>>, e: nat, n: nat)
      requires e < |entities| && UpTo(before, was, e, n) && n == if Sends(entities[e].kind) then |entities| else 0
      ensures UpTo(before, was, e + 1, 0)
    {
      assert forall p: Place :: Handled(e + 1, 0, p) <==> Handled(e, n, p);
    }

    lemma NothingHandled()
      requires Valid({}) && Shape()
      ensures UpTo(contents, Carried(), 0, 0) && HasCells(Carried(), |entities|)
    {
      hide Valid;
      hide Entries;
      ListsOf({});
    }

    /** uxr_handle_shared_memory: every item sent by a writer, a replier or a requester is handed over,
        list by list, the newest first, and is free again; their lists are empty then. */
    method Handle() returns (calls: seq<Call>)
      requires Valid({}) && Shape()
      modifies this`freeItems, this`contents, this`spots, lists, items`next
      ensures Valid({}) && UpTo(old(contents), old(Carried()), |entities|, 0)
      ensures HasCells(old(Carried()), |entities|) && calls == CallsOfAll(entities, old(Carried()), |entities|)
      ensures AllHanded(entities, old(Carried()), calls)
    {
      hide Valid;
      hide UpTo;
      hide CallsOfRow;
      hide Carried;
      hide AllHanded;
      calls := [];
      NothingHandled();
      ghost var before, was := contents, Carried();
      var i := 0;
      while i < |entities|
        invariant i <= |entities| && Valid({}) && UpTo(before, was, i, 0)
        invariant calls == CallsOfAll(entities, was, i)
      {
        if Sends(entities[i].kind) {
          var more := HandleRow(i, before, was);
          calls := calls + more;
          RowDone(before, was, i, |entities|);
        } else {
          RowDone(before, was, i, 0);
          assert calls + [] == calls;
        }
        i := i + 1;
      }
      EverythingHanded(entities, was);
    }

    /** After everything has been handled, every item that is not free belongs to a list that no
        writer, replier or requester sends on. */
    lemma AllFree(before: Lists, was: map<Place, seq<Entry>>, x: Item)
      requires Valid({}) && Shape() && UpTo(before, was, |entities|, 0) && x in items
      requires forall p <- before | p.Cell? && before[p] != [] ::
                 p.i < |entities| && p.j < |entities| && Sends(entities[p.i].kind)
      ensures Free in contents && x in contents[Free]
    {
      assert HasSpot(contents, spots, x);
      ListsOf({});
    }
  }

  lemma CallsNone(entities: seq<Entity>, i: nat, j: nat)
    requires i < |entities| && j < |entities|
    ensures CallsOf(entities, i, j, []) == []
  {
  }

  lemma CallsNext(entities: seq<Entity>, i: nat, j: nat, q: seq<Entry>, calls: seq<Call>, more: seq<Call>)
    requires i < |entities| && j < |entities| && q != []
    requires more == Calls(entities, i, j, q[|q| - 1].sample, q[|q| - 1].requestId)
    ensures calls + CallsOf(entities, i, j, q) == calls + more + CallsOf(entities, i, j, q[..|q| - 1])
  {
  }
}
