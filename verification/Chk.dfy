/**
 The Cuckoo Heavy Keeper of src/chk.c: two tables of buckets, the alternate index, displacement
 of heavy entries and the min-heap of names.
 */
module Chk {
  import opened Basics

  // -------------------------------------------------------------------- alternate index

  /** (a ^ b) & (2^m - 1). */
  function XorLow(a: nat, b: nat, m: nat): nat {
    if m == 0 then 0 else (a % 2 + b % 2) % 2 + 2 * XorLow(a / 2, b / 2, m - 1)
  }

  lemma {:induction false} XorBound(a: nat, b: nat, m: nat)
    ensures XorLow(a, b, m) < Power2(m)
  {
    if m > 0 {
      XorBound(a / 2, b / 2, m - 1);
    }
  }

  lemma {:induction false} XorTwice(a: nat, b: nat, m: nat)
    requires a < Power2(m)
    ensures XorLow(XorLow(a, b, m), b, m) == a
  {
    if m > 0 {
      XorTwice(a / 2, b / 2, m - 1);
      var x := XorLow(a, b, m);
      XorParts((a % 2 + b % 2) % 2, XorLow(a / 2, b / 2, m - 1));
    }
  }

  lemma XorParts(low: nat, high: nat)
    requires low < 2
    ensures (low + 2 * high) / 2 == high && (low + 2 * high) % 2 == low
  {
  }

  const MULTIPLIER := 0x5bd1e995

  /** `generateAltIdx` for a table of 2^m buckets. */
  function AltIdx(fp: nat, idx: nat, m: nat): (r: nat)
    ensures r < Power2(m)
  {
    XorBound(idx, MULTIPLIER * fp, m);
    XorLow(idx, MULTIPLIER * fp, m)
  }

  /** The alternate index of the alternate index is the index. */
  lemma AltIsInverse(fp: nat, idx: nat, m: nat)
    requires idx < Power2(m)
    ensures AltIdx(fp, AltIdx(fp, idx, m), m) == idx
  {
    XorTwice(idx, MULTIPLIER * fp, m);
  }

  // -------------------------------------------------------------------------- tables

  /** counter_t is uint64_t. */
  datatype Entry = Entry(count: nat, fp: nat)

  /** A place for a heavy entry: table, bucket, position in the bucket. */
  datatype Place = Place(table: nat, idx: nat, pos: nat)

  predicate IsPlace(p: Place, m: nat) {
    p.table < 2 && p.idx < Power2(m) && p.pos < 2
  }

  /** Places in memory order. */
  function Cell(p: Place, m: nat): nat {
    2 * (p.idx + if p.table == 0 then 0 else Power2(m)) + p.pos
  }

  function PlaceOf(cell: nat, m: nat): Place {
    var b := cell / 2;
    if b < Power2(m) then Place(0, b, cell % 2) else Place(1, b - Power2(m), cell % 2)
  }

  lemma CellOfPlace(p: Place, m: nat)
    requires IsPlace(p, m)
    ensures Cell(p, m) < 4 * Power2(m) && PlaceOf(Cell(p, m), m) == p
  {
  }

  /** The first index of the items that look at a place for a fingerprint. */
  function Home(p: Place, fp: nat, m: nat): nat {
    if p.table == 0 then p.idx else AltIdx(fp, p.idx, m)
  }

  /** A heavy entry as a lookup sees it. */
  datatype Heavy = Heavy(home: nat, fp: nat, count: nat)

  function One(p: Place, e: Entry, m: nat): multiset<Heavy> {
    if e.count > 0 then multiset{Heavy(Home(p, e.fp, m), e.fp, e.count)} else multiset{}
  }

  /** All heavy entries of the first `n` places. */
  function Heavies(cells: seq<Entry>, n: nat, m: nat): multiset<Heavy>
    requires n <= |cells|
  {
    if n == 0 then multiset{} else Heavies(cells, n - 1, m) + One(PlaceOf(n - 1, m), cells[n - 1], m)
  }

  lemma {:induction false} HeaviesUpdate(cells: seq<Entry>, n: nat, i: nat, e: Entry, m: nat)
    requires i < |cells| && n <= |cells|
    ensures
      var a, b := Heavies(cells[i := e], n, m), Heavies(cells, n, m);
      if i < n then a + One(PlaceOf(i, m), cells[i], m) == b + One(PlaceOf(i, m), e, m) else a == b
  {
    hide One, PlaceOf;
    if n > 0 {
      HeaviesUpdate(cells, n - 1, i, e, m);
      var old', new' := One(PlaceOf(i, m), cells[i], m), One(PlaceOf(i, m), e, m);
      var a, b := Heavies(cells[i := e], n - 1, m), Heavies(cells, n - 1, m);
      if i < n - 1 {
        AddBoth(a, old', b, new', One(PlaceOf(n - 1, m), cells[n - 1], m));
      } else if i == n - 1 {
        assert a + new' + old' == b + old' + new';
      }
    }
  }

  lemma AddBoth(a: multiset<Heavy>, x: multiset<Heavy>, b: multiset<Heavy>, y: multiset<Heavy>, more: multiset<Heavy>)
    requires a + x == b + y
    ensures a + more + x == b + more + y
  {
    assert a + more + x == (a + x) + more;
    assert b + more + y == (b + y) + more;
  }

  /** An item: its fingerprint and its bucket in the first table. */
  datatype Item = Item(fp: nat, idx: nat)

  /** The bucket of an item in each table. */
  function IndexIn(item: Item, table: nat, m: nat): nat {
    if table == 0 then item.idx else AltIdx(item.fp, item.idx, m)
  }

  /** A lookup looks at a place for its own fingerprint exactly if the place is at home with the item. */
  lemma LooksAtHome(item: Item, p: Place, m: nat)
    requires item.idx < Power2(m) && IsPlace(p, m)
    ensures p.idx == IndexIn(item, p.table, m) <==> Home(p, item.fp, m) == item.idx
  {
    AltIsInverse(item.fp, item.idx, m);
    AltIsInverse(item.fp, p.idx, m);
  }

  /** Moving an entry to its alternate place keeps its home. */
  lemma MovedIsAtHome(p: Place, q: Place, fp: nat, m: nat)
    requires IsPlace(p, m) && q.table == 1 - p.table && q.idx == AltIdx(fp, p.idx, m)
    ensures Home(q, fp, m) == Home(p, fp, m)
  {
    AltIsInverse(fp, p.idx, m);
  }

  function CountAt(cells: seq<Entry>, p: Place, m: nat): nat {
    if Cell(p, m) < |cells| then cells[Cell(p, m)].count else 0
  }

  /** A bucket with an empty position. */
  predicate HasRoom(cells: seq<Entry>, table: nat, idx: nat, m: nat) {
    CountAt(cells, Place(table, idx, 0), m) == 0 || CountAt(cells, Place(table, idx, 1), m) == 0
  }

  /** No position of a full bucket has a smaller count. */
  predicate IsSmallest(cells: seq<Entry>, p: Place, m: nat) {
    && CountAt(cells, p, m) <= CountAt(cells, Place(p.table, p.idx, 0), m)
    && CountAt(cells, p, m) <= CountAt(cells, Place(p.table, p.idx, 1), m)
  }

  const MAX_KICKS := 16

  class Keeper {
    const m: nat                    // numbuckets is 2^m
    const cells: array<Entry>       // the heavy entries of both tables
    const lobby: array<Entry>       // the lobby entries of both tables
    var isHeavy: nat -> bool        // isHeavyHitter at the current total

    ghost predicate Valid()
      reads this, cells, lobby
    {
      cells.Length == 4 * Power2(m) && lobby.Length == 2 * Power2(m)
    }

    ghost function View(): multiset<Heavy>
      reads this, cells, lobby
      requires Valid()
    {
      Heavies(cells[..], cells.Length, m)
    }

    constructor (bits: nat, heavy: nat -> bool)
      ensures Valid() && m == bits && isHeavy == heavy && View() == multiset{}
    {
      m := bits;
      cells := new Entry[4 * Power2(bits)](i => Entry(0, 0));
      lobby := new Entry[2 * Power2(bits)](i => Entry(0, 0));
      isHeavy := heavy;
      new;
      NoHeavies(cells[..], cells.Length, m);
    }

    /** Writing one place exchanges one heavy entry for another. */
    method Put(p: Place, e: Entry) returns (old': Entry)
      requires Valid() && IsPlace(p, m)
      modifies cells
      ensures Valid() && old' == old(cells[Cell(p, m)]) && cells[..] == old(cells[..])[Cell(p, m) := e]
      ensures View() + One(p, old', m) == old(View()) + One(p, e, m)
    {
      hide Heavies, One, Cell, PlaceOf;
      CellOfPlace(p, m);
      ghost var before := cells[..];
      old' := cells[Cell(p, m)];
      cells[Cell(p, m)] := e;
      assert cells[..] == before[Cell(p, m) := e];
      HeaviesUpdate(before, |before|, Cell(p, m), e, m);
    }

    /** The scan of a bucket: an empty position, or one with the smallest count. */
    method Smallest(table: nat, idx: nat) returns (pos: int, empty: bool)
      requires Valid() && table < 2 && idx < Power2(m)
      ensures empty ==> 0 <= pos < 2 && cells[Cell(Place(table, idx, pos), m)].count == 0
      ensures !empty ==> forall j | 0 <= j < 2 :: cells[Cell(Place(table, idx, j), m)].count > 0
      ensures !empty && 0 <= pos < 2 ==>
        forall j | 0 <= j < 2 :: cells[Cell(Place(table, idx, pos), m)].count <= cells[Cell(Place(table, idx, j), m)].count
      ensures -1 <= pos < 2
      ensures pos == -1 <==> !empty && forall j | 0 <= j < 2 :: cells[Cell(Place(table, idx, j), m)].count >= P64 - 1
    {
      hide Cell;
      CellOfPlace(Place(table, idx, 0), m);
      CellOfPlace(Place(table, idx, 1), m);
      var min := P64 - 1;
      pos, empty := -1, false;
      for j := 0 to 2
        invariant -1 <= pos < j && !empty
        invariant forall i | 0 <= i < j :: 0 < cells[Cell(Place(table, idx, i), m)].count && min <= cells[Cell(Place(table, idx, i), m)].count
        invariant pos == -1 ==> min == P64 - 1
        invariant pos >= 0 ==> min == cells[Cell(Place(table, idx, pos), m)].count < P64 - 1
      {
        var e := cells[Cell(Place(table, idx, j), m)];
        if e.count == 0 {
          return j, true;
        }
        if e.count < min {
          min := e.count;
          pos := j;
        }
      }
    }

    /** One turn of `kickout`: a heavy entry takes a position of its alternate bucket. */
    method Displace(e: Entry, at: Place) returns (to: Place, displaced: Entry, empty: bool)
      requires Valid() && IsPlace(at, m) && 0 < e.count < P64 - 1
      requires forall i | 0 <= i < cells.Length :: cells[i].count < P64 - 1
      modifies cells
      ensures Valid() && IsPlace(to, m) && to.table == 1 - at.table && to.idx == AltIdx(e.fp, at.idx, m)
      ensures cells[..] == old(cells[..])[Cell(to, m) := e] && displaced == old(cells[..])[Cell(to, m)]
      ensures forall i | 0 <= i < cells.Length :: cells[i].count < P64 - 1
      ensures empty == HasRoom(old(cells[..]), to.table, to.idx, m)
      ensures if empty then displaced.count == 0 else displaced.count > 0 && IsSmallest(old(cells[..]), to, m)
      ensures View() + One(to, displaced, m) == old(View()) + One(at, e, m)
    {
      hide Heavies, Cell, PlaceOf, One, Home, AltIdx;
      var table, idx := 1 - at.table, AltIdx(e.fp, at.idx, m);
      TwoTables(at, m);
      var pos;
      pos, empty := Smallest(table, idx);
      InBucket(table, idx, m);
      RoomIs(cells[..], table, idx, m);
      to := Place(table, idx, if pos < 0 then 0 else pos);
      CellOfPlace(to, m);
      OneMoves(at, to, e, m);
      displaced := Put(to, e);
    }

    /**
     `kickout`: the entry that lost place `from` goes to its alternate bucket, displacing the
     smallest entry there, and so on, at most sixteen times. Afterwards the heavy entries, each
     with the items that find it, are those before plus the incoming one, less at most one.
     */
    method Kickout(entry: Entry, from: Place) returns (dropped: multiset<Heavy>, swaps: nat)
      requires Valid() && IsPlace(from, m) && entry.count > 0
      requires forall i | 0 <= i < cells.Length :: cells[i].count < P64 - 1
      requires entry.count < P64 - 1
      modifies cells
      ensures Valid() && View() + dropped == old(View()) + One(from, entry, m)
      ensures |dropped| <= 1 && swaps <= MAX_KICKS
      ensures forall i | 0 <= i < cells.Length :: cells[i].count < P64 - 1
      ensures !isHeavy(entry.count) ==> dropped == One(from, entry, m) && cells[..] == old(cells[..])
      ensures isHeavy(entry.count) && HasRoom(old(cells[..]), 1 - from.table, AltIdx(entry.fp, from.idx, m), m) ==>
        dropped == multiset{} && swaps == 1
      ensures dropped != multiset{} && swaps < MAX_KICKS ==> forall h | h in dropped :: !isHeavy(h.count)
    {
      ghost var room := HasRoom(cells[..], 1 - from.table, AltIdx(entry.fp, from.idx, m), m);
      hide Heavies, Cell, PlaceOf, One, Home, IsPlace, AltIdx, HasRoom, IsSmallest;
      ghost var start := View() + One(from, entry, m);
      var e, at := entry, from;
      swaps := 0;
      for i := 0 to MAX_KICKS
        invariant Valid() && IsPlace(at, m) && 0 < e.count < P64 - 1 && swaps == i
        invariant forall c | 0 <= c < cells.Length :: cells[c].count < P64 - 1
        invariant View() + One(at, e, m) == start
        invariant i == 0 ==> e == entry && at == from && cells[..] == old(cells[..])
        invariant i > 0 ==> isHeavy(entry.count) && !room
      {
        if !isHeavy(e.count) {
          OneSize(at, e, m);
          return One(at, e, m), swaps;
        }
        var to, displaced, empty := Displace(e, at);
        swaps := swaps + 1;
        if empty {
          NothingThere(to, displaced, m);
          return multiset{}, swaps;
        }
        e, at := displaced, to;
      }
      OneSize(at, e, m);
      dropped := One(at, e, m);
    }

    /** The bucket of an item in one table, scanned for its fingerprint and for room. */
    method ScanBucket(item: Item, table: nat) returns (pos: int, room: int)
      requires Valid() && item.idx < Power2(m) && table < 2
      ensures -1 <= pos < 2 && -1 <= room < 2
      ensures pos >= 0 <==> FindsIn(cells[..], item, table, m)
      ensures pos >= 0 ==> Matches(cells[..], item, Place(table, IndexIn(item, table, m), pos), m)
      ensures pos < 0 && room >= 0 ==> cells[Cell(Place(table, IndexIn(item, table, m), room), m)].count == 0
      ensures pos < 0 && room < 0 ==> forall j | 0 <= j < 2 :: cells[Cell(Place(table, IndexIn(item, table, m), j), m)].count > 0
    {
      hide Cell;
      var idx := IndexIn(item, table, m);
      InBucket(table, idx, m);
      CellOfPlace(Place(table, idx, 0), m);
      CellOfPlace(Place(table, idx, 1), m);
      pos, room := -1, -1;
      for j := 0 to 2
        invariant pos == -1 && -1 <= room < j
        invariant forall i | 0 <= i < j :: !Matches(cells[..], item, Place(table, idx, i), m)
        invariant room >= 0 ==> cells[Cell(Place(table, idx, room), m)].count == 0
        invariant room < 0 ==> forall i | 0 <= i < j :: cells[Cell(Place(table, idx, i), m)].count > 0
      {
        var e := cells[Cell(Place(table, idx, j), m)];
        if e.count > 0 {
          if e.fp == item.fp {
            assert Matches(cells[..], item, Place(table, idx, j), m);
            return j, room;
          }
        } else if room == -1 {
          room := j;
        }
      }
    }

    /**
     `checkHeavyEntries`: an entry at home with the item is found if there is one, and its count
     grows; otherwise the item takes the first free place of its two buckets, if there is one.
     */
    method CheckHeavyEntries(item: Item, weight: nat) returns (table: int, pos: int)
      requires Valid() && item.idx < Power2(m) && weight < P64
      modifies cells
      ensures Valid() && -1 <= table < 2 && -1 <= pos < 2 && (table == -1 <==> pos == -1)
      ensures old(Found(View(), item)) ==> table >= 0
      ensures table >= 0 ==>
        var p := Place(table, IndexIn(item, table, m), pos);
        var e := old(cells[..])[Cell(p, m)];
        && IsPlace(p, m) && Home(p, item.fp, m) == item.idx
        && (if old(Found(View(), item)) then e.count > 0 && e.fp == item.fp else e.count == 0)
        && View() + One(p, e, m) == old(View()) + One(p, Entry((e.count + weight) % P64, item.fp), m)
      ensures table < 0 ==> cells[..] == old(cells[..])
    {
      hide Heavies, Cell, One, AltIdx;
      var pos0, room0 := ScanBucket(item, 0);
      var pos1, room1 := ScanBucket(item, 1);
      FoundIffFinds(cells[..], item, m);
      if pos0 >= 0 {
        table, pos := 0, pos0;
      } else if pos1 >= 0 {
        table, pos := 1, pos1;
      } else if room0 >= 0 {
        table, pos := 0, room0;
      } else if room1 >= 0 {
        table, pos := 1, room1;
      } else {
        return -1, -1;
      }
      var p := Place(table, IndexIn(item, table, m), pos);
      InBucket(table, IndexIn(item, table, m), m);
      CellOfPlace(p, m);
      LooksAtHome(item, p, m);
      var e := cells[Cell(p, m)];
      var was := Put(p, Entry((e.count + weight) % P64, item.fp));
    }

    /**
     `tryPromoteAndKickout` for a lobby entry with the item's fingerprint; `unlucky` is the random
     choice. Either nothing happens, or the item becomes heavy and at most one other entry is lost.
     */
    method TryPromoteAndKickout(item: Item, newCount: nat, table: nat, unlucky: bool)
      returns (pos: int, count: nat, dropped: multiset<Heavy>)
      requires Valid() && item.idx < Power2(m) && table < 2 && 0 < newCount < P64 - 1
      requires lobby[IndexIn(item, table, m) + if table == 0 then 0 else Power2(m)].fp == item.fp
      requires forall i | 0 <= i < cells.Length :: cells[i].count < P64 - 1
      modifies cells, lobby
      ensures Valid() && -1 <= pos < 2 && |dropped| <= 1
      ensures pos < 0 <==>
        var idx := IndexIn(item, table, m);
        unlucky && forall j: nat | j < 2 :: CountAt(old(cells[..]), Place(table, idx, j), m) > newCount
      ensures pos < 0 ==> View() == old(View()) && lobby[..] == old(lobby[..])
      ensures HasRoom(old(cells[..]), table, IndexIn(item, table, m), m) ==>
        count == newCount && dropped == multiset{} && lobby[..] == old(lobby[..])
      ensures pos >= 0 && !HasRoom(old(cells[..]), table, IndexIn(item, table, m), m) ==>
        var p := Place(table, IndexIn(item, table, m), pos);
        && IsSmallest(old(cells[..]), p, m) && count == CountAt(old(cells[..]), p, m)
        && lobby[..] == old(lobby[..])[p.idx + (if table == 0 then 0 else Power2(m)) := Entry(0, 0)]
      ensures pos >= 0 ==>
        var p := Place(table, IndexIn(item, table, m), pos);
        && IsPlace(p, m) && Home(p, item.fp, m) == item.idx && count > 0
        && View() + dropped == old(View()) + One(p, Entry(count, item.fp), m)
    {
      hide Heavies, Cell, One, AltIdx, Home;
      var idx := IndexIn(item, table, m);
      var place := idx + if table == 0 then 0 else Power2(m);
      InBucket(table, idx, m);
      count, dropped := newCount, multiset{};
      var at, empty := Smallest(table, idx);
      var p := Place(table, idx, if at < 0 then 0 else at);
      CellOfPlace(p, m);
      LooksAtHome(item, p, m);
      RoomIs(cells[..], table, idx, m);
      pos := p.pos;
      if empty {
        var was := Put(p, Entry(newCount, item.fp));
        NothingThere(p, was, m);
        return;
      }
      var kicked := cells[Cell(p, m)];
      if kicked.count > newCount && unlucky {
        return -1, count, dropped;
      }
      count := kicked.count;
      ghost var before := View();
      var was := Put(p, Entry(kicked.count, lobby[place].fp));
      ghost var between := View();
      lobby[place] := Entry(0, 0);
      var swaps;
      dropped, swaps := Kickout(kicked, p);
      Exchange(before, between, View(), One(p, kicked, m), One(p, Entry(count, item.fp), m), dropped);
    }
  }

  lemma {:induction false} NoHeavies(cells: seq<Entry>, n: nat, m: nat)
    requires n <= |cells| && forall i | 0 <= i < |cells| :: cells[i].count == 0
    ensures Heavies(cells, n, m) == multiset{}
  {
    if n > 0 {
      NoHeavies(cells, n - 1, m);
    }
  }

  lemma OneSize(p: Place, e: Entry, m: nat)
    ensures |One(p, e, m)| <= 1
    ensures forall h | h in One(p, e, m) :: h.count == e.count
  {
  }

  lemma RoomIs(cells: seq<Entry>, table: nat, idx: nat, m: nat)
    requires |cells| == 4 * Power2(m) && IsPlace(Place(table, idx, 0), m)
    ensures Cell(Place(table, idx, 0), m) < |cells| && Cell(Place(table, idx, 1), m) < |cells|
    ensures HasRoom(cells, table, idx, m) <==>
      exists j | 0 <= j < 2 :: cells[Cell(Place(table, idx, j), m)].count == 0
  {
    hide Cell;
    CellOfPlace(Place(table, idx, 0), m);
    CellOfPlace(Place(table, idx, 1), m);
    if HasRoom(cells, table, idx, m) {
      var j := if cells[Cell(Place(table, idx, 0), m)].count == 0 then 0 else 1;
      assert cells[Cell(Place(table, idx, j), m)].count == 0;
    }
  }

  lemma NothingThere(p: Place, e: Entry, m: nat)
    requires e.count == 0
    ensures One(p, e, m) == multiset{}
  {
  }

  lemma TwoTables(p: Place, m: nat)
    requires IsPlace(p, m)
    ensures p.table < 2
  {
  }

  lemma InBucket(table: nat, idx: nat, m: nat)
    requires table < 2 && idx < Power2(m)
    ensures IsPlace(Place(table, idx, 0), m) && IsPlace(Place(table, idx, 1), m)
  {
  }

  lemma OneMoves(p: Place, q: Place, e: Entry, m: nat)
    requires IsPlace(p, m) && q.table == 1 - p.table && q.idx == AltIdx(e.fp, p.idx, m)
    ensures One(q, e, m) == One(p, e, m)
  {
    MovedIsAtHome(p, q, e.fp, m);
  }

  lemma Exchange(before: multiset<Heavy>, between: multiset<Heavy>, after: multiset<Heavy>,
                 out: multiset<Heavy>, in': multiset<Heavy>, dropped: multiset<Heavy>)
    requires between + out == before + in' && after + dropped == between + out
    ensures after + dropped == before + in'
  {
  }

  // ------------------------------------------------------------------------- lookup

  /** The entry at a place is a heavy entry with the item's fingerprint. */
  predicate Matches(cells: seq<Entry>, item: Item, p: Place, m: nat) {
    Cell(p, m) < |cells| && cells[Cell(p, m)].count > 0 && cells[Cell(p, m)].fp == item.fp
  }

  predicate FindsIn(cells: seq<Entry>, item: Item, table: nat, m: nat) {
    var idx := IndexIn(item, table, m);
    Matches(cells, item, Place(table, idx, 0), m) || Matches(cells, item, Place(table, idx, 1), m)
  }

  /** Some heavy entry is at home with the item. */
  ghost predicate Found(heavies: multiset<Heavy>, item: Item) {
    exists c :: Heavy(item.idx, item.fp, c) in heavies
  }

  lemma {:induction false} HeavyHasPlace(cells: seq<Entry>, n: nat, h: Heavy, m: nat) returns (i: nat)
    requires n <= |cells| && h in Heavies(cells, n, m)
    ensures i < n && One(PlaceOf(i, m), cells[i], m) == multiset{h}
  {
    hide PlaceOf;
    if h in One(PlaceOf(n - 1, m), cells[n - 1], m) {
      i := n - 1;
    } else {
      i := HeavyHasPlace(cells, n - 1, h, m);
    }
  }

  lemma {:induction false} PlaceHasHeavy(cells: seq<Entry>, n: nat, i: nat, m: nat)
    requires i < n <= |cells|
    ensures One(PlaceOf(i, m), cells[i], m) <= Heavies(cells, n, m)
  {
    hide PlaceOf, One;
    if i < n - 1 {
      PlaceHasHeavy(cells, n - 1, i, m);
    }
  }

  lemma PlaceOfCell(cell: nat, m: nat)
    requires cell < 4 * Power2(m)
    ensures IsPlace(PlaceOf(cell, m), m) && Cell(PlaceOf(cell, m), m) == cell
  {
  }

  lemma MatchIsFound(cells: seq<Entry>, item: Item, p: Place, m: nat)
    requires |cells| == 4 * Power2(m) && item.idx < Power2(m) && IsPlace(p, m)
    requires p.idx == IndexIn(item, p.table, m) && Matches(cells, item, p, m)
    ensures Found(Heavies(cells, |cells|, m), item)
  {
    hide Heavies;
    CellOfPlace(p, m);
    LooksAtHome(item, p, m);
    PlaceHasHeavy(cells, |cells|, Cell(p, m), m);
    assert Heavy(item.idx, item.fp, cells[Cell(p, m)].count) in One(p, cells[Cell(p, m)], m);
  }

  lemma FoundMatches(cells: seq<Entry>, item: Item, m: nat)
    requires |cells| == 4 * Power2(m) && item.idx < Power2(m) && Found(Heavies(cells, |cells|, m), item)
    ensures FindsIn(cells, item, 0, m) || FindsIn(cells, item, 1, m)
  {
    hide Heavies;
    var c :| Heavy(item.idx, item.fp, c) in Heavies(cells, |cells|, m);
    var h := Heavy(item.idx, item.fp, c);
    var i := HeavyHasPlace(cells, |cells|, h, m);
    PlaceOfCell(i, m);
    var p := PlaceOf(i, m);
    OnlyOne(p, cells[i], h, m);
    hide One, PlaceOf, Home;
    LooksAtHome(item, p, m);
    assert Matches(cells, item, p, m);
  }

  lemma OnlyOne(p: Place, e: Entry, h: Heavy, m: nat)
    requires One(p, e, m) == multiset{h}
    ensures e.count > 0 && e.fp == h.fp && Home(p, e.fp, m) == h.home
  {
    assert multiset{h}[h] == 1;
    assert One(p, e, m)[h] == 1;
  }

  /** A lookup of two buckets finds an entry exactly if some heavy entry is at home with the item. */
  lemma FoundIffFinds(cells: seq<Entry>, item: Item, m: nat)
    requires |cells| == 4 * Power2(m) && item.idx < Power2(m)
    ensures Found(Heavies(cells, |cells|, m), item) <==> FindsIn(cells, item, 0, m) || FindsIn(cells, item, 1, m)
  {
    hide Heavies, Cell, AltIdx;
    if Found(Heavies(cells, |cells|, m), item) {
      FoundMatches(cells, item, m);
    }
    forall t, j | 0 <= t < 2 && 0 <= j < 2 && Matches(cells, item, Place(t, IndexIn(item, t, m), j), m)
      ensures Found(Heavies(cells, |cells|, m), item)
    {
      InBucket(t, IndexIn(item, t, m), m);
      MatchIsFound(cells, item, Place(t, IndexIn(item, t, m), j), m);
    }
  }

  /** After a displacement every item still finds its entry, unless that entry is the one dropped. */
  lemma StillFound(before: multiset<Heavy>, after: multiset<Heavy>, in': multiset<Heavy>, dropped: multiset<Heavy>, item: Item, c: nat)
    requires after + dropped == before + in'
    requires before[Heavy(item.idx, item.fp, c)] > dropped[Heavy(item.idx, item.fp, c)]
    ensures Found(after, item)
  {
    var h := Heavy(item.idx, item.fp, c);
    assert (after + dropped)[h] == (before + in')[h];
    assert h in after;
  }

  // --------------------------------------------------------------------------- heap

  datatype Named = Named(count: nat, name: string, fp: nat)

  function Parent(c: nat): nat
    requires c > 0
  {
    (c - 1) / 2
  }

  predicate Heap(s: seq<Named>) {
    forall c | 0 < c < |s| :: s[Parent(c)].count <= s[c].count
  }

  /** In order except that the element at `hole` may be larger than its children. */
  predicate HeapBut(s: seq<Named>, hole: nat) {
    && hole < |s|
    && (forall c | 0 < c < |s| && Parent(c) != hole :: s[Parent(c)].count <= s[c].count)
    && (hole > 0 ==> forall c | 0 < c < |s| && Parent(c) == hole :: s[Parent(hole)].count <= s[c].count)
  }

  predicate SameElements(s: seq<Named>, t: seq<Named>) {
    multiset(s) == multiset(t)
  }

  /** A heap in which one count has not been lowered is in order but for that place. */
  lemma RaisedCount(s: seq<Named>, i: nat, e: Named)
    requires Heap(s) && i < |s| && e.count >= s[i].count
    ensures HeapBut(s[i := e], i)
  {
    var t := s[i := e];
    forall c | 0 < c < |t| && Parent(c) != i ensures t[Parent(c)].count <= t[c].count {
      assert s[Parent(c)].count <= s[c].count;
    }
    if i > 0 {
      forall c | 0 < c < |t| && Parent(c) == i ensures t[Parent(i)].count <= t[c].count {
        assert s[Parent(i)].count <= s[i].count && s[i].count <= s[c].count;
      }
    }
  }

  /** The smaller child moves up, the hole moves down. */
  lemma SiftStep(s: seq<Named>, hole: nat, child: nat)
    requires HeapBut(s, hole) && SmallestChild(s, hole, child)
    requires s[child].count <= s[hole].count
    ensures HeapBut(s[hole := s[child]][child := s[hole]], child)
    ensures SameElements(s[hole := s[child]][child := s[hole]], s)
  {
    var t := s[hole := s[child]][child := s[hole]];
    forall c | 0 < c < |t| && Parent(c) != child ensures t[Parent(c)].count <= t[c].count {
    }
    forall c | 0 < c < |t| && Parent(c) == child ensures t[Parent(child)].count <= t[c].count {
      assert s[child].count <= s[c].count;
    }
  }

  /** With no child smaller than it the element is in place. */
  lemma SiftDone(s: seq<Named>, hole: nat)
    requires HeapBut(s, hole) && forall c | 0 < c < |s| && Parent(c) == hole :: s[hole].count <= s[c].count
    ensures Heap(s)
  {
  }

  lemma Children(c: nat, hole: nat)
    requires c > 0
    ensures Parent(c) == hole <==> c == 2 * hole + 1 || c == 2 * hole + 2
  {
  }

  /** The smaller of the children of `at`, of which there is at least one. */
  method SmallerChild(a: array<Named>, at: nat) returns (child: nat)
    requires 2 * at + 1 < a.Length
    ensures SmallestChild(a[..], at, child)
  {
    child := 2 * at + 1;
    if child + 1 < a.Length && a[child].count > a[child + 1].count {
      child := child + 1;
    }
    Children(child, at);
    forall c | 0 < c < a.Length && Parent(c) == at ensures a[child].count <= a[c].count {
      Children(c, at);
    }
  }

  /** `chkHeapifyDown`: restores the heap below a place whose count has not been lowered. */
  method HeapifyDown(a: array<Named>, start: nat)
    requires HeapBut(a[..], start)
    modifies a
    ensures Heap(a[..]) && SameElements(a[..], old(a[..]))
  {
    var len := a.Length;
    if len < 2 || (len - 2) / 2 < start {
      NoChildren(a[..], start);
      return;
    }
    var child := SmallerChild(a, start);
    if a[child].count > a[start].count {
      SiftDone(a[..], start);
      return;
    }
    SiftDown(a, start, child);
  }

  /** The loop: the element at `start` sinks past children that are smaller. */
  method SiftDown(a: array<Named>, start: nat, first: nat)
    requires HeapBut(a[..], start) && SmallestChild(a[..], start, first) && a[first].count <= a[start].count
    modifies a
    ensures Heap(a[..]) && SameElements(a[..], old(a[..]))
  {
    hide Heap, HeapBut, SameElements, SmallestChild;
    InBounds(a[..], start);
    ChildBelow(a[..], start, first);
    var len, top, hole, more := a.Length, a[start], start, true;
    var child: nat := first;
    ghost var s, before := a[..], a[..];
    assert a[..][hole := top] == s;
    Itself(s);
    while more
      invariant hole < len && a[..][hole := top] == s && HeapBut(s, hole) && SameElements(s, before)
      invariant more ==> SmallestChild(s, hole, child)
      invariant more ==> child < len && s[child].count <= top.count
      invariant !more ==> Heap(s)
      decreases len - hole, more
    {
      ChildBelow(s, hole, child);
      assert s[hole] == top && s[child] == a[child];
      SiftStep(s, hole, child);
      ghost var next := s[hole := s[child]][child := s[hole]];
      Chain(next, s, before);
      MoveUp(a[..], s, hole, child, top);
      a[hole] := a[child];
      s, hole := next, child;
      if (len - 2) / 2 < child {
        NoChildren(s, hole);
        more := false;
      } else {
        child := SmallerChild(a, hole);
        ChildBelow(a[..], hole, child);
        ChildrenSame(a[..], s, hole, top, child);
        more := a[child].count < top.count;
        if !more {
          InPlace(s, hole, child, top);
        }
      }
    }
    a[hole] := top;
    assert a[..] == s;
  }

  lemma ChildBelow(s: seq<Named>, hole: nat, child: nat)
    requires SmallestChild(s, hole, child)
    ensures hole < child < |s|
  {
  }

  lemma MoveUp(a: seq<Named>, s: seq<Named>, hole: nat, child: nat, top: Named)
    requires hole < child < |a| && s == a[hole := top]
    ensures a[hole := a[child]][child := top] == s[hole := s[child]][child := s[hole]]
  {
  }

  lemma InPlace(s: seq<Named>, hole: nat, child: nat, top: Named)
    requires HeapBut(s, hole) && SmallestChild(s, hole, child) && s[hole] == top && top.count <= s[child].count
    ensures Heap(s)
  {
    SiftDone(s, hole);
  }

  predicate SmallestChild(s: seq<Named>, hole: nat, child: nat) {
    && 0 < child < |s| && Parent(child) == hole < child
    && forall c | 0 < c < |s| && Parent(c) == hole :: s[child].count <= s[c].count
  }

  lemma InBounds(s: seq<Named>, hole: nat)
    requires HeapBut(s, hole)
    ensures hole < |s|
  {
  }

  lemma Itself(s: seq<Named>)
    ensures SameElements(s, s)
  {
  }

  lemma Chain(a: seq<Named>, b: seq<Named>, c: seq<Named>)
    requires SameElements(a, b) && SameElements(b, c)
    ensures SameElements(a, c)
  {
  }

  lemma NoChildren(s: seq<Named>, hole: nat)
    requires HeapBut(s, hole) && (|s| < 2 || (|s| - 2) / 2 < hole)
    ensures Heap(s)
  {
    forall c | 0 < c < |s| ensures Parent(c) != hole {
      Children(c, hole);
    }
  }

  lemma ChildrenSame(a: seq<Named>, s: seq<Named>, hole: nat, top: Named, child: nat)
    requires hole < |a| && s == a[hole := top] && SmallestChild(a, hole, child)
    ensures SmallestChild(s, hole, child) && s[child] == a[child]
  {
    forall c | 0 < c < |a| && Parent(c) == hole ensures s[c] == a[c] {
      Children(c, hole);
    }
  }
}
