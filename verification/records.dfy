/**
 * The high-score record store: for every game name, for every event name,
 * the list of records in the order they were added. The store's JSON
 * document is modelled as nested objects (see JsonObject) whose innermost
 * values are record lists; reading and writing the JSON file is not part of
 * the model, and the clock that dates a new record is a parameter.
 */
module Records {
  import opened Words
  import opened JsonObject
  import opened RecordText
  import opened RecordOrder

  /** Event name -> records of that event. */
  type EventRecords = seq<Entry<seq<Record>>>
  /** Game name -> its events. */
  type Db = seq<Entry<EventRecords>>

  predicate WellFormed(db: Db)
  {
    Sorted(db) && forall i :: 0 <= i < |db| ==> Sorted(db[i].value)
  }

  /** The events of a game; a game without an entry has none. */
  function EventsOf(db: Db, game: Bytes): EventRecords
  {
    GetOr(db, game, [])
  }

  /** The record list of one event of one game; empty when absent. */
  function ListAt(db: Db, game: Bytes, event: Bytes): seq<Record>
  {
    GetOr(EventsOf(db, game), event, [])
  }

  /** Some record of the game's events has this name and this score. */
  predicate HasRecord(events: EventRecords, name: Bytes, score: Bytes)
  {
    exists i, j :: 0 <= i < |events| && 0 <= j < |events[i].value|
      && events[i].value[j].name == name && events[i].value[j].score == score
  }

  // ------------------------------------------------------------------- add

  /** The player name add stores: the trailing spaces cut off, then the NULs before them. */
  function PlayerName(raw: RecordRaw, game: KnownGame, eventId: nat): (r: Bytes)
    requires NameReadable(raw, game.id, eventId)
    ensures RightTrimmed(GetName(raw, game.id, eventId), r)
  {
    var field := GetName(raw, game.id, eventId);
    RTrimSpacesThenNuls(field);
    RTrim(RTrim(field, 0x20), 0x00)
  }

  /** The score add stores: the leading spaces cut off, then the NULs after them. */
  function PlayerScore(raw: RecordRaw, game: KnownGame, eventId: nat): (r: Bytes)
    requires ScoreReadable(raw, game.id, eventId)
    ensures LeftTrimmed(GetScore(raw, game.id, eventId), r)
  {
    var field := GetScore(raw, game.id, eventId);
    LTrimSpacesThenNuls(field);
    LTrim(LTrim(field, 0x20), 0x00)
  }

  predicate RawReadable(raws: seq<RecordRaw>, game: KnownGame, eventId: nat)
  {
    eventId < |raws| && NameReadable(raws[eventId], game.id, eventId) && ScoreReadable(raws[eventId], game.id, eventId)
  }

  /** add stores the record: name and score are not empty and the game has no record with both. */
  predicate Accepts(db: Db, raws: seq<RecordRaw>, game: KnownGame, eventId: nat)
    requires RawReadable(raws, game, eventId)
  {
    var name := PlayerName(raws[eventId], game, eventId);
    var score := PlayerScore(raws[eventId], game, eventId);
    name != [] && score != [] && !HasRecord(EventsOf(db, game.name), name, score)
  }

  /** The store after appending r to the list of `event` of `game`, creating either when missing. */
  function Appended(db: Db, game: Bytes, event: Bytes, r: Record): (d: Db)
    ensures KeySet(d) == KeySet(db) + {game}
    ensures KeySet(EventsOf(d, game)) == KeySet(EventsOf(db, game)) + {event}
  {
    GetPutSame(db, game, Put(EventsOf(db, game), event, ListAt(db, game, event) + [r]));
    Put(db, game, Put(EventsOf(db, game), event, ListAt(db, game, event) + [r]))
  }

  lemma ValueInKeySet<V>(o: seq<Entry<V>>, k: Key)
    requires Get(o, k).Some?
    ensures exists i :: 0 <= i < |o| && o[i].key == k && o[i].value == Get(o, k).value
  {
    if o[0].key != k {
      ValueInKeySet(o[1..], k);
      var i :| 0 <= i < |o[1..]| && o[1..][i].key == k && o[1..][i].value == Get(o[1..], k).value;
      assert o[i + 1] == o[1..][i];
    }
  }

  /** Appending keeps the store well formed. */
  lemma AppendedWellFormed(db: Db, game: Bytes, event: Bytes, r: Record)
    requires WellFormed(db)
    ensures WellFormed(Appended(db, game, event, r))
  {
    var events := EventsOf(db, game);
    assert Sorted(events) by {
      if Get(db, game).Some? {
        ValueInKeySet(db, game);
      }
    }
    var events' := Put(events, event, ListAt(db, game, event) + [r]);
    PutSorted(events, event, ListAt(db, game, event) + [r]);
    var db' := Put(db, game, events');
    PutSorted(db, game, events');
    forall i | 0 <= i < |db'|
      ensures Sorted(db'[i].value)
    {
      if db'[i].key == game {
        LexLessIrreflexive(game);
        assert Get(db', game) == Some(db'[i].value) by { GetAt(db', i); }
        GetPutSame(db, game, events');
      } else {
        GetAt(db', i);
        GetPutOther(db, game, events', db'[i].key);
        ValueInKeySet(db, db'[i].key);
      }
    }
  }

  /** In a well-formed object, the entry at position i is what looking up its key finds. */
  lemma {:induction false} GetAt<V>(o: seq<Entry<V>>, i: nat)
    requires Sorted(o) && i < |o|
    ensures Get(o, o[i].key) == Some(o[i].value)
  {
    if i > 0 {
      LexLessIrreflexive(o[i].key);
      GetAt(o[1..], i - 1);
    }
  }

  /** The target list gains exactly r at its end. */
  lemma AppendedTarget(db: Db, game: Bytes, event: Bytes, r: Record)
    ensures ListAt(Appended(db, game, event, r), game, event) == ListAt(db, game, event) + [r]
  {
    var events' := Put(EventsOf(db, game), event, ListAt(db, game, event) + [r]);
    GetPutSame(db, game, events');
    GetPutSame(EventsOf(db, game), event, ListAt(db, game, event) + [r]);
  }

  /** Every other list of every game is left as it was. */
  lemma AppendedOthers(db: Db, game: Bytes, event: Bytes, r: Record, game': Bytes, event': Bytes)
    requires game' != game || event' != event
    ensures ListAt(Appended(db, game, event, r), game', event') == ListAt(db, game', event')
  {
    var events' := Put(EventsOf(db, game), event, ListAt(db, game, event) + [r]);
    if game' == game {
      GetPutSame(db, game, events');
      GetPutOther(EventsOf(db, game), event, ListAt(db, game, event) + [r], event');
    } else {
      GetPutOther(db, game, events', game');
    }
  }

  /** Each list of the store is a prefix of the same list in the later store: nothing is removed or reordered. */
  ghost predicate Grows(before: Db, after: Db)
  {
    forall g, e :: ListAt(before, g, e) <= ListAt(after, g, e)
  }

  lemma AppendedGrows(db: Db, game: Bytes, event: Bytes, r: Record)
    ensures Grows(db, Appended(db, game, event, r))
  {
    forall g, e
      ensures ListAt(db, g, e) <= ListAt(Appended(db, game, event, r), g, e)
    {
      if g == game && e == event {
        AppendedTarget(db, game, event, r);
      } else {
        AppendedOthers(db, game, event, r, g, e);
      }
    }
  }

  /** After the append, the game holds a record with the appended name and score, so adding it again is refused. */
  lemma AppendedHasRecord(db: Db, game: Bytes, event: Bytes, r: Record)
    ensures HasRecord(EventsOf(Appended(db, game, event, r), game), r.name, r.score)
  {
    var events' := Put(EventsOf(db, game), event, ListAt(db, game, event) + [r]);
    GetPutSame(db, game, events');
    GetPutSame(EventsOf(db, game), event, ListAt(db, game, event) + [r]);
    ValueInKeySet(events', event);
    var i :| 0 <= i < |events'| && events'[i].key == event && events'[i].value == ListAt(db, game, event) + [r];
    var j := |events'[i].value| - 1;
    assert events'[i].value[j] == r;
  }

  // ------------------------------------------------------------- traversal

  /** All records of some events, event by event, each list in order. */
  function EventsFlat(events: EventRecords): seq<Record>
  {
    if events == [] then [] else EventsFlat(events[..|events| - 1]) + events[|events| - 1].value
  }

  /** All records of the store in iteration order: game by game, event by event. */
  function AllRecords(db: Db): seq<Record>
  {
    if db == [] then [] else AllRecords(db[..|db| - 1]) + EventsFlat(db[|db| - 1].value)
  }

  /** The records with exactly this name, in order. */
  function Named(rs: seq<Record>, name: Bytes): seq<Record>
  {
    if rs == [] then []
    else Named(rs[..|rs| - 1], name) + (if rs[|rs| - 1].name == name then [rs[|rs| - 1]] else [])
  }

  lemma {:induction false} NamedAppend(a: seq<Record>, b: seq<Record>, name: Bytes)
    ensures Named(a + b, name) == Named(a, name) + Named(b, name)
  {
    if b == [] {
      assert a + b == a;
    } else {
      var ab := a + b;
      var b' := b[..|b| - 1];
      var last := b[|b| - 1];
      var t := if last.name == name then [last] else [];
      assert ab[..|ab| - 1] == a + b' && ab[|ab| - 1] == last;
      assert Named(ab, name) == Named(a + b', name) + t;
      NamedAppend(a, b', name);
      assert Named(b, name) == Named(b', name) + t;
    }
  }

  lemma NamedSnoc(list: seq<Record>, k: nat, name: Bytes)
    requires k < |list|
    ensures Named(list[..k + 1], name) == Named(list[..k], name) + (if list[k].name == name then [list[k]] else [])
  {
    assert list[..k + 1][..k] == list[..k];
  }

  lemma EventsFlatSnoc(events: EventRecords, e: nat)
    requires e < |events|
    ensures EventsFlat(events[..e + 1]) == EventsFlat(events[..e]) + events[e].value
  {
    assert events[..e + 1][..e] == events[..e];
  }

  lemma AllRecordsSnoc(db: Db, g: nat)
    requires g < |db|
    ensures AllRecords(db[..g + 1]) == AllRecords(db[..g]) + EventsFlat(db[g].value)
  {
    assert db[..g + 1][..g] == db[..g];
  }

  /** A record is found by name exactly when it is in the list and carries that name. */
  lemma {:induction false} NamedMembership(rs: seq<Record>, name: Bytes, r: Record)
    ensures r in Named(rs, name) <==> r in rs && r.name == name
  {
    if rs != [] {
      NamedMembership(rs[..|rs| - 1], name, r);
      assert rs == rs[..|rs| - 1] + [rs[|rs| - 1]];
    }
  }

  lemma {:induction false} EventsFlatMembership(events: EventRecords, r: Record)
    ensures r in EventsFlat(events) <==> exists i :: 0 <= i < |events| && r in events[i].value
  {
    if events != [] {
      var n := |events| - 1;
      EventsFlatMembership(events[..n], r);
      if r in EventsFlat(events) && r !in events[n].value {
        var i :| 0 <= i < n && r in events[..n][i].value;
        assert events[i] == events[..n][i];
      }
      if exists i :: 0 <= i < |events| && r in events[i].value {
        var i :| 0 <= i < |events| && r in events[i].value;
        if i < n {
          assert events[..n][i] == events[i];
        }
      }
    }
  }

  /** A record is in the traversal exactly when the traversal of some game holds it. */
  lemma AllRecordsGames(db: Db, r: Record)
    ensures r in AllRecords(db) <==> exists i :: 0 <= i < |db| && r in EventsFlat(db[i].value)
  {
    if r in AllRecords(db) {
      var i := AllRecordsFrom(db, r);
    }
    forall i | 0 <= i < |db| && r in EventsFlat(db[i].value)
      ensures r in AllRecords(db)
    {
      AllRecordsHas(db, i, r);
    }
  }

  /** Every record of the flattened store comes from some game. */
  lemma {:induction false} AllRecordsFrom(db: Db, r: Record) returns (i: nat)
    requires r in AllRecords(db)
    ensures i < |db| && r in EventsFlat(db[i].value)
  {
    var n := |db| - 1;
    if r in EventsFlat(db[n].value) {
      i := n;
    } else {
      i := AllRecordsFrom(db[..n], r);
      assert db[..n][i] == db[i];
    }
  }

  /** Every record of every game is in the flattened store. */
  lemma {:induction false} AllRecordsHas(db: Db, i: nat, r: Record)
    requires i < |db| && r in EventsFlat(db[i].value)
    ensures r in AllRecords(db)
  {
    var n := |db| - 1;
    if i < n {
      assert db[..n][i] == db[i];
      AllRecordsHas(db[..n], i, r);
    }
  }

  /** A record is in the traversal exactly when some event of some game lists it. */
  lemma AllRecordsMembership(db: Db, r: Record)
    ensures r in AllRecords(db) <==>
      exists i, j :: 0 <= i < |db| && 0 <= j < |db[i].value| && r in db[i].value[j].value
  {
    AllRecordsGames(db, r);
    forall i | 0 <= i < |db|
      ensures r in EventsFlat(db[i].value) <==> exists j :: 0 <= j < |db[i].value| && r in db[i].value[j].value
    {
      EventsFlatMembership(db[i].value, r);
    }
  }

  // ----------------------------------------------------------- by game

  /** The list getByGame hands out for one event: sorted when it holds more than one record. */
  function Arranged(s: seq<Record>, games: KnownGames): seq<Record>
    requires |s| > 1 ==> AllKnown(s, games)
  {
    if |s| > 1 then SortRecords(s, games) else s
  }

  /** std::map::emplace: keeps an existing entry. */
  function Emplace(m: map<nat, seq<Record>>, k: nat, v: seq<Record>): map<nat, seq<Record>>
  {
    if k in m then m else m[k := v]
  }

  predicate Comparable(events: EventRecords, games: KnownGames)
  {
    forall i :: 0 <= i < |events| && |events[i].value| > 1 ==> AllKnown(events[i].value, games)
  }

  /** The map getByGame builds: event id of the first arranged record -> arranged list, the first event winning. */
  function ByEvent(events: EventRecords, games: KnownGames): map<nat, seq<Record>>
    requires Comparable(events, games)
  {
    if events == [] then map[]
    else
      var n := |events| - 1;
      var m := ByEvent(events[..n], games);
      var list := Arranged(events[n].value, games);
      if list == [] then m else Emplace(m, list[0].eventId, list)
  }

  /** Arranging keeps the records of the list, so an event's arranged list is empty only when the event is. */
  lemma ArrangedPermutes(s: seq<Record>, games: KnownGames)
    requires |s| > 1 ==> AllKnown(s, games)
    ensures multiset(Arranged(s, games)) == multiset(s)
    ensures |Arranged(s, games)| == |s|
  {
    assert |multiset(Arranged(s, games))| == |multiset(s)|;
  }

  /** The arranged list of `s` starts with a record of event id k. */
  predicate Starts(s: seq<Record>, games: KnownGames, k: nat)
    requires |s| > 1 ==> AllKnown(s, games)
  {
    Arranged(s, games) != [] && Arranged(s, games)[0].eventId == k
  }

  lemma ByEventSnoc(events: EventRecords, games: KnownGames, e: nat)
    requires Comparable(events, games) && e < |events|
    ensures Comparable(events[..e], games) && Comparable(events[..e + 1], games)
    ensures var list := Arranged(events[e].value, games);
      ByEvent(events[..e + 1], games) ==
        if list == [] then ByEvent(events[..e], games) else Emplace(ByEvent(events[..e], games), list[0].eventId, list)
  {
    assert events[..e + 1][..e] == events[..e];
  }

  /** Every event whose arranged list starts with a record of event id k puts k among the map's keys. */
  lemma {:induction false} ByEventHasKey(events: EventRecords, games: KnownGames, i: nat, k: nat)
    requires Comparable(events, games)
    requires i < |events| && Starts(events[i].value, games, k)
    ensures k in ByEvent(events, games)
  {
    var n := |events| - 1;
    var prefix := events[..n];
    ByEventSnoc(events, games, n);
    assert events[..n + 1] == events;
    var m := ByEvent(prefix, games);
    var list := Arranged(events[n].value, games);
    if i < n {
      assert prefix[i] == events[i];
      ByEventHasKey(prefix, games, i, k);
      assert k in m;
      if list != [] {
        assert ByEvent(events, games) == Emplace(m, list[0].eventId, list);
      }
    } else {
      assert i == n;
      assert Starts(events[n].value, games, k);
      assert list != [] && list[0].eventId == k;
      assert ByEvent(events, games) == Emplace(m, k, list);
    }
  }

  /** Event i is the first whose arranged list starts with a record of event id k. */
  predicate FirstStarts(events: EventRecords, games: KnownGames, k: nat, i: nat)
    requires Comparable(events, games)
  {
    && i < |events| && Starts(events[i].value, games, k)
    && forall i' :: 0 <= i' < i ==> !Starts(events[i'].value, games, k)
  }

  /** A first start in a prefix is a first start in the whole list. */
  lemma FirstStartsExtend(events: EventRecords, games: KnownGames, k: nat, i: nat, n: nat)
    requires Comparable(events, games) && n <= |events|
    requires Comparable(events[..n], games) && FirstStarts(events[..n], games, k, i)
    ensures FirstStarts(events, games, k, i)
  {
    assert forall i' :: 0 <= i' <= i ==> events[..n][i'] == events[i'];
  }

  /**
   * The entry of event id k is the arranged list of the first event whose
   * arranged list starts with a record of that id.
   */
  lemma {:induction false} ByEventEntry(events: EventRecords, games: KnownGames, k: nat)
    requires Comparable(events, games)
    requires k in ByEvent(events, games)
    ensures exists i: nat :: FirstStarts(events, games, k, i) && ByEvent(events, games)[k] == Arranged(events[i].value, games)
  {
    var n := |events| - 1;
    var prefix := events[..n];
    ByEventSnoc(events, games, n);
    assert events[..n + 1] == events;
    var m := ByEvent(prefix, games);
    var list := Arranged(events[n].value, games);
    if k in m {
      assert ByEvent(events, games)[k] == m[k];
      ByEventEntry(prefix, games, k);
      var i: nat :| FirstStarts(prefix, games, k, i) && m[k] == Arranged(prefix[i].value, games);
      FirstStartsExtend(events, games, k, i, n);
      assert prefix[i] == events[i];
      assert FirstStarts(events, games, k, i) && ByEvent(events, games)[k] == Arranged(events[i].value, games);
    } else {
      assert list != [] && list[0].eventId == k;
      assert ByEvent(events, games)[k] == list;
      forall i' | 0 <= i' < n
        ensures !Starts(events[i'].value, games, k)
      {
        assert prefix[i'] == events[i'];
        if Starts(events[i'].value, games, k) {
          ByEventHasKey(prefix, games, i', k);
        }
      }
      assert FirstStarts(events, games, k, n);
    }
  }

  /** A list whose records share one sort direction comes out of getByGame best first. */
  lemma ArrangedSorted(s: seq<Record>, games: KnownGames, d: int)
    requires Uniform(s, games, d)
    ensures AllKnown(Arranged(s, games), games)
    ensures SortedBy(Arranged(s, games), games)
    ensures multiset(Arranged(s, games)) == multiset(s)
  {
    SortRecordsSorted(s, games, d);
  }

  /** Giving an absent game an empty entry keeps the store well formed and that game's events empty. */
  lemma PutEmptyWellFormed(db: Db, game: Bytes)
    requires WellFormed(db) && Get(db, game).None?
    ensures WellFormed(Put(db, game, []))
    ensures EventsOf(Put(db, game, []), game) == EventsOf(db, game) == []
    ensures game in KeySet(Put(db, game, []))
  {
    var db' := Put(db, game, []);
    PutSorted(db, game, []);
    forall i | 0 <= i < |db'|
      ensures Sorted(db'[i].value)
    {
      GetAt(db', i);
      if db'[i].key == game {
        GetPutSame(db, game, []);
      } else {
        GetPutOther(db, game, [], db'[i].key);
        ValueInKeySet(db, db'[i].key);
      }
    }
    GetPutSame(db, game, []);
  }

  // -------------------------------------------------------- the store class

  /** cRecords: the record document and whether it changed since it was loaded. */
  class RecordStore {
    var records: Db
    var hasChanged: bool

    ghost predicate Valid()
      reads this
    {
      WellFormed(records)
    }

    /** Starts from the document read at start-up (reading and parsing it is not modelled). */
    constructor (loaded: Db)
      requires WellFormed(loaded)
      ensures Valid() && records == loaded && !hasChanged
    {
      records := loaded;
      hasChanged := false;
    }

    /** The duplicate search of add: does any event of the game hold this name with this score? */
    static method FindRecord(events: EventRecords, name: Bytes, score: Bytes) returns (found: bool)
      ensures found == HasRecord(events, name, score)
    {
      var i := 0;
      while i < |events|
        invariant 0 <= i <= |events|
        invariant forall i', j :: 0 <= i' < i && 0 <= j < |events[i'].value| ==>
          !(events[i'].value[j].name == name && events[i'].value[j].score == score)
      {
        var list := events[i].value;
        var j := 0;
        while j < |list|
          invariant 0 <= j <= |list|
          invariant forall j' :: 0 <= j' < j ==> !(list[j'].name == name && list[j'].score == score)
        {
          if list[j].name == name && list[j].score == score {
            return true;
          }
          j := j + 1;
        }
        i := i + 1;
      }
      return false;
    }

    /**
     * add: stores the record of event `eventId` of the raw table under the
     * event name `game.events[eventMapId]`, dated `now`, unless its trimmed
     * name or score is empty or the game already holds that name with that
     * score.
     */
    method Add(raws: seq<RecordRaw>, game: KnownGame, eventId: nat, eventMapId: nat, now: int) returns (added: bool)
      requires Valid()
      requires RawReadable(raws, game, eventId)
      requires Accepts(records, raws, game, eventId) ==> eventMapId < |game.events|
      modifies this
      ensures Valid()
      ensures added == Accepts(old(records), raws, game, eventId)
      ensures !added ==> records == old(records) && hasChanged == old(hasChanged)
      ensures added ==> hasChanged && records == Appended(old(records), game.name, game.events[eventMapId],
        Record(game.id, eventMapId, PlayerName(raws[eventId], game, eventId), PlayerScore(raws[eventId], game, eventId), now))
    {
      var name := RTrim(RTrim(GetName(raws[eventId], game.id, eventId), 0x20), 0x00);
      var score := LTrim(LTrim(GetScore(raws[eventId], game.id, eventId), 0x20), 0x00);
      if name == [] || score == [] {
        return false;
      }
      var duplicate := FindRecord(EventsOf(records, game.name), name, score);
      if duplicate {
        return false;
      }
      var eventName := game.events[eventMapId];
      var record := Record(game.id, eventMapId, name, score, now);
      AppendedWellFormed(records, game.name, eventName, record);
      records := Appended(records, game.name, eventName, record);
      hasChanged := true;
      return true;
    }

    /** getByName: every record with exactly this name, game by game and event by event. */
    method GetByName(name: Bytes) returns (result: seq<Record>)
      requires Valid()
      ensures result == Named(AllRecords(records), name)
    {
      var db := records;
      result := [];
      var g := 0;
      while g < |db|
        invariant 0 <= g <= |db|
        invariant result == Named(AllRecords(db[..g]), name)
      {
        var found := NamedInEvents(db[g].value, name);
        AllRecordsSnoc(db, g);
        NamedAppend(AllRecords(db[..g]), EventsFlat(db[g].value), name);
        result := result + found;
        g := g + 1;
      }
      assert db[..g] == db;
    }

    /** The loop of getByName over the events of one game. */
    static method NamedInEvents(events: EventRecords, name: Bytes) returns (result: seq<Record>)
      ensures result == Named(EventsFlat(events), name)
    {
      result := [];
      var e := 0;
      while e < |events|
        invariant 0 <= e <= |events|
        invariant result == Named(EventsFlat(events[..e]), name)
      {
        var found := NamedInList(events[e].value, name);
        EventsFlatSnoc(events, e);
        NamedAppend(EventsFlat(events[..e]), events[e].value, name);
        result := result + found;
        e := e + 1;
      }
      assert events[..e] == events;
    }

    /** The loop of getByName over the records of one event. */
    static method NamedInList(list: seq<Record>, name: Bytes) returns (result: seq<Record>)
      ensures result == Named(list, name)
    {
      result := [];
      var k := 0;
      while k < |list|
        invariant 0 <= k <= |list|
        invariant result == Named(list[..k], name)
      {
        NamedSnoc(list, k, name);
        if list[k].name == name {
          result := result + [list[k]];
        }
        k := k + 1;
      }
      assert list[..k] == list;
    }

    /**
     * getByGame: for each event of the game, in key order, its records,
     * sorted when more than one, under the event id of the first one. The
     * JSON object's operator[] gives an absent game an empty entry.
     */
    method GetByGame(game: KnownGame, games: KnownGames) returns (result: map<nat, seq<Record>>)
      requires Valid()
      requires Comparable(EventsOf(records, game.name), games)
      modifies this
      ensures Valid() && hasChanged == old(hasChanged)
      ensures records == if game.name in KeySet(old(records)) then old(records) else Put(old(records), game.name, [])
      ensures EventsOf(records, game.name) == EventsOf(old(records), game.name)
      ensures result == ByEvent(EventsOf(records, game.name), games)
    {
      if Get(records, game.name).None? {
        PutEmptyWellFormed(records, game.name);
        records := Put(records, game.name, []);
      }
      result := GroupByEvent(EventsOf(records, game.name), games);
    }

    /** The loop of getByGame: arrange each event's list and file it under its first record's event id. */
    static method GroupByEvent(events: EventRecords, games: KnownGames) returns (result: map<nat, seq<Record>>)
      requires Comparable(events, games)
      ensures result == ByEvent(events, games)
    {
      result := map[];
      var e := 0;
      while e < |events|
        invariant 0 <= e <= |events|
        invariant result == ByEvent(events[..e], games)
      {
        ByEventSnoc(events, games, e);
        var list := events[e].value;
        if |list| > 1 {
          list := SortRecords(list, games);
        }
        if |list| > 0 && list[0].eventId !in result {
          result := result[list[0].eventId := list];
        }
        e := e + 1;
      }
      assert events[..e] == events;
    }

    /**
     * The import loop of importRecordsDisk and importCartRecords: add every
     * event of the game from its raw table, under its own id for a disk and
     * under the cartridge's remapped id for the cartridge.
     */
    method ImportGame(raws: seq<RecordRaw>, game: KnownGame, cartridge: bool, now: int)
      requires Valid()
      requires forall id :: 0 <= id < |game.events| ==> RawReadable(raws, game, id)
      requires forall id :: 0 <= id < |game.events| ==> MappedEvent(game.id, id, cartridge) < |game.events|
      modifies this
      ensures Valid()
      ensures Grows(old(records), records)
      ensures old(hasChanged) ==> hasChanged
    {
      var id := 0;
      while id < |game.events|
        invariant 0 <= id <= |game.events|
        invariant Valid()
        invariant Grows(old(records), records)
        invariant old(hasChanged) ==> hasChanged
      {
        var before := records;
        var added := Add(raws, game, id, MappedEvent(game.id, id, cartridge), now);
        if added {
          AppendedGrows(before, game.name, game.events[MappedEvent(game.id, id, cartridge)],
            Record(game.id, MappedEvent(game.id, id, cartridge), PlayerName(raws[id], game, id), PlayerScore(raws[id], game, id), now));
        }
        id := id + 1;
      }
    }
  }

  // ------------------------------------------------------- cartridge remap

  /**
   * The event id a record of the cartridge is filed under: Winter Games
   * moves event 2 to 4, 3 to 2 and 4 to 3; everything else keeps its id.
   */
  function CartEventId(game: Game, id: nat): (r: nat)
    ensures CartEventIdInverse(game, r) == id
    ensures game != Winter || id < 2 || 4 < id ==> r == id
  {
    if game != Winter then id
    else if id == 2 then 4
    else if id == 3 then 2
    else if id == 4 then 3
    else id
  }

  /** The event id an import files a record under. */
  function MappedEvent(game: Game, id: nat, cartridge: bool): (r: nat)
    ensures !cartridge ==> r == id
    ensures cartridge ==> CartEventIdInverse(game, r) == id
  {
    if cartridge then CartEventId(game, id) else id
  }

  /** The remap, undone. */
  function CartEventIdInverse(game: Game, id: nat): nat
  {
    if game != Winter then id
    else if id == 4 then 2
    else if id == 2 then 3
    else if id == 3 then 4
    else id
  }

  /** On ids 0..n-1 with n >= 5 the remap is a permutation: it stays in range and the inverse undoes it both ways. */
  lemma CartEventIdPermutes(game: Game, n: nat, id: nat)
    requires n >= 5 && id < n
    ensures CartEventId(game, id) < n && CartEventIdInverse(game, id) < n
    ensures CartEventIdInverse(game, CartEventId(game, id)) == id
    ensures CartEventId(game, CartEventIdInverse(game, id)) == id
  {
  }

  /** Different ids never land on the same event. */
  lemma CartEventIdInjective(game: Game, a: nat, b: nat)
    requires CartEventId(game, a) == CartEventId(game, b)
    ensures a == b
  {
    assert CartEventIdInverse(game, CartEventId(game, a)) == a;
  }
}
