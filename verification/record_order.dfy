/**
 * High-score records, the table of known games, and the ordering of
 * records: each event of each game says whether a smaller or a larger
 * score is the better one, and records of an event are sorted best first.
 */
module RecordOrder {
  import opened Words
  import opened JsonObject
  import opened RecordText

  /** sRecord: one stored high score. */
  datatype Record = Record(gameId: Game, eventId: nat, name: Bytes, score: Bytes, date: int)

  /** sKnownGame: what the tool knows of a game: its id, name, event names and per-event sort direction. */
  datatype KnownGame = KnownGame(id: Game, name: Bytes, events: seq<Bytes>, sorting: seq<int>)

  /** mKnownGames, indexed by game id. */
  type KnownGames = map<Game, KnownGame>

  /** The sort direction of a record's event can be looked up. */
  predicate DirectionKnown(r: Record, games: KnownGames)
  {
    r.gameId in games && r.eventId < |games[r.gameId].sorting|
  }

  function Direction(r: Record, games: KnownGames): int
    requires DirectionKnown(r, games)
  {
    games[r.gameId].sorting[r.eventId]
  }

  /**
   * operator<: the direction of the right-hand record's event decides:
   * 0 compares the scores ascending, 1 descending; any other direction
   * makes no record smaller than another.
   */
  predicate Less(a: Record, b: Record, games: KnownGames)
    requires DirectionKnown(b, games)
    ensures Less(a, b, games) ==> a.score != b.score
  {
    LexLessIrreflexive(a.score);
    match Direction(b, games)
    case 0 => LexLess(a.score, b.score)
    case 1 => LexLess(b.score, a.score)
    case _ => false
  }

  /** No record is smaller than itself. */
  lemma LessIrreflexive(a: Record, games: KnownGames)
    requires DirectionKnown(a, games)
    ensures !Less(a, a, games)
  {
    LexLessIrreflexive(a.score);
  }

  /** Two records are never each smaller than the other when their events share a direction. */
  lemma LessAsymmetric(a: Record, b: Record, games: KnownGames)
    requires DirectionKnown(a, games) && DirectionKnown(b, games)
    requires Direction(a, games) == Direction(b, games)
    ensures Less(a, b, games) ==> !Less(b, a, games)
  {
    LexLessAsymmetric(a.score, b.score);
  }

  /** Within one direction the order is transitive. */
  lemma LessTransitive(a: Record, b: Record, c: Record, games: KnownGames)
    requires DirectionKnown(a, games) && DirectionKnown(b, games) && DirectionKnown(c, games)
    requires Direction(a, games) == Direction(b, games) == Direction(c, games)
    requires Less(a, b, games) && Less(b, c, games)
    ensures Less(a, c, games)
  {
    if Direction(a, games) == 0 {
      LexLessTransitive(a.score, b.score, c.score);
    } else {
      LexLessTransitive(c.score, b.score, a.score);
    }
  }

  /** Records neither of which is smaller than the other have equal scores, or an event with no known direction. */
  lemma LessEquivalence(a: Record, b: Record, games: KnownGames)
    requires DirectionKnown(a, games) && DirectionKnown(b, games)
    requires Direction(a, games) == Direction(b, games)
    requires !Less(a, b, games) && !Less(b, a, games)
    ensures a.score == b.score || (Direction(a, games) != 0 && Direction(a, games) != 1)
  {
    if a.score != b.score {
      LexLessTotal(a.score, b.score);
    }
  }

  /** Within one direction, "not smaller" is transitive too, as a strict weak order requires. */
  lemma LessNegTransitive(a: Record, b: Record, c: Record, games: KnownGames)
    requires DirectionKnown(a, games) && DirectionKnown(b, games) && DirectionKnown(c, games)
    requires Direction(a, games) == Direction(b, games) == Direction(c, games)
    requires !Less(a, b, games) && !Less(b, c, games)
    ensures !Less(a, c, games)
  {
    var d := Direction(a, games);
    if d == 0 && LexLess(a.score, c.score) {
      LexLessTotal(a.score, b.score);
      if LexLess(b.score, a.score) {
        LexLessTransitive(b.score, a.score, c.score);
      }
    } else if d == 1 && LexLess(c.score, a.score) {
      LexLessTotal(a.score, b.score);
      if LexLess(a.score, b.score) {
        LexLessTransitive(c.score, a.score, b.score);
      }
    }
  }

  predicate AllKnown(s: seq<Record>, games: KnownGames)
  {
    forall r :: r in s ==> DirectionKnown(r, games)
  }

  /** All records of the list belong to events sorted in direction d. */
  predicate Uniform(s: seq<Record>, games: KnownGames, d: int)
  {
    forall r :: r in s ==> DirectionKnown(r, games) && Direction(r, games) == d
  }

  /** Best first: no record is smaller than one before it. */
  predicate SortedBy(s: seq<Record>, games: KnownGames)
    requires AllKnown(s, games)
  {
    forall i, j :: 0 <= i < j < |s| ==> !Less(s[j], s[i], games)
  }

  /** Places x before the first record that is not smaller than it, so records that compare equal keep their order. */
  function Insert(x: Record, s: seq<Record>, games: KnownGames): (r: seq<Record>)
    requires AllKnown(s, games) && DirectionKnown(x, games)
    ensures multiset(r) == multiset(s) + multiset{x}
    ensures forall y :: y in r ==> y in s || y == x
  {
    if s == [] then [x]
    else if !Less(s[0], x, games) then [x] + s
    else
      assert s == [s[0]] + s[1..];
      [s[0]] + Insert(x, s[1..], games)
  }

  /** r is s with x put at position k: every record before k is smaller than x, and the one at k is not. */
  predicate PlacedAt(x: Record, s: seq<Record>, r: seq<Record>, k: int, games: KnownGames)
    requires DirectionKnown(x, games)
  {
    && 0 <= k <= |s| && r == s[..k] + [x] + s[k..]
    && (forall j :: 0 <= j < k ==> Less(s[j], x, games))
    && (k < |s| ==> !Less(s[k], x, games))
  }

  /** Insert puts x just before the first record that is not smaller than it. */
  lemma {:induction false} InsertPlacement(x: Record, s: seq<Record>, games: KnownGames)
    requires AllKnown(s, games) && DirectionKnown(x, games)
    ensures exists k :: PlacedAt(x, s, Insert(x, s, games), k, games)
  {
    var r := Insert(x, s, games);
    if s == [] {
      assert r == [x];
      assert PlacedAt(x, s, r, 0, games);
    } else if !Less(s[0], x, games) {
      assert r == [x] + s;
      assert PlacedAt(x, s, r, 0, games);
    } else {
      var t := s[1..];
      assert s == [s[0]] + t;
      InsertPlacement(x, t, games);
      var k :| PlacedAt(x, t, Insert(x, t, games), k, games);
      PlacedAtCons(x, s, Insert(x, t, games), k, games);
    }
  }

  /** Placing x after a first record smaller than it moves the position by one. */
  lemma PlacedAtCons(x: Record, s: seq<Record>, rest: seq<Record>, k: int, games: KnownGames)
    requires DirectionKnown(x, games)
    requires s != [] && Less(s[0], x, games)
    requires PlacedAt(x, s[1..], rest, k, games)
    ensures PlacedAt(x, s, [s[0]] + rest, k + 1, games)
  {
    var t := s[1..];
    assert s[..k + 1] == [s[0]] + t[..k];
    assert s[k + 1..] == t[k..];
    forall j | 0 <= j < k + 1
      ensures Less(s[j], x, games)
    {
      if j > 0 {
        assert s[j] == t[j - 1];
      }
    }
  }

  /** The sort of getByGame (std::sort with operator<), as an insertion sort. */
  function SortRecords(s: seq<Record>, games: KnownGames): (r: seq<Record>)
    requires AllKnown(s, games)
    ensures multiset(r) == multiset(s)
    ensures forall y :: y in r ==> y in s
  {
    if s == [] then []
    else
      assert s == [s[0]] + s[1..];
      Insert(s[0], SortRecords(s[1..], games), games)
  }

  lemma {:induction false} InsertSorted(x: Record, s: seq<Record>, games: KnownGames, d: int)
    requires Uniform(s, games, d) && Uniform([x], games, d)
    requires SortedBy(s, games)
    ensures Uniform(Insert(x, s, games), games, d)
    ensures SortedBy(Insert(x, s, games), games)
  {
    var r := Insert(x, s, games);
    assert x in [x];
    if s == [] {
    } else if !Less(s[0], x, games) {
      forall j | 0 < j < |r|
        ensures !Less(r[j], x, games)
      {
        assert r[j] == s[j - 1];
        if j > 1 {
          LessNegTransitive(s[j - 1], s[0], x, games);
        }
      }
    } else {
      InsertSorted(x, s[1..], games, d);
      var rest := Insert(x, s[1..], games);
      assert r == [s[0]] + rest;
      LessAsymmetric(s[0], x, games);
      forall j | 0 <= j < |rest|
        ensures !Less(rest[j], s[0], games)
      {
        assert rest[j] in rest;
        if rest[j] != x {
          var k :| 0 <= k < |s[1..]| && s[1..][k] == rest[j];
          assert s[k + 1] == rest[j];
        }
      }
    }
  }

  /** With one direction for the whole list, the sort yields a best-first permutation of it. */
  lemma {:induction false} SortRecordsSorted(s: seq<Record>, games: KnownGames, d: int)
    requires Uniform(s, games, d)
    ensures Uniform(SortRecords(s, games), games, d)
    ensures SortedBy(SortRecords(s, games), games)
  {
    if s != [] {
      SortRecordsSorted(s[1..], games, d);
      InsertSorted(s[0], SortRecords(s[1..], games), games, d);
    }
  }

  /** Records of an event with no known order are handed out in the order given. */
  lemma {:induction false} SortRecordsUnordered(s: seq<Record>, games: KnownGames, d: int)
    requires Uniform(s, games, d) && d != 0 && d != 1
    ensures SortRecords(s, games) == s
  {
    if s != [] {
      SortRecordsUnordered(s[1..], games, d);
      assert s[0] in s;
      assert s == [s[0]] + s[1..];
    }
  }
}
