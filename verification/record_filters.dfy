/**
 * The filters of the record tool: which records a listing of one event
 * shows (by player name and by date), and which disk sectors the search
 * for older records takes for a saved high-score table.
 */
module RecordFilters {
  import opened Words
  import opened RecordText
  import opened RecordOrder

  // ------------------------------------------------------ listing an event

  /** Upper-casing of one character in the C locale: 'a'..'z' become 'A'..'Z'. */
  function UpperChar(c: byte): (u: byte)
    ensures 0x61 <= c <= 0x7A ==> u as int == c as int - 0x20
    ensures !(0x61 <= c <= 0x7A) ==> u == c
  {
    if 0x61 <= c <= 0x7A then c - 0x20 else c
  }

  /** str_to_upper, character by character. */
  function Upper(s: Bytes): (u: Bytes)
    ensures |u| == |s|
    ensures forall i :: 0 <= i < |s| ==> u[i] == UpperChar(s[i])
  {
    if s == [] then [] else Upper(s[..|s| - 1]) + [UpperChar(s[|s| - 1])]
  }

  /**
   * The listing settings: a player name (empty: every name), a date
   * (0: every date) and whether to keep records from that date on
   * (otherwise up to it).
   */
  datatype DumpFilter = DumpFilter(name: Bytes, date: int, forward: bool)

  /** The name test of the listing: equal ignoring case, or no name given. */
  predicate NameMatches(r: Record, f: DumpFilter)
  {
    f.name == [] || Upper(r.name) == Upper(f.name)
  }

  /** The date test of the listing: no date given, or on the requested side of it (the date itself included). */
  predicate DateMatches(r: Record, f: DumpFilter)
  {
    f.date == 0 || (if f.forward then r.date >= f.date else r.date <= f.date)
  }

  /** The records a listing shows, in the order given. */
  function Shown(rs: seq<Record>, f: DumpFilter): seq<Record>
  {
    if rs == [] then []
    else
      var last := rs[|rs| - 1];
      Shown(rs[..|rs| - 1], f) + (if NameMatches(last, f) && DateMatches(last, f) then [last] else [])
  }

  /** A record is listed exactly when it is given and passes both tests. */
  lemma {:induction false} ShownMembership(rs: seq<Record>, f: DumpFilter, r: Record)
    ensures r in Shown(rs, f) <==> r in rs && NameMatches(r, f) && DateMatches(r, f)
  {
    if rs != [] {
      ShownMembership(rs[..|rs| - 1], f, r);
      assert rs == rs[..|rs| - 1] + [rs[|rs| - 1]];
    }
  }

  /** With neither a name nor a date every record is listed, in order. */
  lemma {:induction false} ShownUnfiltered(rs: seq<Record>, f: DumpFilter)
    requires f.name == [] && f.date == 0
    ensures Shown(rs, f) == rs
  {
    if rs != [] {
      ShownUnfiltered(rs[..|rs| - 1], f);
      assert rs == rs[..|rs| - 1] + [rs[|rs| - 1]];
    }
  }

  /** The name test ignores case: names differing only in case pass or fail together. */
  lemma NameMatchIgnoresCase(r: Record, r': Record, f: DumpFilter)
    requires Upper(r.name) == Upper(r'.name)
    ensures NameMatches(r, f) <==> NameMatches(r', f)
  {
  }

  /** dumpRecordsForEvent: the records whose lines it writes (the text of a line is not modelled). */
  method DumpSelection(records: seq<Record>, f: DumpFilter) returns (shown: seq<Record>)
    ensures shown == Shown(records, f)
  {
    shown := [];
    var i := 0;
    while i < |records|
      invariant 0 <= i <= |records|
      invariant shown == Shown(records[..i], f)
    {
      assert records[..i + 1][..i] == records[..i];
      var r := records[i];
      if f.name != [] && Upper(r.name) != Upper(f.name) {
        i := i + 1;
        continue;
      }
      if f.date != 0 {
        if f.forward && r.date < f.date {
          i := i + 1;
          continue;
        }
        if !f.forward && r.date > f.date {
          i := i + 1;
          continue;
        }
      }
      shown := shown + [r];
      i := i + 1;
    }
    assert records[..i] == records;
  }

  // -------------------------------------------------- searching a disk

  /** std::isprint in the C locale. */
  predicate IsPrint(c: byte)
  {
    0x20 <= c <= 0x7E
  }

  /** The load-address test of findRecordsDisk: the word at offset 2 of the sector is 0x0E00 or 0x0B00. */
  predicate LoadsHighScores(sector: Bytes)
    requires |sector| >= 4
  {
    ReadLEWord(sector, 2) == 0x0E00 || ReadLEWord(sector, 2) == 0x0B00
  }

  /** In bytes: offset 2 holds 0 and offset 3 holds 0x0E or 0x0B. */
  lemma LoadsHighScoresBytes(sector: Bytes)
    requires |sector| >= 4
    ensures LoadsHighScores(sector) <==> sector[2] == 0 && (sector[3] == 0x0E || sector[3] == 0x0B)
  {
  }

  /** The plausibility loop of findRecordsDisk: the first ten bytes of the first record's name are all printable. */
  method NamePrintable(raw: RecordRaw) returns (ok: bool)
    requires |raw.nameBytes| >= 10
    ensures ok <==> forall x :: 0 <= x < 10 ==> IsPrint(raw.nameBytes[x])
  {
    ok := false;
    var x := 0;
    while x < 10
      invariant 0 <= x <= 10
      invariant forall y :: 0 <= y < x ==> IsPrint(raw.nameBytes[y])
      invariant ok <==> x > 0
    {
      if IsPrint(raw.nameBytes[x]) {
        ok := true;
      } else {
        ok := false;
        break;
      }
      x := x + 1;
    }
  }

  /**
   * findRecordsDisk takes a sector for a high-score table when its load
   * address is one of the two and the name of the record that follows it
   * is printable.
   */
  method RecordSector(sector: Bytes, first: RecordRaw) returns (hit: bool)
    requires |sector| >= 4 && |first.nameBytes| >= 10
    ensures hit <==> sector[2] == 0 && (sector[3] == 0x0E || sector[3] == 0x0B)
                     && forall x :: 0 <= x < 10 ==> IsPrint(first.nameBytes[x])
  {
    var loadAddress := ReadLEWord(sector, 2);
    hit := false;
    if loadAddress == 0x0E00 || loadAddress == 0x0B00 {
      hit := NamePrintable(first);
    }
  }
}
