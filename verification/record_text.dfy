/**
 * Text handling of raw high-score records: trimming, the fixed-width name
 * and score fields of a raw record, and the per-game clean-up of scores.
 *
 * Strings are byte sequences. The trim helpers compare each character,
 * converted from a signed `char` to `int`, with the pad byte converted from
 * an unsigned byte to `int`; on the signed-char targets the tool is built
 * for, a pad byte of 0x80 or more therefore never matches anything.
 */
module RecordText {
  import opened Words

  type Bytes = seq<byte>

  /** eGames: the games whose records get special treatment, and every other game. */
  datatype Game = California | World | Summer | Summer2 | Winter | OtherGame(id: nat)

  /** The value of a byte read as a signed `char` and widened to `int`. */
  function SignedChar(c: byte): (v: int)
    ensures -0x80 <= v < 0x80
    ensures v as int % 0x100 == c as int
  {
    if c < 0x80 then c as int else c as int - 0x100
  }

  /** The trim helpers' test `ch == pChar`. */
  predicate IsPad(c: byte, pad: byte)
  {
    SignedChar(c) == pad as int
  }

  /** Below 0x80 the pad test is plain byte equality; from 0x80 on it never holds. */
  lemma IsPadMeaning(c: byte, pad: byte)
    ensures pad < 0x80 ==> (IsPad(c, pad) <==> c == pad)
    ensures pad >= 0x80 ==> !IsPad(c, pad)
  {
  }

  /** ltrim: drops the leading run of pad characters; what is left is a suffix of the input. */
  function LTrim(s: Bytes, pad: byte): (r: Bytes)
    ensures |r| <= |s| && r == s[|s| - |r|..]
    ensures forall i :: 0 <= i < |s| - |r| ==> IsPad(s[i], pad)
    ensures r != [] ==> !IsPad(r[0], pad)
  {
    if s != [] && IsPad(s[0], pad) then LTrim(s[1..], pad) else s
  }

  /** rtrim: drops the trailing run of pad characters; what is left is a prefix of the input. */
  function RTrim(s: Bytes, pad: byte): (r: Bytes)
    ensures |r| <= |s| && r == s[..|r|]
    ensures forall i :: |r| <= i < |s| ==> IsPad(s[i], pad)
    ensures r != [] ==> !IsPad(r[|r| - 1], pad)
  {
    if s != [] && IsPad(s[|s| - 1], pad) then RTrim(s[..|s| - 1], pad) else s
  }

  /** Trimming twice trims nothing more. */
  lemma TrimIdempotent(s: Bytes, pad: byte)
    ensures LTrim(LTrim(s, pad), pad) == LTrim(s, pad)
    ensures RTrim(RTrim(s, pad), pad) == RTrim(s, pad)
  {
  }

  /** A string that does not start (end) with a pad character is left alone. */
  lemma TrimKeepsUnpadded(s: Bytes, pad: byte)
    ensures s == [] || !IsPad(s[0], pad) ==> LTrim(s, pad) == s
    ensures s == [] || !IsPad(s[|s| - 1], pad) ==> RTrim(s, pad) == s
  {
  }

  /** The trimmed result is empty exactly when every character is a pad character. */
  lemma TrimEmptyIffAllPad(s: Bytes, pad: byte)
    ensures LTrim(s, pad) == [] <==> forall i :: 0 <= i < |s| ==> IsPad(s[i], pad)
    ensures RTrim(s, pad) == [] <==> forall i :: 0 <= i < |s| ==> IsPad(s[i], pad)
  {
  }

  /**
   * field is r, then NULs up to k, then spaces to the end, and the space run
   * is as long as it can be: the byte before k is not a space.
   */
  predicate RightCut(field: Bytes, r: Bytes, k: int)
  {
    && |r| <= k <= |field| && r == field[..|r|]
    && (forall i :: |r| <= i < k ==> field[i] == 0x00)
    && (forall i :: k <= i < |field| ==> field[i] == 0x20)
    && (k > 0 ==> field[k - 1] != 0x20)
  }

  /**
   * field is spaces up to k, then NULs, then r to the end, and the space run
   * is as long as it can be: the byte at k is not a space.
   */
  predicate LeftCut(field: Bytes, r: Bytes, k: int)
  {
    && 0 <= k <= |field| - |r| && r == field[|field| - |r|..]
    && (forall i :: 0 <= i < k ==> field[i] == 0x20)
    && (forall i :: k <= i < |field| - |r| ==> field[i] == 0x00)
    && (k < |field| ==> field[k] != 0x20)
  }

  /**
   * r is what is left of field once the trailing spaces and then the NULs
   * before them are cut off: a prefix, with only spaces and NULs cut, no
   * trailing NUL left, and the whole run of trailing spaces gone.
   */
  ghost predicate RightTrimmed(field: Bytes, r: Bytes)
  {
    && |r| <= |field| && r == field[..|r|]
    && (forall i :: |r| <= i < |field| ==> field[i] == 0x20 || field[i] == 0x00)
    && (r != [] ==> r[|r| - 1] != 0x00)
    && (exists k :: RightCut(field, r, k))
  }

  /**
   * r is what is left of field once the leading spaces and then the NULs
   * after them are cut off: a suffix, with only spaces and NULs cut, no
   * leading NUL left, and the whole run of leading spaces gone.
   */
  ghost predicate LeftTrimmed(field: Bytes, r: Bytes)
  {
    && |r| <= |field| && r == field[|field| - |r|..]
    && (forall i :: 0 <= i < |field| - |r| ==> field[i] == 0x20 || field[i] == 0x00)
    && (r != [] ==> r[0] != 0x00)
    && (exists k :: LeftCut(field, r, k))
  }

  /** RightTrimmed leaves no choice: a field has exactly one right-trimmed result. */
  lemma RightTrimmedUnique(field: Bytes, r1: Bytes, r2: Bytes)
    requires RightTrimmed(field, r1) && RightTrimmed(field, r2)
    ensures r1 == r2
  {
    var k1 :| RightCut(field, r1, k1);
    var k2 :| RightCut(field, r2, k2);
  }

  /** A field of nothing but spaces trims to nothing. */
  lemma AllSpacesTrimToEmpty(field: Bytes, r: Bytes)
    requires forall i :: 0 <= i < |field| ==> field[i] == 0x20
    requires RightTrimmed(field, r) || LeftTrimmed(field, r)
    ensures r == []
  {
    if RightTrimmed(field, r) {
      var k :| RightCut(field, r, k);
    } else {
      var k :| LeftCut(field, r, k);
    }
  }

  /** LeftTrimmed leaves no choice: a field has exactly one left-trimmed result. */
  lemma LeftTrimmedUnique(field: Bytes, r1: Bytes, r2: Bytes)
    requires LeftTrimmed(field, r1) && LeftTrimmed(field, r2)
    ensures r1 == r2
  {
    var k1 :| LeftCut(field, r1, k1);
    var k2 :| LeftCut(field, r2, k2);
  }

  /**
   * Right-trimming spaces, then NULs, keeps a prefix: the whole trailing run
   * of spaces goes, then the run of NULs before it, and no trailing NUL is left.
   */
  lemma RTrimSpacesThenNuls(field: Bytes)
    ensures RightTrimmed(field, RTrim(RTrim(field, 0x20), 0x00))
  {
    var spaces := RTrim(field, 0x20);
    RTrimCuts(field, 0x20);
    RTrimCuts(spaces, 0x00);
    TwoRightCuts(field, spaces, RTrim(spaces, 0x00));
  }

  /** r is s with a trailing run of pad characters cut off, and no pad character left at the end. */
  predicate RightCutOf(s: Bytes, r: Bytes, pad: byte)
  {
    && |r| <= |s| && r == s[..|r|]
    && (forall i :: |r| <= i < |s| ==> IsPad(s[i], pad))
    && (r != [] ==> !IsPad(r[|r| - 1], pad))
  }

  /** RTrim's postconditions, as one fact. */
  lemma RTrimCuts(s: Bytes, pad: byte)
    ensures RightCutOf(s, RTrim(s, pad), pad)
  {
  }

  /** Two right cuts in a row, the first of spaces and the second of NULs, as RTrim states them. */
  lemma TwoRightCuts(field: Bytes, spaces: Bytes, r: Bytes)
    requires RightCutOf(field, spaces, 0x20) && RightCutOf(spaces, r, 0x00)
    ensures RightCut(field, r, |spaces|)
    ensures RightTrimmed(field, r)
  {
    var k := |spaces|;
    forall i | |r| <= i < k
      ensures field[i] == 0x00
    {
      assert field[i] == spaces[i];
      IsPadMeaning(spaces[i], 0x00);
    }
    forall i | k <= i < |field|
      ensures field[i] == 0x20
    {
      IsPadMeaning(field[i], 0x20);
    }
    if k > 0 {
      assert field[k - 1] == spaces[k - 1];
      IsPadMeaning(spaces[k - 1], 0x20);
    }
    if r != [] {
      IsPadMeaning(r[|r| - 1], 0x00);
    }
    assert RightCut(field, r, k);
  }

  /**
   * Left-trimming spaces, then NULs, keeps a suffix: the whole leading run of
   * spaces goes, then the run of NULs after it, and no leading NUL is left.
   */
  lemma LTrimSpacesThenNuls(field: Bytes)
    ensures LeftTrimmed(field, LTrim(LTrim(field, 0x20), 0x00))
  {
    var spaces := LTrim(field, 0x20);
    LTrimCuts(field, 0x20);
    LTrimCuts(spaces, 0x00);
    TwoLeftCuts(field, spaces, LTrim(spaces, 0x00));
  }

  /** r is s with a leading run of pad characters cut off, and no pad character left in front. */
  predicate LeftCutOf(s: Bytes, r: Bytes, pad: byte)
  {
    && |r| <= |s| && r == s[|s| - |r|..]
    && (forall i :: 0 <= i < |s| - |r| ==> IsPad(s[i], pad))
    && (r != [] ==> !IsPad(r[0], pad))
  }

  /** LTrim's postconditions, as one fact. */
  lemma LTrimCuts(s: Bytes, pad: byte)
    ensures LeftCutOf(s, LTrim(s, pad), pad)
  {
  }

  /** Two left cuts in a row, the first of spaces and the second of NULs, as LTrim states them. */
  lemma TwoLeftCuts(field: Bytes, spaces: Bytes, r: Bytes)
    requires LeftCutOf(field, spaces, 0x20) && LeftCutOf(spaces, r, 0x00)
    ensures LeftCut(field, r, |field| - |spaces|)
    ensures LeftTrimmed(field, r)
  {
    var off := |field| - |spaces|;
    assert field[off..][|spaces| - |r|..] == field[off + |spaces| - |r|..];
    forall i | 0 <= i < off
      ensures field[i] == 0x20
    {
      IsPadMeaning(field[i], 0x20);
    }
    forall i | off <= i < |field| - |r|
      ensures field[i] == 0x00
    {
      assert field[i] == spaces[i - off];
      IsPadMeaning(spaces[i - off], 0x00);
    }
    if off < |field| {
      assert field[off] == spaces[0];
      IsPadMeaning(spaces[0], 0x20);
    }
    if r != [] {
      IsPadMeaning(r[0], 0x00);
    }
    assert LeftCut(field, r, off);
  }

  /** std::replace: every `from` becomes `to`, every other byte and the length stay. */
  function Replace(s: Bytes, from: byte, to: byte): (r: Bytes)
    ensures |r| == |s|
    ensures forall i :: 0 <= i < |s| ==> r[i] == if s[i] == from then to else s[i]
  {
    if s == [] then [] else Replace(s[..|s| - 1], from, to) + [if s[|s| - 1] == from then to else s[|s| - 1]]
  }

  /** The characters California scores keep at first: '.' and 0x20..0x5F. */
  predicate KeepCalifornia(c: byte)
  {
    c == 0x2E || (0x20 <= c < 0x60)
  }

  /** The characters kept for the BMX and Flying Disk events: '.' and 0x20..0x3F. */
  predicate KeepDigits(c: byte)
  {
    c == 0x2E || (0x20 <= c < 0x40)
  }

  /** Whether a California filter keeps a character: the BMX and Flying Disk one when `digitsOnly`. */
  predicate Kept(c: byte, digitsOnly: bool)
  {
    if digitsOnly then KeepDigits(c) else KeepCalifornia(c)
  }

  /** erase(remove_if(...)) with the California filters: the kept characters, in order. */
  function FilterKeep(s: Bytes, digitsOnly: bool): (r: Bytes)
    ensures |r| <= |s|
    ensures forall i :: 0 <= i < |r| ==> Kept(r[i], digitsOnly)
    ensures (forall i :: 0 <= i < |s| ==> Kept(s[i], digitsOnly)) ==> r == s
  {
    if s == [] then []
    else
      var rest := FilterKeep(s[..|s| - 1], digitsOnly);
      var c := s[|s| - 1];
      if Kept(c, digitsOnly) then rest + [c] else rest
  }

  /** A single character survives the filter exactly when it is kept. */
  lemma FilterKeepOne(c: byte, digitsOnly: bool)
    ensures FilterKeep([c], digitsOnly) == if Kept(c, digitsOnly) then [c] else []
  {
    assert [c][..0] == [];
  }

  /** Filtering works piece by piece: the kept characters of a + b are those of a followed by those of b. */
  lemma {:induction false} FilterKeepAppend(a: Bytes, b: Bytes, digitsOnly: bool)
    ensures FilterKeep(a + b, digitsOnly) == FilterKeep(a, digitsOnly) + FilterKeep(b, digitsOnly)
  {
    if b == [] {
      assert a + b == a;
    } else {
      var b' := b[..|b| - 1];
      FilterKeepAppend(a, b', digitsOnly);
      assert (a + b)[..|a + b| - 1] == a + b';
      assert (a + b)[|a + b| - 1] == b[|b| - 1];
    }
  }

  /**
   * A raw record as it sits in memory: the bytes from its name field on and
   * the bytes from its score field on, as far as the surrounding buffer goes.
   */
  datatype RecordRaw = RecordRaw(nameBytes: Bytes, scoreBytes: Bytes)

  /** Offset of a California record's fields: the event number. */
  function FieldOffset(game: Game, eventId: nat): nat
  {
    if game == California then eventId else 0
  }

  /** The bytes getName reads exist. */
  predicate NameReadable(raw: RecordRaw, game: Game, eventId: nat)
  {
    FieldOffset(game, eventId) + 10 <= |raw.nameBytes|
  }

  /** The bytes getScore reads exist: 7 always, 10 from the event number on for California, 8 for Sumo. */
  predicate ScoreReadable(raw: RecordRaw, game: Game, eventId: nat)
  {
    && 7 <= |raw.scoreBytes|
    && (game == California ==> eventId + 10 <= |raw.scoreBytes|)
    && (game == World && eventId == 7 ==> 8 <= |raw.scoreBytes|)
  }

  /** getName: the ten name bytes, shifted by the event number for California. */
  function GetName(raw: RecordRaw, game: Game, eventId: nat): (r: Bytes)
    requires NameReadable(raw, game, eventId)
    ensures |r| == 10
    ensures forall i :: 0 <= i < 10 ==> r[i] == raw.nameBytes[FieldOffset(game, eventId) + i]
  {
    var at := FieldOffset(game, eventId);
    raw.nameBytes[at..at + 10]
  }

  /** The California score clean-up applied to the ten score bytes of an event. */
  function CaliforniaScore(field: Bytes, eventId: nat): Bytes
  {
    var printable := LTrim(FilterKeep(LTrim(field, 0x20), false), 0x30);
    if eventId == 4 || eventId == 5 then FilterKeep(printable, true) else printable
  }

  /**
   * getScore: the score text of one event of one game: eight characters for
   * Sumo, seven for the others; for California Games at most ten, cleaned up
   * to the characters the clean-up keeps.
   */
  function GetScore(raw: RecordRaw, game: Game, eventId: nat): (r: Bytes)
    requires ScoreReadable(raw, game, eventId)
    ensures game != California ==> |r| == if game == World && eventId == 7 then 8 else 7
    ensures game == California ==> |r| <= 10
    ensures game == California ==> forall i :: 0 <= i < |r| ==> KeepCalifornia(r[i])
    ensures game == California && (eventId == 4 || eventId == 5) ==> forall i :: 0 <= i < |r| ==> KeepDigits(r[i])
    ensures game == California && eventId != 4 && eventId != 5 && r != [] ==> r[0] != 0x30
  {
    var res := raw.scoreBytes[..7];
    match game
    case California =>
      CaliforniaCleanup(raw.scoreBytes[eventId..eventId + 10], eventId);
      CaliforniaScore(raw.scoreBytes[eventId..eventId + 10], eventId)
    case World =>
      if eventId == 6 then Replace(Replace(res, 0xD6, 0x27), 0xD5, 0x22)
      else if eventId == 7 then raw.scoreBytes[..8]
      else res
    case Summer => if eventId == 0 then Replace(res, 0xB8, 0x6D) else res
    case Summer2 => if eventId == 0 || eventId == 4 then Replace(res, 0xB8, 0x6D) else res
    case _ => res
  }

  /** Events without special handling get their first seven score bytes unchanged. */
  lemma PlainScore(raw: RecordRaw, game: Game, eventId: nat)
    requires ScoreReadable(raw, game, eventId)
    requires game != California
    requires game == World ==> eventId != 6 && eventId != 7
    requires game == Summer ==> eventId != 0
    requires game == Summer2 ==> eventId != 0 && eventId != 4
    ensures GetScore(raw, game, eventId) == raw.scoreBytes[..7]
  {
  }

  /** World Games Sumo: eight score bytes, unchanged. */
  lemma SumoScore(raw: RecordRaw)
    requires ScoreReadable(raw, World, 7)
    ensures GetScore(raw, World, 7) == raw.scoreBytes[..8]
  {
  }

  /** World Games Caber: seven bytes, 0xD6 shown as a quote and 0xD5 as a double quote, nothing else changed. */
  lemma CaberScore(raw: RecordRaw)
    requires ScoreReadable(raw, World, 6)
    ensures |GetScore(raw, World, 6)| == 7
    ensures forall i :: 0 <= i < 7 ==>
      GetScore(raw, World, 6)[i] ==
        if raw.scoreBytes[i] == 0xD6 then 0x27
        else if raw.scoreBytes[i] == 0xD5 then 0x22
        else raw.scoreBytes[i]
  {
  }

  /** Summer Games pole vault, Summer Games II triple and high jump: 0xB8 shown as 'm', nothing else changed. */
  lemma MetreScore(raw: RecordRaw, game: Game, eventId: nat)
    requires ScoreReadable(raw, game, eventId)
    requires (game == Summer && eventId == 0) || (game == Summer2 && (eventId == 0 || eventId == 4))
    ensures |GetScore(raw, game, eventId)| == 7
    ensures forall i :: 0 <= i < 7 ==>
      GetScore(raw, game, eventId)[i] == if raw.scoreBytes[i] == 0xB8 then 0x6D else raw.scoreBytes[i]
  {
  }

  /**
   * The California clean-up keeps at most the field's characters, each '.'
   * or in 0x20..0x5F (0x20..0x3F for BMX and Flying Disk), and, for the
   * other events, never starts with '0'.
   */
  lemma CaliforniaCleanup(field: Bytes, eventId: nat)
    ensures |CaliforniaScore(field, eventId)| <= |field|
    ensures forall i :: 0 <= i < |CaliforniaScore(field, eventId)| ==> KeepCalifornia(CaliforniaScore(field, eventId)[i])
    ensures eventId == 4 || eventId == 5 ==>
      forall i :: 0 <= i < |CaliforniaScore(field, eventId)| ==> KeepDigits(CaliforniaScore(field, eventId)[i])
    ensures eventId != 4 && eventId != 5 && CaliforniaScore(field, eventId) != [] ==> CaliforniaScore(field, eventId)[0] != 0x30
  {
    var kept := FilterKeep(LTrim(field, 0x20), false);
    var printable := LTrim(kept, 0x30);
    assert forall i :: 0 <= i < |printable| ==> printable[i] == kept[|kept| - |printable| + i];
    var r := CaliforniaScore(field, eventId);
    if eventId == 4 || eventId == 5 {
      assert r == FilterKeep(printable, true);
    } else {
      assert r == printable;
      IsPadMeaning(if r == [] then 0 else r[0], 0x30);
    }
  }
}
