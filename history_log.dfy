/** The play history: public/backend/insert-history.php, which records a
    play with a prepared statement and a time stamp rounded down to the
    minute, and its predecessor public/backend/videoHistory.php, which
    records it with an SQL literal and a stamp to the second. */
module HistoryLog {
  import opened Optional
  import opened PhpText
  import opened SqlEscape

  // ----- time stamps -----

  /** A wall-clock reading in the time zone the endpoint uses. */
  datatype DateTime = DateTime(year: int, month: int, day: int, hour: int, minute: int, second: int)

  predicate LeapYear(y: int) {
    y % 4 == 0 && (y % 100 != 0 || y % 400 == 0)
  }

  function DaysInMonth(y: int, m: int): int
    requires 1 <= m <= 12
  {
    if m == 2 then (if LeapYear(y) then 29 else 28)
    else if m == 4 || m == 6 || m == 9 || m == 11 then 30
    else 31
  }

  /** A date and time of the calendar that date('Y') writes with four digits. */
  predicate ValidTime(t: DateTime) {
    && 0 <= t.year <= 9999
    && 1 <= t.month <= 12
    && 1 <= t.day <= DaysInMonth(t.year, t.month)
    && 0 <= t.hour < 24 && 0 <= t.minute < 60 && 0 <= t.second < 60
  }

  /** Two digits, with a leading zero: the d, m, H, i and s of date(). */
  function Pad2(n: nat): (r: string)
    requires n < 100
    ensures |r| == 2 && AllDigits(r)
  {
    [DigitChar(n / 10), DigitChar(n % 10)]
  }

  /** Four digits, with leading zeros: the Y of date() for years below 10000. */
  function Pad4(n: nat): (r: string)
    requires n < 10000
    ensures |r| == 4 && AllDigits(r)
  {
    Pad2(n / 100) + Pad2(n % 100)
  }

  lemma ReadPad2(n: nat)
    requires n < 100
    ensures Read(Pad2(n)) == n
  {
    ReadTwo(Pad2(n));
    assert DigitValue(DigitChar(n / 10)) == n / 10;
    assert DigitValue(DigitChar(n % 10)) == n % 10;
  }

  lemma PadRead2(s: string)
    requires |s| == 2 && AllDigits(s)
    ensures Read(s) < 100 && Pad2(Read(s)) == s
  {
    ReadTwo(s);
    var a, b := DigitValue(s[0]), DigitValue(s[1]);
    assert (a * 10 + b) / 10 == a && (a * 10 + b) % 10 == b;
  }

  lemma ReadAppend(a: string, b: string)
    requires AllDigits(a) && AllDigits(b) && |b| == 2
    ensures AllDigits(a + b) && Read(a + b) == Read(a) * 100 + Read(b)
  {
    var s := a + b;
    var m := a + [b[0]];
    assert AllDigits(s) by {
      forall i | 0 <= i < |s| ensures IsDigit(s[i]) {
        if i < |a| { assert s[i] == a[i]; } else { assert s[i] == b[i - |a|]; }
      }
    }
    assert s[..|s| - 1] == m;
    assert m[..|a|] == a;
    assert Read(s) == Read(m) * 10 + DigitValue(b[1]);
    assert Read(m) == Read(a) * 10 + DigitValue(b[0]);
    ReadTwo(b);
  }

  lemma ReadPad4(n: nat)
    requires n < 10000
    ensures Read(Pad4(n)) == n
  {
    ReadAppend(Pad2(n / 100), Pad2(n % 100));
    ReadPad2(n / 100);
    ReadPad2(n % 100);
  }

  lemma PadRead4(s: string)
    requires |s| == 4 && AllDigits(s)
    ensures Read(s) < 10000 && Pad4(Read(s)) == s
  {
    var hi, lo := s[..2], s[2..];
    assert s == hi + lo;
    ReadAppend(hi, lo);
    PadRead2(hi);
    PadRead2(lo);
    var n := Read(s);
    assert n / 100 == Read(hi) && n % 100 == Read(lo);
  }

  /** "Y-m-d H:i" */
  function MinutePart(t: DateTime): (r: string)
    requires ValidTime(t)
    ensures |r| == 16
  {
    Pad4(t.year) + "-" + Pad2(t.month) + "-" + Pad2(t.day) + " "
    + Pad2(t.hour) + ":" + Pad2(t.minute)
  }

  /** date('Y-m-d H:i:s') */
  function Stamp(t: DateTime): (r: string)
    requires ValidTime(t)
    ensures |r| == 19
  {
    MinutePart(t) + ":" + Pad2(t.second)
  }

  /** date('Y-m-d H:i:00'): the stamp of the start of the minute. */
  function MinuteStamp(t: DateTime): (r: string)
    requires ValidTime(t)
    ensures |r| == 19 && r[16..] == ":00"
    ensures r == Stamp(t.(second := 0))
  {
    MinutePart(t) + ":00"
  }

  predicate IsSeparatorAt(s: string, i: int) {
    i == 4 || i == 7 || i == 10 || i == 13 || i == 16
  }

  /** The shape of a "Y-m-d H:i:s" stamp. */
  predicate StampShape(s: string) {
    && |s| == 19
    && s[4] == '-' && s[7] == '-' && s[10] == ' ' && s[13] == ':' && s[16] == ':'
    && (forall i :: 0 <= i < 19 && !IsSeparatorAt(s, i) ==> IsDigit(s[i]))
  }

  /** How a DATETIME column reads a stamp back; None for text that is not
      one or does not name a valid date and time. */
  function ParseStamp(s: string): (r: Option<DateTime>)
    ensures r.Some? ==> ValidTime(r.value)
  {
    if !StampShape(s) then None
    else
      var t := DateTime(Read(s[0..4]), Read(s[5..7]), Read(s[8..10]),
                        Read(s[11..13]), Read(s[14..16]), Read(s[17..19]));
      if ValidTime(t) then Some(t) else None
  }

  /** Every stamp reads back as the time it was written from. */
  lemma StampParses(t: DateTime)
    requires ValidTime(t)
    ensures ParseStamp(Stamp(t)) == Some(t)
  {
    var s := Stamp(t);
    assert s[0..4] == Pad4(t.year);
    assert s[5..7] == Pad2(t.month) && s[8..10] == Pad2(t.day);
    assert s[11..13] == Pad2(t.hour) && s[14..16] == Pad2(t.minute);
    assert s[17..19] == Pad2(t.second);
    ReadPad4(t.year);
    ReadPad2(t.month);
    ReadPad2(t.day);
    ReadPad2(t.hour);
    ReadPad2(t.minute);
    ReadPad2(t.second);
    assert StampShape(s) by {
      forall i | 0 <= i < 19 && !IsSeparatorAt(s, i) ensures IsDigit(s[i]) {
        if i < 4 { assert s[i] == s[0..4][i]; }
        else if i < 7 { assert s[i] == s[5..7][i - 5]; }
        else if i < 10 { assert s[i] == s[8..10][i - 8]; }
        else if i < 13 { assert s[i] == s[11..13][i - 11]; }
        else if i < 16 { assert s[i] == s[14..16][i - 14]; }
        else { assert s[i] == s[17..19][i - 17]; }
      }
    }
  }

  lemma DigitsOfShape(s: string, i: int, j: int)
    requires StampShape(s) && 0 <= i <= j <= 19
    requires forall k :: i <= k < j ==> !IsSeparatorAt(s, k)
    ensures AllDigits(s[i..j])
  {
    forall k | 0 <= k < j - i ensures IsDigit(s[i..j][k]) {
      assert s[i..j][k] == s[i + k];
    }
  }

  /** The six digit groups of a stamp-shaped text. */
  lemma ShapeDigits(s: string)
    requires StampShape(s)
    ensures AllDigits(s[0..4]) && AllDigits(s[5..7]) && AllDigits(s[8..10])
    ensures AllDigits(s[11..13]) && AllDigits(s[14..16]) && AllDigits(s[17..19])
  {
    DigitsOfShape(s, 0, 4);
    DigitsOfShape(s, 5, 7);
    DigitsOfShape(s, 8, 10);
    DigitsOfShape(s, 11, 13);
    DigitsOfShape(s, 14, 16);
    DigitsOfShape(s, 17, 19);
  }

  /** Each field of a parsed time pads back to the digits it was read from. */
  lemma ParsedFieldsPadBack(s: string)
    requires ParseStamp(s).Some?
    ensures var t := ParseStamp(s).value;
      && Pad4(t.year) == s[0..4] && Pad2(t.month) == s[5..7] && Pad2(t.day) == s[8..10]
      && Pad2(t.hour) == s[11..13] && Pad2(t.minute) == s[14..16] && Pad2(t.second) == s[17..19]
  {
    ShapeDigits(s);
    PadRead4(s[0..4]);
    PadRead2(s[5..7]);
    PadRead2(s[8..10]);
    PadRead2(s[11..13]);
    PadRead2(s[14..16]);
    PadRead2(s[17..19]);
  }

  /** Text that parses is exactly the stamp of what it parses to. */
  lemma ParsedIsStamp(s: string)
    requires ParseStamp(s).Some?
    ensures Stamp(ParseStamp(s).value) == s
  {
    var t := ParseStamp(s).value;
    ParsedFieldsPadBack(s);
    assert MinutePart(t) == s[0..4] + [s[4]] + s[5..7] + [s[7]] + s[8..10] + [s[10]]
      + s[11..13] + [s[13]] + s[14..16];
    assert s == s[..16] + [s[16]] + s[17..19];
  }

  // ----- the VideoKidsHistory table -----

  datatype HistoryRow = HistoryRow(videoName: string, datePlayed: string)

  datatype LogError = NoConnection | MissingName | PrepareFailed | QueryFailed

  /** The reply: insert-history.php echoes the row it stored, videoHistory.php
      only reports success. */
  datatype LogReply = Logged(data: Option<HistoryRow>) | LogFailed(error: LogError)

  /** !isset($data["videoName"]) || empty(trim($data["videoName"])), where a
      body that is not JSON leaves $data null. */
  predicate NameMissing(data: Option<Input>): (b: bool)
    ensures data.None? ==> b
    ensures !b ==> (data.Some? && Isset(data.value, "videoName")
                    && !IsEmpty(FieldText(data.value, "videoName")))
  {
    data.None? || !Isset(data.value, "videoName") || IsBlank(Text(data.value["videoName"]))
  }

  /** The name insert-history.php binds to the statement: it is escaped for an
      SQL literal although it is then passed as a bound parameter, which
      stores it verbatim. */
  function BoundNameAsWritten(raw: Value): (r: string)
    ensures |r| >= |Trim(Text(raw))|
  {
    Escape(Trim(Text(raw)))
  }

  /** The bound name differs from the name the request sent exactly when the
      name holds a quote, a backslash or another escaped character: a play of
      "Tom's" is recorded as Tom\'s. */
  lemma BoundNameAsWrittenAltersName(raw: Value)
    ensures BoundNameAsWritten(raw) != Trim(Text(raw)) <==>
      exists i :: 0 <= i < |Trim(Text(raw))| && NeedsEscape(Trim(Text(raw))[i])
  {
    EscapeUnchangedIff(Trim(Text(raw)));
  }

  lemma BoundNameAsWrittenExample()
    ensures BoundNameAsWritten(Str("Tom's")) == "Tom\\'s"
    ensures StoredName(Str("Tom's")) == "Tom's"
  {
    var name := "Tom's";
    TrimOfTrimmed(name);
    assert Trim(Text(Str(name))) == name;
    EscapeOfExampleName(name);
  }

  /** Only the apostrophe of the example name is escaped. */
  lemma EscapeOfExampleName(name: string)
    requires name == "Tom's"
    ensures Escape(name) == "Tom\\'s"
  {
    assert name == "Tom" + "'s";
    EscapeAppend("Tom", "'s");
    EscapeUnchangedIff("Tom");
    assert Escape("'s") == "\\'s";
  }

  /** The name to store: the trimmed name, as the SQL literal of the earlier
      videoHistory.php stored it. */
  function StoredName(raw: Value): (r: string)
    ensures r == LiteralValue(Escape(Trim(Text(raw))))
    ensures IsTrimmed(r)
  {
    LiteralValueOfEscape(Trim(Text(raw)));
    Trim(Text(raw))
  }

  /** What every recorded play satisfies: a non-blank trimmed name and a
      stamp that reads back as a valid date and time. */
  predicate GoodRow(r: HistoryRow) {
    && IsTrimmed(r.videoName) && !IsEmpty(r.videoName)
    && ParseStamp(r.datePlayed).Some?
  }

  ghost predicate AllGood(rows: seq<HistoryRow>) {
    forall i :: 0 <= i < |rows| ==> GoodRow(rows[i])
  }

  lemma AppendGood(rows: seq<HistoryRow>, row: HistoryRow)
    requires AllGood(rows) && GoodRow(row)
    ensures AllGood(rows + [row])
  {
  }

  class History {
    /** The VideoKidsHistory rows in insertion order. */
    var rows: seq<HistoryRow>

    ghost predicate Valid()
      reads this
    {
      AllGood(rows)
    }

    constructor ()
      ensures Valid() && rows == []
    {
      rows := [];
    }

    /** insert-history.php. now is the clock in America/Chicago; connected,
        prepared and executed say whether the connection, the prepare and the
        execute succeeded. A request is turned down in that order of checks;
        an accepted one appends one row with the trimmed name and the stamp
        of the current minute, and echoes it. */
    method InsertHistory(data: Option<Input>, connected: bool, prepared: bool, executed: bool, now: DateTime)
      returns (reply: LogReply)
      requires Valid() && ValidTime(now)
      modifies this
      ensures Valid()
      ensures !connected ==> reply == LogFailed(NoConnection) && rows == old(rows)
      ensures connected && NameMissing(data) ==> reply == LogFailed(MissingName) && rows == old(rows)
      ensures connected && !NameMissing(data) && !prepared ==>
        reply == LogFailed(PrepareFailed) && rows == old(rows)
      ensures connected && !NameMissing(data) && prepared && !executed ==>
        reply == LogFailed(QueryFailed) && rows == old(rows)
      ensures reply.Logged? <==> connected && !NameMissing(data) && prepared && executed
      ensures reply.Logged? ==>
        var row := HistoryRow(StoredName(data.value["videoName"]), MinuteStamp(now));
        && reply == Logged(Some(row))
        && rows == old(rows) + [row]
        && ParseStamp(row.datePlayed) == Some(now.(second := 0))
    {
      if !connected {
        return LogFailed(NoConnection);
      }
      if NameMissing(data) {
        return LogFailed(MissingName);
      }
      var name := StoredName(data.value["videoName"]);
      var datePlayed := MinuteStamp(now);
      if !prepared {
        return LogFailed(PrepareFailed);
      }
      if !executed {
        return LogFailed(QueryFailed);
      }
      var row := HistoryRow(name, datePlayed);
      StampParses(now.(second := 0));
      AppendGood(rows, row);
      rows := rows + [row];
      reply := Logged(Some(row));
    }

    /** videoHistory.php. now is the server clock; queried says whether the
        INSERT ran. The name reaches the table through an escaped SQL literal,
        which the table reads back as the trimmed name; the stamp keeps the
        seconds; the reply carries no row. */
    method LogPlayLegacy(data: Option<Input>, connected: bool, queried: bool, now: DateTime)
      returns (reply: LogReply)
      requires Valid() && ValidTime(now)
      modifies this
      ensures Valid()
      ensures !connected ==> reply == LogFailed(NoConnection) && rows == old(rows)
      ensures connected && NameMissing(data) ==> reply == LogFailed(MissingName) && rows == old(rows)
      ensures connected && !NameMissing(data) && !queried ==>
        reply == LogFailed(QueryFailed) && rows == old(rows)
      ensures reply.Logged? <==> connected && !NameMissing(data) && queried
      ensures reply.Logged? ==>
        && reply == Logged(None)
        && rows == old(rows) + [HistoryRow(StoredName(data.value["videoName"]), Stamp(now))]
        && ParseStamp(Stamp(now)) == Some(now)
    {
      if !connected {
        return LogFailed(NoConnection);
      }
      if NameMissing(data) {
        return LogFailed(MissingName);
      }
      var raw := data.value["videoName"];
      var literal := Escape(Trim(Text(raw)));
      EscapeStaysInLiteral(Trim(Text(raw)));
      var datePlayed := Stamp(now);
      if !queried {
        return LogFailed(QueryFailed);
      }
      var row := HistoryRow(LiteralValue(literal), datePlayed);
      assert row.videoName == StoredName(raw);
      StampParses(now);
      AppendGood(rows, row);
      rows := rows + [row];
      reply := Logged(None);
    }
  }
}
