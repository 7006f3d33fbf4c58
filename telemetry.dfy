/**
 * The telemetry line pipeline of the scan screen: a decoded notification line is
 * cut into tokens, classified as a start marker, an end marker or a data line,
 * and data lines are turned into records appended to the screen's record list.
 */
module Telemetry {
  import opened Wrappers
  import opened JsText

  /** One data line: `{stt, date, time, lat, long}`; `long` is absent when the
      position field holds no comma. */
  datatype Record = Record(stt: string, date: string, time: string, lat: string, long: Option<string>)

  /** The filter's test `item.trim().length > 0`. */
  predicate HasText(item: string) {
    |Trim(item)| > 0
  }

  /** An item passes the filter exactly when it is not all whitespace. */
  lemma HasTextIsNotBlank(item: string)
    ensures HasText(item) <==> !IsBlank(item)
  {
  }

  /** `pieces.filter(keep)`: exactly the pieces `keep` accepts, in order. */
  function Filter(pieces: seq<string>, keep: string -> bool): (r: seq<string>)
    ensures |r| <= |pieces|
    ensures forall i :: 0 <= i < |r| ==> keep(r[i])
    ensures forall i :: 0 <= i < |r| ==> r[i] in pieces
    ensures forall i :: 0 <= i < |pieces| && keep(pieces[i]) ==> pieces[i] in r
  {
    if pieces == [] then []
    else
      var rest := Filter(pieces[1..], keep);
      if keep(pieces[0]) then [pieces[0]] + rest else rest
  }

  /** Filtering distributes over concatenation: order and multiplicity are kept. */
  lemma {:induction false} FilterAppend(p: seq<string>, q: seq<string>, keep: string -> bool)
    ensures Filter(p + q, keep) == Filter(p, keep) + Filter(q, keep)
    decreases |p|
  {
    if p == [] {
      assert [] + q == q;
    } else {
      assert (p + q)[1..] == p[1..] + q;
      FilterAppend(p[1..], q, keep);
    }
  }

  /** A single piece passes exactly when `keep` accepts it. */
  lemma FilterSingle(x: string, keep: string -> bool)
    ensures Filter([x], keep) == if keep(x) then [x] else []
  {
    assert [x][1..] == [];
  }

  /** A list whose every piece is accepted passes the filter whole and in order. */
  lemma {:induction false} FilterKeepsAll(pieces: seq<string>, keep: string -> bool)
    requires forall i :: 0 <= i < |pieces| ==> keep(pieces[i])
    ensures Filter(pieces, keep) == pieces
    decreases |pieces|
  {
    if pieces != [] {
      var tail := pieces[1..];
      assert forall i :: 0 <= i < |tail| ==> keep(tail[i]) by {
        forall i | 0 <= i < |tail| ensures keep(tail[i]) {
          assert tail[i] == pieces[i + 1];
        }
      }
      FilterKeepsAll(tail, keep);
      assert [pieces[0]] + tail == pieces;
    }
  }

  /** `line.split(' ').filter(item => item.trim().length > 0)`: no token is empty,
      all whitespace, or holds a space. */
  function Tokens(line: string): (r: seq<string>)
    ensures forall i :: 0 <= i < |r| ==> r[i] != [] && !IsBlank(r[i]) && ' ' !in r[i]
  {
    var pieces := Split(line, ' ');
    var r := Filter(pieces, HasText);
    assert forall i :: 0 <= i < |r| ==> r[i] != [] && !IsBlank(r[i]) && ' ' !in r[i] by {
      forall i | 0 <= i < |r| ensures r[i] != [] && !IsBlank(r[i]) && ' ' !in r[i] {
        HasTextIsNotBlank(r[i]);
        var j :| 0 <= j < |pieces| && pieces[j] == r[i];
      }
    }
    r
  }

  /** Words that are non-blank and free of spaces, joined by single spaces,
      tokenise back into exactly those words. */
  lemma TokensOfWords(words: seq<string>)
    requires |words| >= 1
    requires forall i :: 0 <= i < |words| ==> !IsBlank(words[i]) && ' ' !in words[i]
    ensures Tokens(Join(words, ' ')) == words
  {
    SplitJoin(words, ' ');
    forall i | 0 <= i < |words| ensures HasText(words[i]) {
      HasTextIsNotBlank(words[i]);
    }
    FilterKeepsAll(words, HasText);
  }

  /** A start marker: the token list holds `print` or `date`. */
  predicate IsStart(tokens: seq<string>) {
    "print" in tokens || "date" in tokens
  }

  /** An end marker: the token list holds `-----end-----` or `-&`. */
  predicate IsEnd(tokens: seq<string>) {
    "-----end-----" in tokens || "-&" in tokens
  }

  /** One of the four control tokens occurs among the tokens. */
  predicate IsControl(tokens: seq<string>) {
    IsStart(tokens) || IsEnd(tokens)
  }

  /** Latitude and longitude: parts 0 and 1 of `field.trim().split(',')`. */
  function LatLong(field: string): (r: (string, Option<string>))
    ensures |r.0| <= |Trim(field)| && Trim(field)[..|r.0|] == r.0 && ',' !in r.0
    ensures r.1.None? <==> ',' !in Trim(field)
    ensures r.1.Some? ==> ',' !in r.1.value
  {
    var longlat := Split(Trim(field), ',');
    SplitFirst(Trim(field), ',');
    (longlat[0], if |longlat| > 1 then Some(longlat[1]) else None)
  }

  /** A trimmed position field `a,b,...` of comma-free parts yields `a` and `b`. */
  lemma LatLongOfParts(field: string, parts: seq<string>)
    requires |parts| >= 2 && Trim(field) == Join(parts, ',')
    requires forall i :: 0 <= i < |parts| ==> ',' !in parts[i]
    ensures LatLong(field) == (parts[0], Some(parts[1]))
  {
    SplitJoin(parts, ',');
  }

  /** A field that trims to `lat,long` with comma-free halves yields exactly those. */
  lemma LatLongOfPair(field: string, lat: string, long: string)
    requires ',' !in lat && ',' !in long
    requires Trim(field) == lat + [','] + long
    ensures LatLong(field) == (lat, Some(long))
  {
    JoinTwo(lat, long, ',');
    LatLongOfParts(field, [lat, long]);
  }

  /** A position field followed by trailing blanks, such as the `\r` ending a
      device line, still yields exactly its latitude and longitude. */
  lemma LatLongPadded(lat: string, long: string, pad: string)
    requires lat != [] && !IsWhitespace(lat[0]) && ',' !in lat
    requires long != [] && !IsWhitespace(long[|long| - 1]) && ',' !in long
    requires IsBlank(pad)
    ensures LatLong(lat + [','] + long + pad) == (lat, Some(long))
  {
    var x := lat + [','] + long;
    assert x[0] == lat[0] && x[|x| - 1] == long[|long| - 1];
    TrimPadded([], x, pad);
    assert [] + x + pad == x + pad;
    LatLongOfPair(x + pad, lat, long);
  }

  /** The position `21.0,105.8\r` reads as latitude `21.0`, longitude `105.8`. */
  lemma LatLongCarriageReturnExample()
    ensures LatLong("21.0,105.8\r") == ("21.0", Some("105.8"))
  {
    assert "21.0,105.8\r" == "21.0" + [','] + "105.8" + "\r";
    LatLongPadded("21.0", "105.8", "\r");
  }

  /** A position field without a comma is all latitude, with no longitude. */
  lemma LatLongWithoutComma(field: string)
    requires ',' !in Trim(field)
    ensures LatLong(field) == (Trim(field), None)
  {
    var t := Trim(field);
    SplitFirst(t, ',');
    var first := Split(t, ',')[0];
    assert first == t[..|t|] == t;
  }

  /** What `formatStringToObject` yields: `null`, an object, or the `TypeError`
      thrown by `exist[3].trim()` when a data line has fewer than four tokens. */
  datatype Parsed = Null | Object(record: Record) | Throws

  /** `formatStringToObject(text)`: `null` for a control line, the record read from
      the first four tokens of a data line, and a throw for a shorter data line. */
  function FormatStringToObject(text: string): (r: Parsed)
    ensures r.Null? <==> IsControl(Tokens(text))
    ensures r.Throws? <==> !IsControl(Tokens(text)) && |Tokens(text)| < 4
    ensures r.Object? ==>
      var tokens := Tokens(text);
      r.record.stt == tokens[0] && r.record.date == tokens[1] && r.record.time == tokens[2]
      && (r.record.lat, r.record.long) == LatLong(tokens[3])
  {
    var exist := Tokens(text);
    if "print" in exist || "date" in exist || "-----end-----" in exist || "-&" in exist then
      Null
    else if |exist| < 4 then
      Throws
    else
      var longlat := LatLong(exist[3]);
      Object(Record(exist[0], exist[1], exist[2], longlat.0, longlat.1))
  }

  /** What a line is to the handler: a start marker, an end marker, a data line
      carrying its record, or a data line whose formatting throws. */
  datatype LineKind = Start | End | Data(record: Record) | Broken

  /** The handler's branches: start tokens are tested first, then end tokens. */
  function Classify(line: string): (k: LineKind)
    ensures k.Start? <==> IsStart(Tokens(line))
    ensures k.End? <==> !IsStart(Tokens(line)) && IsEnd(Tokens(line))
    ensures k.Data? <==> FormatStringToObject(line).Object?
    ensures k.Data? ==> FormatStringToObject(line) == Object(k.record)
    ensures k.Broken? <==> FormatStringToObject(line).Throws?
  {
    var tokens := Tokens(line);
    if IsStart(tokens) then Start
    else if IsEnd(tokens) then End
    else
      match FormatStringToObject(line)
      case Object(record) => Data(record)
      case _ => Broken
  }

  /** The record list after one line: emptied by a start marker, kept by an end
      marker, extended by the record of a data line, and kept when the handler
      throws before its `push`. */
  function Step(records: seq<Record>, kind: LineKind): seq<Record> {
    match kind
    case Start => []
    case End => records
    case Data(record) => records + [record]
    case Broken => records
  }

  /** The record list after a whole stream of lines, one `Step` per line. */
  function Replay(records: seq<Record>, kinds: seq<LineKind>): seq<Record>
    decreases |kinds|
  {
    if kinds == [] then records else Replay(Step(records, kinds[0]), kinds[1..])
  }

  /** The records of the data lines of a stream, in order. */
  function DataRecords(kinds: seq<LineKind>): seq<Record>
    decreases |kinds|
  {
    if kinds == [] then []
    else (if kinds[0].Data? then [kinds[0].record] else []) + DataRecords(kinds[1..])
  }

  /** With no start marker in the stream, every data line appends its record
      after the ones already held, in order. */
  lemma {:induction false} ReplayWithoutStart(records: seq<Record>, kinds: seq<LineKind>)
    requires forall i :: 0 <= i < |kinds| ==> !kinds[i].Start?
    ensures Replay(records, kinds) == records + DataRecords(kinds)
    decreases |kinds|
  {
    if kinds != [] {
      assert forall i :: 0 <= i < |kinds[1..]| ==> kinds[1..][i] == kinds[i + 1];
      ReplayWithoutStart(Step(records, kinds[0]), kinds[1..]);
      var head := if kinds[0].Data? then [kinds[0].record] else [];
      assert Step(records, kinds[0]) == records + head;
      assert records + head + DataRecords(kinds[1..]) == records + (head + DataRecords(kinds[1..]));
    } else {
      assert records + [] == records;
    }
  }

  /** A start marker forgets everything before it: what is held afterwards
      depends only on the lines after the marker. */
  lemma {:induction false} ReplayAfterStart(records: seq<Record>, before: seq<LineKind>, after: seq<LineKind>)
    ensures Replay(records, before + [Start] + after) == Replay([], after)
    decreases |before|
  {
    var kinds := before + [Start] + after;
    if before == [] {
      assert kinds[1..] == after;
    } else {
      assert kinds[1..] == before[1..] + [Start] + after;
      ReplayAfterStart(Step(records, kinds[0]), before[1..], after);
    }
  }

  /** After the last start marker the record list holds exactly the records of
      the data lines that followed it. */
  lemma RecordsSinceLastStart(records: seq<Record>, before: seq<LineKind>, after: seq<LineKind>)
    requires forall i :: 0 <= i < |after| ==> !after[i].Start?
    ensures Replay(records, before + [Start] + after) == DataRecords(after)
  {
    ReplayAfterStart(records, before, after);
    ReplayWithoutStart([], after);
    assert [] + DataRecords(after) == DataRecords(after);
  }

  /** A word of the telemetry grammar: some text and no space. */
  predicate IsWord(w: string) {
    !IsBlank(w) && ' ' !in w
  }

  /** The position field `<lat>,<long>` is a word that trims to itself and
      splits back into its latitude and longitude. */
  lemma PositionRoundTrip(lat: string, long: string)
    requires ' ' !in lat && ' ' !in long && ',' !in lat && ',' !in long
    requires lat == [] || !IsWhitespace(lat[0])
    requires long == [] || !IsWhitespace(long[|long| - 1])
    ensures IsWord(lat + [','] + long)
    ensures LatLong(lat + [','] + long) == (lat, Some(long))
  {
    var position := lat + [','] + long;
    assert position[|lat|] == ',';
    assert ' ' !in position by {
      forall i | 0 <= i < |position| ensures position[i] != ' ' {
        if i < |lat| { assert position[i] == lat[i]; }
        else if i > |lat| { assert position[i] == long[i - |lat| - 1]; }
      }
    }
    TrimUnchanged(position);
    LatLongOfPair(position, lat, long);
  }

  /** A line whose tokens are four non-control fields parses into the record of
      the first three and the latitude and longitude of the fourth. */
  lemma FormatOfFourTokens(line: string, stt: string, date: string, time: string, position: string)
    requires Tokens(line) == [stt, date, time, position]
    requires !IsControl([stt, date, time, position])
    ensures FormatStringToObject(line)
      == Object(Record(stt, date, time, LatLong(position).0, LatLong(position).1))
  {
  }

  /** A line of four words, none of them a control token, parses into the record
      of the first three and the latitude and longitude of the fourth. */
  lemma DataLineOfWords(stt: string, date: string, time: string, position: string)
    requires IsWord(stt) && IsWord(date) && IsWord(time) && IsWord(position)
    requires !IsControl([stt, date, time, position])
    ensures FormatStringToObject(Join([stt, date, time, position], ' '))
      == Object(Record(stt, date, time, LatLong(position).0, LatLong(position).1))
  {
    var words := [stt, date, time, position];
    assert Tokens(Join(words, ' ')) == words by {
      TokensOfWords(words);
    }
    FormatOfFourTokens(Join(words, ' '), stt, date, time, position);
  }

  /** A data line `<stt> <date> <time> <lat>,<long>` whose fields are words, none of
      them a control token, parses into the record of exactly those fields. */
  lemma DataLineRoundTrip(stt: string, date: string, time: string, lat: string, long: string)
    requires IsWord(stt) && IsWord(date) && IsWord(time)
    requires ' ' !in lat && ' ' !in long && ',' !in lat && ',' !in long
    requires lat == [] || !IsWhitespace(lat[0])
    requires long == [] || !IsWhitespace(long[|long| - 1])
    requires !IsControl([stt, date, time, lat + [','] + long])
    ensures FormatStringToObject(Join([stt, date, time, lat + [','] + long], ' '))
      == Object(Record(stt, date, time, lat, Some(long)))
  {
    PositionRoundTrip(lat, long);
    DataLineOfWords(stt, date, time, lat + [','] + long);
  }

  /** A data line `<stt> <date> <time> <lat>` whose position has no comma parses
      into a record without longitude. */
  lemma DataLineWithoutLongitude(stt: string, date: string, time: string, lat: string)
    requires IsWord(stt) && IsWord(date) && IsWord(time) && IsWord(lat) && ',' !in lat
    requires !IsWhitespace(lat[0]) && !IsWhitespace(lat[|lat| - 1])
    requires !IsControl([stt, date, time, lat])
    ensures FormatStringToObject(Join([stt, date, time, lat], ' '))
      == Object(Record(stt, date, time, lat, None))
  {
    TrimUnchanged(lat);
    LatLongWithoutComma(lat);
    DataLineOfWords(stt, date, time, lat);
  }

  /** A data line of fewer than four words reads an undefined fourth token, so
      formatting it throws. */
  lemma ShortLineThrows(words: seq<string>)
    requires 1 <= |words| < 4
    requires forall i :: 0 <= i < |words| ==> IsWord(words[i])
    requires !IsControl(words)
    ensures FormatStringToObject(Join(words, ' ')) == Throws
  {
    TokensOfWords(words);
  }

  /** `print start` is a start marker. */
  lemma StartLineExample()
    ensures IsStart(Tokens("print start"))
  {
    var words := ["print", "start"];
    assert Join(words, ' ') == "print start";
    assert !IsWhitespace(words[0][0]) && !IsWhitespace(words[1][0]);
    TokensOfWords(words);
  }

  /** `-----end-----` is an end marker and no start marker. */
  lemma EndLineExample()
    ensures IsEnd(Tokens("-----end-----")) && !IsStart(Tokens("-----end-----"))
  {
    var words := ["-----end-----"];
    assert Join(words, ' ') == "-----end-----";
    assert !IsWhitespace(words[0][0]);
    TokensOfWords(words);
  }

  /** The screen's `lisRef.current`: the records received since the last start marker. */
  class RecordBuffer {
    var current: seq<Record>

    constructor ()
      ensures current == []
    {
      current := [];
    }

    /** `handleUpdateValueForCharacteristic` from the decoded line on; `threw`
        tells that `formatStringToObject` threw, which leaves the list as it was. */
    method OnLine(line: string) returns (threw: bool)
      modifies this
      ensures threw <==> FormatStringToObject(line).Throws?
      ensures IsStart(Tokens(line)) ==> current == []
      ensures !IsStart(Tokens(line)) && IsEnd(Tokens(line)) ==> current == old(current)
      ensures threw ==> current == old(current)
      ensures !IsControl(Tokens(line)) && !threw ==>
        |current| == |old(current)| + 1 && current[..|old(current)|] == old(current)
        && FormatStringToObject(line) == Object(current[|old(current)|])
      ensures current == Step(old(current), Classify(line))
    {
      threw := false;
      var exist := Tokens(line);
      if "print" in exist || "date" in exist {
        current := [];
        return;
      }
      if "-----end-----" in exist || "-&" in exist {
        return;
      }
      var rec := FormatStringToObject(line);
      if rec.Throws? {
        threw := true;
        return;
      }
      current := current + [rec.record];
    }
  }
}
