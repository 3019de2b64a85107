/**
 * The CSV writer and its chunked download (backend-rs/src/csv_export.rs), against a
 * reader for the format of section 2 of RFC 4180.
 */
module CsvExport {
  import opened Wrappers
  import Utf8

  // ----- Cells ------------------------------------------------------------------------

  /** `Raw` cells are numbers and headers; everything else is `Text`. */
  datatype Cell = Text(value: string) | Raw(value: string)

  const FORMULA_PREFIXES: set<char> := {'=', '+', '-', '@', '\t', '\r'}

  /** A text cell never begins as a formula, and only one that would is changed. */
  function Rendered(c: Cell): (r: string)
    ensures c.Text? && r != "" ==> r[0] !in FORMULA_PREFIXES
    ensures r == c.value <==> c.Raw? || c.value == "" || c.value[0] !in FORMULA_PREFIXES
    ensures r != c.value ==> r == "'" + c.value
  {
    if c.Text? && c.value != "" && c.value[0] in FORMULA_PREFIXES then "'" + c.value else c.value
  }

  function Fields(cells: seq<Cell>): (fs: seq<string>)
    ensures |fs| == |cells| && forall k :: 0 <= k < |fs| ==> fs[k] == Rendered(cells[k])
  {
    seq(|cells|, i requires 0 <= i < |cells| => Rendered(cells[i]))
  }

  // ----- Writing ----------------------------------------------------------------------

  predicate Special(c: char) { c == ',' || c == '"' || c == '\r' || c == '\n' }

  predicate NeedsQuotes(f: string, single: bool) { (single && f == "") || exists k :: 0 <= k < |f| && Special(f[k]) }

  /** Quotes doubled. */
  function Doubled(f: string): string {
    if f == "" then ""
    else Doubled(f[..|f| - 1]) + (if f[|f| - 1] == '"' then "\"\"" else [f[|f| - 1]])
  }

  function FieldText(f: string, single: bool): string {
    if NeedsQuotes(f, single) then "\"" + Doubled(f) + "\"" else f
  }

  lemma {:induction false} DoubledLength(f: string)
    ensures |Doubled(f)| >= |f|
  {
    if f != "" { DoubledLength(f[..|f| - 1]); }
  }

  /** Only a field that needs it is quoted: one with a comma, a quote or a line break in it, or an
      empty one alone on its row. */
  lemma QuotedOnlyWhenNeeded(f: string, single: bool)
    ensures FieldText(f, single) == f <==>
              ',' !in f && '"' !in f && '\r' !in f && '\n' !in f && !(single && f == "")
  {
    DoubledLength(f);
    if NeedsQuotes(f, single) && f != "" {
      var k :| 0 <= k < |f| && Special(f[k]);
      assert f[k] in f;
    }
  }

  /** Fields joined by commas. */
  function Joined(fs: seq<string>, single: bool): string {
    if fs == [] then ""
    else
      var n := |fs| - 1;
      Joined(fs[..n], single) + (if n > 0 then "," else "") + FieldText(fs[n], single)
  }

  function RowText(fs: seq<string>): (r: string)
    ensures |r| >= 2
  {
    Joined(fs, |fs| == 1) + "\r\n"
  }

  /** One field of `write_row`. */
  method WriteField(start: string, field: string, single: bool) returns (out: string)
    ensures out == start + FieldText(field, single)
  {
    if !NeedsQuotes(field, single) { return start + field; }
    out := start + "\"";
    for k := 0 to |field|
      invariant out == start + "\"" + Doubled(field[..k])
    {
      assert field[..k + 1][..k] == field[..k];
      if field[k] == '"' { out := out + "\""; }
      out := out + [field[k]];
    }
    assert field[..|field|] == field;
    out := out + "\"";
  }

  lemma JoinedStarts(fs: seq<string>, single: bool)
    ensures Joined(fs[..0], single) == ""
  {
  }

  lemma JoinedGrows(start: string, fs: seq<string>, n: nat, single: bool)
    requires n < |fs|
    ensures start + Joined(fs[..n + 1], single)
         == start + Joined(fs[..n], single) + (if n > 0 then "," else "") + FieldText(fs[n], single)
  {
    hide FieldText;
    assert fs[..n + 1][..n] == fs[..n];
  }

  /** `write_row`. */
  method WriteRow(start: string, cells: seq<Cell>) returns (out: string)
    ensures out == start + RowText(Fields(cells))
  {
    hide FieldText, Joined, Rendered;
    out := start;
    var single := |cells| == 1;
    ghost var fs := Fields(cells);
    JoinedStarts(fs, single);
    for index := 0 to |cells|
      invariant out == start + Joined(fs[..index], single)
    {
      JoinedGrows(start, fs, index, single);
      if index > 0 { out := out + ","; }
      out := WriteField(out, Rendered(cells[index]), single);
    }
    assert fs[..|cells|] == fs;
    var line := out;
    out := out + "\r\n";
    assert out == start + (Joined(fs, single) + "\r\n");
  }

  /** A whole file. */
  function FileText(rows: seq<seq<string>>): string {
    if rows == [] then "" else FileText(rows[..|rows| - 1]) + RowText(rows[|rows| - 1])
  }

  // ----- Reading, one character at a time ------------------------------------------------

  datatype Mode = FieldStart | Bare | Quoted | QuoteSeen | CrSeen | Bad

  datatype Reader = Reader(records: seq<seq<string>>, fields: seq<string>, text: string, mode: Mode)

  function Fresh(records: seq<seq<string>>): Reader { Reader(records, [], "", FieldStart) }

  function EndField(r: Reader, mode: Mode): Reader { r.(fields := r.fields + [r.text], text := "", mode := mode) }

  /** `blank` is what a line with nothing on it stands for: one empty field, or none at all. */
  function Read1(r: Reader, c: char, blank: seq<string>): Reader {
    match r.mode
    case FieldStart =>
      if c == '"' then r.(mode := Quoted)
      else if c == ',' then EndField(r, FieldStart)
      else if c == '\r' then
        if r.fields == [] then r.(fields := blank, mode := CrSeen) else EndField(r, CrSeen)
      else if c == '\n' then r.(mode := Bad)
      else r.(text := r.text + [c], mode := Bare)
    case Bare =>
      if c == ',' then EndField(r, FieldStart)
      else if c == '\r' then EndField(r, CrSeen)
      else if c == '"' || c == '\n' then r.(mode := Bad)
      else r.(text := r.text + [c])
    case Quoted => if c == '"' then r.(mode := QuoteSeen) else r.(text := r.text + [c])
    case QuoteSeen =>
      if c == '"' then r.(text := r.text + [c], mode := Quoted)
      else if c == ',' then EndField(r, FieldStart)
      else if c == '\r' then EndField(r, CrSeen)
      else r.(mode := Bad)
    case CrSeen => if c == '\n' then Fresh(r.records + [r.fields]) else r.(mode := Bad)
    case Bad => r
  }

  function ReadAll(r: Reader, s: string, blank: seq<string>): Reader {
    if s == "" then r else Read1(ReadAll(r, s[..|s| - 1], blank), s[|s| - 1], blank)
  }

  /** The records of a text; the last may lack its line end. */
  function ReadCsv(s: string, blank: seq<string>): Option<seq<seq<string>>> {
    var r := ReadAll(Fresh([]), s, blank);
    match r.mode
    case FieldStart => Some(if r.fields == [] then r.records else r.records + [r.fields + [""]])
    case Bare => Some(r.records + [r.fields + [r.text]])
    case QuoteSeen => Some(r.records + [r.fields + [r.text]])
    case _ => None
  }

  // ----- The round trip -------------------------------------------------------------------

  lemma {:induction false} ReadConcat(r: Reader, a: string, b: string, blank: seq<string>)
    ensures ReadAll(r, a + b, blank) == ReadAll(ReadAll(r, a, blank), b, blank)
    decreases |b|
  {
    if b == "" {
      assert a + b == a;
    } else {
      var n := |b| - 1;
      assert (a + b)[..|a + b| - 1] == a + b[..n];
      ReadConcat(r, a, b[..n], blank);
    }
  }

  lemma ReadOne(r: Reader, c: char, blank: seq<string>)
    ensures ReadAll(r, [c], blank) == Read1(r, c, blank)
  {
    assert [c][..0] == "";
  }

  lemma {:induction false} ReadDoubled(r: Reader, f: string, blank: seq<string>)
    requires r.mode.Quoted?
    ensures ReadAll(r, Doubled(f), blank) == r.(text := r.text + f)
  {
    if f != "" {
      var n := |f| - 1;
      var tail := if f[n] == '"' then "\"\"" else [f[n]];
      ReadDoubled(r, f[..n], blank);
      ReadConcat(r, Doubled(f[..n]), tail, blank);
      var q := r.(text := r.text + f[..n]);
      assert r.text + f == q.text + [f[n]];
      if f[n] == '"' {
        ReadConcat(q, "\"", "\"", blank);
        assert tail == "\"" + "\"";
        ReadOne(q, '"', blank);
        ReadOne(q.(mode := QuoteSeen), '"', blank);
      } else {
        ReadOne(q, f[n], blank);
      }
    } else {
      assert r.text + f == r.text;
    }
  }

  lemma {:induction false} ReadPlain(r: Reader, f: string, blank: seq<string>)
    requires r.mode.FieldStart? && r.text == "" && forall k :: 0 <= k < |f| ==> !Special(f[k])
    ensures ReadAll(r, f, blank) == if f == "" then r else r.(text := f, mode := Bare)
  {
    if f != "" { ReadPlain(r, f[..|f| - 1], blank); }
  }

  /** The reader has just passed the end of field `f`. */
  predicate Past(r: Reader, records: seq<seq<string>>, fields: seq<string>, f: string, single: bool) {
    && r.records == records && r.fields == fields && r.text == f
    && (r.mode.Bare? || r.mode.QuoteSeen? || (r.mode.FieldStart? && f == "" && !single))
  }

  lemma ReadField(r: Reader, f: string, single: bool, blank: seq<string>)
    requires r.mode.FieldStart? && r.text == ""
    ensures Past(ReadAll(r, FieldText(f, single), blank), r.records, r.fields, f, single)
  {
    hide Doubled, Read1, ReadAll;
    if NeedsQuotes(f, single) {
      ReadQuoted(r, f, blank);
    } else {
      ReadPlain(r, f, blank);
    }
  }

  lemma ReadQuoted(r: Reader, f: string, blank: seq<string>)
    requires r.mode.FieldStart? && r.text == ""
    ensures ReadAll(r, "\"" + Doubled(f) + "\"", blank) == r.(text := f, mode := QuoteSeen)
  {
    hide Doubled, ReadAll;
    var q := r.(mode := Quoted);
    ReadOne(r, '"', blank);
    ReadConcat(r, "\"", Doubled(f), blank);
    ReadDoubled(q, f, blank);
    assert q.text + f == f;
    ReadConcat(r, "\"" + Doubled(f), "\"", blank);
    ReadOne(q.(text := f), '"', blank);
  }

  /** A row read up to its line end has its last field still open. */
  lemma {:induction false} ReadJoined(records: seq<seq<string>>, fs: seq<string>, single: bool, blank: seq<string>)
    requires fs != [] && (single ==> |fs| == 1)
    ensures Past(ReadAll(Fresh(records), Joined(fs, single), blank), records, fs[..|fs| - 1], fs[|fs| - 1], single)
  {
    hide ReadAll, FieldText;
    var n := |fs| - 1;
    var r := Fresh(records);
    if n == 0 {
      assert Joined(fs, single) == FieldText(fs[0], single);
      ReadField(r, fs[0], single, blank);
    } else {
      ReadJoined(records, fs[..n], single, blank);
      var a := Joined(fs[..n], single);
      var q := ReadAll(r, a, blank);
      ReadConcat(r, a, ",", blank);
      ReadOne(q, ',', blank);
      assert fs[..n][..n - 1] + [fs[n - 1]] == fs[..n];
      ReadConcat(r, a + ",", FieldText(fs[n], single), blank);
      ReadField(Read1(q, ',', blank), fs[n], single, blank);
    }
  }

  lemma ReadRow(records: seq<seq<string>>, fs: seq<string>, blank: seq<string>)
    requires fs != [] || blank == []
    ensures ReadAll(Fresh(records), RowText(fs), blank) == Fresh(records + [fs])
  {
    hide ReadAll;
    var single := |fs| == 1;
    var r := Fresh(records);
    var a := Joined(fs, single);
    var q := ReadAll(r, a, blank);
    if fs == [] {
      ReadNothing(r, blank);
    } else {
      ReadJoined(records, fs, single, blank);
      assert fs[..|fs| - 1] + [fs[|fs| - 1]] == fs;
    }
    ReadOne(q, '\r', blank);
    ReadOne(Read1(q, '\r', blank), '\n', blank);
    ReadConcat(q, "\r", "\n", blank);
    assert "\r" + "\n" == "\r\n";
    ReadConcat(r, a, "\r\n", blank);
  }

  lemma ReadNothing(r: Reader, blank: seq<string>)
    ensures ReadAll(r, "", blank) == r
  {
  }

  /** Whatever an empty line stands for, rows with a field are read back as written; rows
      without one are too where an empty line stands for them. */
  lemma {:induction false} RoundTrip(rows: seq<seq<string>>, blank: seq<string>)
    requires blank == [] || forall i :: 0 <= i < |rows| ==> rows[i] != []
    ensures ReadAll(Fresh([]), FileText(rows), blank) == Fresh(rows)
    ensures ReadCsv(FileText(rows), blank) == Some(rows)
  {
    hide RowText, ReadAll;
    if rows == [] {
      ReadNothing(Fresh([]), blank);
    } else {
      var n := |rows| - 1;
      RoundTrip(rows[..n], blank);
      ReadConcat(Fresh([]), FileText(rows[..n]), RowText(rows[n]), blank);
      ReadRow(rows[..n], rows[n], blank);
      assert rows[..n] + [rows[n]] == rows;
    }
  }

  // ----- The download ----------------------------------------------------------------------

  const CHUNK_TARGET_BYTES := 8192

  /** What the query hands over: rows, or the error that ended it. */
  datatype RowResult = Row(cells: seq<Cell>) | Failure(error: string)

  datatype Item = Chunk(body: string) | Broken(error: string)

  predicate AllRows(rs: seq<RowResult>) { forall i :: 0 <= i < |rs| ==> rs[i].Row? }

  function FieldRows(rs: seq<RowResult>): (r: seq<seq<string>>)
    requires AllRows(rs)
    ensures |r| == |rs| && forall i :: 0 <= i < |r| ==> r[i] == Fields(rs[i].cells)
  {
    seq(|rs|, i requires 0 <= i < |rs| => Fields(rs[i].cells))
  }

  function Body(rs: seq<RowResult>): string
    requires AllRows(rs)
  {
    FileText(FieldRows(rs))
  }

  function ByteLength(s: string): nat { |Utf8.Encode(s)| }

  lemma BodyGrows(rs: seq<RowResult>, n: nat)
    requires n < |rs| && AllRows(rs[..n + 1])
    ensures AllRows(rs[..n]) && Body(rs[..n + 1]) == Body(rs[..n]) + RowText(Fields(rs[n].cells))
  {
    hide RowText, Fields;
    assert rs[..n + 1][n] == rs[n];
    assert forall i :: 0 <= i < n ==> rs[..n + 1][i] == rs[..n][i];
    assert FieldRows(rs[..n + 1])[..n] == FieldRows(rs[..n]);
  }

  lemma {:induction false} BodyConcat(a: seq<RowResult>, b: seq<RowResult>)
    requires AllRows(a) && AllRows(b)
    ensures AllRows(a + b) && Body(a + b) == Body(a) + Body(b)
  {
    hide RowText;
    if b == [] {
      assert a + b == a;
    } else {
      var n := |b| - 1;
      assert (a + b)[..|a + b|] == a + b && b[..|b|] == b;
      assert (a + b)[..|a| + n] == a + b[..n];
      BodyConcat(a, b[..n]);
      BodyGrows(a + b, |a| + n);
      BodyGrows(b, n);
    }
  }

  /** A chunk takes the rows that first reach the target, or all there are. */
  ghost predicate Fills(rs: seq<RowResult>, n: nat) {
    && n <= |rs| && AllRows(rs[..n])
    && (n > 0 ==> ByteLength(Body(rs[..n - 1])) < CHUNK_TARGET_BYTES)
    && (ByteLength(Body(rs[..n])) >= CHUNK_TARGET_BYTES || n == |rs|)
  }

  /** The query fails after `n` rows that do not reach the target. */
  ghost predicate Fails(rs: seq<RowResult>, n: nat, error: string) {
    n < |rs| && AllRows(rs[..n]) && rs[n] == Failure(error) && ByteLength(Body(rs[..n])) < CHUNK_TARGET_BYTES
  }

  /** What one call does to the rows that were left. */
  ghost predicate Taken(before: seq<RowResult>, item: Option<Item>, after: seq<RowResult>, done: bool) {
    match item
    case None => before == [] && after == [] && done
    case Some(Chunk(body)) =>
      && (done ==> after == [])
      && exists n :: 0 < n <= |before| && Fills(before, n) && body == Body(before[..n]) && after == before[n..]
    case Some(Broken(error)) =>
      && done && exists n :: 0 <= n < |before| && Fails(before, n, error) && after == before[n + 1..]
  }

  /** `buf` holds the first `n` rows, and still had room before the last of them. */
  ghost predicate Collected(all: seq<RowResult>, n: nat, rest: seq<RowResult>, buf: string) {
    && n <= |all| && rest == all[n..] && AllRows(all[..n]) && buf == Body(all[..n])
    && (n > 0 ==> ByteLength(Body(all[..n - 1])) < CHUNK_TARGET_BYTES) && (buf == "" <==> n == 0)
  }

  lemma CollectNone(all: seq<RowResult>)
    ensures Collected(all, 0, all, "")
  {
    assert all[0..] == all && FieldRows(all[..0]) == [];
  }

  lemma CollectOne(all: seq<RowResult>, n: nat, rest: seq<RowResult>, buf: string, next: RowResult)
    requires next.Row? && Collected(all, n, [next] + rest, buf) && ByteLength(buf) < CHUNK_TARGET_BYTES
    ensures Collected(all, n + 1, rest, buf + RowText(Fields(next.cells)))
  {
    hide Body, ByteLength, RowText, Fields;
    assert ([next] + rest)[0] == all[n] && rest == ([next] + rest)[1..] == all[n..][1..];
    assert all[..n + 1] == all[..n] + [next];
    BodyGrows(all, n);
  }

  lemma NothingIsShort()
    ensures ByteLength("") == 0
  {
  }

  lemma TakenChunk(all: seq<RowResult>, n: nat, rest: seq<RowResult>, buf: string)
    requires Collected(all, n, rest, buf) && (ByteLength(buf) >= CHUNK_TARGET_BYTES || rest == [])
    ensures if buf == "" then Taken(all, None, rest, true)
            else forall done :: (done ==> rest == []) ==> Taken(all, Some(Chunk(buf)), rest, done)
  {
    hide Body, ByteLength;
    NothingIsShort();
    if n > 0 { assert Fills(all, n); }
  }

  lemma TakenBroken(all: seq<RowResult>, n: nat, rest: seq<RowResult>, buf: string, next: RowResult)
    requires next.Failure? && Collected(all, n, [next] + rest, buf) && ByteLength(buf) < CHUNK_TARGET_BYTES
    ensures Taken(all, Some(Broken(next.error)), rest, true)
  {
    hide Body, ByteLength;
    assert ([next] + rest)[0] == all[n] && rest == ([next] + rest)[1..] == all[n + 1..];
    assert Fails(all, n, next.error);
  }

  class Chunker {
    var pending: Option<string>
    var rows: seq<RowResult>
    var done: bool

    constructor (first: string, rows: seq<RowResult>)
      ensures pending == Some(first) && this.rows == rows && !done
    {
      this.pending, this.rows, this.done := Some(first), rows, false;
    }

    /** One item of the body stream. */
    method Next() returns (item: Option<Item>)
      modifies this
      ensures old(pending).Some? ==>
                item == Some(Chunk(old(pending).value)) && pending.None? && rows == old(rows) && done == old(done)
      ensures old(pending).None? ==> pending.None?
      ensures old(pending).None? && old(done) ==> item.None? && done && rows == old(rows)
      ensures old(pending).None? && !old(done) ==> Taken(old(rows), item, rows, done)
    {
      hide Collected, Taken, RowText, Fields, ByteLength;
      if pending.Some? {
        item := Some(Chunk(pending.value));
        pending := None;
        return;
      }
      if done { return None; }
      var buf := "";
      ghost var all, n := rows, 0;
      CollectNone(all);
      NothingIsShort();
      while ByteLength(buf) < CHUNK_TARGET_BYTES
        invariant Collected(all, n, rows, buf) && !done && pending.None?
        decreases |rows|
      {
        if rows == [] {
          done := true;
          break;
        }
        var next := rows[0];
        ghost var left := rows;
        rows := rows[1..];
        assert left == [next] + rows;
        if next.Failure? {
          done := true;
          TakenBroken(all, n, rows, buf, next);
          return Some(Broken(next.error));
        }
        CollectOne(all, n, rows, buf, next);
        buf := WriteRow(buf, next.cells);
        n := n + 1;
      }
      TakenChunk(all, n, rows, buf);
      item := if buf == "" then None else Some(Chunk(buf));
    }
  }

  /** `stream_csv_response`, read to its end by a client. Chunking does not change the bytes;
      after a failed query the client holds whole rows only and is told of the failure. */
  method Download(header: seq<string>, rows: seq<RowResult>) returns (body: string, error: Option<string>)
    ensures AllRows(rows) <==> error.None?
    ensures AllRows(rows) ==> body == FileText([header] + FieldRows(rows))
    ensures !AllRows(rows) ==> error.Some? && BrokenOff(header, rows, body, error.value)
  {
    hide Taken, Body, RowText, FileText;
    var cells := seq(|header|, i requires 0 <= i < |header| => Raw(header[i]));
    assert Fields(cells) == header;
    var first := WriteRow("", cells);
    assert first == RowText(header);
    var stream := new Chunker(first, rows);
    body, error := "", None;
    ghost var n := 0;
    DeliveredNone(header, rows);
    while true
      invariant stream.pending.Some? ==> stream.pending.value == first && body == "" && n == 0 && !stream.done
      invariant stream.pending.None? ==> Delivered(header, rows, n, body)
      invariant n <= |rows| && stream.rows == rows[n..] && (stream.done ==> stream.rows == []) && error.None?
      decreases |stream.rows|, stream.pending.Some?
    {
      ghost var was, before, ended := stream.pending, stream.rows, stream.done;
      var item := stream.Next();
      if item.None? {
        if was.None? && !ended { TakenNone(before, stream.rows, stream.done); }
        DeliveredAll(header, rows, n, body);
        return;
      }
      match item.value {
        case Chunk(chunk) =>
          if was.Some? {
            assert "" + chunk == chunk;
          } else {
            n := DeliverMore(header, rows, n, body, chunk, stream.rows, stream.done);
          }
          body := body + chunk;
        case Broken(err) =>
          DeliverBroken(header, rows, n, body, err, stream.rows, stream.done);
          return body, Some(err);
      }
    }
  }

  /** The first `n` rows are those of whole chunks. */
  ghost predicate Boundary(rows: seq<RowResult>, n: nat)
    decreases n
  {
    n <= |rows| && (n == 0 || exists m :: 0 <= m < n && Boundary(rows, m) && Fills(rows[m..], n - m))
  }

  /** The header and the first `n` rows, in whole chunks. */
  ghost predicate Delivered(header: seq<string>, rows: seq<RowResult>, n: nat, body: string) {
    n <= |rows| && AllRows(rows[..n]) && body == RowText(header) + Body(rows[..n]) && Boundary(rows, n)
  }

  /** The header and the whole chunks that came before the failure; the rows after them, less than
      a chunk, are not delivered. */
  ghost predicate BrokenOff(header: seq<string>, rows: seq<RowResult>, body: string, error: string) {
    exists n, k :: 0 <= n <= |rows| && 0 <= k && AllRows(rows[..n]) && Boundary(rows, n) && Fails(rows[n..], k, error)
                   && body == FileText([header] + FieldRows(rows[..n]))
  }

  lemma DeliveredNone(header: seq<string>, rows: seq<RowResult>)
    ensures Delivered(header, rows, 0, RowText(header))
  {
    hide RowText;
    assert FieldRows(rows[..0]) == [];
  }

  lemma {:induction false} HeaderFirst(header: seq<string>, rows: seq<seq<string>>)
    ensures FileText([header] + rows) == RowText(header) + FileText(rows)
  {
    hide RowText;
    var all := [header] + rows;
    if rows == [] {
      assert all[..0] == [];
      assert FileText(all[..0]) == "";
    } else {
      HeaderFirst(header, rows[..|rows| - 1]);
      assert all[..|all| - 1] == [header] + rows[..|rows| - 1];
    }
  }

  lemma DeliveredAll(header: seq<string>, rows: seq<RowResult>, n: nat, body: string)
    requires Delivered(header, rows, n, body) && rows[n..] == []
    ensures AllRows(rows) && body == FileText([header] + FieldRows(rows))
  {
    hide RowText, FileText;
    assert n == |rows| && rows[..n] == rows;
    HeaderFirst(header, FieldRows(rows));
  }

  lemma TakenNone(before: seq<RowResult>, after: seq<RowResult>, done: bool)
    requires Taken(before, None, after, done)
    ensures before == []
  {
  }

  lemma DeliverMore(header: seq<string>, rows: seq<RowResult>, n: nat, body: string, chunk: string,
                    after: seq<RowResult>, done: bool)
    returns (m: nat)
    requires Delivered(header, rows, n, body) && Taken(rows[n..], Some(Chunk(chunk)), after, done)
    ensures n < m <= |rows| && after == rows[m..] && Delivered(header, rows, m, body + chunk) && (done ==> after == [])
  {
    hide RowText, Body, ByteLength;
    var left := rows[n..];
    var k :| 0 < k <= |left| && Fills(left, k) && chunk == Body(left[..k]) && after == left[k..];
    m := n + k;
    BodyConcat(rows[..n], left[..k]);
    assert rows[..n] + left[..k] == rows[..m];
    assert Boundary(rows, m) by { assert Boundary(rows, n) && Fills(rows[n..], m - n); }
  }

  lemma FailureIsThere(before: seq<RowResult>, error: string, after: seq<RowResult>, done: bool) returns (k: nat)
    requires Taken(before, Some(Broken(error)), after, done)
    ensures k < |before| && Fails(before, k, error) && before[k].Failure?
  {
    k :| 0 <= k < |before| && Fails(before, k, error) && after == before[k + 1..];
  }

  lemma DeliverBroken(header: seq<string>, rows: seq<RowResult>, n: nat, body: string, error: string,
                      after: seq<RowResult>, done: bool)
    requires Delivered(header, rows, n, body) && Taken(rows[n..], Some(Broken(error)), after, done)
    ensures !AllRows(rows) && BrokenOff(header, rows, body, error)
  {
    hide RowText, FileText, Taken, FieldRows;
    hide Fails, Boundary;
    var k := FailureIsThere(rows[n..], error, after, done);
    assert rows[n + k] == rows[n..][k];
    HeaderFirst(header, FieldRows(rows[..n]));
  }
}
