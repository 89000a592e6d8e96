/** The independent, append-only audit log (crates/open-web-server-ledger/src/audit_log.rs).
    A file is a sequence of characters; a record is one line `<hex checksum> <json>`. */
module AuditLog {
  import opened Common

  datatype AuditRecord = AuditRecord(
    key: string,
    account: string,
    target: string,
    commitId: Option<string>,
    recordedAt: int)

  type Byte = b: int | 0 <= b < 256

  /** JSON, SHA-256 and the UTF-8 test, as functions of the deployment. */
  datatype Codec = Codec(
    json: AuditRecord -> string,
    parse: string -> Option<AuditRecord>,
    digest: string -> seq<Byte>,
    utf8: string -> bool)

  /** What serde_json guarantees: the text parses back, and control characters are escaped. */
  ghost predicate Faithful(c: Codec) {
    forall r: AuditRecord ::
      && c.parse(c.json(r)) == Some(r)
      && '\n' !in c.json(r) && '\r' !in c.json(r)
      && c.utf8(Body(c, r))
  }

  const HEX: string := "0123456789abcdef"

  function ToHex(bytes: seq<Byte>): (s: string)
    ensures |s| == 2 * |bytes|
    ensures forall ch :: ch in s ==> ch in HEX
  {
    if bytes == [] then "" else [HEX[bytes[0] / 16], HEX[bytes[0] % 16]] + ToHex(bytes[1..])
  }

  lemma ConcatTwice(a: string, b: string, c: string)
    ensures a + (b + c) == (a + b) + c
  {
  }

  lemma ToHexSnoc(bytes: seq<Byte>, b: Byte)
    ensures ToHex(bytes + [b]) == ToHex(bytes) + [HEX[b / 16], HEX[b % 16]]
  {
    if bytes == [] {
      assert bytes + [b] == [b];
    } else {
      var first, last := [HEX[bytes[0] / 16], HEX[bytes[0] % 16]], [HEX[b / 16], HEX[b % 16]];
      assert (bytes + [b])[0] == bytes[0] && (bytes + [b])[1..] == bytes[1..] + [b];
      ToHexSnoc(bytes[1..], b);
      assert ToHex(bytes + [b]) == first + (ToHex(bytes[1..]) + last);
      ConcatTwice(first, ToHex(bytes[1..]), last);
    }
  }

  /** The loop that writes two hex digits per byte. */
  method HexDigits(bytes: seq<Byte>) returns (s: string)
    ensures s == ToHex(bytes)
  {
    s := "";
    for i := 0 to |bytes|
      invariant s == ToHex(bytes[..i])
    {
      ToHexSnoc(bytes[..i], bytes[i]);
      assert bytes[..i + 1] == bytes[..i] + [bytes[i]];
      s := s + [HEX[bytes[i] / 16], HEX[bytes[i] % 16]];
    }
    assert bytes[..|bytes|] == bytes;
  }

  /** Equal hex texts come from equal digests, so comparing texts compares digests. */
  lemma {:induction false} ToHexInjective(a: seq<Byte>, b: seq<Byte>)
    requires ToHex(a) == ToHex(b)
    ensures a == b
  {
    assert |a| == |b|;
    if a != [] {
      var ta, tb := ToHex(a), ToHex(b);
      assert ta[0] == HEX[a[0] / 16] && ta[1] == HEX[a[0] % 16];
      assert tb[0] == HEX[b[0] / 16] && tb[1] == HEX[b[0] % 16];
      HexDigitInjective(a[0] / 16, b[0] / 16);
      HexDigitInjective(a[0] % 16, b[0] % 16);
      assert ta[2..] == ToHex(a[1..]) && tb[2..] == ToHex(b[1..]);
      ToHexInjective(a[1..], b[1..]);
    }
  }

  /** The value of a lower-case hex digit. */
  function HexValue(ch: char): int {
    if '0' <= ch <= '9' then ch as int - '0' as int
    else if 'a' <= ch <= 'f' then ch as int - 'a' as int + 10
    else -1
  }

  /** Two digits a byte, the high one first. */
  lemma {:induction false} HexReadsBack(bytes: seq<Byte>, i: nat)
    requires i < |bytes|
    ensures var s := ToHex(bytes);
      && HexValue(s[2 * i]) >= 0 && HexValue(s[2 * i + 1]) >= 0
      && 16 * HexValue(s[2 * i]) + HexValue(s[2 * i + 1]) == bytes[i]
  {
    HexDigitValue(bytes[0] / 16);
    HexDigitValue(bytes[0] % 16);
    if i > 0 { HexReadsBack(bytes[1..], i - 1); }
  }

  lemma HexDigitValue(d: int)
    requires 0 <= d < 16
    ensures HexValue(HEX[d]) == d
  {
  }

  lemma HexDigitInjective(i: int, j: int)
    requires 0 <= i < 16 && 0 <= j < 16 && HEX[i] == HEX[j]
    ensures i == j
  {
  }

  function Body(c: Codec, r: AuditRecord): string {
    ToHex(c.digest(c.json(r))) + " " + c.json(r)
  }

  function EncodeLine(c: Codec, r: AuditRecord): string {
    Body(c, r) + "\n"
  }

  function EncodeAll(c: Codec, rs: seq<AuditRecord>): string {
    if rs == [] then "" else EncodeLine(c, rs[0]) + EncodeAll(c, rs[1..])
  }

  // ---------------------------------------------------------------- lines of a file

  function DropTrailingCr(s: string): string {
    if s != "" && s[|s| - 1] == '\r' then s[..|s| - 1] else s
  }

  /** `BufRead::lines`: terminators "\n" and "\r\n" are dropped, an unterminated rest is a line. */
  function Lines(file: string): seq<string> {
    if file == "" then []
    else
      var i := IndexOf(file, '\n');
      if i == |file| then [file]
      else [DropTrailingCr(file[..i])] + Lines(file[i + 1..])
  }

  lemma IndexOfConcat(a: string, b: string, ch: char)
    requires ch !in a
    ensures IndexOf(a + [ch] + b, ch) == |a|
  {
    var s := a + [ch] + b;
    assert s[|a|] == ch;
    assert forall j :: 0 <= j < |a| ==> s[j] == a[j] && a[j] in a;
  }

  lemma LinesOfTerminated(body: string, rest: string)
    requires '\n' !in body && '\r' !in body
    ensures Lines(body + "\n" + rest) == [body] + Lines(rest)
  {
    var file := body + "\n" + rest;
    IndexOfConcat(body, rest, '\n');
    assert file[..|body|] == body && file[|body| + 1..] == rest;
    if body != "" { assert body[|body| - 1] in body; }
  }

  /** A line ends at "\n" or "\r\n", and what follows the last of them is a line unless empty. */
  lemma LinesAreSplit(line: string, rest: string)
    requires '\n' !in line
    ensures Lines(line + "\r\n" + rest) == [line] + Lines(rest)
    ensures line == "" || line[|line| - 1] != '\r' ==> Lines(line + "\n" + rest) == [line] + Lines(rest)
    ensures Lines(line) == if line == "" then [] else [line]
  {
    var crlf := line + "\r\n" + rest;
    IndexOfConcat(line + "\r", rest, '\n');
    assert crlf == (line + "\r") + "\n" + rest;
    assert crlf[..|line| + 1] == line + "\r" && crlf[|line| + 2..] == rest && (line + "\r")[..|line|] == line;
    var lf := line + "\n" + rest;
    IndexOfConcat(line, rest, '\n');
    assert lf[..|line|] == line && lf[|line| + 1..] == rest;
  }

  // ---------------------------------------------------------------- scanning

  datatype ScanError =
    | ChecksumMismatch(lineNo: nat, recorded: string, computed: string)
    | Malformed(lineNo: nat)

  function Recorded(line: string): string {
    line[..IndexOf(line, ' ')]
  }

  function Payload(line: string): string
    requires ' ' in line
  {
    line[IndexOf(line, ' ') + 1..]
  }

  /** What is wrong with a non-empty line, if anything. */
  function LineError(c: Codec, line: string, lineNo: nat): Option<ScanError> {
    if !c.utf8(line) then Some(Malformed(lineNo))
    else if ' ' !in line then Some(Malformed(lineNo))
    else if ToHex(c.digest(Payload(line))) != Recorded(line) then
      Some(ChecksumMismatch(lineNo, Recorded(line), ToHex(c.digest(Payload(line)))))
    else if c.parse(Payload(line)).None? then Some(Malformed(lineNo))
    else None
  }

  /** A record line in full: the digest of the text behind the first space, a space, that text, and
      the text must parse. */
  ghost predicate RecordLine(c: Codec, line: string, r: AuditRecord) {
    && c.utf8(line)
    && exists recorded: string, text: string ::
         && line == recorded + " " + text && ' ' !in recorded
         && recorded == ToHex(c.digest(text)) && c.parse(text) == Some(r)
  }

  lemma SplitAtSpace(line: string, recorded: string, text: string)
    requires line == recorded + " " + text && ' ' !in recorded
    ensures ' ' in line && Recorded(line) == recorded && Payload(line) == text
  {
    IndexOfConcat(recorded, text, ' ');
    assert line[..|recorded|] == recorded && line[|recorded| + 1..] == text;
    assert line[|recorded|] == ' ';
  }

  lemma LineErrorNoneIff(c: Codec, line: string, lineNo: nat)
    ensures LineError(c, line, lineNo).None? <==> exists r :: RecordLine(c, line, r)
    ensures forall r :: RecordLine(c, line, r) ==> ' ' in line && c.parse(Payload(line)) == Some(r)
  {
    forall r | RecordLine(c, line, r)
      ensures LineError(c, line, lineNo).None? && ' ' in line && c.parse(Payload(line)) == Some(r)
    {
      var recorded: string, text: string :|
        && line == recorded + " " + text && ' ' !in recorded
        && recorded == ToHex(c.digest(text)) && c.parse(text) == Some(r);
      SplitAtSpace(line, recorded, text);
    }
    if LineError(c, line, lineNo).None? {
      var i := IndexOf(line, ' ');
      assert line == line[..i] + " " + line[i + 1..] && ' ' !in line[..i];
      assert RecordLine(c, line, c.parse(Payload(line)).value);
    }
  }

  /** A scan that succeeds found a record in every line that is not empty. */
  lemma ScannedLinesAreRecords(c: Codec, ls: seq<string>, res: Result<seq<AuditRecord>, ScanError>, i: nat)
    requires IsScan(c, ls, res) && res.Ok? && i < |ls| && ls[i] != ""
    ensures exists r :: RecordLine(c, ls[i], r) && r in res.value
  {
    assert !Bad(c, ls, i);
    LineErrorNoneIff(c, ls[i], i + 1);
    var r :| RecordLine(c, ls[i], r);
    RecordKept(c, ls, i, r);
  }

  lemma {:induction false} RecordKept(c: Codec, ls: seq<string>, i: nat, r: AuditRecord)
    requires i < |ls| && ls[i] != "" && RecordLine(c, ls[i], r)
    ensures r in RecordsOf(c, ls)
    decreases |ls|
  {
    var n := |ls| - 1;
    if i < n {
      assert ls[..n][i] == ls[i];
      RecordKept(c, ls[..n], i, r);
    } else {
      LineErrorNoneIff(c, ls[i], 0);
    }
  }

  /** A line whose recorded digest is not that of its text fails the scan, and by its number if all
      lines before are in order. */
  lemma TamperedLineFails(c: Codec, ls: seq<string>, res: Result<seq<AuditRecord>, ScanError>, i: nat,
                          recorded: string, text: string)
    requires IsScan(c, ls, res) && i < |ls| && ls[i] == recorded + " " + text && ' ' !in recorded
    requires recorded != ToHex(c.digest(text))
    ensures res.Err?
    ensures c.utf8(ls[i]) && (forall j :: 0 <= j < i && ls[j] != "" ==> exists r :: RecordLine(c, ls[j], r)) ==>
      res == Err(ChecksumMismatch(i + 1, recorded, ToHex(c.digest(text))))
  {
    SplitAtSpace(ls[i], recorded, text);
    assert Bad(c, ls, i);
    if c.utf8(ls[i]) && forall j :: 0 <= j < i && ls[j] != "" ==> exists r :: RecordLine(c, ls[j], r) {
      forall j | 0 <= j < i ensures !Bad(c, ls, j) { LineErrorNoneIff(c, ls[j], j + 1); }
      FirstBadDecides(c, ls, res, i);
    }
  }

  lemma FirstBadDecides(c: Codec, ls: seq<string>, res: Result<seq<AuditRecord>, ScanError>, i: nat)
    requires IsScan(c, ls, res) && i < |ls| && Bad(c, ls, i) && forall j :: 0 <= j < i ==> !Bad(c, ls, j)
    ensures res == Err(LineError(c, ls[i], i + 1).value)
  {
    var k :| 0 <= k < |ls| && Bad(c, ls, k) && res == Err(LineError(c, ls[k], k + 1).value) && Clean(c, ls[..k]);
    assert i < k ==> !Bad(c, ls[..k], i);
  }

  /** Line `i` (numbered from 1 in messages) is not empty and not a record. */
  predicate Bad(c: Codec, ls: seq<string>, i: nat)
    requires i < |ls|
  {
    ls[i] != "" && LineError(c, ls[i], i + 1).Some?
  }

  ghost predicate Clean(c: Codec, ls: seq<string>) {
    forall i :: 0 <= i < |ls| ==> !Bad(c, ls, i)
  }

  /** `e` is the error of the first bad line. */
  ghost predicate FirstError(c: Codec, ls: seq<string>, e: ScanError) {
    exists k :: 0 <= k < |ls| && Bad(c, ls, k)
             && e == LineError(c, ls[k], k + 1).value
             && Clean(c, ls[..k])
  }

  /** The records of lines none of which is bad, in file order; empty lines carry none. */
  function RecordsOf(c: Codec, lines: seq<string>): seq<AuditRecord> {
    if lines == [] then []
    else
      var last := lines[|lines| - 1];
      RecordsOf(c, lines[..|lines| - 1]) +
      if last != "" && LineError(c, last, 0).None? then [c.parse(Payload(last)).value] else []
  }

  lemma CleanSnoc(c: Codec, ls: seq<string>, i: nat)
    requires i < |ls| && Clean(c, ls[..i]) && !Bad(c, ls, i)
    ensures Clean(c, ls[..i + 1])
  {
    var upTo := ls[..i + 1];
    forall j | 0 <= j < |upTo| ensures !Bad(c, upTo, j) {
      if j < i { assert !Bad(c, ls[..i], j); }
    }
  }

  /** The error of the first bad line if there is one, otherwise every record. */
  ghost predicate IsScan(c: Codec, ls: seq<string>, res: Result<seq<AuditRecord>, ScanError>) {
    if res.Ok? then Clean(c, ls) && res.value == RecordsOf(c, ls) else FirstError(c, ls, res.error)
  }

  /** The loop of `scan_and_verify` over the lines of the file. */
  method ScanLines(c: Codec, ls: seq<string>) returns (res: Result<seq<AuditRecord>, ScanError>)
    ensures IsScan(c, ls, res)
  {
    var records := [];
    for i := 0 to |ls|
      invariant Clean(c, ls[..i])
      invariant records == RecordsOf(c, ls[..i])
    {
      assert ls[..i + 1][..i] == ls[..i] && ls[..i + 1][i] == ls[i];
      if ls[i] != "" {
        var problem := LineError(c, ls[i], i + 1);
        if problem.Some? {
          assert Bad(c, ls, i);
          return Err(problem.value);
        }
        records := records + [c.parse(Payload(ls[i])).value];
      }
      CleanSnoc(c, ls, i);
    }
    assert ls[..|ls|] == ls;
    return Ok(records);
  }

  /** The occurrence table built by `reconcile`. */
  method CountKeys(records: seq<AuditRecord>) returns (counts: map<string, nat>)
    ensures counts.Keys == KeysOf(records)
    ensures forall k :: k in counts ==> counts[k] == Count(records, k)
  {
    counts := map[];
    for i := 0 to |records|
      invariant forall k :: k in counts <==> Count(records[..i], k) > 0
      invariant forall k :: k in counts ==> counts[k] == Count(records[..i], k)
    {
      var k := records[i].key;
      assert records[..i + 1][..i] == records[..i] && records[..i + 1][i] == records[i];
      counts := counts[k := (if k in counts then counts[k] else 0) + 1];
    }
    assert records[..|records|] == records;
    CountedKeys(records);
  }

  /** The two lists of a report, read off the occurrence table. */
  method MakeReport(records: seq<AuditRecord>, committedKeys: seq<string>) returns (report: Report)
    ensures report == ReportOf(records, committedKeys)
  {
    var counts := CountKeys(records);
    var missing := set k | k in counts && k !in committedKeys;
    var duplicate := set k | k in counts && counts[k] > 1;
    report := Report(missing, duplicate, |records|);
  }

  class FileAuditLog {
    const codec: Codec
    var file: Option<string>   // None: no such file yet
    /** What was appended through this log. */
    ghost var records: seq<AuditRecord>

    /** `new` only takes the path; the file may be there already, whatever it holds. */
    constructor (codec: Codec, file: Option<string>)
      ensures this.codec == codec && this.file == file && records == []
    {
      this.codec, this.file := codec, file;
      records := [];
    }

    /** The file holds nothing but the appended records. */
    ghost predicate Intact()
      reads this
    {
      Contents() == EncodeAll(codec, records)
    }

    function Contents(): string
      reads this
    {
      if file.Some? then file.value else ""
    }

    method Append(r: AuditRecord)
      modifies this
      ensures file.Some?
      ensures Contents() == old(Contents()) + EncodeLine(codec, r)
      ensures records == old(records) + [r] && (old(Intact()) ==> Intact())
    {
      EncodeAllSnoc(codec, records, r);
      file := Some(Contents() + EncodeLine(codec, r));
      records := records + [r];
    }

    /** A missing file has no records. */
    method ScanAndVerify() returns (res: Result<seq<AuditRecord>, ScanError>)
      ensures IsScan(codec, Lines(Contents()), res)
      ensures Intact() && Faithful(codec) ==> res == Ok(records)
    {
      if Intact() && Faithful(codec) { ScanOfEncoded(codec, records); }
      if file.None? { return Ok([]); }
      res := ScanLines(codec, Lines(file.value));
    }

    method Reconcile(committedKeys: seq<string>) returns (res: Result<Report, ScanError>)
      ensures res.Ok? ==> Clean(codec, Lines(Contents()))
      ensures res.Ok? ==> res.value == ReportOf(RecordsOf(codec, Lines(Contents())), committedKeys)
      ensures res.Err? ==> FirstError(codec, Lines(Contents()), res.error)
      ensures Intact() && Faithful(codec) ==> res == Ok(ReportOf(records, committedKeys))
    {
      var scan := ScanAndVerify();
      if scan.Err? { return Err(scan.error); }
      var report := MakeReport(scan.value, committedKeys);
      return Ok(report);
    }
  }

  // ---------------------------------------------------------------- reconciliation

  /** The two lists come out of a hash map in no fixed order, so they are sets here. */
  datatype Report = Report(missingFromWal: set<string>, duplicateInAuditLog: set<string>, total: nat)

  function Count(rs: seq<AuditRecord>, k: string): nat {
    if rs == [] then 0
    else Count(rs[..|rs| - 1], k) + if rs[|rs| - 1].key == k then 1 else 0
  }

  function KeysOf(rs: seq<AuditRecord>): set<string> {
    set r | r in rs :: r.key
  }

  lemma CountPositive(rs: seq<AuditRecord>, k: string)
    ensures Count(rs, k) > 0 <==> k in KeysOf(rs)
  {
    if rs != [] {
      var init, last := rs[..|rs| - 1], rs[|rs| - 1];
      assert rs == init + [last];
      CountPositive(init, k);
      if last.key == k { assert last in rs; }
      assert forall r :: r in rs <==> r in init || r == last;
    }
  }

  lemma CountedKeys(rs: seq<AuditRecord>)
    ensures forall k :: Count(rs, k) > 0 <==> k in KeysOf(rs)
  {
    forall k ensures Count(rs, k) > 0 <==> k in KeysOf(rs) { CountPositive(rs, k); }
  }

  ghost function ReportOf(rs: seq<AuditRecord>, committedKeys: seq<string>): Report {
    Report(
      set k | k in KeysOf(rs) && k !in committedKeys,
      set k | k in KeysOf(rs) && Count(rs, k) > 1,
      |rs|)
  }

  ghost predicate Twice(rs: seq<AuditRecord>, k: string) {
    exists i, j :: 0 <= i < j < |rs| && rs[i].key == k && rs[j].key == k
  }

  lemma {:induction false} CountsTwiceIff(rs: seq<AuditRecord>, k: string)
    ensures Count(rs, k) > 1 <==> Twice(rs, k)
    decreases |rs|
  {
    if rs != [] {
      var init, n := rs[..|rs| - 1], |rs| - 1;
      CountsTwiceIff(init, k);
      CountPositive(init, k);
      if Twice(init, k) {
        var i, j :| 0 <= i < j < |init| && init[i].key == k && init[j].key == k;
        assert rs[i].key == k && rs[j].key == k;
      }
      if rs[n].key == k && k in KeysOf(init) {
        var r :| r in init && r.key == k;
        var i :| 0 <= i < |init| && init[i] == r;
        assert rs[i].key == k;
      }
      if Twice(rs, k) {
        var i, j :| 0 <= i < j < |rs| && rs[i].key == k && rs[j].key == k;
        assert init[i].key == k && init[i] in init;
        if j < n { assert init[j].key == k; }
      }
    }
  }

  /** A report names the keys on record that are not committed, those on record more than once,
      and the number of records. */
  lemma ReportTells(rs: seq<AuditRecord>, committedKeys: seq<string>, k: string)
    ensures var report := ReportOf(rs, committedKeys);
      && (k in report.missingFromWal <==> (exists i :: 0 <= i < |rs| && rs[i].key == k) && k !in committedKeys)
      && (k in report.duplicateInAuditLog <==> Twice(rs, k))
      && report.total == |rs|
  {
    CountsTwiceIff(rs, k);
    CountPositive(rs, k);
    if exists i :: 0 <= i < |rs| && rs[i].key == k {
      var i :| 0 <= i < |rs| && rs[i].key == k;
      assert rs[i] in rs;
    }
    if k in KeysOf(rs) {
      var r :| r in rs && r.key == k;
      var i :| 0 <= i < |rs| && rs[i] == r;
    }
  }

  // ---------------------------------------------------------------- print then parse

  /** A line that the scan turns into the record `r`. */
  predicate Carries(c: Codec, line: string, r: AuditRecord) {
    && line != ""
    && ' ' in line
    && c.utf8(line)
    && ToHex(c.digest(Payload(line))) == Recorded(line)
    && c.parse(Payload(line)) == Some(r)
  }

  lemma BodyCarries(c: Codec, r: AuditRecord)
    requires Faithful(c)
    ensures Carries(c, Body(c, r), r)
  {
    var hex, json := ToHex(c.digest(c.json(r))), c.json(r);
    assert ' ' in hex ==> ' ' in HEX;
    IndexOfConcat(hex, json, ' ');
    assert Body(c, r)[..|hex|] == hex && Body(c, r)[|hex| + 1..] == json;
    assert Body(c, r)[|hex|] == ' ';
  }

  lemma {:induction false} LinesOfEncoded(c: Codec, rs: seq<AuditRecord>)
    requires Faithful(c)
    ensures |Lines(EncodeAll(c, rs))| == |rs|
    ensures forall i :: 0 <= i < |rs| ==> Lines(EncodeAll(c, rs))[i] == Body(c, rs[i])
  {
    if rs != [] {
      var body := Body(c, rs[0]);
      var hex := ToHex(c.digest(c.json(rs[0])));
      assert '\n' !in hex && '\r' !in hex by {
        assert '\n' in hex ==> '\n' in HEX;
        assert '\r' in hex ==> '\r' in HEX;
      }
      LinesOfTerminated(body, EncodeAll(c, rs[1..]));
      LinesOfEncoded(c, rs[1..]);
    }
  }

  lemma RecordsSnoc(c: Codec, lines: seq<string>, line: string, r: AuditRecord)
    requires Carries(c, line, r)
    ensures RecordsOf(c, lines + [line]) == RecordsOf(c, lines) + [r]
  {
    var all := lines + [line];
    assert all[..|all| - 1] == lines && all[|all| - 1] == line;
    assert LineError(c, line, 0).None?;
  }

  lemma {:induction false} RecordsOfCarriers(c: Codec, rs: seq<AuditRecord>, lines: seq<string>)
    requires |lines| == |rs|
    requires forall i :: 0 <= i < |rs| ==> Carries(c, lines[i], rs[i])
    ensures RecordsOf(c, lines) == rs
  {
    if rs != [] {
      var n := |rs| - 1;
      RecordsOfCarriers(c, rs[..n], lines[..n]);
      RecordsSnoc(c, lines[..n], lines[n], rs[n]);
      assert lines == lines[..n] + [lines[n]] && rs == rs[..n] + [rs[n]];
    }
  }

  /** Scanning what `Append` wrote finds no bad line and returns exactly the records written. */
  lemma {:induction false} ScanOfEncoded(c: Codec, rs: seq<AuditRecord>)
    requires Faithful(c)
    ensures Clean(c, Lines(EncodeAll(c, rs)))
    ensures RecordsOf(c, Lines(EncodeAll(c, rs))) == rs
  {
    var ls := Lines(EncodeAll(c, rs));
    LinesOfEncoded(c, rs);
    forall i | 0 <= i < |rs| ensures Carries(c, ls[i], rs[i]) { BodyCarries(c, rs[i]); }
    RecordsOfCarriers(c, rs, ls);
    forall i | 0 <= i < |ls| ensures !Bad(c, ls, i) { assert Carries(c, ls[i], rs[i]); }
  }

  /** `Append` extends an encoded file by exactly one record. */
  lemma {:induction false} EncodeAllSnoc(c: Codec, rs: seq<AuditRecord>, r: AuditRecord)
    ensures EncodeAll(c, rs + [r]) == EncodeAll(c, rs) + EncodeLine(c, r)
  {
    if rs == [] {
      assert rs + [r] == [r];
      assert EncodeAll(c, [r]) == EncodeLine(c, r) + EncodeAll(c, []);
    } else {
      assert (rs + [r])[1..] == rs[1..] + [r];
      EncodeAllSnoc(c, rs[1..], r);
    }
  }
}
