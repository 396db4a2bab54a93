/**
 * The tower script's record logic: each payload line is tokenised and
 * thirteen fields are read from fixed token positions, a position past the
 * end of the line giving "". Every line yields a record, blank lines
 * included, and records are written in file order.
 */
module Towers {
  import opened Wrappers
  import opened Text
  import opened Fetch
  import opened Archive
  import opened Output
  import opened Pipeline

  const URLS: seq<string> := [
    "https://data.fcc.gov/download/pub/uls/complete/r_tower.zip",
    "ftp://wirelessftp.fcc.gov/pub/uls/complete/r_tower.zip"
  ]

  /** `json_path`, relative to the script's directory. */
  const JSON_PATH: string := "tower_clean.json"

  /** The output keys, in the order the record literal lists them. */
  const KEYS: seq<string> := [
    "record_type", "registration_type", "registration_number", "ebf_number",
    "unique_id", "status_code", "company_name", "phone", "street_address",
    "city", "state", "zip_code", "contact_name"
  ]

  /** The token position each key is read from. */
  const OFFSETS: seq<nat> := [0, 1, 2, 3, 4, 5, 10, 14, 17, 20, 21, 22, 23]

  /** The dict built for one line. */
  datatype TowerRecord = TowerRecord(
    recordType: string,
    registrationType: string,
    registrationNumber: string,
    ebfNumber: string,
    uniqueId: string,
    statusCode: string,
    companyName: string,
    phone: string,
    streetAddress: string,
    city: string,
    state: string,
    zipCode: string,
    contactName: string)

  /** `parts[k] if len(parts) > k else ""`. */
  function TokenAt(parts: seq<string>, k: nat): (t: string)
    ensures k < |parts| ==> t == parts[k]
    ensures k >= |parts| ==> t == ""
  {
    if |parts| > k then parts[k] else ""
  }

  /** The record literal, field by field. */
  function BuildTower(parts: seq<string>): TowerRecord {
    TowerRecord(
      TokenAt(parts, 0),
      TokenAt(parts, 1),
      TokenAt(parts, 2),
      TokenAt(parts, 3),
      TokenAt(parts, 4),
      TokenAt(parts, 5),
      TokenAt(parts, 10),
      TokenAt(parts, 14),
      TokenAt(parts, 17),
      TokenAt(parts, 20),
      TokenAt(parts, 21),
      TokenAt(parts, 22),
      TokenAt(parts, 23))
  }

  /** A record's values, in key order. */
  function Values(r: TowerRecord): (vs: seq<string>)
    ensures |vs| == |KEYS|
  {
    [r.recordType, r.registrationType, r.registrationNumber, r.ebfNumber,
     r.uniqueId, r.statusCode, r.companyName, r.phone, r.streetAddress,
     r.city, r.state, r.zipCode, r.contactName]
  }

  /**
   * The record reads the i-th key from token `OFFSETS[i]`, whole: in
   * particular `zip_code` is token 22 as it stands, never cut to five
   * characters.
   */
  lemma BuildTowerByOffset(parts: seq<string>)
    ensures |OFFSETS| == |KEYS|
    ensures forall i :: 0 <= i < |KEYS| ==> Values(BuildTower(parts))[i] == TokenAt(parts, OFFSETS[i])
  {
    var vs := Values(BuildTower(parts));
    forall i | 0 <= i < |KEYS| ensures vs[i] == TokenAt(parts, OFFSETS[i]) {
      assert OFFSETS[i] == [0, 1, 2, 3, 4, 5, 10, 14, 17, 20, 21, 22, 23][i];
    }
  }

  /** The dict written for one record: each key with its value, in key order. */
  function Pairs(r: TowerRecord): (o: JsonObject)
    ensures |o| == |KEYS|
    ensures forall i :: 0 <= i < |o| ==> o[i] == (KEYS[i], Values(r)[i])
  {
    var vs := Values(r);
    seq(|KEYS|, i requires 0 <= i < |KEYS| => (KEYS[i], vs[i]))
  }

  /** The record one payload line yields. */
  function ParseTower(line: string): TowerRecord {
    BuildTower(Tokenise(line))
  }

  /** Every field of a record is stripped and holds no '|'. */
  lemma TowerFieldsClean(line: string)
    ensures forall i :: 0 <= i < |KEYS| ==>
      var v := Values(ParseTower(line))[i];
      IsStripped(v) && '|' !in v
  {
    var parts := Tokenise(line);
    BuildTowerByOffset(parts);
  }

  /**
   * Each field read from the line's own text: key i holds the
   * `OFFSETS[i]`-th `|`-separated piece of the line, stripped, or "" when
   * the line has no such piece.
   */
  lemma FieldsOfLine(line: string)
    ensures forall i :: 0 <= i < |KEYS| ==>
      Values(ParseTower(line))[i] ==
        if OFFSETS[i] < |Split(line, '|')| then Strip(Split(line, '|')[OFFSETS[i]]) else ""
  {
    BuildTowerByOffset(Tokenise(line));
    forall i | 0 <= i < |KEYS| {
      TokenAtLine(line, OFFSETS[i]);
    }
  }

  /** Token k of a line is its k-th `|`-separated piece, stripped, or "" past the last piece. */
  lemma TokenAtLine(line: string, k: nat)
    ensures TokenAt(Tokenise(line), k) == if k < |Split(line, '|')| then Strip(Split(line, '|')[k]) else ""
  {
    TokenisePieces(line);
  }

  /** A blank line is not skipped: it yields a record whose every field is "". */
  lemma BlankLineRecord(line: string)
    requires forall i :: 0 <= i < |line| ==> IsSpace(line[i])
    ensures Values(ParseTower(line)) == seq(|KEYS|, _ => "")
  {
    BlankLineTokens(line);
    BuildTowerByOffset([""]);
  }

  /** The values of `f` on `xs`, in order. */
  function MapSeq<X, Y>(f: X -> Y, xs: seq<X>): (ys: seq<Y>)
    ensures |ys| == |xs|
  {
    if xs == [] then [] else MapSeq(f, xs[..|xs| - 1]) + [f(xs[|xs| - 1])]
  }

  /** Element i of the mapped sequence is `f` of element i. */
  lemma {:induction false} MapSeqAt<X, Y>(f: X -> Y, xs: seq<X>, i: nat)
    requires i < |xs|
    ensures MapSeq(f, xs)[i] == f(xs[i])
  {
    var n := |xs| - 1;
    if i < n {
      MapSeqAt(f, xs[..n], i);
      assert xs[..n][i] == xs[i];
    }
  }

  /** Mapping a prefix one element longer appends that element's value. */
  lemma MapSeqSnoc<X, Y>(f: X -> Y, xs: seq<X>, i: nat)
    requires i < |xs|
    ensures MapSeq(f, xs[..i + 1]) == MapSeq(f, xs[..i]) + [f(xs[i])]
  {
    assert xs[..i + 1][..i] == xs[..i];
  }

  /** `records`, once the loop has read `lines`: one record per line, in order. */
  function Records(lines: seq<string>): (rs: seq<TowerRecord>)
    ensures |rs| == |lines|
  {
    MapSeq(ParseTower, lines)
  }

  /** Record i is the one line i yields: no line is dropped, merged or reordered. */
  lemma RecordsAt(lines: seq<string>, i: nat)
    requires i < |lines|
    ensures Records(lines)[i] == ParseTower(lines[i])
  {
    MapSeqAt(ParseTower, lines, i);
  }

  /** The line loop: tokenise, build the record and append it to `records`. */
  method ProcessLines(lines: seq<string>) returns (records: seq<TowerRecord>)
    ensures records == Records(lines)
  {
    records := [];
    for i := 0 to |lines|
      invariant records == MapSeq(ParseTower, lines[..i])
    {
      var parts := Tokenise(lines[i]);
      var record := BuildTower(parts);
      assert record == ParseTower(lines[i]);
      MapSeqSnoc(ParseTower, lines, i);
      records := records + [record];
    }
    assert lines[..|lines|] == lines;
  }

  /** The records, each as the object written on its own line. */
  function Objects(records: seq<TowerRecord>): (objs: seq<JsonObject>)
    ensures |objs| == |records|
    ensures forall i :: 0 <= i < |records| ==> objs[i] == Pairs(records[i])
  {
    seq(|records|, i requires 0 <= i < |records| => Pairs(records[i]))
  }

  /**
   * The whole script. `net` is what each transfer attempt does, `archive`
   * the entry list of the downloaded zip (`None` when it is not a readable
   * zip), `payload` the lines of the extracted payload file and `answer`
   * the reply to the compression prompt.
   */
  method Run(net: seq<Transfer>, zipBefore: bool, archive: Option<seq<string>>, payload: seq<string>, answer: string)
    returns (log: RunLog)
    requires |net| == |URLS|
    ensures log.tried == AttemptsFor(URLS, TriedCount(URLS, net))
    ensures log.outcome.Exited? <==>
      FirstSuccess(URLS, net).None? || archive.None? || LastPayload(archive.value).None?
    ensures log.outcome.Exited? ==> log.outcome.status == 1
    ensures log.zipLeft <==> FirstSuccess(URLS, net).Some? && archive.None?
    ensures FirstSuccess(URLS, net).Some? && archive.Some? ==>
      log.extracted == Matching(archive.value) && log.skipped == NonMatching(archive.value)
    ensures FirstSuccess(URLS, net).None? || archive.None? ==> log.extracted == [] && log.skipped == []
    ensures log.outcome.Saved? ==>
      && log.outcome.path == OutputPath(JSON_PATH, CompressChosen(answer))
      && log.outcome.lines == Objects(Records(payload))
      && log.outcome.count == |payload|
  {
    var tried, extracted, skipped, zipLeft, enFile := Prepare(URLS, net, zipBefore, archive);
    if enFile.None? {
      return RunLog(tried, extracted, skipped, zipLeft, Exited(1));
    }
    var records := ProcessLines(payload);
    var path, written := Save(Objects(records), JSON_PATH, answer);
    return RunLog(tried, extracted, skipped, zipLeft, Saved(path, written, |records|));
  }
}
