/**
 * The aircraft script's record logic: each payload line is tokenised,
 * padded to the 28 registry field names and mapped by position; lines with
 * an empty call sign are dropped; the name, ZIP and FRN fields are derived;
 * and records go into a dict keyed by call sign, where the last line with a
 * call sign supplies its record and the first one fixes its position.
 */
module Aircraft {
  import opened Wrappers
  import opened Text
  import opened Fetch
  import opened Archive
  import opened OrderedMaps
  import opened Output
  import opened Pipeline

  const URLS: seq<string> := [
    "https://data.fcc.gov/download/pub/uls/complete/l_aircr.zip",
    "ftp://wirelessftp.fcc.gov/pub/uls/complete/l_aircr.zip"
  ]

  /** `json_path`, relative to the script's directory. */
  const JSON_PATH: string := "aircr_clean.json"

  /** The registry's field names, in column order. */
  const FIELDS: seq<string> := [
    "record_type", "unique_system_identifier", "uls_file_number", "ebf_number",
    "call_sign", "status_code", "status_date", "name", "first_name",
    "middle_initial", "last_name", "suffix", "phone", "fax", "email",
    "street_address", "city", "state", "zip_code", "po_box", "attn_line",
    "frn", "registration_number", "license_status", "reserved1", "reserved2",
    "reserved3", "reserved4"
  ]

  // Column positions of the fields the record uses.
  const CALL_SIGN: nat := 4
  const NAME: nat := 7
  const FIRST_NAME: nat := 8
  const LAST_NAME: nat := 10
  const STREET_ADDRESS: nat := 15
  const CITY: nat := 16
  const STATE: nat := 17
  const ZIP_CODE: nat := 18
  /** `FIELDS.index("frn")`. */
  const FRN: nat := 21

  /** The column constants name the right fields; "frn" occurs only at FRN, so `FIELDS.index("frn")` is FRN. */
  lemma FieldNames()
    ensures FIELDS[CALL_SIGN] == "call_sign" && FIELDS[NAME] == "name"
    ensures FIELDS[FIRST_NAME] == "first_name" && FIELDS[LAST_NAME] == "last_name"
    ensures FIELDS[STREET_ADDRESS] == "street_address" && FIELDS[CITY] == "city"
    ensures FIELDS[STATE] == "state" && FIELDS[ZIP_CODE] == "zip_code"
    ensures FIELDS[FRN] == "frn" && forall i :: 0 <= i < FRN ==> FIELDS[i] != "frn"
  {
  }

  /** The field names are pairwise distinct, so `dict(zip(FIELDS, parts))` loses no column. */
  lemma FieldsDistinct()
    ensures |FIELDS| == 28 && Distinct(FIELDS)
  {
  }

  /** `d.get(k, "")`. */
  function Get(d: map<string, string>, k: string): (v: string)
    ensures k in d ==> v == d[k]
    ensures k !in d ==> v == ""
  {
    if k in d then d[k] else ""
  }

  /**
   * `dict(zip(keys, vals))`: pairs up to the shorter sequence, inserted in
   * order, so a repeated key keeps its last value.
   */
  function ZipDict(keys: seq<string>, vals: seq<string>): (d: map<string, string>)
  {
    if keys == [] || vals == [] then map[]
    else map[keys[0] := vals[0]] + ZipDict(keys[1..], vals[1..])
  }

  /** Only the given keys appear in `dict(zip(keys, vals))`. */
  lemma {:induction false} ZipDictKeys(keys: seq<string>, vals: seq<string>, k: string)
    requires k in ZipDict(keys, vals)
    ensures k in keys
  {
    if k != keys[0] {
      ZipDictKeys(keys[1..], vals[1..], k);
    }
  }

  /** With distinct keys, `dict(zip(keys, vals))` maps the i-th key to the i-th value. */
  lemma {:induction false} ZipDictAt(keys: seq<string>, vals: seq<string>, i: nat)
    requires Distinct(keys) && i < |keys| && i < |vals|
    ensures keys[i] in ZipDict(keys, vals) && ZipDict(keys, vals)[keys[i]] == vals[i]
  {
    var rest := ZipDict(keys[1..], vals[1..]);
    if i == 0 {
      if keys[0] in rest {
        ZipDictKeys(keys[1..], vals[1..], keys[0]);
        assert false;
      }
    } else {
      ZipDictAt(keys[1..], vals[1..], i - 1);
    }
  }

  /** Only the first `|keys|` values reach the dict: `zip` stops at the shorter input. */
  lemma {:induction false} ZipDictPrefix(keys: seq<string>, vals: seq<string>)
    requires |vals| >= |keys|
    ensures ZipDict(keys, vals) == ZipDict(keys, vals[..|keys|])
  {
    if keys != [] {
      assert vals[..|keys|][1..] == vals[1..][..|keys| - 1];
      ZipDictPrefix(keys[1..], vals[1..]);
    }
  }

  /** `parts += [""] * (len(FIELDS) - len(parts))` when the line is short. */
  function Padded(parts: seq<string>): (r: seq<string>)
    ensures |r| == if |parts| < |FIELDS| then |FIELDS| else |parts|
    ensures r[..|parts|] == parts
    ensures forall i :: |parts| <= i < |r| ==> r[i] == ""
  {
    if |parts| < |FIELDS| then parts + seq(|FIELDS| - |parts|, _ => "") else parts
  }

  /**
   * The FRN fix: a "000" placeholder in the `frn` column is replaced by the
   * next token when that token is neither empty nor "000".
   */
  function CorrectFrn(parts: seq<string>): (frn: string)
    requires |parts| > FRN
    ensures frn == parts[FRN] || (parts[FRN] == "000" && frn != "" && frn != "000")
    ensures parts[FRN] == "000" && |parts| > FRN + 1 && Strip(parts[FRN + 1]) != "" && Strip(parts[FRN + 1]) != "000" ==>
      frn == Strip(parts[FRN + 1])
    ensures frn != parts[FRN] ==> parts[FRN] == "000" && |parts| > FRN + 1 && frn == Strip(parts[FRN + 1])
  {
    var frn := parts[FRN];
    if frn == "000" && |parts| > FRN + 1 then
      var next := Strip(parts[FRN + 1]);
      if next != "" && next != "000" then next else frn
    else frn
  }

  /** The dict stored under `calls[call]`. */
  datatype AircraftRecord = AircraftRecord(
    callSign: string,
    name: string,
    streetAddress: string,
    city: string,
    state: string,
    zip: string,
    frn: string)

  /** The record built from a line's field dict and its padded tokens. */
  function BuildRecord(record: map<string, string>, frn: string): (r: AircraftRecord)
    ensures |r.zip| <= 5
    ensures IsStripped(r.name) && IsStripped(r.streetAddress) && IsStripped(r.city) && IsStripped(r.state)
  {
    var name := if Get(record, "name") != "" then Get(record, "name")
                else Strip(Get(record, "first_name") + " " + Get(record, "last_name"));
    var zipCode := Take(Get(record, "zip_code"), 5);
    AircraftRecord(
      Get(record, "call_sign"),
      Strip(name),
      Strip(Get(record, "street_address")),
      Strip(Get(record, "city")),
      Strip(Get(record, "state")),
      Strip(zipCode),
      frn)
  }

  /** The padded tokens of a payload line. */
  function LineParts(line: string): (parts: seq<string>)
    ensures |parts| >= |FIELDS|
  {
    Padded(Tokenise(line))
  }

  /** `record.get("call_sign", "")` for a payload line. */
  function LineKey(line: string): string {
    Get(ZipDict(FIELDS, LineParts(line)), "call_sign")
  }

  /** What one payload line contributes: `None` for a line the loop `continue`s past. */
  function ParseLine(line: string): (r: Option<AircraftRecord>)
    ensures r.None? <==> LineKey(line) == ""
    ensures r.Some? ==> r.value.callSign == LineKey(line)
  {
    var parts := LineParts(line);
    var record := ZipDict(FIELDS, parts);
    if Get(record, "call_sign") == "" then None else Some(BuildRecord(record, CorrectFrn(parts)))
  }

  /** Looking a used field name up in `dict(zip(FIELDS, parts))` gives that column's token. */
  lemma FieldLookups(parts: seq<string>)
    requires |parts| >= |FIELDS|
    ensures var d := ZipDict(FIELDS, parts);
      && Get(d, "call_sign") == parts[CALL_SIGN]
      && Get(d, "name") == parts[NAME]
      && Get(d, "first_name") == parts[FIRST_NAME]
      && Get(d, "last_name") == parts[LAST_NAME]
      && Get(d, "street_address") == parts[STREET_ADDRESS]
      && Get(d, "city") == parts[CITY]
      && Get(d, "state") == parts[STATE]
      && Get(d, "zip_code") == parts[ZIP_CODE]
  {
    FieldNames();
    FieldAt(parts, CALL_SIGN, "call_sign");
    FieldAt(parts, NAME, "name");
    FieldAt(parts, FIRST_NAME, "first_name");
    FieldAt(parts, LAST_NAME, "last_name");
    FieldAt(parts, STREET_ADDRESS, "street_address");
    FieldAt(parts, CITY, "city");
    FieldAt(parts, STATE, "state");
    FieldAt(parts, ZIP_CODE, "zip_code");
  }

  /** The field name in column i maps to the token in column i. */
  lemma FieldAt(parts: seq<string>, i: nat, name: string)
    requires |parts| >= |FIELDS| && i < |FIELDS| && FIELDS[i] == name
    ensures Get(ZipDict(FIELDS, parts), name) == parts[i]
  {
    FieldsDistinct();
    ZipDictAt(FIELDS, parts, i);
  }

  /**
   * Every field of a parsed line, stated by column: the call sign is token
   * 4; the name is token 7, or tokens 8 and 10 joined by a space and
   * stripped when token 7 is empty; street, city and state are tokens 15-17;
   * the ZIP is at most the first five characters of token 18, stripped; and
   * the FRN is token 22 exactly when token 21 is "000" and token 22 is
   * neither empty nor "000", otherwise token 21.
   */
  lemma LineFields(line: string)
    ensures var p := LineParts(line);
      && LineKey(line) == p[CALL_SIGN]
      && (p[CALL_SIGN] != "" ==> ParseLine(line) == Some(ByColumn(p)))
  {
    var t := Tokenise(line);
    var p := LineParts(line);
    // Every padded token is stripped: the tokens are, and the padding is "".
    forall i | 0 <= i < |p| ensures IsStripped(p[i]) {
      if i < |t| {
        assert p[i] == p[..|t|][i] == t[i];
      }
    }
    FieldLookups(p);
    RecordByColumn(p);
  }

  /**
   * The call sign read from the line's own text: the fifth `|`-separated
   * piece, stripped, or "" when the line has fewer pieces.
   */
  lemma CallSignOfLine(line: string)
    ensures var pieces := Split(line, '|');
      LineKey(line) == if |pieces| > CALL_SIGN then Strip(pieces[CALL_SIGN]) else ""
  {
    LineFields(line);
    TokenisePieces(line);
    var t := Tokenise(line);
    var p := LineParts(line);
    if |t| > CALL_SIGN {
      assert p[CALL_SIGN] == p[..|t|][CALL_SIGN];
    }
  }

  /** The record stated column by column (see `LineFields`). */
  function ByColumn(p: seq<string>): AircraftRecord
    requires |p| >= |FIELDS|
  {
    AircraftRecord(
      p[CALL_SIGN],
      if p[NAME] != "" then p[NAME] else Strip(p[FIRST_NAME] + " " + p[LAST_NAME]),
      p[STREET_ADDRESS],
      p[CITY],
      p[STATE],
      Strip(Take(p[ZIP_CODE], 5)),
      if p[FRN] == "000" && p[FRN + 1] != "" && p[FRN + 1] != "000" then p[FRN + 1] else p[FRN])
  }

  /** On stripped tokens, building the record by field name agrees with `ByColumn`. */
  lemma RecordByColumn(p: seq<string>)
    requires |p| >= |FIELDS|
    requires forall i :: 0 <= i < |p| ==> IsStripped(p[i])
    ensures BuildRecord(ZipDict(FIELDS, p), CorrectFrn(p)) == ByColumn(p)
  {
    var d := ZipDict(FIELDS, p);
    FieldLookups(p);
    var r := BuildRecord(d, CorrectFrn(p));
    var c := ByColumn(p);
    assert r.callSign == c.callSign;
    assert r.name == c.name by {
      StripStripped(p[NAME]);
      StripStripped(c.name);
    }
    assert r.streetAddress == c.streetAddress by {
      StripStripped(p[STREET_ADDRESS]);
    }
    assert r.city == c.city by {
      StripStripped(p[CITY]);
    }
    assert r.state == c.state by {
      StripStripped(p[STATE]);
    }
    assert r.zip == c.zip;
    assert r.frn == c.frn by {
      StripStripped(p[FRN + 1]);
    }
  }

  /** Tokens after the 28th change nothing in the record. */
  lemma ExtraTokensIgnored(parts: seq<string>)
    requires |parts| >= |FIELDS|
    ensures ZipDict(FIELDS, parts) == ZipDict(FIELDS, parts[..|FIELDS|])
  {
    ZipDictPrefix(FIELDS, parts);
  }

  /** The FRN fix reads only the `frn` column and the one after it. */
  lemma FrnColumns(a: seq<string>, b: seq<string>)
    requires |a| > FRN + 1 && |b| > FRN + 1
    requires a[FRN] == b[FRN] && a[FRN + 1] == b[FRN + 1]
    ensures CorrectFrn(a) == CorrectFrn(b)
  {
  }

  /** The dict assignment one payload line makes: `calls[call] = {...}`, or none. */
  function LineOp(line: string): (op: Option<(string, AircraftRecord)>)
    ensures op.None? <==> LineKey(line) == ""
    ensures op.Some? ==> op.value.0 == LineKey(line) && ParseLine(line) == Some(op.value.1)
  {
    match ParseLine(line)
    case None => None
    case Some(r) => Some((r.callSign, r))
  }

  /** `LineOp` unfolded into the steps the loop body takes on the padded tokens. */
  lemma LineOpSteps(line: string, parts: seq<string>)
    requires parts == LineParts(line)
    ensures var record := ZipDict(FIELDS, parts);
      LineOp(line) == if Get(record, "call_sign") == "" then None
                      else Some((Get(record, "call_sign"), BuildRecord(record, CorrectFrn(parts))))
  {
  }

  /** The assignments of all lines, in file order. */
  function Ops(lines: seq<string>): (ops: seq<Option<(string, AircraftRecord)>>)
    ensures |ops| == |lines| && forall i :: 0 <= i < |lines| ==> ops[i] == LineOp(lines[i])
  {
    seq(|lines|, i requires 0 <= i < |lines| => LineOp(lines[i]))
  }

  /** The contents of `calls` once the loop has read `lines`. */
  function Ingest(lines: seq<string>): (m: OrderedMap<AircraftRecord>)
    ensures m.Valid()
  {
    Assign(Ops(lines))
  }

  /**
   * The line loop: tokenise, pad in place, map by field name, skip an empty
   * call sign, derive the record and store it under `calls[call]`.
   */
  method ProcessLines(lines: seq<string>) returns (calls: OrderedMap<AircraftRecord>)
    ensures calls == Ingest(lines)
  {
    calls := Empty();
    for i := 0 to |lines|
      invariant calls == Assign(Ops(lines)[..i])
    {
      AssignStep(Ops(lines), i);
      var parts := Tokenise(lines[i]);
      if |parts| < |FIELDS| {
        parts := parts + seq(|FIELDS| - |parts|, _ => "");
      }
      LineOpSteps(lines[i], parts);
      var record := ZipDict(FIELDS, parts);
      var call := Get(record, "call_sign");
      if call == "" {
        continue;
      }
      var frn := CorrectFrn(parts);
      calls := calls.Put(call, BuildRecord(record, frn));
    }
    assert Ops(lines)[..|lines|] == Ops(lines);
  }

  /** The distinct non-empty call signs of `lines`. */
  ghost function CallSigns(lines: seq<string>): set<string> {
    set i | 0 <= i < |lines| && LineKey(lines[i]) != "" :: LineKey(lines[i])
  }

  /** Line i assigns exactly when its call sign is non-empty, and assigns to that call sign. */
  lemma OpsAt(lines: seq<string>, i: nat)
    requires i < |lines|
    ensures Ops(lines)[i].Some? <==> LineKey(lines[i]) != ""
    ensures Ops(lines)[i].Some? ==> Ops(lines)[i].value.0 == LineKey(lines[i])
  {
  }

  /** The keys the line assignments make are the non-empty call signs. */
  lemma AssignedCallSigns(lines: seq<string>)
    ensures AssignedKeys(Ops(lines)) == CallSigns(lines)
  {
    var ops := Ops(lines);
    forall k | k in AssignedKeys(ops) ensures k in CallSigns(lines) {
      var i :| 0 <= i < |ops| && ops[i].Some? && ops[i].value.0 == k;
      OpsAt(lines, i);
    }
    forall k | k in CallSigns(lines) ensures k in AssignedKeys(ops) {
      var i :| 0 <= i < |lines| && LineKey(lines[i]) != "" && LineKey(lines[i]) == k;
      OpsAt(lines, i);
    }
  }

  /** After the loop the keys of `calls` are exactly the distinct non-empty call signs. */
  lemma IngestKeys(lines: seq<string>)
    ensures Ingest(lines).entries.Keys == CallSigns(lines)
  {
    AssignKeys(Ops(lines));
    AssignedCallSigns(lines);
  }

  /** `len(calls)`, the count reported at the end, is the number of distinct non-empty call signs. */
  lemma IngestCount(lines: seq<string>)
    ensures |Ingest(lines).keys| == |CallSigns(lines)|
  {
    AssignCount(Ops(lines));
    AssignedCallSigns(lines);
  }

  /**
   * Last write wins: the record stored under a call sign is the one built
   * from the last line carrying it, whole, with no field merged in from an
   * earlier line.
   */
  lemma IngestLastWins(lines: seq<string>, j: nat)
    requires j < |lines| && LineKey(lines[j]) != ""
    requires forall i :: j < i < |lines| ==> LineKey(lines[i]) != LineKey(lines[j])
    ensures LineKey(lines[j]) in Ingest(lines).entries
    ensures Ingest(lines).entries[LineKey(lines[j])] == ParseLine(lines[j]).value
  {
    var ops := Ops(lines);
    OpsAt(lines, j);
    forall i | j < i < |ops| && ops[i].Some? ensures ops[i].value.0 != ops[j].value.0 {
      OpsAt(lines, i);
    }
    AssignLastWins(ops, j);
    assert LineOp(lines[j]) == ops[j];
  }

  /**
   * Every stored record was built from a line of the file, and is stored
   * under its own call sign, which is never empty.
   */
  lemma IngestValues(lines: seq<string>, k: string)
    requires k in Ingest(lines).entries
    ensures k != "" && Ingest(lines).entries[k].callSign == k
    ensures exists i :: 0 <= i < |lines| && LineKey(lines[i]) == k && ParseLine(lines[i]) == Some(Ingest(lines).entries[k])
  {
    var ops := Ops(lines);
    AssignValuesFrom(ops, k);
    var i :| 0 <= i < |ops| && ops[i] == Some((k, Assign(ops).entries[k]));
    assert LineOp(lines[i]) == ops[i];
  }

  /** The empty string is never a key: blank call signs are skipped. */
  lemma NoEmptyCallSign(lines: seq<string>)
    ensures "" !in Ingest(lines).entries
  {
    var ops := Ops(lines);
    AssignKeys(ops);
    forall i | 0 <= i < |ops| && ops[i].Some? ensures ops[i].value.0 != "" {
      OpsAt(lines, i);
    }
  }

  /** Key `k` is carried by some line before index `j`. */
  ghost predicate SeenBefore(lines: seq<string>, k: string, j: int) {
    exists i :: 0 <= i < j && i < |lines| && LineKey(lines[i]) == k
  }

  /**
   * Records are kept in order of first occurrence: of two call signs, the
   * earlier one is carried by some line before every line carrying the
   * later one.
   */
  lemma IngestFirstSeenOrder(lines: seq<string>)
    ensures var keys := Ingest(lines).keys;
      forall p, q, j :: 0 <= p < q < |keys| && 0 <= j < |lines| && LineKey(lines[j]) == keys[q] ==>
        SeenBefore(lines, keys[p], j)
  {
    var ops := Ops(lines);
    var keys := Assign(ops).keys;
    AssignFirstSeenOrder(ops);
    NoEmptyCallSign(lines);
    forall p, q, j | 0 <= p < q < |keys| && 0 <= j < |lines| && LineKey(lines[j]) == keys[q]
      ensures SeenBefore(lines, keys[p], j)
    {
      assert keys[q] in Assign(ops).entries;
      OpsAt(lines, j);
      assert AssignedBefore(ops, keys[p], j);
      var i :| 0 <= i < j && i < |ops| && ops[i].Some? && ops[i].value.0 == keys[p];
      OpsAt(lines, i);
    }
  }

  /** The dict written for one record, in its literal key order. */
  function Pairs(r: AircraftRecord): (o: JsonObject)
    ensures |o| == 7
    ensures o[0] == ("call_sign", r.callSign) && o[6] == ("frn", r.frn)
  {
    [("call_sign", r.callSign), ("name", r.name), ("street_address", r.streetAddress),
     ("city", r.city), ("state", r.state), ("zip", r.zip), ("frn", r.frn)]
  }

  /** `calls.values()`, each as the object written on its own line. */
  function Objects(calls: OrderedMap<AircraftRecord>): (objs: seq<JsonObject>)
    requires calls.Valid()
    ensures |objs| == |calls.keys|
    ensures forall i :: 0 <= i < |objs| ==> objs[i] == Pairs(calls.entries[calls.keys[i]])
  {
    var vs := calls.Values();
    seq(|vs|, i requires 0 <= i < |vs| => Pairs(vs[i]))
  }

  /**
   * One line per call sign: every written object starts with a non-empty
   * `call_sign`, and no two lines carry the same one.
   */
  lemma OutputUnique(lines: seq<string>)
    ensures var objs := Objects(Ingest(lines));
      && (forall a :: 0 <= a < |objs| ==> objs[a][0].1 != "")
      && (forall a, b :: 0 <= a < b < |objs| ==> objs[a][0].1 != objs[b][0].1)
  {
    var m: OrderedMap<AircraftRecord> := Ingest(lines);
    var objs: seq<JsonObject> := Objects(m);
    forall a: int | 0 <= a < |objs| ensures objs[a][0].1 == m.keys[a] && m.keys[a] != "" {
      IngestValues(lines, m.keys[a]);
    }
  }

  /**
   * The whole script. `net` is what each transfer attempt does, `archive`
   * the entry list of the downloaded zip (`None` when it is not a readable
   * zip), `payload` the lines of the extracted payload file and `answer`
   * the reply to the compression prompt.
   */
  method Run(net: seq<Transfer>, zipBefore: bool, archive: Option<seq<string>>, payload: seq<string>, answer: string)
    returns (log: RunLog)
    requires |net| == |URLS|
    ensures log.tried == AttemptsFor(URLS, TriedCount(URLS, net))
    ensures log.outcome.Exited? <==>
      FirstSuccess(URLS, net).None? || archive.None? || LastPayload(archive.value).None?
    ensures log.outcome.Exited? ==> log.outcome.status == 1
    ensures log.zipLeft <==> FirstSuccess(URLS, net).Some? && archive.None?
    ensures FirstSuccess(URLS, net).Some? && archive.Some? ==>
      log.extracted == Matching(archive.value) && log.skipped == NonMatching(archive.value)
    ensures FirstSuccess(URLS, net).None? || archive.None? ==> log.extracted == [] && log.skipped == []
    ensures log.outcome.Saved? ==>
      && log.outcome.path == OutputPath(JSON_PATH, CompressChosen(answer))
      && log.outcome.lines == Objects(Ingest(payload))
      && log.outcome.count == |CallSigns(payload)|
  {
    var tried, extracted, skipped, zipLeft, enFile := Prepare(URLS, net, zipBefore, archive);
    if enFile.None? {
      return RunLog(tried, extracted, skipped, zipLeft, Exited(1));
    }
    var calls := ProcessLines(payload);
    var path, written := Save(Objects(calls), JSON_PATH, answer);
    IngestCount(payload);
    return RunLog(tried, extracted, skipped, zipLeft, Saved(path, written, |calls.keys|));
  }
}
