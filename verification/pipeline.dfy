/**
 * The skeleton both scripts share up to the record logic: the download
 * fallback, the archive scan, the removal of the zip, the fatal exits, and
 * the line tokeniser.
 */
module Pipeline {
  import opened Wrappers
  import opened Text
  import opened Fetch
  import opened Archive
  import opened Output

  /** How a run ends: an exit with a status, or the output file written. */
  datatype Outcome =
    | Exited(status: int)
    | Saved(path: string, lines: seq<JsonObject>, count: nat)

  /**
   * What a run did: the transport calls made, the entries extracted and
   * skipped, whether the zip file is left at its path, and how it ended.
   */
  datatype RunLog = RunLog(
    tried: seq<Attempt>,
    extracted: seq<string>,
    skipped: seq<string>,
    zipLeft: bool,
    outcome: Outcome)

  /** `[p.strip() for p in line.strip().split("|")]`. */
  function Tokenise(line: string): (parts: seq<string>)
    ensures |parts| == multiset(Strip(line))['|'] + 1
    ensures forall i :: 0 <= i < |parts| ==> '|' !in parts[i] && IsStripped(parts[i])
  {
    var pieces := Split(Strip(line), '|');
    seq(|pieces|, i requires 0 <= i < |pieces| => Strip(pieces[i]))
  }

  /** A blank line (whitespace only, line terminator included) gives one empty token. */
  lemma BlankLineTokens(line: string)
    requires forall i :: 0 <= i < |line| ==> IsSpace(line[i])
    ensures Tokenise(line) == [""]
  {
    assert line + "" == line;
    TrimLeftSpaces(line, "");
    assert Strip(line) == "";
  }

  /** `ps` with its first piece replaced by `first` and its last by `last`. */
  function ReplaceEnds(ps: seq<string>, first: string, last: string): (qs: seq<string>)
    requires |ps| >= 2
    ensures |qs| == |ps| && qs[0] == first && qs[|ps| - 1] == last
    ensures forall i :: 0 < i < |ps| - 1 ==> qs[i] == ps[i]
  {
    [first] + ps[1..|ps| - 1] + [last]
  }

  /** Left-trimming the head and then right-trimming the last piece replaces just the two ends. */
  lemma ReplaceEndsSteps(ps: seq<string>, first: string, last: string)
    requires |ps| >= 2
    ensures ([first] + ps[1..])[..|ps| - 1] + [last] == ReplaceEnds(ps, first, last)
  {
    var qs := ([first] + ps[1..])[..|ps| - 1] + [last];
    assert forall i :: 0 < i < |ps| - 1 ==> qs[i] == ps[i];
  }

  /** The pieces of a joined line once `strip()` has trimmed its two ends. */
  function TrimEnds(ps: seq<string>): (qs: seq<string>)
    requires |ps| >= 2
    ensures |qs| == |ps|
  {
    ReplaceEnds(ps, TrimLeft(ps[0]), TrimRight(ps[|ps| - 1]))
  }

  /** Stripping a line of two or more `|`-joined pieces trims only the first and the last piece. */
  lemma StripJoinEnds(ps: seq<string>)
    requires |ps| >= 2
    ensures Strip(Join(ps, '|')) == Join(TrimEnds(ps), '|')
  {
    var ps1 := [TrimLeft(ps[0])] + ps[1..];
    assert ps1[|ps1| - 1] == ps[|ps| - 1];
    TrimLeftJoin(ps, '|');
    TrimRightJoin(ps1, '|');
    ReplaceEndsSteps(ps, TrimLeft(ps[0]), TrimRight(ps[|ps| - 1]));
  }

  /** Replacing the two ends by `|`-free strings keeps every piece `|`-free. */
  lemma ReplaceEndsFree(ps: seq<string>, first: string, last: string)
    requires |ps| >= 2 && forall i :: 0 <= i < |ps| ==> '|' !in ps[i]
    requires '|' !in first && '|' !in last
    ensures forall i :: 0 <= i < |ps| ==> '|' !in ReplaceEnds(ps, first, last)[i]
  {
  }

  /** Replacing the two ends by strings that `f` maps alike keeps every piece mapping alike. */
  lemma ReplaceEndsAlike(ps: seq<string>, first: string, last: string, f: string -> string)
    requires |ps| >= 2 && f(first) == f(ps[0]) && f(last) == f(ps[|ps| - 1])
    ensures forall i :: 0 <= i < |ps| ==> f(ReplaceEnds(ps, first, last)[i]) == f(ps[i])
  {
  }

  /** `strip()` on a single `|`-free piece leaves that piece stripped, still without `|`. */
  lemma StripJoinOne(ps: seq<string>) returns (qs: seq<string>)
    requires |ps| == 1 && '|' !in ps[0]
    ensures |qs| == 1 && Strip(Join(ps, '|')) == Join(qs, '|')
    ensures forall i :: 0 <= i < |qs| ==> '|' !in qs[i] && Strip(qs[i]) == Strip(ps[i])
  {
    qs := [Strip(ps[0])];
    StripStripped(qs[0]);
  }

  /** `strip()` on two or more `|`-free pieces joined by `|` trims the ends, which stay `|`-free and strip alike. */
  lemma StripJoinMany(ps: seq<string>) returns (qs: seq<string>)
    requires |ps| >= 2 && forall i :: 0 <= i < |ps| ==> '|' !in ps[i]
    ensures |qs| == |ps| && Strip(Join(ps, '|')) == Join(qs, '|')
    ensures forall i :: 0 <= i < |qs| ==> '|' !in qs[i] && Strip(qs[i]) == Strip(ps[i])
  {
    var n := |ps| - 1;
    StripJoinEnds(ps);
    TrimLeftKeeps(ps[0], '|');
    TrimRightKeeps(ps[n], '|');
    ReplaceEndsFree(ps, TrimLeft(ps[0]), TrimRight(ps[n]));
    ReplaceEndsAlike(ps, TrimLeft(ps[0]), TrimRight(ps[n]), Strip);
    qs := TrimEnds(ps);
  }

  /**
   * `strip()` on a line of `|`-joined `|`-free pieces leaves a join of
   * `|`-free pieces that strip to what the original pieces strip to.
   */
  lemma StripJoinPieces(ps: seq<string>) returns (qs: seq<string>)
    requires |ps| >= 1 && forall i :: 0 <= i < |ps| ==> '|' !in ps[i]
    ensures |qs| == |ps| && Strip(Join(ps, '|')) == Join(qs, '|')
    ensures forall i :: 0 <= i < |qs| ==> '|' !in qs[i] && Strip(qs[i]) == Strip(ps[i])
  {
    if |ps| == 1 {
      qs := StripJoinOne(ps);
    } else {
      qs := StripJoinMany(ps);
    }
  }

  /** A line that strips to `|`-free pieces joined by `|` has those pieces, each stripped, as its tokens. */
  lemma TokeniseOfJoined(line: string, qs: seq<string>)
    requires |qs| >= 1 && forall i :: 0 <= i < |qs| ==> '|' !in qs[i]
    requires Strip(line) == Join(qs, '|')
    ensures |Tokenise(line)| == |qs|
    ensures forall i :: 0 <= i < |qs| ==> Tokenise(line)[i] == Strip(qs[i])
  {
    SplitJoin(qs, '|');
  }

  /** Tokens that are the stripped pieces of `qs`, where `qs` and `ps` strip alike, are the stripped pieces of `ps`. */
  lemma StrippedAlike(ts: seq<string>, qs: seq<string>, ps: seq<string>)
    requires |ts| == |qs| == |ps|
    requires forall i :: 0 <= i < |qs| ==> ts[i] == Strip(qs[i])
    requires forall i :: 0 <= i < |qs| ==> Strip(qs[i]) == Strip(ps[i])
    ensures forall i :: 0 <= i < |ps| ==> ts[i] == Strip(ps[i])
  {
  }

  /** The tokens of a `|`-joined line are its pieces, each stripped. */
  lemma TokeniseJoin(ps: seq<string>)
    requires |ps| >= 1 && forall i :: 0 <= i < |ps| ==> '|' !in ps[i]
    ensures |Tokenise(Join(ps, '|'))| == |ps|
    ensures forall i :: 0 <= i < |ps| ==> Tokenise(Join(ps, '|'))[i] == Strip(ps[i])
  {
    var line := Join(ps, '|');
    var qs := StripJoinPieces(ps);
    TokeniseOfJoined(line, qs);
    StrippedAlike(Tokenise(line), qs, ps);
  }

  /**
   * Token i of any line is the i-th piece between its `|` separators,
   * stripped: nothing of the line's text is lost, moved or invented.
   */
  lemma TokenisePieces(line: string)
    ensures |Tokenise(line)| == |Split(line, '|')|
    ensures forall i :: 0 <= i < |Split(line, '|')| ==> Tokenise(line)[i] == Strip(Split(line, '|')[i])
  {
    JoinSplit(line, '|');
    TokeniseJoin(Split(line, '|'));
  }

  /** Tokenising stripped `|`-free fields joined by `|` gives the fields back. */
  lemma TokeniseRoundTrip(ts: seq<string>)
    requires |ts| >= 1 && forall i :: 0 <= i < |ts| ==> '|' !in ts[i] && IsStripped(ts[i])
    ensures Tokenise(Join(ts, '|')) == ts
  {
    TokeniseJoin(ts);
    forall i | 0 <= i < |ts| ensures Strip(ts[i]) == ts[i] {
      StripStripped(ts[i]);
    }
  }

  /**
   * Download, then the `with zipfile.ZipFile(...)` scan and `os.remove`.
   * `archive` is the entry list of the downloaded zip, `None` when
   * `ZipFile` raises on it. `enFile` is the payload name processing goes on
   * with; `None` means the process has exited with status 1: through
   * `exit(1)` after every download failed or nothing matched, or through
   * the uncaught exception of an unreadable archive, which leaves the zip
   * file behind.
   */
  method Prepare(urls: seq<string>, net: seq<Transfer>, zipBefore: bool, archive: Option<seq<string>>)
    returns (tried: seq<Attempt>, extracted: seq<string>, skipped: seq<string>, zipLeft: bool, enFile: Option<string>)
    requires |net| == |urls|
    ensures tried == AttemptsFor(urls, TriedCount(urls, net))
    ensures FirstSuccess(urls, net).None? ==>
      enFile.None? && extracted == [] && skipped == [] && zipLeft == (urls == [] && zipBefore)
    ensures FirstSuccess(urls, net).Some? && archive.None? ==>
      enFile.None? && extracted == [] && skipped == [] && zipLeft
    ensures FirstSuccess(urls, net).Some? && archive.Some? ==>
      && enFile == LastPayload(archive.value)
      && extracted == Matching(archive.value)
      && skipped == NonMatching(archive.value)
      && !zipLeft
  {
    var won, zipAtTry;
    won, tried, zipLeft, zipAtTry := Download(urls, net, zipBefore);
    extracted, skipped, enFile := [], [], None;
    if won.None? {
      return;                                  // exit(1)
    }
    if archive.None? {
      return;                                  // ZipFile raises; the zip stays
    }
    var names := archive.value;
    enFile, extracted, skipped := ScanEntries(names);
    PayloadFound(names);
    zipLeft := false;                          // os.remove(zip_path)
    if enFile.None? || enFile.value == "" {
      enFile := None;                          // exit(1)
      return;
    }
  }

  /** The `not en_file` test after the scan fails exactly when some entry matched. */
  lemma PayloadFound(names: seq<string>)
    ensures LastPayload(names).Some? ==> LastPayload(names).value != ""
  {
    if LastPayload(names).Some? {
      PayloadNameLength(LastPayload(names).value);
    }
  }
}
