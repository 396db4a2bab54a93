/**
 * The archive stage both scripts share: every entry of `namelist()` whose
 * lower-cased name starts with "en" and ends with ".dat" is extracted, the
 * others are skipped, and the name kept for processing is the last match.
 */
module Archive {
  import opened Wrappers
  import opened Text

  /** `f.lower().startswith("en") and f.lower().endswith(".dat")`. */
  predicate IsPayloadName(name: string) {
    StartsWith(Lower(name), "en") && EndsWith(Lower(name), ".dat")
  }

  /**
   * A matching name has at least six characters, so it is never the empty
   * string: `if not en_file` fails exactly when nothing matched.
   */
  lemma PayloadNameLength(name: string)
    requires IsPayloadName(name)
    ensures |name| >= 6
  {
    var l := Lower(name);
    assert l[..2] == "en" && l[|l| - 4..] == ".dat";
    assert l[0] == 'e' && l[1] == 'n';
    assert l[|l| - 4] == '.' && l[|l| - 3] == 'd';
  }

  /** The entries that are extracted, in `namelist()` order. */
  function Matching(names: seq<string>): (r: seq<string>)
    ensures forall n :: n in r <==> n in names && IsPayloadName(n)
    ensures |r| <= |names|
  {
    if names == [] then []
    else
      var last := names[|names| - 1];
      var init := names[..|names| - 1];
      assert names == init + [last];
      if IsPayloadName(last) then Matching(init) + [last] else Matching(init)
  }

  /** The entries that are skipped, in `namelist()` order. */
  function NonMatching(names: seq<string>): (r: seq<string>)
    ensures forall n :: n in r <==> n in names && !IsPayloadName(n)
    ensures |r| + |Matching(names)| == |names|
  {
    if names == [] then []
    else
      var last := names[|names| - 1];
      var init := names[..|names| - 1];
      assert names == init + [last];
      if IsPayloadName(last) then NonMatching(init) else NonMatching(init) + [last]
  }

  /** The value `en_file` ends with: the last matching entry, `None` when none matches. */
  function LastPayload(names: seq<string>): (r: Option<string>)
    ensures r.None? <==> forall n :: n in names ==> !IsPayloadName(n)
    ensures r.Some? ==> IsPayloadName(r.value) && r.value in names
  {
    if names == [] then None
    else
      var last := names[|names| - 1];
      var init := names[..|names| - 1];
      assert names == init + [last];
      if IsPayloadName(last) then Some(last) else LastPayload(init)
  }

  /** Last match wins: a matching entry followed only by non-matching ones is the one kept. */
  lemma {:induction false} LastPayloadAt(names: seq<string>, k: nat)
    requires k < |names| && IsPayloadName(names[k])
    requires forall j :: k < j < |names| ==> !IsPayloadName(names[j])
    ensures LastPayload(names) == Some(names[k])
  {
    if k < |names| - 1 {
      var init := names[..|names| - 1];
      LastPayloadAt(init, k);
    }
  }

  /**
   * The `for f in z.namelist()` loop: `enFile` is the value `en_file` ends
   * with, `extracted` the entries passed to `z.extract`, `skipped` those
   * reported as skipped, each in `namelist()` order.
   */
  method ScanEntries(names: seq<string>) returns (enFile: Option<string>, extracted: seq<string>, skipped: seq<string>)
    ensures enFile == LastPayload(names)
    ensures extracted == Matching(names)
    ensures skipped == NonMatching(names)
  {
    enFile, extracted, skipped := None, [], [];
    var i := 0;
    while i < |names|
      invariant 0 <= i <= |names|
      invariant enFile == LastPayload(names[..i])
      invariant extracted == Matching(names[..i])
      invariant skipped == NonMatching(names[..i])
    {
      var f := names[i];
      assert names[..i + 1][..i] == names[..i];
      if IsPayloadName(f) {
        enFile := Some(f);
        extracted := extracted + [f];
      } else {
        skipped := skipped + [f];
      }
      i := i + 1;
    }
    assert names[..i] == names;
  }
}
