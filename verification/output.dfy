/**
 * The output stage both scripts share: the compression prompt, the output
 * path, and the loop that writes one JSON object per line. The JSON text
 * of an object (the escaping `json.dump` performs) is not modelled; an
 * object is its list of key/value pairs in dict order.
 */
module Output {
  import opened Text

  /** One `json.dump`ed dict: its key/value pairs in insertion order. */
  type JsonObject = seq<(string, string)>

  /** `input(...).strip().lower() == "y"`. */
  predicate CompressChosen(answer: string) {
    Lower(Strip(answer)) == "y"
  }

  /** Compression is chosen exactly when the trimmed answer is "y" or "Y". */
  lemma CompressAnswers(answer: string)
    ensures CompressChosen(answer) <==> Strip(answer) == "y" || Strip(answer) == "Y"
  {
    var s := Strip(answer);
    if |s| == 1 {
      assert Lower(s) == [LowerChar(s[0])];
      assert s == [s[0]];
    }
  }

  /** `json_path`, with ".gz" appended when compression is chosen. */
  function OutputPath(base: string, compress: bool): (p: string)
    ensures compress ==> p == base + ".gz"
    ensures !compress ==> p == base
  {
    if compress then base + ".gz" else base
  }

  /**
   * One writer loop: `for rec in ...: json.dump(rec, f); f.write("\n")`.
   * `written` is the sequence of lines the file receives.
   */
  method WriteLines(objects: seq<JsonObject>) returns (written: seq<JsonObject>)
    ensures written == objects
  {
    written := [];
    for i := 0 to |objects|
      invariant written == objects[..i]
    {
      written := written + [objects[i]];
    }
  }

  /**
   * The `if compress == "y": ... else: ...` block: the gzip branch and the
   * plain branch write the same lines; only the path differs.
   */
  method Save(objects: seq<JsonObject>, base: string, answer: string) returns (path: string, written: seq<JsonObject>)
    ensures path == OutputPath(base, CompressChosen(answer))
    ensures written == objects
  {
    if Lower(Strip(answer)) == "y" {
      path := base + ".gz";
      written := WriteLines(objects);
    } else {
      path := base;
      written := WriteLines(objects);
    }
  }
}
