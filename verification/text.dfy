/**
 * The string operations both ETL scripts use: Python's argument-less
 * `strip()`, `split(sep)`, `split(sep, 1)`, `replace(old, "")`, `lower()`,
 * `startswith` and `endswith`, on latin-1 text held as `seq<char>`.
 */
module Text {

  /** The characters `str.isspace()` holds for in latin-1 text, which `strip()` removes. */
  predicate IsSpace(c: char) {
    var n := c as int;
    (9 <= n <= 13) || (28 <= n <= 31) || n == 32 || n == 0x85 || n == 0xA0
  }

  /** A string with no whitespace at either end: what `strip()` returns. */
  predicate IsStripped(s: string) {
    s == [] || (!IsSpace(s[0]) && !IsSpace(s[|s| - 1]))
  }

  /** `lstrip()`: the suffix left after dropping the leading whitespace. */
  function TrimLeft(s: string): (r: string)
    ensures |r| <= |s| && r == s[|s| - |r|..]
    ensures forall i :: 0 <= i < |s| - |r| ==> IsSpace(s[i])
    ensures r == [] || !IsSpace(r[0])
  {
    if s != [] && IsSpace(s[0]) then TrimLeft(s[1..]) else s
  }

  /** `rstrip()`: the prefix left after dropping the trailing whitespace. */
  function TrimRight(s: string): (r: string)
    ensures |r| <= |s| && r == s[..|r|]
    ensures forall i :: |r| <= i < |s| ==> IsSpace(s[i])
    ensures r == [] || !IsSpace(r[|r| - 1])
  {
    if s != [] && IsSpace(s[|s| - 1]) then TrimRight(s[..|s| - 1]) else s
  }

  /** `strip()`: drops the whitespace at both ends and keeps everything between. */
  function Strip(s: string): (r: string)
    ensures IsStripped(r)
    ensures |r| <= |s|
    ensures forall c :: c in r ==> c in s
  {
    var t := TrimLeft(s);
    var r := TrimRight(t);
    assert r != [] ==> r[0] == t[0];
    assert forall c :: c in r ==> c in t;
    assert forall c :: c in t ==> c in s;
    r
  }

  /** Stripping a string that is already stripped changes nothing. */
  lemma {:induction false} StripStripped(s: string)
    requires IsStripped(s)
    ensures Strip(s) == s
  {
    assert TrimLeft(s) == s;
    assert TrimRight(s) == s;
  }

  /** Dropping a whitespace run in front of a string that does not start with whitespace. */
  lemma {:induction false} TrimLeftSpaces(lead: string, x: string)
    requires forall i :: 0 <= i < |lead| ==> IsSpace(lead[i])
    requires x == [] || !IsSpace(x[0])
    ensures TrimLeft(lead + x) == x
  {
    if lead == [] {
      assert lead + x == x;
    } else {
      assert (lead + x)[1..] == lead[1..] + x;
      TrimLeftSpaces(lead[1..], x);
    }
  }

  /** Dropping a whitespace run behind a string that does not end with whitespace. */
  lemma {:induction false} TrimRightSpaces(x: string, trail: string)
    requires forall i :: 0 <= i < |trail| ==> IsSpace(trail[i])
    requires x == [] || !IsSpace(x[|x| - 1])
    ensures TrimRight(x + trail) == x
  {
    if trail == [] {
      assert x + trail == x;
    } else {
      var n := |trail| - 1;
      assert (x + trail)[..|x + trail| - 1] == x + trail[..n];
      TrimRightSpaces(x, trail[..n]);
    }
  }

  /**
   * `strip()` is exactly "remove a whitespace run on each side": a stripped
   * middle surrounded by whitespace strips to that middle.
   */
  lemma {:induction false} StripSurrounded(lead: string, mid: string, trail: string)
    requires forall i :: 0 <= i < |lead| ==> IsSpace(lead[i])
    requires forall i :: 0 <= i < |trail| ==> IsSpace(trail[i])
    requires IsStripped(mid)
    ensures Strip(lead + mid + trail) == mid
  {
    if mid == [] {
      assert lead + mid + trail == (lead + trail) + [];
      AllSpaceConcat(lead, trail);
      TrimLeftSpaces(lead + trail, []);
    } else {
      assert lead + mid + trail == lead + (mid + trail);
      TrimLeftSpaces(lead, mid + trail);
      TrimRightSpaces(mid, trail);
    }
  }

  /** Dropping the last character of a concatenation drops it from the right operand. */
  lemma DropLastConcat(x: string, y: string)
    requires y != []
    ensures (x + y)[..|x + y| - 1] == x + y[..|y| - 1]
  {
  }

  /** `lstrip()` stops at a non-whitespace character: whatever follows it is kept. */
  lemma {:induction false} TrimLeftBefore(a: string, c: char, rest: string)
    requires !IsSpace(c)
    ensures TrimLeft(a + [c] + rest) == TrimLeft(a) + [c] + rest
  {
    var s := a + [c] + rest;
    if a == [] {
      assert s == [c] + rest;
    } else if IsSpace(a[0]) {
      assert s[1..] == a[1..] + [c] + rest;
      TrimLeftBefore(a[1..], c, rest);
    } else {
      assert s[0] == a[0];
    }
  }

  /** `rstrip()` stops at a non-whitespace character: whatever precedes it is kept. */
  lemma {:induction false} TrimRightAfter(rest: string, c: char, a: string)
    requires !IsSpace(c)
    ensures TrimRight(rest + [c] + a) == rest + [c] + TrimRight(a)
  {
    var s := rest + [c] + a;
    if a == [] {
      assert s == rest + [c];
    } else if IsSpace(a[|a| - 1]) {
      DropLastConcat(rest + [c], a);
      TrimRightAfter(rest, c, a[..|a| - 1]);
    } else {
      assert s[|s| - 1] == a[|a| - 1];
    }
  }

  /** Stripping after `lstrip()` is stripping. */
  lemma {:induction false} StripTrimLeft(p: string)
    ensures Strip(TrimLeft(p)) == Strip(p)
  {
    var t := TrimLeft(p);
    assert TrimLeft(t) == t;
  }

  /** `lstrip()` drops a whitespace run from the front. */
  lemma {:induction false} TrimLeftParts(p: string) returns (lead: string)
    ensures p == lead + TrimLeft(p)
    ensures forall i :: 0 <= i < |lead| ==> IsSpace(lead[i])
  {
    var q := TrimLeft(p);
    var k := |p| - |q|;
    lead := p[..k];
    assert q == p[k..];
    assert p == p[..k] + p[k..];
    forall i | 0 <= i < |lead| ensures IsSpace(lead[i]) {
      assert lead[i] == p[i];
    }
  }

  /** `rstrip()` drops a whitespace run from the back. */
  lemma {:induction false} TrimRightParts(q: string) returns (trail: string)
    ensures q == TrimRight(q) + trail
    ensures forall i :: 0 <= i < |trail| ==> IsSpace(trail[i])
  {
    var r := TrimRight(q);
    var k := |r|;
    trail := q[k..];
    assert r == q[..k];
    assert q == q[..k] + q[k..];
    forall i | 0 <= i < |trail| ensures IsSpace(trail[i]) {
      assert trail[i] == q[|r| + i];
    }
  }

  /** A string made only of whitespace `rstrip()`s to nothing. */
  lemma {:induction false} TrimRightAllSpace(p: string)
    requires forall i :: 0 <= i < |p| ==> IsSpace(p[i])
    ensures TrimRight(p) == []
  {
    TrimRightSpaces([], p);
    assert [] + p == p;
  }

  /** A whitespace run followed by a whitespace run is all whitespace. */
  lemma {:induction false} AllSpaceConcat(a: string, b: string)
    requires forall i :: 0 <= i < |a| ==> IsSpace(a[i])
    requires forall i :: 0 <= i < |b| ==> IsSpace(b[i])
    ensures forall i :: 0 <= i < |a + b| ==> IsSpace((a + b)[i])
  {
    forall i | 0 <= i < |a + b| ensures IsSpace((a + b)[i]) {
      if i >= |a| {
        assert (a + b)[i] == b[i - |a|];
      }
    }
  }

  /** Concatenation is associative. */
  lemma ConcatAssoc(a: string, b: string, c: string)
    ensures a + (b + c) == (a + b) + c
  {
  }

  /** A string that strips to nothing `rstrip()`s to nothing. */
  lemma {:induction false} TrimRightBlank(p: string)
    requires Strip(p) == []
    ensures TrimRight(p) == []
  {
    var q := TrimLeft(p);
    var lead := TrimLeftParts(p);
    var trail := TrimRightParts(q);
    assert q == trail;
    AllSpaceConcat(lead, trail);
    TrimRightAllSpace(p);
  }

  /** `rstrip()` drops a trailing whitespace run and keeps everything before visible text. */
  lemma TrimRightOfParts(lead: string, mid: string, trail: string)
    requires forall i :: 0 <= i < |trail| ==> IsSpace(trail[i])
    requires mid != [] && !IsSpace(mid[|mid| - 1])
    ensures TrimRight(lead + mid + trail) == lead + mid
  {
    var front := lead + mid;
    assert front[|front| - 1] == mid[|mid| - 1];
    TrimRightSpaces(front, trail);
  }

  /** Whitespace in front of a stripped string strips away. */
  lemma StripLeading(lead: string, mid: string)
    requires forall i :: 0 <= i < |lead| ==> IsSpace(lead[i])
    requires IsStripped(mid) && mid != []
    ensures Strip(lead + mid) == mid
  {
    StripSurrounded(lead, mid, []);
    assert lead + mid + [] == lead + mid;
  }

  /** Stripping after `rstrip()` is stripping. */
  lemma {:induction false} StripTrimRight(p: string)
    ensures Strip(TrimRight(p)) == Strip(p)
  {
    if Strip(p) == [] {
      TrimRightBlank(p);
    } else {
      var q := TrimLeft(p);
      var r := TrimRight(q);
      var lead := TrimLeftParts(p);
      var trail := TrimRightParts(q);
      ConcatAssoc(lead, r, trail);
      TrimRightOfParts(lead, r, trail);
      StripLeading(lead, r);
    }
  }

  /** `lstrip()` of a joined line only touches its first piece. */
  lemma TrimLeftJoin(ps: seq<string>, d: char)
    requires |ps| >= 2 && !IsSpace(d)
    ensures TrimLeft(Join(ps, d)) == Join([TrimLeft(ps[0])] + ps[1..], d)
  {
    TrimLeftBefore(ps[0], d, Join(ps[1..], d));
    JoinCons(TrimLeft(ps[0]), ps[1..], d);
  }

  /** `rstrip()` of a joined line only touches its last piece. */
  lemma TrimRightJoin(ps: seq<string>, d: char)
    requires |ps| >= 2 && !IsSpace(d)
    ensures TrimRight(Join(ps, d)) == Join(ps[..|ps| - 1] + [TrimRight(ps[|ps| - 1])], d)
  {
    var n := |ps| - 1;
    assert ps == ps[..n] + [ps[n]];
    JoinSnoc(ps[..n], ps[n], d);
    TrimRightAfter(Join(ps[..n], d), d, ps[n]);
    JoinSnoc(ps[..n], TrimRight(ps[n]), d);
  }

  /** `lstrip()` adds no character. */
  lemma TrimLeftFree(x: string, d: char)
    requires d !in x
    ensures d !in TrimLeft(x)
  {
  }

  /** `rstrip()` adds no character. */
  lemma TrimRightFree(x: string, d: char)
    requires d !in x
    ensures d !in TrimRight(x)
  {
  }

  /** `lstrip()` adds no character and leaves what `strip()` makes of the string. */
  lemma TrimLeftKeeps(x: string, d: char)
    requires d !in x
    ensures d !in TrimLeft(x) && Strip(TrimLeft(x)) == Strip(x)
  {
    TrimLeftFree(x, d);
    StripTrimLeft(x);
  }

  /** `rstrip()` adds no character and leaves what `strip()` makes of the string. */
  lemma TrimRightKeeps(x: string, d: char)
    requires d !in x
    ensures d !in TrimRight(x) && Strip(TrimRight(x)) == Strip(x)
  {
    TrimRightFree(x, d);
    StripTrimRight(x);
  }

  /** `s.startswith(p)`. */
  predicate StartsWith(s: string, p: string) {
    |p| <= |s| && s[..|p|] == p
  }

  /** `s.endswith(p)`. */
  predicate EndsWith(s: string, p: string) {
    |p| <= |s| && s[|s| - |p|..] == p
  }

  /** ASCII case folding of one character, as `lower()` does for A-Z. */
  function LowerChar(c: char): (r: char)
    ensures 'A' <= c <= 'Z' ==> r as int == c as int + 32
    ensures !('A' <= c <= 'Z') ==> r == c
  {
    if 'A' <= c <= 'Z' then (c as int + 32) as char else c
  }

  /** `s.lower()` restricted to ASCII folding. */
  function Lower(s: string): (r: string)
    ensures |r| == |s|
    ensures forall i :: 0 <= i < |s| ==> r[i] == LowerChar(s[i])
  {
    seq(|s|, i requires 0 <= i < |s| => LowerChar(s[i]))
  }

  /** `s[:n]`: the first `n` characters, or all of them when `s` is shorter. */
  function Take(s: string, n: nat): (r: string)
    ensures |r| <= n && |r| <= |s|
    ensures r == s[..|r|]
    ensures |s| >= n ==> |r| == n
    ensures |s| < n ==> r == s
  {
    if |s| <= n then s else s[..n]
  }

  /** `s.split(d)`: the pieces between the occurrences of `d`, in order. */
  function Split(s: string, d: char): (r: seq<string>)
    ensures |r| == multiset(s)[d] + 1
    ensures forall i :: 0 <= i < |r| ==> d !in r[i]
  {
    if s == [] then [""]
    else
      var rest := Split(s[1..], d);
      assert s == [s[0]] + s[1..];
      assert multiset(s) == multiset{s[0]} + multiset(s[1..]);
      if s[0] == d then [""] + rest
      else
        var r := [[s[0]] + rest[0]] + rest[1..];
        assert forall i :: 1 <= i < |r| ==> r[i] == rest[i];
        r
  }

  /** `d.join(parts)`, the inverse of `Split`. */
  function Join(parts: seq<string>, d: char): string
    requires |parts| >= 1
  {
    if |parts| == 1 then parts[0] else parts[0] + [d] + Join(parts[1..], d)
  }

  /** Joining a leading piece onto further pieces puts `d` between them. */
  lemma JoinCons(p: string, rest: seq<string>, d: char)
    requires |rest| >= 1
    ensures Join([p] + rest, d) == p + [d] + Join(rest, d)
  {
    assert ([p] + rest)[1..] == rest;
  }

  /** Extending the first piece by a character extends the joined text by it. */
  lemma JoinExtendHead(c: char, rest: seq<string>, d: char)
    requires |rest| >= 1
    ensures Join([[c] + rest[0]] + rest[1..], d) == [c] + Join(rest, d)
  {
    if |rest| > 1 {
      JoinCons([c] + rest[0], rest[1..], d);
      JoinCons(rest[0], rest[1..], d);
      assert rest == [rest[0]] + rest[1..];
    }
  }

  /** Splitting and joining a non-empty string puts its first character back in front. */
  lemma JoinSplitStep(s: string, d: char)
    requires s != []
    ensures Join(Split(s, d), d) == [s[0]] + Join(Split(s[1..], d), d)
  {
    var rest := Split(s[1..], d);
    if s[0] == d {
      JoinCons("", rest, d);
    } else {
      JoinExtendHead(s[0], rest, d);
    }
  }

  /** Splitting on `d` and joining back with `d` gives the original string. */
  lemma {:induction false} JoinSplit(s: string, d: char)
    ensures Join(Split(s, d), d) == s
  {
    if s != [] {
      JoinSplitStep(s, d);
      JoinSplit(s[1..], d);
      assert s == [s[0]] + s[1..];
    }
  }

  /** A string free of `d` splits into itself alone. */
  lemma {:induction false} SplitFree(s: string, d: char)
    requires d !in s
    ensures Split(s, d) == [s]
  {
    if s != [] {
      assert s == [s[0]] + s[1..];
      SplitFree(s[1..], d);
    }
  }

  /** Text free of `d` followed by `d` becomes the first piece, and the split goes on after it. */
  lemma {:induction false} SplitCons(x: string, y: string, d: char)
    requires d !in x
    ensures Split(x + [d] + y, d) == [x] + Split(y, d)
  {
    var s := x + [d] + y;
    if x == [] {
      assert s[0] == d && s[1..] == y;
    } else {
      assert s[0] == x[0] && s[1..] == x[1..] + [d] + y;
      SplitCons(x[1..], y, d);
      assert x == [x[0]] + x[1..];
    }
  }

  /** Joining pieces free of `d` with `d` and splitting on `d` gives the pieces back. */
  lemma {:induction false} SplitJoin(ps: seq<string>, d: char)
    requires |ps| >= 1 && forall i :: 0 <= i < |ps| ==> d !in ps[i]
    ensures Split(Join(ps, d), d) == ps
  {
    if |ps| == 1 {
      SplitFree(ps[0], d);
    } else {
      SplitJoin(ps[1..], d);
      SplitCons(ps[0], Join(ps[1..], d), d);
      assert ps == [ps[0]] + ps[1..];
    }
  }

  /** Joining one more piece on the right puts `d` before it. */
  lemma {:induction false} JoinSnoc(ps: seq<string>, q: string, d: char)
    requires |ps| >= 1
    ensures Join(ps + [q], d) == Join(ps, d) + [d] + q
  {
    if |ps| == 1 {
      assert (ps + [q])[1..] == [q];
    } else {
      assert (ps + [q])[1..] == ps[1..] + [q];
      JoinSnoc(ps[1..], q, d);
    }
  }

  /** `s.split(d, 1)`: `[s]` when `d` does not occur, else the text before and after its first occurrence. */
  function SplitOnce(s: string, d: char): (r: seq<string>)
    ensures 1 <= |r| <= 2
    ensures |r| == 1 <==> d !in s
    ensures d !in r[0]
    ensures |r| == 1 ==> r[0] == s
    ensures |r| == 2 ==> r[0] + [d] + r[1] == s
  {
    var p := Split(s, d);
    JoinSplit(s, d);
    assert d in s <==> multiset(s)[d] > 0;
    if |p| == 1 then p else [p[0], Join(p[1..], d)]
  }

  /** `s` holds `pat` at some position. */
  ghost predicate Occurs(s: string, pat: string) {
    exists i :: OccursAt(s, pat, i)
  }

  /** `s` holds `pat` starting at index `i`. */
  predicate OccursAt(s: string, pat: string, i: int) {
    0 <= i && i + |pat| <= |s| && s[i..i + |pat|] == pat
  }

  /**
   * `s.replace(pat, "")`: scans left to right and deletes every
   * non-overlapping occurrence of `pat`, not only a leading one.
   */
  function RemoveAll(s: string, pat: string): (r: string)
    requires pat != []
    ensures |r| <= |s|
    decreases |s|
  {
    if |s| < |pat| then s
    else if s[..|pat|] == pat then RemoveAll(s[|pat|..], pat)
    else [s[0]] + RemoveAll(s[1..], pat)
  }

  /** An occurrence in the tail of `s` is an occurrence in `s`, one position later. */
  lemma OccursInTail(s: string, pat: string, i: int)
    requires s != [] && OccursAt(s[1..], pat, i)
    ensures OccursAt(s, pat, i + 1)
  {
    assert s[1..][i..i + |pat|] == s[i + 1..i + 1 + |pat|];
  }

  /** When `pat` does not occur in `s`, `replace` leaves `s` unchanged. */
  lemma {:induction false} RemoveAllAbsent(s: string, pat: string)
    requires pat != [] && !Occurs(s, pat)
    ensures RemoveAll(s, pat) == s
    decreases |s|
  {
    if |s| >= |pat| {
      assert !OccursAt(s, pat, 0);
      forall i | 0 <= i
        ensures !OccursAt(s[1..], pat, i)
      {
        if OccursAt(s[1..], pat, i) {
          OccursInTail(s, pat, i);
        }
      }
      RemoveAllAbsent(s[1..], pat);
      assert s == [s[0]] + s[1..];
    }
  }

  /** A leading `pat` is removed and the scan goes on after it. */
  lemma RemoveAllDrop(pat: string, rest: string)
    requires pat != []
    ensures RemoveAll(pat + rest, pat) == RemoveAll(rest, pat)
  {
    var s := pat + rest;
    assert s[..|pat|] == pat;
    assert s[|pat|..] == rest;
  }

  /** Text holding no first character of `pat` is kept as it is, and the scan goes on after it. */
  lemma {:induction false} RemoveAllKeep(x: string, rest: string, pat: string)
    requires pat != [] && pat[0] !in x
    ensures RemoveAll(x + rest, pat) == x + RemoveAll(rest, pat)
  {
    if x != [] {
      var s := x + rest;
      assert s[0] == x[0];
      if |s| >= |pat| {
        assert s[..|pat|][0] != pat[0];
      }
      assert s[1..] == x[1..] + rest;
      RemoveAllKeep(x[1..], rest, pat);
    } else {
      assert x + rest == rest;
    }
  }

  /** A leading `pat` followed by text free of `pat` is removed, leaving that text. */
  lemma {:induction false} RemoveAllPrefix(pat: string, rest: string)
    requires pat != [] && !Occurs(rest, pat)
    ensures RemoveAll(pat + rest, pat) == rest
  {
    var s := pat + rest;
    assert s[..|pat|] == pat;
    assert s[|pat|..] == rest;
    RemoveAllAbsent(rest, pat);
  }
}
