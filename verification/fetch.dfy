/**
 * The download stage both scripts share: the locator list is tried in order,
 * FTP for `ftp://` locators and HTTPS for the rest, until one attempt
 * returns without raising; a failed attempt removes any partial zip file.
 * The transport itself is an outcome per locator supplied by the caller.
 */
module Fetch {
  import opened Wrappers
  import opened Text

  const FTP_SCHEME: string := "ftp://"

  /** What the transport did for one locator once it was contacted. */
  datatype Transfer =
    | Delivered                  // the whole archive was written to the zip path
    | Broke(wrotePartial: bool)  // it raised, possibly after opening the zip path

  /** The transport call an attempt makes (or the error it raises before making one). */
  datatype Attempt =
    | Https(url: string)
    | Ftp(host: string, path: string)
    | FtpNoPath(url: string)     // `parts[1]` raises IndexError: no '/' after the scheme was removed

  /** `u.startswith("ftp://")`: the locator is fetched over FTP. */
  predicate IsFtp(u: string) {
    StartsWith(u, FTP_SCHEME)
  }

  /**
   * `download_ftp`'s locator split: every "ftp://" is removed, then the text
   * is split once on '/'; `None` when there is no second part to index.
   */
  function FtpTarget(u: string): (r: Option<(string, string)>)
    ensures r.None? <==> '/' !in RemoveAll(u, FTP_SCHEME)
    ensures r.Some? ==> '/' !in r.value.0
    ensures r.Some? ==> r.value.0 + "/" + r.value.1 == RemoveAll(u, FTP_SCHEME)
  {
    var parts := SplitOnce(RemoveAll(u, FTP_SCHEME), '/');
    if |parts| < 2 then None else Some((parts[0], parts[1]))
  }

  /** Splitting once at a '/' preceded by no other '/' gives the text on either side of it. */
  lemma SplitOnceAtFirst(s: string, k: nat)
    requires k < |s| && s[k] == '/' && '/' !in s[..k]
    ensures SplitOnce(s, '/') == [s[..k], s[k + 1..]]
  {
    var parts := SplitOnce(s, '/');
    assert s[k] in s;
    var h := parts[0];
    assert h + "/" + parts[1] == s;
    assert s[..|h|] == h && s[|h|] == '/';
    assert forall j :: 0 <= j < k ==> s[..k][j] == s[j];
    assert forall j :: 0 <= j < |h| ==> h[j] == s[j];
    assert |h| == k;
    assert parts[1] == s[k + 1..];
  }

  /** A well-formed FTP locator gives the host before the first '/' and the rest as the path. */
  lemma FtpTargetOfLocator(host: string, path: string)
    requires '/' !in host && !Occurs(host + "/" + path, FTP_SCHEME)
    ensures FtpTarget(FTP_SCHEME + host + "/" + path) == Some((host, path))
  {
    var rest := host + "/" + path;
    assert FTP_SCHEME + host + "/" + path == FTP_SCHEME + rest;
    RemoveAllPrefix(FTP_SCHEME, rest);
    assert rest[..|host|] == host && rest[|host| + 1..] == path;
    SplitOnceAtFirst(rest, |host|);
  }

  /**
   * `replace` removes every "ftp://", not only the scheme: a second one
   * inside the path disappears from the path that is requested.
   */
  lemma FtpTargetDropsInnerScheme(host: string, dir: string, file: string)
    requires '/' !in host
    requires 'f' !in host && 'f' !in dir && 'f' !in file
    ensures FtpTarget(FTP_SCHEME + host + "/" + dir + "/" + FTP_SCHEME + file) == Some((host, dir + "/" + file))
  {
    var p := FTP_SCHEME;
    var u := p + host + "/" + dir + "/" + p + file;
    var front := host + "/" + dir + "/";
    var rest := front + file;
    assert RemoveAll(u, p) == rest by {
      assert u == p + (front + (p + file));
      RemoveAllDrop(p, front + (p + file));
      RemoveAllKeep(front, p + file, p);
      RemoveAllDrop(p, file);
      RemoveAllKeep(file, [], p);
      assert file + [] == file;
    }
    assert rest[..|host|] == host && rest[|host|] == '/' && rest[|host| + 1..] == dir + "/" + file by {
      assert rest == host + ("/" + (dir + "/" + file));
    }
    SplitOnceAtFirst(rest, |host|);
  }

  /** The transport call made for locator `u`: chosen by the scheme prefix. */
  function AttemptFor(u: string): (a: Attempt)
    ensures a.Https? <==> !IsFtp(u)
    ensures a.FtpNoPath? ==> IsFtp(u) && FtpTarget(u).None?
    ensures a.Ftp? ==> IsFtp(u) && FtpTarget(u) == Some((a.host, a.path))
  {
    if IsFtp(u) then
      match FtpTarget(u)
      case None => FtpNoPath(u)
      case Some((host, path)) => Ftp(host, path)
    else Https(u)
  }

  /** Locator `u` gives a complete archive: its attempt reaches the transport and the transport delivers. */
  predicate Succeeds(u: string, t: Transfer) {
    !AttemptFor(u).FtpNoPath? && t.Delivered?
  }

  /** The index of the first locator whose attempt does not raise, if any. */
  function FirstSuccess(urls: seq<string>, net: seq<Transfer>): (r: Option<nat>)
    requires |net| == |urls|
    ensures r.Some? ==> r.value < |urls| && Succeeds(urls[r.value], net[r.value])
    ensures forall i {:trigger Succeeds(urls[i], net[i])} :: 0 <= i < |urls| && (r.None? || i < r.value) ==> !Succeeds(urls[i], net[i])
  {
    if urls == [] then None
    else if Succeeds(urls[0], net[0]) then Some(0)
    else
      match FirstSuccess(urls[1..], net[1..])
      case None => None
      case Some(k) => Some(k + 1)
  }

  /** How many locators are tried: up to and including the first success, else all. */
  function TriedCount(urls: seq<string>, net: seq<Transfer>): (n: nat)
    requires |net| == |urls|
    ensures n <= |urls|
  {
    match FirstSuccess(urls, net)
    case Some(k) => k + 1
    case None => |urls|
  }

  /** The transport calls made for the first `n` locators, in list order. */
  function AttemptsFor(urls: seq<string>, n: nat): (r: seq<Attempt>)
    requires n <= |urls|
    ensures |r| == n
    ensures forall i {:trigger r[i]} :: 0 <= i < n ==> r[i] == AttemptFor(urls[i])
  {
    if n == 0 then [] else AttemptsFor(urls, n - 1) + [AttemptFor(urls[n - 1])]
  }

  /**
   * Whether a file is at the zip path as each of the first `n` attempts
   * starts: whatever was there before the loop for the first attempt, and
   * nothing for every later one.
   */
  function ZipTrace(zipBefore: bool, n: nat): (r: seq<bool>)
    ensures |r| == n
    ensures r != [] ==> r[0] == zipBefore
    ensures forall i :: 0 < i < |r| ==> !r[i]
  {
    if n == 0 then [] else [zipBefore] + seq(n - 1, _ => false)
  }

  /** One more attempt extends the trace by the zip state as it starts. */
  lemma ZipTraceSnoc(zipBefore: bool, n: nat)
    ensures ZipTrace(zipBefore, n + 1) == ZipTrace(zipBefore, n) + [n == 0 && zipBefore]
  {
    var r, r1 := ZipTrace(zipBefore, n), ZipTrace(zipBefore, n + 1);
    assert forall i :: 0 <= i < n + 1 ==> r1[i] == (r + [n == 0 && zipBefore])[i];
  }

  /**
   * One pass of the loop body: the `try` block for locator `u` and, when it
   * raises, the `except` branch that removes any file at the zip path.
   * `zipExists` says whether a file was there beforehand.
   */
  method TryLocator(u: string, t: Transfer, zipExists: bool) returns (raised: bool, zipAfter: bool)
    ensures raised <==> !Succeeds(u, t)
    ensures zipAfter <==> !raised
  {
    var a := AttemptFor(u);
    zipAfter := zipExists;
    if a.FtpNoPath? {
      raised := true;                      // IndexError before any transport call
    } else {
      match t
      case Delivered =>
        raised := false;
        zipAfter := true;
      case Broke(partial) =>
        raised := true;
        zipAfter := zipAfter || partial;
    }
    if raised && zipAfter {
      zipAfter := false;                   // os.remove(zip_path)
    }
  }

  /**
   * The `for u in urls: try ... except ... else: exit(1)` loop.
   * `won` is the index whose attempt did not raise (`None`: the `else`
   * branch, exit status 1), `tried` the attempts made, in order, and
   * `zipExists` whether a file is at the zip path afterwards; `zipBefore`
   * says whether one was there when the loop started. `zipAtTry[i]` says
   * whether a file was at the zip path as attempt i started: a failed
   * attempt's partial file is removed before the next locator is tried.
   */
  method Download(urls: seq<string>, net: seq<Transfer>, zipBefore: bool)
    returns (won: Option<nat>, tried: seq<Attempt>, zipExists: bool, zipAtTry: seq<bool>)
    requires |net| == |urls|
    ensures won == FirstSuccess(urls, net)
    ensures tried == AttemptsFor(urls, TriedCount(urls, net))
    ensures zipExists <==> won.Some? || (urls == [] && zipBefore)
    ensures zipAtTry == ZipTrace(zipBefore, |tried|)
  {
    won, tried, zipExists, zipAtTry := None, [], zipBefore, [];
    var i := 0;
    while i < |urls|
      invariant 0 <= i <= |urls|
      invariant forall j {:trigger Succeeds(urls[j], net[j])} :: 0 <= j < i ==> !Succeeds(urls[j], net[j])
      invariant tried == AttemptsFor(urls, i)
      invariant zipExists <==> (i == 0 && zipBefore)
      invariant zipAtTry == ZipTrace(zipBefore, i)
    {
      ZipTraceSnoc(zipBefore, i);
      zipAtTry := zipAtTry + [zipExists];
      tried := tried + [AttemptFor(urls[i])];
      var raised;
      raised, zipExists := TryLocator(urls[i], net[i], zipExists);
      if !raised {
        won := Some(i);
        FirstSuccessAt(urls, net, i);
        return;
      }
      i := i + 1;
    }
  }

  /** When the first `k` locators fail and locator `k` succeeds, `k` is the first success. */
  lemma {:induction false} FirstSuccessAt(urls: seq<string>, net: seq<Transfer>, k: nat)
    requires |net| == |urls| && k < |urls|
    requires forall j :: 0 <= j < k ==> !Succeeds(urls[j], net[j])
    requires Succeeds(urls[k], net[k])
    ensures FirstSuccess(urls, net) == Some(k)
  {
    if k > 0 {
      FirstSuccessAt(urls[1..], net[1..], k - 1);
    }
  }
}
