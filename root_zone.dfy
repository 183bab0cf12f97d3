/**
 * The root-zone heuristic of `rootZoneGroups`: the match of the regular
 * expression `/[A-z0-9]+\.[A-z0-9]+$/u` against a hostname, or undefined.
 *
 * `exec` tries the start positions from left to right and returns the first
 * match; anchored by `$`, a match from position `k` is the whole suffix
 * `host[k..]`. So the result is the longest suffix of the form
 * label `.` label, where a label is a non-empty run of `[A-z0-9]`.
 */
module Zones {
  import opened Wrappers

  /**
   * `[A-z0-9]`: the range 'A'..'z' also holds the six characters
   * `[ \ ] ^ _` and the backtick, so these count as label characters.
   */
  predicate IsZoneChar(c: char) {
    ('A' <= c <= 'z') || ('0' <= c <= '9')
  }

  predicate AllZoneChars(s: string) {
    forall i :: 0 <= i < |s| ==> IsZoneChar(s[i])
  }

  /** `s` is matched as a whole by `[A-z0-9]+\.[A-z0-9]+`. */
  ghost predicate IsZoneShape(s: string) {
    exists d :: 0 < d < |s| - 1 && s[d] == '.' && AllZoneChars(s[..d]) && AllZoneChars(s[d + 1..])
  }

  /** The position of the last '.' in `s`. */
  function LastDot(s: string): (r: Option<nat>)
    ensures r.Some? ==> r.value < |s| && s[r.value] == '.' && forall i :: r.value < i < |s| ==> s[i] != '.'
    ensures r.None? ==> forall i :: 0 <= i < |s| ==> s[i] != '.'
  {
    if |s| == 0 then None
    else if s[|s| - 1] == '.' then Some(|s| - 1)
    else LastDot(s[..|s| - 1])
  }

  /** Where the run of label characters that ends just before position `j` starts. */
  function RunStart(s: string, j: nat): (i: nat)
    requires j <= |s|
    ensures i <= j && AllZoneChars(s[i..j])
    ensures i == 0 || !IsZoneChar(s[i - 1])
    decreases j
  {
    if j == 0 || !IsZoneChar(s[j - 1]) then j
    else
      var i := RunStart(s, j - 1);
      assert forall t :: 0 <= t < j - i ==> s[i..j][t] == s[i + t] && (t < j - 1 - i ==> s[i..j - 1][t] == s[i + t]);
      i
  }

  /** `/[A-z0-9]+\.[A-z0-9]+$/u.exec(host)?.[0]` */
  function RootZone(host: string): Option<string> {
    match LastDot(host)
    case None => None
    case Some(d) =>
      var i := RunStart(host, d);
      if i < d && d + 1 < |host| && AllZoneChars(host[d + 1..]) then Some(host[i..]) else None
  }

  /** A '.' with no '.' after it is the last dot. */
  lemma {:induction false} LastDotAt(s: string, d: nat)
    requires d < |s| && s[d] == '.'
    requires forall i :: d < i < |s| ==> s[i] != '.'
    ensures LastDot(s) == Some(d)
    decreases |s|
  {
    if d < |s| - 1 {
      LastDotAt(s[..|s| - 1], d);
    }
  }

  /** The run found by `RunStart` is the longest one. */
  lemma RunStartIsLongest(s: string, j: nat, k: nat)
    requires k <= j <= |s| && AllZoneChars(s[k..j])
    ensures RunStart(s, j) <= k
  {
  }

  /** A suffix of the pattern's shape has its dot at the host's last dot, with labels on both sides. */
  lemma ShapedSuffix(host: string, k: nat)
    requires k <= |host| && IsZoneShape(host[k..])
    ensures LastDot(host).Some?
    ensures var d := LastDot(host).value;
      && k < d && d + 1 < |host|
      && AllZoneChars(host[d + 1..])
      && RunStart(host, d) <= k
  {
    var s := host[k..];
    var e :| 0 < e < |s| - 1 && s[e] == '.' && AllZoneChars(s[..e]) && AllZoneChars(s[e + 1..]);
    var d := k + e;
    assert host[d + 1..] == s[e + 1..];
    forall i | d < i < |host| ensures host[i] != '.' {
      assert host[i] == s[e + 1..][i - d - 1];
    }
    LastDotAt(host, d);
    assert host[k..d] == s[..e];
    RunStartIsLongest(host, d, k);
  }

  /**
   * `RootZone` is the regular expression's match: when it is defined it is a
   * suffix of the host of the pattern's shape and no longer suffix (no
   * earlier start position) has that shape; when it is undefined no suffix
   * has that shape.
   */
  lemma RootZoneIsLeftmostMatch(host: string)
    ensures match RootZone(host)
      case Some(z) =>
        && |z| <= |host| && z == host[|host| - |z|..]
        && IsZoneShape(z)
        && (forall k :: 0 <= k < |host| - |z| ==> !IsZoneShape(host[k..]))
      case None =>
        forall k :: 0 <= k <= |host| ==> !IsZoneShape(host[k..])
  {
    match RootZone(host)
    case Some(z) =>
      var d := LastDot(host).value;
      var i := RunStart(host, d);
      assert z == host[i..];
      assert z[..d - i] == host[i..d];
      assert z[d - i + 1..] == host[d + 1..];
      assert z[d - i] == '.';
      forall k | 0 <= k < |host| - |z| ensures !IsZoneShape(host[k..]) {
        if IsZoneShape(host[k..]) {
          ShapedSuffix(host, k);
        }
      }
    case None =>
      forall k | 0 <= k <= |host| ensures !IsZoneShape(host[k..]) {
        if IsZoneShape(host[k..]) {
          ShapedSuffix(host, k);
        }
      }
  }

  /** A root zone has a single '.': the one between its two labels. */
  lemma RootZoneOneDot(host: string)
    requires RootZone(host).Some?
    ensures var z := RootZone(host).value;
      forall j, k :: 0 <= j < k < |z| && z[j] == '.' ==> z[k] != '.'
  {
    var d := LastDot(host).value;
    var i := RunStart(host, d);
    var z := host[i..];
    forall t | 0 <= t < |z| && z[t] == '.' ensures t == d - i {
      assert z[t] == host[i + t];
    }
  }

}
