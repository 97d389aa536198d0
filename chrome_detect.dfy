/**
 * Model of `is_chrome_detect` in `src/chrome_detect.h`: decides whether the
 * current process is a sandboxed browser host. The two operating-system
 * reads it makes become inputs: the process environment (for `getenv`) and
 * the target of `/proc/self/exe`, absent when `readlink` fails.
 */
module ChromeDetect {
  import opened Wrappers

  /** PATH_MAX on Linux (limits.h): the size of the path buffer. */
  const PathMax: nat := 4096

  /** The override variable; any value, even the empty string, forces true. */
  const ForceVar: string := "FORCENVDEC"

  /** The three case-sensitive markers searched for, in the order searched. */
  const Markers: seq<string> := ["chrome", "chromium", "thorium"]

  // ---------------------------------------------------------------------
  // Substring search (strstr).
  // ---------------------------------------------------------------------

  /** `needle` occurs in `hay` starting at index i. */
  predicate OccursAt(hay: string, needle: string, i: nat)
  {
    i + |needle| <= |hay| && hay[i..i + |needle|] == needle
  }

  /** `needle` is a contiguous substring of `hay`: a prefix of `hay` or of
      one of its suffixes. */
  predicate Contains(hay: string, needle: string)
    decreases |hay|
  {
    if |needle| > |hay| then false
    else hay[..|needle|] == needle || Contains(hay[1..], needle)
  }

  /** Contains holds exactly when there is a position where the needle occurs. */
  lemma {:induction false} ContainsIff(hay: string, needle: string)
    ensures Contains(hay, needle) <==> exists i: nat :: OccursAt(hay, needle, i)
    decreases |hay|
  {
    if |needle| > |hay| {
    } else if hay[..|needle|] == needle {
      assert OccursAt(hay, needle, 0);
    } else {
      ContainsIff(hay[1..], needle);
      if Contains(hay[1..], needle) {
        var i: nat :| OccursAt(hay[1..], needle, i);
        assert hay[i + 1..i + 1 + |needle|] == hay[1..][i..i + |needle|];
        assert OccursAt(hay, needle, i + 1);
      } else if i: nat :| OccursAt(hay, needle, i) {
        assert i != 0;
        assert hay[1..][i - 1..i - 1 + |needle|] == hay[i..i + |needle|];
        assert OccursAt(hay[1..], needle, i - 1);
        assert false;
      }
    }
  }

  /** strstr: the first index at which `needle` occurs in `hay`, or None
      (C's NULL) when it does not occur. Compares character by character. */
  method Strstr(hay: string, needle: string) returns (r: Option<nat>)
    ensures r.Some? ==> OccursAt(hay, needle, r.value)
    ensures r.Some? ==> forall j: nat :: j < r.value ==> !OccursAt(hay, needle, j)
    ensures r.None? <==> !Contains(hay, needle)
  {
    if |needle| > |hay| {
      ContainsIff(hay, needle);
      return None;
    }
    var i := 0;
    while i <= |hay| - |needle|
      invariant i <= |hay| - |needle| + 1
      invariant forall j: nat :: j < i ==> !OccursAt(hay, needle, j)
    {
      var k := 0;
      while k < |needle| && hay[i + k] == needle[k]
        invariant k <= |needle|
        invariant forall j :: 0 <= j < k ==> hay[i + j] == needle[j]
      {
        k := k + 1;
      }
      if k == |needle| {
        assert hay[i..i + |needle|] == needle;
        assert OccursAt(hay, needle, i);
        ContainsIff(hay, needle);
        return Some(i);
      }
      assert hay[i..i + |needle|][k] != needle[k];
      i := i + 1;
    }
    ContainsIff(hay, needle);
    return None;
  }

  // ---------------------------------------------------------------------
  // The path that is examined.
  // ---------------------------------------------------------------------

  /** What `readlink(..., path, PATH_MAX - 1)` stores: the link target cut
      to at most PATH_MAX - 1 characters. */
  function ReadlinkBuffer(target: string): (b: string)
    ensures |b| == if |target| < PathMax then |target| else PathMax - 1
    ensures b <= target
    ensures |target| < PathMax ==> b == target
  {
    if |target| < PathMax then target else target[..PathMax - 1]
  }

  /** The C string a NUL-terminated buffer holds: its characters before the
      first NUL. */
  function CString(buf: string): (s: string)
    ensures s <= buf
    ensures '\0' !in s
    ensures |s| < |buf| ==> buf[|s|] == '\0'
  {
    if buf == [] || buf[0] == '\0' then [] else [buf[0]] + CString(buf[1..])
  }

  /** The string strstr sees: the readlink buffer up to the NUL that
      `path[len] = '\0'` writes, or an earlier one. */
  function Examined(target: string): (s: string)
  {
    CString(ReadlinkBuffer(target))
  }

  /** A target that fits the buffer and has no NUL is examined whole. */
  lemma ExaminedShortPath(target: string)
    requires |target| < PathMax && '\0' !in target
    ensures Examined(target) == target
  {
  }

  /** Only the first PATH_MAX - 1 characters of the target matter. */
  lemma ExaminedIgnoresTail(target: string)
    requires |target| >= PathMax
    ensures Examined(target) == Examined(target[..PathMax - 1])
  {
  }

  // ---------------------------------------------------------------------
  // The classifier.
  // ---------------------------------------------------------------------

  /** One of the three markers occurs in s. */
  predicate HasMarker(s: string)
  {
    Contains(s, "chrome") || Contains(s, "chromium") || Contains(s, "thorium")
  }

  /** is_chrome_detect, with the environment `env` and `exe`, the target of
      /proc/self/exe or None when readlink fails. */
  function IsChromeDetect(env: map<string, string>, exe: Option<string>): (detected: bool)
  {
    if ForceVar in env then true
    else match exe
      case None => false
      case Some(target) => HasMarker(Examined(target))
  }

  /** The same decision, computed the way the C code does: the override
      first, then up to three strstr calls in order, stopping at the first
      match. It agrees with IsChromeDetect on every input, so repeated calls
      with the same environment and path give the same answer. */
  method IsChromeDetectRun(env: map<string, string>, exe: Option<string>) returns (b: bool)
    ensures b == IsChromeDetect(env, exe)
  {
    if ForceVar in env {
      return true;
    }
    if exe.None? {
      return false;
    }
    var path := Examined(exe.value);
    var hit := Strstr(path, "chrome");
    if hit.None? {
      hit := Strstr(path, "chromium");
    }
    if hit.None? {
      hit := Strstr(path, "thorium");
    }
    return hit.Some?;
  }

  /** The override wins over any path, readable or not. */
  lemma OverrideForcesTrue(env: map<string, string>, exe: Option<string>)
    requires ForceVar in env
    ensures IsChromeDetect(env, exe)
  {
  }

  /** Without the override an unreadable path gives false (fail-open). */
  lemma UnreadablePathFailsOpen(env: map<string, string>)
    requires ForceVar !in env
    ensures !IsChromeDetect(env, None)
  {
  }

  /** Without the override and with a readable path, the result is true
      exactly when some marker occurs at some position of the examined path. */
  lemma {:induction false} ReadablePathIff(env: map<string, string>, target: string)
    requires ForceVar !in env
    ensures IsChromeDetect(env, Some(target)) <==>
            exists m, i: nat :: m in Markers && OccursAt(Examined(target), m, i)
  {
    var s := Examined(target);
    ContainsIff(s, "chrome");
    ContainsIff(s, "chromium");
    ContainsIff(s, "thorium");
    if exists m, i: nat :: m in Markers && OccursAt(s, m, i) {
      var m, i: nat :| m in Markers && OccursAt(s, m, i);
      assert m == "chrome" || m == "chromium" || m == "thorium";
    }
  }

  /** Every match needs each character of the marker, so a path that lacks
      one of them cannot contain the marker. */
  lemma {:induction false} ContainsNeedsChar(hay: string, needle: string, k: nat)
    requires k < |needle| && Contains(hay, needle)
    ensures needle[k] in hay
  {
    ContainsIff(hay, needle);
    var i: nat :| OccursAt(hay, needle, i);
    assert hay[i + k] == hay[i..i + |needle|][k];
  }

  /** A path with no lowercase 'c' and no lowercase 't' matches no marker. */
  lemma {:induction false} NoMarkerWithoutLowercaseCT(s: string)
    requires 'c' !in s && 't' !in s
    ensures !HasMarker(s)
  {
    if Contains(s, "chrome") { ContainsNeedsChar(s, "chrome", 0); }
    if Contains(s, "chromium") { ContainsNeedsChar(s, "chromium", 0); }
    if Contains(s, "thorium") { ContainsNeedsChar(s, "thorium", 0); }
  }

  /** Matching is case-sensitive: upper-case spellings do not count. */
  lemma CaseSensitiveMatch()
    ensures !IsChromeDetect(map[], Some("/usr/lib/Chromium/CHROME-THORIUM"))
  {
    var p := "/usr/lib/Chromium/CHROME-THORIUM";
    assert '\0' !in p && 'c' !in p && 't' !in p;
    ExaminedShortPath(p);
    NoMarkerWithoutLowercaseCT(p);
  }

  /** A marker lying wholly beyond the first PATH_MAX - 1 characters is not
      seen: the result is that of the truncated path. */
  lemma TruncatedTailIgnored(env: map<string, string>, target: string)
    requires |target| >= PathMax
    ensures IsChromeDetect(env, Some(target)) == IsChromeDetect(env, Some(target[..PathMax - 1]))
  {
    ExaminedIgnoresTail(target);
  }

  /** A concrete case: 4095 'a's followed by "chrome" is not detected. */
  lemma {:induction false} MarkerBeyondBufferNotSeen()
    ensures var target := seq(PathMax - 1, _ => 'a') + "chrome";
            !IsChromeDetect(map[], Some(target)) && Contains(target, "chrome")
  {
    var prefix := seq(PathMax - 1, _ => 'a');
    var target := prefix + "chrome";
    ExaminedIgnoresTail(target);
    assert target[..PathMax - 1] == prefix;
    ExaminedShortPath(prefix);
    NoMarkerWithoutLowercaseCT(prefix);
    assert OccursAt(target, "chrome", PathMax - 1);
    ContainsIff(target, "chrome");
  }

  /** The "chromium" test is not subsumed by the "chrome" test: a Chromium
      path is detected through the second marker alone. */
  lemma {:induction false} ChromiumNeedsOwnMarker(p: string)
    requires p == "/usr/lib/chromium/chromium"
    ensures IsChromeDetect(map[], Some(p))
    ensures !Contains(p, "chrome") && Contains(p, "chromium")
  {
    assert '\0' !in p && 'e' !in p;
    ExaminedShortPath(p);
    if Contains(p, "chrome") { ContainsNeedsChar(p, "chrome", 5); }
    assert OccursAt(p, "chromium", 9);
    ContainsIff(p, "chromium");
  }
}
