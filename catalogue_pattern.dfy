/** The catalogue path pattern `/catalogue/([\w]+)/([-\w]+)\.jpg`, unanchored, and
    the key its leftmost match captures. Neither group's class holds the character
    that follows it (`/` and `.`), so at each start there is at most one match and
    each group is the longest run of its class: the matcher below needs no
    backtracking. */
module CataloguePattern {
  import opened Errors
  import opened FaceKeys

  /** Go's `\w`: ASCII letters, digits and `_`. */
  predicate IsWordChar(c: char) {
    'a' <= c <= 'z' || 'A' <= c <= 'Z' || '0' <= c <= '9' || c == '_'
  }

  /** The two character classes of the pattern's groups. */
  datatype CharClass = Word | WordOrDash

  predicate InClass(c: char, cls: CharClass) {
    match cls
    case Word => IsWordChar(c)
    case WordOrDash => c == '-' || IsWordChar(c)
  }

  /** A non-empty string of `cls` characters: what `[\w]+` or `[-\w]+` captures. */
  predicate IsRun(s: string, cls: CharClass) {
    |s| > 0 && forall i :: 0 <= i < |s| ==> InClass(s[i], cls)
  }

  /** A key whose parts the two groups can capture. */
  predicate IsCatalogueKey(k: FaceKey) {
    IsRun(k.name, Word) && IsRun(k.index, WordOrDash)
  }

  const Prefix := "/catalogue/"
  const Suffix := ".jpg"

  /** The text the whole pattern matches when its groups capture `k`:
      `/catalogue/<name>/<index>.jpg`. */
  function Instance(k: FaceKey): string {
    Prefix + (k.name + ("/" + (k.index + Suffix)))
  }

  /** `s` holds `t` at position `i`. */
  predicate HasAt(s: string, i: nat, t: string) {
    i + |t| <= |s| && forall j :: 0 <= j < |t| ==> s[i + j] == t[j]
  }

  /** The pattern matches `s` at position `p` with groups `k`. */
  predicate MatchesAt(s: string, p: nat, k: FaceKey) {
    IsCatalogueKey(k) && HasAt(s, p, Instance(k))
  }

  /** Length of the longest run of `cls` characters starting at `i`. */
  function RunLength(s: string, i: nat, cls: CharClass): (n: nat)
    requires i <= |s|
    ensures i + n <= |s|
    ensures forall j :: i <= j < i + n ==> InClass(s[j], cls)
    ensures i + n == |s| || !InClass(s[i + n], cls)
    decreases |s| - i
  {
    if i < |s| && InClass(s[i], cls) then 1 + RunLength(s, i + 1, cls) else 0
  }

  /** The pattern's pieces one after the other from `p`, the groups holding `k`. */
  predicate PartsAt(s: string, p: nat, k: FaceKey) {
    var a := p + |Prefix|;
    var b := a + |k.name| + 1;
    IsCatalogueKey(k) && HasAt(s, p, Prefix) && HasAt(s, a, k.name) && HasAt(s, a + |k.name|, "/") &&
    HasAt(s, b, k.index) && HasAt(s, b + |k.index|, Suffix)
  }

  /** The match starting exactly at `p`, if any. */
  function MatchAt(s: string, p: nat): Option<FaceKey>
    requires p <= |s|
  {
    var a := p + |Prefix|;
    if HasAt(s, p, Prefix) then
      var n := RunLength(s, a, Word);
      if n > 0 && a + n < |s| && s[a + n] == '/' then
        var b := a + n + 1;
        var m := RunLength(s, b, WordOrDash);
        if m > 0 && HasAt(s, b + m, Suffix) then
          Some(FaceKey(s[a..a + n], s[b..b + m]))
        else None
      else None
    else None
  }

  /** `s` holds `x + y` at `i` exactly when it holds `x` there and `y` right after. */
  lemma HasAtConcat(s: string, i: nat, x: string, y: string)
    ensures HasAt(s, i, x + y) <==> HasAt(s, i, x) && HasAt(s, i + |x|, y)
  {
    if HasAt(s, i, x) && HasAt(s, i + |x|, y) {
      forall j | 0 <= j < |x + y| ensures s[i + j] == (x + y)[j] {
        if j >= |x| {
          assert s[i + |x| + (j - |x|)] == y[j - |x|];
        }
      }
    }
    if HasAt(s, i, x + y) {
      forall j | 0 <= j < |x| ensures s[i + j] == x[j] {
        assert s[i + j] == (x + y)[j];
      }
      forall j | 0 <= j < |y| ensures s[i + |x| + j] == y[j] {
        assert s[i + (|x| + j)] == (x + y)[|x| + j];
      }
    }
  }

  /** A string holds its own tail where that tail starts. */
  lemma HasAtTail(x: string, y: string)
    ensures HasAt(x + y, |x|, y)
  {
    assert forall j :: 0 <= j < |y| ==> (x + y)[|x| + j] == y[j];
  }

  /** Whatever `MatchAt` finds, the pattern's pieces are there. */
  lemma MatchAtSound(s: string, p: nat)
    requires p <= |s| && MatchAt(s, p).Some?
    ensures PartsAt(s, p, MatchAt(s, p).value)
  {
    var a := p + |Prefix|;
    var n := RunLength(s, a, Word);
    var b := a + n + 1;
    var m := RunLength(s, b, WordOrDash);
    assert s[a + n + 0] == "/"[0];
    assert HasAt(s, a, s[a..a + n]);
    assert HasAt(s, b, s[b..b + m]);
  }

  /** The pattern occurs at `p` exactly when its pieces do. */
  lemma PartsAtMatches(s: string, p: nat, k: FaceKey)
    ensures PartsAt(s, p, k) <==> MatchesAt(s, p, k)
  {
    var a := p + |Prefix|;
    var b := a + |k.name| + 1;
    HasAtConcat(s, p, Prefix, k.name + ("/" + (k.index + Suffix)));
    HasAtConcat(s, a, k.name, "/" + (k.index + Suffix));
    HasAtConcat(s, a + |k.name|, "/", k.index + Suffix);
    HasAtConcat(s, b, k.index, Suffix);
  }

  /** A run of `cls` characters found at `i` and followed by a character outside
      `cls` is the longest one there. */
  lemma RunLengthOf(s: string, i: nat, w: string, cls: CharClass)
    requires IsRun(w, cls) && i + |w| < |s| && HasAt(s, i, w) && !InClass(s[i + |w|], cls)
    ensures RunLength(s, i, cls) == |w|
  {
    forall j | i <= j < i + |w| ensures InClass(s[j], cls) {
      assert s[i + (j - i)] == w[j - i];
    }
  }

  /** Where the pieces are, `MatchAt` finds them: each group is the longest run
      of its class, as the character after it is outside the class. */
  lemma MatchAtOfParts(s: string, p: nat, k: FaceKey)
    requires p <= |s| && PartsAt(s, p, k)
    ensures MatchAt(s, p) == Some(k)
  {
    var a := p + |Prefix|;
    var b := a + |k.name| + 1;
    assert s[a + |k.name| + 0] == "/"[0];
    RunLengthOf(s, a, k.name, Word);
    assert s[b + |k.index| + 0] == Suffix[0];
    RunLengthOf(s, b, k.index, WordOrDash);
    var name, index := s[a..a + |k.name|], s[b..b + |k.index|];
    assert forall j :: 0 <= j < |name| ==> name[j] == s[a + j];
    assert name == k.name;
    assert forall j :: 0 <= j < |index| ==> index[j] == s[b + j];
    assert index == k.index;
  }

  /** At any start the pattern matches with at most one pair of groups, the one
      `MatchAt` finds. */
  lemma MatchAtComplete(s: string, p: nat, k: FaceKey)
    requires p <= |s|
    ensures MatchesAt(s, p, k) <==> MatchAt(s, p) == Some(k)
  {
    PartsAtMatches(s, p, k);
    if PartsAt(s, p, k) {
      MatchAtOfParts(s, p, k);
    }
    if MatchAt(s, p) == Some(k) {
      MatchAtSound(s, p);
    }
  }

  /** A match: where it starts and what its groups captured. */
  datatype Match = Match(start: nat, key: FaceKey)

  /** What `MatchAt` gives at each start `0..|s|`. */
  function Starts(s: string): (ms: seq<Option<FaceKey>>)
    ensures |ms| == |s| + 1
    ensures forall q :: 0 <= q <= |s| ==> ms[q] == MatchAt(s, q)
  {
    seq(|s| + 1, q requires 0 <= q <= |s| => MatchAt(s, q))
  }

  /** The leftmost start at or after `p` where `ms` holds a key. */
  function FirstFrom(ms: seq<Option<FaceKey>>, p: nat): (r: Option<Match>)
    requires p <= |ms|
    ensures r.Some? ==> p <= r.value.start < |ms| && ms[r.value.start] == Some(r.value.key)
    ensures r.Some? ==> forall q :: p <= q < r.value.start ==> ms[q].None?
    ensures r.None? ==> forall q :: p <= q < |ms| ==> ms[q].None?
    decreases |ms| - p
  {
    if p == |ms| then None
    else match ms[p]
      case Some(k) => Some(Match(p, k))
      case None => FirstFrom(ms, p + 1)
  }

  /** Every match begins with the pattern's leading `/`. */
  lemma MatchStartsWithSlash(s: string, p: nat)
    requires p <= |s| && MatchAt(s, p).Some?
    ensures p < |s| && s[p] == '/'
  {
    MatchAtSound(s, p);
    assert s[p + 0] == Prefix[0];
  }

  /** The leftmost key is found at the first start that holds one. */
  lemma {:induction false} FirstFromFirst(ms: seq<Option<FaceKey>>, i: nat, p: nat, k: FaceKey)
    requires i <= p < |ms| && ms[p] == Some(k)
    requires forall q :: i <= q < p ==> ms[q].None?
    ensures FirstFrom(ms, i) == Some(Match(p, k))
    decreases p - i
  {
    if i < p {
      FirstFromFirst(ms, i + 1, p, k);
    }
  }

  /** `cataloguePat.FindStringSubmatch(path)` reduced to its two groups: `None`
      when the result would not have three elements. */
  function CatalogueKey(path: string): Option<FaceKey> {
    match FirstFrom(Starts(path), 0)
    case Some(m) => Some(m.key)
    case None => None
  }

  /** The key is that of the leftmost occurrence of the pattern anywhere in the
      path, and there is none only when the pattern occurs nowhere. */
  lemma CatalogueKeyIsLeftmostMatch(path: string)
    ensures CatalogueKey(path).Some? ==>
      exists p :: MatchesAt(path, p, CatalogueKey(path).value) &&
        forall q, k :: q < p ==> !MatchesAt(path, q, k)
    ensures CatalogueKey(path).None? ==> forall p, k :: !MatchesAt(path, p, k)
  {
    var r := FirstFrom(Starts(path), 0);
    if r.Some? {
      var p := r.value.start;
      MatchAtComplete(path, p, r.value.key);
      forall q: nat, k | q < p ensures !MatchesAt(path, q, k) {
        MatchAtComplete(path, q, k);
      }
    } else {
      forall p: nat, k ensures !MatchesAt(path, p, k) {
        if p <= |path| {
          MatchAtComplete(path, p, k);
        }
      }
    }
  }

  /** Every key taken from a path can be captured by the groups: a non-empty
      `\w` name and a non-empty `[-\w]` index. */
  lemma CatalogueKeyShape(path: string)
    requires CatalogueKey(path).Some?
    ensures IsCatalogueKey(CatalogueKey(path).value)
  {
    MatchAtSound(path, FirstFrom(Starts(path), 0).value.start);
  }
}
